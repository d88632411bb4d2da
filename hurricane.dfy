/**
  Saffir-Simpson classification of a sustained wind speed in miles per hour.
 */
module Hurricane {

  datatype Category =
    | TropicalStorm
    | Category1
    | Category2
    | Category3
    | Category4
    | Category5

  /** The text the classifier returns for each category. */
  function Label(c: Category): string {
    match c
    case TropicalStorm => "Tropical Storm"
    case Category1 => "Category 1 Hurricane"
    case Category2 => "Category 2 Hurricane"
    case Category3 => "Category 3 Hurricane"
    case Category4 => "Category 4 Hurricane"
    case Category5 => "Category 5 Hurricane"
  }

  /** Severity order: 0 for a tropical storm up to 5. */
  function Rank(c: Category): nat {
    match c
    case TropicalStorm => 0
    case Category1 => 1
    case Category2 => 2
    case Category3 => 3
    case Category4 => 4
    case Category5 => 5
  }

  /** Each category prints under its own label. */
  lemma LabelsDistinct(c: Category, d: Category)
    ensures Label(c) == Label(d) <==> c == d
  {
  }

  /**
    The classifier as written: closed integer bands 74-95, 96-110, 111-129
    and 130-156, and Category 5 for every speed no band catches.
   */
  function Classify(windSpeed: real): Category {
    if windSpeed < 74.0 then TropicalStorm
    else if 74.0 <= windSpeed <= 95.0 then Category1
    else if 96.0 <= windSpeed <= 110.0 then Category2
    else if 111.0 <= windSpeed <= 129.0 then Category3
    else if 130.0 <= windSpeed <= 156.0 then Category4
    else Category5
  }

  /** The lower bounds of categories 1 to 5. */
  const Thresholds: seq<int> := [74, 96, 111, 130, 157]

  /** How many of `bounds` are at most `n`. */
  function CountReached(bounds: seq<int>, n: int): (k: nat)
    ensures k <= |bounds|
  {
    if bounds == [] then 0
    else (if bounds[0] <= n then 1 else 0) + CountReached(bounds[1..], n)
  }

  lemma {:induction false} CountReachedMonotone(bounds: seq<int>, m: int, n: int)
    requires m <= n
    ensures CountReached(bounds, m) <= CountReached(bounds, n)
  {
    if bounds != [] {
      CountReachedMonotone(bounds[1..], m, n);
    }
  }

  /**
    On whole speeds the category's rank is the number of category
    thresholds the speed reaches.
   */
  lemma IntegerRank(n: int)
    ensures Rank(Classify(n as real)) == CountReached(Thresholds, n)
  {
    var rest := [157];
    assert CountReached(rest, n) == if 157 <= n then 1 else 0 by {
      assert rest[1..] == [];
    }
    rest := [130] + rest;
    assert CountReached(rest, n) == (if 130 <= n then 1 else 0) + CountReached(rest[1..], n);
    rest := [111] + rest;
    assert CountReached(rest, n) == (if 111 <= n then 1 else 0) + CountReached(rest[1..], n);
    rest := [96] + rest;
    assert CountReached(rest, n) == (if 96 <= n then 1 else 0) + CountReached(rest[1..], n);
    rest := [74] + rest;
    assert rest == Thresholds;
  }

  /** On whole speeds a stronger wind never gets a milder category. */
  lemma MonotoneOnIntegers(m: int, n: int)
    requires m <= n
    ensures Rank(Classify(m as real)) <= Rank(Classify(n as real))
  {
    IntegerRank(m);
    IntegerRank(n);
    CountReachedMonotone(Thresholds, m, n);
  }

  /**
    Category 5 is returned above 156 and also for the fractional speeds
    strictly between 95 and 96, 110 and 111, and 129 and 130.
   */
  lemma Category5Speeds(windSpeed: real)
    ensures Classify(windSpeed) == Category5 <==>
              || windSpeed > 156.0
              || 95.0 < windSpeed < 96.0
              || 110.0 < windSpeed < 111.0
              || 129.0 < windSpeed < 130.0
  {
  }

  /** Over real speeds the classifier is not monotone: 95.5 is Category 5, 96 is Category 2. */
  lemma NotMonotoneOnReals()
    ensures 95.5 < 96.0 && Rank(Classify(95.5)) > Rank(Classify(96.0))
  {
  }

  /** The evidently intended classifier: each band runs up to the next threshold. */
  function ClassifyContiguous(windSpeed: real): Category {
    if windSpeed < 74.0 then TropicalStorm
    else if windSpeed < 96.0 then Category1
    else if windSpeed < 111.0 then Category2
    else if windSpeed < 130.0 then Category3
    else if windSpeed < 157.0 then Category4
    else Category5
  }

  /** The contiguous classifier agrees with the one as written on every whole speed. */
  lemma ContiguousAgreesOnIntegers(n: int)
    ensures ClassifyContiguous(n as real) == Classify(n as real)
  {
  }

  /** The contiguous classifier is monotone over all real speeds. */
  lemma ContiguousMonotone(v: real, w: real)
    requires v <= w
    ensures Rank(ClassifyContiguous(v)) <= Rank(ClassifyContiguous(w))
  {
  }
}
