/**
  What `MemoryEditor.scan_memory` computes, as functions of the target's
  regions and memory: the byte-granular sliding search inside one chunk,
  the per-region read, and the walk over the address space.
 */
module Scanner {
  import opened Wrappers
  import opened ValueCodec
  import opened TargetProcess

  /** The walk stops once the next query address reaches this (top of x64 user space). */
  const ADDRESS_CEILING: nat := 0x7FFF_FFFF_0000
  /** At most this many bytes of a region are read (10 MiB). */
  const CHUNK_CAP: nat := 10 * 1024 * 1024

  /** `min(RegionSize, 10 MiB)`. */
  function ChunkSize(r: Region): nat {
    if r.size < CHUNK_CAP then r.size else CHUNK_CAP
  }

  /** `data[o:o+len(pat)] == pat` with the window inside the data. */
  predicate MatchAt(data: seq<uint8>, pat: seq<uint8>, o: nat) {
    o + |pat| <= |data| && data[o .. o + |pat|] == pat
  }

  predicate StrictlyIncreasing(s: seq<nat>) {
    forall i, j :: 0 <= i < j < |s| ==> s[i] < s[j]
  }

  /** `base + o` for every matching offset `o < n`, in ascending order. */
  function Hits(data: seq<uint8>, pat: seq<uint8>, base: nat, n: nat): seq<nat> {
    if n == 0 then []
    else Hits(data, pat, base, n - 1) + (if MatchAt(data, pat, n - 1) then [base + n - 1] else [])
  }

  /** How many offsets `while offset < len(data) - size` examines. */
  function SearchBound(data: seq<uint8>, pat: seq<uint8>): nat {
    if |data| > |pat| then |data| - |pat| else 0
  }

  /** The sliding search of one chunk, as written: stride 1, the final window never examined. */
  function Search(data: seq<uint8>, pat: seq<uint8>, base: nat): seq<nat> {
    Hits(data, pat, base, SearchBound(data, pat))
  }

  /** What one region contributes: nothing unless it is scannable and its capped read succeeds with data. */
  function RegionHits(mem: Memory, r: Region, pat: seq<uint8>): seq<nat> {
    if !IsScannable(r) then []
    else
      match ReadBytes(mem, r.base, ChunkSize(r))
      case None => []
      case Some(data) => if |data| == 0 then [] else Search(data, pat, r.base)
  }

  /**
    The walk from query address `addr` with `BaseAddress` read as a number:
    stop at the ceiling or when the query fails, otherwise take the
    region's hits and continue at `BaseAddress + RegionSize`. This is the
    walk the program evidently intends; `WalkAsWritten` is what it does.
   */
  function Walk(regions: seq<Region>, mem: Memory, pat: seq<uint8>, addr: nat): seq<nat>
    decreases if addr < ADDRESS_CEILING then ADDRESS_CEILING - addr else 0
  {
    if addr >= ADDRESS_CEILING then []
    else
      match Query(regions, addr)
      case None => []
      case Some(r) => RegionHits(mem, r, pat) + Walk(regions, mem, pat, End(r))
  }

  /** The addresses a scan appended, and whether it ended in a TypeError. */
  datatype WalkOutcome = WalkOutcome(found: seq<nat>, typeError: bool)

  /**
    The walk as written. `BaseAddress` is a `c_void_p` field, which reads a
    NULL pointer as None; so a reported region with base 0 raises TypeError
    at `None + offset` or `None + RegionSize` before it adds any address.
   */
  function WalkAsWritten(regions: seq<Region>, mem: Memory, pat: seq<uint8>, addr: nat): WalkOutcome
    decreases if addr < ADDRESS_CEILING then ADDRESS_CEILING - addr else 0
  {
    if addr >= ADDRESS_CEILING then WalkOutcome([], false)
    else
      match Query(regions, addr)
      case None => WalkOutcome([], false)
      case Some(r) =>
        if r.base == 0 then WalkOutcome([], true)
        else
          var rest := WalkAsWritten(regions, mem, pat, End(r));
          WalkOutcome(RegionHits(mem, r, pat) + rest.found, rest.typeError)
  }

  /** As written, a region with a non-null base adds its hits and the walk continues at its end. */
  lemma WrittenStep(regions: seq<Region>, mem: Memory, pat: seq<uint8>, addr: nat, r: Region)
    requires addr < ADDRESS_CEILING && Query(regions, addr) == Some(r) && r.base != 0
    ensures WalkAsWritten(regions, mem, pat, addr).found ==
              RegionHits(mem, r, pat) + WalkAsWritten(regions, mem, pat, End(r)).found
    ensures WalkAsWritten(regions, mem, pat, addr).typeError == WalkAsWritten(regions, mem, pat, End(r)).typeError
  {
  }

  /**
    One iteration of the scan as written, on the candidates so far: adding a
    region's hits and walking on from its end records the same as walking
    from the queried address.
   */
  lemma WrittenAdvance(regions: seq<Region>, mem: Memory, pat: seq<uint8>, addr: nat, r: Region, before: seq<nat>)
    requires addr < ADDRESS_CEILING && Query(regions, addr) == Some(r) && r.base != 0
    ensures (before + RegionHits(mem, r, pat)) + WalkAsWritten(regions, mem, pat, End(r)).found
              == before + WalkAsWritten(regions, mem, pat, addr).found
    ensures WalkAsWritten(regions, mem, pat, End(r)).typeError == WalkAsWritten(regions, mem, pat, addr).typeError
  {
    WrittenStep(regions, mem, pat, addr, r);
    var next := WalkAsWritten(regions, mem, pat, End(r)).found;
    assert (before + RegionHits(mem, r, pat)) + next == before + (RegionHits(mem, r, pat) + next);
  }

  /** As written, the walk ends quietly at the ceiling or when the query fails, and raises at a null base. */
  lemma WrittenStops(regions: seq<Region>, mem: Memory, pat: seq<uint8>, addr: nat)
    requires addr >= ADDRESS_CEILING || Query(regions, addr).None? || Query(regions, addr).value.base == 0
    ensures WalkAsWritten(regions, mem, pat, addr).found == []
    ensures WalkAsWritten(regions, mem, pat, addr).typeError == (addr < ADDRESS_CEILING && Query(regions, addr).Some?)
  {
  }

  /**
    The walk as written reports a prefix of the intended walk, and all of it
    unless a NULL base raised.
   */
  lemma {:induction false} WalkAsWrittenPrefix(regions: seq<Region>, mem: Memory, pat: seq<uint8>, addr: nat)
    ensures WalkAsWritten(regions, mem, pat, addr).found <= Walk(regions, mem, pat, addr)
    ensures !WalkAsWritten(regions, mem, pat, addr).typeError ==>
              WalkAsWritten(regions, mem, pat, addr).found == Walk(regions, mem, pat, addr)
    decreases if addr < ADDRESS_CEILING then ADDRESS_CEILING - addr else 0
  {
    if addr < ADDRESS_CEILING && Query(regions, addr).Some? {
      var r := Query(regions, addr).value;
      if r.base != 0 {
        WalkAsWrittenPrefix(regions, mem, pat, End(r));
      }
    }
  }

  /**
    The first query is at address 0, and any region reported there has base
    0: a scan as written raises on its first step with nothing recorded,
    unless the query fails outright.
   */
  lemma ScanFromZeroRaises(regions: seq<Region>, mem: Memory, pat: seq<uint8>)
    ensures WalkAsWritten(regions, mem, pat, 0) == WalkOutcome([], Query(regions, 0).Some?)
    ensures Query(regions, 0).Some? <==> exists i :: 0 <= i < |regions| && End(regions[i]) > 0
  {
  }

  /** The walk takes the queried region's hits and continues at the region's end. */
  lemma WalkStep(regions: seq<Region>, mem: Memory, pat: seq<uint8>, addr: nat, r: Region)
    requires addr < ADDRESS_CEILING && Query(regions, addr) == Some(r)
    ensures Walk(regions, mem, pat, addr) == RegionHits(mem, r, pat) + Walk(regions, mem, pat, End(r))
  {
  }

  /** The walk finds nothing more at the ceiling or once the query fails. */
  lemma WalkStops(regions: seq<Region>, mem: Memory, pat: seq<uint8>, addr: nat)
    requires addr >= ADDRESS_CEILING || Query(regions, addr).None?
    ensures Walk(regions, mem, pat, addr) == []
  {
  }

  // ---------------------------------------------------------------- search

  /** An address is among the hits below `n` exactly when it is `base + o` for a match at some `o < n`. */
  lemma {:induction false} HitsMembers(data: seq<uint8>, pat: seq<uint8>, base: nat, n: nat, x: nat)
    ensures x in Hits(data, pat, base, n) <==> exists o :: 0 <= o < n && MatchAt(data, pat, o) && x == base + o
  {
    if n > 0 {
      HitsMembers(data, pat, base, n - 1, x);
      if x == base + n - 1 && MatchAt(data, pat, n - 1) {
        assert x in Hits(data, pat, base, n);
      }
    }
  }

  /** The hits below `n` are strictly ascending and lie in `base .. base + n - 1`. */
  lemma {:induction false} HitsOrdered(data: seq<uint8>, pat: seq<uint8>, base: nat, n: nat)
    ensures StrictlyIncreasing(Hits(data, pat, base, n))
    ensures forall x :: x in Hits(data, pat, base, n) ==> base <= x < base + n
  {
    if n > 0 {
      HitsOrdered(data, pat, base, n - 1);
      var h := Hits(data, pat, base, n - 1);
      assert forall i :: 0 <= i < |h| ==> h[i] < base + n - 1 by {
        forall i | 0 <= i < |h| ensures h[i] < base + n - 1 {
          assert h[i] in h;
        }
      }
    }
  }

  /**
    The as-written search records `base + o` exactly when the window at `o`
    equals the pattern and `o < len(data) - len(pat)`; overlapping windows
    all count.
   */
  lemma SearchMembers(data: seq<uint8>, pat: seq<uint8>, base: nat, x: nat)
    ensures x in Search(data, pat, base) <==>
              exists o: nat :: MatchAt(data, pat, o) && o + |pat| < |data| && x == base + o
  {
    HitsMembers(data, pat, base, SearchBound(data, pat), x);
  }

  /** A match in the final window (`offset == len(data) - size`) is never recorded. */
  lemma FinalWindowMissed(data: seq<uint8>, pat: seq<uint8>, base: nat)
    requires |pat| <= |data|
    ensures base + |data| - |pat| !in Search(data, pat, base)
  {
    SearchMembers(data, pat, base, base + |data| - |pat|);
  }

  /** Data no longer than the pattern yields no hits. */
  lemma ShortDataNoHits(data: seq<uint8>, pat: seq<uint8>, base: nat)
    requires |data| <= |pat|
    ensures Search(data, pat, base) == []
  {
  }

  /** Overlapping matches are all recorded; the last window is not. */
  lemma OverlappingExample()
    ensures Search([7, 7, 7, 7, 7], [7, 7], 100) == [100, 101, 102]
  {
    var d: seq<uint8> := [7, 7, 7, 7, 7];
    var p: seq<uint8> := [7, 7];
    assert MatchAt(d, p, 0) && MatchAt(d, p, 1) && MatchAt(d, p, 2);
    assert Hits(d, p, 100, 3) == [100, 101, 102];
  }

  // -------------------------------------------------------- the whole walk

  /** Every hit of a region lies in its capped chunk, strictly before the final window, and holds the pattern. */
  lemma RegionHitsSound(mem: Memory, r: Region, pat: seq<uint8>, x: nat)
    requires x in RegionHits(mem, r, pat)
    ensures IsScannable(r) && r.base <= x && x + |pat| < r.base + ChunkSize(r)
    ensures ReadBytes(mem, x, |pat|) == Some(pat)
  {
    var data := ReadBytes(mem, r.base, ChunkSize(r)).value;
    SearchMembers(data, pat, r.base, x);
    var o: nat :| MatchAt(data, pat, o) && o + |pat| < |data| && x == r.base + o;
    ReadWindow(mem, r.base, ChunkSize(r), o, |pat|);
  }

  /**
    Soundness of the scan: every recorded address lies inside the capped
    chunk of a scannable region and, at scan time, holds the pattern.
   */
  lemma {:induction false} WalkSound(regions: seq<Region>, mem: Memory, pat: seq<uint8>, addr: nat, x: nat)
    requires x in Walk(regions, mem, pat, addr)
    ensures exists r :: r in regions && IsScannable(r) && r.base <= x && x + |pat| < r.base + ChunkSize(r)
    ensures ReadBytes(mem, x, |pat|) == Some(pat)
    decreases if addr < ADDRESS_CEILING then ADDRESS_CEILING - addr else 0
  {
    var r := Query(regions, addr).value;
    if x in RegionHits(mem, r, pat) {
      RegionHitsSound(mem, r, pat, x);
      QueryReports(regions, addr);
    } else {
      WalkSound(regions, mem, pat, End(r), x);
    }
  }

  // ------------------------------------------- the walk over a sane layout

  /** A region list as the operating system reports it: ascending, non-overlapping, no empty region. */
  predicate WellFormed(regions: seq<Region>) {
    && (forall i :: 0 <= i < |regions| ==> regions[i].size > 0)
    && (forall i, j :: 0 <= i < j < |regions| ==> End(regions[i]) <= regions[j].base)
  }

  /**
    Reference definition of the scan: the regions' hits in list order,
    stopping at the first region that starts at or above the ceiling.
   */
  function Sweep(regions: seq<Region>, mem: Memory, pat: seq<uint8>): seq<nat> {
    if regions == [] || regions[0].base >= ADDRESS_CEILING then []
    else RegionHits(mem, regions[0], pat) + Sweep(regions[1..], mem, pat)
  }

  /**
    From an address at or below region `k`'s base, past the region before
    it, the walk crosses the free gap (if any) and then takes regions
    `k, k+1, ...` in order.
   */
  lemma {:induction false} WalkFrom(regions: seq<Region>, mem: Memory, pat: seq<uint8>, k: nat, addr: nat)
    requires WellFormed(regions) && k <= |regions|
    requires 0 < k ==> End(regions[k - 1]) <= addr
    requires k < |regions| ==> addr <= regions[k].base
    ensures Walk(regions, mem, pat, addr) == Sweep(regions[k..], mem, pat)
    decreases |regions| - k, if k < |regions| && addr < regions[k].base then 1 else 0
  {
    if addr >= ADDRESS_CEILING || k == |regions| {
      SweepEnds(regions, mem, pat, k, addr);
    } else if addr < regions[k].base {
      GapStep(regions, mem, pat, k, addr);
      WalkFrom(regions, mem, pat, k, regions[k].base);
    } else {
      RegionStep(regions, mem, pat, k, addr);
      WalkFrom(regions, mem, pat, k + 1, End(regions[k]));
    }
  }

  /** At the ceiling, or past the last region, both the walk and the sweep are empty. */
  lemma SweepEnds(regions: seq<Region>, mem: Memory, pat: seq<uint8>, k: nat, addr: nat)
    requires WellFormed(regions) && k <= |regions|
    requires 0 < k ==> End(regions[k - 1]) <= addr
    requires k < |regions| ==> addr <= regions[k].base
    requires addr >= ADDRESS_CEILING || k == |regions|
    ensures Walk(regions, mem, pat, addr) == [] && Sweep(regions[k..], mem, pat) == []
  {
    PastRegions(regions, k, addr);
    WalkStops(regions, mem, pat, addr);
  }

  /** Below region `k`, the walk crosses the free gap to the region's base and records nothing there. */
  lemma GapStep(regions: seq<Region>, mem: Memory, pat: seq<uint8>, k: nat, addr: nat)
    requires WellFormed(regions) && k < |regions|
    requires 0 < k ==> End(regions[k - 1]) <= addr
    requires addr < regions[k].base && addr < ADDRESS_CEILING
    ensures Walk(regions, mem, pat, addr) == Walk(regions, mem, pat, regions[k].base)
  {
    PastRegions(regions, k, addr);
    QueryFinds(regions, addr, k);
    WalkStep(regions, mem, pat, addr, FreeGap(addr, regions[k].base));
  }

  /** At region `k`'s base, the walk and the sweep both take the region's hits and move on past it. */
  lemma RegionStep(regions: seq<Region>, mem: Memory, pat: seq<uint8>, k: nat, addr: nat)
    requires WellFormed(regions) && k < |regions|
    requires 0 < k ==> End(regions[k - 1]) <= addr
    requires addr == regions[k].base && addr < ADDRESS_CEILING
    ensures Walk(regions, mem, pat, addr) ==
              RegionHits(mem, regions[k], pat) + Walk(regions, mem, pat, End(regions[k]))
    ensures Sweep(regions[k..], mem, pat) == RegionHits(mem, regions[k], pat) + Sweep(regions[k + 1..], mem, pat)
    ensures k + 1 < |regions| ==> End(regions[k]) <= regions[k + 1].base
  {
    PastRegions(regions, k, addr);
    QueryFinds(regions, addr, k);
    WalkStep(regions, mem, pat, addr, regions[k]);
    assert regions[k..][0] == regions[k];
    assert regions[k..][1..] == regions[k + 1..];
  }

  /** On a well-formed layout, an address past region `k - 1` is past every region before `k`. */
  lemma PastRegions(regions: seq<Region>, k: nat, addr: nat)
    requires WellFormed(regions) && k <= |regions|
    requires 0 < k ==> End(regions[k - 1]) <= addr
    ensures forall j :: 0 <= j < k ==> End(regions[j]) <= addr
    ensures k == |regions| ==> Query(regions, addr).None?
  {
    forall j | 0 <= j < k ensures End(regions[j]) <= addr {
      if j < k - 1 {
        assert End(regions[j]) <= regions[k - 1].base;
      }
    }
  }

  /** On a well-formed layout the walk from address 0 visits the regions in list order. */
  lemma WalkIsSweep(regions: seq<Region>, mem: Memory, pat: seq<uint8>)
    requires WellFormed(regions)
    ensures Walk(regions, mem, pat, 0) == Sweep(regions, mem, pat)
  {
    WalkFrom(regions, mem, pat, 0, 0);
  }

  lemma RegionHitsOrdered(mem: Memory, r: Region, pat: seq<uint8>)
    ensures StrictlyIncreasing(RegionHits(mem, r, pat))
    ensures forall x :: x in RegionHits(mem, r, pat) ==> r.base <= x < End(r)
  {
    if IsScannable(r) && ReadBytes(mem, r.base, ChunkSize(r)).Some? {
      var data := ReadBytes(mem, r.base, ChunkSize(r)).value;
      HitsOrdered(data, pat, r.base, SearchBound(data, pat));
    }
    forall x | x in RegionHits(mem, r, pat) ensures x < End(r) {
      RegionHitsSound(mem, r, pat, x);
    }
  }

  lemma ConcatIncreasing(a: seq<nat>, b: seq<nat>)
    requires StrictlyIncreasing(a) && StrictlyIncreasing(b)
    requires forall x, y :: x in a && y in b ==> x < y
    ensures StrictlyIncreasing(a + b)
  {
    var c := a + b;
    forall i, j | 0 <= i < j < |c| ensures c[i] < c[j] {
      if j < |a| {
      } else if i >= |a| {
        assert c[i] == b[i - |a|] && c[j] == b[j - |a|];
      } else {
        assert c[i] in a && c[j] in b;
      }
    }
  }

  /** On a well-formed layout the scan result is strictly ascending by address. */
  lemma {:induction false} SweepOrdered(regions: seq<Region>, mem: Memory, pat: seq<uint8>)
    requires WellFormed(regions)
    ensures StrictlyIncreasing(Sweep(regions, mem, pat))
    ensures forall x :: x in Sweep(regions, mem, pat) ==> regions[0].base <= x
  {
    if regions != [] && regions[0].base < ADDRESS_CEILING {
      var r := regions[0];
      RegionHitsOrdered(mem, r, pat);
      var rest := regions[1..];
      assert WellFormed(rest) by {
        forall i, j | 0 <= i < j < |rest| ensures End(rest[i]) <= rest[j].base {
          assert rest[i] == regions[i + 1] && rest[j] == regions[j + 1];
        }
      }
      SweepOrdered(rest, mem, pat);
      if rest != [] {
        assert End(r) <= rest[0].base;
      }
      ConcatIncreasing(RegionHits(mem, r, pat), Sweep(rest, mem, pat));
    }
  }

  /** A match strictly before the final window of a scannable region's readable chunk is among its hits. */
  lemma RegionHitsComplete(mem: Memory, r: Region, pat: seq<uint8>, data: seq<uint8>, o: nat)
    requires IsScannable(r) && ReadBytes(mem, r.base, ChunkSize(r)) == Some(data)
    requires MatchAt(data, pat, o) && o + |pat| < |data|
    ensures r.base + o in RegionHits(mem, r, pat)
  {
    SearchMembers(data, pat, r.base, r.base + o);
  }

  /** The reference scan includes every hit of every region that starts below the ceiling. */
  lemma {:induction false} SweepIncludes(regions: seq<Region>, mem: Memory, pat: seq<uint8>, i: nat, x: nat)
    requires i < |regions| && x in RegionHits(mem, regions[i], pat)
    requires forall j :: 0 <= j <= i ==> regions[j].base < ADDRESS_CEILING
    ensures x in Sweep(regions, mem, pat)
  {
    if i > 0 {
      ShiftCeiling(regions, i);
      SweepIncludes(regions[1..], mem, pat, i - 1, x);
    }
  }

  /**
    Completeness of the intended walk on a well-formed layout: a match
    strictly before the final window of the capped chunk of a scannable
    region that starts below the ceiling, and whose read succeeds, is
    recorded.
   */
  lemma WalkComplete(regions: seq<Region>, mem: Memory, pat: seq<uint8>, i: nat, data: seq<uint8>, o: nat)
    requires WellFormed(regions)
    requires i < |regions| && IsScannable(regions[i]) && regions[i].base < ADDRESS_CEILING
    requires ReadBytes(mem, regions[i].base, ChunkSize(regions[i])) == Some(data)
    requires MatchAt(data, pat, o) && o + |pat| < |data|
    ensures regions[i].base + o in Walk(regions, mem, pat, 0)
  {
    RegionHitsComplete(mem, regions[i], pat, data, o);
    BasesBelow(regions, i);
    SweepIncludes(regions, mem, pat, i, regions[i].base + o);
    WalkIsSweep(regions, mem, pat);
  }

  /** On a well-formed layout, when region `i` starts below the ceiling so does every region before it. */
  lemma BasesBelow(regions: seq<Region>, i: nat)
    requires WellFormed(regions) && i < |regions| && regions[i].base < ADDRESS_CEILING
    ensures forall j :: 0 <= j <= i ==> regions[j].base < ADDRESS_CEILING
  {
    forall j | 0 <= j < i ensures regions[j].base < ADDRESS_CEILING {
      assert End(regions[j]) <= regions[i].base;
    }
  }

  lemma ShiftCeiling(regions: seq<Region>, i: nat)
    requires 0 < i < |regions|
    requires forall j :: 0 <= j <= i ==> regions[j].base < ADDRESS_CEILING
    ensures regions[1..][i - 1] == regions[i] && regions[0].base < ADDRESS_CEILING
    ensures forall j :: 0 <= j <= i - 1 ==> regions[1..][j].base < ADDRESS_CEILING
  {
    forall j | 0 <= j <= i - 1 ensures regions[1..][j].base < ADDRESS_CEILING {
      assert regions[1..][j] == regions[j + 1];
    }
  }

  /**
    A region that starts at the ceiling is never scanned, even when a free
    gap leads up to it: the gap ends the walk at the ceiling.
   */
  lemma RegionAtCeilingUnreached()
    ensures Walk([Region(0x1000, 0x1000, MEM_COMMIT, PAGE_READWRITE),
                  Region(ADDRESS_CEILING, 2, MEM_COMMIT, PAGE_READWRITE)],
                 map[ADDRESS_CEILING := 5, ADDRESS_CEILING + 1 := 0], [5], 0) == []
  {
    var regions := [Region(0x1000, 0x1000, MEM_COMMIT, PAGE_READWRITE),
                    Region(ADDRESS_CEILING, 2, MEM_COMMIT, PAGE_READWRITE)];
    var mem: Memory := map[ADDRESS_CEILING := 5, ADDRESS_CEILING + 1 := 0];
    assert ReadBytes(mem, 0x1000, 0x1000).None? by {
      assert 0x1000 !in mem;
    }
    assert regions[1..][0].base >= ADDRESS_CEILING;
    WalkIsSweep(regions, mem, [5]);
  }

  // ------------------------------------------ the evidently intended search

  /** The search with the loop bound `offset <= len(data) - size`: every window is examined. */
  function SearchAll(data: seq<uint8>, pat: seq<uint8>, base: nat): seq<nat> {
    Hits(data, pat, base, if |data| >= |pat| then |data| - |pat| + 1 else 0)
  }

  /** The intended search records `base + o` for every matching window, the final one included. */
  lemma SearchAllMembers(data: seq<uint8>, pat: seq<uint8>, base: nat, x: nat)
    ensures x in SearchAll(data, pat, base) <==> exists o: nat :: MatchAt(data, pat, o) && x == base + o
  {
    HitsMembers(data, pat, base, if |data| >= |pat| then |data| - |pat| + 1 else 0, x);
  }

  /** A 4-byte chunk holding exactly the int32 pattern for 1: the as-written search misses it. */
  lemma FinalWindowExample()
    ensures Search([1, 0, 0, 0], [1, 0, 0, 0], 64) == []
    ensures SearchAll([1, 0, 0, 0], [1, 0, 0, 0], 64) == [64]
  {
    var d: seq<uint8> := [1, 0, 0, 0];
    assert MatchAt(d, d, 0);
    assert Hits(d, d, 64, 1) == [64];
  }
}
