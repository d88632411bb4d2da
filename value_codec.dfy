/**
  The value kinds of the memory editor and their fixed-width little-endian
  encodings (`struct.pack('<i')`, `'<q'`, `'<f'`, `'<d'`, and `bytes([v & 0xFF])`),
  with the matching decodings (`struct.unpack` with `'<i'`, `'<q'`, `'<f'`,
  `'<d'`, `'B'`).

  Floating point is not modelled: a `float` or `double` value is represented
  by its IEEE 754 bit pattern, a natural number below 2^32 or 2^64.
 */
module ValueCodec {
  import opened Wrappers

  type uint8 = x: int | 0 <= x < 256

  datatype ValueKind = Int32 | Int64 | Float | Double | Byte

  /** The `value_type` string naming each kind. */
  function KindName(k: ValueKind): string {
    match k
    case Int32 => "int32"
    case Int64 => "int64"
    case Float => "float"
    case Double => "double"
    case Byte => "byte"
  }

  /** The kind a `value_type` string selects; None for an unsupported string. */
  function ParseKind(s: string): Option<ValueKind> {
    if s == "int32" then Some(Int32)
    else if s == "int64" then Some(Int64)
    else if s == "float" then Some(Float)
    else if s == "double" then Some(Double)
    else if s == "byte" then Some(Byte)
    else None
  }

  /** Exactly the five names are supported, and each names one kind. */
  lemma ParseKindNames(s: string, k: ValueKind)
    ensures ParseKind(KindName(k)) == Some(k)
    ensures ParseKind(s) == Some(k) <==> s == KindName(k)
  {
  }

  /** The number of bytes a kind occupies (the `size` of the source). */
  function Width(k: ValueKind): nat {
    match k
    case Int32 => 4
    case Int64 => 8
    case Float => 4
    case Double => 8
    case Byte => 1
  }

  function Pow256(n: nat): (p: nat)
    ensures p > 0
  {
    if n == 0 then 1 else 256 * Pow256(n - 1)
  }

  /** The `width` low-order bytes of `n`, least significant first. */
  function LittleEndian(n: nat, width: nat): (s: seq<uint8>)
    ensures |s| == width
  {
    if width == 0 then [] else [n % 256] + LittleEndian(n / 256, width - 1)
  }

  /** The unsigned number whose little-endian bytes are `s`. */
  function Unsigned(s: seq<uint8>): (n: nat)
    ensures n < Pow256(|s|)
  {
    if s == [] then 0 else s[0] + 256 * Unsigned(s[1..])
  }

  lemma {:induction false} UnsignedLittleEndian(n: nat, width: nat)
    ensures Unsigned(LittleEndian(n, width)) == n % Pow256(width)
  {
    if width > 0 {
      UnsignedLittleEndian(n / 256, width - 1);
      var p := Pow256(width - 1);
      var s := LittleEndian(n, width);
      assert s[1..] == LittleEndian(n / 256, width - 1);
      DivModStep(n, p);
    }
  }

  /** n mod 256p == n mod 256 + 256 * ((n / 256) mod p). */
  lemma DivModStep(n: nat, p: nat)
    requires p > 0
    ensures n % (256 * p) == n % 256 + 256 * ((n / 256) % p)
  {
    var q := n / 256;
    var r := n % 256;
    var q2 := q / p;
    var r2 := q % p;
    assert 256 * q == 256 * (p * q2) + 256 * r2;
    assert 256 * (p * q2) == (256 * p) * q2;
    assert n == (256 * p) * q2 + (256 * r2 + r);
    assert 256 * r2 <= 256 * (p - 1);
    ModUnique(n, 256 * p, q2, 256 * r2 + r);
  }

  /** Division with remainder has one answer. */
  lemma ModUnique(n: int, d: int, q: int, r: int)
    requires d > 0 && n == d * q + r && 0 <= r < d
    ensures n % d == r
  {
    var q' := n / d;
    var r' := n % d;
    assert d * (q - q') == r' - r;
    if q > q' {
      MulAtLeast(d, q - q');
    } else if q < q' {
      MulAtLeast(d, q' - q);
    }
  }

  lemma MulAtLeast(d: int, k: int)
    requires d > 0 && k >= 1
    ensures d * k >= d
  {
  }

  lemma {:induction false} LittleEndianUnsigned(s: seq<uint8>)
    ensures LittleEndian(Unsigned(s), |s|) == s
  {
    if s != [] {
      LittleEndianUnsigned(s[1..]);
      var n := Unsigned(s);
      assert n % 256 == s[0];
      assert n / 256 == Unsigned(s[1..]);
    }
  }

  /** The two's-complement reading of an unsigned `width`-byte number. */
  function Signed(u: nat, width: nat): int {
    if 2 * u < Pow256(width) then u else u - Pow256(width)
  }

  /** The values `struct.pack` accepts for a kind; anything else raises `struct.error`. */
  predicate InRange(v: int, k: ValueKind) {
    match k
    case Int32 => -0x8000_0000 <= v < 0x8000_0000
    case Int64 => -0x8000_0000_0000_0000 <= v < 0x8000_0000_0000_0000
    case Float => 0 <= v < 0x1_0000_0000
    case Double => 0 <= v < 0x1_0000_0000_0000_0000
    case Byte => true
  }

  datatype CodecError = PackError

  /** The search/write pattern for `v`: the encoding of the value modulo 2^(8 * width). */
  function Encode(v: int, k: ValueKind): (r: Result<seq<uint8>, CodecError>)
    ensures r.Ok? <==> InRange(v, k)
    ensures r.Ok? ==> |r.value| == Width(k)
  {
    if !InRange(v, k) then Err(PackError)
    else
      match k
      case Int32 => Ok(LittleEndian(v % 0x1_0000_0000, 4))
      case Int64 => Ok(LittleEndian(v % 0x1_0000_0000_0000_0000, 8))
      case Float => Ok(LittleEndian(v, 4))
      case Double => Ok(LittleEndian(v, 8))
      case Byte => Ok([v % 256])
  }

  /** `struct.unpack`: None stands for the `struct.error` raised on a buffer of the wrong length. */
  function Decode(s: seq<uint8>, k: ValueKind): Option<int> {
    if |s| != Width(k) then None
    else
      match k
      case Int32 => Some(Signed(Unsigned(s), 4))
      case Int64 => Some(Signed(Unsigned(s), 8))
      case Float => Some(Unsigned(s))
      case Double => Some(Unsigned(s))
      case Byte => Some(s[0])
  }

  /** What reading back a written value yields: the value itself, except that the byte kind keeps `v mod 256`. */
  function Stored(v: int, k: ValueKind): int {
    if k == Byte then v % 256 else v
  }

  lemma Pow256Values()
    ensures Pow256(1) == 0x100 && Pow256(4) == 0x1_0000_0000
    ensures Pow256(8) == 0x1_0000_0000_0000_0000
  {
    assert Pow256(2) == 0x1_0000;
    assert Pow256(3) == 0x100_0000;
    assert Pow256(5) == 0x100_0000_0000;
    assert Pow256(6) == 0x1_0000_0000_0000;
    assert Pow256(7) == 0x100_0000_0000_0000;
  }

  /**
    Every accepted value encodes to exactly `Width(k)` bytes that read as
    the value modulo 2^(8 * width) (little-endian two's complement), and
    decoding the encoding gives the value back (mod 256 for a byte).
   */
  lemma EncodeDecode(v: int, k: ValueKind)
    requires InRange(v, k)
    ensures Encode(v, k).Ok?
    ensures Unsigned(Encode(v, k).value) == v % Pow256(Width(k))
    ensures Decode(Encode(v, k).value, k) == Some(Stored(v, k))
  {
    Pow256Values();
    var e := Encode(v, k).value;
    match k
    case Int32 =>
      assert e == LittleEndian(v % Pow256(4), 4);
      SignedRoundTrip(v, 4);
    case Int64 =>
      assert e == LittleEndian(v % Pow256(8), 8);
      SignedRoundTrip(v, 8);
    case Float =>
      BitsRoundTrip(v, 4);
    case Double =>
      BitsRoundTrip(v, 8);
    case Byte =>
      assert e == [v % 256];
      assert Unsigned(e) == e[0] + 256 * Unsigned(e[1..]);
      assert e[1..] == [];
  }

  /** A bit pattern that fits in `width` bytes survives encoding and unsigned decoding. */
  lemma BitsRoundTrip(v: nat, width: nat)
    requires v < Pow256(width)
    ensures v % Pow256(width) == v
    ensures Unsigned(LittleEndian(v, width)) == v
  {
    ModUnique(v, Pow256(width), 0, v);
    UnsignedLittleEndian(v, width);
  }

  /** A value in the signed range of `width` bytes survives encoding and signed decoding. */
  lemma SignedRoundTrip(v: int, width: nat)
    requires width > 0 && Pow256(width) + 2 * v >= 0 && 2 * v < Pow256(width)
    ensures Unsigned(LittleEndian(v % Pow256(width), width)) == v % Pow256(width)
    ensures Signed(Unsigned(LittleEndian(v % Pow256(width), width)), width) == v
  {
    var p := Pow256(width);
    var u := if v >= 0 then v else v + p;
    if v >= 0 {
      ModUnique(v, p, 0, u);
    } else {
      ModUnique(v, p, -1, u);
    }
    assert v % p == u;
    UnsignedLittleEndian(u, width);
    ModUnique(u, p, 0, u);
    assert Unsigned(LittleEndian(u, width)) == u;
  }

  /** A byte-kind write followed by a read yields `v mod 256`, always in 0..255. */
  lemma ByteRoundTrip(v: int)
    ensures Decode(Encode(v, Byte).value, Byte) == Some(v % 256)
    ensures 0 <= v % 256 < 256
  {
    EncodeDecode(v, Byte);
  }

  /**
    Decoding then encoding gives the bytes back: a buffer of the right width
    equals the pattern for `v` exactly when it decodes to the value stored for `v`.
   */
  lemma MatchesPatternIffDecodes(s: seq<uint8>, v: int, k: ValueKind)
    requires InRange(v, k) && |s| == Width(k)
    ensures s == Encode(v, k).value <==> Decode(s, k) == Some(Stored(v, k))
  {
    EncodeDecode(v, k);
    if Decode(s, k) == Some(Stored(v, k)) {
      Pow256Values();
      var w := Width(k);
      var u := Unsigned(s);
      LittleEndianUnsigned(s);
      UnsignedLittleEndian(v % Pow256(w), w);
      assert u == v % Pow256(w);
      if k == Byte {
        assert s == [s[0]];
      } else {
        assert s == LittleEndian(u, w);
      }
    }
  }
}
