/**
 The scalar field types: what pb_enc_* write and pb_dec_* store, with the C integer
 casts written out.
 */
module Scalars {
  import opened Bits
  import opened Varint
  import opened Descriptor

  // ---------- C casts ----------

  /** sizeof values that pb_enc_varint and its relatives accept. */
  predicate IntSize(size: nat) {
    size == 1 || size == 2 || size == 4 || size == 8
  }

  function Modulus(size: nat): (m: nat)
    ensures m >= 2 && m % 2 == 0
  {
    if size == 1 then U8 else if size == 2 then 0x1_0000 else if size == 4 then U32 else U64
  }

  function CastUnsigned(n: int, size: nat): nat {
    n % Modulus(size)
  }

  /** Two's complement. */
  function CastSigned(n: int, size: nat): int {
    (n + Modulus(size) / 2) % Modulus(size) - Modulus(size) / 2
  }

  predicate FitsSigned(n: int, size: nat) {
    -(Modulus(size) / 2) <= n < Modulus(size) / 2
  }

  lemma CastSignedFits(n: int, size: nat)
    ensures FitsSigned(CastSigned(n, size), size)
    ensures FitsSigned(n, size) <==> CastSigned(n, size) == n
  {
  }

  /** The cast undoes any whole number of wrap-arounds. */
  lemma CastSignedUnwraps(n: int, k: int, size: nat)
    requires FitsSigned(n, size)
    ensures CastSigned(n + k * Modulus(size), size) == n
  {
    var m := Modulus(size);
    hide Modulus;
    assert n + k * m + m / 2 == k * m + (n + m / 2);
    ModUnique(n + k * m + m / 2, m, k, n + m / 2);
  }

  // ---------- ZigZag ----------

  /** pb_encode_svarint: `value << 1`, complemented when negative, in 64-bit arithmetic. */
  function ZigZag(n: int): nat {
    var shifted := (2 * CastUnsigned(n, 8)) % U64;
    if n < 0 then U64 - 1 - shifted else shifted
  }

  /** pb_decode_svarint: `value >> 1`, complemented when odd, as int64_t. */
  function UnZigZag(v: nat): int {
    if v % 2 == 1 then CastSigned(U64 - 1 - v / 2, 8) else CastSigned(v / 2, 8)
  }

  /** Small magnitudes get small codes, and the two functions are inverse on every int64 and uint64. */
  lemma ZigZagInverse(n: int)
    requires FitsSigned(n, 8)
    ensures ZigZag(n) == (if n < 0 then -2 * n - 1 else 2 * n) < U64
    ensures UnZigZag(ZigZag(n)) == n
  {
  }

  lemma UnZigZagInverse(v: nat)
    requires v < U64
    ensures FitsSigned(UnZigZag(v), 8) && ZigZag(UnZigZag(v)) == v
  {
    if v % 2 == 1 {
      var n := -1 - v / 2;
      CastSignedUnwraps(n, 1, 8);
      assert UnZigZag(v) == n;
      hide UnZigZag, CastSigned;
      ZigZagInverse(n);
    } else {
      CastSignedUnwraps(v / 2, 0, 8);
      assert UnZigZag(v) == v / 2;
      hide UnZigZag, CastSigned;
      ZigZagInverse(v / 2);
    }
  }

  // ---------- Fixed width ----------

  function LittleEndian(n: nat, k: nat): (s: seq<byte>)
    ensures |s| == k
  {
    if k == 0 then [] else [n % 256] + LittleEndian(n / 256, k - 1)
  }

  function FromLittleEndian(s: seq<byte>): nat {
    if s == [] then 0 else s[0] + 256 * FromLittleEndian(s[1..])
  }

  lemma {:induction false} FromLittleEndianBound(s: seq<byte>)
    ensures FromLittleEndian(s) < Pow2(8 * |s|)
  {
    if s != [] {
      FromLittleEndianBound(s[1..]);
      Pow2Add(8, 8 * |s[1..]|);
      Pow2Words();
      assert 8 * |s| == 8 + 8 * |s[1..]|;
      hide Pow2;
    }
  }

  lemma {:induction false} LittleEndianInverse(n: nat, k: nat)
    requires n < Pow2(8 * k)
    ensures FromLittleEndian(LittleEndian(n, k)) == n
  {
    if k > 0 {
      Pow2Add(8, 8 * (k - 1));
      Pow2Words();
      assert 8 * k == 8 + 8 * (k - 1);
      assert n / 256 < Pow2(8 * (k - 1)) by { hide Pow2; }
      LittleEndianInverse(n / 256, k - 1);
      assert LittleEndian(n, k)[1..] == LittleEndian(n / 256, k - 1);
    } else {
      assert Pow2(0) == 1;
    }
  }

  // ---------- Reading raw bytes ----------

  /** pb_read of n bytes. */
  function ReadBytes(bs: seq<byte>, n: nat): (p: Parsed<seq<byte>>)
    ensures p.Ok? ==> |p.rest| == |bs| - n && |p.value| == n
  {
    if |bs| < n then Fail else Ok(bs[..n], bs[n..])
  }

  lemma ReadBytesFrame(a: seq<byte>, b: seq<byte>, n: nat)
    requires ReadBytes(a, n).Ok?
    ensures ReadBytes(a + b, n) == Ok(ReadBytes(a, n).value, ReadBytes(a, n).rest + b)
  {
    assert (a + b)[..n] == a[..n] && (a + b)[n..] == a[n..] + b;
  }

  // ---------- The scalar types ----------

  /** What memory of this type and size can hold. */
  predicate InRange(t: LType, size: nat, n: int) {
    match t
    case Bool => n == 0 || n == 1
    case Int => IntSize(size) && FitsSigned(n, size)
    case SInt => IntSize(size) && FitsSigned(n, size)
    case UInt => IntSize(size) && 0 <= n < Modulus(size)
    case Fixed32 => 0 <= n < U32
    case Fixed64 => 0 <= n < U64
    case _ => false
  }

  /** The encoders of varint types reject any other data_size. */
  predicate ScalarEncodable(t: LType, size: nat) {
    if t.Int? || t.UInt? || t.SInt? then IntSize(size) else Packable(t)
  }

  function ScalarBytes(t: LType, n: int): seq<byte> {
    match t
    case Bool => EncVarint(if n == 0 then 0 else 1)
    case Int => EncVarint(CastUnsigned(n, 8))
    case UInt => EncVarint(CastUnsigned(n, 8))
    case SInt => EncVarint(ZigZag(n))
    case Fixed32 => LittleEndian(CastUnsigned(n, 4), 4)
    case Fixed64 => LittleEndian(CastUnsigned(n, 8), 8)
    case _ => []
  }

  /** pb_dec_varint on the wire value v: fields of at most 32 bits go through int32_t. */
  function WireToInt(v: nat, size: nat): int {
    if size == 8 then CastSigned(v, 8) else CastSigned(v, 4)
  }

  /** The value that a varint field of type t takes from the wire, before the width check. */
  function WireToScalar(t: LType, size: nat, v: nat): int {
    match t
    case Int => WireToInt(v, size)
    case SInt => UnZigZag(v)
    case _ => v
  }

  function ReadScalar(t: LType, size: nat, bs: seq<byte>): (p: Parsed<int>)
    ensures p.Ok? ==> |p.rest| < |bs|
  {
    match t
    case Bool =>
      (match ReadVarint32(bs)
       case Fail => Fail
       case Ok(v, rest) => Ok(if v != 0 then 1 else 0, rest))
    case Fixed32 =>
      (match ReadBytes(bs, 4)
       case Fail => Fail
       case Ok(s, rest) => Ok(FromLittleEndian(s), rest))
    case Fixed64 =>
      (match ReadBytes(bs, 8)
       case Fail => Fail
       case Ok(s, rest) => Ok(FromLittleEndian(s), rest))
    case _ =>
      if !(t.Int? || t.UInt? || t.SInt?) then Fail
      else match ReadVarint64(bs)
           case Fail => Fail
           case Ok(v, rest) =>
             var n := WireToScalar(t, size, v);
             if !IntSize(size) then Fail
             else if (if t.UInt? then CastUnsigned(n, size) else CastSigned(n, size)) != n then Fail
             else Ok(n, rest)
  }

  /** Whatever the bytes, a successful read stores a value of the field's width, and exactly the wire's value. */
  lemma ReadScalarStores(t: LType, size: nat, bs: seq<byte>)
    requires ReadScalar(t, size, bs).Ok?
    ensures InRange(t, size, ReadScalar(t, size, bs).value)
    ensures t.UInt? ==> ReadVarint64(bs) == Ok(ReadScalar(t, size, bs).value, ReadScalar(t, size, bs).rest)
    ensures t.SInt? ==> ReadVarint64(bs) == Ok(ZigZag(ReadScalar(t, size, bs).value), ReadScalar(t, size, bs).rest)
    ensures t.Int? ==> ReadVarint64(bs).Ok? && ReadScalar(t, size, bs).rest == ReadVarint64(bs).rest
    ensures t.Int? && size == 8 ==> ReadScalar(t, size, bs).value == CastSigned(ReadVarint64(bs).value, 8)
    ensures t.Int? && size != 8 ==> ReadScalar(t, size, bs).value == CastSigned(ReadVarint64(bs).value % U32, 4)
  {
    hide ReadVarint32, FromLittleEndian, CastSigned, UnZigZag, ZigZag;
    match t {
      case Bool =>
      case Fixed32 => Pow2Words(); FromLittleEndianBound(ReadBytes(bs, 4).value); hide Pow2;
      case Fixed64 => Pow2Words(); FromLittleEndianBound(ReadBytes(bs, 8).value); hide Pow2;
      case UInt => Read64InRange(bs); hide ReadVarint64;
      case SInt =>
        Read64InRange(bs);
        hide ReadVarint64;
        UnZigZagInverse(ReadVarint64(bs).value);
        CastSignedFits(ReadScalar(t, size, bs).value, size);
      case Int =>
        hide ReadVarint64;
        CastSignedFits(ReadScalar(t, size, bs).value, size);
        CastLow32(ReadVarint64(bs).value);
    }
  }

  lemma Read64InRange(bs: seq<byte>)
    requires ReadVarint64(bs).Ok?
    ensures ReadVarint64(bs).value < U64
  {
  }

  lemma CastLow32(v: nat)
    ensures CastSigned(v, 4) == CastSigned(v % U32, 4)
  {
  }

  /** Every value a scalar field can hold is read back from its encoding, whatever follows. */
  lemma ScalarRoundTrip(t: LType, size: nat, n: int, rest: seq<byte>)
    requires InRange(t, size, n)
    ensures ReadScalar(t, size, ScalarBytes(t, n) + rest) == Ok(n, rest)
  {
    match t {
      case Bool => BoolRoundTrip(size, n, rest);
      case Fixed32 => Fixed32RoundTrip(size, n, rest);
      case Fixed64 => Fixed64RoundTrip(size, n, rest);
      case Int => IntRoundTrip(size, n, rest);
      case UInt => UIntRoundTrip(size, n, rest);
      case SInt => SIntRoundTrip(size, n, rest);
    }
  }

  lemma BoolRoundTrip(size: nat, n: int, rest: seq<byte>)
    requires InRange(Bool, size, n)
    ensures ReadScalar(Bool, size, ScalarBytes(Bool, n) + rest) == Ok(n, rest)
  {
    hide ReadVarint32, EncVarint;
    Varint32RoundTrip(if n == 0 then 0 else 1, rest);
  }

  lemma Fixed32RoundTrip(size: nat, n: int, rest: seq<byte>)
    requires InRange(Fixed32, size, n)
    ensures ReadScalar(Fixed32, size, ScalarBytes(Fixed32, n) + rest) == Ok(n, rest)
  {
    hide LittleEndian, FromLittleEndian, ReadBytes;
    Pow2Words();
    FixedRoundTrip(n, 4, rest);
  }

  lemma Fixed64RoundTrip(size: nat, n: int, rest: seq<byte>)
    requires InRange(Fixed64, size, n)
    ensures ReadScalar(Fixed64, size, ScalarBytes(Fixed64, n) + rest) == Ok(n, rest)
  {
    hide LittleEndian, FromLittleEndian, ReadBytes;
    Pow2Words();
    FixedRoundTrip(n, 8, rest);
  }

  lemma IntRoundTrip(size: nat, n: int, rest: seq<byte>)
    requires InRange(Int, size, n)
    ensures ReadScalar(Int, size, ScalarBytes(Int, n) + rest) == Ok(n, rest)
  {
    IntThroughWire(n, size);
    CastUnsignedFits(n);
    hide CastSigned, CastUnsigned, EncVarint, ReadVarint64, WireToInt;
    Varint64RoundTrip(CastUnsigned(n, 8), rest);
  }

  lemma CastUnsignedFits(n: int)
    ensures CastUnsigned(n, 8) < U64
  {
  }

  lemma UIntRoundTrip(size: nat, n: int, rest: seq<byte>)
    requires InRange(UInt, size, n)
    ensures ReadScalar(UInt, size, ScalarBytes(UInt, n) + rest) == Ok(n, rest)
  {
    assert CastUnsigned(n, 8) == n && CastUnsigned(n, size) == n;
    assert n < U64;
    hide CastSigned, CastUnsigned, EncVarint, ReadVarint64;
    Varint64RoundTrip(n, rest);
  }

  lemma SIntRoundTrip(size: nat, n: int, rest: seq<byte>)
    requires InRange(SInt, size, n)
    ensures ReadScalar(SInt, size, ScalarBytes(SInt, n) + rest) == Ok(n, rest)
  {
    CastSignedFits(n, size);
    hide CastSigned, CastUnsigned, EncVarint, ReadVarint64, ZigZag, UnZigZag;
    ZigZagInverse(n);
    Varint64RoundTrip(ZigZag(n), rest);
  }

  lemma IntThroughWire(n: int, size: nat)
    requires IntSize(size) && FitsSigned(n, size)
    ensures WireToInt(CastUnsigned(n, 8), size) == n == CastSigned(n, size)
  {
    var wide := if size == 8 then 8 else 4;
    assert FitsSigned(n, wide);
    assert CastUnsigned(n, 8) == if n < 0 then n + U64 else n;
    assert U64 == (if wide == 8 then 1 else U32) * Modulus(wide);
    hide CastUnsigned, CastSigned, Modulus, FitsSigned;
    CastSignedUnwraps(n, 0, size);
    CastSignedUnwraps(n, 0, wide);
    CastSignedUnwraps(n, if wide == 8 then 1 else U32, wide);
  }

  lemma FixedRoundTrip(n: nat, k: nat, rest: seq<byte>)
    requires n < Pow2(8 * k)
    ensures ReadBytes(LittleEndian(n, k) + rest, k) == Ok(LittleEndian(n, k), rest)
    ensures FromLittleEndian(LittleEndian(n, k)) == n
  {
    LittleEndianInverse(n, k);
    SplitAppend(LittleEndian(n, k), rest);
    hide LittleEndian, FromLittleEndian, Pow2;
  }

  lemma ReadScalarFrame(t: LType, size: nat, a: seq<byte>, b: seq<byte>)
    requires ReadScalar(t, size, a).Ok?
    ensures ReadScalar(t, size, a + b) == Ok(ReadScalar(t, size, a).value, ReadScalar(t, size, a).rest + b)
  {
    match t {
      case Bool => ReadVarint32Frame(a, b); hide ReadVarint32;
      case Fixed32 => ReadBytesFrame(a, b, 4); hide ReadBytes, FromLittleEndian;
      case Fixed64 => ReadBytesFrame(a, b, 8); hide ReadBytes, FromLittleEndian;
      case _ => ReadVarint64Frame(a, b); hide ReadVarint64, CastSigned, CastUnsigned, UnZigZag;
    }
  }

  /** Packed arrays are sized without encoding when the elements have a fixed width. */
  lemma FixedWidth(t: LType, n: int)
    ensures t.Fixed32? ==> |ScalarBytes(t, n)| == 4
    ensures t.Fixed64? ==> |ScalarBytes(t, n)| == 8
    ensures Packable(t) ==> |ScalarBytes(t, n)| >= 1
  {
  }
}
