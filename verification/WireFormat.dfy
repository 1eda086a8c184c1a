/**
 The wire format by its numbers: which bytes are accepted for a value of each type, which
 key a field has, and which records are refused. Encodings that no encoder here writes are
 covered too, such as padded or truncated varints.
 */
module WireFormat {
  import opened Bits
  import opened Wrappers
  import opened Varint
  import opened Descriptor
  import opened Scalars
  import opened Encoding
  import opened Decoding
  import opened Records

  // ---------- Varints ----------

  /** bs begins with a varint of k bytes: the first byte without a continuation bit is its last. */
  predicate BeginsWithVarint(bs: seq<byte>, k: nat) {
    0 < k <= |bs| && bs[k - 1] < 128 && forall j :: 0 <= j < k - 1 ==> bs[j] >= 128
  }

  lemma {:induction false} LengthIs(bs: seq<byte>, k: nat)
    requires BeginsWithVarint(bs, k)
    ensures VarintLength(bs) == k
  {
    if k > 1 {
      LengthIs(bs[1..], k - 1);
    }
  }

  lemma {:induction false} LengthBegins(bs: seq<byte>)
    ensures VarintLength(bs) > 0 ==> BeginsWithVarint(bs, VarintLength(bs))
  {
    if bs != [] && bs[0] >= 128 {
      LengthBegins(bs[1..]);
    }
  }

  /** The 64-bit reader succeeds exactly on varints of at most ten bytes. */
  lemma Varint64Exactly(bs: seq<byte>)
    ensures ReadVarint64(bs).Ok? <==> exists k: nat :: k <= 10 && BeginsWithVarint(bs, k)
    ensures forall k: nat :: k <= 10 && BeginsWithVarint(bs, k) ==>
              ReadVarint64(bs) == Ok(VarintValue(bs[..k]) % U64, bs[k..])
  {
    LengthBegins(bs);
    forall k: nat | k <= 10 && BeginsWithVarint(bs, k) ensures VarintLength(bs) == k {
      LengthIs(bs, k);
    }
    hide VarintLength, VarintValue;
  }

  /** Byte k of a varint holds the group of seven bits number k, and a continuation bit unless it is the last. */
  lemma {:induction false} GroupAt(n: nat, k: nat)
    requires k < |EncVarint(n)|
    ensures EncVarint(n)[k] == n / Pow2(7 * k) % 128 + (if k < |EncVarint(n)| - 1 then 128 else 0)
  {
    if k == 0 {
      assert Pow2(0) == 1;
    } else {
      GroupAt(n / 128, k - 1);
      Pow2Step(k - 1);
      DivideTwice(n, 128, Pow2(7 * (k - 1)));
      hide Pow2;
      assert EncVarint(n)[k] == EncVarint(n / 128)[k - 1];
    }
  }

  lemma DivideTwice(n: nat, a: nat, b: nat)
    requires a > 0 && b > 0
    ensures n / a / b == n / (a * b)
  {
    var q, r := n / a, n % a;
    var q', r' := q / b, q % b;
    assert n == (q' * b + r') * a + r;
    assert (q' * b + r') * a == q' * (a * b) + r' * a;
    MulLess(r', b, a);
    assert r' * a + a <= b * a by { assert (r' + 1) * a <= b * a; }
    var m := r' * a + r;
    assert 0 <= m < a * b && n == q' * (a * b) + m;
    ModUnique(n, a * b, q', m);
    assert n == n / (a * b) * (a * b) + m;
    QuotientUnique(q', m, n / (a * b), m, a * b);
  }

  /** Byte k of a fixed-width number holds its bits 8k to 8k + 7. */
  lemma {:induction false} ByteAt(n: nat, width: nat, k: nat)
    requires k < width
    ensures LittleEndian(n, width)[k] == n / Pow2(8 * k) % 256
  {
    if k == 0 {
      assert Pow2(0) == 1;
    } else {
      ByteAt(n / 256, width - 1, k - 1);
      Pow2Add(8, 8 * (k - 1));
      Pow2Words();
      assert 8 * k == 8 + 8 * (k - 1);
      DivideTwice(n, 256, Pow2(8 * (k - 1)));
      hide Pow2;
      assert LittleEndian(n, width)[k] == LittleEndian(n / 256, width - 1)[k - 1];
    }
  }

  // ---------- The 32-bit reader ----------

  /** Its counter of bits, a byte, counts so many groups of seven before it wraps around. */
  const MAX_COUNTED: nat := 37

  /**
   The bytes from the sixth on are padding: no bits, or the bits of a sign extension when
   the first five make up a negative number.
   */
  predicate Padding(s: seq<byte>, j: nat)
    requires 5 <= j < |s|
  {
    || s[j] % 128 == 0
    || (VarintValue(s[..5]) % U32 >= 0x8000_0000 && s[j] == if j < 9 then 0xFF else 0x01)
  }

  /** Of five bytes the last has no bits beyond the 32nd, and longer ones end in padding. */
  predicate Fits32(s: seq<byte>) {
    && (|s| == 5 ==> s[4] < 16)
    && forall j :: 5 <= j < |s| ==> Padding(s, j)
  }

  function Low32(s: seq<byte>): nat {
    VarintValue(s[..if |s| < 5 then |s| else 5]) % U32
  }

  lemma Low32Grows(s: seq<byte>, j: nat)
    requires j < |s| <= MAX_COUNTED
    ensures Accumulate32(s[j], 7 * j, Low32(s[..j])) == Low32(s[..j + 1])
  {
    var p := s[..j];
    assert p + [s[j]] == s[..j + 1];
    hide Accumulate32, VarintValue;
    if j <= 4 {
      assert p[..|p|] == p && s[..j + 1][..j + 1] == s[..j + 1];
      Accumulate32Tracks(p, s[j]);
    } else {
      assert p[..5] == s[..j + 1][..5];
      HighByteIgnored(s[j], 7 * j, Low32(p));
    }
  }

  /** As Fits32, for the bytes from j on. */
  predicate FitsFrom(s: seq<byte>, j: nat) {
    && (j <= 4 && |s| == 5 ==> s[4] < 16)
    && forall i :: 5 <= i < |s| && j <= i ==> Padding(s, i)
  }

  /** The test of byte j says whether it breaks the conditions. */
  lemma OverflowExactly(s: seq<byte>, j: nat)
    requires j < |s| <= MAX_COUNTED && (j == |s| - 1 <==> s[j] < 128)
    ensures FitsFrom(s, j) <==> !Overflows32(s[j], 7 * j, Low32(s[..j])) && FitsFrom(s, j + 1)
  {
    hide VarintValue;
    if j >= 5 {
      assert s[..j][..5] == s[..5];
      assert Overflows32(s[j], 7 * j, Low32(s[..j])) <==> !Padding(s, j);
    } else {
      assert Overflows32(s[j], 7 * j, Low32(s[..j])) <==> j == 4 && |s| == 5 && s[4] >= 16;
    }
    hide Padding, Overflows32, Low32;
  }

  lemma {:induction false} Read32Exactly(s: seq<byte>, j: nat, tail: seq<byte>)
    requires j < |s| <= MAX_COUNTED && BeginsWithVarint(s, |s|)
    ensures ReadVarint32From(s[j..] + tail, 7 * j, Low32(s[..j])) ==
            if FitsFrom(s, j) then Ok(Low32(s), tail) else Fail
    decreases |s| - j
  {
    assert j == |s| - 1 <==> s[j] < 128;
    OverflowExactly(s, j);
    Low32Grows(s, j);
    hide BeginsWithVarint, FitsFrom, Low32, Accumulate32, Overflows32, ReadVarint32From;
    Read32OneByte(s, j, tail, Low32(s[..j]));
    if j == |s| - 1 {
      assert s[..j + 1] == s && s[j + 1..] + tail == tail;
      NothingLeft(s);
    } else {
      Read32Exactly(s, j + 1, tail);
    }
  }

  lemma Read32OneByte(s: seq<byte>, j: nat, tail: seq<byte>, r: nat)
    requires j < |s| <= MAX_COUNTED && (j == |s| - 1 <==> s[j] < 128)
    ensures ReadVarint32From(s[j..] + tail, 7 * j, r) ==
            if Overflows32(s[j], 7 * j, r) then Fail
            else if j == |s| - 1 then Ok(Accumulate32(s[j], 7 * j, r), s[j + 1..] + tail)
            else ReadVarint32From(s[j + 1..] + tail, 7 * (j + 1), Accumulate32(s[j], 7 * j, r))
  {
    var bs := s[j..] + tail;
    assert bs[0] == s[j] && bs[1..] == s[j + 1..] + tail;
    hide Accumulate32, Overflows32;
    assert j < |s| - 1 ==> (7 * j + 7) % U8 == 7 * (j + 1);
  }

  lemma NothingLeft(s: seq<byte>)
    requires s != []
    ensures FitsFrom(s, |s|)
  {
  }

  /** The 32-bit reader accepts exactly the varints that fit, and returns their value's low 32 bits. */
  lemma Varint32Exactly(bs: seq<byte>, k: nat)
    requires k <= MAX_COUNTED && BeginsWithVarint(bs, k)
    ensures ReadVarint32(bs) == if Fits32(bs[..k]) then Ok(VarintValue(bs[..k]) % U32, bs[k..]) else Fail
  {
    var s := bs[..k];
    assert s[0..] + bs[k..] == bs && s[..0] == [];
    assert Low32([]) == 0;
    Read32Exactly(s, 0, bs[k..]);
    LengthIs(bs, k);
    assert FitsFrom(s, 0) <==> Fits32(s);
    hide Low32, Fits32, FitsFrom, VarintValue, ReadVarint32From, VarintLength;
    if Fits32(s) {
      Low32IsValue(s);
    }
  }

  /** Behind more padding than the counter counts, a last byte lands among the low bits again. */
  lemma CounterWraps(b: byte, tail: seq<byte>)
    requires b < 128
    ensures ReadVarint32(seq(MAX_COUNTED, _ => 0x80) + ([b] + tail)) == Ok(8 * b, tail)
  {
    hide ReadVarint32From;
    SkipPadding(0, MAX_COUNTED, [b] + tail);
    LastGroup(b, tail);
  }

  lemma LastGroup(b: byte, tail: seq<byte>)
    requires b < 128
    ensures ReadVarint32From([b] + tail, 3, 0) == Ok(8 * b, tail)
  {
    var bs := [b] + tail;
    assert bs[0] == b && bs[1..] == tail;
    FromThirdBit(b);
    assert !Overflows32(b, 3, 0);
    hide Accumulate32, Overflows32;
  }

  lemma FromThirdBit(b: byte)
    requires b < 128
    ensures Accumulate32(b, 3, 0) == 8 * b
  {
    OrZero(8 * b);
    hide Or;
    EighthIsSmall(b);
    assert Pow2(3) == 8;
  }

  lemma EighthIsSmall(b: byte)
    requires b < 128
    ensures b % 128 * 8 % U32 == 8 * b
  {
  }

  /** The counter after j groups. */
  function Counter(j: nat): nat {
    7 * j % U8
  }

  lemma {:induction false} SkipPadding(j: nat, n: nat, rest: seq<byte>)
    ensures ReadVarint32From(seq(n, _ => 0x80) + rest, Counter(j), 0) == ReadVarint32From(rest, Counter(j + n), 0)
    decreases n
  {
    var bs := seq(n, _ => 0x80) + rest;
    if n == 0 {
      assert bs == rest;
    } else {
      assert bs[0] == 0x80 && bs[1..] == seq(n - 1, _ => 0x80) + rest;
      CounterStep(j);
      ZeroGroup(Counter(j));
      hide Accumulate32, Overflows32, Counter;
      SkipPadding(j + 1, n - 1, rest);
    }
  }

  lemma CounterStep(j: nat)
    ensures (Counter(j) + 7) % U8 == Counter(j + 1)
  {
  }

  lemma ZeroGroup(bitpos: nat)
    ensures Accumulate32(0x80, bitpos, 0) == 0 && !Overflows32(0x80, bitpos, 0)
  {
    assert 0x80 % 128 * Pow2(bitpos) == 0;
  }

  lemma {:induction false} Low32IsValue(s: seq<byte>)
    ensures Low32(s) == VarintValue(s) % U32
  {
    if |s| <= 5 {
      assert s[..|s|] == s;
    } else {
      var p := s[..|s| - 1];
      Low32IsValue(p);
      assert p[..5] == s[..5] && p + [s[|s| - 1]] == s;
      ValueAppend(p, s[|s| - 1]);
      HighPlaceVanishes(VarintValue(p), s[|s| - 1] % 128, |p|);
      hide VarintValue, Place;
    }
  }

  // ---------- Scalars ----------

  /** The signed number with these low bits. */
  function AsSigned(v: nat, modulus: nat): int
    requires modulus > 0
  {
    var low := v % modulus;
    if low < modulus / 2 then low else low - modulus
  }

  lemma CastIsAsSigned(v: nat, size: nat)
    ensures CastSigned(v, size) == AsSigned(v, Modulus(size))
  {
    var m := Modulus(size);
    hide Modulus;
    var low := v % m;
    assert v == v / m * m + low;
    assert v + m / 2 == v / m * m + (low + m / 2);
    if low < m / 2 {
      ModUnique(v + m / 2, m, v / m, low + m / 2);
    } else {
      assert v + m / 2 == (v / m + 1) * m + (low - m / 2);
      ModUnique(v + m / 2, m, v / m + 1, low - m / 2);
    }
  }

  /**
   Which varints a field of type int32, int64 and the like accepts. Fields of at most 32 bits
   look at the low 32 bits only, so that negative numbers may come in five bytes or in ten.
   */
  lemma IntExactly(size: nat, bs: seq<byte>)
    requires IntSize(size) && ReadVarint64(bs).Ok?
    ensures var n := AsSigned(ReadVarint64(bs).value, if size == 8 then U64 else U32);
      ReadScalar(Int, size, bs) ==
        if -(Modulus(size) / 2) <= n < Modulus(size) / 2 then Ok(n, ReadVarint64(bs).rest) else Fail
  {
    var v := ReadVarint64(bs).value;
    CastIsAsSigned(v, if size == 8 then 8 else 4);
    CastSignedFits(WireToInt(v, size), size);
    hide ReadVarint64, CastSigned, AsSigned;
  }

  /** An unsigned field accepts exactly the values of its width, and a ZigZag field those of its signed width. */
  lemma UIntExactly(size: nat, bs: seq<byte>)
    requires IntSize(size) && ReadVarint64(bs).Ok?
    ensures var v := ReadVarint64(bs).value;
      ReadScalar(UInt, size, bs) == if v < Modulus(size) then Ok(v, ReadVarint64(bs).rest) else Fail
  {
    hide ReadVarint64, CastSigned;
  }

  lemma SIntExactly(size: nat, bs: seq<byte>)
    requires IntSize(size) && ReadVarint64(bs).Ok?
    ensures var v := ReadVarint64(bs).value;
      var n := if v % 2 == 0 then v / 2 else -(v / 2) - 1;
      ReadScalar(SInt, size, bs) ==
        if -(Modulus(size) / 2) <= n < Modulus(size) / 2 then Ok(n, ReadVarint64(bs).rest) else Fail
  {
    Read64InRange(bs);
    UnZigZagIs(ReadVarint64(bs).value);
    CastSignedFits(UnZigZag(ReadVarint64(bs).value), size);
    hide ReadVarint64, CastSigned, UnZigZag;
  }

  /** The codes 0, 1, 2, 3 and so on stand for 0, -1, 1, -2 and so on. */
  lemma UnZigZagIs(v: nat)
    requires v < U64
    ensures UnZigZag(v) == if v % 2 == 0 then v / 2 else -(v / 2) - 1
  {
    if v % 2 == 1 {
      CastSignedUnwraps(-1 - v / 2, 1, 8);
    } else {
      CastSignedUnwraps(v / 2, 0, 8);
    }
    hide CastSigned;
  }

  /** Negative numbers in five bytes, as some senders write them, are read like those in ten. */
  lemma FiveByteNegative(n: int, tail: seq<byte>)
    requires -0x8000_0000 <= n < 0
    ensures |EncVarint(n + U32)| == 5
    ensures ReadScalar(Int, 4, EncVarint(n + U32) + tail) == Ok(n, tail)
    ensures ReadScalar(Int, 4, EncVarint(n + U64) + tail) == Ok(n, tail)
  {
    Pow2Words();
    hide EncVarint, ReadVarint64, ReadScalar, Pow2;
    EncVarintFits(n + U32);
    EncVarintLength(n + U32);
    if |EncVarint(n + U32)| <= 4 {
      Pow2Monotone(7 * |EncVarint(n + U32)|, 28);
    }
    Varint64RoundTrip(n + U32, tail);
    Varint64RoundTrip(n + U64, tail);
    IntExactly(4, EncVarint(n + U32) + tail);
    IntExactly(4, EncVarint(n + U64) + tail);
  }

  /** Signed numbers are written in two's complement of 64 bits, so that negative ones take ten bytes. */
  lemma NegativeInTenBytes(n: int)
    requires -0x8000_0000_0000_0000 <= n < 0x8000_0000_0000_0000
    ensures ScalarBytes(Int, n) == EncVarint(if n < 0 then n + U64 else n)
    ensures n < 0 ==> |ScalarBytes(Int, n)| == 10
  {
    if n < 0 {
      Pow2Words();
      hide EncVarint, Pow2;
      EncVarintFits(n + U64);
      EncVarintLength(n + U64);
      if |EncVarint(n + U64)| <= 9 {
        Pow2Monotone(7 * |EncVarint(n + U64)|, 63);
      }
    }
    hide EncVarint;
  }

  /** A bool is written as 0 or 1; read, every number but 0 is true. */
  lemma BoolExactly(size: nat, v: nat, n: int, tail: seq<byte>)
    requires v < U32
    ensures ScalarBytes(Bool, n) == [if n == 0 then 0 else 1]
    ensures ReadScalar(Bool, size, EncVarint(v) + tail) == Ok(if v == 0 then 0 else 1, tail)
  {
    assert EncVarint(0) == [0] && EncVarint(1) == [1];
    hide EncVarint, ReadVarint32;
    Varint32RoundTrip(v, tail);
  }

  // ---------- Bytes and strings ----------

  predicate Prefixed(t: LType) {
    t.Bytes? || t.String? || t.FixedLengthBytes?
  }

  /**
   A payload is accepted exactly when it fits with its size field or terminator; an array of fixed
   length may be empty.
   */
  predicate FitsField(f: Field, b: seq<byte>)
    requires Prefixed(f.ltype)
  {
    match f.ltype
    case Bytes => |b| + BYTES_OFFSET <= f.dataSize
    case String => |b| + 1 <= f.dataSize
    case FixedLengthBytes => b == [] || |b| == f.dataSize
  }

  lemma PayloadExactly(f: Field, prior: Value, b: seq<byte>, tail: seq<byte>)
    requires Prefixed(f.ltype) && f.dataSize <= PB_SIZE_MAX && |b| < U32
    ensures ReadItem(f, prior, LengthPrefixed(b) + tail) ==
            if !FitsField(f, b) then Fail
            else Ok(VBytes(if f.ltype.FixedLengthBytes? && b == [] then Zeros(f.dataSize) else b), tail)
  {
    var bs := LengthPrefixed(b) + tail;
    SubstreamOfLengthPrefixed(b, tail);
    assert ReadBytes(b + tail, |b|) == Ok(b, tail) by { SplitAppend(b, tail); }
    hide LengthPrefixed, ReadVarint32, ReadBytes, Zeros;
    if f.ltype.Bytes? {
      assert ReadItem(f, prior, bs) == ReadByteArray(f, bs);
    } else if f.ltype.String? {
      assert ReadItem(f, prior, bs) == ReadString(f, bs);
      LengthWithTerminator(f, |b|);
    } else {
      assert ReadItem(f, prior, bs) == ReadFixedBytes(f, bs);
      assert b == [] ==> b + tail == tail;
    }
    hide ReadItem, Substream;
  }

  /** Room for the terminator, in 32-bit arithmetic. */
  lemma LengthWithTerminator(f: Field, n: nat)
    requires n < U32 && f.dataSize <= PB_SIZE_MAX
    ensures var alloc := (n + 1) % U32; (alloc < n || alloc > f.dataSize) <==> n + 1 > f.dataSize
  {
  }

  /** The encoder refuses an array of bytes exactly when the decoder could not take what it would write. */
  lemma BytesRefusedBothWays(f: Field, prior: Value, b: seq<byte>, tail: seq<byte>)
    requires f.ltype.Bytes? || (f.ltype.FixedLengthBytes? && b != [])
    requires f.dataSize <= PB_SIZE_MAX && |b| < U32
    ensures ItemEncodable(f, VBytes(b)) <==> ReadItem(f, prior, ItemBytes(f, VBytes(b)) + tail).Ok?
  {
    PayloadExactly(f, prior, b, tail);
    assert ItemBytes(f, VBytes(b)) == LengthPrefixed(b);
    hide ReadItem, LengthPrefixed, ItemBytes;
  }

  // ---------- Keys ----------

  /** The number of each wire type. */
  lemma KeyNumbers(f: Field)
    ensures f.ltype.Bool? || f.ltype.Int? || f.ltype.UInt? || f.ltype.SInt? ==> FieldTag(f) == EncVarint(8 * f.tag)
    ensures f.ltype.Fixed64? ==> FieldTag(f) == EncVarint(8 * f.tag + 1)
    ensures f.ltype.Bytes? || f.ltype.String? || f.ltype.Submessage? || f.ltype.FixedLengthBytes? ==>
              FieldTag(f) == EncVarint(8 * f.tag + 2)
    ensures f.ltype.Fixed32? ==> FieldTag(f) == EncVarint(8 * f.tag + 5)
  {
    hide EncVarint;
  }

  /** Fields are written in the order of the descriptor. */
  lemma {:induction false} FieldsInOrder(d1: seq<Field>, d2: seq<Field>, m: Msg)
    ensures MsgBytes(d1 + d2, m) == MsgBytes(d1, m) + MsgBytes(d2, m)
  {
    if d1 == [] {
      assert d1 + d2 == d2;
    } else {
      assert (d1 + d2)[1..] == d1[1..] + d2;
      FieldsInOrder(d1[1..], d2, m);
      hide SlotBytes, SlotOf;
    }
  }

  /** The items of an array are written one after the other. */
  lemma {:induction false} ItemsInOrder(f: Field, xs: seq<Value>, ys: seq<Value>)
    ensures PackedBytes(f.ltype, xs + ys) == PackedBytes(f.ltype, xs) + PackedBytes(f.ltype, ys)
    ensures UnpackedBytes(f, xs + ys) == UnpackedBytes(f, xs) + UnpackedBytes(f, ys)
    decreases |xs|
  {
    if xs == [] {
      assert xs + ys == ys;
    } else {
      assert (xs + ys)[1..] == xs[1..] + ys;
      ItemsInOrder(f, xs[1..], ys);
      hide ScalarBytes, ItemBytes, FieldTag;
    }
  }

  /** Scalars are packed into one record under wire type 2; an empty array is no record at all. */
  lemma PackedArray(f: Field, items: seq<Value>)
    requires Packable(f.ltype) && |PackedBytes(f.ltype, items)| < U32
    ensures var payload := PackedBytes(f.ltype, items);
      ArrayBytes(f, items) ==
        if items == [] then [] else EncVarint(8 * f.tag + 2) + (EncVarint(|payload|) + payload)
  {
    hide EncVarint, PackedBytes, LengthPrefixed;
    SmallLength(PackedBytes(f.ltype, items));
  }

  // ---------- Records of fields that the descriptor does not have ----------

  /** How many bytes of a record's contents are skipped, by the number of its wire type; none if it is refused. */
  function SkippedLength(wireType: nat, bs: seq<byte>): (n: Option<nat>)
    ensures n.Some? ==> n.value <= |bs|
  {
    if wireType == 0 then
      var k := VarintLength(bs); if k == 0 then None else Some(k)
    else if wireType == 1 then
      if |bs| >= 8 then Some(8) else None
    else if wireType == 2 then
      match ReadVarint32(bs)
      case Fail => None
      case Ok(n, rest) => if n <= |rest| then Some(|bs| - |rest| + n) else None
    else if wireType == 5 then
      if |bs| >= 4 then Some(4) else None
    else None
  }

  /**
   An unknown record, also one of field number zero, is skipped whole; a group, or a wire type that
   does not exist, ends decoding in failure.
   */
  lemma UnknownExactly(d: seq<Field>, st: State, tag: nat, wireType: nat, body: seq<byte>)
    requires tag < 0x2000_0000 && wireType < 8 && FindTag(d, tag).None?
    requires tag == 0 ==> wireType != 0 && d != []
    ensures var n := SkippedLength(wireType, body);
      Run(d, st, TagBytes(tag, wireType) + body) == if n.None? then Failed else Run(d, st, body[n.value..])
    ensures wireType == 3 || wireType == 4 || wireType == 6 || wireType == 7 ==>
              Run(d, st, TagBytes(tag, wireType) + body) == Failed
  {
    var bs := TagBytes(tag, wireType) + body;
    ReadKey(tag, wireType, body);
    TagBytesNonEmpty(tag, wireType, body);
    SkipExactly(wireType, body);
    hide TagBytes, ReadTag, SkipField, FindTag, ReadIntoEmpty, Run, ReadField, Enter, MayEnter;
    RunStep(d, st, bs);
  }

  /** Every key but zero is split, also one of field number zero. */
  lemma ReadKey(tag: nat, wireType: nat, body: seq<byte>)
    requires tag < 0x2000_0000 && wireType < 8
    ensures ReadTag(TagBytes(tag, wireType) + body) ==
            if tag == 0 && wireType == 0 then Stop(body) else Tag(tag, wireType, body)
  {
    hide EncVarint, ReadVarint32;
    Varint32RoundTrip(8 * tag + wireType, body);
  }

  lemma SkipExactly(wireType: nat, body: seq<byte>)
    ensures var n := SkippedLength(wireType, body);
      SkipField(wireType, body) == if n.None? then Fail else Ok((), body[n.value..])
  {
    hide ReadVarint32From, VarintLength;
    if ReadVarint32(body).Ok? {
      SuffixLength(body, 0, 0);
    }
  }

  lemma {:induction false} SuffixLength(bs: seq<byte>, bitpos: nat, r: nat)
    requires ReadVarint32From(bs, bitpos, r).Ok?
    ensures var rest := ReadVarint32From(bs, bitpos, r).rest; |rest| <= |bs| && rest == bs[|bs| - |rest|..]
    decreases |bs|
  {
    hide Accumulate32, Overflows32;
    if bs[0] >= 128 {
      SuffixLength(bs[1..], (bitpos + 7) % U8, Accumulate32(bs[0], bitpos, r));
    }
  }
}
