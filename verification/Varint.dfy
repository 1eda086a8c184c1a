/**
 Base-128 varints: the encoder of pb_encode.c and the two readers of pb_decode.c,
 as functions on byte sequences. A reader returns the value and the unread bytes.
 */
module Varint {
  import opened Bits

  type byte = b: int | 0 <= b < 256

  datatype Parsed<+T> = Fail | Ok(value: T, rest: seq<byte>)

  /** The canonical encoding: seven bits per byte, least significant group first. */
  function EncVarint(n: nat): (s: seq<byte>)
    ensures |s| >= 1
  {
    if n < 128 then [n] else [n % 128 + 128] + EncVarint(n / 128)
  }

  /** How many bytes the varint at the head of bs occupies; 0 when it is cut off. */
  function VarintLength(bs: seq<byte>): (k: nat)
    ensures k <= |bs|
  {
    if bs == [] then 0
    else if bs[0] < 128 then 1
    else var k := VarintLength(bs[1..]); if k == 0 then 0 else k + 1
  }

  /** The number that a group of varint bytes denotes, without any word limit. */
  function VarintValue(s: seq<byte>): (n: nat) {
    if s == [] then 0 else s[0] % 128 + 128 * VarintValue(s[1..])
  }

  /** pb_decode_varint: at most ten bytes, bits beyond the 64th are dropped. */
  function ReadVarint64(bs: seq<byte>): (p: Parsed<nat>)
    ensures p.Ok? ==> |p.rest| < |bs|
  {
    var k := VarintLength(bs);
    if k == 0 || k > 10 then Fail
    else Ok(VarintValue(bs[..k]) % U64, bs[k..])
  }

  /** The byte that the 32-bit reader accepts as sign extension at this bit position. */
  function SignExtension(bitpos: nat): byte {
    if bitpos < 63 then 0xFF else 0x01
  }

  /** One more byte of the 32-bit reader; `bitpos` is an 8-bit counter. */
  predicate Overflows32(b: byte, bitpos: nat, result: nat) {
    if bitpos >= 32
    then b % 128 != 0 && (result / 0x8000_0000 == 0 || b != SignExtension(bitpos))
    else b < 128 && (bitpos + 7) % U8 == 35 && (b / 16) % 8 != 0
  }

  function Accumulate32(b: byte, bitpos: nat, result: nat): nat {
    if bitpos >= 32 then result else Or(result, (b % 128 * Pow2(bitpos)) % U32)
  }

  /** pb_decode_varint32_eof, from the point where `bitpos` bits have been collected. */
  function ReadVarint32From(bs: seq<byte>, bitpos: nat, result: nat): (p: Parsed<nat>)
    ensures p.Ok? ==> |p.rest| < |bs|
  {
    if bs == [] || Overflows32(bs[0], bitpos, result) then Fail
    else
      var result' := Accumulate32(bs[0], bitpos, result);
      if bs[0] < 128 then Ok(result', bs[1..])
      else ReadVarint32From(bs[1..], (bitpos + 7) % U8, result')
  }

  function ReadVarint32(bs: seq<byte>): (p: Parsed<nat>)
    ensures p.Ok? ==> |p.rest| < |bs|
  {
    ReadVarint32From(bs, 0, 0)
  }

  // ---------- Arithmetic of the byte groups ----------

  /** The contribution of x as the j-th group of seven bits. */
  function Place(x: nat, j: nat): nat {
    x * Pow2(7 * j)
  }

  lemma {:induction false} ValueAppend(s: seq<byte>, b: byte)
    ensures VarintValue(s + [b]) == VarintValue(s) + Place(b % 128, |s|)
  {
    if s == [] {
      assert Pow2(0) == 1;
      assert (s + [b])[1..] == [];
    } else {
      assert (s + [b])[1..] == s[1..] + [b];
      ValueAppend(s[1..], b);
      PlaceStep(b % 128, |s[1..]|);
      hide Place;
    }
  }

  lemma PlaceStep(x: nat, j: nat)
    ensures Place(x, j + 1) == 128 * Place(x, j)
  {
    Pow2Step(j);
    var p := Pow2(7 * j);
    hide Pow2;
    assert 128 * (x * p) == x * (128 * p);
  }

  lemma {:induction false} ValueBound(s: seq<byte>)
    ensures VarintValue(s) < Pow2(7 * |s|)
  {
    if s != [] {
      ValueBound(s[1..]);
      Pow2Add(7, 7 * |s[1..]|);
      Pow2Words();
    }
  }

  lemma {:induction false} LengthFrame(a: seq<byte>, b: seq<byte>)
    requires VarintLength(a) != 0
    ensures VarintLength(a + b) == VarintLength(a)
  {
    if a[0] >= 128 {
      assert (a + b)[1..] == a[1..] + b;
      LengthFrame(a[1..], b);
    }
  }

  /** Shifting x into place and OR-ing it onto fewer than `shift` collected bits adds it, modulo the word size. */
  lemma ShiftedOr(r: nat, x: nat, shift: nat, width: nat)
    requires r < Pow2(shift) && shift <= width
    ensures Or(r, (x * Pow2(shift)) % Pow2(width)) == (r + x * Pow2(shift)) % Pow2(width)
  {
    var p, q := Pow2(shift), Pow2(width - shift);
    Pow2Add(shift, width - shift);
    ModProduct(x, p, q);
    OrDisjoint(r, x % q, shift);
    ModSum(r, x, p, q);
  }

  lemma ModProduct(x: nat, p: nat, q: nat)
    requires p > 0 && q > 0
    ensures (x * p) % (p * q) == (x % q) * p
  {
    var k, m := x / q, x % q;
    assert x * p == k * (p * q) + m * p by { assert x == k * q + m; }
    MulLess(m, q, p);
    ModUnique(x * p, p * q, k, m * p);
  }

  lemma ModSum(r: nat, x: nat, p: nat, q: nat)
    requires r < p && q > 0
    ensures (r + x * p) % (p * q) == r + (x % q) * p
  {
    var k, m := x / q, x % q;
    assert x * p == k * (p * q) + m * p by { assert x == k * q + m; }
    assert r + m * p < p * q by {
      assert (m + 1) * p <= q * p by { assert m + 1 <= q; }
    }
    ModUnique(r + x * p, p * q, k, r + m * p);
  }

  lemma MulLess(m: nat, q: nat, p: nat)
    requires m < q && p > 0
    ensures 0 <= m * p < p * q
  {
    assert (m + 1) * p <= q * p;
  }

  lemma ModUnique(n: int, d: nat, k: int, m: nat)
    requires d > 0 && n == k * d + m && m < d
    ensures n % d == m
  {
    var k' := n / d;
    assert n == k' * d + n % d;
    QuotientUnique(k, m, k', n % d, d);
  }

  lemma QuotientUnique(k: int, m: nat, k': int, m': nat, d: nat)
    requires m < d && m' < d && k * d + m == k' * d + m'
    ensures k == k' && m == m'
  {
    assert (k - k') * d == m' - m && (k' - k) * d == m - m';
    if k > k' {
      MulAtLeast(k - k', d);
    } else if k < k' {
      MulAtLeast(k' - k, d);
    }
  }

  lemma MulAtLeast(x: nat, d: nat)
    requires x >= 1
    ensures x * d >= d
  {
    assert x * d == d + (x - 1) * d;
  }

  // ---------- Round trips ----------

  /** The canonical bytes delimit themselves and denote n. */
  lemma {:induction false} EncVarintDenotes(n: nat, rest: seq<byte>)
    ensures VarintLength(EncVarint(n) + rest) == |EncVarint(n)|
    ensures VarintValue(EncVarint(n)) == n
  {
    var s := EncVarint(n);
    if n >= 128 {
      EncVarintDenotes(n / 128, rest);
      assert (s + rest)[1..] == EncVarint(n / 128) + rest;
      assert s[1..] == EncVarint(n / 128);
    }
  }

  /** The length is exactly the least k >= 1 with n < 2^(7k). */
  lemma {:induction false} EncVarintLength(n: nat)
    ensures n < Pow2(7 * |EncVarint(n)|)
    ensures |EncVarint(n)| > 1 ==> Pow2(7 * (|EncVarint(n)| - 1)) <= n
  {
    var k := |EncVarint(n / 128)|;
    if n >= 128 {
      assert |EncVarint(n)| == k + 1;
      EncVarintLength(n / 128);
      Pow2Step(k);
      Pow2Step(k - 1);
      assert Pow2(0) == 1;
      hide Pow2, EncVarint;
    } else {
      Pow2Words();
    }
  }

  lemma Pow2Step(k: nat)
    ensures Pow2(7 * (k + 1)) == 128 * Pow2(7 * k)
  {
    Pow2Add(7, 7 * k);
    Pow2Words();
    assert 7 * (k + 1) == 7 + 7 * k;
  }

  /** A 64-bit value fits the encoder's 10-byte buffer, a 32-bit value needs five bytes. */
  lemma EncVarintFits(n: nat)
    ensures n < U64 ==> |EncVarint(n)| <= 10
    ensures n < U32 ==> |EncVarint(n)| <= 5
  {
    var k := |EncVarint(n)|;
    EncVarintLength(n);
    Pow2Words();
    if k > 10 { Pow2Monotone(64, 7 * (k - 1)); }
    if k > 5 { Pow2Monotone(32, 7 * (k - 1)); }
  }

  lemma SplitAppend(s: seq<byte>, rest: seq<byte>)
    ensures (s + rest)[..|s|] == s && (s + rest)[|s|..] == rest
  {
  }

  lemma Varint64RoundTrip(n: nat, rest: seq<byte>)
    requires n < U64
    ensures ReadVarint64(EncVarint(n) + rest) == Ok(n, rest)
  {
    EncVarintDenotes(n, rest);
    EncVarintFits(n);
    SplitAppend(EncVarint(n), rest);
    hide EncVarint, VarintLength, VarintValue;
  }

  /** No shorter byte string is read as the same value: the encoder is optimal. */
  lemma EncVarintMinimal(bs: seq<byte>)
    requires ReadVarint64(bs).Ok?
    ensures |EncVarint(ReadVarint64(bs).value)| <= |bs| - |ReadVarint64(bs).rest|
  {
    var k := VarintLength(bs);
    var n := ReadVarint64(bs).value;
    var length := |EncVarint(n)|;
    if length > k {
      EncVarintLength(n);
      ValueBound(bs[..k]);
      Pow2Monotone(7 * k, 7 * (length - 1));
    }
  }

  // ---------- The 32-bit reader ----------

  /** What one byte of the first five adds. */
  lemma Accumulate32Adds(b: byte, j: nat, r: nat)
    requires j <= 4 && r < Pow2(7 * j)
    ensures Accumulate32(b, 7 * j, r) == (r + Place(b % 128, j)) % U32
  {
    Pow2Words();
    ShiftedOr(r, b % 128, 7 * j, 32);
  }

  lemma NoOverflowYet(b: byte, j: nat, r: nat)
    requires b >= 128 && j <= 4
    ensures !Overflows32(b, 7 * j, r)
  {
  }

  /** A byte with its top bit set, among the first five, never fails: the reader goes on. */
  lemma Continue32(bs: seq<byte>, j: nat, r: nat)
    requires bs != [] && bs[0] >= 128 && j <= 4 && r < Pow2(7 * j)
    ensures ReadVarint32From(bs, 7 * j, r)
         == ReadVarint32From(bs[1..], 7 * (j + 1), (r + Place(bs[0] % 128, j)) % U32)
  {
    hide Or, Pow2, Accumulate32, Place, Overflows32;
    assert !Overflows32(bs[0], 7 * j, r) by { NoOverflowYet(bs[0], j, r); }
    assert (7 * j + 7) % U8 == 7 * (j + 1);
    Accumulate32Adds(bs[0], j, r);
  }

  /** The first four groups stay below 2^28. */
  lemma GroupSum(b: byte, j: nat, r: nat)
    requires j <= 3 && r < Pow2(7 * j)
    ensures r + Place(b % 128, j) < Pow2(7 * (j + 1)) <= 0x1000_0000
  {
    Pow2Step(j);
    LessShift(r, b % 128, Pow2(7 * j), 128);
    Pow2Words();
    Pow2Monotone(7 * (j + 1), 28);
  }

  lemma LastByte32(n: nat, j: nat, r: nat, rest: seq<byte>)
    requires j <= 4 && r < Pow2(7 * j) && n < 128 && (j == 4 ==> n < 16)
    ensures ReadVarint32From(EncVarint(n) + rest, 7 * j, r) == Ok((r + Place(n, j)) % U32, rest)
  {
    hide Or, Pow2, Place;
    var bs := EncVarint(n) + rest;
    Accumulate32Adds(bs[0], j, r);
    assert bs[1..] == rest;
  }

  lemma GroupFits(n: nat, j: nat, r: nat)
    requires j <= 4 && r < Pow2(7 * j) && n < Pow2(32 - 7 * j)
    ensures r + Place(n, j) < U32
  {
    assert Pow2(32) == U32 by { Pow2Words(); }
    Pow2Add(7 * j, 32 - 7 * j);
    LessShift(r, n, Pow2(7 * j), Pow2(32 - 7 * j));
  }

  lemma NextGroup(n: nat, j: nat)
    requires j <= 4 && n < Pow2(32 - 7 * j)
    ensures j == 4 ==> n < 16
    ensures n >= 128 ==> j < 4 && n / 128 < Pow2(32 - 7 * (j + 1))
  {
    assert Pow2(4) == 16;
    if j < 4 {
      assert Pow2(7) == 128;
      Pow2Add(7, 32 - 7 * (j + 1));
    }
  }

  lemma LessShift(r: nat, x: nat, p: nat, q: nat)
    requires r < p && x < q
    ensures r + x * p < p * q
  {
    MulLess(x, q, p);
    assert x * p + p <= q * p by { assert (x + 1) * p <= q * p; }
  }

  lemma Regroup(n: nat, j: nat)
    ensures Place(n % 128, j) + Place(n / 128, j + 1) == Place(n, j)
  {
    Pow2Step(j);
    var p := Pow2(7 * j);
    assert n == n % 128 + 128 * (n / 128);
    assert (n % 128) * p + (128 * (n / 128)) * p == n * p;
  }

  lemma EncVarintTail(n: nat, rest: seq<byte>)
    requires n >= 128
    ensures (EncVarint(n) + rest)[0] >= 128 && (EncVarint(n) + rest)[0] % 128 == n % 128
    ensures (EncVarint(n) + rest)[1..] == EncVarint(n / 128) + rest
  {
    var b, t := n % 128 + 128, EncVarint(n / 128);
    assert EncVarint(n) == [b] + t;
    hide EncVarint;
    assert ([b] + t) + rest == [b] + (t + rest);
  }

  lemma {:induction false} Canonical32(n: nat, j: nat, r: nat, rest: seq<byte>)
    requires j <= 4 && r < Pow2(7 * j) && n < Pow2(32 - 7 * j)
    ensures ReadVarint32From(EncVarint(n) + rest, 7 * j, r) == Ok(r + Place(n, j), rest)
    decreases 4 - j
  {
    hide ReadVarint32From, EncVarint, Pow2, Place;
    GroupFits(n, j, r);
    NextGroup(n, j);
    if n < 128 {
      LastByte32(n, j, r, rest);
    } else {
      EncVarintTail(n, rest);
      Continue32(EncVarint(n) + rest, j, r);
      GroupSum((EncVarint(n) + rest)[0], j, r);
      Regroup(n, j);
      Canonical32(n / 128, j + 1, r + Place(n % 128, j), rest);
    }
  }

  lemma Varint32RoundTrip(n: nat, rest: seq<byte>)
    requires n < U32
    ensures ReadVarint32(EncVarint(n) + rest) == Ok(n, rest)
  {
    Pow2Words();
    assert Pow2(0) == 1;
    Canonical32(n, 0, 0, rest);
  }

  lemma MultipleVanishes(a: nat, c: nat, d: nat)
    requires d > 0
    ensures (a + c * d) % d == a % d
  {
    assert a == (a / d) * d + a % d;
    assert a + c * d == (a / d + c) * d + a % d;
    ModUnique(a + c * d, d, a / d + c, a % d);
  }

  /** After each byte the 32-bit reader holds the value read so far, modulo 2^32. */
  lemma Accumulate32Tracks(prefix: seq<byte>, b: byte)
    requires |prefix| <= 9
    ensures Accumulate32(b, 7 * |prefix|, VarintValue(prefix) % U32) == VarintValue(prefix + [b]) % U32
  {
    ValueAppend(prefix, b);
    hide VarintValue, Accumulate32, Place;
    if |prefix| <= 4 {
      LowGroupTracks(prefix, b);
    } else {
      HighPlaceVanishes(VarintValue(prefix), b % 128, |prefix|);
      HighByteIgnored(b, 7 * |prefix|, VarintValue(prefix) % U32);
    }
  }

  lemma HighByteIgnored(b: byte, bitpos: nat, r: nat)
    requires bitpos >= 32
    ensures Accumulate32(b, bitpos, r) == r
  {
  }

  lemma LowGroupTracks(prefix: seq<byte>, b: byte)
    requires |prefix| <= 4
    ensures Accumulate32(b, 7 * |prefix|, VarintValue(prefix) % U32)
         == (VarintValue(prefix) + Place(b % 128, |prefix|)) % U32
  {
    hide Accumulate32, Place, VarintValue;
    var v := VarintValue(prefix);
    ValueBound(prefix);
    Pow2Words();
    Pow2Monotone(7 * |prefix|, 28);
    assert v % U32 == v;
    Accumulate32Adds(b, |prefix|, v);
  }

  lemma HighPlaceVanishes(v: nat, x: nat, j: nat)
    requires j >= 5
    ensures (v + Place(x, j)) % U32 == v % U32
  {
    Pow2Words();
    Pow2Add(32, 7 * j - 32);
    var q := Pow2(7 * j - 32);
    assert Place(x, j) == x * (U32 * q);
    assert x * (U32 * q) == (x * q) * U32;
    MultipleVanishes(v, x * q, U32);
  }

  /** One byte of a successful 32-bit read. */
  lemma Read32Step(bs: seq<byte>, bitpos: nat, r: nat)
    requires ReadVarint32From(bs, bitpos, r).Ok?
    ensures bs != []
    ensures ReadVarint32From(bs, bitpos, r)
         == if bs[0] < 128 then Ok(Accumulate32(bs[0], bitpos, r), bs[1..])
            else ReadVarint32From(bs[1..], (bitpos + 7) % U8, Accumulate32(bs[0], bitpos, r))
  {
    hide Accumulate32, Overflows32;
  }

  lemma {:induction false} Agree32From(prefix: seq<byte>, bs: seq<byte>)
    requires ReadVarint32From(bs, 7 * |prefix|, VarintValue(prefix) % U32).Ok?
    requires |prefix| + VarintLength(bs) <= 10
    ensures VarintLength(bs) != 0
    ensures ReadVarint32From(bs, 7 * |prefix|, VarintValue(prefix) % U32)
         == Ok(VarintValue(prefix + bs[..VarintLength(bs)]) % U32, bs[VarintLength(bs)..])
    decreases |bs|
  {
    hide VarintValue, Accumulate32, ReadVarint32From;
    TerminatedWhenRead32(bs, 7 * |prefix|, VarintValue(prefix) % U32);
    Read32Step(bs, 7 * |prefix|, VarintValue(prefix) % U32);
    var b, k := bs[0], VarintLength(bs);
    Accumulate32Tracks(prefix, b);
    if b < 128 {
      assert bs[..k] == [b];
    } else {
      assert (7 * |prefix| + 7) % U8 == 7 * |prefix + [b]|;
      Agree32From(prefix + [b], bs[1..]);
      assert prefix + bs[..k] == (prefix + [b]) + bs[1..][..k - 1];
    }
  }

  lemma {:induction false} TerminatedWhenRead32(bs: seq<byte>, bitpos: nat, r: nat)
    requires ReadVarint32From(bs, bitpos, r).Ok?
    ensures VarintLength(bs) != 0
    decreases |bs|
  {
    hide Accumulate32, Overflows32;
    if bs[0] >= 128 {
      TerminatedWhenRead32(bs[1..], (bitpos + 7) % U8, Accumulate32(bs[0], bitpos, r));
    }
  }

  /** Where both readers succeed they consume the same bytes, and the results agree modulo 2^32. */
  lemma ReadersAgree(bs: seq<byte>)
    requires ReadVarint32(bs).Ok? && ReadVarint64(bs).Ok?
    ensures ReadVarint32(bs).rest == ReadVarint64(bs).rest
    ensures ReadVarint32(bs).value == ReadVarint64(bs).value % U32
  {
    assert VarintValue([]) % U32 == 0;
    Agree32From([], bs);
    var v := VarintValue(bs[..VarintLength(bs)]);
    assert [] + bs[..VarintLength(bs)] == bs[..VarintLength(bs)];
    ModMod(v);
  }

  lemma ModMod(v: nat)
    ensures v % U64 % U32 == v % U32
  {
    var k := v / U64;
    assert v == v % U64 + (k * U32) * U32;
    MultipleVanishes(v % U64, k * U32, U32);
  }

  // ---------- Negative int32 values, sign extended to ten bytes ----------

  /** The tail that every sign-extended negative 32-bit value has from its sixth byte on. */
  lemma SignTail(r: nat, rest: seq<byte>)
    requires r / 0x8000_0000 != 0
    ensures ReadVarint32From(EncVarint(0x1FFF_FFFF) + rest, 35, r) == Ok(r, rest)
  {
    var s := [0xFF, 0xFF, 0xFF, 0xFF, 0x01];
    SignTailBytes();
    var bs := s + rest;
    SkipSignByte(bs, 35, r);
    SkipSignByte(bs[1..], 42, r);
    SkipSignByte(bs[2..], 49, r);
    SkipSignByte(bs[3..], 56, r);
    assert bs[4] == 1 && bs[4..][1..] == rest;
  }

  lemma SignTailBytes()
    ensures EncVarint(0x1FFF_FFFF) == [0xFF, 0xFF, 0xFF, 0xFF, 0x01]
  {
    assert EncVarint(1) == [1];
    assert EncVarint(0xFF) == [0xFF, 0x01];
    assert EncVarint(0x7FFF) == [0xFF, 0xFF, 0x01];
    assert EncVarint(0x3F_FFFF) == [0xFF, 0xFF, 0xFF, 0x01];
  }

  lemma SkipSignByte(bs: seq<byte>, bitpos: nat, r: nat)
    requires bs != [] && bs[0] == 0xFF && 32 <= bitpos < 63 && r / 0x8000_0000 != 0
    ensures ReadVarint32From(bs, bitpos, r) == ReadVarint32From(bs[1..], bitpos + 7, r)
  {
    HighByteIgnored(bs[0], bitpos, r);
    hide Accumulate32;
  }

  /** n lies in the sign-extended image of the negative int32 values. */
  predicate SignExtended(n: nat) {
    U64 - 0x8000_0000 <= n < U64
  }

  lemma HighGroup(n: nat, m: nat, r: nat)
    requires SignExtended(n) && r < Pow2(28) && n == r + Place(m, 4)
    ensures m >= 128 && m / 128 == 0x1FFF_FFFF
    ensures (r + Place(m % 128, 4)) % U32 == n % U32 >= 0x8000_0000
  {
    Pow2Words();
    assert n == r + m * 0x1000_0000;
    assert Place(m % 128, 4) == (m % 128) * 0x1000_0000;
    hide Place, Pow2;
    var low := r + (m % 128) * 0x1000_0000;
    assert n == low + (m / 128) * 0x8_0000_0000;
    assert low < 0x8_0000_0000;
  }

  lemma GroupIsLarge(n: nat, m: nat, j: nat, r: nat)
    requires SignExtended(n) && j <= 4 && r < Pow2(7 * j) && n == r + Place(m, j)
    ensures m >= 128
  {
    Pow2Words();
    Pow2Monotone(7 * j, 28);
    if m < 128 {
      LessShift(r, m, Pow2(7 * j), 128);
    }
  }

  lemma {:induction false} SignExtendedFrom(n: nat, m: nat, j: nat, r: nat, rest: seq<byte>)
    requires SignExtended(n) && j <= 4 && r < Pow2(7 * j) && n == r + Place(m, j)
    ensures ReadVarint32From(EncVarint(m) + rest, 7 * j, r) == Ok(n % U32, rest)
    decreases 4 - j
  {
    hide ReadVarint32From, EncVarint, Pow2, Place;
    GroupIsLarge(n, m, j, r);
    EncVarintTail(m, rest);
    Continue32(EncVarint(m) + rest, j, r);
    if j < 4 {
      GroupSum((EncVarint(m) + rest)[0], j, r);
      Regroup(m, j);
      SignExtendedFrom(n, m / 128, j + 1, r + Place(m % 128, j), rest);
    } else {
      HighGroup(n, m, r);
      SignTail(n % U32, rest);
    }
  }

  /** The 32-bit reader accepts the ten-byte form of every negative int32. */
  lemma Varint32SignExtended(n: nat, rest: seq<byte>)
    requires SignExtended(n)
    ensures ReadVarint32(EncVarint(n) + rest) == Ok(n % U32, rest)
  {
    assert Pow2(0) == 1;
    SignExtendedFrom(n, n, 0, 0, rest);
  }

  // ---------- What follows a varint does not matter ----------

  lemma ReadVarint64Frame(a: seq<byte>, b: seq<byte>)
    requires ReadVarint64(a).Ok?
    ensures ReadVarint64(a + b) == Ok(ReadVarint64(a).value, ReadVarint64(a).rest + b)
  {
    var k := VarintLength(a);
    LengthFrame(a, b);
    assert (a + b)[..k] == a[..k] && (a + b)[k..] == a[k..] + b;
  }

  lemma {:induction false} ReadVarint32FromFrame(a: seq<byte>, b: seq<byte>, bitpos: nat, r: nat)
    requires ReadVarint32From(a, bitpos, r).Ok?
    ensures ReadVarint32From(a + b, bitpos, r)
         == Ok(ReadVarint32From(a, bitpos, r).value, ReadVarint32From(a, bitpos, r).rest + b)
    decreases |a|
  {
    hide Accumulate32, Overflows32;
    assert (a + b)[1..] == a[1..] + b;
    if a[0] >= 128 {
      ReadVarint32FromFrame(a[1..], b, (bitpos + 7) % U8, Accumulate32(a[0], bitpos, r));
    }
  }

  lemma ReadVarint32Frame(a: seq<byte>, b: seq<byte>)
    requires ReadVarint32(a).Ok?
    ensures ReadVarint32(a + b) == Ok(ReadVarint32(a).value, ReadVarint32(a).rest + b)
  {
    ReadVarint32FromFrame(a, b, 0, 0);
  }
}
