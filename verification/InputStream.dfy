/**
 pb_istream_t over a memory buffer, and the wire-level readers of pb_decode.c that advance
 it. `pos` is the read pointer `state`; `bytesLeft` limits what may still be read.
 */
module InputStream {
  import opened Bits
  import opened Varint
  import opened Scalars
  import opened Encoding
  import opened Decoding

  class IStream {
    const buf: seq<byte>
    var pos: nat
    var bytesLeft: nat

    ghost predicate Valid()
      reads this
    {
      pos + bytesLeft <= |buf|
    }

    /** The first byte after what this stream may read. */
    ghost function End(): nat
      reads this
    {
      pos + bytesLeft
    }

    ghost function Rest(): (s: seq<byte>)
      requires Valid()
      reads this
      ensures |s| == bytesLeft
    {
      buf[pos..pos + bytesLeft]
    }

    /** No call reads beyond the limit, and a successful one moves the pointer by what it takes from bytesLeft. */
    twostate predicate Moved(ok: bool)
      reads this
    {
      Valid() && old(pos) <= pos && End() <= old(End()) && bytesLeft <= old(bytesLeft) && (ok ==> End() == old(End()))
    }

    /** pb_istream_from_buffer. */
    constructor (buffer: seq<byte>)
      ensures Valid() && buf == buffer && Rest() == buffer && pos == 0
    {
      buf := buffer;
      pos, bytesLeft := 0, |buffer|;
    }

    /** A copy of another stream's position, limited to n bytes. */
    constructor Limited(buffer: seq<byte>, position: nat, n: nat)
      requires position + n <= |buffer|
      ensures Valid() && buf == buffer && pos == position && bytesLeft == n
    {
      buf := buffer;
      pos, bytesLeft := position, n;
    }

    method ReadByte() returns (ok: bool, b: byte)
      requires Valid()
      modifies this
      ensures Moved(ok)
      ensures ok == (old(Rest()) != [])
      ensures ok ==> old(Rest())[0] == b && Rest() == old(Rest())[1..]
    {
      if bytesLeft == 0 { return false, 0; }
      b := buf[pos];
      pos, bytesLeft := pos + 1, bytesLeft - 1;
      ok := true;
    }

    /** pb_read of n bytes into a buffer. */
    method Read(n: nat) returns (ok: bool, s: seq<byte>)
      requires Valid()
      modifies this
      ensures Moved(ok)
      ensures ok == ReadBytes(old(Rest()), n).Ok?
      ensures ok ==> s == ReadBytes(old(Rest()), n).value && Rest() == ReadBytes(old(Rest()), n).rest
      ensures !ok ==> pos == old(pos) && bytesLeft == old(bytesLeft)
    {
      if bytesLeft < n { return false, []; }
      s := buf[pos..pos + n];
      pos, bytesLeft := pos + n, bytesLeft - n;
      ok := true;
    }

    // ---------- Varints ----------

    /** pb_decode_varint. */
    method DecodeVarint() returns (ok: bool, value: nat)
      requires Valid()
      modifies this
      ensures Moved(ok)
      ensures ok == ReadVarint64(old(Rest())).Ok?
      ensures ok ==> value == ReadVarint64(old(Rest())).value && Rest() == ReadVarint64(old(Rest())).rest
    {
      ghost var all := Rest();
      ghost var k := 0;
      var bitpos := 0;
      value := 0;
      while true
        invariant Moved(true)
        invariant k <= 10 && bitpos == 7 * k && k <= |all|
        invariant Rest() == all[k..]
        invariant forall i :: 0 <= i < k ==> all[i] >= 128
        invariant value == VarintValue(all[..k]) % U64
        decreases 11 - k
      {
        if bitpos >= 64 {
          Unterminated(all, k);
          return false, 0;
        }
        var more, b := ReadByte();
        if !more {
          Unterminated(all, k);
          return false, 0;
        }
        GroupAdds(all, k);
        value := Or(value, (b % 128 * Pow2(bitpos)) % U64);
        bitpos := bitpos + 7;
        k := k + 1;
        if b < 128 {
          Terminated(all, k);
          return true, value;
        }
      }
    }

    /** pb_decode_varint32_eof; `eof` reports a stream that was empty to begin with. */
    method DecodeVarint32() returns (ok: bool, value: nat, eof: bool)
      requires Valid()
      modifies this
      ensures Moved(ok)
      ensures ok == ReadVarint32(old(Rest())).Ok?
      ensures ok ==> value == ReadVarint32(old(Rest())).value && Rest() == ReadVarint32(old(Rest())).rest
      ensures eof <==> old(bytesLeft) == 0
    {
      hide Or, Pow2, ReadVarint32, ReadVarint32From;
      value := 0;
      var b: byte;
      ok, b := ReadByte();
      if !ok {
        NothingToRead(old(Rest()));
        return false, 0, true;
      }
      FirstByte(old(Rest()));
      if b < 128 { return true, b, false; }
      var bitpos: nat := 7;
      value := b % 128;
      while true
        invariant Moved(true) && bitpos < U8
        invariant ReadVarint32(old(Rest())) == ReadVarint32From(Rest(), bitpos, value)
        decreases bytesLeft
      {
        Loop32(Rest(), bitpos, value);
        ok, b := ReadByte();
        if !ok { return false, 0, false; }
        if bitpos >= 32 {
          if b % 128 != 0 && (value / 0x8000_0000 == 0 || b != SignExtension(bitpos)) { return false, 0, false; }
        } else {
          value := Or(value, (b % 128 * Pow2(bitpos)) % U32);
        }
        ghost var shift := bitpos;
        bitpos := (bitpos + 7) % U8;
        if b < 128 {
          assert bitpos == 35 ==> shift < 32;
          break;
        }
      }
      if bitpos == 35 && (b / 16) % 8 != 0 { return false, 0, false; }
      return true, value, false;
    }

    // ---------- Signed and fixed-width integers ----------

    /** pb_decode_svarint. */
    method DecodeSvarint() returns (ok: bool, value: int)
      requires Valid()
      modifies this
      ensures Moved(ok)
      ensures ok == ReadVarint64(old(Rest())).Ok?
      ensures ok ==> value == UnZigZag(ReadVarint64(old(Rest())).value) && Rest() == ReadVarint64(old(Rest())).rest
    {
      var v: nat;
      ok, v := DecodeVarint();
      if !ok { return false, 0; }
      if v % 2 == 1 {
        value := CastSigned(U64 - 1 - v / 2, 8);
      } else {
        value := CastSigned(v / 2, 8);
      }
    }

    /** pb_decode_fixed32 and pb_decode_fixed64: n bytes, least significant first. */
    method DecodeFixed(n: nat) returns (ok: bool, value: nat)
      requires Valid() && (n == 4 || n == 8)
      modifies this
      ensures Moved(ok)
      ensures ok == ReadBytes(old(Rest()), n).Ok?
      ensures ok ==> value == FromLittleEndian(ReadBytes(old(Rest()), n).value)
      ensures ok ==> Rest() == ReadBytes(old(Rest()), n).rest
    {
      var bytes: seq<byte>;
      ok, bytes := Read(n);
      if !ok { return false, 0; }
      LittleEndianSum(bytes);
      value := bytes[0] + bytes[1] as int * 0x100 + bytes[2] as int * 0x1_0000 + bytes[3] as int * 0x100_0000;
      if n == 8 {
        value := value + bytes[4] as int * 0x1_0000_0000 + bytes[5] as int * 0x100_0000_0000
                 + bytes[6] as int * 0x1_0000_0000_0000 + bytes[7] as int * 0x100_0000_0000_0000;
      }
    }

    // ---------- Tags and skipping ----------

    /** pb_decode_tag: a zero tag counts as the end of the message. */
    method DecodeTag() returns (ok: bool, wireType: nat, tag: nat, eof: bool)
      requires Valid()
      modifies this
      ensures Moved(ok || eof)
      ensures old(bytesLeft) == 0 ==> !ok && eof && pos == old(pos) && bytesLeft == 0
      ensures match ReadTag(old(Rest()))
              case BadTag => !ok && (eof <==> old(bytesLeft) == 0)
              case Stop(rest) => !ok && eof && Rest() == rest
              case Tag(t, w, rest) => ok && !eof && tag == t && wireType == w && Rest() == rest
    {
      hide ReadVarint32;
      wireType, tag := 0, 0;
      var temp: nat;
      ok, temp, eof := DecodeVarint32();
      if !ok { return false, 0, 0, eof; }
      if temp == 0 { return false, 0, 0, true; }
      tag := temp / 8;
      wireType := temp % 8;
    }

    /** pb_skip_varint. */
    method SkipOneVarint() returns (ok: bool)
      requires Valid()
      modifies this
      ensures Moved(ok)
      ensures ok == SkipVarint(old(Rest())).Ok?
      ensures ok ==> Rest() == SkipVarint(old(Rest())).rest
    {
      ghost var all := Rest();
      ghost var k := 0;
      while true
        invariant Moved(true) && k <= |all| && Rest() == all[k..]
        invariant forall i :: 0 <= i < k ==> all[i] >= 128
        decreases bytesLeft
      {
        var b: byte;
        ok, b := ReadByte();
        if !ok {
          LongVarint(all, k);
          return false;
        }
        k := k + 1;
        if b < 128 {
          ShortVarint(all, k);
          return true;
        }
      }
    }

    /** pb_read without a destination. */
    method Skip(n: nat) returns (ok: bool)
      requires Valid()
      modifies this
      ensures Moved(ok)
      ensures ok == ReadBytes(old(Rest()), n).Ok?
      ensures ok ==> Rest() == ReadBytes(old(Rest()), n).rest
    {
      var skipped: seq<byte>;
      ok, skipped := Read(n);
    }

    /** pb_skip_string. */
    method SkipString() returns (ok: bool)
      requires Valid()
      modifies this
      ensures Moved(ok)
      ensures ok == Substream(old(Rest())).Ok?
      ensures ok ==> Rest() == Substream(old(Rest())).rest
    {
      hide ReadVarint32, ReadBytes;
      var n: nat;
      var eof: bool;
      ok, n, eof := DecodeVarint32();
      if !ok { return false; }
      ok := Skip(n);
    }

    /** pb_skip_field. */
    method SkipWire(wireType: nat) returns (ok: bool)
      requires Valid()
      modifies this
      ensures Moved(ok)
      ensures ok == SkipField(wireType, old(Rest())).Ok?
      ensures ok ==> Rest() == SkipField(wireType, old(Rest())).rest
    {
      hide SkipVarint, Substream, ReadBytes;
      if wireType == WT_VARINT {
        ok := SkipOneVarint();
      } else if wireType == WT_64BIT {
        ok := Skip(8);
      } else if wireType == WT_STRING {
        ok := SkipString();
      } else if wireType == WT_32BIT {
        ok := Skip(4);
      } else {
        ok := false;
      }
    }

    // ---------- Substreams ----------

    /** pb_make_string_substream: the payload leaves this stream's limit but not yet its pointer. */
    method MakeSubstream() returns (ok: bool, sub: IStream)
      requires Valid()
      modifies this
      ensures fresh(sub) && sub.Valid() && sub.buf == buf
      ensures Valid() && old(pos) <= pos && End() <= old(End())
      ensures ok == Substream(old(Rest())).Ok?
      ensures ok ==> sub.Rest() == Substream(old(Rest())).value && sub.pos == pos
      ensures ok ==> sub.End() + bytesLeft == old(End())
      ensures ok ==> buf[sub.End()..sub.End() + bytesLeft] == Substream(old(Rest())).rest
    {
      hide ReadVarint32;
      var n: nat;
      var eof: bool;
      ok, n, eof := DecodeVarint32();
      if !ok || bytesLeft < n {
        sub := new IStream.Limited(buf, 0, 0);
        return false, sub;
      }
      sub := new IStream.Limited(buf, pos, n);
      bytesLeft := bytesLeft - n;
      assert sub.Rest() == buf[pos..pos + n];
    }

    /** pb_close_string_substream: skip what the substream left, then take over its pointer. */
    method CloseSubstream(sub: IStream)
      requires Valid() && sub != this && sub.Valid() && sub.buf == buf && sub.End() + bytesLeft <= |buf|
      modifies this, sub
      ensures pos == old(sub.End()) && bytesLeft == old(bytesLeft)
      ensures Valid() && Rest() == buf[pos..pos + bytesLeft]
    {
      if sub.bytesLeft > 0 {
        var _ := sub.Skip(sub.bytesLeft);
      }
      pos := sub.pos;
    }
  }

  // ---------- What the loops accumulate ----------

  lemma {:induction false} Unterminated(s: seq<byte>, k: nat)
    requires k <= |s| && (k == |s| || k >= 10) && forall i :: 0 <= i < k ==> s[i] >= 128
    ensures ReadVarint64(s).Fail?
  {
    hide VarintValue;
    LongVarint(s, k);
  }

  lemma {:induction false} LongVarint(s: seq<byte>, k: nat)
    requires k <= |s| && forall i :: 0 <= i < k ==> s[i] >= 128
    ensures VarintLength(s) == 0 || VarintLength(s) > k
  {
    if k > 0 {
      assert forall i :: 0 <= i < k - 1 ==> s[1..][i] == s[i + 1];
      LongVarint(s[1..], k - 1);
    }
  }

  lemma {:induction false} Terminated(s: seq<byte>, k: nat)
    requires 0 < k <= 10 && k <= |s| && s[k - 1] < 128 && forall i :: 0 <= i < k - 1 ==> s[i] >= 128
    ensures VarintLength(s) == k
    ensures ReadVarint64(s) == Ok(VarintValue(s[..k]) % U64, s[k..])
  {
    hide VarintValue;
    ShortVarint(s, k);
  }

  lemma {:induction false} ShortVarint(s: seq<byte>, k: nat)
    requires 0 < k <= |s| && s[k - 1] < 128 && forall i :: 0 <= i < k - 1 ==> s[i] >= 128
    ensures VarintLength(s) == k
  {
    if k > 1 {
      assert forall i :: 0 <= i < k - 1 ==> s[1..][i] == s[i + 1];
      ShortVarint(s[1..], k - 1);
    }
  }

  lemma PrefixSmall(s: seq<byte>)
    requires |s| <= 9
    ensures VarintValue(s) % U64 == VarintValue(s) < Pow2(7 * |s|)
  {
    ValueBound(s);
    hide VarintValue;
    Pow2Words();
    Pow2Monotone(7 * |s|, 63);
    hide Pow2;
  }

  lemma GroupAdds(s: seq<byte>, k: nat)
    requires k < |s| && k <= 9
    ensures Or(VarintValue(s[..k]) % U64, (s[k] % 128 * Pow2(7 * k)) % U64) == VarintValue(s[..k + 1]) % U64
  {
    assert s[..k + 1] == s[..k] + [s[k]];
    ValueAppend(s[..k], s[k]);
    PrefixSmall(s[..k]);
    assert Pow2(64) == U64 by { Pow2Words(); }
    hide VarintValue, Or, Pow2;
    ShiftedOr(VarintValue(s[..k]), s[k] % 128, 7 * k, 64);
  }

  lemma NothingToRead(s: seq<byte>)
    requires s == []
    ensures ReadVarint32(s).Fail?
  {
  }

  lemma FirstByte(s: seq<byte>)
    requires s != []
    ensures ReadVarint32(s) == if s[0] < 128 then Ok(s[0], s[1..]) else ReadVarint32From(s[1..], 7, s[0] % 128)
  {
    hide Or, Accumulate32, ReadVarint32From;
    FirstGroup(s[0]);
    Loop32(s, 0, 0);
  }

  lemma FirstGroup(b: byte)
    ensures Accumulate32(b, 0, 0) == b % 128
  {
    assert Pow2(0) == 1;
    hide Or, Pow2;
    var x := b % 128;
    assert x * 1 == x && x % U32 == x;
    OrZero(x);
  }

  lemma Loop32(s: seq<byte>, bitpos: nat, r: nat)
    ensures ReadVarint32From(s, bitpos, r) ==
            if s == [] || Overflows32(s[0], bitpos, r) then Fail
            else if s[0] < 128 then Ok(Accumulate32(s[0], bitpos, r), s[1..])
            else ReadVarint32From(s[1..], (bitpos + 7) % U8, Accumulate32(s[0], bitpos, r))
  {
    hide Overflows32, Accumulate32;
  }

  lemma LittleEndianSum(s: seq<byte>)
    requires |s| == 4 || |s| == 8
    ensures FromLittleEndian(s) == s[0] + s[1] as int * 0x100 + s[2] as int * 0x1_0000 + s[3] as int * 0x100_0000
      + (if |s| == 4 then 0
         else s[4] as int * 0x1_0000_0000 + s[5] as int * 0x100_0000_0000 + s[6] as int * 0x1_0000_0000_0000
              + s[7] as int * 0x100_0000_0000_0000)
  {
    FourMore(s);
    if |s| == 4 {
      assert s[4..] == [];
    } else {
      FourMore(s[4..]);
      assert s[4..][4..] == [];
    }
    assert FromLittleEndian([]) == 0;
    hide FromLittleEndian;
  }

  lemma FourMore(s: seq<byte>)
    requires |s| >= 4
    ensures FromLittleEndian(s)
         == s[0] + s[1] as int * 0x100 + s[2] as int * 0x1_0000 + s[3] as int * 0x100_0000
             + 0x1_0000_0000 * FromLittleEndian(s[4..])
  {
    assert s[1..][1..] == s[2..] && s[2..][1..] == s[3..] && s[3..][1..] == s[4..];
    assert FromLittleEndian(s) == s[0] + 0x100 * FromLittleEndian(s[1..]);
    assert FromLittleEndian(s[1..]) == s[1] + 0x100 * FromLittleEndian(s[2..]);
    assert FromLittleEndian(s[2..]) == s[2] + 0x100 * FromLittleEndian(s[3..]);
    assert FromLittleEndian(s[3..]) == s[3] + 0x100 * FromLittleEndian(s[4..]);
  }
}
