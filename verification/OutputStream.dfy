/**
 pb_ostream_t over a memory buffer or, without a buffer, as the stream that only counts
 (PB_OSTREAM_SIZING), and the wire-level writers of pb_encode.c. `state` is the write
 pointer, an index into the buffer.
 */
module OutputStream {
  import opened Bits
  import opened Varint
  import opened Scalars
  import opened Encoding

  /** What can be observed of a stream: its counter, what is written, and the memory beyond its limit. */
  datatype Output = Output(sizing: bool, count: nat, maxSize: nat, written: seq<byte>, beyond: seq<byte>)

  /** n more bytes are within the limit. */
  predicate Fits(a: Output, n: nat) {
    a.sizing || a.count + n <= a.maxSize
  }

  /** From a to b: nothing before or beyond the stream's window changes, and success appends exactly these bytes. */
  predicate Wrote(a: Output, b: Output, ok: bool, bytes: seq<byte>) {
    && b.sizing == a.sizing && b.maxSize == a.maxSize && b.beyond == a.beyond && a.written <= b.written
    && (ok ==> b.count == a.count + |bytes| && b.written == if a.sizing then a.written else a.written + bytes)
  }

  /** A writer's whole effect: it succeeds exactly when it accepts its input and the bytes fit. */
  predicate Encodes(a: Output, b: Output, ok: bool, accepted: bool, bytes: seq<byte>) {
    ok == (accepted && Fits(a, |bytes|)) && Wrote(a, b, ok, bytes)
  }

  lemma Refused(a: Output, bytes: seq<byte>)
    ensures Encodes(a, a, false, false, bytes)
  {
  }

  lemma EncodesNothing(a: Output)
    requires !a.sizing ==> a.count <= a.maxSize
    ensures Encodes(a, a, true, true, [])
  {
  }

  /** Two writers in a row, the second skipped when the first fails. */
  lemma EncodesBoth(a: Output, b: Output, c: Output, first: bool, ok: bool, acc1: bool, x: seq<byte>, acc2: bool,
      y: seq<byte>)
    requires Encodes(a, b, first, acc1, x)
    requires if first then Encodes(b, c, ok, acc2, y) else c == b && !ok
    ensures Encodes(a, c, ok, acc1 && acc2, x + y)
  {
    assert a.written + (x + y) == (a.written + x) + y;
  }

  /** A writer that fails on part of its input fails on the whole. */
  lemma FailsEarly(a: Output, c: Output, acc: bool, x: seq<byte>, whole: bool, rest: seq<byte>)
    requires Encodes(a, c, false, acc, x) && (whole ==> acc)
    ensures Encodes(a, c, false, whole, x + rest)
  {
  }

  class OStream {
    const buf: array?<byte>
    const maxSize: nat
    var state: nat
    var bytesWritten: nat

    ghost predicate Valid()
      reads this
    {
      buf != null ==> bytesWritten <= maxSize && End() <= buf.Length
    }

    /** The first index that this stream may not write. */
    ghost function End(): int
      reads this
    {
      state + maxSize - bytesWritten
    }

    ghost function Now(): (o: Output)
      requires Valid()
      reads this, buf
      ensures o.sizing == (buf == null) && o.count == bytesWritten && o.maxSize == maxSize
    {
      if buf == null then Output(true, bytesWritten, maxSize, [], [])
      else Output(false, bytesWritten, maxSize, buf[..state], buf[End()..])
    }

    /** PB_OSTREAM_SIZING. */
    constructor Sizing()
      ensures Valid() && Now() == Output(true, 0, 0, [], [])
    {
      buf := null;
      maxSize := 0;
      state, bytesWritten := 0, 0;
    }

    /** pb_ostream_from_buffer, at some position of the buffer. */
    constructor Limited(buffer: array<byte>, position: nat, size: nat)
      requires position + size <= buffer.Length
      ensures Valid() && buf == buffer && state == position
      ensures Now() == Output(false, 0, size, buffer[..position], buffer[position + size..])
    {
      buf := buffer;
      maxSize := size;
      state, bytesWritten := position, 0;
    }

    /** buf_write. */
    method BufWrite(bytes: seq<byte>)
      requires Valid() && buf != null && bytesWritten + |bytes| <= maxSize
      modifies this`state, buf
      ensures state == old(state) + |bytes|
      ensures buf[..state] == old(buf[..state]) + bytes && buf[state..] == old(buf[..])[state..]
    {
      var dest := state;
      state := dest + |bytes|;
      for i := 0 to |bytes|
        invariant state == old(state) + |bytes| <= buf.Length
        invariant buf[..dest + i] == old(buf[..state]) + bytes[..i]
        invariant buf[dest + i..] == old(buf[..])[dest + i..]
      {
        buf[dest + i] := bytes[i];
        assert bytes[..i + 1] == bytes[..i] + [bytes[i]];
      }
    }

    /** pb_write. */
    method Write(bytes: seq<byte>) returns (ok: bool)
      requires Valid()
      modifies this, buf
      ensures Valid() && Encodes(old(Now()), Now(), ok, true, bytes)
    {
      if |bytes| > 0 && buf != null {
        if bytesWritten + |bytes| > maxSize { return false; }
        BufWrite(bytes);
      }
      bytesWritten := bytesWritten + |bytes|;
      ok := true;
    }

    /** pb_write without data, on a sizing stream. */
    method Count(n: nat)
      requires Valid() && buf == null
      modifies this
      ensures Valid() && Now() == old(Now()).(count := old(Now()).count + n)
    {
      bytesWritten := bytesWritten + n;
    }

    // ---------- Wire-level writers ----------

    /** pb_encode_varint. */
    method EncodeVarint(n: nat) returns (ok: bool)
      requires Valid() && n < U64
      modifies this, buf
      ensures Valid() && Encodes(old(Now()), Now(), ok, true, EncVarint(n))
    {
      hide Encodes;
      var buffer: array<byte>;
      var i;
      buffer, i := VarintBuffer(n);
      ok := Write(buffer[..i]);
    }

    /** pb_encode_svarint. */
    method EncodeSvarint(n: int) returns (ok: bool)
      requires Valid()
      modifies this, buf
      ensures Valid() && Encodes(old(Now()), Now(), ok, true, EncVarint(ZigZag(n)))
    {
      hide Encodes, EncVarint;
      var zigzagged: nat;
      if n < 0 {
        zigzagged := U64 - 1 - (2 * CastUnsigned(n, 8)) % U64;
      } else {
        zigzagged := (2 * CastUnsigned(n, 8)) % U64;
      }
      ok := EncodeVarint(zigzagged);
    }

    /** pb_encode_fixed32 and pb_encode_fixed64: byte number j is `(n >> 8 j) & 0xFF`. */
    method EncodeFixed(n: nat, size: nat) returns (ok: bool)
      requires Valid() && (size == 4 || size == 8)
      modifies this, buf
      ensures Valid() && Encodes(old(Now()), Now(), ok, true, LittleEndian(n, size))
    {
      FixedBytes(n);
      hide Encodes, LittleEndian;
      var bytes: seq<byte> := [n % 0x100, n / 0x100 % 0x100, n / 0x1_0000 % 0x100, n / 0x100_0000 % 0x100];
      if size == 8 {
        bytes := bytes + [n / 0x1_0000_0000 % 0x100, n / 0x100_0000_0000 % 0x100,
                          n / 0x1_0000_0000_0000 % 0x100, n / 0x100_0000_0000_0000 % 0x100];
      }
      ok := Write(bytes);
    }

    /** pb_encode_tag. */
    method EncodeTag(wireType: nat, tag: nat) returns (ok: bool)
      requires Valid() && tag < U32 && wireType < 8
      modifies this, buf
      ensures Valid() && Encodes(old(Now()), Now(), ok, true, TagBytes(tag, wireType))
    {
      hide Encodes, EncVarint;
      ok := EncodeVarint(8 * tag + wireType);
    }

    /** pb_encode_string. */
    method EncodeString(bytes: seq<byte>) returns (ok: bool)
      requires Valid()
      modifies this, buf
      ensures Valid() && Encodes(old(Now()), Now(), ok, true, LengthPrefixed(bytes))
    {
      hide Encodes, EncVarint;
      ghost var a := Now();
      var first := EncodeVarint(|bytes| % U64);
      ok := first;
      ghost var b := Now();
      if first { ok := Write(bytes); }
      EncodesBoth(a, b, Now(), first, ok, true, EncVarint(|bytes| % U64), true, bytes);
    }
  }

  /** The loop that fills a ten-byte buffer. */
  method VarintBuffer(n: nat) returns (buffer: array<byte>, i: nat)
    requires n < U64
    ensures fresh(buffer) && buffer.Length == 10 && i <= 10 && buffer[..i] == EncVarint(n)
  {
    buffer := new byte[10];
    i := 0;
    var value: nat := n;
    EncVarintFits(n);
    FirstGroup(n);
    hide EncVarint;
    if value <= 0x7F {
      buffer[0] := value;
      return buffer, 1;
    }
    while value != 0
      invariant i <= |EncVarint(n)|
      invariant value != 0 ==> EncVarint(n) == buffer[..i] + EncVarint(value)
      invariant value == 0 ==> i > 0 && buffer[i - 1] >= 128 && EncVarint(n) == buffer[..i - 1] + [buffer[i - 1] % 128]
      decreases value
    {
      NextGroup(n, buffer[..i], value);
      ghost var done := buffer[..i];
      buffer[i] := value % 128 + 128;
      assert buffer[..i + 1] == done + [value % 128 + 128] && buffer[..i] == done;
      value := value / 128;
      i := i + 1;
    }
    buffer[i - 1] := buffer[i - 1] % 128;
  }

  lemma FirstGroup(n: nat)
    ensures n < 128 ==> EncVarint(n) == [n]
  {
  }

  lemma NextGroup(n: nat, done: seq<byte>, value: nat)
    requires value != 0 && EncVarint(n) == done + EncVarint(value)
    ensures |done| < |EncVarint(n)|
    ensures value < 128 ==> EncVarint(n) == done + [value]
    ensures value >= 128 ==> EncVarint(n) == (done + [value % 128 + 128]) + EncVarint(value / 128)
  {
    var full, tail := EncVarint(n), EncVarint(value / 128);
    assert EncVarint(value) == if value < 128 then [value] else [value % 128 + 128] + tail;
    hide EncVarint;
    if value >= 128 { assert (done + [value % 128 + 128]) + tail == done + ([value % 128 + 128] + tail); }
  }

  /** The shifted and masked bytes are the little-endian digits. */
  lemma FixedBytes(n: nat)
    ensures LittleEndian(n, 4) == [n % 0x100, n / 0x100 % 0x100, n / 0x1_0000 % 0x100, n / 0x100_0000 % 0x100]
    ensures LittleEndian(n, 8) == LittleEndian(n, 4)
      + [n / 0x1_0000_0000 % 0x100, n / 0x100_0000_0000 % 0x100, n / 0x1_0000_0000_0000 % 0x100,
          n / 0x100_0000_0000_0000 % 0x100]
  {
    FourDigits(n, 4);
    FourDigits(n, 8);
    FourDigits(n / 0x1_0000_0000, 4);
    NestedDivision(n);
    hide LittleEndian;
  }

  lemma FourDigits(n: nat, k: nat)
    requires k >= 4
    ensures LittleEndian(n, k)
         == [n % 0x100, n / 0x100 % 0x100, n / 0x1_0000 % 0x100, n / 0x100_0000 % 0x100]
             + LittleEndian(n / 0x1_0000_0000, k - 4)
  {
    var n1 := n / 0x100;
    var n2 := n1 / 0x100;
    var n3 := n2 / 0x100;
    assert n2 == n / 0x1_0000 && n3 == n / 0x100_0000 && n3 / 0x100 == n / 0x1_0000_0000;
    assert LittleEndian(n, k) == [n % 0x100] + LittleEndian(n1, k - 1);
    assert LittleEndian(n1, k - 1) == [n1 % 0x100] + LittleEndian(n2, k - 2);
    assert LittleEndian(n2, k - 2) == [n2 % 0x100] + LittleEndian(n3, k - 3);
    assert LittleEndian(n3, k - 3) == [n3 % 0x100] + LittleEndian(n3 / 0x100, k - 4);
  }

  lemma NestedDivision(n: nat)
    ensures var h := n / 0x1_0000_0000;
            && h / 0x100 == n / 0x100_0000_0000 && h / 0x1_0000 == n / 0x1_0000_0000_0000
            && h / 0x100_0000 == n / 0x100_0000_0000_0000
  {
  }
}
