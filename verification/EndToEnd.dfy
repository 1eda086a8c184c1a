/**
 What an application does with the codec: measure a message and then write it, and write a
 message and then read it back, through the streams of both sides.
 */
module EndToEnd {
  import opened Bits
  import opened Varint
  import opened Descriptor
  import opened Encoding
  import opened Projection
  import opened OutputStream
  import InputStream
  import Decoding
  import Encoder
  import Decoder
  import RoundTrip

  /** pb_get_encoded_size, then pb_encode into a buffer: the size decides whether it fits, and is what is written. */
  method MeasureAndEncode(s: OStream, d: seq<Field>, m: Msg) returns (sized: bool, size: nat, ok: bool)
    requires s.Valid() && s.buf != null && WellFormed(d)
    modifies s, s.buf
    ensures s.Valid()
    ensures ok <==> sized && old(s.bytesWritten) + size <= s.maxSize
    ensures ok ==> s.bytesWritten == old(s.bytesWritten) + size && s.state == old(s.state) + size
    ensures s.buf[..old(s.state)] == old(s.buf[..s.state]) && s.buf[old(s.End())..] == old(s.buf[s.End()..])
  {
    hide MsgEncodable, MsgBytes, WellFormed;
    sized, size := Encoder.GetEncodedSize(d, m);
    ghost var a := s.Now();
    ok := Encoder.EncodeMessage(s, d, m);
    ghost var b := s.Now();
    assert |b.written| == s.state && |a.written| == old(s.state);
    assert s.buf[..old(s.state)] == b.written[..old(s.state)];
    assert |b.beyond| == |a.beyond|;
  }

  /**
   pb_encode, then pb_decode of what was written: it succeeds exactly when the message fits, and gives
   it back whole.
   */
  method EncodeAndDecode(s: OStream, d: seq<Field>, m: Msg) returns (ok: bool, back: Msg)
    requires s.Valid() && s.buf != null && WellFormed(d) && Normal(d, m)
    modifies s, s.buf
    ensures s.Valid()
    ensures ok <==> old(s.bytesWritten) + |MsgBytes(d, m)| <= s.maxSize
    ensures ok ==> back == m
  {
    hide MsgEncodable, MsgBytes, WellFormed, Normal, Decoding.Decode;
    RoundTrip.MessageRoundTrip(d, m);
    var start := s.state;
    ghost var a := s.Now();
    back := map[];
    ok := Encoder.EncodeMessage(s, d, m);
    if ok {
      assert s.buf[start..s.state] == s.Now().written[|a.written|..];
      RoundTrip.WrittenMessageReadsBack(d, m, a, s.Now(), ok);
      var input := new InputStream.IStream(s.buf[start..s.state]);
      ok, back := Decoder.DecodeFromDefaults(input, d);
    }
  }

  // ---------- A list of messages ----------

  /** What the delimited round trip asks of each message. */
  ghost predicate Sendable(d: seq<Field>, ms: seq<Msg>) {
    forall m :: m in ms ==> Normal(d, m) && |MsgBytes(d, m)| < U32
  }

  /** pb_encode_delimited for each message in turn. */
  method EncodeList(s: OStream, d: seq<Field>, ms: seq<Msg>) returns (ok: bool)
    requires s.Valid() && WellFormed(d) && Sendable(d, ms)
    modifies s, s.buf
    ensures s.Valid() && Encodes(old(s.Now()), s.Now(), ok, true, RoundTrip.DelimitedBytes(d, ms))
  {
    hide MsgBytes, MsgEncodable, WellFormed, Normal, LengthPrefixed, Encodes, RoundTrip.DelimitedBytes;
    ghost var a := s.Now();
    ghost var done: seq<byte> := [];
    EncodesNothing(a);
    ok := true;
    for i := 0 to |ms|
      invariant s.Valid() && ok && Encodes(a, s.Now(), true, true, done)
      invariant RoundTrip.DelimitedBytes(d, ms) == done + RoundTrip.DelimitedBytes(d, ms[i..])
    {
      ghost var b, next := s.Now(), LengthPrefixed(MsgBytes(d, ms[i]));
      SplitList(d, ms, i);
      assert ms[i] in ms;
      RoundTrip.NormalEncodable(d, ms[i]);
      ok := Encoder.EncodeDelimited(s, d, ms[i]);
      EncodesBoth(a, b, s.Now(), true, ok, true, done, true, next);
      done := done + next;
      assert done + RoundTrip.DelimitedBytes(d, ms[i + 1..]) == RoundTrip.DelimitedBytes(d, ms);
      if !ok {
        FailsEarly(a, s.Now(), true, done, true, RoundTrip.DelimitedBytes(d, ms[i + 1..]));
        return;
      }
    }
    NoMoreMessages(d, ms);
    assert done + [] == done;
  }

  lemma SplitList(d: seq<Field>, ms: seq<Msg>, i: nat)
    requires i < |ms|
    ensures RoundTrip.DelimitedBytes(d, ms[i..])
         == LengthPrefixed(MsgBytes(d, ms[i])) + RoundTrip.DelimitedBytes(d, ms[i + 1..])
  {
    hide MsgBytes, LengthPrefixed;
    assert ms[i..][1..] == ms[i + 1..];
  }

  lemma NoMoreMessages(d: seq<Field>, ms: seq<Msg>)
    ensures RoundTrip.DelimitedBytes(d, ms[|ms|..]) == []
  {
  }

  function Prepended(before: seq<Msg>, p: Parsed<seq<Msg>>): Parsed<seq<Msg>> {
    match p
    case Fail => Fail
    case Ok(ms, rest) => Ok(before + ms, rest)
  }

  /** pb_decode_delimited, n times, on any bytes. */
  method DecodeList(s: InputStream.IStream, d: seq<Field>, n: nat) returns (ok: bool, back: seq<Msg>)
    requires s.Valid() && WellFormed(d)
    modifies s
    ensures s.Moved(ok)
    ensures var p := RoundTrip.DecodeStream(d, n, old(s.Rest()));
            ok == p.Ok? && (ok ==> back == p.value && s.Rest() == p.rest)
  {
    hide WellFormed, Decoding.DecodeDelimited, RoundTrip.DecodeStream;
    ghost var all := s.Rest();
    ok, back := true, [];
    StreamStart(d, n, all);
    for i := 0 to n
      invariant s.Moved(true) && ok
      invariant RoundTrip.DecodeStream(d, n, all) == Prepended(back, RoundTrip.DecodeStream(d, n - i, s.Rest()))
    {
      StreamStep(d, n - i, s.Rest(), back);
      var m: Msg;
      ok, m := Decoder.DecodeDelimitedMessage(s, d);
      if !ok { return; }
      back := back + [m];
    }
    StreamEnd(d, s.Rest(), back);
  }

  lemma StreamStart(d: seq<Field>, n: nat, bs: seq<byte>)
    ensures RoundTrip.DecodeStream(d, n, bs) == Prepended([], RoundTrip.DecodeStream(d, n, bs))
  {
    var p := RoundTrip.DecodeStream(d, n, bs);
    hide RoundTrip.DecodeStream;
    if p.Ok? { assert [] + p.value == p.value; }
  }

  lemma StreamStep(d: seq<Field>, n: nat, bs: seq<byte>, before: seq<Msg>)
    requires n > 0
    ensures Prepended(before, RoundTrip.DecodeStream(d, n, bs)) ==
            match Decoding.DecodeDelimited(d, bs)
            case Fail => Fail
            case Ok(m, rest) => Prepended(before + [m], RoundTrip.DecodeStream(d, n - 1, rest))
  {
    hide Decoding.DecodeDelimited;
    var p := Decoding.DecodeDelimited(d, bs);
    if p.Ok? {
      var q := RoundTrip.DecodeStream(d, n - 1, p.rest);
      if q.Ok? { assert before + ([p.value] + q.value) == (before + [p.value]) + q.value; }
    }
  }

  lemma StreamEnd(d: seq<Field>, bs: seq<byte>, before: seq<Msg>)
    ensures Prepended(before, RoundTrip.DecodeStream(d, 0, bs)) == Ok(before, bs)
  {
    assert before + [] == before;
  }

  lemma WrittenPart(a: Output, b: Output, bytes: seq<byte>)
    requires !a.sizing && Encodes(a, b, true, true, bytes)
    ensures |a.written| <= |b.written| && b.written[|a.written|..] == bytes
  {
  }

  lemma ListReadsBack(d: seq<Field>, ms: seq<Msg>)
    requires WellFormed(d) && Sendable(d, ms)
    ensures RoundTrip.DecodeStream(d, |ms|, RoundTrip.DelimitedBytes(d, ms)) == Ok(ms, [])
  {
    hide MsgBytes, WellFormed, Normal, RoundTrip.DelimitedBytes, RoundTrip.DecodeStream;
    RoundTrip.DelimitedRoundTrip(d, ms, []);
    assert RoundTrip.DelimitedBytes(d, ms) + [] == RoundTrip.DelimitedBytes(d, ms);
  }

  /** Writing a list and reading it back through one buffer: it works exactly when the list fits. */
  method SendList(s: OStream, d: seq<Field>, ms: seq<Msg>) returns (ok: bool, back: seq<Msg>)
    requires s.Valid() && s.buf != null && WellFormed(d) && Sendable(d, ms)
    modifies s, s.buf
    ensures s.Valid()
    ensures ok <==> old(s.bytesWritten) + |RoundTrip.DelimitedBytes(d, ms)| <= s.maxSize
    ensures ok ==> back == ms
  {
    hide MsgBytes, WellFormed, Sendable, RoundTrip.DelimitedBytes, RoundTrip.DecodeStream;
    var start := s.state;
    ghost var a := s.Now();
    back := [];
    ok := EncodeList(s, d, ms);
    if ok {
      WrittenPart(a, s.Now(), RoundTrip.DelimitedBytes(d, ms));
      ListReadsBack(d, ms);
      assert s.buf[start..s.state] == s.Now().written[|a.written|..];
      var input := new InputStream.IStream(s.buf[start..s.state]);
      ok, back := DecodeList(input, d, |ms|);
    }
  }
}
