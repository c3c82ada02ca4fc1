/** Messages one after the other: length-delimited streams and zero-terminated messages. */
module Framing {
  import opened Wrappers
  import opened Bits
  import opened Varint
  import opened Message
  import opened Encode
  import opened Decode
  import opened Normalize
  import opened ScalarLaws
  import opened RoundTrip

  /** Repeated `pb_encode_delimited` on one stream. */
  function EncodeAll(fields: seq<Field>, ms: seq<seq<Slot>>): Option<Bytes>
  {
    if ms == [] then Some([]) else Concat(EncodeDelimited(fields, ms[0]), EncodeAll(fields, ms[1..]))
  }

  /** Repeated `pb_decode_delimited` until the stream is empty. */
  function DecodeAll(fields: seq<Field>, s: Bytes): Option<seq<seq<Slot>>>
    decreases |s|
  {
    if s == [] then Some([])
    else
      match DecodeDelimited(fields, s)
      case Fail => None
      case Ok(m, r) =>
        match DecodeAll(fields, r)
        case None => None
        case Some(ms) => Some([m] + ms)
  }

  function NormalAll(fields: seq<Field>, ms: seq<seq<Slot>>): (r: seq<seq<Slot>>)
    ensures |r| == |ms|
  {
    seq(|ms|, i requires 0 <= i < |ms| => NormalMessage(fields, ms[i]))
  }

  /** A delimited message is read back, whatever follows, exactly when it is sendable and shorter than 2^32 bytes. */
  lemma DelimitedMessageRoundTrip(fields: seq<Field>, m: seq<Slot>, t: Bytes)
    requires TableOk(fields) && MessageTyped(fields, m)
    requires EncodeMessage(fields, m).Some? && |EncodeMessage(fields, m).value| < U63
    ensures DecodeDelimited(fields, EncodeDelimited(fields, m).value + t)
         == if |EncodeMessage(fields, m).value| < U32 && Sendable(fields, m) then Ok(NormalMessage(fields, m), t) else Fail
  {
    hide TableOk, MessageTyped, EncodeMessage, NormalMessage, Sendable, DecodeMessage, Delimited, ReadDelimited;
    var data := EncodeMessage(fields, m).value;
    DelimitedRoundTrip(data, t);
    MessageRoundTrip(fields, m, data);
  }

  /** The message can be framed and taken back. */
  predicate Frameable(fields: seq<Field>, m: seq<Slot>)
  {
    EncodeMessage(fields, m).Some? && |EncodeMessage(fields, m).value| < U32 && Sendable(fields, m)
  }

  /** A stream of delimited messages is read back as the same list, exactly when each of them can be. */
  lemma {:induction false} FramingRoundTrip(fields: seq<Field>, ms: seq<seq<Slot>>)
    requires TableOk(fields)
    requires forall i | 0 <= i < |ms| ::
               && MessageTyped(fields, ms[i])
               && EncodeMessage(fields, ms[i]).Some? && |EncodeMessage(fields, ms[i]).value| < U63
    ensures EncodeAll(fields, ms).Some?
    ensures DecodeAll(fields, EncodeAll(fields, ms).value)
         == if forall i | 0 <= i < |ms| :: Frameable(fields, ms[i]) then Some(NormalAll(fields, ms)) else None
    decreases |ms|
  {
    hide TableOk, MessageTyped, EncodeMessage, NormalMessage, Sendable, DecodeDelimited;
    if ms != [] {
      var tail := ms[1..];
      FramingRoundTrip(fields, tail);
      var rest := EncodeAll(fields, tail).value;
      DelimitedMessageRoundTrip(fields, ms[0], rest);
      assert NormalAll(fields, ms) == [NormalMessage(fields, ms[0])] + NormalAll(fields, tail);
      assert (forall i | 0 <= i < |ms| :: Frameable(fields, ms[i])) <==>
             Frameable(fields, ms[0]) && forall i | 0 <= i < |tail| :: Frameable(fields, tail[i]) by {
        assert forall i | 0 <= i < |tail| :: tail[i] == ms[i + 1];
        assert forall i | 0 < i < |ms| :: ms[i] == tail[i - 1];
      }
    }
  }

  /** A zero-terminated message decodes to itself and stops right behind the zero byte, exactly when it is sendable. */
  lemma NullTerminatedRoundTrip(fields: seq<Field>, m: seq<Slot>, b: Bytes, t: Bytes)
    requires TableOk(fields) && MessageTyped(fields, m)
    requires EncodeMessage(fields, m) == Some(b) && |b| < U63
    ensures EncodeNullTerminated(fields, m) == Some(b + [0])
    ensures DecodeMessage(fields, b + [0] + t) == if Sendable(fields, m) then Ok(NormalMessage(fields, m), t) else Fail
  {
    hide TableOk, MessageTyped, EncodeMessage, NormalMessage, Sendable, DefaultMessage, Complete;
    var st := RecordsRoundTrip(fields, m, b, [0] + t);
    assert b + [0] + t == b + ([0] + t);
    assert DecodeRecords(fields, st, [0] + t) == Stopped(st, t) by {
      assert EncodeVarint(0) == [0];
      Varint32RoundTrip(0, t);
    }
  }

  /** What stands in a frame behind a zero byte is dropped with the frame: the next one begins right behind it. */
  lemma RestOfFrameDropped(fields: seq<Field>, m: seq<Slot>, b: Bytes, junk: Bytes, t: Bytes)
    requires TableOk(fields) && MessageTyped(fields, m) && Sendable(fields, m)
    requires EncodeMessage(fields, m) == Some(b) && |b + [0] + junk| < U32
    ensures DecodeDelimited(fields, EncodeVarint(|b + [0] + junk|) + (b + [0] + junk) + t) == Ok(NormalMessage(fields, m), t)
  {
    hide TableOk, MessageTyped, EncodeMessage, NormalMessage, Sendable, DecodeMessage, ReadDelimited, EncodeVarint, Delimited;
    var body := b + [0] + junk;
    DelimitedShort(body);
    DelimitedRoundTrip(body, t);
    NullTerminatedRoundTrip(fields, m, b, junk);
  }
}
