/**
 Streams of messages: length-delimited and zero-terminated framing.
 */
module Framing {
  import opened Bytes
  import opened Varint
  import opened Schema
  import opened Encoding
  import opened Decoding
  import opened Sameness
  import opened Reception
  import opened Fidelity

  /** Messages written one after another with pb_encode_delimited. */
  function EncodeFrames(fields: seq<Field>, ms: seq<Message>): Wire {
    if ms == [] then Some([])
    else match Encode(fields, ms[0])
      case None => None
      case Some(bytes) => Append(Some(EncString(bytes)), EncodeFrames(fields, ms[1..]))
  }

  /** n calls of pb_decode_delimited. */
  function DecodeFrames(fields: seq<Field>, s: seq<byte>, n: nat): Read<seq<Message>>
    decreases n
  {
    if n == 0 then Some(([], s))
    else match DecodeDelimited(fields, s)
      case None => None
      case Some((m, rest)) =>
        match DecodeFrames(fields, rest, n - 1)
        case None => None
        case Some((ms, rest')) => Some(([m] + ms, rest'))
  }

  /** A stream of delimited messages decodes, one message at a time, to the same sequence of messages
      and leaves unread exactly what follows the stream. */
  lemma {:induction false} FramesRoundTrip(fields: seq<Field>, ms: seq<Message>, t: seq<byte>)
    requires FieldsOk(fields)
    requires forall k | 0 <= k < |ms| ::
      && MessageOk(Raw, fields, ms[k]) && Terminated(fields, ms[k])
      && Encode(fields, ms[k]).Some? && |Encode(fields, ms[k]).value| < U32
    ensures EncodeFrames(fields, ms).Some?
    ensures var r := DecodeFrames(fields, EncodeFrames(fields, ms).value + t, |ms|);
            && r.Some? && r.value.1 == t && |r.value.0| == |ms|
            && forall k | 0 <= k < |ms| :: Same(fields, ms[k], r.value.0[k])
  {
    hide MessageOk, FieldsOk, Encode, Decode, Same, Terminated, EncString, TakeString;
    if ms == [] {
      assert [] + t == t;
    } else {
      var bytes := Encode(fields, ms[0]).value;
      FramesRoundTrip(fields, ms[1..], t);
      var rest := EncodeFrames(fields, ms[1..]).value;
      assert EncString(bytes) + rest + t == EncString(bytes) + (rest + t);
      StringReceived(bytes, rest + t);
      RoundTrip(fields, ms[0]);
      assert forall k | 0 < k < |ms| :: ms[k] == ms[1..][k - 1];
    }
  }

  /** A zero-terminated message decodes to the same message and leaves what follows the zero byte unread. */
  lemma NullTerminatedRoundTrip(fields: seq<Field>, m: Message, t: seq<byte>)
    requires FieldsOk(fields) && MessageOk(Raw, fields, m)
    requires Encode(fields, m).Some? && |Encode(fields, m).value| < U32
    ensures var r := Decode(fields, Encode(fields, m).value + [0] + t);
            if Terminated(fields, m) then r.Some? && r.value.1 == t && Same(fields, m, r.value.0) else r.None?
  {
    hide *;
    NullTerminatedReceived(fields, m, t);
    ReceivedSame(fields, m);
  }
}
