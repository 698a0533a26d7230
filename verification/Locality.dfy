/**
 A successful read depends only on the bytes it consumes: more input after them changes nothing
 but what is left unread. Records therefore compose.
 */
module Locality {
  import opened Bytes
  import opened Varint
  import opened Schema
  import opened Encoding
  import opened Decoding

  lemma TakeLocal(n: nat, s: seq<byte>, t: seq<byte>)
    requires Take(n, s).Some?
    ensures Take(n, s + t) == Some((Take(n, s).value.0, Take(n, s).value.1 + t))
  {
    assert (s + t)[..n] == s[..n] && (s + t)[n..] == s[n..] + t;
  }

  lemma TakeStringLocal(s: seq<byte>, t: seq<byte>)
    requires TakeString(s).Some?
    ensures TakeString(s + t) == Some((TakeString(s).value.0, TakeString(s).value.1 + t))
  {
    Varint32Local(s, t);
    var (n, rest) := Varint32(s).value;
    TakeLocal(n, rest, t);
  }

  lemma SkipLocal(wireType: nat, s: seq<byte>, t: seq<byte>)
    requires Skip(wireType, s).Some?
    ensures Skip(wireType, s + t) == Some(Skip(wireType, s).value + t)
  {
    if wireType == 0 { RawVarintLocal(s, t); }
    else if wireType == 1 { TakeLocal(8, s, t); }
    else if wireType == 2 { TakeStringLocal(s, t); }
    else { TakeLocal(4, s, t); }
  }

  lemma DecodeBlobLocal(f: Field, s: seq<byte>, t: seq<byte>)
    requires DecodeBlob(f, s).Some?
    ensures DecodeBlob(f, s + t) == Some((DecodeBlob(f, s).value.0, DecodeBlob(f, s).value.1 + t))
  {
    Varint32Local(s, t);
    var (n, rest) := Varint32(s).value;
    if Take(n, rest).Some? { TakeLocal(n, rest, t); }
  }

  lemma DecodeScalarLocal(f: Field, s: seq<byte>, t: seq<byte>)
    requires DecodeScalar(f, s).Some?
    ensures DecodeScalar(f, s + t) == Some((DecodeScalar(f, s).value.0, DecodeScalar(f, s).value.1 + t))
  {
    match f.ltype
    case LBool => Varint32Local(s, t);
    case LVarint | LUVarint | LSVarint => Varint64Local(s, t);
    case LFixed32 => TakeLocal(4, s, t);
    case LFixed64 => TakeLocal(8, s, t);
    case LBytes | LString | LFixedBytes => DecodeBlobLocal(f, s, t);
    case LSubmessage(_) =>
  }

  lemma DecodeValueLocal(f: Field, s: seq<byte>, prev: Value, t: seq<byte>)
    requires DecodeValue(f, s, prev).Some?
    ensures DecodeValue(f, s + t, prev) == Some((DecodeValue(f, s, prev).value.0, DecodeValue(f, s, prev).value.1 + t))
  {
    match f.ltype
    case LSubmessage(_) => TakeStringLocal(s, t);
    case _ => DecodeScalarLocal(f, s, t);
  }

  lemma DecodeSlotLocal(f: Field, wireType: nat, s: seq<byte>, slot: Slot, t: seq<byte>)
    requires DecodeSlot(f, wireType, s, slot).Some?
    ensures DecodeSlot(f, wireType, s + t, slot)
         == Some((DecodeSlot(f, wireType, s, slot).value.0, DecodeSlot(f, wireType, s, slot).value.1 + t))
  {
    match slot
    case Single(prev) => DecodeValueLocal(f, s, prev, t);
    case Opt(_, prev) => DecodeValueLocal(f, s, prev, t);
    case Rep(items) =>
      if wireType == WT_STRING && Packable(f) {
        TakeStringLocal(s, t);
      } else {
        DecodeValueLocal(f, s, Int(0), t);
      }
    case Member =>
  }

  lemma DecodeEntryLocal(fields: seq<Field>, i: nat, wireType: nat, s: seq<byte>, st: State, t: seq<byte>)
    requires i < |fields| && DecodeEntry(fields, i, wireType, s, st).Some?
    ensures var (st', rest) := DecodeEntry(fields, i, wireType, s, st).value;
            DecodeEntry(fields, i, wireType, s + t, st) == Some((st', rest + t))
  {
    hide DecodeValue, DecodeSlot;
    var f := fields[i];
    if f.htype.HOneof? {
      DecodeValueLocal(f, s, Int(0), t);
    } else {
      var slot := if FixedCount(f) && st.fixedField != Some(i) then Rep([]) else st.msg.slots[i];
      DecodeSlotLocal(f, wireType, s, slot, t);
    }
  }

  lemma DecodeRecordLocal(fields: seq<Field>, tag: nat, wireType: nat, s: seq<byte>, st: State, t: seq<byte>)
    requires DecodeRecord(fields, tag, wireType, s, st).Some?
    ensures var (st', rest) := DecodeRecord(fields, tag, wireType, s, st).value;
            DecodeRecord(fields, tag, wireType, s + t, st) == Some((st', rest + t))
  {
    hide DecodeEntry, Skip;
    match FindField(fields, tag)
    case Some(i) => DecodeEntryLocal(fields, i, wireType, s, st, t);
    case None =>
      if fields == [] && tag == 0 {
        Varint32Local(s, t);
      } else {
        SkipLocal(wireType, s, t);
      }
  }

  /** x consists of whole records, all of which decode, and has no zero tag. */
  ghost predicate WholeRecords(fields: seq<Field>, x: seq<byte>, st: State) {
    var r := DecodeRecords(fields, x, st);
    r.Some? && r.value.rest == [] && !r.value.terminated
  }

  /** Decoding whole records and then more is decoding the more from the state the records lead to. */
  lemma {:induction false} RecordsCompose(fields: seq<Field>, x: seq<byte>, y: seq<byte>, st: State)
    requires WholeRecords(fields, x, st)
    ensures DecodeRecords(fields, x + y, st) == DecodeRecords(fields, y, DecodeRecords(fields, x, st).value.st)
    decreases |x|
  {
    hide DecodeRecord;
    if x == [] {
      assert x + y == y;
    } else {
      Varint32Local(x, y);
      var Tag(tag, wireType, rest) := DecodeTag(x);
      assert DecodeTag(x + y) == Tag(tag, wireType, rest + y);
      var (st', rest') := DecodeRecord(fields, tag, wireType, rest, st).value;
      DecodeRecordLocal(fields, tag, wireType, rest, st, y);
      RecordsCompose(fields, rest', y, st');
    }
  }
}
