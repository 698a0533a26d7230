/**
 Encoded messages as other readers see them: one that knows none of the fields skips all of them and
 arrives at the end, because the wire type of every record fits the form of its value.
 */
module ForeignReaders {
  import opened Bytes
  import opened Integers
  import opened Varint
  import opened Schema
  import opened Encoding
  import opened Decoding
  import opened Sameness
  import opened Reception
  import opened WireFormat

  /** The descriptor has no field with this tag. */
  predicate Unknown(fields: seq<Field>, tag: nat) {
    forall i | 0 <= i < |fields| :: fields[i].tag != tag
  }

  /** No tag in common. */
  predicate Foreign(reader: seq<Field>, fields: seq<Field>) {
    forall i | 0 <= i < |fields| :: Unknown(reader, fields[i].tag)
  }

  lemma ValueSkipped(f: Field, v: Value, t: seq<byte>)
    requires EncodeValue(f, v).Some? && |EncodeValue(f, v).value| < U32
    ensures Skip(WireType(f), EncodeValue(f, v).value + t) == Some(t)
  {
    hide Encode, EncVarint, RawVarint, Varint32, LittleEndian;
    var s := EncodeValue(f, v).value;
    match f.ltype
    case LBool => RawRoundTrip(if v.n != 0 then 1 else 0, t);
    case LVarint | LUVarint => RawRoundTrip(Low64(v.n), t);
    case LSVarint => RawRoundTrip(Low64(ZigZag(v.n)), t);
    case LFixed32 => assert (s + t)[4..] == t;
    case LFixed64 => assert (s + t)[8..] == t;
    case LBytes | LFixedBytes => StringSkipped(v.b, t);
    case LString => StringSkipped(CStr(v.b), t);
    case LSubmessage(fields) => StringSkipped(Encode(fields, v.m).value, t);
  }

  lemma StringSkipped(b: seq<byte>, t: seq<byte>)
    requires |EncString(b)| < U32
    ensures Skip(WT_STRING, EncString(b) + t) == Some(t)
  {
    hide EncVarint, Varint32, EncString;
    PayloadShorter(b);
    StringReceived(b, t);
  }

  /** A record with an unknown tag. */
  lemma RecordSkipped(reader: seq<Field>, tag: nat, wireType: nat, body: seq<byte>, t: seq<byte>, st: State)
    requires 1 <= tag < 0x2000_0000 && wireType < 8 && Unknown(reader, tag)
    requires Skip(wireType, body + t) == Some(t)
    ensures DecodeRecords(reader, EncTag(wireType, tag) + body + t, st) == DecodeRecords(reader, t, st)
  {
    hide EncTag, Skip, DecodeTag, DecodeEntry;
    var s := EncTag(wireType, tag) + body + t;
    assert s == EncTag(wireType, tag) + (body + t);
    TagRoundTrip(wireType, tag, body + t);
    assert FindField(reader, tag) == None;
    assert DecodeRecord(reader, tag, wireType, body + t, st) == Some((st, t));
    assert s != [];
  }

  lemma TaggedSkipped(reader: seq<Field>, f: Field, v: Value, t: seq<byte>, st: State)
    requires FieldOk(f) && Unknown(reader, f.tag)
    requires EncodeTagged(f, v).Some? && |EncodeTagged(f, v).value| < U32
    ensures DecodeRecords(reader, EncodeTagged(f, v).value + t, st) == DecodeRecords(reader, t, st)
  {
    hide EncTag, EncodeValue, Skip, DecodeRecords;
    ValueSkipped(f, v, t);
    RecordSkipped(reader, f.tag, WireType(f), EncodeValue(f, v).value, t, st);
  }

  lemma {:induction false} TaggedItemsSkipped(reader: seq<Field>, f: Field, items: seq<Value>, t: seq<byte>, st: State)
    requires FieldOk(f) && Unknown(reader, f.tag)
    requires EncodeUnpacked(f, items).Some? && |EncodeUnpacked(f, items).value| < U32
    ensures DecodeRecords(reader, EncodeUnpacked(f, items).value + t, st) == DecodeRecords(reader, t, st)
    decreases |items|
  {
    hide FieldOk, EncodeTagged, DecodeRecords;
    if items == [] {
      assert [] + t == t;
    } else {
      var e, rest := EncodeTagged(f, items[0]).value, EncodeUnpacked(f, items[1..]).value;
      assert e + rest + t == e + (rest + t);
      TaggedSkipped(reader, f, items[0], rest + t, st);
      TaggedItemsSkipped(reader, f, items[1..], t, st);
    }
  }

  lemma FieldSkipped(reader: seq<Field>, f: Field, slot: Slot, unions: map<nat, Union>, t: seq<byte>, st: State)
    requires FieldOk(f) && Unknown(reader, f.tag)
    requires EncodeField(f, slot, unions).Some? && |EncodeField(f, slot, unions).value| < U32
    ensures DecodeRecords(reader, EncodeField(f, slot, unions).value + t, st) == DecodeRecords(reader, t, st)
  {
    hide EncodeTagged, EncodePacked, EncodeUnpacked, DecodeRecords, EncTag, EncString, IsZero, Packable, Skip;
    assert [] + t == t;
    match slot
    case Single(v) => if EncodeField(f, slot, unions).value != [] { TaggedSkipped(reader, f, v, t, st); }
    case Opt(has, v) => if has { TaggedSkipped(reader, f, v, t, st); }
    case Rep(items) =>
      if items != [] {
        if Packable(f) {
          var payload := EncodePacked(f, items).value;
          StringSkipped(payload, t);
          RecordSkipped(reader, f.tag, WT_STRING, EncString(payload), t, st);
        } else {
          TaggedItemsSkipped(reader, f, items, t, st);
        }
      }
    case Member => if Current(f, unions) { TaggedSkipped(reader, f, unions[f.htype.group].v, t, st); }
  }

  lemma {:induction false} FieldsSkipped(reader: seq<Field>, fields: seq<Field>, m: Message, i: nat,
                                         t: seq<byte>, st: State)
    requires i <= |fields| == |m.slots| && FieldsOk(fields) && Foreign(reader, fields)
    requires EncodeFrom(fields, m, i).Some? && |EncodeFrom(fields, m, i).value| < U32
    ensures DecodeRecords(reader, EncodeFrom(fields, m, i).value + t, st) == DecodeRecords(reader, t, st)
    decreases |fields| - i
  {
    hide FieldOk, EncodeField, DecodeRecords, Unknown;
    if i < |fields| {
      var e, rest := EncodeField(fields[i], m.slots[i], m.unions).value, EncodeFrom(fields, m, i + 1).value;
      assert e + rest + t == e + (rest + t);
      FieldSkipped(reader, fields[i], m.slots[i], m.unions, rest + t, st);
      FieldsSkipped(reader, fields, m, i + 1, t, st);
    } else {
      assert [] + t == t;
    }
  }

  /** A reader that shares no tag with the writer skips the whole message, wherever it stands in its input. */
  lemma MessageSkipped(reader: seq<Field>, fields: seq<Field>, m: Message, t: seq<byte>, st: State)
    requires FieldsOk(fields) && Foreign(reader, fields)
    requires Encode(fields, m).Some? && |Encode(fields, m).value| < U32
    ensures DecodeRecords(reader, Encode(fields, m).value + t, st) == DecodeRecords(reader, t, st)
  {
    hide FieldsOk, Foreign, EncodeFrom, DecodeRecords;
    FieldsSkipped(reader, fields, m, 0, t, st);
  }

  /** If it has no required fields, it accepts the message and leaves its own struct as it was. */
  lemma ForeignMessageAccepted(reader: seq<Field>, fields: seq<Field>, m: Message, mine: Message)
    requires FieldsOk(fields) && Foreign(reader, fields)
    requires forall i | 0 <= i < |reader| :: !reader[i].htype.HRequired?
    requires Encode(fields, m).Some? && |Encode(fields, m).value| < U32
    ensures DecodeNoInit(reader, Encode(fields, m).value, mine) == Some((mine, []))
  {
    hide FieldsOk, Foreign, Encode;
    var s := Encode(fields, m).value;
    assert s + [] == s;
    MessageSkipped(reader, fields, m, [], Start(mine));
  }

  // ---------- single records and arrays ----------

  /** The tag of a record tells its field and, by a number, the form of the value. */
  lemma TaggedForm(f: Field, v: Value, t: seq<byte>)
    requires FieldOk(f) && EncodeTagged(f, v).Some?
    ensures EncodeValue(f, v).Some?
    ensures DecodeTag(EncodeTagged(f, v).value + t)
         == Tag(f.tag, WireTypeNumber(f.ltype), EncodeValue(f, v).value + t)
  {
    hide EncTag, EncodeValue, DecodeTag, Varint32;
    WireTypeIsNumber(f);
    var tag, e := EncTag(WireType(f), f.tag), EncodeValue(f, v).value;
    assert tag + e + t == tag + (e + t);
    TagRoundTrip(WireType(f), f.tag, e + t);
  }

  /** A non-empty array of bools, integers or fixed-width numbers is one length-delimited record, whose payload is
      the elements one after another. */
  lemma NumericArrayForm(f: Field, items: seq<Value>) returns (payload: seq<byte>, parts: seq<seq<byte>>)
    requires FieldOk(f) && Numeric(f.ltype) && items != []
    requires EncodeArray(f, items).Some? && |EncodeArray(f, items).value| < U32
    ensures var t := DecodeTag(EncodeArray(f, items).value);
            t.Tag? && t.number == f.tag && t.wireType == 2 && TakeString(t.rest) == Some((payload, []))
    ensures payload == Join(parts) && |parts| == |items|
    ensures forall k | 0 <= k < |items| :: EncodeValue(f, items[k]) == Some(parts[k])
  {
    hide EncTag, EncString, EncodePacked, DecodeTag, EncodeValue, TakeString, FieldOk;
    PackableIsNumeric(f);
    payload := EncodePacked(f, items).value;
    parts := PackedParts(f, items);
    PayloadShorter(payload);
    StringReceived(payload, []);
    TagInField(f);
    TagRoundTrip(WT_STRING, f.tag, EncString(payload));
    assert EncString(payload) + [] == EncString(payload);
  }

  lemma TagInField(f: Field)
    requires FieldOk(f)
    ensures 1 <= f.tag < 0x2000_0000
  {}

  lemma {:induction false} PackedParts(f: Field, items: seq<Value>) returns (parts: seq<seq<byte>>)
    requires EncodePacked(f, items).Some?
    ensures EncodePacked(f, items).value == Join(parts) && |parts| == |items|
    ensures forall k | 0 <= k < |items| :: EncodeValue(f, items[k]) == Some(parts[k])
    decreases |items|
  {
    hide EncodeValue;
    parts := [];
    if items != [] {
      var rest := PackedParts(f, items[1..]);
      parts := [EncodeValue(f, items[0]).value] + rest;
      assert parts[1..] == rest;
      assert forall k | 0 < k < |items| :: items[k] == items[1..][k - 1];
    }
  }

  /** An array of any other type is one record for each element. */
  lemma OtherArrayForm(f: Field, items: seq<Value>) returns (parts: seq<seq<byte>>)
    requires FieldOk(f) && !Numeric(f.ltype) && EncodeArray(f, items).Some?
    ensures EncodeArray(f, items).value == Join(parts) && |parts| == |items|
    ensures forall k | 0 <= k < |items| ::
      EncodeValue(f, items[k]).Some? && DecodeTag(parts[k]) == Tag(f.tag, 2, EncodeValue(f, items[k]).value)
  {
    hide EncodeUnpacked, EncodeValue, DecodeTag, FieldOk;
    PackableIsNumeric(f);
    NothingUnpacked(f);
    parts := UnpackedParts(f, items);
  }

  lemma {:induction false} UnpackedParts(f: Field, items: seq<Value>) returns (parts: seq<seq<byte>>)
    requires FieldOk(f) && !Numeric(f.ltype) && EncodeUnpacked(f, items).Some?
    ensures EncodeUnpacked(f, items).value == Join(parts) && |parts| == |items|
    ensures forall k | 0 <= k < |items| ::
      EncodeValue(f, items[k]).Some? && DecodeTag(parts[k]) == Tag(f.tag, 2, EncodeValue(f, items[k]).value)
    decreases |items|
  {
    hide EncodeValue, EncodeTagged, DecodeTag, FieldOk;
    parts := [];
    if items != [] {
      var rest := UnpackedParts(f, items[1..]);
      var e := EncodeTagged(f, items[0]).value;
      TaggedForm(f, items[0], []);
      assert e + [] == e && EncodeValue(f, items[0]).value + [] == EncodeValue(f, items[0]).value;
      parts := [e] + rest;
      assert parts[1..] == rest;
      assert forall k | 0 < k < |items| :: items[k] == items[1..][k - 1] && parts[k] == rest[k - 1];
    }
  }
}
