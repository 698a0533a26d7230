/**
 The induction behind the round trip: entry by entry, the records of an encoded message take the
 decoder from the state before the entry to the state after it.
 */
module Reception {
  import opened Bytes
  import opened Varint
  import opened Schema
  import opened Encoding
  import opened Decoding
  import opened Sameness
  import opened WireFormat

  /** The decoder between entries i-1 and i. */
  ghost predicate Between(fields: seq<Field>, st: State, i: nat) {
    && |st.msg.slots| == |fields|
    && (forall j | i <= j < |fields| :: st.msg.slots[j] == DefaultSlot(fields[j]))
    && FixedComplete(fields, st)
    && (st.fixedField.Some? ==> st.fixedField.value < i)
    && (forall j | 0 <= j < i && j < |fields| && fields[j].htype.HRequired? :: j in st.seen)
  }

  lemma {:induction false} FindUnique(fields: seq<Field>, i: nat, j: nat)
    requires j <= i < |fields| && FieldsOk(fields)
    ensures FindFrom(fields, fields[i].tag, j) == Some(i)
    decreases i - j
  {
    if j < i { FindUnique(fields, i, j + 1); }
  }

  lemma TagReceived(fields: seq<Field>, i: nat, wireType: nat, t: seq<byte>)
    requires i < |fields| && FieldsOk(fields) && wireType < 8
    ensures DecodeTag(EncTag(wireType, fields[i].tag) + t) == Tag(fields[i].tag, wireType, t)
    ensures FindField(fields, fields[i].tag) == Some(i)
  {
    FindUnique(fields, i, 0);
    TagInRange(fields, i);
    TagRoundTrip(wireType, fields[i].tag, t);
  }

  lemma TagInRange(fields: seq<Field>, i: nat)
    requires i < |fields| && FieldsOk(fields)
    ensures 1 <= fields[i].tag < 0x2000_0000
  {
    assert FieldOk(fields[i]);
  }

  lemma TagRoundTrip(wireType: nat, tag: nat, t: seq<byte>)
    requires wireType < 8 && 1 <= tag < 0x2000_0000
    ensures DecodeTag(EncTag(wireType, tag) + t) == Tag(tag, wireType, t)
  {
    hide EncVarint, Varint32;
    Varint32RoundTrip(8 * tag + wireType, t);
    assert (8 * tag + wireType) / 8 == tag && (8 * tag + wireType) % 8 == wireType;
  }

  /** A record of entry i, from its tag on. */
  lemma RecordReceived(fields: seq<Field>, i: nat, wireType: nat, t: seq<byte>, st: State)
    requires i < |fields| && FieldsOk(fields) && wireType < 8
    ensures DecodeRecords(fields, EncTag(wireType, fields[i].tag) + t, st)
         == match DecodeEntry(fields, i, wireType, t, st)
            case None => None
            case Some((st', rest)) => DecodeRecords(fields, rest, st')
  {
    hide EncVarint, Varint32, DecodeEntry, FieldsOk, EncTag, DecodeTag;
    TagReceived(fields, i, wireType, t);
    var s := EncTag(wireType, fields[i].tag) + t;
    assert s != [];
    assert DecodeRecord(fields, fields[i].tag, wireType, t, st) == DecodeEntry(fields, i, wireType, t, st);
  }

  // ---------- values ----------

  lemma ValueReceived(f: Field, v: Value, t: seq<byte>, prev: Value)
    requires FieldOk(f) && ValueOk(Raw, f, v)
    requires EncodeValue(f, v).Some? && |EncodeValue(f, v).value| < U32
    requires f.ltype.LSubmessage? ==> SubTarget(f, prev) == Defaults(f.ltype.fields)
    ensures DecodeValue(f, EncodeValue(f, v).value + t, prev)
         == if ValueTerminated(f, v) then Some((ReceivedValue(f, v), t)) else None
    decreases f, 0
  {
    match f.ltype
    case LSubmessage(fields) =>
      var payload := Encode(fields, v.m).value;
      PayloadShorter(payload);
      StringReceived(payload, t);
      MessageReceived(fields, v.m);
    case _ => ScalarReceived(f, v, t);
  }

  lemma PayloadShorter(b: seq<byte>)
    ensures |b| < |EncString(b)|
  {}

  lemma {:induction false} PackedReceived(f: Field, items: seq<Value>, acc: seq<Value>)
    requires FieldOk(f) && Numeric(f.ltype) && |acc| + |items| <= f.arraySize
    requires forall k | 0 <= k < |items| :: ValueOk(Raw, f, items[k])
    requires EncodePacked(f, items).Some?
    ensures DecodePacked(f, EncodePacked(f, items).value, acc) == Some(acc + ReceivedItems(f, items))
    decreases |items|
  {
    hide FieldOk, ValueOk, EncodeValue, DecodeScalar, ReceivedValue, Packable;
    hide DecodePacked, EncodePacked, ReceivedItems, Numeric;
    PackableIsNumeric(f);
    if items == [] {
      NothingPacked(f, acc);
      assert acc + [] == acc;
    } else {
      FirstPacked(f, items);
      var t, r := EncodePacked(f, items[1..]).value, ReceivedValue(f, items[0]);
      PackedElement(f, items[0], t, acc);
      PackedReceived(f, items[1..], acc + [r]);
      assert acc + [r] + ReceivedItems(f, items[1..]) == acc + ([r] + ReceivedItems(f, items[1..]));
    }
  }

  lemma NothingPacked(f: Field, acc: seq<Value>)
    ensures EncodePacked(f, []) == Some([]) && ReceivedItems(f, []) == [] && DecodePacked(f, [], acc) == Some(acc)
  {}

  lemma FirstPacked(f: Field, items: seq<Value>)
    requires items != [] && EncodePacked(f, items).Some?
    ensures EncodeValue(f, items[0]).Some? && EncodePacked(f, items[1..]).Some?
    ensures EncodePacked(f, items).value == EncodeValue(f, items[0]).value + EncodePacked(f, items[1..]).value
    ensures ReceivedItems(f, items) == [ReceivedValue(f, items[0])] + ReceivedItems(f, items[1..])
  {
    hide EncodeValue, ReceivedValue;
  }

  lemma PackedElement(f: Field, v: Value, t: seq<byte>, acc: seq<Value>)
    requires FieldOk(f) && Packable(f) && |acc| < f.arraySize
    requires ValueOk(Raw, f, v) && EncodeValue(f, v).Some?
    ensures DecodePacked(f, EncodeValue(f, v).value + t, acc) == DecodePacked(f, t, acc + [ReceivedValue(f, v)])
  {
    hide FieldOk, ValueOk, EncodeValue, DecodeScalar, ReceivedValue, Packable;
    PackableReceived(f, v, t);
  }

  lemma PackableReceived(f: Field, v: Value, t: seq<byte>)
    requires FieldOk(f) && Packable(f) && ValueOk(Raw, f, v) && EncodeValue(f, v).Some?
    ensures EncodeValue(f, v).value != []
    ensures DecodeScalar(f, EncodeValue(f, v).value + t) == Some((ReceivedValue(f, v), t))
  {
    ScalarReceived(f, v, t);
  }

  // ---------- one entry ----------

  lemma SingleReceived(fields: seq<Field>, m: Message, i: nat, st: State, t: seq<byte>, v: Value)
    requires i < |fields| == |m.slots| && FieldsOk(fields) && Between(fields, st, i)
    requires SlotOk(Raw, fields[i], m.slots[i]) && Present(fields[i], m.slots[i], m.unions)
    requires m.slots[i] == Single(v) || m.slots[i] == Opt(true, v)
    requires EncodeTagged(fields[i], v).Some? && |EncodeTagged(fields[i], v).value| < U32
    ensures DecodeRecords(fields, EncodeTagged(fields[i], v).value + t, st)
         == if ValueTerminated(fields[i], v) then DecodeRecords(fields, t, AfterField(fields, m, i, st)) else None
    decreases fields[i], 1, 0
  {
    hide EncTag, EncodeValue, DecodeValue, DecodeRecords, ValueOk, FieldOk, FixedComplete;
    var f := fields[i];
    var e := EncodeValue(f, v).value;
    assert EncTag(WireType(f), f.tag) + e + t == EncTag(WireType(f), f.tag) + (e + t);
    RecordReceived(fields, i, WireType(f), e + t, st);
    ValueReceived(f, v, t, DefaultValue(f));
  }

  lemma MemberReceived(fields: seq<Field>, m: Message, i: nat, st: State, t: seq<byte>, v: Value)
    requires i < |fields| == |m.slots| && FieldsOk(fields) && Between(fields, st, i)
    requires m.slots[i] == Member && Current(fields[i], m.unions) && v == m.unions[fields[i].htype.group].v
    requires ValueOk(Raw, fields[i], v)
    requires EncodeTagged(fields[i], v).Some? && |EncodeTagged(fields[i], v).value| < U32
    ensures DecodeRecords(fields, EncodeTagged(fields[i], v).value + t, st)
         == if ValueTerminated(fields[i], v) then DecodeRecords(fields, t, AfterField(fields, m, i, st)) else None
    decreases fields[i], 1, 0
  {
    hide EncTag, EncodeValue, DecodeValue, DecodeRecords, ValueOk, FieldOk, FixedComplete;
    var f := fields[i];
    var e := EncodeValue(f, v).value;
    assert EncTag(WireType(f), f.tag) + e + t == EncTag(WireType(f), f.tag) + (e + t);
    RecordReceived(fields, i, WireType(f), e + t, st);
    ValueReceived(f, v, t, Int(0));
  }

  /** st with the slot of the array at entry i holding `items` as elements received so far. */
  function Filling(fields: seq<Field>, i: nat, st: State, items: seq<Value>): State
    requires i < |fields| == |st.msg.slots|
  {
    if items == [] then st else
    State(st.msg.(slots := st.msg.slots[i := Rep(items)]), st.seen + {i},
          if FixedCount(fields[i]) then Some(i) else st.fixedField)
  }

  lemma PackedArrayReceived(fields: seq<Field>, m: Message, i: nat, st: State, t: seq<byte>, items: seq<Value>)
    requires i < |fields| == |m.slots| && FieldsOk(fields) && Between(fields, st, i)
    requires m.slots[i] == Rep(items) && items != [] && SlotOk(Raw, fields[i], m.slots[i]) && Packable(fields[i])
    requires fields[i].htype.HRepeated?
    requires EncodeArray(fields[i], items).Some? && |EncodeArray(fields[i], items).value| < U32
    ensures DecodeRecords(fields, EncodeArray(fields[i], items).value + t, st)
         == DecodeRecords(fields, t, AfterField(fields, m, i, st))
  {
    hide EncTag, EncString, EncodePacked, DecodePacked, DecodeRecords, DecodeEntry, ValueOk, FieldOk, Between;
    var f := fields[i];
    var data := EncodePacked(f, items).value;
    var tag := EncTag(WT_STRING, f.tag);
    assert tag + EncString(data) + t == tag + (EncString(data) + t);
    PayloadShorter(data);
    RecordReceived(fields, i, WT_STRING, EncString(data) + t, st);
    StringReceived(data, t);
    PackableIsNumeric(f);
    PackedReceived(f, items, []);
    assert [] + ReceivedItems(f, items) == ReceivedItems(f, items);
    PackedFilling(fields, i, st, EncString(data) + t);
  }

  /** A packed record of an array that has received nothing so far, whether or not it has a counter. */
  lemma PackedFilling(fields: seq<Field>, i: nat, st: State, s: seq<byte>)
    requires i < |fields| && Between(fields, st, i) && fields[i].htype.HRepeated? && Packable(fields[i])
    requires TakeString(s).Some?
    ensures DecodeEntry(fields, i, WT_STRING, s, st)
         == match DecodePacked(fields[i], TakeString(s).value.0, [])
            case None => None
            case Some(items) =>
              Some((State(st.msg.(slots := st.msg.slots[i := Rep(items)]), st.seen + {i},
                          if FixedCount(fields[i]) then Some(i) else st.fixedField), TakeString(s).value.1))
  {
    hide TakeString, DecodePacked, Packable;
    assert st.msg.slots[i] == Rep([]);
  }

  /** One more element of an unpacked array. */
  lemma ElementReceived(fields: seq<Field>, i: nat, st: State, t: seq<byte>, acc: seq<Value>, v: Value)
    requires i < |fields| && FieldsOk(fields) && Between(fields, st, i)
    requires fields[i].htype.HRepeated? && !Packable(fields[i]) && |acc| < fields[i].arraySize
    requires ValueOk(Raw, fields[i], v)
    requires EncodeTagged(fields[i], v).Some? && |EncodeTagged(fields[i], v).value| < U32
    ensures DecodeRecords(fields, EncodeTagged(fields[i], v).value + t, Filling(fields, i, st, acc))
         == if ValueTerminated(fields[i], v)
            then DecodeRecords(fields, t, Filling(fields, i, st, acc + [ReceivedValue(fields[i], v)])) else None
    decreases fields[i], 1, 0
  {
    hide EncTag, EncodeValue, DecodeValue, DecodeRecords, ValueOk, FieldOk;
    var f := fields[i];
    var e := EncodeValue(f, v).value;
    assert EncTag(WireType(f), f.tag) + e + t == EncTag(WireType(f), f.tag) + (e + t);
    RecordReceived(fields, i, WireType(f), e + t, Filling(fields, i, st, acc));
    ValueReceived(f, v, t, Int(0));
    FillingStep(fields, i, st, WireType(f), e + t, acc);
  }

  /** An unpacked element goes behind those received so far, whether or not the array has a counter. */
  lemma FillingStep(fields: seq<Field>, i: nat, st: State, wireType: nat, s: seq<byte>, acc: seq<Value>)
    requires i < |fields| && Between(fields, st, i)
    requires fields[i].htype.HRepeated? && !Packable(fields[i]) && |acc| < fields[i].arraySize
    ensures DecodeEntry(fields, i, wireType, s, Filling(fields, i, st, acc))
         == match DecodeValue(fields[i], s, Int(0))
            case None => None
            case Some((v, rest)) => Some((Filling(fields, i, st, acc + [v]), rest))
  {
    hide DecodeValue, Packable;
    var now := Filling(fields, i, st, acc);
    var slot := if FixedCount(fields[i]) && now.fixedField != Some(i) then Rep([]) else now.msg.slots[i];
    assert slot == Rep(acc);
    if DecodeValue(fields[i], s, Int(0)).Some? {
      var v := DecodeValue(fields[i], s, Int(0)).value.0;
      assert now.msg.slots[i := Rep(acc + [v])] == st.msg.slots[i := Rep(acc + [v])];
      assert now.seen + {i} == st.seen + {i};
    }
  }

  lemma {:induction false} UnpackedReceived(fields: seq<Field>, i: nat, st: State, t: seq<byte>,
                                            acc: seq<Value>, items: seq<Value>)
    requires i < |fields| && FieldsOk(fields) && Between(fields, st, i)
    requires fields[i].htype.HRepeated? && !Numeric(fields[i].ltype) && |acc| + |items| <= fields[i].arraySize
    requires forall k | 0 <= k < |items| :: ValueOk(Raw, fields[i], items[k])
    requires EncodeUnpacked(fields[i], items).Some? && |EncodeUnpacked(fields[i], items).value| < U32
    ensures DecodeRecords(fields, EncodeUnpacked(fields[i], items).value + t, Filling(fields, i, st, acc))
         == if AllTerminated(fields[i], items)
            then DecodeRecords(fields, t, Filling(fields, i, st, acc + ReceivedItems(fields[i], items))) else None
    decreases fields[i], 1, 1 + |items|
  {
    hide EncodeTagged, EncodeUnpacked, DecodeRecords, ValueOk, FieldOk, FieldsOk, Filling, Between;
    hide ReceivedValue, ReceivedItems, ValueTerminated, AllTerminated, Packable, Numeric;
    var f := fields[i];
    PackableIsNumeric(f);
    FirstTerminated(f, items);
    if items == [] {
      NothingUnpacked(f);
      assert [] + t == t && acc + [] == acc;
    } else {
      FirstUnpacked(f, items);
      var e, rest := EncodeTagged(f, items[0]).value, EncodeUnpacked(f, items[1..]).value;
      assert e + rest + t == e + (rest + t);
      ElementReceived(fields, i, st, rest + t, acc, items[0]);
      var r := ReceivedValue(f, items[0]);
      UnpackedReceived(fields, i, st, t, acc + [r], items[1..]);
      assert acc + [r] + ReceivedItems(f, items[1..]) == acc + ([r] + ReceivedItems(f, items[1..]));
    }
  }

  lemma NothingUnpacked(f: Field)
    ensures EncodeUnpacked(f, []) == Some([]) && ReceivedItems(f, []) == []
  {}

  lemma FirstUnpacked(f: Field, items: seq<Value>)
    requires items != [] && EncodeUnpacked(f, items).Some?
    ensures EncodeTagged(f, items[0]).Some? && EncodeUnpacked(f, items[1..]).Some?
    ensures EncodeUnpacked(f, items).value == EncodeTagged(f, items[0]).value + EncodeUnpacked(f, items[1..]).value
    ensures ReceivedItems(f, items) == [ReceivedValue(f, items[0])] + ReceivedItems(f, items[1..])
  {
    hide EncodeTagged, ReceivedValue;
  }

  lemma FirstTerminated(f: Field, items: seq<Value>)
    ensures AllTerminated(f, items) == (items == [] || (ValueTerminated(f, items[0]) && AllTerminated(f, items[1..])))
  {
    hide ValueTerminated;
    assert forall k | 0 < k < |items| :: items[k] == items[1..][k - 1];
  }

  lemma FieldReceived(fields: seq<Field>, m: Message, i: nat, st: State, t: seq<byte>)
    requires i < |fields| == |m.slots| && FieldsOk(fields) && MessageOk(Raw, fields, m) && Between(fields, st, i)
    requires var e := EncodeField(fields[i], m.slots[i], m.unions); e.Some? && |e.value| < U32
    ensures DecodeRecords(fields, EncodeField(fields[i], m.slots[i], m.unions).value + t, st)
         == if FieldTerminated(fields[i], m.slots[i], m.unions)
            then DecodeRecords(fields, t, AfterField(fields, m, i, st)) else None
    decreases fields[i], 2
  {
    hide EncodeTagged, EncodeArray, DecodeRecords, ValueOk, FieldOk, FieldsOk, Between, ValueTerminated;
    hide AllTerminated, IsZero;
    var f, slot := fields[i], m.slots[i];
    assert SlotOk(Raw, f, slot);
    assert [] + t == t;
    if !Present(f, slot, m.unions) {
      AbsentWritesNothing(f, slot, m.unions);
    } else {
      match slot
      case Single(v) => SingleReceived(fields, m, i, st, t, v);
      case Opt(_, v) => SingleReceived(fields, m, i, st, t, v);
      case Rep(items) => ArrayReceived(fields, m, i, st, t, items);
      case Member => MemberReceived(fields, m, i, st, t, m.unions[f.htype.group].v);
    }
  }

  lemma AbsentWritesNothing(f: Field, slot: Slot, unions: map<nat, Union>)
    requires SlotOk(Raw, f, slot) && !Present(f, slot, unions)
    ensures EncodeField(f, slot, unions) == Some([])
  {}

  lemma ArrayReceived(fields: seq<Field>, m: Message, i: nat, st: State, t: seq<byte>, items: seq<Value>)
    requires i < |fields| == |m.slots| && FieldsOk(fields) && Between(fields, st, i)
    requires fields[i].htype.HRepeated? && SlotOk(Raw, fields[i], m.slots[i])
    requires m.slots[i] == Rep(items) && items != []
    requires EncodeArray(fields[i], items).Some? && |EncodeArray(fields[i], items).value| < U32
    ensures DecodeRecords(fields, EncodeArray(fields[i], items).value + t, st)
         == if AllTerminated(fields[i], items) then DecodeRecords(fields, t, AfterField(fields, m, i, st)) else None
    decreases fields[i], 1, 2 + |items|
  {
    hide EncTag, EncString, DecodeRecords, ValueOk, FieldOk, FieldsOk, Between;
    var f := fields[i];
    if Packable(f) {
      PackedArrayReceived(fields, m, i, st, t, items);
    } else {
      PackableIsNumeric(f);
      UnpackedReceived(fields, i, st, t, [], items);
      assert [] + ReceivedItems(f, items) == ReceivedItems(f, items);
    }
  }

  lemma BetweenNext(fields: seq<Field>, m: Message, i: nat, st: State)
    requires i < |fields| == |m.slots| && MessageOk(Raw, fields, m) && Between(fields, st, i)
    ensures Between(fields, AfterField(fields, m, i, st), i + 1)
  {
    hide ValueOk;
    assert SlotOk(Raw, fields[i], m.slots[i]);
  }

  lemma {:induction false} BetweenAll(fields: seq<Field>, m: Message, i: nat)
    requires i <= |fields| == |m.slots| && MessageOk(Raw, fields, m)
    ensures Between(fields, AfterFields(fields, m, i), i)
  {
    hide MessageOk, AfterField;
    if i > 0 {
      BetweenAll(fields, m, i - 1);
      BetweenNext(fields, m, i - 1, AfterFields(fields, m, i - 1));
    }
  }

  /** From entry i on: the records take the decoder to the state after the last entry, whatever follows them. */
  lemma {:induction false} FieldsReceived(fields: seq<Field>, m: Message, i: nat, t: seq<byte>)
    requires i <= |fields| == |m.slots| && FieldsOk(fields) && MessageOk(Raw, fields, m)
    requires EncodeFrom(fields, m, i).Some? && |EncodeFrom(fields, m, i).value| < U32
    ensures DecodeRecords(fields, EncodeFrom(fields, m, i).value + t, AfterFields(fields, m, i))
         == if TerminatedFrom(fields, m, i) then DecodeRecords(fields, t, AfterFields(fields, m, |fields|)) else None
    decreases fields, 0, |fields| - i
  {
    hide MessageOk, FieldsOk, AfterField, EncodeField, FieldTerminated, Between, DecodeRecords, AfterFields;
    if i < |fields| {
      var st := AfterFields(fields, m, i);
      var e, rest := EncodeField(fields[i], m.slots[i], m.unions).value, EncodeFrom(fields, m, i + 1).value;
      assert e + rest + t == e + (rest + t);
      BetweenAll(fields, m, i);
      FieldReceived(fields, m, i, st, rest + t);
      AfterNext(fields, m, i);
      FieldsReceived(fields, m, i + 1, t);
    } else {
      assert [] + t == t;
    }
  }

  lemma AfterNext(fields: seq<Field>, m: Message, i: nat)
    requires i < |fields| == |m.slots|
    ensures AfterFields(fields, m, i + 1) == AfterField(fields, m, i, AfterFields(fields, m, i))
  {
    hide AfterField;
  }

  /** The required fields and the arrays of a received message are complete. */
  lemma ReceivedComplete(fields: seq<Field>, m: Message)
    requires |fields| == |m.slots| && MessageOk(Raw, fields, m)
    ensures var st := AfterFields(fields, m, |fields|);
            FixedComplete(fields, st) && RequiredSeen(fields, st.seen)
  {
    hide AfterField;
    BetweenAll(fields, m, |fields|);
  }

  /** The round trip of one message, submessages included. */
  lemma MessageReceived(fields: seq<Field>, m: Message)
    requires FieldsOk(fields) && MessageOk(Raw, fields, m)
    requires Encode(fields, m).Some? && |Encode(fields, m).value| < U32
    ensures DecodeNoInit(fields, Encode(fields, m).value, Defaults(fields))
         == if Terminated(fields, m) then Some((Received(fields, m), [])) else None
    decreases fields, 1
  {
    hide AfterField, EncodeField, FieldTerminated, FieldsOk, RequiredSeen, FixedComplete;
    var bytes := Encode(fields, m).value;
    assert bytes + [] == bytes;
    FieldsReceived(fields, m, 0, []);
    ReceivedComplete(fields, m);
    assert Encode(fields, m) == EncodeFrom(fields, m, 0);
    assert AfterFields(fields, m, 0) == Start(Defaults(fields));
  }

  /** pb_encode_nullterminated: the zero byte ends the message, and what follows it stays unread. */
  lemma NullTerminatedReceived(fields: seq<Field>, m: Message, t: seq<byte>)
    requires FieldsOk(fields) && MessageOk(Raw, fields, m)
    requires Encode(fields, m).Some? && |Encode(fields, m).value| < U32
    ensures Decode(fields, Encode(fields, m).value + [0] + t)
         == if Terminated(fields, m) then Some((Received(fields, m), t)) else None
  {
    hide AfterField, EncodeField, FieldTerminated, FieldsOk, RequiredSeen, FixedComplete;
    var bytes := Encode(fields, m).value;
    assert bytes + [0] + t == bytes + ([0] + t);
    FieldsReceived(fields, m, 0, [0] + t);
    ReceivedComplete(fields, m);
    ZeroTag(fields, t, AfterFields(fields, m, |fields|));
    assert AfterFields(fields, m, 0) == Start(Defaults(fields));
  }

  lemma ZeroTag(fields: seq<Field>, t: seq<byte>, st: State)
    ensures DecodeRecords(fields, [0] + t, st) == Some(Run(st, t, true))
  {
    assert ([0] + t)[1..] == t;
    assert DecodeTag([0] + t) == Terminator(t);
  }
}
