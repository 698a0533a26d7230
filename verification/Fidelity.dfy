/**
 The main results about whole messages: what was received cannot be told from what was sent, and
 messages that cannot be told apart are written as the same bytes.
 */
module Fidelity {
  import opened Bytes
  import opened Schema
  import opened Encoding
  import opened Decoding
  import opened Sameness
  import opened Reception

  lemma {:induction false} CStrIdempotent(b: seq<byte>)
    ensures CStr(CStr(b)) == CStr(b)
  {
    if b != [] && b[0] != 0 {
      CStrIdempotent(b[1..]);
      assert CStr(b)[1..] == CStr(b[1..]);
    }
  }

  // ---------- absent proto3 fields ----------

  lemma {:induction false} ZeroIsDefault(f: Field, v: Value)
    requires FieldOk(f) && f.default.None? && ValueOk(Raw, f, v) && IsZero(f, v)
    ensures SameValue(f, v, DefaultValue(f))
    decreases f, 0
  {
    match f.ltype
    case LSubmessage(fields) => AllDefaultIsDefault(fields, v.m);
    case _ =>
  }

  lemma {:induction false} AllDefaultAt(fields: seq<Field>, m: Message, i: nat, j: nat)
    requires i <= j < |fields| == |m.slots| && AllDefault(fields, m, i)
    ensures IsDefault(fields[j], m.slots[j], m.unions)
    decreases j - i
  {
    if i < j { AllDefaultAt(fields, m, i + 1, j); }
  }

  lemma {:induction false} AllDefaultIsDefault(fields: seq<Field>, m: Message)
    requires FieldsOk(fields) && MessageOk(Raw, fields, m) && AllDefault(fields, m, 0)
    ensures Same(fields, m, Defaults(fields))
    decreases fields
  {
    hide ValueOk, FieldOk, AllDefault, IsZero, SameValue;
    forall i | 0 <= i < |fields|
      ensures SameSlot(fields[i], m.slots[i], Defaults(fields).slots[i])
      ensures SameMember(fields[i], m.unions, Defaults(fields).unions)
    {
      var f := fields[i];
      AllDefaultAt(fields, m, 0, i);
      assert SlotOk(Raw, f, m.slots[i]);
      if Implicit(f) {
        ImplicitHasNoDefault(f);
        ZeroIsDefault(f, m.slots[i].v);
      }
    }
  }

  lemma ImplicitHasNoDefault(f: Field)
    requires FieldOk(f) && Implicit(f)
    ensures f.default.None?
  {}

  // ---------- what was received is what was sent ----------

  lemma {:induction false} ReceivedValueSame(f: Field, v: Value)
    requires FieldOk(f) && ValueOk(Raw, f, v)
    ensures SameValue(f, v, ReceivedValue(f, v))
    decreases f, 0
  {
    match f.ltype
    case LString => CStrIdempotent(v.b);
    case LSubmessage(fields) => ReceivedSame(fields, v.m);
    case _ =>
  }

  /** The slot of an entry after all records. */
  function FinalSlot(f: Field, slot: Slot, unions: map<nat, Union>): Slot {
    if !Present(f, slot, unions) then DefaultSlot(f)
    else match slot
      case Single(v) => Single(ReceivedValue(f, v))
      case Opt(_, v) => Opt(true, ReceivedValue(f, v))
      case Rep(items) => Rep(ReceivedItems(f, items))
      case Member => DefaultSlot(f)
  }

  lemma {:induction false} FinalSlots(fields: seq<Field>, m: Message, i: nat)
    requires i <= |fields| == |m.slots| && MessageOk(Raw, fields, m)
    ensures forall j | 0 <= j < |fields| ::
      AfterFields(fields, m, i).msg.slots[j]
      == if j < i then FinalSlot(fields[j], m.slots[j], m.unions) else DefaultSlot(fields[j])
    decreases i
  {
    hide ValueOk, IsZero, ReceivedValue;
    if i > 0 {
      FinalSlots(fields, m, i - 1);
      assert SlotOk(Raw, fields[i - 1], m.slots[i - 1]);
    }
  }

  /** The union cells after the records of the first i entries. */
  ghost predicate UnionsReceived(fields: seq<Field>, m: Message, i: nat, unions: map<nat, Union>)
    requires i <= |fields|
  {
    && (forall j | 0 <= j < i && Current(fields[j], m.unions) ::
          var g := fields[j].htype.group;
          g in unions && unions[g] == Union(fields[j].tag, ReceivedValue(fields[j], m.unions[g].v)))
    && (forall g | g in unions :: g in m.unions && unions[g].which == m.unions[g].which)
  }

  lemma UnionsNext(fields: seq<Field>, m: Message, i: nat, st: State)
    requires i < |fields| == |m.slots| == |st.msg.slots| && FieldsOk(fields)
    requires SlotOk(Raw, fields[i], m.slots[i]) && UnionsReceived(fields, m, i, st.msg.unions)
    ensures UnionsReceived(fields, m, i + 1, AfterField(fields, m, i, st).msg.unions)
  {
    hide ValueOk, FieldOk, IsZero, ReceivedValue;
    forall j | 0 <= j < i && Current(fields[j], m.unions) && Current(fields[i], m.unions)
      ensures fields[j].htype.group != fields[i].htype.group
    {
      assert fields[j].tag != fields[i].tag;
    }
  }

  lemma {:induction false} FinalUnions(fields: seq<Field>, m: Message, i: nat)
    requires i <= |fields| == |m.slots| && FieldsOk(fields) && MessageOk(Raw, fields, m)
    ensures UnionsReceived(fields, m, i, AfterFields(fields, m, i).msg.unions)
    decreases i
  {
    hide ValueOk, FieldsOk, SlotOk, AfterField;
    if i > 0 {
      FinalUnions(fields, m, i - 1);
      UnionsNext(fields, m, i - 1, AfterFields(fields, m, i - 1));
    } else {
      assert AfterFields(fields, m, 0).msg.unions == map[];
    }
  }

  lemma {:induction false} ReceivedSame(fields: seq<Field>, m: Message)
    requires FieldsOk(fields) && MessageOk(Raw, fields, m)
    ensures Same(fields, m, Received(fields, m))
    decreases fields
  {
    hide ValueOk, FieldOk, IsZero, SameValue, ReceivedValue, AfterFields;
    FinalSlots(fields, m, |fields|);
    FinalUnions(fields, m, |fields|);
    forall i | 0 <= i < |fields|
      ensures SameSlot(fields[i], m.slots[i], Received(fields, m).slots[i])
      ensures SameMember(fields[i], m.unions, Received(fields, m).unions)
    {
      var f := fields[i];
      assert SlotOk(Raw, f, m.slots[i]);
      SlotReceivedSame(f, m.slots[i], m.unions);
      if Current(f, m.unions) { ReceivedValueSame(f, m.unions[f.htype.group].v); }
    }
  }

  lemma {:induction false} SlotReceivedSame(f: Field, slot: Slot, unions: map<nat, Union>)
    requires FieldOk(f) && SlotOk(Raw, f, slot)
    ensures SameSlot(f, slot, FinalSlot(f, slot, unions))
    decreases f, 1
  {
    hide ValueOk, FieldOk, IsZero, SameValue, ReceivedValue;
    match slot
    case Single(v) =>
      ReceivedValueSame(f, v);
      if !Present(f, slot, unions) {
        ImplicitHasNoDefault(f);
        ZeroIsDefault(f, v);
      }
    case Opt(_, v) => ReceivedValueSame(f, v);
    case Rep(items) =>
      forall k | 0 <= k < |items| ensures SameValue(f, items[k], ReceivedValue(f, items[k])) {
        ReceivedValueSame(f, items[k]);
      }
    case Member =>
  }

  /** pb_decode undoes pb_encode: it consumes all the bytes and returns the same message, exactly when every
      string that was written is terminated within its buffer. */
  lemma RoundTrip(fields: seq<Field>, m: Message)
    requires FieldsOk(fields) && MessageOk(Raw, fields, m)
    requires Encode(fields, m).Some? && |Encode(fields, m).value| < U32
    ensures var r := Decode(fields, Encode(fields, m).value);
            if Terminated(fields, m) then r.Some? && r.value.1 == [] && Same(fields, m, r.value.0)
            else r.None?
  {
    hide *;
    DecodeIsNoInit(fields, Encode(fields, m).value);
    MessageReceived(fields, m);
    ReceivedSame(fields, m);
  }

  /** A string buffer of one byte. */
  function OneChar(): Field {
    Field(1, LString, HRequired, AStatic, 0, 0, 1, 1, None)
  }

  /** A character where the terminator should be: the encoder writes it, and the decoder rejects what was written. */
  lemma UnterminatedIsRejected()
    ensures var fields, m := [OneChar()], Message([Single(Blob([65]))], map[]);
            && FieldsOk(fields) && MessageOk(Stored, fields, m)
            && Encode(fields, m) == Some([10, 1, 65]) && !Terminated(fields, m)
            && Decode(fields, [10, 1, 65]) == None
  {
    hide FieldsOk, MessageOk, Encode, Terminated, Decode;
    var fields, m := [OneChar()], Message([Single(Blob([65]))], map[]);
    OneCharEncoded();
    OneCharUnterminated();
    assert Decode(fields, [10, 1, 65]) == None by { RoundTrip(fields, m); }
  }

  lemma OneCharUnterminated()
    ensures FieldsOk([OneChar()]) && MessageOk(Stored, [OneChar()], Message([Single(Blob([65]))], map[]))
    ensures MessageOk(Raw, [OneChar()], Message([Single(Blob([65]))], map[]))
    ensures !Terminated([OneChar()], Message([Single(Blob([65]))], map[]))
  {
    assert FieldOk(OneChar());
    assert CStr([65]) == [65];
    assert !ValueTerminated(OneChar(), Blob([65]));
  }

  lemma OneCharEncoded()
    ensures Encode([OneChar()], Message([Single(Blob([65]))], map[])) == Some([10, 1, 65])
  {
    var f, m := OneChar(), Message([Single(Blob([65]))], map[]);
    assert CStr([65]) == [65];
    assert EncString([65]) == [1] + [65] == [1, 65];
    assert EncodeValue(f, Blob([65])) == Some([1, 65]);
    assert [10] + [1, 65] == [10, 1, 65] && [10, 1, 65] + [] == [10, 1, 65];
    assert EncodeTagged(f, Blob([65])) == Some([10, 1, 65]);
    assert EncodeFrom([f], m, 1) == Some([]);
    assert EncodeFrom([f], m, 0) == Some([10, 1, 65]);
  }

  // ---------- messages that cannot be told apart ----------

  lemma {:induction false} SameValueSameBytes(f: Field, a: Value, b: Value, va: Proper, vb: Proper)
    requires ValueOk(va, f, a) && ValueOk(vb, f, b) && SameValue(f, a, b)
    ensures EncodeValue(f, a) == EncodeValue(f, b)
    ensures IsZero(f, a) == IsZero(f, b)
    decreases f, 0
  {
    match f.ltype
    case LSubmessage(fields) => SameSameBytes(fields, a.m, b.m, va, vb);
    case _ =>
  }

  lemma {:induction false} SameItemsSameBytes(f: Field, a: seq<Value>, b: seq<Value>, va: Proper, vb: Proper)
    requires |a| == |b|
    requires forall k | 0 <= k < |a| :: ValueOk(va, f, a[k]) && ValueOk(vb, f, b[k]) && SameValue(f, a[k], b[k])
    ensures EncodePacked(f, a) == EncodePacked(f, b) && EncodeUnpacked(f, a) == EncodeUnpacked(f, b)
    decreases f, 1, |a|
  {
    hide ValueOk, SameValue, EncodeValue;
    if a != [] {
      SameValueSameBytes(f, a[0], b[0], va, vb);
      SameItemsSameBytes(f, a[1..], b[1..], va, vb);
    }
  }

  lemma {:induction false} SameFieldSameBytes(f: Field, a: Slot, b: Slot, ua: map<nat, Union>, ub: map<nat, Union>,
                                              va: Proper, vb: Proper)
    requires SlotOk(va, f, a) && SlotOk(vb, f, b) && SameSlot(f, a, b) && SameMember(f, ua, ub)
    requires Current(f, ua) ==> ValueOk(va, f, ua[f.htype.group].v) && ValueOk(vb, f, ub[f.htype.group].v)
    ensures EncodeField(f, a, ua) == EncodeField(f, b, ub)
    ensures (f.htype.HOneof? ==> (f.htype.group in ua <==> f.htype.group in ub)) ==>
      IsDefault(f, a, ua) == IsDefault(f, b, ub)
    decreases f, 2
  {
    hide ValueOk, SameValue, EncodeValue, IsZero, EncodePacked, EncodeUnpacked;
    match a
    case Single(v) => SameValueSameBytes(f, v, b.v, va, vb);
    case Opt(has, v) => if has { SameValueSameBytes(f, v, b.v, va, vb); }
    case Rep(items) => SameItemsSameBytes(f, items, b.items, va, vb);
    case Member => if Current(f, ua) { SameValueSameBytes(f, ua[f.htype.group].v, ub[f.htype.group].v, va, vb); }
  }

  lemma SameGroups(fields: seq<Field>, a: Message, b: Message, va: Proper, vb: Proper, g: nat)
    requires MessageOk(va, fields, a) && MessageOk(vb, fields, b) && Same(fields, a, b)
    ensures g in a.unions <==> g in b.unions
  {
    hide SlotOk, ValueOk, SameSlot, SameValue;
    if g in a.unions {
      var i :| 0 <= i < |fields| && fields[i].htype == HOneof(g) && fields[i].tag == a.unions[g].which;
      assert Current(fields[i], a.unions) && SameMember(fields[i], a.unions, b.unions);
    }
    if g in b.unions {
      var i :| 0 <= i < |fields| && fields[i].htype == HOneof(g) && fields[i].tag == b.unions[g].which;
      assert Current(fields[i], b.unions) && SameMember(fields[i], a.unions, b.unions);
    }
  }

  lemma {:induction false} SameFromSameBytes(fields: seq<Field>, a: Message, b: Message, va: Proper, vb: Proper, i: nat)
    requires i <= |fields|
    requires MessageOk(va, fields, a) && MessageOk(vb, fields, b) && Same(fields, a, b)
    ensures EncodeFrom(fields, a, i) == EncodeFrom(fields, b, i)
    ensures AllDefault(fields, a, i) == AllDefault(fields, b, i)
    decreases fields, 0, |fields| - i
  {
    hide SlotOk, ValueOk, SameSlot, SameValue, EncodeField, IsDefault;
    if i < |fields| {
      var f := fields[i];
      if f.htype.HOneof? { SameGroups(fields, a, b, va, vb, f.htype.group); }
      assert SameMember(f, a.unions, b.unions);
      SameFieldSameBytes(f, a.slots[i], b.slots[i], a.unions, b.unions, va, vb);
      SameFromSameBytes(fields, a, b, va, vb, i + 1);
    }
  }

  /** Messages that agree on everything that can be told apart are written as the same bytes. */
  lemma {:induction false} SameSameBytes(fields: seq<Field>, a: Message, b: Message, va: Proper, vb: Proper)
    requires MessageOk(va, fields, a) && MessageOk(vb, fields, b) && Same(fields, a, b)
    ensures Encode(fields, a) == Encode(fields, b)
    ensures AllDefault(fields, a, 0) == AllDefault(fields, b, 0)
    decreases fields, 1
  {
    hide MessageOk, EncodeFrom, AllDefault;
    SameFromSameBytes(fields, a, b, va, vb, 0);
  }
}
