/**
 Arrays without counter (PB_REPEATED_FIXED_COUNT): an accepted message never holds part of one, at any depth.
 */
module FixedArrays {
  import opened Bytes
  import opened Schema
  import opened Encoding
  import opened Decoding
  import opened RequiredFields
  import opened Preservation

  // ---------- at the end of a message ----------

  /** The arrays without counter that have a record are full, except the one being filled. */
  ghost predicate ArraysFilled(fields: seq<Field>, st: State) {
    && |st.msg.slots| == |fields|
    && (forall i | 0 <= i < |fields| && FixedCount(fields[i]) && i in st.seen && st.fixedField != Some(i) ::
          st.msg.slots[i].Rep? && |st.msg.slots[i].items| == fields[i].arraySize)
  }

  lemma EntryFillsArrays(fields: seq<Field>, i: nat, wireType: nat, s: seq<byte>, st: State)
    requires i < |fields| && ArraysFilled(fields, st) && DecodeEntry(fields, i, wireType, s, st).Some?
    ensures ArraysFilled(fields, DecodeEntry(fields, i, wireType, s, st).value.0)
  {
    hide DecodeSlot, DecodeValue;
  }

  lemma {:induction false} RecordsFillArrays(fields: seq<Field>, s: seq<byte>, st: State)
    requires ArraysFilled(fields, st) && DecodeRecords(fields, s, st).Some?
    ensures ArraysFilled(fields, DecodeRecords(fields, s, st).value.st)
    decreases |s|
  {
    hide DecodeEntry, Skip, ArraysFilled;
    if s != [] && DecodeTag(s).Tag? {
      var Tag(tag, wireType, rest) := DecodeTag(s);
      var i := FindField(fields, tag);
      if i.Some? { EntryFillsArrays(fields, i.value, wireType, rest, st); }
      var (st', rest') := DecodeRecord(fields, tag, wireType, rest, st).value;
      RecordsFillArrays(fields, rest', st');
    }
  }

  /** In an accepted message, an array without counter has all its elements if it has a record, and none of it
      was received if it has not. */
  lemma ArraysFullOrUntouched(fields: seq<Field>, s: seq<byte>, m: Message, i: nat)
    requires i < |fields| == |m.slots| && FixedCount(fields[i]) && DecodeNoInit(fields, s, m).Some?
    ensures |DecodeNoInit(fields, s, m).value.0.slots| == |fields|
    ensures var slot := DecodeNoInit(fields, s, m).value.0.slots[i];
            if i in EntriesOf(fields, s, Start(m)) then slot.Rep? && |slot.items| == fields[i].arraySize
            else slot == m.slots[i]
  {
    hide DecodeRecords, EntriesOf;
    RecordsKeep(fields, s, Start(m));
    RecordsFillArrays(fields, s, Start(m));
    SeenIsEntries(fields, s, Start(m));
  }

  // ---------- at every depth ----------

  predicate ValueWhole(f: Field, v: Value)
    decreases f, 0
  {
    match f.ltype
    case LSubmessage(fields) => v.Sub? ==> Whole(fields, v.m)
    case _ => true
  }

  predicate SlotWhole(f: Field, slot: Slot)
    decreases f, 1
  {
    match f.htype
    case HRequired => slot.Single? && ValueWhole(f, slot.v)
    case HOptional => (slot.Single? || slot.Opt?) && ValueWhole(f, slot.v)
    case HRepeated => slot.Rep? && forall k | 0 <= k < |slot.items| :: ValueWhole(f, slot.items[k])
    case HOneof(_) => slot.Member?
  }

  /** Everything was received, or nothing. */
  predicate ArrayWhole(f: Field, slot: Slot) {
    FixedCount(f) && slot.Rep? ==> slot.items == [] || |slot.items| == f.arraySize
  }

  /** No array without counter was received in part, here or in a submessage. */
  predicate Whole(fields: seq<Field>, m: Message)
    decreases fields
  {
    && |m.slots| == |fields|
    && (forall i | 0 <= i < |fields| :: SlotWhole(fields[i], m.slots[i]) && ArrayWhole(fields[i], m.slots[i]))
    && (forall i | 0 <= i < |fields| && Current(fields[i], m.unions) ::
          ValueWhole(fields[i], m.unions[fields[i].htype.group].v))
  }

  /** The same while a message is being decoded: the array being filled may be incomplete. */
  ghost predicate WholeSoFar(fields: seq<Field>, st: State) {
    && |st.msg.slots| == |fields|
    && (forall i | 0 <= i < |fields| :: SlotWhole(fields[i], st.msg.slots[i]))
    && (forall i | 0 <= i < |fields| && st.fixedField != Some(i) :: ArrayWhole(fields[i], st.msg.slots[i]))
    && (forall i | 0 <= i < |fields| && Current(fields[i], st.msg.unions) ::
          ValueWhole(fields[i], st.msg.unions[fields[i].htype.group].v))
  }

  lemma {:induction false} DefaultValueWhole(f: Field)
    requires f.ltype.LSubmessage?
    ensures ValueWhole(f, DefaultValue(f))
    decreases f, 0
  {
    DefaultsWhole(f.ltype.fields);
  }

  lemma {:induction false} DefaultsWhole(fields: seq<Field>)
    ensures Whole(fields, Defaults(fields))
    decreases fields
  {
    hide DefaultValue, ValueWhole;
    forall i | 0 <= i < |fields| ensures SlotWhole(fields[i], Defaults(fields).slots[i]) {
      var f := fields[i];
      if f.ltype.LSubmessage? { DefaultValueWhole(f); } else { ScalarsWhole(f); }
    }
  }

  lemma ScalarsWhole(f: Field)
    requires !f.ltype.LSubmessage?
    ensures forall v :: ValueWhole(f, v)
  {}

  lemma ValueStaysWhole(f: Field, s: seq<byte>, prev: Value)
    requires FieldOk(f) && DecodeValue(f, s, prev).Some?
    requires f.htype.HRequired? || f.htype.HOptional? ==> ValueWhole(f, prev)
    ensures ValueWhole(f, DecodeValue(f, s, prev).value.0)
    decreases |s|, 0
  {
    match f.ltype
    case LSubmessage(fields) =>
      DefaultsWhole(fields);
      NoInitWhole(fields, TakeString(s).value.0, SubTarget(f, prev));
    case _ =>
  }

  lemma SlotStaysWhole(f: Field, wireType: nat, s: seq<byte>, slot: Slot)
    requires FieldOk(f) && DecodeSlot(f, wireType, s, slot).Some? && SlotWhole(f, slot)
    ensures SlotWhole(f, DecodeSlot(f, wireType, s, slot).value.0)
    decreases |s|, 1
  {
    hide ValueWhole, DecodeValue, DecodePacked;
    match slot
    case Single(prev) => ValueStaysWhole(f, s, prev);
    case Opt(_, prev) => ValueStaysWhole(f, s, prev);
    case Rep(items) =>
      if wireType == WT_STRING && Packable(f) { ScalarsWhole(f); } else { ValueStaysWhole(f, s, Int(0)); }
    case Member =>
  }

  lemma EntryStaysWhole(fields: seq<Field>, i: nat, wireType: nat, s: seq<byte>, st: State)
    requires FieldsOk(fields) && i < |fields| && WholeSoFar(fields, st)
    requires DecodeEntry(fields, i, wireType, s, st).Some?
    ensures WholeSoFar(fields, DecodeEntry(fields, i, wireType, s, st).value.0)
    decreases |s|, 2
  {
    hide FieldOk, ValueWhole, DecodeValue, DecodeSlot;
    var f := fields[i];
    if f.htype.HOneof? {
      ValueStaysWhole(f, s, Int(0));
    } else {
      var slot := if FixedCount(f) && st.fixedField != Some(i) then Rep([]) else st.msg.slots[i];
      SlotStaysWhole(f, wireType, s, slot);
    }
  }

  lemma {:induction false} RecordsStayWhole(fields: seq<Field>, s: seq<byte>, st: State)
    requires FieldsOk(fields) && WholeSoFar(fields, st) && DecodeRecords(fields, s, st).Some?
    ensures WholeSoFar(fields, DecodeRecords(fields, s, st).value.st)
    decreases |s|, 4
  {
    hide FieldsOk, WholeSoFar, DecodeEntry, Skip;
    if s != [] && DecodeTag(s).Tag? {
      var Tag(tag, wireType, rest) := DecodeTag(s);
      var i := FindField(fields, tag);
      if i.Some? { EntryStaysWhole(fields, i.value, wireType, rest, st); }
      var (st', rest') := DecodeRecord(fields, tag, wireType, rest, st).value;
      RecordsStayWhole(fields, rest', st');
    }
  }

  lemma NoInitWhole(fields: seq<Field>, s: seq<byte>, m: Message)
    requires FieldsOk(fields) && Whole(fields, m) && DecodeNoInit(fields, s, m).Some?
    ensures Whole(fields, DecodeNoInit(fields, s, m).value.0)
    decreases |s|, 5
  {
    hide FieldOk, SlotWhole, ValueWhole, DecodeRecords;
    RecordsStayWhole(fields, s, Start(m));
  }

  /** Whatever bytes are accepted, no array without counter was received in part, at any depth. */
  lemma DecodedWhole(fields: seq<Field>, s: seq<byte>)
    requires FieldsOk(fields) && Decode(fields, s).Some?
    ensures Whole(fields, Decode(fields, s).value.0)
  {
    DefaultsWhole(fields);
    NoInitWhole(fields, s, Defaults(fields));
  }
}
