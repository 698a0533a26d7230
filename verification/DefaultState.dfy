/**
 What a field without a record holds after decoding: its declared default, or zero, at every depth.
 */
module DefaultState {
  import opened Bytes
  import opened Schema
  import opened Decoding
  import opened RequiredFields
  import opened Preservation

  /** The default declared in the descriptor, else zero, an empty blob or dataSize zero bytes; a submessage whose
      fields all hold theirs. */
  predicate AtDefault(f: Field, v: Value)
    decreases f, 0
  {
    match f.ltype
    case LSubmessage(fields) => v.Sub? && AllAtDefault(fields, v.m)
    case LBytes | LString => v == if f.default.Some? then f.default.value else Blob([])
    case LFixedBytes =>
      if f.default.Some? then v == f.default.value
      else v.Blob? && |v.b| == f.dataSize && forall k | 0 <= k < |v.b| :: v.b[k] == 0
    case LBool | LVarint | LUVarint | LSVarint | LFixed32 | LFixed64 =>
      v == if f.default.Some? then f.default.value else Int(0)
  }

  /** A flag is cleared and an array is empty. */
  predicate SlotAtDefault(f: Field, slot: Slot)
    decreases f, 1
  {
    match f.htype
    case HRequired => slot.Single? && AtDefault(f, slot.v)
    case HOptional =>
      if f.sizeOffset == 0 then slot.Single? && AtDefault(f, slot.v)
      else slot.Opt? && !slot.has && AtDefault(f, slot.v)
    case HRepeated => slot == Rep([])
    case HOneof(_) => slot == Member
  }

  /** No union has a current member. */
  predicate AllAtDefault(fields: seq<Field>, m: Message)
    decreases fields
  {
    && |m.slots| == |fields| && m.unions == map[]
    && forall i | 0 <= i < |fields| :: SlotAtDefault(fields[i], m.slots[i])
  }

  lemma {:induction false} DefaultValueAtDefault(f: Field)
    ensures AtDefault(f, DefaultValue(f))
    decreases f, 0
  {
    match f.ltype
    case LSubmessage(fields) => DefaultsAtDefault(fields);
    case _ =>
  }

  /** pb_message_set_to_defaults leaves every field at its default. */
  lemma {:induction false} DefaultsAtDefault(fields: seq<Field>)
    ensures AllAtDefault(fields, Defaults(fields))
    decreases fields
  {
    hide AtDefault, DefaultValue;
    forall i | 0 <= i < |fields| ensures SlotAtDefault(fields[i], Defaults(fields).slots[i]) {
      DefaultValueAtDefault(fields[i]);
    }
  }

  /** In an accepted message every field and union without a record is at its default. */
  lemma UnmentionedAtDefault(fields: seq<Field>, s: seq<byte>, m: Message, rest: seq<byte>)
    requires Decode(fields, s) == Some((m, rest))
    ensures var entries := EntriesOf(fields, s, Start(Defaults(fields)));
            && |m.slots| == |fields|
            && (forall i | 0 <= i < |fields| && i !in entries :: SlotAtDefault(fields[i], m.slots[i]))
            && (forall g: nat | NoRecordOf(fields, entries, g) :: g !in m.unions)
  {
    hide DecodeNoInit, EntriesOf, SlotAtDefault, DefaultSlots;
    DefaultsAtDefault(fields);
    MergingKeepsTheRest(fields, s, Defaults(fields), m, rest);
    forall g: nat | NoRecordOf(fields, EntriesOf(fields, s, Start(Defaults(fields))), g) ensures g !in m.unions {
      assert SameCell(Defaults(fields).unions, m.unions, g);
    }
  }

  /** A member of a union and an element of an array start from the defaults as well. */
  lemma FreshSubmessageAtDefault(f: Field, s: seq<byte>, v: Value, rest: seq<byte>)
    requires f.ltype.LSubmessage? && (f.htype.HOneof? || f.htype.HRepeated?)
    requires DecodeValue(f, s, Int(0)) == Some((v, rest))
    ensures TakeString(s).Some? && v.Sub?
    ensures var sub := f.ltype.fields;
            var entries := EntriesOf(sub, TakeString(s).value.0, Start(Defaults(sub)));
            && |v.m.slots| == |sub|
            && (forall i | 0 <= i < |sub| && i !in entries :: SlotAtDefault(sub[i], v.m.slots[i]))
            && (forall g: nat | NoRecordOf(sub, entries, g) :: g !in v.m.unions)
  {
    hide DecodeNoInit, EntriesOf, SlotAtDefault, TakeString;
    var sub, payload := f.ltype.fields, TakeString(s).value.0;
    UnmentionedAtDefault(sub, payload, v.m, Decode(sub, payload).value.1);
  }

  /** An optional number with a has_ flag and the default 5. */
  function WithDefault(): Field {
    Field(1, LVarint, HOptional, AStatic, 0, -1, 4, 1, Some(Int(5)))
  }

  lemma DefaultArrives()
    ensures FieldsOk([WithDefault()])
    ensures Decode([WithDefault()], []) == Some((Message([Opt(false, Int(5))], map[]), []))
  {
    var f := WithDefault();
    assert FieldOk(f);
    assert Defaults([f]).slots[0] == DefaultSlot(f);
    assert Defaults([f]) == Message([Opt(false, Int(5))], map[]);
    assert RequiredSeen([f], {});
  }
}
