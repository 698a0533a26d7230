/**
 What decoding leaves alone: fields and unions without a record keep what they held, down through merged
 submessages. The exception is a submessage in a union, which every record of it starts afresh.
 */
module Preservation {
  import opened Bytes
  import opened Varint
  import opened Schema
  import opened Decoding
  import opened RequiredFields

  predicate SameCell(a: map<nat, Union>, b: map<nat, Union>, g: nat) {
    (g in a <==> g in b) && (g in a ==> a[g] == b[g])
  }

  /** No member of union g is among the entries. */
  predicate NoRecordOf(fields: seq<Field>, entries: seq<nat>, g: nat) {
    forall i | i in entries && i < |fields| :: fields[i].htype != HOneof(g)
  }

  /** b is a in everything but the given entries and the unions they belong to. */
  ghost predicate Kept(fields: seq<Field>, entries: seq<nat>, a: Message, b: Message) {
    && |a.slots| == |b.slots| == |fields|
    && (forall i | 0 <= i < |fields| && i !in entries :: b.slots[i] == a.slots[i])
    && (forall g: nat | NoRecordOf(fields, entries, g) :: SameCell(a.unions, b.unions, g))
  }

  lemma EntryKeeps(fields: seq<Field>, i: nat, wireType: nat, s: seq<byte>, st: State)
    requires i < |fields| && DecodeEntry(fields, i, wireType, s, st).Some?
    ensures Kept(fields, [i], st.msg, DecodeEntry(fields, i, wireType, s, st).value.0.msg)
  {
    hide DecodeSlot, DecodeValue;
    assert i in [i];
  }

  lemma KeptTwice(fields: seq<Field>, first: seq<nat>, more: seq<nat>, a: Message, b: Message, c: Message)
    requires Kept(fields, first, a, b) && Kept(fields, more, b, c)
    ensures Kept(fields, first + more, a, c)
  {
    forall g: nat | NoRecordOf(fields, first + more, g) ensures SameCell(a.unions, c.unions, g) {
      assert NoRecordOf(fields, first, g) && NoRecordOf(fields, more, g);
    }
  }

  lemma {:induction false} RecordsKeep(fields: seq<Field>, s: seq<byte>, st: State)
    requires |st.msg.slots| == |fields| && DecodeRecords(fields, s, st).Some?
    ensures Kept(fields, EntriesOf(fields, s, st), st.msg, DecodeRecords(fields, s, st).value.st.msg)
    decreases |s|
  {
    hide DecodeEntry, Skip, Kept;
    if s != [] && DecodeTag(s).Tag? {
      var Tag(tag, wireType, rest) := DecodeTag(s);
      var i := FindField(fields, tag);
      var (st', rest') := DecodeRecord(fields, tag, wireType, rest, st).value;
      var end := DecodeRecords(fields, rest', st').value.st;
      if i.Some? {
        EntryKeeps(fields, i.value, wireType, rest, st);
        SlotCountKept(fields, [i.value], st.msg, st'.msg);
        RecordsKeep(fields, rest', st');
        KeptTwice(fields, [i.value], EntriesOf(fields, rest', st'), st.msg, st'.msg, end.msg);
      } else {
        RecordsKeep(fields, rest', st');
        assert [] + EntriesOf(fields, rest', st') == EntriesOf(fields, rest', st');
      }
    } else {
      NothingChanged(fields, st.msg);
    }
  }

  lemma SlotCountKept(fields: seq<Field>, entries: seq<nat>, a: Message, b: Message)
    requires Kept(fields, entries, a, b)
    ensures |a.slots| == |b.slots| == |fields|
  {}

  lemma NothingChanged(fields: seq<Field>, m: Message)
    requires |m.slots| == |fields|
    ensures Kept(fields, [], m, m)
  {}

  /** Decoding into an existing message changes only fields and unions that have a record in the input. */
  lemma MergingKeepsTheRest(fields: seq<Field>, s: seq<byte>, m: Message, merged: Message, rest: seq<byte>)
    requires |m.slots| == |fields| && DecodeNoInit(fields, s, m) == Some((merged, rest))
    ensures Kept(fields, EntriesOf(fields, s, Start(m)), m, merged)
  {
    hide DecodeRecords, EntriesOf;
    RecordsKeep(fields, s, Start(m));
  }

  // ---------- submessages ----------

  /** A record of a required or optional submessage changes only what has a record in its payload. */
  lemma SubmessageKeepsTheRest(f: Field, s: seq<byte>, prev: Value)
    requires f.ltype.LSubmessage? && (f.htype.HRequired? || f.htype.HOptional?)
    requires prev.Sub? && |prev.m.slots| == |f.ltype.fields| && DecodeValue(f, s, prev).Some?
    ensures TakeString(s).Some?
    ensures var sub, payload := f.ltype.fields, TakeString(s).value.0;
            var v := DecodeValue(f, s, prev).value.0;
            v.Sub? && Kept(sub, EntriesOf(sub, payload, Start(prev.m)), prev.m, v.m)
  {
    hide DecodeNoInit, EntriesOf;
    var payload := TakeString(s).value.0;
    var (merged, rest) := DecodeNoInit(f.ltype.fields, payload, prev.m).value;
    MergingKeepsTheRest(f.ltype.fields, payload, prev.m, merged, rest);
  }

  /** A record of a submessage in a union: what has no record in its payload becomes the default. What the union
      held in its place before survives exactly when it was the default already. */
  lemma UnionSubmessageStartsAfresh(fields: seq<Field>, i: nat, wireType: nat, s: seq<byte>, st: State)
    requires i < |fields| && fields[i].htype.HOneof? && fields[i].ltype.LSubmessage?
    requires DecodeEntry(fields, i, wireType, s, st).Some?
    ensures TakeString(s).Some?
    ensures var sub, g, payload := fields[i].ltype.fields, fields[i].htype.group, TakeString(s).value.0;
            var entries := EntriesOf(sub, payload, Start(Defaults(sub)));
            var unions := DecodeEntry(fields, i, wireType, s, st).value.0.msg.unions;
            && Current(fields[i], unions) && unions[g].v.Sub?
            && Kept(sub, entries, Defaults(sub), unions[g].v.m)
            && (Current(fields[i], st.msg.unions) && st.msg.unions[g].v.Sub? ==>
                  var held := st.msg.unions[g].v.m;
                  Kept(sub, entries, held, unions[g].v.m) <==> Kept(sub, entries, held, Defaults(sub)))
  {
    hide DecodeNoInit, EntriesOf, DecodeSlot, Defaults;
    var sub, payload := fields[i].ltype.fields, TakeString(s).value.0;
    DefaultSlotCount(sub);
    var (member, rest) := DecodeNoInit(sub, payload, Defaults(sub)).value;
    MergingKeepsTheRest(sub, payload, Defaults(sub), member, rest);
  }

  lemma DefaultSlotCount(fields: seq<Field>)
    ensures |Defaults(fields).slots| == |fields|
  {}

  // ---------- the union's exception at an input ----------

  function Number(tag: nat): Field {
    Field(tag, LUVarint, HOptional, AStatic, 0, 0, 4, 1, None)
  }

  /** struct { uint32_t a; uint32_t b; } without has_ flags */
  function Pair(): seq<Field> { [Number(1), Number(2)] }

  /** A union whose only member is such a struct. */
  function Choice(): seq<Field> {
    [Field(1, LSubmessage(Pair()), HOneof(0), AStatic, 0, 0, 8, 1, None)]
  }

  function Chosen(a: int, b: int): Message {
    Message([Member], map[0 := Union(1, Sub(Message([Single(Int(a)), Single(Int(b))], map[])))])
  }

  lemma PairOk()
    ensures FieldsOk(Pair())
    ensures MessageOk(Stored, Pair(), Message([Single(Int(5)), Single(Int(7))], map[]))
  {
    assert FieldOk(Number(1)) && FieldOk(Number(2));
    assert SlotOk(Stored, Number(1), Single(Int(5))) && SlotOk(Stored, Number(2), Single(Int(7)));
  }

  lemma ChoiceOk()
    ensures FieldsOk(Choice())
  {
    hide Pair;
    PairOk();
    assert FieldOk(Choice()[0]);
  }

  lemma ChosenOk()
    ensures MessageOk(Stored, Choice(), Chosen(5, 7))
  {
    hide Pair;
    PairOk();
    assert Choice()[0].htype == HOneof(0) && Choice()[0].tag == 1;
    assert WhichOk(Choice(), 0, 1);
    assert ValueOk(Stored, Choice()[0], Chosen(5, 7).unions[0].v);
  }

  /** The payload sets a to 9 and does not mention b. */
  lemma PairDecodes()
    ensures DecodeNoInit(Pair(), [8, 9], Defaults(Pair()))
         == Some((Message([Single(Int(9)), Single(Int(0))], map[]), []))
  {
    var m := Message([Single(Int(0)), Single(Int(0))], map[]);
    assert Defaults(Pair()).slots == m.slots;
    var st := State(m.(slots := [Single(Int(9)), Single(Int(0))]), {0}, None);
    assert [8, 9][1..] == [9] && [9][1..] == [];
    assert DecodeScalar(Number(1), [9]) == Some((Int(9), [])) by { assert Varint64([9]) == Some((9, [])); }
    assert m.slots[0 := Single(Int(9))] == st.msg.slots && {} + {0} == {0};
    assert DecodeEntry(Pair(), 0, 0, [9], Start(m)) == Some((st, []));
    assert FindField(Pair(), 1) == Some(0);
    assert DecodeRecord(Pair(), 1, 0, [9], Start(m)) == Some((st, []));
    assert DecodeRecords(Pair(), [], st) == Some(Run(st, [], false));
  }

  /** b was 7, has no record in the input, and is 0 afterwards. */
  lemma UnionMemberForgets()
    ensures FieldsOk(Choice()) && MessageOk(Stored, Choice(), Chosen(5, 7))
    ensures DecodeNoInit(Choice(), [10, 2, 8, 9], Chosen(5, 7)) == Some((Chosen(9, 0), []))
  {
    hide FieldsOk, MessageOk, DecodeNoInit;
    ChoiceOk();
    ChosenOk();
    PairDecodes();
    var s, m := [10, 2, 8, 9], Chosen(5, 7);
    ChoiceRecord();
    var st := State(Chosen(9, 0), {0}, None);
    OneRecordOnly(Choice(), s, m, st);
  }

  lemma ChoiceRecord()
    requires DecodeNoInit(Pair(), [8, 9], Defaults(Pair())).Some?
    ensures var m := DecodeNoInit(Pair(), [8, 9], Defaults(Pair())).value.0;
            DecodeRecords(Choice(), [10, 2, 8, 9], Start(Chosen(5, 7)))
            == Some(Run(State(Message([Member], map[0 := Union(1, Sub(m))]), {0}, None), [], false))
  {
    hide DecodeNoInit, Defaults;
    var m := DecodeNoInit(Pair(), [8, 9], Defaults(Pair())).value.0;
    var f := Choice()[0];
    assert [10, 2, 8, 9][1..] == [2, 8, 9] && [2, 8, 9][1..] == [8, 9];
    assert [8, 9][..2] == [8, 9] && [8, 9][2..] == [];
    assert TakeString([2, 8, 9]) == Some(([8, 9], []));
    assert DecodeValue(f, [2, 8, 9], Int(0)) == Some((Sub(m), []));
    assert FindField(Choice(), 1) == Some(0);
    var st := State(Message([Member], map[0 := Union(1, Sub(m))]), {0}, None);
    assert Chosen(5, 7).unions[0 := Union(1, Sub(m))] == st.msg.unions;
    assert {} + {0} == {0};
    assert DecodeEntry(Choice(), 0, 2, [2, 8, 9], Start(Chosen(5, 7))) == Some((st, []));
    assert DecodeRecord(Choice(), 1, 2, [2, 8, 9], Start(Chosen(5, 7))) == Some((st, []));
    assert DecodeRecords(Choice(), [], st) == Some(Run(st, [], false));
  }

  lemma OneRecordOnly(fields: seq<Field>, s: seq<byte>, m: Message, st: State)
    requires DecodeRecords(fields, s, Start(m)) == Some(Run(st, [], false))
    requires st.fixedField == None && forall i | 0 <= i < |fields| :: !fields[i].htype.HRequired?
    ensures DecodeNoInit(fields, s, m) == Some((st.msg, []))
  {
    hide DecodeRecords;
  }
}
