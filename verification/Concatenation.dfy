/**
 Decoding x ++ y against decoding y into the result of x: the two agree exactly unless y resumes
 the array without counter that x ended with.
 */
module Concatenation {
  import opened Bytes
  import opened Schema
  import opened Encoding
  import opened Decoding
  import opened Locality
  import opened Merging

  /** The entry of the first record of s that belongs to an array without counter. */
  function FirstFixed(fields: seq<Field>, s: seq<byte>, st: State): Option<nat>
    decreases |s|
  {
    if s == [] then None
    else match DecodeTag(s)
      case TagError => None
      case Terminator(_) => None
      case Tag(tag, wireType, rest) =>
        var i := FindField(fields, tag);
        if i.Some? && FixedCount(fields[i.value]) then i
        else match DecodeRecord(fields, tag, wireType, rest, st)
          case None => None
          case Some((st', rest')) => FirstFixed(fields, rest', st')
  }

  // ---------- which entries occurred does not influence decoding ----------

  function WithSeen(st: State, more: set<nat>): State { st.(seen := st.seen + more) }

  lemma EntryIgnoresSeen(fields: seq<Field>, i: nat, wireType: nat, s: seq<byte>, st: State, more: set<nat>)
    requires i < |fields|
    ensures DecodeEntry(fields, i, wireType, s, WithSeen(st, more))
         == match DecodeEntry(fields, i, wireType, s, st)
            case None => None
            case Some((st', rest)) => Some((WithSeen(st', more), rest))
  {
    hide DecodeSlot, DecodeValue;
    assert st.seen + more + {i} == st.seen + {i} + more;
  }

  lemma {:induction false} RecordsIgnoreSeen(fields: seq<Field>, s: seq<byte>, st: State, more: set<nat>)
    ensures DecodeRecords(fields, s, WithSeen(st, more))
         == match DecodeRecords(fields, s, st)
            case None => None
            case Some(run) => Some(run.(st := WithSeen(run.st, more)))
    decreases |s|
  {
    hide DecodeEntry, Skip;
    if s != [] && DecodeTag(s).Tag? {
      var Tag(tag, wireType, rest) := DecodeTag(s);
      var i := FindField(fields, tag);
      if i.Some? { EntryIgnoresSeen(fields, i.value, wireType, rest, st, more); }
      var r := DecodeRecord(fields, tag, wireType, rest, st);
      assert DecodeRecord(fields, tag, wireType, rest, WithSeen(st, more))
          == match r case None => None case Some((st', rest')) => Some((WithSeen(st', more), rest'));
      if r.Some? { RecordsIgnoreSeen(fields, r.value.1, r.value.0, more); }
    }
  }

  // ---------- y does not resume the array ----------

  /** st, as it is after other records filled entry k. */
  function Filled(st: State, k: nat): State { st.(fixedField := Some(k)) }

  ghost predicate FilledOk(fields: seq<Field>, st: State, k: nat) {
    && k < |fields| && FixedCount(fields[k])
    && st.fixedField == None && FixedComplete(fields, Filled(st, k))
  }

  lemma EntryAfterFilled(fields: seq<Field>, i: nat, wireType: nat, s: seq<byte>, st: State, k: nat)
    requires i < |fields| && FilledOk(fields, st, k)
    requires FixedCount(fields[i]) ==> i != k || fields[k].arraySize == 0
    ensures FixedCount(fields[i]) ==>
      DecodeEntry(fields, i, wireType, s, Filled(st, k)) == DecodeEntry(fields, i, wireType, s, st)
    ensures !FixedCount(fields[i]) ==>
      DecodeEntry(fields, i, wireType, s, Filled(st, k))
      == match DecodeEntry(fields, i, wireType, s, st)
         case None => None
         case Some((st', rest)) => Some((Filled(st', k), rest))
    ensures !FixedCount(fields[i]) && DecodeEntry(fields, i, wireType, s, st).Some? ==>
      FilledOk(fields, DecodeEntry(fields, i, wireType, s, st).value.0, k)
  {
    hide DecodeSlot, DecodeValue;
  }

  lemma {:induction false} RecordsAfterFilled(fields: seq<Field>, s: seq<byte>, st: State, k: nat)
    requires FilledOk(fields, st, k)
    requires FirstFixed(fields, s, st) != Some(k) || fields[k].arraySize == 0
    ensures var r, filled := DecodeRecords(fields, s, st), DecodeRecords(fields, s, Filled(st, k));
            if r.None? then filled.None?
            else
              && filled.Some?
              && filled.value
                 == r.value.(st := if r.value.st.fixedField == None then Filled(r.value.st, k) else r.value.st)
              && FixedComplete(fields, filled.value.st) == FixedComplete(fields, r.value.st)
    decreases |s|
  {
    hide DecodeEntry, Skip;
    if s != [] && DecodeTag(s).Tag? {
      var Tag(tag, wireType, rest) := DecodeTag(s);
      var i := FindField(fields, tag);
      var r := DecodeRecord(fields, tag, wireType, rest, st);
      if i.Some? {
        EntryAfterFilled(fields, i.value, wireType, rest, st, k);
        if FixedCount(fields[i.value]) {
          if r.Some? {
            EntrySetsFixed(fields, i.value, wireType, rest, st);
            if DecodeRecords(fields, r.value.1, r.value.0).Some? { FixedStaysSet(fields, r.value.1, r.value.0); }
          }
        } else if r.Some? {
          RecordsAfterFilled(fields, r.value.1, r.value.0, k);
        }
      } else if r.Some? {
        assert DecodeRecord(fields, tag, wireType, rest, Filled(st, k)) == Some((Filled(st, k), r.value.1));
        RecordsAfterFilled(fields, r.value.1, st, k);
      }
    }
  }

  lemma EntrySetsFixed(fields: seq<Field>, i: nat, wireType: nat, s: seq<byte>, st: State)
    requires i < |fields| && DecodeEntry(fields, i, wireType, s, st).Some?
    ensures FixedCount(fields[i]) || st.fixedField.Some? ==>
      DecodeEntry(fields, i, wireType, s, st).value.0.fixedField.Some?
  {
    hide DecodeSlot, DecodeValue;
  }

  lemma {:induction false} FixedStaysSet(fields: seq<Field>, s: seq<byte>, st: State)
    requires st.fixedField.Some? && DecodeRecords(fields, s, st).Some?
    ensures DecodeRecords(fields, s, st).value.st.fixedField.Some?
    decreases |s|
  {
    hide DecodeEntry, Skip;
    if s != [] && DecodeTag(s).Tag? {
      var Tag(tag, wireType, rest) := DecodeTag(s);
      var i := FindField(fields, tag);
      if i.Some? { EntrySetsFixed(fields, i.value, wireType, rest, st); }
      var r := DecodeRecord(fields, tag, wireType, rest, st).value;
      FixedStaysSet(fields, r.1, r.0);
    }
  }

  // ---------- y resumes the array ----------

  /** st with entry k's array full instead of empty. */
  function Full(st: State, k: nat, items: seq<Value>): State
    requires k < |st.msg.slots|
  {
    st.(msg := st.msg.(slots := st.msg.slots[k := Rep(items)]), fixedField := Some(k))
  }

  ghost predicate Restarted(fields: seq<Field>, st: State, k: nat, items: seq<Value>) {
    && k < |fields| == |st.msg.slots| && FixedCount(fields[k]) && |items| == fields[k].arraySize > 0
    && st.fixedField == Some(k) && st.msg.slots[k] == Rep([])
  }

  /** What fills an empty array by at least one element overflows a full one. */
  lemma SlotFullOrEmpty(f: Field, wireType: nat, s: seq<byte>, items: seq<Value>)
    requires |items| >= f.arraySize > 0 && f.htype.HRepeated?
    requires DecodeSlot(f, wireType, s, Rep([])).Some?
    ensures var (slot, rest) := DecodeSlot(f, wireType, s, Rep([])).value;
            if slot == Rep([]) then DecodeSlot(f, wireType, s, Rep(items)) == Some((Rep(items), rest))
            else DecodeSlot(f, wireType, s, Rep(items)) == None
  {
    hide DecodeScalar, DecodeValue;
    if wireType == WT_STRING && Packable(f) {
      var (payload, rest) := TakeString(s).value;
      if payload != [] {
        var (v, rest') := DecodeScalar(f, payload).value;
        PackedGrows(f, rest', [] + [v]);
      }
    }
  }

  lemma {:induction false} PackedGrows(f: Field, s: seq<byte>, items: seq<Value>)
    requires DecodePacked(f, s, items).Some?
    ensures |items| <= |DecodePacked(f, s, items).value|
    decreases |s|
  {
    if s != [] {
      var (v, rest) := DecodeScalar(f, s).value;
      PackedGrows(f, rest, items + [v]);
    }
  }

  lemma EntryAfterRestart(fields: seq<Field>, i: nat, wireType: nat, s: seq<byte>, st: State, k: nat, items: seq<Value>)
    requires i < |fields| && Restarted(fields, st, k, items)
    requires DecodeEntry(fields, i, wireType, s, st).Some?
    ensures var (st', rest) := DecodeEntry(fields, i, wireType, s, st).value;
            if i != k || st'.msg.slots[k] == Rep([]) then
              && Restarted(fields, st', k, items)
              && DecodeEntry(fields, i, wireType, s, Full(st, k, items)) == Some((Full(st', k, items), rest))
            else
              DecodeEntry(fields, i, wireType, s, Full(st, k, items)) == None
  {
    hide DecodeSlot, DecodeValue;
    if i == k {
      SlotFullOrEmpty(fields[k], wireType, s, items);
    }
    var st' := DecodeEntry(fields, i, wireType, s, st).value.0;
    if i == k && st'.msg.slots[k] == Rep([]) {
      assert Full(st, k, items).msg.slots[k := Rep(items)] == Full(st', k, items).msg.slots;
    } else if i != k && !fields[i].htype.HOneof? {
      var slot := st'.msg.slots[i];
      assert st.msg.slots[k := Rep(items)][i := slot] == st.msg.slots[i := slot][k := Rep(items)];
    }
  }

  lemma {:induction false} RecordsAfterRestart(fields: seq<Field>, s: seq<byte>, st: State, k: nat, items: seq<Value>)
    requires Restarted(fields, st, k, items)
    requires DecodeRecords(fields, s, st).Some? && FixedComplete(fields, DecodeRecords(fields, s, st).value.st)
    ensures DecodeRecords(fields, s, Full(st, k, items)) == None
    decreases |s|
  {
    hide DecodeEntry, Skip;
    var Tag(tag, wireType, rest) := DecodeTag(s);
    var i := FindField(fields, tag);
    var (st', rest') := DecodeRecord(fields, tag, wireType, rest, st).value;
    if i.Some? {
      EntryKeepsSlotCount(fields, i.value, wireType, rest, st);
      EntryAfterRestart(fields, i.value, wireType, rest, st, k, items);
      if i.value != k || st'.msg.slots[k] == Rep([]) {
        RecordsAfterRestart(fields, rest', st', k, items);
      }
    } else {
      RecordsAfterRestart(fields, rest', st', k, items);
    }
  }

  /** The first record of the array: from scratch in st, on a full array in Filled(st, k). */
  lemma FirstRecordOfArray(fields: seq<Field>, wireType: nat, s: seq<byte>, st: State, k: nat)
    requires FilledOk(fields, st, k) && fields[k].arraySize > 0 && |st.msg.slots| == |fields|
    requires DecodeEntry(fields, k, wireType, s, st).Some?
    ensures var (st', rest) := DecodeEntry(fields, k, wireType, s, st).value;
            var items := st.msg.slots[k].items;
            if st'.msg.slots[k] == Rep([]) then
              && Restarted(fields, st', k, items)
              && DecodeEntry(fields, k, wireType, s, Filled(st, k)) == Some((Full(st', k, items), rest))
            else
              DecodeEntry(fields, k, wireType, s, Filled(st, k)) == None
  {
    hide DecodeSlot, DecodeValue;
    var items := st.msg.slots[k].items;
    SlotFullOrEmpty(fields[k], wireType, s, items);
    var st' := DecodeEntry(fields, k, wireType, s, st).value.0;
    if st'.msg.slots[k] == Rep([]) {
      assert st.msg.slots[k := Rep(items)] == st'.msg.slots[k := Rep(items)];
    }
  }

  lemma {:induction false} RecordsCollide(fields: seq<Field>, s: seq<byte>, st: State, k: nat)
    requires FilledOk(fields, st, k) && fields[k].arraySize > 0 && |st.msg.slots| == |fields|
    requires FirstFixed(fields, s, st) == Some(k)
    requires DecodeRecords(fields, s, st).Some? && FixedComplete(fields, DecodeRecords(fields, s, st).value.st)
    ensures DecodeRecords(fields, s, Filled(st, k)) == None
    decreases |s|
  {
    hide DecodeEntry, Skip;
    var Tag(tag, wireType, rest) := DecodeTag(s);
    var i := FindField(fields, tag);
    var (st', rest') := DecodeRecord(fields, tag, wireType, rest, st).value;
    if i == Some(k) {
      EntryKeepsSlotCount(fields, k, wireType, rest, st);
      FirstRecordOfArray(fields, wireType, rest, st, k);
      if st'.msg.slots[k] == Rep([]) {
        RecordsAfterRestart(fields, rest', st', k, st.msg.slots[k].items);
      }
    } else {
      if i.Some? {
        EntryAfterFilled(fields, i.value, wireType, rest, st, k);
        EntryKeepsSlotCount(fields, i.value, wireType, rest, st);
      }
      RecordsCollide(fields, rest', st', k);
    }
  }

  lemma EntryKeepsSlotCount(fields: seq<Field>, i: nat, wireType: nat, s: seq<byte>, st: State)
    requires i < |fields| && DecodeEntry(fields, i, wireType, s, st).Some?
    ensures |DecodeEntry(fields, i, wireType, s, st).value.0.msg.slots| == |st.msg.slots| == |fields|
  {
    hide DecodeSlot, DecodeValue;
  }

  // ---------- the theorem ----------

  /** y starts filling, from its first element, the array that x ended with. */
  ghost predicate Resumes(fields: seq<Field>, x: seq<byte>, y: seq<byte>, m: Message)
    requires WholeRecords(fields, x, Start(m))
  {
    var st := DecodeRecords(fields, x, Start(m)).value.st;
    && st.fixedField.Some?
    && st.fixedField.value < |fields| && fields[st.fixedField.value].arraySize > 0
    && FirstFixed(fields, y, Start(st.msg)) == st.fixedField
  }

  /** The records of s decode into m, and the array without counter decoded last is complete. */
  ghost predicate RunsTo(fields: seq<Field>, s: seq<byte>, m: Message, run: Run) {
    DecodeRecords(fields, s, Start(m)) == Some(run) && FixedComplete(fields, run.st)
  }

  /** If the records of x and then those of y decode one after the other, with complete arrays, x ++ y is rejected
      when y resumes the array without counter that x ended with; else it is accepted exactly when x and y together
      have the required fields, and decodes to the same message, leaving the same bytes unread. */
  lemma RecordsConcatenate(fields: seq<Field>, x: seq<byte>, y: seq<byte>, m: Message, first: Run, second: Run)
    requires |m.slots| == |fields| && first.rest == [] && !first.terminated
    requires RunsTo(fields, x, m, first) && RunsTo(fields, y, first.st.msg, second)
    ensures DecodeNoInit(fields, x + y, m)
         == if Resumes(fields, x, y, m) || !RequiredSeen(fields, first.st.seen + second.st.seen) then None
            else Some((second.st.msg, second.rest))
  {
    hide DecodeEntry, DecodeRecord;
    var st := first.st;
    RecordsCompose(fields, x, y, Start(m));
    RecordsKeepFixedFieldOk(fields, x, Start(m));
    RecordsKeepSlotCount(fields, x, Start(m));
    var start := Start(st.msg);
    var st0 := st.(seen := {});
    assert WithSeen(st0, st.seen) == st;
    RecordsIgnoreSeen(fields, y, st0, st.seen);
    assert second.st.seen + st.seen == st.seen + second.st.seen;
    if st.fixedField.Some? {
      var k := st.fixedField.value;
      assert Filled(start, k) == st0;
      if Resumes(fields, x, y, m) {
        RecordsCollide(fields, y, start, k);
      } else {
        RecordsAfterFilled(fields, y, start, k);
      }
    }
  }

  /** If x and then y decode one after the other, x ++ y decodes to the same message and leaves the same
      bytes unread, exactly when y does not resume the array without counter that x ended with. */
  lemma ConcatenationIsMerging(fields: seq<Field>, x: seq<byte>, y: seq<byte>,
                               m: Message, m1: Message, m2: Message, rest: seq<byte>)
    requires |m.slots| == |fields|
    requires WholeRecords(fields, x, Start(m))
    requires DecodeNoInit(fields, x, m) == Some((m1, []))
    requires DecodeNoInit(fields, y, m1) == Some((m2, rest))
    ensures DecodeNoInit(fields, x + y, m) == if Resumes(fields, x, y, m) then None else Some((m2, rest))
  {
    hide DecodeRecords, FixedComplete;
    var first := DecodeRecords(fields, x, Start(m)).value;
    RecordsConcatenate(fields, x, y, m, first, DecodeRecords(fields, y, Start(first.st.msg)).value);
  }

  // ---------- an array that is resumed ----------

  /** An array of one byte-sized number, without counter. */
  function OneNumber(): Field {
    Field(1, LUVarint, HRepeated, AStatic, 0, 0, 1, 1, None)
  }

  function Numbers(items: seq<Value>): Message { Message([Rep(items)], map[]) }

  lemma OneNumberDecodes(items: seq<Value>)
    ensures DecodeRecords([OneNumber()], [8, 5], Start(Numbers(items)))
         == Some(Run(State(Numbers([Int(5)]), {0}, Some(0)), [], false))
  {
    var f, st := OneNumber(), State(Numbers([Int(5)]), {0}, Some(0));
    assert [8, 5][1..] == [5] && [5][1..] == [];
    assert DecodeScalar(f, [5]) == Some((Int(5), []));
    assert [] + [Int(5)] == [Int(5)];
    assert DecodeSlot(f, 0, [5], Rep([])) == Some((Rep([Int(5)]), []));
    assert Numbers(items).slots[0 := Rep([Int(5)])] == st.msg.slots && {} + {0} == {0};
    assert DecodeEntry([f], 0, 0, [5], Start(Numbers(items))) == Some((st, []));
    assert FindField([f], 1) == Some(0);
    assert DecodeRecord([f], 1, 0, [5], Start(Numbers(items))) == Some((st, []));
    assert DecodeRecords([f], [], st) == Some(Run(st, [], false));
  }

  /** Two byte strings that decode one after the other, while their concatenation is rejected. */
  lemma ResumedArrayIsRejected()
    ensures var fields, x := [OneNumber()], [8, 5];
            && FieldsOk(fields)
            && WholeRecords(fields, x, Start(Numbers([])))
            && DecodeNoInit(fields, x, Numbers([])) == Some((Numbers([Int(5)]), []))
            && DecodeNoInit(fields, x, Numbers([Int(5)])) == Some((Numbers([Int(5)]), []))
            && Resumes(fields, x, x, Numbers([]))
            && DecodeNoInit(fields, x + x, Numbers([])) == None
  {
    hide DecodeRecords;
    var fields, x := [OneNumber()], [8, 5];
    assert FieldOk(OneNumber());
    OneNumberDecodes([]);
    OneNumberDecodes([Int(5)]);
    assert FirstFixed(fields, x, Start(Numbers([Int(5)]))) == Some(0) by {
      assert DecodeTag(x) == Tag(1, 0, [5]);
      assert FindField(fields, 1) == Some(0);
    }
    ConcatenationIsMerging(fields, x, x, Numbers([]), Numbers([Int(5)]), Numbers([Int(5)]), []);
  }

  lemma {:induction false} RecordsKeepSlotCount(fields: seq<Field>, s: seq<byte>, st: State)
    requires |st.msg.slots| == |fields| && DecodeRecords(fields, s, st).Some?
    ensures |DecodeRecords(fields, s, st).value.st.msg.slots| == |fields|
    decreases |s|
  {
    hide DecodeEntry, Skip;
    if s != [] && DecodeTag(s).Tag? {
      var Tag(tag, wireType, rest) := DecodeTag(s);
      var i := FindField(fields, tag);
      if i.Some? { EntryKeepsSlotCount(fields, i.value, wireType, rest, st); }
      var r := DecodeRecord(fields, tag, wireType, rest, st).value;
      RecordsKeepSlotCount(fields, r.1, r.0);
    }
  }
}
