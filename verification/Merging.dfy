/**
 What the order and grouping of records mean: unknown records vanish, records of different fields
 commute, and decoding a concatenation is merging one part into the result of the other.
 */
module Merging {
  import opened Bytes
  import opened Schema
  import opened Decoding
  import opened Locality

  /** The array being filled is an array without counter. */
  ghost predicate FixedFieldOk(fields: seq<Field>, st: State) {
    st.fixedField.Some? ==> st.fixedField.value < |fields| && FixedCount(fields[st.fixedField.value])
  }

  lemma EntryKeepsFixedFieldOk(fields: seq<Field>, i: nat, wireType: nat, s: seq<byte>, st: State)
    requires i < |fields| && FixedFieldOk(fields, st) && DecodeEntry(fields, i, wireType, s, st).Some?
    ensures FixedFieldOk(fields, DecodeEntry(fields, i, wireType, s, st).value.0)
  {
    hide DecodeSlot, DecodeValue;
  }

  lemma {:induction false} RecordsKeepFixedFieldOk(fields: seq<Field>, s: seq<byte>, st: State)
    requires FixedFieldOk(fields, st) && DecodeRecords(fields, s, st).Some?
    ensures FixedFieldOk(fields, DecodeRecords(fields, s, st).value.st)
    decreases |s|
  {
    hide DecodeEntry, Skip;
    if s != [] && DecodeTag(s).Tag? {
      var Tag(tag, wireType, rest) := DecodeTag(s);
      if FindField(fields, tag).Some? {
        EntryKeepsFixedFieldOk(fields, FindField(fields, tag).value, wireType, rest, st);
      }
      var (st', rest') := DecodeRecord(fields, tag, wireType, rest, st).value;
      RecordsKeepFixedFieldOk(fields, rest', st');
    }
  }

  // ---------- unknown records ----------

  /** A complete record of a tag the descriptor does not have, with a wire type that can be skipped. */
  ghost predicate UnknownRecord(fields: seq<Field>, u: seq<byte>) {
    var t := DecodeTag(u);
    t.Tag? && t.number != 0 && FindField(fields, t.number) == None && Skip(t.wireType, t.rest) == Some([])
  }

  lemma UnknownRecordSkipped(fields: seq<Field>, u: seq<byte>, y: seq<byte>, st: State)
    requires UnknownRecord(fields, u)
    ensures DecodeRecords(fields, u + y, st) == DecodeRecords(fields, y, st)
  {
    var t := DecodeTag(u);
    assert WholeRecords(fields, u, st) by {
      assert DecodeRecord(fields, t.number, t.wireType, t.rest, st) == Some((st, []));
    }
    RecordsCompose(fields, u, y, st);
  }

  /** Inserting an unknown record between any two records changes nothing, even inside an unpacked
      array without counter. */
  lemma UnknownRecordTransparent(fields: seq<Field>, x: seq<byte>, u: seq<byte>, y: seq<byte>, m: Message)
    requires WholeRecords(fields, x, Start(m)) && UnknownRecord(fields, u)
    ensures DecodeNoInit(fields, x + u + y, m) == DecodeNoInit(fields, x + y, m)
  {
    hide DecodeRecords;
    var st := DecodeRecords(fields, x, Start(m)).value.st;
    assert x + u + y == x + (u + y);
    RecordsCompose(fields, x, u + y, Start(m));
    RecordsCompose(fields, x, y, Start(m));
    UnknownRecordSkipped(fields, u, y, st);
  }

  // ---------- the order of records ----------

  /** One complete record of entry i that decodes from st. */
  ghost predicate OneRecord(fields: seq<Field>, r: seq<byte>, i: nat, st: State) {
    && i < |fields|
    && DecodeTag(r).Tag? && FindField(fields, DecodeTag(r).number) == Some(i)
    && DecodeEntry(fields, i, DecodeTag(r).wireType, DecodeTag(r).rest, st).Some?
    && DecodeEntry(fields, i, DecodeTag(r).wireType, DecodeTag(r).rest, st).value.1 == []
  }

  function After(fields: seq<Field>, r: seq<byte>, i: nat, st: State): State
    requires OneRecord(fields, r, i, st)
  {
    DecodeEntry(fields, i, DecodeTag(r).wireType, DecodeTag(r).rest, st).value.0
  }

  lemma OneRecordStep(fields: seq<Field>, r: seq<byte>, i: nat, y: seq<byte>, st: State)
    requires OneRecord(fields, r, i, st)
    ensures DecodeRecords(fields, r + y, st) == DecodeRecords(fields, y, After(fields, r, i, st))
  {
    hide DecodeEntry;
    var t := DecodeTag(r);
    assert DecodeRecord(fields, t.number, t.wireType, t.rest, st) == Some((After(fields, r, i, st), []));
    assert DecodeRecords(fields, [], After(fields, r, i, st)).value.rest == [];
    assert WholeRecords(fields, r, st);
    RecordsCompose(fields, r, y, st);
  }

  /** Fields that share no storage and no counter. */
  ghost predicate Independent(fields: seq<Field>, i: nat, j: nat)
    requires i < |fields| && j < |fields|
  {
    && i != j
    && !(fields[i].htype.HOneof? && fields[i].htype == fields[j].htype)
    && !(FixedCount(fields[i]) && FixedCount(fields[j]))
  }

  lemma EntriesCommute(fields: seq<Field>, i: nat, w1: nat, p1: seq<byte>, j: nat, w2: nat, p2: seq<byte>, st: State)
    requires i < |fields| && j < |fields| && Independent(fields, i, j) && FixedFieldOk(fields, st)
    requires DecodeEntry(fields, i, w1, p1, st).Some?
    requires DecodeEntry(fields, j, w2, p2, DecodeEntry(fields, i, w1, p1, st).value.0).Some?
    ensures var (st1, rest1) := DecodeEntry(fields, i, w1, p1, st).value;
            var (st2, rest2) := DecodeEntry(fields, j, w2, p2, st1).value;
            && DecodeEntry(fields, j, w2, p2, st).Some?
            && DecodeEntry(fields, j, w2, p2, st).value.1 == rest2
            && DecodeEntry(fields, i, w1, p1, DecodeEntry(fields, j, w2, p2, st).value.0) == Some((st2, rest1))
  {
    hide DecodeSlot, DecodeValue, FixedComplete;
    var f, g := fields[i], fields[j];
    var st1 := DecodeEntry(fields, i, w1, p1, st).value.0;
    var st2 := DecodeEntry(fields, j, w2, p2, st1).value.0;
    if !f.htype.HOneof? && FixedCount(g) { CompleteUnaffected(fields, i, st, st1); }
    if f.htype.HOneof? && FixedCount(g) { CompleteUnaffectedByUnions(fields, st, st1); }
    var st3 := DecodeEntry(fields, j, w2, p2, st).value.0;
    if !g.htype.HOneof? && FixedCount(f) { CompleteUnaffected(fields, j, st, st3); }
    if g.htype.HOneof? && FixedCount(f) { CompleteUnaffectedByUnions(fields, st, st3); }
    assert {i} + {j} == {j} + {i};
    var st4 := DecodeEntry(fields, i, w1, p1, st3).value.0;
    assert st4.seen == st2.seen;
    assert st4.msg.slots == st2.msg.slots;
    assert st4.msg.unions == st2.msg.unions;
  }

  lemma CompleteUnaffected(fields: seq<Field>, i: nat, st: State, st1: State)
    requires i < |fields| == |st.msg.slots| == |st1.msg.slots| && FixedFieldOk(fields, st)
    requires !FixedCount(fields[i]) && st1.fixedField == st.fixedField
    requires st1.msg.slots == st.msg.slots[i := st1.msg.slots[i]]
    ensures FixedComplete(fields, st1) == FixedComplete(fields, st)
  {}

  lemma CompleteUnaffectedByUnions(fields: seq<Field>, st: State, st1: State)
    requires st1.fixedField == st.fixedField && st1.msg.slots == st.msg.slots
    ensures FixedComplete(fields, st1) == FixedComplete(fields, st)
  {}

  /** x consists of whole records that take the decoder from m to st. */
  ghost predicate LeadsTo(fields: seq<Field>, x: seq<byte>, m: Message, st: State) {
    DecodeRecords(fields, x, Start(m)) == Some(Run(st, [], false))
  }

  /** Swapping two adjacent records of independent fields changes neither the message nor success. */
  lemma SwapRecords(fields: seq<Field>, x: seq<byte>, i: nat, r1: seq<byte>, j: nat, r2: seq<byte>, y: seq<byte>,
                    m: Message, st: State)
    requires LeadsTo(fields, x, m, st)
    requires OneRecord(fields, r1, i, st) && OneRecord(fields, r2, j, After(fields, r1, i, st))
    requires Independent(fields, i, j)
    ensures DecodeNoInit(fields, x + r1 + r2 + y, m) == DecodeNoInit(fields, x + r2 + r1 + y, m)
  {
    hide DecodeRecords, DecodeEntry, Independent;
    RecordsKeepFixedFieldOk(fields, x, Start(m));
    SwapFrom(fields, st, i, r1, j, r2, y);
    Regroup(x, r1, r2, y);
    Regroup(x, r2, r1, y);
    RecordsCompose(fields, x, r1 + (r2 + y), Start(m));
    RecordsCompose(fields, x, r2 + (r1 + y), Start(m));
  }

  lemma Regroup(a: seq<byte>, b: seq<byte>, c: seq<byte>, d: seq<byte>)
    ensures a + b + c + d == a + (b + (c + d))
  {}

  lemma SwapFrom(fields: seq<Field>, st: State, i: nat, r1: seq<byte>, j: nat, r2: seq<byte>, y: seq<byte>)
    requires FixedFieldOk(fields, st)
    requires OneRecord(fields, r1, i, st) && OneRecord(fields, r2, j, After(fields, r1, i, st))
    requires Independent(fields, i, j)
    ensures DecodeRecords(fields, r1 + (r2 + y), st) == DecodeRecords(fields, r2 + (r1 + y), st)
  {
    hide DecodeEntry, DecodeRecords, Independent;
    var t1, t2 := DecodeTag(r1), DecodeTag(r2);
    EntriesCommute(fields, i, t1.wireType, t1.rest, j, t2.wireType, t2.rest, st);
    var st1 := After(fields, r1, i, st);
    OneRecordStep(fields, r1, i, r2 + y, st);
    OneRecordStep(fields, r2, j, y, st1);
    var st3 := After(fields, r2, j, st);
    OneRecordStep(fields, r2, j, r1 + y, st);
    OneRecordStep(fields, r1, i, y, st3);
  }
}
