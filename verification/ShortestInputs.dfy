/**
 The shortest input a message accepts, and which messages accept any input at all: a required
 submessage whose own required fields take 2^32 bytes or more can never be received.
 */
module ShortestInputs {
  import opened Bytes
  import opened Integers
  import opened Varint
  import opened Schema
  import opened Encoding
  import opened Decoding
  import opened Locality
  import opened Sameness
  import opened Reception
  import opened RequiredFields

  /** Entry i is one of the first 64 required fields. */
  predicate Tracked(fields: seq<Field>, i: nat)
    requires i < |fields|
  {
    fields[i].htype.HRequired? && RequiredBefore(fields, i) < 64
  }

  /** `body` is the value of a record that decodes into a fresh message. */
  predicate BodyOk(f: Field, body: seq<byte>) {
    var r := DecodeValue(f, body, DefaultValue(f));
    r.Some? && r.value.1 == []
  }

  // ---------- inputs with the tracked fields only ----------

  /** One record for each of the first 64 required fields among the first n entries. */
  function TrackedRecords(fields: seq<Field>, bodies: seq<seq<byte>>, n: nat): seq<byte>
    requires n <= |fields| == |bodies|
  {
    if n == 0 then []
    else TrackedRecords(fields, bodies, n - 1) +
         (if Tracked(fields, n - 1)
          then EncTag(WireType(fields[n - 1]), fields[n - 1].tag) + bodies[n - 1] else [])
  }

  /** The decoder after these records. */
  ghost predicate TrackedSeen(fields: seq<Field>, n: nat, st: State) {
    && st.fixedField == None && |st.msg.slots| == |fields|
    && (forall j | n <= j < |fields| :: st.msg.slots[j] == DefaultSlot(fields[j]))
    && (forall j | 0 <= j < |fields| :: j in st.seen <==> j < n && Tracked(fields, j))
  }

  lemma {:induction false} TrackedReceived(fields: seq<Field>, bodies: seq<seq<byte>>, n: nat) returns (st: State)
    requires n <= |fields| == |bodies| && FieldsOk(fields)
    requires forall i | 0 <= i < |fields| && Tracked(fields, i) :: BodyOk(fields[i], bodies[i])
    ensures DecodeRecords(fields, TrackedRecords(fields, bodies, n), Start(Defaults(fields)))
         == Some(Run(st, [], false))
    ensures TrackedSeen(fields, n, st)
  {
    hide FieldOk, BodyOk, DecodeRecords, EncTag, Tracked, DefaultSlot, TrackedSeen;
    if n == 0 {
      st := Start(Defaults(fields));
      NothingReceivedYet(fields);
    } else {
      var before := TrackedReceived(fields, bodies, n - 1);
      var x := TrackedRecords(fields, bodies, n - 1);
      if Tracked(fields, n - 1) {
        var f := fields[n - 1];
        var r := EncTag(WireType(f), f.tag) + bodies[n - 1];
        st := OneMore(fields, n - 1, bodies[n - 1], before);
        RecordsCompose(fields, x, r, Start(Defaults(fields)));
      } else {
        st := before;
        assert x + [] == x;
        SkipEntry(fields, n, st);
      }
    }
  }

  lemma NothingReceivedYet(fields: seq<Field>)
    ensures DecodeRecords(fields, [], Start(Defaults(fields))) == Some(Run(Start(Defaults(fields)), [], false))
    ensures TrackedSeen(fields, 0, Start(Defaults(fields)))
  {}

  lemma SkipEntry(fields: seq<Field>, n: nat, st: State)
    requires 0 < n <= |fields| && TrackedSeen(fields, n - 1, st) && !Tracked(fields, n - 1)
    ensures TrackedSeen(fields, n, st)
  {}

  lemma OneMore(fields: seq<Field>, i: nat, body: seq<byte>, before: State) returns (st: State)
    requires i < |fields| && FieldsOk(fields) && Tracked(fields, i) && BodyOk(fields[i], body)
    requires TrackedSeen(fields, i, before)
    ensures DecodeRecords(fields, EncTag(WireType(fields[i]), fields[i].tag) + body, before) == Some(Run(st, [], false))
    ensures TrackedSeen(fields, i + 1, st)
  {
    hide FieldOk, FieldsOk, DecodeValue, EncTag, RequiredBefore;
    var f := fields[i];
    RecordReceived(fields, i, WireType(f), body, before);
    st := DecodeEntry(fields, i, WireType(f), body, before).value.0;
    assert DecodeRecords(fields, [], st) == Some(Run(st, [], false));
  }

  /** The records of the first 64 required fields are accepted, and no other field occurs. */
  lemma TrackedAccepted(fields: seq<Field>, bodies: seq<seq<byte>>)
    requires |bodies| == |fields| && FieldsOk(fields)
    requires forall i | 0 <= i < |fields| && Tracked(fields, i) :: BodyOk(fields[i], bodies[i])
    ensures var s := TrackedRecords(fields, bodies, |fields|);
            && Decode(fields, s).Some?
            && forall i | 0 <= i < |fields| ::
                 i in EntriesOf(fields, s, Start(Defaults(fields))) <==> Tracked(fields, i)
  {
    hide FieldsOk, BodyOk, DecodeRecords, EntriesOf, TrackedRecords, Defaults;
    var st := TrackedReceived(fields, bodies, |fields|);
    SeenIsEntries(fields, TrackedRecords(fields, bodies, |fields|), Start(Defaults(fields)));
  }

  // ---------- the shortest accepted input ----------

  /** The shortest body of a required field. */
  function LeastBody(f: Field): seq<byte>
    decreases f
  {
    match f.ltype
    case LFixed32 => [0, 0, 0, 0]
    case LFixed64 => [0, 0, 0, 0, 0, 0, 0, 0]
    case LSubmessage(fields) => EncString(LeastPayload(fields))
    case _ => [0]
  }

  function LeastBodies(fields: seq<Field>, n: nat): (bodies: seq<seq<byte>>)
    requires n <= |fields|
    ensures |bodies| == n && forall i | 0 <= i < n :: bodies[i] == LeastBody(fields[i])
    decreases fields, 0, n
  {
    if n == 0 then [] else LeastBodies(fields, n - 1) + [LeastBody(fields[n - 1])]
  }

  /** One shortest record for each of the first 64 required fields. */
  function LeastPayload(fields: seq<Field>): seq<byte>
    decreases fields, 1
  {
    TrackedRecords(fields, LeastBodies(fields, |fields|), |fields|)
  }

  /** The shortest body of the field has a length that a length prefix can express. */
  predicate Expressible(f: Field) {
    f.ltype.LSubmessage? ==> |LeastPayload(f.ltype.fields)| < U32
  }

  predicate Satisfiable(fields: seq<Field>) {
    forall i | 0 <= i < |fields| && Tracked(fields, i) :: Expressible(fields[i])
  }

  lemma {:induction false} PartOfPayload(fields: seq<Field>, bodies: seq<seq<byte>>, n: nat, i: nat)
    requires i < n <= |fields| == |bodies| && Tracked(fields, i)
    ensures |bodies[i]| <= |TrackedRecords(fields, bodies, n)|
    decreases n
  {
    hide Tracked, EncTag;
    if i < n - 1 { PartOfPayload(fields, bodies, n - 1, i); }
  }

  lemma {:induction false} LeastBodyOk(f: Field)
    requires FieldOk(f) && Expressible(f)
    ensures BodyOk(f, LeastBody(f))
    decreases f
  {
    match f.ltype
    case LSubmessage(fields) => LeastSubmessageOk(f, fields);
    case _ => LeastScalarOk(f);
  }

  lemma LeastScalarOk(f: Field)
    requires FieldOk(f) && !f.ltype.LSubmessage?
    ensures BodyOk(f, LeastBody(f))
  {
    hide Clamp, ClampUnsigned;
    assert [0][1..] == [];
    match f.ltype
    case LVarint | LUVarint | LSVarint => ZeroFits(f);
    case LFixed32 => assert [0, 0, 0, 0][4..] == [];
    case LFixed64 => assert [0, 0, 0, 0, 0, 0, 0, 0][8..] == [];
    case _ =>
  }

  lemma ZeroFits(f: Field)
    requires IntWidth(f.dataSize) && (f.ltype.LVarint? || f.ltype.LUVarint? || f.ltype.LSVarint?)
    ensures IntOf(f, 0) == Some(Int(0))
  {}

  lemma {:induction false} LeastSubmessageOk(f: Field, fields: seq<Field>)
    requires FieldOk(f) && f.ltype == LSubmessage(fields) && Expressible(f)
    ensures BodyOk(f, LeastBody(f))
    decreases f, 0
  {
    hide FieldsOk, DecodeNoInit, EncString, TakeString, Expressible, LeastPayload;
    var payload := LeastPayload(fields);
    PayloadExpressible(f, fields);
    LeastAccepted(fields);
    StringReceived(payload, []);
    assert EncString(payload) + [] == EncString(payload);
  }

  /** What fits a length prefix is made of parts that do. */
  lemma PayloadExpressible(f: Field, fields: seq<Field>)
    requires f.ltype == LSubmessage(fields) && Expressible(f)
    ensures |LeastPayload(fields)| < U32 && Satisfiable(fields)
  {
    hide Tracked, TrackedRecords;
    forall i | 0 <= i < |fields| && Tracked(fields, i) ensures Expressible(fields[i]) {
      PartOfPayload(fields, LeastBodies(fields, |fields|), |fields|, i);
    }
  }

  /** The records of LeastPayload are accepted, and no other field occurs. */
  lemma {:induction false} LeastAccepted(fields: seq<Field>)
    requires FieldsOk(fields) && Satisfiable(fields)
    ensures var s := LeastPayload(fields);
            && Decode(fields, s).Some?
            && forall i | 0 <= i < |fields| ::
                 i in EntriesOf(fields, s, Start(Defaults(fields))) <==> Tracked(fields, i)
    decreases fields
  {
    hide FieldOk, BodyOk, Expressible, Tracked, Decode, EntriesOf;
    forall i | 0 <= i < |fields| && Tracked(fields, i) ensures BodyOk(fields[i], LeastBody(fields[i])) {
      LeastBodyOk(fields[i]);
    }
    TrackedAccepted(fields, LeastBodies(fields, |fields|));
  }

  // ---------- no accepted input is shorter ----------

  function RecordSize(f: Field): nat {
    |EncTag(WireType(f), f.tag)| + |LeastBody(f)|
  }

  /** The least size of the records still missing among the first n entries. */
  function Missing(fields: seq<Field>, seen: set<nat>, n: nat): nat
    requires n <= |fields|
  {
    if n == 0 then 0
    else Missing(fields, seen, n - 1) +
         (if Tracked(fields, n - 1) && n - 1 !in seen then RecordSize(fields[n - 1]) else 0)
  }

  lemma {:induction false} MissingAtFirst(fields: seq<Field>, bodies: seq<seq<byte>>, n: nat)
    requires n <= |fields| == |bodies| && forall i | 0 <= i < |fields| :: bodies[i] == LeastBody(fields[i])
    ensures Missing(fields, {}, n) == |TrackedRecords(fields, bodies, n)|
    decreases n
  {
    hide Tracked, LeastBody, EncTag;
    if n > 0 { MissingAtFirst(fields, bodies, n - 1); }
  }

  lemma {:induction false} NothingMissing(fields: seq<Field>, seen: set<nat>, n: nat)
    requires n <= |fields| && RequiredSeen(fields, seen)
    ensures Missing(fields, seen, n) == 0
    decreases n
  {
    if n > 0 { NothingMissing(fields, seen, n - 1); }
  }

  lemma {:induction false} MissingLess(fields: seq<Field>, seen: set<nat>, j: nat, n: nat)
    requires n <= |fields|
    ensures Missing(fields, seen, n)
         <= Missing(fields, seen + {j}, n)
            + (if j < n && Tracked(fields, j) && j !in seen then RecordSize(fields[j]) else 0)
    decreases n
  {
    hide Tracked, RecordSize;
    if n > 0 { MissingLess(fields, seen, j, n - 1); }
  }

  lemma TagSize(tag: nat, v: nat, w: nat)
    requires v < 8 && w < 8
    ensures |EncTag(v, tag)| == |EncTag(w, tag)|
  {
    assert (8 * tag + v) / 128 == tag / 16 && (8 * tag + w) / 128 == tag / 16;
  }

  lemma TagAtLeast(s: seq<byte>, v: nat)
    requires DecodeTag(s).Tag? && v < 8
    ensures |EncTag(v, DecodeTag(s).number)| <= |s| - |DecodeTag(s).rest|
  {
    hide EncVarint, Varint32;
    Varint32Shortest(s);
    var t := Varint32(s).value.0;
    assert t == 8 * (t / 8) + t % 8;
    TagSize(t / 8, t % 8, v);
  }

  lemma BodyAtLeast(f: Field, s: seq<byte>)
    requires FieldOk(f) && DecodeValue(f, s, DefaultValue(f)).Some?
    ensures Expressible(f)
    ensures |LeastBody(f)| <= |s| - |DecodeValue(f, s, DefaultValue(f)).value.1|
    decreases |s|, 1
  {
    match f.ltype
    case LSubmessage(fields) => SubmessageAtLeast(f, fields, s);
    case _ =>
  }

  lemma SubmessageAtLeast(f: Field, fields: seq<Field>, s: seq<byte>)
    requires f.ltype == LSubmessage(fields) && FieldsOk(fields)
    requires DecodeValue(f, s, DefaultValue(f)).Some?
    ensures |LeastPayload(fields)| < U32
    ensures |LeastBody(f)| <= |s| - |DecodeValue(f, s, DefaultValue(f)).value.1|
    decreases |s|, 0
  {
    hide FieldsOk, DecodeNoInit, LeastPayload, Varint32, EncVarint, Low64, Defaults;
    var (payload, rest) := TakeString(s).value;
    DecodeIsNoInit(fields, payload);
    AcceptedAtLeast(fields, payload);
    Varint32Below(s);
    Varint32Shortest(s);
    var least := |LeastPayload(fields)|;
    EncVarintMonotone(least, |payload|);
    assert Low64(least) == least;
  }

  /** Required fields not seen hold their defaults. */
  ghost predicate Fresh(fields: seq<Field>, st: State) {
    && |st.msg.slots| == |fields|
    && (forall i | 0 <= i < |fields| && fields[i].htype.HRequired? && i !in st.seen ::
          st.msg.slots[i] == DefaultSlot(fields[i]))
  }

  /** A record of entry j has at least the size that j contributes to what is missing. */
  lemma EntryAtLeast(fields: seq<Field>, j: nat, wireType: nat, s: seq<byte>, st: State)
    requires j < |fields| && FieldsOk(fields) && Fresh(fields, st)
    requires DecodeEntry(fields, j, wireType, s, st).Some?
    ensures var (st', rest) := DecodeEntry(fields, j, wireType, s, st).value;
            && Fresh(fields, st') && st'.seen == st.seen + {j}
            && (Tracked(fields, j) && j !in st.seen ==>
                  Expressible(fields[j]) && |LeastBody(fields[j])| <= |s| - |rest|)
    decreases |s|, 2
  {
    hide FieldOk, DecodeValue, LeastBody, Expressible, DefaultValue, RequiredBefore;
    if Tracked(fields, j) && j !in st.seen { BodyAtLeast(fields[j], s); }
  }

  /** Every record that is not there yet takes at least its least size. */
  lemma RecordsAtLeast(fields: seq<Field>, s: seq<byte>, st: State)
    requires FieldsOk(fields) && Fresh(fields, st) && DecodeRecords(fields, s, st).Some?
    ensures var run := DecodeRecords(fields, s, st).value;
            && Missing(fields, st.seen, |fields|) <= |s| - |run.rest| + Missing(fields, run.st.seen, |fields|)
            && forall i | 0 <= i < |fields| && Tracked(fields, i) && i in run.st.seen && i !in st.seen ::
                 Expressible(fields[i])
    decreases |s|, 3
  {
    hide FieldsOk, Fresh, DecodeEntry, Skip, Tracked, Expressible, Missing, LeastBody, EncTag;
    if s != [] && DecodeTag(s).Tag? {
      var Tag(tag, wireType, rest) := DecodeTag(s);
      var j := FindField(fields, tag);
      var (st', rest') := DecodeRecord(fields, tag, wireType, rest, st).value;
      if j.Some? {
        EntryAtLeast(fields, j.value, wireType, rest, st);
        TagAtLeast(s, WireType(fields[j.value]));
        MissingLess(fields, st.seen, j.value, |fields|);
      }
      RecordsAtLeast(fields, rest', st');
    }
  }

  /** No accepted input is shorter than LeastPayload, and there is one only if it can be expressed. */
  lemma AcceptedAtLeast(fields: seq<Field>, s: seq<byte>)
    requires FieldsOk(fields) && Decode(fields, s).Some?
    ensures |LeastPayload(fields)| <= |s| && Satisfiable(fields)
    decreases |s|, 4
  {
    hide FieldsOk, DecodeRecords, Expressible, Missing, TrackedRecords, FixedComplete, DefaultSlot;
    var st := Start(Defaults(fields));
    RecordsAtLeast(fields, s, st);
    MissingAtFirst(fields, LeastBodies(fields, |fields|), |fields|);
    NothingMissing(fields, DecodeRecords(fields, s, st).value.st.seen, |fields|);
  }

  lemma UnsatisfiableRejects(fields: seq<Field>, s: seq<byte>)
    requires FieldsOk(fields) && !Satisfiable(fields)
    ensures Decode(fields, s).None?
  {
    hide FieldsOk, Decode, Satisfiable;
    if Decode(fields, s).Some? {
      AcceptedAtLeast(fields, s);
      assert false;
    }
  }

  /** A message accepts some input if and only if the shortest bodies of its first 64 required fields can all be
      expressed; then LeastPayload is the shortest input it accepts. */
  lemma ShortestAccepted(fields: seq<Field>)
    requires FieldsOk(fields)
    ensures (exists s :: Decode(fields, s).Some?) <==> Satisfiable(fields)
    ensures Satisfiable(fields) ==> Decode(fields, LeastPayload(fields)).Some?
    ensures forall s | Decode(fields, s).Some? :: |LeastPayload(fields)| <= |s|
  {
    hide FieldsOk, Decode, Satisfiable, LeastPayload;
    if Satisfiable(fields) { LeastAccepted(fields); }
    forall s | Decode(fields, s).Some? ensures |LeastPayload(fields)| <= |s| && Satisfiable(fields) {
      AcceptedAtLeast(fields, s);
    }
  }

  // ---------- a message that accepts nothing ----------

  function Nested(tag: nat, fields: seq<Field>): Field {
    Field(tag, LSubmessage(fields), HRequired, AStatic, 0, 0, 1, 1, None)
  }

  /** A bool at the bottom, and at every level two required submessages of the level below. */
  function Doubling(k: nat): seq<Field> {
    if k == 0 then [Field(1, LBool, HRequired, AStatic, 0, 0, 1, 1, None)]
    else [Nested(1, Doubling(k - 1)), Nested(2, Doubling(k - 1))]
  }

  lemma {:induction false} DoublingOk(k: nat)
    ensures FieldsOk(Doubling(k))
  {
    if k > 0 {
      DoublingOk(k - 1);
      assert FieldOk(Nested(1, Doubling(k - 1))) && FieldOk(Nested(2, Doubling(k - 1)));
    } else {
      assert FieldOk(Doubling(0)[0]);
    }
  }

  lemma {:induction false} DoublingSize(k: nat)
    ensures |LeastPayload(Doubling(k))| >= Pow2(k)
  {
    var fields := Doubling(k);
    if k > 0 {
      DoublingSize(k - 1);
      TwoRecords(fields, LeastBodies(fields, 2));
    } else {
      PartOfPayload(fields, LeastBodies(fields, 1), 1, 0);
    }
  }

  lemma TwoRecords(fields: seq<Field>, bodies: seq<seq<byte>>)
    requires |fields| == |bodies| == 2 && fields[0].htype.HRequired? && fields[1].htype.HRequired?
    ensures |bodies[0]| + |bodies[1]| <= |TrackedRecords(fields, bodies, 2)|
  {
    hide EncTag;
    assert RequiredBefore(fields, 1) == 1;
    assert TrackedRecords(fields, bodies, 1) == [] + (EncTag(WireType(fields[0]), fields[0].tag) + bodies[0]);
  }

  /** 33 levels of submessages with two required fields each: whatever the input, it is rejected. */
  lemma DoublingAcceptsNothing(s: seq<byte>)
    ensures FieldsOk(Doubling(33)) && Decode(Doubling(33), s) == None
  {
    hide FieldsOk, Decode, LeastPayload;
    DoublingOk(33);
    DoublingSize(32);
    Pow2Of32();
    var fields := Doubling(33);
    assert Tracked(fields, 0) && !Expressible(fields[0]);
    UnsatisfiableRejects(fields, s);
  }
}
