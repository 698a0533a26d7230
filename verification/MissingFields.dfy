/**
 Whether an accepted input has all the required fields of a message. The decoder tracks the first 64
 of them; which inputs get by without the others.
 */
module MissingFields {
  import opened Bytes
  import opened Schema
  import opened Decoding
  import opened RequiredFields
  import opened ShortestInputs

  /** Every required field has a record in s. */
  ghost predicate AllOccur(fields: seq<Field>, s: seq<byte>) {
    forall i | 0 <= i < |fields| && fields[i].htype.HRequired? :: i in EntriesOf(fields, s, Start(Defaults(fields)))
  }

  /** With at most 64 required fields, an accepted input has all of them. */
  lemma AllOccurUpTo64(fields: seq<Field>, s: seq<byte>)
    requires RequiredBefore(fields, |fields|) <= 64 && Decode(fields, s).Some?
    ensures AllOccur(fields, s)
  {
    hide EntriesOf, DecodeRecords, FixedComplete, Defaults;
    SeenIsEntries(fields, s, Start(Defaults(fields)));
    forall i | 0 <= i < |fields| && fields[i].htype.HRequired? ensures RequiredBefore(fields, i) < 64 {
      RequiredBeforeMonotone(fields, i, |fields|);
    }
  }

  /** Every accepted input has all the required fields, if and only if there are at most 64 of them or one of
      the first 64 is a submessage that is always too long, so that no input is accepted. */
  lemma AllOccurIff(fields: seq<Field>)
    requires FieldsOk(fields)
    ensures (forall s | Decode(fields, s).Some? :: AllOccur(fields, s))
       <==> RequiredBefore(fields, |fields|) <= 64 || !Satisfiable(fields)
  {
    hide FieldsOk, DecodeRecords, Decode, EntriesOf, RequiredBefore, LeastPayload, Satisfiable;
    if RequiredBefore(fields, |fields|) <= 64 {
      forall s | Decode(fields, s).Some? ensures AllOccur(fields, s) { AllOccurUpTo64(fields, s); }
    } else if !Satisfiable(fields) {
      forall s ensures Decode(fields, s).None? { UnsatisfiableRejects(fields, s); }
    } else {
      LeastAccepted(fields);
      var last := KthRequired(fields, 64, |fields|);
      assert !AllOccur(fields, LeastPayload(fields));
    }
  }

  /** Without required submessages the number of required fields decides alone. */
  lemma AllOccurIffUpTo64(fields: seq<Field>)
    requires FieldsOk(fields)
    requires forall i | 0 <= i < |fields| && fields[i].htype.HRequired? :: !fields[i].ltype.LSubmessage?
    ensures (forall s | Decode(fields, s).Some? :: AllOccur(fields, s)) <==> RequiredBefore(fields, |fields|) <= 64
  {
    hide FieldOk, Decode, AllOccur, RequiredBefore, LeastPayload;
    AllOccurIff(fields);
  }

  // ---------- the 65th field ----------

  /** n required bool fields with tags 1 to n. */
  function Bools(n: nat): seq<Field> {
    seq(n, i requires 0 <= i < n => Field(i + 1, LBool, HRequired, AStatic, 0, 0, 1, 1, None))
  }

  lemma BoolsOk(n: nat)
    requires n <= 255
    ensures FieldsOk(Bools(n))
  {
    forall i | 0 <= i < n ensures FieldOk(Bools(n)[i]) {}
  }

  lemma {:induction false} BoolsBefore(n: nat, k: nat)
    requires k <= n
    ensures RequiredBefore(Bools(n), k) == k
  {
    if k > 0 { BoolsBefore(n, k - 1); }
  }

  /** Of 65 required fields only the first 64 have a record, and the input is accepted. */
  lemma LastOf65Missing()
    ensures var fields, bodies := Bools(65), seq(65, _ => [1]);
            var s := TrackedRecords(fields, bodies, 65);
            && FieldsOk(fields) && Decode(fields, s).Some?
            && fields[64].htype.HRequired? && 64 !in EntriesOf(fields, s, Start(Defaults(fields)))
  {
    hide FieldsOk, Decode, EntriesOf, RequiredBefore, TrackedRecords, Defaults;
    var fields, bodies := Bools(65), seq(65, _ => [1]);
    BoolsOk(65);
    forall i | 0 <= i < 65 && Tracked(fields, i) ensures BodyOk(fields[i], bodies[i]) {
      assert [1][1..] == [];
    }
    TrackedAccepted(fields, bodies);
    BoolsBefore(65, 64);
  }
}
