/**
 From bytes to a message and back: whatever was decoded can be encoded, and decoding that again gives
 the same message, exactly when no array without counter is left to chance. And what
 pb_check_proto3_default_value means: nothing would have been written.
 */
module Normalising {
  import opened Bytes
  import opened Schema
  import opened Encoding
  import opened Decoding
  import opened Sameness
  import opened Fidelity
  import opened Bounds
  import opened Memory
  import opened WireFormat
  import opened Conformance

  // ---------- structs that were decoded into can be encoded ----------

  lemma {:induction false} DecodedValueEncodes(f: Field, v: Value, w: Value)
    requires FieldOk(f) && ValueOk(Decoded, f, v) && ValueOk(Stored, f, w) && SameValue(f, v, w)
    ensures EncodeValue(f, w).Some? && ValueTerminated(f, w)
    decreases f, 0
  {
    match f.ltype
    case LSubmessage(fields) => DecodedSameEncodes(fields, v.m, w.m);
    case _ =>
  }

  lemma {:induction false} DecodedItemsEncode(f: Field, items: seq<Value>, held: seq<Value>)
    requires FieldOk(f) && |items| == |held|
    requires forall k | 0 <= k < |items| ::
      ValueOk(Decoded, f, items[k]) && ValueOk(Stored, f, held[k]) && SameValue(f, items[k], held[k])
    ensures EncodePacked(f, held).Some? && EncodeUnpacked(f, held).Some? && AllTerminated(f, held)
    decreases f, 1, |items|
  {
    hide FieldOk, ValueOk, EncodeValue, ValueTerminated, SameValue;
    if items != [] {
      DecodedValueEncodes(f, items[0], held[0]);
      DecodedItemsEncode(f, items[1..], held[1..]);
      assert forall k | 0 < k < |held| :: held[k] == held[1..][k - 1];
    }
  }

  lemma {:induction false} DecodedFieldEncodes(f: Field, a: Slot, b: Slot, ua: map<nat, Union>, ub: map<nat, Union>)
    requires FieldOk(f) && SlotOk(Decoded, f, a) && SlotOk(Stored, f, b) && SameSlot(f, a, b) && SameMember(f, ua, ub)
    requires Current(f, ua) ==>
      ValueOk(Decoded, f, ua[f.htype.group].v) && ValueOk(Stored, f, ub[f.htype.group].v)
    ensures EncodeField(f, b, ub).Some? && FieldTerminated(f, b, ub)
    decreases f, 2
  {
    hide FieldOk, ValueOk, EncodeValue, EncodePacked, EncodeUnpacked, ValueTerminated, AllTerminated, IsZero, SameValue;
    match a
    case Single(v) => DecodedValueEncodes(f, v, b.v);
    case Opt(has, v) => if has { DecodedValueEncodes(f, v, b.v); }
    case Rep(items) => DecodedItemsEncode(f, items, b.items);
    case Member =>
      if Current(f, ua) { DecodedValueEncodes(f, ua[f.htype.group].v, ub[f.htype.group].v); }
  }

  lemma {:induction false} DecodedFromEncodes(fields: seq<Field>, m: Message, mem: Message, i: nat)
    requires i <= |fields| && FieldsOk(fields) && MessageOk(Decoded, fields, m) && MessageOk(Stored, fields, mem)
    requires Same(fields, m, mem)
    ensures EncodeFrom(fields, mem, i).Some? && TerminatedFrom(fields, mem, i)
    decreases fields, 0, |fields| - i
  {
    hide FieldOk, SlotOk, ValueOk, SameSlot, SameValue, EncodeField, FieldTerminated;
    if i < |fields| {
      var f := fields[i];
      assert FieldOk(f) && SlotOk(Decoded, f, m.slots[i]) && SlotOk(Stored, f, mem.slots[i]);
      assert SameMember(f, m.unions, mem.unions);
      DecodedFieldEncodes(f, m.slots[i], mem.slots[i], m.unions, mem.unions);
      DecodedFromEncodes(fields, m, mem, i + 1);
    }
  }

  lemma {:induction false} DecodedSameEncodes(fields: seq<Field>, m: Message, mem: Message)
    requires FieldsOk(fields) && MessageOk(Decoded, fields, m) && MessageOk(Stored, fields, mem)
    requires Same(fields, m, mem)
    ensures Encode(fields, mem).Some? && Terminated(fields, mem)
    decreases fields, 1
  {
    hide EncodeFrom, TerminatedFrom, FieldsOk, Same;
    SameLength(fields, mem);
    DecodedFromEncodes(fields, m, mem, 0);
  }

  lemma SameLength(fields: seq<Field>, mem: Message)
    requires MessageOk(Stored, fields, mem)
    ensures |mem.slots| == |fields|
  {}

  /** When all arrays without counter that would be written were received, every struct that holds a message
      within the decoder's bounds is encoded without error, as the same bytes, and with all strings terminated. */
  lemma DecodedEncodes(fields: seq<Field>, m: Message, mem: Message)
    requires FieldsOk(fields) && MessageOk(Decoded, fields, m) && Full(fields, m)
    requires MessageOk(Stored, fields, mem) && Holds(fields, m, mem)
    ensures Encode(fields, mem).Some? && Encode(fields, mem) == Encode(fields, m) && Terminated(fields, mem)
  {
    hide *;
    HeldIsSame(fields, m, mem);
    DecodedSameEncodes(fields, m, mem);
    SameSameBytes(fields, m, mem, Decoded, Stored);
  }

  lemma StoredIsRaw(fields: seq<Field>, mem: Message)
    requires MessageOk(Stored, fields, mem)
    ensures MessageOk(Raw, fields, mem)
  {
    MessageIncluded(Raw, Stored, fields, mem);
  }

  /** Any accepted byte string, canonical or not, and any struct that may hold its message: encoding the struct
      and decoding the encoding give the message again, exactly when no array without counter that is written
      was left unset. */
  lemma DecodeEncodeDecode(fields: seq<Field>, s: seq<byte>, mem: Message)
    requires FieldsOk(fields) && Decode(fields, s).Some?
    requires MessageOk(Stored, fields, mem) && Holds(fields, Decode(fields, s).value.0, mem)
    requires Encode(fields, mem).Some? ==> |Encode(fields, mem).value| < U32
    ensures var m := Decode(fields, s).value.0;
            Full(fields, m) <==>
              && Encode(fields, mem).Some?
              && var again := Decode(fields, Encode(fields, mem).value);
                 again.Some? && again.value.1 == [] && Same(fields, m, again.value.0)
  {
    hide *;
    var m := Decode(fields, s).value.0;
    DecodedInBounds(fields, s);
    StoredIsRaw(fields, mem);
    if Full(fields, m) {
      DecodedEncodes(fields, m, mem);
      HeldIsSame(fields, m, mem);
      RoundTrip(fields, mem);
      SameTransitive(fields, m, mem, Decode(fields, Encode(fields, mem).value).value.0);
    } else if Encode(fields, mem).Some? {
      RoundTrip(fields, mem);
      var again := Decode(fields, Encode(fields, mem).value);
      if again.Some? && Same(fields, m, again.value.0) {
        StoredIsFull(fields, mem);
        SameFull(fields, mem, again.value.0);
        SameFull(fields, m, again.value.0);
      }
    }
  }

  /** Without arrays without counter the round trip from bytes always succeeds. */
  lemma DecodeEncodeDecodeWithCounts(fields: seq<Field>, s: seq<byte>, mem: Message)
    requires FieldsOk(fields) && NoFixedCounts(fields) && Decode(fields, s).Some?
    requires MessageOk(Stored, fields, mem) && Holds(fields, Decode(fields, s).value.0, mem)
    ensures Encode(fields, mem).Some?
    ensures |Encode(fields, mem).value| < U32 ==>
      var again := Decode(fields, Encode(fields, mem).value);
      again.Some? && again.value.1 == [] && Same(fields, Decode(fields, s).value.0, again.value.0)
  {
    hide FieldsOk, NoFixedCounts, Decode, MessageOk, Holds, Encode, Same, Full;
    var m := Decode(fields, s).value.0;
    DecodedInBounds(fields, s);
    NoFixedCountsFull(Decoded, fields, m);
    DecodedEncodes(fields, m, mem);
    if |Encode(fields, mem).value| < U32 { DecodeEncodeDecode(fields, s, mem); }
  }

  lemma {:induction false} SameValueTransitive(f: Field, a: Value, b: Value, c: Value)
    requires SameValue(f, a, b) && SameValue(f, b, c)
    ensures SameValue(f, a, c)
    decreases f, 0
  {
    if f.ltype.LSubmessage? { SameTransitive(f.ltype.fields, a.m, b.m, c.m); }
  }

  lemma {:induction false} SameSlotTransitive(f: Field, a: Slot, b: Slot, c: Slot)
    requires SameSlot(f, a, b) && SameSlot(f, b, c)
    ensures SameSlot(f, a, c)
    decreases f, 1
  {
    hide SameValue;
    match a
    case Single(v) => SameValueTransitive(f, v, b.v, c.v);
    case Opt(has, v) => if has { SameValueTransitive(f, v, b.v, c.v); }
    case Rep(items) =>
      forall k | 0 <= k < |items| ensures SameValue(f, items[k], c.items[k]) {
        SameValueTransitive(f, items[k], b.items[k], c.items[k]);
      }
    case Member =>
  }

  lemma {:induction false} SameTransitive(fields: seq<Field>, a: Message, b: Message, c: Message)
    requires Same(fields, a, b) && Same(fields, b, c)
    ensures Same(fields, a, c)
    decreases fields
  {
    hide SameSlot, SameValue;
    forall i | 0 <= i < |fields|
      ensures SameSlot(fields[i], a.slots[i], c.slots[i]) && SameMember(fields[i], a.unions, c.unions)
    {
      var f := fields[i];
      SameSlotTransitive(f, a.slots[i], b.slots[i], c.slots[i]);
      assert SameMember(f, a.unions, b.unions) && SameMember(f, b.unions, c.unions);
      if Current(f, a.unions) {
        var g := f.htype.group;
        SameValueTransitive(f, a.unions[g].v, b.unions[g].v, c.unions[g].v);
      }
    }
  }

  /** Encoding what was decoded from an encoding gives the same bytes again, whatever else the struct holds. */
  lemma ReEncode(fields: seq<Field>, m: Message, mem: Message)
    requires FieldsOk(fields) && MessageOk(Stored, fields, m) && Terminated(fields, m)
    requires Encode(fields, m).Some? && |Encode(fields, m).value| < U32
    ensures var r := Decode(fields, Encode(fields, m).value);
            && r.Some? && Encode(fields, r.value.0) == Encode(fields, m)
            && (MessageOk(Stored, fields, mem) && Holds(fields, r.value.0, mem) ==>
                  Encode(fields, mem) == Encode(fields, m))
  {
    hide *;
    StoredIsRaw(fields, m);
    RoundTrip(fields, m);
    var r := Decode(fields, Encode(fields, m).value).value.0;
    DecodedInBounds(fields, Encode(fields, m).value);
    SameSameBytes(fields, m, r, Stored, Decoded);
    StoredIsFull(fields, m);
    SameFull(fields, m, r);
    if MessageOk(Stored, fields, mem) && Holds(fields, r, mem) { DecodedEncodes(fields, r, mem); }
  }

  /** Two byte arrays of at most one byte each, without counter. */
  function TwoBlobs(): Field {
    Field(1, LBytes, HRepeated, AStatic, 0, 0, SizeBytes() + 1, 2, None)
  }

  /** A struct with an element that claims to have two bytes. */
  function Stale(): Message { Message([Rep([Blob([1, 2]), Blob([])])], map[]) }

  function NothingReceived(): Message { Message([Rep([])], map[]) }

  lemma NothingAccepted()
    ensures FieldsOk([TwoBlobs()]) && Decode([TwoBlobs()], []) == Some((NothingReceived(), []))
  {
    var f := TwoBlobs();
    assert FieldOk(f);
    assert Defaults([f]).slots[0] == DefaultSlot(f) == Rep([]);
    assert Defaults([f]) == NothingReceived();
    assert RequiredSeen([f], {});
  }

  lemma StaleCannotBeEncoded()
    ensures MessageOk(Stored, [TwoBlobs()], Stale()) && Encode([TwoBlobs()], Stale()) == None
  {
    var f := TwoBlobs();
    assert EncodeValue(f, Blob([1, 2])) == None;
    assert EncodeField(f, Stale().slots[0], map[]) == None;
  }

  /** The empty input is accepted, and a struct that may hold its message cannot be encoded. */
  lemma UnsetArrayFails()
    ensures var fields := [TwoBlobs()];
            && FieldsOk(fields) && Decode(fields, []) == Some((NothingReceived(), []))
            && MessageOk(Stored, fields, Stale()) && Holds(fields, NothingReceived(), Stale())
            && !Full(fields, NothingReceived()) && Encode(fields, Stale()) == None
  {
    hide FieldsOk, Decode, MessageOk, Encode;
    NothingAccepted();
    StaleCannotBeEncoded();
    assert !SlotFull(TwoBlobs(), NothingReceived().slots[0]);
    assert HoldsSlot(TwoBlobs(), NothingReceived().slots[0], Stale().slots[0]);
  }

  // ---------- proto3 default values ----------

  lemma ArrayNotEmpty(f: Field, items: seq<Value>)
    requires items != []
    ensures EncodeArray(f, items) != Some([])
  {
    hide EncodePacked, EncodeTagged, EncString;
    TaggedNotEmpty(f, items[0]);
    var tag := EncTag(WT_STRING, f.tag);
    assert |tag| > 0;
    if Packable(f) && EncodePacked(f, items).Some? {
      assert |tag + EncString(EncodePacked(f, items).value)| > 0;
    }
  }

  lemma AppendEmpty(x: Wire, y: Wire)
    ensures Append(x, y) == Some([]) <==> x == Some([]) && y == Some([])
  {
    if x.Some? && y.Some? { assert |x.value + y.value| == |x.value| + |y.value|; }
  }

  lemma TaggedNotEmpty(f: Field, v: Value)
    ensures EncodeTagged(f, v).Some? ==> |EncodeTagged(f, v).value| > 0
  {
    hide EncodeValue;
  }

  /** A field counts as default exactly when nothing is written for it, it is no array without counter, and the
      which_ of its union is zero. */
  lemma FieldDefaultIffSilent(f: Field, slot: Slot, unions: map<nat, Union>)
    requires SlotOk(Raw, f, slot)
    ensures IsDefault(f, slot, unions)
       <==> EncodeField(f, slot, unions) == Some([]) && !FixedCount(f) && (f.htype.HOneof? ==> f.htype.group !in unions)
  {
    hide ValueOk, IsZero, EncodeTagged, EncodeArray;
    match slot
    case Single(v) => TaggedNotEmpty(f, v);
    case Opt(_, v) => TaggedNotEmpty(f, v);
    case Rep(items) => if items != [] { ArrayNotEmpty(f, items); } else { EmptyArraySilent(f); }
    case Member => if Current(f, unions) { TaggedNotEmpty(f, unions[f.htype.group].v); }
  }

  /** Exactly the proto3 values that vanish are not written: a zero number, an empty blob, a submessage all of whose
      fields vanish. */
  lemma ImplicitSilentIff(f: Field, v: Value, unions: map<nat, Union>)
    requires Implicit(f) && ValueOk(Raw, f, v)
    ensures EncodeField(f, Single(v), unions) == Some([]) <==> Vanishes(f, v)
  {
    hide ValueOk, IsZero, EncodeTagged, Vanishes;
    VanishesIsZero(f, v);
    TaggedNotEmpty(f, v);
  }

  /** A message counts as default exactly when all its fields vanish. */
  lemma DefaultIffVanishes(fields: seq<Field>, m: Message)
    requires MessageOk(Raw, fields, m)
    ensures AllDefault(fields, m, 0)
       <==> forall i | 0 <= i < |fields| :: FieldVanishes(fields[i], m.slots[i], m.unions)
  {
    hide SlotOk, AllDefault, FieldVanishes;
    VanishFromIsDefault(fields, m, 0);
  }

  lemma EmptyArraySilent(f: Field)
    ensures EncodeArray(f, []) == Some([])
  {}

  lemma {:induction false} DefaultFromIffSilent(fields: seq<Field>, m: Message, i: nat)
    requires i <= |fields| && MessageOk(Raw, fields, m)
    ensures AllDefault(fields, m, i)
       <==> EncodeFrom(fields, m, i) == Some([])
            && forall j | i <= j < |fields| ::
                 !FixedCount(fields[j]) && (fields[j].htype.HOneof? ==> fields[j].htype.group !in m.unions)
    decreases |fields| - i
  {
    hide SlotOk, ValueOk, EncodeField, IsDefault;
    if i < |fields| {
      var f, slot := fields[i], m.slots[i];
      assert SlotOk(Raw, f, slot);
      FieldDefaultIffSilent(f, slot, m.unions);
      AppendEmpty(EncodeField(f, slot, m.unions), EncodeFrom(fields, m, i + 1));
      DefaultFromIffSilent(fields, m, i + 1);
    }
  }

  lemma {:induction false} CurrentMemberWritten(fields: seq<Field>, m: Message, i: nat, j: nat)
    requires i <= j < |fields| == |m.slots| && MessageOk(Raw, fields, m) && Current(fields[j], m.unions)
    ensures EncodeFrom(fields, m, i) != Some([])
    decreases j - i
  {
    hide ValueOk, EncodeValue;
    if i < j {
      CurrentMemberWritten(fields, m, i + 1, j);
      AppendEmpty(EncodeField(fields[i], m.slots[i], m.unions), EncodeFrom(fields, m, i + 1));
    } else {
      assert SlotOk(Raw, fields[j], m.slots[j]);
      TaggedNotEmpty(fields[j], m.unions[fields[j].htype.group].v);
    }
  }

  /** An array without counter, or a union whose which_ is neither zero nor the tag of a member. */
  predicate NeverDefault(fields: seq<Field>, f: Field, unions: map<nat, Union>) {
    || FixedCount(f)
    || (f.htype.HOneof? && f.htype.group in unions && !WhichOk(fields, f.htype.group, unions[f.htype.group].which))
  }

  /** A proto3 submessage counts as default, and is left out, exactly when it would have been written as an empty
      message, except that an array without counter or a stale which_ never counts as default. */
  lemma DefaultIffEmpty(fields: seq<Field>, m: Message)
    requires MessageOk(Raw, fields, m)
    ensures AllDefault(fields, m, 0)
       <==> Encode(fields, m) == Some([]) && forall j | 0 <= j < |fields| :: !NeverDefault(fields, fields[j], m.unions)
  {
    hide SlotOk, ValueOk, EncodeFrom, AllDefault;
    DefaultFromIffSilent(fields, m, 0);
    forall j | 0 <= j < |fields| && fields[j].htype.HOneof? && fields[j].htype.group in m.unions
               && !NeverDefault(fields, fields[j], m.unions)
      ensures EncodeFrom(fields, m, 0) != Some([])
    {
      var g := fields[j].htype.group;
      var k :| 0 <= k < |fields| && fields[k].htype == HOneof(g) && fields[k].tag == m.unions[g].which;
      assert Current(fields[k], m.unions);
      CurrentMemberWritten(fields, m, 0, k);
    }
  }

  /** A union of one bool, with a which_ that names no member: nothing is written, yet it is not default. */
  lemma StaleWhich()
    ensures var fields := [Field(1, LBool, HOneof(0), AStatic, 0, 4, 1, 1, None)];
            var m := Message([Member], map[0 := Union(9, Int(0))]);
            && FieldsOk(fields) && MessageOk(Raw, fields, m)
            && Encode(fields, m) == Some([]) && !AllDefault(fields, m, 0)
  {
    var f := Field(1, LBool, HOneof(0), AStatic, 0, 4, 1, 1, None);
    var m := Message([Member], map[0 := Union(9, Int(0))]);
    assert FieldOk(f);
    assert EncodeField(f, Member, m.unions) == Some([]);
    assert EncodeFrom([f], m, 1) == Some([]);
    AppendEmpty(EncodeField(f, Member, m.unions), EncodeFrom([f], m, 1));
  }
}
