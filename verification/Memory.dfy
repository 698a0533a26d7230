/**
 What a struct may hold after a message was decoded into it. A decoded message says nothing about the
 elements of an array without counter that were never received; the struct still holds something there,
 and the encoder, which has no count to look at, writes all array_size elements of it.
 */
module Memory {
  import opened Schema
  import opened Sameness
  import opened Bounds

  // ---------- the structs that hold a message ----------

  predicate HoldsValue(f: Field, v: Value, w: Value)
    decreases f, 0
  {
    match f.ltype
    case LSubmessage(fields) => v.Sub? && w.Sub? && Holds(fields, v.m, w.m)
    case _ => SameValue(f, v, w)
  }

  predicate HoldsSlot(f: Field, a: Slot, b: Slot)
    decreases f, 1
  {
    match f.htype
    case HRequired => a.Single? && b.Single? && HoldsValue(f, a.v, b.v)
    case HOptional =>
      if Implicit(f) then a.Single? && b.Single? && HoldsValue(f, a.v, b.v)
      else a.Opt? && b.Opt? && a.has == b.has && (a.has ==> HoldsValue(f, a.v, b.v))
    case HRepeated =>
      && a.Rep? && b.Rep? && |a.items| <= |b.items| && (|a.items| == |b.items| || FixedCount(f))
      && forall k | 0 <= k < |a.items| :: HoldsValue(f, a.items[k], b.items[k])
    case HOneof(_) => a.Member? && b.Member?
  }

  predicate HoldsMember(f: Field, a: map<nat, Union>, b: map<nat, Union>)
    decreases f, 1
  {
    Current(f, a) == Current(f, b) &&
    (Current(f, a) ==> HoldsValue(f, a[f.htype.group].v, b[f.htype.group].v))
  }

  /** The struct `mem` agrees with m on everything that was received. Elements of an array without counter
      behind those received may be anything. */
  predicate Holds(fields: seq<Field>, m: Message, mem: Message)
    decreases fields
  {
    && |m.slots| == |mem.slots| == |fields|
    && (forall i | 0 <= i < |fields| :: HoldsSlot(fields[i], m.slots[i], mem.slots[i]))
    && (forall i | 0 <= i < |fields| :: HoldsMember(fields[i], m.unions, mem.unions))
  }

  // ---------- messages that leave nothing to chance ----------

  predicate ValueFull(f: Field, v: Value)
    decreases f, 0
  {
    match f.ltype
    case LSubmessage(fields) => v.Sub? && Full(fields, v.m)
    case _ => true
  }

  predicate SlotFull(f: Field, slot: Slot)
    decreases f, 1
  {
    match slot
    case Single(v) => ValueFull(f, v)
    case Opt(has, v) => has ==> ValueFull(f, v)
    case Rep(items) =>
      && (FixedCount(f) ==> |items| == f.arraySize)
      && forall k | 0 <= k < |items| :: ValueFull(f, items[k])
    case Member => true
  }

  /** Every array without counter the encoder comes across is full. Absent submessages do not count. */
  predicate Full(fields: seq<Field>, m: Message)
    decreases fields
  {
    && |m.slots| == |fields|
    && (forall i | 0 <= i < |fields| :: SlotFull(fields[i], m.slots[i]))
    && (forall i | 0 <= i < |fields| && Current(fields[i], m.unions) ::
          ValueFull(fields[i], m.unions[fields[i].htype.group].v))
  }

  lemma {:induction false} StoredValueFull(f: Field, v: Value)
    requires ValueOk(Stored, f, v)
    ensures ValueFull(f, v)
    decreases f, 0
  {
    if f.ltype.LSubmessage? { StoredIsFull(f.ltype.fields, v.m); }
  }

  /** What a struct holds is full: its arrays have all their elements. */
  lemma {:induction false} StoredIsFull(fields: seq<Field>, mem: Message)
    requires MessageOk(Stored, fields, mem)
    ensures Full(fields, mem)
    decreases fields
  {
    hide ValueOk, ValueFull;
    forall i | 0 <= i < |fields|
      ensures SlotFull(fields[i], mem.slots[i])
      ensures Current(fields[i], mem.unions) ==> ValueFull(fields[i], mem.unions[fields[i].htype.group].v)
    {
      var f := fields[i];
      assert SlotOk(Stored, f, mem.slots[i]);
      if Current(f, mem.unions) { StoredValueFull(f, mem.unions[f.htype.group].v); }
      match mem.slots[i]
      case Single(v) => StoredValueFull(f, v);
      case Opt(_, v) => StoredValueFull(f, v);
      case Rep(items) =>
        forall k | 0 <= k < |items| ensures ValueFull(f, items[k]) { StoredValueFull(f, items[k]); }
      case Member =>
    }
  }

  /** A descriptor without arrays without counter, submessages included. */
  predicate NoFixedCounts(fields: seq<Field>)
    decreases fields
  {
    forall i | 0 <= i < |fields| :: HasCount(fields[i])
  }

  predicate HasCount(f: Field)
    decreases f
  {
    !FixedCount(f) &&
    match f.ltype
    case LSubmessage(fields) => NoFixedCounts(fields)
    case _ => true
  }

  lemma {:induction false} NoFixedValueFull(view: View, f: Field, v: Value)
    requires ValueOk(view, f, v) && HasCount(f)
    ensures ValueFull(f, v)
    decreases f, 0
  {
    if f.ltype.LSubmessage? { NoFixedCountsFull(view, f.ltype.fields, v.m); }
  }

  /** Its messages are full whatever was received. */
  lemma {:induction false} NoFixedCountsFull(view: View, fields: seq<Field>, m: Message)
    requires NoFixedCounts(fields) && MessageOk(view, fields, m)
    ensures Full(fields, m)
    decreases fields
  {
    hide ValueOk, ValueFull;
    forall i | 0 <= i < |fields|
      ensures SlotFull(fields[i], m.slots[i])
      ensures Current(fields[i], m.unions) ==> ValueFull(fields[i], m.unions[fields[i].htype.group].v)
    {
      var f := fields[i];
      assert SlotOk(view, f, m.slots[i]) && HasCount(f);
      if Current(f, m.unions) { NoFixedValueFull(view, f, m.unions[f.htype.group].v); }
      match m.slots[i]
      case Single(v) => NoFixedValueFull(view, f, v);
      case Opt(_, v) => NoFixedValueFull(view, f, v);
      case Rep(items) =>
        forall k | 0 <= k < |items| ensures ValueFull(f, items[k]) { NoFixedValueFull(view, f, items[k]); }
      case Member =>
    }
  }

  lemma {:induction false} SameValueFull(f: Field, a: Value, b: Value)
    requires SameValue(f, a, b)
    ensures ValueFull(f, a) == ValueFull(f, b)
    decreases f, 0
  {
    if f.ltype.LSubmessage? { SameFull(f.ltype.fields, a.m, b.m); }
  }

  lemma {:induction false} SameSlotFull(f: Field, a: Slot, b: Slot)
    requires SameSlot(f, a, b)
    ensures SlotFull(f, a) == SlotFull(f, b)
    decreases f, 1
  {
    hide SameValue, ValueFull;
    match a
    case Single(v) => SameValueFull(f, v, b.v);
    case Opt(has, v) => if has { SameValueFull(f, v, b.v); }
    case Rep(items) =>
      forall k | 0 <= k < |items| ensures ValueFull(f, items[k]) == ValueFull(f, b.items[k]) {
        SameValueFull(f, items[k], b.items[k]);
      }
    case Member =>
  }

  /** Messages that cannot be told apart have received the same arrays. */
  lemma {:induction false} SameFull(fields: seq<Field>, a: Message, b: Message)
    requires Same(fields, a, b)
    ensures Full(fields, a) == Full(fields, b)
    decreases fields
  {
    hide SameSlot, SameValue, SlotFull, ValueFull;
    forall i | 0 <= i < |fields|
      ensures SlotFull(fields[i], a.slots[i]) == SlotFull(fields[i], b.slots[i])
      ensures Current(fields[i], a.unions) == Current(fields[i], b.unions)
      ensures Current(fields[i], a.unions) ==>
        ValueFull(fields[i], a.unions[fields[i].htype.group].v)
        == ValueFull(fields[i], b.unions[fields[i].htype.group].v)
    {
      var f := fields[i];
      SameSlotFull(f, a.slots[i], b.slots[i]);
      assert SameMember(f, a.unions, b.unions);
      if Current(f, a.unions) { SameValueFull(f, a.unions[f.htype.group].v, b.unions[f.htype.group].v); }
    }
  }

  lemma {:induction false} HeldValueIsSame(f: Field, v: Value, w: Value)
    requires ValueFull(f, v) && ValueOk(Stored, f, w) && HoldsValue(f, v, w)
    ensures SameValue(f, v, w)
    decreases f, 0
  {
    if f.ltype.LSubmessage? { HeldIsSame(f.ltype.fields, v.m, w.m); }
  }

  lemma {:induction false} HeldSlotIsSame(f: Field, a: Slot, b: Slot)
    requires SlotFull(f, a) && SlotOk(Stored, f, b) && HoldsSlot(f, a, b)
    ensures SameSlot(f, a, b)
    decreases f, 1
  {
    hide SameValue, ValueFull, HoldsValue, ValueOk;
    match a
    case Single(v) => HeldValueIsSame(f, v, b.v);
    case Opt(has, v) => if has { HeldValueIsSame(f, v, b.v); }
    case Rep(items) =>
      forall k | 0 <= k < |items| ensures SameValue(f, items[k], b.items[k]) {
        HeldValueIsSame(f, items[k], b.items[k]);
      }
    case Member =>
  }

  /** A struct that holds a full message cannot be told from it. */
  lemma {:induction false} HeldIsSame(fields: seq<Field>, m: Message, mem: Message)
    requires Full(fields, m) && MessageOk(Stored, fields, mem) && Holds(fields, m, mem)
    ensures Same(fields, m, mem)
    decreases fields
  {
    hide SlotOk, SlotFull, ValueFull, HoldsSlot, HoldsValue, SameSlot, SameValue, ValueOk;
    forall i | 0 <= i < |fields|
      ensures SameSlot(fields[i], m.slots[i], mem.slots[i])
      ensures SameMember(fields[i], m.unions, mem.unions)
    {
      var f := fields[i];
      HeldSlotIsSame(f, m.slots[i], mem.slots[i]);
      assert HoldsMember(f, m.unions, mem.unions);
      if Current(f, m.unions) { HeldValueIsSame(f, m.unions[f.htype.group].v, mem.unions[f.htype.group].v); }
    }
  }

  // ---------- there always is such a struct ----------

  /** A struct that holds v, with default values where nothing was received. */
  function InMemory(f: Field, v: Value): Value
    decreases f, 0
  {
    match (f.ltype, v)
    case (LSubmessage(fields), Sub(m)) => Sub(SomeStruct(fields, m))
    case _ => v
  }

  function ItemsInMemory(f: Field, items: seq<Value>): (r: seq<Value>)
    ensures |r| == |items|
    ensures forall k | 0 <= k < |items| :: r[k] == InMemory(f, items[k])
    decreases f, 1, |items|
  {
    if items == [] then [] else [InMemory(f, items[0])] + ItemsInMemory(f, items[1..])
  }

  function SlotInMemory(f: Field, slot: Slot): Slot
    decreases f, 2
  {
    match slot
    case Single(v) => Single(InMemory(f, v))
    case Opt(has, v) => Opt(has, InMemory(f, v))
    case Rep(items) =>
      var missing: nat := if FixedCount(f) && |items| < f.arraySize then f.arraySize - |items| else 0;
      Rep(ItemsInMemory(f, items) + seq(missing, _ => InMemory(f, DefaultValue(f))))
    case Member => Member
  }

  function SlotsInMemory(fields: seq<Field>, slots: seq<Slot>): (r: seq<Slot>)
    requires |slots| == |fields|
    ensures |r| == |slots|
    ensures forall i | 0 <= i < |fields| :: r[i] == SlotInMemory(fields[i], slots[i])
    decreases fields, 0
  {
    if fields == [] then [] else [SlotInMemory(fields[0], slots[0])] + SlotsInMemory(fields[1..], slots[1..])
  }

  /** The value of the union's current member, which is one of the entries from i on. */
  function MemberInMemory(fields: seq<Field>, g: nat, u: Union, i: nat): Value
    decreases fields, 0, |fields| - i
  {
    if i >= |fields| then u.v
    else if fields[i].htype == HOneof(g) && fields[i].tag == u.which then InMemory(fields[i], u.v)
    else MemberInMemory(fields, g, u, i + 1)
  }

  function SomeStruct(fields: seq<Field>, m: Message): Message
    decreases fields, 1
  {
    if |m.slots| != |fields| then m
    else Message(SlotsInMemory(fields, m.slots),
                 map g | g in m.unions :: Union(m.unions[g].which, MemberInMemory(fields, g, m.unions[g], 0)))
  }

  lemma {:induction false} MemberFound(fields: seq<Field>, g: nat, u: Union, i: nat, j: nat)
    requires i <= j < |fields| && FieldsOk(fields) && fields[j].htype == HOneof(g) && fields[j].tag == u.which
    ensures MemberInMemory(fields, g, u, i) == InMemory(fields[j], u.v)
    decreases j - i
  {
    hide InMemory, FieldOk;
    if i < j { MemberFound(fields, g, u, i + 1, j); }
  }

  lemma {:induction false} InMemoryHolds(f: Field, v: Value)
    requires FieldOk(f) && ValueOk(Decoded, f, v)
    ensures ValueOk(Stored, f, InMemory(f, v)) && HoldsValue(f, v, InMemory(f, v))
    decreases f, 0
  {
    if f.ltype.LSubmessage? { SomeStructHolds(f.ltype.fields, v.m); }
  }

  lemma {:induction false} SlotInMemoryHolds(f: Field, slot: Slot)
    requires FieldOk(f) && SlotOk(Decoded, f, slot)
    ensures SlotOk(Stored, f, SlotInMemory(f, slot)) && HoldsSlot(f, slot, SlotInMemory(f, slot))
    decreases f, 1
  {
    hide ValueOk, FieldOk, HoldsValue, InMemory, DefaultValue;
    match slot
    case Single(v) => InMemoryHolds(f, v);
    case Opt(_, v) => InMemoryHolds(f, v);
    case Rep(items) =>
      DefaultValueInBounds(Decoded, f);
      InMemoryHolds(f, DefaultValue(f));
      forall k | 0 <= k < |items|
        ensures ValueOk(Stored, f, InMemory(f, items[k])) && HoldsValue(f, items[k], InMemory(f, items[k]))
      {
        InMemoryHolds(f, items[k]);
      }
    case Member =>
  }

  lemma EntryInMemory(fields: seq<Field>, m: Message, i: nat)
    requires i < |fields| && FieldsOk(fields) && MessageOk(Decoded, fields, m)
    ensures var f, mem := fields[i], SomeStruct(fields, m);
            && |mem.slots| == |fields|
            && SlotOk(Stored, f, mem.slots[i]) && HoldsSlot(f, m.slots[i], mem.slots[i])
            && HoldsMember(f, m.unions, mem.unions)
            && (Current(f, mem.unions) ==> ValueOk(Stored, f, mem.unions[f.htype.group].v))
    decreases fields, 0
  {
    hide ValueOk, FieldOk, SlotOk, HoldsSlot, HoldsValue, InMemory, SlotInMemory;
    var f := fields[i];
    assert FieldOk(f) && SlotOk(Decoded, f, m.slots[i]);
    SlotInMemoryHolds(f, m.slots[i]);
    if Current(f, m.unions) {
      var u := m.unions[f.htype.group];
      InMemoryHolds(f, u.v);
      MemberFound(fields, f.htype.group, u, 0, i);
    }
  }

  /** For every message the decoder can produce there is a struct that holds it. */
  lemma {:induction false} SomeStructHolds(fields: seq<Field>, m: Message)
    requires FieldsOk(fields) && MessageOk(Decoded, fields, m)
    ensures MessageOk(Stored, fields, SomeStruct(fields, m)) && Holds(fields, m, SomeStruct(fields, m))
    decreases fields, 1
  {
    hide FieldsOk, ValueOk, SlotOk, HoldsSlot, HoldsMember, SlotsInMemory, MemberInMemory, WhichOk;
    var mem := SomeStruct(fields, m);
    forall i | 0 <= i < |fields|
      ensures SlotOk(Stored, fields[i], mem.slots[i]) && HoldsSlot(fields[i], m.slots[i], mem.slots[i])
      ensures HoldsMember(fields[i], m.unions, mem.unions)
      ensures Current(fields[i], mem.unions) ==> ValueOk(Stored, fields[i], mem.unions[fields[i].htype.group].v)
    {
      EntryInMemory(fields, m, i);
    }
    forall g | g in mem.unions ensures WhichOk(fields, g, mem.unions[g].which) {
      assert mem.unions[g].which == m.unions[g].which;
    }
  }
}
