/**
 Field descriptors (pb_field_t) and the messages they describe.

 A descriptor's LTYPE, HTYPE and ATYPE are datatypes instead of the bit fields of a type byte.
 A message is a typed tree instead of a C struct: one slot per descriptor entry, and one cell
 per union. What a struct holds in memory nobody may read has no counterpart: elements at or
 beyond an array's count, bytes after a string's terminator, members of a union that are not
 the current one.
 */
module Schema {
  import opened Bytes
  import opened Integers

  datatype LType =
    | LBool | LVarint | LUVarint | LSVarint | LFixed32 | LFixed64
    | LBytes | LString | LSubmessage(fields: seq<Field>) | LFixedBytes

  /** Fields of one union share its `group`. */
  datatype HType = HRequired | HOptional | HRepeated | HOneof(group: nat)

  datatype AType = AStatic | APointer

  /** pb_field_t without its terminator entry: an array of entries is a sequence.
      `default` is the default value a non-null `ptr` points to. */
  datatype Field = Field(
    tag: nat, ltype: LType, htype: HType, atype: AType,
    dataOffset: nat, sizeOffset: int, dataSize: nat, arraySize: nat, default: Option<Value>)

  /** Int: booleans, integers and the raw words of fixed32/fixed64.
      Blob: the used part of a bytes array; the characters before the terminator the decoder wrote, or a
      string buffer's whole contents when no terminator fits; a fixed-length byte array. */
  datatype Value = Int(n: int) | Blob(b: seq<byte>) | Sub(m: Message)

  /** Single: a required field or a proto3 field without has_ flag. Rep: the first `count` elements of an array;
      for an array without counter, the elements written so far. Member: the value is in the union's cell. */
  datatype Slot = Single(v: Value) | Opt(has: bool, v: Value) | Rep(items: seq<Value>) | Member

  /** The which_ tag and the current member. A union whose which_ is 0 has no cell. */
  datatype Union = Union(which: nat, v: Value)

  datatype Message = Message(slots: seq<Slot>, unions: map<nat, Union>)

  // PB_LTYPE(type) <= PB_LTYPE_LAST_PACKABLE
  predicate Packable(f: Field) {
    || f.ltype.LBool? || f.ltype.LVarint? || f.ltype.LUVarint? || f.ltype.LSVarint?
    || f.ltype.LFixed32? || f.ltype.LFixed64?
  }

  /** A repeated field without _count: the decoder's pSize == pData. */
  predicate FixedCount(f: Field) {
    f.htype.HRepeated? && f.sizeOffset == 0
  }

  /** A proto3 field without has_ flag. */
  predicate Implicit(f: Field) {
    f.htype.HOptional? && f.sizeOffset == 0
  }

  // ---------- well-formed descriptors ----------

  predicate FieldOk(f: Field)
    decreases f
  {
    && 1 <= f.tag < 0x2000_0000 && f.tag <= SizeMax()
    && f.dataSize <= SizeMax() && f.arraySize <= SizeMax()
    && f.atype.AStatic?
    && (Implicit(f) ==> f.default.None?)
    && (f.default.Some? ==> ValueOk(Decoded, f, f.default.value))
    && match f.ltype
       case LBool => f.dataSize == 1
       case LVarint | LUVarint | LSVarint => IntWidth(f.dataSize)
       case LFixed32 => f.dataSize == 4
       case LFixed64 => f.dataSize == 8
       case LBytes => SizeBytes() <= f.dataSize
       case LString => 1 <= f.dataSize
       case LSubmessage(fields) => FieldsOk(fields)
       case LFixedBytes => true
  }

  predicate FieldsOk(fields: seq<Field>)
    decreases fields
  {
    && (forall i | 0 <= i < |fields| :: FieldOk(fields[i]))
    && (forall i, j | 0 <= i < j < |fields| :: fields[i].tag != fields[j].tag)
  }

  lemma TagsNonZero(fields: seq<Field>)
    requires FieldsOk(fields)
    ensures forall i | 0 <= i < |fields| :: fields[i].tag != 0
  {
    forall i | 0 <= i < |fields| ensures fields[i].tag != 0 { assert FieldOk(fields[i]); }
  }

  // ---------- messages that match their descriptor ----------

  /** Raw: what a struct can hold at all; a bool is any byte, and which_ may name no member. Stored: what a struct
      filled in properly holds. Decoded: what the decoder leaves, always within bounds. Shaped: values of the right
      kinds, in any number. */
  datatype View = Raw | Stored | Decoded | Shaped

  /** A view whose which_ tags name members. */
  type Proper = view: View | view.Stored? || view.Decoded? witness Stored

  predicate ValueOk(view: View, f: Field, v: Value)
    decreases f, 0
  {
    match f.ltype
    case LSubmessage(fields) => v.Sub? && MessageOk(view, fields, v.m)
    case LBytes | LString | LFixedBytes => v.Blob? && (view.Shaped? || BlobFits(view, f, |v.b|))
    case _ => v.Int? && (view.Shaped? || IntFits(view, f, v.n))
  }

  predicate IntFits(view: View, f: Field, n: int) {
    match f.ltype
    case LBool => n == 0 || n == 1 || (view.Raw? && 0 <= n < 256)
    case LVarint | LSVarint => InSigned(f.dataSize, n)
    case LUVarint => InUnsigned(f.dataSize, n)
    case LFixed32 => InUnsigned(4, n)
    case _ => InUnsigned(8, n)
  }

  predicate BlobFits(view: View, f: Field, size: nat) {
    match f.ltype
    case LBytes => size <= SizeMax() && (view.Decoded? ==> size + SizeBytes() <= f.dataSize)
    case LString => size <= f.dataSize && (view.Decoded? ==> size < f.dataSize)
    case _ => size == f.dataSize
  }

  predicate SlotOk(view: View, f: Field, slot: Slot)
    decreases f, 1
  {
    match f.htype
    case HRequired => slot.Single? && ValueOk(view, f, slot.v)
    case HOptional =>
      if Implicit(f) then slot.Single? && ValueOk(view, f, slot.v) else slot.Opt? && ValueOk(view, f, slot.v)
    case HRepeated =>
      && slot.Rep?
      && (forall k | 0 <= k < |slot.items| :: ValueOk(view, f, slot.items[k]))
      && (view.Decoded? ==> |slot.items| <= f.arraySize)
      && ((view.Raw? || view.Stored?) && FixedCount(f) ==> |slot.items| == f.arraySize)
    case HOneof(_) => slot.Member?
  }

  /** The union cell of a oneof field, when that field is the current member. */
  predicate Current(f: Field, unions: map<nat, Union>) {
    f.htype.HOneof? && f.htype.group in unions && unions[f.htype.group].which == f.tag
  }

  /** which_ names a member of its union. */
  predicate WhichOk(fields: seq<Field>, g: nat, which: nat) {
    exists i :: 0 <= i < |fields| && fields[i].htype == HOneof(g) && fields[i].tag == which
  }

  predicate MessageOk(view: View, fields: seq<Field>, m: Message)
    decreases fields
  {
    && |m.slots| == |fields|
    && (forall i | 0 <= i < |fields| :: SlotOk(view, fields[i], m.slots[i]))
    && (forall i | 0 <= i < |fields| && Current(fields[i], m.unions) ::
          ValueOk(view, fields[i], m.unions[fields[i].htype.group].v))
    && (view.Stored? || view.Decoded? ==> forall g | g in m.unions :: WhichOk(fields, g, m.unions[g].which))
  }

  // ---------- default values (pb_message_set_to_defaults) ----------

  function Zeros(n: nat): (s: seq<byte>)
    ensures |s| == n
  {
    seq(n, _ => 0)
  }

  function DefaultValue(f: Field): Value
    decreases f, 0
  {
    match f.ltype
    case LSubmessage(fields) => Sub(Defaults(fields))
    case LBytes | LString => if f.default.Some? then f.default.value else Blob([])
    case LFixedBytes => if f.default.Some? then f.default.value else Blob(Zeros(f.dataSize))
    case _ => if f.default.Some? then f.default.value else Int(0)
  }

  function DefaultSlot(f: Field): Slot
    decreases f, 1
  {
    match f.htype
    case HRequired => Single(DefaultValue(f))
    case HOptional => if Implicit(f) then Single(DefaultValue(f)) else Opt(false, DefaultValue(f))
    case HRepeated => Rep([])
    case HOneof(_) => Member
  }

  function DefaultSlots(fields: seq<Field>): (slots: seq<Slot>)
    ensures |slots| == |fields|
    ensures forall i | 0 <= i < |fields| :: slots[i] == DefaultSlot(fields[i])
    decreases fields, 0
  {
    if fields == [] then [] else [DefaultSlot(fields[0])] + DefaultSlots(fields[1..])
  }

  function Defaults(fields: seq<Field>): (m: Message)
    decreases fields, 1
  {
    Message(DefaultSlots(fields), map[])
  }

  // ---------- searching ----------

  function FindFrom(fields: seq<Field>, tag: nat, i: nat): (r: Option<nat>)
    requires i <= |fields|
    ensures r.Some? ==> i <= r.value < |fields| && fields[r.value].tag == tag
    ensures r.None? ==> forall k | i <= k < |fields| :: fields[k].tag != tag
    decreases |fields| - i
  {
    if i == |fields| then None
    else if fields[i].tag == tag then Some(i)
    else FindFrom(fields, tag, i + 1)
  }

  function FindField(fields: seq<Field>, tag: nat): (r: Option<nat>)
    ensures r.Some? ==> r.value < |fields| && fields[r.value].tag == tag
    ensures r.None? ==> forall k | 0 <= k < |fields| :: fields[k].tag != tag
  {
    FindFrom(fields, tag, 0)
  }

  /** Number of required fields among the first i: the iterator's required_field_index at i. */
  function RequiredBefore(fields: seq<Field>, i: nat): (n: nat)
    requires i <= |fields|
    ensures n <= i
  {
    if i == 0 then 0 else RequiredBefore(fields, i - 1) + (if fields[i - 1].htype.HRequired? then 1 else 0)
  }
}
