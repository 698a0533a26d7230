/**
 The Protocol Buffers wire format, told independently of the encoder: which bytes stand for a value, a
 record, an array and a message, and which messages cannot be written. The encoder writes exactly these.
 The format is that of the Protocol Buffers guide, sections "Base 128 Varints", "Signed Integers" and
 "Packed Repeated Fields"; which proto3 fields are omitted is nanopb's choice.
 */
module WireFormat {
  import opened Bytes
  import opened Schema
  import opened Encoding

  // ---------- values ----------

  /** Septets, the lowest first. */
  function Sum128(s: seq<byte>): nat {
    if s == [] then 0 else s[0] % 128 + 128 * Sum128(s[1..])
  }

  /** The base-128 form of n: all bytes but the last have the high bit, and the last is needed. */
  predicate IsVarint(s: seq<byte>, n: int) {
    && s != [] && Sum128(s) == n
    && (forall k | 0 <= k < |s| - 1 :: s[k] >= 128)
    && s[|s| - 1] < 128 && (|s| > 1 ==> s[|s| - 1] > 0)
  }

  /** A length and the contents. */
  predicate IsBytes(s: seq<byte>, contents: seq<byte>) {
    var size := |s| - |contents|;
    size >= 0 && IsVarint(s[..size], |contents|) && s[size..] == contents
  }

  /** The characters of b before the first NUL, or all of them. */
  predicate BeforeNul(b: seq<byte>, text: seq<byte>) {
    && |text| <= |b| && text == b[..|text|]
    && (forall k | 0 <= k < |text| :: text[k] != 0)
    && (|text| < |b| ==> b[|text|] == 0)
  }

  /** Four bytes, the lowest first. */
  predicate Is32Bits(s: seq<byte>, n: int) {
    |s| == 4 &&
    var a: int, b: int, c: int, d: int := s[0], s[1], s[2], s[3];
    n == a + 0x100 * b + 0x1_0000 * c + 0x100_0000 * d
  }

  ghost predicate ValueBytes(f: Field, v: Value, s: seq<byte>)
    decreases f, 0
  {
    match (f.ltype, v)
    case (LBool, Int(n)) => s == [if n != 0 then 1 else 0]
    case (LVarint, Int(n)) => IsVarint(s, if n < 0 then n + 0x1_0000_0000_0000_0000 else n)
    case (LUVarint, Int(n)) => IsVarint(s, n)
    case (LSVarint, Int(n)) => IsVarint(s, if n < 0 then -2 * n - 1 else 2 * n)
    case (LFixed32, Int(n)) => Is32Bits(s, n)
    case (LFixed64, Int(n)) => |s| == 8 && Is32Bits(s[..4], n % 0x1_0000_0000) && Is32Bits(s[4..], n / 0x1_0000_0000)
    case (LBytes, Blob(b)) => IsBytes(s, b)
    case (LFixedBytes, Blob(b)) => IsBytes(s, b)
    case (LString, Blob(b)) => exists text :: BeforeNul(b, text) && IsBytes(s, text)
    case (LSubmessage(fields), Sub(m)) => exists payload :: IsBytes(s, payload) && MessageBytes(fields, m, payload)
    case _ => false
  }

  /** The wire type of a single value. */
  function WireTypeNumber(t: LType): nat {
    match t
    case LBool | LVarint | LUVarint | LSVarint => 0
    case LFixed64 => 1
    case LBytes | LString | LSubmessage(_) | LFixedBytes => 2
    case LFixed32 => 5
  }

  ghost predicate RecordBytes(f: Field, v: Value, s: seq<byte>)
    decreases f, 1
  {
    exists size :: 0 <= size <= |s|
      && IsVarint(s[..size], 8 * f.tag + WireTypeNumber(f.ltype)) && ValueBytes(f, v, s[size..])
  }

  // ---------- arrays ----------

  function Join(parts: seq<seq<byte>>): seq<byte> {
    if parts == [] then [] else parts[0] + Join(parts[1..])
  }

  /** The types whose arrays are packed. */
  predicate Numeric(t: LType) {
    match t
    case LBool | LVarint | LUVarint | LSVarint | LFixed32 | LFixed64 => true
    case LBytes | LString | LSubmessage(_) | LFixedBytes => false
  }

  ghost predicate ValuesBytes(f: Field, items: seq<Value>, parts: seq<seq<byte>>)
    decreases f, 1
  {
    |parts| == |items| && forall k | 0 <= k < |items| :: ValueBytes(f, items[k], parts[k])
  }

  ghost predicate RecordsBytes(f: Field, items: seq<Value>, parts: seq<seq<byte>>)
    decreases f, 2
  {
    |parts| == |items| && forall k | 0 <= k < |items| :: RecordBytes(f, items[k], parts[k])
  }

  /** One length-delimited record of all elements, or one record for each. */
  ghost predicate ArrayBytes(f: Field, items: seq<Value>, s: seq<byte>)
    decreases f, 3
  {
    if items == [] then s == []
    else if Numeric(f.ltype) then
      exists size, parts :: 0 <= size <= |s| && IsVarint(s[..size], 8 * f.tag + 2)
        && ValuesBytes(f, items, parts) && IsBytes(s[size..], Join(parts))
    else
      exists parts :: RecordsBytes(f, items, parts) && s == Join(parts)
  }

  // ---------- fields and messages ----------

  /** A proto3 value that is not written. */
  predicate Vanishes(f: Field, v: Value)
    decreases f, 0
  {
    match (f.ltype, v)
    case (LBytes, Blob(b)) => b == []
    case (LString, Blob(b)) => BeforeNul(b, [])
    case (LFixedBytes, Blob(_)) => f.dataSize == 0
    case (LSubmessage(fields), Sub(m)) =>
      |m.slots| == |fields| && forall i | 0 <= i < |fields| :: FieldVanishes(fields[i], m.slots[i], m.unions)
    case (_, Int(n)) => n == 0
    case _ => false
  }

  /** Not required, no array without counter, a count, a flag or a which_ of zero, a proto3 value that vanishes. */
  predicate FieldVanishes(f: Field, slot: Slot, unions: map<nat, Union>)
    decreases f, 1
  {
    match f.htype
    case HRequired => false
    case HRepeated => f.sizeOffset != 0 && slot == Rep([])
    case HOneof(g) => g !in unions
    case HOptional =>
      match slot
      case Opt(has, _) => f.sizeOffset != 0 && !has
      case Single(v) => f.sizeOffset == 0 && Vanishes(f, v)
      case _ => false
  }

  ghost predicate FieldBytes(f: Field, slot: Slot, unions: map<nat, Union>, s: seq<byte>)
    decreases f, 4
  {
    match (f.htype, slot)
    case (HRequired, Single(v)) => RecordBytes(f, v, s)
    case (HOptional, Opt(has, v)) => if has then RecordBytes(f, v, s) else s == []
    case (HOptional, Single(v)) => if Vanishes(f, v) then s == [] else RecordBytes(f, v, s)
    case (HRepeated, Rep(items)) => ArrayBytes(f, items, s)
    case (HOneof(g), Member) =>
      if g in unions && unions[g].which == f.tag then RecordBytes(f, unions[g].v, s) else s == []
    case _ => false
  }

  /** The fields of a message in the order of its entries. */
  ghost predicate FieldsBytes(fields: seq<Field>, m: Message, parts: seq<seq<byte>>)
    decreases fields, 0
  {
    && |m.slots| == |fields| == |parts|
    && forall i | 0 <= i < |fields| :: FieldBytes(fields[i], m.slots[i], m.unions, parts[i])
  }

  ghost predicate MessageBytes(fields: seq<Field>, m: Message, s: seq<byte>)
    decreases fields, 1
  {
    exists parts :: FieldsBytes(fields, m, parts) && s == Join(parts)
  }

  // ---------- the encoder's tables are these ----------

  lemma WireTypeIsNumber(f: Field)
    ensures WireType(f) == WireTypeNumber(f.ltype)
  {}

  lemma PackableIsNumeric(f: Field)
    ensures Packable(f) == Numeric(f.ltype)
  {}
}
