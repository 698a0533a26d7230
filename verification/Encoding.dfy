/**
 The bytes a message is written as. None is an encoding error. A value that does not have its
 descriptor's shape, which a C struct cannot express, is an error too.
 */
module Encoding {
  import opened Bytes
  import opened Integers
  import opened Varint
  import opened Schema

  type Wire = Option<seq<byte>>

  const WT_VARINT: nat := 0
  const WT_64BIT: nat := 1
  const WT_STRING: nat := 2
  const WT_32BIT: nat := 5

  /** pb_encode_tag_for_field */
  function WireType(f: Field): (w: nat)
    ensures w < 8
  {
    match f.ltype
    case LBool | LVarint | LUVarint | LSVarint => WT_VARINT
    case LFixed32 => WT_32BIT
    case LFixed64 => WT_64BIT
    case LBytes | LString | LSubmessage(_) | LFixedBytes => WT_STRING
  }

  /** pb_encode_tag */
  function EncTag(wireType: nat, tag: nat): (s: seq<byte>)
    ensures |s| > 0
  {
    EncVarint(8 * tag + wireType)
  }

  /** pb_encode_string: a length and the bytes. */
  function EncString(b: seq<byte>): seq<byte> {
    EncVarint(Low64(|b|)) + b
  }

  /** strnlen: the bytes before the first NUL. */
  function CStr(b: seq<byte>): (s: seq<byte>)
    ensures |s| <= |b| && s == b[..|s|]
    ensures 0 !in s
    ensures |s| < |b| ==> b[|s|] == 0
  {
    if b == [] || b[0] == 0 then [] else [b[0]] + CStr(b[1..])
  }

  function Append(a: Wire, b: Wire): Wire {
    if a.Some? && b.Some? then Some(a.value + b.value) else None
  }

  /** The pb_enc_* functions. */
  function EncodeValue(f: Field, v: Value): Wire
    decreases f, 0
  {
    match (f.ltype, v)
    case (LBool, Int(n)) => Some(EncVarint(if n != 0 then 1 else 0))
    case (LVarint, Int(n)) => if IntWidth(f.dataSize) then Some(EncVarint(Low64(n))) else None
    case (LUVarint, Int(n)) => if IntWidth(f.dataSize) then Some(EncVarint(Low64(n))) else None
    case (LSVarint, Int(n)) => if IntWidth(f.dataSize) then Some(EncVarint(Low64(ZigZag(n)))) else None
    case (LFixed32, Int(n)) => Some(LittleEndian(Low32(n), 4))
    case (LFixed64, Int(n)) => Some(LittleEndian(Low64(n), 8))
    case (LBytes, Blob(b)) => if |b| + SizeBytes() > f.dataSize then None else Some(EncString(b))
    case (LString, Blob(b)) => Some(EncString(CStr(b)))
    case (LFixedBytes, Blob(b)) => Some(EncString(b))
    case (LSubmessage(fields), Sub(m)) =>
      (match Encode(fields, m)
       case None => None
       case Some(bytes) => Some(EncString(bytes)))
    case _ => None
  }

  /** The values of a packed array one after another. */
  function EncodePacked(f: Field, items: seq<Value>): Wire
    decreases f, 1, |items|
  {
    if items == [] then Some([])
    else Append(EncodeValue(f, items[0]), EncodePacked(f, items[1..]))
  }

  /** The values of an unpacked array, each under its own tag. */
  function EncodeUnpacked(f: Field, items: seq<Value>): Wire
    decreases f, 1, |items|
  {
    if items == [] then Some([])
    else Append(EncodeTagged(f, items[0]), EncodeUnpacked(f, items[1..]))
  }

  function EncodeTagged(f: Field, v: Value): Wire
    decreases f, 1, 0
  {
    Append(Some(EncTag(WireType(f), f.tag)), EncodeValue(f, v))
  }

  /** encode_array */
  function EncodeArray(f: Field, items: seq<Value>): Wire
    decreases f, 2
  {
    if items == [] then Some([])
    else if |items| > f.arraySize then None
    else if Packable(f) then
      (match EncodePacked(f, items)
       case None => None
       case Some(data) => Some(EncTag(WT_STRING, f.tag) + EncString(data)))
    else EncodeUnpacked(f, items)
  }

  /** pb_check_proto3_default_value for the fields of a message, from entry i on. */
  predicate AllDefault(fields: seq<Field>, m: Message, i: nat)
    decreases fields, 1, |fields| - i
  {
    i >= |fields| || i >= |m.slots| ||
    (IsDefault(fields[i], m.slots[i], m.unions) && AllDefault(fields, m, i + 1))
  }

  /** pb_check_proto3_default_value */
  predicate IsDefault(f: Field, slot: Slot, unions: map<nat, Union>)
    decreases f, 1
  {
    match f.htype
    case HRequired => false
    case HRepeated => f.sizeOffset != 0 && slot.Rep? && slot.items == []
    case HOneof(g) => g !in unions
    case HOptional =>
      if f.sizeOffset != 0 then slot.Opt? && !slot.has
      else slot.Single? && IsZero(f, slot.v)
  }

  /** The value tests of pb_check_proto3_default_value for a proto3 singular field. */
  predicate IsZero(f: Field, v: Value)
    decreases f, 0
  {
    match (f.ltype, v)
    case (LBytes, Blob(b)) => b == []
    case (LString, Blob(b)) => b == [] || b[0] == 0
    case (LFixedBytes, Blob(_)) => f.dataSize == 0
    case (LSubmessage(fields), Sub(m)) => AllDefault(fields, m, 0)
    case (_, Int(n)) => n == 0
    case _ => false
  }

  /** encode_basic_field */
  function EncodeField(f: Field, slot: Slot, unions: map<nat, Union>): Wire
    decreases f, 3
  {
    match (f.htype, slot)
    case (HRequired, Single(v)) => EncodeTagged(f, v)
    case (HOptional, Opt(has, v)) =>
      if f.sizeOffset == 0 then None else if has then EncodeTagged(f, v) else Some([])
    case (HOptional, Single(v)) =>
      if f.sizeOffset != 0 then None else if IsZero(f, v) then Some([]) else EncodeTagged(f, v)
    case (HRepeated, Rep(items)) => EncodeArray(f, items)
    case (HOneof(g), Member) => if Current(f, unions) then EncodeTagged(f, unions[g].v) else Some([])
    case _ => None
  }

  /** The fields from entry i on. */
  function EncodeFrom(fields: seq<Field>, m: Message, i: nat): Wire
    requires |m.slots| == |fields|
    decreases fields, 1, |fields| - i
  {
    if i >= |fields| then Some([])
    else Append(EncodeField(fields[i], m.slots[i], m.unions), EncodeFrom(fields, m, i + 1))
  }

  /** pb_encode */
  function Encode(fields: seq<Field>, m: Message): Wire
    decreases fields, 2
  {
    if |m.slots| != |fields| then None else EncodeFrom(fields, m, 0)
  }
}
