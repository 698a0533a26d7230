/**
 What the decoder makes of a byte string: the new state and the unread bytes, or None for failure.
 Every function sees only the bytes the current stream still holds.
 */
module Decoding {
  import opened Bytes
  import opened Integers
  import opened Varint
  import opened Schema
  import opened Encoding

  // ---------- pieces of a record ----------

  datatype Tag = TagError | Terminator(rest: seq<byte>) | Tag(number: nat, wireType: nat, rest: seq<byte>)

  /** pb_decode_tag: a zero byte where a tag should be ends the message. */
  function DecodeTag(s: seq<byte>): (r: Tag)
    ensures !r.TagError? ==> |r.rest| < |s|
  {
    match Varint32(s)
    case None => TagError
    case Some((t, rest)) => if t == 0 then Terminator(rest) else Tag(t / 8, t % 8, rest)
  }

  /** n raw bytes. */
  function Take(n: nat, s: seq<byte>): (r: Read<seq<byte>>)
    ensures r.Some? ==> |r.value.0| == n && |r.value.0| + |r.value.1| == |s|
  {
    if n > |s| then None else Some((s[..n], s[n..]))
  }

  /** A length and that many bytes: the contents of a substream (pb_make_string_substream). */
  function TakeString(s: seq<byte>): (r: Read<seq<byte>>)
    ensures r.Some? ==> |r.value.0| + |r.value.1| < |s|
  {
    match Varint32(s)
    case None => None
    case Some((n, rest)) => Take(n, rest)
  }

  /** pb_skip_field */
  function Skip(wireType: nat, s: seq<byte>): (r: Option<seq<byte>>)
    ensures r.Some? ==> |r.value| <= |s|
  {
    match wireType
    case 0 => (match RawVarint(s) case None => None case Some((_, rest)) => Some(rest))
    case 1 => (match Take(8, s) case None => None case Some((_, rest)) => Some(rest))
    case 2 => (match TakeString(s) case None => None case Some((_, rest)) => Some(rest))
    case 5 => (match Take(4, s) case None => None case Some((_, rest)) => Some(rest))
    case _ => None
  }

  /** "clamped != svalue" */
  function Clamp(f: Field, n: int): Option<Value> {
    if IntWidth(f.dataSize) && CastSigned(f.dataSize, n) == n then Some(Int(n)) else None
  }

  function ClampUnsigned(f: Field, n: nat): Option<Value> {
    if IntWidth(f.dataSize) && CastUnsigned(f.dataSize, n) == n then Some(Int(n)) else None
  }

  /** pb_dec_varint: fields of at most 32 bits keep the low 32 bits of the wire value. */
  function IntOf(f: Field, u: nat): Option<Value>
    requires u < U64
  {
    match f.ltype
    case LVarint => Clamp(f, if f.dataSize == 8 then ToInt64(u) else ToInt32(u))
    case LSVarint => Clamp(f, UnZigZag(u))
    case _ => ClampUnsigned(f, u)
  }

  function DecodeInt(f: Field, s: seq<byte>): (r: Read<Value>)
    ensures r.Some? ==> |r.value.1| < |s|
  {
    match Varint64(s)
    case None => None
    case Some((u, rest)) =>
      (match IntOf(f, u) case None => None case Some(v) => Some((v, rest)))
  }

  function DecodeBool(s: seq<byte>): (r: Read<Value>)
    ensures r.Some? ==> |r.value.1| < |s|
  {
    match Varint32(s)
    case None => None
    case Some((n, rest)) => Some((Int(if n != 0 then 1 else 0), rest))
  }

  function DecodeFixed(width: nat, s: seq<byte>): (r: Read<Value>)
    ensures r.Some? ==> |r.value.1| <= |s|
    ensures r.Some? && width > 0 ==> |r.value.1| < |s|
  {
    match Take(width, s)
    case None => None
    case Some((b, rest)) => Some((Int(FromLittleEndian(b)), rest))
  }

  /** pb_dec_bytes, pb_dec_string, pb_dec_fixed_length_bytes: the length is checked before the bytes are read. */
  function DecodeBlob(f: Field, s: seq<byte>): (r: Read<Value>)
    ensures r.Some? ==> |r.value.1| < |s|
  {
    match Varint32(s)
    case None => None
    case Some((n, rest)) =>
      var fits := match f.ltype
        case LBytes => n <= SizeMax() && n + SizeBytes() <= f.dataSize
        case LString => n + 1 <= f.dataSize
        case _ => n <= SizeMax() && (n == 0 || n == f.dataSize);
      if !fits then None
      else if f.ltype.LFixedBytes? && n == 0 then Some((Blob(Zeros(f.dataSize)), rest))
      else match Take(n, rest)
        case None => None
        case Some((b, rest')) => Some((Blob(b), rest'))
  }

  /** The pb_dec_* functions except pb_dec_submessage. They overwrite the value whatever it was. */
  function DecodeScalar(f: Field, s: seq<byte>): (r: Read<Value>)
    ensures r.Some? ==> |r.value.1| < |s|
  {
    match f.ltype
    case LBool => DecodeBool(s)
    case LVarint | LUVarint | LSVarint => DecodeInt(f, s)
    case LFixed32 => DecodeFixed(4, s)
    case LFixed64 => DecodeFixed(8, s)
    case LBytes | LString | LFixedBytes => DecodeBlob(f, s)
    case LSubmessage(_) => None
  }

  /** The elements of a packed record, appended to those already there. */
  function DecodePacked(f: Field, s: seq<byte>, items: seq<Value>): Option<seq<Value>>
    decreases |s|
  {
    if s == [] then Some(items)
    else if |items| >= f.arraySize then None
    else match DecodeScalar(f, s)
      case None => None
      case Some((v, rest)) => DecodePacked(f, rest, items + [v])
  }

  // ---------- the decoder's state within one message ----------

  /** seen: entries that occurred. fixedField: the array without counter being filled (fixed_count_field);
      its fixed_count_size is the number of elements in its slot. */
  datatype State = State(msg: Message, seen: set<nat>, fixedField: Option<nat>)

  /** How the records ended: with the stream, or at a zero tag. */
  datatype Run = Run(st: State, rest: seq<byte>, terminated: bool)

  function Start(m: Message): State {
    State(m, {}, None)
  }

  /** The array without counter that was decoded last received all its elements. */
  predicate FixedComplete(fields: seq<Field>, st: State) {
    match st.fixedField
    case None => true
    case Some(i) =>
      i < |fields| && i < |st.msg.slots| && st.msg.slots[i].Rep? && |st.msg.slots[i].items| == fields[i].arraySize
  }

  /** Every one of the first 64 required fields occurred. */
  predicate RequiredSeen(fields: seq<Field>, seen: set<nat>) {
    forall i | 0 <= i < |fields| && fields[i].htype.HRequired? && RequiredBefore(fields, i) < 64 :: i in seen
  }

  /** The value a submessage is decoded into: required and optional ones merge, others start afresh. */
  function SubTarget(f: Field, prev: Value): Message
    requires f.ltype.LSubmessage?
  {
    if (f.htype.HRequired? || f.htype.HOptional?) && prev.Sub? then prev.m else Defaults(f.ltype.fields)
  }

  /** PB_DECODERS[type]. */
  function DecodeValue(f: Field, s: seq<byte>, prev: Value): (r: Read<Value>)
    ensures r.Some? ==> |r.value.1| < |s|
    decreases |s|, 0
  {
    match f.ltype
    case LSubmessage(fields) =>
      (match TakeString(s)
       case None => None
       case Some((payload, rest)) =>
         match DecodeNoInit(fields, payload, SubTarget(f, prev))
         case None => None
         case Some((m, _)) => Some((Sub(m), rest)))
    case _ => DecodeScalar(f, s)
  }

  /** The HTYPE switch of decode_static_field on the field's own slot. */
  function DecodeSlot(f: Field, wireType: nat, s: seq<byte>, slot: Slot): (r: Read<Slot>)
    ensures r.Some? ==> |r.value.1| < |s|
    decreases |s|, 1
  {
    match slot
    case Single(prev) =>
      (match DecodeValue(f, s, prev) case None => None case Some((v, rest)) => Some((Single(v), rest)))
    case Opt(_, prev) =>
      (match DecodeValue(f, s, prev) case None => None case Some((v, rest)) => Some((Opt(true, v), rest)))
    case Rep(items) =>
      if wireType == WT_STRING && Packable(f) then
        match TakeString(s)
        case None => None
        case Some((payload, rest)) =>
          (match DecodePacked(f, payload, items) case None => None case Some(items') => Some((Rep(items'), rest)))
      else if |items| >= f.arraySize then None
      else (match DecodeValue(f, s, Int(0)) case None => None case Some((v, rest)) => Some((Rep(items + [v]), rest)))
    case Member => None
  }

  /** One record of entry i: pb_decode_noinit's loop body after the tag, when the field is known. */
  function DecodeEntry(fields: seq<Field>, i: nat, wireType: nat, s: seq<byte>, st: State): (r: Read<State>)
    requires i < |fields|
    ensures r.Some? ==> |r.value.1| < |s|
    decreases |s|, 2
  {
    var f := fields[i];
    if |st.msg.slots| != |fields| then None
    else if f.htype.HOneof? then
      match DecodeValue(f, s, Int(0))
      case None => None
      case Some((v, rest)) =>
        var unions := st.msg.unions[f.htype.group := Union(f.tag, v)];
        Some((st.(msg := st.msg.(unions := unions), seen := st.seen + {i}), rest))
    else if FixedCount(f) && st.fixedField != Some(i) && !FixedComplete(fields, st) then None
    else
      var slot := if FixedCount(f) && st.fixedField != Some(i) then Rep([]) else st.msg.slots[i];
      match DecodeSlot(f, wireType, s, slot)
      case None => None
      case Some((slot', rest)) =>
        Some((State(st.msg.(slots := st.msg.slots[i := slot']),
                    st.seen + {i},
                    if FixedCount(f) then Some(i) else st.fixedField), rest))
  }

  /** One turn of pb_decode_noinit's loop after the tag. A message without fields has only the terminator
      entry, whose tag 0 and type 0 make a record with tag number 0 decode as a bool that belongs to no field. */
  function DecodeRecord(fields: seq<Field>, tag: nat, wireType: nat, s: seq<byte>, st: State): (r: Read<State>)
    ensures r.Some? ==> |r.value.1| <= |s|
    decreases |s|, 3
  {
    match FindField(fields, tag)
    case Some(i) => DecodeEntry(fields, i, wireType, s, st)
    case None =>
      if fields == [] && tag == 0 then
        match DecodeBool(s) case None => None case Some((_, rest)) => Some((st, rest))
      else
        match Skip(wireType, s) case None => None case Some(rest) => Some((st, rest))
  }

  /** The record loop of pb_decode_noinit. */
  function DecodeRecords(fields: seq<Field>, s: seq<byte>, st: State): (r: Option<Run>)
    ensures r.Some? ==> |r.value.rest| <= |s|
    decreases |s|, 4
  {
    if s == [] then Some(Run(st, [], false))
    else match DecodeTag(s)
      case TagError => None
      case Terminator(rest) => Some(Run(st, rest, true))
      case Tag(tag, wireType, rest) =>
        match DecodeRecord(fields, tag, wireType, rest, st)
        case None => None
        case Some((st', rest')) => DecodeRecords(fields, rest', st')
  }

  /** pb_decode_noinit */
  function DecodeNoInit(fields: seq<Field>, s: seq<byte>, m: Message): (r: Read<Message>)
    ensures r.Some? ==> |r.value.1| <= |s|
    decreases |s|, 5
  {
    match DecodeRecords(fields, s, Start(m))
    case None => None
    case Some(run) =>
      if FixedComplete(fields, run.st) && RequiredSeen(fields, run.st.seen) then Some((run.st.msg, run.rest)) else None
  }

  /** pb_decode */
  function Decode(fields: seq<Field>, s: seq<byte>): (r: Read<Message>)
    ensures r.Some? ==> |r.value.1| <= |s|
  {
    DecodeNoInit(fields, s, Defaults(fields))
  }

  lemma DecodeIsNoInit(fields: seq<Field>, s: seq<byte>)
    ensures Decode(fields, s) == DecodeNoInit(fields, s, Defaults(fields))
  {}

  /** pb_decode_delimited */
  function DecodeDelimited(fields: seq<Field>, s: seq<byte>): (r: Read<Message>)
    ensures r.Some? ==> |r.value.1| < |s|
  {
    match TakeString(s)
    case None => None
    case Some((payload, rest)) =>
      match Decode(fields, payload)
      case None => None
      case Some((m, _)) => Some((m, rest))
  }
}
