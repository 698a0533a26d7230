/**
 When two messages cannot be told apart, when the strings of a message are terminated, and what
 arrives of a message that was sent, with the round trips of the scalar types.
 */
module Sameness {
  import opened Bytes
  import opened Integers
  import opened Varint
  import opened Schema
  import opened Encoding
  import opened Decoding

  // ---------- what can be told apart ----------

  predicate SameValue(f: Field, a: Value, b: Value)
    decreases f, 0
  {
    match f.ltype
    case LBool => a.Int? && b.Int? && (a.n != 0 <==> b.n != 0)
    case LString => a.Blob? && b.Blob? && CStr(a.b) == CStr(b.b)
    case LSubmessage(fields) => a.Sub? && b.Sub? && Same(fields, a.m, b.m)
    case _ => a == b
  }

  predicate SameSlot(f: Field, a: Slot, b: Slot)
    decreases f, 1
  {
    match f.htype
    case HRequired => a.Single? && b.Single? && SameValue(f, a.v, b.v)
    case HOptional =>
      if Implicit(f) then a.Single? && b.Single? && SameValue(f, a.v, b.v)
      else a.Opt? && b.Opt? && a.has == b.has && (a.has ==> SameValue(f, a.v, b.v))
    case HRepeated =>
      a.Rep? && b.Rep? && |a.items| == |b.items| &&
      forall k | 0 <= k < |a.items| :: SameValue(f, a.items[k], b.items[k])
    case HOneof(_) => a.Member? && b.Member?
  }

  predicate SameMember(f: Field, a: map<nat, Union>, b: map<nat, Union>)
    decreases f, 1
  {
    Current(f, a) == Current(f, b) &&
    (Current(f, a) ==> SameValue(f, a[f.htype.group].v, b[f.htype.group].v))
  }

  /** The two messages agree on everything but absent optional fields, members that are not current,
      string bytes behind the terminator, and how a bool spells true. */
  predicate Same(fields: seq<Field>, a: Message, b: Message)
    decreases fields
  {
    && |a.slots| == |b.slots| == |fields|
    && (forall i | 0 <= i < |fields| :: SameSlot(fields[i], a.slots[i], b.slots[i]))
    && (forall i | 0 <= i < |fields| :: SameMember(fields[i], a.unions, b.unions))
  }

  // ---------- when strings are terminated ----------

  predicate ValueTerminated(f: Field, v: Value)
    decreases f, 0
  {
    match f.ltype
    case LString => v.Blob? && |CStr(v.b)| < f.dataSize
    case LSubmessage(fields) => v.Sub? && Terminated(fields, v.m)
    case _ => true
  }

  predicate AllTerminated(f: Field, items: seq<Value>)
    decreases f, 1
  {
    forall k | 0 <= k < |items| :: ValueTerminated(f, items[k])
  }

  /** The encoder writes something for this field. */
  predicate Present(f: Field, slot: Slot, unions: map<nat, Union>) {
    match slot
    case Single(v) => Implicit(f) ==> !IsZero(f, v)
    case Opt(has, _) => has
    case Rep(items) => items != []
    case Member => Current(f, unions)
  }

  predicate FieldTerminated(f: Field, slot: Slot, unions: map<nat, Union>)
    decreases f, 2
  {
    Present(f, slot, unions) ==>
      match slot
      case Single(v) => ValueTerminated(f, v)
      case Opt(_, v) => ValueTerminated(f, v)
      case Rep(items) => AllTerminated(f, items)
      case Member => Current(f, unions) && ValueTerminated(f, unions[f.htype.group].v)
  }

  /** Every string the encoder writes has a NUL within its buffer. */
  predicate Terminated(fields: seq<Field>, m: Message)
    decreases fields
  {
    |m.slots| == |fields| && TerminatedFrom(fields, m, 0)
  }

  predicate TerminatedFrom(fields: seq<Field>, m: Message, i: nat)
    requires |m.slots| == |fields|
    decreases fields, 0, |fields| - i
  {
    i < |fields| ==> FieldTerminated(fields[i], m.slots[i], m.unions) && TerminatedFrom(fields, m, i + 1)
  }

  // ---------- what the decoder receives ----------

  function ReceivedValue(f: Field, v: Value): Value
    decreases f, 0
  {
    match (f.ltype, v)
    case (LBool, Int(n)) => Int(if n != 0 then 1 else 0)
    case (LString, Blob(b)) => Blob(CStr(b))
    case (LSubmessage(fields), Sub(m)) => Sub(Received(fields, m))
    case _ => v
  }

  function ReceivedItems(f: Field, items: seq<Value>): (r: seq<Value>)
    ensures |r| == |items|
    ensures forall k | 0 <= k < |items| :: r[k] == ReceivedValue(f, items[k])
    decreases f, 1, |items|
  {
    if items == [] then [] else [ReceivedValue(f, items[0])] + ReceivedItems(f, items[1..])
  }

  /** The state after the record or records of entry i. */
  function AfterField(fields: seq<Field>, m: Message, i: nat, st: State): State
    requires i < |fields| == |m.slots| == |st.msg.slots|
    decreases fields, 0
  {
    var f, slot := fields[i], m.slots[i];
    if !Present(f, slot, m.unions) then st
    else match slot
      case Single(v) =>
        st.(msg := st.msg.(slots := st.msg.slots[i := Single(ReceivedValue(f, v))]), seen := st.seen + {i})
      case Opt(_, v) =>
        st.(msg := st.msg.(slots := st.msg.slots[i := Opt(true, ReceivedValue(f, v))]), seen := st.seen + {i})
      case Rep(items) =>
        State(st.msg.(slots := st.msg.slots[i := Rep(ReceivedItems(f, items))]), st.seen + {i},
              if FixedCount(f) then Some(i) else st.fixedField)
      case Member =>
        var g := f.htype.group;
        var unions := st.msg.unions[g := Union(f.tag, ReceivedValue(f, m.unions[g].v))];
        st.(msg := st.msg.(unions := unions), seen := st.seen + {i})
  }

  /** The state after the records of the first i entries. */
  function AfterFields(fields: seq<Field>, m: Message, i: nat): (st: State)
    requires i <= |fields| == |m.slots|
    ensures |st.msg.slots| == |fields|
    decreases fields, 1, i
  {
    if i == 0 then Start(Defaults(fields)) else AfterField(fields, m, i - 1, AfterFields(fields, m, i - 1))
  }

  function Received(fields: seq<Field>, m: Message): Message
    decreases fields, 2
  {
    if |m.slots| == |fields| then AfterFields(fields, m, |fields|).msg else m
  }

  // ---------- scalars ----------

  lemma StringReceived(b: seq<byte>, t: seq<byte>)
    requires |b| < U32
    ensures Varint32(EncString(b) + t) == Some((|b|, b + t))
    ensures Take(|b|, b + t) == Some((b, t))
    ensures TakeString(EncString(b) + t) == Some((b, t))
  {
    hide EncVarint, Varint32;
    assert EncString(b) + t == EncVarint(|b|) + (b + t);
    Varint32RoundTrip(|b|, b + t);
    assert (b + t)[..|b|] == b && (b + t)[|b|..] == t;
  }

  lemma IntReceived(f: Field, v: Value, t: seq<byte>)
    requires FieldOk(f) && ValueOk(Raw, f, v)
    requires f.ltype.LVarint? || f.ltype.LUVarint? || f.ltype.LSVarint?
    ensures EncodeValue(f, v).Some?
    ensures DecodeScalar(f, EncodeValue(f, v).value + t) == Some((v, t))
  {
    hide EncVarint, Varint64;
    var n, w := v.n, f.dataSize;
    CastKeepsExactlyWhatFits(w, n);
    match f.ltype
    case LVarint =>
      SignedRoundTrip(w, n);
      VarintRoundTrip(Low64(n), t);
    case LUVarint =>
      VarintRoundTrip(n, t);
    case LSVarint =>
      ZigZagRoundTrip(n);
      VarintRoundTrip(ZigZag(n), t);
  }

  lemma FixedReceived(n: nat, width: nat, t: seq<byte>)
    requires n < Pow256(width)
    ensures DecodeFixed(width, LittleEndian(n, width) + t) == Some((Int(n), t))
  {
    var b := LittleEndian(n, width);
    assert (b + t)[..width] == b && (b + t)[width..] == t;
    LittleEndianRoundTrip(n, width);
  }

  lemma BlobReceived(f: Field, v: Value, t: seq<byte>)
    requires FieldOk(f) && ValueOk(Raw, f, v) && EncodeValue(f, v).Some?
    requires f.ltype.LBytes? || f.ltype.LString? || f.ltype.LFixedBytes?
    ensures DecodeBlob(f, EncodeValue(f, v).value + t)
         == if ValueTerminated(f, v) then Some((ReceivedValue(f, v), t)) else None
  {
    hide EncVarint, Varint32;
    StringReceived(if f.ltype.LString? then CStr(v.b) else v.b, t);
  }

  lemma ScalarReceived(f: Field, v: Value, t: seq<byte>)
    requires FieldOk(f) && ValueOk(Raw, f, v) && EncodeValue(f, v).Some? && !f.ltype.LSubmessage?
    ensures DecodeScalar(f, EncodeValue(f, v).value + t)
         == if ValueTerminated(f, v) then Some((ReceivedValue(f, v), t)) else None
  {
    hide EncVarint, Varint32, LittleEndian;
    match f.ltype
    case LBool => Varint32RoundTrip(if v.n != 0 then 1 else 0, t);
    case LVarint | LUVarint | LSVarint => IntReceived(f, v, t);
    case LFixed32 => Pow256At4And8(); FixedReceived(v.n, 4, t);
    case LFixed64 => Pow256At4And8(); FixedReceived(v.n, 8, t);
    case _ => BlobReceived(f, v, t);
  }

  lemma Pow256At4And8()
    ensures Pow256(4) == U32 && Pow256(8) == U64
  {
    assert Pow256(2) == 0x1_0000;
    assert Pow256(6) == 0x1_0000_0000_0000;
  }
}
