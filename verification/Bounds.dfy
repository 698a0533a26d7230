/**
 Whatever bytes arrive, a decoded message stays within the storage its descriptor reserves: integers
 within their field, strings with room for the terminator, bytes within their array, counts at most
 array_size, which_ naming a member. The previous contents only have to satisfy the same bounds.
 */
module Bounds {
  import opened Bytes
  import opened Integers
  import opened Varint
  import opened Schema
  import opened Encoding
  import opened Decoding

  lemma IntInBounds(f: Field, u: nat)
    requires FieldOk(f) && u < U64 && IntOf(f, u).Some?
    requires f.ltype.LVarint? || f.ltype.LUVarint? || f.ltype.LSVarint?
    ensures ValueOk(Decoded, f, IntOf(f, u).value)
  {
    var w := f.dataSize;
    match f.ltype
    case LVarint => CastKeepsExactlyWhatFits(w, if w == 8 then ToInt64(u) else ToInt32(u));
    case LSVarint => UnZigZagRoundTrip(u); CastKeepsExactlyWhatFits(w, UnZigZag(u));
    case _ => CastKeepsExactlyWhatFits(w, u);
  }

  /** An integer field accepts a wire value exactly when it fits the field; plain signed fields of at most 32 bits
      look at its low 32 bits only. The stored value is the wire value. */
  lemma AcceptsWhatFits(f: Field, u: nat)
    requires IntWidth(f.dataSize) && u < U64
    ensures f.ltype.LUVarint? ==> IntOf(f, u) == if InUnsigned(f.dataSize, u) then Some(Int(u)) else None
    ensures f.ltype.LSVarint? ==>
      IntOf(f, u) == if InSigned(f.dataSize, UnZigZag(u)) then Some(Int(UnZigZag(u))) else None
    ensures f.ltype.LVarint? && f.dataSize == 8 ==> IntOf(f, u) == Some(Int(ToInt64(u)))
    ensures f.ltype.LVarint? && f.dataSize < 8 ==>
      IntOf(f, u) == if InSigned(f.dataSize, ToInt32(u)) then Some(Int(ToInt32(u))) else None
  {
    hide UnZigZag, ToInt32, CastSigned, CastUnsigned;
    var w := f.dataSize;
    UnZigZagRoundTrip(u);
    CastKeepsExactlyWhatFits(w, u);
    CastKeepsExactlyWhatFits(w, UnZigZag(u));
    CastKeepsExactlyWhatFits(w, ToInt32(u));
    CastKeepsExactlyWhatFits(8, ToInt64(u));
  }

  lemma ScalarInBounds(view: View, f: Field, s: seq<byte>)
    requires view.Decoded? || view.Shaped?
    requires FieldOk(f) && DecodeScalar(f, s).Some?
    ensures ValueOk(view, f, DecodeScalar(f, s).value.0)
  {
    match f.ltype
    case LVarint | LUVarint | LSVarint => IntInBounds(f, Varint64(s).value.0);
    case LFixed32 => FixedInBounds(s, 4);
    case LFixed64 => FixedInBounds(s, 8);
    case _ =>
  }

  lemma FixedInBounds(s: seq<byte>, n: nat)
    requires (n == 4 || n == 8) && n <= |s|
    ensures InUnsigned(n, FromLittleEndian(s[..n]))
  {
    FromLittleEndianBound(s[..n]);
    assert Pow256(4) == 0x1_0000_0000;
    assert Pow256(8) == 0x1_0000_0000_0000_0000;
  }

  lemma {:induction false} PackedInBounds(view: View, f: Field, s: seq<byte>, items: seq<Value>)
    requires view.Decoded? || view.Shaped?
    requires FieldOk(f) && DecodePacked(f, s, items).Some? && (view.Decoded? ==> |items| <= f.arraySize)
    requires forall k | 0 <= k < |items| :: ValueOk(view, f, items[k])
    ensures var r := DecodePacked(f, s, items).value;
            (view.Decoded? ==> |r| <= f.arraySize) && forall k | 0 <= k < |r| :: ValueOk(view, f, r[k])
    decreases |s|
  {
    hide DecodeScalar, ValueOk, FieldOk;
    if s != [] {
      var (v, rest) := DecodeScalar(f, s).value;
      ScalarInBounds(view, f, s);
      PackedInBounds(view, f, rest, items + [v]);
    }
  }

  lemma {:induction false} DefaultValueInBounds(view: View, f: Field)
    requires view.Decoded? || view.Shaped?
    requires FieldOk(f)
    ensures ValueOk(view, f, DefaultValue(f))
    decreases f, 0
  {
    if f.ltype.LSubmessage? { DefaultsInBounds(view, f.ltype.fields); }
  }

  lemma {:induction false} DefaultsInBounds(view: View, fields: seq<Field>)
    requires view.Decoded? || view.Shaped?
    requires FieldsOk(fields)
    ensures MessageOk(view, fields, Defaults(fields))
    decreases fields
  {
    hide DefaultValue, ValueOk, FieldOk;
    forall i | 0 <= i < |fields| ensures SlotOk(view, fields[i], Defaults(fields).slots[i]) {
      DefaultValueInBounds(view, fields[i]);
    }
  }

  /** What a slot may hold before a record of its field. */
  lemma ValueInBounds(view: View, f: Field, s: seq<byte>, prev: Value)
    requires view.Decoded? || view.Shaped?
    requires FieldOk(f) && DecodeValue(f, s, prev).Some?
    requires f.htype.HRequired? || f.htype.HOptional? ==> ValueOk(view, f, prev)
    ensures ValueOk(view, f, DecodeValue(f, s, prev).value.0)
    decreases |s|, 0
  {
    match f.ltype
    case LSubmessage(fields) =>
      var target := SubTarget(f, prev);
      DefaultsInBounds(view, fields);
      NoInitInBounds(view, fields, TakeString(s).value.0, target);
    case _ => ScalarInBounds(view, f, s);
  }

  lemma SlotInBounds(view: View, f: Field, wireType: nat, s: seq<byte>, slot: Slot)
    requires view.Decoded? || view.Shaped?
    requires FieldOk(f) && DecodeSlot(f, wireType, s, slot).Some?
    requires SlotOk(view, f, slot)
    ensures SlotOk(view, f, DecodeSlot(f, wireType, s, slot).value.0)
    decreases |s|, 1
  {
    hide ValueOk, FieldOk, DecodeValue;
    match slot
    case Single(prev) => ValueInBounds(view, f, s, prev);
    case Opt(_, prev) => ValueInBounds(view, f, s, prev);
    case Rep(items) =>
      if wireType == WT_STRING && Packable(f) {
        PackedInBounds(view, f, TakeString(s).value.0, items);
      } else {
        ValueInBounds(view, f, s, Int(0));
      }
    case Member =>
  }

  lemma EntryInBounds(view: View, fields: seq<Field>, i: nat, wireType: nat, s: seq<byte>, st: State)
    requires view.Decoded? || view.Shaped?
    requires i < |fields| && FieldsOk(fields) && MessageOk(view, fields, st.msg)
    requires DecodeEntry(fields, i, wireType, s, st).Some?
    ensures MessageOk(view, fields, DecodeEntry(fields, i, wireType, s, st).value.0.msg)
    decreases |s|, 2
  {
    hide ValueOk, FieldOk, DecodeValue, DecodeSlot;
    var f := fields[i];
    if f.htype.HOneof? {
      ValueInBounds(view, f, s, Int(0));
      UnionInBounds(view, fields, i, st.msg, DecodeValue(f, s, Int(0)).value.0);
    } else {
      var slot := if FixedCount(f) && st.fixedField != Some(i) then Rep([]) else st.msg.slots[i];
      SlotInBounds(view, f, wireType, s, slot);
    }
  }

  lemma UnionInBounds(view: View, fields: seq<Field>, i: nat, m: Message, v: Value)
    requires view.Decoded? || view.Shaped?
    requires i < |fields| && FieldsOk(fields) && MessageOk(view, fields, m)
    requires fields[i].htype.HOneof? && ValueOk(view, fields[i], v)
    ensures MessageOk(view, fields, m.(unions := m.unions[fields[i].htype.group := Union(fields[i].tag, v)]))
  {
    hide ValueOk, FieldOk;
    var g := fields[i].htype.group;
    assert WhichOk(fields, g, fields[i].tag);
  }

  lemma RecordsInBounds(view: View, fields: seq<Field>, s: seq<byte>, st: State)
    requires view.Decoded? || view.Shaped?
    requires FieldsOk(fields) && MessageOk(view, fields, st.msg) && DecodeRecords(fields, s, st).Some?
    ensures MessageOk(view, fields, DecodeRecords(fields, s, st).value.st.msg)
    decreases |s|, 4
  {
    hide MessageOk, DecodeEntry, Skip;
    if s != [] && DecodeTag(s).Tag? {
      var Tag(tag, wireType, rest) := DecodeTag(s);
      var i := FindField(fields, tag);
      if i.Some? { EntryInBounds(view, fields, i.value, wireType, rest, st); }
      var r := DecodeRecord(fields, tag, wireType, rest, st).value;
      RecordsInBounds(view, fields, r.1, r.0);
    }
  }

  lemma NoInitInBounds(view: View, fields: seq<Field>, s: seq<byte>, m: Message)
    requires view.Decoded? || view.Shaped?
    requires FieldsOk(fields) && MessageOk(view, fields, m) && DecodeNoInit(fields, s, m).Some?
    ensures MessageOk(view, fields, DecodeNoInit(fields, s, m).value.0)
    decreases |s|, 5
  {
    RecordsInBounds(view, fields, s, Start(m));
  }

  /** Decoding any bytes with any well-formed descriptor. */
  lemma DecodedInBounds(fields: seq<Field>, s: seq<byte>)
    requires FieldsOk(fields) && Decode(fields, s).Some?
    ensures MessageOk(Decoded, fields, Decode(fields, s).value.0)
  {
    DefaultsInBounds(Decoded, fields);
    NoInitInBounds(Decoded, fields, s, Defaults(fields));
  }

  // ---------- which views include which ----------

  predicate Includes(view: View, other: View) {
    view == other || view.Shaped? || (view.Raw? && other.Stored?)
  }

  lemma {:induction false} ValueIncluded(view: View, other: View, f: Field, v: Value)
    requires Includes(view, other) && ValueOk(other, f, v)
    ensures ValueOk(view, f, v)
    decreases f, 0
  {
    if f.ltype.LSubmessage? { MessageIncluded(view, other, f.ltype.fields, v.m); }
  }

  /** What the encoder and the decoder require of a struct is less than what a caller or the decoder leaves in it. */
  lemma {:induction false} MessageIncluded(view: View, other: View, fields: seq<Field>, m: Message)
    requires Includes(view, other) && MessageOk(other, fields, m)
    ensures MessageOk(view, fields, m)
    decreases fields
  {
    hide ValueOk;
    forall i | 0 <= i < |fields|
      ensures SlotOk(view, fields[i], m.slots[i])
      ensures Current(fields[i], m.unions) ==> ValueOk(view, fields[i], m.unions[fields[i].htype.group].v)
    {
      var f := fields[i];
      assert SlotOk(other, f, m.slots[i]);
      if Current(f, m.unions) { ValueIncluded(view, other, f, m.unions[f.htype.group].v); }
      match m.slots[i]
      case Single(v) => ValueIncluded(view, other, f, v);
      case Opt(_, v) => ValueIncluded(view, other, f, v);
      case Rep(items) =>
        forall k | 0 <= k < |items| ensures ValueOk(view, f, items[k]) { ValueIncluded(view, other, f, items[k]); }
      case Member =>
    }
  }
}
