/**
 pb_decode.c's message decoder as methods on a stream, a descriptor iterator and a destination,
 proved to compute what module Decoding says. A struct embedded in another one is decoded through a
 Struct of its own that is copied back.
 */
module Decoder {
  import opened Bytes
  import opened Integers
  import opened Schema
  import opened Encoding
  import opened Decoding
  import opened InputStream
  import opened FieldIterator
  import opened RequiredFields
  import opened Bounds
  import opened Merging

  /** The struct a message is decoded into. */
  class Struct {
    var msg: Message

    constructor (msg: Message)
      ensures this.msg == msg
    {
      this.msg := msg;
    }
  }

  // ---------- field decoders ----------

  /** pb_dec_bool */
  method DecBool(st: IStream) returns (ok: bool, v: Value)
    requires st.Valid()
    modifies st
    ensures st.Valid() && st.End() == old(st.End())
    ensures ok == DecodeBool(old(st.Rest())).Some?
    ensures ok ==> DecodeBool(old(st.Rest())) == Some((v, st.Rest()))
  {
    var n: nat;
    ok, n := st.DecodeVarint32();
    v := Int(if n != 0 then 1 else 0);
  }

  /** pb_dec_varint, pb_dec_uvarint and pb_dec_svarint */
  method DecInt(st: IStream, f: Field) returns (ok: bool, v: Value)
    requires st.Valid()
    requires f.ltype.LVarint? || f.ltype.LUVarint? || f.ltype.LSVarint?
    modifies st
    ensures st.Valid() && st.End() == old(st.End())
    ensures ok == DecodeInt(f, old(st.Rest())).Some?
    ensures ok ==> DecodeInt(f, old(st.Rest())) == Some((v, st.Rest()))
  {
    var u: nat;
    v := Int(0);
    ok, u := st.DecodeVarint64();
    if !ok {
      return;
    }
    if !IntWidth(f.dataSize) {
      return false, v;
    }
    match f.ltype {
      case LVarint =>
        var svalue := if f.dataSize == 8 then ToInt64(u) else ToInt32(u);
        var clamped := CastSigned(f.dataSize, svalue);
        ok, v := clamped == svalue, Int(clamped);
      case LSVarint =>
        var svalue := UnZigZag(u);
        var clamped := CastSigned(f.dataSize, svalue);
        ok, v := clamped == svalue, Int(clamped);
      case LUVarint =>
        var clamped := CastUnsigned(f.dataSize, u);
        ok, v := clamped == u, Int(clamped);
    }
  }

  /** pb_dec_fixed32 and pb_dec_fixed64 */
  method DecFixed(st: IStream, width: nat) returns (ok: bool, v: Value)
    requires st.Valid()
    modifies st
    ensures st.Valid() && st.End() == old(st.End())
    ensures ok == DecodeFixed(width, old(st.Rest())).Some?
    ensures ok ==> DecodeFixed(width, old(st.Rest())) == Some((v, st.Rest()))
  {
    var bytes := new byte[width];
    ok := st.Read(bytes, width);
    v := Int(if ok then FromLittleEndian(bytes[..width]) else 0);
  }

  /** pb_dec_bytes, pb_dec_string and pb_dec_fixed_length_bytes */
  method DecBlob(st: IStream, f: Field) returns (ok: bool, v: Value)
    requires st.Valid()
    requires f.ltype.LBytes? || f.ltype.LString? || f.ltype.LFixedBytes?
    modifies st
    ensures st.Valid() && st.End() == old(st.End())
    ensures ok == DecodeBlob(f, old(st.Rest())).Some?
    ensures ok ==> DecodeBlob(f, old(st.Rest())) == Some((v, st.Rest()))
  {
    var size: nat;
    v := Blob([]);
    ok, size := st.DecodeVarint32();
    if !ok {
      return;
    }
    if !f.ltype.LString? && size > SizeMax() {
      return false, v;
    }
    match f.ltype {
      case LBytes => ok := size + SizeBytes() <= f.dataSize;
      case LString => ok := size + 1 <= f.dataSize;
      case LFixedBytes =>
        if size == 0 {
          return true, Blob(Zeros(f.dataSize));
        }
        ok := size == f.dataSize;
    }
    if !ok {
      return;
    }
    var dest := new byte[size];
    ok := st.Read(dest, size);
    v := Blob(dest[..size]);
  }

  /** The scalar entries of PB_DECODERS. */
  method DecScalar(st: IStream, f: Field) returns (ok: bool, v: Value)
    requires st.Valid() && !f.ltype.LSubmessage?
    modifies st
    ensures st.Valid() && st.End() == old(st.End())
    ensures ok == DecodeScalar(f, old(st.Rest())).Some?
    ensures ok ==> DecodeScalar(f, old(st.Rest())) == Some((v, st.Rest()))
  {
    hide DecodeBool, DecodeInt, DecodeFixed, DecodeBlob;
    match f.ltype {
      case LBool => ok, v := DecBool(st);
      case LVarint | LUVarint | LSVarint => ok, v := DecInt(st, f);
      case LFixed32 => ok, v := DecFixed(st, 4);
      case LFixed64 => ok, v := DecFixed(st, 8);
      case LBytes | LString | LFixedBytes => ok, v := DecBlob(st, f);
    }
  }

  /** The packed-array branch of decode_static_field. */
  method DecPacked(st: IStream, f: Field, items: seq<Value>) returns (ok: bool, items': seq<Value>)
    requires st.Valid() && Packable(f)
    modifies st
    ensures st.Valid() && st.End() <= old(st.End())
    ensures ok == (TakeString(old(st.Rest())).Some? && DecodePacked(f, TakeString(old(st.Rest())).value.0, items).Some?)
    ensures ok ==> items' == DecodePacked(f, TakeString(old(st.Rest())).value.0, items).value
    ensures ok ==> st.Rest() == TakeString(old(st.Rest())).value.1 && st.End() == old(st.End())
  {
    hide DecodeScalar, TakeString;
    var sub: IStream;
    items' := items;
    ok, sub := st.MakeSubstream();
    if !ok {
      return;
    }
    ghost var payload := sub.Rest();
    ghost var subEnd := sub.End();
    var status := true;
    label open:
    while status && sub.bytesLeft > 0 && |items'| < f.arraySize
      invariant sub.Valid() && sub.End() == subEnd && fresh(sub) && sub.buf == st.buf
      invariant unchanged@open(st)
      invariant status ==> DecodePacked(f, payload, items) == DecodePacked(f, sub.Rest(), items')
      invariant !status ==> DecodePacked(f, payload, items) == None
      decreases status, sub.bytesLeft
    {
      var v: Value;
      status, v := DecScalar(sub, f);
      if status {
        items' := items' + [v];
      }
    }
    if sub.bytesLeft != 0 {
      ok := false;
      return;
    }
    ok := st.CloseSubstream(sub);
    ok := ok && status;
  }

  // ---------- default values ----------

  /** pb_message_set_to_defaults and pb_field_set_to_default */
  method SetToDefaults(fields: seq<Field>, dest: Struct)
    requires FieldsOk(fields)
    modifies dest
    ensures dest.msg == Defaults(fields)
    decreases fields
  {
    TagsNonZero(fields);
    hide FieldOk, DefaultValue, Defaults, Offset, CounterOffset, RequiredBefore;
    var iter := new FieldIter(fields, 0);
    var slots: seq<Slot> := [];
    var more := fields != [];
    while more
      invariant iter.Valid() && iter.fields == fields && fresh(iter)
      invariant more ==> fields != [] && |slots| == iter.pos
      invariant !more ==> |slots| == |fields|
      invariant |slots| <= |fields|
      invariant forall i | 0 <= i < |slots| :: slots[i] == DefaultSlot(fields[i])
      decreases |fields| - |slots|, more
    {
      var f := fields[iter.pos];
      var slot: Slot := Member;
      match f.htype {
        case HRequired =>
          var v := InitialValue(f);
          slot := Single(v);
        case HOptional =>
          var v := InitialValue(f);
          slot := if f.sizeOffset != 0 then Opt(false, v) else Single(v);
        case HRepeated => slot := Rep([]);
        case HOneof(_) => slot := Member;
      }
      slots := slots + [slot];
      more := iter.Next();
    }
    SlotsAreDefaults(fields, slots);
    dest.msg := Message(slots, map[]);
  }

  lemma SlotsAreDefaults(fields: seq<Field>, slots: seq<Slot>)
    requires |slots| == |fields| && forall i | 0 <= i < |fields| :: slots[i] == DefaultSlot(fields[i])
    ensures Message(slots, map[]) == Defaults(fields)
  {
    hide DefaultSlot;
    assert slots == DefaultSlots(fields);
  }

  method InitialValue(f: Field) returns (v: Value)
    requires FieldOk(f)
    ensures v == DefaultValue(f)
    decreases f
  {
    match f.ltype {
      case LSubmessage(fields) =>
        var sub := new Struct(Message([], map[]));
        SetToDefaults(fields, sub);
        v := Sub(sub.msg);
      case LBytes | LString => v := if f.default.Some? then f.default.value else Blob([]);
      case LFixedBytes => v := if f.default.Some? then f.default.value else Blob(Zeros(f.dataSize));
      case LBool | LVarint | LUVarint | LSVarint | LFixed32 | LFixed64 =>
        v := if f.default.Some? then f.default.value else Int(0);
    }
  }

  // ---------- the message decoder ----------

  /** pb_dec_submessage on the submessage `prev`: elements of arrays start from their defaults, others merge. */
  method DecSubmessage(st: IStream, f: Field, prev: Value) returns (ok: bool, v: Value)
    requires st.Valid() && FieldOk(f) && f.ltype.LSubmessage?
    requires !f.htype.HRepeated? ==>
      prev.Sub? && prev.m == SubTarget(f, prev) && MessageOk(Shaped, f.ltype.fields, prev.m)
    modifies st
    ensures st.Valid() && st.End() <= old(st.End())
    ensures ok == DecodeValue(f, old(st.Rest()), prev).Some?
    ensures ok ==> DecodeValue(f, old(st.Rest()), prev) == Some((v, st.Rest())) && st.End() == old(st.End())
    decreases st.bytesLeft, 0
  {
    hide FieldOk, FieldsOk, MessageOk, TakeString, DecodeNoInit, DecodeValue, Decode, SubTarget;
    SubFieldsOk(f);
    ghost var s := st.Rest();
    v := prev;
    SubmessageValue(f, s, prev);
    var sub: IStream;
    ok, sub := st.MakeSubstream();
    if !ok {
      return;
    }
    ghost var payload, rest, stop := TakeString(s).value.0, TakeString(s).value.1, sub.End();
    var status, m := DecodeFrom(sub, f, prev);
    ok := st.CloseSubstream(sub);
    if !status {
      return false, v;
    }
    assert st.pos == stop && st.Rest() == rest;
    v := Sub(m);
  }

  method DecodeFrom(sub: IStream, f: Field, prev: Value) returns (ok: bool, m: Message)
    requires sub.Valid() && f.ltype.LSubmessage? && FieldsOk(f.ltype.fields)
    requires !f.htype.HRepeated? ==>
      prev.Sub? && prev.m == SubTarget(f, prev) && MessageOk(Shaped, f.ltype.fields, prev.m)
    modifies sub
    ensures sub.Valid() && sub.End() <= old(sub.End())
    ensures ok == DecodeNoInit(f.ltype.fields, old(sub.Rest()), SubTarget(f, prev)).Some?
    ensures ok ==>
      DecodeNoInit(f.ltype.fields, old(sub.Rest()), SubTarget(f, prev)).value.0 == m && sub.End() == old(sub.End())
    decreases sub.bytesLeft, 7
  {
    hide FieldsOk, MessageOk, DecodeNoInit, Decode, Defaults;
    var fields := f.ltype.fields;
    var dest := new Struct(if f.htype.HRepeated? then Message([], map[]) else prev.m);
    if f.htype.HRepeated? {
      DecodeIsNoInit(fields, sub.Rest());
      ok := DecodeMessage(sub, fields, dest);
    } else {
      ok := DecodeMessageNoInit(sub, fields, dest);
    }
    m := dest.msg;
  }

  lemma SubFieldsOk(f: Field)
    requires FieldOk(f) && f.ltype.LSubmessage?
    ensures FieldsOk(f.ltype.fields)
  {}

  lemma SubmessageValue(f: Field, s: seq<byte>, prev: Value)
    requires f.ltype.LSubmessage?
    ensures var t := TakeString(s);
            if t.None? then DecodeValue(f, s, prev) == None
            else
              var r := DecodeNoInit(f.ltype.fields, t.value.0, SubTarget(f, prev));
              DecodeValue(f, s, prev) == if r.None? then None else Some((Sub(r.value.0), t.value.1))
  {
    hide DecodeNoInit, TakeString;
  }

  /** PB_DECODERS[PB_LTYPE(type)] */
  method DecValue(st: IStream, f: Field, prev: Value) returns (ok: bool, v: Value)
    requires st.Valid() && FieldOk(f)
    requires f.ltype.LSubmessage? && !f.htype.HRepeated? ==>
      prev.Sub? && prev.m == SubTarget(f, prev) && MessageOk(Shaped, f.ltype.fields, prev.m)
    modifies st
    ensures st.Valid() && st.End() <= old(st.End())
    ensures ok == DecodeValue(f, old(st.Rest()), prev).Some?
    ensures ok ==> DecodeValue(f, old(st.Rest()), prev) == Some((v, st.Rest())) && st.End() == old(st.End())
    decreases st.bytesLeft, 1
  {
    hide FieldOk, MessageOk, DecodeScalar, DecodeNoInit;
    if f.ltype.LSubmessage? {
      ok, v := DecSubmessage(st, f, prev);
    } else {
      ok, v := DecScalar(st, f);
    }
  }

  /** decode_static_field for entry i */
  method DecodeStaticField(st: IStream, wireType: nat, fields: seq<Field>, i: nat, dest: Struct) returns (ok: bool)
    requires st.Valid() && i < |fields| && FieldsOk(fields) && MessageOk(Shaped, fields, dest.msg)
    modifies st, dest
    ensures st.Valid() && st.End() <= old(st.End())
    ensures var f, s, m := fields[i], old(st.Rest()), old(dest.msg);
            if f.htype.HOneof? then
              && ok == DecodeValue(f, s, Int(0)).Some?
              && (ok ==> var (v, rest) := DecodeValue(f, s, Int(0)).value;
                         && st.Rest() == rest && st.End() == old(st.End())
                         && dest.msg == m.(unions := m.unions[f.htype.group := Union(f.tag, v)]))
            else
              && ok == DecodeSlot(f, wireType, s, m.slots[i]).Some?
              && (ok ==> var (slot, rest) := DecodeSlot(f, wireType, s, m.slots[i]).value;
                         && st.Rest() == rest && st.End() == old(st.End())
                         && dest.msg == m.(slots := m.slots[i := slot]))
    decreases st.bytesLeft, 2
  {
    hide FieldOk, FieldsOk, ValueOk, MessageOk, DecodeValue, TakeString, DecodePacked;
    SlotShaped(fields, dest.msg, i);
    var f := fields[i];
    var m := dest.msg;
    var v: Value;
    match f.htype {
      case HRequired =>
        CurrentValueOk(f, m.slots[i].v);
        ok, v := DecValue(st, f, m.slots[i].v);
        dest.msg := m.(slots := m.slots[i := Single(v)]);
      case HOptional =>
        CurrentValueOk(f, m.slots[i].v);
        ok, v := DecValue(st, f, m.slots[i].v);
        dest.msg := m.(slots := m.slots[i := if f.sizeOffset != 0 then Opt(true, v) else Single(v)]);
      case HRepeated =>
        var items := m.slots[i].items;
        if wireType == WT_STRING && Packable(f) {
          ok, items := DecPacked(st, f, items);
          dest.msg := m.(slots := m.slots[i := Rep(items)]);
        } else {
          if |items| >= f.arraySize {
            return false;
          }
          ok, v := DecValue(st, f, Int(0));
          dest.msg := m.(slots := m.slots[i := Rep(items + [v])]);
        }
      case HOneof(g) =>
        v := Int(0);
        if f.ltype.LSubmessage? {
          v := InitialMember(f);
        }
        ok, v := DecValue(st, f, v);
        dest.msg := m.(unions := m.unions[g := Union(f.tag, v)]);
    }
  }

  lemma SlotShaped(fields: seq<Field>, m: Message, i: nat)
    requires i < |fields| && FieldsOk(fields) && MessageOk(Shaped, fields, m)
    ensures |m.slots| == |fields| && FieldOk(fields[i]) && SlotOk(Shaped, fields[i], m.slots[i])
  {}

  lemma CurrentValueOk(f: Field, v: Value)
    requires FieldOk(f) && ValueOk(Shaped, f, v) && (f.htype.HRequired? || f.htype.HOptional?)
    ensures f.ltype.LSubmessage? ==> v.Sub? && v.m == SubTarget(f, v) && MessageOk(Shaped, f.ltype.fields, v.m)
  {}

  /** A union member that is a submessage is cleared and set to its defaults. */
  method InitialMember(f: Field) returns (v: Value)
    requires FieldOk(f) && f.htype.HOneof? && f.ltype.LSubmessage?
    ensures v.Sub? && v.m == SubTarget(f, v) == Defaults(f.ltype.fields) && MessageOk(Shaped, f.ltype.fields, v.m)
    ensures forall s :: DecodeValue(f, s, v) == DecodeValue(f, s, Int(0))
  {
    var dest := new Struct(Message([], map[]));
    SetToDefaults(f.ltype.fields, dest);
    DefaultsInBounds(Shaped, f.ltype.fields);
    v := Sub(dest.msg);
  }

  /** The array without counter that is being filled is complete. */
  method FixedDone(fields: seq<Field>, fixedField: Option<nat>, dest: Struct) returns (done: bool)
    requires MessageOk(Shaped, fields, dest.msg)
    requires fixedField.Some? ==> fixedField.value < |fields| && FixedCount(fields[fixedField.value])
    ensures forall seen :: done == FixedComplete(fields, State(dest.msg, seen, fixedField))
  {
    hide ValueOk;
    done := true;
    if fixedField.Some? {
      var k := fixedField.value;
      assert SlotOk(Shaped, fields[k], dest.msg.slots[k]);
      done := |dest.msg.slots[k].items| == fields[k].arraySize;
    }
  }

  /** The loop body of pb_decode_noinit for a record of the entry the iterator stands at. The number of elements
      received of an array without counter (fixed_count_size) is the length of its slot. */
  method DecodeKnown(st: IStream, wireType: nat, iter: FieldIter, fieldsSeen: array<nat>, fixedField: Option<nat>,
                     dest: Struct, ghost state: State)
    returns (ok: bool, fixedField': Option<nat>)
    requires st.Valid() && iter.Valid() && iter.fields != [] && FieldsOk(iter.fields) && fieldsSeen as object != st.buf
    requires MessageOk(Shaped, iter.fields, dest.msg) && FixedFieldOk(iter.fields, state)
    requires state.msg == dest.msg && state.fixedField == fixedField
    requires BitmapOk(fieldsSeen[..], iter.fields, state.seen)
    modifies st, dest, fieldsSeen
    ensures st.Valid() && st.End() <= old(st.End()) && fieldsSeen.Length == 2
    ensures ok == DecodeEntry(iter.fields, iter.pos, wireType, old(st.Rest()), state).Some?
    ensures ok ==>
      var (state', rest) := DecodeEntry(iter.fields, iter.pos, wireType, old(st.Rest()), state).value;
      && st.Rest() == rest && st.End() == old(st.End())
      && dest.msg == state'.msg && fixedField' == state'.fixedField
      && BitmapOk(fieldsSeen[..], iter.fields, state'.seen)
    decreases st.bytesLeft, 3
  {
    hide FieldOk, ValueOk, DecodeSlot, DecodeValue, BitmapOk, RequiredBefore, Or, Pow2, Offset, CounterOffset;
    var i := iter.pos;
    var f := iter.fields[i];
    fixedField' := fixedField;
    assert fieldsSeen.Length == 2 by { BitmapHasTwoWords(fieldsSeen[..], iter.fields, state.seen); }
    NoCounter(iter);
    if f.htype.HRepeated? && iter.pSize == iter.pData {
      if fixedField != Some(i) {
        var done := FixedDone(iter.fields, fixedField, dest);
        if !done {
          return false, fixedField;
        }
        fixedField' := Some(i);
        dest.msg := dest.msg.(slots := dest.msg.slots[i := Rep([])]);
      }
    }
    MarkKeepsBitmap(fieldsSeen[..], iter.fields, state.seen, i);
    if f.htype.HRequired? && iter.requiredIndex < 64 {
      var k := iter.requiredIndex;
      fieldsSeen[k / 32] := Or(fieldsSeen[k / 32], Pow2(k % 32));
    }
    ok := DecodeStaticField(st, wireType, iter.fields, i, dest);
  }

  /** An array has no counter exactly when the iterator's two pointers coincide. */
  lemma NoCounter(iter: FieldIter)
    requires iter.Valid() && iter.fields != []
    ensures var f := iter.fields[iter.pos];
            f.htype.HRepeated? ==> (iter.pSize == iter.pData <==> FixedCount(f))
  {}

  lemma BitmapHasTwoWords(words: seq<nat>, fields: seq<Field>, seen: set<nat>)
    requires BitmapOk(words, fields, seen)
    ensures |words| == 2
  {}

  /** One turn of pb_decode_noinit's loop after the tag. */
  method DecodeOne(st: IStream, tag: nat, wireType: nat, iter: FieldIter, fieldsSeen: array<nat>,
                   fixedField: Option<nat>, dest: Struct, ghost state: State)
    returns (ok: bool, fixedField': Option<nat>)
    requires st.Valid() && iter.Valid() && FieldsOk(iter.fields) && fieldsSeen as object != st.buf
    requires MessageOk(Shaped, iter.fields, dest.msg) && FixedFieldOk(iter.fields, state)
    requires state.msg == dest.msg && state.fixedField == fixedField && fieldsSeen.Length == 2
    requires iter.fields != [] ==> BitmapOk(fieldsSeen[..], iter.fields, state.seen)
    modifies st, dest, fieldsSeen, iter
    ensures st.Valid() && st.End() <= old(st.End()) && iter.Valid() && fieldsSeen.Length == 2
    ensures ok == DecodeRecord(iter.fields, tag, wireType, old(st.Rest()), state).Some?
    ensures ok ==>
      var (state', rest) := DecodeRecord(iter.fields, tag, wireType, old(st.Rest()), state).value;
      && st.Rest() == rest && st.End() == old(st.End())
      && dest.msg == state'.msg && fixedField' == state'.fixedField
      && (iter.fields != [] ==> BitmapOk(fieldsSeen[..], iter.fields, state'.seen))
    decreases st.bytesLeft, 4
  {
    hide FieldOk, MessageOk, DecodeEntry, BitmapOk, Skip, DecodeBool, FixedComplete;
    fixedField' := fixedField;
    var found := iter.Find(tag);
    if !found {
      ok := st.SkipField(wireType);
      return;
    }
    if iter.CurrentTag() == 0 {
      fieldsSeen[0] := Or(fieldsSeen[0], Pow2(0));
      var v: Value;
      ok, v := DecBool(st);
      return;
    }
    FoundEntry(iter.fields, old(iter.pos), iter.pos, tag);
    ok, fixedField' := DecodeKnown(st, wireType, iter, fieldsSeen, fixedField, dest, state);
  }

  lemma FoundEntry(fields: seq<Field>, start: nat, i: nat, tag: nat)
    requires FieldsOk(fields) && FirstGoingRound(fields, start, i, tag)
    ensures FindField(fields, tag) == Some(i)
  {
    FoundIsUnique(fields, start, i, tag);
  }

  datatype Turn = Failed | Ended | Continue

  /** One turn of the loop of pb_decode_noinit: a tag, and its record unless the tag is zero. */
  method DecodeTurn(st: IStream, iter: FieldIter, fieldsSeen: array<nat>, fixedField: Option<nat>, dest: Struct,
                    ghost state: State)
    returns (turn: Turn, fixedField': Option<nat>, ghost state': State)
    requires st.Valid() && st.bytesLeft > 0 && iter.Valid() && FieldsOk(iter.fields) && fieldsSeen as object != st.buf
    requires MessageOk(Shaped, iter.fields, dest.msg) && FixedFieldOk(iter.fields, state)
    requires state.msg == dest.msg && state.fixedField == fixedField && fieldsSeen.Length == 2
    requires iter.fields != [] ==> BitmapOk(fieldsSeen[..], iter.fields, state.seen)
    modifies st, dest, fieldsSeen, iter
    ensures st.Valid() && st.End() <= old(st.End()) && iter.Valid() && fieldsSeen.Length == 2
    ensures turn.Failed? ==> DecodeRecords(iter.fields, old(st.Rest()), state) == None
    ensures !turn.Failed? ==>
      && st.End() == old(st.End()) && st.bytesLeft < old(st.bytesLeft)
      && MessageOk(Shaped, iter.fields, dest.msg) && FixedFieldOk(iter.fields, state')
      && state'.msg == dest.msg && state'.fixedField == fixedField'
      && (iter.fields != [] ==> BitmapOk(fieldsSeen[..], iter.fields, state'.seen))
    ensures turn.Ended? ==> DecodeRecords(iter.fields, old(st.Rest()), state) == Some(Run(state', st.Rest(), true))
    ensures turn.Continue? ==>
      DecodeRecords(iter.fields, old(st.Rest()), state) == DecodeRecords(iter.fields, st.Rest(), state')
    decreases st.bytesLeft, 4
  {
    hide FieldsOk, MessageOk, DecodeRecord, BitmapOk, DecodeTag, DecodeRecords, FixedFieldOk;
    ghost var before := st.Rest();
    fixedField', state' := fixedField, state;
    assert before != [];
    RecordStep(iter.fields, before, state);
    TagConsumes(before);
    var tagOk, wireType, tag, eof := st.ReadTag();
    if !tagOk {
      return if eof then Ended else Failed, fixedField, state;
    }
    ghost var rest := st.Rest();
    if DecodeRecord(iter.fields, tag, wireType, rest, state).Some? {
      RecordInBounds(iter.fields, tag, wireType, rest, state);
      state' := DecodeRecord(iter.fields, tag, wireType, rest, state).value.0;
    }
    var ok: bool;
    ok, fixedField' := DecodeOne(st, tag, wireType, iter, fieldsSeen, fixedField, dest, state);
    turn := if ok then Continue else Failed;
  }

  /** pb_decode_noinit */
  method DecodeMessageNoInit(st: IStream, fields: seq<Field>, dest: Struct) returns (ok: bool)
    requires st.Valid() && FieldsOk(fields) && MessageOk(Shaped, fields, dest.msg)
    modifies st, dest
    ensures st.Valid() && st.End() <= old(st.End())
    ensures ok == DecodeNoInit(fields, old(st.Rest()), old(dest.msg)).Some?
    ensures ok ==>
      DecodeNoInit(fields, old(st.Rest()), old(dest.msg)) == Some((dest.msg, st.Rest())) && st.End() == old(st.End())
    decreases st.bytesLeft, 5
  {
    hide FieldsOk, MessageOk, BitmapOk, FixedComplete, RequiredSeen, DecodeRecords, DecodeNoInit;
    TagsNonZero(fields);
    ghost var s, m := st.Rest(), dest.msg;
    var fieldsSeen := new nat[2](_ => 0);
    var iter := new FieldIter(fields, 0);
    var fixedField: Option<nat> := None;
    ghost var state := Start(m);
    NothingSeen(fields);
    assert fieldsSeen[..] == [0, 0];
    var turn := Continue;
    while turn.Continue? && st.bytesLeft != 0
      invariant st.Valid() && st.End() == old(st.End()) && st.bytesLeft <= old(st.bytesLeft)
      invariant iter.Valid() && iter.fields == fields && fresh(iter) && fresh(fieldsSeen) && fieldsSeen.Length == 2
      invariant dest.msg == state.msg && fixedField == state.fixedField
      invariant MessageOk(Shaped, fields, dest.msg) && FixedFieldOk(fields, state)
      invariant fields != [] ==> BitmapOk(fieldsSeen[..], fields, state.seen)
      invariant !turn.Failed?
      invariant turn.Continue? ==> DecodeRecords(fields, s, Start(m)) == DecodeRecords(fields, st.Rest(), state)
      invariant turn.Ended? ==> DecodeRecords(fields, s, Start(m)) == Some(Run(state, st.Rest(), true))
      decreases st.bytesLeft
    {
      turn, fixedField, state := DecodeTurn(st, iter, fieldsSeen, fixedField, dest, state);
      if turn.Failed? {
        NoRun(fields, s, m);
        return false;
      }
    }
    if turn.Continue? { EmptyRun(fields, state); }
    EndOfRecords(fields, s, m, Run(state, st.Rest(), turn.Ended?));
    ok := FinishMessage(iter, fieldsSeen, fixedField, dest, state);
  }

  lemma NoRun(fields: seq<Field>, s: seq<byte>, m: Message)
    requires DecodeRecords(fields, s, Start(m)) == None
    ensures DecodeNoInit(fields, s, m) == None
  {}

  /** The checks at the end of pb_decode_noinit. */
  method FinishMessage(iter: FieldIter, fieldsSeen: array<nat>, fixedField: Option<nat>, dest: Struct,
                       ghost state: State)
    returns (ok: bool)
    requires iter.Valid() && MessageOk(Shaped, iter.fields, dest.msg) && FixedFieldOk(iter.fields, state)
    requires state.msg == dest.msg && state.fixedField == fixedField && fieldsSeen.Length == 2
    requires iter.fields != [] ==> BitmapOk(fieldsSeen[..], iter.fields, state.seen)
    modifies iter
    ensures iter.Valid()
    ensures ok == (FixedComplete(iter.fields, state) && RequiredSeen(iter.fields, state.seen))
  {
    hide MessageOk, BitmapOk, FixedComplete, RequiredSeen;
    ok := FixedDone(iter.fields, fixedField, dest);
    assert ok == FixedComplete(iter.fields, State(dest.msg, state.seen, fixedField));
    if !ok {
      return;
    }
    if iter.fields == [] {
      // req_field_count is 0: nothing is compared
      NothingRequired(iter.fields, state.seen);
      return true;
    }
    ok := AllRequiredSeen(iter, fieldsSeen, state.seen);
  }

  lemma EndOfRecords(fields: seq<Field>, s: seq<byte>, m: Message, run: Run)
    requires DecodeRecords(fields, s, Start(m)) == Some(run)
    ensures DecodeNoInit(fields, s, m)
         == if FixedComplete(fields, run.st) && RequiredSeen(fields, run.st.seen)
            then Some((run.st.msg, run.rest)) else None
  {}

  lemma NothingRequired(fields: seq<Field>, seen: set<nat>)
    requires fields == []
    ensures RequiredSeen(fields, seen)
  {}

  lemma NothingSeen(fields: seq<Field>)
    ensures BitmapOk([0, 0], fields, {})
  {
    NoBitsInZero(32);
    forall k: nat | k < 64 ensures !BitAt([0, 0], k) {}
  }

  lemma TagConsumes(s: seq<byte>)
    ensures DecodeTag(s).Tag? ==> |DecodeTag(s).rest| < |s|
  {}

  lemma EmptyRun(fields: seq<Field>, state: State)
    ensures DecodeRecords(fields, [], state) == Some(Run(state, [], false))
  {}

  lemma RecordStep(fields: seq<Field>, s: seq<byte>, state: State)
    requires s != []
    ensures var t, r := DecodeTag(s), DecodeRecords(fields, s, state);
            && (t.TagError? ==> r == None)
            && (t.Terminator? ==> r == Some(Run(state, t.rest, true)))
            && (t.Tag? ==>
                  var one := DecodeRecord(fields, t.number, t.wireType, t.rest, state);
                  r == if one.None? then None else DecodeRecords(fields, one.value.1, one.value.0))
  {
    hide DecodeRecord, DecodeTag;
  }

  lemma RecordInBounds(fields: seq<Field>, tag: nat, wireType: nat, s: seq<byte>, state: State)
    requires FieldsOk(fields) && MessageOk(Shaped, fields, state.msg) && FixedFieldOk(fields, state)
    requires DecodeRecord(fields, tag, wireType, s, state).Some?
    ensures var state' := DecodeRecord(fields, tag, wireType, s, state).value.0;
            MessageOk(Shaped, fields, state'.msg) && FixedFieldOk(fields, state')
  {
    hide FieldsOk, MessageOk, DecodeEntry, Skip;
    var i := FindField(fields, tag);
    if i.Some? {
      EntryInBounds(Shaped, fields, i.value, wireType, s, state);
      EntryKeepsFixedFieldOk(fields, i.value, wireType, s, state);
    }
  }

  /** pb_decode */
  method DecodeMessage(st: IStream, fields: seq<Field>, dest: Struct) returns (ok: bool)
    requires st.Valid() && FieldsOk(fields)
    modifies st, dest
    ensures st.Valid() && st.End() <= old(st.End())
    ensures ok == Decode(fields, old(st.Rest())).Some?
    ensures ok ==> Decode(fields, old(st.Rest())) == Some((dest.msg, st.Rest())) && st.End() == old(st.End())
    decreases st.bytesLeft, 6
  {
    hide FieldsOk, MessageOk, DecodeNoInit, Defaults, Decode;
    DecodeIsNoInit(fields, st.Rest());
    SetToDefaults(fields, dest);
    DefaultsInBounds(Shaped, fields);
    ok := DecodeMessageNoInit(st, fields, dest);
  }

  /** pb_decode_delimited */
  method DecodeDelimitedMessage(st: IStream, fields: seq<Field>, dest: Struct) returns (ok: bool)
    requires st.Valid() && FieldsOk(fields)
    modifies st, dest
    ensures st.Valid() && st.End() <= old(st.End())
    ensures ok == DecodeDelimited(fields, old(st.Rest())).Some?
    ensures ok ==> DecodeDelimited(fields, old(st.Rest())) == Some((dest.msg, st.Rest())) && st.End() == old(st.End())
  {
    hide FieldsOk, Decode, TakeString;
    var sub: IStream;
    ok, sub := st.MakeSubstream();
    if !ok {
      return;
    }
    var status := DecodeMessage(sub, fields, dest);
    ok := st.CloseSubstream(sub);
    ok := ok && status;
  }
}
