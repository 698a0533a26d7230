/**
 pb_encode.c's message encoder as methods on a stream and a descriptor iterator. Every method emits
 exactly the bytes module Encoding assigns to its arguments, on a sizing stream and on a buffer alike:
 the size computed first is the size written, at every depth.
 */
module Encoder {
  import opened Bytes
  import opened Integers
  import opened Varint
  import opened Schema
  import opened Encoding
  import opened OutputStream
  import opened FieldIterator

  // ---------- pieces ----------

  /** pb_encode_tag */
  method WriteTag(st: OStream, wireType: nat, tag: nat) returns (ok: bool)
    requires st.Valid() && wireType < 8 && tag < U32
    modifies st.Frame()
    ensures st.Valid() && Emits(old(st.Now()), st.Now(), ok, Some(EncTag(wireType, tag)))
  {
    hide Emits, EncVarint;
    ok := st.WriteVarint(8 * tag + wireType);
  }

  /** pb_encode_string */
  method WriteString(st: OStream, b: seq<byte>) returns (ok: bool)
    requires st.Valid()
    modifies st.Frame()
    ensures st.Valid() && Emits(old(st.Now()), st.Now(), ok, Some(EncString(b)))
  {
    hide Emits, EncVarint, Low64;
    ghost var a := st.Now();
    ok := st.WriteVarint(Low64(|b|));
    ghost var c := st.Now();
    if !ok {
      EmitFails(a, c, Some(EncVarint(Low64(|b|))), Some(b));
      return;
    }
    ok := st.Write(b);
    EmitThen(a, c, st.Now(), ok, Some(EncVarint(Low64(|b|))), Some(b));
  }

  /** pb_enc_varint, pb_enc_uvarint and pb_enc_svarint */
  method EncInt(st: OStream, f: Field, n: int) returns (ok: bool)
    requires st.Valid()
    requires f.ltype.LVarint? || f.ltype.LUVarint? || f.ltype.LSVarint?
    modifies st.Frame()
    ensures st.Valid() && Emits(old(st.Now()), st.Now(), ok, EncodeValue(f, Int(n)))
  {
    hide EncVarint;
    if !IntWidth(f.dataSize) {
      return false;
    }
    match f.ltype {
      case LVarint => ok := st.WriteVarint(Low64(n));
      case LUVarint => ok := st.WriteVarint(Low64(n));
      case LSVarint =>
        var zigzagged := if n < 0 then 0xFFFF_FFFF_FFFF_FFFF - Low64(2 * n) else Low64(2 * n);
        ok := st.WriteVarint(Low64(zigzagged));
    }
  }

  /** The pb_enc_* functions for everything but submessages. */
  method EncScalar(st: OStream, f: Field, v: Value) returns (ok: bool)
    requires st.Valid() && !f.ltype.LSubmessage? && ValueOk(Raw, f, v)
    modifies st.Frame()
    ensures st.Valid() && Emits(old(st.Now()), st.Now(), ok, EncodeValue(f, v))
  {
    hide EncVarint, EncString, LittleEndian, Low32, Low64;
    match f.ltype {
      case LBool => ok := st.WriteVarint(if v.n != 0 then 1 else 0);
      case LVarint | LUVarint | LSVarint => ok := EncInt(st, f, v.n);
      case LFixed32 => ok := st.Write(LittleEndian(Low32(v.n), 4));
      case LFixed64 => ok := st.Write(LittleEndian(Low64(v.n), 8));
      case LBytes =>
        if |v.b| + SizeBytes() > f.dataSize {
          return false;
        }
        ok := WriteString(st, v.b);
      case LString =>
        var size := StringLength(v.b);
        ok := WriteString(st, v.b[..size]);
      case LFixedBytes => ok := WriteString(st, v.b);
    }
  }

  /** The strnlen loop of pb_enc_string. */
  method StringLength(b: seq<byte>) returns (size: nat)
    ensures size <= |b| && b[..size] == CStr(b)
  {
    hide CStr;
    size := 0;
    assert b[0..] == b;
    while size < |b| && b[size] != 0
      invariant size <= |b| && CStr(b) == b[..size] + CStr(b[size..])
    {
      CStrStep(b, size);
      assert b[..size] + [b[size]] == b[..size + 1];
      size := size + 1;
    }
    CStrStep(b, size);
  }

  lemma CStrStep(b: seq<byte>, k: nat)
    requires k <= |b|
    ensures CStr(b[k..]) == if k == |b| || b[k] == 0 then [] else [b[k]] + CStr(b[k + 1..])
  {
    if k < |b| { assert b[k..][1..] == b[k + 1..]; }
  }

  // ---------- values ----------

  /** PB_ENCODERS[PB_LTYPE(type)] */
  method EncValue(st: OStream, f: Field, v: Value) returns (ok: bool)
    requires st.Valid() && FieldOk(f) && ValueOk(Raw, f, v)
    modifies st.Frame()
    ensures st.Valid() && Emits(old(st.Now()), st.Now(), ok, EncodeValue(f, v))
    decreases f, 0
  {
    if f.ltype.LSubmessage? {
      hide Emits, FieldsOk, MessageOk, Encode, EncString;
      ok := WriteSubmessage(st, f.ltype.fields, v.m);
    } else {
      ok := EncScalar(st, f, v);
    }
  }

  /** pb_encode_submessage: size first, then the contents into a substream of exactly that size. */
  method WriteSubmessage(st: OStream, fields: seq<Field>, m: Message) returns (ok: bool)
    requires st.Valid() && FieldsOk(fields) && MessageOk(Raw, fields, m)
    modifies st.Frame()
    ensures st.Valid()
    ensures Emits(old(st.Now()), st.Now(), ok,
                  if Encode(fields, m).Some? then Some(EncString(Encode(fields, m).value)) else None)
    decreases fields, 9
  {
    hide FieldsOk, MessageOk, Encode, EncVarint, Low64, Emits;
    ghost var a := st.Now();
    ghost var bytes := Encode(fields, m);
    var sizing := new OStream(null, 0, 0);
    ghost var z := sizing.Now();
    ok := WriteMessage(sizing, fields, m);
    SizingResult(z, sizing.Now(), ok, bytes);
    if !ok {
      NoEmission(a);
      return;
    }
    var size := sizing.bytesWritten;
    ghost var prefix := EncVarint(Low64(size));
    ok := st.WriteVarint(Low64(size));
    ghost var b := st.Now();
    if !ok {
      EmitFails(a, b, Some(prefix), bytes);
      return;
    }
    if st.buf == null {
      st.Count(size);
      ok := true;
    } else {
      ok := WriteContents(st, fields, m, size);
    }
    EmitThen(a, b, st.Now(), ok, Some(prefix), bytes);
  }

  /** The writing half of pb_encode_submessage, when sizing found `size` bytes. */
  method WriteContents(st: OStream, fields: seq<Field>, m: Message, size: nat) returns (ok: bool)
    requires st.Valid() && st.buf != null && FieldsOk(fields) && MessageOk(Raw, fields, m)
    requires Encode(fields, m).Some? && size == |Encode(fields, m).value|
    modifies st.Frame()
    ensures st.Valid() && Emits(old(st.Now()), st.Now(), ok, Encode(fields, m))
    decreases fields, 8
  {
    hide FieldsOk, MessageOk, Encode, Emits;
    ghost var b := st.Now();
    if st.bytesWritten + size > st.maxSize {
      NoRoom(b, Encode(fields, m));
      return false;
    }
    var sub := new OStream(st.buf, st.pos, size);
    ghost var c := sub.Now();
    var status := WriteMessage(sub, fields, m);
    SubstreamResult(b, c, sub.Now(), status, Encode(fields, m));
    st.bytesWritten := st.bytesWritten + sub.bytesWritten;
    st.pos := sub.pos;
    ok := status && sub.bytesWritten == size;
  }

  lemma SizingResult(z: Snapshot, y: Snapshot, ok: bool, e: Wire)
    requires z.sizing && z.written == 0 && Emits(z, y, ok, e)
    ensures ok == e.Some? && (ok ==> y.written == |e.value|)
  {}

  lemma NoEmission(a: Snapshot)
    requires SnapshotOk(a)
    ensures Emits(a, a, false, None)
  {}

  lemma NoRoom(b: Snapshot, e: Wire)
    requires SnapshotOk(b) && e.Some? && !Room(b, |e.value|)
    ensures Emits(b, b, false, e)
  {}

  /** A substream limited to the size of what is written into it writes as the stream itself would. */
  lemma SubstreamResult(b: Snapshot, c: Snapshot, d: Snapshot, status: bool, e: Wire)
    requires !b.sizing && SnapshotOk(b) && e.Some? && Room(b, |e.value|)
    requires c == Snapshot(false, b.data, b.pos, 0, |e.value|) && Emits(c, d, status, e)
    ensures status && d.written == |e.value|
    ensures b.written + d.written <= b.max && d.pos + (b.max - b.written - d.written) <= |d.data|
    ensures Emits(b, Snapshot(false, d.data, d.pos, b.written + d.written, b.max), true, e)
  {}

  /** A tag and a value (pb_encode_tag_for_field and func). */
  method WriteTagged(st: OStream, f: Field, v: Value) returns (ok: bool)
    requires st.Valid() && FieldOk(f) && ValueOk(Raw, f, v)
    modifies st.Frame()
    ensures st.Valid() && Emits(old(st.Now()), st.Now(), ok, EncodeTagged(f, v))
    decreases f, 1
  {
    TagSmall(f);
    hide Emits, FieldOk, ValueOk, EncodeValue, EncTag;
    ghost var a := st.Now();
    ghost var tag := Some(EncTag(WireType(f), f.tag));
    ok := WriteTag(st, WireType(f), f.tag);
    ghost var b := st.Now();
    if !ok {
      EmitFails(a, b, tag, EncodeValue(f, v));
      return;
    }
    ok := EncValue(st, f, v);
    EmitThen(a, b, st.Now(), ok, tag, EncodeValue(f, v));
  }

  lemma TagSmall(f: Field)
    requires FieldOk(f)
    ensures f.tag < U32
  {}

  // ---------- arrays ----------

  ghost predicate ItemsOk(f: Field, items: seq<Value>) {
    forall k | 0 <= k < |items| :: ValueOk(Raw, f, items[k])
  }

  /** The element loop of a packed array, on the sizing stream and on the real one. */
  method WritePacked(st: OStream, f: Field, items: seq<Value>) returns (ok: bool)
    requires st.Valid() && FieldOk(f) && Packable(f) && ItemsOk(f, items)
    modifies st.Frame()
    ensures st.Valid() && Emits(old(st.Now()), st.Now(), ok, EncodePacked(f, items))
  {
    hide Emits, FieldOk, ValueOk, EncodeValue;
    ghost var a := st.Now();
    ghost var done: Wire := Some([]);
    EmitNothing(a);
    AppendNothing(EncodePacked(f, items));
    assert items[0..] == items;
    for i := 0 to |items|
      invariant st.Valid() && Emits(a, st.Now(), true, done)
      invariant EncodePacked(f, items) == Append(done, EncodePacked(f, items[i..]))
    {
      ghost var b := st.Now();
      PackedStep(f, items, i, done);
      ok := EncScalar(st, f, items[i]);
      if !ok {
        EmitThen(a, b, st.Now(), false, done, EncodeValue(f, items[i]));
        EmitFails(a, st.Now(), Append(done, EncodeValue(f, items[i])), EncodePacked(f, items[i + 1..]));
        return;
      }
      EmitThen(a, b, st.Now(), true, done, EncodeValue(f, items[i]));
      done := Append(done, EncodeValue(f, items[i]));
    }
    AppendNothing(done);
    assert items[|items|..] == [];
    ok := true;
  }

  lemma PackedStep(f: Field, items: seq<Value>, i: nat, done: Wire)
    requires i < |items|
    ensures Append(done, EncodePacked(f, items[i..]))
         == Append(Append(done, EncodeValue(f, items[i])), EncodePacked(f, items[i + 1..]))
  {
    hide EncodeValue;
    assert items[i..][1..] == items[i + 1..];
    AppendAssociative(done, EncodeValue(f, items[i]), EncodePacked(f, items[i + 1..]));
  }

  lemma UnpackedStep(f: Field, items: seq<Value>, i: nat, done: Wire)
    requires i < |items|
    ensures Append(done, EncodeUnpacked(f, items[i..]))
         == Append(Append(done, EncodeTagged(f, items[i])), EncodeUnpacked(f, items[i + 1..]))
  {
    hide EncodeTagged;
    assert items[i..][1..] == items[i + 1..];
    AppendAssociative(done, EncodeTagged(f, items[i]), EncodeUnpacked(f, items[i + 1..]));
  }

  lemma AppendAssociative(x: Wire, y: Wire, z: Wire)
    ensures Append(x, Append(y, z)) == Append(Append(x, y), z)
  {
    if x.Some? && y.Some? && z.Some? { assert x.value + (y.value + z.value) == x.value + y.value + z.value; }
  }

  lemma AppendNothing(x: Wire)
    ensures Append(x, Some([])) == x && Append(Some([]), x) == x
  {
    if x.Some? { assert x.value + [] == x.value && [] + x.value == x.value; }
  }

  /** The element loop of an unpacked array. */
  method WriteUnpacked(st: OStream, f: Field, items: seq<Value>) returns (ok: bool)
    requires st.Valid() && FieldOk(f) && ItemsOk(f, items)
    modifies st.Frame()
    ensures st.Valid() && Emits(old(st.Now()), st.Now(), ok, EncodeUnpacked(f, items))
    decreases f, 2
  {
    hide Emits, FieldOk, ValueOk, EncodeTagged;
    ghost var a := st.Now();
    ghost var done: Wire := Some([]);
    EmitNothing(a);
    AppendNothing(EncodeUnpacked(f, items));
    assert items[0..] == items;
    for i := 0 to |items|
      invariant st.Valid() && Emits(a, st.Now(), true, done)
      invariant EncodeUnpacked(f, items) == Append(done, EncodeUnpacked(f, items[i..]))
    {
      ghost var b := st.Now();
      UnpackedStep(f, items, i, done);
      ok := WriteTagged(st, f, items[i]);
      if !ok {
        EmitThen(a, b, st.Now(), false, done, EncodeTagged(f, items[i]));
        EmitFails(a, st.Now(), Append(done, EncodeTagged(f, items[i])), EncodeUnpacked(f, items[i + 1..]));
        return;
      }
      EmitThen(a, b, st.Now(), true, done, EncodeTagged(f, items[i]));
      done := Append(done, EncodeTagged(f, items[i]));
    }
    AppendNothing(done);
    assert items[|items|..] == [];
    ok := true;
  }

  /** The size of a packed array: computed for fixed-width elements, else measured. */
  method PackedSize(f: Field, items: seq<Value>) returns (ok: bool, size: nat)
    requires FieldOk(f) && Packable(f) && ItemsOk(f, items)
    ensures ok == EncodePacked(f, items).Some?
    ensures ok ==> size == |EncodePacked(f, items).value|
  {
    if f.ltype.LFixed32? {
      FixedPackedSize(f, items, 4);
      return true, 4 * |items|;
    }
    if f.ltype.LFixed64? {
      FixedPackedSize(f, items, 8);
      return true, 8 * |items|;
    }
    hide FieldOk, ItemsOk, EncodePacked, Emits;
    var sizing := new OStream(null, 0, 0);
    ghost var z := sizing.Now();
    ok := WritePacked(sizing, f, items);
    SizingResult(z, sizing.Now(), ok, EncodePacked(f, items));
    size := sizing.bytesWritten;
  }

  lemma {:induction false} FixedPackedSize(f: Field, items: seq<Value>, width: nat)
    requires (f.ltype.LFixed32? && width == 4) || (f.ltype.LFixed64? && width == 8)
    requires ItemsOk(f, items)
    ensures EncodePacked(f, items).Some?
    ensures |EncodePacked(f, items).value| == if width == 4 then 4 * |items| else 8 * |items|
    decreases |items|
  {
    hide LittleEndian;
    if items != [] { FixedPackedSize(f, items[1..], width); }
  }

  /** The packed branch of encode_array. */
  method WritePackedArray(st: OStream, f: Field, items: seq<Value>) returns (ok: bool)
    requires st.Valid() && FieldOk(f) && Packable(f) && ItemsOk(f, items)
    modifies st.Frame()
    ensures st.Valid()
    ensures Emits(old(st.Now()), st.Now(), ok,
                  if EncodePacked(f, items).None? then None
                  else Some(EncTag(WT_STRING, f.tag) + EncString(EncodePacked(f, items).value)))
  {
    TagSmall(f);
    hide Emits, FieldOk, ItemsOk, Packable, EncodePacked, EncTag, EncVarint, Low64;
    ghost var a := st.Now();
    ghost var tag, data := Some(EncTag(WT_STRING, f.tag)), EncodePacked(f, items);
    ok := WriteTag(st, WT_STRING, f.tag);
    ghost var b := st.Now();
    if !ok {
      FailsAnyway(a, b, tag, data);
      return;
    }
    var size: nat;
    ok, size := PackedSize(f, items);
    if !ok {
      ErrorAfter(a, b, tag);
      return;
    }
    ghost var prefix := Some(EncVarint(Low64(size)));
    AppendAssociative(tag, prefix, data);
    assert Append(tag, Append(prefix, data)) == Some(EncTag(WT_STRING, f.tag) + EncString(data.value));
    ok := st.WriteVarint(Low64(size));
    ghost var c := st.Now();
    EmitThen(a, b, c, ok, tag, prefix);
    if !ok {
      EmitFails(a, c, Append(tag, prefix), data);
      return;
    }
    if st.buf == null {
      st.Count(size);
      ok := true;
    } else {
      ok := WritePacked(st, f, items);
    }
    EmitThen(a, c, st.Now(), ok, Append(tag, prefix), data);
  }

  lemma FailsAnyway(a: Snapshot, b: Snapshot, x: Wire, data: Wire)
    requires Emits(a, b, false, x) && x.Some?
    ensures Emits(a, b, false, if data.Some? then Some(x.value + EncString(data.value)) else None)
  {
    if data.Some? { EmitFails(a, b, x, Some(EncString(data.value))); }
  }

  /** An error that is found after something has been written. */
  lemma ErrorAfter(a: Snapshot, b: Snapshot, x: Wire)
    requires Emits(a, b, true, x)
    ensures Emits(a, b, false, None)
  {
    NoEmission(b);
    EmitThen(a, b, b, false, x, None);
  }

  /** encode_array */
  method WriteArray(st: OStream, f: Field, items: seq<Value>) returns (ok: bool)
    requires st.Valid() && FieldOk(f) && ItemsOk(f, items)
    modifies st.Frame()
    ensures st.Valid() && Emits(old(st.Now()), st.Now(), ok, EncodeArray(f, items))
    decreases f, 3
  {
    hide Emits, FieldOk, ItemsOk, EncodePacked, EncodeUnpacked, EncTag, EncString;
    ghost var a := st.Now();
    if items == [] {
      EmitNothing(a);
      return true;
    }
    if |items| > f.arraySize {
      NoEmission(a);
      return false;
    }
    if Packable(f) {
      ok := WritePackedArray(st, f, items);
    } else {
      ok := WriteUnpacked(st, f, items);
    }
  }

  // ---------- proto3 default values ----------

  /** pb_check_proto3_default_value */
  method CheckDefault(f: Field, slot: Slot, unions: map<nat, Union>) returns (isDefault: bool)
    requires FieldOk(f) && SlotOk(Raw, f, slot)
    ensures isDefault == IsDefault(f, slot, unions)
    decreases f, 1
  {
    hide FieldOk, ValueOk, IsZero;
    match f.htype {
      case HRequired => isDefault := false;
      case HRepeated =>
        if f.sizeOffset != 0 {
          isDefault := |slot.items| == 0;
        } else {
          isDefault := false;
        }
      case HOneof(g) => isDefault := g !in unions;
      case HOptional =>
        if f.sizeOffset != 0 {
          isDefault := !slot.has;
        } else {
          isDefault := CheckZero(f, slot.v);
        }
    }
  }

  /** The value tests of pb_check_proto3_default_value. */
  method CheckZero(f: Field, v: Value) returns (isZero: bool)
    requires FieldOk(f) && ValueOk(Raw, f, v)
    ensures isZero == IsZero(f, v)
    decreases f, 0
  {
    hide AllDefault, FieldsOk, MessageOk;
    match f.ltype {
      case LBytes => isZero := |v.b| == 0;
      case LString => isZero := |v.b| == 0 || v.b[0] == 0;
      case LFixedBytes => isZero := f.dataSize == 0;
      case LSubmessage(fields) => isZero := CheckAllDefault(fields, v.m);
      case _ => isZero := v.n == 0;
    }
  }

  /** The iterator loop of pb_check_proto3_default_value over a submessage. */
  method CheckAllDefault(fields: seq<Field>, m: Message) returns (allDefault: bool)
    requires FieldsOk(fields) && MessageOk(Raw, fields, m)
    ensures allDefault == AllDefault(fields, m, 0)
    decreases fields
  {
    hide FieldsOk, MessageOk, FieldOk, SlotOk, IsDefault, AllDefault;
    TagsNonZero(fields);
    EncodeWhole(fields, m);
    var iter := new FieldIter(fields, 0);
    if fields == [] {
      DefaultStep(fields, m, 0);
      return true;
    }
    ghost var i := 0;
    var more := true;
    while more
      invariant fresh(iter) && iter.Valid() && iter.fields == fields
      invariant i <= |fields| && (more <==> i < |fields|) && (more ==> iter.pos == i)
      invariant AllDefault(fields, m, 0) == AllDefault(fields, m, i)
      decreases |fields| - i
    {
      FieldStored(fields, m, i);
      DefaultStep(fields, m, i);
      var isDefault := CheckDefault(fields[iter.pos], m.slots[iter.pos], m.unions);
      if !isDefault {
        return false;
      }
      i := i + 1;
      more := iter.Next();
    }
    DefaultStep(fields, m, i);
    return true;
  }

  lemma DefaultStep(fields: seq<Field>, m: Message, i: nat)
    requires i <= |fields| == |m.slots|
    ensures AllDefault(fields, m, i)
         == (i == |fields| || (IsDefault(fields[i], m.slots[i], m.unions) && AllDefault(fields, m, i + 1)))
  {}

  // ---------- fields and messages ----------

  /** encode_basic_field */
  method WriteField(st: OStream, f: Field, slot: Slot, unions: map<nat, Union>) returns (ok: bool)
    requires st.Valid() && FieldOk(f) && SlotOk(Raw, f, slot)
    requires Current(f, unions) ==> ValueOk(Raw, f, unions[f.htype.group].v)
    modifies st.Frame()
    ensures st.Valid() && Emits(old(st.Now()), st.Now(), ok, EncodeField(f, slot, unions))
    decreases f, 4
  {
    hide Emits, FieldOk, ValueOk, EncodeTagged, EncodeArray, IsZero;
    EmitNothing(st.Now());
    ok := true;
    match f.htype {
      case HRequired => ok := WriteTagged(st, f, slot.v);
      case HOptional =>
        var has: bool;
        if f.sizeOffset != 0 {
          has := slot.has;
        } else {
          var isDefault := CheckDefault(f, slot, unions);
          has := !isDefault;
        }
        if has {
          ok := WriteTagged(st, f, slot.v);
        }
      case HRepeated => ok := WriteArray(st, f, slot.items);
      case HOneof(g) =>
        if g in unions && unions[g].which == f.tag {
          ok := WriteTagged(st, f, unions[g].v);
        }
    }
  }

  /** pb_encode */
  method WriteMessage(st: OStream, fields: seq<Field>, m: Message) returns (ok: bool)
    requires st.Valid() && FieldsOk(fields) && MessageOk(Raw, fields, m)
    modifies st.Frame()
    ensures st.Valid() && Emits(old(st.Now()), st.Now(), ok, Encode(fields, m))
    decreases fields, 7
  {
    hide Emits, FieldsOk, MessageOk, EncodeField, EncodeFrom, Encode, SlotOk, FieldOk, ValueOk, Append;
    hide Offset, CounterOffset, RequiredBefore;
    TagsNonZero(fields);
    EncodeWhole(fields, m);
    ghost var a := st.Now();
    EmitNothing(a);
    var iter := new FieldIter(fields, 0);
    if fields == [] {
      return true;
    }
    ghost var done: Wire, i := Some([]), 0;
    AppendNothing(EncodeFrom(fields, m, 0));
    var more := true;
    while more
      invariant st.Valid() && fresh(iter) && iter.Valid() && iter.fields == fields
      invariant more ==> iter.pos == i
      invariant i <= |fields| && (more <==> i < |fields|)
      invariant Emits(a, st.Now(), true, done)
      invariant Encode(fields, m) == Append(done, EncodeFrom(fields, m, i))
      decreases |fields| - i
    {
      ghost var e := EncodeField(fields[i], m.slots[i], m.unions);
      FromStep(fields, m, i, done);
      ok := WriteEntry(st, fields, m, iter.pos, a, done);
      if !ok {
        return;
      }
      done := Append(done, e);
      i := i + 1;
      more := iter.Next();
    }
    EncodeEnd(fields, m);
    AppendNothing(done);
    ok := true;
  }

  /** One turn of pb_encode's loop; `done` is what has been written since a. */
  method WriteEntry(st: OStream, fields: seq<Field>, m: Message, i: nat, ghost a: Snapshot, ghost done: Wire)
    returns (ok: bool)
    requires st.Valid() && FieldsOk(fields) && MessageOk(Raw, fields, m) && i < |fields|
    requires Emits(a, st.Now(), true, done)
    modifies st.Frame()
    ensures st.Valid()
    ensures var e := EncodeField(fields[i], m.slots[i], m.unions);
            if ok then Emits(a, st.Now(), true, Append(done, e))
            else Emits(a, st.Now(), false, Append(Append(done, e), EncodeFrom(fields, m, i + 1)))
    decreases fields, 6
  {
    FieldStored(fields, m, i);
    hide Emits, FieldsOk, MessageOk, EncodeField, EncodeFrom, SlotOk, FieldOk, ValueOk;
    ghost var b := st.Now();
    ghost var e := EncodeField(fields[i], m.slots[i], m.unions);
    ok := WriteField(st, fields[i], m.slots[i], m.unions);
    EmitThen(a, b, st.Now(), ok, done, e);
    if !ok {
      EmitFails(a, st.Now(), Append(done, e), EncodeFrom(fields, m, i + 1));
    }
  }

  lemma EncodeWhole(fields: seq<Field>, m: Message)
    requires MessageOk(Raw, fields, m)
    ensures |m.slots| == |fields| && Encode(fields, m) == EncodeFrom(fields, m, 0)
    ensures fields == [] ==> Encode(fields, m) == Some([])
  {}

  lemma EncodeEnd(fields: seq<Field>, m: Message)
    requires |m.slots| == |fields|
    ensures EncodeFrom(fields, m, |fields|) == Some([])
  {}

  lemma FieldStored(fields: seq<Field>, m: Message, i: nat)
    requires i < |fields| && FieldsOk(fields) && MessageOk(Raw, fields, m)
    ensures FieldOk(fields[i]) && SlotOk(Raw, fields[i], m.slots[i])
    ensures Current(fields[i], m.unions) ==> ValueOk(Raw, fields[i], m.unions[fields[i].htype.group].v)
  {}

  lemma FromStep(fields: seq<Field>, m: Message, i: nat, done: Wire)
    requires i < |fields| == |m.slots|
    ensures Append(done, EncodeFrom(fields, m, i))
         == Append(Append(done, EncodeField(fields[i], m.slots[i], m.unions)), EncodeFrom(fields, m, i + 1))
  {
    hide EncodeField;
    AppendAssociative(done, EncodeField(fields[i], m.slots[i], m.unions), EncodeFrom(fields, m, i + 1));
  }

  // ---------- entry points ----------

  /** pb_encode_delimited */
  method WriteDelimited(st: OStream, fields: seq<Field>, m: Message) returns (ok: bool)
    requires st.Valid() && FieldsOk(fields) && MessageOk(Raw, fields, m)
    modifies st.Frame()
    ensures st.Valid()
    ensures Emits(old(st.Now()), st.Now(), ok,
                  if Encode(fields, m).Some? then Some(EncString(Encode(fields, m).value)) else None)
  {
    ok := WriteSubmessage(st, fields, m);
  }

  /** pb_encode_nullterminated */
  method WriteNullTerminated(st: OStream, fields: seq<Field>, m: Message) returns (ok: bool)
    requires st.Valid() && FieldsOk(fields) && MessageOk(Raw, fields, m)
    modifies st.Frame()
    ensures st.Valid() && Emits(old(st.Now()), st.Now(), ok, Append(Encode(fields, m), Some([0])))
  {
    hide Emits, FieldsOk, MessageOk, Encode;
    ghost var a := st.Now();
    ok := WriteMessage(st, fields, m);
    ghost var b := st.Now();
    if !ok {
      EmitFails(a, b, Encode(fields, m), Some([0]));
      return;
    }
    ok := st.Write([0]);
    EmitThen(a, b, st.Now(), ok, Encode(fields, m), Some([0]));
  }

  /** pb_get_encoded_size */
  method GetEncodedSize(fields: seq<Field>, m: Message) returns (ok: bool, size: nat)
    requires FieldsOk(fields) && MessageOk(Raw, fields, m)
    ensures ok == Encode(fields, m).Some?
    ensures ok ==> size == |Encode(fields, m).value|
  {
    hide Emits, FieldsOk, MessageOk, Encode;
    var sizing := new OStream(null, 0, 0);
    ghost var z := sizing.Now();
    ok := WriteMessage(sizing, fields, m);
    SizingResult(z, sizing.Now(), ok, Encode(fields, m));
    size := sizing.bytesWritten;
  }
}
