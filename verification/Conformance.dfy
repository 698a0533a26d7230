/**
 The encoder and the wire format are the same: the format leaves one byte string for a message, and the
 encoder writes it exactly when everything fits.
 */
module Conformance {
  import opened Bytes
  import opened Integers
  import opened Varint
  import opened Schema
  import opened Encoding
  import opened WireFormat

  // ---------- the encoder's varints and scalars ----------

  lemma {:induction false} EncVarintIsVarint(n: nat)
    ensures IsVarint(EncVarint(n), n)
  {
    if n >= 128 {
      EncVarintIsVarint(n / 128);
      var t := EncVarint(n / 128);
      assert EncVarint(n) == [n % 128 + 128] + t && EncVarint(n)[1..] == t;
      assert Sum128(EncVarint(n)) == n % 128 + 128 * Sum128(t);
    } else {
      assert Sum128([n]) == n;
    }
  }

  lemma EncStringIsBytes(b: seq<byte>)
    requires |b| < U64
    ensures IsBytes(EncString(b), b)
  {
    EncVarintIsVarint(|b|);
    assert EncString(b) == EncVarint(|b|) + b;
  }

  lemma CStrIsText(b: seq<byte>)
    ensures BeforeNul(b, CStr(b))
  {}

  lemma FourBytes(n: nat)
    ensures Is32Bits(LittleEndian(n, 4), n % 0x1_0000_0000)
  {
    var a, b, c := n / 0x100, n / 0x1_0000, n / 0x100_0000;
    DivTwice(n, 0x100);
    DivTwice(n, 0x1_0000);
    assert LittleEndian(n, 4) == [n % 0x100] + LittleEndian(a, 3);
    assert LittleEndian(a, 3) == [a % 0x100] + LittleEndian(b, 2);
    assert LittleEndian(b, 2) == [b % 0x100] + LittleEndian(c, 1);
    assert LittleEndian(c, 1) == [c % 0x100] + LittleEndian(c / 0x100, 0);
    assert LittleEndian(n, 4) == [n % 0x100, a % 0x100, b % 0x100, c % 0x100];
  }

  lemma {:induction false} LittleEndianSplit(n: nat, i: nat, j: nat)
    ensures LittleEndian(n, i + j) == LittleEndian(n, i) + LittleEndian(Shifted(n, i), j)
    decreases i
  {
    if i > 0 { LittleEndianSplit(n / 0x100, i - 1, j); }
  }

  /** n without its lowest i bytes. */
  function Shifted(n: nat, i: nat): nat {
    if i == 0 then n else Shifted(n / 0x100, i - 1)
  }

  lemma FourShifts(n: nat)
    ensures Shifted(n, 4) == n / 0x1_0000_0000
  {
    DivTwice(n, 0x100);
    DivTwice(n, 0x1_0000);
    DivTwice(n, 0x100_0000);
    assert Shifted(n, 4) == Shifted(n / 0x100, 3);
    assert Shifted(n / 0x100, 3) == Shifted(n / 0x100 / 0x100, 2);
    assert Shifted(n / 0x1_0000, 2) == Shifted(n / 0x1_0000 / 0x100, 1);
    assert Shifted(n / 0x100_0000, 1) == Shifted(n / 0x100_0000 / 0x100, 0);
  }

  lemma DivTwice(n: nat, k: nat)
    requires k == 0x100 || k == 0x1_0000 || k == 0x100_0000
    ensures n / k / 0x100 == n / (0x100 * k)
  {}

  lemma EightBytes(n: nat)
    requires n < U64
    ensures var s := LittleEndian(n, 8);
            Is32Bits(s[..4], n % 0x1_0000_0000) && Is32Bits(s[4..], n / 0x1_0000_0000)
  {
    LittleEndianSplit(n, 4, 4);
    FourShifts(n);
    FourBytes(n);
    FourBytes(n / 0x1_0000_0000);
    assert LittleEndian(n, 8)[..4] == LittleEndian(n, 4);
    assert LittleEndian(n, 8)[4..] == LittleEndian(n / 0x1_0000_0000, 4);
  }

  // ---------- the encoder writes this format ----------

  lemma ScalarWritten(f: Field, v: Value)
    requires FieldOk(f) && ValueOk(Raw, f, v) && !f.ltype.LSubmessage?
    requires EncodeValue(f, v).Some? && |EncodeValue(f, v).value| < U64
    ensures ValueBytes(f, v, EncodeValue(f, v).value)
  {
    hide EncVarint, LittleEndian, IsVarint, IsBytes, BeforeNul, Is32Bits;
    match f.ltype
    case LBool => OneByteVarint(if v.n != 0 then 1 else 0);
    case LVarint | LUVarint | LSVarint => IntWritten(f, v.n);
    case LFixed32 => FourBytes(v.n);
    case LFixed64 => EightBytes(v.n);
    case LString => TextWritten(f, v.b);
    case LBytes | LFixedBytes => EncStringIsBytes(v.b);
  }

  lemma OneByteVarint(n: nat)
    requires n < 128
    ensures EncVarint(n) == [n]
  {}

  lemma TextWritten(f: Field, b: seq<byte>)
    requires f.ltype.LString? && |EncString(CStr(b))| < U64
    ensures ValueBytes(f, Blob(b), EncString(CStr(b)))
  {
    hide EncVarint, IsBytes, BeforeNul;
    CStrIsText(b);
    EncStringIsBytes(CStr(b));
    assert BeforeNul(b, CStr(b)) && IsBytes(EncString(CStr(b)), CStr(b));
  }

  lemma IntWritten(f: Field, n: int)
    requires IntWidth(f.dataSize) && (f.ltype.LVarint? || f.ltype.LUVarint? || f.ltype.LSVarint?)
    requires if f.ltype.LUVarint? then InUnsigned(f.dataSize, n) else InSigned(f.dataSize, n)
    ensures EncodeValue(f, Int(n)).Some? && ValueBytes(f, Int(n), EncodeValue(f, Int(n)).value)
  {
    hide EncVarint, IsVarint;
    var u: nat := if n >= 0 then (if f.ltype.LSVarint? then 2 * n else n)
                  else if f.ltype.LSVarint? then -2 * n - 1 else n + 0x1_0000_0000_0000_0000;
    assert EncodeValue(f, Int(n)) == Some(EncVarint(u));
    EncVarintIsVarint(u);
  }

  lemma {:induction false} ValueWritten(f: Field, v: Value)
    requires FieldOk(f) && ValueOk(Raw, f, v)
    requires EncodeValue(f, v).Some? && |EncodeValue(f, v).value| < U64
    ensures ValueBytes(f, v, EncodeValue(f, v).value)
    decreases f, 0
  {
    match f.ltype
    case LSubmessage(fields) =>
      var payload := Encode(fields, v.m).value;
      MessageWritten(fields, v.m);
      EncStringIsBytes(payload);
    case _ => ScalarWritten(f, v);
  }

  lemma {:induction false} RecordWritten(f: Field, v: Value)
    requires FieldOk(f) && ValueOk(Raw, f, v)
    requires EncodeTagged(f, v).Some? && |EncodeTagged(f, v).value| < U64
    ensures RecordBytes(f, v, EncodeTagged(f, v).value)
    decreases f, 1
  {
    hide EncVarint, EncodeValue, ValueBytes, IsVarint, FieldOk, ValueOk;
    ValueWritten(f, v);
    WireTypeIsNumber(f);
    var tag, body := EncTag(WireType(f), f.tag), EncodeValue(f, v).value;
    EncVarintIsVarint(8 * f.tag + WireType(f));
    assert (tag + body)[..|tag|] == tag && (tag + body)[|tag|..] == body;
  }

  lemma {:induction false} ValuesWritten(f: Field, items: seq<Value>) returns (parts: seq<seq<byte>>)
    requires FieldOk(f) && forall k | 0 <= k < |items| :: ValueOk(Raw, f, items[k])
    requires EncodePacked(f, items).Some? && |EncodePacked(f, items).value| < U64
    ensures ValuesBytes(f, items, parts) && Join(parts) == EncodePacked(f, items).value
    decreases f, 2, |items|
  {
    hide FieldOk, ValueOk, EncodeValue, ValueBytes;
    parts := [];
    if items != [] {
      ValueWritten(f, items[0]);
      var rest := ValuesWritten(f, items[1..]);
      parts := [EncodeValue(f, items[0]).value] + rest;
      assert parts[1..] == rest;
    }
  }

  lemma {:induction false} RecordsWritten(f: Field, items: seq<Value>) returns (parts: seq<seq<byte>>)
    requires FieldOk(f) && forall k | 0 <= k < |items| :: ValueOk(Raw, f, items[k])
    requires EncodeUnpacked(f, items).Some? && |EncodeUnpacked(f, items).value| < U64
    ensures RecordsBytes(f, items, parts) && Join(parts) == EncodeUnpacked(f, items).value
    decreases f, 2, |items|
  {
    hide FieldOk, ValueOk, EncodeTagged, RecordBytes;
    parts := [];
    if items != [] {
      RecordWritten(f, items[0]);
      var rest := RecordsWritten(f, items[1..]);
      parts := [EncodeTagged(f, items[0]).value] + rest;
      assert parts[1..] == rest;
    }
  }

  lemma {:induction false} ArrayWritten(f: Field, items: seq<Value>)
    requires FieldOk(f) && forall k | 0 <= k < |items| :: ValueOk(Raw, f, items[k])
    requires EncodeArray(f, items).Some? && |EncodeArray(f, items).value| < U64
    ensures ArrayBytes(f, items, EncodeArray(f, items).value)
    decreases f, 3
  {
    hide FieldOk, ValueOk, EncodePacked, EncodeUnpacked, EncVarint, Packable, Numeric;
    hide IsVarint, IsBytes, ValuesBytes, RecordsBytes, EncString;
    PackableIsNumeric(f);
    if items != [] {
      if Packable(f) {
        var payload := EncodePacked(f, items).value;
        StringLonger(payload);
        var parts := ValuesWritten(f, items);
        EncStringIsBytes(payload);
        EncVarintIsVarint(8 * f.tag + WT_STRING);
        var tag, body := EncTag(WT_STRING, f.tag), EncString(payload);
        var s := EncodeArray(f, items).value;
        assert s[..|tag|] == tag && s[|tag|..] == body;
        assert IsVarint(s[..|tag|], 8 * f.tag + 2) && ValuesBytes(f, items, parts) && IsBytes(s[|tag|..], Join(parts));
      } else {
        var parts := RecordsWritten(f, items);
        assert RecordsBytes(f, items, parts) && EncodeArray(f, items).value == Join(parts);
      }
    }
  }

  lemma StringLonger(b: seq<byte>)
    ensures |b| < |EncString(b)|
  {}

  lemma {:induction false} VanishesIsZero(f: Field, v: Value)
    requires ValueOk(Raw, f, v)
    ensures Vanishes(f, v) == IsZero(f, v)
    decreases f, 0
  {
    match f.ltype
    case LSubmessage(fields) => VanishFromIsDefault(fields, v.m, 0);
    case _ =>
  }

  lemma {:induction false} FieldVanishesIsDefault(f: Field, slot: Slot, unions: map<nat, Union>)
    requires SlotOk(Raw, f, slot)
    ensures FieldVanishes(f, slot, unions) == IsDefault(f, slot, unions)
    decreases f, 1
  {
    hide ValueOk, Vanishes, IsZero;
    match slot
    case Single(v) => VanishesIsZero(f, v);
    case _ =>
  }

  lemma {:induction false} VanishFromIsDefault(fields: seq<Field>, m: Message, i: nat)
    requires i <= |fields| && MessageOk(Raw, fields, m)
    ensures (forall j | i <= j < |fields| :: FieldVanishes(fields[j], m.slots[j], m.unions)) == AllDefault(fields, m, i)
    decreases fields, |fields| - i
  {
    hide SlotOk, ValueOk, FieldVanishes, IsDefault;
    if i < |fields| {
      assert SlotOk(Raw, fields[i], m.slots[i]);
      FieldVanishesIsDefault(fields[i], m.slots[i], m.unions);
      VanishFromIsDefault(fields, m, i + 1);
    }
  }

  lemma {:induction false} FieldWritten(f: Field, slot: Slot, unions: map<nat, Union>)
    requires FieldOk(f) && SlotOk(Raw, f, slot)
    requires Current(f, unions) ==> ValueOk(Raw, f, unions[f.htype.group].v)
    requires EncodeField(f, slot, unions).Some? && |EncodeField(f, slot, unions).value| < U64
    ensures FieldBytes(f, slot, unions, EncodeField(f, slot, unions).value)
    decreases f, 4
  {
    hide FieldOk, ValueOk, EncodeTagged, EncodeArray, RecordBytes, ArrayBytes, IsZero, Vanishes;
    match slot
    case Single(v) =>
      VanishesIsZero(f, v);
      if EncodeTagged(f, v).Some? && (f.htype.HRequired? || !IsZero(f, v)) { RecordWritten(f, v); }
    case Opt(has, v) => if has { RecordWritten(f, v); }
    case Rep(items) => ArrayWritten(f, items);
    case Member => if Current(f, unions) { RecordWritten(f, unions[f.htype.group].v); }
  }

  lemma {:induction false} FieldsWritten(fields: seq<Field>, m: Message, i: nat) returns (parts: seq<seq<byte>>)
    requires i <= |fields| && FieldsOk(fields) && MessageOk(Raw, fields, m)
    requires EncodeFrom(fields, m, i).Some? && |EncodeFrom(fields, m, i).value| < U64
    ensures |parts| == |fields| - i && Join(parts) == EncodeFrom(fields, m, i).value
    ensures forall j | i <= j < |fields| :: FieldBytes(fields[j], m.slots[j], m.unions, parts[j - i])
    decreases fields, |fields| - i
  {
    hide FieldOk, SlotOk, ValueOk, EncodeField, FieldBytes;
    parts := [];
    if i < |fields| {
      assert FieldOk(fields[i]) && SlotOk(Raw, fields[i], m.slots[i]);
      FieldWritten(fields[i], m.slots[i], m.unions);
      var rest := FieldsWritten(fields, m, i + 1);
      parts := [EncodeField(fields[i], m.slots[i], m.unions).value] + rest;
      assert parts[1..] == rest;
    }
  }

  /** Whatever struct is encoded, the bytes are those the format assigns to it. */
  lemma {:induction false} MessageWritten(fields: seq<Field>, m: Message)
    requires FieldsOk(fields) && MessageOk(Raw, fields, m)
    requires Encode(fields, m).Some? && |Encode(fields, m).value| < U64
    ensures MessageBytes(fields, m, Encode(fields, m).value)
    decreases fields, |fields| + 1
  {
    hide FieldsOk, EncodeFrom, FieldBytes;
    var parts := FieldsWritten(fields, m, 0);
    assert FieldsBytes(fields, m, parts) && Encode(fields, m).value == Join(parts);
  }

  // ---------- one byte string for a message ----------

  lemma {:induction false} VarintUnique(s: seq<byte>, n: nat)
    requires IsVarint(s, n)
    ensures s == EncVarint(n)
    decreases |s|
  {
    if |s| > 1 {
      var m := Sum128(s[1..]);
      assert IsVarint(s[1..], m) by {
        assert s[1..][|s| - 2] == s[|s| - 1];
        assert forall k | 0 <= k < |s| - 2 :: s[1..][k] == s[k + 1];
      }
      VarintUnique(s[1..], m);
      VarintPositive(s[1..]);
      assert n == s[0] % 128 + 128 * m;
      assert n / 128 == m && n % 128 + 128 == s[0];
      assert s == [s[0]] + s[1..];
    } else {
      assert s[1..] == [] && s == [s[0]];
    }
  }

  lemma {:induction false} VarintPositive(s: seq<byte>)
    requires s != [] && 0 < s[|s| - 1] < 128
    ensures Sum128(s) > 0
    decreases |s|
  {
    if |s| > 1 { VarintPositive(s[1..]); }
  }

  lemma BytesUnique(s: seq<byte>, contents: seq<byte>)
    requires IsBytes(s, contents) && |s| < U64
    ensures s == EncString(contents)
  {
    var size := |s| - |contents|;
    VarintUnique(s[..size], |contents|);
    assert s == s[..size] + s[size..];
  }

  lemma TextUnique(b: seq<byte>, text: seq<byte>)
    requires BeforeNul(b, text)
    ensures text == CStr(b)
  {
    var c := CStr(b);
    assert |text| == |c|;
  }

  lemma FixedUnique(s: seq<byte>, t: seq<byte>, n: int)
    requires Is32Bits(s, n) && Is32Bits(t, n)
    ensures s == t
  {
    var a: int, b: int, c: int, d: int := s[0], s[1], s[2], s[3];
    var a': int, b': int, c': int, d': int := t[0], t[1], t[2], t[3];
    LowByteUnique(a, b + 0x100 * c + 0x1_0000 * d, a', b' + 0x100 * c' + 0x1_0000 * d');
    LowByteUnique(b, c + 0x100 * d, b', c' + 0x100 * d');
    LowByteUnique(c, d, c', d');
  }

  lemma LowByteUnique(low: int, high: int, low': int, high': int)
    requires 0 <= low < 0x100 && 0 <= low' < 0x100 && low + 0x100 * high == low' + 0x100 * high'
    ensures low == low' && high == high'
  {}

  lemma ScalarUnique(f: Field, v: Value, s: seq<byte>)
    requires FieldOk(f) && ValueOk(Raw, f, v) && !f.ltype.LSubmessage?
    requires EncodeValue(f, v).Some? && ValueBytes(f, v, s) && |s| < U64
    ensures EncodeValue(f, v) == Some(s)
  {
    hide EncVarint, LittleEndian, IsVarint, IsBytes, BeforeNul, Is32Bits, EncString;
    match f.ltype
    case LBool => OneByteVarint(if v.n != 0 then 1 else 0);
    case LVarint | LUVarint | LSVarint => IntUnique(f, v.n, s);
    case LFixed32 => FourBytes(v.n); FixedUnique(s, LittleEndian(v.n, 4), v.n);
    case LFixed64 =>
      EightBytes(v.n);
      var t := LittleEndian(v.n, 8);
      FixedUnique(s[..4], t[..4], v.n % 0x1_0000_0000);
      FixedUnique(s[4..], t[4..], v.n / 0x1_0000_0000);
      assert s == s[..4] + s[4..] && t == t[..4] + t[4..];
    case LString =>
      var text :| BeforeNul(v.b, text) && IsBytes(s, text);
      TextUnique(v.b, text);
      BytesUnique(s, text);
    case LBytes | LFixedBytes => BytesUnique(s, v.b);
  }

  lemma IntUnique(f: Field, n: int, s: seq<byte>)
    requires IntWidth(f.dataSize) && (f.ltype.LVarint? || f.ltype.LUVarint? || f.ltype.LSVarint?)
    requires if f.ltype.LUVarint? then InUnsigned(f.dataSize, n) else InSigned(f.dataSize, n)
    requires ValueBytes(f, Int(n), s)
    ensures EncodeValue(f, Int(n)) == Some(s)
  {
    hide EncVarint, IsVarint;
    var u: nat := if n >= 0 then (if f.ltype.LSVarint? then 2 * n else n)
                  else if f.ltype.LSVarint? then -2 * n - 1 else n + 0x1_0000_0000_0000_0000;
    VarintUnique(s, u);
  }

  lemma {:induction false} ValueUnique(f: Field, v: Value, s: seq<byte>)
    requires FieldOk(f) && ValueOk(Raw, f, v)
    requires EncodeValue(f, v).Some? && ValueBytes(f, v, s) && |s| < U64
    ensures EncodeValue(f, v) == Some(s)
    decreases f, 0
  {
    match f.ltype
    case LSubmessage(fields) =>
      var payload :| IsBytes(s, payload) && MessageBytes(fields, v.m, payload);
      MessageUnique(fields, v.m, payload);
      BytesUnique(s, payload);
    case _ => ScalarUnique(f, v, s);
  }

  lemma {:induction false} RecordUnique(f: Field, v: Value, s: seq<byte>)
    requires FieldOk(f) && ValueOk(Raw, f, v)
    requires EncodeTagged(f, v).Some? && RecordBytes(f, v, s) && |s| < U64
    ensures EncodeTagged(f, v) == Some(s)
    decreases f, 1
  {
    hide EncVarint, EncodeValue, ValueBytes, IsVarint, FieldOk, ValueOk;
    var size :| 0 <= size <= |s|
                && IsVarint(s[..size], 8 * f.tag + WireTypeNumber(f.ltype)) && ValueBytes(f, v, s[size..]);
    WireTypeIsNumber(f);
    VarintUnique(s[..size], 8 * f.tag + WireTypeNumber(f.ltype));
    ValueUnique(f, v, s[size..]);
    assert s == s[..size] + s[size..];
  }

  lemma {:induction false} ValuesUnique(f: Field, items: seq<Value>, parts: seq<seq<byte>>)
    requires FieldOk(f) && forall k | 0 <= k < |items| :: ValueOk(Raw, f, items[k])
    requires EncodePacked(f, items).Some? && ValuesBytes(f, items, parts) && |Join(parts)| < U64
    ensures EncodePacked(f, items) == Some(Join(parts))
    decreases f, 2, |items|
  {
    hide FieldOk, ValueOk, EncodeValue, ValueBytes;
    if items != [] {
      ValueUnique(f, items[0], parts[0]);
      ValuesUnique(f, items[1..], parts[1..]);
    }
  }

  lemma {:induction false} RecordsUnique(f: Field, items: seq<Value>, parts: seq<seq<byte>>)
    requires FieldOk(f) && forall k | 0 <= k < |items| :: ValueOk(Raw, f, items[k])
    requires EncodeUnpacked(f, items).Some? && RecordsBytes(f, items, parts) && |Join(parts)| < U64
    ensures EncodeUnpacked(f, items) == Some(Join(parts))
    decreases f, 2, |items|
  {
    hide FieldOk, ValueOk, EncodeTagged, RecordBytes;
    if items != [] {
      RecordUnique(f, items[0], parts[0]);
      RecordsUnique(f, items[1..], parts[1..]);
    }
  }

  lemma {:induction false} ArrayUnique(f: Field, items: seq<Value>, s: seq<byte>)
    requires FieldOk(f) && forall k | 0 <= k < |items| :: ValueOk(Raw, f, items[k])
    requires EncodeArray(f, items).Some? && ArrayBytes(f, items, s) && |s| < U64
    ensures EncodeArray(f, items) == Some(s)
    decreases f, 3
  {
    hide FieldOk, ValueOk, EncodePacked, EncodeUnpacked, EncVarint, Packable, Numeric;
    hide IsVarint, ValuesBytes, RecordsBytes, EncString;
    PackableIsNumeric(f);
    if items != [] {
      if Packable(f) {
        var size, parts :| 0 <= size <= |s| && IsVarint(s[..size], 8 * f.tag + 2)
                           && ValuesBytes(f, items, parts) && IsBytes(s[size..], Join(parts));
        VarintUnique(s[..size], 8 * f.tag + 2);
        ValuesUnique(f, items, parts);
        BytesUnique(s[size..], Join(parts));
        assert s == s[..size] + s[size..];
      } else {
        var parts :| RecordsBytes(f, items, parts) && s == Join(parts);
        RecordsUnique(f, items, parts);
      }
    }
  }

  lemma {:induction false} FieldUnique(f: Field, slot: Slot, unions: map<nat, Union>, s: seq<byte>)
    requires FieldOk(f) && SlotOk(Raw, f, slot)
    requires Current(f, unions) ==> ValueOk(Raw, f, unions[f.htype.group].v)
    requires EncodeField(f, slot, unions).Some? && FieldBytes(f, slot, unions, s) && |s| < U64
    ensures EncodeField(f, slot, unions) == Some(s)
    decreases f, 4
  {
    hide FieldOk, ValueOk, EncodeTagged, EncodeArray, RecordBytes, ArrayBytes, IsZero, Vanishes;
    match slot
    case Single(v) =>
      VanishesIsZero(f, v);
      if f.htype.HRequired? || !IsZero(f, v) { RecordUnique(f, v, s); }
    case Opt(has, v) => if has { RecordUnique(f, v, s); }
    case Rep(items) => ArrayUnique(f, items, s);
    case Member => if Current(f, unions) { RecordUnique(f, unions[f.htype.group].v, s); }
  }

  lemma {:induction false} FieldsUnique(fields: seq<Field>, m: Message, parts: seq<seq<byte>>, i: nat)
    requires i <= |fields| && FieldsOk(fields) && MessageOk(Raw, fields, m)
    requires EncodeFrom(fields, m, i).Some? && FieldsBytes(fields, m, parts) && |Join(parts[i..])| < U64
    ensures EncodeFrom(fields, m, i) == Some(Join(parts[i..]))
    decreases fields, |fields| - i
  {
    hide FieldOk, SlotOk, ValueOk, EncodeField, FieldBytes;
    if i < |fields| {
      assert FieldOk(fields[i]) && SlotOk(Raw, fields[i], m.slots[i]);
      assert parts[i..][0] == parts[i] && parts[i..][1..] == parts[i + 1..];
      FieldUnique(fields[i], m.slots[i], m.unions, parts[i]);
      FieldsUnique(fields, m, parts, i + 1);
    }
  }

  lemma {:induction false} MessageUnique(fields: seq<Field>, m: Message, s: seq<byte>)
    requires FieldsOk(fields) && MessageOk(Raw, fields, m)
    requires Encode(fields, m).Some? && MessageBytes(fields, m, s) && |s| < U64
    ensures Encode(fields, m) == Some(s)
    decreases fields, |fields| + 1
  {
    hide FieldsOk, EncodeFrom, FieldBytes;
    var parts :| FieldsBytes(fields, m, parts) && s == Join(parts);
    assert parts[0..] == parts;
    FieldsUnique(fields, m, parts, 0);
  }

  // ---------- which messages can be written ----------

  /** A bytes value fits its array. */
  predicate ValueWritable(f: Field, v: Value)
    decreases f, 0
  {
    match (f.ltype, v)
    case (LBytes, Blob(b)) => |b| + SizeBytes() <= f.dataSize
    case (LSubmessage(fields), Sub(m)) => Writable(fields, m)
    case _ => true
  }

  predicate FieldWritable(f: Field, slot: Slot, unions: map<nat, Union>)
    decreases f, 1
  {
    match slot
    case Single(v) => (f.htype.HOptional? && Vanishes(f, v)) || ValueWritable(f, v)
    case Opt(has, v) => has ==> ValueWritable(f, v)
    case Rep(items) => |items| <= f.arraySize && forall k | 0 <= k < |items| :: ValueWritable(f, items[k])
    case Member => Current(f, unions) ==> ValueWritable(f, unions[f.htype.group].v)
  }

  /** Of the values that are written, every bytes value fits its array, and every array has at most array_size
      elements. */
  predicate Writable(fields: seq<Field>, m: Message)
    decreases fields
  {
    |m.slots| == |fields| && forall i | 0 <= i < |fields| :: FieldWritable(fields[i], m.slots[i], m.unions)
  }

  lemma {:induction false} ValueWritableIff(f: Field, v: Value)
    requires FieldOk(f) && ValueOk(Raw, f, v)
    ensures EncodeValue(f, v).Some? <==> ValueWritable(f, v)
    decreases f, 0
  {
    match f.ltype
    case LSubmessage(fields) => WritableIff(fields, v.m);
    case _ =>
  }

  lemma {:induction false} ItemsWritableIff(f: Field, items: seq<Value>)
    requires FieldOk(f) && forall k | 0 <= k < |items| :: ValueOk(Raw, f, items[k])
    ensures EncodePacked(f, items).Some? <==> forall k | 0 <= k < |items| :: ValueWritable(f, items[k])
    ensures EncodeUnpacked(f, items).Some? <==> forall k | 0 <= k < |items| :: ValueWritable(f, items[k])
    decreases f, 1, |items|
  {
    hide FieldOk, ValueOk, EncodeValue, ValueWritable;
    if items != [] {
      ValueWritableIff(f, items[0]);
      ItemsWritableIff(f, items[1..]);
      assert forall k | 0 < k < |items| :: items[k] == items[1..][k - 1];
    }
  }

  lemma {:induction false} FieldWritableIff(f: Field, slot: Slot, unions: map<nat, Union>)
    requires FieldOk(f) && SlotOk(Raw, f, slot)
    requires Current(f, unions) ==> ValueOk(Raw, f, unions[f.htype.group].v)
    ensures EncodeField(f, slot, unions).Some? <==> FieldWritable(f, slot, unions)
    decreases f, 2
  {
    hide FieldOk, ValueOk, EncodeValue, EncodePacked, EncodeUnpacked, IsZero, Vanishes, ValueWritable;
    match slot
    case Single(v) => VanishesIsZero(f, v); ValueWritableIff(f, v);
    case Opt(_, v) => ValueWritableIff(f, v);
    case Rep(items) => ItemsWritableIff(f, items);
    case Member => if Current(f, unions) { ValueWritableIff(f, unions[f.htype.group].v); }
  }

  lemma {:induction false} FromWritableIff(fields: seq<Field>, m: Message, i: nat)
    requires i <= |fields| && FieldsOk(fields) && MessageOk(Raw, fields, m)
    ensures EncodeFrom(fields, m, i).Some?
       <==> forall j | i <= j < |fields| :: FieldWritable(fields[j], m.slots[j], m.unions)
    decreases fields, |fields| - i
  {
    hide FieldOk, SlotOk, ValueOk, EncodeField, FieldWritable;
    if i < |fields| {
      assert FieldOk(fields[i]) && SlotOk(Raw, fields[i], m.slots[i]);
      FieldWritableIff(fields[i], m.slots[i], m.unions);
      FromWritableIff(fields, m, i + 1);
    }
  }

  lemma {:induction false} WritableIff(fields: seq<Field>, m: Message)
    requires FieldsOk(fields) && MessageOk(Raw, fields, m)
    ensures Encode(fields, m).Some? <==> Writable(fields, m)
    decreases fields, |fields| + 1
  {
    hide FieldsOk, EncodeFrom, FieldWritable;
    FromWritableIff(fields, m, 0);
  }

  /** pb_encode is the format: it writes s exactly when s are the bytes of the message and the message is writable. */
  lemma EncodeIff(fields: seq<Field>, m: Message, s: seq<byte>)
    requires FieldsOk(fields) && MessageOk(Raw, fields, m) && |s| < U64
    ensures Encode(fields, m) == Some(s) <==> Writable(fields, m) && MessageBytes(fields, m, s)
  {
    hide *;
    WritableIff(fields, m);
    if Encode(fields, m) == Some(s) { MessageWritten(fields, m); }
    if Writable(fields, m) && MessageBytes(fields, m, s) { MessageUnique(fields, m, s); }
  }

  /** A negative value of a plain signed field takes ten bytes, whatever the width of the field. */
  lemma NegativeTakesTen(f: Field, n: int)
    requires FieldOk(f) && f.ltype.LVarint? && InSigned(f.dataSize, n) && n < 0
    ensures EncodeValue(f, Int(n)).Some? && |EncodeValue(f, Int(n)).value| == 10
  {
    hide EncVarint;
    var u: nat := n + 0x1_0000_0000_0000_0000;
    assert EncodeValue(f, Int(n)) == Some(EncVarint(u));
    VarintRoundTrip(u, []);
    EncVarintLength(u, 9);
    assert Pow128(9) == 0x8000_0000_0000_0000 by {
      assert Pow128(3) == 0x20_0000;
      assert Pow128(6) == 0x400_0000_0000;
    }
  }
}
