/**
 What the decoder makes of single records, told without its functions: which bytes are a value and how
 many of them it takes, what is skipped, and what a record does to the field it belongs to.
 */
module Reading {
  import opened Bytes
  import opened Integers
  import opened Varint
  import opened Schema
  import opened Decoding
  import opened Locality
  import opened WireFormat
  import opened RequiredFields
  import opened Preservation
  import opened Merging

  // ---------- varints ----------

  lemma {:induction false} RawIsSum(s: seq<byte>, k: nat)
    requires EndsAt(s, k)
    ensures RawVarint(s) == Some((Sum128(s[..k + 1]), s[k + 1..]))
    decreases k
  {
    var head := s[..k + 1];
    if k > 0 {
      RawIsSum(s[1..], k - 1);
      assert head[1..] == s[1..][..k] && s[1..][k..] == s[k + 1..];
    } else {
      assert head[1..] == [] && s[1..] == s[k + 1..];
    }
  }

  lemma {:induction false} EndlessIsRejected(s: seq<byte>)
    requires forall j | 0 <= j < |s| :: s[j] >= 128
    ensures RawVarint(s) == None
  {
    if s != [] { EndlessIsRejected(s[1..]); }
  }

  /** pb_decode_varint: the base-128 sum of at most ten bytes, modulo 2^64. */
  lemma Varint64Reads(s: seq<byte>, k: nat)
    requires EndsAt(s, k)
    ensures Varint64(s) == if k < 10 then Some((Low64(Sum128(s[..k + 1])), s[k + 1..])) else None
  {
    hide Low64;
    RawIsSum(s, k);
  }

  /** pb_decode_varint32: the same modulo 2^32, for what fits. */
  lemma Varint32Reads(s: seq<byte>, k: nat)
    requires EndsAt(s, k) && k < 10
    ensures Varint32(s) == if Fits32(s, k) then Some((Low32(Sum128(s[..k + 1])), s[k + 1..])) else None
  {
    hide Low32, Low64, Varint32, Fits32;
    Varint32Accepts(s, k);
    Varint64Reads(s, k);
    ModMod(Sum128(s[..k + 1]));
    if Varint32(s).Some? { ReadersAgree(s); }
  }

  // ---------- skipping ----------

  /** pb_skip_field, by wire type. Groups and undefined wire types are errors. */
  lemma SkipTakes(wireType: nat, s: seq<byte>)
    ensures wireType == 0 ==> (Skip(0, s).Some? <==> exists k :: EndsAt(s, k))
    ensures wireType == 0 ==> forall k | EndsAt(s, k) :: Skip(0, s) == Some(s[k + 1..])
    ensures wireType == 1 ==> Skip(1, s) == if |s| >= 8 then Some(s[8..]) else None
    ensures wireType == 5 ==> Skip(5, s) == if |s| >= 4 then Some(s[4..]) else None
    ensures wireType == 2 ==>
      Skip(2, s) == match Varint32(s)
                    case None => None
                    case Some((n, rest)) => if n <= |rest| then Some(rest[n..]) else None
    ensures wireType !in {0, 1, 2, 5} ==> Skip(wireType, s) == None
  {
    if wireType == 0 {
      if RawVarint(s).Some? { var k := RawHasEnd(s); }
      forall k | EndsAt(s, k) ensures Skip(0, s) == Some(s[k + 1..]) { RawIsSum(s, k); }
    }
  }

  lemma {:induction false} RawHasEnd(s: seq<byte>) returns (k: nat)
    requires RawVarint(s).Some?
    ensures EndsAt(s, k)
  {
    if s[0] < 128 {
      k := 0;
    } else {
      var j := RawHasEnd(s[1..]);
      k := j + 1;
      assert s[k] == s[1..][j] && forall i | 1 <= i < k :: s[i] == s[1..][i - 1];
    }
  }

  // ---------- tags, and records that stop the decoder ----------

  /** pb_decode_tag: only a whole zero ends a message; a tag number 0 with a wire type does not. */
  lemma TagRead(s: seq<byte>)
    ensures Varint32(s) == None <==> DecodeTag(s) == TagError
    ensures Varint32(s).Some? && Varint32(s).value.0 == 0 ==> DecodeTag(s) == Terminator(Varint32(s).value.1)
    ensures Varint32(s).Some? && Varint32(s).value.0 != 0 ==>
      exists number: nat, wireType: nat :: Varint32(s).value.0 == 8 * number + wireType && wireType < 8
        && DecodeTag(s) == Tag(number, wireType, Varint32(s).value.1)
  {
    hide Varint32;
    if Varint32(s).Some? && Varint32(s).value.0 != 0 {
      var t := Varint32(s).value.0;
      assert t == 8 * (t / 8) + t % 8 && t % 8 < 8;
    }
  }

  /** What follows whole records is neither a tag, nor skippable if its tag is unknown, nor a value of its field. */
  ghost predicate BadRecord(fields: seq<Field>, s: seq<byte>, st: State) {
    s != [] &&
    match DecodeTag(s)
    case TagError => true
    case Terminator(_) => false
    case Tag(number, wireType, rest) =>
      if exists i :: 0 <= i < |fields| && fields[i].tag == number then
        forall i | 0 <= i < |fields| && fields[i].tag == number :: DecodeEntry(fields, i, wireType, rest, st) == None
      else number != 0 && Skip(wireType, rest) == None
  }

  /** One bad record makes the whole message fail, whatever came before it. */
  lemma BadRecordRejects(fields: seq<Field>, x: seq<byte>, s: seq<byte>, m: Message, st: State)
    requires LeadsTo(fields, x, m, st) && BadRecord(fields, s, st)
    ensures DecodeNoInit(fields, x + s, m) == None
  {
    hide DecodeEntry, Skip, DecodeTag;
    RecordsCompose(fields, x, s, Start(m));
  }

  /** In a message without fields a record with tag number 0 is read as a bool, whatever its wire type; in any other
      it is skipped like every unknown record. */
  lemma {:induction false} TagNumberZero(m: Message)
    requires m.slots == []
    ensures DecodeNoInit([], [1, 5], m) == Some((m, []))
    ensures forall f: Field, m': Message | f.tag != 0 :: DecodeNoInit([f], [1, 5], m') == None
  {
    assert [1, 5][1..] == [5] && [5][1..] == [];
    assert DecodeTag([1, 5]) == Tag(0, 1, [5]);
    assert DecodeRecord([], 0, 1, [5], Start(m)) == Some((Start(m), []));
    assert DecodeRecords([], [], Start(m)) == Some(Run(Start(m), [], false));
    forall f: Field, m': Message | f.tag != 0 ensures DecodeNoInit([f], [1, 5], m') == None {
      assert FindField([f], 0) == None;
      assert DecodeRecord([f], 0, 1, [5], Start(m')) == None;
    }
  }

  // ---------- values ----------

  /** The value an integer field takes from the uint64 on the wire, if it fits the field. Signed fields of at most
      32 bits look at the low 32 bits only. */
  function IntOnWire(f: Field, u: nat): int {
    match f.ltype
    case LSVarint => if u % 2 == 0 then u / 2 else -(u / 2) - 1
    case LVarint =>
      if f.dataSize == 8 then (if u < 0x8000_0000_0000_0000 then u else u - 0x1_0000_0000_0000_0000)
      else (var low := u % 0x1_0000_0000; if low < 0x8000_0000 then low else low - 0x1_0000_0000)
    case _ => u
  }

  predicate InField(f: Field, n: int) {
    if f.ltype.LUVarint? then InUnsigned(f.dataSize, n) else InSigned(f.dataSize, n)
  }

  /** pb_dec_bool, pb_dec_varint, pb_dec_uvarint, pb_dec_svarint */
  lemma NumberRead(f: Field, s: seq<byte>)
    requires FieldOk(f)
    ensures f.ltype.LBool? ==> (DecodeScalar(f, s).Some? <==> Varint32(s).Some?)
    ensures f.ltype.LBool? && Varint32(s).Some? ==>
      DecodeScalar(f, s) == Some((Int(if Varint32(s).value.0 == 0 then 0 else 1), Varint32(s).value.1))
    ensures f.ltype.LVarint? || f.ltype.LUVarint? || f.ltype.LSVarint? ==>
      (DecodeScalar(f, s).Some? <==> Varint64(s).Some? && InField(f, IntOnWire(f, Varint64(s).value.0)))
    ensures (f.ltype.LVarint? || f.ltype.LUVarint? || f.ltype.LSVarint?) && DecodeScalar(f, s).Some? ==>
      DecodeScalar(f, s) == Some((Int(IntOnWire(f, Varint64(s).value.0)), Varint64(s).value.1))
  {
    hide Varint32, Varint64;
    if (f.ltype.LVarint? || f.ltype.LUVarint? || f.ltype.LSVarint?) && Varint64(s).Some? {
      IntAccepted(f, Varint64(s).value.0);
    }
  }

  lemma IntAccepted(f: Field, u: nat)
    requires IntWidth(f.dataSize) && u < U64 && (f.ltype.LVarint? || f.ltype.LUVarint? || f.ltype.LSVarint?)
    ensures var n := IntOnWire(f, u);
            var fits := if f.ltype.LUVarint? then InUnsigned(f.dataSize, n) else InSigned(f.dataSize, n);
            IntOf(f, u) == if fits then Some(Int(n)) else None
  {
    var n := IntOnWire(f, u);
    CastKeepsExactlyWhatFits(f.dataSize, n);
    assert InSigned(8, n) || (f.ltype.LUVarint? && 0 <= n < U64);
  }

  /** pb_dec_fixed32 and pb_dec_fixed64 */
  lemma FixedRead(f: Field, s: seq<byte>)
    requires FieldOk(f)
    ensures f.ltype.LFixed32? ==>
      (if |s| < 4 then DecodeScalar(f, s) == None
       else exists n :: Is32Bits(s[..4], n) && DecodeScalar(f, s) == Some((Int(n), s[4..])))
    ensures f.ltype.LFixed64? ==>
      (if |s| < 8 then DecodeScalar(f, s) == None
       else exists low, high :: Is32Bits(s[..4], low) && Is32Bits(s[4..8], high)
              && DecodeScalar(f, s) == Some((Int(low + 0x1_0000_0000 * high), s[8..])))
  {
    if f.ltype.LFixed32? && |s| >= 4 {
      FourBytesRead(s[..4]);
      assert Is32Bits(s[..4], FromLittleEndian(s[..4]));
    }
    if f.ltype.LFixed64? && |s| >= 8 {
      FourBytesRead(s[..4]);
      FourBytesRead(s[4..8]);
      EightBytesRead(s[..8]);
      assert s[..8][..4] == s[..4] && s[..8][4..] == s[4..8];
      assert Is32Bits(s[..4], FromLittleEndian(s[..4])) && Is32Bits(s[4..8], FromLittleEndian(s[4..8]));
    }
  }

  lemma FourBytesRead(s: seq<byte>)
    requires |s| == 4
    ensures Is32Bits(s, FromLittleEndian(s))
  {
    var a: int, b: int, c: int, d: int := s[0], s[1], s[2], s[3];
    assert s[1..][1..] == s[2..] && s[2..][1..] == s[3..] && s[3..][1..] == [];
    assert FromLittleEndian(s[3..]) == d;
    assert FromLittleEndian(s[2..]) == c + 256 * d;
    assert FromLittleEndian(s[1..]) == b + 256 * (c + 256 * d);
    assert FromLittleEndian(s) == a + 256 * (b + 256 * (c + 256 * d));
  }

  lemma EightBytesRead(s: seq<byte>)
    requires |s| == 8
    ensures FromLittleEndian(s) == FromLittleEndian(s[..4]) + 0x1_0000_0000 * FromLittleEndian(s[4..])
  {
    FromParts(s, 4);
    assert Pow256(2) == 0x1_0000 && Pow256(4) == 0x1_0000_0000;
  }

  lemma {:induction false} FromParts(s: seq<byte>, i: nat)
    requires i <= |s|
    ensures FromLittleEndian(s) == FromLittleEndian(s[..i]) + Pow256(i) * FromLittleEndian(s[i..])
    decreases i
  {
    if i == 0 {
      assert s[..0] == [] && s[0..] == s;
    } else {
      FromParts(s[1..], i - 1);
      assert s[..i][1..] == s[1..][..i - 1] && s[1..][i - 1..] == s[i..];
      var high := FromLittleEndian(s[i..]);
      assert 256 * (Pow256(i - 1) * high) == Pow256(i) * high;
    }
  }

  /** pb_dec_bytes, pb_dec_string and pb_dec_fixed_length_bytes: a length that fits the field and as many bytes. An
      empty value of a fixed-length field stands for zeros. */
  lemma BlobRead(f: Field, s: seq<byte>)
    requires FieldOk(f) && (f.ltype.LBytes? || f.ltype.LString? || f.ltype.LFixedBytes?)
    ensures Varint32(s) == None ==> DecodeScalar(f, s) == None
    ensures Varint32(s).Some? ==>
      var (n, rest) := Varint32(s).value;
      var fits := if f.ltype.LBytes? then n + SizeBytes() <= f.dataSize
                  else if f.ltype.LString? then n < f.dataSize else n == 0 || n == f.dataSize;
      if !fits then DecodeScalar(f, s) == None
      else if f.ltype.LFixedBytes? && n == 0 then
        exists zeros: seq<byte> :: |zeros| == f.dataSize && (forall k | 0 <= k < |zeros| :: zeros[k] == 0)
          && DecodeScalar(f, s) == Some((Blob(zeros), rest))
      else if n <= |rest| then DecodeScalar(f, s) == Some((Blob(rest[..n]), rest[n..]))
      else DecodeScalar(f, s) == None
  {
    hide Varint32;
    if Varint32(s).Some? {
      var (n, rest) := Varint32(s).value;
      if f.ltype.LFixedBytes? && n == 0 {
        var zeros := Zeros(f.dataSize);
        assert DecodeScalar(f, s) == Some((Blob(zeros), rest));
      }
    }
  }

  // ---------- what a record does to its field ----------

  /** The wire type of a known field is not compared with its type, except to recognise a packed array. */
  lemma WireTypeIgnored(fields: seq<Field>, i: nat, w1: nat, w2: nat, s: seq<byte>, st: State)
    requires i < |fields|
    requires fields[i].htype.HRepeated? && Numeric(fields[i].ltype) ==> (w1 == 2 <==> w2 == 2)
    requires !fields[i].htype.HRepeated? && i < |st.msg.slots| ==> !st.msg.slots[i].Rep?
    ensures DecodeEntry(fields, i, w1, s, st) == DecodeEntry(fields, i, w2, s, st)
  {
    hide DecodeValue, DecodePacked, FixedComplete, TakeString;
    PackableIsNumeric(fields[i]);
  }

  /** The slot of a singular field once it has the value v. */
  function Holding(slot: Slot, v: Value): Slot {
    if slot.Opt? then Opt(true, v) else Single(v)
  }

  ghost predicate Singular(fields: seq<Field>, i: nat, st: State) {
    && i < |fields| == |st.msg.slots| && (fields[i].htype.HRequired? || fields[i].htype.HOptional?)
    && (st.msg.slots[i].Single? || st.msg.slots[i].Opt?)
  }

  /** A record of a required or optional field overwrites what the field held. */
  lemma ScalarRecord(fields: seq<Field>, i: nat, wireType: nat, s: seq<byte>, st: State)
    requires Singular(fields, i, st) && !fields[i].ltype.LSubmessage?
    ensures var r, value := DecodeEntry(fields, i, wireType, s, st), DecodeScalar(fields[i], s);
            && (r.Some? <==> value.Some?)
            && (r.Some? ==>
                  && r.value.1 == value.value.1
                  && r.value.0.msg.slots == st.msg.slots[i := Holding(st.msg.slots[i], value.value.0)])
  {
    hide DecodeScalar;
    var value := DecodeValue(fields[i], s, st.msg.slots[i].v);
    var slot := DecodeSlot(fields[i], wireType, s, st.msg.slots[i]);
    assert slot.Some? <==> value.Some?;
  }

  /** A record of a required or optional submessage is merged into the one the field held. */
  lemma SubmessageRecord(fields: seq<Field>, i: nat, wireType: nat, s: seq<byte>, st: State)
    requires Singular(fields, i, st) && fields[i].ltype.LSubmessage? && st.msg.slots[i].v.Sub?
    ensures var r, t := DecodeEntry(fields, i, wireType, s, st), TakeString(s);
            && (r.Some? ==> t.Some?)
            && (t.Some? ==>
                  var merged := DecodeNoInit(fields[i].ltype.fields, t.value.0, st.msg.slots[i].v.m);
                  && (r.Some? <==> merged.Some?)
                  && (r.Some? ==>
                        && r.value.1 == t.value.1
                        && r.value.0.msg.slots == st.msg.slots[i := Holding(st.msg.slots[i], Sub(merged.value.0))]))
  {
    hide DecodeNoInit, TakeString;
    var value := DecodeValue(fields[i], s, st.msg.slots[i].v);
    var slot := DecodeSlot(fields[i], wireType, s, st.msg.slots[i]);
    assert slot.Some? <==> value.Some?;
  }

  /** A record of an element of a submessage array is decoded on its own. */
  lemma ElementRecord(fields: seq<Field>, i: nat, wireType: nat, s: seq<byte>, st: State)
    requires i < |fields| == |st.msg.slots| && st.msg.slots[i].Rep? && fields[i].htype.HRepeated?
    requires fields[i].ltype.LSubmessage? && !FixedCount(fields[i])
    ensures var r, t, items := DecodeEntry(fields, i, wireType, s, st), TakeString(s), st.msg.slots[i].items;
            && (r.Some? ==> t.Some? && |items| < fields[i].arraySize)
            && (t.Some? && |items| < fields[i].arraySize ==>
                  var element := Decode(fields[i].ltype.fields, t.value.0);
                  && (r.Some? <==> element.Some?)
                  && (r.Some? ==>
                        && r.value.1 == t.value.1
                        && r.value.0.msg.slots == st.msg.slots[i := Rep(items + [Sub(element.value.0)])]))
  {
    hide DecodeNoInit, TakeString;
    var value := DecodeValue(fields[i], s, Int(0));
    var slot := DecodeSlot(fields[i], wireType, s, st.msg.slots[i]);
    assert slot.Some? ==> value.Some?;
  }

  /** A record of a member of a union makes it the current one and replaces what the union held. */
  lemma UnionRecord(fields: seq<Field>, i: nat, wireType: nat, s: seq<byte>, st: State)
    requires i < |fields| == |st.msg.slots| && fields[i].htype.HOneof? && !fields[i].ltype.LSubmessage?
    ensures var r, value := DecodeEntry(fields, i, wireType, s, st), DecodeScalar(fields[i], s);
            && (r.Some? <==> value.Some?)
            && (r.Some? ==>
                  && r.value.1 == value.value.1 && r.value.0.msg.slots == st.msg.slots
                  && r.value.0.msg.unions
                     == st.msg.unions[fields[i].htype.group := Union(fields[i].tag, value.value.0)])
  {
    hide DecodeScalar;
    var value := DecodeValue(fields[i], s, Int(0));
    assert value == DecodeScalar(fields[i], s);
  }

  /** Where the elements of a packed payload begin: each is read from its place up to the next, the last one up to
      the end. */
  ghost predicate Splits(f: Field, places: seq<seq<byte>>, values: seq<Value>) {
    && |places| == |values| + 1 && places[|values|] == []
    && forall k | 0 <= k < |values| :: DecodeScalar(f, places[k]) == Some((values[k], places[k + 1]))
  }

  /** A packed payload is accepted exactly when it splits into values and the array has room for all of them. */
  lemma {:induction false} PackedSplits(f: Field, s: seq<byte>, items: seq<Value>)
      returns (places: seq<seq<byte>>, values: seq<Value>)
    requires DecodePacked(f, s, items).Some?
    ensures places != [] && places[0] == s && Splits(f, places, values)
    ensures DecodePacked(f, s, items) == Some(items + values)
    ensures values == [] || |items + values| <= f.arraySize
    decreases |s|
  {
    hide DecodeScalar;
    places, values := [s], [];
    if s == [] {
      assert items + [] == items;
    } else {
      var (v, rest) := DecodeScalar(f, s).value;
      var places', values' := PackedSplits(f, rest, items + [v]);
      places, values := [s] + places', [v] + values';
      assert items + [v] + values' == items + values;
    }
  }

  lemma {:induction false} SplitsPack(f: Field, places: seq<seq<byte>>, values: seq<Value>, items: seq<Value>)
    requires Splits(f, places, values) && |items + values| <= f.arraySize
    ensures DecodePacked(f, places[0], items) == Some(items + values)
    decreases |values|
  {
    hide DecodeScalar;
    if values == [] {
      assert items + values == items;
    } else {
      SplitsPack(f, places[1..], values[1..], items + [values[0]]);
      assert items + [values[0]] + values[1..] == items + values;
    }
  }

  /** The last record of a field wins: what a singular field holds in the end is what its last record says. */
  lemma LastOneWins(fields: seq<Field>, x: seq<byte>, i: nat, r: seq<byte>, y: seq<byte>, m: Message, st: State)
    requires LeadsTo(fields, x, m, st) && OneRecord(fields, r, i, st)
    requires Singular(fields, i, st) && !fields[i].ltype.LSubmessage?
    requires DecodeNoInit(fields, x + r + y, m).Some? && i !in EntriesOf(fields, y, After(fields, r, i, st))
    ensures var slots := DecodeNoInit(fields, x + r + y, m).value.0.slots;
            var value := DecodeScalar(fields[i], DecodeTag(r).rest);
            value.Some? && i < |slots| && slots[i] == Holding(st.msg.slots[i], value.value.0)
  {
    hide DecodeEntry, DecodeScalar, DecodeRecords, EntriesOf;
    var t := DecodeTag(r);
    ScalarRecord(fields, i, t.wireType, t.rest, st);
    var after := After(fields, r, i, st);
    assert x + r + y == x + (r + y);
    RecordsCompose(fields, x, r + y, Start(m));
    OneRecordStep(fields, r, i, y, st);
    EntryKeeps(fields, i, t.wireType, t.rest, st);
    RecordsKeep(fields, y, after);
  }
}
