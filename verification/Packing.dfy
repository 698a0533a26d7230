/**
 Packed and unpacked records of an array are interchangeable.
 */
module Packing {
  import opened Bytes
  import opened Schema
  import opened Encoding
  import opened Decoding
  import opened Sameness
  import opened Reception
  import opened WireFormat

  /** One record of a packable array: a packed chunk, possibly empty, or a single element. */
  datatype Piece = Chunk(values: seq<Value>) | Element(v: Value)

  function Values(p: Piece): seq<Value> {
    match p
    case Chunk(vs) => vs
    case Element(v) => [v]
  }

  function Flatten(pieces: seq<Piece>): seq<Value> {
    if pieces == [] then [] else Values(pieces[0]) + Flatten(pieces[1..])
  }

  ghost predicate PieceOk(f: Field, p: Piece) {
    && (forall k | 0 <= k < |Values(p)| :: ValueOk(Stored, f, Values(p)[k]))
    && EncodePacked(f, Values(p)).Some? && |EncodePacked(f, Values(p)).value| < U32
  }

  function PieceBytes(f: Field, p: Piece): seq<byte>
    requires PieceOk(f, p)
  {
    var data := EncodePacked(f, Values(p)).value;
    match p
    case Chunk(_) => EncTag(WT_STRING, f.tag) + EncString(data)
    case Element(_) => EncTag(WireType(f), f.tag) + data
  }

  function PiecesBytes(f: Field, pieces: seq<Piece>): seq<byte>
    requires forall k | 0 <= k < |pieces| :: PieceOk(f, pieces[k])
  {
    if pieces == [] then [] else PieceBytes(f, pieces[0]) + PiecesBytes(f, pieces[1..])
  }

  lemma {:induction false} PackedOverflows(f: Field, items: seq<Value>, acc: seq<Value>)
    requires FieldOk(f) && Packable(f) && |acc| <= f.arraySize < |acc| + |items|
    requires forall k | 0 <= k < |items| :: ValueOk(Stored, f, items[k])
    requires EncodePacked(f, items).Some?
    ensures DecodePacked(f, EncodePacked(f, items).value, acc) == None
    decreases |items|
  {
    hide FieldOk, ValueOk, EncodeValue, DecodeScalar, ReceivedValue;
    PackableUnchanged(f, items);
    PackableReceived(f, items[0], EncodePacked(f, items[1..]).value);
    if |acc| < f.arraySize {
      PackedOverflows(f, items[1..], acc + [ReceivedValue(f, items[0])]);
    }
  }

  lemma {:induction false} PackableUnchanged(f: Field, items: seq<Value>)
    requires Packable(f) && forall k | 0 <= k < |items| :: ValueOk(Stored, f, items[k])
    ensures ReceivedItems(f, items) == items && forall k | 0 <= k < |items| :: ValueOk(Raw, f, items[k])
  {
    if items != [] { PackableUnchanged(f, items[1..]); }
  }

  /** The array of entry i holds `items` and may be extended, or it has no counter and starts anew. */
  ghost predicate Holding(fields: seq<Field>, i: nat, st: State, items: seq<Value>) {
    && i < |fields| == |st.msg.slots| && fields[i].htype.HRepeated? && Numeric(fields[i].ltype)
    && |items| <= fields[i].arraySize
    && if FixedCount(fields[i]) && st.fixedField != Some(i) then items == [] && FixedComplete(fields, st)
       else st.msg.slots[i] == Rep(items)
  }

  function Extended(fields: seq<Field>, i: nat, st: State, items: seq<Value>): State
    requires i < |fields| == |st.msg.slots|
  {
    State(st.msg.(slots := st.msg.slots[i := Rep(items)]), st.seen + {i},
          if FixedCount(fields[i]) then Some(i) else st.fixedField)
  }

  lemma ChunkPieceReceived(fields: seq<Field>, i: nat, st: State, items: seq<Value>, vs: seq<Value>, y: seq<byte>)
    requires FieldsOk(fields) && Holding(fields, i, st, items) && PieceOk(fields[i], Chunk(vs))
    ensures DecodeRecords(fields, PieceBytes(fields[i], Chunk(vs)) + y, st)
         == if |items| + |vs| <= fields[i].arraySize
            then DecodeRecords(fields, y, Extended(fields, i, st, items + vs)) else None
  {
    hide FieldOk, EncTag, EncString, EncodeValue, EncodePacked, DecodeScalar, DecodePacked, DecodeRecords, ValueOk;
    hide FixedComplete, TakeString, Packable, Numeric;
    var f := fields[i];
    var data := EncodePacked(f, vs).value;
    PackableIsNumeric(f);
    PackableUnchanged(f, vs);
    var tag := EncTag(WT_STRING, f.tag);
    assert tag + EncString(data) + y == tag + (EncString(data) + y);
    RecordReceived(fields, i, WT_STRING, EncString(data) + y, st);
    StringReceived(data, y);
    if |items| + |vs| <= f.arraySize { PackedReceived(f, vs, items); } else { PackedOverflows(f, vs, items); }
  }

  lemma ElementPieceReceived(fields: seq<Field>, i: nat, st: State, items: seq<Value>, v: Value, y: seq<byte>)
    requires FieldsOk(fields) && Holding(fields, i, st, items) && PieceOk(fields[i], Element(v))
    ensures DecodeRecords(fields, PieceBytes(fields[i], Element(v)) + y, st)
         == if |items| + 1 <= fields[i].arraySize
            then DecodeRecords(fields, y, Extended(fields, i, st, items + [v])) else None
  {
    hide FieldOk, EncTag, EncodeValue, EncodePacked, DecodeScalar, DecodePacked, DecodeRecords, ValueOk;
    hide FixedComplete, TakeString, Packable, Numeric;
    var f := fields[i];
    var data := EncodePacked(f, [v]).value;
    PackableIsNumeric(f);
    PackableUnchanged(f, [v]);
    var tag := EncTag(WireType(f), f.tag);
    OneValuePacked(f, v);
    assert tag + data + y == tag + (data + y);
    RecordReceived(fields, i, WireType(f), data + y, st);
    PackableReceived(f, v, y);
    assert ReceivedItems(f, [v])[0] == v;
    ElementSlot(f, data + y, items);
  }

  lemma ElementSlot(f: Field, s: seq<byte>, items: seq<Value>)
    requires Numeric(f.ltype)
    ensures DecodeSlot(f, WireType(f), s, Rep(items))
         == if |items| >= f.arraySize || DecodeScalar(f, s) == None then None
            else Some((Rep(items + [DecodeScalar(f, s).value.0]), DecodeScalar(f, s).value.1))
  {
    hide DecodeScalar;
  }

  lemma PieceReceived(fields: seq<Field>, i: nat, st: State, items: seq<Value>, p: Piece, y: seq<byte>)
    requires FieldsOk(fields) && Holding(fields, i, st, items) && PieceOk(fields[i], p)
    ensures DecodeRecords(fields, PieceBytes(fields[i], p) + y, st)
         == if |items| + |Values(p)| <= fields[i].arraySize
            then DecodeRecords(fields, y, Extended(fields, i, st, items + Values(p))) else None
  {
    hide FieldsOk, Holding, PieceOk, PieceBytes, DecodeRecords;
    match p
    case Chunk(vs) => ChunkPieceReceived(fields, i, st, items, vs, y);
    case Element(v) => ElementPieceReceived(fields, i, st, items, v, y);
  }

  lemma OneValuePacked(f: Field, v: Value)
    requires EncodePacked(f, [v]).Some?
    ensures EncodeValue(f, v).Some? && EncodePacked(f, [v]) == EncodeValue(f, v)
  {
    assert EncodePacked(f, []) == Some([]);
    assert [v][1..] == [];
    assert EncodeValue(f, v).Some? ==> EncodeValue(f, v).value + [] == EncodeValue(f, v).value;
  }

  /** Any split of a list of elements into packed chunks and single records extends the array by the list
      (a new run over an array without counter starts at its front), and succeeds exactly when the array has room
      for it. */
  lemma {:induction false} PackedAndUnpackedAgree(fields: seq<Field>, i: nat, st: State, items: seq<Value>,
                                                  pieces: seq<Piece>, y: seq<byte>)
    requires FieldsOk(fields) && Holding(fields, i, st, items)
    requires forall k | 0 <= k < |pieces| :: PieceOk(fields[i], pieces[k])
    ensures pieces != [] ==>
      DecodeRecords(fields, PiecesBytes(fields[i], pieces) + y, st)
      == if |items| + |Flatten(pieces)| <= fields[i].arraySize
         then DecodeRecords(fields, y, Extended(fields, i, st, items + Flatten(pieces))) else None
    decreases |pieces|
  {
    hide FieldOk, FieldsOk, PieceOk, PieceBytes, DecodeRecords, Holding, Extended, FixedComplete, Values;
    HoldingBasics(fields, i, st, items);
    if pieces != [] {
      var f := fields[i];
      var rest := PiecesBytes(f, pieces[1..]);
      var more := Values(pieces[0]);
      assert PieceBytes(f, pieces[0]) + rest + y == PieceBytes(f, pieces[0]) + (rest + y);
      PieceReceived(fields, i, st, items, pieces[0], rest + y);
      if |items| + |more| <= f.arraySize {
        var st' := Extended(fields, i, st, items + more);
        ExtendedHolds(fields, i, st, items, items + more);
        PackedAndUnpackedAgree(fields, i, st', items + more, pieces[1..], y);
        assert items + Flatten(pieces) == items + more + Flatten(pieces[1..]);
        ExtendTwice(fields, i, st, items + more, items + Flatten(pieces));
        if pieces[1..] == [] { assert [] + y == y && Flatten(pieces) == more; }
      }
    }
  }

  lemma HoldingBasics(fields: seq<Field>, i: nat, st: State, items: seq<Value>)
    requires Holding(fields, i, st, items)
    ensures i < |fields| == |st.msg.slots| && |items| <= fields[i].arraySize
  {}

  lemma ExtendedHolds(fields: seq<Field>, i: nat, st: State, items: seq<Value>, items': seq<Value>)
    requires Holding(fields, i, st, items) && |items'| <= fields[i].arraySize
    ensures Holding(fields, i, Extended(fields, i, st, items'), items')
  {}

  lemma ExtendTwice(fields: seq<Field>, i: nat, st: State, a: seq<Value>, b: seq<Value>)
    requires i < |fields| == |st.msg.slots|
    ensures Extended(fields, i, Extended(fields, i, st, a), b) == Extended(fields, i, st, b)
  {
    assert st.seen + {i} + {i} == st.seen + {i};
  }
}
