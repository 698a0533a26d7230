/**
 The size arithmetic of dynamically allocated arrays (PB_ENABLE_MALLOC): the overflow check before
 realloc, and the growth of a packed array while it is decoded. Whether the allocator has memory is a
 parameter: it can serve requests of up to `budget` bytes.
 */
module Allocation {
  import opened Bytes
  import opened Schema
  import opened Decoding
  import opened InputStream
  import opened Decoder

  /** size_t is 32 or 64 bits wide. */
  datatype PointerWidth = Bits32 | Bits64

  const SIZE_T: PointerWidth

  function SizeTMax(): nat {
    if SIZE_T.Bits32? then 0xFFFF_FFFF else 0xFFFF_FFFF_FFFF_FFFF
  }

  /** (size_t)1 << (sizeof(size_t) * 4) */
  function CheckLimit(): nat {
    if SIZE_T.Bits32? then 0x1_0000 else 0x1_0000_0000
  }

  lemma HalfWidthProduct(a: nat, b: nat, limit: nat)
    requires a < limit && b < limit
    ensures a * b < limit * limit
  {
    MulMono(a, b, limit);
    MulMono(b, limit, limit);
    if a == 0 { assert a * b == 0; }
  }

  lemma MulMono(a: nat, b: nat, c: nat)
    requires b <= c
    ensures a * b <= a * c
  {}

  /** Dividing instead of multiplying decides whether the product fits. */
  lemma DivisionDecides(max: nat, a: nat, d: nat)
    requires a > 0
    ensures max / a < d <==> a * d > max
  {
    var q, r := max / a, max % a;
    assert max == a * q + r && 0 <= r < a;
    if q < d {
      MulMono(a, q + 1, d);
      assert a * (q + 1) == a * q + a;
    } else {
      MulMono(a, d, q);
    }
  }

  /** The two-stage check of allocate_field accepts exactly the non-zero sizes whose product fits size_t. */
  method SizesAcceptable(dataSize: nat, arraySize: nat) returns (ok: bool)
    requires dataSize <= SizeTMax() && arraySize <= SizeTMax()
    ensures ok <==> dataSize > 0 && arraySize > 0 && arraySize * dataSize <= SizeTMax()
  {
    if dataSize == 0 || arraySize == 0 {
      return false;
    }
    if dataSize >= CheckLimit() || arraySize >= CheckLimit() {
      DivisionDecides(SizeTMax(), arraySize, dataSize);
      if SizeTMax() / arraySize < dataSize {
        return false;
      }
    } else {
      HalfWidthProduct(arraySize, dataSize, CheckLimit());
    }
    return true;
  }

  /** allocate_field for an array whose first `used` elements are kept. */
  method Allocate(data: array<Value>, used: nat, dataSize: nat, arraySize: nat, budget: nat)
    returns (ok: bool, data': array<Value>)
    requires used <= data.Length && used <= arraySize && dataSize <= SizeTMax() && arraySize <= SizeTMax()
    ensures ok <==>
      dataSize > 0 && arraySize > 0 && arraySize * dataSize <= SizeTMax() && arraySize * dataSize <= budget
    ensures ok ==> fresh(data') && data'.Length == arraySize && data'[..used] == data[..used]
    ensures !ok ==> data' == data
  {
    data' := data;
    ok := SizesAcceptable(dataSize, arraySize);
    if !ok || arraySize * dataSize > budget {
      return false, data;
    }
    data' := new Value[arraySize];
    for i := 0 to used
      invariant data'[..i] == data[..i]
      invariant fresh(data')
    {
      data'[i] := data[i];
    }
  }

  /** The guess of how much more to reserve. */
  method Grow(capacity: nat, bytesLeft: nat, dataSize: nat) returns (capacity': nat)
    requires capacity < SizeMax() && bytesLeft > 0 && dataSize > 0
    ensures capacity < capacity' <= SizeMax()
    ensures var more := capacity' - capacity;
            more == 1 || (more - 1) * dataSize < bytesLeft <= more * dataSize
  {
    var remain := (bytesLeft - 1) / dataSize + 1;
    if remain < SizeMax() - capacity {
      capacity' := capacity + remain;
    } else {
      capacity' := capacity + 1;
    }
  }

  /** The packed branch of decode_pointer_field on the contents of its substream. The array `data` holds `size`
      elements. Every element is stored inside the last allocation, which never exceeds PB_SIZE_MAX elements;
      unless memory runs out, exactly the payloads with at most PB_SIZE_MAX elements in all are accepted. Memory can
      run out only when PB_SIZE_MAX elements take more than the allocator or size_t can serve. */
  method DecodePackedPointer(sub: IStream, f: Field, data: array<Value>, size: nat, budget: nat)
    returns (ok: bool, data': array<Value>, size': nat, outOfMemory: bool)
    requires sub.Valid() && f.atype.APointer? && 0 < f.dataSize <= SizeMax() && Packable(f)
    requires size <= data.Length && size <= SizeMax()
    modifies sub
    ensures sub.Valid() && sub.End() == old(sub.End())
    ensures size <= size' <= data'.Length && size' <= SizeMax()
    ensures data' == data || (fresh(data') && data'.Length <= SizeMax())
    ensures var r := DecodePacked(f.(arraySize := SizeMax()), old(sub.Rest()), data[..size]);
            && (ok ==> r == Some(data'[..size']) && sub.bytesLeft == 0)
            && (!ok && !outOfMemory ==> r == None)
    ensures outOfMemory ==> !ok && (SizeMax() * f.dataSize > budget || SizeMax() * f.dataSize > SizeTMax())
  {
    hide DecodeScalar, DecodePacked, SizeTMax, SizeMax, Packable;
    PackableBytes(f);
    ghost var g := f.(arraySize := SizeMax());
    ghost var payload, items := sub.Rest(), data[..size];
    data', size', outOfMemory := data, size, false;
    var capacity := size;
    while sub.bytesLeft != 0
      invariant sub.Valid() && sub.End() == old(sub.End())
      invariant size <= size' <= capacity <= SizeMax() && size' <= data'.Length
      invariant size' < capacity ==> data'.Length == capacity && fresh(data')
      invariant !outOfMemory
      invariant || (data' == data && size' == size && data'[..size'] == items)
                || (fresh(data') && data'.Length <= SizeMax())
      invariant DecodePacked(g, payload, items) == DecodePacked(g, sub.Rest(), data'[..size'])
      decreases sub.bytesLeft
    {
      if size' == SizeMax() {
        PackedStep(g, sub.Rest(), data'[..size']);
        return false, data', size', false;
      }
      if size' + 1 > capacity {
        capacity := Grow(capacity, sub.bytesLeft, f.dataSize);
        ok, data' := Allocate(data', size', f.dataSize, capacity, budget);
        if !ok {
          MulMono(f.dataSize, capacity, SizeMax());
          return false, data', size', true;
        }
      }
      SameScalar(f, g, sub.Rest());
      PackedStep(g, sub.Rest(), data'[..size']);
      var v: Value;
      ok, v := DecScalar(sub, f);
      if !ok {
        return false, data', size', false;
      }
      ghost var before := data'[..size'];
      data'[size'] := v;
      size' := size' + 1;
      assert data'[..size'] == before + [v];
    }
    PackedStep(g, sub.Rest(), data'[..size']);
    ok := true;
  }

  lemma PackedStep(f: Field, s: seq<byte>, items: seq<Value>)
    ensures DecodePacked(f, s, items)
         == if s == [] then Some(items)
            else if |items| >= f.arraySize || DecodeScalar(f, s) == None then None
            else DecodePacked(f, DecodeScalar(f, s).value.1, items + [DecodeScalar(f, s).value.0])
  {
    hide DecodeScalar;
  }

  lemma PackableBytes(f: Field)
    requires 0 < f.dataSize <= SizeMax() && Packable(f)
    ensures 0 < f.dataSize <= SizeTMax() && SizeMax() <= SizeTMax() && !f.ltype.LSubmessage?
  {}

  lemma SameScalar(f: Field, g: Field, s: seq<byte>)
    requires g == f.(arraySize := g.arraySize)
    ensures DecodeScalar(f, s) == DecodeScalar(g, s)
  {}
}
