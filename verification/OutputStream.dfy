/**
 pb_ostream_t: a memory buffer with a size limit, or the sizing stream that only counts. What a
 write does is stated between two snapshots of the stream, so that writes compose.
 */
module OutputStream {
  import opened Bytes
  import opened Varint
  import opened Encoding

  /** A stream at one moment: the whole buffer, the write position, and the two counters. */
  datatype Snapshot = Snapshot(sizing: bool, data: seq<byte>, pos: nat, written: nat, max: nat)

  ghost predicate SnapshotOk(a: Snapshot) {
    !a.sizing ==> a.written <= a.max && a.pos + (a.max - a.written) <= |a.data|
  }

  /** There is room for n more bytes; a sizing stream has no limit. */
  ghost predicate Room(a: Snapshot, n: nat) {
    a.sizing || a.written + n <= a.max
  }

  /** Where the limit lies in the buffer. */
  ghost function Limit(a: Snapshot): int {
    a.pos + a.max - a.written
  }

  /** Writing e takes the stream from a to b. It succeeds exactly when e is not an error and there is room
      for it; then exactly those bytes are stored and counted. A failed write leaves everything before the
      position and behind the limit alone. */
  ghost predicate Emits(a: Snapshot, b: Snapshot, ok: bool, e: Wire) {
    && SnapshotOk(a) && SnapshotOk(b)
    && b.sizing == a.sizing && b.max == a.max && |b.data| == |a.data|
    && ok == (e.Some? && Room(a, |e.value|))
    && (ok ==> b.written == a.written + |e.value|)
    && (!a.sizing ==>
      && Limit(b) == Limit(a)
      && (ok ==> b.data == a.data[..a.pos] + e.value + a.data[a.pos + |e.value|..])
      && (!ok ==> b.data[..a.pos] == a.data[..a.pos] && b.data[Limit(a)..] == a.data[Limit(a)..]))
  }

  lemma EmitNothing(a: Snapshot)
    requires SnapshotOk(a)
    ensures Emits(a, a, true, Some([]))
  {
    if !a.sizing { assert a.data == a.data[..a.pos] + [] + a.data[a.pos..]; }
  }

  lemma EmitThen(a: Snapshot, b: Snapshot, c: Snapshot, ok: bool, x: Wire, y: Wire)
    requires Emits(a, b, true, x) && Emits(b, c, ok, y)
    ensures Emits(a, c, ok, Append(x, y))
  {
    if !a.sizing {
      assert b.data[..b.pos] == a.data[..a.pos] + x.value;
      assert b.data[b.pos..] == a.data[b.pos..];
      if ok {
        assert b.data[b.pos + |y.value|..] == a.data[b.pos + |y.value|..];
        assert c.data == a.data[..a.pos] + (x.value + y.value) + a.data[a.pos + |x.value + y.value|..];
      } else {
        assert c.data[..a.pos] == c.data[..b.pos][..a.pos];
        assert b.data[Limit(a)..] == a.data[Limit(a)..];
      }
    }
  }

  lemma EmitFails(a: Snapshot, b: Snapshot, x: Wire, y: Wire)
    requires Emits(a, b, false, x)
    ensures Emits(a, b, false, Append(x, y))
  {}

  /** Writing succeeds exactly when sizing does and the size it found fits, and then takes exactly that size. */
  lemma SizingDecidesWriting(z: Snapshot, y: Snapshot, sized: bool, a: Snapshot, b: Snapshot, ok: bool, e: Wire)
    requires z.sizing && Emits(z, y, sized, e)
    requires !a.sizing && Emits(a, b, ok, e)
    ensures ok <==> sized && a.written + (y.written - z.written) <= a.max
    ensures ok ==> b.written - a.written == b.pos - a.pos == y.written - z.written
  {}

  class OStream {
    /** Null for the sizing stream: its callback is NULL. */
    const buf: array?<byte>
    const maxSize: nat
    /** `state`: the next byte to write */
    var pos: nat
    var bytesWritten: nat

    ghost predicate Valid()
      reads this
    {
      buf != null ==> bytesWritten <= maxSize && pos + (maxSize - bytesWritten) <= buf.Length
    }

    ghost function Now(): Snapshot
      reads this, if buf == null then {} else {buf}
    {
      Snapshot(buf == null, if buf == null then [] else buf[..], pos, bytesWritten, maxSize)
    }

    /** What a write may change. */
    ghost function Frame(): set<object> {
      if buf == null then {this} else {this, buf}
    }

    /** pb_ostream_from_buffer, PB_OSTREAM_SIZING, or a copy of a stream with another limit */
    constructor (buf: array?<byte>, pos: nat, maxSize: nat)
      requires buf != null ==> pos + maxSize <= buf.Length
      ensures Valid() && this.buf == buf && this.pos == pos && this.maxSize == maxSize && bytesWritten == 0
    {
      this.buf := buf;
      this.pos := pos;
      this.maxSize := maxSize;
      bytesWritten := 0;
    }

    /** pb_write */
    method Write(src: seq<byte>) returns (ok: bool)
      requires Valid()
      modifies Frame()
      ensures Valid() && Emits(old(Now()), Now(), ok, Some(src))
    {
      if |src| > 0 && buf != null {
        if bytesWritten + |src| > maxSize {
          return false;
        }
        Store(src);
        pos := pos + |src|;
      }
      bytesWritten := bytesWritten + |src|;
      ok := true;
      if buf != null {
        assert buf[..] == old(buf[..])[..old(pos)] + src + old(buf[..])[old(pos) + |src|..];
      }
    }

    /** The loop of buf_write. */
    method Store(src: seq<byte>)
      requires buf != null && pos + |src| <= buf.Length
      modifies buf
      ensures buf[..] == old(buf[..])[..pos] + src + old(buf[..])[pos + |src|..]
    {
      for i := 0 to |src|
        invariant buf[..pos] == old(buf[..pos]) && buf[pos..pos + i] == src[..i]
        invariant buf[pos + i..] == old(buf[pos + i..])
      {
        buf[pos + i] := src[i];
      }
    }

    /** pb_write(stream, NULL, count) on a sizing stream */
    method Count(count: nat)
      requires Valid() && buf == null
      modifies this
      ensures Valid() && bytesWritten == old(bytesWritten) + count
      ensures forall data: seq<byte> | |data| == count :: Emits(old(Now()), Now(), true, Some(data))
    {
      bytesWritten := bytesWritten + count;
    }

    /** pb_encode_varint: the ten bytes of the local buffer always suffice. */
    method WriteVarint(value: nat) returns (ok: bool)
      requires Valid() && value < U64
      modifies Frame()
      ensures Valid() && Emits(old(Now()), Now(), ok, Some(EncVarint(value)))
    {
      if value <= 0x7F {
        ok := Write([value]);
        return;
      }
      hide EncVarint, Emits;
      var buffer := new byte[10];
      var i := FillVarint(buffer, value);
      ok := Write(buffer[..i]);
    }
  }

  /** The digits of a varint, the last one without its continuation bit. */
  method FillVarint(buffer: array<byte>, value: nat) returns (i: nat)
    requires buffer.Length == 10 && 0 < value < U64
    modifies buffer
    ensures i <= 10 && buffer[..i] == EncVarint(value)
  {
    hide EncVarint;
    i := 0;
    var v := value;
    AtMostTenBytes(value, 10);
    while v != 0
      invariant i <= 10
      invariant v != 0 ==> EncVarint(value) == buffer[..i] + EncVarint(v)
      invariant v == 0 ==> i > 0 && EncVarint(value) == buffer[..i - 1] + [buffer[i - 1] % 128]
      decreases v
    {
      VarintStep(v);
      ghost var digits := buffer[..i];
      buffer[i] := v % 128 + 128;
      assert buffer[..i] == digits;
      v := v / 128;
      i := i + 1;
    }
    buffer[i - 1] := buffer[i - 1] % 128;
  }

  lemma VarintStep(v: nat)
    requires v > 0
    ensures (v % 128 + 128) % 128 == v % 128 && v / 128 < v
    ensures v / 128 == 0 ==> EncVarint(v) == [v % 128]
    ensures v / 128 != 0 ==> EncVarint(v) == [v % 128 + 128] + EncVarint(v / 128)
  {}
}
