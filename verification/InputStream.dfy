/**
 pb_istream_t over a memory buffer: the varint readers, the skipping functions and the substreams.
 Each method is proved against the reader function of the same bytes, and none moves the end of
 what may be read.
 */
module InputStream {
  import opened Bytes
  import opened Varint
  import opened Decoding

  class IStream {
    const buf: array<byte>
    /** `state`: the next byte to read */
    var pos: nat
    var bytesLeft: nat

    ghost predicate Valid()
      reads this
    {
      pos + bytesLeft <= buf.Length
    }

    /** Where reading has to stop. */
    ghost function End(): nat
      reads this
    {
      pos + bytesLeft
    }

    /** The bytes that may still be read. */
    ghost function Rest(): seq<byte>
      reads this, buf
      requires Valid()
    {
      buf[pos..pos + bytesLeft]
    }

    /** pb_istream_from_buffer, or a copy of a stream with another limit */
    constructor (buf: array<byte>, pos: nat, size: nat)
      requires pos + size <= buf.Length
      ensures Valid() && this.buf == buf && this.pos == pos && bytesLeft == size
    {
      this.buf := buf;
      this.pos := pos;
      bytesLeft := size;
    }

    /** pb_readbyte */
    method ReadByte() returns (ok: bool, b: byte)
      requires Valid()
      modifies this
      ensures Valid() && End() == old(End())
      ensures ok == (old(Rest()) != [])
      ensures ok ==> b == old(Rest())[0] && Rest() == old(Rest())[1..]
      ensures !ok ==> pos == old(pos)
    {
      if bytesLeft == 0 {
        return false, 0;
      }
      b := buf[pos];
      pos := pos + 1;
      bytesLeft := bytesLeft - 1;
      ok := true;
    }

    /** pb_read: without a destination the bytes are skipped. */
    method Read(dest: array?<byte>, count: nat) returns (ok: bool)
      requires Valid() && dest != buf && (dest != null ==> count <= dest.Length)
      modifies this, if dest == null then {} else {dest}
      ensures Valid() && End() == old(End())
      ensures ok == Take(count, old(Rest())).Some?
      ensures ok ==> Rest() == Take(count, old(Rest())).value.1
      ensures ok && dest != null ==> dest[..count] == Take(count, old(Rest())).value.0
      ensures !ok ==> pos == old(pos)
    {
      if count == 0 {
        return true;
      }
      if bytesLeft < count {
        return false;
      }
      if dest != null {
        for i := 0 to count
          invariant pos == old(pos) && bytesLeft == old(bytesLeft) && buf[..] == old(buf[..])
          invariant dest[..i] == buf[pos..pos + i]
        {
          dest[i] := buf[pos + i];
        }
      }
      pos := pos + count;
      bytesLeft := bytesLeft - count;
      ok := true;
    }

    /** pb_decode_varint32_eof */
    method DecodeVarint32Eof() returns (ok: bool, v: nat, eof: bool)
      requires Valid()
      modifies this
      ensures Valid() && End() == old(End())
      ensures ok == Varint32(old(Rest())).Some?
      ensures ok ==> v == Varint32(old(Rest())).value.0 && Rest() == Varint32(old(Rest())).value.1
      ensures eof == (old(Rest()) == [])
    {
      hide Or, Shl, Low32, Low8;
      ghost var s := Rest();
      v, eof := 0, false;
      var b: byte;
      ok, b := ReadByte();
      if !ok {
        return false, 0, true;
      }
      if b < 128 {
        v := b;
        return;
      }
      var bitpos: nat := 7;
      var result: nat := b % 128;
      var more := true;
      while more
        invariant Valid() && End() == old(End())
        invariant more ==> Varint32(s) == Varint32Loop(Rest(), result, bitpos)
        invariant !more ==> b < 128
        invariant !more ==> Varint32(s) == if bitpos == 35 && b >= 16 then None else Some((result, Rest()))
        decreases bytesLeft + (if more then 1 else 0)
      {
        ok, b := ReadByte();
        if !ok {
          return;
        }
        if bitpos >= 32 {
          var signExtension := if bitpos < 63 then 0xFF else 0x01;
          if b % 128 != 0 && (result < 0x8000_0000 || b != signExtension) {
            ok := false;
            return;
          }
        } else {
          result := Or(result, Low32(Shl(b % 128, bitpos)));
        }
        bitpos := Low8(bitpos + 7);
        more := b >= 128;
      }
      if bitpos == 35 && b / 16 % 8 != 0 {
        return false, 0, false;
      }
      v := result;
    }

    /** pb_decode_varint32 */
    method DecodeVarint32() returns (ok: bool, v: nat)
      requires Valid()
      modifies this
      ensures Valid() && End() == old(End())
      ensures ok == Varint32(old(Rest())).Some?
      ensures ok ==> v == Varint32(old(Rest())).value.0 && Rest() == Varint32(old(Rest())).value.1
    {
      var eof: bool;
      ok, v, eof := DecodeVarint32Eof();
    }

    /** pb_decode_varint */
    method DecodeVarint64() returns (ok: bool, v: nat)
      requires Valid()
      modifies this
      ensures Valid() && End() == old(End())
      ensures ok == Varint64(old(Rest())).Some?
      ensures ok ==> v == Varint64(old(Rest())).value.0 && Rest() == Varint64(old(Rest())).value.1
    {
      hide Or, Shl, Low64, Low8, Pow2;
      ghost var s, acc: nat, k: nat := Rest(), 0, 0;
      var bitpos: nat, result: nat := 0, 0;
      v := 0;
      var b: byte;
      var more := true;
      NothingRead(s);
      while more
        invariant Valid() && End() == old(End())
        invariant k <= 10 && bitpos == 7 * k && |s| == |Rest()| + k
        invariant result == Low64(acc) && acc < Pow2(7 * k)
        invariant more ==> RawVarint(s) == Above(acc, k, RawVarint(Rest()))
        invariant !more ==> RawVarint(s) == Some((acc, Rest()))
        decreases bytesLeft + (if more then 1 else 0)
      {
        if bitpos >= 64 {
          return false, 0;
        }
        ghost var before := Rest();
        ok, b := ReadByte();
        if !ok {
          return;
        }
        Accumulate64(acc, b % 128, k);
        AboveStep(acc, k, before);
        SeptetBound(acc, b % 128, k);
        result := Or(result, Low64(Shl(b % 128, bitpos)));
        acc := acc + Shl(b % 128, 7 * k);
        k := k + 1;
        bitpos := Low8(bitpos + 7);
        more := b >= 128;
      }
      v := result;
      ok := true;
    }

    /** pb_skip_varint */
    method SkipVarint() returns (ok: bool)
      requires Valid()
      modifies this
      ensures Valid() && End() == old(End())
      ensures ok == RawVarint(old(Rest())).Some?
      ensures ok ==> Rest() == RawVarint(old(Rest())).value.1
    {
      ghost var s := Rest();
      var more := true;
      while more
        invariant Valid() && End() == old(End())
        invariant more ==> RawVarint(s).Some? == RawVarint(Rest()).Some?
        invariant more && RawVarint(s).Some? ==> RawVarint(s).value.1 == RawVarint(Rest()).value.1
        invariant !more ==> RawVarint(s).Some? && RawVarint(s).value.1 == Rest()
        decreases bytesLeft + (if more then 1 else 0)
      {
        var b: byte;
        ok, b := ReadByte();
        if !ok {
          return;
        }
        more := b >= 128;
      }
      ok := true;
    }

    /** pb_skip_string */
    method SkipString() returns (ok: bool)
      requires Valid()
      modifies this
      ensures Valid() && End() == old(End())
      ensures ok == TakeString(old(Rest())).Some?
      ensures ok ==> Rest() == TakeString(old(Rest())).value.1
    {
      var length: nat;
      ok, length := DecodeVarint32();
      if ok {
        ok := Read(null, length);
      }
    }

    /** pb_skip_field */
    method SkipField(wireType: nat) returns (ok: bool)
      requires Valid()
      modifies this
      ensures Valid() && End() == old(End())
      ensures ok == Skip(wireType, old(Rest())).Some?
      ensures ok ==> Rest() == Skip(wireType, old(Rest())).value
    {
      match wireType
      case 0 => ok := SkipVarint();
      case 1 => ok := Read(null, 8);
      case 2 => ok := SkipString();
      case 5 => ok := Read(null, 4);
      case _ => ok := false;
    }

    /** pb_decode_tag */
    method ReadTag() returns (ok: bool, wireType: nat, tag: nat, eof: bool)
      requires Valid()
      modifies this
      ensures Valid() && End() == old(End())
      ensures ok == (DecodeTag(old(Rest())).Tag?)
      ensures ok ==> DecodeTag(old(Rest())) == Tag(tag, wireType, Rest())
      ensures old(Rest()) != [] ==> eof == DecodeTag(old(Rest())).Terminator?
      ensures !ok && eof && old(Rest()) != [] ==> DecodeTag(old(Rest())) == Terminator(Rest())
    {
      var temp: nat;
      wireType, tag := 0, 0;
      ok, temp, eof := DecodeVarint32Eof();
      if !ok {
        return;
      }
      if temp == 0 {
        eof := true;
        ok := false;
        return;
      }
      tag := temp / 8;
      wireType := temp % 8;
    }

    /** pb_make_string_substream: until the substream is closed, this stream's position lags behind. */
    method MakeSubstream() returns (ok: bool, sub: IStream)
      requires Valid()
      modifies this
      ensures Valid() && End() <= old(End())
      ensures fresh(sub) && sub.buf == buf && sub.Valid()
      ensures ok == TakeString(old(Rest())).Some?
      ensures ok ==>
        var (payload, rest) := TakeString(old(Rest())).value;
        && sub.Rest() == payload && sub.pos == pos
        && bytesLeft == |rest| && sub.End() + bytesLeft == old(End())
        && buf[sub.End()..sub.End() + bytesLeft] == rest
    {
      var size: nat;
      ok, size := DecodeVarint32();
      sub := new IStream(buf, pos, bytesLeft);
      if !ok {
        return;
      }
      if sub.bytesLeft < size {
        ok := false;
        return;
      }
      sub.bytesLeft := size;
      bytesLeft := bytesLeft - size;
    }

    /** pb_close_string_substream: skips what the substream left unread and takes over its position. */
    method CloseSubstream(sub: IStream) returns (ok: bool)
      requires sub != this && sub.buf == buf && sub.Valid() && sub.End() + bytesLeft <= buf.Length
      modifies this, sub
      ensures ok && Valid()
      ensures pos == old(sub.End()) && bytesLeft == old(bytesLeft)
    {
      if sub.bytesLeft != 0 {
        ok := sub.Read(null, sub.bytesLeft);
        if !ok {
          return;
        }
      }
      pos := sub.pos;
      ok := true;
    }
  }

  /** The reading r of what follows k septets with sum acc. */
  function Above(acc: nat, k: nat, r: Read<nat>): Read<nat> {
    match r
    case None => None
    case Some((v, rest)) => Some((acc + Shl(v, 7 * k), rest))
  }

  lemma NothingRead(s: seq<byte>)
    ensures RawVarint(s) == Above(0, 0, RawVarint(s)) && Low64(0) == 0 && 0 < Pow2(0)
  {}

  lemma AboveStep(acc: nat, k: nat, s: seq<byte>)
    requires s != []
    ensures var acc' := acc + Shl(s[0] % 128, 7 * k);
            Above(acc, k, RawVarint(s))
            == if s[0] < 128 then Some((acc', s[1..])) else Above(acc', k + 1, RawVarint(s[1..]))
  {
    hide Shl;
    if s[0] >= 128 && RawVarint(s[1..]).Some? {
      ShlSeptet(s[0] % 128, RawVarint(s[1..]).value.0, k);
    }
  }

  lemma Shl63(x: nat)
    ensures Shl(x, 63) == 0x8000_0000_0000_0000 * x
  {
    ShlShl(x, 28, 35); ShlShl(Shl(x, 28), 28, 7);
    Shl28(x); Shl28(Shl(x, 28)); Shl7(Shl(Shl(x, 28), 28));
  }

  /** `result |= (uint64_t)(byte & 0x7F) << bitpos` adds the septet modulo 2^64; of the tenth only one bit is left. */
  lemma Accumulate64(acc: nat, d: nat, k: nat)
    requires k <= 9 && acc < Pow2(7 * k) && d < 128
    ensures Or(Low64(acc), Low64(Shl(d, 7 * k))) == Low64(acc + Shl(d, 7 * k))
  {
    hide Or, Shl, Low64, Pow2;
    var kk := 7 * k;
    Pow2Mono(kk, 63);
    Pow2Shl(63); Shl63(1);
    if k == 9 {
      LastBit(acc, d, kk);
    } else {
      SeptetBound(acc, d, k);
      Pow2Mono(7 * (k + 1), 63);
      DisjointBits(acc, d, kk);
    }
  }

  lemma LastBit(acc: nat, d: nat, k: nat)
    requires k == 63 && acc < Pow2(k) == 0x8000_0000_0000_0000 && d < 128
    ensures Or(Low64(acc), Low64(Shl(d, k))) == Low64(acc + Shl(d, k))
  {
    hide Or, Shl, Pow2;
    Shl63(d); Shl63(d % 2);
    LowOfHigh(0, d);
    LowOfHigh(acc, d);
    DisjointBits(acc, d % 2, k);
  }

  lemma LowOfHigh(acc: nat, d: nat)
    requires acc < 0x8000_0000_0000_0000
    ensures Low64(acc + 0x8000_0000_0000_0000 * d) == acc + 0x8000_0000_0000_0000 * (d % 2)
  {
    var h := d / 2;
    assert acc + 0x8000_0000_0000_0000 * d == acc + 0x8000_0000_0000_0000 * (d % 2) + 0x1_0000_0000_0000_0000 * h;
  }
}
