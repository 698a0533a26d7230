/**
 Base 128 varints: the encoder's shortest form, the 64-bit and the 32-bit reader,
 and the zigzag map. Readers return the value and the unread bytes.
 */
module Varint {
  import opened Bytes

  type Read<T> = Option<(T, seq<byte>)>

  /** What pb_encode_varint writes. */
  function EncVarint(n: nat): (s: seq<byte>)
    ensures |s| > 0
  {
    if n < 128 then [n] else [n % 128 + 128] + EncVarint(n / 128)
  }

  /** Little-endian base-128 sum of the bytes up to and including the first one below 128. */
  function RawVarint(s: seq<byte>): (r: Read<nat>)
    ensures r.Some? ==> |r.value.1| < |s|
  {
    if s == [] then None
    else if s[0] < 128 then Some((s[0], s[1..]))
    else match RawVarint(s[1..])
      case None => None
      case Some((v, rest)) => Some((s[0] - 128 + 128 * v, rest))
  }

  /** pb_decode_varint: at most 10 bytes, value reduced modulo 2^64. */
  function Varint64(s: seq<byte>): (r: Read<nat>)
    ensures r.Some? ==> |r.value.1| < |s| && r.value.0 < U64
  {
    match RawVarint(s)
    case None => None
    case Some((v, rest)) => if |s| - |rest| <= 10 then Some((Low64(v), rest)) else None
  }

  /** One byte of the 32-bit reader after the first: the new result, or None for "varint overflow".
      `bitpos` is a uint_fast8_t, which is 8 bits wide on the platforms of this repository: it wraps. */
  function Accumulate32(b: byte, result: nat, bitpos: nat): Option<nat> {
    if bitpos >= 32 then
      var signExtension := if bitpos < 63 then 0xFF else 0x01;
      if b % 128 != 0 && (result < 0x8000_0000 || b != signExtension) then None else Some(result)
    else
      Some(Or(result, Low32(Shl(b % 128, bitpos))))
  }

  /** The do-while loop of pb_decode_varint32_eof. */
  function Varint32Loop(s: seq<byte>, result: nat, bitpos: nat): (r: Read<nat>)
    ensures r.Some? ==> |r.value.1| < |s|
  {
    if s == [] then None
    else match Accumulate32(s[0], result, bitpos)
      case None => None
      case Some(next) =>
        var bitpos' := Low8(bitpos + 7);
        if s[0] >= 128 then Varint32Loop(s[1..], next, bitpos')
        else if bitpos' == 35 && s[0] >= 16 then None
        else Some((next, s[1..]))
  }

  /** pb_decode_varint32 */
  function Varint32(s: seq<byte>): (r: Read<nat>)
    ensures r.Some? ==> |r.value.1| < |s|
  {
    if s == [] then None
    else if s[0] < 128 then Some((s[0], s[1..]))
    else Varint32Loop(s[1..], s[0] % 128, 7)
  }

  // ---------- the 32-bit reader's result is a uint32_t ----------

  lemma {:induction false} OrBelow(x: nat, y: nat, n: nat)
    requires x < Pow2(n) && y < Pow2(n)
    ensures Or(x, y) < Pow2(n)
    decreases n
  {
    if x != 0 && y != 0 && n > 0 { OrBelow(x / 2, y / 2, n - 1); }
  }

  lemma {:induction false} Varint32LoopBelow(s: seq<byte>, result: nat, bitpos: nat)
    requires result < U32 && Varint32Loop(s, result, bitpos).Some?
    ensures Varint32Loop(s, result, bitpos).value.0 < U32
    decreases |s|
  {
    hide Or, Shl, Pow2;
    var next := Accumulate32(s[0], result, bitpos).value;
    assert next < U32 by {
      Pow2Of32();
      if bitpos < 32 { OrBelow(result, Low32(Shl(s[0] % 128, bitpos)), 32); }
    }
    if s[0] >= 128 { Varint32LoopBelow(s[1..], next, Low8(bitpos + 7)); }
  }

  lemma Pow2Of32()
    ensures Pow2(32) == U32
  {
    Pow2Shl(32);
    Shl32(1);
  }

  lemma Varint32Below(s: seq<byte>)
    requires Varint32(s).Some?
    ensures Varint32(s).value.0 < U32
  {
    if s[0] >= 128 { Varint32LoopBelow(s[1..], s[0] % 128, 7); }
  }

  // ---------- the readers depend only on the bytes they consume ----------

  lemma {:induction false} RawVarintLocal(s: seq<byte>, t: seq<byte>)
    requires RawVarint(s).Some?
    ensures RawVarint(s + t) == Some((RawVarint(s).value.0, RawVarint(s).value.1 + t))
  {
    assert (s + t)[1..] == s[1..] + t;
    if s[0] >= 128 { RawVarintLocal(s[1..], t); }
  }

  lemma Varint64Local(s: seq<byte>, t: seq<byte>)
    requires Varint64(s).Some?
    ensures Varint64(s + t) == Some((Varint64(s).value.0, Varint64(s).value.1 + t))
  {
    RawVarintLocal(s, t);
  }

  lemma {:induction false} Varint32LoopLocal(s: seq<byte>, result: nat, bitpos: nat, t: seq<byte>)
    requires Varint32Loop(s, result, bitpos).Some?
    ensures var r := Varint32Loop(s, result, bitpos).value;
            Varint32Loop(s + t, result, bitpos) == Some((r.0, r.1 + t))
  {
    assert (s + t)[1..] == s[1..] + t;
    if s[0] >= 128 {
      Varint32LoopLocal(s[1..], Accumulate32(s[0], result, bitpos).value, Low8(bitpos + 7), t);
    }
  }

  lemma Varint32Local(s: seq<byte>, t: seq<byte>)
    requires Varint32(s).Some?
    ensures Varint32(s + t) == Some((Varint32(s).value.0, Varint32(s).value.1 + t))
  {
    assert (s + t)[1..] == s[1..] + t;
    if s[0] >= 128 { Varint32LoopLocal(s[1..], s[0] % 128, 7, t); }
  }

  // ---------- round trip and shortest form ----------

  function Pow128(k: nat): nat {
    if k == 0 then 1 else 128 * Pow128(k - 1)
  }

  lemma {:induction false} RawRoundTrip(n: nat, t: seq<byte>)
    ensures RawVarint(EncVarint(n) + t) == Some((n, t))
  {
    var s := EncVarint(n) + t;
    if n < 128 {
      assert s[1..] == t;
    } else {
      RawRoundTrip(n / 128, t);
      assert s[1..] == EncVarint(n / 128) + t;
    }
  }

  lemma {:induction false} EncVarintLength(n: nat, k: nat)
    ensures k > 0 ==> (|EncVarint(n)| <= k <==> n < Pow128(k))
  {
    if k == 1 {
      assert Pow128(1) == 128 * Pow128(0);
    } else if k > 1 {
      EncVarintLength(n / 128, k - 1);
      assert Pow128(k) == 128 * Pow128(k - 1);
      assert Pow128(k - 1) > 0 by { Pow128Positive(k - 1); }
    }
  }

  lemma {:induction false} Pow128Positive(k: nat)
    ensures Pow128(k) > 0
  {
    if k > 0 { Pow128Positive(k - 1); }
  }

  /** No byte string that any base-128 reader takes for n is shorter than the encoder's. */
  lemma {:induction false} EncVarintShortest(n: nat, s: seq<byte>, rest: seq<byte>)
    requires RawVarint(s) == Some((n, rest))
    ensures |EncVarint(n)| <= |s| - |rest|
  {
    if s[0] >= 128 {
      var (v, r) := RawVarint(s[1..]).value;
      EncVarintShortest(v, s[1..], rest);
      assert n >= 128 ==> n / 128 == v;
    }
  }

  lemma AtMostTenBytes(n: nat, k: nat)
    requires n < U64 && k == 10
    ensures |EncVarint(n)| <= k
  {
    U64InTenSeptets();
    EncVarintLength(n, k);
  }

  lemma Varint64OfRaw(s: seq<byte>, n: nat, rest: seq<byte>)
    requires RawVarint(s) == Some((n, rest)) && |s| - |rest| <= 10 && n < U64
    ensures Varint64(s) == Some((n, rest))
  {
    hide RawVarint, Low64;
  }

  /** Every uint64 is written in 1 to 10 bytes and read back, whatever follows. */
  lemma VarintRoundTrip(n: nat, t: seq<byte>)
    requires n < U64
    ensures 1 <= |EncVarint(n)| <= 10
    ensures Varint64(EncVarint(n) + t) == Some((n, t))
  {
    var s := EncVarint(n);
    AtMostTenBytes(n, 10);
    RawRoundTrip(n, t);
    Varint64OfRaw(s + t, n, t);
  }

  lemma U64InTenSeptets()
    ensures U64 <= Pow128(10)
  {
    assert Pow128(2) == 0x4000;
    assert Pow128(4) == 0x1000_0000;
    assert Pow128(6) == 0x400_0000_0000;
    assert Pow128(8) == 0x100_0000_0000_0000;
  }

  // ---------- the two readers agree ----------

  lemma {:induction false} ShlAdd(x: nat, y: nat, k: nat)
    ensures Shl(x + y, k) == Shl(x, k) + Shl(y, k)
  {
    if k > 0 { ShlAdd(x, y, k - 1); }
  }

  lemma {:induction false} ShlShl(x: nat, j: nat, k: nat)
    ensures Shl(Shl(x, j), k) == Shl(x, j + k)
  {
    if k > 0 { ShlShl(x, j, k - 1); }
  }

  lemma Shl4(x: nat)
    ensures Shl(x, 4) == 16 * x
  {
    ShlShl(x, 2, 2);
    assert forall y: nat :: Shl(y, 1) == 2 * y && Shl(y, 2) == 2 * Shl(y, 1);
  }

  lemma Shl7(x: nat)
    ensures Shl(x, 7) == 128 * x
  {
    ShlShl(x, 4, 3);
    Shl4(x);
    var y := Shl(x, 4);
    assert Shl(y, 1) == 2 * y && Shl(y, 2) == 2 * Shl(y, 1) && Shl(y, 3) == 2 * Shl(y, 2);
  }

  lemma Shl28(x: nat)
    ensures Shl(x, 28) == 0x1000_0000 * x
  {
    ShlShl(x, 7, 7); ShlShl(x, 14, 14);
    Shl7(x); Shl7(128 * x); ShlShl(128 * 128 * x, 7, 7); Shl7(128 * 128 * x); Shl7(128 * 128 * 128 * x);
  }

  lemma Shl32(x: nat)
    ensures Shl(x, 32) == 0x1_0000_0000 * x
  {
    ShlShl(x, 28, 4);
    Shl28(x);
    Shl4(Shl(x, 28));
  }

  lemma {:induction false} ShlBound(d: nat, c: nat, k: nat)
    requires d < c
    ensures Shl(d, k) + Pow2(k) <= Shl(c, k)
  {
    if k > 0 { ShlBound(d, c, k - 1); }
  }

  lemma {:induction false} Pow2Shl(k: nat)
    ensures Pow2(k) == Shl(1, k)
  {
    if k > 0 { Pow2Shl(k - 1); }
  }

  /** Appending seven bits above an accumulator of k septets. */
  lemma SeptetBound(acc: nat, d: nat, k: nat)
    requires acc < Pow2(7 * k) && d < 128
    ensures acc + Shl(d, 7 * k) < Pow2(7 * (k + 1))
  {
    ShlBound(d, 128, 7 * k);
    Pow2Shl(7 * k + 7); ShlShl(1, 7, 7 * k); Shl7(1);
  }

  lemma {:induction false} Pow2Mono(j: nat, k: nat)
    requires j <= k
    ensures Pow2(j) <= Pow2(k)
    decreases k
  {
    if j < k { Pow2Mono(j, k - 1); }
  }

  lemma ShlHigh(d: nat, acc: nat, k: nat)
    requires k >= 32
    ensures Low32(acc + Shl(d, k)) == Low32(acc)
  {
    var q := Shl(d, k - 32);
    ShlShl(d, k - 32, 32);
    Shl32(q);
    AddMultiple(acc, q);
  }

  lemma AddMultiple(acc: nat, q: nat)
    ensures Low32(acc + 0x1_0000_0000 * q) == Low32(acc)
  {}

  /** The fifth byte: three of its seven bits fall off the 32-bit word. */
  lemma FifthByte(acc: nat, d: nat)
    requires acc < 0x1000_0000 && d < 128
    ensures Or(acc, Low32(Shl(d, 28))) == Low32(acc + Shl(d, 28))
  {
    hide Or, Shl, Pow2, Low32;
    Shl28(d); Shl28(d % 16);
    var hi := d / 16;
    assert Shl(d, 28) == Shl(d % 16, 28) + 0x1_0000_0000 * hi;
    AddMultiple(Shl(d % 16, 28), hi);
    AddMultiple(acc + Shl(d % 16, 28), hi);
    Pow2Shl(28); Shl28(1);
    DisjointBits(acc, d % 16, 28);
  }

  lemma Pow2At28()
    ensures Pow2(28) == 0x1000_0000
  {
    Pow2Shl(28); Shl28(1);
  }

  lemma EarlyByte(acc: nat, d: nat, k: nat)
    requires 1 <= k <= 3 && acc < Pow2(7 * k) && d < 128
    ensures Or(acc, Shl(d, 7 * k)) == acc + Shl(d, 7 * k) < U32
  {
    SeptetBound(acc, d, k);
    Pow2Mono(7 * (k + 1), 28);
    Pow2At28();
    DisjointBits(acc, d, 7 * k);
  }

  /** A byte the 32-bit reader accepts adds its septet modulo 2^32. */
  lemma AccumulateIsSum(b: byte, acc: nat, k: nat)
    requires 1 <= k && acc < Pow2(7 * k)
    requires Accumulate32(b, Low32(acc), 7 * k).Some?
    ensures Accumulate32(b, Low32(acc), 7 * k).value == Low32(acc + Shl(b % 128, 7 * k))
  {
    var d := b % 128;
    if k >= 5 {
      ShlHigh(d, acc, 7 * k);
    } else {
      Pow2Mono(7 * k, 28);
      Pow2At28();
      if k == 4 {
        FifthByte(acc, d);
      } else {
        EarlyByte(acc, d, k);
      }
    }
  }

  lemma {:induction false} LoopAgrees(s: seq<byte>, acc: nat, k: nat)
    requires 1 <= k && acc < Pow2(7 * k)
    requires RawVarint(s).Some? && k + |s| - |RawVarint(s).value.1| <= 10
    requires Varint32Loop(s, Low32(acc), 7 * k).Some?
    ensures var (v, rest) := RawVarint(s).value;
            Varint32Loop(s, Low32(acc), 7 * k) == Some((Low32(acc + Shl(v, 7 * k)), rest))
  {
    hide Or, Shl, Low32, Pow2, Accumulate32;
    var d := s[0] % 128;
    var acc' := acc + Shl(d, 7 * k);
    AccumulateIsSum(s[0], acc, k);
    if s[0] >= 128 {
      SeptetBound(acc, d, k);
      LoopAgrees(s[1..], acc', k + 1);
      ShlSeptet(d, RawVarint(s[1..]).value.0, k);
    }
  }

  lemma ShlSeptet(d: nat, v: nat, k: nat)
    ensures Shl(d + 128 * v, 7 * k) == Shl(d, 7 * k) + Shl(v, 7 * (k + 1))
  {
    ShlAdd(d, 128 * v, 7 * k);
    ShlShl(v, 7, 7 * k);
    Shl7(v);
  }

  lemma MultiByteAgrees(s: seq<byte>, d: nat, k: nat)
    requires d < 128 && k == 1
    requires RawVarint(s).Some? && |s| - |RawVarint(s).value.1| <= 9
    requires Varint32Loop(s, d, 7).Some?
    ensures var (v, rest) := RawVarint(s).value;
            Varint32Loop(s, d, 7).value == (Low32(d + 128 * v), rest)
  {
    Pow2Shl(7); Shl7(1);
    var kk := 7 * k;
    assert kk == 7 && Low32(d) == d && d < Pow2(kk);
    LoopAgrees(s, d, k);
    Shl7(RawVarint(s).value.0);
  }

  /** What the 32-bit reader accepts the 64-bit reader accepts exactly when it has at most 10 bytes; then
      they consume the same bytes, and the values agree modulo 2^32. */
  lemma ReadersAgree(s: seq<byte>)
    requires Varint32(s).Some?
    ensures Varint64(s).Some? <==> |s| - |Varint32(s).value.1| <= 10
    ensures Varint64(s).Some? ==>
      Varint64(s).value.1 == Varint32(s).value.1 && Varint32(s).value.0 == Low32(Varint64(s).value.0)
  {
    hide Low32, Low64, Varint32Loop;
    RawExtent(s);
    ModMod(RawVarint(s).value.0);
    if s[0] >= 128 && |s| - |Varint32(s).value.1| <= 10 { MultiByteAgrees(s[1..], s[0] % 128, 1); }
  }

  lemma {:induction false} EncVarintMonotone(m: nat, n: nat)
    requires m <= n
    ensures |EncVarint(m)| <= |EncVarint(n)|
    decreases n
  {
    if m >= 128 { EncVarintMonotone(m / 128, n / 128); }
  }

  /** The 32-bit reader takes no fewer bytes for n than the encoder writes. */
  lemma Varint32Shortest(s: seq<byte>)
    requires Varint32(s).Some?
    ensures |EncVarint(Varint32(s).value.0)| <= |s| - |Varint32(s).value.1|
  {
    hide Varint32, EncVarint;
    var (n, rest) := Varint32(s).value;
    Varint32Below(s);
    if |s| - |rest| <= 10 {
      ReadersAgree(s);
      var w := RawVarint(s).value.0;
      EncVarintShortest(w, s, rest);
      EncVarintMonotone(n, w);
    } else {
      VarintRoundTrip(n, []);
    }
  }

  /** A zero padded to eleven bytes: the 32-bit reader takes it, the 64-bit reader does not. */
  lemma PaddedZero(s: seq<byte>)
    requires s == [128, 128, 128, 128, 128, 128, 128, 128, 128, 128, 0]
    ensures Varint32(s) == Some((0, [])) && Varint64(s) == None
  {
    PaddedLoop(s[1..], 1);
    RawExtentLoop(s[1..], 0, 7);
  }

  lemma {:induction false} PaddedLoop(s: seq<byte>, k: nat)
    requires 1 <= k <= 10 && |s| == 11 - k && s[10 - k] == 0 && forall j | 0 <= j < 10 - k :: s[j] == 128
    ensures Varint32Loop(s, 0, 7 * k) == Some((0, []))
    decreases |s|
  {
    hide Shl, Low32;
    ShlOfZero(7 * k);
    if k < 10 { PaddedLoop(s[1..], k + 1); }
  }

  lemma {:induction false} ShlOfZero(k: nat)
    ensures Shl(0, k) == 0 && Low32(0) == 0
  {
    if k > 0 { ShlOfZero(k - 1); }
  }

  lemma ModMod(v: nat)
    ensures Low32(Low64(v)) == Low32(v)
  {
    var q := v / 0x1_0000_0000_0000_0000;
    AddMultiple(Low64(v), 0x1_0000_0000 * q);
  }

  lemma {:induction false} RawExtentLoop(s: seq<byte>, result: nat, bitpos: nat)
    requires Varint32Loop(s, result, bitpos).Some?
    ensures RawVarint(s).Some? && RawVarint(s).value.1 == Varint32Loop(s, result, bitpos).value.1
  {
    if s[0] >= 128 {
      RawExtentLoop(s[1..], Accumulate32(s[0], result, bitpos).value, Low8(bitpos + 7));
    }
  }

  lemma RawExtent(s: seq<byte>)
    requires Varint32(s).Some?
    ensures RawVarint(s).Some? && RawVarint(s).value.1 == Varint32(s).value.1
  {
    if s[0] >= 128 { RawExtentLoop(s[1..], s[0] % 128, 7); }
  }

  // ---------- exactly what the 32-bit reader accepts ----------

  /** The first byte of s below 128 is at k. */
  predicate EndsAt(s: seq<byte>, k: nat) {
    k < |s| && s[k] < 128 && forall j | 0 <= j < k :: s[j] >= 128
  }

  /** Four bytes always fit; a fifth and last one must be below 16. Bytes from the sixth on must be zero, or all
      ones, as in a sign extension, when bit 31 is set. The three bits a continued fifth byte has too many are
      ignored. */
  predicate Fits32(s: seq<byte>, k: nat)
    requires k < |s|
  {
    if k <= 3 then true
    else if k == 4 then s[4] < 16
    else forall j | 5 <= j <= k :: s[j] % 128 == 0 || (s[4] % 16 >= 8 && s[j] == if j < 9 then 0xFF else 0x01)
  }

  lemma {:induction false} TailAccepts(s: seq<byte>, k: nat, j: nat, result: nat)
    requires EndsAt(s, k) && 5 <= j <= k <= 9
    ensures Varint32Loop(s[j..], result, 7 * j).Some?
       <==> forall i | j <= i <= k ::
              s[i] % 128 == 0 || (result >= 0x8000_0000 && s[i] == if i < 9 then 0xFF else 0x01)
    decreases k - j
  {
    hide Or, Shl, Low32;
    assert s[j..][0] == s[j] && s[j..][1..] == s[j + 1..];
    assert Low8(7 * j + 7) == 7 * (j + 1);
    if j < k { TailAccepts(s, k, j + 1, result); }
  }

  lemma {:induction false} HeadAccepts(s: seq<byte>, k: nat, j: nat, acc: nat)
    requires EndsAt(s, k) && 1 <= j <= k <= 9 && j <= 4 && acc < Pow2(7 * j)
    ensures Varint32Loop(s[j..], acc, 7 * j).Some? <==> Fits32(s, k)
    decreases k - j
  {
    hide Varint32Loop, Shl, Pow2, Fits32;
    if j == 4 {
      FifthAccepts(s, k, acc);
    } else {
      var d := s[j] % 128;
      SeptetBound(acc, d, j);
      EarlyStep(s, k, j, acc);
      if j < k { HeadAccepts(s, k, j + 1, acc + Shl(d, 7 * j)); } else { FewBytesFit(s, k); }
    }
  }

  lemma FewBytesFit(s: seq<byte>, k: nat)
    requires k < |s| && k <= 3
    ensures Fits32(s, k)
  {}

  lemma EarlyStep(s: seq<byte>, k: nat, j: nat, acc: nat)
    requires EndsAt(s, k) && 1 <= j <= k && j <= 3 && acc < Pow2(7 * j)
    ensures j == k ==> Varint32Loop(s[j..], acc, 7 * j).Some?
    ensures j < k ==>
      Varint32Loop(s[j..], acc, 7 * j) == Varint32Loop(s[j + 1..], acc + Shl(s[j] % 128, 7 * j), 7 * (j + 1))
  {
    hide Or, Shl, Low32, Pow2;
    assert s[j..][0] == s[j] && s[j..][1..] == s[j + 1..];
    EarlyByte(acc, s[j] % 128, j);
    EarlyShift(acc, s[j] % 128, j);
  }

  lemma FifthAccepts(s: seq<byte>, k: nat, acc: nat)
    requires EndsAt(s, k) && 4 <= k <= 9 && acc < Pow2(28)
    ensures Varint32Loop(s[4..], acc, 28).Some? <==> Fits32(s, k)
  {
    hide Or, Shl, Low32, Pow2, Varint32Loop;
    var next := Or(acc, Low32(Shl(s[4] % 128, 28)));
    FifthStep(s, k, acc, next);
    if k > 4 {
      FifthResult(acc, s[4] % 128);
      LowNibble(s[4]);
      TailAccepts(s, k, 5, next);
    }
  }

  lemma LowNibble(b: byte)
    ensures b % 128 % 16 == b % 16
  {}

  lemma FifthStep(s: seq<byte>, k: nat, acc: nat, next: nat)
    requires EndsAt(s, k) && 4 <= k && next == Or(acc, Low32(Shl(s[4] % 128, 28)))
    ensures k == 4 ==> (Varint32Loop(s[4..], acc, 28).Some? <==> s[4] < 16)
    ensures k > 4 ==> Varint32Loop(s[4..], acc, 28) == Varint32Loop(s[5..], next, 35)
  {
    hide Or, Shl, Low32, Pow2;
    assert s[4..][0] == s[4] && s[4..][1..] == s[5..];
  }

  lemma EarlyShift(acc: nat, d: nat, j: nat)
    requires acc + Shl(d, 7 * j) < U32
    ensures Low32(Shl(d, 7 * j)) == Shl(d, 7 * j)
  {}

  lemma FifthResult(acc: nat, d: nat)
    requires acc < Pow2(28) && d < 128
    ensures Or(acc, Low32(Shl(d, 28))) >= 0x8000_0000 <==> d % 16 >= 8
  {
    hide Or, Shl, Pow2;
    Pow2At28();
    FifthByte(acc, d);
    Shl28(d);
    assert d == 16 * (d / 16) + d % 16;
    AddMultiple(acc + 0x1000_0000 * (d % 16), d / 16);
  }

  /** Of the inputs that end within ten bytes, the 32-bit reader accepts exactly those that fit. */
  lemma Varint32Accepts(s: seq<byte>, k: nat)
    requires EndsAt(s, k) && k <= 9
    ensures Varint32(s).Some? <==> Fits32(s, k)
  {
    hide Or, Shl, Low32, Varint32Loop;
    if k > 0 {
      Pow2Shl(7);
      Shl7(1);
      HeadAccepts(s, k, 1, s[0] % 128);
    }
  }

  // ---------- what the 32-bit reader accepts ----------

  /** The first byte the encoder writes for m, and what follows it. */
  lemma EncVarintStep(m: nat, t: seq<byte>)
    ensures var s := EncVarint(m) + t;
            && s[0] == (if m < 128 then m else m % 128 + 128) && s[0] % 128 == m % 128
            && (m < 128 ==> s[1..] == t)
            && (m >= 128 ==> s[1..] == EncVarint(m / 128) + t)
  {
    Septet(m, m % 128);
    var hi := if m < 128 then 0 else m / 128;
    assert m >= 128 ==> EncVarint(m) == [m % 128 + 128] + EncVarint(hi);
  }

  lemma Septet(m: nat, d: nat)
    requires d == m % 128
    ensures 0 <= d < 128 && (d + 128) % 128 == d && (m < 128 ==> d == m)
  {}

  lemma {:induction false} CanonicalLoop(m: nat, acc: nat, k: nat, t: seq<byte>)
    requires 1 <= k <= 4 && acc < Pow2(7 * k) && acc + Shl(m, 7 * k) < U32
    ensures Varint32Loop(EncVarint(m) + t, acc, 7 * k) == Some((acc + Shl(m, 7 * k), t))
    decreases m
  {
    EncVarintStep(m, t);
    SeptetShift(m, k);
    AccumulateCanonical((EncVarint(m) + t)[0], m, acc, k);
    if m >= 128 {
      SeptetBound(acc, m % 128, k);
      CanonicalLoop(m / 128, acc + Shl(m % 128, 7 * k), k + 1, t);
    }
  }

  /** A value that fits above k septets of a 32-bit word: its digits, and one digit only at bit 28. */
  lemma SeptetShift(m: nat, k: nat)
    requires 1 <= k <= 4 && Shl(m, 7 * k) < U32
    ensures Shl(m, 7 * k) == Shl(m % 128, 7 * k) + Shl(m / 128, 7 * (k + 1))
    ensures k == 4 ==> m < 16
  {
    ShlSeptet(m % 128, m / 128, k);
    if k == 4 { Shl28(m); }
  }

  lemma AccumulateCanonical(b: byte, m: nat, acc: nat, k: nat)
    requires 1 <= k <= 4 && acc < Pow2(7 * k) && b % 128 == m % 128 && Shl(m % 128, 7 * k) < U32
    ensures Accumulate32(b, acc, 7 * k) == Some(acc + Shl(m % 128, 7 * k))
  {
    DisjointBits(acc, m % 128, 7 * k);
  }

  /** The 32-bit reader takes the canonical form of every uint32. */
  lemma Varint32RoundTrip(n: nat, t: seq<byte>)
    requires n < U32
    ensures Varint32(EncVarint(n) + t) == Some((n, t))
  {
    EncVarintStep(n, t);
    if n >= 128 { CanonicalFrom7(n / 128, n % 128, 1, t); }
  }

  lemma CanonicalFrom7(m: nat, acc: nat, k: nat, t: seq<byte>)
    requires k == 1 && acc < 128 && acc + 128 * m < U32
    ensures Varint32Loop(EncVarint(m) + t, acc, 7) == Some((acc + 128 * m, t))
  {
    Pow2Shl(7); Shl7(1); Shl7(m);
    var kk := 7 * k;
    assert kk == 7 && acc < Pow2(kk) && Shl(m, kk) == 128 * m;
    CanonicalLoop(m, acc, k, t);
  }

  /** 2^(64-7k) - 1, what is left of a sign-extended negative number after k >= 5 septets. */
  function SignTail(k: nat): nat
    requires 5 <= k <= 9
    decreases 9 - k
  {
    if k == 9 then 1 else 127 + 128 * SignTail(k + 1)
  }

  lemma {:induction false} SignTailRead(k: nat, result: nat, t: seq<byte>)
    requires 5 <= k <= 9 && 0x8000_0000 <= result < U32
    ensures Varint32Loop(EncVarint(SignTail(k)) + t, result, 7 * k) == Some((result, t))
    decreases 9 - k
  {
    hide EncVarint, Or, Shl, Low32;
    EncVarintStep(SignTail(k), t);
    if k < 9 {
      SignTailDigits(k);
      SignTailRead(k + 1, result, t);
    }
  }

  lemma SignTailDigits(k: nat)
    requires 5 <= k < 9
    ensures SignTail(k) >= 128 && SignTail(k) % 128 == 127 && SignTail(k) / 128 == SignTail(k + 1)
  {
    assert SignTail(k + 1) > 0;
  }

  /** What is left of 2^64 - 2^32 + w after k septets, when h is w / 2^(7k) and w has its top bit set. */
  function SignedRest(k: nat, h: nat): nat
    requires 1 <= k <= 4
    decreases 4 - k
  {
    if k == 4 then h + 0x70 + 128 * SignTail(5) else h % 128 + 128 * SignedRest(k + 1, h / 128)
  }

  lemma SignedRestSum(h: nat)
    ensures SignedRest(1, h) == h + 0x1FF_FFFF_FE00_0000
  {
    assert SignTail(7) == 0x7FFF;
    assert SignTail(5) == 0x1FFF_FFFF;
    assert SignedRest(3, h / 128 / 128) == h / 128 / 128 + 0x7FF_FFFF_F800;
  }

  lemma {:induction false} SignedRestRead(h: nat, acc: nat, k: nat, t: seq<byte>)
    requires 1 <= k <= 4 && acc < Pow2(7 * k)
    requires 0x8000_0000 <= acc + Shl(h, 7 * k) < U32
    ensures Varint32Loop(EncVarint(SignedRest(k, h)) + t, acc, 7 * k) == Some((acc + Shl(h, 7 * k), t))
    decreases 4 - k
  {
    hide Or, Shl, Low32, Pow2, Accumulate32, EncVarint;
    if k == 4 {
      LastNibbleRead(h, acc, 28, t);
    } else {
      SeptetShift(h, k);
      var m := SignedRest(k, h);
      EncVarintStep(m, t);
      SignedRestSplit(k, h);
      AccumulateCanonical((EncVarint(m) + t)[0], h, acc, k);
      SeptetBound(acc, h % 128, k);
      SignedRestRead(h / 128, acc + Shl(h % 128, 7 * k), k + 1, t);
    }
  }

  lemma SignedRestSplit(k: nat, h: nat)
    requires 1 <= k <= 3
    ensures SignedRest(k, h) >= 128
    ensures SignedRest(k, h) / 128 == SignedRest(k + 1, h / 128)
    ensures SignedRest(k, h) % 128 == h % 128
  {
    assert SignedRest(4, h / 128) > 0 && SignedRest(k + 1, h / 128) > 0;
  }

  lemma LastNibbleRead(h: nat, acc: nat, k: nat, t: seq<byte>)
    requires k == 28 && acc < Pow2(k) && 0x8000_0000 <= acc + Shl(h, k) < U32
    ensures Varint32Loop(EncVarint(SignedRest(4, h)) + t, acc, k) == Some((acc + Shl(h, k), t))
  {
    hide Or, Shl, Low32, Pow2, Accumulate32, EncVarint;
    var m := SignedRest(4, h);
    EncVarintStep(m, t);
    TopNibble(h, acc);
    FifthByteOfNegative((EncVarint(m) + t)[0], h, acc, k);
    SignTailRead(5, acc + Shl(h, k), t);
  }

  lemma TopNibble(h: nat, acc: nat)
    requires acc < Pow2(28) && 0x8000_0000 <= acc + Shl(h, 28) < U32
    ensures 8 <= h < 16
    ensures SignedRest(4, h) >= 128 && SignedRest(4, h) % 128 == 0x70 + h && SignedRest(4, h) / 128 == SignTail(5)
  {
    Shl28(h);
    Pow2At28();
  }

  lemma FifthByteOfNegative(b: byte, h: nat, acc: nat, k: nat)
    requires k == 28 && acc < Pow2(k) && 8 <= h < 16 && b % 128 == 0x70 + h
    ensures Accumulate32(b, acc, k) == Some(acc + Shl(h, k))
  {
    hide Or, Shl, Pow2, Low32;
    Shl28(0x70 + h); Shl28(h);
    AddMultiple(Shl(h, k), 7);
    DisjointBits(acc, h, k);
  }

  /** The 32-bit reader takes the ten-byte form of every negative int32, sign-extended to 64 bits,
      and returns its 32-bit two's complement. */
  lemma Varint32ReadsNegative(w: nat, t: seq<byte>)
    requires 0x8000_0000 <= w < U32
    ensures Varint32(EncVarint(U64 - U32 + w) + t) == Some((w, t))
  {
    var n := U64 - U32 + w;
    var h := w / 128;
    EncVarintStep(n, t);
    SignedRestSum(h);
    assert n / 128 == SignedRest(1, h) && n % 128 == w % 128;
    NegativeFrom7(h, w % 128, 1, t);
  }

  lemma NegativeFrom7(h: nat, acc: nat, k: nat, t: seq<byte>)
    requires k == 1 && acc < 128 && 0x8000_0000 <= acc + 128 * h < U32
    ensures Varint32Loop(EncVarint(SignedRest(1, h)) + t, acc, 7) == Some((acc + 128 * h, t))
  {
    Pow2Shl(7); Shl7(1); Shl7(h);
    var kk := 7 * k;
    assert kk == 7 && acc < Pow2(kk) && Shl(h, kk) == 128 * h;
    SignedRestRead(h, acc, k, t);
  }
}
