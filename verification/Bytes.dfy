/**
 Bytes, machine words and the bit operations of the C code, read as arithmetic on
 natural numbers. `Or` and `Xor` are defined bit by bit; shifts are multiplication
 and division by `Pow2`.
 */
module Bytes {
  datatype Option<+T> = None | Some(value: T)

  type byte = x: int | 0 <= x < 256

  const U32: nat := 0x1_0000_0000
  const U64: nat := 0x1_0000_0000_0000_0000

  /** Conversion to uint8_t. */
  function Low8(x: int): (r: nat)
    ensures r < 0x100 && (0 <= x < 0x100 ==> r == x)
  {
    x % 0x100
  }

  /** Conversion to uint32_t. */
  function Low32(x: int): (r: nat)
    ensures r < U32 && (0 <= x < U32 ==> r == x)
  {
    x % 0x1_0000_0000
  }

  /** Conversion to uint64_t. */
  function Low64(x: int): (r: nat)
    ensures r < U64 && (0 <= x < U64 ==> r == x)
  {
    x % 0x1_0000_0000_0000_0000
  }

  /** The C type `pb_size_t` is 8, 16 or 32 bits wide, a compile-time choice (ios/Pods/nanopb/pb.h:211-221). */
  datatype SizeWidth = Size8 | Size16 | Size32

  /** The build's choice is left open, so every result below holds for all three. */
  const WIDTH: SizeWidth

  /** sizeof(pb_size_t), also the offset of the data in a pb_bytes_array_t. */
  function SizeBytes(): (n: nat)
    ensures 1 <= n <= 4
  {
    match WIDTH
    case Size8 => 1
    case Size16 => 2
    case Size32 => 4
  }

  /** PB_SIZE_MAX */
  function SizeMax(): (n: nat)
    ensures 255 <= n < U32
  {
    match WIDTH
    case Size8 => 0xFF
    case Size16 => 0xFFFF
    case Size32 => 0xFFFF_FFFF
  }

  function Pow2(n: nat): (p: nat)
    ensures p > 0
  {
    if n == 0 then 1 else 2 * Pow2(n - 1)
  }

  /** y << k, unbounded. */
  function Shl(y: nat, k: nat): nat {
    if k == 0 then y else 2 * Shl(y, k - 1)
  }

  function Or(x: nat, y: nat): nat {
    if x == 0 then y else if y == 0 then x else
    2 * Or(x / 2, y / 2) + (if x % 2 == 1 || y % 2 == 1 then 1 else 0)
  }

  function Xor(x: nat, y: nat): nat {
    if x == 0 then y else if y == 0 then x else
    2 * Xor(x / 2, y / 2) + (x + y) % 2
  }

  /** Bit k of x. */
  predicate Bit(x: nat, k: nat) {
    if k == 0 then x % 2 == 1 else Bit(x / 2, k - 1)
  }

  /** On operands with no bit in common both operations are addition. */
  lemma {:induction false} DisjointBits(x: nat, y: nat, k: nat)
    requires x < Pow2(k)
    ensures Or(x, Shl(y, k)) == x + Shl(y, k)
    ensures Xor(x, Shl(y, k)) == x + Shl(y, k)
  {
    if k > 0 && x > 0 {
      DisjointBits(x / 2, y, k - 1);
      EvenStep(x, Shl(y, k - 1));
    }
  }

  lemma EvenStep(x: nat, h: nat)
    requires Or(x / 2, h) == x / 2 + h && Xor(x / 2, h) == x / 2 + h
    ensures Or(x, 2 * h) == x + 2 * h && Xor(x, 2 * h) == x + 2 * h
  {
    var z := 2 * h;
    Parity(x, h, z);
    if x != 0 && z != 0 {
      assert Or(x, z) == 2 * Or(x / 2, z / 2) + (if x % 2 == 1 || z % 2 == 1 then 1 else 0);
      assert Xor(x, z) == 2 * Xor(x / 2, z / 2) + (x + z) % 2;
    }
  }

  lemma Parity(x: nat, h: nat, z: nat)
    requires z == 2 * h
    ensures z / 2 == h && z % 2 == 0 && (x + z) % 2 == x % 2 && x == 2 * (x / 2) + x % 2
  {}

  lemma {:induction false} BitOfZero(k: nat)
    ensures !Bit(0, k)
  {
    if k > 0 { BitOfZero(k - 1); }
  }

  lemma {:induction false} BitOfOr(x: nat, y: nat, k: nat)
    ensures Bit(Or(x, y), k) <==> Bit(x, k) || Bit(y, k)
  {
    BitOfZero(k);
    if x != 0 && y != 0 && k > 0 {
      BitOfOr(x / 2, y / 2, k - 1);
      assert Or(x, y) / 2 == Or(x / 2, y / 2);
    }
  }

  lemma {:induction false} BitOfPow2(j: nat, k: nat)
    ensures Bit(Pow2(j), k) <==> j == k
  {
    if j == 0 {
      if k > 0 { BitOfZero(k - 1); }
    } else if k > 0 {
      assert Pow2(j) / 2 == Pow2(j - 1);
      BitOfPow2(j - 1, k - 1);
    }
  }

  /** Bits 0 .. n-1 of x are set. */
  ghost predicate LowBitsSet(x: nat, n: nat) {
    forall k: nat | k < n :: Bit(x, k)
  }

  /** No bit at or above n is set in x. */
  ghost predicate NoHighBits(x: nat, n: nat) {
    forall k: nat | k >= n :: !Bit(x, k)
  }

  lemma HalfBits(x: nat, n: nat)
    requires n > 0
    ensures LowBitsSet(x, n) <==> x % 2 == 1 && LowBitsSet(x / 2, n - 1)
    ensures NoHighBits(x, n) ==> NoHighBits(x / 2, n - 1)
  {
    assert forall k: nat :: Bit(x / 2, k) <==> Bit(x, k + 1);
    if x % 2 == 1 && LowBitsSet(x / 2, n - 1) {
      forall k: nat | k < n ensures Bit(x, k) {
        if k > 0 { assert Bit(x / 2, k - 1); }
      }
    }
    if LowBitsSet(x, n) { assert Bit(x, 0); }
  }

  /** A number without bits at or above n equals 2^n - 1 exactly when its low n bits are set. */
  lemma {:induction false} AllOnes(x: nat, n: nat)
    requires NoHighBits(x, n)
    ensures x < Pow2(n)
    ensures x == Pow2(n) - 1 <==> LowBitsSet(x, n)
    decreases n
  {
    if n == 0 {
      NoBitsIsZero(x);
    } else {
      HalfBits(x, n);
      AllOnes(x / 2, n - 1);
    }
  }

  lemma {:induction false} NoBitsIsZero(x: nat)
    requires NoHighBits(x, 0)
    ensures x == 0
  {
    if x != 0 {
      assert !Bit(x, 0);
      forall k: nat ensures !Bit(x / 2, k) {
        assert !Bit(x, k + 1);
      }
      NoBitsIsZero(x / 2);
    }
  }

  /** n little-endian bytes of x. */
  function LittleEndian(x: nat, n: nat): (s: seq<byte>)
    ensures |s| == n
  {
    if n == 0 then [] else [x % 256] + LittleEndian(x / 256, n - 1)
  }

  function FromLittleEndian(s: seq<byte>): nat {
    if s == [] then 0 else s[0] + 256 * FromLittleEndian(s[1..])
  }

  function Pow256(n: nat): nat {
    if n == 0 then 1 else 256 * Pow256(n - 1)
  }

  lemma {:induction false} LittleEndianRoundTrip(x: nat, n: nat)
    requires x < Pow256(n)
    ensures FromLittleEndian(LittleEndian(x, n)) == x
  {
    if n > 0 {
      LittleEndianRoundTrip(x / 256, n - 1);
    }
  }

  lemma {:induction false} FromLittleEndianBound(s: seq<byte>)
    ensures FromLittleEndian(s) < Pow256(|s|)
  {
    if s != [] { FromLittleEndianBound(s[1..]); }
  }
}
