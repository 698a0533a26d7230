/**
 Two's complement casts, the widths of integer fields, and the zigzag map.
 A width is a data_size in bytes: 1, 2, 4 or 8.
 */
module Integers {
  import opened Bytes

  predicate IntWidth(w: nat) {
    w == 1 || w == 2 || w == 4 || w == 8
  }

  predicate InSigned(w: nat, n: int) {
    match w
    case 1 => -0x80 <= n < 0x80
    case 2 => -0x8000 <= n < 0x8000
    case 4 => -0x8000_0000 <= n < 0x8000_0000
    case 8 => -0x8000_0000_0000_0000 <= n < 0x8000_0000_0000_0000
    case _ => false
  }

  predicate InUnsigned(w: nat, n: int) {
    match w
    case 1 => 0 <= n < 0x100
    case 2 => 0 <= n < 0x1_0000
    case 4 => 0 <= n < 0x1_0000_0000
    case 8 => 0 <= n < 0x1_0000_0000_0000_0000
    case _ => false
  }

  /** (intN_t) n, for a value n of type int64_t */
  function CastSigned(w: nat, n: int): int
    requires IntWidth(w)
  {
    match w
    case 1 => (n + 0x80) % 0x100 - 0x80
    case 2 => (n + 0x8000) % 0x1_0000 - 0x8000
    case 4 => (n + 0x8000_0000) % 0x1_0000_0000 - 0x8000_0000
    case _ => n
  }

  /** (uintN_t) n, for a value n of type uint64_t */
  function CastUnsigned(w: nat, n: nat): nat
    requires IntWidth(w)
  {
    match w
    case 1 => n % 0x100
    case 2 => n % 0x1_0000
    case 4 => n % 0x1_0000_0000
    case _ => n
  }

  /** Casting to the field and comparing afterwards accepts exactly the values that fit the field. */
  lemma CastKeepsExactlyWhatFits(w: nat, n: int)
    requires IntWidth(w)
    ensures InSigned(8, n) ==> (CastSigned(w, n) == n <==> InSigned(w, n))
    ensures 0 <= n < U64 ==> (CastUnsigned(w, n) == n <==> InUnsigned(w, n))
  {}

  /** (int64_t) u */
  function ToInt64(u: nat): int {
    if u < 0x8000_0000_0000_0000 then u else u - 0x1_0000_0000_0000_0000
  }

  /** (int32_t) u */
  function ToInt32(u: nat): (r: int)
    ensures InSigned(4, r)
  {
    var w := Low32(u);
    if w < 0x8000_0000 then w else w - 0x1_0000_0000
  }

  /** The 64-bit pattern of a signed value reads back as the value, through 64 bits and through 32. */
  lemma SignedRoundTrip(w: nat, n: int)
    requires InSigned(w, n)
    ensures ToInt64(Low64(n)) == n
    ensures w != 8 ==> ToInt32(Low64(n)) == n
  {
    if n < 0 { assert Low64(n) == n + 0x1_0000_0000_0000_0000; }
  }

  /** pb_encode_svarint: the bits of 2n, complemented for negative n. */
  function ZigZag(n: int): nat {
    if n < 0 then 0xFFFF_FFFF_FFFF_FFFF - Low64(2 * n) else Low64(2 * n)
  }

  /** pb_decode_svarint */
  function UnZigZag(u: nat): int
    requires u < U64
  {
    if u % 2 == 1 then ToInt64(0xFFFF_FFFF_FFFF_FFFF - u / 2) else ToInt64(u / 2)
  }

  /** Zigzag is a bijection between int64, its least value included, and uint64. */
  lemma ZigZagRoundTrip(n: int)
    requires InSigned(8, n)
    ensures ZigZag(n) < U64 && UnZigZag(ZigZag(n)) == n
  {
    if n < 0 {
      assert Low64(2 * n) == 2 * n + 0x1_0000_0000_0000_0000;
      assert ZigZag(n) == 2 * (-n - 1) + 1;
    } else {
      assert ZigZag(n) == 2 * n;
    }
  }

  lemma UnZigZagRoundTrip(u: nat)
    requires u < U64
    ensures InSigned(8, UnZigZag(u)) && ZigZag(UnZigZag(u)) == u
  {
    var n := UnZigZag(u);
    if u % 2 == 1 {
      assert n == -(u / 2) - 1;
      assert Low64(2 * n) == 2 * n + 0x1_0000_0000_0000_0000;
    }
  }
}
