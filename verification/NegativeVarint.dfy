/**
 Builds without 64-bit integers: pb_encode_negative_varint writes a negative int32 as the ten-byte
 varint of its 64-bit sign extension, with 32-bit arithmetic only. The ones of the upper half are
 slid in at the top of the word as septets leave at the bottom.
 */
module NegativeVarint {
  import opened Bytes
  import opened Varint
  import opened OutputStream

  /** Ones of the upper half still to come after i septets. */
  function Compensation(i: nat): nat {
    if i < 5 then 32 - 7 * i else 0
  }

  /** 2^Compensation(i) - 1 */
  function UpperHalf(i: nat): nat {
    match i
    case 0 => 0xFFFF_FFFF
    case 1 => 0x1FF_FFFF
    case 2 => 0x3_FFFF
    case 3 => 0x7FF
    case 4 => 0xF
    case _ => 0
  }

  /** The window after i septets: never empty before the tenth, empty after it. */
  ghost predicate WindowOk(i: nat, v: nat) {
    match i
    case 0 => 0x8000_0000 <= v < 0x1_0000_0000
    case 1 => 0xFF00_0000 <= v < 0x1_0000_0000
    case 2 => 0xFFFE_0000 <= v < 0x1_0000_0000
    case 3 => 0xFFFF_FC00 <= v < 0x1_0000_0000
    case 4 => 0xFFFF_FFF8 <= v < 0x1_0000_0000
    case 5 => v == 0x1FFF_FFFF
    case 6 => v == 0x3F_FFFF
    case 7 => v == 0x7FFF
    case 8 => v == 0xFF
    case 9 => v == 1
    case _ => v == 0
  }

  /** The 64-bit value whose low half the window shows after i septets. */
  ghost function Whole(i: nat, v: nat): nat {
    v + 0x1_0000_0000 * UpperHalf(i)
  }

  lemma WindowNonZero(i: nat, v: nat)
    requires WindowOk(i, v) && v != 0
    ensures i < 10
  {}

  lemma WindowZero(i: nat, v: nat)
    requires WindowOk(i, v) && v == 0
    ensures i >= 10 && Whole(i, v) == 0
  {}

  /** The mask that sets `bits` ones below the top of the shifted window. */
  lemma Mask(bits: nat)
    requires bits == 7 || bits == 4
    ensures 0xFF / Pow2(8 - bits) == if bits == 7 then 0x7F else 0xF
  {
    assert Pow2(1) == 2;
    assert Pow2(2) == 4 && Pow2(4) == 4 * Pow2(2);
  }

  lemma Shl25(x: nat)
    ensures Shl(x, 25) == 0x200_0000 * x
  {
    ShlShl(x, 7, 18); ShlShl(Shl(x, 7), 7, 11); ShlShl(Shl(Shl(x, 7), 7), 7, 4);
    Shl7(x); Shl7(Shl(x, 7)); Shl7(Shl(Shl(x, 7), 7)); Shl4(Shl(Shl(Shl(x, 7), 7), 7));
  }

  /** Shifting and setting the mask bits. */
  lemma XorMask(v: nat, bits: nat)
    requires v < 0x200_0000 && (bits == 7 || bits == 4)
    ensures Xor(v, Shl(0xFF / Pow2(8 - bits), 25)) == v + (if bits == 7 then 0xFE00_0000 else 0x1E00_0000)
  {
    hide Xor, Shl, Pow2;
    Mask(bits);
    Pow2Shl(25); Shl25(1);
    var ones := 0xFF / Pow2(8 - bits);
    Shl25(ones);
    DisjointBits(v, ones, 25);
  }

  /** One step of the window is one septet of the whole value. */
  lemma Slide(i: nat, v: nat, next: nat)
    requires i < 10 && WindowOk(i, v)
    requires next == v / 128 + (if i < 4 then 0xFE00_0000 else if i == 4 then 0x1E00_0000 else 0)
    ensures WindowOk(i + 1, next)
    ensures Whole(i, v) > 0 && Whole(i, v) % 128 == v % 128 && Whole(i, v) / 128 == Whole(i + 1, next)
  {
    SlideWhole(v, UpperHalf(i));
  }

  lemma SlideWhole(v: nat, upper: nat)
    ensures (v + 0x1_0000_0000 * upper) % 128 == v % 128
    ensures (v + 0x1_0000_0000 * upper) / 128 == v / 128 + 0x200_0000 * upper
  {
    DivMod128(v / 128 + 0x200_0000 * upper, v % 128);
  }

  lemma DivMod128(q: nat, r: nat)
    requires r < 128
    ensures (128 * q + r) / 128 == q && (128 * q + r) % 128 == r
  {}

  /** pb_encode_negative_varint: the ten bytes pb_encode_varint writes for the sign extension. */
  method WriteNegativeVarint(st: OStream, value: nat) returns (ok: bool)
    requires st.Valid() && 0x8000_0000 <= value < U32
    modifies st.Frame()
    ensures |EncVarint(U64 - U32 + value)| == 10
    ensures st.Valid() && Emits(old(st.Now()), st.Now(), ok, Some(EncVarint(U64 - U32 + value)))
  {
    hide Emits, EncVarint;
    var buffer := new byte[10];
    var i := FillNegative(buffer, value);
    ok := st.Write(buffer[..i]);
  }

  /** The loop: it stops after exactly ten bytes. */
  method FillNegative(buffer: array<byte>, value: nat) returns (i: nat)
    requires buffer.Length == 10 && 0x8000_0000 <= value < U32
    modifies buffer
    ensures i == 10 && buffer[..i] == EncVarint(U64 - U32 + value)
  {
    hide EncVarint, Xor, Shl, Pow2, WindowOk, UpperHalf, Whole;
    i := 0;
    var v := value;
    var compensation := 32;
    ghost var whole := U64 - U32 + value;
    FirstWindow(value);
    while v != 0
      invariant i <= 10 && WindowOk(i, v) && compensation == Compensation(i)
      invariant Whole(i, v) != 0 ==> EncVarint(whole) == buffer[..i] + EncVarint(Whole(i, v))
      invariant Whole(i, v) == 0 ==> i > 0 && EncVarint(whole) == buffer[..i - 1] + [buffer[i - 1] % 128]
      decreases 10 - i
    {
      WindowNonZero(i, v);
      ghost var before, digits := v, buffer[..i];
      buffer[i] := v % 128 + 128;
      assert buffer[..i] == digits;
      v := v / 128;
      ShiftedWindow(i, before);
      if compensation != 0 {
        var bits := if compensation > 7 then 7 else compensation;
        XorMask(v, bits);
        v := Xor(v, Shl(0xFF / Pow2(8 - bits), 25));
        compensation := compensation - bits;
      }
      Slide(i, before, v);
      VarintStep(Whole(i, before));
      i := i + 1;
    }
    WindowZero(i, v);
    buffer[i - 1] := buffer[i - 1] % 128;
  }

  lemma FirstWindow(value: nat)
    requires 0x8000_0000 <= value < U32
    ensures WindowOk(0, value) && Whole(0, value) == U64 - U32 + value
  {}

  lemma ShiftedWindow(i: nat, v: nat)
    requires WindowOk(i, v)
    ensures v / 128 < 0x200_0000
  {}
}
