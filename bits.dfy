/**
 * Bytes as Go's `byte`, the masks net.CIDRMask builds from them, and the fact
 * that two bytes agree under a mask that keeps their top m bits exactly when
 * they agree bit by bit on those m bits.
 */
module Bits {

  type byte = bv8

  /** The mask byte that keeps the top `k` bits of a byte. */
  function MaskByte(k: nat): byte
    requires k <= 8
  {
    match k
    case 0 => 0x00 case 1 => 0x80 case 2 => 0xc0 case 3 => 0xe0 case 4 => 0xf0
    case 5 => 0xf8 case 6 => 0xfc case 7 => 0xfe case _ => 0xff
  }

  /** MaskByte is the byte net.CIDRMask computes, ^byte(0xff >> k). */
  lemma MaskByteIsComplementedShift(k: nat)
    requires k <= 8
    ensures MaskByte(k) == !((0xff as byte) >> k)
  {
    if k == 0 { assert !((0xff as byte) >> 0) == 0x00; }
    else if k == 1 { assert !((0xff as byte) >> 1) == 0x80; }
    else if k == 2 { assert !((0xff as byte) >> 2) == 0xc0; }
    else if k == 3 { assert !((0xff as byte) >> 3) == 0xe0; }
    else if k == 4 { assert !((0xff as byte) >> 4) == 0xf0; }
    else if k == 5 { assert !((0xff as byte) >> 5) == 0xf8; }
    else if k == 6 { assert !((0xff as byte) >> 6) == 0xfc; }
    else if k == 7 { assert !((0xff as byte) >> 7) == 0xfe; }
    else { assert !((0xff as byte) >> 8) == 0xff; }
  }

  /** The byte with only bit j set, counting from the most significant bit (j = 0). */
  function BitMask(j: nat): byte
    requires j < 8
  {
    match j
    case 0 => 0x80 case 1 => 0x40 case 2 => 0x20 case 3 => 0x10
    case 4 => 0x08 case 5 => 0x04 case 6 => 0x02 case _ => 0x01
  }

  /** x and y are equal on the bits that `mask` keeps. */
  predicate AgreeUnder(x: byte, y: byte, mask: byte) {
    x & mask == y & mask
  }

  /** Bit j of a byte, counting from the most significant bit (j = 0). */
  predicate ByteBit(x: byte, j: nat)
    requires j < 8
  {
    x & BitMask(j) != 0
  }

  /** MaskByte(c) has exactly its top c bits set. */
  lemma MaskByteBit(c: nat, j: nat)
    requires c <= 8 && j < 8
    ensures ByteBit(MaskByte(c), j) <==> j < c
  {
    match j
    case 0 => case 1 => case 2 => case 3 => case 4 => case 5 => case 6 => case _ =>
  }

  /** MaskByte(m + 1) is MaskByte(m) with bit m added, and BitMask(m) is a single bit. */
  lemma MaskByteGrowsByBit(m: nat)
    requires m < 8
    ensures MaskByte(m + 1) == MaskByte(m) | BitMask(m) && MaskByte(m) & BitMask(m) == 0
    ensures BitMask(m) != 0 && BitMask(m) & (BitMask(m) - 1) == 0
  {
    match m
    case 0 => case 1 => case 2 => case 3 => case 4 => case 5 => case 6 => case _ =>
  }

  /** Agreement under a single-bit mask is agreement on that bit. */
  lemma AgreeUnderSingleBit(x: byte, y: byte, b: byte)
    requires b != 0 && b & (b - 1) == 0
    ensures AgreeUnder(x, y, b) <==> ((x & b != 0) == (y & b != 0))
  {
  }

  lemma AgreeOnBit(x: byte, y: byte, j: nat)
    requires j < 8
    ensures AgreeUnder(x, y, BitMask(j)) <==> ByteBit(x, j) == ByteBit(y, j)
  {
    MaskByteGrowsByBit(j);
    AgreeUnderSingleBit(x, y, BitMask(j));
  }

  /** Widening MaskByte(m) by one bit adds bit m to the comparison. */
  lemma MaskedByteStep(x: byte, y: byte, m: nat)
    requires m < 8
    ensures AgreeUnder(x, y, MaskByte(m + 1)) <==> AgreeUnder(x, y, MaskByte(m)) && AgreeUnder(x, y, BitMask(m))
  {
    match m
    case 0 => WidenMask0(x, y);
    case 1 => WidenMask1(x, y);
    case 2 => WidenMask2(x, y);
    case 3 => WidenMask3(x, y);
    case 4 => WidenMask4(x, y);
    case 5 => WidenMask5(x, y);
    case 6 => WidenMask6(x, y);
    case _ => WidenMask7(x, y);
  }

  // One widening step per mask width, on concrete masks.
  lemma WidenMask0(x: byte, y: byte)
    ensures AgreeUnder(x, y, 0x80) <==> AgreeUnder(x, y, 0x00) && AgreeUnder(x, y, 0x80)
  {
  }

  lemma WidenMask1(x: byte, y: byte)
    ensures AgreeUnder(x, y, 0xc0) <==> AgreeUnder(x, y, 0x80) && AgreeUnder(x, y, 0x40)
  {
  }

  lemma WidenMask2(x: byte, y: byte)
    ensures AgreeUnder(x, y, 0xe0) <==> AgreeUnder(x, y, 0xc0) && AgreeUnder(x, y, 0x20)
  {
  }

  lemma WidenMask3(x: byte, y: byte)
    ensures AgreeUnder(x, y, 0xf0) <==> AgreeUnder(x, y, 0xe0) && AgreeUnder(x, y, 0x10)
  {
  }

  lemma WidenMask4(x: byte, y: byte)
    ensures AgreeUnder(x, y, 0xf8) <==> AgreeUnder(x, y, 0xf0) && AgreeUnder(x, y, 0x08)
  {
  }

  lemma WidenMask5(x: byte, y: byte)
    ensures AgreeUnder(x, y, 0xfc) <==> AgreeUnder(x, y, 0xf8) && AgreeUnder(x, y, 0x04)
  {
  }

  lemma WidenMask6(x: byte, y: byte)
    ensures AgreeUnder(x, y, 0xfe) <==> AgreeUnder(x, y, 0xfc) && AgreeUnder(x, y, 0x02)
  {
  }

  lemma WidenMask7(x: byte, y: byte)
    ensures AgreeUnder(x, y, 0xff) <==> AgreeUnder(x, y, 0xfe) && AgreeUnder(x, y, 0x01)
  {
  }

  /** Two bytes agree under MaskByte(m) iff they agree on their top m bits. */
  lemma {:induction false} MaskedByteIff(x: byte, y: byte, m: nat)
    requires m <= 8
    ensures AgreeUnder(x, y, MaskByte(m)) <==> (forall j :: 0 <= j < m ==> ByteBit(x, j) == ByteBit(y, j))
  {
    if m == 0 {
      assert MaskByte(0) == 0;
    } else {
      MaskedByteIff(x, y, m - 1);
      MaskedByteStep(x, y, m - 1);
      AgreeOnBit(x, y, m - 1);
    }
  }

  /** A byte's numeric value determines the byte. */
  lemma ByteValueInjective(x: byte, y: byte)
    requires x as nat == y as nat
    ensures x == y
  {
  }
}
