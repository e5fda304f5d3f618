/**
 * The header layout constants of src/consts.rs: byte offsets of the six
 * 16-bit header fields, the single-bit flags of the flags word, and the
 * shift and masks of the two 4-bit fields (section 4.1.1 of RFC 1035).
 * Bit 15 is the most significant bit of the flags word.
 */
module Consts {
  const HEADER_LENGTH: nat := 12

  const ID_OFFSET: nat := 0
  const FLAGS_OFFSET: nat := 2
  const QDCOUNT_OFFSET: nat := 4
  const ANCOUNT_OFFSET: nat := 6
  const NSCOUNT_OFFSET: nat := 8
  const ARCOUNT_OFFSET: nat := 10

  const QR: bv16 := 1 << 15
  const AA: bv16 := 1 << 10
  const TC: bv16 := 1 << 9
  const RD: bv16 := 1 << 8
  const RA: bv16 := 1 << 7

  const OPCODE_SHIFT: nat := 11
  const OPCODE_MASK: bv16 := 15 << OPCODE_SHIFT
  const RCODE_MASK: bv16 := 15

  /** `m` has exactly one bit set. */
  predicate SingleBit(m: bv16) {
    m != 0 && m & (m - 1) == 0
  }

  /** The six fields are consecutive two-byte slots that end exactly at the header length. */
  lemma HeaderSlots()
    ensures ID_OFFSET == 0
    ensures FLAGS_OFFSET == ID_OFFSET + 2
    ensures QDCOUNT_OFFSET == FLAGS_OFFSET + 2
    ensures ANCOUNT_OFFSET == QDCOUNT_OFFSET + 2
    ensures NSCOUNT_OFFSET == ANCOUNT_OFFSET + 2
    ensures ARCOUNT_OFFSET == NSCOUNT_OFFSET + 2
    ensures ARCOUNT_OFFSET + 2 == HEADER_LENGTH
  {
  }

  /** QR, AA, TC, RD and RA are single, distinct bits at positions 15, 10, 9, 8 and 7. */
  lemma FlagBits()
    ensures SingleBit(QR) && SingleBit(AA) && SingleBit(TC) && SingleBit(RD) && SingleBit(RA)
    ensures QR == 0x8000 && AA == 0x0400 && TC == 0x0200 && RD == 0x0100 && RA == 0x0080
  {
  }

  /** The opcode occupies bits 11 to 14 and the rcode bits 0 to 3; both masks hold a 4-bit value. */
  lemma FieldMasks()
    ensures OPCODE_MASK == 0x7800 && OPCODE_MASK >> OPCODE_SHIFT == 15
    ensures RCODE_MASK == 0x000F
    ensures forall f: bv16 {:trigger f & OPCODE_MASK} :: (f & OPCODE_MASK) >> OPCODE_SHIFT <= 15
    ensures forall f: bv16 {:trigger f & RCODE_MASK} :: f & RCODE_MASK <= 15
  {
  }

  /**
   * The seven masks are pairwise disjoint, and together they cover every bit
   * of the flags word except bits 4 to 6, the reserved Z field.
   */
  lemma MasksDisjoint()
    ensures QR & AA == 0 && QR & TC == 0 && QR & RD == 0 && QR & RA == 0
    ensures QR & OPCODE_MASK == 0 && QR & RCODE_MASK == 0
    ensures AA & TC == 0 && AA & RD == 0 && AA & RA == 0
    ensures AA & OPCODE_MASK == 0 && AA & RCODE_MASK == 0
    ensures TC & RD == 0 && TC & RA == 0 && TC & OPCODE_MASK == 0 && TC & RCODE_MASK == 0
    ensures RD & RA == 0 && RD & OPCODE_MASK == 0 && RD & RCODE_MASK == 0
    ensures RA & OPCODE_MASK == 0 && RA & RCODE_MASK == 0
    ensures OPCODE_MASK & RCODE_MASK == 0
    ensures !(QR | AA | TC | RD | RA | OPCODE_MASK | RCODE_MASK) == 0x0070
  {
  }
}
