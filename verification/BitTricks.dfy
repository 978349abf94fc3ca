/** What the mask-and-xor expressions of the ALU handlers compute. */
module BitTricks {
  import opened Isa
  import opened Bits
  import opened Machine
  import WordFormat

  lemma SignBit(x: Word)
    ensures And(x, 0x8000) != 0 <==> Negative(x)
  {
    hide And, Bit, Pow2;
    Pow2Values();
    AndOneBit(x, 15);
    BitIsQuotient(x, 15);
  }

  lemma Low16(x: nat)
    ensures And(x, 0xFFFF) == x % 0x10000
  {
    hide And, Pow2;
    Pow2Values();
    AndLowMask(x, 16);
  }

  lemma XorSign(x: Word, y: Word)
    ensures Bit(Xor(x, y), 15) <==> Negative(x) != Negative(y)
  {
    hide Xor, Bit, Pow2;
    Pow2Values();
    BitOfXor(x, y, 15);
    BitIsQuotient(x, 15);
    BitIsQuotient(y, 15);
  }

  lemma SignOfXor(x: Word, y: Word)
    ensures And(Xor(x, y), 0x8000) != 0 <==> Negative(x) != Negative(y)
  {
    hide And, Xor, Bit, Pow2;
    Pow2Values();
    XorSign(x, y);
    AndOneBit(Xor(x, y), 15);
  }

  /** `(a ^ b) & (c ^ d) & 0x8000`: both pairs differ in sign. */
  lemma BothSignsDiffer(a: Word, b: Word, c: Word, d: Word)
    ensures And(And(Xor(a, b), Xor(c, d)), 0x8000) != 0
       <==> Negative(a) != Negative(b) && Negative(c) != Negative(d)
  {
    hide And, Xor, Bit, Pow2;
    Pow2Values();
    XorSign(a, b);
    XorSign(c, d);
    BitOfAnd(Xor(a, b), Xor(c, d), 15);
    AndOneBit(And(Xor(a, b), Xor(c, d)), 15);
  }

  /** Equal signs with a result of another sign is exactly signed overflow. */
  lemma AddOverflow(dst: Word, src: Word)
    ensures And(And(Xor(dst, (dst + src) % 0x10000), Xor(src, (dst + src) % 0x10000)), 0x8000) != 0
       <==> !(-0x8000 <= Signed(dst) + Signed(src) < 0x8000)
  {
    hide And, Xor;
    BothSignsDiffer(dst, (dst + src) % 0x10000, src, (dst + src) % 0x10000);
  }

  lemma SubOverflow(dst: Word, src: Word)
    ensures And(And(Xor(dst, src), Xor(dst, (dst - src) % 0x10000)), 0x8000) != 0
       <==> !(-0x8000 <= Signed(dst) - Signed(src) < 0x8000)
  {
    hide And, Xor;
    BothSignsDiffer(dst, src, dst, (dst - src) % 0x10000);
  }

  /** The masks of SUB and CMP on the difference as a uint32_t. */
  lemma DifferenceTricks(dst: Word, src: Word, f: Word)
    ensures var result := ((dst as int) - src) % 0x1_0000_0000;
            var low := result % 0x10000;
            Difference(dst, src, f)
              == Outcome(low, SetZNCO(f, And(result, 0xFFFF) == 0, And(low, 0x8000) != 0, dst < src,
                                      And(And(Xor(dst, src), Xor(dst, low)), 0x8000) != 0))
  {
    hide And, Xor, SetZNCO;
    var result := ((dst as int) - src) % 0x1_0000_0000;
    assert result % 0x10000 == (dst - src) % 0x10000;
    Low16(result);
    SignBit(result % 0x10000);
    SubOverflow(dst, src);
  }

  lemma SumTricks(dst: Word, src: Word, f: Word)
    ensures var result := (dst as int) + src;
            var low := result % 0x10000;
            Alu(ADD, dst, src, f)
              == Outcome(low, SetZNCO(f, And(result, 0xFFFF) == 0, And(low, 0x8000) != 0, result > 0xFFFF,
                                      And(And(Xor(dst, low), Xor(src, low)), 0x8000) != 0))
  {
    hide And, Xor, SetZNCO;
    var result := (dst as int) + src;
    Low16(result);
    SignBit(result % 0x10000);
    AddOverflow(dst, src);
  }

  lemma ProductTricks(product: nat, f: Word)
    ensures var low := product % 0x10000;
            Truncated(product, f)
              == Outcome(low, SetZNCO(f, And(product, 0xFFFF) == 0, And(low, 0x8000) != 0,
                                      product > 0xFFFF, product > 0xFFFF))
  {
    hide And, SetZNCO;
    Low16(product);
    SignBit(product % 0x10000);
  }

  lemma ShiftLeftTricks(dst: Word, k: nat, f: Word)
    requires 0 < k < 16
    ensures var r := And(Shl(dst, k), 0xFFFF);
            && r < 0x10000
            && ShiftLeft(dst, k, f)
                 == Outcome(r, SetZNCO(f, And(r, 0xFFFF) == 0, And(r, 0x8000) != 0,
                                       And(Shr(dst, 16 - k), 1) != 0,
                                       k == 1 && And(Xor(dst, r), 0x8000) != 0))
  {
    hide And, Xor, Shr, Pow2, SetZNCO;
    Low16(Shl(dst, k));
    var r: Word := And(Shl(dst, k), 0xFFFF);
    Low16(r);
    SignBit(r);
    ShiftCarry(dst, k);
    SignOfXor(dst, r);
  }

  lemma ShiftRightTricks(dst: Word, k: nat, f: Word)
    requires k < 16
    ensures var r := Shr(dst, k);
            ShiftRight(dst, k, f)
              == Outcome(r, SetZNC(f, And(r, 0xFFFF) == 0, And(r, 0x8000) != 0,
                                   k != 0 && And(Shr(dst, k - 1), 1) != 0))
  {
    hide And, Shr, SetZNC;
    var r := Shr(dst, k);
    Low16(r);
    SignBit(r);
    if k > 0 { WordFormat.MaskValues(Shr(dst, k - 1)); }
  }

  /** Quotient and remainder of two words are words; DIV and MOD produce them. */
  lemma DivisionOutcome(x: Word, y: Word, f: Word)
    requires y > 0
    ensures 0 <= x / y < 0x10000 && 0 <= x % y < 0x10000
    ensures Alu(DIV, x, y, f) == Outcome(x / y, SetZN(f, x / y == 0, Negative(x / y)))
    ensures Alu(MOD, x, y, f) == Outcome(x % y, SetZN(f, x % y == 0, Negative(x % y)))
  {
    EuclidBound(x, y, x / y, x % y);
  }

  /** Bit 16-k of the operand is the bit that a shift left by k carries out. */
  lemma ShiftCarry(dst: Word, k: nat)
    requires 0 < k < 16
    ensures And(Shr(dst, 16 - k), 1) == dst * Pow2(k) / 0x10000 % 2
  {
    hide And, Shr, Pow2;
    Pow2Values();
    ShrIsQuotient(dst, 16 - k);
    WordFormat.MaskValues(Shr(dst, 16 - k));
    Pow2Add(k, 16 - k);
    CancelFactor(dst, Pow2(k), Pow2(16 - k));
  }
}
