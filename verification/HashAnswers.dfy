/** The hashes of short keys, worked out step by step: they fix the constants, the rotations,
    the shifts, the sign extension and the numbering of the algorithms. */
module HashAnswers {
  import opened Words
  import opened Folds
  import opened KeyHashes

  // ----- exclusive or, hexadecimal digit by digit -----

  type Digit = x: int | 0 <= x < 0x10

  function XorBit(x: nat, y: nat): nat {
    if x % 2 == y % 2 then 0 else 1
  }

  function XorDigit(x: Digit, y: Digit): int {
    ((x as bv4) ^ (y as bv4)) as int
  }

  lemma DigitBits(x: Digit, y: Digit)
    ensures XorDigit(x, y)
            == 8 * XorBit(x / 8, y / 8) + 4 * XorBit(x / 4 % 2, y / 4 % 2) + 2 * XorBit(x / 2 % 2, y / 2 % 2)
               + XorBit(x % 2, y % 2)
    ensures 0 <= XorDigit(x, y) < 0x10
  {
  }

  lemma XorHalve(a: nat, b: nat, x: nat, y: nat)
    requires x < 2 && y < 2
    ensures Xor(2 * a + x, 2 * b + y) == 2 * Xor(a, b) + XorBit(x, y)
  {
    XorStep(2 * a + x, 2 * b + y);
    hide Xor;
    assert (2 * a + x) / 2 == a && (2 * a + x) % 2 == x;
    assert (2 * b + y) / 2 == b && (2 * b + y) % 2 == y;
  }

  lemma XorFourBits(a: nat, b: nat, x3: nat, x2: nat, x1: nat, x0: nat, y3: nat, y2: nat, y1: nat, y0: nat)
    requires x3 < 2 && x2 < 2 && x1 < 2 && x0 < 2 && y3 < 2 && y2 < 2 && y1 < 2 && y0 < 2
    ensures Xor(0x10 * a + 8 * x3 + 4 * x2 + 2 * x1 + x0, 0x10 * b + 8 * y3 + 4 * y2 + 2 * y1 + y0)
            == 0x10 * Xor(a, b) + 8 * XorBit(x3, y3) + 4 * XorBit(x2, y2) + 2 * XorBit(x1, y1) + XorBit(x0, y0)
  {
    hide Xor, XorBit;
    XorHalve(a, b, x3, y3);
    XorHalve(2 * a + x3, 2 * b + y3, x2, y2);
    XorHalve(4 * a + 2 * x3 + x2, 4 * b + 2 * y3 + y2, x1, y1);
    XorHalve(8 * a + 4 * x3 + 2 * x2 + x1, 8 * b + 4 * y3 + 2 * y2 + y1, x0, y0);
  }

  lemma BitsOf(x: Digit)
    ensures x == 8 * (x / 8) + 4 * (x / 4 % 2) + 2 * (x / 2 % 2) + x % 2 && x / 8 < 2
  {
  }

  lemma XorAppend(a: nat, b: nat, x: Digit, y: Digit)
    ensures Xor(0x10 * a + x, 0x10 * b + y) == 0x10 * Xor(a, b) + XorDigit(x, y)
  {
    hide Xor, XorBit, XorDigit;
    BitsOf(x);
    BitsOf(y);
    DigitBits(x, y);
    XorFourBits(a, b, x / 8, x / 4 % 2, x / 2 % 2, x % 2, y / 8, y / 4 % 2, y / 2 % 2, y % 2);
  }

  lemma FourDigits(a: nat, b: nat, v3: Digit, v2: Digit, v1: Digit, v0: Digit,
                   w3: Digit, w2: Digit, w1: Digit, w0: Digit)
    ensures Xor(0x1_0000 * a + 0x1000 * v3 + 0x100 * v2 + 0x10 * v1 + v0,
                0x1_0000 * b + 0x1000 * w3 + 0x100 * w2 + 0x10 * w1 + w0)
            == 0x1_0000 * Xor(a, b) + 0x1000 * XorDigit(v3, w3) + 0x100 * XorDigit(v2, w2)
               + 0x10 * XorDigit(v1, w1) + XorDigit(v0, w0)
  {
    hide Xor, XorDigit;
    var a1, b1 := 0x10 * a + v3, 0x10 * b + w3;
    var a2, b2 := 0x10 * a1 + v2, 0x10 * b1 + w2;
    var a3, b3 := 0x10 * a2 + v1, 0x10 * b2 + w1;
    XorAppend(a, b, v3, w3);
    XorAppend(a1, b1, v2, w2);
    XorAppend(a2, b2, v1, w1);
    XorAppend(a3, b3, v0, w0);
  }

  /** Words written in eight hexadecimal digits are joined digit by digit. */
  lemma XorWords(a: uint32, b: uint32, c: uint32,
                 a7: Digit, a6: Digit, a5: Digit, a4: Digit, a3: Digit, a2: Digit, a1: Digit, a0: Digit,
                 b7: Digit, b6: Digit, b5: Digit, b4: Digit, b3: Digit, b2: Digit, b1: Digit, b0: Digit)
    requires a == 0x1000_0000 * a7 + 0x100_0000 * a6 + 0x10_0000 * a5 + 0x1_0000 * a4
                  + 0x1000 * a3 + 0x100 * a2 + 0x10 * a1 + a0
    requires b == 0x1000_0000 * b7 + 0x100_0000 * b6 + 0x10_0000 * b5 + 0x1_0000 * b4
                  + 0x1000 * b3 + 0x100 * b2 + 0x10 * b1 + b0
    requires c == 0x1000_0000 * XorDigit(a7, b7) + 0x100_0000 * XorDigit(a6, b6) + 0x10_0000 * XorDigit(a5, b5)
                  + 0x1_0000 * XorDigit(a4, b4) + 0x1000 * XorDigit(a3, b3) + 0x100 * XorDigit(a2, b2)
                  + 0x10 * XorDigit(a1, b1) + XorDigit(a0, b0)
    ensures Xor(a, b) == c
  {
    hide Xor, XorDigit;
    FourDigits(0, 0, a7, a6, a5, a4, b7, b6, b5, b4);
    FourDigits(0x1000 * a7 + 0x100 * a6 + 0x10 * a5 + a4, 0x1000 * b7 + 0x100 * b6 + 0x10 * b5 + b4,
               a3, a2, a1, a0, b3, b2, b1, b0);
    XorZero(0);
  }

  lemma FoldTwo<S, B>(step: (S, B) -> S, s: S, a: B, b: B)
    ensures Fold(step, s, []) == s
    ensures Fold(step, s, [a]) == step(s, a)
    ensures Fold(step, s, [a, b]) == step(step(s, a), b)
  {
    assert [a][..0] == [] && [a, b][..1] == [a];
  }

  lemma TimesIs(x: uint32, y: uint32, high: nat, low: uint32)
    requires x * y == high * TWO_32 + low
    ensures Times32(x, y) == low
  {
    DivModUnique(x * y, TWO_32, high, low);
  }

  // ----- FNV -----

  lemma Fnv1aStep(hash: uint32, b: byte, x: uint32, next: uint32)
    requires x == Xor(hash, if b < 0x80 then b as int else b as int + 0xFFFF_FF00)
    requires next == Times32(x, 0x8422_2325)
    ensures Fnv1aNarrow(hash, b) == next
  {
    hide Xor, Times32;
  }

  lemma Fnv1Step(hash: uint32, b: byte, x: uint32, next: uint32)
    requires x == Times32(hash, 0x8422_2325)
    requires next == Xor(x, if b < 0x80 then b as int else b as int + 0xFFFF_FF00)
    ensures Fnv1Narrow(hash, b) == next
  {
    hide Xor, Times32;
  }

  lemma FnvXors()
    ensures Xor(0x1b3, 0x61) == 0x1d2 && Xor(0x8623_f95a, 0xFFFF_FF80) == 0x79dc_06da
  {
    hide Xor;
    XorWords(0x1b3, 0x61, 0x1d2,
             0, 0, 0, 0, 0, 1, 0xb, 3,
             0, 0, 0, 0, 0, 0, 6, 1);
    XorWords(0x8623_f95a, 0xffff_ff80, 0x79dc_06da,
             8, 6, 2, 3, 0xf, 9, 5, 0xa,
             0xf, 0xf, 0xf, 0xf, 0xf, 0xf, 8, 0);
  }

  lemma MoreFnvXors()
    ensures Xor(0x8601_b7df, 0x61) == 0x8601_b7be && Xor(0xf99a_8876, 0xFFFF_FF80) == 0x665_77f6
  {
    hide Xor;
    XorWords(0x8601_b7df, 0x61, 0x8601_b7be,
             8, 6, 0, 1, 0xb, 7, 0xd, 0xf,
             0, 0, 0, 0, 0, 0, 6, 1);
    XorWords(0xf99a_8876, 0xffff_ff80, 0x665_77f6,
             0xf, 9, 9, 0xa, 8, 8, 7, 6,
             0xf, 0xf, 0xf, 0xf, 0xf, 0xf, 8, 0);
  }

  lemma FnvSteps()
    ensures Fnv1aNarrow(0x1b3, 0x61) == 0x8623_f95a && Fnv1aNarrow(0x8623_f95a, 0x80) == 0x2b0_cb82
    ensures Fnv1Narrow(0x1b3, 0x61) == 0x8601_b7be && Fnv1Narrow(0x8601_b7be, 0x80) == 0x665_77f6
  {
    hide Xor, Fnv1aNarrow, Fnv1Narrow, Times32;
    FnvXors();
    MoreFnvXors();
    TimesIs(0x1d2, 0x8422_2325, 0xf0, 0x8623_f95a);
    TimesIs(0x79dc_06da, 0x8422_2325, 0x3ee5_b37c, 0x2b0_cb82);
    TimesIs(0x1b3, 0x8422_2325, 0xe0, 0x8601_b7df);
    TimesIs(0x8601_b7be, 0x8422_2325, 0x452a_c15d, 0xf99a_8876);
    Fnv1aStep(0x1b3, 0x61, 0x1d2, 0x8623_f95a);
    Fnv1aStep(0x8623_f95a, 0x80, 0x79dc_06da, 0x2b0_cb82);
    Fnv1Step(0x1b3, 0x61, 0x8601_b7df, 0x8601_b7be);
    Fnv1Step(0x8601_b7be, 0x80, 0xf99a_8876, 0x665_77f6);
  }

  /** FNV-1a of the empty key, of one byte, and with a byte that its sign extends. */
  lemma Fnv1aAnswers()
    ensures Fnv1a([]) == 0x1b3
    ensures Fnv1a([0x61]) == 0x8623_f95a
    ensures Fnv1a([0x61, 0x80]) == 0x2b0_cb82
  {
    hide Fold, Fnv1aNarrow, Fnv1Narrow;
    FoldTwo(Fnv1aNarrow, Low32(FNV_64_INIT), 0x61, 0x80);
    FnvSteps();
  }

  /** FNV-1, likewise. */
  lemma Fnv1Answers()
    ensures Fnv1([]) == 0x1b3
    ensures Fnv1([0x61]) == 0x8601_b7be
    ensures Fnv1([0x61, 0x80]) == 0x665_77f6
  {
    hide Fold, Fnv1aNarrow, Fnv1Narrow, Fnv1;
    NarrowRefinesWide([]);
    NarrowRefinesWide([0x61]);
    NarrowRefinesWide([0x61, 0x80]);
    FoldTwo(Fnv1Narrow, Low32(FNV_64_INIT), 0x61, 0x80);
    FnvSteps();
  }

  // ----- MurmurHash3 -----

  lemma Rot15Is(x: uint32, high: nat, low: nat, r: uint32)
    requires x == high * 0x2_0000 + low && low < 0x2_0000 && r == low * 0x8000 + high
    ensures Rot15(x) == r
  {
    DivModUnique(x, 0x2_0000, high, low);
    DivModUnique(x * 0x8000, TWO_32, high, low * 0x8000);
  }

  lemma Rot13Is(x: uint32, high: nat, low: nat, r: uint32)
    requires x == high * 0x8_0000 + low && low < 0x8_0000 && r == low * 0x2000 + high
    ensures Rot13(x) == r
  {
    DivModUnique(x, 0x8_0000, high, low);
    DivModUnique(x * 0x2000, TWO_32, high, low * 0x2000);
  }

  lemma ScrambleAnswers()
    ensures Scramble(0x8765_4321) == 0x5082_edee && Scramble(0x61) == 0x504b_a9d5
  {
    hide Times32, Rot15;
    TimesIs(0x8765_4321, 0xcc9e_2d51, 0x6c38_59f5, 0x5e35_0a71);
    Rot15Is(0x5e35_0a71, 0x2f1a, 0x1_0a71, 0x8538_af1a);
    TimesIs(0x8538_af1a, 0x1b87_3593, 0xe53_573d, 0x5082_edee);
    TimesIs(0x61, 0xcc9e_2d51, 0x4d, 0x87ef_2bb1);
    Rot15Is(0x87ef_2bb1, 0x43f7, 0x1_2bb1, 0x95d8_c3f7);
    TimesIs(0x95d8_c3f7, 0x1b87_3593, 0x101d_0156, 0x504b_a9d5);
  }

  lemma MurmurXors()
    ensures Xor(0x1b3, 0x5082_edee) == 0x5082_ec5d
    ensures Xor(0xba0e_bdb4, 0x504b_a9d5) == 0xea45_1461 && Xor(0xea45_1461, 5) == 0xea45_1464
  {
    hide Xor;
    XorWords(0x1b3, 0x5082_edee, 0x5082_ec5d,
             0, 0, 0, 0, 0, 1, 0xb, 3,
             5, 0, 8, 2, 0xe, 0xd, 0xe, 0xe);
    XorWords(0xba0e_bdb4, 0x504b_a9d5, 0xea45_1461,
             0xb, 0xa, 0, 0xe, 0xb, 0xd, 0xb, 4,
             5, 0, 4, 0xb, 0xa, 9, 0xd, 5);
    XorWords(0xea45_1461, 0x5, 0xea45_1464,
             0xe, 0xa, 4, 5, 1, 4, 6, 1,
             0, 0, 0, 0, 0, 0, 0, 5);
  }

  lemma FinishXors()
    ensures Xor(0xea45_1464, 0xea45) == 0xea45_fe21
    ensures Xor(0x9312_41cb, 0x4_9892) == 0x9316_d959 && Xor(0x8d57_7d6d, 0x8d57) == 0x8d57_f03a
  {
    hide Xor;
    XorWords(0xea45_1464, 0xea45, 0xea45_fe21,
             0xe, 0xa, 4, 5, 1, 4, 6, 4,
             0, 0, 0, 0, 0xe, 0xa, 4, 5);
    XorWords(0x9312_41cb, 0x4_9892, 0x9316_d959,
             9, 3, 1, 2, 4, 1, 0xc, 0xb,
             0, 0, 0, 4, 9, 8, 9, 2);
    XorWords(0x8d57_7d6d, 0x8d57, 0x8d57_f03a,
             8, 0xd, 5, 7, 7, 0xd, 6, 0xd,
             0, 0, 0, 0, 8, 0xd, 5, 7);
  }

  lemma BlockAnswer()
    ensures MixBlock(0x1b3, 0x8765_4321) == 0xba0e_bdb4
  {
    hide Xor, Scramble, Times32, Rot13;
    ScrambleAnswers();
    MurmurXors();
    Rot13Is(0x5082_ec5d, 0xa10, 0x2_ec5d, 0x5d8b_aa10);
    TimesIs(0x5d8b_aa10, 0x5, 0x1, 0xd3ba_5250);
  }

  lemma XorShiftIs(x: uint32, k: nat, divisor: nat, shifted: uint32, rest: nat, result: uint32)
    requires (k == 13 && divisor == 0x2000) || (k == 16 && divisor == 0x1_0000)
    requires x == shifted * divisor + rest && rest < divisor && result == Xor(x, shifted)
    ensures XorShift(x, k) == result
  {
    DivModUnique(x, divisor, shifted, rest);
    ShrDivides(x, k);
    Pow2Values();
    assert Pow2(13) == 0x2000;
    hide Xor, Pow2, Shr;
  }

  lemma FinishAnswer()
    ensures Finish(0xea45_1464) == 0x8d57_f03a
  {
    hide Xor, XorShift, Times32;
    FinishXors();
    XorShiftIs(0xea45_1464, 16, 0x1_0000, 0xea45, 0x1464, 0xea45_fe21);
    TimesIs(0xea45_fe21, 0x85eb_ca6b, 0x7a8e_2484, 0x9312_41cb);
    XorShiftIs(0x9312_41cb, 13, 0x2000, 0x4_9892, 0x1cb, 0x9316_d959);
    TimesIs(0x9316_d959, 0xc2b2_ae35, 0x6fdd_fab0, 0x8d57_7d6d);
    XorShiftIs(0x8d57_7d6d, 16, 0x1_0000, 0x8d57, 0x7d6d, 0x8d57_f03a);
  }

  /** What remains after the block: the tail byte, the length, the finish. */
  lemma AfterBlockAnswer()
    ensures Finish(Xor32(Xor32(0xba0e_bdb4, Scramble(0x61)), 5)) == 0x8d57_f03a
  {
    hide Xor, Finish, Scramble;
    ScrambleAnswers();
    FinishAnswer();
    MurmurXors();
  }

  lemma KeyParts(key: Key)
    requires key == [0x21, 0x43, 0x65, 0x87, 0x61]
    ensures Blocks(key, 1) == [0x8765_4321] && Tail(key, 4, 1) == 0x61
  {
    XorZero(0x61);
    hide Xor;
  }

  /** A key of one block and a tail of one byte, under the seed that routing uses. */
  lemma MurmurAnswer()
    ensures Murmur([0x21, 0x43, 0x65, 0x87, 0x61], 5, 0x1b3) == 0x8d57_f03a
  {
    hide Fold, MixBlock, Finish, Xor32, Scramble, Tail, Blocks;
    KeyParts([0x21, 0x43, 0x65, 0x87, 0x61]);
    FoldTwo(MixBlock, 0x1b3, 0x8765_4321, 0);
    BlockAnswer();
    AfterBlockAnswer();
  }

  /** Which number selects which hash; every other number selects FNV-1a. */
  lemma AlgorithmAnswers(other: int)
    requires other != 1 && other != 2
    ensures KeyHash(0, [0x61, 0x80]) == 0x2b0_cb82 && KeyHash(other, [0x61, 0x80]) == 0x2b0_cb82
    ensures KeyHash(1, [0x61, 0x80]) == 0x665_77f6
    ensures KeyHash(2, [0x21, 0x43, 0x65, 0x87, 0x61]) == 0x8d57_f03a
  {
    hide Fnv1, Fnv1a, Murmur;
    Fnv1aAnswers();
    Fnv1Answers();
    MurmurAnswer();
  }
}
