/** What the rewritten conditional branches decode to.
 */
module Arm64Rewrites {
  import opened Arithmetic
  import opened MachineWords
  import opened Arm64Machine
  import opened Arm64Assembler
  import opened Arm64Relocator

  // ---------------------------------------------------------------- rewritten branches

  lemma InvertTestFields(w: Word)
    requires TestClass(w)
    ensures var v := InvertTest(w);
            && TestClass(v) && 0 <= Bits(w, 0x1000000, 2) < 2 && Bits(v, 0x1000000, 2) == 1 - Bits(w, 0x1000000, 2) && Rt(v) == Rt(w)
            && v / 0x80000000 == w / 0x80000000 && Bits(v, 0x80000, 32) == Bits(w, 0x80000, 32) && Imm14(v) == 12
  {
    var v, t, b, k, r := InvertTest(w), w / 0x2000000, Bits(w, 0x1000000, 2), Bits(w, 0x80000, 32), w % 0x20;
    assert v == t * 0x2000000 + (1 - b) * 0x1000000 + k * 0x80000 + 96 + r;
    DivUnique(v, 0x2000000, t, (1 - b) * 0x1000000 + k * 0x80000 + 96 + r);
    DivUnique(v, 0x1000000, 2 * t + (1 - b), k * 0x80000 + 96 + r);
    DivUnique(2 * t + (1 - b), 2, t, 1 - b);
    DivUnique(v, 0x80000, 64 * t + 32 * (1 - b) + k, 96 + r);
    DivUnique(64 * t + 32 * (1 - b) + k, 32, 2 * t + (1 - b), k);
    DivUnique(v, 0x20, 0x4000 * (64 * t + 32 * (1 - b) + k) + 3, r);
    DivUnique(0x4000 * (64 * t + 32 * (1 - b) + k) + 3, 0x4000, 64 * t + 32 * (1 - b) + k, 3);
    TopBit(v, w);
  }

  lemma TopBit(v: Word, w: Word)
    requires v / 0x2000000 == w / 0x2000000
    ensures v / 0x80000000 == w / 0x80000000
  {
    var t := w / 0x2000000;
    DivUnique(v, 0x80000000, t / 64, t % 64 * 0x2000000 + v % 0x2000000);
    DivUnique(w, 0x80000000, t / 64, t % 64 * 0x2000000 + w % 0x2000000);
  }

  lemma InvertCompareFields(w: Word)
    requires CompareClass(w)
    ensures var v := InvertCompare(w);
            && CompareClass(v) && 0 <= Bits(w, 0x1000000, 2) < 2 && Bits(v, 0x1000000, 2) == 1 - Bits(w, 0x1000000, 2) && Rt(v) == Rt(w)
            && v / 0x80000000 == w / 0x80000000 && Imm19(v) == 12
  {
    var v, t, b, r := InvertCompare(w), w / 0x2000000, Bits(w, 0x1000000, 2), w % 0x20;
    assert v == t * 0x2000000 + (1 - b) * 0x1000000 + 96 + r;
    DivUnique(v, 0x2000000, t, (1 - b) * 0x1000000 + 96 + r);
    DivUnique(v, 0x1000000, 2 * t + (1 - b), 96 + r);
    DivUnique(2 * t + (1 - b), 2, t, 1 - b);
    DivUnique(v, 0x20, 0x80000 * (2 * t + (1 - b)) + 3, r);
    DivUnique(0x80000 * (2 * t + (1 - b)) + 3, 0x80000, 2 * t + (1 - b), 3);
    TopBit(v, w);
  }

  function FlipLow(cond: int): int { if cond % 2 == 0 then cond + 1 else cond - 1 }

  lemma InvertCondFields(w: Word)
    requires CondClass(w)
    ensures var v := InvertCond(w);
            CondClass(v) && Bits(v, 0x1000000, 2) == Bits(w, 0x1000000, 2) && v % 16 == FlipLow(w % 16) && Imm19(v) == 12
  {
    var v, t, h, f := InvertCond(w), w / 0x1000000, Bits(w, 0x10, 2), FlipLow(w % 16);
    assert w % 2 == w % 16 % 2;
    assert v == t * 0x1000000 + 96 + h * 16 + f;
    DivUnique(v, 0x1000000, t, 96 + h * 16 + f);
    DivUnique(v, 0x2000000, t / 2, t % 2 * 0x1000000 + 96 + h * 16 + f);
    DivUnique(w, 0x2000000, t / 2, t % 2 * 0x1000000 + w % 0x1000000);
    DivUnique(v, 0x20, 0x80000 * t + 3, h * 16 + f);
    DivUnique(0x80000 * t + 3, 0x80000, t, 3);
    DivUnique(v, 16, t * 0x100000 + 6 + h, f);
  }

  /** Section C1.2.4: flipping the low bit negates a condition, except the two that mean "always". */
  lemma FlipNegates(cond: int, f: Flags)
    requires 0 <= cond < 16
    ensures CondHolds(FlipLow(cond), f) == (if cond < 14 then !CondHolds(cond, f) else true)
  {
    DivUnique(FlipLow(cond), 2, cond / 2, 1 - cond % 2);
    hide CondBase;
  }

  // ---------------------------------------------------------------- classes determine the decoding

  lemma TestByte(t: int)
    requires t / 2 % 64 == 27
    ensures t % 4 != 0 && t % 32 != 16 && t / 4 % 32 != 5
  {
    var h, b := t / 2, t % 2;
    var a := h / 64;
    assert h == 64 * a + 27 && t == 2 * h + b;
    DivUnique(t, 4, 32 * a + 13, 2 + b);
    DivUnique(t, 32, 4 * a + 1, 22 + b);
    DivUnique(32 * a + 13, 32, a, 13);
  }

  lemma TestOnly(w: Word)
    requires TestClass(w)
    ensures !LiteralClass(w) && !PcAddressClass(w) && !BranchClass(w)
  {
    hide LiteralClass, PcAddressClass, BranchClass, TestClass, CompareClass, CondClass;
    TopByte(w, w / 0x1000000, w % 0x1000000);
    TestByte(w / 0x1000000);
  }

  lemma CompareByte(t: int)
    requires t / 2 % 64 == 26
    ensures t / 8 % 8 != 3 && t % 32 != 16 && t / 4 % 32 != 5
  {
    var h, b := t / 2, t % 2;
    var a := h / 64;
    assert h == 64 * a + 26 && t == 2 * h + b;
    DivUnique(t, 4, 32 * a + 13, b);
    DivUnique(t, 8, 16 * a + 6, 4 + b);
    DivUnique(16 * a + 6, 8, 2 * a, 6);
    DivUnique(t, 32, 4 * a + 1, 20 + b);
    DivUnique(32 * a + 13, 32, a, 13);
  }

  lemma CompareOnly(w: Word)
    requires CompareClass(w)
    ensures !LiteralClass(w) && !PcAddressClass(w) && !BranchClass(w) && !TestClass(w)
  {
    hide LiteralClass, PcAddressClass, BranchClass, TestClass, CompareClass, CondClass;
    TopByte(w, w / 0x1000000, w % 0x1000000);
    CompareByte(w / 0x1000000);
  }

  lemma CondOnly(w: Word)
    requires CondClass(w)
    ensures !LiteralClass(w) && !PcAddressClass(w) && !BranchClass(w) && !TestClass(w) && !CompareClass(w)
  {
    TopByte(w, w / 0x1000000, w % 0x1000000);
    hide LiteralClass, PcAddressClass, BranchClass, TestClass, CompareClass, CondClass;
    assert w / 0x1000000 == 84 || w / 0x1000000 == 85;
  }

  lemma DecodeInvertedTest(w: Word)
    requires TestClass(w)
    ensures Decode(w).TestBranch? && Decode(w).offset == Imm14(w) && Decode(w).rt == Rt(w)
    ensures var i := Decode(w); Decode(InvertTest(w)) == TestBranch(!i.ifSet, i.rt, i.bit, 12)
  {
    hide LiteralClass, PcAddressClass, BranchClass, TestClass, CompareClass, CondClass, Imm14, Imm19, Bits, Rt, InvertTest;
    InvertTestFields(w);
    TestOnly(w);
    TestOnly(InvertTest(w));
  }

  lemma DecodeInvertedCompare(w: Word)
    requires CompareClass(w)
    ensures Decode(w).CompareBranch? && Decode(w).offset == Imm19(w) && Decode(w).rt == Rt(w)
    ensures var i := Decode(w); Decode(InvertCompare(w)) == CompareBranch(!i.ifNonZero, i.wide, i.rt, 12)
  {
    hide LiteralClass, PcAddressClass, BranchClass, TestClass, CompareClass, CondClass, Imm14, Imm19, Bits, Rt, InvertCompare;
    InvertCompareFields(w);
    CompareOnly(w);
    CompareOnly(InvertCompare(w));
  }

  lemma DecodeInvertedCond(w: Word)
    requires CondClass(w) && Decode(w) != NotModelled
    ensures Decode(w) == CondBranch(w % 16, Imm19(w))
    ensures Decode(InvertCond(w)) == CondBranch(FlipLow(w % 16), 12)
  {
    hide LiteralClass, PcAddressClass, BranchClass, TestClass, CompareClass, CondClass, Imm14, Imm19, Bits, Rt, InvertCond,
         FlipLow;
    InvertCondFields(w);
    CondOnly(w);
    CondOnly(InvertCond(w));
  }
}
