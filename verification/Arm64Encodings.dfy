/** The encodings of the A64 instructions that the relocator takes apart, written from their
    fields (section C6.2 of the Arm Architecture Reference Manual, DDI 0487).  Each lemma says
    which words decode to an instruction: exactly the ones that encode it.
 */
module Arm64Encodings {
  import opened Arithmetic
  import opened MachineWords
  import opened Arm64Machine
  import Arm64Assembler
  import Arm64Relocator

  // ---------------------------------------------------------------- classes and fields

  lemma ByteCases(t: int)
    requires 0 <= t < 0x100
    ensures t / 8 % 8 == 3 && t % 4 == 0 <==> t in {0x18, 0x1c, 0x58, 0x5c, 0x98, 0x9c, 0xd8, 0xdc}
    ensures t % 32 == 16 <==> t in {0x10, 0x30, 0x50, 0x70, 0x90, 0xb0, 0xd0, 0xf0}
  {
  }

  lemma BranchByteCases(t: int)
    requires 0 <= t < 0x100
    ensures t / 4 % 32 == 5 <==> t in {0x14, 0x15, 0x16, 0x17, 0x94, 0x95, 0x96, 0x97}
    ensures t / 2 % 64 == 27 <==> t in {0x36, 0x37, 0xb6, 0xb7}
    ensures t / 2 % 64 == 26 <==> t in {0x34, 0x35, 0xb4, 0xb5}
    ensures t / 2 == 42 <==> t in {0x54, 0x55}
  {
  }

  /** The classes by the upper byte. */
  lemma ClassBytes(w: Word)
    ensures var t := w / 0x1000000;
            && (LiteralClass(w) <==> t in {0x18, 0x1c, 0x58, 0x5c, 0x98, 0x9c, 0xd8, 0xdc})
            && (PcAddressClass(w) <==> t in {0x10, 0x30, 0x50, 0x70, 0x90, 0xb0, 0xd0, 0xf0})
            && (BranchClass(w) <==> t in {0x14, 0x15, 0x16, 0x17, 0x94, 0x95, 0x96, 0x97})
            && (TestClass(w) <==> t in {0x36, 0x37, 0xb6, 0xb7})
            && (CompareClass(w) <==> t in {0x34, 0x35, 0xb4, 0xb5})
            && (CondClass(w) <==> t in {0x54, 0x55})
  {
    hide LiteralClass, PcAddressClass, BranchClass, TestClass, CompareClass, CondClass;
    Arm64Assembler.TopByte(w, w / 0x1000000, w % 0x1000000);
    ByteCases(w / 0x1000000);
    BranchByteCases(w / 0x1000000);
  }

  /** The bits of the upper byte. */
  lemma UpperBits(w: Word)
    ensures var t := w / 0x1000000;
            && 0 <= t < 0x100 && w / 0x80000000 == t / 128 && Bits(w, 0x40000000, 2) == t / 64 % 2 && Bits(w, 0x20000000, 4) == t / 32 % 4
            && Bits(w, 0x4000000, 2) == t / 4 % 2 && Bits(w, 0x1000000, 2) == t % 2 && w / 0x40000000 == t / 64
  {
    var t, r := w / 0x1000000, w % 0x1000000;
    DivUnique(w, 0x80000000, t / 128, t % 128 * 0x1000000 + r);
    DivUnique(w, 0x40000000, t / 64, t % 64 * 0x1000000 + r);
    DivUnique(w, 0x20000000, t / 32, t % 32 * 0x1000000 + r);
    DivUnique(w, 0x4000000, t / 4, t % 4 * 0x1000000 + r);
  }

  lemma Imm19Fields(w: Word, t: int, f: int, r: int)
    ensures 0 <= f < 0x80000 && 0 <= r < 32 && w == t * 0x1000000 + f * 0x20 + r
            <==> w / 0x1000000 == t && Bits(w, 0x20, 0x80000) == f && w % 32 == r
  {
    Peel(w, 0x20, 0x80000);
    if 0 <= f < 0x80000 && 0 <= r < 32 && w == t * 0x1000000 + f * 0x20 + r {
      DivUnique(w, 0x1000000, t, f * 0x20 + r);
      DivUnique(w, 0x20, t * 0x80000 + f, r);
      DivUnique(t * 0x80000 + f, 0x80000, t, f);
    }
  }

  lemma SignedIs(x: int, f: int, n: int)
    requires n > 0 && n % 2 == 0 && 0 <= f < n
    ensures Signed(f, n) == x <==> -n <= 2 * x < n && x % n == f
  {
    if Signed(f, n) == x { DivUnique(x, n, if 2 * f >= n then -1 else 0, f); }
    if -n <= 2 * x < n && x % n == f { DivUnique(x, n, if x < 0 then -1 else 0, if x < 0 then x + n else x); }
  }

  /** A field that counts words. */
  lemma ScaledIs(offset: int, f: int, n: int)
    requires n > 0 && n % 2 == 0 && 0 <= f < n
    ensures 4 * Signed(f, n) == offset <==> -2 * n <= offset < 2 * n && offset % 4 == 0 && offset / 4 % n == f
  {
    SignedIs(offset / 4, f, n);
    hide Signed;
  }

  // ---------------------------------------------------------------- literal loads

  function Imm19Code(op: int, offset: int, r: int): int { op * 0x1000000 + offset / 4 % 0x80000 * 0x20 + r }

  predicate Reach19(offset: int, r: int) { 0 <= r < 32 && -0x100000 <= offset < 0x100000 && offset % 4 == 0 }

  lemma Imm19Coding(w: Word, op: int, offset: int, r: int)
    ensures w / 0x1000000 == op && Imm19(w) == offset && w % 32 == r <==> Reach19(offset, r) && w == Imm19Code(op, offset, r)
  {
    var f := Bits(w, 0x20, 0x80000);
    assert 0 <= f < 0x80000;
    ScaledIs(offset, f, 0x80000);
    Imm19Fields(w, op, f, r);
    Imm19Fields(w, op, offset / 4 % 0x80000, r);
    hide Bits, Signed;
  }

  /** LDR (literal), 32 and 64 bits wide. */
  lemma LiteralCoding(w: Word, wide: bool, rt: int, offset: int)
    ensures Decode(w) == LoadLiteral(wide, rt, offset) <==>
            Reach19(offset, rt) && w == Imm19Code(if wide then 0x58 else 0x18, offset, rt)
  {
    ClassBytes(w);
    UpperBits(w);
    Imm19Coding(w, if wide then 0x58 else 0x18, offset, rt);
    hide LiteralClass, PcAddressClass, BranchClass, TestClass, CompareClass, CondClass, Imm14, Imm19, Imm21, Imm26, Bits, Imm19Code;
  }

  /** CBZ and CBNZ. */
  lemma CompareCoding(w: Word, ifNonZero: bool, wide: bool, rt: int, offset: int)
    ensures Decode(w) == CompareBranch(ifNonZero, wide, rt, offset) <==>
            Reach19(offset, rt) && w == Imm19Code(0x34 + (if ifNonZero then 1 else 0) + (if wide then 0x80 else 0), offset, rt)
  {
    ClassBytes(w);
    UpperBits(w);
    Imm19Coding(w, 0x34 + (if ifNonZero then 1 else 0) + (if wide then 0x80 else 0), offset, rt);
    hide LiteralClass, PcAddressClass, BranchClass, TestClass, CompareClass, CondClass, Imm14, Imm19, Imm21, Imm26, Bits, Imm19Code;
  }

  /** B.cond; bit 4, which hints at a consistent branch, is ignored. */
  lemma CondCoding(w: Word, cond: int, offset: int)
    ensures Decode(w) == CondBranch(cond, offset) <==>
            0 <= cond < 16 && Reach19(offset, cond) && (w == Imm19Code(0x54, offset, cond) || w == Imm19Code(0x54, offset, cond + 16))
  {
    ClassBytes(w);
    UpperBits(w);
    Imm19Coding(w, 0x54, offset, cond);
    Imm19Coding(w, 0x54, offset, cond + 16);
    assert w % 32 == w % 16 || w % 32 == w % 16 + 16;
    hide LiteralClass, PcAddressClass, BranchClass, TestClass, CompareClass, CondClass, Imm14, Imm19, Imm21, Imm26, Bits, Imm19Code;
  }

  // ---------------------------------------------------------------- B, BL, TBZ and TBNZ

  /** B and BL. */
  lemma BranchCoding(w: Word, link: bool, offset: int)
    ensures Decode(w) == Branch(link, offset) <==>
            && -0x8000000 <= offset < 0x8000000 && offset % 4 == 0
            && w == (if link then 0x94000000 else 0x14000000) + offset / 4 % 0x4000000
  {
    var op := if link then 37 else 5;
    ClassBytes(w);
    UpperBits(w);
    assert BranchClass(w) ==> w / 0x4000000 == 5 || w / 0x4000000 == 37;
    ScaledIs(offset, w % 0x4000000, 0x4000000);
    if w == op * 0x4000000 + offset / 4 % 0x4000000 { DivUnique(w, 0x4000000, op, offset / 4 % 0x4000000); }
    hide LiteralClass, PcAddressClass, TestClass, CompareClass, CondClass, Imm14, Imm19, Imm21, Bits, Signed;
  }

  /** TBZ and TBNZ; the tested bit is b5:b40. */
  function TestCode(ifSet: bool, rt: int, bit: int, offset: int): int {
    0x36000000 + (if ifSet then 0x1000000 else 0) + bit / 32 * 0x80000000 + bit % 32 * 0x80000 + offset / 4 % 0x4000 * 0x20 + rt
  }

  lemma TestFields(w: Word, t: int, b40: int, f: int, rt: int)
    ensures 0 <= b40 < 32 && 0 <= f < 0x4000 && 0 <= rt < 32 && w == t * 0x1000000 + b40 * 0x80000 + f * 0x20 + rt
            <==> w / 0x1000000 == t && Bits(w, 0x80000, 32) == b40 && Bits(w, 0x20, 0x4000) == f && w % 32 == rt
  {
    Peel(w, 0x20, 0x4000);
    Peel(w, 0x80000, 32);
    if 0 <= b40 < 32 && 0 <= f < 0x4000 && 0 <= rt < 32 && w == t * 0x1000000 + b40 * 0x80000 + f * 0x20 + rt {
      DivUnique(w, 0x1000000, t, b40 * 0x80000 + f * 0x20 + rt);
      DivUnique(w, 0x80000, 32 * t + b40, f * 0x20 + rt);
      DivUnique(32 * t + b40, 32, t, b40);
      DivUnique(w, 0x20, 0x4000 * (32 * t + b40) + f, rt);
      DivUnique(0x4000 * (32 * t + b40) + f, 0x4000, 32 * t + b40, f);
    }
  }

  lemma TestByte(t: int, k: int, bit: int)
    requires 0 <= k < 32 && bit >= 0 && t in {0x36, 0x37, 0xb6, 0xb7}
    ensures 32 * (t / 128) + k == bit <==> bit < 64 && t / 128 == bit / 32 && k == bit % 32
    ensures t == 0x36 + t % 2 + t / 128 * 0x80
  {
  }

  lemma DecodeTest(w: Word, ifSet: bool, rt: int, bit: nat, offset: int)
    ensures Decode(w) == TestBranch(ifSet, rt, bit, offset) <==>
            && w / 0x1000000 == 0x36 + (if ifSet then 1 else 0) + bit / 32 * 0x80 && bit < 64
            && Bits(w, 0x80000, 32) == bit % 32 && w % 32 == rt && Imm14(w) == offset
  {
    var t, k := w / 0x1000000, Bits(w, 0x80000, 32);
    assert 0 <= k < 32;
    ClassBytes(w);
    UpperBits(w);
    if TestClass(w) { TestByte(t, k, bit); }
    hide LiteralClass, PcAddressClass, BranchClass, TestClass, CompareClass, CondClass, Imm14, Imm19, Imm21, Imm26, Bits;
    assert bit < 64 ==> bit / 32 == 0 || bit / 32 == 1;
  }

  lemma TestCoding(w: Word, ifSet: bool, rt: int, bit: nat, offset: int)
    ensures Decode(w) == TestBranch(ifSet, rt, bit, offset) <==>
            0 <= rt < 32 && bit < 64 && -0x8000 <= offset < 0x8000 && offset % 4 == 0 && w == TestCode(ifSet, rt, bit, offset)
  {
    hide Decode;
    DecodeTest(w, ifSet, rt, bit, offset);
    var f := Bits(w, 0x20, 0x4000);
    assert 0 <= f < 0x4000;
    var t := 0x36 + (if ifSet then 1 else 0) + bit / 32 * 0x80;
    assert t * 0x1000000 == 0x36000000 + (if ifSet then 0x1000000 else 0) + bit / 32 * 0x80000000;
    hide Bits, Signed;
    ScaledIs(offset, f, 0x4000);
    TestFields(w, t, bit % 32, f, rt);
    TestFields(w, t, bit % 32, offset / 4 % 0x4000, rt);
  }

  // ---------------------------------------------------------------- ADR and ADRP

  /** ADR (op 0x10) and ADRP (op 0x90) of a 21-bit immediate, immhi:immlo. */
  function Imm21Code(op: int, imm: int, rd: int): int {
    var u := imm % 0x200000;
    op * 0x1000000 + u % 4 * 0x20000000 + u / 4 * 0x20 + rd
  }

  lemma PcByte(t: int, op: int)
    requires (op == 0x10 || op == 0x90) && 0 <= t < 0x100
    ensures t in {0x10, 0x30, 0x50, 0x70, 0x90, 0xb0, 0xd0, 0xf0} && t / 128 == op / 0x80 <==> t == op + t / 32 % 4 * 0x20
    ensures forall k :: 0 <= k < 4 ==> (op + k * 0x20) / 32 % 4 == k
  {
  }

  lemma Imm21Parts(imm: int, k: int, f: int)
    requires 0 <= k < 4 && 0 <= f < 0x80000
    ensures Signed(4 * f + k, 0x200000) == imm <==> -0x100000 <= imm < 0x100000 && imm % 0x200000 % 4 == k && imm % 0x200000 / 4 == f
  {
    SignedIs(imm, 4 * f + k, 0x200000);
    hide Signed;
    var u := imm % 0x200000;
    if u == 4 * f + k { DivUnique(u, 4, f, k); }
  }

  lemma Imm21Coding(w: Word, op: int, imm: int, rd: int)
    requires op == 0x10 || op == 0x90
    ensures PcAddressClass(w) && w / 0x80000000 == op / 0x80 && Imm21(w) == imm && w % 32 == rd
            <==> 0 <= rd < 32 && -0x100000 <= imm < 0x100000 && w == Imm21Code(op, imm, rd)
  {
    var t, f, u := w / 0x1000000, Bits(w, 0x20, 0x80000), imm % 0x200000;
    var k := t / 32 % 4;
    assert 0 <= f < 0x80000 && 0 <= u % 4 < 4 && 0 <= u / 4 < 0x80000 && 0 <= k < 4;
    hide PcAddressClass, Bits, Signed;
    ClassBytes(w);
    UpperBits(w);
    PcByte(t, op);
    Imm21Parts(imm, k, f);
    assert PcAddressClass(w) && w / 0x80000000 == op / 0x80 && Imm21(w) == imm && w % 32 == rd
           <==> t == op + k * 0x20 && Signed(4 * f + k, 0x200000) == imm && w % 32 == rd;
    Imm19Fields(w, op + k * 0x20, f, rd);
    Imm19Fields(w, op + u % 4 * 0x20, u / 4, rd);
    assert Imm21Code(op, imm, rd) == (op + u % 4 * 0x20) * 0x1000000 + u / 4 * 0x20 + rd;
  }

  /** ADR: any offset within 1 MiB. */
  lemma AdrCoding(w: Word, rd: int, offset: int)
    ensures Decode(w) == PcAddress(false, rd, offset) <==>
            0 <= rd < 32 && -0x100000 <= offset < 0x100000 && w == Imm21Code(0x10, offset, rd)
  {
    ClassBytes(w);
    UpperBits(w);
    Imm21Coding(w, 0x10, offset, rd);
    hide LiteralClass, PcAddressClass, BranchClass, TestClass, CompareClass, CondClass, Imm14, Imm19, Imm21, Imm26, Bits, Imm21Code;
  }

  /** ADRP: whole pages, within 4 GiB. */
  lemma AdrpCoding(w: Word, rd: int, offset: int)
    ensures Decode(w) == PcAddress(true, rd, offset) <==>
            && 0 <= rd < 32 && offset % 4096 == 0 && -0x100000 <= offset / 4096 < 0x100000
            && w == Imm21Code(0x90, offset / 4096, rd)
  {
    ClassBytes(w);
    UpperBits(w);
    Imm21Coding(w, 0x90, offset / 4096, rd);
    hide LiteralClass, PcAddressClass, BranchClass, TestClass, CompareClass, CondClass, Imm14, Imm19, Imm21, Imm26, Bits, Imm21Code;
  }

  // ---------------------------------------------------------------- what ends the relocation

  /** Exactly the literal loads with opc 10 and 11 (LDRSW, PRFM, 128-bit) abort, by their upper byte. */
  lemma AbortsExactly(w: Word, pc: U64)
    ensures Arm64Relocator.PieceOf(w, pc).Abort? <==> w / 0x1000000 in {0x98, 0x9c, 0xd8, 0xdc}
  {
    hide LiteralClass, PcAddressClass, BranchClass, TestClass, CompareClass, CondClass, Bits;
    ClassBytes(w);
    UpperBits(w);
    Arm64Relocator.AbortsOnlyOnLiterals(w, pc);
  }
}
