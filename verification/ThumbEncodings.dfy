/** The encodings of the T32 instructions that the relocator takes apart, written from their
    fields (section F5.1 of the Arm Architecture Reference Manual, DDI 0487).  Each lemma says
    which halfwords decode to an instruction: exactly the ones that encode it.
 */
module ThumbEncodings {
  import opened Arithmetic
  import opened MachineWords
  import opened ThumbMachine
  import ThumbRelocator

  // ---------------------------------------------------------------- fields

  lemma FirstHalfIs(h: Half, s: int, f: int)
    ensures 0 <= s < 2 && 0 <= f < 0x400 && h == 0xf000 + s * 0x400 + f
            <==> h / 0x800 == 30 && Bits(h, 0x400, 2) == s && h % 0x400 == f
  {
    Peel(h, 0x400, 2);
  }

  lemma SecondHalfIs(h: Half, a: int, j1: int, b: int, j2: int, k: int)
    ensures 0 <= a < 2 && 0 <= j1 < 2 && 0 <= b < 2 && 0 <= j2 < 2 && 0 <= k < 0x800
            && h == 0x8000 + a * 0x4000 + j1 * 0x2000 + b * 0x1000 + j2 * 0x800 + k
            <==> h / 0x8000 == 1 && Bits(h, 0x4000, 2) == a && Bits(h, 0x2000, 2) == j1 && Bits(h, 0x1000, 2) == b
                 && Bits(h, 0x800, 2) == j2 && h % 0x800 == k
  {
    Peel(h, 0x800, 2);
    Peel(h, 0x1000, 2);
    Peel(h, 0x2000, 2);
    Peel(h, 0x4000, 2);
  }

  /** The fields S:I1:I2:imm10:imm11:0 of a branch offset in 25-bit two's complement. */
  lemma Reassemble(u: int)
    requires 0 <= u < 0x2000000
    ensures 0 <= u / 0x1000000 < 2
    ensures u == u / 0x1000000 * 0x1000000 + Bits(u, 0x800000, 2) * 0x800000 + Bits(u, 0x400000, 2) * 0x400000
                 + Bits(u, 0x1000, 0x400) * 0x1000 + Bits(u, 2, 0x800) * 2 + u % 2
  {
    Peel(u, 2, 0x800);
    Peel(u, 0x1000, 0x400);
    Peel(u, 0x400000, 2);
    Peel(u, 0x800000, 2);
  }

  lemma Disassemble(u: int, s: int, i1: int, i2: int, f: int, k: int)
    requires 0 <= s < 2 && 0 <= i1 < 2 && 0 <= i2 < 2 && 0 <= f < 0x400 && 0 <= k < 0x800
    requires u == s * 0x1000000 + i1 * 0x800000 + i2 * 0x400000 + f * 0x1000 + k * 2
    ensures 0 <= u < 0x2000000 && u % 2 == 0
    ensures u / 0x1000000 == s && Bits(u, 0x800000, 2) == i1 && Bits(u, 0x400000, 2) == i2
    ensures Bits(u, 0x1000, 0x400) == f && Bits(u, 2, 0x800) == k
  {
    DivUnique(u, 0x1000000, s, i1 * 0x800000 + i2 * 0x400000 + f * 0x1000 + k * 2);
    DivUnique(u, 0x800000, 2 * s + i1, i2 * 0x400000 + f * 0x1000 + k * 2);
    DivUnique(u, 0x400000, 4 * s + 2 * i1 + i2, f * 0x1000 + k * 2);
    DivUnique(u, 0x1000, 0x1000 * s + 0x800 * i1 + 0x400 * i2 + f, k * 2);
    DivUnique(0x1000 * s + 0x800 * i1 + 0x400 * i2 + f, 0x400, 4 * s + 2 * i1 + i2, f);
    DivUnique(u, 2, 0x800 * (0x1000 * s + 0x800 * i1 + 0x400 * i2 + f) + k, 0);
    DivUnique(u / 2, 0x800, 0x1000 * s + 0x800 * i1 + 0x400 * i2 + f, k);
  }

  // ---------------------------------------------------------------- B (T4), BL and BLX

  /** The offset in 25 bits, and its sign and upper bits as the second halfword has them. */
  function Field25(offset: int): int { offset % 0x2000000 }
  function Agree(u: int, weight: int): int
    requires weight > 0
  {
    if Bits(u, weight, 2) == u / 0x1000000 then 1 else 0
  }

  function BranchFirst(offset: int): Half {
    var u := Field25(offset);
    0xf000 + u / 0x1000000 * 0x400 + Bits(u, 0x1000, 0x400)
  }

  /** `op` is 0x9000 for B, 0xd000 for BL and 0xc000 for BLX. */
  function BranchSecond(op: int, offset: int): Half
    requires 0x8000 <= op <= 0xd000
  {
    var u := Field25(offset);
    op + Agree(u, 0x800000) * 0x2000 + Agree(u, 0x400000) * 0x800 + Bits(u, 2, 0x800)
  }

  predicate Encodes(op: int, offset: int, h1: Half, h2: Half)
    requires 0x8000 <= op <= 0xd000
  {
    -0x1000000 <= offset < 0x1000000 && offset % 2 == 0 && h1 == BranchFirst(offset) && h2 == BranchSecond(op, offset)
  }

  predicate HasFields(h1: Half, h2: Half, a: int, b: int, offset: int) {
    BranchClass(h1, h2) && Bits(h2, 0x4000, 2) == a && Bits(h2, 0x1000, 2) == b && BranchOffset(h1, h2) == offset
  }

  lemma FieldsEncode(h1: Half, h2: Half, a: int, b: int, offset: int)
    requires 0 <= a < 2 && 0 <= b < 2 && HasFields(h1, h2, a, b, offset)
    ensures Encodes(0x8000 + a * 0x4000 + b * 0x1000, offset, h1, h2)
  {
    var s, f, j1, j2, k := Bits(h1, 0x400, 2), h1 % 0x400, Bits(h2, 0x2000, 2), Bits(h2, 0x800, 2), h2 % 0x800;
    FirstHalfIs(h1, s, f);
    SecondHalfIs(h2, a, j1, b, j2, k);
    var i1, i2 := if j1 == s then 1 else 0, if j2 == s then 1 else 0;
    var u := s * 0x1000000 + i1 * 0x800000 + i2 * 0x400000 + f * 0x1000 + k * 2;
    hide Bits;
    Disassemble(u, s, i1, i2, f, k);
    DivUnique(offset, 0x2000000, -s, u);
    DivUnique(offset, 2, u / 2 - s * 0x1000000, 0);
  }

  lemma EncodeFields(h1: Half, h2: Half, a: int, b: int, offset: int)
    requires 0 <= a < 2 && 0 <= b < 2 && Encodes(0x8000 + a * 0x4000 + b * 0x1000, offset, h1, h2)
    ensures HasFields(h1, h2, a, b, offset)
  {
    var u := Field25(offset);
    Reassemble(u);
    var s, f, k := u / 0x1000000, Bits(u, 0x1000, 0x400), Bits(u, 2, 0x800);
    var j1, j2 := Agree(u, 0x800000), Agree(u, 0x400000);
    assert u % 2 == 0 && offset == u - s * 0x2000000;
    assert 0 <= Bits(u, 0x800000, 2) < 2 && 0 <= Bits(u, 0x400000, 2) < 2 && 0 <= f < 0x400 && 0 <= k < 0x800;
    hide Bits;
    FirstHalfIs(h1, s, f);
    SecondHalfIs(h2, a, j1, b, j2, k);
  }

  lemma FieldsExactly(h1: Half, h2: Half, a: int, b: int, offset: int)
    requires 0 <= a < 2 && 0 <= b < 2
    ensures HasFields(h1, h2, a, b, offset) <==> Encodes(0x8000 + a * 0x4000 + b * 0x1000, offset, h1, h2)
  {
    if HasFields(h1, h2, a, b, offset) { FieldsEncode(h1, h2, a, b, offset); }
    if Encodes(0x8000 + a * 0x4000 + b * 0x1000, offset, h1, h2) { EncodeFields(h1, h2, a, b, offset); }
  }

  lemma ClassFields(h1: Half, h2: Half)
    ensures 0 <= Bits(h2, 0x4000, 2) < 2 && 0 <= Bits(h2, 0x1000, 2) < 2
    ensures IsBlx(h1, h2) ==> !IsB(h1, h2) && !IsBl(h1, h2)
    ensures IsB(h1, h2) <==> HasFields(h1, h2, 0, 1, BranchOffset(h1, h2))
    ensures IsBl(h1, h2) <==> HasFields(h1, h2, 1, 1, BranchOffset(h1, h2))
    ensures IsBlx(h1, h2) <==> HasFields(h1, h2, 1, 0, BranchOffset(h1, h2))
  {
    hide BranchClass, BranchOffset;
  }

  /** B (T4): every even offset within 16 MiB, and nothing else. */
  lemma BranchCoding(h1: Half, h2: Half, offset: int)
    ensures DecodeWide(h1, h2) == Jump(offset) <==> Encodes(0x9000, offset, h1, h2)
  {
    ClassFields(h1, h2);
    FieldsExactly(h1, h2, 0, 1, offset);
    hide Encodes, IsB, IsBl, IsBlx, IsBCond, IsLdrLiteral, IsAdr, BranchOffset, BlxOffset, CondOffset, LiteralOffset, AdrOffset, AdrRd, Bits, BranchClass;
  }

  /** BL: the same offsets. */
  lemma CallCoding(h1: Half, h2: Half, offset: int)
    ensures DecodeWide(h1, h2) == Call(false, offset) <==> Encodes(0xd000, offset, h1, h2)
  {
    ClassFields(h1, h2);
    FieldsExactly(h1, h2, 1, 1, offset);
    hide Encodes, IsB, IsBl, IsBlx, IsBCond, IsLdrLiteral, IsAdr, BranchOffset, BlxOffset, CondOffset, LiteralOffset, AdrOffset, AdrRd, Bits, BranchClass;
  }

  lemma LowBits(h1: Half, h2: Half)
    ensures BranchOffset(h1, h2) % 4 == 2 * (h2 % 2)
  {
    var s := Bits(h1, 0x400, 2);
    var i1, i2 := if Bits(h2, 0x2000, 2) == s then 1 else 0, if Bits(h2, 0x800, 2) == s then 1 else 0;
    Peel(h2, 1, 2);
    var k := h2 % 0x800;
    assert k % 2 == h2 % 2;
    DivUnique(BranchOffset(h1, h2), 4, -s * 0x400000 + i1 * 0x200000 + i2 * 0x100000 + (h1 % 0x400) * 0x400 + k / 2, 2 * (h2 % 2));
  }

  /** BLX: every multiple of four within 16 MiB, and nothing else. */
  lemma ExchangeCoding(h1: Half, h2: Half, offset: int)
    ensures DecodeWide(h1, h2) == Call(true, offset) <==> offset % 4 == 0 && Encodes(0xc000, offset, h1, h2)
  {
    ClassFields(h1, h2);
    LowBits(h1, h2);
    FieldsExactly(h1, h2, 1, 0, offset);
    hide Encodes, IsB, IsBl, IsBlx, IsBCond, IsLdrLiteral, IsAdr, BranchOffset, CondOffset, LiteralOffset, AdrOffset, AdrRd, Bits, BranchClass;
  }

  // ---------------------------------------------------------------- B (T3)

  function CondFirst(cond: int, offset: int): int {
    var u := offset % 0x200000;
    0xf000 + u / 0x100000 * 0x400 + cond * 0x40 + Bits(u, 0x1000, 0x40)
  }

  /** J1, then J2; the offset is S:J2:J1:imm6:imm11:0. */
  function CondSecond(offset: int): int {
    var u := offset % 0x200000;
    0x8000 + Bits(u, 0x40000, 2) * 0x2000 + Bits(u, 0x80000, 2) * 0x800 + Bits(u, 2, 0x800)
  }

  predicate CondEncodes(cond: int, offset: int, h1: Half, h2: Half) {
    && 0 <= cond < 14 && -0x100000 <= offset < 0x100000 && offset % 2 == 0
    && h1 == CondFirst(cond, offset) && h2 == CondSecond(offset)
  }

  lemma CondFirstIs(h: Half, s: int, cond: int, f: int)
    ensures 0 <= s < 2 && 0 <= cond < 16 && 0 <= f < 0x40 && h == 0xf000 + s * 0x400 + cond * 0x40 + f
            <==> h / 0x800 == 30 && Bits(h, 0x400, 2) == s && Bits(h, 0x40, 16) == cond && h % 0x40 == f
    ensures 0 <= Bits(h, 0x40, 16) < 16 && (Bits(h, 0x80, 8) == 7 <==> Bits(h, 0x40, 16) >= 14)
  {
    Peel(h, 0x40, 16);
    Peel(h, 0x400, 2);
    Peel(h, 0x40, 2);
    Peel(h, 0x80, 8);
  }

  lemma CondReassemble(u: int)
    requires 0 <= u < 0x200000
    ensures 0 <= u / 0x100000 < 2
    ensures u == u / 0x100000 * 0x100000 + Bits(u, 0x80000, 2) * 0x80000 + Bits(u, 0x40000, 2) * 0x40000
                 + Bits(u, 0x1000, 0x40) * 0x1000 + Bits(u, 2, 0x800) * 2 + u % 2
  {
    Peel(u, 2, 0x800);
    Peel(u, 0x1000, 0x40);
    Peel(u, 0x40000, 2);
    Peel(u, 0x80000, 2);
  }

  lemma CondDisassemble(u: int, s: int, j2: int, j1: int, f: int, k: int)
    requires 0 <= s < 2 && 0 <= j2 < 2 && 0 <= j1 < 2 && 0 <= f < 0x40 && 0 <= k < 0x800
    requires u == s * 0x100000 + j2 * 0x80000 + j1 * 0x40000 + f * 0x1000 + k * 2
    ensures 0 <= u < 0x200000 && u % 2 == 0
    ensures u / 0x100000 == s && Bits(u, 0x80000, 2) == j2 && Bits(u, 0x40000, 2) == j1
    ensures Bits(u, 0x1000, 0x40) == f && Bits(u, 2, 0x800) == k
  {
    DivUnique(u, 0x100000, s, j2 * 0x80000 + j1 * 0x40000 + f * 0x1000 + k * 2);
    DivUnique(u, 0x80000, 2 * s + j2, j1 * 0x40000 + f * 0x1000 + k * 2);
    DivUnique(u, 0x40000, 4 * s + 2 * j2 + j1, f * 0x1000 + k * 2);
    DivUnique(u, 0x1000, 0x100 * s + 0x80 * j2 + 0x40 * j1 + f, k * 2);
    DivUnique(0x100 * s + 0x80 * j2 + 0x40 * j1 + f, 0x40, 4 * s + 2 * j2 + j1, f);
    DivUnique(u, 2, 0x800 * (0x100 * s + 0x80 * j2 + 0x40 * j1 + f) + k, 0);
    DivUnique(u / 2, 0x800, 0x100 * s + 0x80 * j2 + 0x40 * j1 + f, k);
  }

  lemma CondClass(h1: Half, h2: Half)
    ensures IsBCond(h1, h2) <==> BranchClass(h1, h2) && Bits(h2, 0x4000, 2) == 0 && Bits(h2, 0x1000, 2) == 0 && Bits(h1, 0x40, 16) < 14
    ensures IsBCond(h1, h2) ==> !IsB(h1, h2) && !IsBl(h1, h2) && !IsBlx(h1, h2)
  {
    CondFirstIs(h1, 0, 0, 0);
    hide BranchClass;
  }

  lemma CondFieldsEncode(h1: Half, h2: Half)
    requires IsBCond(h1, h2)
    ensures CondEncodes(Bits(h1, 0x40, 16), CondOffset(h1, h2), h1, h2)
  {
    hide IsBCond;
    CondClass(h1, h2);
    var s, cond, f, j1, j2, k := Bits(h1, 0x400, 2), Bits(h1, 0x40, 16), h1 % 0x40, Bits(h2, 0x2000, 2), Bits(h2, 0x800, 2), h2 % 0x800;
    CondFirstIs(h1, s, cond, f);
    SecondHalfIs(h2, 0, j1, 0, j2, k);
    var u := s * 0x100000 + j2 * 0x80000 + j1 * 0x40000 + f * 0x1000 + k * 2;
    hide Bits;
    CondDisassemble(u, s, j2, j1, f, k);
    DivUnique(CondOffset(h1, h2), 0x200000, -s, u);
    DivUnique(CondOffset(h1, h2), 2, u / 2 - s * 0x100000, 0);
  }

  lemma CondEncodeFields(h1: Half, h2: Half, cond: int, offset: int)
    requires CondEncodes(cond, offset, h1, h2)
    ensures IsBCond(h1, h2) && Bits(h1, 0x40, 16) == cond && CondOffset(h1, h2) == offset
  {
    hide IsBCond;
    var u := offset % 0x200000;
    CondReassemble(u);
    var s, f, k, j1, j2 := u / 0x100000, Bits(u, 0x1000, 0x40), Bits(u, 2, 0x800), Bits(u, 0x40000, 2), Bits(u, 0x80000, 2);
    assert u % 2 == 0 && offset == u - s * 0x200000;
    assert 0 <= f < 0x40 && 0 <= k < 0x800 && 0 <= j1 < 2 && 0 <= j2 < 2;
    hide Bits;
    CondFirstIs(h1, s, cond, f);
    SecondHalfIs(h2, 0, j1, 0, j2, k);
    CondClass(h1, h2);
  }

  /** B (T3): conditions below 14 and every even offset within 1 MiB, and nothing else. */
  lemma CondCoding(h1: Half, h2: Half, cond: int, offset: int)
    ensures DecodeWide(h1, h2) == CondJump(cond, offset) <==> CondEncodes(cond, offset, h1, h2)
  {
    hide CondEncodes, IsB, IsBl, IsBlx, IsBCond, IsLdrLiteral, IsAdr, BranchOffset, BlxOffset, CondOffset, LiteralOffset, AdrOffset, AdrRd, Bits;
    CondClass(h1, h2);
    if IsBCond(h1, h2) { CondFieldsEncode(h1, h2); }
    if CondEncodes(cond, offset, h1, h2) { CondEncodeFields(h1, h2, cond, offset); }
  }

  /** The converse, offset by offset: what is encoded is decoded. */
  lemma BranchesRoundTrip(offset: int)
    requires -0x1000000 <= offset < 0x1000000 && offset % 2 == 0
    ensures DecodeWide(BranchFirst(offset), BranchSecond(0x9000, offset)) == Jump(offset)
    ensures DecodeWide(BranchFirst(offset), BranchSecond(0xd000, offset)) == Call(false, offset)
    ensures offset % 4 == 0 ==> DecodeWide(BranchFirst(offset), BranchSecond(0xc000, offset)) == Call(true, offset)
  {
    hide DecodeWide, BranchFirst, BranchSecond;
    BranchCoding(BranchFirst(offset), BranchSecond(0x9000, offset), offset);
    CallCoding(BranchFirst(offset), BranchSecond(0xd000, offset), offset);
    ExchangeCoding(BranchFirst(offset), BranchSecond(0xc000, offset), offset);
  }

  // ---------------------------------------------------------------- wide loads and ADR

  /** LDR (literal), added or subtracted; zero has both encodings. */
  lemma LiteralCoding(h1: Half, h2: Half, rt: int, offset: int)
    ensures DecodeWide(h1, h2) == LoadLiteral(rt, offset) <==>
            && 0 <= rt < 16 && -0x1000 < offset < 0x1000
            && ((h1 == 0xf8df && offset >= 0 && h2 == rt * 0x1000 + offset) || (h1 == 0xf85f && offset <= 0 && h2 == rt * 0x1000 - offset))
  {
    assert h1 == 0xf8df || h1 == 0xf85f ==> h1 / 0x800 == 31;
    if 0 <= rt < 16 && 0 <= offset < 0x1000 && h2 == rt * 0x1000 + offset { DivUnique(h2, 0x1000, rt, offset); }
    if 0 <= rt < 16 && 0 <= -offset < 0x1000 && h2 == rt * 0x1000 - offset { DivUnique(h2, 0x1000, rt, -offset); }
    hide BranchOffset, BlxOffset, CondOffset, Op3, Bits, IsAdr, AdrOffset, AdrRd;
  }

  /** LDR (immediate, T3). */
  lemma LoadCoding(h1: Half, h2: Half, rt: int, rn: int, offset: int)
    ensures DecodeWide(h1, h2) == Load(rt, rn, offset) <==>
            0 <= rt < 16 && 0 <= rn < 15 && 0 <= offset < 0x1000 && h1 == 0xf8d0 + rn && h2 == rt * 0x1000 + offset
  {
    if 0 <= rt < 16 && 0 <= offset < 0x1000 && h2 == rt * 0x1000 + offset { DivUnique(h2, 0x1000, rt, offset); }
    if 0 <= rn < 15 && h1 == 0xf8d0 + rn { DivUnique(h1, 0x10, 0xf8d, rn); DivUnique(h1, 0x800, 31, 0xd0 + rn); }
    hide BranchOffset, BlxOffset, CondOffset, Op3, Bits, IsAdr, AdrOffset, AdrRd;
  }

  /** i, imm3 and imm8 of a constant below 0x1000. */
  function AdrFirst(op: int, imm: int): int { op + imm / 0x800 * 0x400 }
  function AdrSecond(rd: int, imm: int): int { Bits(imm, 0x100, 8) * 0x1000 + rd * 0x100 + imm % 0x100 }

  predicate AdrEncodes(rd: int, offset: int, h1: Half, h2: Half) {
    && 0 <= rd < 16 && -0x1000 < offset < 0x1000
    && ((offset >= 0 && h1 == AdrFirst(0xf20f, offset) && h2 == AdrSecond(rd, offset))
        || (offset <= 0 && h1 == AdrFirst(0xf2af, -offset) && h2 == AdrSecond(rd, -offset)))
  }

  lemma AdrSecondIs(h: Half, rd: int, m: int, k: int)
    ensures 0 <= rd < 16 && 0 <= m < 8 && 0 <= k < 0x100 && h == m * 0x1000 + rd * 0x100 + k
            <==> h < 0x8000 && Bits(h, 0x100, 16) == rd && Bits(h, 0x1000, 8) == m && h % 0x100 == k
  {
    Peel(h, 0x100, 16);
    Peel(h, 0x1000, 8);
  }

  lemma AdrFirstIs(h: Half, i: int)
    ensures 0 <= i < 2 && h == 0xf20f + i * 0x400 <==> h - Bits(h, 0x400, 2) * 0x400 == 0xf20f && Bits(h, 0x400, 2) == i
    ensures 0 <= i < 2 && h == 0xf2af + i * 0x400 <==> h - Bits(h, 0x400, 2) * 0x400 == 0xf2af && Bits(h, 0x400, 2) == i
    ensures h - Bits(h, 0x400, 2) * 0x400 == 0xf20f ==> Bits(h, 0x80, 2) == 0
    ensures h - Bits(h, 0x400, 2) * 0x400 == 0xf2af ==> Bits(h, 0x80, 2) == 1
  {
  }

  lemma ImmIs(imm: int, i: int, m: int, k: int)
    requires 0 <= i < 2 && 0 <= m < 8 && 0 <= k < 0x100
    ensures imm == i * 0x800 + m * 0x100 + k <==> 0 <= imm < 0x1000 && imm / 0x800 == i && Bits(imm, 0x100, 8) == m && imm % 0x100 == k
  {
    Peel(imm, 0x100, 8);
  }

  lemma AdrClass(h1: Half, h2: Half)
    ensures IsAdr(h1, h2) ==> !BranchClass(h1, h2) && !IsLdrLiteral(h1) && h1 / 0x10 != 0xf8d
  {
  }

  /** ADR (T3, which adds, and T2, which subtracts); zero has both encodings. */
  lemma AdrCoding(h1: Half, h2: Half, rd: int, offset: int)
    ensures DecodeWide(h1, h2) == Adr(rd, offset) <==> AdrEncodes(rd, offset, h1, h2)
  {
    AdrClass(h1, h2);
    assert DecodeWide(h1, h2) == Adr(rd, offset) <==> IsAdr(h1, h2) && AdrRd(h2) == rd && AdrOffset(h1, h2) == offset by {
      hide BranchOffset, BlxOffset, CondOffset, Op3, Bits, IsAdr, AdrOffset, AdrRd;
    }
    hide DecodeWide;
    AdrFields(h1, h2, rd, offset);
  }

  lemma AdrFields(h1: Half, h2: Half, rd: int, offset: int)
    ensures IsAdr(h1, h2) && AdrRd(h2) == rd && AdrOffset(h1, h2) == offset <==> AdrEncodes(rd, offset, h1, h2)
  {
    if IsAdr(h1, h2) && AdrRd(h2) == rd && AdrOffset(h1, h2) == offset {
      var i, m, k := Bits(h1, 0x400, 2), Bits(h2, 0x1000, 8), h2 % 0x100;
      var imm := k + m * 0x100 + i * 0x800;
      assert 0 <= i < 2;
      AdrFirstIs(h1, i);
      AdrSecondIs(h2, rd, m, k);
      hide Bits;
      ImmIs(imm, i, m, k);
    }
    if 0 <= rd < 16 && 0 <= offset < 0x1000 && h1 == AdrFirst(0xf20f, offset) && h2 == AdrSecond(rd, offset) {
      AdrBack(h1, h2, rd, offset, 0xf20f);
    }
    if 0 <= rd < 16 && 0 <= -offset < 0x1000 && h1 == AdrFirst(0xf2af, -offset) && h2 == AdrSecond(rd, -offset) {
      AdrBack(h1, h2, rd, -offset, 0xf2af);
    }
  }

  lemma AdrBack(h1: Half, h2: Half, rd: int, imm: int, op: int)
    requires op == 0xf20f || op == 0xf2af
    requires 0 <= rd < 16 && 0 <= imm < 0x1000 && h1 == AdrFirst(op, imm) && h2 == AdrSecond(rd, imm)
    ensures IsAdr(h1, h2) && AdrRd(h2) == rd && AdrOffset(h1, h2) == if op == 0xf20f then imm else -imm
  {
    var i, m, k := imm / 0x800, Bits(imm, 0x100, 8), imm % 0x100;
    assert 0 <= i < 2 && 0 <= m < 8;
    ImmIs(imm, i, m, k);
    hide Bits;
    AdrFirstIs(h1, i);
    AdrSecondIs(h2, rd, m, k);
  }

  // ---------------------------------------------------------------- 16-bit instructions

  /** The classes by the upper byte. */
  lemma NarrowClasses(h: Half)
    ensures var t := h / 0x100;
            && (IsHigh(h) <==> 0x44 <= t < 0x48) && (IsNarrowLdr(h) <==> 0x48 <= t < 0x50)
            && (IsNarrowAdr(h) <==> 0xa0 <= t < 0xa8) && (IsNarrowCond(h) <==> 0xd0 <= t < 0xe0)
            && (IsCompareBranch(h) <==> t in {0xb1, 0xb3, 0xb9, 0xbb}) && (IsNarrowB(h) <==> 0xe0 <= t < 0xe8)
  {
    Peel(h, 0x100, 2);
    Peel(h, 0x200, 2);
    Peel(h, 0x400, 2);
    Peel(h, 0x800, 2);
  }

  lemma Upper(h: Half, top: int, n: int, x: int, k: int)
    requires 0 < n && 0 <= x < n && 0 <= k < 0x100 && h == top * 0x100 + x * 0x100 + k && top % n == 0
    ensures h / 0x100 == top + x && h % 0x100 == k && Bits(h, 0x100, n) == x
  {
    DivUnique(h, 0x100, top + x, k);
    DivUnique(top + x, n, top / n, x);
  }

  lemma UpperBack(h: Half, top: int, n: int)
    requires 0 < n && top <= h / 0x100 < top + n && top % n == 0
    ensures 0 <= Bits(h, 0x100, n) < n && h == top * 0x100 + Bits(h, 0x100, n) * 0x100 + h % 0x100
  {
    DivUnique(h / 0x100, n, top / n, h / 0x100 - top);
  }

  /** A signed field that counts halfwords. */
  lemma SignedIs(f: int, n: int, offset: int)
    requires n > 0 && n % 2 == 0 && 0 <= f < n
    ensures 2 * Signed(f, n) == offset <==> -n <= offset < n && offset % 2 == 0 && offset / 2 % n == f
  {
    var x := offset / 2;
    if 2 * Signed(f, n) == offset { DivUnique(x, n, if 2 * f >= n then -1 else 0, f); }
    if -n <= 2 * x < n && x % n == f { DivUnique(x, n, if x < 0 then -1 else 0, if x < 0 then x + n else x); }
  }

  /** LDR (literal, T1). */
  lemma NarrowLiteralCoding(h: Half, rt: int, offset: int)
    ensures DecodeNarrow(h) == LoadLiteral(rt, offset) <==>
            0 <= rt < 8 && 0 <= offset < 0x400 && offset % 4 == 0 && h == 0x4800 + rt * 0x100 + offset / 4
  {
    NarrowClasses(h);
    hide IsHigh, IsNarrowLdr, IsNarrowAdr, IsNarrowCond, IsCompareBranch, IsNarrowB, Bits, CompareOffset, HighRd, HighRm, Signed;
    if IsNarrowLdr(h) { UpperBack(h, 0x48, 8); }
    if 0 <= rt < 8 && 0 <= offset < 0x400 && h == 0x4800 + rt * 0x100 + offset / 4 { Upper(h, 0x48, 8, rt, offset / 4); }
  }

  /** ADR (T1). */
  lemma NarrowAdrCoding(h: Half, rd: int, offset: int)
    ensures DecodeNarrow(h) == Adr(rd, offset) <==>
            0 <= rd < 8 && 0 <= offset < 0x400 && offset % 4 == 0 && h == 0xa000 + rd * 0x100 + offset / 4
  {
    NarrowClasses(h);
    hide IsHigh, IsNarrowLdr, IsNarrowAdr, IsNarrowCond, IsCompareBranch, IsNarrowB, Bits, CompareOffset, HighRd, HighRm, Signed;
    if IsNarrowAdr(h) { UpperBack(h, 0xa0, 8); }
    if 0 <= rd < 8 && 0 <= offset < 0x400 && h == 0xa000 + rd * 0x100 + offset / 4 { Upper(h, 0xa0, 8, rd, offset / 4); }
  }

  /** B (T1): conditions below 14. */
  lemma NarrowCondCoding(h: Half, cond: int, offset: int)
    ensures DecodeNarrow(h) == CondJump(cond, offset) <==>
            0 <= cond < 14 && -0x100 <= offset < 0x100 && offset % 2 == 0 && h == 0xd000 + cond * 0x100 + offset / 2 % 0x100
  {
    NarrowClasses(h);
    SignedIs(h % 0x100, 0x100, offset);
    hide IsHigh, IsNarrowLdr, IsNarrowAdr, IsNarrowCond, IsCompareBranch, IsNarrowB, Bits, CompareOffset, HighRd, HighRm, Signed;
    if IsNarrowCond(h) { UpperBack(h, 0xd0, 16); }
    if 0 <= cond < 14 && h == 0xd000 + cond * 0x100 + offset / 2 % 0x100 { Upper(h, 0xd0, 16, cond, offset / 2 % 0x100); }
  }

  /** B (T2). */
  lemma NarrowBranchCoding(h: Half, offset: int)
    ensures DecodeNarrow(h) == Jump(offset) <==> -0x800 <= offset < 0x800 && offset % 2 == 0 && h == 0xe000 + offset / 2 % 0x800
  {
    NarrowClasses(h);
    SignedIs(h % 0x800, 0x800, offset);
    hide IsHigh, IsNarrowLdr, IsNarrowAdr, IsNarrowCond, IsCompareBranch, Bits, CompareOffset, HighRd, HighRm, Signed;
    if h == 0xe000 + offset / 2 % 0x800 { DivUnique(h, 0x800, 28, offset / 2 % 0x800); }
  }

  lemma CompareReassemble(h: Half)
    requires IsCompareBranch(h)
    ensures h == 0xb100 + Bits(h, 0x800, 2) * 0x800 + Bits(h, 0x200, 2) * 0x200 + Bits(h, 8, 32) * 8 + h % 8
  {
    Peel(h, 8, 32);
    Peel(h, 0x100, 2);
    Peel(h, 0x200, 2);
    Peel(h, 0x400, 2);
    Peel(h, 0x800, 2);
  }

  lemma CompareDisassemble(h: Half, op: int, i: int, k: int, rn: int)
    requires 0 <= op < 2 && 0 <= i < 2 && 0 <= k < 32 && 0 <= rn < 8 && h == 0xb100 + op * 0x800 + i * 0x200 + k * 8 + rn
    ensures IsCompareBranch(h) && Bits(h, 0x800, 2) == op && Bits(h, 0x200, 2) == i && Bits(h, 8, 32) == k && h % 8 == rn
  {
    var t := 0xb1 + 8 * op + 2 * i;
    DivUnique(h, 8, 32 * t + k, rn);
    DivUnique(32 * t + k, 32, t, k);
    DivUnique(h, 0x100, t, 8 * k + rn);
    DivUnique(h, 0x200, 88 + 4 * op + i, 0x100 + 8 * k + rn);
    DivUnique(h, 0x400, 44 + 2 * op, 0x100 + 0x200 * i + 8 * k + rn);
    DivUnique(h, 0x800, 22 + op, 0x100 + 0x200 * i + 8 * k + rn);
    DivUnique(h, 0x1000, 11, 0x100 + op * 0x800 + 0x200 * i + 8 * k + rn);
  }

  lemma CompareFields(h: Half, op: int, i: int, k: int, rn: int)
    ensures 0 <= op < 2 && 0 <= i < 2 && 0 <= k < 32 && 0 <= rn < 8 && h == 0xb100 + op * 0x800 + i * 0x200 + k * 8 + rn
            <==> IsCompareBranch(h) && Bits(h, 0x800, 2) == op && Bits(h, 0x200, 2) == i && Bits(h, 8, 32) == k && h % 8 == rn
  {
    assert 0 <= Bits(h, 0x800, 2) < 2 && 0 <= Bits(h, 0x200, 2) < 2 && 0 <= Bits(h, 8, 32) < 32;
    hide Bits, IsCompareBranch;
    if IsCompareBranch(h) { CompareReassemble(h); }
    if 0 <= op < 2 && 0 <= i < 2 && 0 <= k < 32 && 0 <= rn < 8 && h == 0xb100 + op * 0x800 + i * 0x200 + k * 8 + rn {
      CompareDisassemble(h, op, i, k, rn);
    }
  }

  lemma CompareOffsetIs(offset: int, i: int, k: int)
    requires 0 <= i < 2 && 0 <= k < 32
    ensures offset == i * 0x40 + k * 2 <==> 0 <= offset < 0x80 && offset % 2 == 0 && offset / 0x40 == i && offset / 2 % 32 == k
  {
    Peel(offset, 2, 32);
  }

  /** CBZ and CBNZ. */
  lemma CompareCoding(h: Half, ifNonZero: bool, rn: int, offset: int)
    ensures DecodeNarrow(h) == CompareJump(ifNonZero, rn, offset) <==>
            && 0 <= rn < 8 && 0 <= offset < 0x80 && offset % 2 == 0
            && h == 0xb100 + (if ifNonZero then 0x800 else 0) + offset / 0x40 * 0x200 + offset / 2 % 32 * 8 + rn
  {
    NarrowClasses(h);
    var i, k, i', k' := Bits(h, 0x200, 2), Bits(h, 8, 32), offset / 0x40, offset / 2 % 32;
    assert 0 <= i < 2 && 0 <= k < 32 && 0 <= Bits(h, 0x800, 2) < 2;
    CompareFields(h, Bits(h, 0x800, 2), i, k, h % 8);
    CompareOffsetIs(offset, i, k);
    if 0 <= offset < 0x80 {
      CompareFields(h, if ifNonZero then 1 else 0, i', k', rn);
      CompareOffsetIs(offset, i', k');
    }
    hide IsHigh, IsNarrowLdr, IsNarrowAdr, IsNarrowCond, IsCompareBranch, IsNarrowB, Bits, HighRd, HighRm, Signed;
  }

  lemma HighFields(h: Half, op: int, d: int, rm: int, k: int)
    ensures 0 <= op < 4 && 0 <= d < 2 && 0 <= rm < 16 && 0 <= k < 8 && h == 0x4400 + op * 0x100 + d * 0x80 + rm * 8 + k
            <==> IsHigh(h) && Bits(h, 0x100, 4) == op && Bits(h, 0x80, 2) == d && Bits(h, 8, 16) == rm && h % 8 == k
  {
    Peel(h, 8, 16);
    Peel(h, 0x80, 2);
    Peel(h, 0x100, 4);
  }

  /** The halfword of an operation on two registers, any of them high. */
  function HighCode(op: int, rd: int, rm: int): int { op + rd / 8 * 0x80 + rm * 8 + rd % 8 }

  lemma HighClass(h: Half)
    ensures IsHigh(h) ==> DecodeNarrow(h) == DecodeHigh(h) && 0 <= Bits(h, 0x100, 4) < 4 && 0 <= Bits(h, 0x80, 2) < 2
    ensures !IsHigh(h) ==> var i := DecodeNarrow(h);
              !i.HighAdd? && !i.HighCompare? && !i.HighMove? && !i.CallRegister? && !i.ExchangePc?
  {
    NarrowClasses(h);
    hide IsNarrowLdr, IsNarrowAdr, IsNarrowCond, IsCompareBranch, IsNarrowB, CompareOffset, HighRd, HighRm, DecodeHigh;
  }

  lemma HighCoding(h: Half, op: int, rd: int, rm: int)
    requires 0 <= op < 3
    ensures IsHigh(h) && Bits(h, 0x100, 4) == op && HighRd(h) == rd && HighRm(h) == rm
            <==> 0 <= rd < 16 && 0 <= rm < 16 && h == HighCode(0x4400 + op * 0x100, rd, rm)
  {
    var d, k := Bits(h, 0x80, 2), h % 8;
    assert 0 <= d < 2 && 0 <= Bits(h, 8, 16) < 16;
    HighFields(h, op, d, Bits(h, 8, 16), k);
    HighFields(h, op, rd / 8, rm, rd % 8);
    hide Bits;
    if HighRd(h) == rd { DivUnique(rd, 8, d, k); }
  }

  /** ADD, CMP and MOV on two registers, any of them high. */
  lemma HighOpCoding(h: Half, rd: int, rm: int)
    ensures DecodeNarrow(h) == HighAdd(rd, rm) <==> 0 <= rd < 16 && 0 <= rm < 16 && h == HighCode(0x4400, rd, rm)
    ensures DecodeNarrow(h) == HighCompare(rd, rm) <==> 0 <= rd < 16 && 0 <= rm < 16 && h == HighCode(0x4500, rd, rm)
    ensures DecodeNarrow(h) == HighMove(rd, rm) <==> 0 <= rd < 16 && 0 <= rm < 16 && h == HighCode(0x4600, rd, rm)
  {
    hide IsHigh, DecodeNarrow, HighRd, HighRm, HighCode, Bits;
    HighClass(h);
    HighCoding(h, 0, rd, rm);
    HighCoding(h, 1, rd, rm);
    HighCoding(h, 2, rd, rm);
  }

  /** BLX (register), but for PC, and BX PC; the lowest three bits are ignored. */
  lemma ExchangeRegisterCoding(h: Half, rm: int)
    ensures DecodeNarrow(h) == CallRegister(rm) <==> 0 <= rm < 15 && h - h % 8 == 0x4780 + rm * 8
    ensures DecodeNarrow(h) == ExchangePc <==> h - h % 8 == 0x4778
  {
    HighFields(h, 3, 1, rm, h % 8);
    HighFields(h, 3, 0, PC, h % 8);
    assert 0 <= Bits(h, 8, 16) < 16;
    hide IsHigh, DecodeNarrow, HighRd, Bits;
    HighClass(h);
  }

  /** NOP, and what the machine does not model: IT, UDF, SVC and BLX PC. */
  lemma HintCoding(h: Half)
    ensures DecodeNarrow(h) == Nop <==> h == 0xbf00
    ensures DecodeNarrow(h) == NotModelled <==> (h / 0x100 == 0xbf && h % 16 != 0) || 0xde00 <= h < 0xe000 || 0x47f8 <= h < 0x4800
  {
    NarrowClasses(h);
    HighFields(h, 3, 1, PC, h % 8);
    if IsNarrowCond(h) { UpperBack(h, 0xd0, 16); }
    HighClass(h);
    hide IsNarrowLdr, IsNarrowAdr, IsNarrowCond, IsCompareBranch, IsNarrowB, IsHigh, CompareOffset, HighRd, Bits;
  }

  // ---------------------------------------------------------------- what is fetched, and what ends the relocation

  /** The first halfwords of 32-bit instructions. */
  lemma WideExactly(h: Half)
    ensures IsThumb2(h) <==> h >= 0xe800
  {
    Peel(h, 0x800, 4);
  }

  /** Exactly UDF and SVC abort the relocation. */
  lemma AbortsExactly(x: Code)
    ensures ThumbRelocator.Aborts(x) <==> x.Narrow? && 0xde00 <= x.h < 0xe000
  {
    if x.Narrow? {
      NarrowClasses(x.h);
      if IsNarrowCond(x.h) { UpperBack(x.h, 0xd0, 16); }
    }
  }

  /** Exactly BX PC ends the covered range. */
  lemma ExchangePcExactly(h: Half)
    ensures ThumbRelocator.IsBxPc(h) <==> 0x4778 <= h < 0x4780
  {
    HighFields(h, 3, 0, PC, h % 8);
    hide IsHigh, Bits;
  }
}
