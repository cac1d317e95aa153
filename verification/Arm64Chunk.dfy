/** What the finished code holds, position by position, and what the rewritten words decode to.
 */
module Arm64Chunk {
  import opened Arithmetic
  import opened MachineWords
  import opened Arm64Machine
  import opened Arm64Assembler
  import opened Arm64Relocator

  /** Position, in words, of the code of instruction `i`; `Pos(block, origin, |block|)` is the closing branch. */
  ghost function Pos(block: seq<Word>, origin: U64, i: nat): nat
    requires Relocatable(block) && i <= |block|
  {
    |Layout(block, origin, i).buffer|
  }

  lemma LayoutStep(block: seq<Word>, origin: U64, i: nat)
    requires Relocatable(block) && i < |block|
    ensures PieceOf(block[i], At(origin, i)).Piece?
    ensures var im, im', p := Layout(block, origin, i), Layout(block, origin, i + 1), PieceOf(block[i], At(origin, i));
            && im'.buffer == im.buffer + p.words
            && im'.labels == if p.use < 0 then im.labels else im.labels + [Label(p.data, [|im.buffer| + p.use])]
  {
    hide PieceOf, At, LiteralClass;
    AbortsOnlyOnLiterals(block[i], At(origin, i));
  }

  lemma {:induction false} LayoutPrefix(block: seq<Word>, origin: U64, i: nat, n: nat)
    requires Relocatable(block) && i <= n <= |block|
    ensures Layout(block, origin, i).buffer <= Layout(block, origin, n).buffer
    ensures Layout(block, origin, i).labels <= Layout(block, origin, n).labels
    decreases n
  {
    hide PieceOf, Relocatable, At, Layout;
    if i < n {
      LayoutPrefix(block, origin, i, n - 1);
      LayoutStep(block, origin, n - 1);
    }
  }

  // ---------------------------------------------------------------- the placeholder occurs where it is recorded

  lemma InvertedTop(w: Word)
    ensures TestClass(w) ==> InvertTest(w) != LDR_TMP
    ensures CompareClass(w) ==> InvertCompare(w) != LDR_TMP
    ensures CondClass(w) ==> InvertCond(w) != LDR_TMP
  {
  }

  lemma MovesAreNot(rd: int, imm: U64)
    requires 0 <= rd < 32
    ensures |MovWords(rd, imm)| == 4 && forall j :: 0 <= j < 4 ==> MovWords(rd, imm)[j] != LDR_TMP
  {
    HalvesSum(imm);
    hide Bits;
  }

  lemma PlainIsNot(w: Word)
    ensures LiteralClass(LDR_TMP)
    ensures 0 <= w % 0x20 < 32 && LdrX(w % 0x20, X17) != LDR_TMP
  {
  }

  lemma OnlyUseIsPlaceholder(w: Word, pc: U64, j: nat)
    requires PieceOf(w, pc).Piece?
    requires j < |PieceOf(w, pc).words| && j != PieceOf(w, pc).use
    ensures PieceOf(w, pc).words[j] != LDR_TMP
  {
    hide LiteralClass, PcAddressClass, BranchClass, TestClass, CompareClass, CondClass, SignExtend, Bits, MovWords, LdrX,
         InvertTest, InvertCompare, InvertCond, Wrap, DecodeImm14Offset, DecodeImm19Offset, DecodeImm26Offset,
         DecodeImmhiImmloOffset;
    InvertedTop(w);
    PlainIsNot(w);
    if LiteralClass(w) {
      MovesAreNot(X17, Wrap(DecodeImm19Offset(w) + pc));
    } else if PcAddressClass(w) {
      MovesAreNot(w % 0x20, Wrap(pc + DecodeImmhiImmloOffset(w)));
      MovesAreNot(w % 0x20, Wrap(pc - pc % 4096 + 4096 * DecodeImmhiImmloOffset(w)));
    }
  }

  // ---------------------------------------------------------------- contents

  /** The words of instruction `i` are in place; its literal load, if it has one,
      carries the distance to slot `q` of the pool, which holds its data. */
  lemma PieceInChunk(block: seq<Word>, origin: U64, i: nat) returns (q: nat)
    requires Relocatable(block) && i < |block|
    requires PieceOf(block[i], At(origin, i)).Piece?
    ensures var p, pos, ch := PieceOf(block[i], At(origin, i)), Pos(block, origin, i), Chunk(block, origin);
            && pos + |p.words| == Pos(block, origin, i + 1) <= |ch|
            && (forall j :: 0 <= j < |p.words| && j != p.use ==> ch[pos + j] == p.words[j])
            && (p.use >= 0 ==>
                  && p.use < |p.words|
                  && pos + |p.words| <= q && q + 1 < |ch| && ch[q] == Lo(p.data) && ch[q + 1] == Hi(p.data)
                  && ch[pos + p.use] == Patch(LDR_TMP, q - (pos + p.use)))
  {
    hide PieceOf, Chunk, Layout, Relocatable, Pos;
    var p, pos := PieceOf(block[i], At(origin, i)), Pos(block, origin, i);
    ChunkLonger(block, origin, i);
    PieceUse(block[i], At(origin, i));
    forall j | 0 <= j < |p.words| && j != p.use ensures Chunk(block, origin)[pos + j] == p.words[j] {
      WordInChunk(block, origin, i, j);
    }
    q := 0;
    if p.use >= 0 { q := UseInChunk(block, origin, i); }
  }

  lemma ChunkLonger(block: seq<Word>, origin: U64, i: nat)
    requires Relocatable(block) && i < |block| && PieceOf(block[i], At(origin, i)).Piece?
    ensures Pos(block, origin, i) + |PieceOf(block[i], At(origin, i)).words| == Pos(block, origin, i + 1)
    ensures Pos(block, origin, i + 1) <= Pos(block, origin, |block|) < |Chunk(block, origin)|
  {
    InUnbound(block, origin, i);
    ChunkLabels(block, origin);
    hide PieceOf, Layout, Relocatable;
  }

  lemma WordInChunk(block: seq<Word>, origin: U64, i: nat, j: nat)
    requires Relocatable(block) && i < |block| && PieceOf(block[i], At(origin, i)).Piece?
    requires j < |PieceOf(block[i], At(origin, i)).words| && j != PieceOf(block[i], At(origin, i)).use
    ensures Pos(block, origin, i) + j < |Chunk(block, origin)|
    ensures Chunk(block, origin)[Pos(block, origin, i) + j] == PieceOf(block[i], At(origin, i)).words[j]
  {
    hide PieceOf, Layout, Relocatable, Pos, Unbound;
    InUnbound(block, origin, i);
    OnlyUseIsPlaceholder(block[i], At(origin, i), j);
    Unrecorded(block, origin, Pos(block, origin, i) + j);
    ChunkLabels(block, origin);
    BindCode(Unbound(block, origin), Layout(block, origin, |block|).labels, Pos(block, origin, i) + j);
  }

  lemma UseInChunk(block: seq<Word>, origin: U64, i: nat) returns (q: nat)
    requires Relocatable(block) && i < |block| && PieceOf(block[i], At(origin, i)).Piece?
    requires PieceOf(block[i], At(origin, i)).use >= 0
    ensures var p, pos, ch := PieceOf(block[i], At(origin, i)), Pos(block, origin, i), Chunk(block, origin);
            && p.use < |p.words| && pos + |p.words| <= q && q + 1 < |ch| && ch[q] == Lo(p.data) && ch[q + 1] == Hi(p.data)
            && ch[pos + p.use] == Patch(LDR_TMP, q - (pos + p.use))
  {
    hide PieceOf, Relocatable, Layout, Unbound, Pos, Patch;
    var p, pos, labels := PieceOf(block[i], At(origin, i)), Pos(block, origin, i), Layout(block, origin, |block|).labels;
    var k := LabelInLayout(block, origin, i);
    PieceUse(block[i], At(origin, i));
    InUnbound(block, origin, i);
    ChunkLabels(block, origin);
    var b := Unbound(block, origin);
    q := |b| + 2 * k;
    BindCode(b, labels, pos + p.use);
    BindPool(b, labels, k);
    hide Bind, UsesWithin, UsesDisjoint;
  }

  lemma LabelInLayout(block: seq<Word>, origin: U64, i: nat) returns (k: nat)
    requires Relocatable(block) && i < |block| && PieceOf(block[i], At(origin, i)).Piece?
    requires PieceOf(block[i], At(origin, i)).use >= 0
    ensures var p, labels := PieceOf(block[i], At(origin, i)), Layout(block, origin, |block|).labels;
            k < |labels| && labels[k] == Label(p.data, [Pos(block, origin, i) + p.use])
  {
    hide PieceOf, Relocatable, At, Layout;
    k := |Layout(block, origin, i).labels|;
    LayoutStep(block, origin, i);
    LayoutPrefix(block, origin, i + 1, |block|);
  }

  lemma InUnbound(block: seq<Word>, origin: U64, i: nat)
    requires Relocatable(block) && i < |block|
    requires PieceOf(block[i], At(origin, i)).Piece?
    ensures var p, pos, b := PieceOf(block[i], At(origin, i)), Pos(block, origin, i), Unbound(block, origin);
            && pos + |p.words| == Pos(block, origin, i + 1) <= Pos(block, origin, |block|) < |b|
            && forall j :: 0 <= j < |p.words| ==> b[pos + j] == p.words[j]
  {
    hide PieceOf, Relocatable, At, Layout;
    LayoutStep(block, origin, i);
    LayoutPrefix(block, origin, i + 1, |block|);
  }

  /** A word other than the placeholder belongs to no label. */
  lemma Unrecorded(block: seq<Word>, origin: U64, p: nat)
    requires Relocatable(block) && p < |Unbound(block, origin)| && Unbound(block, origin)[p] != LDR_TMP
    ensures var labels := Layout(block, origin, |block|).labels;
            forall k :: 0 <= k < |labels| ==> p !in labels[k].uses
  {
    LayoutLabels(block, origin, |block|);
    hide Layout, Relocatable;
  }

  /** The closing branch and its address. */
  lemma TailInChunk(block: seq<Word>, origin: U64)
    requires Relocatable(block)
    ensures var ch, p, t := Chunk(block, origin), Pos(block, origin, |block|), At(origin, |block|);
            && p + 4 <= |ch|
            && ch[p] == Patch(LDR_TMP, 2) && ch[p + 1] == BR_TMP && ch[p + 2] == Lo(t) && ch[p + 3] == Hi(t)
  {
    TailWord(block, origin, 0);
    TailWord(block, origin, 1);
    TailWord(block, origin, 2);
    TailWord(block, origin, 3);
    hide Patch, Pos, Chunk, Layout, Relocatable;
  }

  lemma TailWord(block: seq<Word>, origin: U64, j: nat)
    requires Relocatable(block) && j < 4
    ensures Pos(block, origin, |block|) + j < |Chunk(block, origin)|
    ensures Chunk(block, origin)[Pos(block, origin, |block|) + j] == TailWords(At(origin, |block|))[j]
  {
    hide Relocatable, TailWords, Unbound, Layout, Pos, UsesWithin, UsesDisjoint, Bind;
    var b, labels, p := Unbound(block, origin), Layout(block, origin, |block|).labels, Pos(block, origin, |block|);
    TailInUnbound(block, origin, j);
    TailUnrecorded(block, origin, j);
    ChunkLabels(block, origin);
    BindCode(b, labels, p + j);
  }

  lemma TailInUnbound(block: seq<Word>, origin: U64, j: nat)
    requires Relocatable(block) && j < 4
    ensures Pos(block, origin, |block|) + j < |Unbound(block, origin)|
    ensures Unbound(block, origin)[Pos(block, origin, |block|) + j] == TailWords(At(origin, |block|))[j]
  {
    hide Layout, Relocatable, At, Patch, Lo, Hi;
  }

  lemma TailUnrecorded(block: seq<Word>, origin: U64, j: nat)
    requires Relocatable(block) && j < 4
    ensures Pos(block, origin, |block|) + j < |Unbound(block, origin)|
    ensures var labels := Layout(block, origin, |block|).labels;
            forall k :: 0 <= k < |labels| ==> Pos(block, origin, |block|) + j !in labels[k].uses
  {
    LayoutLabels(block, origin, |block|);
    hide Layout, Relocatable, TailWords;
  }

  // ---------------------------------------------------------------- the decoders

  /** The shifts of `SignExtend` give the two's-complement value of each immediate field. */
  lemma DecodersAgree(w: Word)
    ensures DecodeImm14Offset(w) == Imm14(w)
    ensures DecodeImm19Offset(w) == Imm19(w)
    ensures DecodeImm26Offset(w) == Imm26(w)
    ensures DecodeImmhiImmloOffset(w) == Imm21(w)
  {
    SignExtendIsSigned(Bits(w, 0x20, 0x4000), Bits(w, 0x20, 0x80000), w % 0x4000000);
    SignExtendWhole(Bits(w, 0x20000000, 4) + 4 * Bits(w, 0x20, 0x80000));
    hide SignExtend;
  }

  lemma SignExtendIsSigned(f14: int, f19: int, f26: int)
    requires 0 <= f14 < 0x4000 && 0 <= f19 < 0x80000 && 0 <= f26 < 0x4000000
    ensures SignExtend(4 * f14, 0x1_0000_0000_0000) == 4 * Signed(f14, 0x4000)
    ensures SignExtend(4 * f19, 0x800_0000_0000) == 4 * Signed(f19, 0x80000)
    ensures SignExtend(4 * f26, 0x10_0000_0000) == 4 * Signed(f26, 0x4000000)
  {
  }

  lemma SignExtendWhole(f: int)
    requires 0 <= f < 0x200000
    ensures SignExtend(f, 0x800_0000_0000) == Signed(f, 0x200000)
  {
  }
}
