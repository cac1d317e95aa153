/** `GenRelocateCodeAndBranch` for A64: copy the instructions of a patched prologue,
    rewrite the PC-relative ones, branch to the instruction after the block, and put
    the branch targets in a literal pool.
 */
module Arm64Relocator {
  import opened MachineWords
  import opened Arm64Machine
  import opened Arm64Assembler

  // ---------------------------------------------------------------- immediate decoders

  /** `(long)(x << s) >> s` on 64 bits, with `scale` the weight 2^s of the shift. */
  function SignExtend(x: int, scale: int): int
    requires scale > 0
  {
    var y := (x * scale) % TWO64;
    (if y >= 0x8000_0000_0000_0000 then y - TWO64 else y) / scale
  }

  function DecodeImm14Offset(w: Word): int { SignExtend(4 * Bits(w, 0x20, 0x4000), 0x1_0000_0000_0000) }
  function DecodeImm19Offset(w: Word): int { SignExtend(4 * Bits(w, 0x20, 0x80000), 0x800_0000_0000) }
  function DecodeImm26Offset(w: Word): int { SignExtend(4 * (w % 0x4000000), 0x10_0000_0000) }
  function DecodeImmhiImmloOffset(w: Word): int {
    SignExtend(Bits(w, 0x20000000, 4) + 4 * Bits(w, 0x20, 0x80000), 0x800_0000_0000)
  }

  // ---------------------------------------------------------------- rewritten branches

  /** Bit 24 flipped and the imm14 field set to 3, that is, to twelve bytes. */
  function InvertTest(w: Word): Word {
    (w / 0x2000000) * 0x2000000 + (1 - Bits(w, 0x1000000, 2)) * 0x1000000 + Bits(w, 0x80000, 32) * 0x80000 + 3 * 0x20 + w % 0x20
  }

  /** Bit 24 flipped and the imm19 field set to 3. */
  function InvertCompare(w: Word): Word {
    (w / 0x2000000) * 0x2000000 + (1 - Bits(w, 0x1000000, 2)) * 0x1000000 + 3 * 0x20 + w % 0x20
  }

  /** Lowest condition bit flipped and the imm19 field set to 3. */
  function InvertCond(w: Word): Word {
    (w / 0x1000000) * 0x1000000 + 3 * 0x20 + Bits(w, 0x10, 2) * 0x10 + (if w % 2 == 0 then w % 16 + 1 else w % 16 - 1)
  }

  // ---------------------------------------------------------------- one instruction

  /** What one instruction becomes: its words and, unless `use` is negative, the index
      among them of a literal load of `data`.  `Abort` is the UNIMPLEMENTED() path. */
  datatype Piece =
    | Piece(words: seq<Word>, use: int, data: U64)
    | Abort

  function PieceOf(w: Word, pc: U64): Piece {
    if LiteralClass(w) then
      if w / 0x40000000 < 2 then
        Piece(MovWords(X17, Wrap(DecodeImm19Offset(w) + pc)) + [LdrX(w % 0x20, X17)], -1, 0)
      else Abort
    else if PcAddressClass(w) then
      if w / 0x80000000 == 0 then Piece(MovWords(w % 0x20, Wrap(pc + DecodeImmhiImmloOffset(w))), -1, 0)
      else Piece(MovWords(w % 0x20, Wrap(pc - pc % 4096 + 4096 * DecodeImmhiImmloOffset(w))), -1, 0)
    else if BranchClass(w) then
      Piece([LDR_TMP, if w / 0x80000000 == 1 then BLR_TMP else BR_TMP], 0, Wrap(DecodeImm26Offset(w) + pc))
    else if TestClass(w) then Piece([InvertTest(w), LDR_TMP, BR_TMP], 1, Wrap(DecodeImm14Offset(w) + pc))
    else if CompareClass(w) then Piece([InvertCompare(w), LDR_TMP, BR_TMP], 1, Wrap(DecodeImm19Offset(w) + pc))
    else if CondClass(w) then Piece([InvertCond(w), LDR_TMP, BR_TMP], 1, Wrap(DecodeImm19Offset(w) + pc))
    else Piece([w], -1, 0)
  }

  // ---------------------------------------------------------------- the whole block

  datatype Image = Image(buffer: seq<Word>, labels: seq<Label>)

  function Append(im: Image, p: Piece): Image
    requires p.Piece?
  {
    Image(im.buffer + p.words, if p.use < 0 then im.labels else im.labels + [Label(p.data, [|im.buffer| + p.use])])
  }

  /** No instruction of the block takes the UNIMPLEMENTED() path; this does not depend on where the block is. */
  ghost predicate Relocatable(block: seq<Word>) {
    forall k {:trigger block[k]} :: 0 <= k < |block| ==> !(LiteralClass(block[k]) && block[k] / 0x40000000 >= 2)
  }

  lemma AbortsOnlyOnLiterals(w: Word, pc: U64)
    ensures PieceOf(w, pc).Abort? <==> LiteralClass(w) && w / 0x40000000 >= 2
  {
    hide LiteralClass, PcAddressClass, BranchClass, TestClass, CompareClass, CondClass, SignExtend, Bits, MovWords;
  }

  ghost function Layout(block: seq<Word>, origin: U64, i: nat): Image
    requires Relocatable(block) && i <= |block|
  {
    if i == 0 then Image([], [])
    else
      AbortsOnlyOnLiterals(block[i - 1], At(origin, i - 1));
      Append(Layout(block, origin, i - 1), PieceOf(block[i - 1], At(origin, i - 1)))
  }

  /** `LiteralLdrBranch`. */
  function TailWords(address: U64): seq<Word> {
    [Patch(LDR_TMP, 2), BR_TMP, Lo(address), Hi(address)]
  }

  ghost function Unbound(block: seq<Word>, origin: U64): seq<Word>
    requires Relocatable(block)
  {
    Layout(block, origin, |block|).buffer + TailWords(At(origin, |block|))
  }

  /** The finished code. */
  ghost function Chunk(block: seq<Word>, origin: U64): seq<Word>
    requires Relocatable(block)
  {
    ChunkLabels(block, origin);
    Bind(Unbound(block, origin), Layout(block, origin, |block|).labels)
  }

  /** Each label has one load, they come in order, and each is the placeholder. */
  ghost predicate LabelsOk(im: Image) {
    && (forall k :: 0 <= k < |im.labels| ==> |im.labels[k].uses| == 1 && im.labels[k].uses[0] < |im.buffer|)
    && (forall k {:trigger im.labels[k]} :: 0 <= k < |im.labels| ==> im.buffer[im.labels[k].uses[0]] == LDR_TMP)
    && (forall j, k :: 0 <= j < k < |im.labels| ==> im.labels[j].uses[0] < im.labels[k].uses[0])
  }

  lemma PieceUse(w: Word, pc: U64)
    requires PieceOf(w, pc).Piece?
    ensures var p := PieceOf(w, pc); p.use < |p.words| && (p.use >= 0 ==> p.words[p.use] == LDR_TMP)
  {
    hide LiteralClass, PcAddressClass, BranchClass, TestClass, CompareClass, CondClass, SignExtend, Bits, MovWords;
  }

  lemma AppendOk(im: Image, p: Piece)
    requires LabelsOk(im) && p.Piece? && p.use < |p.words| && (p.use >= 0 ==> p.words[p.use] == LDR_TMP)
    ensures LabelsOk(Append(im, p))
  {
    var r := Append(im, p);
    forall k | 0 <= k < |r.labels|
      ensures |r.labels[k].uses| == 1 && r.labels[k].uses[0] < |r.buffer| && r.buffer[r.labels[k].uses[0]] == LDR_TMP
    {
      if k < |im.labels| { assert r.labels[k] == im.labels[k]; }
    }
  }

  lemma {:induction false} LayoutLabels(block: seq<Word>, origin: U64, i: nat)
    requires Relocatable(block) && i <= |block|
    ensures LabelsOk(Layout(block, origin, i))
  {
    hide PieceOf, LabelsOk, LiteralClass, Append, At;
    if i == 0 {
      NoLabels();
    } else {
      AbortsOnlyOnLiterals(block[i - 1], At(origin, i - 1));
      PieceUse(block[i - 1], At(origin, i - 1));
      LayoutLabels(block, origin, i - 1);
      AppendOk(Layout(block, origin, i - 1), PieceOf(block[i - 1], At(origin, i - 1)));
    }
  }

  lemma NoLabels()
    ensures LabelsOk(Image([], []))
  {
  }

  lemma ChunkLabels(block: seq<Word>, origin: U64)
    requires Relocatable(block)
    ensures UsesWithin(Layout(block, origin, |block|).labels, |Unbound(block, origin)|)
    ensures UsesDisjoint(Layout(block, origin, |block|).labels)
  {
    LayoutLabels(block, origin, |block|);
    hide Layout, Relocatable, TailWords;
  }

  // ---------------------------------------------------------------- the program

  class TurboAssembler {
    var buffer: seq<Word>
    var labels: seq<Label>

    ghost function State(): Image
      reads this
    {
      Image(buffer, labels)
    }

    constructor ()
      ensures buffer == [] && labels == []
    {
      buffer, labels := [], [];
    }

    method Emit(w: Word)
      modifies this`buffer
      ensures buffer == old(buffer) + [w]
    {
      buffer := buffer + [w];
    }

    method EmitInt64(v: U64)
      modifies this`buffer
      ensures buffer == old(buffer) + [Lo(v), Hi(v)]
    {
      buffer := buffer + [Lo(v), Hi(v)];
    }

    method Mov(rd: int, imm: U64)
      requires 0 <= rd < 32
      modifies this`buffer
      ensures buffer == old(buffer) + MovWords(rd, imm)
    {
      Emit(MovzX(rd, imm % 0x10000, 0));
      Emit(MovkX(rd, Bits(imm, 0x10000, 0x10000), 1));
      Emit(MovkX(rd, Bits(imm, 0x1_0000_0000, 0x10000), 2));
      Emit(MovkX(rd, Bits(imm, 0x1_0000_0000_0000, 0x10000), 3));
    }

    method AppendRelocLabelEntry(data: U64)
      modifies this`labels
      ensures labels == old(labels) + [Label(data, [])]
    {
      labels := labels + [Label(data, [])];
    }

    /** `Ldr(TMP_REG_0, label)` for the label appended last: record the load, emit a placeholder. */
    method LdrTmp()
      requires labels != []
      modifies this
      ensures buffer == old(buffer) + [LDR_TMP]
      ensures var l := old(labels)[|old(labels)| - 1];
              labels == old(labels)[..|old(labels)| - 1] + [Label(l.data, l.uses + [|old(buffer)|])]
      ensures forall ls, d :: old(labels) == ls + [Label(d, [])] ==> labels == ls + [Label(d, [|old(buffer)|])]
    {
      var n := |labels| - 1;
      labels := labels[..n] + [Label(labels[n].data, labels[n].uses + [|buffer|])];
      Emit(LDR_TMP);
      forall ls, d | old(labels) == ls + [Label(d, [])] ensures labels == ls + [Label(d, [|old(buffer)|])] {
        assert old(labels)[..n] == ls && old(labels)[n] == Label(d, []);
        assert [] + [|old(buffer)|] == [|old(buffer)|];
      }
    }

    /** `link_confused_instructions` for a label bound at the end of the buffer. */
    method LinkConfusedInstructions(uses: seq<nat>, pos: nat)
      requires UsesBelow(uses, |buffer|)
      modifies this`buffer
      ensures buffer == Link(old(buffer), uses, pos)
    {
      ghost var goal := Link(buffer, uses, pos);
      for i := 0 to |uses|
        invariant |buffer| == |old(buffer)|
        invariant Link(buffer, uses[i..], pos) == goal
      {
        assert uses[i..][0] == uses[i] && uses[i..][1..] == uses[i + 1..];
        buffer := buffer[uses[i] := Patch(buffer[uses[i]], pos - uses[i])];
      }
      assert uses[|uses|..] == [];
    }

    method RelocBind()
      requires UsesWithin(labels, |buffer|)
      modifies this`buffer
      ensures buffer == Bind(old(buffer), labels)
    {
      ghost var goal := Bind(buffer, labels);
      for i := 0 to |labels|
        invariant |buffer| == |old(buffer)| + 2 * i
        invariant Bind(buffer, labels[i..]) == goal
      {
        assert labels[i..][0] == labels[i] && labels[i..][1..] == labels[i + 1..];
        LinkConfusedInstructions(labels[i].uses, |buffer|);
        EmitInt64(labels[i].data);
      }
      assert labels[|labels|..] == [];
    }

    method LiteralLdrBranch(address: U64)
      modifies this`buffer
      ensures buffer == old(buffer) + TailWords(address)
    {
      var position := |buffer|;
      Emit(LDR_TMP);
      Emit(BR_TMP);
      LinkConfusedInstructions([position], |buffer|);
      assert buffer == old(buffer) + [Patch(LDR_TMP, 2), BR_TMP] by {
        var b := old(buffer) + [LDR_TMP] + [BR_TMP];
        forall p: nat | p < |b| ensures buffer[p] == (old(buffer) + [Patch(LDR_TMP, 2), BR_TMP])[p] {
          LinkAt(b, [position], |b|, p);
        }
      }
      EmitInt64(address);
    }

    /** One round of the relocation loop. */
    method RelocateInstruction(w: Word, pc: U64) returns (ok: bool)
      modifies this
      ensures ok == PieceOf(w, pc).Piece?
      ensures ok ==> State() == Append(old(State()), PieceOf(w, pc))
    {
      hide SignExtend, Bits, MovWords, LiteralClass, PcAddressClass, BranchClass, TestClass, CompareClass, CondClass,
           InvertTest, InvertCompare, InvertCond;
      if LiteralClass(w) {
        if w / 0x40000000 >= 2 { return false; }
        Mov(X17, Wrap(DecodeImm19Offset(w) + pc));
        Emit(LdrX(w % 0x20, X17));
      } else if PcAddressClass(w) {
        if w / 0x80000000 == 0 {
          Mov(w % 0x20, Wrap(pc + DecodeImmhiImmloOffset(w)));
        } else {
          Mov(w % 0x20, Wrap(pc - pc % 4096 + 4096 * DecodeImmhiImmloOffset(w)));
        }
      } else if BranchClass(w) {
        AppendRelocLabelEntry(Wrap(DecodeImm26Offset(w) + pc));
        LdrTmp();
        if w / 0x80000000 == 1 { Emit(BLR_TMP); } else { Emit(BR_TMP); }
      } else if TestClass(w) {
        AppendRelocLabelEntry(Wrap(DecodeImm14Offset(w) + pc));
        Emit(InvertTest(w));
        LdrTmp();
        Emit(BR_TMP);
      } else if CompareClass(w) {
        AppendRelocLabelEntry(Wrap(DecodeImm19Offset(w) + pc));
        Emit(InvertCompare(w));
        LdrTmp();
        Emit(BR_TMP);
      } else if CondClass(w) {
        AppendRelocLabelEntry(Wrap(DecodeImm19Offset(w) + pc));
        Emit(InvertCond(w));
        LdrTmp();
        Emit(BR_TMP);
      } else {
        Emit(w);
      }
      assert buffer == old(buffer) + PieceOf(w, pc).words;
      assert labels == Append(old(State()), PieceOf(w, pc)).labels;
      return true;
    }
  }

  /** The relocator.  It gives up exactly on blocks with an LDRSW, PRFM or 128-bit literal load. */
  method GenRelocateCodeAndBranch(block: seq<Word>, origin: U64) returns (ok: bool, code: seq<Word>)
    ensures ok <==> Relocatable(block)
    ensures ok ==> code == Chunk(block, origin)
  {
    hide PieceOf, LiteralClass, LabelsOk, UsesWithin, TailWords, Bind;
    var assembler := new TurboAssembler();
    var currOrigPc := origin;
    var cursor := 0;
    while cursor < |block|
      invariant 0 <= cursor <= |block|
      invariant currOrigPc == At(origin, cursor)
      invariant Relocatable(block[..cursor])
      invariant Relocatable(block) ==> assembler.State() == Layout(block, origin, cursor)
    {
      AbortsOnlyOnLiterals(block[cursor], currOrigPc);
      var done := assembler.RelocateInstruction(block[cursor], currOrigPc);
      if !done { return false, []; }
      currOrigPc := Wrap(currOrigPc as int + 4);
      cursor := cursor + 1;
    }
    assert block[..cursor] == block;
    ChunkLabels(block, origin);
    assembler.LiteralLdrBranch(currOrigPc);
    assembler.RelocBind();
    return true, assembler.buffer;
  }
}
