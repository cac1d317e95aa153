/** `gen_thumb_relocate_code` and the Thumb side of `GenRelocateCodeAndBranch`: copy the
    instructions of a patched prologue, each at a word-aligned position, rewrite the
    PC-relative ones, and branch to the instruction after the block.
 */
module ThumbRelocator {
  import opened MachineWords
  import opened ThumbMachine
  import opened ThumbAssembler

  // ---------------------------------------------------------------- one instruction

  /** What one instruction becomes: its halfwords and, unless `use` is negative, the index
      among them of a load of the label `data`.  `Abort` is the UNREACHABLE() path. */
  datatype Piece =
    | Piece(code: seq<Half>, use: int, data: U32, branch: bool)
    | Abort

  function AddressCode(v: U32): seq<Half> { [Lo(v), Hi(v)] }

  function Unlabelled(code: seq<Half>): Piece { Piece(code, -1, 0, false) }

  /** `Thumb2RelocateSingleInstr`; `p` is the PC that the instruction reads. */
  function WidePiece(h1: Half, h2: Half, p: U32): Piece {
    if IsBCond(h1, h2) then
      Unlabelled([h1 - h1 % 0x40, ShortCond(h2)] + BranchCode(4, false)
                 + LiteralCode(PC, 0) + AddressCode(Wrap(Wrap(p + CondOffset(h1, h2)) + 1)))
    else if IsB(h1, h2) then
      Unlabelled(LiteralCode(PC, 0) + AddressCode(Wrap(Wrap(p + BranchOffset(h1, h2)) + 1)))
    else if IsBl(h1, h2) then
      Unlabelled(BranchCode(4, true) + BranchCode(8, false) + LiteralCode(PC, 0)
                 + AddressCode(Wrap(Wrap(p + BranchOffset(h1, h2)) + 1)))
    else if IsBlx(h1, h2) then
      Unlabelled(BranchCode(4, true) + BranchCode(8, false) + LiteralCode(PC, 0)
                 + AddressCode(Wrap(Align4(p) + BlxOffset(h1, h2))))
    else if TakenForAdr(h1, h2) then
      Unlabelled(LiteralCode(AdrRd(h2), 4) + BranchCode(0, false) + AddressCode(AdrAddress(h1, h2, p)))
    else if IsLdrLiteral(h1) then
      var rt := h2 / 0x1000;
      Unlabelled(LiteralCode(rt, 4) + BranchCode(4, false) + AddressCode(LiteralAddress(h1, h2, p)) + LoadCode(rt, rt))
    else Unlabelled([h1, h2])
  }

  /** The test for ADR: it leaves bit 6 of the first halfword open and wants bit 6 of the second clear. */
  predicate TakenForAdr(h1: Half, h2: Half) {
    && h1 / 0x800 == 30 && Bits(h1, 0x200, 2) == 1 && Bits(h1, 0x10, 2) == 0 && h2 < 0x8000
    && Bits(h1, 0x100, 2) == 0 && Bits(h2, 0x40, 2) == 0
    && Bits(h1, 0x80, 2) == Bits(h1, 0x20, 2) && h1 % 16 == 15
  }

  /** `(inst2 & 0xd000) | 2`: the second half of a conditional branch over four bytes. */
  function ShortCond(h2: Half): Half { h2 / 0x4000 * 0x4000 + Bits(h2, 0x1000, 2) * 0x1000 + 2 }

  function AdrAddress(h1: Half, h2: Half, p: U32): U32 {
    Wrap(p + AdrOffset(h1, h2))
  }

  /** The address that the relocated T2 literal load reads. */
  function LiteralAddress(h1: Half, h2: Half, p: U32): U32 {
    Align4(Wrap(p + LiteralOffset(h1, h2)))
  }

  /** `Thumb1RelocateSingleInstr`.  The BLX (register) branch compares a variable that is
      still zero with PC, so BLX is always copied. */
  function NarrowPiece(h: Half, p: U32): Piece {
    if IsHigh(h) && Bits(h, 0x100, 4) != 3 && HighRm(h) == PC then
      Piece(LiteralCode(IP, 0) + [h - 8 * HighRm(h) + 8 * IP], 0, p, false)
    else if IsBxPc(h) then Piece(LiteralCode(PC, 0), 0, p, true)
    else if IsNarrowLdr(h) then
      var rt := Bits(h, 0x100, 8);
      Piece(LiteralCode(rt, 0) + LoadCode(rt, rt), 0, Align4(Wrap(p + 4 * (h % 0x100))), false)
    else if IsNarrowAdr(h) then Piece(LiteralCode(Bits(h, 0x100, 8), 0), 0, Wrap(p + h % 0x100), false)
    else if IsNarrowCond(h) then
      if Bits(h, 0x100, 16) >= 14 then Abort
      else
        Piece([h - h % 0x10 + 2, NOP] + BranchCode(4, false) + LiteralCode(PC, 0), 4, Wrap(p + 2 * (h % 0x100) + 1), true)
    else if IsCompareBranch(h) then
      Piece([ShortCompare(h), NOP] + BranchCode(0, false) + LiteralCode(PC, 0), 4,
            Wrap(p + CompareOffset(h) + 1), true)
    else if IsNarrowB(h) then Piece(LiteralCode(PC, 0), 0, Wrap(p + 2 * (h % 0x800) + 1), true)
    else Unlabelled([h])
  }

  /** `(instr & 0xfd07) | 8`: the same comparison, over two bytes. */
  function ShortCompare(h: Half): Half { h - 0x200 * Bits(h, 0x200, 2) - 8 * Bits(h, 8, 32) + 8 }

  predicate IsBxPc(h: Half) { IsHigh(h) && Bits(h, 0x100, 4) == 3 && Bits(h, 0x80, 2) == 0 && HighRm(h) == PC }

  function PieceOf(x: Code, p: U32): Piece {
    if x.Narrow? then NarrowPiece(x.h, p) else WidePiece(x.h1, x.h2, p)
  }

  // ---------------------------------------------------------------- the whole block

  datatype Image = Image(buffer: seq<Half>, labels: seq<Label>)

  /** The `t1_nop` that opens every round, and the one of `AlignThumbNop`. */
  function Pads(n: nat): seq<Half> {
    if n % 2 == 0 then [NOP, NOP] else [NOP]
  }

  function Append(im: Image, p: Piece): Image
    requires p.Piece?
  {
    var start := im.buffer + Pads(|im.buffer|);
    Image(start + p.code, if p.use < 0 then im.labels else im.labels + [Label(p.data, [|start| + p.use], p.branch)])
  }

  /** Supervisor calls and permanently undefined instructions abort the relocation. */
  predicate Aborts(x: Code) { x.Narrow? && IsNarrowCond(x.h) && Bits(x.h, 0x100, 16) >= 14 }

  ghost predicate Relocatable(block: seq<Code>) {
    forall k :: 0 <= k < |block| ==> !Aborts(block[k])
  }

  lemma NarrowClasses(h: Half)
    ensures IsNarrowCond(h) ==> !IsHigh(h) && !IsNarrowLdr(h) && !IsNarrowAdr(h)
  {
  }

  /** The uses of a piece lie inside it. */
  lemma PieceShape(x: Code, p: U32)
    ensures PieceOf(x, p).Abort? <==> Aborts(x)
    ensures PieceOf(x, p).Piece? ==> PieceOf(x, p).use + 1 < |PieceOf(x, p).code|
  {
    if x.Narrow? { NarrowClasses(x.h); }
    hide Bits, IsHigh, IsNarrowLdr, IsNarrowAdr, IsNarrowCond, IsCompareBranch, IsNarrowB, IsBCond, IsB, IsBl, IsBlx, TakenForAdr,
         IsLdrLiteral, Wrap, Align4, HighRm, BranchOffset, CondOffset, BlxOffset, LiteralAddress, Lo, Hi;
  }

  /** Halfwords before instruction `i`. */
  function Halves(block: seq<Code>, i: nat): nat
    requires i <= |block|
  {
    if i == 0 then 0 else Halves(block, i - 1) + Size(block[i - 1]) / 2
  }

  function Addr(block: seq<Code>, origin: U32, i: nat): U32
    requires i <= |block|
  {
    At(origin, Halves(block, i))
  }

  /** The PC that instruction `i` reads. */
  function PcOf(block: seq<Code>, origin: U32, i: nat): U32
    requires i <= |block|
  {
    Wrap(Addr(block, origin, i) + 4)
  }

  ghost function Layout(block: seq<Code>, origin: U32, i: nat): Image
    requires Relocatable(block) && i <= |block|
  {
    if i == 0 then Image([], [])
    else
      PieceShape(block[i - 1], PcOf(block, origin, i - 1));
      Append(Layout(block, origin, i - 1), PieceOf(block[i - 1], PcOf(block, origin, i - 1)))
  }

  /** `AlignThumbNop`, `ldr pc, [pc]` and the address of the rest of the function. */
  function TailCode(n: nat, address: U32): seq<Half> {
    (if n % 2 == 0 then [] else [NOP]) + LiteralCode(PC, 0) + AddressCode(Wrap(address + 1))
  }

  ghost function Unbound(block: seq<Code>, origin: U32): seq<Half>
    requires Relocatable(block)
  {
    var b := Layout(block, origin, |block|).buffer;
    b + TailCode(|b|, Addr(block, origin, |block|))
  }

  /** Every pool slot is within reach of its load. */
  ghost predicate InReach(block: seq<Code>, origin: U32)
    requires Relocatable(block)
  {
    AllLinkable(Layout(block, origin, |block|).labels, |Unbound(block, origin)|)
  }

  // ---------------------------------------------------------------- fixing up branch labels

  /** `ReloMapEntry`: where an instruction was, and the offset of its round in the buffer. */
  datatype ReloEntry = ReloEntry(orig: U32, relocated: U32)

  ghost function ReloMap(block: seq<Code>, origin: U32, i: nat): (m: seq<ReloEntry>)
    requires Relocatable(block) && i <= |block|
    ensures |m| == i
  {
    if i == 0 then []
    else ReloMap(block, origin, i - 1) + [ReloEntry(Addr(block, origin, i - 1), Wrap(2 * |Layout(block, origin, i - 1).buffer|))]
  }

  /** `get_orig_instr_relocated_addr`. */
  function FindRelocated(m: seq<ReloEntry>, v: U32): U32 {
    if m == [] then 0 else if m[0].orig == v then m[0].relocated else FindRelocated(m[1..], v)
  }

  /** The address lies in the range that was asked for, which can end after the covered one. */
  predicate InOrigin(v: U32, origin: U32, size: int) { origin <= v < Wrap(origin + size) }

  /** A branch label into that range is redirected into the chunk at `base`. */
  function FixedData(data: U32, branch: bool, m: seq<ReloEntry>, origin: U32, size: int, base: U32): U32 {
    if branch && InOrigin(data, origin, size) then Wrap(FindRelocated(m, data) + base) else data
  }

  function FixedLabel(l: Label, m: seq<ReloEntry>, origin: U32, size: int, base: U32): Label {
    l.(data := FixedData(l.data, l.branch, m, origin, size, base))
  }

  function Fixed(labels: seq<Label>, m: seq<ReloEntry>, origin: U32, size: int, base: U32): (r: seq<Label>)
    ensures |r| == |labels| && forall k :: 0 <= k < |r| ==> r[k] == FixedLabel(labels[k], m, origin, size, base)
  {
    seq(|labels|, k requires 0 <= k < |labels| => FixedLabel(labels[k], m, origin, size, base))
  }

  lemma FixedUses(labels: seq<Label>, m: seq<ReloEntry>, origin: U32, size: int, base: U32, start: nat)
    ensures SameUses(labels, Fixed(labels, m, origin, size, base))
    ensures AllLinkable(labels, start) <==> AllLinkable(Fixed(labels, m, origin, size, base), start)
    ensures LabelsApart(labels) ==> LabelsApart(Fixed(labels, m, origin, size, base))
  {
    hide AllLinkable, LabelsApart;
    SameUsesLink(labels, Fixed(labels, m, origin, size, base), start);
  }

  /** The labels of the block as they are in the end. */
  ghost function FinalLabels(block: seq<Code>, origin: U32, size: int, base: U32): seq<Label>
    requires Relocatable(block)
  {
    Fixed(Layout(block, origin, |block|).labels, ReloMap(block, origin, |block|), origin, size, base)
  }

  /** The finished code for a request of `size` bytes, placed at `base`. */
  ghost function Chunk(block: seq<Code>, origin: U32, size: int, base: U32): seq<Half>
    requires Relocatable(block) && InReach(block, origin)
  {
    FixedUses(Layout(block, origin, |block|).labels, ReloMap(block, origin, |block|), origin, size, base, |Unbound(block, origin)|);
    Bind(Unbound(block, origin), FinalLabels(block, origin, size, base))
  }

  /** Each label has one load, and the loads come in order without overlap. */
  ghost predicate LabelsOk(im: Image) {
    && (forall k :: 0 <= k < |im.labels| ==> |im.labels[k].uses| == 1 && im.labels[k].uses[0] + 1 < |im.buffer|)
    && (forall j, k :: 0 <= j < k < |im.labels| ==> im.labels[j].uses[0] + 1 < im.labels[k].uses[0])
  }

  lemma AppendOk(im: Image, p: Piece)
    requires LabelsOk(im) && p.Piece? && p.use + 1 < |p.code|
    ensures LabelsOk(Append(im, p))
  {
    var r := Append(im, p);
    forall k | 0 <= k < |r.labels|
      ensures |r.labels[k].uses| == 1 && r.labels[k].uses[0] + 1 < |r.buffer|
    {
      if k < |im.labels| { assert r.labels[k] == im.labels[k]; }
    }
  }

  lemma {:induction false} LayoutLabels(block: seq<Code>, origin: U32, i: nat)
    requires Relocatable(block) && i <= |block|
    ensures LabelsOk(Layout(block, origin, i))
  {
    if i > 0 {
      hide PieceOf, LabelsOk, Append, Halves, At, Aborts;
      LayoutLabels(block, origin, i - 1);
      PieceShape(block[i - 1], PcOf(block, origin, i - 1));
      AppendOk(Layout(block, origin, i - 1), PieceOf(block[i - 1], PcOf(block, origin, i - 1)));
    }
  }

  lemma LabelsOkApart(im: Image)
    requires LabelsOk(im)
    ensures LabelsApart(im.labels)
  {
    var ls := im.labels;
    forall j, k | 0 <= j < k < |ls| ensures Separate(ls[j].uses, ls[k].uses) {
      assert ls[j].uses == [ls[j].uses[0]] && ls[k].uses == [ls[k].uses[0]];
    }
  }

  // ---------------------------------------------------------------- which instructions are copied

  function CodeAt(src: int -> Half, k: int): Code {
    if IsThumb2(src(k)) then Wide(src(k), src(k + 1)) else Narrow(src(k))
  }

  function ChangedBy(x: Code, pc: U32, changed: U32): U32 {
    if x.Narrow? && IsBxPc(x.h) then Wrap(pc + 4) else changed
  }

  /** The instructions that the loop takes from memory, where `src(k)` is halfword `k`.  It
      ends at `size` bytes, or where a BX PC already met leads (`changed`, 0 for none). */
  function Take(src: int -> Half, origin: U32, size: int, k: int, changed: U32): seq<Code>
    decreases size - 2 * k
  {
    if 2 * k >= size then []
    else
      var x := CodeAt(src, k);
      var changed' := ChangedBy(x, At(origin, k), changed);
      var k' := k + Size(x) / 2;
      if changed' != 0 && At(origin, k') == changed' then [x]
      else [x] + Take(src, origin, size, k', changed')
  }

  // ---------------------------------------------------------------- the program

  class ThumbTurboAssembler {
    var buffer: seq<Half>
    var labels: seq<Label>

    ghost function State(): Image
      reads this
    {
      Image(buffer, labels)
    }

    constructor ()
      ensures buffer == [] && labels == []
    {
      buffer, labels := [], [];
    }

    method EmitInt16(h: Half)
      modifies this`buffer
      ensures buffer == old(buffer) + [h]
    {
      buffer := buffer + [h];
    }

    method EmitAddress(v: U32)
      modifies this`buffer
      ensures buffer == old(buffer) + AddressCode(v)
    {
      buffer := buffer + [Lo(v), Hi(v)];
    }

    method AlignThumbNop()
      modifies this`buffer
      ensures buffer == old(buffer) + if |old(buffer)| % 2 == 0 then [] else [NOP]
    {
      if 2 * |buffer| % 4 != 0 { EmitInt16(NOP); }
    }

    method T2Branch(imm: int, link: bool)
      modifies this`buffer
      ensures buffer == old(buffer) + BranchCode(imm, link)
    {
      buffer := buffer + BranchCode(imm, link);
    }

    method T2LdrLiteral(rt: int, offset: int)
      requires 0 <= rt < 16 && -0x1000 < offset < 0x1000
      modifies this`buffer
      ensures buffer == old(buffer) + LiteralCode(rt, offset)
    {
      buffer := buffer + LiteralCode(rt, offset);
    }

    method T2LdrRegister(rt: int, rn: int)
      requires 0 <= rt < 16 && 0 <= rn < 16
      modifies this`buffer
      ensures buffer == old(buffer) + LoadCode(rt, rn)
    {
      buffer := buffer + LoadCode(rt, rn);
    }

    /** `AppendRelocLabelEntry` of a new label, then, after `before`, `T2_Ldr` of it. */
    method T2LdrNewLabel(before: seq<Half>, rt: int, data: U32, branch: bool)
      requires 0 <= rt < 16
      modifies this
      ensures buffer == old(buffer) + before + LiteralCode(rt, 0)
      ensures labels == old(labels) + [Label(data, [|old(buffer)| + |before|], branch)]
    {
      labels := labels + [Label(data, [], branch)];
      buffer := buffer + before;
      var n := |labels| - 1;
      labels := labels[n := labels[n].(uses := labels[n].uses + [|buffer|])];
      assert [] + [|buffer|] == [|buffer|];
      T2LdrLiteral(rt, 0);
    }

    /** `link_confused_instructions` for a label bound at the end of the buffer; the result
        is whether every CHECK passes. */
    method LinkConfusedInstructions(uses: seq<nat>) returns (ok: bool)
      requires forall i :: 0 <= i < |uses| ==> uses[i] + 1 < |buffer|
      modifies this`buffer
      ensures ok <==> Linkable(uses, |old(buffer)|, |old(buffer)|)
      ensures |buffer| == |old(buffer)|
      ensures ok ==> buffer == Link(old(buffer), uses, |old(buffer)|)
    {
      hide SetAdd, SetImm12, Distance;
      for i := 0 to |uses|
        invariant |buffer| == |old(buffer)|
        invariant Linkable(uses[..i], |buffer|, |buffer|)
        invariant Linkable(uses, |buffer|, |buffer|) ==>
          Linkable(uses[i..], |buffer|, |buffer|) && Link(buffer, uses[i..], |buffer|) == Link(old(buffer), uses, |buffer|)
      {
        var offset := Distance(uses[i], |buffer|);
        if !(0 <= offset < 0x1000) { return false; }
        assert uses[i..][0] == uses[i] && uses[i..][1..] == uses[i + 1..];
        buffer := Patched(buffer, uses[i], |buffer|);
      }
      assert uses[..|uses|] == uses;
      return true;
    }

    method RelocBind() returns (ok: bool)
      requires forall k, i :: 0 <= k < |labels| && 0 <= i < |labels[k].uses| ==> labels[k].uses[i] + 1 < |buffer|
      modifies this`buffer
      ensures ok <==> AllLinkable(labels, |old(buffer)|)
      ensures ok ==> buffer == Bind(old(buffer), labels)
    {
      hide Link, Lo, Hi, Linkable, Bind;
      ghost var n := |buffer|;
      for i := 0 to |labels|
        invariant |buffer| == n + 2 * i
        invariant forall k :: 0 <= k < i ==> Linkable(labels[k].uses, n, n + 2 * k)
        invariant AllLinkable(labels, n) ==>
          AllLinkable(labels[i..], |buffer|) && Bind(buffer, labels[i..]) == Bind(old(buffer), labels)
      {
        assert labels[i..] != [] && labels[i..][0] == labels[i] && labels[i..][1..] == labels[i + 1..];
        assert labels == old(labels);
        if AllLinkable(labels, n) { BindFirst(buffer, labels[i..]); }
        LinkableAnyLimit(labels[i].uses, n, |buffer|, |buffer|);
        ok := LinkConfusedInstructions(labels[i].uses);
        if !ok { return false; }
        EmitAddress(labels[i].data);
      }
      BindNone(buffer, labels[|labels|..]);
      return true;
    }

    /** `reloc_label_fixup` for a pool at `start`; `RelocBindFixup` rewrites the word in the buffer. */
    method RelocLabelFixup(start: nat, m: seq<ReloEntry>, origin: U32, size: int, base: U32, ghost b: seq<Half>)
      requires |b| == start && LabelsApart(labels) && AllLinkable(labels, start) && buffer == Bind(b, labels)
      modifies this
      ensures labels == Fixed(old(labels), m, origin, size, base)
      ensures AllLinkable(labels, start) && buffer == Bind(b, labels)
    {
      hide LabelsApart, AllLinkable, Bind, Lo, Hi, FindRelocated, InOrigin, Wrap;
      for i := 0 to |labels|
        invariant |labels| == |old(labels)| && LabelsApart(labels) && AllLinkable(labels, start) && buffer == Bind(b, labels)
        invariant forall k :: 0 <= k < |labels| ==>
          labels[k] == if k < i then FixedLabel(old(labels)[k], m, origin, size, base) else old(labels)[k]
      {
        var l := labels[i];
        if l.branch && InOrigin(l.data, origin, size) {
          var data := Wrap(FindRelocated(m, l.data) + base);
          RewriteSlot(b, labels, i, data);
          labels := labels[i := l.(data := data)];
          buffer := buffer[start + 2 * i := Lo(data)][start + 2 * i + 1 := Hi(data)];
        }
      }
    }

    method Thumb2RelocateSingleInstr(h1: Half, h2: Half, p: U32)
      modifies this`buffer
      ensures buffer == old(buffer) + WidePiece(h1, h2, p).code
    {
      hide Bits, IsBCond, IsB, IsBl, IsBlx, TakenForAdr, Wrap, Align4, BranchOffset, CondOffset, BlxOffset, LiteralAddress,
           LiteralCode, BranchCode, LoadCode, AddressCode, ShortCond, AdrRd, AdrAddress, IsLdrLiteral;
      if IsBCond(h1, h2) {
        EmitInt16(h1 - h1 % 0x40);
        EmitInt16(ShortCond(h2));
        T2Branch(4, false);
        T2LdrLiteral(PC, 0);
        EmitAddress(Wrap(Wrap(p + CondOffset(h1, h2)) + 1));
      } else if IsB(h1, h2) {
        T2LdrLiteral(PC, 0);
        EmitAddress(Wrap(Wrap(p + BranchOffset(h1, h2)) + 1));
      } else if IsBl(h1, h2) {
        T2Branch(4, true);
        T2Branch(8, false);
        T2LdrLiteral(PC, 0);
        EmitAddress(Wrap(Wrap(p + BranchOffset(h1, h2)) + 1));
      } else if IsBlx(h1, h2) {
        T2Branch(4, true);
        T2Branch(8, false);
        T2LdrLiteral(PC, 0);
        EmitAddress(Wrap(Align4(p) + BlxOffset(h1, h2)));
      } else if TakenForAdr(h1, h2) {
        T2LdrLiteral(AdrRd(h2), 4);
        T2Branch(0, false);
        EmitAddress(AdrAddress(h1, h2, p));
      } else if IsLdrLiteral(h1) {
        var rt := h2 / 0x1000;
        T2LdrLiteral(rt, 4);
        T2Branch(4, false);
        EmitAddress(LiteralAddress(h1, h2, p));
        T2LdrRegister(rt, rt);
      } else {
        EmitInt16(h1);
        EmitInt16(h2);
      }
      assert buffer == old(buffer) + WidePiece(h1, h2, p).code;
    }

    method Thumb1RelocateSingleInstr(h: Half, p: U32) returns (ok: bool)
      modifies this
      ensures ok <==> NarrowPiece(h, p).Piece?
      ensures ok ==>
        var r := NarrowPiece(h, p);
        && buffer == old(buffer) + r.code
        && labels == if r.use < 0 then old(labels) else old(labels) + [Label(r.data, [|old(buffer)| + r.use], r.branch)]
    {
      if IsHigh(h) && Bits(h, 0x100, 4) != 3 && HighRm(h) == PC {
        T2LdrNewLabel([], IP, p, false);
        EmitInt16(h - 8 * HighRm(h) + 8 * IP);
      } else if IsBxPc(h) {
        T2LdrNewLabel([], PC, p, true);
      } else if IsNarrowLdr(h) {
        var rt := Bits(h, 0x100, 8);
        T2LdrNewLabel([], rt, Align4(Wrap(p + 4 * (h % 0x100))), false);
        T2LdrRegister(rt, rt);
      } else if IsNarrowAdr(h) {
        T2LdrNewLabel([], Bits(h, 0x100, 8), Wrap(p + h % 0x100), false);
      } else if IsNarrowCond(h) {
        if Bits(h, 0x100, 16) >= 14 { return false; }
        T2LdrNewLabel([h - h % 0x10 + 2, NOP] + BranchCode(4, false), PC, Wrap(p + 2 * (h % 0x100) + 1), true);
      } else if IsCompareBranch(h) {
        T2LdrNewLabel([ShortCompare(h), NOP] + BranchCode(0, false), PC,
                      Wrap(p + CompareOffset(h) + 1), true);
      } else if IsNarrowB(h) {
        T2LdrNewLabel([], PC, Wrap(p + 2 * (h % 0x800) + 1), true);
      } else {
        EmitInt16(h);
      }
      assert buffer == old(buffer) + NarrowPiece(h, p).code;
      return true;
    }

    /** One round of the loop. */
    method RelocateInstruction(x: Code, p: U32) returns (ok: bool)
      modifies this
      ensures ok <==> PieceOf(x, p).Piece?
      ensures ok ==> State() == Append(old(State()), PieceOf(x, p))
    {
      hide NarrowPiece, WidePiece;
      EmitInt16(NOP);
      AlignThumbNop();
      assert buffer == old(buffer) + Pads(|old(buffer)|);
      match x
      case Narrow(h) => ok := Thumb1RelocateSingleInstr(h, p);
      case Wide(h1, h2) => ok := true; WideHasNoLabel(h1, h2, p); Thumb2RelocateSingleInstr(h1, h2, p);
    }
  }

  lemma WideHasNoLabel(h1: Half, h2: Half, p: U32)
    ensures WidePiece(h1, h2, p).Piece? && WidePiece(h1, h2, p).use == -1
  {
  }

  lemma BindNone(b: seq<Half>, labels: seq<Label>)
    requires labels == []
    ensures AllLinkable(labels, |b|) && Bind(b, labels) == b
  {
  }

  lemma FirstLinkable(labels: seq<Label>, start: nat)
    requires AllLinkable(labels, start) && labels != []
    ensures Linkable(labels[0].uses, start, start)
  {
    assert Linkable(labels[0].uses, start, start + 2 * 0);
  }

  lemma BindFirst(b: seq<Half>, labels: seq<Label>)
    requires AllLinkable(labels, |b|) && labels != []
    ensures AllLinkable(labels[1..], |b| + 2) && Linkable(labels[0].uses, |b|, |b|)
    ensures Bind(b, labels) == Bind(Link(b, labels[0].uses, |b|) + AddressCode(labels[0].data), labels[1..])
  {
    hide Lo, Hi, Link, Linkable, AllLinkable;
    RestLinkable(labels, |b|);
    FirstLinkable(labels, |b|);
    assert AddressCode(labels[0].data) == [Lo(labels[0].data), Hi(labels[0].data)];
  }

  lemma LinkableAnyLimit(uses: seq<nat>, m: nat, n: nat, pos: nat)
    requires forall i :: 0 <= i < |uses| ==> uses[i] + 1 < m
    requires m <= n
    ensures Linkable(uses, m, pos) <==> Linkable(uses, n, pos)
  {
  }

  /** One round of the loop in terms of `Take`. */
  lemma TakeStep(src: int -> Half, origin: U32, size: int, k: int, changed: U32)
    requires 2 * k < size
    ensures var x, t := CodeAt(src, k), Take(src, origin, size, k, changed);
            var c, k' := ChangedBy(x, At(origin, k), changed), k + Size(x) / 2;
            && |t| > 0 && t[0] == x
            && if c != 0 && At(origin, k') == c then |t| == 1 else Take(src, origin, size, k', c) == t[1..]
  {
    hide CodeAt, ChangedBy, At;
  }

  /** `gen_thumb_relocate_code`; `length` is how many bytes of the original it has covered. */
  method GenThumbRelocateCode(assembler: ThumbTurboAssembler, src: int -> Half, origin: U32, size: int)
    returns (ok: bool, length: int, reloMap: seq<ReloEntry>)
    requires assembler.buffer == [] && assembler.labels == []
    modifies assembler
    ensures var block := Take(src, origin, size, 0, 0);
            && (ok <==> Relocatable(block))
            && (ok ==> length == 2 * Halves(block, |block|) && assembler.State() == Layout(block, origin, |block|))
            && (ok ==> reloMap == ReloMap(block, origin, |block|))
  {
    hide PieceOf, Aborts, CodeAt, ChangedBy, Take, Append, At, Wrap;
    ghost var block := Take(src, origin, size, 0, 0);
    ghost var i := 0;
    var cursor, changed, stop := 0, 0, false;
    reloMap := [];
    while 2 * cursor < size && !stop
      invariant i <= |block| && cursor == Halves(block, i)
      invariant Relocatable(block[..i])
      invariant Relocatable(block) ==> assembler.State() == Layout(block, origin, i) && reloMap == ReloMap(block, origin, i)
      invariant if stop then i == |block| else Take(src, origin, size, cursor, changed) == block[i..]
      decreases size - 2 * cursor
    {
      var x := CodeAt(src, cursor);
      TakeStep(src, origin, size, cursor, changed);
      assert block[i] == x && block[i..][1..] == block[i + 1..];
      PieceShape(x, PcOf(block, origin, i));
      reloMap := reloMap + [ReloEntry(At(origin, cursor), Wrap(2 * |assembler.buffer|))];
      ok := assembler.RelocateInstruction(x, Wrap(At(origin, cursor) + 4));
      if !ok { return false, 0, []; }
      changed := ChangedBy(x, At(origin, cursor), changed);
      cursor := cursor + Size(x) / 2;
      i := i + 1;
      stop := changed != 0 && At(origin, cursor) == changed;
    }
    if !stop { TakeNone(src, origin, size, cursor, changed); }
    assert block[..i] == block;
    return true, 2 * cursor, reloMap;
  }

  lemma TakeNone(src: int -> Half, origin: U32, size: int, k: int, changed: U32)
    requires 2 * k >= size
    ensures Take(src, origin, size, k, changed) == []
  {
  }

  datatype Result =
    | Relocated(code: seq<Half>)
    | Aborted     // UNREACHABLE(), or a failed CHECK of a pool distance
    | NoChunk     // no executable memory

  /** The relocator on Thumb code; `base` is the chunk allocated for it, or 0.  After BX PC
      the covered range ends where A32 code begins, so no A32 code is left to relocate. */
  method GenRelocateCodeAndBranch(src: int -> Half, origin: U32, size: int, base: U32) returns (r: Result, length: int)
    ensures var block := Take(src, origin, size, 0, 0);
            && (r.Aborted? <==> !(Relocatable(block) && InReach(block, origin)))
            && (r.NoChunk? <==> !r.Aborted? && base == 0)
            && (r.Relocated? ==> r.code == Chunk(block, origin, size, base) && length == 2 * Halves(block, |block|))
  {
    hide Relocatable, LabelsOk, AllLinkable, LiteralCode, AddressCode, Bind, Layout, Take, Halves, At, Fixed, LabelsApart, ReloMap;
    var assembler := new ThumbTurboAssembler();
    var ok, reloMap;
    ok, length, reloMap := GenThumbRelocateCode(assembler, src, origin, size);
    if !ok { return Aborted, 0; }
    ghost var block := Take(src, origin, size, 0, 0);
    LayoutLabels(block, origin, |block|);
    InsideBuffer(Layout(block, origin, |block|));
    LabelsOkApart(Layout(block, origin, |block|));
    assembler.AlignThumbNop();
    assembler.T2LdrLiteral(PC, 0);
    assembler.EmitAddress(Wrap(At(origin, length / 2) + 1));
    assert assembler.buffer == Unbound(block, origin);
    var start := |assembler.buffer|;
    ok := assembler.RelocBind();
    if !ok { return Aborted, length; }
    if base == 0 { return NoChunk, length; }
    assembler.RelocLabelFixup(start, reloMap, origin, size, base, Unbound(block, origin));
    return Relocated(assembler.buffer), length;
  }

  lemma InsideBuffer(im: Image)
    requires LabelsOk(im)
    ensures forall k, i :: 0 <= k < |im.labels| && 0 <= i < |im.labels[k].uses| ==> im.labels[k].uses[i] + 1 < |im.buffer|
  {
  }
}
