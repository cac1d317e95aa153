/** What the finished Thumb code holds, position by position.
 */
module ThumbChunk {
  import opened Arithmetic
  import opened MachineWords
  import opened ThumbMachine
  import opened ThumbAssembler
  import opened ThumbRelocator

  /** Position, in halfwords, of the round of instruction `i`; `Pos(block, origin, |block|)` is the tail. */
  ghost function Pos(block: seq<Code>, origin: U32, i: nat): nat
    requires Relocatable(block) && i <= |block|
  {
    |Layout(block, origin, i).buffer|
  }

  /** Position of the code of instruction `i` itself, after the padding. */
  ghost function Start(block: seq<Code>, origin: U32, i: nat): nat
    requires Relocatable(block) && i <= |block|
  {
    Pos(block, origin, i) + |Pads(Pos(block, origin, i))|
  }

  ghost function PieceAt(block: seq<Code>, origin: U32, i: nat): (p: Piece)
    requires Relocatable(block) && i < |block|
    ensures p.Piece? && p.use + 1 < |p.code|
  {
    PieceShape(block[i], PcOf(block, origin, i));
    PieceOf(block[i], PcOf(block, origin, i))
  }

  lemma LayoutStep(block: seq<Code>, origin: U32, i: nat)
    requires Relocatable(block) && i < |block|
    ensures var im, im', p := Layout(block, origin, i), Layout(block, origin, i + 1), PieceAt(block, origin, i);
            && im'.buffer == im.buffer + Pads(|im.buffer|) + p.code
            && im'.labels == if p.use < 0 then im.labels else im.labels + [Label(p.data, [Start(block, origin, i) + p.use], p.branch)]
  {
    hide PieceOf, Pads, Relocatable;
  }

  lemma {:induction false} LayoutPrefix(block: seq<Code>, origin: U32, i: nat, n: nat)
    requires Relocatable(block) && i <= n <= |block|
    ensures Layout(block, origin, i).buffer <= Layout(block, origin, n).buffer
    ensures Layout(block, origin, i).labels <= Layout(block, origin, n).labels
    decreases n
  {
    hide PieceAt, Layout, Pads, Relocatable;
    if i < n {
      LayoutPrefix(block, origin, i, n - 1);
      LayoutStep(block, origin, n - 1);
    }
  }

  /** Labels added from round `i` on are loaded at or after that round. */
  lemma {:induction false} LaterUses(block: seq<Code>, origin: U32, i: nat, n: nat)
    requires Relocatable(block) && i <= n <= |block|
    ensures var ls := Layout(block, origin, n).labels;
            forall k, u :: |Layout(block, origin, i).labels| <= k < |ls| && u in ls[k].uses ==> u >= Pos(block, origin, i)
    decreases n
  {
    hide PieceAt, Layout, Pads, Relocatable;
    if i < n {
      LaterUses(block, origin, i, n - 1);
      LayoutPrefix(block, origin, i, n - 1);
      LayoutStep(block, origin, n - 1);
    }
  }

  lemma EarlierUses(block: seq<Code>, origin: U32, i: nat)
    requires Relocatable(block) && i <= |block|
    ensures var ls := Layout(block, origin, i).labels;
            forall k, u :: 0 <= k < |ls| && u in ls[k].uses ==> u + 1 < Pos(block, origin, i)
  {
    LayoutLabels(block, origin, i);
    hide Layout, Relocatable;
  }

  /** Only the load of round `i` itself is recorded within round `i`. */
  lemma UnusedInRound(block: seq<Code>, origin: U32, i: nat, x: nat)
    requires Relocatable(block) && i < |block|
    requires Pos(block, origin, i) <= x < Pos(block, origin, i + 1)
    requires PieceAt(block, origin, i).use < 0 || x != Start(block, origin, i) + PieceAt(block, origin, i).use
    ensures Unused(Layout(block, origin, |block|).labels, x)
  {
    LayoutPrefix(block, origin, i + 1, |block|);
    LayoutStep(block, origin, i);
    LaterUses(block, origin, i + 1, |block|);
    EarlierUses(block, origin, i);
    hide PieceAt, Layout, Pads, Relocatable;
    var ls := Layout(block, origin, |block|).labels;
    forall k | 0 <= k < |ls| ensures x !in ls[k].uses {
      if k < |Layout(block, origin, i).labels| {
        assert ls[k] == Layout(block, origin, i).labels[k];
      } else if k < |Layout(block, origin, i + 1).labels| {
        assert ls[k] == Layout(block, origin, i + 1).labels[k];
      }
    }
  }

  /** The halfword before a round is not the start of a load. */
  lemma UnusedBefore(block: seq<Code>, origin: U32, i: nat)
    requires Relocatable(block) && i <= |block|
    ensures Unused(Layout(block, origin, |block|).labels, Pos(block, origin, i) - 1)
  {
    LayoutPrefix(block, origin, i, |block|);
    LaterUses(block, origin, i, |block|);
    EarlierUses(block, origin, i);
    hide PieceAt, Layout, Relocatable;
    var ls := Layout(block, origin, |block|).labels;
    forall k | 0 <= k < |ls| ensures Pos(block, origin, i) - 1 !in ls[k].uses {
      if k < |Layout(block, origin, i).labels| {
        assert ls[k] == Layout(block, origin, i).labels[k];
      }
    }
  }

  // ---------------------------------------------------------------- contents

  /** Every piece starts at a word boundary, its padding is NOPs, and it is in place. */
  lemma InUnbound(block: seq<Code>, origin: U32, i: nat)
    requires Relocatable(block) && i < |block|
    ensures var p, pos, start, b := PieceAt(block, origin, i), Pos(block, origin, i), Start(block, origin, i), Unbound(block, origin);
            && start % 2 == 0 && pos < start <= pos + 2
            && start + |p.code| == Pos(block, origin, i + 1) <= Pos(block, origin, |block|) <= |b| - 4
            && (forall j :: pos <= j < start ==> b[j] == NOP)
            && (forall j :: 0 <= j < |p.code| ==> b[start + j] == p.code[j])
  {
    hide PieceAt, Layout, Relocatable, Addr;
    LayoutPrefix(block, origin, i + 1, |block|);
    LayoutStep(block, origin, i);
    var pos := Pos(block, origin, i);
    Spliced(Layout(block, origin, i).buffer, Pads(pos), PieceAt(block, origin, i).code, Unbound(block, origin));
    var n := Pos(block, origin, |block|);
    assert |TailCode(n, Addr(block, origin, |block|))| >= 4;
  }

  lemma Spliced(a: seq<Half>, b: seq<Half>, c: seq<Half>, whole: seq<Half>)
    requires a + b + c <= whole
    ensures |a + b + c| == |a| + |b| + |c|
    ensures forall j :: |a| <= j < |a| + |b| ==> whole[j] == b[j - |a|]
    ensures forall j :: 0 <= j < |c| ==> whole[|a| + |b| + j] == c[j]
  {
    forall j | 0 <= j < |c| ensures whole[|a| + |b| + j] == c[j] {
      assert (a + b + c)[|a| + |b| + j] == c[j];
    }
  }

  /** The labels as fixed up have the loads of the labels as laid out. */
  lemma FinalLike(block: seq<Code>, origin: U32, size: int, base: U32)
    requires Relocatable(block) && InReach(block, origin)
    ensures var ls, fs := Layout(block, origin, |block|).labels, FinalLabels(block, origin, size, base);
            && LabelsApart(fs) && AllLinkable(fs, |Unbound(block, origin)|) && |fs| == |ls|
            && (forall k :: 0 <= k < |fs| ==> fs[k].uses == ls[k].uses)
            && (forall x :: Unused(ls, x) ==> Unused(fs, x))
  {
    hide Layout, Relocatable, Unbound, AllLinkable, LabelsApart, LabelsOk, ReloMap, FixedData;
    var im := Layout(block, origin, |block|);
    LayoutLabels(block, origin, |block|);
    LabelsOkApart(im);
    FixedUses(im.labels, ReloMap(block, origin, |block|), origin, size, base, |Unbound(block, origin)|);
  }

  lemma InChunk(block: seq<Code>, origin: U32, size: int, base: U32, i: nat, x: nat)
    requires Relocatable(block) && InReach(block, origin) && i < |block|
    requires Pos(block, origin, i) <= x < Pos(block, origin, i + 1)
    requires var p, start := PieceAt(block, origin, i), Start(block, origin, i);
             p.use < 0 || (x != start + p.use && x != start + p.use + 1)
    ensures x < |Unbound(block, origin)| < |Chunk(block, origin, size, base)| + 1
    ensures Chunk(block, origin, size, base)[x] == Unbound(block, origin)[x]
  {
    hide PieceAt, Layout, Relocatable, Unbound, AllLinkable, FinalLabels, LabelsApart;
    InUnbound(block, origin, i);
    UnusedInRound(block, origin, i, x);
    if x > Pos(block, origin, i) { UnusedInRound(block, origin, i, x - 1); } else { UnusedBefore(block, origin, i); }
    FinalLike(block, origin, size, base);
    BindKeeps(Unbound(block, origin), FinalLabels(block, origin, size, base), x);
  }

  /** The value that the load of instruction `i` finds in the pool. */
  ghost function DataAt(block: seq<Code>, origin: U32, size: int, base: U32, i: nat): U32
    requires Relocatable(block) && i < |block|
  {
    var p := PieceAt(block, origin, i);
    FixedData(p.data, p.branch, ReloMap(block, origin, |block|), origin, size, base)
  }

  /** The load of instruction `i` reaches slot `q` of the pool, which holds its value. */
  lemma UseInChunk(block: seq<Code>, origin: U32, size: int, base: U32, i: nat, rt: int) returns (q: nat)
    requires Relocatable(block) && InReach(block, origin) && i < |block| && 0 <= rt < 16
    requires var p := PieceAt(block, origin, i); p.use >= 0 && p.use % 2 == 0 && p.code[p.use..p.use + 2] == LiteralCode(rt, 0)
    ensures var v, ch, x := DataAt(block, origin, size, base, i), Chunk(block, origin, size, base), Start(block, origin, i) + PieceAt(block, origin, i).use;
            && x + 2 <= q && q + 1 < |ch| && 0 < 2 * (q - x) - 4 < 0x1000
            && [ch[x], ch[x + 1]] == LiteralCode(rt, 2 * (q - x) - 4)
            && ch[q] == Lo(v) && ch[q + 1] == Hi(v)
  {
    hide PieceAt, Layout, Relocatable, Unbound, AllLinkable, LabelsApart, Lo, Hi, Bind, FixedData, ReloMap;
    var p, fs, b := PieceAt(block, origin, i), FinalLabels(block, origin, size, base), Unbound(block, origin);
    var x := Start(block, origin, i) + p.use;
    InUnbound(block, origin, i);
    var k := LabelOfPiece(block, origin, i);
    FinalLike(block, origin, size, base);
    BindUse(b, fs, k, x);
    BindPool(b, fs, k);
    q := |b| + 2 * k;
    assert b[x] == p.code[p.use..p.use + 2][0] && b[x + 1] == p.code[p.use..p.use + 2][1];
    PatchLiteral(rt, b[x], b[x + 1], x, q);
  }

  lemma LabelOfPiece(block: seq<Code>, origin: U32, i: nat) returns (k: nat)
    requires Relocatable(block) && i < |block| && PieceAt(block, origin, i).use >= 0
    ensures var p, ls := PieceAt(block, origin, i), Layout(block, origin, |block|).labels;
            k < |ls| && ls[k] == Label(p.data, [Start(block, origin, i) + p.use], p.branch)
  {
    k := |Layout(block, origin, i).labels|;
    LayoutStep(block, origin, i);
    LayoutPrefix(block, origin, i + 1, |block|);
    hide PieceAt, Layout, Relocatable;
  }

  lemma PatchLiteral(rt: int, h1: Half, h2: Half, x: nat, q: nat)
    requires 0 <= rt < 16 && [h1, h2] == LiteralCode(rt, 0) && x % 2 == 0 && q >= x + 4
    requires 0 <= Distance(x, q) < 0x1000
    ensures 0 < 2 * (q - x) - 4 < 0x1000 && [SetAdd(h1), SetImm12(h2, Distance(x, q))] == LiteralCode(rt, 2 * (q - x) - 4)
  {
    hide SetAdd, Distance;
    assert [h1, h2][0] == h1 && [h1, h2][1] == h2;
    DivUnique(h2, 0x1000, rt, 0);
    AddBit();
    EvenDistance(x, q);
  }

  lemma AddBit()
    ensures SetAdd(0xf85f) == 0xf8df
  {
  }

  lemma EvenDistance(x: nat, q: nat)
    requires x % 2 == 0
    ensures Distance(x, q) == 2 * (q - x) - 4
  {
    DivUnique(2 * x, 4, x / 2, 0);
  }

  /** The closing branch and its address, at an even position. */
  lemma TailInChunk(block: seq<Code>, origin: U32, size: int, base: U32) returns (x: nat)
    requires Relocatable(block) && InReach(block, origin)
    ensures var ch, pos, t := Chunk(block, origin, size, base), Pos(block, origin, |block|), Wrap(Addr(block, origin, |block|) + 1);
            && x % 2 == 0 && x + 4 <= |ch| && pos <= x <= pos + 1 && (x > pos ==> ch[pos] == NOP)
            && [ch[x], ch[x + 1]] == LiteralCode(PC, 0) && ch[x + 2] == Lo(t) && ch[x + 3] == Hi(t)
  {
    hide Layout, Relocatable, AllLinkable, LabelsApart, Lo, Hi, Bind, Addr, FinalLabels;
    var pos, b := Pos(block, origin, |block|), Unbound(block, origin);
    x := pos + pos % 2;
    EarlierUses(block, origin, |block|);
    FinalLike(block, origin, size, base);
    forall y | pos <= y < |b| ensures Chunk(block, origin, size, base)[y] == b[y] {
      BindKeeps(b, FinalLabels(block, origin, size, base), y);
    }
  }
}
