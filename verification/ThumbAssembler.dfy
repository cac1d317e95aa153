/** The T32 assembler used by the relocator: encoders, the pseudo labels whose loads are
    patched once the label is bound, and the literal pool.  Positions count halfwords.
 */
module ThumbAssembler {
  import opened Arithmetic
  import opened MachineWords
  import opened ThumbMachine

  // ---------------------------------------------------------------- encoders

  const NOP: Half := 0xbf00

  /** `EmitThumb2Branch`; the shifts of `imm` are arithmetic, so they round down. */
  function BranchCode(imm: int, link: bool): (r: seq<Half>)
    ensures |r| == 2
  {
    var operand := imm / 2;
    var s := if imm < 0 then 1 else 0;
    var j1 := if Bits(operand, 0x400000, 2) == s then 1 else 0;
    var j2 := if Bits(operand, 0x200000, 2) == s then 1 else 0;
    [0xf000 + s * 0x400 + Bits(operand, 0x800, 0x400),
     0x9000 + j1 * 0x2000 + j2 * 0x800 + operand % 0x800 + (if link then 0x4000 else 0)]
  }

  /** `EmitThumb2LoadLiteral`. */
  function LiteralCode(rt: int, offset: int): (r: seq<Half>)
    requires 0 <= rt < 16 && -0x1000 < offset < 0x1000
    ensures |r| == 2
  {
    [if offset > 0 then 0xf8df else 0xf85f, rt * 0x1000 + (if offset > 0 then offset else -offset)]
  }

  /** `t2_ldr(rt, MemOperand(rn, 0))`: with PC as the base it is a literal load. */
  function LoadCode(rt: int, rn: int): (r: seq<Half>)
    requires 0 <= rt < 16 && 0 <= rn < 16
    ensures |r| == 2
  {
    if rn == PC then LiteralCode(rt, 0) else [0xf8d0 + rn, rt * 0x1000]
  }

  function Lo(v: U32): Half { v % 0x10000 }
  function Hi(v: U32): Half { v / 0x10000 }

  // ---------------------------------------------------------------- encode, then decode

  lemma BranchFields(imm: int)
    requires -0x1000000 <= imm < 0x1000000 && imm % 2 == 0
    ensures var o, s := imm / 2, if imm < 0 then 1 else 0;
            imm == -s * 0x1000000 + Bits(o, 0x400000, 2) * 0x800000 + Bits(o, 0x200000, 2) * 0x400000
                   + Bits(o, 0x800, 0x400) * 0x1000 + (o % 0x800) * 2
  {
  }

  lemma FirstHalf(s: int, imm10: int)
    requires 0 <= s < 2 && 0 <= imm10 < 0x400
    ensures var h := 0xf000 + s * 0x400 + imm10;
            h / 0x800 == 30 && Bits(h, 0x400, 2) == s && h % 0x400 == imm10 && IsThumb2(h)
  {
  }

  lemma SecondHalf(j1: int, j2: int, imm11: int, link: int)
    requires 0 <= j1 < 2 && 0 <= j2 < 2 && 0 <= imm11 < 0x800 && 0 <= link < 2
    ensures var h := 0x9000 + j1 * 0x2000 + j2 * 0x800 + imm11 + link * 0x4000;
            && h / 0x8000 == 1 && Op3(h) == 2 * link + 1 && h % 0x800 == imm11
            && Bits(h, 0x2000, 2) == j1 && Bits(h, 0x800, 2) == j2
  {
  }

  /** Every even offset in reach survives encoding and decoding, with the right link class. */
  lemma BranchRoundTrip(imm: int, link: bool)
    requires -0x1000000 <= imm < 0x1000000 && imm % 2 == 0
    ensures var b := BranchCode(imm, link);
            && |b| == 2 && IsThumb2(b[0])
            && BranchOffset(b[0], b[1]) == imm
            && Decode(Wide(b[0], b[1])) == if link then Call(false, imm) else Jump(imm)
  {
    hide IsThumb2, Op3;
    var o, s := imm / 2, if imm < 0 then 1 else 0;
    var i1, i2 := Bits(o, 0x400000, 2), Bits(o, 0x200000, 2);
    var j1, j2 := if i1 == s then 1 else 0, if i2 == s then 1 else 0;
    BranchFields(imm);
    FirstHalf(s, Bits(o, 0x800, 0x400));
    SecondHalf(j1, j2, o % 0x800, if link then 1 else 0);
    hide Bits;
  }

  lemma LiteralDecodes(rt: int, offset: int)
    requires 0 <= rt < 16 && -0x1000 < offset < 0x1000
    ensures var b := LiteralCode(rt, offset);
            IsThumb2(b[0]) && Decode(Wide(b[0], b[1])) == LoadLiteral(rt, offset)
  {
    var b := LiteralCode(rt, offset);
    DivUnique(b[1], 0x1000, rt, if offset > 0 then offset else -offset);
    assert IsThumb2(b[0]) && b[0] / 0x800 == 31;
    hide Bits, Op3;
  }

  lemma LoadDecodes(rt: int, rn: int)
    requires 0 <= rt < 16 && 0 <= rn < 15
    ensures var b := LoadCode(rt, rn);
            IsThumb2(b[0]) && Decode(Wide(b[0], b[1])) == Load(rt, rn, 0)
  {
    var b := LoadCode(rt, rn);
    DivUnique(b[1], 0x1000, rt, 0);
    DivUnique(b[0], 0x10, 0xf8d, rn);
    assert IsThumb2(b[0]) && b[0] / 0x800 == 31;
    hide Bits, Op3;
  }

  // ---------------------------------------------------------------- labels

  /** A pooled value and the positions of the loads that want it; `branch` is `used_for_branch`. */
  datatype Label = Label(data: U32, uses: seq<nat>, branch: bool)

  /** The byte offset from a load at `use` to data at `pos`. */
  function Distance(use: nat, pos: nat): int { 2 * pos - (2 * use - 2 * use % 4) - 4 }

  /** Each use has both its halfwords below `limit` and its data within reach of imm12. */
  ghost predicate Linkable(uses: seq<nat>, limit: nat, pos: nat) {
    forall i :: 0 <= i < |uses| ==> uses[i] + 1 < limit && 0 <= Distance(uses[i], pos) < 0x1000
  }

  /** `inst1 | B7` and `(inst2 & 0xf000) | imm12`. */
  function SetAdd(h: Half): Half { h + (1 - Bits(h, 0x80, 2)) * 0x80 }
  function SetImm12(h: Half, imm12: int): Half
    requires 0 <= imm12 < 0x1000
  {
    h / 0x1000 * 0x1000 + imm12
  }

  function Patched(b: seq<Half>, use: nat, pos: nat): (r: seq<Half>)
    requires use + 1 < |b| && 0 <= Distance(use, pos) < 0x1000
    ensures |r| == |b|
  {
    b[use := SetAdd(b[use])][use + 1 := SetImm12(b[use + 1], Distance(use, pos))]
  }

  /** `link_confused_instructions`. */
  ghost function Link(b: seq<Half>, uses: seq<nat>, pos: nat): (r: seq<Half>)
    requires Linkable(uses, |b|, pos)
    ensures |r| == |b|
    decreases |uses|
  {
    if uses == [] then b else Link(Patched(b, uses[0], pos), uses[1..], pos)
  }

  /** Every label can be bound when the pool starts at `start`; the CHECK on imm12 passes exactly then. */
  ghost predicate AllLinkable(labels: seq<Label>, start: nat) {
    forall k :: 0 <= k < |labels| ==> Linkable(labels[k].uses, start, start + 2 * k)
  }

  lemma RestLinkable(labels: seq<Label>, start: nat)
    requires AllLinkable(labels, start) && labels != []
    ensures AllLinkable(labels[1..], start + 2)
  {
    forall k | 0 <= k < |labels[1..]| ensures Linkable(labels[1..][k].uses, start + 2, start + 2 + 2 * k) {
      assert Linkable(labels[k + 1].uses, start, start + 2 * (k + 1));
    }
  }

  /** `RelocBind`. */
  ghost function Bind(b: seq<Half>, labels: seq<Label>): (r: seq<Half>)
    requires AllLinkable(labels, |b|)
    ensures |r| == |b| + 2 * |labels|
    decreases |labels|
  {
    if labels == [] then b
    else
      RestLinkable(labels, |b|);
      Bind(Link(b, labels[0].uses, |b|) + [Lo(labels[0].data), Hi(labels[0].data)], labels[1..])
  }

  /** Two loads are the same or do not overlap. */
  ghost predicate Apart(u: nat, v: nat) { u == v || u + 1 < v || v + 1 < u }

  ghost predicate UsesApart(uses: seq<nat>) {
    forall i, j :: 0 <= i < |uses| && 0 <= j < |uses| ==> Apart(uses[i], uses[j])
  }

  ghost predicate LabelsApart(labels: seq<Label>) {
    && (forall k :: 0 <= k < |labels| ==> UsesApart(labels[k].uses))
    && forall j, k :: 0 <= j < k < |labels| ==> Separate(labels[j].uses, labels[k].uses)
  }

  /** No load of one label is, or overlaps, a load of the other. */
  ghost predicate Separate(uses: seq<nat>, others: seq<nat>) {
    forall u, v :: u in uses && v in others ==> Apart(u, v) && u != v
  }

  lemma SetTwice(h: Half, imm12: int)
    requires 0 <= imm12 < 0x1000
    ensures SetAdd(SetAdd(h)) == SetAdd(h) && SetImm12(SetImm12(h, imm12), imm12) == SetImm12(h, imm12)
  {
    DivUnique(h / 0x1000 * 0x1000 + imm12, 0x1000, h / 0x1000, imm12);
  }

  /** A halfword of no recorded load. */
  lemma {:induction false} LinkKeeps(b: seq<Half>, uses: seq<nat>, pos: nat, p: nat)
    requires Linkable(uses, |b|, pos)
    requires p < |b| && p !in uses && p - 1 !in uses
    ensures Link(b, uses, pos)[p] == b[p]
    decreases |uses|
  {
    if uses != [] {
      hide SetAdd, SetImm12, Distance;
      assert uses == [uses[0]] + uses[1..];
      LinkKeeps(Patched(b, uses[0], pos), uses[1..], pos, p);
    }
  }

  /** The two halfwords of a recorded load. */
  lemma {:induction false} LinkAt(b: seq<Half>, uses: seq<nat>, pos: nat, p: nat)
    requires Linkable(uses, |b|, pos) && UsesApart(uses) && p in uses
    ensures Link(b, uses, pos)[p] == SetAdd(b[p])
    ensures Link(b, uses, pos)[p + 1] == SetImm12(b[p + 1], Distance(p, pos))
    decreases |uses|
  {
    hide SetAdd, SetImm12, Distance;
    LinkableUse(uses, |b|, pos, p);
    var u, rest := uses[0], uses[1..];
    var b' := Patched(b, u, pos);
    assert uses == [u] + rest;
    RestOfUses(uses, |b|, pos);
    hide UsesApart, Linkable;
    if p in rest {
      assert Apart(u, p);
      SetTwice(b[p], Distance(p, pos));
      SetTwice(b[p + 1], Distance(p, pos));
      LinkAt(b', rest, pos, p);
    } else {
      LinkKeeps(b', rest, pos, p);
      LinkKeeps(b', rest, pos, p + 1);
    }
  }

  lemma RestOfUses(uses: seq<nat>, limit: nat, pos: nat)
    requires Linkable(uses, limit, pos) && UsesApart(uses) && uses != []
    ensures Linkable(uses[1..], limit, pos) && UsesApart(uses[1..])
    ensures uses[0] + 1 < limit && 0 <= Distance(uses[0], pos) < 0x1000
    ensures forall v :: v in uses[1..] ==> Apart(uses[0], v)
  {
    hide Distance;
  }

  lemma LinkableUse(uses: seq<nat>, limit: nat, pos: nat, p: nat)
    requires Linkable(uses, limit, pos) && p in uses
    ensures p + 1 < limit && 0 <= Distance(p, pos) < 0x1000
  {
  }

  ghost predicate Unused(labels: seq<Label>, p: int) {
    forall k :: 0 <= k < |labels| ==> p !in labels[k].uses
  }

  /** Literal-pool linking: a halfword that belongs to no recorded load is as emitted. */
  lemma {:induction false} BindKeeps(b: seq<Half>, labels: seq<Label>, p: nat)
    requires AllLinkable(labels, |b|) && LabelsApart(labels)
    requires p < |b| && Unused(labels, p) && Unused(labels, p - 1)
    ensures Bind(b, labels)[p] == b[p]
    decreases |labels|
  {
    if labels != [] {
      hide Lo, Hi, Linkable, UsesApart, Link;
      var l, rest := labels[0], labels[1..];
      RestLinkable(labels, |b|);
      RestApart(labels);
      LinkKeeps(b, l.uses, |b|, p);
      BindKeeps(Link(b, l.uses, |b|) + [Lo(l.data), Hi(l.data)], rest, p);
    }
  }

  lemma RestApart(labels: seq<Label>)
    requires LabelsApart(labels) && labels != []
    ensures LabelsApart(labels[1..])
  {
    var rest := labels[1..];
    assert forall k :: 0 <= k < |rest| ==> rest[k] == labels[k + 1];
  }

  /** No other label's load overlaps one of label `k`. */
  lemma NeighboursUnused(labels: seq<Label>, k: nat, p: nat, j: nat)
    requires LabelsApart(labels) && k < |labels| && j < |labels| && j != k && p in labels[k].uses
    ensures p !in labels[j].uses && p + 1 !in labels[j].uses && (p - 1) !in labels[j].uses
  {
    if j < k { assert Separate(labels[j].uses, labels[k].uses); } else { assert Separate(labels[k].uses, labels[j].uses); }
    forall u | u in labels[j].uses ensures u != p && u != p + 1 && u != p - 1 {
      if j < k { assert Apart(u, p) && u != p; } else { assert Apart(p, u) && u != p; }
    }
  }

  /** What binding label 0 does to a load of label `k`. */
  lemma LinkFirst(b: seq<Half>, labels: seq<Label>, k: nat, p: nat)
    requires AllLinkable(labels, |b|) && LabelsApart(labels)
    requires k < |labels| && p in labels[k].uses
    ensures Linkable(labels[0].uses, |b|, |b|) && p + 1 < |b| && 0 <= Distance(p, |b| + 2 * k) < 0x1000
    ensures var b' := Link(b, labels[0].uses, |b|);
            if k == 0 then b'[p] == SetAdd(b[p]) && b'[p + 1] == SetImm12(b[p + 1], Distance(p, |b|))
            else b'[p] == b[p] && b'[p + 1] == b[p + 1]
  {
    hide Link, SetAdd, SetImm12, Distance, Linkable, UsesApart;
    LinkableUse(labels[k].uses, |b|, |b| + 2 * k, p);
    assert Linkable(labels[0].uses, |b|, |b| + 2 * 0) && UsesApart(labels[0].uses);
    hide LabelsApart, AllLinkable;
    if k == 0 {
      LinkAt(b, labels[0].uses, |b|, p);
    } else {
      NeighboursUnused(labels, k, p, 0);
      LinkKeeps(b, labels[0].uses, |b|, p);
      LinkKeeps(b, labels[0].uses, |b|, p + 1);
    }
  }

  /** Literal-pool linking, instruction side: after binding, a load recorded for label
      `k` carries the distance to that label's slot. */
  lemma {:induction false} BindUse(b: seq<Half>, labels: seq<Label>, k: nat, p: nat)
    requires AllLinkable(labels, |b|) && LabelsApart(labels)
    requires k < |labels| && p in labels[k].uses
    ensures p + 1 < |b| && 0 <= Distance(p, |b| + 2 * k) < 0x1000
    ensures Bind(b, labels)[p] == SetAdd(b[p])
    ensures Bind(b, labels)[p + 1] == SetImm12(b[p + 1], Distance(p, |b| + 2 * k))
    decreases |labels|
  {
    hide Lo, Hi, Linkable, Link, SetAdd, SetImm12, Distance, LabelsApart, AllLinkable;
    LinkFirst(b, labels, k, p);
    RestLinkable(labels, |b|);
    RestApart(labels);
    var l, rest := labels[0], labels[1..];
    var b' := Link(b, l.uses, |b|) + [Lo(l.data), Hi(l.data)];
    if k == 0 {
      forall j | 0 <= j < |rest| ensures p !in rest[j].uses && p + 1 !in rest[j].uses && p - 1 !in rest[j].uses {
        NeighboursUnused(labels, 0, p, j + 1);
      }
      BindKeeps(b', rest, p);
      BindKeeps(b', rest, p + 1);
    } else {
      assert rest[k - 1] == labels[k];
      BindUse(b', rest, k - 1, p);
    }
  }

  /** Literal-pool linking, data side: slot `k` holds the value of label `k`. */
  lemma {:induction false} BindPool(b: seq<Half>, labels: seq<Label>, k: nat)
    requires AllLinkable(labels, |b|) && LabelsApart(labels)
    requires k < |labels|
    ensures Bind(b, labels)[|b| + 2 * k] == Lo(labels[k].data)
    ensures Bind(b, labels)[|b| + 2 * k + 1] == Hi(labels[k].data)
    decreases |labels|
  {
    hide Lo, Hi, Link, SetAdd, SetImm12, Distance;
    var l, rest := labels[0], labels[1..];
    RestLinkable(labels, |b|);
    RestApart(labels);
    var b' := Link(b, l.uses, |b|) + [Lo(l.data), Hi(l.data)];
    if k == 0 {
      forall j | 0 <= j < |rest| ensures |b| !in rest[j].uses && |b| + 1 !in rest[j].uses && |b| - 1 !in rest[j].uses {
        assert Linkable(labels[j + 1].uses, |b|, |b| + 2 * (j + 1));
      }
      BindKeeps(b', rest, |b|);
      BindKeeps(b', rest, |b| + 1);
    } else {
      BindPool(b', rest, k - 1);
    }
  }

  /** Two lists of labels that differ in their data only. */
  ghost predicate SameUses(labels: seq<Label>, labels': seq<Label>) {
    |labels| == |labels'| && forall k :: 0 <= k < |labels| ==> labels[k].uses == labels'[k].uses
  }

  lemma SameUsesLink(labels: seq<Label>, labels': seq<Label>, start: nat)
    requires SameUses(labels, labels')
    ensures AllLinkable(labels, start) <==> AllLinkable(labels', start)
    ensures LabelsApart(labels) ==> LabelsApart(labels')
  {
    hide Linkable, UsesApart, Separate;
    if LabelsApart(labels) { SameUsesApart(labels, labels'); }
  }

  lemma SameUsesApart(labels: seq<Label>, labels': seq<Label>)
    requires SameUses(labels, labels') && LabelsApart(labels)
    ensures LabelsApart(labels')
  {
    hide UsesApart, Separate;
  }

  /** The data of the labels does not enter the code in front of the pool. */
  lemma BindSame(b: seq<Half>, labels: seq<Label>, labels': seq<Label>, p: nat)
    requires AllLinkable(labels, |b|) && LabelsApart(labels) && SameUses(labels, labels') && p < |b|
    ensures AllLinkable(labels', |b|) && Bind(b, labels)[p] == Bind(b, labels')[p]
  {
    hide AllLinkable, LabelsApart, SetAdd, SetImm12, Distance, Bind;
    SameUsesLink(labels, labels', |b|);
    if k :| 0 <= k < |labels| && p in labels[k].uses {
      BindUse(b, labels, k, p);
      BindUse(b, labels', k, p);
    } else if k :| 0 <= k < |labels| && (p - 1) in labels[k].uses {
      BindUse(b, labels, k, p - 1);
      BindUse(b, labels', k, p - 1);
    } else {
      BindKeeps(b, labels, p);
      BindKeeps(b, labels', p);
    }
  }

  /** Rewriting the word of slot `k` is binding with another value for label `k`. */
  lemma RewriteSlot(b: seq<Half>, labels: seq<Label>, k: nat, v: U32)
    requires AllLinkable(labels, |b|) && LabelsApart(labels) && k < |labels|
    ensures var labels' := labels[k := labels[k].(data := v)];
            && AllLinkable(labels', |b|) && LabelsApart(labels')
            && Bind(b, labels') == Bind(b, labels)[|b| + 2 * k := Lo(v)][|b| + 2 * k + 1 := Hi(v)]
  {
    hide AllLinkable, LabelsApart, Bind, Lo, Hi;
    var labels' := labels[k := labels[k].(data := v)];
    SameUsesLink(labels, labels', |b|);
    var r := Bind(b, labels)[|b| + 2 * k := Lo(v)][|b| + 2 * k + 1 := Hi(v)];
    forall p: nat | p < |r| ensures Bind(b, labels')[p] == r[p] {
      if p < |b| {
        BindSame(b, labels, labels', p);
      } else {
        var j := (p - |b|) / 2;
        BindPool(b, labels, j);
        BindPool(b, labels', j);
      }
    }
  }
}
