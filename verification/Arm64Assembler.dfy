/** The A64 assembler used by the relocator: encoders, the pseudo labels whose loads
    are patched once the label is bound, and the literal pool.
 */
module Arm64Assembler {
  import opened Arithmetic
  import opened MachineWords
  import opened Arm64Machine

  // ---------------------------------------------------------------- encoders

  function MovzX(rd: int, half: int, hw: int): Word
    requires 0 <= rd < 32 && 0 <= half < 0x10000 && 0 <= hw < 4
  {
    0xD2800000 + hw * 0x200000 + half * 0x20 + rd
  }

  function MovkX(rd: int, half: int, hw: int): Word
    requires 0 <= rd < 32 && 0 <= half < 0x10000 && 0 <= hw < 4
  {
    0xF2800000 + hw * 0x200000 + half * 0x20 + rd
  }

  /** `ldr(rt, MemOperand(rn, 0))`: the size bits are those of LDR X whatever the width of `rt`. */
  function LdrX(rt: int, rn: int): Word
    requires 0 <= rt < 32 && 0 <= rn < 32
  {
    0xF9400000 + rn * 0x20 + rt
  }

  /** `ldr X17, #0`, the placeholder of a literal load. */
  const LDR_TMP: Word := 0x58000011
  /** `br X17` and `blr X17`. */
  const BR_TMP: Word := 0xD61F0220
  const BLR_TMP: Word := 0xD63F0220

  function MovWords(rd: int, imm: U64): seq<Word>
    requires 0 <= rd < 32
  {
    [MovzX(rd, imm % 0x10000, 0),
     MovkX(rd, Bits(imm, 0x10000, 0x10000), 1),
     MovkX(rd, Bits(imm, 0x1_0000_0000, 0x10000), 2),
     MovkX(rd, Bits(imm, 0x1_0000_0000_0000, 0x10000), 3)]
  }

  function Lo(v: U64): Word { v % TWO32 }
  function Hi(v: U64): Word { v / TWO32 }

  /** The imm19 field of a literal load set to a distance of `d` words. */
  function Patch(w: Word, d: int): Word {
    (w / 0x1000000) * 0x1000000 + (d % 0x80000) * 0x20 + w % 0x20
  }

  // ---------------------------------------------------------------- labels

  /** A pooled value and the positions, in words, of the loads that want it. */
  datatype Label = Label(data: U64, uses: seq<nat>)

  ghost predicate UsesBelow(uses: seq<nat>, limit: nat) {
    forall i :: 0 <= i < |uses| ==> uses[i] < limit
  }

  /** The loads at `uses` patched for a label bound at word `pos`. */
  ghost function Link(b: seq<Word>, uses: seq<nat>, pos: nat): (r: seq<Word>)
    requires UsesBelow(uses, |b|)
    ensures |r| == |b|
    decreases |uses|
  {
    if uses == [] then b
    else Link(b[uses[0] := Patch(b[uses[0]], pos - uses[0])], uses[1..], pos)
  }

  ghost predicate UsesWithin(labels: seq<Label>, limit: nat) {
    forall k :: 0 <= k < |labels| ==> UsesBelow(labels[k].uses, limit)
  }

  /** Every label bound where its value lands in the pool. */
  ghost function Bind(b: seq<Word>, labels: seq<Label>): (r: seq<Word>)
    requires UsesWithin(labels, |b|)
    ensures |r| == |b| + 2 * |labels|
    decreases |labels|
  {
    if labels == [] then b
    else
      var l := labels[0];
      Bind(Link(b, l.uses, |b|) + [Lo(l.data), Hi(l.data)], labels[1..])
  }

  /** No load position belongs to two labels. */
  ghost predicate UsesDisjoint(labels: seq<Label>) {
    forall j, k, u :: 0 <= j < k < |labels| && u in labels[j].uses ==> u !in labels[k].uses
  }

  lemma PatchTwice(w: Word, d: int)
    ensures Patch(Patch(w, d), d) == Patch(w, d)
  {
    var f := d % 0x80000;
    var p := Patch(w, d);
    assert p == (w / 0x1000000) * 0x1000000 + (f * 0x20 + w % 0x20);
    assert p / 0x1000000 == w / 0x1000000;
    assert p % 0x20 == w % 0x20;
  }

  lemma {:induction false} LinkAt(b: seq<Word>, uses: seq<nat>, pos: nat, p: nat)
    requires UsesBelow(uses, |b|)
    requires p < |b|
    ensures Link(b, uses, pos)[p] == if p in uses then Patch(b[p], pos - p) else b[p]
    decreases |uses|
  {
    if uses != [] {
      var b' := b[uses[0] := Patch(b[uses[0]], pos - uses[0])];
      LinkAt(b', uses[1..], pos, p);
      assert uses == [uses[0]] + uses[1..];
      PatchTwice(b[p], pos - p);
    }
  }

  /** Literal-pool linking, instruction side: after binding, a load recorded for label
      `k` carries the distance to that label's slot, and every other word is as emitted. */
  lemma {:induction false} BindCode(b: seq<Word>, labels: seq<Label>, p: nat)
    requires UsesWithin(labels, |b|) && UsesDisjoint(labels)
    requires p < |b|
    ensures (forall k :: 0 <= k < |labels| ==> p !in labels[k].uses) ==> Bind(b, labels)[p] == b[p]
    ensures forall k :: 0 <= k < |labels| && p in labels[k].uses ==>
              Bind(b, labels)[p] == Patch(b[p], |b| + 2 * k - p)
    decreases |labels|
  {
    if labels != [] {
      var l, rest := labels[0], labels[1..];
      var b' := Link(b, l.uses, |b|) + [Lo(l.data), Hi(l.data)];
      LinkAt(b, l.uses, |b|, p);
      BindCode(b', rest, p);
      forall k | 0 <= k < |labels| && p in labels[k].uses
        ensures Bind(b, labels)[p] == Patch(b[p], |b| + 2 * k - p)
      {
        if k > 0 { assert rest[k - 1] == labels[k]; }
      }
    }
  }

  /** Literal-pool linking, data side: slot `k` holds the value of label `k`. */
  lemma {:induction false} BindPool(b: seq<Word>, labels: seq<Label>, k: nat)
    requires UsesWithin(labels, |b|) && UsesDisjoint(labels)
    requires k < |labels|
    ensures Bind(b, labels)[|b| + 2 * k] == Lo(labels[k].data)
    ensures Bind(b, labels)[|b| + 2 * k + 1] == Hi(labels[k].data)
    decreases |labels|
  {
    var l, rest := labels[0], labels[1..];
    var b' := Link(b, l.uses, |b|) + [Lo(l.data), Hi(l.data)];
    if k == 0 {
      BindCode(b', rest, |b|);
      BindCode(b', rest, |b| + 1);
    } else {
      BindPool(b', rest, k - 1);
    }
  }

  // ---------------------------------------------------------------- what the encodings mean

  /** The classes as conditions on the top byte. */
  lemma TopByte(w: Word, t: int, r: int)
    requires w == t * 0x1000000 + r && 0 <= r < 0x1000000
    ensures w / 0x1000000 == t
    ensures LiteralClass(w) <==> t / 8 % 8 == 3 && t % 4 == 0
    ensures PcAddressClass(w) <==> t % 32 == 16
    ensures BranchClass(w) <==> t / 4 % 32 == 5
    ensures TestClass(w) <==> t / 2 % 64 == 27
    ensures CompareClass(w) <==> t / 2 % 64 == 26
    ensures CondClass(w) <==> t / 2 == 42
  {
    DivUnique(w, 0x1000000, t, r);
    DivUnique(w, 0x8000000, t / 8, t % 8 * 0x1000000 + r);
    DivUnique(w, 0x4000000, t / 4, t % 4 * 0x1000000 + r);
    DivUnique(w, 0x2000000, t / 2, t % 2 * 0x1000000 + r);
  }

  lemma MoveFields(w: Word, t: int, rd: int, half: int, hw: int)
    requires 0 <= rd < 32 && 0 <= half < 0x10000 && 0 <= hw < 4
    requires w == t * 0x800000 + hw * 0x200000 + half * 0x20 + rd
    ensures w / 0x800000 == t && Rt(w) == rd && Half(w) == half && Unit(w) == UnitOf(hw)
  {
    DivUnique(w, 0x800000, t, hw * 0x200000 + half * 0x20 + rd);
    DivUnique(w, 0x20, t * 0x40000 + hw * 0x10000 + half, rd);
    DivUnique(w / 0x20, 0x10000, t * 4 + hw, half);
    DivUnique(w, 0x200000, t * 4 + hw, half * 0x20 + rd);
    DivUnique(t * 4 + hw, 4, t, hw);
  }

  lemma DecodeMoveClass(w: Word)
    requires PlainClass(w)
    ensures w / 0x800000 == 0x1A5 ==> Decode(w) == MoveZero(Rt(w), Half(w), Unit(w))
    ensures w / 0x800000 == 0x1E5 ==> Decode(w) == MoveKeep(Rt(w), Half(w), Unit(w))
  {
    hide Rt, Half, Unit, LiteralClass, PcAddressClass, BranchClass, TestClass, CompareClass, CondClass;
  }

  lemma DecodeMovz(rd: int, half: int, hw: int)
    requires 0 <= rd < 32 && 0 <= half < 0x10000 && 0 <= hw < 4
    ensures Decode(MovzX(rd, half, hw)) == MoveZero(rd, half, UnitOf(hw))
  {
    hide Decode, Half, Unit, Rt, LiteralClass, PcAddressClass, BranchClass, TestClass, CompareClass, CondClass;
    var w := MovzX(rd, half, hw);
    TopByte(w, 0xD2, w - 0xD2000000);
    MoveFields(w, 0x1A5, rd, half, hw);
    DecodeMoveClass(w);
  }

  lemma DecodeMovk(rd: int, half: int, hw: int)
    requires 0 <= rd < 32 && 0 <= half < 0x10000 && 0 <= hw < 4
    ensures Decode(MovkX(rd, half, hw)) == MoveKeep(rd, half, UnitOf(hw))
  {
    hide Decode, Half, Unit, Rt, LiteralClass, PcAddressClass, BranchClass, TestClass, CompareClass, CondClass;
    var w := MovkX(rd, half, hw);
    TopByte(w, 0xF2, w - 0xF2000000);
    MoveFields(w, 0x1E5, rd, half, hw);
    DecodeMoveClass(w);
  }

  lemma DecodeLoadClass(w: Word)
    requires PlainClass(w)
    requires w / 0x800000 == 0x1F2 && w / 0x400000 == 0x3E5 && Rn(w) != ZR
    ensures Decode(w) == LoadDouble(Rt(w), Rn(w), 8 * Bits(w, 0x400, 0x1000))
  {
    hide Rt, Rn, Bits, LiteralClass, PcAddressClass, BranchClass, TestClass, CompareClass, CondClass;
  }

  lemma DecodeLdrX(rt: int, rn: int)
    requires 0 <= rt < 32 && 0 <= rn < 31
    ensures Decode(LdrX(rt, rn)) == LoadDouble(rt, rn, 0)
  {
    hide Decode, LiteralClass, PcAddressClass, BranchClass, TestClass, CompareClass, CondClass;
    var w := LdrX(rt, rn);
    TopByte(w, 0xF9, w - 0xF9000000);
    DivUnique(w, 0x800000, 0x1F2, 0x400000 + rn * 0x20 + rt);
    DivUnique(w, 0x400000, 0x3E5, rn * 0x20 + rt);
    DivUnique(w, 0x20, 0x7CA0000 + rn, rt);
    DivUnique(w / 0x20, 32, 0x3E5000, rn);
    DivUnique(w, 0x400, 0x3E5000, rn * 0x20 + rt);
    DecodeLoadClass(w);
  }

  lemma DecodeTmp()
    ensures Decode(BR_TMP) == BranchRegister(false, X17)
    ensures Decode(BLR_TMP) == BranchRegister(true, X17)
  {
  }

  lemma DecodeLiteralClass(w: Word)
    requires LiteralClass(w) && w / 0x80000000 == 0 && Bits(w, 0x4000000, 2) == 0
    ensures Decode(w) == LoadLiteral(Bits(w, 0x40000000, 2) == 1, Rt(w), Imm19(w))
  {
    hide Bits, Rt, Imm19, LiteralClass;
  }

  lemma LiteralFields(w: Word, d: nat)
    requires d < 0x40000 && w == 0x58000000 + d * 0x20 + 17
    ensures w / 0x80000000 == 0 && Bits(w, 0x40000000, 2) == 1 && Bits(w, 0x4000000, 2) == 0
    ensures Rt(w) == 17 && Imm19(w) == 4 * d
  {
    DivUnique(w, 0x20, 0x2C00000 + d, 17);
    DivUnique(0x2C00000 + d, 0x80000, 0x58, d);
    DivUnique(w, 0x80000000, 0, w);
    DivUnique(w, 0x40000000, 1, w - 0x40000000);
    DivUnique(w, 0x4000000, 22, d * 0x20 + 17);
  }

  lemma DecodePatched(d: nat)
    requires d < 0x40000
    ensures Decode(Patch(LDR_TMP, d)) == LoadLiteral(true, X17, 4 * d)
  {
    hide Decode, LiteralClass, PcAddressClass, BranchClass, TestClass, CompareClass, CondClass;
    var w := Patch(LDR_TMP, d);
    assert w == 0x58000000 + d * 0x20 + 17;
    hide Patch, Bits, Rt, Imm19;
    TopByte(w, 0x58, d * 0x20 + 17);
    LiteralFields(w, d);
    DecodeLiteralClass(w);
  }

  // ---------------------------------------------------------------- running emitted sequences

  lemma NextAt(base: U64, k: int, d: int)
    ensures Wrap(At(base, k) + 4 * d) == At(base, k + d)
  {
  }

  lemma StepNext(e: Env, base: U64, words: seq<Word>, k: nat, c: Core)
    requires Holds(e, base, words) && k < |words|
    requires Exec(e, Decode(words[k]), At(base, k), c).Next?
    ensures Step(e, Machine(At(base, k), c)) == Machine(At(base, k + 1), Exec(e, Decode(words[k]), At(base, k), c).core)
  {
    NextAt(base, k, 1);
  }

  lemma KeepAdds(v: U64, half: int)
    requires 0 <= half < 0x10000
    ensures v < 0x10000 ==> Keep(v, half, 0x10000) == v + half * 0x10000
    ensures v < 0x1_0000_0000 ==> Keep(v, half, 0x1_0000_0000) == v + half * 0x1_0000_0000
    ensures v < 0x1_0000_0000_0000 ==> Keep(v, half, 0x1_0000_0000_0000) == v + half * 0x1_0000_0000_0000
  {
  }

  lemma Reassemble(h0: int, h1: int, h2: int, h3: int)
    requires 0 <= h0 < 0x10000 && 0 <= h1 < 0x10000 && 0 <= h2 < 0x10000 && 0 <= h3 < 0x10000
    ensures Keep(Keep(Keep(h0, h1, 0x10000), h2, 0x1_0000_0000), h3, 0x1_0000_0000_0000) ==
            h0 + h1 * 0x10000 + h2 * 0x1_0000_0000 + h3 * 0x1_0000_0000_0000
  {
    KeepAdds(h0, h1);
    KeepAdds(h0 + h1 * 0x10000, h2);
    KeepAdds(h0 + h1 * 0x10000 + h2 * 0x1_0000_0000, h3);
  }

  lemma HalvesSum(imm: U64)
    ensures 0 <= Bits(imm, 0x10000, 0x10000) < 0x10000 && 0 <= Bits(imm, 0x1_0000_0000, 0x10000) < 0x10000
    ensures 0 <= Bits(imm, 0x1_0000_0000_0000, 0x10000) < 0x10000
    ensures imm == imm % 0x10000 + Bits(imm, 0x10000, 0x10000) * 0x10000 + Bits(imm, 0x1_0000_0000, 0x10000) * 0x1_0000_0000
                   + Bits(imm, 0x1_0000_0000_0000, 0x10000) * 0x1_0000_0000_0000
  {
  }

  lemma StepKeep(e: Env, base: U64, words: seq<Word>, k: nat, rd: int, v: U64, half: int, unit: int, c: Core)
    requires Holds(e, base, words) && k < |words|
    requires Decode(words[k]) == MoveKeep(rd, half, unit)
    ensures Step(e, Machine(At(base, k), Set(c, rd, v))) == Machine(At(base, k + 1), Set(c, rd, Keep(v, half, unit)))
  {
    StepNext(e, base, words, k, Set(c, rd, v));
    SetTwice(c, rd, v, Keep(v, half, unit));
  }

  lemma FourMoves(e: Env, base: U64, words: seq<Word>, k: nat, rd: int, h0: U64, h1: int, h2: int, h3: int, c: Core)
    requires Holds(e, base, words) && k + 4 <= |words|
    requires Decode(words[k]) == MoveZero(rd, h0, 1)
    requires Decode(words[k + 1]) == MoveKeep(rd, h1, 0x10000)
    requires Decode(words[k + 2]) == MoveKeep(rd, h2, 0x1_0000_0000)
    requires Decode(words[k + 3]) == MoveKeep(rd, h3, 0x1_0000_0000_0000)
    ensures Run(e, 4, Machine(At(base, k), c)) ==
            Machine(At(base, k + 4), Set(c, rd, Keep(Keep(Keep(h0, h1, 0x10000), h2, 0x1_0000_0000), h3, 0x1_0000_0000_0000)))
  {
    hide Decode, Keep;
    var v1 := Keep(h0, h1, 0x10000);
    var v2 := Keep(v1, h2, 0x1_0000_0000);
    StepNext(e, base, words, k, c);
    assert Wrap(h0 * 1) == h0;
    StepKeep(e, base, words, k + 1, rd, h0, h1, 0x10000, c);
    StepKeep(e, base, words, k + 2, rd, v1, h2, 0x1_0000_0000, c);
    StepKeep(e, base, words, k + 3, rd, v2, h3, 0x1_0000_0000_0000, c);
    FourSteps(e, Machine(At(base, k), c));
  }

  /** The four moves of `Mov` load the whole constant and change nothing else. */
  lemma MovRuns(e: Env, base: U64, words: seq<Word>, k: nat, rd: int, imm: U64, c: Core)
    requires Holds(e, base, words) && k + 4 <= |words| && 0 <= rd < 32
    requires words[k..k + 4] == MovWords(rd, imm)
    ensures Run(e, 4, Machine(At(base, k), c)) == Machine(At(base, k + 4), Set(c, rd, imm))
  {
    hide Decode, Keep, Step, Run, Holds, MovWords, Bits;
    HalvesSum(imm);
    MovDecodes(words, k, rd, imm);
    var h0, h1, h2, h3 := imm % 0x10000, Bits(imm, 0x10000, 0x10000), Bits(imm, 0x1_0000_0000, 0x10000),
                          Bits(imm, 0x1_0000_0000_0000, 0x10000);
    Reassemble(h0, h1, h2, h3);
    FourMoves(e, base, words, k, rd, h0, h1, h2, h3, c);
  }

  lemma MovDecodes(words: seq<Word>, k: nat, rd: int, imm: U64)
    requires k + 4 <= |words| && 0 <= rd < 32
    requires words[k..k + 4] == MovWords(rd, imm)
    ensures Decode(words[k]) == MoveZero(rd, imm % 0x10000, 1)
    ensures Decode(words[k + 1]) == MoveKeep(rd, Bits(imm, 0x10000, 0x10000), 0x10000)
    ensures Decode(words[k + 2]) == MoveKeep(rd, Bits(imm, 0x1_0000_0000, 0x10000), 0x1_0000_0000)
    ensures Decode(words[k + 3]) == MoveKeep(rd, Bits(imm, 0x1_0000_0000_0000, 0x10000), 0x1_0000_0000_0000)
  {
    HalvesSum(imm);
    hide Decode, MovzX, MovkX, Bits;
    var m := words[k..k + 4];
    assert words[k] == m[0] && words[k + 1] == m[1] && words[k + 2] == m[2] && words[k + 3] == m[3];
    DecodeMovz(rd, imm % 0x10000, 0);
    DecodeMovk(rd, Bits(imm, 0x10000, 0x10000), 1);
    DecodeMovk(rd, Bits(imm, 0x1_0000_0000, 0x10000), 2);
    DecodeMovk(rd, Bits(imm, 0x1_0000_0000_0000, 0x10000), 3);
  }

  lemma SetTwice(c: Core, r: int, v: U64, w: U64)
    ensures Set(Set(c, r, v), r, w) == Set(c, r, w)
    ensures 0 <= r < ZR ==> Get(Set(c, r, v), r) == v
  {
    assert 0 <= r < ZR ==> c.regs[r := v][r := w] == c.regs[r := w];
  }

  lemma FourSteps(e: Env, m: Machine)
    ensures Run(e, 4, m) == Step(e, Step(e, Step(e, Step(e, m))))
  {
    var m2 := Step(e, Step(e, m));
    assert Run(e, 4, m) == Run(e, 3, Step(e, m)) == Run(e, 2, m2);
    assert Run(e, 2, m2) == Run(e, 1, Step(e, m2)) == Run(e, 0, Step(e, Step(e, m2)));
  }
}
