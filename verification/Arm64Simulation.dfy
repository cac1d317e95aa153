/** The relocated code does what the original block does.
 */
module Arm64Simulation {
  import opened MachineWords
  import opened Arm64Machine
  import opened Arm64Assembler
  import opened Arm64Relocator
  import opened Arm64Chunk
  import opened Arm64Rewrites

  // ---------------------------------------------------------------- what is compared

  /** The registers that an instruction reads. */
  function Reads(isa: Isa, i: Insn): set<int> {
    match i
    case TestBranch(_, rt, _, _) => {rt}
    case CompareBranch(_, _, rt, _) => {rt}
    case MoveKeep(rd, _, _) => {rd}
    case LoadDouble(_, rn, _) => {rn}
    case AddImmediate(_, rn, _) => {rn}
    case BranchRegister(_, rn) => {rn}
    case Other(w) => isa.uses(w)
    case _ => {}
  }

  /** The registers that an instruction overwrites. */
  function Writes(isa: Isa, i: Insn): set<int> {
    match i
    case LoadLiteral(_, rt, _) => {rt}
    case PcAddress(_, rd, _) => {rd}
    case MoveZero(rd, _, _) => {rd}
    case MoveKeep(rd, _, _) => {rd}
    case LoadDouble(rt, _, _) => {rt}
    case AddImmediate(rd, _, _) => {rd}
    case Other(w) => isa.defines(w)
    case _ => {}
  }

  /** The registers that may differ between the original and the relocated code after `i`,
      given those that may differ before.  A literal load leaves its address in X17, and a
      32-bit one into X17 its full eight bytes; a call links to the relocated image
      of the return address, and BL leaves its target in X17. */
  function StaleAfter(isa: Isa, stale: set<int>, i: Insn): set<int> {
    match i
    case LoadLiteral(wide, rt, _) => if rt == X17 && !wide then stale + {X17} else stale + {X17} - {rt}
    case Branch(link, _) => if link then stale + {X17, LR} else stale
    case BranchRegister(link, _) => if link then stale + {LR} else stale
    case _ => stale - Writes(isa, i)
  }

  /** The registers that may differ before instruction `i` of the block. */
  function Stale(isa: Isa, block: seq<Word>, i: nat): set<int>
    requires i <= |block|
  {
    if i == 0 then {} else StaleAfter(isa, Stale(isa, block, i - 1), Decode(block[i - 1]))
  }

  /** Nothing but X17 and the link register ever differs, and the link register only after a call. */
  lemma {:induction false} StaleOnly(isa: Isa, block: seq<Word>, i: nat)
    requires i <= |block|
    ensures Stale(isa, block, i) <= {X17, LR}
    ensures (forall k :: 0 <= k < i ==> !IsCall(Decode(block[k]))) ==> Stale(isa, block, i) <= {X17}
  {
    hide Decode;
    if i > 0 { StaleOnly(isa, block, i - 1); }
  }

  predicate IsCall(i: Insn) { (i.Branch? || i.BranchRegister?) && i.link }

  /** The two code areas and everything the theorems assume of them. */
  ghost predicate Setting(e0: Env, e1: Env, block: seq<Word>, origin: U64, base: U64) {
    && e0.isa == e1.isa && Respects(e0.isa)
    && Relocatable(block)
    && Holds(e0, origin, block) && Holds(e1, base, Chunk(block, origin))
    && |Chunk(block, origin)| <= 0x40000    // the reach of an imm19 literal load
  }

  /** A load of eight bytes at `a` touches neither copy of the code. */
  ghost predicate Outside(e0: Env, e1: Env, a: U64) {
    a !in e0.text && a !in e1.text && Wrap(a + 4) !in e0.text && Wrap(a + 4) !in e1.text
  }

  /** When relocating one instruction preserves its meaning in state `c`. */
  ghost predicate StepOk(e0: Env, e1: Env, stale: set<int>, i: Insn, pc: U64, c: Core) {
    && stale !! Reads(e0.isa, i)
    && match i
       case LoadLiteral(wide, rt, off) =>
         && Outside(e0, e1, Wrap(pc + off))
         && (wide || rt == ZR || rt == X17 || Read32(e0, c, Wrap(Wrap(pc + off) + 4)) == 0)
       case LoadDouble(_, rn, off) => Outside(e0, e1, Wrap(Get(c, rn) + off))
       case CondBranch(cond, _) => cond < 14
       case Other(w) => !e0.isa.readsPc(w)
       case NotModelled => false
       case _ => true
  }

  /** `m` is where the relocated code should be when the original has outcome `o`:
      at `next` if it falls through, at the same target if it leaves, with equal states but
      for the registers in `stale` and, after a branch, X17.  After a call the link
      register holds `next`, the relocated image of the return address. */
  ghost predicate Matches(o: Outcome, m: Machine, next: U64, stale: set<int>) {
    match o
    case Next(c) => m.pc == next && EqExcept(c, m.core, stale)
    case Jump(c, t) => m.pc == t && EqExcept(c, m.core, stale + {X17})
    case Call(c, t) => m.pc == t && EqExcept(c, m.core, stale) && Get(m.core, LR) == next
    case Unmodelled => false
  }

  // ---------------------------------------------------------------- the setting exists

  lemma AtInjective(base: U64, j: nat, k: nat)
    requires j < 0x1000_0000_0000 && k < 0x1000_0000_0000 && At(base, j) == At(base, k)
    ensures j == k
  {
  }

  /** Any code can be placed at any address. */
  lemma Placeable(words: seq<Word>, base: U64, isa: Isa) returns (e: Env)
    requires |words| < 0x1000_0000_0000
    ensures e.isa == isa && Holds(e, base, words)
  {
    hide At;
    forall j, k | 0 <= j < |words| && 0 <= k < |words| && At(base, j) == At(base, k) ensures j == k {
      AtInjective(base, j, k);
    }
    e := Env(map k | 0 <= k < |words| :: At(base, k) := words[k], isa);
  }

  /** The theorems are not about nothing: every relocatable block of moderate size has a
      setting, at any two addresses. */
  lemma SettingExists(block: seq<Word>, origin: U64, base: U64) returns (e0: Env, e1: Env)
    requires Relocatable(block) && |block| < 0x1000_0000_0000 && |Chunk(block, origin)| <= 0x40000
    ensures Setting(e0, e1, block, origin, base)
  {
    hide Relocatable, Chunk, Holds;
    var isa := Isa((w: Word, c: Core) => Effect(c, false, 0), (w: Word) => {}, (w: Word) => {}, (w: Word) => false);
    e0 := Placeable(block, origin, isa);
    e1 := Placeable(Chunk(block, origin), base, isa);
  }

  // ---------------------------------------------------------------- register lemmas

  lemma SetRelated(c: Core, d: Core, ignored: set<int>, r: int, v: U64)
    requires EqExcept(c, d, ignored)
    ensures EqExcept(Set(c, r, v), Set(d, r, v), ignored - {r})
  {
    forall x | x !in ignored - {r} ensures Get(Set(c, r, v), x) == Get(Set(d, r, v), x) {
      assert x != r ==> Get(c, x) == Get(d, x);
    }
  }

  lemma ClobberRelated(c: Core, d: Core, ignored: set<int>, r: int, v: U64)
    requires EqExcept(c, d, ignored)
    ensures EqExcept(c, Set(d, r, v), ignored + {r})
  {
    forall x | x !in ignored + {r} ensures Get(c, x) == Get(Set(d, r, v), x) {
      assert Get(c, x) == Get(d, x);
    }
  }

  lemma Weaken(c: Core, d: Core, a: set<int>, b: set<int>)
    requires EqExcept(c, d, a) && a <= b
    ensures EqExcept(c, d, b)
  {
  }

  // ---------------------------------------------------------------- running the rewritten code

  lemma PoolRead(e: Env, base: U64, words: seq<Word>, q: nat, target: U64, d: Core)
    requires Holds(e, base, words) && q + 1 < |words|
    requires words[q] == Lo(target) && words[q + 1] == Hi(target)
    ensures Read64(e, d, At(base, q)) == target
  {
    NextAt(base, q, 1);
    hide At;
    assert Read32(e, d, At(base, q)) == words[q] && Read32(e, d, At(base, q + 1)) == words[q + 1];
  }

  /** A literal load of X17 followed by `br X17` or `blr X17`. */
  lemma PoolBranch(e: Env, base: U64, words: seq<Word>, k: nat, q: nat, target: U64, link: bool, d: Core)
    requires Holds(e, base, words) && k + 1 < q && q + 1 < |words| <= 0x40000
    requires words[k] == Patch(LDR_TMP, q - k)
    requires words[k + 1] == if link then BLR_TMP else BR_TMP
    requires words[q] == Lo(target) && words[q + 1] == Hi(target)
    ensures var x := Set(d, X17, target);
            Run(e, 2, Machine(At(base, k), d)) == Machine(target, if link then Set(x, LR, At(base, k + 2)) else x)
  {
    hide Decode, Patch, At, Read64, Read32;
    DecodePatched(q - k);
    DecodeTmp();
    NextAt(base, k, q - k);
    NextAt(base, k + 1, 1);
    PoolRead(e, base, words, q, target, d);
    StepNext(e, base, words, k, d);
    var m := Machine(At(base, k + 1), Set(d, X17, target));
    assert Get(m.core, X17) == target;
    assert words[k + 1] == e.text[m.pc];
    TwoSteps(e, Machine(At(base, k), d));
  }

  lemma TwoSteps(e: Env, m: Machine)
    ensures Run(e, 2, m) == Step(e, Step(e, m))
  {
    assert Run(e, 2, m) == Run(e, 1, Step(e, m)) == Run(e, 0, Step(e, Step(e, m)));
  }

  /** A branch over the next two words, then a branch to `target`. */
  lemma SkipOrPoolBranch(e: Env, base: U64, words: seq<Word>, k: nat, q: nat, target: U64, skip: bool, d: Core) returns (n: nat)
    requires Holds(e, base, words) && k + 2 < q && q + 1 < |words| <= 0x40000
    requires Exec(e, Decode(words[k]), At(base, k), d) == Take(skip, d, Wrap(At(base, k) + 12))
    requires words[k + 1] == Patch(LDR_TMP, q - (k + 1)) && words[k + 2] == BR_TMP
    requires words[q] == Lo(target) && words[q + 1] == Hi(target)
    ensures Run(e, n, Machine(At(base, k), d)) ==
            if skip then Machine(At(base, k + 3), d) else Machine(target, Set(d, X17, target))
  {
    hide Decode, Exec, Patch, At;
    if skip {
      n := 1;
      NextAt(base, k, 3);
      assert words[k] == e.text[At(base, k)];
      assert Run(e, 1, Machine(At(base, k), d)) == Run(e, 0, Step(e, Machine(At(base, k), d)));
    } else {
      n := 3;
      StepNext(e, base, words, k, d);
      PoolBranch(e, base, words, k + 1, q, target, false, d);
      assert Run(e, 3, Machine(At(base, k), d)) == Run(e, 2, Step(e, Machine(At(base, k), d)));
    }
  }

  // ---------------------------------------------------------------- one instruction at a time

  /** What every case below assumes: the state before instruction `i` of the block. */
  ghost predicate Before(e0: Env, e1: Env, block: seq<Word>, origin: U64, base: U64, i: nat, c: Core, d: Core) {
    && Setting(e0, e1, block, origin, base)
    && i < |block|
    && EqExcept(c, d, Stale(e0.isa, block, i))
    && StepOk(e0, e1, Stale(e0.isa, block, i), Decode(block[i]), At(origin, i), c)
  }

  /** What every case shows of the machine after `n` steps of the relocated code. */
  ghost predicate Simulated(e0: Env, e1: Env, block: seq<Word>, origin: U64, base: U64, i: nat, c: Core, d: Core, n: nat)
    requires Relocatable(block) && i < |block|
  {
    Matches(Exec(e0, Decode(block[i]), At(origin, i), c),
            Run(e1, n, Machine(At(base, Pos(block, origin, i)), d)),
            At(base, Pos(block, origin, i + 1)),
            Stale(e0.isa, block, i + 1))
  }

  /** The common shape of the three conditional branches: the inverted branch skips the pool branch. */
  lemma SimConditional(e0: Env, e1: Env, block: seq<Word>, origin: U64, base: U64, i: nat, c: Core, d: Core,
                       first: Word, target: U64, taken: bool) returns (n: nat)
    requires Before(e0, e1, block, origin, base, i, c, d)
    requires PieceOf(block[i], At(origin, i)) == Piece([first, LDR_TMP, BR_TMP], 1, target)
    requires Exec(e0, Decode(block[i]), At(origin, i), c) == Take(taken, c, target)
    requires forall pc: U64 :: Exec(e1, Decode(first), pc, d) == Take(!taken, d, Wrap(pc + 12))
    requires Stale(e0.isa, block, i + 1) == Stale(e0.isa, block, i)
    ensures Simulated(e0, e1, block, origin, base, i, c, d, n)
  {
    hide PieceOf, Decode, Exec, Chunk, Layout, Relocatable, Pos, Holds, Stale, StepOk, At, Respects, EqExcept, Run, Patch;
    var q := PieceInChunk(block, origin, i);
    var ch, pos := Chunk(block, origin), Pos(block, origin, i);
    var words := PieceOf(block[i], At(origin, i)).words;
    assert words[0] == first && words[2] == BR_TMP;
    n := SkipOrPoolBranch(e1, base, ch, pos, q, target, !taken, d);
    ClobberRelated(c, d, Stale(e0.isa, block, i), X17, target);
  }

  lemma SimTest(e0: Env, e1: Env, block: seq<Word>, origin: U64, base: U64, i: nat, c: Core, d: Core) returns (n: nat)
    requires Before(e0, e1, block, origin, base, i, c, d) && TestClass(block[i])
    ensures Simulated(e0, e1, block, origin, base, i, c, d, n)
  {
    hide Setting, Simulated, PieceOf, Decode, Imm14, InvertTest, TestClass, TestBit, At;
    var w, pc := block[i], At(origin, i);
    TestPiece(w, pc);
    var t := Decode(w);
    assert Get(c, t.rt) == Get(d, t.rt);
    hide Get, EqExcept, Wrap, Stale, StepOk;
    StaleStep(e0.isa, block, i);
    n := SimConditional(e0, e1, block, origin, base, i, c, d, InvertTest(w), Wrap(Imm14(w) + pc),
                        TestBit(Get(c, t.rt), t.bit) == t.ifSet);
  }

  lemma TestPiece(w: Word, pc: U64)
    requires TestClass(w)
    ensures PieceOf(w, pc) == Piece([InvertTest(w), LDR_TMP, BR_TMP], 1, Wrap(Imm14(w) + pc))
    ensures var i := Decode(w);
            && i.TestBranch? && i.offset == Imm14(w)
            && Decode(InvertTest(w)) == TestBranch(!i.ifSet, i.rt, i.bit, 12)
  {
    hide LiteralClass, PcAddressClass, BranchClass, TestClass, CompareClass, CondClass, Decode, InvertTest, Imm14,
         DecodeImm14Offset, Wrap, MovWords, LdrX;
    TestOnly(w);
    DecodersAgree(w);
    DecodeInvertedTest(w);
  }

  lemma SimCompare(e0: Env, e1: Env, block: seq<Word>, origin: U64, base: U64, i: nat, c: Core, d: Core) returns (n: nat)
    requires Before(e0, e1, block, origin, base, i, c, d) && CompareClass(block[i])
    ensures Simulated(e0, e1, block, origin, base, i, c, d, n)
  {
    hide Setting, Simulated, PieceOf, Decode, Imm19, InvertCompare, CompareClass, At;
    var w, pc := block[i], At(origin, i);
    ComparePiece(w, pc);
    var t := Decode(w);
    assert Get(c, t.rt) == Get(d, t.rt);
    hide Get, EqExcept, Wrap, Stale, StepOk;
    StaleStep(e0.isa, block, i);
    n := SimConditional(e0, e1, block, origin, base, i, c, d, InvertCompare(w), Wrap(Imm19(w) + pc),
                        (Get(c, t.rt) % (if t.wide then TWO64 else TWO32) != 0) == t.ifNonZero);
  }

  lemma ComparePiece(w: Word, pc: U64)
    requires CompareClass(w)
    ensures PieceOf(w, pc) == Piece([InvertCompare(w), LDR_TMP, BR_TMP], 1, Wrap(Imm19(w) + pc))
    ensures var i := Decode(w);
            && i.CompareBranch? && i.offset == Imm19(w)
            && Decode(InvertCompare(w)) == CompareBranch(!i.ifNonZero, i.wide, i.rt, 12)
  {
    hide LiteralClass, PcAddressClass, BranchClass, TestClass, CompareClass, CondClass, Decode, InvertCompare, Imm19,
         DecodeImm19Offset, Wrap, MovWords, LdrX;
    CompareOnly(w);
    DecodersAgree(w);
    DecodeInvertedCompare(w);
  }

  lemma SimCond(e0: Env, e1: Env, block: seq<Word>, origin: U64, base: U64, i: nat, c: Core, d: Core) returns (n: nat)
    requires Before(e0, e1, block, origin, base, i, c, d) && CondClass(block[i])
    ensures Simulated(e0, e1, block, origin, base, i, c, d, n)
  {
    hide Setting, Simulated, PieceOf, Decode, Imm19, InvertCond, CondClass, CondHolds, FlipLow, At, Wrap, Get, Set;
    var w, pc := block[i], At(origin, i);
    CondPiece(w, pc);
    FlipNegates(w % 16, c.flags);
    assert c.flags == d.flags;
    hide EqExcept, StepOk, Stale;
    StaleStep(e0.isa, block, i);
    n := SimConditional(e0, e1, block, origin, base, i, c, d, InvertCond(w), Wrap(Imm19(w) + pc), CondHolds(w % 16, c.flags));
  }

  lemma StaleStep(isa: Isa, block: seq<Word>, i: nat)
    requires i < |block|
    ensures Stale(isa, block, i + 1) == StaleAfter(isa, Stale(isa, block, i), Decode(block[i]))
  {
    hide Decode;
  }

  lemma CondPiece(w: Word, pc: U64)
    requires CondClass(w) && Decode(w) != NotModelled
    ensures PieceOf(w, pc) == Piece([InvertCond(w), LDR_TMP, BR_TMP], 1, Wrap(Imm19(w) + pc))
    ensures Decode(w) == CondBranch(w % 16, Imm19(w))
    ensures Decode(InvertCond(w)) == CondBranch(FlipLow(w % 16), 12)
  {
    hide LiteralClass, PcAddressClass, BranchClass, TestClass, CompareClass, CondClass, Decode, InvertCond, Imm19,
         DecodeImm19Offset, Wrap, MovWords, LdrX, FlipLow;
    CondOnly(w);
    DecodersAgree(w);
    DecodeInvertedCond(w);
  }

  lemma SimBranch(e0: Env, e1: Env, block: seq<Word>, origin: U64, base: U64, i: nat, c: Core, d: Core) returns (n: nat)
    requires Before(e0, e1, block, origin, base, i, c, d)
    requires BranchClass(block[i]) && !LiteralClass(block[i]) && !PcAddressClass(block[i])
    ensures Simulated(e0, e1, block, origin, base, i, c, d, n)
  {
    hide PieceOf, Decode, Chunk, Layout, Relocatable, Pos, Holds, At, Respects, EqExcept, Run, Patch, Imm26, BranchClass,
         LiteralClass, PcAddressClass, Stale, Exec, Matches, StepOk, Wrap, Set;
    var w, pc := block[i], At(origin, i);
    BranchPiece(w, pc);
    var p, link, target := PieceOf(w, pc), w / 0x80000000 == 1, Wrap(Imm26(w) + pc);
    assert p.words[1] == if link then BLR_TMP else BR_TMP;
    var q := PieceInChunk(block, origin, i);
    n := 2;
    PoolBranch(e1, base, Chunk(block, origin), Pos(block, origin, i), q, target, link, d);
    BranchMatches(e0, Stale(e0.isa, block, i), link, Imm26(w), pc, c, d, At(base, Pos(block, origin, i + 1)));
    StaleStep(e0.isa, block, i);
  }

  lemma BranchMatches(e0: Env, stale: set<int>, link: bool, off: int, pc: U64, c: Core, d: Core, next: U64)
    requires EqExcept(c, d, stale)
    ensures var target := Wrap(off + pc); var x := Set(d, X17, target);
            Matches(Exec(e0, Branch(link, off), pc, c), Machine(target, if link then Set(x, LR, next) else x), next,
                    StaleAfter(e0.isa, stale, Branch(link, off)))
  {
    var target := Wrap(off + pc);
    hide EqExcept, Wrap;
    ClobberRelated(c, d, stale, X17, target);
    LinkRelated(c, Set(d, X17, target), stale + {X17}, next);
    assert stale + {X17} + {LR} == stale + {X17, LR};
  }

  lemma LinkRelated(c: Core, d: Core, ignored: set<int>, v: U64)
    requires EqExcept(c, d, ignored)
    ensures EqExcept(c, Set(d, LR, v), ignored + {LR}) && Get(Set(d, LR, v), LR) == v
  {
    ClobberRelated(c, d, ignored, LR, v);
  }

  lemma BranchPiece(w: Word, pc: U64)
    requires BranchClass(w) && !LiteralClass(w) && !PcAddressClass(w)
    ensures PieceOf(w, pc) == Piece([LDR_TMP, if w / 0x80000000 == 1 then BLR_TMP else BR_TMP], 0, Wrap(Imm26(w) + pc))
    ensures Decode(w) == Branch(w / 0x80000000 == 1, Imm26(w))
  {
    DecodersAgree(w);
    hide LiteralClass, PcAddressClass, BranchClass, TestClass, CompareClass, CondClass, Imm26, DecodeImm26Offset, Wrap, MovWords,
         LdrX;
  }

  lemma SimPcAddress(e0: Env, e1: Env, block: seq<Word>, origin: U64, base: U64, i: nat, c: Core, d: Core) returns (n: nat)
    requires Before(e0, e1, block, origin, base, i, c, d)
    requires PcAddressClass(block[i]) && !LiteralClass(block[i])
    ensures Simulated(e0, e1, block, origin, base, i, c, d, n)
  {
    hide PieceOf, Decode, Chunk, Layout, Relocatable, Pos, Holds, At, Respects, EqExcept, Run, MovWords, PcAddressClass,
         LiteralClass, Exec, StepOk, Stale, Rt, Set;
    var w, pc := block[i], At(origin, i);
    var v := PcAddressPiece(w, pc);
    var _ := PieceInChunk(block, origin, i);
    var ch, pos := Chunk(block, origin), Pos(block, origin, i);
    assert ch[pos..pos + 4] == MovWords(Rt(w), v);
    n := 4;
    MovRuns(e1, base, ch, pos, Rt(w), v, d);
    SetRelated(c, d, Stale(e0.isa, block, i), Rt(w), v);
    StaleStep(e0.isa, block, i);
  }

  lemma PcAddressPiece(w: Word, pc: U64) returns (v: U64)
    requires PcAddressClass(w) && !LiteralClass(w)
    ensures PieceOf(w, pc) == Piece(MovWords(Rt(w), v), -1, 0) && |MovWords(Rt(w), v)| == 4 && 0 <= Rt(w) < 32
    ensures Decode(w).PcAddress? && Decode(w).rd == Rt(w)
    ensures forall e: Env, c: Core :: Exec(e, Decode(w), pc, c) == Next(Set(c, Rt(w), v))
  {
    DecodersAgree(w);
    v := if w / 0x80000000 == 0 then Wrap(pc + Imm21(w)) else Wrap(pc - pc % 4096 + 4096 * Imm21(w));
    hide LiteralClass, PcAddressClass, BranchClass, TestClass, CompareClass, CondClass, Imm21, DecodeImmhiImmloOffset, Wrap,
         MovzX, MovkX, LdrX, Bits, Set;
  }

  // ---------------------------------------------------------------- literal loads

  lemma LiteralPiece(w: Word, pc: U64)
    requires LiteralClass(w) && Decode(w) != NotModelled
    ensures Decode(w).LoadLiteral? && Decode(w).rt == Rt(w) && 0 <= Rt(w) < 32
    ensures var a := Wrap(pc + Decode(w).offset);
            PieceOf(w, pc) == Piece(MovWords(X17, a) + [LdrX(Rt(w), X17)], -1, 0) && |MovWords(X17, a)| == 4
  {
    DecodersAgree(w);
    TopQuarter(w);
    hide LiteralClass, PcAddressClass, BranchClass, TestClass, CompareClass, CondClass, Imm19, DecodeImm19Offset, Wrap,
         MovzX, MovkX, LdrX, Bits;
  }

  lemma TopQuarter(w: Word)
    requires w / 0x80000000 == 0
    ensures w / 0x40000000 < 2
  {
  }

  /** The rewritten load leaves the full eight bytes at the original address in `rt`, whatever its width was. */
  lemma LiteralRuns(e0: Env, e1: Env, block: seq<Word>, origin: U64, base: U64, i: nat, c: Core, d: Core)
    requires Setting(e0, e1, block, origin, base) && i < |block| && c.memory == d.memory
    requires Decode(block[i]).LoadLiteral?
    requires Outside(e0, e1, Wrap(At(origin, i) + Decode(block[i]).offset))
    ensures var l, a := Decode(block[i]), Wrap(At(origin, i) + Decode(block[i]).offset);
            Run(e1, 5, Machine(At(base, Pos(block, origin, i)), d)) ==
            Machine(At(base, Pos(block, origin, i + 1)), Set(Set(d, X17, a), l.rt, Read64(e0, c, a)))
  {
    var w, pc := block[i], At(origin, i);
    DecodesLiteral(w);
    LiteralPiece(w, pc);
    hide PieceOf, Decode, Chunk, Layout, Relocatable, Pos, Holds, Respects, MovWords, LdrX, LiteralClass, At, Run, Exec, Step;
    var _ := PieceInChunk(block, origin, i);
    var ch, pos, a := Chunk(block, origin), Pos(block, origin, i), Wrap(pc + Decode(w).offset);
    var p := PieceOf(w, pc);
    assert ch[pos..pos + 4] == MovWords(X17, a) by { assert forall j :: 0 <= j < 4 ==> p.words[j] == MovWords(X17, a)[j]; }
    assert ch[pos + 4] == p.words[4] == LdrX(Rt(w), X17);
    MovRuns(e1, base, ch, pos, X17, a, d);
    LastLoad(e0, e1, base, ch, pos + 4, Rt(w), a, c, Set(d, X17, a));
    RunAdd(e1, 4, 1, Machine(At(base, pos), d));
  }

  lemma DecodesLiteral(w: Word)
    requires Decode(w).LoadLiteral?
    ensures LiteralClass(w)
  {
    hide LiteralClass, PcAddressClass, BranchClass, TestClass, CompareClass, CondClass, Imm19, Imm14, Imm21, Imm26, Bits, Rt, Rn,
         Half, Unit;
  }

  lemma LastLoad(e0: Env, e1: Env, base: U64, words: seq<Word>, k: nat, rt: int, a: U64, c: Core, d: Core)
    requires Holds(e1, base, words) && k < |words| && 0 <= rt < 32 && words[k] == LdrX(rt, X17)
    requires Get(d, X17) == a && c.memory == d.memory && Outside(e0, e1, a)
    ensures Run(e1, 1, Machine(At(base, k), d)) == Machine(At(base, k + 1), Set(d, rt, Read64(e0, c, a)))
  {
    DecodeLdrX(rt, X17);
    hide Decode, At, LdrX;
    assert Read64(e1, d, a) == Read64(e0, c, a);
    assert Wrap(a + 0) == a;
    StepNext(e1, base, words, k, d);
    assert Run(e1, 1, Machine(At(base, k), d)) == Run(e1, 0, Step(e1, Machine(At(base, k), d)));
  }

  lemma LoadRelated(c: Core, d: Core, ignored: set<int>, rt: int, a: U64, v: U64, v64: U64)
    requires EqExcept(c, d, ignored)
    requires v == v64 || rt == ZR || rt == X17
    ensures EqExcept(Set(c, rt, v), Set(Set(d, X17, a), rt, v64),
                     if rt == X17 && v != v64 then ignored + {X17} else ignored + {X17} - {rt})
  {
    var x, y := Set(c, rt, v), Set(Set(d, X17, a), rt, v64);
    forall r | r !in ignored && r != X17 ensures Get(x, r) == Get(y, r) {
      assert Get(c, r) == Get(d, r);
    }
  }

  lemma LiteralMatches(e0: Env, stale: set<int>, l: Insn, pc: U64, c: Core, d: Core, next: U64)
    requires l.LoadLiteral? && 0 <= l.rt < 32 && EqExcept(c, d, stale)
    ensures var a := Wrap(pc + l.offset);
            Matches(Exec(e0, l, pc, c), Machine(next, Set(Set(d, X17, a), l.rt, Read64(e0, c, a))), next, StaleAfter(e0.isa, stale, l))
            <==> l.wide || l.rt == ZR || l.rt == X17 || Read32(e0, c, Wrap(a + 4)) == 0
  {
    var a := Wrap(pc + l.offset);
    hide Wrap, Read32, EqExcept;
    var v: U64, v64 := if l.wide then Read64(e0, c, a) else Read32(e0, c, a), Read64(e0, c, a);
    var x, y := Set(c, l.rt, v), Set(Set(d, X17, a), l.rt, v64);
    if v == v64 || l.rt == ZR || l.rt == X17 {
      LoadRelated(c, d, stale, l.rt, a, v, v64);
      Weaken(x, y, if l.rt == X17 && v != v64 then stale + {X17} else stale + {X17} - {l.rt}, StaleAfter(e0.isa, stale, l));
    } else {
      NotRelated(x, y, l.rt, stale + {X17} - {l.rt});
    }
  }

  lemma NotRelated(c: Core, d: Core, r: int, ignored: set<int>)
    requires r !in ignored && Get(c, r) != Get(d, r)
    ensures !EqExcept(c, d, ignored)
  {
  }

  lemma SimLiteral(e0: Env, e1: Env, block: seq<Word>, origin: U64, base: U64, i: nat, c: Core, d: Core) returns (n: nat)
    requires Before(e0, e1, block, origin, base, i, c, d) && Decode(block[i]).LoadLiteral?
    ensures Simulated(e0, e1, block, origin, base, i, c, d, n)
  {
    hide Holds, Chunk, Respects, Decode, Run, At, Layout, Relocatable, Pos, PieceOf, Exec, Matches, Set, Read64, Read32,
         Wrap, Outside;
    n := 5;
    LiteralRuns(e0, e1, block, origin, base, i, c, d);
    DecodesLiteral(block[i]);
    LiteralPiece(block[i], At(origin, i));
    LiteralMatches(e0, Stale(e0.isa, block, i), Decode(block[i]), At(origin, i), c, d, At(base, Pos(block, origin, i + 1)));
  }

  /** A 32-bit literal load keeps its meaning exactly when the word after the literal
      is zero (or the result is discarded, or goes to the scratch register). */
  lemma NarrowLiteralExact(e0: Env, e1: Env, block: seq<Word>, origin: U64, base: U64, i: nat, c: Core, d: Core)
    requires Setting(e0, e1, block, origin, base) && i < |block|
    requires EqExcept(c, d, Stale(e0.isa, block, i))
    requires Decode(block[i]).LoadLiteral? && !Decode(block[i]).wide
    requires Outside(e0, e1, Wrap(At(origin, i) + Decode(block[i]).offset))
    ensures var l, a := Decode(block[i]), Wrap(At(origin, i) + Decode(block[i]).offset);
            Simulated(e0, e1, block, origin, base, i, c, d, 5) <==>
              l.rt == ZR || l.rt == X17 || Read32(e0, c, Wrap(a + 4)) == 0
  {
    hide Holds, Chunk, Respects, Decode, Run, At, Layout, Relocatable, Pos, PieceOf, Exec, Matches, Set, Read64, Read32,
         Wrap, Outside;
    LiteralRuns(e0, e1, block, origin, base, i, c, d);
    DecodesLiteral(block[i]);
    LiteralPiece(block[i], At(origin, i));
    LiteralMatches(e0, Stale(e0.isa, block, i), Decode(block[i]), At(origin, i), c, d, At(base, Pos(block, origin, i + 1)));
  }

  /** For instance `ldr w0, #8` anywhere in a block, over memory that is nowhere zero. */
  lemma NarrowLiteralFails(e0: Env, e1: Env, block: seq<Word>, origin: U64, base: U64, i: nat, c: Core)
    requires Setting(e0, e1, block, origin, base) && i < |block| && block[i] == 0x18000040
    requires Outside(e0, e1, Wrap(At(origin, i) + 8)) && forall a: U64 :: c.memory(a) == 1
    ensures !Simulated(e0, e1, block, origin, base, i, c, c, 5)
  {
    hide Holds, Chunk, Respects, Decode, Simulated, Stale, Layout, Relocatable, Pos, At, Outside;
    LdrW0();
    assert EqExcept(c, c, Stale(e0.isa, block, i));
    assert Read32(e0, c, Wrap(Wrap(At(origin, i) + 8) + 4)) == 1 by { NotCode(e0, e1, Wrap(At(origin, i) + 8)); }
    NarrowLiteralExact(e0, e1, block, origin, base, i, c, c);
  }

  lemma LdrW0()
    ensures Decode(0x18000040) == LoadLiteral(false, 0, 8)
  {
  }

  lemma NotCode(e0: Env, e1: Env, a: U64)
    requires Outside(e0, e1, a)
    ensures Wrap(a + 4) !in e0.text
  {
  }

  /** A conditional branch keeps its meaning exactly when its condition is not one of
      the two that mean "always": those are inverted into each other, so the
      relocated code never branches. */
  lemma CondBranchExact(e0: Env, e1: Env, block: seq<Word>, origin: U64, base: U64, i: nat, c: Core, d: Core) returns (n: nat)
    requires Setting(e0, e1, block, origin, base) && i < |block|
    requires EqExcept(c, d, Stale(e0.isa, block, i))
    requires CondClass(block[i]) && Decode(block[i]).CondBranch?
    ensures var next, target := At(base, Pos(block, origin, i + 1)), Wrap(At(origin, i) + Decode(block[i]).offset);
            Simulated(e0, e1, block, origin, base, i, c, d, n) <==> Decode(block[i]).cond < 14 || target == next
    ensures Decode(block[i]).cond >= 14 ==>
              && Exec(e0, Decode(block[i]), At(origin, i), c).Jump?
              && n == 1 && Run(e1, n, Machine(At(base, Pos(block, origin, i)), d)).pc == At(base, Pos(block, origin, i + 1))
  {
    hide PieceOf, Decode, Chunk, Layout, Relocatable, Pos, Holds, Stale, At, Respects, CondClass, Imm19, InvertCond,
         FlipLow, Run, Wrap, EqExcept;
    var w, pc := block[i], At(origin, i);
    CondPiece(w, pc);
    if w % 16 < 14 {
      n := SimCond(e0, e1, block, origin, base, i, c, d);
    } else {
      n := 1;
      AlwaysFalls(e1, block, origin, base, i, d);
      Weaken(c, d, Stale(e0.isa, block, i), Stale(e0.isa, block, i) + {X17});
      StaleStep(e0.isa, block, i);
      assert Stale(e0.isa, block, i) - {} == Stale(e0.isa, block, i);
    }
  }

  /** For instance `b.al #8` anywhere in a block: the original branches, the relocated code goes on. */
  lemma AlwaysBranchFails(e0: Env, e1: Env, block: seq<Word>, origin: U64, base: U64, i: nat, c: Core)
    requires Setting(e0, e1, block, origin, base) && i < |block| && block[i] == 0x5400004E
    ensures Exec(e0, Decode(block[i]), At(origin, i), c) == Jump(c, Wrap(At(origin, i) + 8))
    ensures Run(e1, 1, Machine(At(base, Pos(block, origin, i)), c)).pc == At(base, Pos(block, origin, i + 1))
  {
    BranchAlways();
    hide Holds, Chunk, Respects, Decode, Simulated, Stale, Layout, Relocatable, Pos, At, CondClass, Run;
    assert EqExcept(c, c, Stale(e0.isa, block, i));
    var n := CondBranchExact(e0, e1, block, origin, base, i, c, c);
  }

  lemma BranchAlways()
    ensures CondClass(0x5400004E) && Decode(0x5400004E) == CondBranch(14, 8)
  {
    var w: Word := 0x5400004E;
    assert w / 0x2000000 == 42;
  }

  lemma AlwaysFalls(e1: Env, block: seq<Word>, origin: U64, base: U64, i: nat, d: Core)
    requires Relocatable(block) && Holds(e1, base, Chunk(block, origin)) && i < |block|
    requires CondClass(block[i]) && Decode(block[i]).CondBranch? && block[i] % 16 >= 14
    ensures Run(e1, 1, Machine(At(base, Pos(block, origin, i)), d)) == Machine(At(base, Pos(block, origin, i + 1)), d)
  {
    hide PieceOf, Decode, Chunk, Layout, Relocatable, Pos, Holds, At, CondClass, Imm19, InvertCond, FlipLow, Run, CondHolds, Patch;
    var w, pc, ch, pos := block[i], At(origin, i), Chunk(block, origin), Pos(block, origin, i);
    CondPiece(w, pc);
    FlipNegates(w % 16, d.flags);
    var q := PieceInChunk(block, origin, i);
    var words := PieceOf(w, pc).words;
    assert words[0] == InvertCond(w);
    OneStep(e1, base, ch, pos, d);
  }

  lemma OneStep(e: Env, base: U64, words: seq<Word>, k: nat, d: Core)
    requires Holds(e, base, words) && k < |words|
    requires Exec(e, Decode(words[k]), At(base, k), d) == Jump(d, Wrap(At(base, k) + 12))
    ensures Run(e, 1, Machine(At(base, k), d)) == Machine(At(base, k + 3), d)
  {
    NextAt(base, k, 3);
    hide Decode, Exec, At;
    assert words[k] == e.text[At(base, k)];
    assert Run(e, 1, Machine(At(base, k), d)) == Run(e, 0, Step(e, Machine(At(base, k), d)));
  }

  // ---------------------------------------------------------------- everything else

  predicate PlainInsn(i: Insn) {
    i.MoveZero? || i.MoveKeep? || i.LoadDouble? || i.AddImmediate? || i.BranchRegister? || i.Other?
  }

  /** The same instruction at another address. */
  lemma PlainExec(e0: Env, e1: Env, stale: set<int>, i: Insn, pc: U64, pc': U64, c: Core, d: Core)
    requires e0.isa == e1.isa && Respects(e0.isa) && EqExcept(c, d, stale)
    requires PlainInsn(i) && StepOk(e0, e1, stale, i, pc, c)
    ensures match Exec(e0, i, pc, c)
            case Next(x) => Exec(e1, i, pc', d).Next? && EqExcept(x, Exec(e1, i, pc', d).core, StaleAfter(e0.isa, stale, i))
            case Jump(x, t) =>
              var o := Exec(e1, i, pc', d); o.Jump? && o.target == t && EqExcept(x, o.core, StaleAfter(e0.isa, stale, i))
            case Call(x, t) => var o := Exec(e1, i, pc', d); o.Call? && o.target == t && EqExcept(x, o.core, stale)
            case Unmodelled => false
  {
    hide Keep, Wrap, EqExcept, Read64;
    match i
    case MoveZero(rd, half, unit) =>
      PlainSet(c, d, stale, rd, Wrap(half * unit));
    case MoveKeep(rd, half, unit) =>
      SameReg(c, d, stale, rd);
      PlainSet(c, d, stale, rd, Keep(Get(c, rd), half, unit));
    case LoadDouble(rt, rn, off) =>
      SameReg(c, d, stale, rn);
      SameRead(e0, e1, stale, c, d, Wrap(Get(c, rn) + off));
      PlainSet(c, d, stale, rt, Read64(e0, c, Wrap(Get(c, rn) + off)));
    case AddImmediate(rd, rn, v) =>
      SameReg(c, d, stale, rn);
      PlainSet(c, d, stale, rd, Wrap(Get(c, rn) + v));
    case BranchRegister(_, rn) =>
      SameReg(c, d, stale, rn);
    case Other(w) =>
      OtherExec(e0.isa, stale, w, c, d);
  }

  lemma SameReg(c: Core, d: Core, stale: set<int>, r: int)
    requires EqExcept(c, d, stale) && r !in stale
    ensures Get(c, r) == Get(d, r)
  {
  }

  lemma SameRead(e0: Env, e1: Env, stale: set<int>, c: Core, d: Core, a: U64)
    requires EqExcept(c, d, stale) && Outside(e0, e1, a)
    ensures Read64(e1, d, a) == Read64(e0, c, a)
  {
  }

  lemma OtherExec(isa: Isa, stale: set<int>, w: Word, c: Core, d: Core)
    requires Respects(isa) && EqExcept(c, d, stale) && stale !! isa.uses(w)
    ensures var f, g := isa.effect(w, c), isa.effect(w, d);
            f.jumps == g.jumps && f.target == g.target && EqExcept(f.core, g.core, stale - isa.defines(w))
  {
  }

  lemma PlainSet(c: Core, d: Core, stale: set<int>, r: int, v: U64)
    requires EqExcept(c, d, stale)
    ensures EqExcept(Set(c, r, v), Set(d, r, v), stale - {r})
  {
    SetRelated(c, d, stale, r, v);
  }

  lemma PlainDecode(w: Word)
    requires PlainClass(w)
    ensures PlainInsn(Decode(w)) && forall pc: U64 :: PieceOf(w, pc) == Piece([w], -1, 0)
  {
    hide LiteralClass, PcAddressClass, BranchClass, TestClass, CompareClass, CondClass, Half, Unit, Rt, Rn, Bits;
  }

  lemma SimPlain(e0: Env, e1: Env, block: seq<Word>, origin: U64, base: U64, i: nat, c: Core, d: Core) returns (n: nat)
    requires Before(e0, e1, block, origin, base, i, c, d) && PlainClass(block[i])
    ensures Simulated(e0, e1, block, origin, base, i, c, d, n)
  {
    hide PieceOf, Decode, Chunk, Layout, Relocatable, Pos, At, Respects, EqExcept, PlainClass, Exec, StepOk, Set, PlainInsn;
    n := 1;
    var w, ch, pos := block[i], Chunk(block, origin), Pos(block, origin, i);
    PlainDecode(w);
    var _ := PieceInChunk(block, origin, i);
    assert PieceOf(w, At(origin, i)).words[0] == w;
    PlainExec(e0, e1, Stale(e0.isa, block, i), Decode(w), At(origin, i), At(base, pos), c, d);
    PlainStep(e1, base, ch, pos, d);
    var o := Exec(e1, Decode(w), At(base, pos), d);
    var x := Exec(e0, Decode(w), At(origin, i), c);
    StaleStep(e0.isa, block, i);
    if o.Call? {
      LinkRelated(x.core, o.core, Stale(e0.isa, block, i), At(base, pos + 1));
      CallStale(e0, Decode(w), At(origin, i), c, Stale(e0.isa, block, i));
    }
    if o.Jump? { Weaken(x.core, o.core, Stale(e0.isa, block, i + 1), Stale(e0.isa, block, i + 1) + {X17}); }
  }

  lemma CallStale(e: Env, i: Insn, pc: U64, c: Core, stale: set<int>)
    requires PlainInsn(i) && Exec(e, i, pc, c).Call?
    ensures StaleAfter(e.isa, stale, i) == stale + {LR}
  {
  }

  lemma PlainStep(e: Env, base: U64, words: seq<Word>, k: nat, d: Core)
    requires Holds(e, base, words) && k < |words|
    ensures Run(e, 1, Machine(At(base, k), d)) ==
            match Exec(e, Decode(words[k]), At(base, k), d)
            case Next(x) => Machine(At(base, k + 1), x)
            case Jump(x, t) => Machine(t, x)
            case Call(x, t) => Machine(t, Set(x, LR, At(base, k + 1)))
            case Unmodelled => Machine(At(base, k), d)
  {
    NextAt(base, k, 1);
    hide Decode, Exec, At, Set;
    var w := words[k];
    assert At(base, k) in e.text && e.text[At(base, k)] == w;
    assert Run(e, 1, Machine(At(base, k), d)) == Run(e, 0, Step(e, Machine(At(base, k), d)));
  }

  // ---------------------------------------------------------------- the theorems

  /** One instruction: from states that differ in stale registers only, the original's
      outcome and where the relocated code gets to match. */
  lemma StepSimulated(e0: Env, e1: Env, block: seq<Word>, origin: U64, base: U64, i: nat, c: Core, d: Core) returns (n: nat)
    requires Before(e0, e1, block, origin, base, i, c, d)
    ensures Simulated(e0, e1, block, origin, base, i, c, d, n)
  {
    hide LiteralClass, PcAddressClass, BranchClass, TestClass, CompareClass, CondClass, Simulated, Exec, Setting, Stale, EqExcept,
         Bits, Imm19, Rt, Outside, Read32, Wrap;
    var w := block[i];
    if LiteralClass(w) { n := SimLiteral(e0, e1, block, origin, base, i, c, d); }
    else if PcAddressClass(w) { n := SimPcAddress(e0, e1, block, origin, base, i, c, d); }
    else if BranchClass(w) { n := SimBranch(e0, e1, block, origin, base, i, c, d); }
    else if TestClass(w) { n := SimTest(e0, e1, block, origin, base, i, c, d); }
    else if CompareClass(w) { n := SimCompare(e0, e1, block, origin, base, i, c, d); }
    else if CondClass(w) { n := SimCond(e0, e1, block, origin, base, i, c, d); }
    else { n := SimPlain(e0, e1, block, origin, base, i, c, d); }
  }

  /** How a run of the original block ends, and at which instruction; falling off the
      end is a jump to the instruction after the block. */
  datatype Exit = Exit(outcome: Outcome, at: nat)

  ghost function RunBlock(e0: Env, block: seq<Word>, origin: U64, i: nat, c: Core): (r: Exit)
    requires i <= |block|
    ensures r.at <= |block| && (r.at == |block| ==> r.outcome.Jump?)
    decreases |block| - i
  {
    if i == |block| then Exit(Jump(c, At(origin, i)), i)
    else
      var o := Exec(e0, Decode(block[i]), At(origin, i), c);
      if o.Next? then RunBlock(e0, block, origin, i + 1, o.core) else Exit(o, i)
  }

  /** Every instruction met on the run is one that relocation preserves there. */
  ghost predicate RunOk(e0: Env, e1: Env, block: seq<Word>, origin: U64, i: nat, c: Core)
    requires i <= |block|
    decreases |block| - i
  {
    i < |block| ==>
      && StepOk(e0, e1, Stale(e0.isa, block, i), Decode(block[i]), At(origin, i), c)
      && var o := Exec(e0, Decode(block[i]), At(origin, i), c);
         o.Next? ==> RunOk(e0, e1, block, origin, i + 1, o.core)
  }

  /** `RunBlock` is what the original machine does: after `n` steps it is at the exit. */
  lemma {:induction false} OriginalRuns(e0: Env, block: seq<Word>, origin: U64, i: nat, c: Core) returns (n: nat)
    requires Holds(e0, origin, block) && i <= |block|
    ensures var x, m := RunBlock(e0, block, origin, i, c), Run(e0, n, Machine(At(origin, i), c));
            && m.pc == At(origin, x.at)
            && (x.at < |block| ==> Exec(e0, Decode(block[x.at]), m.pc, m.core) == x.outcome)
            && (x.at == |block| ==> x.outcome == Jump(m.core, m.pc))
    decreases |block| - i
  {
    hide Exec, Decode, At, Holds, Set;
    n := 0;
    if i < |block| {
      var o := Exec(e0, Decode(block[i]), At(origin, i), c);
      if o.Next? {
        PlainStep(e0, origin, block, i, c);
        n := OriginalRuns(e0, block, origin, i + 1, o.core);
        RunAdd(e0, 1, n, Machine(At(origin, i), c));
        n := 1 + n;
      }
    }
  }

  /** Whole runs: started at any instruction of the block from states that differ in stale
      registers only, the relocated code leaves for the same address with the same
      registers, flags and memory, stale registers and X17 aside; after a call, the link
      register is the relocated image of the return address. */
  lemma {:induction false} RelocationPreservesRuns(e0: Env, e1: Env, block: seq<Word>, origin: U64, base: U64, i: nat, c: Core, d: Core)
    returns (n: nat)
    requires Setting(e0, e1, block, origin, base) && i <= |block|
    requires EqExcept(c, d, Stale(e0.isa, block, i)) && RunOk(e0, e1, block, origin, i, c)
    ensures var x := RunBlock(e0, block, origin, i, c);
            && x.at <= |block| && (x.outcome.Call? ==> x.at < |block|)
            && Matches(x.outcome, Run(e1, n, Machine(At(base, Pos(block, origin, i)), d)),
                       if x.at < |block| then At(base, Pos(block, origin, x.at + 1)) else 0,
                       Stale(e0.isa, block, if x.at < |block| then x.at + 1 else x.at))
    decreases |block| - i
  {
    hide Exec, Decode, StepOk, Stale, Chunk, Layout, Relocatable, Pos, At, Holds, Respects, EqExcept, Run;
    if i == |block| {
      n := TailRuns(e1, block, origin, base, d);
      ClobberRelated(c, d, Stale(e0.isa, block, i), X17, At(origin, i));
    } else {
      n := StepSimulated(e0, e1, block, origin, base, i, c, d);
      var o := Exec(e0, Decode(block[i]), At(origin, i), c);
      if o.Next? {
        var m := Run(e1, n, Machine(At(base, Pos(block, origin, i)), d));
        var n' := RelocationPreservesRuns(e0, e1, block, origin, base, i + 1, o.core, m.core);
        RunAdd(e1, n, n', Machine(At(base, Pos(block, origin, i)), d));
        n := n + n';
      }
    }
  }

  /** Coming back from a call in the block: the original returns to the instruction after
      it, the relocated code to the address that the call linked to.  From states that
      differ in X17, the link register and what was stale before, the rest of the block
      runs alike, as long as it restores a register before it reads it. */
  lemma ResumesAfterCall(e0: Env, e1: Env, block: seq<Word>, origin: U64, base: U64, i: nat, c: Core, d: Core, c': Core, d': Core)
    returns (n: nat, n': nat)
    requires Before(e0, e1, block, origin, base, i, c, d) && Exec(e0, Decode(block[i]), At(origin, i), c).Call?
    requires EqExcept(c', d', Stale(e0.isa, block, i + 1)) && RunOk(e0, e1, block, origin, i + 1, c')
    ensures LR in Stale(e0.isa, block, i + 1)
    ensures var call := Run(e1, n, Machine(At(base, Pos(block, origin, i)), d));
            var x := RunBlock(e0, block, origin, i + 1, c');
            && call.pc == Exec(e0, Decode(block[i]), At(origin, i), c).target
            && Matches(x.outcome, Run(e1, n', Machine(Get(call.core, LR), d')),
                       if x.at < |block| then At(base, Pos(block, origin, x.at + 1)) else 0,
                       Stale(e0.isa, block, if x.at < |block| then x.at + 1 else x.at))
  {
    hide Exec, Decode, StepOk, Stale, Chunk, Layout, Relocatable, Pos, At, Holds, Respects, EqExcept, Run, RunBlock, RunOk;
    n := StepSimulated(e0, e1, block, origin, base, i, c, d);
    n' := RelocationPreservesRuns(e0, e1, block, origin, base, i + 1, c', d');
    StaleStep(e0.isa, block, i);
    CallsAreStale(e0, Decode(block[i]), At(origin, i), c, Stale(e0.isa, block, i));
  }

  lemma CallsAreStale(e: Env, i: Insn, pc: U64, c: Core, stale: set<int>)
    requires Exec(e, i, pc, c).Call?
    ensures LR in StaleAfter(e.isa, stale, i)
  {
  }

  /** The closing branch. */
  lemma TailRuns(e1: Env, block: seq<Word>, origin: U64, base: U64, d: Core) returns (n: nat)
    requires Relocatable(block) && Holds(e1, base, Chunk(block, origin)) && |Chunk(block, origin)| <= 0x40000
    ensures Run(e1, n, Machine(At(base, Pos(block, origin, |block|)), d)) ==
            Machine(At(origin, |block|), Set(d, X17, At(origin, |block|)))
  {
    hide Chunk, Layout, Relocatable, Pos, At, Holds, Run, Patch;
    TailInChunk(block, origin);
    n := 2;
    var p := Pos(block, origin, |block|);
    PoolBranch(e1, base, Chunk(block, origin), p, p + 2, At(origin, |block|), false, d);
  }
}
