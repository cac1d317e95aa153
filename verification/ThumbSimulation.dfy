/** The relocated Thumb code does what the original block does.
 */
module ThumbSimulation {
  import opened Arithmetic
  import opened MachineWords
  import opened ThumbMachine
  import opened ThumbAssembler
  import opened ThumbRelocator
  import opened ThumbChunk

  // ---------------------------------------------------------------- what is compared

  /** The registers that an instruction reads. */
  function Reads(isa: Isa, i: Insn): set<int> {
    match i
    case CompareJump(_, rn, _) => {rn}
    case CallRegister(rm) => {rm}
    case Load(_, rn, _) => {rn}
    case HighAdd(rd, rm) => {rd, rm}
    case HighCompare(rd, rm) => {rd, rm}
    case HighMove(_, rm) => {rm}
    case Other(x) => isa.uses(x)
    case _ => {}
  }

  /** The registers that an instruction overwrites. */
  function Writes(isa: Isa, i: Insn): set<int> {
    match i
    case LoadLiteral(rt, _) => {rt}
    case Load(rt, _, _) => {rt}
    case Adr(rd, _) => {rd}
    case HighAdd(rd, _) => {rd}
    case HighMove(rd, _) => {rd}
    case Other(x) => isa.defines(x)
    case _ => {}
  }

  /** The registers that the relocated code changes besides: an operation on PC leaves the
      original PC in R12, and a call links to the relocated code. */
  function Spoils(i: Insn): set<int> {
    match i
    case HighAdd(_, rm) => if rm == PC then {IP} else {}
    case HighCompare(_, rm) => if rm == PC then {IP} else {}
    case HighMove(_, rm) => if rm == PC then {IP} else {}
    case Call(_, _) => {LR}
    case CallRegister(_) => {LR}
    case _ => {}
  }

  /** The registers that may differ between the original and the relocated code after `i`,
      given those that may differ before. */
  function StaleAfter(isa: Isa, stale: set<int>, i: Insn): set<int> {
    stale + Spoils(i) - Writes(isa, i)
  }

  /** The registers that may differ before instruction `i` of the block. */
  function Stale(isa: Isa, block: seq<Code>, i: nat): set<int>
    requires i <= |block|
  {
    if i == 0 then {} else StaleAfter(isa, Stale(isa, block, i - 1), Decode(block[i - 1]))
  }

  /** Nothing but R12 and the link register ever differs, and the link register only after a call. */
  lemma {:induction false} StaleOnly(isa: Isa, block: seq<Code>, i: nat)
    requires i <= |block|
    ensures Stale(isa, block, i) <= {IP, LR}
    ensures (forall k :: 0 <= k < i ==> !IsCall(Decode(block[k]))) ==> Stale(isa, block, i) <= {IP}
  {
    hide Decode;
    if i > 0 { StaleOnly(isa, block, i - 1); }
  }

  predicate IsCall(i: Insn) { i.Call? || i.CallRegister? }

  /** The original code area holds the block at `origin`. */
  ghost predicate InPlace(e0: Env, block: seq<Code>, origin: U32) {
    forall k {:trigger block[k]} :: 0 <= k < |block| ==>
      Fetches(e0, Addr(block, origin, k)) && Fetch(e0, Addr(block, origin, k)) == block[k]
  }

  /** The two code areas and everything the theorems assume of them. */
  ghost predicate Setting(e0: Env, e1: Env, block: seq<Code>, origin: U32, size: int, base: U32) {
    && e0.isa == e1.isa && Respects(e0.isa)
    && Relocatable(block) && InReach(block, origin)
    && InPlace(e0, block, origin)
    && origin % 2 == 0 && base % 4 == 0
    && Holds(e1, base, Chunk(block, origin, size, base))
  }

  /** A load at `a` touches neither copy of the code. */
  ghost predicate Outside(e0: Env, e1: Env, a: U32) { a !in e0.text && a !in e1.text }

  /** When relocating one instruction preserves its meaning in state `c`.  A branch through
      the pool must not lead into the range `[origin, origin + size)` that was asked for. */
  ghost predicate StepOk(e0: Env, e1: Env, stale: set<int>, x: Code, origin: U32, size: int, pc: U32, c: Core) {
    var i := Decode(x);
    && stale !! Reads(e0.isa, i)
    && match i
       case Jump(off) => x.Narrow? ==> off >= 0 && !InOrigin(Odd(Wrap(pc + 4 + off)), origin, size)
       case CondJump(cond, off) =>
         if x.Narrow? then CondHolds(cond, c.flags) ==> 0 <= off < 32 && !InOrigin(Odd(Wrap(pc + 4 + off)), origin, size)
         else CondHolds(cond, c.flags) && off >= 0
       case CompareJump(_, _, _) => false
       case Adr(_, off) => x.Narrow? && off == 0 && Wrap(pc + 4) % 4 == 0
       case ExchangePc => !InOrigin(Wrap(pc + 4), origin, size)
       case LoadLiteral(rt, off) => rt != PC && off % 4 == 0 && Outside(e0, e1, Wrap(Align4(Wrap(pc + 4)) + off))
       case Load(_, rn, off) => Outside(e0, e1, Wrap(Get(c, rn) + off))
       case HighAdd(rd, rm) => rd != PC && (rm == PC ==> rd != IP)
       case HighCompare(rd, rm) => rd != PC && (rm == PC ==> rd != IP)
       case Other(y) => !e0.isa.readsPc(y) && (x.Wide? ==> !TakenForAdr(x.h1, x.h2))
       case NotModelled => false
       case _ => true
  }

  /** Code returned to at `a` arrives at `next` with the registers it was given. */
  ghost predicate ReturnsTo(e: Env, a: U32, next: U32) {
    a % 2 == 0 && forall x: Core :: Reaches(e, Machine(a, true, x), Machine(next, true, x))
  }

  ghost predicate Reaches(e: Env, m: Machine, m': Machine) {
    exists k: nat :: Run(e, k, m) == m'
  }

  /** `m` is where the relocated code should be when the original has outcome `o`: at `next`
      if it falls through, at the same target and in the same state if it leaves, with equal
      registers but for `stale`.  After a call the link register leads to `next`. */
  ghost predicate Matches(e: Env, o: Outcome, m: Machine, next: U32, stale: set<int>) {
    match o
    case Next(c) => m.pc == next && m.thumb && EqExcept(c, m.core, stale)
    case Goes(c, t) => m == Go(t, m.core) && EqExcept(c, m.core, stale)
    case Calls(c, t) =>
      && m == Go(t, m.core) && EqExcept(c, m.core, stale)
      && exists a: U32 :: Get(m.core, LR) == Odd(a) && ReturnsTo(e, a, next)
    case Unmodelled => false
  }

  // ---------------------------------------------------------------- register lemmas

  lemma SetRelated(c: Core, d: Core, ignored: set<int>, r: int, v: U32)
    requires EqExcept(c, d, ignored)
    ensures EqExcept(Set(c, r, v), Set(d, r, v), ignored - {r})
  {
    forall x | x !in ignored - {r} ensures Get(Set(c, r, v), x) == Get(Set(d, r, v), x) {
      assert x != r ==> Get(c, x) == Get(d, x);
    }
  }

  lemma ClobberRelated(c: Core, d: Core, ignored: set<int>, r: int, v: U32)
    requires EqExcept(c, d, ignored)
    ensures EqExcept(c, Set(d, r, v), ignored + {r})
  {
    forall x | x !in ignored + {r} ensures Get(c, x) == Get(Set(d, r, v), x) {
      assert Get(c, x) == Get(d, x);
    }
  }

  lemma Weaken(c: Core, d: Core, a: set<int>, b: set<int>)
    requires EqExcept(c, d, a) && a <= b
    ensures EqExcept(c, d, b)
  {
  }

  // ---------------------------------------------------------------- addresses

  lemma WrapWrap(x: int, d: int)
    ensures Wrap(Wrap(x) + d) == Wrap(x + d)
  {
  }

  lemma NextAt(base: U32, k: int, n: int)
    ensures Wrap(At(base, k) + 2 * n) == At(base, k + n)
  {
    WrapWrap(base + 2 * k, 2 * n);
  }

  lemma Even(a: int)
    requires a % 2 == 0
    ensures Wrap(a) % 2 == 0 && Odd(Wrap(a)) == Wrap(a) + 1 == Wrap(Wrap(a) + 1)
  {
  }

  lemma AtEven(base: U32, k: int)
    requires base % 2 == 0
    ensures At(base, k) % 2 == 0 && Odd(At(base, k)) == At(base, k) + 1
  {
    hide Wrap, Odd;
    assert (base + 2 * k) % 2 == 0;
    Even(base + 2 * k);
  }

  lemma AtAligned(base: U32, k: int)
    requires base % 4 == 0 && k % 2 == 0
    ensures At(base, k) % 4 == 0
  {
  }

  /** The base of a literal load at an even position. */
  lemma LiteralBase(base: U32, k: int)
    requires base % 4 == 0 && k % 2 == 0
    ensures Align4(Wrap(At(base, k) + 4)) == At(base, k + 2)
  {
    hide At, Wrap, Align4;
    NextAt(base, k, 2);
    AtAligned(base, k + 2);
    AlignedIs(At(base, k + 2));
  }

  lemma AlignedIs(a: U32)
    requires a % 4 == 0
    ensures Align4(a) == a
  {
  }

  // ---------------------------------------------------------------- running the emitted code

  ghost predicate IsAt(code: seq<Half>, k: nat, x: Code) {
    match x
    case Narrow(h) => k < |code| && code[k] == h && !IsThumb2(h)
    case Wide(h1, h2) => k + 1 < |code| && code[k] == h1 && code[k + 1] == h2 && IsThumb2(h1)
  }

  function Here(base: U32, k: int, d: Core): Machine { Machine(At(base, k), true, d) }

  lemma StepAt(e: Env, base: U32, code: seq<Half>, k: nat, x: Code, d: Core)
    requires Holds(e, base, code) && IsAt(code, k, x)
    ensures Step(e, Here(base, k, d)) == Land(Exec(e, Decode(x), At(base, k), d), At(base, k), Size(x), Here(base, k, d))
    ensures Wrap(At(base, k) + Size(x)) == At(base, k + Size(x) / 2)
  {
    hide Decode, Exec, At, IsThumb2, Wrap, Land;
    NextAt(base, k, 1);
    NextAt(base, k, 2);
    assert code[k] == e.text[At(base, k)];
    if x.Wide? { assert code[k + 1] == e.text[At(base, k + 1)]; }
  }

  lemma PairIs(a: Half, b: Half, c: Half, d: Half)
    requires [a, b] == [c, d]
    ensures a == c && b == d
  {
    assert [a, b][0] == a && [a, b][1] == b;
  }

  lemma OneStep(e: Env, m: Machine)
    ensures Run(e, 1, m) == Step(e, m)
  {
    assert Run(e, 1, m) == Run(e, 0, Step(e, m));
  }

  lemma RunBranch(e: Env, base: U32, code: seq<Half>, k: nat, imm: int, link: bool, d: Core)
    requires Holds(e, base, code) && base % 2 == 0 && k + 1 < |code| && imm % 2 == 0 && -0x1000000 <= imm < 0x1000000
    requires [code[k], code[k + 1]] == BranchCode(imm, link)
    ensures Step(e, Here(base, k, d)) == Here(base, k + 2 + imm / 2, if link then Set(d, LR, Odd(At(base, k + 2))) else d)
  {
    hide At, Decode, BranchCode, IsThumb2, Wrap, Holds, Set, BranchOffset;
    BranchRoundTrip(imm, link);
    var b := BranchCode(imm, link);
    PairIs(code[k], code[k + 1], b[0], b[1]);
    StepAt(e, base, code, k, Wide(b[0], b[1]), d);
    NextAt(base, k, 2 + imm / 2);
    AtEven(base, k + 2 + imm / 2);
    GoOdd(At(base, k + 2 + imm / 2), if link then Set(d, LR, Odd(At(base, k + 2))) else d);
  }

  lemma GoOdd(a: U32, d: Core)
    requires a % 2 == 0
    ensures Go(Odd(a), d) == Machine(a, true, d)
  {
  }

  /** A literal load of the word at position `q`. */
  lemma RunLiteral(e: Env, base: U32, code: seq<Half>, k: nat, q: nat, rt: int, v: U32, d: Core)
    requires Holds(e, base, code) && base % 4 == 0 && k % 2 == 0 && k + 2 <= q && q + 1 < |code| && 0 <= rt < 16
    requires 2 * (q - k) - 4 < 0x1000 && [code[k], code[k + 1]] == LiteralCode(rt, 2 * (q - k) - 4)
    requires code[q] == Lo(v) && code[q + 1] == Hi(v)
    ensures Step(e, Here(base, k, d)) == if rt == PC then Go(v, d) else Here(base, k + 2, Set(d, rt, v))
  {
    hide At, Decode, LiteralCode, IsThumb2, Wrap, Align4, Set, Holds, Lo, Hi, Read32, Go;
    var off := 2 * (q - k) - 4;
    LiteralDecodes(rt, off);
    var b := LiteralCode(rt, off);
    PairIs(code[k], code[k + 1], b[0], b[1]);
    StepAt(e, base, code, k, Wide(b[0], b[1]), d);
    LiteralBase(base, k);
    NextAt(base, k + 2, q - k - 2);
    PoolRead(e, base, code, q, v, d);
  }

  lemma PoolRead(e: Env, base: U32, code: seq<Half>, q: nat, v: U32, d: Core)
    requires Holds(e, base, code) && q + 1 < |code| && code[q] == Lo(v) && code[q + 1] == Hi(v)
    ensures Read32(e, d, At(base, q)) == v
  {
    NextAt(base, q, 1);
    hide At;
    assert e.text[At(base, q)] == code[q] && e.text[At(base, q + 1)] == code[q + 1];
  }

  /** `ldr rt, [rt]`. */
  lemma RunLoad(e: Env, base: U32, code: seq<Half>, k: nat, rt: int, d: Core)
    requires Holds(e, base, code) && k + 1 < |code| && 0 <= rt < 15 && [code[k], code[k + 1]] == LoadCode(rt, rt)
    ensures Step(e, Here(base, k, d)) == Here(base, k + 2, Set(d, rt, Read32(e, d, Get(d, rt))))
  {
    hide At, Decode, LoadCode, IsThumb2, Set, Holds, Read32;
    LoadDecodes(rt, rt);
    var b := LoadCode(rt, rt);
    PairIs(code[k], code[k + 1], b[0], b[1]);
    StepAt(e, base, code, k, Wide(b[0], b[1]), d);
    assert Wrap(Get(d, rt) + 0) == Get(d, rt);
  }

  // ---------------------------------------------------------------- one instruction at a time

  /** What every case below assumes: the state before instruction `i` of the block. */
  ghost predicate Before(e0: Env, e1: Env, block: seq<Code>, origin: U32, size: int, base: U32, i: nat, c: Core, d: Core) {
    && Setting(e0, e1, block, origin, size, base)
    && i < |block|
    && EqExcept(c, d, Stale(e0.isa, block, i))
    && StepOk(e0, e1, Stale(e0.isa, block, i), block[i], origin, size, Addr(block, origin, i), c)
  }

  /** What every case shows of the machine `m` that has run the code of instruction `i`. */
  ghost predicate Simulated(e0: Env, e1: Env, block: seq<Code>, origin: U32, base: U32, i: nat, c: Core, m: Machine)
    requires Relocatable(block) && i < |block|
  {
    Matches(e1, Exec(e0, Decode(block[i]), Addr(block, origin, i), c), m, At(base, Pos(block, origin, i + 1)), Stale(e0.isa, block, i + 1))
  }

  /** The code of instruction `i` in the chunk, its recorded load apart. */
  lemma Placed(block: seq<Code>, origin: U32, size: int, base: U32, i: nat)
    requires Relocatable(block) && InReach(block, origin) && i < |block|
    ensures var p, pos, start, ch := PieceAt(block, origin, i), Pos(block, origin, i), Start(block, origin, i), Chunk(block, origin, size, base);
            && start % 2 == 0 && pos < start <= pos + 2
            && start + |p.code| == Pos(block, origin, i + 1) <= |ch|
            && (forall j :: pos <= j < start ==> ch[j] == NOP)
            && (forall j :: 0 <= j < |p.code| && !(p.use >= 0 && p.use <= j <= p.use + 1) ==> ch[start + j] == p.code[j])
  {
    hide PieceAt, Chunk, Unbound, Start, Pos, Relocatable, InReach;
    InUnbound(block, origin, i);
    var p, pos, start, ch := PieceAt(block, origin, i), Pos(block, origin, i), Start(block, origin, i), Chunk(block, origin, size, base);
    InChunk(block, origin, size, base, i, pos + if p.use == 0 && start == pos then 2 else 0);
    forall j | pos <= j < start ensures ch[j] == NOP { InChunk(block, origin, size, base, i, j); }
    forall j | 0 <= j < |p.code| && !(p.use >= 0 && p.use <= j <= p.use + 1) ensures ch[start + j] == p.code[j] {
      InChunk(block, origin, size, base, i, start + j);
    }
  }

  lemma StaleStep(isa: Isa, block: seq<Code>, i: nat)
    requires i < |block|
    ensures Stale(isa, block, i + 1) == StaleAfter(isa, Stale(isa, block, i), Decode(block[i]))
  {
    hide Decode;
  }

  lemma NopRuns(e: Env, base: U32, code: seq<Half>, k: nat, d: Core)
    requires Holds(e, base, code) && k < |code| && code[k] == NOP
    ensures Step(e, Here(base, k, d)) == Here(base, k + 1, d)
  {
    hide At, Holds;
    assert !IsThumb2(NOP);
    StepAt(e, base, code, k, Narrow(NOP), d);
  }

  /** From the start of the round to the code of the instruction. */
  lemma PadsRun(e: Env, block: seq<Code>, origin: U32, size: int, base: U32, i: nat, d: Core) returns (n: nat)
    requires Relocatable(block) && InReach(block, origin) && i < |block| && Holds(e, base, Chunk(block, origin, size, base))
    ensures Run(e, n, Here(base, Pos(block, origin, i), d)) == Here(base, Start(block, origin, i), d)
  {
    hide Chunk, Pos, Start, Relocatable, InReach, Holds, At, Run, PieceAt;
    Placed(block, origin, size, base, i);
    var pos, start, ch := Pos(block, origin, i), Start(block, origin, i), Chunk(block, origin, size, base);
    n := start - pos;
    NopRuns(e, base, ch, pos, d);
    OneStep(e, Here(base, pos, d));
    if n == 2 {
      NopRuns(e, base, ch, pos + 1, d);
      OneStep(e, Here(base, pos + 1, d));
      RunAdd(e, 1, 1, Here(base, pos, d));
    }
  }

  // ---------------------------------------------------------------- wide branches

  /** What the relocator makes of the wide branches, and what they mean. */
  lemma WideBranches(h1: Half, h2: Half, p: U32)
    ensures IsB(h1, h2) ==>
              && DecodeWide(h1, h2) == Jump(BranchOffset(h1, h2))
              && WidePiece(h1, h2, p) == Unlabelled(LiteralCode(PC, 0) + AddressCode(BranchWord(p, BranchOffset(h1, h2))))
    ensures IsBl(h1, h2) ==>
              && DecodeWide(h1, h2) == Call(false, BranchOffset(h1, h2))
              && WidePiece(h1, h2, p) == Unlabelled(CallCode(BranchWord(p, BranchOffset(h1, h2))))
    ensures IsBlx(h1, h2) && h2 % 2 == 0 ==>
              && DecodeWide(h1, h2) == Call(true, BlxOffset(h1, h2))
              && WidePiece(h1, h2, p) == Unlabelled(CallCode(Wrap(Align4(p) + BlxOffset(h1, h2))))
  {
    hide BranchClass, Op3, Bits, BranchOffset, BlxOffset, CondOffset, Wrap, LiteralCode, BranchCode, AddressCode, Align4,
         ShortCond, IsAdr, TakenForAdr, IsLdrLiteral;
  }

  /** The word emitted for a branch by `off` from PC value `p`. */
  function BranchWord(p: U32, off: int): U32 { Wrap(Wrap(p + off) + 1) }

  function CallCode(v: U32): seq<Half> {
    BranchCode(4, true) + BranchCode(8, false) + LiteralCode(PC, 0) + AddressCode(v)
  }

  /** The address in the emitted word is the one that the original branch goes to. */
  lemma SameTarget(pc: U32, off: int)
    requires pc % 2 == 0 && off % 2 == 0
    ensures BranchWord(Wrap(pc + 4), off) == Odd(Wrap(pc + 4 + off))
  {
    hide Wrap, Odd;
    WrapWrap(pc + 4, off);
    assert (pc + 4 + off) % 2 == 0;
    Even(pc + 4 + off);
  }

  lemma OffsetsEven(h1: Half, h2: Half)
    ensures BranchOffset(h1, h2) % 2 == 0 && CondOffset(h1, h2) % 2 == 0
  {
    hide Bits;
    var s, i1, i2 := Bits(h1, 0x400, 2), if Bits(h2, 0x2000, 2) == Bits(h1, 0x400, 2) then 1 else 0,
                     if Bits(h2, 0x800, 2) == Bits(h1, 0x400, 2) then 1 else 0;
    TwiceIsEven(-s * 0x800000 + i1 * 0x400000 + i2 * 0x200000 + (h1 % 0x400) * 0x800 + h2 % 0x800);
    TwiceIsEven(-s * 0x80000 + Bits(h2, 0x800, 2) * 0x40000 + Bits(h2, 0x2000, 2) * 0x20000 + (h1 % 0x40) * 0x800 + h2 % 0x800);
  }

  lemma TwiceIsEven(x: int)
    ensures (2 * x) % 2 == 0
  {
  }

  lemma PairAt(code: seq<Half>, piece: seq<Half>, start: nat, j: nat, pair: seq<Half>)
    requires |pair| == 2 && j + 1 < |piece| && start + |piece| <= |code|
    requires forall k :: 0 <= k < |piece| ==> code[start + k] == piece[k]
    requires piece[j..j + 2] == pair
    ensures [code[start + j], code[start + j + 1]] == pair
  {
    assert pair[0] == piece[j] && pair[1] == piece[j + 1];
  }

  /** A piece without a label is in the chunk as it is. */
  lemma PlacedCode(block: seq<Code>, origin: U32, size: int, base: U32, i: nat, code: seq<Half>)
    requires Relocatable(block) && InReach(block, origin) && i < |block|
    requires PieceOf(block[i], PcOf(block, origin, i)) == Unlabelled(code)
    ensures var start, ch := Start(block, origin, i), Chunk(block, origin, size, base);
            && start % 2 == 0 && start + |code| == Pos(block, origin, i + 1) <= |ch|
            && forall k :: 0 <= k < |code| ==> ch[start + k] == code[k]
  {
    hide Relocatable, InReach, Pos, Start, Chunk, PieceOf, PcOf;
    Placed(block, origin, size, base, i);
  }

  /** B.W: `ldr pc, [pc]` and the target. */
  lemma SimJump(e0: Env, e1: Env, block: seq<Code>, origin: U32, size: int, base: U32, i: nat, c: Core, d: Core) returns (n: nat)
    requires Before(e0, e1, block, origin, size, base, i, c, d) && block[i].Wide? && IsB(block[i].h1, block[i].h2)
    ensures Simulated(e0, e1, block, origin, base, i, c, Run(e1, n, Here(base, Start(block, origin, i), d)))
  {
    hide Chunk, Pos, Start, Relocatable, InReach, Holds, At, Run, IsB, Wrap, Odd, Step, EqExcept, Stale, LiteralCode, Addr,
         BranchOffset, Respects, DecodeWide, WidePiece, Lo, Hi, StepOk, BranchWord;
    var x, pc, start, ch := block[i], Addr(block, origin, i), Start(block, origin, i), Chunk(block, origin, size, base);
    var off := BranchOffset(x.h1, x.h2);
    var v := BranchWord(PcOf(block, origin, i), off);
    WideBranches(x.h1, x.h2, PcOf(block, origin, i));
    OffsetsEven(x.h1, x.h2);
    AddrEven(block, origin, i);
    SameTarget(pc, off);
    var code := LiteralCode(PC, 0) + AddressCode(v);
    PlacedCode(block, origin, size, base, i, code);
    PairAt(ch, code, start, 0, LiteralCode(PC, 0));
    assert ch[start + 2] == code[2] && ch[start + 3] == code[3];
    RunLiteral(e1, base, ch, start, start + 2, PC, v, d);
    n := 1;
    OneStep(e1, Here(base, start, d));
    StaleStep(e0.isa, block, i);
  }

  lemma CallCodeAt(ch: seq<Half>, k: nat, v: U32)
    requires k + 8 <= |ch| && |CallCode(v)| == 8 && forall j :: 0 <= j < 8 ==> ch[k + j] == CallCode(v)[j]
    ensures [ch[k], ch[k + 1]] == BranchCode(4, true) && [ch[k + 2], ch[k + 3]] == BranchCode(8, false)
    ensures [ch[k + 4], ch[k + 5]] == LiteralCode(PC, 0) && ch[k + 6] == Lo(v) && ch[k + 7] == Hi(v)
  {
    hide LiteralCode, BranchCode, Lo, Hi;
    var code := CallCode(v);
    PairAt(ch, code, k, 0, BranchCode(4, true));
    PairAt(ch, code, k, 2, BranchCode(8, false));
    PairAt(ch, code, k, 4, LiteralCode(PC, 0));
    assert ch[k + 6] == code[6] && ch[k + 7] == code[7];
  }

  /** BL and BLX: call the load of PC, with the skip over its word as the return address. */
  lemma CallRuns(e: Env, base: U32, ch: seq<Half>, k: nat, v: U32, d: Core)
    requires Holds(e, base, ch) && base % 4 == 0 && k % 2 == 0 && k + 8 <= |ch|
    requires [ch[k], ch[k + 1]] == BranchCode(4, true) && [ch[k + 2], ch[k + 3]] == BranchCode(8, false)
    requires [ch[k + 4], ch[k + 5]] == LiteralCode(PC, 0) && ch[k + 6] == Lo(v) && ch[k + 7] == Hi(v)
    ensures Run(e, 2, Here(base, k, d)) == Go(v, Set(d, LR, Odd(At(base, k + 2))))
    ensures ReturnsTo(e, At(base, k + 2), At(base, k + 8))
  {
    hide Holds, At, Run, Odd, Set, LiteralCode, BranchCode, Lo, Hi, Go, Step;
    var d' := Set(d, LR, Odd(At(base, k + 2)));
    RunBranch(e, base, ch, k, 4, true, d);
    RunLiteral(e, base, ch, k + 4, k + 6, PC, v, d');
    TwoSteps(e, Here(base, k, d));
    AtEven(base, k + 2);
    var a, b := At(base, k + 2), At(base, k + 8);
    forall x: Core ensures Reaches(e, Machine(a, true, x), Machine(b, true, x)) {
      RunBranch(e, base, ch, k + 2, 8, false, x);
      OneStep(e, Here(base, k + 2, x));
    }
  }

  lemma TwoSteps(e: Env, m: Machine)
    ensures Run(e, 2, m) == Step(e, Step(e, m))
  {
    hide Step;
    assert Run(e, 2, m) == Run(e, 1, Step(e, m)) == Run(e, 0, Step(e, Step(e, m)));
  }

  lemma SimCall(e0: Env, e1: Env, block: seq<Code>, origin: U32, size: int, base: U32, i: nat, c: Core, d: Core) returns (n: nat)
    requires Before(e0, e1, block, origin, size, base, i, c, d) && block[i].Wide?
    requires IsBl(block[i].h1, block[i].h2) || (IsBlx(block[i].h1, block[i].h2) && block[i].h2 % 2 == 0)
    ensures Simulated(e0, e1, block, origin, base, i, c, Run(e1, n, Here(base, Start(block, origin, i), d)))
  {
    hide Chunk, Pos, Start, Relocatable, InReach, Holds, At, Run, IsBl, IsBlx, Wrap, Odd, Step, EqExcept, Stale, LiteralCode, Addr,
         BranchOffset, BlxOffset, Respects, DecodeWide, WidePiece, Lo, Hi, StepOk, BranchWord, CallCode, ReturnsTo, Set, Get,
         Align4;
    var x, pc, start, ch := block[i], Addr(block, origin, i), Start(block, origin, i), Chunk(block, origin, size, base);
    var p := PcOf(block, origin, i);
    WideBranches(x.h1, x.h2, p);
    OffsetsEven(x.h1, x.h2);
    AddrEven(block, origin, i);
    SameTarget(pc, BranchOffset(x.h1, x.h2));
    var v := if IsBl(x.h1, x.h2) then BranchWord(p, BranchOffset(x.h1, x.h2)) else Wrap(Align4(p) + BlxOffset(x.h1, x.h2));
    CallLength(v);
    PlacedCode(block, origin, size, base, i, CallCode(v));
    CallCodeAt(ch, start, v);
    CallRuns(e1, base, ch, start, v, d);
    n := 2;
    LinkRelated(c, d, Stale(e0.isa, block, i), Odd(At(base, start + 2)));
    OnlyOneOf(x.h1, x.h2);
    StaleStep(e0.isa, block, i);
    assert Stale(e0.isa, block, i) + {LR} - {} == Stale(e0.isa, block, i) + {LR};
  }

  lemma OnlyOneOf(h1: Half, h2: Half)
    ensures !(IsBl(h1, h2) && IsBlx(h1, h2))
  {
  }

  lemma CallLength(v: U32)
    ensures |CallCode(v)| == 8
  {
  }

  lemma LinkRelated(c: Core, d: Core, stale: set<int>, v: U32)
    requires EqExcept(c, d, stale)
    ensures EqExcept(c, Set(d, LR, v), stale + {LR}) && Get(Set(d, LR, v), LR) == v
  {
    ClobberRelated(c, d, stale, LR, v);
  }

  lemma AddrEven(block: seq<Code>, origin: U32, i: nat)
    requires i <= |block| && origin % 2 == 0
    ensures Addr(block, origin, i) % 2 == 0
  {
    hide At, Wrap, Halves;
    AtEven(origin, Halves(block, i));
  }

  // ---------------------------------------------------------------- literal loads

  /** The address that the relocated T2 load reads is the original's exactly when the
      immediate is a multiple of four. */
  lemma LiteralAddressExact(h1: Half, h2: Half, p: U32)
    requires p % 2 == 0
    ensures LiteralAddress(h1, h2, p) == Wrap(Align4(p) + LiteralOffset(h1, h2)) <==> LiteralOffset(h1, h2) % 4 == 0
  {
    hide LiteralOffset, Wrap, Align4;
    var off := LiteralOffset(h1, h2);
    WrapMod4(Align4(p) + off);
    AlignPlus(p, off);
    AlignMod4(Wrap(p + off));
    if off % 4 == 0 { AlignShift(p, off); }
  }

  lemma AlignShift(p: U32, off: int)
    requires off % 4 == 0
    ensures Align4(Wrap(p + off)) == Wrap(Align4(p) + off)
  {
    var r: int, q, b := (p + off) % TWO32, (p + off) / TWO32, p % 4;
    DivUnique(r, 4, p / 4 + off / 4 - q * 0x40000000, b);
    DivUnique(Align4(p) + off, TWO32, q, r - b);
  }

  lemma WrapMod4(x: int)
    ensures Wrap(x) % 4 == x % 4
  {
    var r: int, q := x % TWO32, x / TWO32;
    DivUnique(x, 4, q * 0x40000000 + r / 4, r % 4);
  }

  lemma AlignMod4(x: U32)
    ensures Align4(x) % 4 == 0
  {
    DivUnique(Align4(x), 4, x / 4, 0);
  }

  lemma AlignPlus(x: U32, off: int)
    ensures (Align4(x) + off) % 4 == off % 4
  {
    DivUnique(Align4(x) + off, 4, x / 4 + off / 4, off % 4);
  }

  /** An immediate that is not a multiple of four: the original reads the word at 0x1003, the
      relocated code the one at 0x1000. */
  lemma UnalignedLiteralFails()
    ensures Decode(Wide(0xf8df, 0x0003)) == LoadLiteral(0, 3)
    ensures Wrap(Align4(0x1000) + 3) == 0x1003 && LiteralAddress(0xf8df, 0x0003, 0x1000) == 0x1000
  {
    assert Wide(0xf8df, 0x0003).h1 / 0x800 == 31;
  }

  /** Loading an address into a register and the word there into the same register. */
  lemma LoadMatches(e0: Env, e1: Env, stale: set<int>, rt: int, a: U32, c: Core, d: Core)
    requires EqExcept(c, d, stale) && Outside(e0, e1, a) && 0 <= rt < 15
    ensures var d' := Set(d, rt, a);
            && Get(d', rt) == a
            && EqExcept(Set(c, rt, Read32(e0, c, a)), Set(d', rt, Read32(e1, d', a)), stale - {rt})
  {
    var d', v := Set(d, rt, a), Read32(e0, c, a);
    SetRelated(c, d, stale, rt, v);
    assert Set(d', rt, v).regs == Set(d, rt, v).regs;
  }

  lemma WideLoads(h1: Half, h2: Half, p: U32)
    requires IsLdrLiteral(h1)
    ensures DecodeWide(h1, h2) == LoadLiteral(h2 / 0x1000, LiteralOffset(h1, h2))
    ensures WidePiece(h1, h2, p) == Unlabelled(LoadPiece(h2 / 0x1000, LiteralAddress(h1, h2, p)))
  {
    assert h1 / 0x800 == 31;
    hide Op3, Bits, BranchOffset, BlxOffset, CondOffset, Wrap, LiteralCode, BranchCode, AddressCode, Align4, ShortCond, LiteralAddress,
         LoadCode;
  }

  function LoadPiece(rt: int, a: U32): (r: seq<Half>)
    requires 0 <= rt < 16
    ensures |r| == 8
  {
    LiteralCode(rt, 4) + BranchCode(4, false) + AddressCode(a) + LoadCode(rt, rt)
  }

  lemma LoadPieceAt(ch: seq<Half>, k: nat, rt: int, a: U32)
    requires k + 8 <= |ch| && 0 <= rt < 16 && forall j :: 0 <= j < 8 ==> ch[k + j] == LoadPiece(rt, a)[j]
    ensures [ch[k], ch[k + 1]] == LiteralCode(rt, 4) && [ch[k + 2], ch[k + 3]] == BranchCode(4, false)
    ensures ch[k + 4] == Lo(a) && ch[k + 5] == Hi(a) && [ch[k + 6], ch[k + 7]] == LoadCode(rt, rt)
  {
    hide LiteralCode, BranchCode, LoadCode, Lo, Hi;
    var code := LoadPiece(rt, a);
    PairAt(ch, code, k, 0, LiteralCode(rt, 4));
    PairAt(ch, code, k, 2, BranchCode(4, false));
    PairAt(ch, code, k, 6, LoadCode(rt, rt));
    assert ch[k + 4] == code[4] && ch[k + 5] == code[5];
  }

  lemma LoadRuns(e: Env, base: U32, ch: seq<Half>, k: nat, rt: int, a: U32, d: Core)
    requires Holds(e, base, ch) && base % 4 == 0 && k % 2 == 0 && k + 8 <= |ch| && 0 <= rt < 15
    requires [ch[k], ch[k + 1]] == LiteralCode(rt, 4) && [ch[k + 2], ch[k + 3]] == BranchCode(4, false)
    requires ch[k + 4] == Lo(a) && ch[k + 5] == Hi(a) && [ch[k + 6], ch[k + 7]] == LoadCode(rt, rt)
    ensures var d' := Set(d, rt, a); Run(e, 3, Here(base, k, d)) == Here(base, k + 8, Set(d', rt, Read32(e, d', Get(d', rt))))
  {
    hide Holds, At, Run, Set, Get, LiteralCode, BranchCode, LoadCode, Lo, Hi, Step, Read32, LoadPiece;
    var d' := Set(d, rt, a);
    RunLiteral(e, base, ch, k, k + 4, rt, a, d);
    RunBranch(e, base, ch, k + 2, 4, false, d');
    RunLoad(e, base, ch, k + 6, rt, d');
    TwoSteps(e, Here(base, k, d));
    OneStep(e, Here(base, k + 6, d'));
    RunAdd(e, 2, 1, Here(base, k, d));
  }

  lemma SimWideLoad(e0: Env, e1: Env, block: seq<Code>, origin: U32, size: int, base: U32, i: nat, c: Core, d: Core) returns (n: nat)
    requires Before(e0, e1, block, origin, size, base, i, c, d) && block[i].Wide? && IsLdrLiteral(block[i].h1)
    ensures Simulated(e0, e1, block, origin, base, i, c, Run(e1, n, Here(base, Start(block, origin, i), d)))
  {
    hide Chunk, Pos, Start, Relocatable, InReach, Holds, At, Run, Wrap, Step, EqExcept, Stale, Addr, Respects,
         DecodeWide, WidePiece, Set, Get, Align4, LoadPiece, LiteralAddress, LiteralOffset, Read32, Outside;
    var x, start, p := block[i], Start(block, origin, i), PcOf(block, origin, i);
    var rt, a := x.h2 / 0x1000, LiteralAddress(x.h1, x.h2, p);
    WideLoads(x.h1, x.h2, p);
    PcEven(block, origin, i);
    LiteralAddressExact(x.h1, x.h2, p);
    PlacedCode(block, origin, size, base, i, LoadPiece(rt, a));
    LoadPieceAt(Chunk(block, origin, size, base), start, rt, a);
    LoadRuns(e1, base, Chunk(block, origin, size, base), start, rt, a, d);
    n := 3;
    LoadMatches(e0, e1, Stale(e0.isa, block, i), rt, a, c, d);
    StaleStep(e0.isa, block, i);
    Plus(Stale(e0.isa, block, i));
  }

  /** A literal load of PC: the relocated code goes to the address of the literal, where the
      original goes to its contents. */
  lemma LoadPcLands(e: Env, block: seq<Code>, origin: U32, size: int, base: U32, i: nat, d: Core)
    requires Relocatable(block) && InReach(block, origin) && Holds(e, base, Chunk(block, origin, size, base)) && base % 4 == 0
    requires i < |block| && block[i].Wide? && IsLdrLiteral(block[i].h1) && block[i].h2 / 0x1000 == PC
    ensures Run(e, 1, Here(base, Start(block, origin, i), d)) ==
            Go(LiteralAddress(block[i].h1, block[i].h2, PcOf(block, origin, i)), d)
  {
    hide Chunk, Pos, Start, Relocatable, InReach, Holds, At, Run, Wrap, Step, WidePiece, LoadPiece, LiteralAddress, LiteralCode, LoadCode,
         BranchCode, Lo, Hi, Go, PcOf, IsLdrLiteral;
    var x, start, p := block[i], Start(block, origin, i), PcOf(block, origin, i);
    var a := LiteralAddress(x.h1, x.h2, p);
    WideLoads(x.h1, x.h2, p);
    PlacedCode(block, origin, size, base, i, LoadPiece(PC, a));
    LoadPieceAt(Chunk(block, origin, size, base), start, PC, a);
    RunLiteral(e, base, Chunk(block, origin, size, base), start, start + 4, PC, a, d);
    OneStep(e, Here(base, start, d));
  }

  lemma PcEven(block: seq<Code>, origin: U32, i: nat)
    requires i <= |block| && origin % 2 == 0
    ensures PcOf(block, origin, i) % 2 == 0
  {
    hide At, Wrap, Halves;
    NextAt(origin, Halves(block, i), 2);
    AtEven(origin, Halves(block, i) + 2);
  }

  lemma NarrowLoads(h: Half, p: U32)
    requires IsNarrowLdr(h)
    ensures DecodeNarrow(h) == LoadLiteral(Bits(h, 0x100, 8), 4 * (h % 0x100))
    ensures 0 <= Bits(h, 0x100, 8) < 8
    ensures var rt := Bits(h, 0x100, 8);
            NarrowPiece(h, p) == Piece(LiteralCode(rt, 0) + LoadCode(rt, rt), 0, Align4(Wrap(p + 4 * (h % 0x100))), false)
  {
    assert 0 <= Bits(h, 0x100, 8) < 8;
    assert !IsHigh(h) && h / 0x100 != 0xbf;
    hide Bits, Wrap, Align4, LiteralCode, LoadCode;
  }

  lemma SimNarrowLoad(e0: Env, e1: Env, block: seq<Code>, origin: U32, size: int, base: U32, i: nat, c: Core, d: Core) returns (n: nat)
    requires Before(e0, e1, block, origin, size, base, i, c, d) && block[i].Narrow? && IsNarrowLdr(block[i].h)
    ensures Simulated(e0, e1, block, origin, base, i, c, Run(e1, n, Here(base, Start(block, origin, i), d)))
  {
    hide Chunk, Pos, Start, Relocatable, InReach, Holds, At, Run, Wrap, Step, EqExcept, Stale, Addr, Respects,
         DecodeNarrow, NarrowPiece, Set, Get, Align4, LiteralCode, LoadCode, Read32, Outside, IsNarrowLdr, Bits, Lo, Hi;
    var h, start, p, ch := block[i].h, Start(block, origin, i), PcOf(block, origin, i), Chunk(block, origin, size, base);
    NarrowLoads(h, p);
    var rt, a := Bits(h, 0x100, 8), Align4(Wrap(p + 4 * (h % 0x100)));
    AlignShift(p, 4 * (h % 0x100));
    Placed(block, origin, size, base, i);
    var q := UseInChunk(block, origin, size, base, i, rt);
    var code := LiteralCode(rt, 0) + LoadCode(rt, rt);
    assert ch[start + 2] == code[2] && ch[start + 3] == code[3];
    assert [ch[start + 2], ch[start + 3]] == LoadCode(rt, rt);
    RunLiteral(e1, base, ch, start, q, rt, a, d);
    RunLoad(e1, base, ch, start + 2, rt, Set(d, rt, a));
    TwoSteps(e1, Here(base, start, d));
    n := 2;
    LoadMatches(e0, e1, Stale(e0.isa, block, i), rt, a, c, d);
    StaleStep(e0.isa, block, i);
    Plus(Stale(e0.isa, block, i));
  }

  lemma NarrowAdrs(h: Half, p: U32)
    requires IsNarrowAdr(h)
    ensures DecodeNarrow(h) == Adr(Bits(h, 0x100, 8), 4 * (h % 0x100)) && 0 <= Bits(h, 0x100, 8) < 8
    ensures NarrowPiece(h, p) == Piece(LiteralCode(Bits(h, 0x100, 8), 0), 0, Wrap(p + h % 0x100), false)
  {
    assert 0 <= Bits(h, 0x100, 8) < 8;
    assert !IsHigh(h) && h / 0x100 != 0xbf && !IsNarrowLdr(h) && !IsNarrowCond(h);
    hide Bits, Wrap, Align4, LiteralCode, LoadCode;
  }

  /** ADR at an aligned PC with a zero immediate; see `NarrowAdrExact`. */
  lemma SimNarrowAdr(e0: Env, e1: Env, block: seq<Code>, origin: U32, size: int, base: U32, i: nat, c: Core, d: Core) returns (n: nat)
    requires Before(e0, e1, block, origin, size, base, i, c, d) && block[i].Narrow? && IsNarrowAdr(block[i].h)
    ensures Simulated(e0, e1, block, origin, base, i, c, Run(e1, n, Here(base, Start(block, origin, i), d)))
  {
    hide Chunk, Pos, Start, Relocatable, InReach, Holds, At, Run, Wrap, Step, EqExcept, Stale, Addr, Respects,
         DecodeNarrow, NarrowPiece, Set, Get, Align4, LiteralCode, IsNarrowAdr, Bits, Lo, Hi, FindRelocated, InOrigin, ReloMap;
    var h, start, p, ch := block[i].h, Start(block, origin, i), PcOf(block, origin, i), Chunk(block, origin, size, base);
    NarrowAdrs(h, p);
    var rd := Bits(h, 0x100, 8);
    AlignedIs(p);
    Placed(block, origin, size, base, i);
    var q := UseInChunk(block, origin, size, base, i, rd);
    RunLiteral(e1, base, ch, start, q, rd, Wrap(p + 0), d);
    n := 1;
    OneStep(e1, Here(base, start, d));
    SetRelated(c, d, Stale(e0.isa, block, i), rd, Wrap(p + 0));
    StaleStep(e0.isa, block, i);
    Plus(Stale(e0.isa, block, i));
  }

  // ---------------------------------------------------------------- jumps through the pool

  /** BX PC and the narrow B become one load of PC. */
  lemma PooledJump(e: Env, block: seq<Code>, origin: U32, size: int, base: U32, i: nat, v: U32, branch: bool, d: Core)
    requires Relocatable(block) && InReach(block, origin) && Holds(e, base, Chunk(block, origin, size, base)) && base % 4 == 0 && i < |block|
    requires PieceOf(block[i], PcOf(block, origin, i)) == Piece(LiteralCode(PC, 0), 0, v, branch)
    ensures Run(e, 1, Here(base, Start(block, origin, i), d)) ==
            Go(FixedData(v, branch, ReloMap(block, origin, |block|), origin, size, base), d)
  {
    hide Chunk, Pos, Start, Relocatable, InReach, Holds, At, Run, Step, PieceOf, PcOf, LiteralCode, Go, Lo, Hi, FixedData, ReloMap;
    Placed(block, origin, size, base, i);
    var q := UseInChunk(block, origin, size, base, i, PC);
    RunLiteral(e, base, Chunk(block, origin, size, base), Start(block, origin, i), q, PC, DataAt(block, origin, size, base, i), d);
    OneStep(e, Here(base, Start(block, origin, i), d));
  }

  lemma NarrowJumps(h: Half, p: U32)
    ensures IsNarrowB(h) ==>
              && DecodeNarrow(h) == Jump(2 * Signed(h % 0x800, 0x800))
              && NarrowPiece(h, p) == Piece(LiteralCode(PC, 0), 0, Wrap(p + 2 * (h % 0x800) + 1), true)
    ensures IsBxPc(h) ==>
              && DecodeNarrow(h) == ExchangePc
              && NarrowPiece(h, p) == Piece(LiteralCode(PC, 0), 0, p, true)
  {
    NarrowDisjoint(h);
    hide Bits, Wrap, Align4, LiteralCode, LoadCode, HighRm, HighRd, IsHigh, IsNarrowB, IsNarrowCond, IsNarrowAdr, IsNarrowLdr, IsCompareBranch,
         Signed;
  }

  lemma NarrowDisjoint(h: Half)
    ensures IsNarrowB(h) ==> !IsHigh(h) && !IsNarrowLdr(h) && !IsNarrowAdr(h) && !IsNarrowCond(h) && !IsCompareBranch(h) && h / 0x100 != 0xbf
    ensures IsHigh(h) ==> h / 0x100 != 0xbf && h != NOP
  {
  }

  lemma SimNarrowJump(e0: Env, e1: Env, block: seq<Code>, origin: U32, size: int, base: U32, i: nat, c: Core, d: Core) returns (n: nat)
    requires Before(e0, e1, block, origin, size, base, i, c, d) && block[i].Narrow? && (IsNarrowB(block[i].h) || IsBxPc(block[i].h))
    ensures Simulated(e0, e1, block, origin, base, i, c, Run(e1, n, Here(base, Start(block, origin, i), d)))
  {
    hide Chunk, Pos, Start, Relocatable, InReach, Holds, At, Run, Wrap, Step, EqExcept, Stale, Addr, Respects,
         DecodeNarrow, NarrowPiece, LiteralCode, IsNarrowB, IsBxPc, Odd;
    var h, p, pc := block[i].h, PcOf(block, origin, i), Addr(block, origin, i);
    NarrowJumps(h, p);
    n := 1;
    if IsNarrowB(h) {
      AddrEven(block, origin, i);
      NarrowTarget(pc, h);
      PooledJump(e1, block, origin, size, base, i, Wrap(p + 2 * (h % 0x800) + 1), true, d);
    } else {
      PooledJump(e1, block, origin, size, base, i, p, true, d);
    }
    StaleStep(e0.isa, block, i);
  }

  /** The immediate of the narrow B is not sign-extended, so the target is the original's
      exactly for forward branches. */
  lemma NarrowTarget(pc: U32, h: Half)
    requires pc % 2 == 0
    ensures var off := 2 * Signed(h % 0x800, 0x800);
            Wrap(Wrap(pc + 4) + 2 * (h % 0x800) + 1) == Odd(Wrap(pc + 4 + off)) <==> off >= 0
  {
    var f := h % 0x800;
    assert 2 * Signed(f, 0x800) == if f >= 0x400 then 2 * f - 0x1000 else 2 * f;
    hide Signed;
    PlainTarget(pc, 2 * f);
    if f >= 0x400 {
      WrapApart(pc + 4 + 2 * f, 0x1000);
      PlainTarget(pc, 2 * f - 0x1000);
      hide Wrap, Odd;
    }
  }

  lemma PlainTarget(pc: U32, off: int)
    requires pc % 2 == 0 && off % 2 == 0
    ensures Wrap(Wrap(pc + 4) + off + 1) == Odd(Wrap(pc + 4 + off)) == Wrap(pc + 4 + off) + 1
  {
    hide Wrap, Odd;
    WrapWrap(pc + 4, off + 1);
    WrapWrap(pc + 4 + off, 1);
    assert (pc + 4 + off) % 2 == 0;
    Even(pc + 4 + off);
  }

  /** `b .` at 0x1000: the relocated code goes to 0x2000. */
  lemma NarrowBackwardFails()
    ensures Decode(Narrow(0xe7fe)) == Jump(-4)
    ensures Odd(Wrap(0x1000 + 4 - 4)) == 0x1001 && NarrowPiece(0xe7fe, 0x1004).data == 0x2001
  {
    assert Narrow(0xe7fe).h / 0x800 == 28;
  }

  /** The narrow ADR adds its immediate unscaled to an unaligned PC: the value is right
      only for a zero immediate at an aligned PC. */
  lemma NarrowAdrExact(h: Half, p: U32)
    requires IsNarrowAdr(h) && p % 2 == 0
    ensures NarrowPiece(h, p).Piece?
    ensures NarrowPiece(h, p).data == Wrap(Align4(p) + 4 * (h % 0x100)) <==> h % 0x100 == 0 && p % 4 == 0
  {
    hide Wrap, Align4, Bits, LiteralCode;
    assert !IsHigh(h) && !IsNarrowLdr(h);
    hide NarrowPiece;
    AdrValues(p, h % 0x100);
  }

  lemma AdrValues(p: U32, imm: int)
    requires p % 2 == 0 && 0 <= imm < 0x100
    ensures Wrap(p + imm) == Wrap(Align4(p) + 4 * imm) <==> imm == 0 && p % 4 == 0
  {
    hide Wrap, Align4;
    var r := Residue(p);
    var k := 3 * imm - r;
    if k > 0 { WrapApart(p + imm + k, k); }
    if k < 0 { WrapApart(p + imm, -k); }
  }

  lemma Residue(p: U32) returns (r: int)
    requires p % 2 == 0
    ensures r == p % 4 && (r == 0 || r == 2) && Align4(p) == p - r
  {
    r := p % 4;
    if r == 1 { DivUnique(p, 2, p / 4 * 2, 1); }
    if r == 3 { DivUnique(p, 2, p / 4 * 2 + 1, 1); }
  }

  lemma WrapApart(x: int, k: int)
    requires 0 < k < TWO32
    ensures Wrap(x) != Wrap(x - k)
  {
  }

  // ---------------------------------------------------------------- high-register operations on PC

  predicate IsHighPc(h: Half) { IsHigh(h) && Bits(h, 0x100, 4) != 3 && HighRm(h) == PC }

  /** The rewritten operation reads R12 in place of PC and is otherwise the same. */
  lemma HighRewrite(h: Half)
    requires IsHighPc(h)
    ensures 24 <= h && IsHigh(h - 24) && !IsThumb2(h - 24)
    ensures Bits(h - 24, 0x100, 4) == Bits(h, 0x100, 4) && HighRd(h - 24) == HighRd(h) && HighRm(h - 24) == IP
  {
    var a, r := h / 0x80, h % 8;
    DivUnique(h, 8, h / 8, r);
    DivUnique(h / 8, 16, a, 15);
    DivUnique(h, 0x80, a, 0x78 + r);
    DivUnique(h - 24, 8, 16 * a + 12, r);
    DivUnique(16 * a + 12, 16, a, 12);
    DivUnique(h - 24, 0x80, a, 0x60 + r);
    DivUnique(h - 24, 0x100, a / 2, a % 2 * 0x80 + 0x60 + r);
    DivUnique(h, 0x100, a / 2, a % 2 * 0x80 + 0x78 + r);
    DivUnique(h - 24, 0x400, a / 8, a % 8 * 0x80 + 0x60 + r);
    DivUnique(h, 0x400, a / 8, a % 8 * 0x80 + 0x78 + r);
  }

  lemma HighPieces(h: Half, p: U32)
    requires IsHighPc(h)
    ensures h >= 24 && NarrowPiece(h, p) == Piece(LiteralCode(IP, 0) + [h - 24], 0, p, false)
    ensures DecodeNarrow(h) == HighInsn(Bits(h, 0x100, 4), HighRd(h), PC)
    ensures DecodeNarrow(h - 24) == HighInsn(Bits(h, 0x100, 4), HighRd(h), IP)
  {
    HighRewrite(h);
    NarrowDisjoint(h);
    NarrowDisjoint(h - 24);
    BitsRange(h, 0x100, 4);
    hide Bits, HighRd, HighRm, IsHigh, IsThumb2, LiteralCode;
  }

  lemma BitsRange(h: Half, lo: int, n: int)
    requires lo > 0 && n > 0
    ensures 0 <= Bits(h, lo, n) < n
  {
  }

  function HighInsn(op: int, rd: int, rm: int): Insn {
    if op == 0 then HighAdd(rd, rm) else if op == 1 then HighCompare(rd, rm) else HighMove(rd, rm)
  }

  /** Reading PC at its old address, and reading R12 after it was loaded with that address. */
  lemma HighMatches(e0: Env, e1: Env, stale: set<int>, op: int, rd: int, pc: U32, pc': U32, c: Core, d: Core)
    requires EqExcept(c, d, stale) && 0 <= rd < 16 && 0 <= op < 3
    requires op != 2 ==> rd != PC && rd != IP && rd !in stale
    ensures var o := Exec(e0, HighInsn(op, rd, PC), pc, c);
            var o' := Exec(e1, HighInsn(op, rd, IP), pc', Set(d, IP, Wrap(pc + 4)));
            SameOutcome(o, o', stale, StaleAfter(e0.isa, stale, HighInsn(op, rd, PC)))
  {
    hide Wrap, Compare, Odd;
    var v := Wrap(pc + 4);
    var d' := Set(d, IP, v);
    ClobberRelated(c, d, stale, IP, v);
    if op != 2 { assert Get(c, rd) == Get(d', rd); }
    if op == 0 {
      SetRelated(c, d', stale + {IP}, rd, Wrap(Get(c, rd) + v));
    } else if op == 2 {
      SetRelated(c, d', stale + {IP}, rd, v);
      Weaken(c, d', stale + {IP}, stale + {IP} - {rd} + {rd});
      if rd == PC { PcNotSet(c, d', stale + {IP}); }
    }
  }

  /** PC is no general register, so ignoring it or not makes no difference. */
  lemma PcNotSet(c: Core, d: Core, ignored: set<int>)
    requires EqExcept(c, d, ignored)
    ensures EqExcept(c, d, ignored - {PC})
  {
  }

  /** The emitted pair: load the original PC into R12, then operate on R12. */
  lemma HighRuns(e: Env, block: seq<Code>, origin: U32, size: int, base: U32, i: nat, d: Core)
    requires Relocatable(block) && InReach(block, origin) && Holds(e, base, Chunk(block, origin, size, base)) && base % 4 == 0
    requires i < |block| && block[i].Narrow? && IsHighPc(block[i].h)
    ensures var h, k := block[i].h, Start(block, origin, i);
            var d' := Set(d, IP, PcOf(block, origin, i));
            && k + 3 == Pos(block, origin, i + 1) && Wrap(At(base, k + 2) + 2) == At(base, k + 3)
            && Run(e, 2, Here(base, k, d)) ==
               Land(Exec(e, HighInsn(Bits(h, 0x100, 4), HighRd(h), IP), At(base, k + 2), d'), At(base, k + 2), 2, Here(base, k + 2, d'))
  {
    hide Chunk, Pos, Start, Relocatable, InReach, Holds, At, Run, Wrap, Step, DecodeNarrow, NarrowPiece, LiteralCode, IsHighPc, Set, Exec,
         Bits, Lo, Hi, HighRd, Land, PcOf, HighInsn, IsThumb2, FindRelocated, InOrigin, ReloMap;
    var h, k, p, ch := block[i].h, Start(block, origin, i), PcOf(block, origin, i), Chunk(block, origin, size, base);
    HighPieces(h, p);
    HighRewrite(h);
    Placed(block, origin, size, base, i);
    var q := UseInChunk(block, origin, size, base, i, IP);
    var d' := Set(d, IP, p);
    RunLiteral(e, base, ch, k, q, IP, p, d);
    var code := LiteralCode(IP, 0) + [h - 24];
    assert ch[k + 2] == code[2];
    StepAt(e, base, ch, k + 2, Narrow(h - 24), d');
    TwoSteps(e, Here(base, k, d));
  }

  lemma SimHigh(e0: Env, e1: Env, block: seq<Code>, origin: U32, size: int, base: U32, i: nat, c: Core, d: Core) returns (n: nat)
    requires Before(e0, e1, block, origin, size, base, i, c, d) && block[i].Narrow? && IsHighPc(block[i].h)
    ensures Simulated(e0, e1, block, origin, base, i, c, Run(e1, n, Here(base, Start(block, origin, i), d)))
  {
    hide Chunk, Pos, Start, Relocatable, InReach, Holds, At, Run, Wrap, EqExcept, Stale, Addr, Respects, DecodeNarrow, NarrowPiece,
         IsHighPc, Set, Get, Exec, Bits, HighRd, Land, InPlace;
    var h, k, pc := block[i].h, Start(block, origin, i), Addr(block, origin, i);
    var op, rd, stale := Bits(h, 0x100, 4), HighRd(h), Stale(e0.isa, block, i);
    HighPieces(h, PcOf(block, origin, i));
    HighRange(h);
    n := 2;
    HighRuns(e1, block, origin, size, base, i, d);
    var d' := Set(d, IP, PcOf(block, origin, i));
    HighMatches(e0, e1, stale, op, rd, pc, At(base, k + 2), c, d);
    StaleStep(e0.isa, block, i);
    AtEven(base, k + 3);
    hide SameOutcome, Matches, StaleAfter, HighInsn, StepOk;
    OutcomeMatches(e1, Exec(e0, HighInsn(op, rd, PC), pc, c), Exec(e1, HighInsn(op, rd, IP), At(base, k + 2), d'),
                   stale, Stale(e0.isa, block, i + 1), At(base, k + 2), 2, At(base, k + 3), Here(base, k + 2, d'));
  }

  lemma HighRange(h: Half)
    requires IsHighPc(h)
    ensures 0 <= HighRd(h) < 16 && 0 <= Bits(h, 0x100, 4) < 3
  {
  }

  // ---------------------------------------------------------------- conditional branches

  lemma CondRewrite(h1: Half, h2: Half)
    requires IsBCond(h1, h2)
    ensures var a, b := h1 - h1 % 0x40, ShortCond(h2);
            && IsThumb2(a) && b == 0x8002
            && Bits(a, 0x40, 16) == Bits(h1, 0x40, 16) && Bits(a, 0x80, 8) == Bits(h1, 0x80, 8)
            && Bits(a, 0x400, 2) == Bits(h1, 0x400, 2) && a % 0x40 == 0 && a / 0x800 == 30
  {
    var k, r := h1 / 0x40, h1 % 0x40;
    DivUnique(h1 - r, 0x40, k, 0);
    DivUnique(h1 - r, 0x80, k / 2, k % 2 * 0x40);
    DivUnique(h1, 0x80, k / 2, k % 2 * 0x40 + r);
    DivUnique(h1 - r, 0x400, k / 16, k % 16 * 0x40);
    DivUnique(h1, 0x400, k / 16, k % 16 * 0x40 + r);
    DivUnique(h1 - r, 0x800, k / 32, k % 32 * 0x40);
    DivUnique(h1, 0x800, k / 32, k % 32 * 0x40 + r);
  }

  lemma CondPieces(h1: Half, h2: Half, p: U32)
    requires IsBCond(h1, h2)
    ensures 0 <= h1 - h1 % 0x40 < 0x10000
    ensures WidePiece(h1, h2, p) == Unlabelled(CondPiece(h1 - h1 % 0x40, BranchWord(p, CondOffset(h1, h2))))
    ensures DecodeWide(h1, h2) == CondJump(Bits(h1, 0x40, 16), CondOffset(h1, h2))
    ensures DecodeWide(h1 - h1 % 0x40, 0x8002) == CondJump(Bits(h1, 0x40, 16), 4 - Bits(h1, 0x400, 2) * 0x100000)
  {
    CondRewrite(h1, h2);
    var a := h1 - h1 % 0x40;
    assert Op3(0x8002) == 0 && CondOffset(a, 0x8002) == 4 - Bits(a, 0x400, 2) * 0x100000;
    hide Bits, CondOffset, Op3, Wrap, BranchCode, LiteralCode, AddressCode, ShortCond;
  }

  function CondPiece(a: Half, v: U32): seq<Half> {
    [a, 0x8002] + BranchCode(4, false) + LiteralCode(PC, 0) + AddressCode(v)
  }

  /** The sign bit of the offset stays in the rewritten branch. */
  lemma CondSign(h1: Half, h2: Half)
    ensures CondOffset(h1, h2) >= 0 <==> Bits(h1, 0x400, 2) == 0
    ensures 0 <= Bits(h1, 0x400, 2) < 2
  {
  }

  lemma CondPieceAt(ch: seq<Half>, k: nat, a: Half, v: U32)
    requires k + 8 <= |ch| && |CondPiece(a, v)| == 8 && forall j :: 0 <= j < 8 ==> ch[k + j] == CondPiece(a, v)[j]
    ensures ch[k] == a && ch[k + 1] == 0x8002 && [ch[k + 2], ch[k + 3]] == BranchCode(4, false)
    ensures [ch[k + 4], ch[k + 5]] == LiteralCode(PC, 0) && ch[k + 6] == Lo(v) && ch[k + 7] == Hi(v)
  {
    hide LiteralCode, BranchCode, Lo, Hi;
    var code := CondPiece(a, v);
    PairAt(ch, code, k, 2, BranchCode(4, false));
    PairAt(ch, code, k, 4, LiteralCode(PC, 0));
    assert ch[k + 0] == code[0] && ch[k + 1] == code[1] && ch[k + 6] == code[6] && ch[k + 7] == code[7];
  }

  /** Where the code of a conditional branch leads, for every instruction and state.  A
      forward branch that is taken reaches its target.  A branch not taken skips to
      the word that holds the target, four bytes short of the next instruction, and a
      backward branch that is taken keeps its sign bit and lands a megabyte before the load. */
  lemma CondBranchLands(e: Env, block: seq<Code>, origin: U32, size: int, base: U32, i: nat, d: Core) returns (n: nat)
    requires Relocatable(block) && InReach(block, origin) && Holds(e, base, Chunk(block, origin, size, base)) && base % 4 == 0
    requires i < |block| && block[i].Wide? && IsBCond(block[i].h1, block[i].h2)
    ensures Decode(block[i]).CondJump?
    ensures var j, start := Decode(block[i]), Start(block, origin, i);
            && start + 8 == Pos(block, origin, i + 1)
            && Run(e, n, Here(base, start, d)) ==
               if !CondHolds(j.cond, d.flags) then Here(base, start + 6, d)
               else if j.offset < 0 then Here(base, start + 4 - 0x80000, d)
               else Go(BranchWord(PcOf(block, origin, i), j.offset), d)
  {
    hide Chunk, Pos, Start, Relocatable, InReach, Holds, At, Run, Wrap, Step, PcOf, DecodeWide, WidePiece, LiteralCode, BranchCode,
         IsBCond, Bits, Lo, Hi, Go, CondPiece, BranchWord, CondHolds, Odd, CondOffset, ShortCond, IsThumb2;
    var x, start, p, ch := block[i], Start(block, origin, i), PcOf(block, origin, i), Chunk(block, origin, size, base);
    CondPieces(x.h1, x.h2, p);
    CondRewrite(x.h1, x.h2);
    CondSign(x.h1, x.h2);
    var a, v := x.h1 - x.h1 % 0x40, BranchWord(p, CondOffset(x.h1, x.h2));
    CondLength(a, v);
    PlacedCode(block, origin, size, base, i, CondPiece(a, v));
    CondPieceAt(ch, start, a, v);
    n := CondRuns(e, base, ch, start, a, Bits(x.h1, 0x40, 16), Bits(x.h1, 0x400, 2) == 1, v, d);
  }

  lemma CondLength(a: Half, v: U32)
    ensures |CondPiece(a, v)| == 8
  {
  }

  lemma CondStep(e: Env, base: U32, ch: seq<Half>, k: nat, a: Half, cond: int, back: bool, d: Core)
    requires Holds(e, base, ch) && base % 4 == 0 && k + 1 < |ch|
    requires IsThumb2(a) && DecodeWide(a, 0x8002) == CondJump(cond, if back then 4 - 0x100000 else 4)
    requires ch[k] == a && ch[k + 1] == 0x8002
    ensures Step(e, Here(base, k, d)) ==
            Here(base, if !CondHolds(cond, d.flags) then k + 2 else if back then k + 4 - 0x80000 else k + 4, d)
  {
    hide Holds, At, Wrap, Step, DecodeWide, Go, CondHolds, Odd, IsThumb2;
    StepAt(e, base, ch, k, Wide(a, 0x8002), d);
    var n := if back then 4 - 0x80000 else 4;
    NextAt(base, k, n);
    AtEven(base, k + n);
    GoOdd(At(base, k + n), d);
  }

  lemma CondRuns(e: Env, base: U32, ch: seq<Half>, k: nat, a: Half, cond: int, back: bool, v: U32, d: Core) returns (n: nat)
    requires Holds(e, base, ch) && base % 4 == 0 && k % 2 == 0 && k + 8 <= |ch|
    requires IsThumb2(a) && DecodeWide(a, 0x8002) == CondJump(cond, if back then 4 - 0x100000 else 4)
    requires ch[k] == a && ch[k + 1] == 0x8002 && [ch[k + 2], ch[k + 3]] == BranchCode(4, false)
    requires [ch[k + 4], ch[k + 5]] == LiteralCode(PC, 0) && ch[k + 6] == Lo(v) && ch[k + 7] == Hi(v)
    ensures Run(e, n, Here(base, k, d)) ==
            if !CondHolds(cond, d.flags) then Here(base, k + 6, d)
            else if back then Here(base, k + 4 - 0x80000, d)
            else Go(v, d)
  {
    hide Holds, At, Run, Wrap, Step, DecodeWide, LiteralCode, BranchCode, Lo, Hi, Go, CondHolds, Odd, IsThumb2;
    CondStep(e, base, ch, k, a, cond, back, d);
    if !CondHolds(cond, d.flags) {
      RunBranch(e, base, ch, k + 2, 4, false, d);
      n := 2;
      TwoSteps(e, Here(base, k, d));
    } else if back {
      n := 1;
      OneStep(e, Here(base, k, d));
    } else {
      RunLiteral(e, base, ch, k + 4, k + 6, PC, v, d);
      n := 2;
      TwoSteps(e, Here(base, k, d));
    }
  }

  lemma SimCond(e0: Env, e1: Env, block: seq<Code>, origin: U32, size: int, base: U32, i: nat, c: Core, d: Core) returns (n: nat)
    requires Before(e0, e1, block, origin, size, base, i, c, d) && block[i].Wide? && IsBCond(block[i].h1, block[i].h2)
    ensures Simulated(e0, e1, block, origin, base, i, c, Run(e1, n, Here(base, Start(block, origin, i), d)))
  {
    hide Chunk, Pos, Start, Relocatable, InReach, Holds, At, Run, Wrap, EqExcept, Stale, Addr, Respects, IsBCond,
         DecodeWide, BranchWord, CondHolds, Odd, CondOffset;
    FlagsAgree(c, d, Stale(e0.isa, block, i));
    n := CondBranchLands(e1, block, origin, size, base, i, d);
    CondDecodes(block[i].h1, block[i].h2);
    OffsetsEven(block[i].h1, block[i].h2);
    AddrEven(block, origin, i);
    SameTarget(Addr(block, origin, i), CondOffset(block[i].h1, block[i].h2));
    StaleStep(e0.isa, block, i);
  }

  lemma FlagsAgree(c: Core, d: Core, stale: set<int>)
    requires EqExcept(c, d, stale)
    ensures c.flags == d.flags
  {
  }

  lemma CondDecodes(h1: Half, h2: Half)
    requires IsBCond(h1, h2)
    ensures DecodeWide(h1, h2).CondJump? && DecodeWide(h1, h2).offset == CondOffset(h1, h2)
  {
    CondPieces(h1, h2, 0);
    hide DecodeWide, CondOffset, Bits;
  }

  /** The narrow conditional branch as rewritten: the lower half of its immediate is set to 2. */
  function ShortNarrow(h: Half): Half { h - h % 0x10 + 2 }
  function ShortOffset(h: Half): int { Signed(h % 0x100 - h % 0x10 + 2, 0x100) }
  function NarrowImm(h: Half): int { h % 0x100 }

  lemma ShortFields(h: Half)
    requires IsNarrowCond(h)
    ensures var h' := ShortNarrow(h);
            && h' / 0x1000 == 13 && h' / 0x100 == h / 0x100 && h' % 0x100 == h % 0x100 - h % 0x10 + 2 && !IsThumb2(h')
            && h / 0x100 != 0xbf && h' / 0x100 != 0xbf
  {
    var h', k, imm: int := ShortNarrow(h), h / 0x100, h % 0x100;
    DivUnique(h, 0x10, k * 16 + imm / 0x10, imm % 0x10);
    DivUnique(h', 0x100, k, imm - imm % 0x10 + 2);
    DivUnique(h, 0x1000, k / 16, k % 16 * 0x100 + imm);
    DivUnique(h', 0x1000, k / 16, k % 16 * 0x100 + (imm - imm % 0x10 + 2));
    DivUnique(h', 0x2000, 6, h' - 0xc000);
    DivUnique(k, 16, 13, k - 208);
  }

  lemma NarrowCondPieces(h: Half, p: U32)
    requires IsNarrowCond(h) && Bits(h, 0x100, 16) < 14
    ensures !IsThumb2(ShortNarrow(h))
    ensures DecodeNarrow(h) == CondJump(Bits(h, 0x100, 16), 2 * Signed(NarrowImm(h), 0x100))
    ensures DecodeNarrow(ShortNarrow(h)) == CondJump(Bits(h, 0x100, 16), 2 * ShortOffset(h))
    ensures NarrowPiece(h, p) ==
            Piece([ShortNarrow(h), NOP] + BranchCode(4, false) + LiteralCode(PC, 0), 4, Wrap(p + 2 * NarrowImm(h) + 1), true)
  {
    hide IsThumb2, Wrap, BranchCode, LiteralCode;
    ShortFields(h);
    NarrowClasses(h);
    NarrowClasses(ShortNarrow(h));
    hide IsHigh, IsNarrowLdr, IsNarrowAdr, Signed;
  }

  /** Where the code of a narrow conditional branch leads, for every instruction and state:
      the upper half of the immediate stays in the rewritten branch, so a branch that is taken
      reaches its target when the immediate is below 16; one not taken always falls through. */
  lemma NarrowCondLands(e: Env, block: seq<Code>, origin: U32, size: int, base: U32, i: nat, d: Core) returns (n: nat)
    requires Relocatable(block) && InReach(block, origin) && Holds(e, base, Chunk(block, origin, size, base)) && base % 4 == 0
    requires i < |block| && block[i].Narrow? && IsNarrowCond(block[i].h) && Bits(block[i].h, 0x100, 16) < 14
    ensures var h, start := block[i].h, Start(block, origin, i);
            Run(e, n, Here(base, start, d)) ==
               if !CondHolds(Bits(h, 0x100, 16), d.flags) then Here(base, Pos(block, origin, i + 1), d)
               else if NarrowImm(h) < 16 then
                 Go(FixedData(Wrap(PcOf(block, origin, i) + 2 * NarrowImm(h) + 1), true, ReloMap(block, origin, |block|), origin, size, base), d)
               else Here(base, start + 2 + ShortOffset(h), d)
  {
    hide Chunk, Pos, Start, Relocatable, InReach, Holds, At, Run, Wrap, Step, PcOf, DecodeNarrow, NarrowPiece, LiteralCode, BranchCode,
         IsNarrowCond, Bits, Lo, Hi, Go, CondHolds, IsThumb2, ShortNarrow, ShortOffset, NarrowImm, FixedData, ReloMap;
    var h, start, p := block[i].h, Start(block, origin, i), PcOf(block, origin, i);
    NarrowCondPieces(h, p);
    var data := Wrap(p + 2 * NarrowImm(h) + 1);
    var v := FixedData(data, true, ReloMap(block, origin, |block|), origin, size, base);
    var q := NarrowCondAt(block, origin, size, base, i, ShortNarrow(h), 4, data);
    n := NarrowCondRuns(e, base, Chunk(block, origin, size, base), start, ShortNarrow(h), Bits(h, 0x100, 16), ShortOffset(h), q, v, d);
    SmallImmediate(h);
  }

  lemma NarrowCondAt(block: seq<Code>, origin: U32, size: int, base: U32, i: nat, a: Half, imm: int, data: U32) returns (q: nat)
    requires Relocatable(block) && InReach(block, origin) && i < |block|
    requires PieceOf(block[i], PcOf(block, origin, i)) == Piece([a, NOP] + BranchCode(imm, false) + LiteralCode(PC, 0), 4, data, true)
    ensures var ch, k := Chunk(block, origin, size, base), Start(block, origin, i);
            var v := FixedData(data, true, ReloMap(block, origin, |block|), origin, size, base);
            && k % 2 == 0 && k + 6 == Pos(block, origin, i + 1) && k + 6 <= q && q + 1 < |ch| && 2 * (q - k) - 12 < 0x1000
            && ch[k] == a && ch[k + 1] == NOP && [ch[k + 2], ch[k + 3]] == BranchCode(imm, false)
            && [ch[k + 4], ch[k + 5]] == LiteralCode(PC, 2 * (q - k) - 12) && ch[q] == Lo(v) && ch[q + 1] == Hi(v)
  {
    hide Chunk, Pos, Start, Relocatable, InReach, PcOf, PieceOf, LiteralCode, BranchCode, Lo, Hi, FixedData, ReloMap;
    var ch, k := Chunk(block, origin, size, base), Start(block, origin, i);
    var code := [a, NOP] + BranchCode(imm, false) + LiteralCode(PC, 0);
    assert code[4..6] == LiteralCode(PC, 0) && code[2..4] == BranchCode(imm, false);
    Placed(block, origin, size, base, i);
    q := UseInChunk(block, origin, size, base, i, PC);
    assert ch[k + 0] == code[0] && ch[k + 1] == code[1] && ch[k + 2] == code[2] && ch[k + 3] == code[3];
    assert [ch[k + 2], ch[k + 3]] == code[2..4];
  }

  lemma SmallImmediate(h: Half)
    ensures NarrowImm(h) < 16 <==> ShortOffset(h) == 2
  {
    var imm: int := h % 0x100;
    DivUnique(h, 0x10, h / 0x100 * 16 + imm / 0x10, imm % 0x10);
  }

  lemma NarrowCondStep(e: Env, base: U32, ch: seq<Half>, k: nat, a: Half, cond: int, off: int, d: Core)
    requires Holds(e, base, ch) && base % 4 == 0 && k < |ch|
    requires !IsThumb2(a) && DecodeNarrow(a) == CondJump(cond, 2 * off) && ch[k] == a
    ensures Step(e, Here(base, k, d)) == Here(base, if CondHolds(cond, d.flags) then k + 2 + off else k + 1, d)
  {
    hide Holds, At, Wrap, Step, DecodeNarrow, Go, CondHolds, Odd, IsThumb2;
    StepAt(e, base, ch, k, Narrow(a), d);
    NextAt(base, k, 2 + off);
    AtEven(base, k + 2 + off);
    GoOdd(At(base, k + 2 + off), d);
  }

  lemma NarrowCondRuns(e: Env, base: U32, ch: seq<Half>, k: nat, a: Half, cond: int, off: int, q: nat, v: U32, d: Core) returns (n: nat)
    requires Holds(e, base, ch) && base % 4 == 0 && k % 2 == 0 && k + 6 <= q && q + 1 < |ch| && 2 * (q - k) - 12 < 0x1000
    requires !IsThumb2(a) && DecodeNarrow(a) == CondJump(cond, 2 * off)
    requires ch[k] == a && ch[k + 1] == NOP && [ch[k + 2], ch[k + 3]] == BranchCode(4, false)
    requires [ch[k + 4], ch[k + 5]] == LiteralCode(PC, 2 * (q - k) - 12) && ch[q] == Lo(v) && ch[q + 1] == Hi(v)
    ensures Run(e, n, Here(base, k, d)) ==
            if !CondHolds(cond, d.flags) then Here(base, k + 6, d)
            else if off == 2 then Go(v, d)
            else Here(base, k + 2 + off, d)
  {
    hide Holds, At, Run, Wrap, Step, DecodeNarrow, LiteralCode, BranchCode, Lo, Hi, Go, CondHolds, IsThumb2, Here;
    NarrowCondStep(e, base, ch, k, a, cond, off, d);
    OneStep(e, Here(base, k, d));
    n := 1;
    if !CondHolds(cond, d.flags) {
      NopRuns(e, base, ch, k + 1, d);
      RunBranch(e, base, ch, k + 2, 4, false, d);
      TwoSteps(e, Here(base, k + 1, d));
      RunAdd(e, 1, 2, Here(base, k, d));
      n := 3;
    } else if off == 2 {
      RunLiteral(e, base, ch, k + 4, q, PC, v, d);
      TwoSteps(e, Here(base, k, d));
      n := 2;
    }
  }

  lemma SimNarrowCond(e0: Env, e1: Env, block: seq<Code>, origin: U32, size: int, base: U32, i: nat, c: Core, d: Core) returns (n: nat)
    requires Before(e0, e1, block, origin, size, base, i, c, d)
    requires block[i].Narrow? && IsNarrowCond(block[i].h) && Bits(block[i].h, 0x100, 16) < 14
    ensures Simulated(e0, e1, block, origin, base, i, c, Run(e1, n, Here(base, Start(block, origin, i), d)))
  {
    hide Chunk, Pos, Start, Relocatable, InReach, Holds, At, Run, Wrap, EqExcept, Stale, Addr, Respects, IsNarrowCond,
         DecodeNarrow, NarrowPiece, CondHolds, Odd, Bits, ShortNarrow, ShortOffset;
    var h := block[i].h;
    n := NarrowCondLands(e1, block, origin, size, base, i, d);
    NarrowCondPieces(h, 0);
    FlagsAgree(c, d, Stale(e0.isa, block, i));
    AddrEven(block, origin, i);
    PlainTarget(Addr(block, origin, i), 2 * NarrowImm(h));
    StaleStep(e0.isa, block, i);
  }

  // ---------------------------------------------------------------- everything else

  predicate PlainInsn(i: Insn) {
    match i
    case CallRegister(_) => true
    case Load(_, _, _) => true
    case HighAdd(_, rm) => rm != PC
    case HighCompare(_, rm) => rm != PC
    case HighMove(_, rm) => rm != PC
    case Nop => true
    case Other(_) => true
    case _ => false
  }

  lemma SameReg(c: Core, d: Core, stale: set<int>, r: int)
    requires EqExcept(c, d, stale) && r !in stale
    ensures Get(c, r) == Get(d, r)
  {
  }

  lemma PlainSet(c: Core, d: Core, stale: set<int>, r: int, v: U32)
    requires EqExcept(c, d, stale)
    ensures EqExcept(Set(c, r, v), Set(d, r, v), stale - {r}) && (r == PC ==> EqExcept(c, d, stale - {r}))
  {
    SetRelated(c, d, stale, r, v);
    if r == PC { PcNotSet(c, d, stale); }
  }

  lemma SameRead(e0: Env, e1: Env, stale: set<int>, c: Core, d: Core, a: U32)
    requires EqExcept(c, d, stale) && Outside(e0, e1, a)
    ensures Read32(e1, d, a) == Read32(e0, c, a)
  {
  }

  lemma OtherExec(isa: Isa, stale: set<int>, x: Code, c: Core, d: Core)
    requires Respects(isa) && EqExcept(c, d, stale) && stale !! isa.uses(x)
    ensures var f, g := isa.effect(x, c), isa.effect(x, d);
            f.jumps == g.jumps && f.target == g.target && EqExcept(f.core, g.core, stale - isa.defines(x))
  {
  }

  ghost predicate SameOutcome(o: Outcome, o': Outcome, stale: set<int>, stale': set<int>) {
    match o
    case Next(y) => o'.Next? && EqExcept(y, o'.core, stale')
    case Goes(y, t) => o'.Goes? && o'.target == t && EqExcept(y, o'.core, stale')
    case Calls(y, t) => o'.Calls? && o'.target == t && EqExcept(y, o'.core, stale) && stale' == stale + {LR}
    case Unmodelled => false
  }

  lemma OutcomeMatches(e: Env, o: Outcome, o': Outcome, stale: set<int>, stale': set<int>, pc: U32, size: int, next: U32, m: Machine)
    requires SameOutcome(o, o', stale, stale') && Wrap(pc + size) == next && next % 2 == 0
    ensures Matches(e, o, Land(o', pc, size, m), next, stale')
  {
    hide EqExcept, Wrap, Odd, Set, Get;
    if o.Calls? {
      LinkRelated(o.core, o'.core, stale, Odd(next));
      ReturnsHere(e, next);
    }
  }

  /** The same instruction at another address. */
  lemma PlainExec(e0: Env, e1: Env, stale: set<int>, x: Code, origin: U32, size: int, pc: U32, pc': U32, c: Core, d: Core)
    requires e0.isa == e1.isa && Respects(e0.isa) && EqExcept(c, d, stale)
    requires PlainInsn(Decode(x)) && StepOk(e0, e1, stale, x, origin, size, pc, c)
    ensures SameOutcome(Exec(e0, Decode(x), pc, c), Exec(e1, Decode(x), pc', d), stale, StaleAfter(e0.isa, stale, Decode(x)))
  {
    hide Decode, Wrap, EqExcept, Read32, Compare, Odd, Get, Set, Respects, Outside;
    Plus(stale);
    match Decode(x)
    case CallRegister(rm) => SameReg(c, d, stale, rm);
    case Load(rt, rn, off) =>
      SameReg(c, d, stale, rn);
      SameRead(e0, e1, stale, c, d, Wrap(Get(c, rn) + off));
      PlainSet(c, d, stale, rt, Read32(e0, c, Wrap(Get(c, rn) + off)));
    case HighAdd(rd, rm) =>
      SameReg(c, d, stale, rd);
      SameReg(c, d, stale, rm);
      PlainSet(c, d, stale, rd, Wrap(Get(c, rd) + Get(c, rm)));
    case HighCompare(rd, rm) =>
      SameReg(c, d, stale, rd);
      SameReg(c, d, stale, rm);
      SameFlags(c, d, stale, Compare(Get(c, rd), Get(c, rm)));
    case HighMove(rd, rm) =>
      SameReg(c, d, stale, rm);
      PlainSet(c, d, stale, rd, Get(c, rm));
    case Nop =>
    case Other(y) => OtherExec(e0.isa, stale, y, c, d);
  }

  lemma Plus(stale: set<int>)
    ensures stale + {} == stale && stale - {} == stale && stale + {LR} - {} == stale + {LR}
  {
  }

  lemma SameFlags(c: Core, d: Core, stale: set<int>, f: Flags)
    requires EqExcept(c, d, stale)
    ensures EqExcept(c.(flags := f), d.(flags := f), stale)
  {
    forall r | r !in stale ensures Get(c.(flags := f), r) == Get(d.(flags := f), r) {
      assert Get(c, r) == Get(d, r);
    }
  }

  function HalvesOf(x: Code): seq<Half> {
    if x.Narrow? then [x.h] else [x.h1, x.h2]
  }

  /** None of the instructions that the relocator rewrites. */
  predicate IsPlain(x: Code) {
    if x.Narrow? then
      !IsHighPc(x.h) && !IsBxPc(x.h) && !IsNarrowLdr(x.h) && !IsNarrowAdr(x.h) && !IsNarrowCond(x.h) && !IsCompareBranch(x.h) && !IsNarrowB(x.h)
    else
      !IsBCond(x.h1, x.h2) && !IsB(x.h1, x.h2) && !IsBl(x.h1, x.h2) && !IsBlx(x.h1, x.h2) && !IsLdrLiteral(x.h1)
      && !IsAdr(x.h1, x.h2) && !TakenForAdr(x.h1, x.h2)
  }

  lemma PlainDecode(x: Code, p: U32)
    requires IsPlain(x)
    ensures PieceOf(x, p) == Unlabelled(HalvesOf(x))
    ensures Decode(x) == NotModelled || PlainInsn(Decode(x))
  {
    if x.Narrow? { BitsRange(x.h, 0x100, 4); BitsRange(x.h, 0x80, 2); }
    hide IsHigh, IsNarrowLdr, IsNarrowAdr, IsNarrowCond, IsCompareBranch, IsNarrowB, IsBCond, IsB, IsBl, IsBlx, IsAdr, TakenForAdr,
         IsLdrLiteral, Bits, HighRm, HighRd, Wrap, Align4;
  }

  lemma PlainPlaced(block: seq<Code>, origin: U32, size: int, base: U32, i: nat)
    requires Relocatable(block) && InReach(block, origin) && i < |block| && IsPlain(block[i])
    requires if block[i].Narrow? then !IsThumb2(block[i].h) else IsThumb2(block[i].h1)
    ensures IsAt(Chunk(block, origin, size, base), Start(block, origin, i), block[i])
    ensures Start(block, origin, i) + Size(block[i]) / 2 == Pos(block, origin, i + 1)
  {
    hide Chunk, Pos, Start, Relocatable, InReach, PieceOf, PcOf, IsThumb2, IsPlain;
    var x, start, ch := block[i], Start(block, origin, i), Chunk(block, origin, size, base);
    PlainDecode(x, PcOf(block, origin, i));
    PlacedCode(block, origin, size, base, i, HalvesOf(x));
    assert ch[start + 0] == HalvesOf(x)[0] && (x.Wide? ==> ch[start + 1] == HalvesOf(x)[1]);
  }

  lemma SimPlain(e0: Env, e1: Env, block: seq<Code>, origin: U32, size: int, base: U32, i: nat, c: Core, d: Core) returns (n: nat)
    requires Before(e0, e1, block, origin, size, base, i, c, d) && IsPlain(block[i])
    ensures Simulated(e0, e1, block, origin, base, i, c, Run(e1, n, Here(base, Start(block, origin, i), d)))
  {
    hide Chunk, Pos, Start, Relocatable, InReach, Holds, At, Run, Wrap, Stale, Addr, Respects, Decode, EqExcept, Matches,
         IsPlain, Exec, PieceOf, PcOf, Step, IsThumb2, PlainInsn, InPlace, Fetches, Fetch, SameOutcome, Land, StepOk;
    var x, pc, start, ch := block[i], Addr(block, origin, i), Start(block, origin, i), Chunk(block, origin, size, base);
    ModelledCases(e0, e1, Stale(e0.isa, block, i), x, origin, size, pc, c);
    PlainDecode(x, PcOf(block, origin, i));
    InPlaceAt(e0, block, origin, i);
    PlainPlaced(block, origin, size, base, i);
    hide IsAt;
    StepAt(e1, base, ch, start, x, d);
    n := 1;
    OneStep(e1, Here(base, start, d));
    PlainExec(e0, e1, Stale(e0.isa, block, i), x, origin, size, pc, At(base, start), c, d);
    StaleStep(e0.isa, block, i);
    AtEven(base, Pos(block, origin, i + 1));
    OutcomeMatches(e1, Exec(e0, Decode(x), pc, c), Exec(e1, Decode(x), At(base, start), d), Stale(e0.isa, block, i), Stale(e0.isa, block, i + 1),
                   At(base, start), Size(x), At(base, Pos(block, origin, i + 1)), Here(base, start, d));
  }

  lemma InPlaceAt(e0: Env, block: seq<Code>, origin: U32, i: nat)
    requires InPlace(e0, block, origin) && i < |block|
    ensures Fetches(e0, Addr(block, origin, i)) && Fetch(e0, Addr(block, origin, i)) == block[i]
    ensures if block[i].Narrow? then !IsThumb2(block[i].h) else IsThumb2(block[i].h1)
  {
    hide Addr, IsThumb2;
    var x := block[i];
  }

  lemma ReturnsHere(e: Env, a: U32)
    requires a % 2 == 0
    ensures ReturnsTo(e, a, a)
  {
    forall x: Core ensures Reaches(e, Machine(a, true, x), Machine(a, true, x)) {
      assert Run(e, 0, Machine(a, true, x)) == Machine(a, true, x);
    }
  }

  // ---------------------------------------------------------------- the setting exists

  lemma AtInjective(base: U32, j: nat, k: nat)
    requires j < 0x80000000 && k < 0x80000000 && At(base, j) == At(base, k)
    ensures j == k
  {
  }

  /** Any code can be placed at any address. */
  lemma Placeable(code: seq<Half>, base: U32, isa: Isa) returns (e: Env)
    requires |code| < 0x80000000
    ensures e.isa == isa && Holds(e, base, code)
  {
    hide At;
    forall j, k | 0 <= j < |code| && 0 <= k < |code| && At(base, j) == At(base, k) ensures j == k {
      AtInjective(base, j, k);
    }
    e := Env(map k | 0 <= k < |code| :: At(base, k) := code[k], isa);
  }

  /** The halfwords of the first `i` instructions. */
  function Flat(block: seq<Code>, i: nat): (r: seq<Half>)
    requires i <= |block|
    ensures |r| == Halves(block, i)
  {
    if i == 0 then [] else Flat(block, i - 1) + HalvesOf(block[i - 1])
  }

  lemma {:induction false} FlatPrefix(block: seq<Code>, i: nat, n: nat)
    requires i <= n <= |block|
    ensures Flat(block, i) <= Flat(block, n)
    decreases n
  {
    if i < n { FlatPrefix(block, i, n - 1); }
  }

  predicate WellFormed(x: Code) {
    if x.Narrow? then !IsThumb2(x.h) else IsThumb2(x.h1)
  }

  lemma FlatAt(block: seq<Code>, i: nat)
    requires i < |block| && WellFormed(block[i])
    ensures IsAt(Flat(block, |block|), Halves(block, i), block[i])
  {
    hide IsThumb2;
    FlatPrefix(block, i + 1, |block|);
    var whole, next, k := Flat(block, |block|), Flat(block, i + 1), Halves(block, i);
    assert next == Flat(block, i) + HalvesOf(block[i]);
    assert next[k] == HalvesOf(block[i])[0];
    if block[i].Wide? { assert next[k + 1] == HalvesOf(block[i])[1]; }
  }

  lemma PlacedFetches(e: Env, base: U32, code: seq<Half>, k: nat, x: Code)
    requires Holds(e, base, code) && IsAt(code, k, x)
    ensures Fetches(e, At(base, k)) && Fetch(e, At(base, k)) == x
  {
    hide At, IsThumb2, Wrap;
    NextAt(base, k, 1);
    assert code[k] == e.text[At(base, k)];
    if x.Wide? { assert code[k + 1] == e.text[At(base, k + 1)]; }
  }

  /** The theorems are not about nothing: every block of instructions as fetched, within the
      domain and of moderate size, has a setting. */
  lemma SettingExists(block: seq<Code>, origin: U32, size: int, base: U32) returns (e0: Env, e1: Env)
    requires Relocatable(block) && InReach(block, origin)
    requires origin % 2 == 0 && base % 4 == 0
    requires Halves(block, |block|) < 0x80000000 && |Chunk(block, origin, size, base)| < 0x80000000
    requires forall k :: 0 <= k < |block| ==> WellFormed(block[k])
    ensures Setting(e0, e1, block, origin, size, base)
  {
    hide Relocatable, InReach, Chunk, Holds, Halves, At, Fetches, WellFormed;
    var isa := Isa((x: Code, c: Core) => Effect(c, false, 0), (x: Code) => {}, (x: Code) => {}, (x: Code) => false);
    e0 := Placeable(Flat(block, |block|), origin, isa);
    e1 := Placeable(Chunk(block, origin, size, base), base, isa);
    forall k | 0 <= k < |block|
      ensures Fetches(e0, Addr(block, origin, k)) && Fetch(e0, Addr(block, origin, k)) == block[k]
    {
      FlatAt(block, k);
      PlacedFetches(e0, origin, Flat(block, |block|), Halves(block, k), block[k]);
    }
  }

  // ---------------------------------------------------------------- the theorems

  /** One instruction: from states that differ in stale registers only, the original's
      outcome and where the relocated code gets to match. */
  lemma StepSimulated(e0: Env, e1: Env, block: seq<Code>, origin: U32, size: int, base: U32, i: nat, c: Core, d: Core) returns (n: nat)
    requires Before(e0, e1, block, origin, size, base, i, c, d)
    ensures Simulated(e0, e1, block, origin, base, i, c, Run(e1, n, Here(base, Pos(block, origin, i), d)))
  {
    hide Setting, Simulated, Stale, EqExcept, Run, Addr, Chunk, StepOk, IsHighPc, IsBxPc, IsNarrowLdr, IsNarrowAdr, IsNarrowCond,
         IsCompareBranch, IsNarrowB, IsBCond, IsB, IsBl, IsBlx, IsAdr, TakenForAdr, IsLdrLiteral, Pos, Start, At, Holds;
    var x := block[i];
    var k: nat;
    ModelledCases(e0, e1, Stale(e0.isa, block, i), x, origin, size, Addr(block, origin, i), c);
    if x.Narrow? {
      if IsHighPc(x.h) { k := SimHigh(e0, e1, block, origin, size, base, i, c, d); }
      else if IsNarrowB(x.h) || IsBxPc(x.h) { k := SimNarrowJump(e0, e1, block, origin, size, base, i, c, d); }
      else if IsNarrowLdr(x.h) { k := SimNarrowLoad(e0, e1, block, origin, size, base, i, c, d); }
      else if IsNarrowAdr(x.h) { k := SimNarrowAdr(e0, e1, block, origin, size, base, i, c, d); }
      else if IsNarrowCond(x.h) { k := SimNarrowCond(e0, e1, block, origin, size, base, i, c, d); }
      else { k := SimPlain(e0, e1, block, origin, size, base, i, c, d); }
    } else {
      if IsB(x.h1, x.h2) { k := SimJump(e0, e1, block, origin, size, base, i, c, d); }
      else if IsBl(x.h1, x.h2) || IsBlx(x.h1, x.h2) { k := SimCall(e0, e1, block, origin, size, base, i, c, d); }
      else if IsBCond(x.h1, x.h2) { k := SimCond(e0, e1, block, origin, size, base, i, c, d); }
      else if IsLdrLiteral(x.h1) { k := SimWideLoad(e0, e1, block, origin, size, base, i, c, d); }
      else { k := SimPlain(e0, e1, block, origin, size, base, i, c, d); }
    }
    SettingHas(e0, e1, block, origin, size, base);
    var m := PadsRun(e1, block, origin, size, base, i, d);
    RunAdd(e1, m, k, Here(base, Pos(block, origin, i), d));
    n := m + k;
  }

  lemma SettingHas(e0: Env, e1: Env, block: seq<Code>, origin: U32, size: int, base: U32)
    requires Setting(e0, e1, block, origin, size, base)
    ensures Relocatable(block) && InReach(block, origin) && Holds(e1, base, Chunk(block, origin, size, base))
  {
  }

  /** The instructions whose relocation is not claimed are excluded by `StepOk`. */
  lemma ModelledCases(e0: Env, e1: Env, stale: set<int>, x: Code, origin: U32, size: int, pc: U32, c: Core)
    requires StepOk(e0, e1, stale, x, origin, size, pc, c)
    ensures Decode(x) != NotModelled
    ensures x.Narrow? && IsNarrowCond(x.h) ==> Bits(x.h, 0x100, 16) < 14
    ensures x.Narrow? && !IsHighPc(x.h) && !IsBxPc(x.h) && !IsNarrowLdr(x.h) && !IsNarrowB(x.h) && !IsNarrowCond(x.h) && !IsNarrowAdr(x.h) ==> IsPlain(x)
    ensures x.Wide? && IsBlx(x.h1, x.h2) ==> x.h2 % 2 == 0
    ensures x.Wide? && !IsBCond(x.h1, x.h2) && !IsB(x.h1, x.h2) && !IsBl(x.h1, x.h2) && !IsBlx(x.h1, x.h2) && !IsLdrLiteral(x.h1) ==> IsPlain(x)
  {
  }

  /** How a run of the original block ends, and at which instruction; falling off the end
      is a jump to the instruction after the block. */
  datatype Exit = Exit(outcome: Outcome, at: nat)

  ghost function RunBlock(e0: Env, block: seq<Code>, origin: U32, i: nat, c: Core): (r: Exit)
    requires i <= |block|
    ensures r.at <= |block| && (r.at == |block| ==> r.outcome.Goes?)
    decreases |block| - i
  {
    if i == |block| then Exit(Goes(c, Odd(Addr(block, origin, i))), i)
    else
      var o := Exec(e0, Decode(block[i]), Addr(block, origin, i), c);
      if o.Next? then RunBlock(e0, block, origin, i + 1, o.core) else Exit(o, i)
  }

  /** Every instruction met on the run is one that relocation preserves there. */
  ghost predicate RunOk(e0: Env, e1: Env, block: seq<Code>, origin: U32, size: int, i: nat, c: Core)
    requires i <= |block|
    decreases |block| - i
  {
    i < |block| ==>
      && StepOk(e0, e1, Stale(e0.isa, block, i), block[i], origin, size, Addr(block, origin, i), c)
      && var o := Exec(e0, Decode(block[i]), Addr(block, origin, i), c);
         o.Next? ==> RunOk(e0, e1, block, origin, size, i + 1, o.core)
  }

  /** `RunBlock` is what the original machine does: after `n` steps it is at the exit. */
  lemma {:induction false} OriginalRuns(e0: Env, block: seq<Code>, origin: U32, i: nat, c: Core) returns (n: nat)
    requires InPlace(e0, block, origin) && i <= |block|
    ensures var x, m := RunBlock(e0, block, origin, i, c), Run(e0, n, Machine(Addr(block, origin, i), true, c));
            && m.pc == Addr(block, origin, x.at) && m.thumb
            && (x.at < |block| ==> Exec(e0, Decode(block[x.at]), m.pc, m.core) == x.outcome)
            && (x.at == |block| ==> x.outcome == Goes(m.core, Odd(m.pc)))
    decreases |block| - i
  {
    hide Exec, Decode, At, Halves, Odd, Step, Run, Fetches, Land, InPlace;
    var m := Machine(Addr(block, origin, i), true, c);
    RunZero(e0, m);
    n := 0;
    if i < |block| {
      var o := Exec(e0, Decode(block[i]), Addr(block, origin, i), c);
      if o.Next? {
        OneStep(e0, m);
        OriginalStep(e0, block, origin, i, c);
        n := OriginalRuns(e0, block, origin, i + 1, o.core);
        RunAdd(e0, 1, n, m);
        n := 1 + n;
      }
    }
  }

  lemma RunZero(e: Env, m: Machine)
    ensures Run(e, 0, m) == m
  {
  }

  lemma OriginalStep(e0: Env, block: seq<Code>, origin: U32, i: nat, c: Core)
    requires InPlace(e0, block, origin) && i < |block|
    ensures var pc, m := Addr(block, origin, i), Machine(Addr(block, origin, i), true, c);
            var o := Exec(e0, Decode(block[i]), pc, c);
            && Step(e0, m) == Land(o, pc, Size(block[i]), m)
            && (o.Next? ==> Land(o, pc, Size(block[i]), m) == Machine(Addr(block, origin, i + 1), true, o.core))
  {
    hide Exec, Decode, At, Fetches, Wrap, InPlace, Fetch;
    InPlaceAt(e0, block, origin, i);
    NextAt(origin, Halves(block, i), Size(block[i]) / 2);
  }

  /** Whole runs: started at any instruction of the block from states that differ in stale
      registers only, the relocated code leaves for the same address in the same state, with
      the same registers, flags and memory, stale registers aside; after a call, returning
      leads to the next relocated instruction. */
  lemma {:induction false} RelocationPreservesRuns(e0: Env, e1: Env, block: seq<Code>, origin: U32, size: int, base: U32, i: nat, c: Core, d: Core)
    returns (n: nat)
    requires Setting(e0, e1, block, origin, size, base) && i <= |block|
    requires EqExcept(c, d, Stale(e0.isa, block, i)) && RunOk(e0, e1, block, origin, size, i, c)
    ensures var x := RunBlock(e0, block, origin, i, c);
            && x.at <= |block| && (x.outcome.Calls? ==> x.at < |block|)
            && Matches(e1, x.outcome, Run(e1, n, Here(base, Pos(block, origin, i), d)),
                       if x.at < |block| then At(base, Pos(block, origin, x.at + 1)) else 0,
                       Stale(e0.isa, block, if x.at < |block| then x.at + 1 else x.at))
    decreases |block| - i
  {
    hide Exec, Decode, StepOk, Stale, Chunk, Layout, Relocatable, InReach, Pos, At, Holds, Respects, EqExcept, Run, Addr,
         Odd, ReturnsTo;
    if i == |block| {
      n := TailRuns(e1, block, origin, size, base, d);
    } else {
      n := StepSimulated(e0, e1, block, origin, size, base, i, c, d);
      var o := Exec(e0, Decode(block[i]), Addr(block, origin, i), c);
      if o.Next? {
        var m := Run(e1, n, Here(base, Pos(block, origin, i), d));
        var n' := RelocationPreservesRuns(e0, e1, block, origin, size, base, i + 1, o.core, m.core);
        RunAdd(e1, n, n', Here(base, Pos(block, origin, i), d));
        n := n + n';
      }
    }
  }

  /** Coming back from a call in the block: the original returns to the instruction after
      it, the relocated code to the address `a` that the call linked to.  From states that
      differ in the link register and what was stale before, the rest of the block runs
      alike, as long as it restores a register before it reads it. */
  lemma ResumesAfterCall(e0: Env, e1: Env, block: seq<Code>, origin: U32, size: int, base: U32, i: nat, c: Core, d: Core, c': Core, d': Core)
    returns (n: nat, a: U32, n': nat)
    requires Before(e0, e1, block, origin, size, base, i, c, d) && Exec(e0, Decode(block[i]), Addr(block, origin, i), c).Calls?
    requires EqExcept(c', d', Stale(e0.isa, block, i + 1)) && RunOk(e0, e1, block, origin, size, i + 1, c')
    ensures LR in Stale(e0.isa, block, i + 1)
    ensures var call := Run(e1, n, Here(base, Pos(block, origin, i), d));
            var x := RunBlock(e0, block, origin, i + 1, c');
            && call == Go(Exec(e0, Decode(block[i]), Addr(block, origin, i), c).target, call.core)
            && Get(call.core, LR) == Odd(a)
            && Matches(e1, x.outcome, Run(e1, n', Machine(a, true, d')),
                       if x.at < |block| then At(base, Pos(block, origin, x.at + 1)) else 0,
                       Stale(e0.isa, block, if x.at < |block| then x.at + 1 else x.at))
  {
    hide Exec, Decode, StepOk, Stale, Chunk, Layout, Relocatable, InReach, Pos, At, Holds, Respects, EqExcept, Run, Addr, Odd, RunBlock,
         RunOk, Get;
    n := StepSimulated(e0, e1, block, origin, size, base, i, c, d);
    var call, next := Run(e1, n, Here(base, Pos(block, origin, i), d)), At(base, Pos(block, origin, i + 1));
    a :| Get(call.core, LR) == Odd(a) && ReturnsTo(e1, a, next);
    assert Reaches(e1, Machine(a, true, d'), Machine(next, true, d'));
    var k: nat :| Run(e1, k, Machine(a, true, d')) == Machine(next, true, d');
    var m := RelocationPreservesRuns(e0, e1, block, origin, size, base, i + 1, c', d');
    RunAdd(e1, k, m, Machine(a, true, d'));
    n' := k + m;
    StaleStep(e0.isa, block, i);
    CallsAreStale(e0, Decode(block[i]), Addr(block, origin, i), c, Stale(e0.isa, block, i));
  }

  lemma CallsAreStale(e: Env, i: Insn, pc: U32, c: Core, stale: set<int>)
    requires Exec(e, i, pc, c).Calls?
    ensures LR in StaleAfter(e.isa, stale, i)
  {
  }

  /** The closing branch. */
  lemma TailRuns(e1: Env, block: seq<Code>, origin: U32, size: int, base: U32, d: Core) returns (n: nat)
    requires Relocatable(block) && InReach(block, origin) && Holds(e1, base, Chunk(block, origin, size, base))
    requires origin % 2 == 0 && base % 4 == 0
    ensures Run(e1, n, Here(base, Pos(block, origin, |block|), d)) == Go(Odd(Addr(block, origin, |block|)), d)
  {
    hide Chunk, Relocatable, InReach, Pos, At, Holds, Run, Addr, Odd, Wrap, LiteralCode, Lo, Hi, Step, Go;
    var x := TailInChunk(block, origin, size, base);
    var pos, ch, a := Pos(block, origin, |block|), Chunk(block, origin, size, base), Addr(block, origin, |block|);
    AddrEven(block, origin, |block|);
    PlusOne(a);
    RunLiteral(e1, base, ch, x, x + 2, PC, Odd(a), d);
    n := 1;
    OneStep(e1, Here(base, x, d));
    if x > pos {
      NopRuns(e1, base, ch, pos, d);
      OneStep(e1, Here(base, pos, d));
      RunAdd(e1, 1, 1, Here(base, pos, d));
      n := 2;
    }
  }

  lemma PlusOne(a: U32)
    requires a % 2 == 0
    ensures Wrap(a + 1) == Odd(a)
  {
  }

  /** The loop takes instructions as they lie in memory. */
  lemma {:induction false} TakenInPlace(src: int -> Half, origin: U32, size: int, k: nat, changed: U32, i: nat)
    requires i < |Take(src, origin, size, k, changed)|
    ensures var block := Take(src, origin, size, k, changed);
            block[i] == CodeAt(src, k + Halves(block, i))
    decreases size - 2 * k
  {
    hide CodeAt, ChangedBy, At;
    TakeStep(src, origin, size, k, changed);
    var block := Take(src, origin, size, k, changed);
    if i > 0 {
      var x := CodeAt(src, k);
      var k', c := k + Size(x) / 2, ChangedBy(x, At(origin, k), changed);
      TakenInPlace(src, origin, size, k', c, i - 1);
      HalvesShift(block, i);
    }
  }

  lemma {:induction false} HalvesShift(block: seq<Code>, i: nat)
    requires 0 < i <= |block|
    ensures Halves(block, i) == Size(block[0]) / 2 + Halves(block[1..], i - 1)
  {
    if i > 1 { HalvesShift(block, i - 1); }
  }
}
