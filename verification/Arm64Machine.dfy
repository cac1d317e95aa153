/** A small A64 machine: the meaning of the instructions that the relocator reads
    and of the ones it writes (sections C4.1 and C6.2 of the Arm Architecture
    Reference Manual, DDI 0487).  Every other instruction is uninterpreted: its
    effect is a parameter of the machine.
 */
module Arm64Machine {
  import opened Arithmetic
  import opened MachineWords

  type Word = U32

  const X17 := 17
  const LR := 30
  const ZR := 31

  /** What an instruction may read or write.  `memory(a)` is the 32-bit value that a
      load at `a` returns; `rest` stands for SP, the SIMD registers and system state. */
  datatype Core = Core(regs: Regs, flags: Flags, memory: U64 -> Word, rest: int)

  /** X0 to X30. */
  type Regs = r: seq<U64> | |r| == 31 witness seq(31, _ => 0)

  datatype Flags = Flags(n: bool, z: bool, c: bool, v: bool)

  datatype Insn =
    | LoadLiteral(wide: bool, rt: int, offset: int)
    | PcAddress(page: bool, rd: int, offset: int)
    | Branch(link: bool, offset: int)
    | TestBranch(ifSet: bool, rt: int, bit: nat, offset: int)
    | CompareBranch(ifNonZero: bool, wide: bool, rt: int, offset: int)
    | CondBranch(cond: int, offset: int)
    | MoveZero(rd: int, half: int, unit: int)
    | MoveKeep(rd: int, half: int, unit: int)
    | LoadDouble(rt: int, rn: int, offset: int)
    | AddImmediate(rd: int, rn: int, value: int)
    | BranchRegister(link: bool, rn: int)
    | Other(word: Word)
    | NotModelled

  datatype Outcome =
    | Next(core: Core)                 // falls through
    | Jump(core: Core, target: U64)    // goes to target
    | Call(core: Core, target: U64)    // goes to target; the link register gets the next address
    | Unmodelled

  /** The effect of an uninterpreted instruction. */
  datatype Effect = Effect(core: Core, jumps: bool, target: U64)

  /** The meaning of the uninterpreted instructions, the general registers that they may
      read, those that they always overwrite, and which of them read or record the PC. */
  datatype Isa = Isa(effect: (Word, Core) -> Effect, uses: Word -> set<int>, defines: Word -> set<int>, readsPc: Word -> bool)

  /** The code area of a machine. */
  datatype Env = Env(text: map<int, Word>, isa: Isa)

  datatype Machine = Machine(pc: U64, core: Core)

  // ---------------------------------------------------------------- fields

  function Wrap(x: int): U64 { x % TWO64 }

  /** The `n`-valued field of `w` whose lowest bit weighs `lo`. */
  function Bits(w: int, lo: int, n: int): int
    requires lo > 0 && n > 0
  {
    (w / lo) % n
  }

  function Signed(field: int, n: int): int {
    if 2 * field >= n then field - n else field
  }

  function Rt(w: Word): int { w % 32 }
  function Rn(w: Word): int { Bits(w, 0x20, 32) }
  function Imm14(w: Word): int { 4 * Signed(Bits(w, 0x20, 0x4000), 0x4000) }
  function Imm19(w: Word): int { 4 * Signed(Bits(w, 0x20, 0x80000), 0x80000) }
  function Imm26(w: Word): int { 4 * Signed(w % 0x4000000, 0x4000000) }
  function Imm21(w: Word): int { Signed(4 * Bits(w, 0x20, 0x80000) + Bits(w, 0x20000000, 4), 0x200000) }
  function Half(w: Word): int { Bits(w, 0x20, 0x10000) }
  function Unit(w: Word): int { UnitOf(Bits(w, 0x200000, 4)) }

  /** The weight of halfword `hw`. */
  function UnitOf(hw: int): int {
    if hw == 0 then 1 else if hw == 1 then 0x10000 else if hw == 2 then 0x1_0000_0000 else 0x1_0000_0000_0000
  }

  // ---------------------------------------------------------------- decoding

  predicate LiteralClass(w: Word) { Bits(w, 0x8000000, 8) == 3 && Bits(w, 0x1000000, 4) == 0 }
  predicate PcAddressClass(w: Word) { Bits(w, 0x1000000, 32) == 16 }
  predicate BranchClass(w: Word) { Bits(w, 0x4000000, 32) == 5 }
  predicate TestClass(w: Word) { Bits(w, 0x2000000, 64) == 27 }
  predicate CompareClass(w: Word) { Bits(w, 0x2000000, 64) == 26 }
  predicate CondClass(w: Word) { w / 0x2000000 == 42 }

  /** None of the PC-relative classes. */
  predicate PlainClass(w: Word) {
    !LiteralClass(w) && !PcAddressClass(w) && !BranchClass(w) && !TestClass(w) && !CompareClass(w) && !CondClass(w)
  }

  function DecodePlain(w: Word): Insn {
    if w / 0x800000 == 0x1A5 then MoveZero(Rt(w), Half(w), Unit(w))
    else if w / 0x800000 == 0x1E5 then MoveKeep(Rt(w), Half(w), Unit(w))
    else if w / 0x400000 == 0x3E5 && Rn(w) != ZR then LoadDouble(Rt(w), Rn(w), 8 * Bits(w, 0x400, 0x1000))
    else if w / 0x400000 == 0x244 && Rn(w) != ZR && Rt(w) != ZR then AddImmediate(Rt(w), Rn(w), Bits(w, 0x400, 0x1000))
    else if w / 0x400 == 0x3587C0 && w % 32 == 0 then BranchRegister(false, Rn(w))
    else if w / 0x400 == 0x358FC0 && w % 32 == 0 then BranchRegister(true, Rn(w))
    else Other(w)
  }

  function Decode(w: Word): Insn {
    if LiteralClass(w) then
      // opc 00 and 01 of the integer form; SIMD loads, LDRSW and PRFM are not modelled
      if w / 0x80000000 == 0 && Bits(w, 0x4000000, 2) == 0 then LoadLiteral(Bits(w, 0x40000000, 2) == 1, Rt(w), Imm19(w))
      else NotModelled
    else if PcAddressClass(w) then
      if w / 0x80000000 == 0 then PcAddress(false, Rt(w), Imm21(w)) else PcAddress(true, Rt(w), 4096 * Imm21(w))
    else if BranchClass(w) then Branch(w / 0x80000000 == 1, Imm26(w))
    else if TestClass(w) then
      TestBranch(Bits(w, 0x1000000, 2) == 1, Rt(w), 32 * (w / 0x80000000) + Bits(w, 0x80000, 32), Imm14(w))
    else if CompareClass(w) then CompareBranch(Bits(w, 0x1000000, 2) == 1, w / 0x80000000 == 1, Rt(w), Imm19(w))
    else if CondClass(w) then
      if Bits(w, 0x1000000, 2) == 0 then CondBranch(w % 16, Imm19(w)) else NotModelled
    else DecodePlain(w)
  }

  // ---------------------------------------------------------------- execution

  function Get(c: Core, r: int): U64 {
    if 0 <= r < ZR then c.regs[r] else 0
  }

  function Set(c: Core, r: int, v: U64): Core {
    if 0 <= r < ZR then c.(regs := c.regs[r := v]) else c
  }

  /** A load sees the code area of the machine where there is one, and data elsewhere. */
  function Read32(e: Env, c: Core, a: U64): Word {
    if a in e.text then e.text[a] else c.memory(a)
  }

  function Read64(e: Env, c: Core, a: U64): U64 {
    Read32(e, c, a) + TWO32 * Read32(e, c, Wrap(a + 4))
  }

  predicate TestBit(v: U64, bit: nat) { (v / Pow2(bit)) % 2 == 1 }

  /** Condition codes of section C1.2.4; 14 and 15 both mean "always". */
  predicate CondHolds(cond: int, f: Flags) {
    if cond >= 14 then true
    else (cond % 2 == 0) == CondBase(cond / 2, f)
  }

  predicate CondBase(k: int, f: Flags) {
    if k == 0 then f.z
    else if k == 1 then f.c
    else if k == 2 then f.n
    else if k == 3 then f.v
    else if k == 4 then f.c && !f.z
    else if k == 5 then f.n == f.v
    else f.n == f.v && !f.z
  }

  function Take(taken: bool, c: Core, target: U64): Outcome {
    if taken then Jump(c, target) else Next(c)
  }

  /** MOVK: replace the halfword of weight `unit`. */
  function Keep(v: U64, half: int, unit: int): U64 {
    if unit > 0 then Wrap(v + (half - Bits(v, unit, 0x10000)) * unit) else v
  }

  function Exec(e: Env, i: Insn, pc: U64, c: Core): Outcome {
    match i
    case LoadLiteral(wide, rt, off) =>
      var a := Wrap(pc + off);
      Next(Set(c, rt, if wide then Read64(e, c, a) else Read32(e, c, a)))
    case PcAddress(page, rd, off) => Next(Set(c, rd, Wrap((if page then pc - pc % 4096 else pc) + off)))
    case Branch(link, off) => if link then Call(c, Wrap(pc + off)) else Jump(c, Wrap(pc + off))
    case TestBranch(ifSet, rt, bit, off) => Take(TestBit(Get(c, rt), bit) == ifSet, c, Wrap(pc + off))
    case CompareBranch(ifNonZero, wide, rt, off) =>
      Take((Get(c, rt) % (if wide then TWO64 else TWO32) != 0) == ifNonZero, c, Wrap(pc + off))
    case CondBranch(cond, off) => Take(CondHolds(cond, c.flags), c, Wrap(pc + off))
    case MoveZero(rd, half, unit) => Next(Set(c, rd, Wrap(half * unit)))
    case MoveKeep(rd, half, unit) => Next(Set(c, rd, Keep(Get(c, rd), half, unit)))
    case LoadDouble(rt, rn, off) => Next(Set(c, rt, Read64(e, c, Wrap(Get(c, rn) + off))))
    case AddImmediate(rd, rn, v) => Next(Set(c, rd, Wrap(Get(c, rn) + v)))
    case BranchRegister(link, rn) => if link then Call(c, Get(c, rn)) else Jump(c, Get(c, rn))
    case Other(w) =>
      if e.isa.readsPc(w) then Unmodelled
      else var f := e.isa.effect(w, c); Take(f.jumps, f.core, f.target)
    case NotModelled => Unmodelled
  }

  /** One step: fetch, decode, execute.  A machine that has left its code area, or
      meets an instruction that is not modelled, stays where it is. */
  function Step(e: Env, m: Machine): Machine {
    if m.pc !in e.text then m
    else
      match Exec(e, Decode(e.text[m.pc]), m.pc, m.core)
      case Next(c) => Machine(Wrap(m.pc + 4), c)
      case Jump(c, t) => Machine(t, c)
      case Call(c, t) => Machine(t, Set(c, LR, Wrap(m.pc + 4)))
      case Unmodelled => m
  }

  function Run(e: Env, n: nat, m: Machine): Machine {
    if n == 0 then m else Run(e, n - 1, Step(e, m))
  }

  lemma {:induction false} RunAdd(e: Env, a: nat, b: nat, m: Machine)
    ensures Run(e, a + b, m) == Run(e, b, Run(e, a, m))
    decreases a
  {
    if a > 0 { RunAdd(e, a - 1, b, Step(e, m)); }
  }

  // ---------------------------------------------------------------- placing code

  /** Address of the `k`-th word of code placed at `base`. */
  function At(base: U64, k: int): U64 { Wrap(base + 4 * k) }

  ghost predicate Holds(e: Env, base: U64, words: seq<Word>) {
    forall k {:trigger words[k]} :: 0 <= k < |words| ==> At(base, k) in e.text && e.text[At(base, k)] == words[k]
  }

  // ---------------------------------------------------------------- comparing states

  /** Equal but for the registers in `ignored`. */
  ghost predicate EqExcept(c: Core, d: Core, ignored: set<int>) {
    && c.flags == d.flags && c.memory == d.memory && c.rest == d.rest
    && forall r :: r !in ignored ==> Get(c, r) == Get(d, r)
  }

  /** An uninterpreted instruction does the same from two states that differ only in
      registers that it does not read, and what it overwrites is then equal. */
  ghost predicate Respects(isa: Isa) {
    forall w: Word, c: Core, d: Core, ignored: set<int>
      {:trigger isa.effect(w, c), isa.effect(w, d), EqExcept(c, d, ignored)} ::
      EqExcept(c, d, ignored) && ignored !! isa.uses(w) ==>
        var f, g := isa.effect(w, c), isa.effect(w, d);
        EqExcept(f.core, g.core, ignored - isa.defines(w)) && f.jumps == g.jumps && f.target == g.target
  }
}
