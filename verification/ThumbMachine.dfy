/** A small T32 machine: the meaning of the instructions that the Thumb relocator reads
    and of the ones it writes (sections F3.1 and F5.1 of the Arm Architecture Reference
    Manual, DDI 0487).  Every other instruction is uninterpreted: its effect is a
    parameter of the machine.
 */
module ThumbMachine {
  import opened MachineWords

  type Half = h: int | 0 <= h < 0x10000

  const IP := 12
  const LR := 14
  const PC := 15

  datatype Flags = Flags(n: bool, z: bool, c: bool, v: bool)

  /** R0 to R14. */
  type Regs = r: seq<U32> | |r| == 15 witness seq(15, _ => 0)

  /** What an instruction may read or write; `memory(a)` is the word that a load at `a` returns. */
  datatype Core = Core(regs: Regs, flags: Flags, memory: U32 -> U32, rest: int)

  /** A 16-bit or a 32-bit instruction, as fetched. */
  datatype Code = Narrow(h: Half) | Wide(h1: Half, h2: Half)

  datatype Insn =
    | Jump(offset: int)
    | CondJump(cond: int, offset: int)
    | CompareJump(ifNonZero: bool, rn: int, offset: int)
    | Adr(rd: int, offset: int)
    | Call(exchange: bool, offset: int)       // BL, or BLX when it changes to A32
    | CallRegister(rm: int)
    | LoadLiteral(rt: int, offset: int)
    | Load(rt: int, rn: int, offset: int)
    | ExchangePc                              // BX PC, which changes to A32
    | HighAdd(rd: int, rm: int)
    | HighCompare(rd: int, rm: int)
    | HighMove(rd: int, rm: int)
    | Nop
    | Other(code: Code)
    | NotModelled

  datatype Outcome =
    | Next(core: Core)               // falls through
    | Goes(core: Core, target: U32)  // goes to target, whose lowest bit selects Thumb state
    | Calls(core: Core, target: U32) // the same, and the link register gets the next address
    | Unmodelled

  datatype Effect = Effect(core: Core, jumps: bool, target: U32)

  /** The meaning of the uninterpreted instructions, the registers that they may read, those
      that they always overwrite, and which of them read the PC. */
  datatype Isa = Isa(effect: (Code, Core) -> Effect, uses: Code -> set<int>, defines: Code -> set<int>, readsPc: Code -> bool)

  /** The code area of a machine, by byte address. */
  datatype Env = Env(text: map<int, Half>, isa: Isa)

  datatype Machine = Machine(pc: U32, thumb: bool, core: Core)

  // ---------------------------------------------------------------- fields

  function Wrap(x: int): U32 { x % TWO32 }

  /** `ALIGN_FLOOR(a, 4)`. */
  function Align4(a: U32): U32 { a - a % 4 }

  /** The address with its Thumb bit set. */
  function Odd(a: U32): U32 { a - a % 2 + 1 }

  /** The `n`-valued field of `w` whose lowest bit weighs `lo`. */
  function Bits(w: int, lo: int, n: int): int
    requires lo > 0 && n > 0
  {
    (w / lo) % n
  }

  function Signed(field: int, n: int): int {
    if 2 * field >= n then field - n else field
  }

  /** `is_thumb2`. */
  predicate IsThumb2(h: Half) { h / 0x2000 == 7 && Bits(h, 0x800, 4) != 0 }

  /** Branches and miscellaneous control. */
  predicate BranchClass(h1: Half, h2: Half) { h1 / 0x800 == 30 && h2 / 0x8000 == 1 }
  function Op3(h2: Half): int { 2 * Bits(h2, 0x4000, 2) + Bits(h2, 0x1000, 2) }

  predicate IsBCond(h1: Half, h2: Half) { BranchClass(h1, h2) && Op3(h2) == 0 && Bits(h1, 0x80, 8) != 7 }
  predicate IsB(h1: Half, h2: Half) { BranchClass(h1, h2) && Op3(h2) == 1 }
  predicate IsBlx(h1: Half, h2: Half) { BranchClass(h1, h2) && Op3(h2) == 2 }
  predicate IsBl(h1: Half, h2: Half) { BranchClass(h1, h2) && Op3(h2) == 3 }
  predicate IsLdrLiteral(h1: Half) { h1 == 0xf85f || h1 == 0xf8df }

  /** ADR, which adds (T3) or subtracts (T2). */
  predicate IsAdr(h1: Half, h2: Half) {
    var op := h1 - Bits(h1, 0x400, 2) * 0x400;
    (op == 0xf20f || op == 0xf2af) && h2 < 0x8000
  }

  /** The offset of B (T4) and BL: S, I1, I2, imm10 and imm11. */
  function BranchOffset(h1: Half, h2: Half): int {
    var s := Bits(h1, 0x400, 2);
    var i1 := if Bits(h2, 0x2000, 2) == s then 1 else 0;
    var i2 := if Bits(h2, 0x800, 2) == s then 1 else 0;
    -s * 0x1000000 + i1 * 0x800000 + i2 * 0x400000 + (h1 % 0x400) * 0x1000 + (h2 % 0x800) * 2
  }

  /** The offset of BLX, a multiple of four. */
  function BlxOffset(h1: Half, h2: Half): int {
    BranchOffset(h1, h2) - (h2 % 2) * 2
  }

  /** The offset of B (T3): S, J2, J1, imm6 and imm11. */
  function CondOffset(h1: Half, h2: Half): int {
    -Bits(h1, 0x400, 2) * 0x100000 + Bits(h2, 0x800, 2) * 0x80000 + Bits(h2, 0x2000, 2) * 0x40000
    + (h1 % 0x40) * 0x1000 + (h2 % 0x800) * 2
  }

  function LiteralOffset(h1: Half, h2: Half): int {
    if h1 == 0xf8df then h2 % 0x1000 else -(h2 % 0x1000)
  }

  function AdrRd(h2: Half): (rd: int)
    ensures 0 <= rd < 16
  {
    Bits(h2, 0x100, 16)
  }

  /** The offset of the wide ADR, subtracted when bit 7 is set. */
  function AdrOffset(h1: Half, h2: Half): int {
    var imm := h2 % 0x100 + Bits(h2, 0x1000, 8) * 0x100 + Bits(h1, 0x400, 2) * 0x800;
    if Bits(h1, 0x80, 2) == 0 then imm else -imm
  }

  // ---------------------------------------------------------------- decoding

  predicate IsHigh(h: Half) { h / 0x400 == 17 }
  predicate IsNarrowLdr(h: Half) { h / 0x800 == 9 }
  predicate IsNarrowAdr(h: Half) { h / 0x800 == 20 }
  predicate IsNarrowCond(h: Half) { h / 0x1000 == 13 }
  predicate IsCompareBranch(h: Half) { h / 0x1000 == 11 && Bits(h, 0x400, 2) == 0 && Bits(h, 0x100, 2) == 1 }
  predicate IsNarrowB(h: Half) { h / 0x800 == 28 }

  /** The offset of CBZ and CBNZ: i, imm5. */
  function CompareOffset(h: Half): int { Bits(h, 0x200, 2) * 0x40 + Bits(h, 8, 32) * 2 }

  function HighRd(h: Half): int { 8 * Bits(h, 0x80, 2) + h % 8 }
  function HighRm(h: Half): int { Bits(h, 8, 16) }

  function DecodeHigh(h: Half): Insn {
    var op, rd, rm := Bits(h, 0x100, 4), HighRd(h), HighRm(h);
    if op == 0 then HighAdd(rd, rm)
    else if op == 1 then HighCompare(rd, rm)
    else if op == 2 then HighMove(rd, rm)
    else if Bits(h, 0x80, 2) == 1 then if rm == PC then NotModelled else CallRegister(rm)
    else if rm == PC then ExchangePc
    else Other(Narrow(h))
  }

  function DecodeNarrow(h: Half): Insn {
    if h == 0xbf00 then Nop
    else if h / 0x100 == 0xbf && h % 16 != 0 then NotModelled  // IT
    else if IsHigh(h) then DecodeHigh(h)
    else if IsNarrowLdr(h) then LoadLiteral(Bits(h, 0x100, 8), 4 * (h % 0x100))
    else if IsNarrowCond(h) && Bits(h, 0x100, 16) < 14 then CondJump(Bits(h, 0x100, 16), 2 * Signed(h % 0x100, 0x100))
    else if IsNarrowCond(h) then NotModelled                   // UDF and SVC
    else if IsNarrowAdr(h) then Adr(Bits(h, 0x100, 8), 4 * (h % 0x100))
    else if IsCompareBranch(h) then CompareJump(Bits(h, 0x800, 2) == 1, h % 8, CompareOffset(h))
    else if IsNarrowB(h) then Jump(2 * Signed(h % 0x800, 0x800))
    else Other(Narrow(h))
  }

  function DecodeWide(h1: Half, h2: Half): Insn {
    if IsB(h1, h2) then Jump(BranchOffset(h1, h2))
    else if IsBl(h1, h2) then Call(false, BranchOffset(h1, h2))
    else if IsBlx(h1, h2) then if h2 % 2 == 0 then Call(true, BlxOffset(h1, h2)) else NotModelled
    else if IsBCond(h1, h2) then CondJump(Bits(h1, 0x40, 16), CondOffset(h1, h2))
    else if IsLdrLiteral(h1) then LoadLiteral(h2 / 0x1000, LiteralOffset(h1, h2))
    else if h1 / 0x10 == 0xf8d then Load(h2 / 0x1000, h1 % 16, h2 % 0x1000)
    else if IsAdr(h1, h2) then Adr(AdrRd(h2), AdrOffset(h1, h2))
    else Other(Wide(h1, h2))
  }

  function Decode(x: Code): Insn {
    if x.Narrow? then DecodeNarrow(x.h) else DecodeWide(x.h1, x.h2)
  }

  // ---------------------------------------------------------------- execution

  function Get(c: Core, r: int): U32 {
    if 0 <= r < PC then c.regs[r] else 0
  }

  function Set(c: Core, r: int, v: U32): Core {
    if 0 <= r < PC then c.(regs := c.regs[r := v]) else c
  }

  /** Register `r` as an operand of the instruction at `pc`. */
  function Operand(c: Core, r: int, pc: U32): U32 {
    if r == PC then Wrap(pc + 4) else Get(c, r)
  }

  /** A load sees the code area of the machine where there is one, and data elsewhere. */
  function Read32(e: Env, c: Core, a: U32): U32 {
    if a in e.text && Wrap(a + 2) in e.text then e.text[a] + 0x10000 * e.text[Wrap(a + 2)] else c.memory(a)
  }

  predicate CondHolds(cond: int, f: Flags) {
    (cond % 2 == 0) ==
      var k := cond / 2;
      if k == 0 then f.z
      else if k == 1 then f.c
      else if k == 2 then f.n
      else if k == 3 then f.v
      else if k == 4 then f.c && !f.z
      else if k == 5 then f.n == f.v
      else f.n == f.v && !f.z
  }

  /** The flags of the 32-bit subtraction `a - b`. */
  function Compare(a: U32, b: U32): Flags {
    var d := Wrap(a - b);
    var sign := d >= 0x80000000;
    Flags(sign, d == 0, a >= b, (a >= 0x80000000) != (b >= 0x80000000) && (a >= 0x80000000) != sign)
  }

  /** A load into PC is a branch that may change state. */
  function Loaded(c: Core, rt: int, v: U32): Outcome {
    if rt == PC then Goes(c, v) else Next(Set(c, rt, v))
  }

  /** A result written to PC is a branch within Thumb state. */
  function Written(c: Core, rd: int, v: U32): Outcome {
    if rd == PC then Goes(c, Odd(v)) else Next(Set(c, rd, v))
  }

  function Exec(e: Env, i: Insn, pc: U32, c: Core): Outcome {
    match i
    case Jump(off) => Goes(c, Odd(Wrap(pc + 4 + off)))
    case CondJump(cond, off) => if CondHolds(cond, c.flags) then Goes(c, Odd(Wrap(pc + 4 + off))) else Next(c)
    case CompareJump(ifNonZero, rn, off) =>
      if (Get(c, rn) != 0) == ifNonZero then Goes(c, Odd(Wrap(pc + 4 + off))) else Next(c)
    case Adr(rd, off) => Next(Set(c, rd, Wrap(Align4(Wrap(pc + 4)) + off)))
    case Call(exchange, off) =>
      Calls(c, if exchange then Wrap(Align4(Wrap(pc + 4)) + off) else Odd(Wrap(pc + 4 + off)))
    case CallRegister(rm) => Calls(c, Get(c, rm))
    case ExchangePc => Goes(c, Wrap(pc + 4))
    case LoadLiteral(rt, off) => Loaded(c, rt, Read32(e, c, Wrap(Align4(Wrap(pc + 4)) + off)))
    case Load(rt, rn, off) => Loaded(c, rt, Read32(e, c, Wrap(Get(c, rn) + off)))
    case HighAdd(rd, rm) => Written(c, rd, Wrap(Operand(c, rd, pc) + Operand(c, rm, pc)))
    case HighCompare(rd, rm) => Next(c.(flags := Compare(Operand(c, rd, pc), Operand(c, rm, pc))))
    case HighMove(rd, rm) => Written(c, rd, Operand(c, rm, pc))
    case Nop => Next(c)
    case Other(x) =>
      if e.isa.readsPc(x) then Unmodelled
      else var f := e.isa.effect(x, c); if f.jumps then Goes(f.core, f.target) else Next(f.core)
    case NotModelled => Unmodelled
  }

  /** Where a branch to an interworking address leads. */
  function Go(t: U32, c: Core): Machine {
    Machine(t - t % 2, t % 2 == 1, c)
  }

  function Size(x: Code): int { if x.Narrow? then 2 else 4 }

  /** The instruction at `pc`, if all of it is in the code area. */
  predicate Fetches(e: Env, pc: U32) {
    pc in e.text && (IsThumb2(e.text[pc]) ==> Wrap(pc + 2) in e.text)
  }

  function Fetch(e: Env, pc: U32): Code
    requires Fetches(e, pc)
  {
    if IsThumb2(e.text[pc]) then Wide(e.text[pc], e.text[Wrap(pc + 2)]) else Narrow(e.text[pc])
  }

  /** Where an instruction of `size` bytes at `pc` with outcome `o` leads. */
  function Land(o: Outcome, pc: U32, size: int, m: Machine): Machine {
    match o
    case Next(c) => Machine(Wrap(pc + size), true, c)
    case Goes(c, t) => Go(t, c)
    case Calls(c, t) => Go(t, Set(c, LR, Odd(Wrap(pc + size))))
    case Unmodelled => m
  }

  /** One step.  A machine in A32 state, outside its code area, or at an instruction
      that is not modelled stays where it is. */
  function Step(e: Env, m: Machine): Machine {
    if !m.thumb || !Fetches(e, m.pc) then m
    else
      var x := Fetch(e, m.pc);
      Land(Exec(e, Decode(x), m.pc, m.core), m.pc, Size(x), m)
  }

  function Run(e: Env, n: nat, m: Machine): Machine {
    if n == 0 then m else Run(e, n - 1, Step(e, m))
  }

  lemma {:induction false} RunAdd(e: Env, a: nat, b: nat, m: Machine)
    ensures Run(e, a + b, m) == Run(e, b, Run(e, a, m))
    decreases a
  {
    if a > 0 { RunAdd(e, a - 1, b, Step(e, m)); }
  }

  // ---------------------------------------------------------------- placing code

  /** Address of the `k`-th halfword of code placed at `base`. */
  function At(base: U32, k: int): U32 { Wrap(base + 2 * k) }

  ghost predicate Holds(e: Env, base: U32, code: seq<Half>) {
    forall k {:trigger code[k]} :: 0 <= k < |code| ==> At(base, k) in e.text && e.text[At(base, k)] == code[k]
  }

  // ---------------------------------------------------------------- comparing states

  /** Equal but for the registers in `ignored`. */
  ghost predicate EqExcept(c: Core, d: Core, ignored: set<int>) {
    && c.flags == d.flags && c.memory == d.memory && c.rest == d.rest
    && forall r :: r !in ignored ==> Get(c, r) == Get(d, r)
  }

  /** An uninterpreted instruction does the same from two states that differ only in
      registers that it does not read, and what it overwrites is then equal. */
  ghost predicate Respects(isa: Isa) {
    forall x: Code, c: Core, d: Core, ignored: set<int>
      {:trigger isa.effect(x, c), isa.effect(x, d), EqExcept(c, d, ignored)} ::
      EqExcept(c, d, ignored) && ignored !! isa.uses(x) ==>
        var f, g := isa.effect(x, c), isa.effect(x, d);
        EqExcept(f.core, g.core, ignored - isa.defines(x)) && f.jumps == g.jumps && f.target == g.target
  }
}
