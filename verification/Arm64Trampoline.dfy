/** The jump that replaces a patched prologue.
 */
module Arm64Trampoline {
  import opened Arithmetic
  import opened MachineWords
  import opened Arm64Machine
  import opened Arm64Assembler
  import opened Arm64Relocator
  import opened Arm64Simulation

  /** `a - b` as a signed 64-bit number. */
  function SignedDiff(a: U64, b: U64): int {
    var y := Wrap(a - b);
    if y >= 0x8000_0000_0000_0000 then y - TWO64 else y
  }

  function Abs(x: int): int { if x < 0 then -x else x }

  function Page(a: U64): U64 { a - a % 4096 }

  /** `adrp X17, imm` for a page-aligned `imm`. */
  function AdrpTmp(imm: int): Word {
    var p := (imm / 4096) % 0x200000;
    0x90000000 + (p % 4) * 0x20000000 + (p / 4) * 0x20 + 17
  }

  /** `add X17, X17, #imm`. */
  function AddTmp(imm: int): Word
    requires 0 <= imm < 4096
  {
    0x91000000 + imm * 0x400 + 17 * 0x20 + 17
  }

  /** `GenerateNormalTrampolineBuffer`: adrp, add, br within 4 GiB, a literal load and br beyond. */
  function TrampolineWords(from: U64, to: U64): seq<Word> {
    if Abs(SignedDiff(from, to)) < TWO32 then [AdrpTmp(SignedDiff(Page(to), Page(from))), AddTmp(to % 4096), BR_TMP]
    else TailWords(to)
  }

  lemma AdrpFields(p: int, w: Word)
    requires 0 <= p < 0x200000 && w == 0x90000000 + (p % 4) * 0x20000000 + (p / 4) * 0x20 + 17
    ensures w / 0x1000000 % 32 == 16 && Bits(w, 0x20, 0x80000) == p / 4 && Bits(w, 0x20000000, 4) == p % 4
    ensures w / 0x80000000 == 1 && Rt(w) == 17
  {
    var l, h := p % 4, p / 4;
    DivUnique(w, 0x1000000, 0x90 + 0x20 * l, h * 0x20 + 17);
    DivUnique(0x90 + 0x20 * l, 32, 4 + l, 16);
    DivUnique(w, 0x20, 0x4800000 + l * 0x1000000 + h, 17);
    DivUnique(0x4800000 + l * 0x1000000 + h, 0x80000, 0x90 + 0x20 * l, h);
    DivUnique(w, 0x20000000, 4 + l, 0x10000000 + h * 0x20 + 17);
    DivUnique(w, 0x80000000, 1, 0x10000000 + l * 0x20000000 + h * 0x20 + 17);
  }

  lemma DecodeAdrp(imm: int)
    ensures Decode(AdrpTmp(imm)) == PcAddress(true, X17, 4096 * Signed((imm / 4096) % 0x200000, 0x200000))
  {
    var p := (imm / 4096) % 0x200000;
    var w := AdrpTmp(imm);
    AdrpFields(p, w);
    TopByte(w, w / 0x1000000, w % 0x1000000);
    NotLiteral(w / 0x1000000);
    hide LiteralClass, PcAddressClass, BranchClass, TestClass, CompareClass, CondClass, AdrpTmp, Bits, Rt, Signed;
  }

  lemma NotLiteral(t: int)
    requires t % 32 == 16
    ensures t / 8 % 8 != 3
  {
    DivUnique(t, 8, 4 * (t / 32) + 2, 0);
  }

  lemma DecodeAdd(imm: int)
    requires 0 <= imm < 4096
    ensures Decode(AddTmp(imm)) == AddImmediate(X17, X17, imm)
  {
    var w := AddTmp(imm);
    TopByte(w, 0x91, w - 0x91000000);
    DivUnique(w, 0x800000, 0x122, imm * 0x400 + 17 * 0x20 + 17);
    DivUnique(w, 0x400000, 0x244, imm * 0x400 + 17 * 0x20 + 17);
    DivUnique(w, 0x400, 0x244000 + imm, 17 * 0x20 + 17);
    DivUnique(0x244000 + imm, 0x1000, 0x244, imm);
    DivUnique(w, 0x20, 0x4880000 + imm * 32 + 17, 17);
    DivUnique(0x4880000 + imm * 32 + 17, 32, 0x244000 + imm, 17);
    hide LiteralClass, PcAddressClass, BranchClass, TestClass, CompareClass, CondClass, AddTmp;
  }

  /** Where the adrp-add pair points. */
  function Lands(from: U64, to: U64): U64 {
    Wrap(Wrap(from - from % 4096 + 4096 * Signed((SignedDiff(Page(to), Page(from)) / 4096) % 0x200000, 0x200000)) + to % 4096)
  }

  lemma ThreeSteps(e: Env, base: U64, words: seq<Word>, off: int, imm: int, c: Core)
    requires Holds(e, base, words) && |words| == 3
    requires Decode(words[0]) == PcAddress(true, X17, off) && Decode(words[1]) == AddImmediate(X17, X17, imm)
    requires Decode(words[2]) == BranchRegister(false, X17)
    ensures var t := Wrap(Wrap(base - base % 4096 + off) + imm); Run(e, 3, Machine(base, c)) == Machine(t, Set(c, X17, t))
  {
    hide Decode, At, Wrap, Run, Step, Holds, Set;
    var v := Wrap(base - base % 4096 + off);
    var t := Wrap(v + imm);
    FirstAt(base);
    FirstStep(e, base, words, off, c);
    SecondStep(e, base, words, v, imm, c);
    SetTwice(c, X17, t, t);
    LastBranch(e, base, words, 2, t, Set(c, X17, t));
    Chain(e, Machine(base, c), Machine(At(base, 1), Set(c, X17, v)), Machine(At(base, 2), Set(c, X17, t)),
          Machine(t, Set(c, X17, t)));
  }

  lemma FirstStep(e: Env, base: U64, words: seq<Word>, off: int, c: Core)
    requires Holds(e, base, words) && |words| == 3 && Decode(words[0]) == PcAddress(true, X17, off)
    ensures Step(e, Machine(base, c)) == Machine(At(base, 1), Set(c, X17, Wrap(base - base % 4096 + off)))
  {
    hide Decode, At, Wrap;
    FirstAt(base);
    StepNext(e, base, words, 0, c);
  }

  lemma SecondStep(e: Env, base: U64, words: seq<Word>, v: U64, imm: int, c: Core)
    requires Holds(e, base, words) && |words| == 3 && Decode(words[1]) == AddImmediate(X17, X17, imm)
    ensures Step(e, Machine(At(base, 1), Set(c, X17, v))) == Machine(At(base, 2), Set(c, X17, Wrap(v + imm)))
  {
    hide Decode, At, Wrap;
    StepNext(e, base, words, 1, Set(c, X17, v));
    SetTwice(c, X17, v, Wrap(v + imm));
  }

  lemma LastBranch(e: Env, base: U64, words: seq<Word>, k: nat, t: U64, d: Core)
    requires Holds(e, base, words) && k < |words| && Decode(words[k]) == BranchRegister(false, X17) && Get(d, X17) == t
    ensures Step(e, Machine(At(base, k), d)) == Machine(t, d)
  {
    hide Decode, At;
    var w := words[k];
    assert At(base, k) in e.text && e.text[At(base, k)] == w;
  }

  lemma FirstAt(base: U64)
    ensures At(base, 0) == base
  {
  }

  lemma Chain(e: Env, a: Machine, b: Machine, c: Machine, d: Machine)
    requires Step(e, a) == b && Step(e, b) == c && Step(e, c) == d
    ensures Run(e, 3, a) == d
  {
    hide Step;
    TwoSteps(e, b);
    assert Run(e, 3, a) == Run(e, 2, Step(e, a));
  }

  lemma AdrpRuns(e: Env, from: U64, to: U64, c: Core)
    requires Abs(SignedDiff(from, to)) < TWO32 && Holds(e, from, TrampolineWords(from, to))
    ensures Run(e, 3, Machine(from, c)) == Machine(Lands(from, to), Set(c, X17, Lands(from, to)))
  {
    hide Decode, AdrpTmp, AddTmp, SignedDiff, Page, Signed, Wrap, Holds, Run, Set;
    DecodeAdrp(SignedDiff(Page(to), Page(from)));
    DecodeAdd(to % 4096);
    DecodeTmp();
    ThreeSteps(e, from, TrampolineWords(from, to),
               4096 * Signed((SignedDiff(Page(to), Page(from)) / 4096) % 0x200000, 0x200000), to % 4096, c);
  }

  lemma SignedDiffIs(a: U64, b: U64, x: int, k: int)
    requires -0x8000_0000_0000_0000 <= x < 0x8000_0000_0000_0000 && a - b == x + k * TWO64
    ensures SignedDiff(a, b) == x
  {
    if x >= 0 { DivUnique(a - b, TWO64, k, x); } else { DivUnique(a - b, TWO64, k - 1, x + TWO64); }
  }

  /** The pages of two addresses less than 4 GiB apart can still be 4 GiB apart. */
  lemma PageDistance(from: U64, to: U64)
    requires Abs(SignedDiff(from, to)) < TWO32
    ensures -TWO32 <= SignedDiff(Page(to), Page(from)) <= TWO32
    ensures SignedDiff(Page(to), Page(from)) % 4096 == 0
    ensures Page(to) == Wrap(Page(from) + SignedDiff(Page(to), Page(from)))
  {
    hide SignedDiff, Page, Wrap;
    var f, t, x := from / 4096, to / 4096, SignedDiff(from, to);
    var k := SignedDiffSplit(from, to);
    Pages(from);
    Pages(to);
    var m := t - f + k * 0x10_0000_0000_0000;
    assert 4096 * m == -x + from % 4096 - to % 4096;
    SignedDiffIs(4096 * t, 4096 * f, 4096 * m, -k);
    DivUnique(4096 * m, 4096, m, 0);
    WrapUnique(4096 * f + 4096 * m, k, 4096 * t);
  }

  lemma SignedDiffSplit(a: U64, b: U64) returns (k: int)
    ensures a - b == SignedDiff(a, b) + k * TWO64
  {
    k := (a - b) / TWO64;
    if SignedDiff(a, b) != a - b - k * TWO64 { k := k + 1; }
  }

  lemma Pages(a: U64)
    ensures Page(a) == 4096 * (a / 4096)
  {
  }

  lemma WrapUnique(x: int, k: int, r: int)
    requires x == k * TWO64 + r && 0 <= r < TWO64
    ensures Wrap(x) == r
  {
    DivUnique(x, TWO64, k, r);
  }

  /** Adding an offset within a page to a page does not wrap. */
  lemma WithinPage(x: int, r: int)
    requires 0 <= r < 4096
    ensures Wrap(Wrap(4096 * x) + r) == Wrap(4096 * x) + r
  {
    var q := (4096 * x) / TWO64;
    var y := x - q * 0x10_0000_0000_0000;
    assert Wrap(4096 * x) == 4096 * y;
    assert 4096 * y <= TWO64 - 4096;
    DivUnique(4096 * y + r, TWO64, 0, 4096 * y + r);
  }

  lemma SignedPages(k: int)
    requires -0x100000 <= k <= 0x100000
    ensures Signed(k % 0x200000, 0x200000) == if k == 0x100000 then -0x100000 else k
  {
  }

  lemma FarPages(p: int)
    ensures Wrap(p - 0x1_0000_0000) != Wrap(p + 0x1_0000_0000)
  {
    var a, b := (p - 0x1_0000_0000) / TWO64, (p + 0x1_0000_0000) / TWO64;
    assert p - 0x1_0000_0000 == a * TWO64 + Wrap(p - 0x1_0000_0000);
    assert p + 0x1_0000_0000 == b * TWO64 + Wrap(p + 0x1_0000_0000);
  }

  lemma LandsExact(from: U64, to: U64)
    requires Abs(SignedDiff(from, to)) < TWO32
    ensures Lands(from, to) == to <==> SignedDiff(Page(to), Page(from)) != TWO32
  {
    hide SignedDiff, Wrap;
    PageDistance(from, to);
    var f, k := from / 4096, SignedDiff(Page(to), Page(from)) / 4096;
    assert Page(from) == 4096 * f && SignedDiff(Page(to), Page(from)) == 4096 * k;
    SignedPages(k);
    var s := Signed(k % 0x200000, 0x200000);
    WithinPage(f + s, to % 4096);
    FarPages(4096 * f);
    assert to == Page(to) + to % 4096;
  }

  /** The trampoline reaches its target except when the two pages are exactly 4 GiB
      apart: the range test is made on the addresses, the encoding on the pages. */
  lemma TrampolineExact(e: Env, from: U64, to: U64, c: Core)
    requires Holds(e, from, TrampolineWords(from, to))
    ensures (exists n :: Run(e, n, Machine(from, c)) == Machine(to, Set(c, X17, to)))
            <== !(Abs(SignedDiff(from, to)) < TWO32 && SignedDiff(Page(to), Page(from)) == TWO32)
    ensures Abs(SignedDiff(from, to)) < TWO32 && SignedDiff(Page(to), Page(from)) == TWO32 ==>
              Run(e, 3, Machine(from, c)).pc != to
  {
    hide Holds, SignedDiff, Page, Run, Set, Step;
    if Abs(SignedDiff(from, to)) < TWO32 {
      AdrpRuns(e, from, to, c);
      LandsExact(from, to);
    } else {
      assert At(from, 0) == from;
      PoolBranch(e, from, TailWords(to), 0, 2, to, false, c);
    }
  }

  /** For instance from 0x7000_0000_0FFC to 0x7001_0000_0FF8. */
  lemma TrampolineMisses()
    ensures Abs(SignedDiff(0x7000_0000_0FFC, 0x7001_0000_0FF8)) < TWO32 && Lands(0x7000_0000_0FFC, 0x7001_0000_0FF8) != 0x7001_0000_0FF8
  {
    SignedDiffIs(0x7000_0000_0FFC, 0x7001_0000_0FF8, -0xFFFF_FFFC, 0);
    assert Page(0x7000_0000_0FFC) == 0x7000_0000_0000 && Page(0x7001_0000_0FF8) == 0x7001_0000_0000;
    SignedDiffIs(0x7001_0000_0000, 0x7000_0000_0000, 0x1_0000_0000, 0);
    hide SignedDiff, Lands;
    LandsExact(0x7000_0000_0FFC, 0x7001_0000_0FF8);
  }
}
