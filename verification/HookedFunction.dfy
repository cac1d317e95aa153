/** What hooking is for, on A64: calling a hooked function reaches the replacement, calling
    the relocated entry does what the function did, and destroying the hook brings the
    function back.  The machines run on the words of the memory that hooking patches.
 */
module HookedFunction {
  import opened MachineWords
  import opened LittleEndian
  import opened Arm64Machine
  import opened Arm64Assembler
  import opened Arm64Relocator
  import opened Arm64Chunk
  import opened Arm64Simulation
  import opened Arm64Trampoline
  import HookRegistry
  import Life = HookLifecycle

  // ---------------------------------------------------------------- words in byte memory

  function WordAt(m: Life.Memory, a: int): Word {
    LittleEndian.Read32([m(a), m(a + 1), m(a + 2), m(a + 3)])
  }

  function Bytes(words: seq<Word>): (r: seq<Byte>)
    ensures |r| == 4 * |words|
  {
    if words == [] then [] else Le32(words[0]) + Bytes(words[1..])
  }

  ghost predicate WordsIn(m: Life.Memory, a: int, words: seq<Word>) {
    forall k :: 0 <= k < |words| ==> WordAt(m, a + 4 * k) == words[k]
  }

  /** The code area of a machine is part of memory. */
  ghost predicate Mirrors(e: Env, m: Life.Memory) {
    forall a :: a in e.text ==> e.text[a] == WordAt(m, a)
  }

  ghost predicate Covers(e: Env, a: U64, n: nat) {
    forall k :: 0 <= k < n ==> At(a, k) in e.text
  }

  lemma {:induction false} BytesAt(words: seq<Word>, k: nat)
    requires k < |words|
    ensures Bytes(words)[4 * k..4 * k + 4] == Le32(words[k])
    decreases |words|
  {
    hide Le32;
    var first, rest := Le32(words[0]), Bytes(words[1..]);
    if k > 0 {
      BytesAt(words[1..], k - 1);
      assert (first + rest)[4 * k..4 * k + 4] == rest[4 * (k - 1)..4 * (k - 1) + 4];
    }
  }

  lemma PatchedWord(m: Life.Memory, from: int, words: seq<Word>, k: nat)
    requires k < |words|
    ensures WordAt(Life.Patch(m, from, Bytes(words)), from + 4 * k) == words[k]
  {
    hide Le32, WordAt, LittleEndian.Read32, Bytes;
    BytesAt(words, k);
    ReadBack(words[k]);
    PatchedQuad(m, from, Bytes(words), 4 * k);
  }

  lemma PatchedQuad(m: Life.Memory, from: int, b: seq<Byte>, i: nat)
    requires i + 4 <= |b|
    ensures WordAt(Life.Patch(m, from, b), from + i) == LittleEndian.Read32(b[i..i + 4])
  {
    hide LittleEndian.Read32, Life.Patch;
    PatchReads(m, from, b, i);
    PatchReads(m, from, b, i + 1);
    PatchReads(m, from, b, i + 2);
    PatchReads(m, from, b, i + 3);
    var p, a := Life.Patch(m, from, b), from + i;
    assert [p(a), p(a + 1), p(a + 2), p(a + 3)] == b[i..i + 4];
  }

  lemma PatchReads(m: Life.Memory, from: int, bytes: seq<Byte>, i: nat)
    requires i < |bytes|
    ensures Life.Patch(m, from, bytes)(from + i) == bytes[i]
  {
  }

  lemma KeptWord(m: Life.Memory, from: int, bytes: seq<Byte>, a: int)
    requires a + 4 <= from || from + |bytes| <= a
    ensures WordAt(Life.Patch(m, from, bytes), a) == WordAt(m, a)
  {
  }

  lemma MirrorHolds(e: Env, m: Life.Memory, a: U64, words: seq<Word>)
    requires Mirrors(e, m) && Covers(e, a, |words|) && WordsIn(m, a, words) && a + 4 * |words| <= TWO64
    ensures Holds(e, a, words)
  {
    hide WordAt;
    forall k | 0 <= k < |words| ensures At(a, k) in e.text && e.text[At(a, k)] == words[k] {
      assert At(a, k) == a + 4 * k;
    }
  }

  // ---------------------------------------------------------------- the hook

  /** The hook of the function at `from`, whose first instructions are `block`, to `to`. */
  function HookOf(block: seq<Word>, from: U64, to: U64): Life.Request {
    Life.Install(from, to, Bytes(TrampolineWords(from, to)), 4 * |block|, true)
  }

  /** Two pieces of code do not overlap. */
  predicate Separate(a: int, m: int, b: int, n: int) { a + 4 * m <= b || b + 4 * n <= a }

  /** The state before: the function starts with `block`, its relocated code is at `base`, and
      the hook goes through. */
  ghost predicate Ready(s: Life.State, block: seq<Word>, from: U64, base: U64, to: U64) {
    && Relocatable(block) && |TrampolineWords(from, to)| <= |block|
    && from + 4 * |block| <= TWO64 && base + 4 * |Chunk(block, from)| <= TWO64
    && Separate(from, |block|, base, |Chunk(block, from)|)
    && WordsIn(s.memory, from, block) && WordsIn(s.memory, base, Chunk(block, from))
    && !Life.Refused(s, HookOf(block, from, to))
  }

  lemma HookedWords(s: Life.State, block: seq<Word>, from: U64, base: U64, to: U64)
    requires Ready(s, block, from, base, to)
    ensures var m := Life.Step(s, HookOf(block, from, to)).memory;
            && WordsIn(m, from, TrampolineWords(from, to)) && WordsIn(m, base, Chunk(block, from))
            && forall a :: a + 4 <= from || from + 4 * |block| <= a ==> WordAt(m, a) == WordAt(s.memory, a)
  {
    hide WordAt, Bytes, TrampolineWords, Chunk, Relocatable, Life.Patch;
    var words, ch := TrampolineWords(from, to), Chunk(block, from);
    var m := Life.Step(s, HookOf(block, from, to)).memory;
    assert m == Life.Patch(s.memory, from, Bytes(words));
    forall k | 0 <= k < |words| ensures WordAt(m, from + 4 * k) == words[k] { PatchedWord(s.memory, from, words, k); }
    forall k | 0 <= k < |ch| ensures WordAt(m, base + 4 * k) == ch[k] { KeptWord(s.memory, from, Bytes(words), base + 4 * k); }
    forall a | a + 4 <= from || from + 4 * |block| <= a ensures WordAt(m, a) == WordAt(s.memory, a) {
      KeptWord(s.memory, from, Bytes(words), a);
    }
  }

  /** Calling the hooked function reaches the replacement with every register but X17 as it was,
      unless the pages of the two are exactly 4 GiB apart. */
  lemma CallReachesReplacement(s: Life.State, block: seq<Word>, from: U64, base: U64, to: U64, e: Env, c: Core) returns (n: nat)
    requires Ready(s, block, from, base, to)
    requires Mirrors(e, Life.Step(s, HookOf(block, from, to)).memory) && Covers(e, from, |TrampolineWords(from, to)|)
    requires !(Abs(SignedDiff(from, to)) < TWO32 && SignedDiff(Page(to), Page(from)) == TWO32)
    ensures Run(e, n, Machine(from, c)) == Machine(to, Set(c, X17, to))
  {
    hide Run, Set, WordAt, Chunk, Relocatable, TrampolineWords, SignedDiff, Page, Mirrors, Covers, Holds, WordsIn;
    HookedWords(s, block, from, base, to);
    MirrorHolds(e, Life.Step(s, HookOf(block, from, to)).memory, from, TrampolineWords(from, to));
    TrampolineExact(e, from, to, c);
    n :| Run(e, n, Machine(from, c)) == Machine(to, Set(c, X17, to));
  }

  /** What the two machines have in common: the code of the function before the hook, and
      the relocated code after it. */
  ghost predicate Machines(s: Life.State, block: seq<Word>, from: U64, base: U64, to: U64, e0: Env, e1: Env)
    requires Ready(s, block, from, base, to)
  {
    && Mirrors(e0, s.memory) && Covers(e0, from, |block|)
    && Mirrors(e1, Life.Step(s, HookOf(block, from, to)).memory) && Covers(e1, base, |Chunk(block, from)|)
    && e0.isa == e1.isa && Respects(e0.isa) && |Chunk(block, from)| <= 0x40000
  }

  lemma HookedSetting(s: Life.State, block: seq<Word>, from: U64, base: U64, to: U64, e0: Env, e1: Env)
    requires Ready(s, block, from, base, to) && Machines(s, block, from, base, to, e0, e1)
    ensures Setting(e0, e1, block, from, base)
    ensures forall a :: a in e0.text && a in e1.text && (a + 4 <= from || from + 4 * |block| <= a) ==> e0.text[a] == e1.text[a]
  {
    hide WordAt, Chunk, Relocatable, TrampolineWords, Holds, WordsIn, Respects, Covers;
    HookedWords(s, block, from, base, to);
    MirrorHolds(e0, s.memory, from, block);
    MirrorHolds(e1, Life.Step(s, HookOf(block, from, to)).memory, base, Chunk(block, from));
  }

  /** Calling the relocated entry does what the unpatched function does up to the first exit
      from the block: it leaves for the same address, and all code after the block is the
      same for both. */
  lemma RelocatedEntryBehaves(s: Life.State, block: seq<Word>, from: U64, base: U64, to: U64, e0: Env, e1: Env, c: Core) returns (n: nat)
    requires Ready(s, block, from, base, to) && Machines(s, block, from, base, to, e0, e1)
    requires RunOk(e0, e1, block, from, 0, c)
    ensures var x := RunBlock(e0, block, from, 0, c);
            Matches(x.outcome, Run(e1, n, Machine(base, c)), if x.at < |block| then At(base, Pos(block, from, x.at + 1)) else 0,
                    Stale(e0.isa, block, if x.at < |block| then x.at + 1 else x.at))
    ensures forall a :: a in e0.text && a in e1.text && (a + 4 <= from || from + 4 * |block| <= a) ==> e0.text[a] == e1.text[a]
  {
    hide Relocatable, Chunk, WordsIn, Machines, RunOk, RunBlock, Run, Matches, Setting, EqExcept, Decode, Pos, At, Stale;
    HookedSetting(s, block, from, base, to, e0, e1);
    Start(block, from, base, c, e0.isa);
    n := RelocationPreservesRuns(e0, e1, block, from, base, 0, c, c);
  }

  lemma Start(block: seq<Word>, from: U64, base: U64, c: Core, isa: Isa)
    requires Relocatable(block)
    ensures At(base, Pos(block, from, 0)) == base && EqExcept(c, c, Stale(isa, block, 0))
  {
  }

  /** Destroying the hook brings back every byte. */
  lemma DestroyedIsOriginal(s: Life.State, block: seq<Word>, from: U64, base: U64, to: U64, a: int)
    requires Ready(s, block, from, base, to)
    ensures var s' := Life.Step(Life.Step(s, HookOf(block, from, to)), Life.Destroy(from));
            s'.live == s.live && s'.memory(a) == s.memory(a)
  {
    hide WordAt, Chunk, Relocatable, TrampolineWords, WordsIn, Bytes;
    var q := HookOf(block, from, to);
    HookRegistry.AddThenRemove(s.live, Life.EntryFor(s, q));
  }
}
