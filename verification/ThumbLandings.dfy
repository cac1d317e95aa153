/** Where relocated Thumb branches lead outside the domain of the simulation theorem:
    into the range that was asked for, and in the forms that do not keep their meaning.
 */
module ThumbLandings {
  import opened Arithmetic
  import opened MachineWords
  import opened ThumbMachine
  import opened ThumbAssembler
  import opened ThumbRelocator
  import opened ThumbChunk
  import opened ThumbSimulation

  /** The finished code of a block, in place. */
  ghost predicate InMemory(e: Env, block: seq<Code>, origin: U32, size: int, base: U32) {
    && Relocatable(block) && InReach(block, origin) && origin % 2 == 0 && base % 4 == 0
    && Holds(e, base, Chunk(block, origin, size, base))
  }

  // ---------------------------------------------------------------- the relocation map

  lemma {:induction false} NotFound(m: seq<ReloEntry>, v: U32)
    requires forall k :: 0 <= k < |m| ==> m[k].orig != v
    ensures FindRelocated(m, v) == 0
    decreases |m|
  {
    if m != [] { NotFound(m[1..], v); }
  }

  lemma {:induction false} MapAt(block: seq<Code>, origin: U32, i: nat, k: nat)
    requires Relocatable(block) && k < i <= |block|
    ensures ReloMap(block, origin, i)[k] == ReloEntry(Addr(block, origin, k), Wrap(2 * Pos(block, origin, k)))
  {
    hide Relocatable, Layout, Addr, Wrap;
    if k < i - 1 { MapAt(block, origin, i - 1, k); }
  }

  /** Where a branch label into the range leads, as an offset into the chunk: to the round of
      the instruction there, or to the start of the chunk. */
  lemma FoundOffset(block: seq<Code>, origin: U32, v: U32)
    requires Relocatable(block)
    ensures var r := FindRelocated(ReloMap(block, origin, |block|), v);
            r == 0 || exists k :: 0 <= k < |block| && Addr(block, origin, k) == v && r == Wrap(2 * Pos(block, origin, k))
  {
    hide Relocatable, Layout, Addr, Wrap, ReloMap, Pos;
    var m := ReloMap(block, origin, |block|);
    var k := FoundAt(m, v);
    if k < |m| { MapAt(block, origin, |block|, k); }
  }

  lemma {:induction false} FoundAt(m: seq<ReloEntry>, v: U32) returns (k: nat)
    ensures k <= |m| && if k < |m| then m[k].orig == v && FindRelocated(m, v) == m[k].relocated else FindRelocated(m, v) == 0
    decreases |m|
  {
    if m == [] || m[0].orig == v { return 0; }
    k := FoundAt(m[1..], v);
    k := k + 1;
  }

  /** The labels of B, conditional B and CBZ carry the Thumb bit and the map does not, so
      none of them is ever found. */
  lemma OddNotFound(block: seq<Code>, origin: U32, v: U32)
    requires Relocatable(block) && origin % 2 == 0 && v % 2 == 1
    ensures FindRelocated(ReloMap(block, origin, |block|), v) == 0
  {
    hide Relocatable, Layout, Addr, ReloMap, Pos;
    var m := ReloMap(block, origin, |block|);
    forall k | 0 <= k < |m| ensures m[k].orig != v {
      MapAt(block, origin, |block|, k);
      AddrEven(block, origin, k);
    }
    NotFound(m, v);
  }

  /** A Thumb branch label into the range becomes the start of the chunk, in A32 state. */
  lemma OddFixed(block: seq<Code>, origin: U32, size: int, base: U32, v: U32)
    requires Relocatable(block) && origin % 2 == 0 && v % 2 == 1
    ensures FixedData(v, true, ReloMap(block, origin, |block|), origin, size, base) ==
            if InOrigin(v, origin, size) then base else v
  {
    hide Relocatable, ReloMap, InOrigin;
    OddNotFound(block, origin, v);
    assert Wrap(0 + base) == base;
  }

  // ---------------------------------------------------------------- the narrow B

  /** A 16-bit B, for all inputs: to its pooled label, or to the start of the chunk in A32
      state when the label lies in the range. */
  lemma NarrowJumpLands(e: Env, block: seq<Code>, origin: U32, size: int, base: U32, i: nat, d: Core)
    requires InMemory(e, block, origin, size, base) && i < |block| && block[i].Narrow? && IsNarrowB(block[i].h)
    ensures var v := Wrap(PcOf(block, origin, i) + 2 * (block[i].h % 0x800) + 1);
            Run(e, 1, Here(base, Start(block, origin, i), d)) == Go(if InOrigin(v, origin, size) then base else v, d)
  {
    hide Chunk, Pos, Start, Relocatable, InReach, Holds, Run, Go, NarrowPiece, ReloMap, InOrigin, FixedData, DecodeNarrow, LiteralCode, Wrap,
         IsNarrowB, PcOf, Here;
    var h, p := block[i].h, PcOf(block, origin, i);
    var v := Wrap(p + 2 * (h % 0x800) + 1);
    NarrowJumps(h, p);
    PcEven(block, origin, i);
    OddLabel(p, 2 * (h % 0x800));
    OddFixed(block, origin, size, base, v);
    PooledJump(e, block, origin, size, base, i, v, true, d);
  }

  lemma OddLabel(p: U32, off: int)
    requires p % 2 == 0 && off % 2 == 0
    ensures Wrap(p + off + 1) % 2 == 1
  {
    hide Wrap, Odd;
    assert (p + off) % 2 == 0;
    Even(p + off);
    WrapWrap(p + off, 1);
  }

  // ---------------------------------------------------------------- BX PC

  /** BX PC, for all inputs: to the A32 code four bytes on when that lies outside the range
      that was asked for, and into the chunk, still in A32 state, when it lies inside. */
  lemma ExchangeLands(e: Env, block: seq<Code>, origin: U32, size: int, base: U32, i: nat, d: Core)
    requires InMemory(e, block, origin, size, base) && i < |block| && block[i].Narrow? && IsBxPc(block[i].h)
    ensures var p := PcOf(block, origin, i);
            Run(e, 1, Here(base, Start(block, origin, i), d)) ==
            Go(if InOrigin(p, origin, size) then Wrap(FindRelocated(ReloMap(block, origin, |block|), p) + base) else p, d)
  {
    hide Chunk, Pos, Start, Relocatable, InReach, Holds, Run, Go, NarrowPiece, ReloMap, InOrigin, DecodeNarrow, LiteralCode, Wrap,
         IsBxPc, PcOf, Here, FindRelocated;
    NarrowJumps(block[i].h, PcOf(block, origin, i));
    PooledJump(e, block, origin, size, base, i, PcOf(block, origin, i), true, d);
  }

  /** No round of the chunk starts in the range that was asked for. */
  ghost predicate OutsideOrigin(block: seq<Code>, origin: U32, size: int, base: U32)
    requires Relocatable(block)
  {
    forall k :: 0 <= k <= |block| ==> !InOrigin(At(base, Pos(block, origin, k)), origin, size)
  }

  /** BX PC is preserved if and only if the A32 code that it leads to lies outside the range. */
  lemma ExchangeExact(e: Env, block: seq<Code>, origin: U32, size: int, base: U32, i: nat, d: Core)
    requires InMemory(e, block, origin, size, base) && i < |block| && block[i].Narrow? && IsBxPc(block[i].h)
    requires OutsideOrigin(block, origin, size, base)
    ensures var p := PcOf(block, origin, i);
            Run(e, 1, Here(base, Start(block, origin, i), d)) == Go(p, d) <==> !InOrigin(p, origin, size)
  {
    hide Chunk, Pos, Start, Relocatable, InReach, Holds, Run, ReloMap, InOrigin, IsBxPc, PcOf, Here, FindRelocated, Addr;
    var p := PcOf(block, origin, i);
    ExchangeLands(e, block, origin, size, base, i, d);
    if InOrigin(p, origin, size) {
      FoundOffset(block, origin, p);
      var r := FindRelocated(ReloMap(block, origin, |block|), p);
      if r == 0 {
        PosZero(block, origin);
        assert !InOrigin(At(base, Pos(block, origin, 0)), origin, size);
        RoundAddress(base, 0);
        GoDiffers(Wrap(r + base), p, d);
      } else {
        var k :| 0 <= k < |block| && Addr(block, origin, k) == p && r == Wrap(2 * Pos(block, origin, k));
        assert !InOrigin(At(base, Pos(block, origin, k)), origin, size);
        RoundAddress(base, Pos(block, origin, k));
        GoDiffers(Wrap(r + base), p, d);
      }
    }
  }

  lemma PosZero(block: seq<Code>, origin: U32)
    requires Relocatable(block)
    ensures Pos(block, origin, 0) == 0
  {
  }

  lemma RoundAddress(base: U32, n: nat)
    ensures Wrap(Wrap(2 * n) + base) == At(base, n) && (n == 0 ==> Wrap(2 * n) == 0)
  {
    WrapWrap(2 * n, base);
  }

  lemma GoDiffers(t: U32, u: U32, d: Core)
    requires t != u
    ensures Go(t, d) != Go(u, d)
  {
    if t % 2 == u % 2 { assert t - t % 2 != u - u % 2; }
  }

  // ---------------------------------------------------------------- BX PC that cuts the block off

  /** After BX PC the loop takes one more instruction if that is a 16-bit one other than BX PC. */
  lemma {:induction false} CutAfterExchange(src: int -> Half, origin: U32, size: int, k: nat, changed: U32, i: nat)
    requires var block := Take(src, origin, size, k, changed);
             i + 1 < |block| && block[i].Narrow? && IsBxPc(block[i].h) && block[i + 1].Narrow? && !IsBxPc(block[i + 1].h)
    requires origin + size + 4 <= TWO32
    ensures |Take(src, origin, size, k, changed)| == i + 2
    decreases size - 2 * k
  {
    hide CodeAt, IsBxPc;
    TakeStep(src, origin, size, k, changed);
    var x := CodeAt(src, k);
    var c, k' := ChangedBy(x, At(origin, k), changed), k + Size(x) / 2;
    if i > 0 {
      CutAfterExchange(src, origin, size, k', c, i - 1);
    } else if 2 * k' < size {
      TakeStep(src, origin, size, k', c);
      var y := CodeAt(src, k');
      NextAt(origin, k, 2);
      NotZero(origin, k, size);
    } else {
      TakeNone(src, origin, size, k', c);
    }
  }

  lemma NotZero(origin: U32, k: nat, size: int)
    requires 2 * k < size && origin + size + 4 <= TWO32
    ensures Wrap(At(origin, k) + 4) == origin + 2 * k + 4 || origin + 2 * k + 4 == TWO32
  {
  }

  lemma {:induction false} HalvesGrow(block: seq<Code>, j: nat, k: nat)
    requires j <= k <= |block|
    ensures Halves(block, j) + (k - j) <= Halves(block, k)
    decreases k
  {
    if j < k { HalvesGrow(block, j, k - 1); }
  }

  /** Every instruction taken starts within the requested size. */
  lemma {:induction false} TakenStart(src: int -> Half, origin: U32, size: int, k: nat, changed: U32, i: nat)
    requires i < |Take(src, origin, size, k, changed)|
    ensures 2 * (k + Halves(Take(src, origin, size, k, changed), i)) < size
    decreases size - 2 * k
  {
    hide CodeAt, ChangedBy, At;
    TakeStep(src, origin, size, k, changed);
    var block := Take(src, origin, size, k, changed);
    if i > 0 {
      var x := CodeAt(src, k);
      TakenStart(src, origin, size, k + Size(x) / 2, ChangedBy(x, At(origin, k), changed), i - 1);
      HalvesShift(block, i);
    }
  }

  lemma AddrIs(src: int -> Half, origin: U32, size: int, i: nat)
    requires i < |Take(src, origin, size, 0, 0)| && origin + size + 4 <= TWO32
    ensures var block := Take(src, origin, size, 0, 0);
            Addr(block, origin, i) == origin + 2 * Halves(block, i) < origin + size && PcOf(block, origin, i) == Addr(block, origin, i) + 4
  {
    hide Take, Halves;
    TakenStart(src, origin, size, 0, 0, i);
  }

  /** The A32 code that a BX PC leads to is not among the instructions taken. */
  lemma ExchangeNotFound(src: int -> Half, origin: U32, size: int, i: nat)
    requires origin + size + 4 <= TWO32
    requires var block := Take(src, origin, size, 0, 0);
             && Relocatable(block) && i < |block| && block[i].Narrow? && IsBxPc(block[i].h)
             && (i + 1 < |block| && block[i + 1].Narrow? ==> !IsBxPc(block[i + 1].h))
    ensures var block := Take(src, origin, size, 0, 0);
            FindRelocated(ReloMap(block, origin, |block|), PcOf(block, origin, i)) == 0
  {
    hide Take, Relocatable, IsBxPc, ReloMap, Addr, PcOf, Pos;
    var block := Take(src, origin, size, 0, 0);
    var m := ReloMap(block, origin, |block|);
    AddrIs(src, origin, size, i);
    forall k | 0 <= k < |block| ensures m[k].orig != PcOf(block, origin, i) {
      MapAt(block, origin, |block|, k);
      AddrIs(src, origin, size, k);
      if k <= i {
        HalvesGrow(block, k, i);
      } else if k > i + 1 {
        HalvesGrow(block, i + 2, k);
        assert Halves(block, i + 2) == Halves(block, i) + 1 + Size(block[i + 1]) / 2;
        if block[i + 1].Narrow? { CutAfterExchange(src, origin, size, 0, 0, i); }
      }
    }
    NotFound(m, PcOf(block, origin, i));
  }

  /** BX PC at address `a` of a block taken from memory: it leads to `a + 4` in A32 state, as the
      original does, exactly from the last four bytes of the requested range on; before that,
      the fix-up turns it into a jump to the start of the chunk in A32 state. */
  lemma CutOffLands(e: Env, src: int -> Half, origin: U32, size: int, base: U32, i: nat, d: Core)
    requires origin + size + 4 <= TWO32
    requires var block := Take(src, origin, size, 0, 0);
             && InMemory(e, block, origin, size, base) && i < |block| && block[i].Narrow? && IsBxPc(block[i].h)
             && (i + 1 < |block| && block[i + 1].Narrow? ==> !IsBxPc(block[i + 1].h))
    ensures var block := Take(src, origin, size, 0, 0);
            var a := Addr(block, origin, i);
            Run(e, 1, Here(base, Start(block, origin, i), d)) ==
            if a + 4 >= origin + size then Go(PcOf(block, origin, i), d) else Machine(base, false, d)
  {
    hide Take, Relocatable, InReach, Chunk, IsBxPc, ReloMap, Addr, PcOf, Pos, Start, Holds, Run, Here, FindRelocated, Halves, InOrigin,
         Wrap, Go;
    var block := Take(src, origin, size, 0, 0);
    AddrIs(src, origin, size, i);
    ExchangeLands(e, block, origin, size, base, i, d);
    ExchangeNotFound(src, origin, size, i);
    RangeIs(PcOf(block, origin, i), origin, size);
    ChunkStart(base, d);
  }

  lemma RangeIs(v: U32, origin: U32, size: int)
    requires 0 <= size && origin + size < TWO32
    ensures InOrigin(v, origin, size) <==> origin <= v < origin + size
  {
  }

  lemma ChunkStart(base: U32, d: Core)
    requires base % 4 == 0
    ensures Go(Wrap(0 + base), d) == Machine(base, false, d)
  {
    DivUnique(base, 2, base / 4 * 2, 0);
  }

  /** `bx pc; nop` at 0x1000, patched with eight bytes. */
  function ShortStub(k: int): Half { if k == 0 then 0x4778 else NOP }

  lemma StubTaken()
    ensures Take(ShortStub, 0x1000, 8, 0, 0) == [Narrow(0x4778), Narrow(NOP)]
    ensures IsBxPc(0x4778) && !IsBxPc(NOP) && DecodeNarrow(0x4778) == ExchangePc
  {
    hide IsThumb2, IsBxPc, CodeAt, Take;
    StubCodes();
    TakeStep(ShortStub, 0x1000, 8, 0, 0);
    TakeStep(ShortStub, 0x1000, 8, 1, 0x1004);
  }

  lemma StubCodes()
    ensures IsBxPc(0x4778) && !IsBxPc(NOP) && DecodeNarrow(0x4778) == ExchangePc
    ensures CodeAt(ShortStub, 0) == Narrow(0x4778) && CodeAt(ShortStub, 1) == Narrow(NOP)
  {
    assert !IsThumb2(0x4778) && !IsThumb2(NOP);
  }

  /** The block is one that the relocator accepts, so its code can be in memory. */
  lemma StubAccepted()
    ensures Relocatable([Narrow(0x4778), Narrow(NOP)]) && InReach([Narrow(0x4778), Narrow(NOP)], 0x1000)
  {
    hide IsBxPc, LiteralCode, Linkable, NarrowPiece, DecodeNarrow, PcOf, Layout, Aborts;
    var block := [Narrow(0x4778), Narrow(NOP)];
    StubCodes();
    NarrowJumps(0x4778, PcOf(block, 0x1000, 0));
    NopCopied(PcOf(block, 0x1000, 1));
    PieceShape(block[0], PcOf(block, 0x1000, 0));
    PieceShape(block[1], PcOf(block, 0x1000, 1));
    assert !Aborts(block[0]) && !Aborts(block[1]);
    LayoutStep(block, 0x1000, 0);
    LayoutStep(block, 0x1000, 1);
    NoImage(block, 0x1000);
    hide Relocatable;
    var im := Layout(block, 0x1000, 2);
    assert |im.labels| == 1 && im.labels[0].uses == [2] && |im.buffer| == 7;
    assert |Unbound(block, 0x1000)| == 12;
    InFirstSlot();
  }

  lemma NopCopied(p: U32)
    ensures NarrowPiece(NOP, p) == Unlabelled([NOP])
  {
    hide NarrowPiece;
    CopiedHalf(NOP, p);
  }

  lemma CopiedHalf(h: Half, p: U32)
    requires h == 0xbf00
    ensures NarrowPiece(h, p) == Unlabelled([h])
  {
    assert h / 0x400 == 47 && h / 0x800 == 23 && h / 0x1000 == 11 && Bits(h, 0x400, 2) == 1;
    hide Bits, LiteralCode, LoadCode, BranchCode, Wrap, Align4, ShortCompare, CompareOffset, HighRm;
  }

  lemma NoImage(block: seq<Code>, origin: U32)
    requires Relocatable(block)
    ensures Layout(block, origin, 0) == Image([], [])
  {
  }

  lemma InFirstSlot()
    ensures Linkable([2], 12, 12)
  {
  }

  /** The original leads to A32 code at 0x1004, the relocated code to the start of its own chunk. */
  lemma CutOffFails(e: Env, base: U32, d: Core)
    requires InMemory(e, [Narrow(0x4778), Narrow(NOP)], 0x1000, 8, base)
    ensures Exec(e, Decode(Narrow(0x4778)), 0x1000, d) == Goes(d, 0x1004)
    ensures Run(e, 1, Here(base, Start([Narrow(0x4778), Narrow(NOP)], 0x1000, 0), d)) == Machine(base, false, d)
  {
    StubTaken();
    hide Take, Relocatable, InReach, Chunk, IsBxPc, Pos, Start, Holds, Run, Here, DecodeNarrow;
    CutOffLands(e, ShortStub, 0x1000, 8, base, 0, d);
  }

  // ---------------------------------------------------------------- CBZ and CBNZ

  /** The rewritten comparison: same register, same sense, over two bytes. */
  lemma CompareFields(h: Half)
    requires IsCompareBranch(h)
    ensures var op, rn := Bits(h, 0x800, 2), h % 8;
            0 <= op < 2 && ShortCompare(h) == 0xB108 + op * 0x800 + rn
  {
    var q, rn := h / 8, h % 8;
    var imm5, r := q % 32, q / 32;
    assert h == 8 * q + rn && q == 32 * r + imm5;
    DivUnique(h, 0x100, r, 8 * imm5 + rn);
    var i, t := r / 2 % 2, r / 4;
    DivUnique(h, 0x200, r / 2, r % 2 * 0x100 + 8 * imm5 + rn);
    DivUnique(h, 0x400, t, r % 4 * 0x100 + 8 * imm5 + rn);
    DivUnique(h, 0x800, r / 8, r % 8 * 0x100 + 8 * imm5 + rn);
    DivUnique(h, 0x1000, r / 16, r % 16 * 0x100 + 8 * imm5 + rn);
  }

  lemma ShortDecodes(op: int, rn: int)
    requires 0 <= op < 2 && 0 <= rn < 8
    ensures var h := 0xB108 + op * 0x800 + rn;
            !IsThumb2(h) && DecodeNarrow(h) == CompareJump(op == 1, rn, 2)
  {
    var h := 0xB108 + op * 0x800 + rn;
    DivUnique(h, 0x1000, 11, 0x108 + op * 0x800 + rn);
    DivUnique(h, 0x2000, 5, 0x1108 + op * 0x800 + rn);
    DivUnique(h, 0x800, 22 + op, 0x108 + rn);
    DivUnique(h, 0x400, 44 + 2 * op, 0x108 + rn);
    DivUnique(h, 0x200, 88 + 4 * op, 0x108 + rn);
    DivUnique(h, 0x100, 177 + 8 * op, 8 + rn);
    DivUnique(h, 8, 0x1621 + op * 0x100, rn);
    hide IsThumb2;
  }

  lemma ComparePieces(h: Half, p: U32)
    requires IsCompareBranch(h)
    ensures DecodeNarrow(h) == CompareJump(Bits(h, 0x800, 2) == 1, h % 8, CompareOffset(h))
    ensures NarrowPiece(h, p) ==
            Piece([ShortCompare(h), NOP] + BranchCode(0, false) + LiteralCode(PC, 0), 4, Wrap(p + CompareOffset(h) + 1), true)
  {
    CompareClasses(h);
    hide Bits, IsHigh, IsNarrowLdr, IsNarrowAdr, IsNarrowCond, IsCompareBranch, BranchCode, LiteralCode, Wrap, CompareOffset, ShortCompare,
         HighRm;
  }

  lemma CompareClasses(h: Half)
    requires IsCompareBranch(h)
    ensures !IsHigh(h) && !IsNarrowLdr(h) && !IsNarrowAdr(h) && !IsNarrowCond(h) && h / 0x100 != 0xbf
  {
    DivUnique(h, 0x1000, 11, h - 0xB000);
    var r := h / 0x100;
    DivUnique(h, 0x400, r / 4, r % 4 * 0x100 + h % 0x100);
    DivUnique(h, 0x800, r / 8, r % 8 * 0x100 + h % 0x100);
  }

  lemma CompareStep(e: Env, base: U32, ch: seq<Half>, k: nat, a: Half, ifNonZero: bool, rn: int, d: Core)
    requires Holds(e, base, ch) && base % 4 == 0 && k < |ch|
    requires !IsThumb2(a) && DecodeNarrow(a) == CompareJump(ifNonZero, rn, 2) && ch[k] == a
    ensures Step(e, Here(base, k, d)) == Here(base, if (Get(d, rn) != 0) == ifNonZero then k + 3 else k + 1, d)
  {
    hide Holds, At, Wrap, Step, DecodeNarrow, Go, Odd, IsThumb2, Get;
    StepAt(e, base, ch, k, Narrow(a), d);
    NextAt(base, k, 3);
    AtEven(base, k + 3);
    GoOdd(At(base, k + 3), d);
  }

  /** CBZ and CBNZ, for all inputs.  A branch that the original takes lands on the second
      halfword of the emitted B.W; one that it does not take goes to the target, or, when
      that lies in the range, to the start of the chunk in A32 state. */
  lemma CompareBranchLands(e: Env, block: seq<Code>, origin: U32, size: int, base: U32, i: nat, d: Core) returns (n: nat)
    requires InMemory(e, block, origin, size, base) && i < |block| && block[i].Narrow? && IsCompareBranch(block[i].h)
    ensures Decode(block[i]).CompareJump?
    ensures var j, start, v := Decode(block[i]), Start(block, origin, i), Wrap(PcOf(block, origin, i) + CompareOffset(block[i].h) + 1);
            && start + 6 == Pos(block, origin, i + 1) && j.offset == CompareOffset(block[i].h)
            && Run(e, n, Here(base, start, d)) ==
               if (Get(d, j.rn) != 0) == j.ifNonZero then Here(base, start + 3, d)
               else Go(if InOrigin(v, origin, size) then base else v, d)
  {
    hide Chunk, Pos, Start, Relocatable, InReach, Holds, At, Run, Wrap, Step, PcOf, DecodeNarrow, NarrowPiece, LiteralCode, BranchCode,
         IsCompareBranch, Bits, Lo, Hi, Go, IsThumb2, ShortCompare, CompareOffset, FixedData, ReloMap, InOrigin, Get;
    var h, k, p, ch := block[i].h, Start(block, origin, i), PcOf(block, origin, i), Chunk(block, origin, size, base);
    var data := Wrap(p + CompareOffset(h) + 1);
    ComparePieces(h, p);
    CompareFields(h);
    ShortDecodes(Bits(h, 0x800, 2), h % 8);
    PcEven(block, origin, i);
    OffsetEven(h);
    OddLabel(p, CompareOffset(h));
    OddFixed(block, origin, size, base, data);
    var q := NarrowCondAt(block, origin, size, base, i, ShortCompare(h), 0, data);
    n := CompareRuns(e, base, ch, k, ShortCompare(h), Bits(h, 0x800, 2) == 1, h % 8, q, if InOrigin(data, origin, size) then base else data, d);
  }

  lemma OffsetEven(h: Half)
    ensures CompareOffset(h) % 2 == 0
  {
    hide Bits;
    TwiceIsEven(Bits(h, 0x200, 2) * 0x20 + Bits(h, 8, 32));
  }

  lemma CompareRuns(e: Env, base: U32, ch: seq<Half>, k: nat, a: Half, ifNonZero: bool, rn: int, q: nat, v: U32, d: Core) returns (n: nat)
    requires Holds(e, base, ch) && base % 4 == 0 && k % 2 == 0 && k + 6 <= q && q + 1 < |ch| && 2 * (q - k) - 12 < 0x1000
    requires !IsThumb2(a) && DecodeNarrow(a) == CompareJump(ifNonZero, rn, 2)
    requires ch[k] == a && ch[k + 1] == NOP && [ch[k + 2], ch[k + 3]] == BranchCode(0, false)
    requires [ch[k + 4], ch[k + 5]] == LiteralCode(PC, 2 * (q - k) - 12) && ch[q] == Lo(v) && ch[q + 1] == Hi(v)
    ensures Run(e, n, Here(base, k, d)) == if (Get(d, rn) != 0) == ifNonZero then Here(base, k + 3, d) else Go(v, d)
  {
    hide Holds, At, Run, Wrap, Step, DecodeNarrow, LiteralCode, BranchCode, Lo, Hi, Go, IsThumb2, Get, Here;
    CompareStep(e, base, ch, k, a, ifNonZero, rn, d);
    OneStep(e, Here(base, k, d));
    n := 1;
    if (Get(d, rn) != 0) != ifNonZero {
      SkippedRuns(e, base, ch, k + 1, q, v, d);
      RunAdd(e, 1, 3, Here(base, k, d));
      n := 4;
    }
  }

  /** A NOP, `b.w` to the next word, and a literal load of PC. */
  lemma SkippedRuns(e: Env, base: U32, ch: seq<Half>, k: nat, q: nat, v: U32, d: Core)
    requires Holds(e, base, ch) && base % 4 == 0 && k % 2 == 1 && k + 5 <= q && q + 1 < |ch| && 2 * (q - k) - 10 < 0x1000
    requires ch[k] == NOP && [ch[k + 1], ch[k + 2]] == BranchCode(0, false)
    requires [ch[k + 3], ch[k + 4]] == LiteralCode(PC, 2 * (q - k) - 10) && ch[q] == Lo(v) && ch[q + 1] == Hi(v)
    ensures Run(e, 3, Here(base, k, d)) == Go(v, d)
  {
    hide Holds, At, Run, Wrap, Step, LiteralCode, BranchCode, Lo, Hi, Go, Here;
    NopRuns(e, base, ch, k, d);
    OneStep(e, Here(base, k, d));
    RunBranch(e, base, ch, k + 1, 0, false, d);
    RunLiteral(e, base, ch, k + 3, q, PC, v, d);
    TwoSteps(e, Here(base, k + 1, d));
    RunAdd(e, 1, 2, Here(base, k, d));
  }

  // ---------------------------------------------------------------- the wide ADR

  lemma AdrPieces(h1: Half, h2: Half, p: U32)
    requires TakenForAdr(h1, h2)
    ensures WidePiece(h1, h2, p) == Unlabelled(LiteralCode(AdrRd(h2), 4) + BranchCode(0, false) + AddressCode(AdrAddress(h1, h2, p)))
  {
    assert h2 / 0x8000 == 0;
    hide Bits, Op3, LiteralCode, BranchCode, AddressCode, AdrAddress, AdrRd, AdrOffset, BranchOffset, BlxOffset, CondOffset;
  }

  lemma FirstHalfFields(h: Half)
    ensures 0 <= h / 0x800 < 32 && 0 <= h % 16 < 16 && forall b :: b in {0x400, 0x200, 0x100, 0x80, 0x40, 0x20, 0x10} ==> 0 <= Bits(h, b, 2) < 2
    ensures h == h / 0x800 * 0x800 + Bits(h, 0x400, 2) * 0x400 + Bits(h, 0x200, 2) * 0x200 + Bits(h, 0x100, 2) * 0x100
                 + Bits(h, 0x80, 2) * 0x80 + Bits(h, 0x40, 2) * 0x40 + Bits(h, 0x20, 2) * 0x20 + Bits(h, 0x10, 2) * 0x10 + h % 16
  {
    Peel(h, 0x10, 2);
    Peel(h, 0x20, 2);
    Peel(h, 0x40, 2);
    Peel(h, 0x80, 2);
    Peel(h, 0x100, 2);
    Peel(h, 0x200, 2);
    Peel(h, 0x400, 2);
  }

  /** Which instructions are taken for ADR: half of all ADRs, half of the MOVWs of a constant
      that starts with 15 (0xf24f), and encodings that are not allocated (0xf2ef). */
  lemma TakenExactly(h1: Half, h2: Half)
    ensures TakenForAdr(h1, h2) <==>
            h1 - Bits(h1, 0x400, 2) * 0x400 in {0xf20f, 0xf2af, 0xf24f, 0xf2ef} && h2 < 0x8000 && Bits(h2, 0x40, 2) == 0
  {
    FirstHalfFields(h1);
    hide Bits;
  }

  /** The value that the relocated ADR loads is the original's if and only if the PC is aligned. */
  lemma WideAdrValue(h1: Half, h2: Half, p: U32)
    requires p % 2 == 0
    ensures AdrAddress(h1, h2, p) == Wrap(Align4(p) + AdrOffset(h1, h2)) <==> p % 4 == 0
  {
    hide AdrOffset, Wrap, Align4;
    var r := Residue(p);
    if r == 2 { WrapApart(p + AdrOffset(h1, h2), 2); }
  }

  /** What is taken for a wide ADR, for all inputs: it loads its value and runs into the word that holds it,
      four bytes short of the next instruction. */
  lemma WideAdrLands(e: Env, block: seq<Code>, origin: U32, size: int, base: U32, i: nat, d: Core)
    requires InMemory(e, block, origin, size, base) && i < |block| && block[i].Wide? && TakenForAdr(block[i].h1, block[i].h2)
    requires AdrRd(block[i].h2) != PC
    ensures var x, start := block[i], Start(block, origin, i);
            && start + 6 == Pos(block, origin, i + 1)
            && Run(e, 2, Here(base, start, d)) ==
               Here(base, start + 4, Set(d, AdrRd(x.h2), AdrAddress(x.h1, x.h2, PcOf(block, origin, i))))
  {
    hide Chunk, Pos, Start, Relocatable, InReach, Holds, At, Run, Wrap, Step, PcOf, WidePiece, DecodeWide, LiteralCode, BranchCode,
         TakenForAdr, Lo, Hi, AdrRd, AdrAddress, Set;
    var x, k, p, ch := block[i], Start(block, origin, i), PcOf(block, origin, i), Chunk(block, origin, size, base);
    var rd, v := AdrRd(x.h2), AdrAddress(x.h1, x.h2, p);
    AdrPieces(x.h1, x.h2, p);
    PlacedCode(block, origin, size, base, i, LiteralCode(rd, 4) + BranchCode(0, false) + AddressCode(v));
    AdrCodeAt(ch, k, rd, v);
    AdrRuns(e, base, ch, k, rd, v, d);
  }

  lemma AdrCodeAt(ch: seq<Half>, k: nat, rd: int, v: U32)
    requires 0 <= rd < 16 && k + 6 <= |ch|
    requires var code := LiteralCode(rd, 4) + BranchCode(0, false) + AddressCode(v);
             forall j :: 0 <= j < |code| ==> ch[k + j] == code[j]
    ensures [ch[k], ch[k + 1]] == LiteralCode(rd, 4) && [ch[k + 2], ch[k + 3]] == BranchCode(0, false)
    ensures ch[k + 4] == Lo(v) && ch[k + 5] == Hi(v)
  {
    hide LiteralCode, BranchCode, Lo, Hi;
    var code := LiteralCode(rd, 4) + BranchCode(0, false) + AddressCode(v);
    PairAt(ch, code, k, 0, LiteralCode(rd, 4));
    PairAt(ch, code, k, 2, BranchCode(0, false));
    assert ch[k + 4] == code[4] && ch[k + 5] == code[5];
  }

  lemma AdrRuns(e: Env, base: U32, ch: seq<Half>, k: nat, rd: int, v: U32, d: Core)
    requires Holds(e, base, ch) && base % 4 == 0 && k % 2 == 0 && k + 6 <= |ch| && 0 <= rd < 15
    requires [ch[k], ch[k + 1]] == LiteralCode(rd, 4) && [ch[k + 2], ch[k + 3]] == BranchCode(0, false)
    requires ch[k + 4] == Lo(v) && ch[k + 5] == Hi(v)
    ensures Run(e, 2, Here(base, k, d)) == Here(base, k + 4, Set(d, rd, v))
  {
    hide Holds, At, Run, Wrap, Step, LiteralCode, BranchCode, Lo, Hi, Set;
    RunLiteral(e, base, ch, k, k + 4, rd, v, d);
    RunBranch(e, base, ch, k + 2, 0, false, Set(d, rd, v));
    TwoSteps(e, Here(base, k, d));
  }

  lemma CopiedAdrPieces(h1: Half, h2: Half, p: U32)
    requires IsAdr(h1, h2) && Bits(h2, 0x40, 2) == 1
    ensures IsThumb2(h1) && DecodeWide(h1, h2) == Adr(AdrRd(h2), AdrOffset(h1, h2)) && WidePiece(h1, h2, p) == Unlabelled([h1, h2])
  {
    assert h2 / 0x8000 == 0 && h1 / 0x10 != 0xf8d && !IsLdrLiteral(h1) && IsThumb2(h1);
    hide Bits, Op3, AdrRd, AdrOffset, BranchOffset, BlxOffset, CondOffset, IsThumb2;
  }

  /** A wide ADR with bit 6 of its constant set is copied.  It then computes its value from
      where the copy is, and is right if and only if that is where the original was. */
  lemma CopiedAdrExact(e: Env, block: seq<Code>, origin: U32, size: int, base: U32, i: nat, d: Core)
    requires InMemory(e, block, origin, size, base) && i < |block| && block[i].Wide?
    requires IsAdr(block[i].h1, block[i].h2) && Bits(block[i].h2, 0x40, 2) == 1
    ensures var rd, off := AdrRd(block[i].h2), AdrOffset(block[i].h1, block[i].h2);
            var a, start := Addr(block, origin, i), Start(block, origin, i);
            && Exec(e, Decode(block[i]), a, d) == Next(Set(d, rd, Wrap(Align4(Wrap(a + 4)) + off)))
            && start + 2 == Pos(block, origin, i + 1)
            && Run(e, 1, Here(base, start, d)) == Here(base, start + 2, Set(d, rd, Wrap(At(base, start + 2) + off)))
            && (Wrap(At(base, start + 2) + off) == Wrap(Align4(Wrap(a + 4)) + off) <==> At(base, start + 2) == Align4(Wrap(a + 4)))
  {
    hide Chunk, Pos, Start, Relocatable, InReach, Holds, At, Run, Wrap, Step, PcOf, WidePiece, DecodeWide, IsThumb2, Bits, Addr,
         IsAdr, AdrRd, AdrOffset, Set, Align4;
    var x, start, ch := block[i], Start(block, origin, i), Chunk(block, origin, size, base);
    var a: int := Addr(block, origin, i);
    CopiedAdrPieces(x.h1, x.h2, PcOf(block, origin, i));
    PlacedCode(block, origin, size, base, i, [x.h1, x.h2]);
    assert ch[start + 0] == [x.h1, x.h2][0] && ch[start + 1] == [x.h1, x.h2][1];
    StepAt(e, base, ch, start, x, d);
    OneStep(e, Here(base, start, d));
    LiteralBase(base, start);
    WrapInjective(At(base, start + 2), Align4(Wrap(a + 4)), AdrOffset(x.h1, x.h2));
  }

  lemma WrapInjective(a: U32, b: U32, d: int)
    ensures Wrap(a + d) == Wrap(b + d) <==> a == b
  {
  }

  // ---------------------------------------------------------------- encodings that fail, in any block

  /** `beq.w` eight bytes on, not taken: the relocated code goes to the word with the target. */
  lemma CondBranchFails(e: Env, block: seq<Code>, origin: U32, size: int, base: U32, i: nat, d: Core) returns (n: nat)
    requires InMemory(e, block, origin, size, base) && i < |block| && block[i] == Wide(0xf000, 0x8004) && !d.flags.z
    ensures Decode(block[i]) == CondJump(0, 8) && !CondHolds(0, d.flags)
    ensures var start := Start(block, origin, i);
            start + 8 == Pos(block, origin, i + 1) && Run(e, n, Here(base, start, d)) == Here(base, start + 6, d)
  {
    WideBeq();
    hide Relocatable, InReach, Chunk, Pos, Start, Holds, Run, Here, Decode, IsBCond, Go;
    n := CondBranchLands(e, block, origin, size, base, i, d);
  }

  lemma WideBeq()
    ensures IsBCond(0xf000, 0x8004) && Decode(Wide(0xf000, 0x8004)) == CondJump(0, 8)
  {
    var x := Wide(0xf000, 0x8004);
    assert x.h1 / 0x800 == 30 && x.h2 / 0x8000 == 1 && Op3(x.h2) == 0;
  }

  /** `beq` 32 bytes on, taken: the relocated code lands 40 bytes on in the chunk. */
  lemma NarrowCondFails(e: Env, block: seq<Code>, origin: U32, size: int, base: U32, i: nat, d: Core) returns (n: nat)
    requires InMemory(e, block, origin, size, base) && i < |block| && block[i] == Narrow(0xd010) && d.flags.z
    ensures Decode(block[i]) == CondJump(0, 32) && CondHolds(0, d.flags)
    ensures Run(e, n, Here(base, Start(block, origin, i), d)) == Here(base, Start(block, origin, i) + 20, d)
  {
    NarrowBeq();
    hide Relocatable, InReach, Chunk, Pos, Start, Holds, Run, Here, Decode, IsNarrowCond, Go, Bits, ShortOffset, NarrowImm, FixedData;
    n := NarrowCondLands(e, block, origin, size, base, i, d);
  }

  lemma NarrowBeq()
    ensures IsNarrowCond(0xd010) && Bits(0xd010, 0x100, 16) == 0 && NarrowImm(0xd010) == 16 && ShortOffset(0xd010) == 18
    ensures Decode(Narrow(0xd010)) == CondJump(0, 32)
  {
    var x := Narrow(0xd010);
    assert x.h / 0x1000 == 13 && x.h / 0x400 == 52 && x.h / 0x800 == 26;
  }

  lemma FirstPc(block: seq<Code>)
    requires block != []
    ensures PcOf(block, 0x1000, 0) == 0x1004 && Addr(block, 0x1000, 0) == 0x1000
  {
  }

  /** `ldr pc, [pc, #8]` at 0x1000: the original goes where the word at 0x100c says, the
      relocated code to 0x100c itself. */
  lemma LoadPcFails(e: Env, block: seq<Code>, size: int, base: U32, d: Core)
    requires InMemory(e, block, 0x1000, size, base) && block != [] && block[0] == Wide(0xf8df, 0xf008)
    ensures Exec(e, Decode(block[0]), 0x1000, d) == Goes(d, Read32(e, d, 0x100c))
    ensures Run(e, 1, Here(base, Start(block, 0x1000, 0), d)) == Machine(0x100c, false, d)
  {
    LdrPc();
    hide Relocatable, InReach, Chunk, Pos, Start, Holds, Run, Here, Decode, Read32, PcOf, LiteralAddress;
    LoadPcLands(e, block, 0x1000, size, base, 0, d);
    FirstPc(block);
  }

  lemma LdrPc()
    ensures Decode(Wide(0xf8df, 0xf008)) == LoadLiteral(PC, 8) && LiteralAddress(0xf8df, 0xf008, 0x1004) == 0x100c
  {
    var x := Wide(0xf8df, 0xf008);
    assert x.h1 / 0x800 == 31;
  }

  /** `cbz r0` four bytes on at 0x1000, not taken: the relocated code takes it. */
  lemma CompareBranchFails(e: Env, block: seq<Code>, size: int, base: U32, d: Core) returns (n: nat)
    requires InMemory(e, block, 0x1000, size, base) && block != [] && block[0] == Narrow(0xb110) && 0 <= size <= 8 && Get(d, 0) != 0
    ensures Exec(e, Decode(block[0]), 0x1000, d) == Next(d)
    ensures Run(e, n, Here(base, Start(block, 0x1000, 0), d)) == Machine(0x1008, true, d)
  {
    Cbz();
    hide Relocatable, InReach, Chunk, Pos, Start, Holds, Run, Here, DecodeNarrow, CompareOffset, IsCompareBranch, Get, PcOf, InOrigin;
    n := CompareBranchLands(e, block, 0x1000, size, base, 0, d);
    FirstPc(block);
    RangeIs(0x1009, 0x1000, size);
  }

  lemma Cbz()
    ensures IsCompareBranch(0xb110) && CompareOffset(0xb110) == 4 && DecodeNarrow(0xb110) == CompareJump(false, 0, 4)
  {
    var x := Narrow(0xb110);
    assert x.h / 0x1000 == 11 && x.h / 0x400 == 44 && x.h / 0x800 == 22 && x.h / 0x100 == 177;
  }

  /** `adr.w r0, #4` at 0x1000: the relocated code has the right value and runs into it. */
  lemma WideAdrFails(e: Env, block: seq<Code>, size: int, base: U32, d: Core)
    requires InMemory(e, block, 0x1000, size, base) && block != [] && block[0] == Wide(0xf20f, 0x0004)
    ensures Exec(e, Decode(block[0]), 0x1000, d) == Next(Set(d, 0, 0x1008))
    ensures var start := Start(block, 0x1000, 0);
            start + 6 == Pos(block, 0x1000, 1) && Run(e, 2, Here(base, start, d)) == Here(base, start + 4, Set(d, 0, 0x1008))
  {
    WideAdr();
    hide Relocatable, InReach, Chunk, Pos, Start, Holds, Run, Here, Decode, PcOf, TakenForAdr, AdrRd, AdrAddress, Set;
    WideAdrLands(e, block, 0x1000, size, base, 0, d);
    FirstPc(block);
  }

  /** `movw r0, #0xf000` at 0x1000 is taken for `adr.w r0, #0`: the relocated code loads 0x1004. */
  lemma MovwTakenForAdr(e: Env, block: seq<Code>, size: int, base: U32, d: Core)
    requires InMemory(e, block, 0x1000, size, base) && block != [] && block[0] == Wide(0xf24f, 0)
    ensures Decode(block[0]) == Other(block[0])
    ensures var start := Start(block, 0x1000, 0); Run(e, 2, Here(base, start, d)) == Here(base, start + 4, Set(d, 0, 0x1004))
  {
    Movw();
    hide Relocatable, InReach, Chunk, Pos, Start, Holds, Run, Here, Decode, PcOf, TakenForAdr, AdrRd, AdrAddress, Set;
    WideAdrLands(e, block, 0x1000, size, base, 0, d);
    FirstPc(block);
  }

  lemma Movw()
    ensures TakenForAdr(0xf24f, 0) && AdrRd(0) == 0 && AdrAddress(0xf24f, 0, 0x1004) == 0x1004
    ensures Decode(Wide(0xf24f, 0)) == Other(Wide(0xf24f, 0))
  {
    hide DecodeWide, TakenForAdr, AdrRd, AdrOffset;
    MovwFields(0xf24f, 0);
    MovwDecode(0xf24f, 0);
  }

  lemma MovwFields(h1: Half, h2: Half)
    requires h1 == 0xf24f && h2 == 0
    ensures TakenForAdr(h1, h2) && AdrRd(h2) == 0 && AdrOffset(h1, h2) == 0
  {
  }

  lemma MovwDecode(h1: Half, h2: Half)
    requires h1 == 0xf24f && h2 == 0
    ensures DecodeWide(h1, h2) == Other(Wide(h1, h2))
  {
    assert h1 / 0x800 == 30 && h2 / 0x8000 == 0 && h1 / 0x10 == 0xf24 && Bits(h1, 0x400, 2) == 0;
    hide Bits, Op3, AdrRd, AdrOffset, BranchOffset, BlxOffset, CondOffset;
  }

  lemma WideAdr()
    ensures TakenForAdr(0xf20f, 0x0004) && AdrRd(0x0004) == 0 && AdrAddress(0xf20f, 0x0004, 0x1004) == 0x1008
    ensures Decode(Wide(0xf20f, 0x0004)) == Adr(0, 4)
  {
    var x := Wide(0xf20f, 0x0004);
    assert x.h1 / 0x800 == 30 && x.h2 / 0x8000 == 0 && x.h1 / 0x10 == 0xf20;
  }

  /** `adr r0, #4` at 0x1000: 0x1008 in the original, 0x1005 in the relocated code. */
  lemma NarrowAdrFails()
    ensures Decode(Narrow(0xa001)) == Adr(0, 4) && Wrap(Align4(0x1004) + 4) == 0x1008
    ensures NarrowPiece(0xa001, 0x1004) == Piece(LiteralCode(0, 0), 0, 0x1005, false)
  {
    var x := Narrow(0xa001);
    assert x.h / 0x800 == 20;
    NarrowAdrs(0xa001, 0x1004);
  }

  // ---------------------------------------------------------------- alignment

  /** The finished code is a whole number of words long, so an arena that serves such requests
      from aligned pages places every chunk at a word boundary. */
  lemma ChunkIsWords(block: seq<Code>, origin: U32, size: int, base: U32)
    requires Relocatable(block) && InReach(block, origin)
    ensures 2 * |Chunk(block, origin, size, base)| % 4 == 0
  {
    hide Relocatable, Layout, LiteralCode, AddressCode, AllLinkable, Fixed, Addr;
    var n, labels := |Layout(block, origin, |block|).buffer|, |FinalLabels(block, origin, size, base)|;
    FinalLike(block, origin, size, base);
    TailLength(n, Addr(block, origin, |block|));
    var words := (n + n % 2) / 2 + 2 + labels;
    DivUnique(4 * words, 4, words, 0);
  }

  lemma TailLength(n: nat, address: U32)
    ensures |TailCode(n, address)| == n % 2 + 4
  {
  }
}
