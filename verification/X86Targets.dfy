/** Where the relative operands of the relocated x64 and x86 code point.
 */
module X86Targets {
  import opened Arithmetic
  import opened MachineWords
  import opened LittleEndian
  import opened X86Relocator

  // ---------------------------------------------------------------- numbers

  lemma Wrap32Unique(x: int, y: int, k: int)
    requires x == y + k * TWO32
    ensures Wrap32(x) == Wrap32(y)
  {
    DivUnique(x, TWO32, y / TWO32 + k, y % TWO32);
  }

  lemma Wrap64Unique(x: int, y: int, k: int)
    requires x == y + k * TWO64
    ensures Wrap64(x) == Wrap64(y)
  {
    DivUnique(x, TWO64, y / TWO64 + k, y % TWO64);
  }

  /** Reading a truncated number back as signed loses a multiple of 2^32. */
  lemma Truncated(x: int) returns (k: int)
    ensures Signed32(Wrap32(x)) == x + k * TWO32
  {
    k := -(x / TWO32);
    if Wrap32(x) >= 0x80000000 { k := k - 1; }
  }

  lemma Truncated64(x: int) returns (k: int)
    ensures Signed64(Wrap64(x)) == x + k * TWO64
  {
    k := -(x / TWO64);
    if Wrap64(x) >= 0x8000_0000_0000_0000 { k := k - 1; }
  }

  predicate Fits32(x: int) { -0x80000000 <= x < 0x80000000 }

  lemma SignedFits(v: U32)
    ensures Fits32(Signed32(v))
  {
  }

  lemma FitsSelf(x: int)
    requires Fits32(x)
    ensures Signed32(Wrap32(x)) == x
  {
    DivUnique(x, TWO32, if x < 0 then -1 else 0, if x < 0 then x + TWO32 else x);
  }

  lemma Equal64(x: int, y: int)
    requires Wrap64(x) == Wrap64(y)
    ensures x == y + (x / TWO64 - y / TWO64) * TWO64
  {
  }

  /** Two numbers of which one is a signed 32-bit value agree modulo 2^64 exactly when the
      other, read as a signed 64-bit value, is that same value. */
  lemma Congruent64(a: int, x: int, delta: int)
    requires Fits32(x)
    ensures Wrap64(a + x) == Wrap64(a + delta) <==> Signed64(Wrap64(delta)) == x
  {
    hide Wrap64, Signed64;
    var k := Truncated64(delta);
    Range64(delta);
    if Signed64(Wrap64(delta)) == x {
      Wrap64Unique(a + x, a + delta, k);
    }
    if Wrap64(a + x) == Wrap64(a + delta) {
      Equal64(a + x, a + delta);
      var j := (a + x) / TWO64 - (a + delta) / TWO64;
      assert x == Signed64(Wrap64(delta)) + (j - k) * TWO64;
      Small(x, Signed64(Wrap64(delta)), j - k);
    }
  }

  lemma Range64(x: int)
    ensures -0x8000_0000_0000_0000 <= Signed64(Wrap64(x)) < 0x8000_0000_0000_0000
  {
  }

  lemma Small(x: int, y: int, k: int)
    requires x == y + k * TWO64 && Fits32(x) && -0x8000_0000_0000_0000 <= y < 0x8000_0000_0000_0000
    ensures x == y
  {
  }

  /** Moving a field keeps its target modulo 2^32, and modulo 2^64 exactly when the
      new displacement fits in 32 signed bits. */
  lemma MovedTarget(ip: U64, relo: U64, was: int, length: int)
    ensures var now := Signed32(Moved(ip, relo, was));
            && Wrap32(relo + length + now) == Wrap32(ip + length + was)
            && (Wrap64(relo + length + now) == Wrap64(ip + length + was) <==>
                Fits32(Signed64(Wrap64(ip + was - relo))))
  {
    hide Wrap32, Wrap64, Signed32, Signed64;
    var delta := ip + was - relo;
    var now := Signed32(Wrap32(delta));
    var k := Truncated(delta);
    Wrap32Unique(relo + length + now, ip + length + was, k);
    SignedFits(Wrap32(delta));
    Congruent64(relo + length, now, delta);
    var s := Signed64(Wrap64(delta));
    if Fits32(s) {
      var j := Truncated64(delta);
      Wrap32Unique(s, delta, j * TWO32);
      FitsSelf(s);
    }
  }

  /** A CALL at 0x8000_0000_1000 moved to a chunk at 0x1000: its low 32 bits are right, its target is not. */
  lemma FarCallMisses()
    ensures var now := Signed32(Moved(0x8000_0000_1000, 0x1000, 0));
            && Wrap32(0x1000 + 5 + now) == Wrap32(0x8000_0000_1000 + 5 + 0)
            && Wrap64(0x1000 + 5 + now) != Wrap64(0x8000_0000_1000 + 5 + 0)
  {
    MovedTarget(0x8000_0000_1000, 0x1000, 0, 5);
    assert Wrap64(0x8000_0000_1000 + 0 - 0x1000) == 0x8000_0000_0000;
    hide Wrap32, Moved, Signed32;
  }

  // ---------------------------------------------------------------- where pieces are

  lemma {:induction false} CodePrefix(src: Source, mode: Mode, block: seq<Insn>, origin: U64, base: U64, i: nat, n: nat)
    requires Relocatable(mode, block) && AllDecode(mode, block) && i <= n <= |block|
    ensures Code(src, mode, block, origin, base, i) <= Code(src, mode, block, origin, base, n)
    decreases n
  {
    hide PieceOf, Code, Wrap64, Relocatable, AllDecode, PieceLength, Off, Pos;
    if i < n {
      CodePrefix(src, mode, block, origin, base, i, n - 1);
      CodeStep(src, mode, block, origin, base, n - 1);
    }
  }

  lemma CodeInWhole(src: Source, mode: Mode, block: seq<Insn>, origin: U64, base: U64, i: nat)
    requires Relocatable(mode, block) && AllDecode(mode, block) && i <= |block|
    ensures Code(src, mode, block, origin, base, i) <= Whole(src, mode, block, origin, base)
  {
    hide Code, Wrap64, Relocatable, AllDecode, Off, Pos, JumpCode;
    CodePrefix(src, mode, block, origin, base, i, |block|);
  }

  /** The code of instruction `i` is at its position. */
  lemma PieceInWhole(src: Source, mode: Mode, block: seq<Insn>, origin: U64, base: U64, i: nat)
    requires Relocatable(mode, block) && AllDecode(mode, block) && i < |block|
    ensures var w, p, k := Whole(src, mode, block, origin, base), Pos(mode, block, i), Off(block, i);
            var piece := PieceOf(src, mode, k, block[i], Wrap64(origin + k), Wrap64(base + p));
            && piece.Piece? && |piece.code| == PieceLength(mode, block[i]) && p + |piece.code| <= |w|
            && w[p..p + |piece.code|] == piece.code
  {
    hide PieceOf, Code, Wrap64, PieceLength, Relocatable, AllDecode, Whole, Off, Pos;
    CodeStep(src, mode, block, origin, base, i);
    CodeInWhole(src, mode, block, origin, base, i + 1);
    var p := Pos(mode, block, i);
    var piece := PieceOf(src, mode, Off(block, i), block[i], Wrap64(origin + Off(block, i)), Wrap64(base + p));
    Inside(Code(src, mode, block, origin, base, i), piece.code, Whole(src, mode, block, origin, base));
  }

  lemma Inside(a: seq<Byte>, b: seq<Byte>, w: seq<Byte>)
    requires a + b <= w
    ensures |a| + |b| <= |w| && w[|a|..|a| + |b|] == b
  {
    assert (a + b)[|a|..|a| + |b|] == b;
  }

  /** The piece of an instruction with a relative field: the original bytes, but for the field. */
  lemma RetargetedPiece(src: Source, mode: Mode, k: int, d: Insn, ip: U64, relo: U64)
    requires Decodes(mode, d) && (IsRip(mode, d) || IsNear(mode, d))
    ensures var f := Field(mode, d);
            && f + 4 <= d.length == PieceLength(mode, d)
            && PieceOf(src, mode, k, d, ip, relo) ==
               Piece(Bytes(src, k, f) + Le32(Moved(ip, relo, Signed32(OldField(src, mode, k, d)))) + Bytes(src, k + f + 4, d.length - f - 4))
  {
    hide Moved, OldField, Le32, Signed32;
    var f := Field(mode, d);
    if d.immOffset == 0 || IsNear(mode, d) {
      assert Bytes(src, k + f + 4, d.length - f - 4) == [];
    }
  }

  lemma Split3(a: seq<Byte>, b: seq<Byte>, c: seq<Byte>, w: seq<Byte>, p: nat)
    requires p + |a| + |b| + |c| <= |w| && w[p..p + |a| + |b| + |c|] == a + b + c
    ensures w[p..p + |a|] == a && w[p + |a|..p + |a| + |b|] == b && w[p + |a| + |b|..p + |a| + |b| + |c|] == c
  {
    var v, n, m := w[p..p + |a| + |b| + |c|], |a| + |b|, |a| + |b| + |c|;
    SliceSlice(w, p, p + m, 0, |a|);
    SliceSlice(w, p, p + m, |a|, n);
    SliceSlice(w, p, p + m, n, m);
    assert v[0..|a|] == a && v[|a|..n] == b && v[n..m] == c;
  }

  lemma SliceSlice(w: seq<Byte>, p: nat, q: nat, i: nat, j: nat)
    requires p <= q <= |w| && i <= j <= q - p
    ensures w[p..q][i..j] == w[p + i..p + j]
  {
    assert forall k :: 0 <= k < j - i ==> w[p..q][i..j][k] == w[p + i..p + j][k];
  }

  // ---------------------------------------------------------------- the theorems

  /** The bytes of a retargeted instruction. */
  lemma RetargetedBytes(src: Source, mode: Mode, block: seq<Insn>, origin: U64, base: U64, i: nat)
    requires Relocatable(mode, block) && AllDecode(mode, block) && i < |block|
    requires IsRip(mode, block[i]) || IsNear(mode, block[i])
    ensures var w, d, p, k := Whole(src, mode, block, origin, base), block[i], Pos(mode, block, i), Off(block, i);
            var f := Field(mode, d);
            && f + 4 <= d.length && p + d.length <= |w|
            && w[p..p + f] == Bytes(src, k, f)
            && w[p + f + 4..p + d.length] == Bytes(src, k + f + 4, d.length - f - 4)
            && w[p + f..p + f + 4] == Le32(Moved(Wrap64(origin + k), Wrap64(base + p), Signed32(OldField(src, mode, k, d))))
  {
    hide PieceOf, Wrap64, PieceLength, Relocatable, Whole, Off, Pos, Moved, OldField, Le32, Signed32, Field, IsRip, IsNear, Decodes, Bytes;
    var w, d, p, k := Whole(src, mode, block, origin, base), block[i], Pos(mode, block, i), Off(block, i);
    var f, ip, relo := Field(mode, d), Wrap64(origin + k), Wrap64(base + p);
    PieceInWhole(src, mode, block, origin, base, i);
    RetargetedPiece(src, mode, k, d, ip, relo);
    hide AllDecode;
    Split3(Bytes(src, k, f), Le32(Moved(ip, relo, Signed32(OldField(src, mode, k, d)))), Bytes(src, k + f + 4, d.length - f - 4), w, p);
  }

  /** The target before and after, for a field of an instruction of `length` bytes. */
  ghost predicate SameTarget(ip: U64, relo: U64, length: int, was: int, now: int) {
    && Wrap32(relo + length + now) == Wrap32(ip + length + was)
    && (Wrap64(relo + length + now) == Wrap64(ip + length + was) <==> Fits32(Signed64(Wrap64(ip + was - relo))))
  }

  lemma RetargetedTarget(src: Source, mode: Mode, block: seq<Insn>, origin: U64, base: U64, i: nat)
    requires Relocatable(mode, block) && AllDecode(mode, block) && i < |block|
    requires IsRip(mode, block[i]) || IsNear(mode, block[i])
    ensures var w, d, p, k := Whole(src, mode, block, origin, base), block[i], Pos(mode, block, i), Off(block, i);
            var f := Field(mode, d);
            && f + 4 <= d.length && p + d.length <= |w|
            && w[p..p + f] == Bytes(src, k, f)
            && w[p + f + 4..p + d.length] == Bytes(src, k + f + 4, d.length - f - 4)
            && SameTarget(Wrap64(origin + k), Wrap64(base + p), d.length,
                          Signed32(OldField(src, mode, k, d)), Signed32(Read32(w[p + f..p + f + 4])))
  {
    hide Wrap64, Wrap32, PieceLength, Relocatable, AllDecode, Whole, Off, Pos, Moved, OldField, Le32, Signed32, Signed64,
         Field, IsRip, IsNear, Read32, Bytes;
    var d, p, k := block[i], Pos(mode, block, i), Off(block, i);
    var ip, relo, was := Wrap64(origin + k), Wrap64(base + p), Signed32(OldField(src, mode, k, d));
    RetargetedBytes(src, mode, block, origin, base, i);
    ReadBack(Moved(ip, relo, was));
    MovedTarget(ip, relo, was, d.length);
  }

  /** Every CALL or JMP rel32 and, on x64, every RIP-relative operand keeps its bytes but for
      the 32-bit field, and its target: modulo 2^32 always, and as a 64-bit address exactly
      when the new displacement fits in 32 signed bits. */
  lemma TargetPreserved(src: Source, mode: Mode, block: seq<Insn>, origin: U64, base: U64, i: nat)
    requires Relocatable(mode, block) && AllDecode(mode, block) && i < |block|
    requires var d := block[i];
             if mode == X64 && d.rip then !(0x70 <= d.opcode <= 0x7F) && d.opcode != 0xEB else d.opcode == 0xE8 || d.opcode == 0xE9
    ensures var w, d, p, k := Whole(src, mode, block, origin, base), block[i], Pos(mode, block, i), Off(block, i);
            var f := if mode == X64 && d.rip then d.dispOffset else d.immOffset;
            && f + 4 <= d.length && p + d.length <= |w|
            && w[p..p + f] == Bytes(src, k, f)
            && w[p + f + 4..p + d.length] == Bytes(src, k + f + 4, d.length - f - 4)
            && SameTarget(Wrap64(origin + k), Wrap64(base + p), d.length,
                          Signed32(Read32(Bytes(src, k + f, 4))), Signed32(Read32(w[p + f..p + f + 4])))
  {
    hide Wrap64, Relocatable, AllDecode, Whole, Off, Pos, Signed32, Field, IsRip, IsNear, Read32, Bytes, SameTarget;
    Recognised(mode, block[i]);
    RetargetedTarget(src, mode, block, origin, base, i);
  }

  lemma Recognised(mode: Mode, d: Insn)
    ensures IsRip(mode, d) <==> mode == X64 && d.rip && !(0x70 <= d.opcode <= 0x7F) && d.opcode != 0xEB
    ensures IsNear(mode, d) <==> (d.opcode == 0xE8 || d.opcode == 0xE9) && !(mode == X64 && d.rip)
    ensures IsRip(mode, d) || IsNear(mode, d) ==> Field(mode, d) == if mode == X64 && d.rip then d.dispOffset else d.immOffset
  {
  }

  /** Every other instruction but the short jumps is copied. */
  lemma CopiedUnchanged(src: Source, mode: Mode, block: seq<Insn>, origin: U64, base: U64, i: nat)
    requires Relocatable(mode, block) && AllDecode(mode, block) && i < |block|
    requires var d := block[i];
             !(0x70 <= d.opcode <= 0x7F) && d.opcode != 0xEB && !(mode == X64 && d.rip) && d.opcode != 0xE8 && d.opcode != 0xE9
    ensures var w, p, n := Whole(src, mode, block, origin, base), Pos(mode, block, i), block[i].length;
            p + n <= |w| && w[p..p + n] == Bytes(src, Off(block, i), n)
  {
    hide Wrap64, Whole, Off, Pos, Moved, OldField, Le32, AllDecode, Bytes;
    PieceInWhole(src, mode, block, origin, base, i);
  }

  lemma JumpInWhole(src: Source, mode: Mode, block: seq<Insn>, origin: U64, base: U64)
    requires Relocatable(mode, block) && AllDecode(mode, block)
    ensures var w, p, rest := Whole(src, mode, block, origin, base), Pos(mode, block, |block|), Wrap64(origin + Off(block, |block|));
            p <= |w| && w[p..] == JumpCode(mode, Wrap64(base + p), rest)
  {
    hide Wrap64, Relocatable, AllDecode, Code, JumpCode, Off, Pos;
  }

  lemma FarJump(at: U64, to: U64)
    ensures var b := JumpCode(X64, at, to);
            && b[..2] == [0xFF, 0x25] && Read32(b[2..6]) == 0
            && Read32(b[6..10]) + TWO32 * Read32(b[10..14]) == to
  {
    hide Le32, Read32;
    var b, lo, hi := JumpCode(X64, at, to), to % TWO32, to / TWO32;
    ReadBack(0);
    ReadBack(lo);
    ReadBack(hi);
    assert b[2..6] == Le32(0) && b[6..14] == Le32(lo) + Le32(hi);
    assert b[6..10] == b[6..14][..4] && b[10..14] == b[6..14][4..];
  }

  lemma NearJump(at: U64, to: U64)
    ensures var b := JumpCode(X86, at, to);
            b[..1] == [0xE9] && Wrap32(at + 5 + Signed32(Read32(b[1..5]))) == Wrap32(to)
  {
    hide Le32, Read32, Wrap32, Signed32;
    var b, v := JumpCode(X86, at, to), Wrap32(to - (at + 5));
    assert b[1..5] == Le32(v);
    ReadBack(v);
    var k := Truncated(to - (at + 5));
    Wrap32Unique(at + 5 + Signed32(v), to, k);
  }

  /** The closing jump leads to the first instruction that was not copied: on x64 through
      the eight bytes that follow `jmp [rip + 0]`, on x86 by its offset. */
  lemma ClosingJump(src: Source, mode: Mode, block: seq<Insn>, origin: U64, base: U64)
    requires Relocatable(mode, block) && AllDecode(mode, block)
    ensures var w, p, rest := Whole(src, mode, block, origin, base), Pos(mode, block, |block|), Wrap64(origin + Off(block, |block|));
            && |w| == p + (if mode == X64 then 14 else 5)
            && var b := w[p..];
               match mode
               case X64 =>
                 && b[..2] == [0xFF, 0x25] && Read32(b[2..6]) == 0
                 && Read32(b[6..10]) + TWO32 * Read32(b[10..14]) == rest
               case X86 => b[..1] == [0xE9] && Wrap32(Wrap64(base + p) + 5 + Signed32(Read32(b[1..5]))) == Wrap32(rest)
  {
    hide Wrap64, Relocatable, AllDecode, Le32, Read32, Wrap32, Signed32, Whole, JumpCode, Off, Pos;
    JumpInWhole(src, mode, block, origin, base);
    var at, rest := Wrap64(base + Pos(mode, block, |block|)), Wrap64(origin + Off(block, |block|));
    match mode
    case X64 => FarJump(at, rest);
    case X86 => NearJump(at, rest);
  }

  // ---------------------------------------------------------------- short jumps

  lemma Wrap32Apart(y: int, k: int)
    requires -TWO32 < k < TWO32 && k != 0
    ensures Wrap32(y + k) != Wrap32(y)
  {
    hide Wrap32;
    if Wrap32(y + k) == Wrap32(y) { var e := Same32(y + k, y); }
  }

  /** Two targets are the same address: 64 bits count on x64, 32 on x86. */
  predicate SameAddress(mode: Mode, x: int, y: int) {
    match mode
    case X64 => Wrap64(x) == Wrap64(y)
    case X86 => Wrap32(x) == Wrap32(y)
  }

  lemma Wider(x: int, y: int)
    requires Wrap64(x) == Wrap64(y)
    ensures Wrap32(x) == Wrap32(y)
  {
    hide Wrap32, Wrap64;
    Equal64(x, y);
    Wrap32Unique(x, y, (x / TWO64 - y / TWO64) * TWO32);
  }

  /** The last byte of an instruction as a signed number. */
  function LastByte(src: Source, k: int, d: Insn): int {
    var b := src.byte(k + d.length - 1);
    if b < 0x80 then b else b - 0x100
  }

  /** A short conditional jump keeps its condition. It is widened to six bytes without the difference entering its
      offset: it goes `6 - d.length` bytes past its target, so it reaches it exactly when it
      was six bytes long and, on x64, the new offset fits in 32 signed bits. */
  lemma ShortJccExact(src: Source, mode: Mode, k: int, d: Insn, ip: U64, relo: U64)
    requires 0x70 <= d.opcode <= 0x7F && Decodes(mode, d)
    ensures var code, was := PieceOf(src, mode, k, d, ip, relo).code, LastByte(src, k, d);
            && |code| == 6 && code[0] == 0x0F && code[1] == d.opcode + 0x10
            && var now := Signed32(Read32(code[2..6]));
               && Wrap32(relo + 6 + now) == Wrap32(ip + d.length + was + (6 - d.length))
               && (SameAddress(mode, relo + 6 + now, ip + d.length + was) <==>
                   d.length == 6 && (mode == X64 ==> Fits32(Signed64(Wrap64(ip + was - relo)))))
  {
    hide Wrap32, Wrap64, Signed32, Signed64, Le32, Read32, Moved;
    var was := LastByte(src, k, d);
    var code := [0x0F, 0x80 + d.opcode % 0x10] + Le32(Moved(ip, relo, was));
    assert code[2..6] == Le32(Moved(ip, relo, was));
    ReadBack(Moved(ip, relo, was));
    MovedTarget(ip, relo, was, 6);
    var x, y := relo + 6 + Signed32(Moved(ip, relo, was)), ip + d.length + was;
    if d.length != 6 {
      Wrap32Apart(y, 6 - d.length);
      if Wrap64(x) == Wrap64(y) { Wider(x, y); }
    }
  }

  /** A short jump, rewritten to five bytes with an offset cut to eight bits, reaches its target
      exactly when it was five bytes long and the new offset fits in eight signed bits. */
  lemma ShortJmpExact(src: Source, mode: Mode, k: int, d: Insn, ip: U64, relo: U64)
    requires d.opcode == 0xEB && Decodes(mode, d)
    ensures var code, was := PieceOf(src, mode, k, d, ip, relo).code, LastByte(src, k, d);
            && |code| == 5 && code[0] == 0xE9
            && (SameAddress(mode, relo + 5 + Signed32(Read32(code[1..5])), ip + d.length + was) <==>
                d.length == 5 && -0x80 <= NewOffset(mode, ip + was - relo) < 0x80)
  {
    OffsetIs(src, k, d);
    hide Wrap32, Wrap64, Signed32, Signed64, Le32, Read32, ShortOffset, LastByte, Moved, Signed8;
    var was := LastByte(src, k, d);
    var v := Wrap32(Signed8(Moved(ip, relo, was) % 0x100));
    var code := [0xE9] + Le32(v);
    assert code[1..5] == Le32(v);
    ReadBack(v);
    CutOffset(ip, relo, was, d.length);
    assert Moved(ip, relo, was) == Wrap32(ip + was - relo) by { MovedIs(ip, relo, was); }
    if mode == X64 { CutOffset64(ip, relo, was, d.length); }
  }

  lemma OffsetIs(src: Source, k: int, d: Insn)
    ensures ShortOffset(src, k, d) == LastByte(src, k, d)
  {
  }

  /** The offset before it is cut, as a signed number of the machine's width. */
  function NewOffset(mode: Mode, delta: int): int {
    if mode == X64 then Signed64(Wrap64(delta)) else Signed32(Wrap32(delta))
  }

  lemma MovedIs(ip: U64, relo: U64, was: int)
    ensures Moved(ip, relo, was) == Wrap32(ip + was - relo)
  {
  }

  lemma CutOffset64(ip: U64, relo: U64, was: int, length: int)
    requires 1 <= length <= 15
    ensures var s := Signed32(Wrap32(Signed8(Moved(ip, relo, was) % 0x100)));
            Wrap64(relo + 5 + s) == Wrap64(ip + length + was) <==>
            length == 5 && -0x80 <= Signed64(Wrap64(ip + was - relo)) < 0x80
  {
    hide Wrap32, Wrap64, Signed32, Signed64, Signed8, Moved;
    var m, delta := Moved(ip, relo, was), ip + was - relo;
    var b := Signed8(m % 0x100);
    var a := LowByte(m);
    ByteFits(b);
    CutOffset(ip, relo, was, length);
    Congruent64(relo + 5, b, delta);
    var t := Signed64(Wrap64(delta));
    if Wrap64(relo + 5 + b) == Wrap64(ip + length + was) { Wider(relo + 5 + b, ip + length + was); }
    if length == 5 && -0x80 <= t < 0x80 {
      var j := Truncated64(delta);
      Wrap32Unique(t, delta, j * TWO32);
      FitsSelf(t);
      MovedIs(ip, relo, was);
      var k := SignedParts(m);
      SameByte(b, t, a - k * 0x1000000);
    }
  }

  /** So the usual forms, of two bytes, never do. */
  lemma ShortJumpsMiss(src: Source, mode: Mode, k: int, d: Insn, ip: U64, relo: U64)
    requires (0x70 <= d.opcode <= 0x7F || d.opcode == 0xEB) && Decodes(mode, d) && d.length == 2
    ensures var code, was := PieceOf(src, mode, k, d, ip, relo).code, LastByte(src, k, d);
            && |code| >= 5
            && !SameAddress(mode, relo + |code| + Signed32(Read32(code[|code| - 4..])), ip + 2 + was)
  {
    hide Wrap32, Wrap64, Signed32, Signed64, Le32, Read32, LastByte, Moved, Signed8, PieceOf, SameAddress;
    PieceHasLength(src, mode, k, d, ip, relo);
    var code := PieceOf(src, mode, k, d, ip, relo).code;
    if d.opcode != 0xEB {
      ShortJccExact(src, mode, k, d, ip, relo);
      assert code[2..6] == code[|code| - 4..];
    } else {
      ShortJmpExact(src, mode, k, d, ip, relo);
      assert code[1..5] == code[|code| - 4..];
    }
  }

  /** The relocator looks at the opcode byte alone, so a two-byte opcode 0F 70 to 0F 7F, such as
      an MMX shift by an immediate, is replaced by a conditional jump. */
  lemma EscapedBecomesJump(src: Source, mode: Mode, k: int, d: Insn, ip: U64, relo: U64)
    requires d.escaped && 0x70 <= d.opcode <= 0x7F
    ensures var piece := PieceOf(src, mode, k, d, ip, relo);
            piece.Piece? && |piece.code| == 6 && piece.code[0] == 0x0F && 0x80 <= piece.code[1] <= 0x8F
  {
  }

  // ---------------------------------------------------------------- near conditional jumps

  /** Jcc rel32 is copied with its offset as it is: it keeps its target if and only if it did
      not move. */
  lemma NearJccExact(src: Source, mode: Mode, block: seq<Insn>, origin: U64, base: U64, i: nat)
    requires Relocatable(mode, block) && AllDecode(mode, block) && i < |block|
    requires var d := block[i]; d.escaped && 0x80 <= d.opcode <= 0x8F && !(mode == X64 && d.rip)
    ensures var w, d, p, k := Whole(src, mode, block, origin, base), block[i], Pos(mode, block, i), Off(block, i);
            var ip, relo := Wrap64(origin + k), Wrap64(base + p);
            && 4 <= d.length && p + d.length <= |w| && w[p..p + d.length] == Bytes(src, k, d.length)
            && var now := Signed32(Read32(w[p + d.length - 4..p + d.length]));
               && now == Signed32(Read32(Bytes(src, k + d.length - 4, 4)))
               && (SameAddress(mode, relo + d.length + now, ip + d.length + now) <==>
                   if mode == X64 then relo == ip else Wrap32(relo) == Wrap32(ip))
  {
    hide Wrap32, Wrap64, Signed32, Read32, Whole, Off, Pos, Relocatable, AllDecode, Decodes, Bytes, SameAddress;
    NearJccBytes(src, mode, block, origin, base, i);
    var w, p := Whole(src, mode, block, origin, base), Pos(mode, block, i);
    var n := block[i].length;
    NotMoved(mode, Wrap64(origin + Off(block, i)), Wrap64(base + p), n + Signed32(Read32(w[p + n - 4..p + n])));
  }

  lemma NearJccBytes(src: Source, mode: Mode, block: seq<Insn>, origin: U64, base: U64, i: nat)
    requires Relocatable(mode, block) && AllDecode(mode, block) && i < |block|
    requires var d := block[i]; d.escaped && 0x80 <= d.opcode <= 0x8F && !(mode == X64 && d.rip)
    ensures var w, n, p, k := Whole(src, mode, block, origin, base), block[i].length, Pos(mode, block, i), Off(block, i);
            && 4 <= n && p + n <= |w| && w[p..p + n] == Bytes(src, k, n)
            && w[p + n - 4..p + n] == Bytes(src, k + n - 4, 4)
  {
    hide Whole, Off, Pos, Relocatable, Bytes, IsRip;
    var w, n, p, k := Whole(src, mode, block, origin, base), block[i].length, Pos(mode, block, i), Off(block, i);
    assert Decodes(mode, block[i]);
    hide Decodes, AllDecode;
    CopiedUnchanged(src, mode, block, origin, base, i);
    SliceSlice(w, p, p + n, n - 4, n);
    LastFour(src, k, n);
  }

  lemma LastFour(src: Source, k: int, n: nat)
    requires n >= 4
    ensures Bytes(src, k, n)[n - 4..n] == Bytes(src, k + n - 4, 4)
  {
  }

  lemma NotMoved(mode: Mode, ip: U64, relo: U64, x: int)
    ensures SameAddress(mode, relo + x, ip + x) <==> if mode == X64 then relo == ip else Wrap32(relo) == Wrap32(ip)
  {
    hide Wrap32, Wrap64;
    match mode
    case X64 =>
      if Wrap64(relo + x) == Wrap64(ip + x) { Equal64(relo + x, ip + x); }
    case X86 =>
      if Wrap32(relo + x) == Wrap32(ip + x) {
        var e := Same32(relo + x, ip + x);
        Wrap32Unique(relo, ip, e);
      }
      if Wrap32(relo) == Wrap32(ip) {
        var e := Same32(relo, ip);
        Wrap32Unique(relo + x, ip + x, e);
      }
  }

  lemma CutOffset(ip: U64, relo: U64, was: int, length: int)
    requires 1 <= length <= 15
    ensures var m := Moved(ip, relo, was);
            Wrap32(relo + 5 + Signed32(Wrap32(Signed8(m % 0x100)))) == Wrap32(ip + length + was) <==>
            length == 5 && -0x80 <= Signed32(m) < 0x80
  {
    hide Wrap32, Signed32, Signed8, Moved;
    var m := Moved(ip, relo, was);
    var s := Signed8(m % 0x100);
    var a := LowByte(m);
    var c := LowMoved(ip, relo, was);
    var t := SignedParts(m);
    ByteFits(s);
    // the new target differs from the old by 5 - length + 256 * a, modulo 2^32
    if length == 5 && -0x80 <= Signed32(m) < 0x80 {
      SameByte(s, Signed32(m), a - t * 0x1000000);
      Wrap32Unique(relo + 5 + s, ip + length + was, t + c);
    }
    if Wrap32(relo + 5 + s) == Wrap32(ip + length + was) {
      var e := Same32(relo + 5 + s, ip + length + was);
      assert length - 5 == 256 * (a + (c - e) * 0x1000000);
      SmallMultiple(length - 5, a + (c - e) * 0x1000000);
      SignedFits(m);
      Small32(Signed32(m), s, e - c - t);
    }
  }

  lemma ByteFits(s: int)
    requires -0x80 <= s < 0x80
    ensures Signed32(Wrap32(s)) == s
  {
    FitsSelf(s);
  }

  /** The signed value differs from the unsigned one by a multiple of 2^32. */
  lemma SignedParts(m: U32) returns (t: int)
    ensures Signed32(m) == m + t * TWO32
  {
    t := if Signed32(m) == m then 0 else -1;
  }

  lemma SameByte(x: int, y: int, k: int)
    requires x == y + 256 * k && -0x80 <= x < 0x80 && -0x80 <= y < 0x80
    ensures x == y
  {
  }

  lemma SmallMultiple(x: int, k: int)
    requires x == 256 * k && -256 < x < 256
    ensures x == 0
  {
  }

  lemma Small32(x: int, y: int, k: int)
    requires y == x + k * TWO32 && Fits32(x) && Fits32(y)
    ensures x == y
  {
  }

  lemma LowByte(m: U32) returns (a: int)
    ensures Signed8(m % 0x100) == m + 256 * a && -0x80 <= Signed8(m % 0x100) < 0x80
  {
    a := -(m / 0x100);
    if m % 0x100 >= 0x80 { a := a - 1; }
  }

  lemma LowMoved(ip: U64, relo: U64, was: int) returns (c: int)
    ensures Moved(ip, relo, was) == ip + was - relo + c * TWO32
  {
    c := -((ip + was - relo) / TWO32);
  }

  lemma Same32(x: int, y: int) returns (e: int)
    requires Wrap32(x) == Wrap32(y)
    ensures x == y + e * TWO32
  {
    e := x / TWO32 - y / TWO32;
  }
}
