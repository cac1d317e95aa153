/** The x64 and x86 relocators: the loop that copies instructions and retargets their
    relative operands, the closing jump, and the retry with a larger chunk.  The two
    source files differ in the RIP-relative case and in the closing jump.
 */
module X86Relocator {
  import opened Arithmetic
  import opened MachineWords
  import opened LittleEndian

  datatype Mode = X64 | X86

  /** What the instruction decoder reports of one instruction; `opcode` is the byte after 0F for
      those of the two-byte map (`escaped`), `rip` says that its second operand is
      addressed relative to RIP, and an offset of 0 that there is no such field. */
  datatype Insn = Insn(length: nat, escaped: bool, opcode: Byte, rip: bool, dispOffset: nat, immOffset: nat)

  /** The fetched bytes, by distance from the start of the patched function, and the
      decoder's report at each distance. */
  datatype Source = Source(byte: int -> Byte, decode: int -> Insn)

  // ---------------------------------------------------------------- numbers

  function Wrap32(x: int): U32 { x % TWO32 }
  function Wrap64(x: int): U64 { x % TWO64 }
  function Signed8(b: Byte): int { if b >= 0x80 then b - 0x100 else b }
  function Signed32(v: U32): int { if v >= 0x80000000 then v - TWO32 else v }
  function Signed64(v: U64): int { if v >= 0x8000_0000_0000_0000 then v - TWO64 else v }

  // ---------------------------------------------------------------- instructions

  function Bytes(src: Source, k: int, n: nat): (r: seq<Byte>)
    ensures |r| == n && forall i :: 0 <= i < n ==> r[i] == src.byte(k + i)
  {
    seq<Byte>(n, i => src.byte(k + i))
  }

  predicate IsJccShort(d: Insn) { 0x70 <= d.opcode <= 0x7F }
  predicate IsJmpShort(d: Insn) { d.opcode == 0xEB }
  predicate IsRip(mode: Mode, d: Insn) { mode == X64 && d.rip && !IsJccShort(d) && !IsJmpShort(d) }
  predicate IsNear(mode: Mode, d: Insn) { (d.opcode == 0xE8 || d.opcode == 0xE9) && !IsRip(mode, d) }
  predicate IsLoop(mode: Mode, d: Insn) { 0xE0 <= d.opcode <= 0xE3 && !IsRip(mode, d) }

  /** Offset of the 32-bit field that is rewritten. */
  function Field(mode: Mode, d: Insn): nat { if IsRip(mode, d) then d.dispOffset else d.immOffset }

  /** What the relocator relies on: at most 15 bytes, and the rewritten field is the 32-bit
      field before the immediate, if there is one, or at the end. */
  ghost predicate Decodes(mode: Mode, d: Insn) {
    && 1 <= d.length <= 15
    && (if mode == X64 && d.rip then
          !(0x70 <= d.opcode <= 0x7F || d.opcode == 0xEB) ==>
            d.dispOffset + 4 == (if d.immOffset != 0 then d.immOffset else d.length) && d.immOffset <= d.length
        else
          d.opcode == 0xE8 || d.opcode == 0xE9 || (d.escaped && 0x80 <= d.opcode <= 0x8F) ==> d.immOffset + 4 == d.length)
  }

  /** The decoder does so at every instruction that the loop visits from distance `k` on. */
  ghost predicate GoodDecoder(src: Source, mode: Mode, k: int, size: int)
    decreases size - k
  {
    k < size ==> Decodes(mode, src.decode(k)) && GoodDecoder(src, mode, k + src.decode(k).length, size)
  }

  /** The value that moves a field holding `was` from an instruction at `ip` to one at `relo`. */
  function Moved(ip: U64, relo: U64, was: int): U32 { Wrap32(ip + was - relo) }

  function OldField(src: Source, mode: Mode, k: int, d: Insn): U32 {
    Read32(Bytes(src, k + Field(mode, d), 4))
  }

  /** Last byte of the instruction, the offset of a short jump. */
  function ShortOffset(src: Source, k: int, d: Insn): int { Signed8(src.byte(k + d.length - 1)) }

  datatype Piece = Piece(code: seq<Byte>) | Abort

  /** One instruction at distance `k`, moved from `ip` to `relo`. */
  function PieceOf(src: Source, mode: Mode, k: int, d: Insn, ip: U64, relo: U64): Piece {
    if IsJccShort(d) then Piece([0x0F, 0x80 + d.opcode % 0x10] + Le32(Moved(ip, relo, ShortOffset(src, k, d))))
    else if IsJmpShort(d) then
      Piece([0xE9] + Le32(Wrap32(Signed8(Moved(ip, relo, ShortOffset(src, k, d)) % 0x100))))
    else if IsRip(mode, d) then
      Piece(Bytes(src, k, d.dispOffset) + Le32(Moved(ip, relo, Signed32(OldField(src, mode, k, d))))
            + if d.immOffset != 0 && d.immOffset <= d.length then Bytes(src, k + d.immOffset, d.length - d.immOffset) else [])
    else if IsNear(mode, d) then
      Piece(Bytes(src, k, d.immOffset) + Le32(Moved(ip, relo, Signed32(OldField(src, mode, k, d)))))
    else if IsLoop(mode, d) then Abort
    else Piece(Bytes(src, k, d.length))
  }

  /** Length of a piece; it does not depend on where the code comes from or goes to. */
  function PieceLength(mode: Mode, d: Insn): nat {
    if IsJccShort(d) then 6 else if IsJmpShort(d) then 5 else d.length
  }

  lemma PieceHasLength(src: Source, mode: Mode, k: int, d: Insn, ip: U64, relo: U64)
    requires Decodes(mode, d)
    ensures PieceOf(src, mode, k, d, ip, relo).Abort? <==> 0xE0 <= d.opcode <= 0xE3 && !(mode == X64 && d.rip)
    ensures PieceOf(src, mode, k, d, ip, relo).Piece? ==> |PieceOf(src, mode, k, d, ip, relo).code| == PieceLength(mode, d)
  {
    hide Moved, OldField, ShortOffset, Le32, Bytes, Wrap32, Signed32;
  }

  // ---------------------------------------------------------------- blocks

  /** The instructions that cover `size` bytes, from distance `k` on. */
  ghost function Block(src: Source, mode: Mode, k: int, size: int): seq<Insn>
    requires GoodDecoder(src, mode, k, size)
    decreases size - k
  {
    if k >= size then [] else
    [src.decode(k)] + Block(src, mode, k + src.decode(k).length, size)
  }

  /** Distance of instruction `i`. */
  function Off(block: seq<Insn>, i: nat): nat
    requires i <= |block|
  {
    if i == 0 then 0 else Off(block, i - 1) + block[i - 1].length
  }

  /** Position of instruction `i` in the emitted code. */
  function Pos(mode: Mode, block: seq<Insn>, i: nat): nat
    requires i <= |block|
  {
    if i == 0 then 0 else Pos(mode, block, i - 1) + PieceLength(mode, block[i - 1])
  }

  /** LOOP, LOOPE, LOOPNE and JCXZ take the UNIMPLEMENTED() path. */
  predicate Aborts(mode: Mode, d: Insn) { 0xE0 <= d.opcode <= 0xE3 && !(mode == X64 && d.rip) }

  ghost predicate Relocatable(mode: Mode, block: seq<Insn>) {
    forall i :: 0 <= i < |block| ==> !Aborts(mode, block[i])
  }

  ghost predicate AllDecode(mode: Mode, block: seq<Insn>) {
    forall i :: 0 <= i < |block| ==> Decodes(mode, block[i])
  }

  /** The code of the first `i` instructions. */
  ghost function Code(src: Source, mode: Mode, block: seq<Insn>, origin: U64, base: U64, i: nat): (r: seq<Byte>)
    requires Relocatable(mode, block) && AllDecode(mode, block) && i <= |block|
    ensures |r| == Pos(mode, block, i)
  {
    if i == 0 then []
    else
      var r, k := Code(src, mode, block, origin, base, i - 1), Off(block, i - 1);
      PieceHasLength(src, mode, k, block[i - 1], Wrap64(origin + k), Wrap64(base + |r|));
      r + PieceOf(src, mode, k, block[i - 1], Wrap64(origin + k), Wrap64(base + |r|)).code
  }

  /** The jump to `to` from `at`: `jmp [rip]` and an address, or `jmp rel32`. */
  function JumpCode(mode: Mode, at: U64, to: U64): (r: seq<Byte>)
    ensures |r| == if mode == X64 then 14 else 5
  {
    match mode
    case X64 => [0xFF, 0x25] + Le32(Wrap32(Wrap64(at + 6) - Wrap64(at + 6))) + Le64(to)
    case X86 => [0xE9] + Le32(Wrap32(to - (at + 5)))
  }

  ghost function Whole(src: Source, mode: Mode, block: seq<Insn>, origin: U64, base: U64): (r: seq<Byte>)
    requires Relocatable(mode, block) && AllDecode(mode, block)
    ensures |r| == WholeLength(mode, block)
  {
    var n := |block|;
    Code(src, mode, block, origin, base, n)
    + JumpCode(mode, Wrap64(base + Pos(mode, block, n)), Wrap64(origin + Off(block, n)))
  }

  /** The emitted length is a function of the instructions alone. */
  function WholeLength(mode: Mode, block: seq<Insn>): nat {
    Pos(mode, block, |block|) + if mode == X64 then 14 else 5
  }

  lemma {:induction false} BlockDecodes(src: Source, mode: Mode, k: int, size: int)
    requires GoodDecoder(src, mode, k, size)
    ensures AllDecode(mode, Block(src, mode, k, size))
    decreases size - k
  {
    if k < size {
      assert Decodes(mode, src.decode(k));
      BlockDecodes(src, mode, k + src.decode(k).length, size);
    }
  }

  lemma {:induction false} OffShift(block: seq<Insn>, i: nat)
    requires 0 < i <= |block|
    ensures Off(block, i) == block[0].length + Off(block[1..], i - 1)
  {
    if i > 1 { OffShift(block, i - 1); }
  }

  /** The covered length ends at the first instruction boundary at or after the requested
      size, which is at most 14 bytes on. */
  lemma {:induction false} CoveredLength(src: Source, mode: Mode, k: int, size: int)
    requires GoodDecoder(src, mode, k, size) && k <= size
    ensures var b := Block(src, mode, k, size);
            && size <= k + Off(b, |b|) <= size + 14
            && forall i :: 0 <= i < |b| ==> k + Off(b, i) < size
    decreases size - k
  {
    if k < size {
      var d, b := src.decode(k), Block(src, mode, k, size);
      assert Decodes(mode, d);
      var k' := k + d.length;
      if k' <= size {
        CoveredLength(src, mode, k', size);
        OffShift(b, |b|);
        forall i | 0 <= i < |b| ensures k + Off(b, i) < size {
          if i > 0 { OffShift(b, i); }
        }
      } else {
        assert b == [d];
        assert Off(b, 1) == Off(b, 0) + d.length;
      }
    }
  }

  /** A second pass over the covered length takes the same instructions. */
  lemma {:induction false} BlockStable(src: Source, mode: Mode, k: int, size: int)
    requires GoodDecoder(src, mode, k, size) && k <= size
    ensures var b := Block(src, mode, k, size);
            GoodDecoder(src, mode, k, k + Off(b, |b|)) && Block(src, mode, k, k + Off(b, |b|)) == b
    decreases size - k
  {
    if k < size {
      var d, b := src.decode(k), Block(src, mode, k, size);
      assert Decodes(mode, d);
      OffShift(b, |b|);
      if k + d.length <= size {
        BlockStable(src, mode, k + d.length, size);
      } else {
        assert Block(src, mode, k + d.length, size) == [] && Block(src, mode, k + d.length, k + d.length) == [];
        assert b[1..] == [];
      }
    }
  }

  // ---------------------------------------------------------------- the program

  /** `GenRelocateCodeFixed` for a chunk at `base`, up to the comparison with its size;
      `length` is the new length of the covered range. */
  method GenRelocateCodeFixed(src: Source, mode: Mode, origin: U64, size: int, base: U64)
    returns (ok: bool, code: seq<Byte>, length: int)
    requires GoodDecoder(src, mode, 0, size) && 0 <= size
    ensures AllDecode(mode, Block(src, mode, 0, size))
    ensures var block := Block(src, mode, 0, size);
            && (ok <==> Relocatable(mode, block))
            && (ok ==> code == Whole(src, mode, block, origin, base) && length == Off(block, |block|))
  {
    hide PieceOf, Decodes, PieceLength, Wrap64, Block, Code, GoodDecoder, JumpCode;
    BlockDecodes(src, mode, 0, size);
    ghost var block := Block(src, mode, 0, size);
    ghost var i := 0;
    var currOrigIp, currReloIp, cursor := origin, base, 0;
    code := [];
    if Relocatable(mode, block) { CodeNone(src, mode, block, origin, base); }
    Unwrapped(origin);
    Unwrapped(base);
    while cursor < size
      invariant i <= |block| && cursor == Off(block, i)
      invariant currOrigIp == Wrap64(origin + cursor) && currReloIp == Wrap64(base + |code|)
      invariant GoodDecoder(src, mode, cursor, size) && Block(src, mode, cursor, size) == block[i..]
      invariant Relocatable(mode, block[..i])
      invariant Relocatable(mode, block) ==> code == Code(src, mode, block, origin, base, i)
      decreases size - cursor
    {
      var d := src.decode(cursor);
      BlockStep(src, mode, cursor, size);
      assert block[i] == d && block[i..][1..] == block[i + 1..];
      if Relocatable(mode, block) { CodeStep(src, mode, block, origin, base, i); }
      PieceHasLength(src, mode, cursor, d, currOrigIp, currReloIp);
      DecodedLength(mode, d);
      match PieceOf(src, mode, cursor, d, currOrigIp, currReloIp) {
        case Abort => return false, [], 0;
        case Piece(bytes) => code := code + bytes;
      }
      cursor := cursor + d.length;
      currOrigIp := Wrap64(currOrigIp as int + d.length);
      WrapSum(origin + cursor - d.length, d.length);
      currReloIp := Wrap64(base + |code|);
      i := i + 1;
    }
    BlockEnd(src, mode, cursor, size);
    assert block[..i] == block && block[i..] == [];
    code := code + JumpCode(mode, currReloIp, currOrigIp);
    return true, code, cursor;
  }

  lemma Unwrapped(x: U64)
    ensures Wrap64(x) == x
  {
  }

  lemma BlockStep(src: Source, mode: Mode, k: int, size: int)
    requires GoodDecoder(src, mode, k, size) && k < size
    ensures Decodes(mode, src.decode(k)) && src.decode(k).length >= 1
    ensures GoodDecoder(src, mode, k + src.decode(k).length, size)
    ensures Block(src, mode, k, size) == [src.decode(k)] + Block(src, mode, k + src.decode(k).length, size)
  {
    assert Decodes(mode, src.decode(k));
  }

  lemma BlockEnd(src: Source, mode: Mode, k: int, size: int)
    requires GoodDecoder(src, mode, k, size) && k >= size
    ensures Block(src, mode, k, size) == []
  {
  }

  lemma CodeNone(src: Source, mode: Mode, block: seq<Insn>, origin: U64, base: U64)
    requires Relocatable(mode, block) && AllDecode(mode, block)
    ensures Code(src, mode, block, origin, base, 0) == []
  {
  }

  lemma CodeStep(src: Source, mode: Mode, block: seq<Insn>, origin: U64, base: U64, i: nat)
    requires Relocatable(mode, block) && AllDecode(mode, block) && i < |block|
    ensures var k, r := Off(block, i), Code(src, mode, block, origin, base, i);
            var p := PieceOf(src, mode, k, block[i], Wrap64(origin + k), Wrap64(base + |r|));
            && p.Piece? && |p.code| == PieceLength(mode, block[i])
            && Code(src, mode, block, origin, base, i + 1) == r + p.code
  {
    hide PieceOf, Decodes, PieceLength, Wrap64;
    var k, r := Off(block, i), Code(src, mode, block, origin, base, i);
    PieceHasLength(src, mode, k, block[i], Wrap64(origin + k), Wrap64(base + |r|));
  }

  lemma DecodedLength(mode: Mode, d: Insn)
    requires Decodes(mode, d)
    ensures 1 <= d.length <= 15
  {
  }

  lemma WrapSum(x: int, y: int)
    ensures Wrap64(Wrap64(x) + y) == Wrap64(x + y)
  {
  }

  datatype Result =
    | Relocated(code: seq<Byte>, base: U64, length: int, retries: nat)
    | NoMemory
    | Aborted

  /** How many retries code of `n` bytes needs: the smallest chunk of 32, 48, 64, … bytes that holds it. */
  function Retries(n: nat): nat { if n <= 32 then 0 else (n - 32 + 15) / 16 }

  /** `GenRelocateCodeAndBranch`.  `alloc(t)` is the address of the chunk allocated at
      attempt `t`, or 0 when there is none. */
  method GenRelocateCodeAndBranch(src: Source, mode: Mode, origin: U64, size: int, alloc: nat -> U64) returns (r: Result)
    requires GoodDecoder(src, mode, 0, size) && 0 <= size
    ensures AllDecode(mode, Block(src, mode, 0, size))
    ensures var block := Block(src, mode, 0, size);
            var n := Retries(WholeLength(mode, block));
            match r
            case Relocated(code, base, length, retries) =>
              && Relocatable(mode, block) && retries == n && base == alloc(n) != 0
              && code == Whole(src, mode, block, origin, base) && |code| <= 32 + 16 * n
              && length == Off(block, |block|) && size <= length <= size + 14
            case NoMemory => exists t: nat :: alloc(t) == 0 && (t == 0 || (Relocatable(mode, block) && t <= n))
            case Aborted => !Relocatable(mode, block) && alloc(0) != 0
  {
    hide Decodes, Whole, Off, Pos;
    ghost var block := Block(src, mode, 0, size);
    BlockDecodes(src, mode, 0, size);
    CoveredLength(src, mode, 0, size);
    BlockStable(src, mode, 0, size);
    hide Block, GoodDecoder;
    var chunkSize, originLength := 32, size;
    ghost var t: nat := 0;
    while true
      invariant chunkSize == 32 + 16 * t
      invariant originLength >= 0 && GoodDecoder(src, mode, 0, originLength) && Block(src, mode, 0, originLength) == block
      invariant t > 0 ==> Relocatable(mode, block) && WholeLength(mode, block) > 32 + 16 * (t - 1)
      decreases WholeLength(mode, block) - chunkSize
    {
      var base := alloc((chunkSize - 32) / 16);
      if base == 0 { return NoMemory; }
      var ok, code, length := GenRelocateCodeFixed(src, mode, origin, originLength, base);
      if !ok { return Aborted; }
      originLength := length;
      if |code| <= chunkSize { return Relocated(code, base, length, (chunkSize - 32) / 16); }
      chunkSize := chunkSize + 16;
      t := t + 1;
    }
  }
}
