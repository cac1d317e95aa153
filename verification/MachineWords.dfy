/** Bytes and machine words as ranges of integers. */
module MachineWords {

  const TWO32 := 0x1_0000_0000
  const TWO64 := 0x1_0000_0000_0000_0000

  type Byte = b: int | 0 <= b < 0x100
  type U32 = v: int | 0 <= v < 0x1_0000_0000
  type U64 = v: int | 0 <= v < 0x1_0000_0000_0000_0000
}

/** The little-endian form of machine words. */
module LittleEndian {
  import opened Arithmetic
  import opened MachineWords

  /** `Emit32`. */
  function Le32(v: U32): (r: seq<Byte>)
    ensures |r| == 4
  {
    [v % 0x100, v / 0x100 % 0x100, v / 0x10000 % 0x100, v / 0x1000000]
  }

  /** `Emit64`. */
  function Le64(v: U64): (r: seq<Byte>)
    ensures |r| == 8
  {
    Le32(v % TWO32) + Le32(v / TWO32)
  }

  /** The 32-bit value of four bytes. */
  function Read32(b: seq<Byte>): U32
    requires |b| == 4
  {
    b[0] as int + 0x100 * b[1] as int + 0x10000 * b[2] as int + 0x1000000 * b[3] as int
  }

  function Read64(b: seq<Byte>): U64
    requires |b| == 8
  {
    Read32(b[..4]) + TWO32 * Read32(b[4..])
  }

  /** The byte order: byte `k` has the bits of weight 2^(8k). */
  lemma ByteOrder(v: U32, k: nat)
    requires k < 4
    ensures Le32(v)[k] == v / Pow2(8 * k) % 0x100
  {
    assert Pow2(8) == 0x100 && Pow2(16) == 0x100 * Pow2(8) && Pow2(24) == 0x100 * Pow2(16);
    assert k == 0 || k == 1 || k == 2 || k == 3;
  }

  lemma ByteOrder64(v: U64, k: nat)
    requires k < 8
    ensures Le64(v)[k] == v / Pow2(8 * k) % 0x100
  {
    hide Le32;
    var lo, hi := v % TWO32, v / TWO32;
    Powers32(k);
    if k < 4 {
      ByteOrder(lo, k);
      LowPart(lo, hi, Pow2(8 * k), Pow2(24 - 8 * k));
    } else {
      ByteOrder(hi, k - 4);
      var p := Pow2(8 * (k - 4));
      HighPart(lo, hi, p);
    }
  }

  lemma Powers32(k: nat)
    requires k < 8
    ensures if k < 4 then Pow2(8 * k) * Pow2(24 - 8 * k) * 0x100 == TWO32 else Pow2(8 * k) == TWO32 * Pow2(8 * (k - 4))
  {
    assert Pow2(8) == 0x100 && Pow2(16) == 0x100 * Pow2(8) && Pow2(24) == 0x100 * Pow2(16) && Pow2(32) == 0x100 * Pow2(24);
    assert Pow2(40) == 0x100 * Pow2(32) && Pow2(48) == 0x100 * Pow2(40) && Pow2(56) == 0x100 * Pow2(48);
  }

  lemma HighPart(lo: int, hi: int, p: int)
    requires 0 <= lo < TWO32 && p > 0
    ensures TWO32 * p > 0 && (lo + TWO32 * hi) / (TWO32 * p) == hi / p
  {
    var q, r := hi / p, hi % p;
    FieldBelow(TWO32, p, r, lo);
    assert TWO32 * hi == TWO32 * (p * q + r) == q * (TWO32 * p) + TWO32 * r;
    DivUnique(lo + TWO32 * hi, TWO32 * p, q, TWO32 * r + lo);
  }

  lemma LowPart(lo: int, hi: int, p: int, m: int)
    requires 0 <= lo < TWO32 && p > 0 && p * m * 0x100 == TWO32
    ensures (lo + TWO32 * hi) / p % 0x100 == lo / p % 0x100
  {
    var q, r := lo / p, lo % p;
    assert TWO32 * hi == (m * 0x100 * hi) * p;
    assert lo + TWO32 * hi == (q + m * 0x100 * hi) * p + r;
    DivUnique(lo + TWO32 * hi, p, q + m * 0x100 * hi, r);
    var a, b := q / 0x100, q % 0x100;
    assert q + m * 0x100 * hi == (a + m * hi) * 0x100 + b;
    DivUnique(q + m * 0x100 * hi, 0x100, a + m * hi, b);
  }

  lemma ReadBack(v: U32)
    ensures Read32(Le32(v)) == v
  {
    assert v / 0x10000 == v / 0x100 / 0x100 by { DivUnique(v, 0x10000, v / 0x100 / 0x100, v / 0x100 % 0x100 * 0x100 + v % 0x100); }
    assert v / 0x1000000 == v / 0x10000 / 0x100 by { DivUnique(v, 0x1000000, v / 0x10000 / 0x100, v / 0x10000 % 0x100 * 0x10000 + v % 0x10000); }
  }

  lemma ReadBack64(v: U64)
    ensures Read64(Le64(v)) == v
  {
    hide Le32, Read32;
    ReadBack(v % TWO32);
    ReadBack(v / TWO32);
    assert Le64(v)[..4] == Le32(v % TWO32) && Le64(v)[4..] == Le32(v / TWO32);
  }
}
