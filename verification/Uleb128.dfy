/** Unsigned LEB128 (section 7.6 of DWARF 5) and the reader used on export tries.
 */
module Uleb128 {
  import opened Arithmetic
  import opened MachineWords

  /** `Past` is a read beyond the last byte: the reader has no bounds check of its own. */
  datatype Number = Number(value: nat, next: nat) | Past

  /** The number that starts at `p`: base-128 digits, least significant first, the
      last one below 128. */
  function Parse(data: seq<Byte>, p: nat): (r: Number)
    ensures r.Number? ==> p < r.next <= |data|
    decreases |data| - p
  {
    if p >= |data| then Past
    else if data[p] < 128 then Number(data[p], p + 1)
    else
      match Parse(data, p + 1)
      case Past => Past
      case Number(v, next) => Number(data[p] - 128 + 128 * v, next)
  }

  function Encode(v: nat): (r: seq<Byte>)
    ensures |r| > 0
  {
    if v < 128 then [v] else [128 + v % 128] + Encode(v / 128)
  }

  /** Reading back what was written, in any surroundings. */
  lemma {:induction false} RoundTrip(before: seq<Byte>, v: nat, rest: seq<Byte>)
    ensures Parse(before + Encode(v) + rest, |before|) == Number(v, |before| + |Encode(v)|)
    decreases v
  {
    var data := before + Encode(v) + rest;
    if v >= 128 {
      RoundTrip(before + [128 + v % 128], v / 128, rest);
      assert before + [128 + v % 128] + Encode(v / 128) + rest == data;
    }
  }

  lemma Powers()
    ensures Pow2(7) == 128 && forall k: nat :: Pow2(k + 7) == 128 * Pow2(k)
    ensures Pow2(63) == 0x8000_0000_0000_0000
  {
    forall k: nat ensures Pow2(k + 7) == 128 * Pow2(k) {
      assert Pow2(k + 7) == 2 * Pow2(k + 6) && Pow2(k + 6) == 2 * Pow2(k + 5) && Pow2(k + 5) == 2 * Pow2(k + 4);
      assert Pow2(k + 4) == 2 * Pow2(k + 3) && Pow2(k + 3) == 2 * Pow2(k + 2) && Pow2(k + 2) == 2 * Pow2(k + 1);
    }
    assert Pow2(7) == 128 * Pow2(0);
    assert Pow2(14) == 128 * Pow2(7) && Pow2(21) == 128 * Pow2(14) && Pow2(28) == 128 * Pow2(21);
    assert Pow2(35) == 128 * Pow2(28) && Pow2(42) == 128 * Pow2(35) && Pow2(49) == 128 * Pow2(42);
    assert Pow2(56) == 128 * Pow2(49) && Pow2(63) == 128 * Pow2(56);
  }

  /** Adding a digit of weight `scale` and going on with 128 times that weight. */
  lemma Digit(acc: int, scale: int, slice: int, v: int)
    ensures acc + scale * (slice + 128 * v) == (acc + slice * scale) + (128 * scale) * v
  {
  }

  lemma Multiples(x: int, k: int)
    ensures (x + k * TWO64) % TWO64 == x % TWO64
  {
    var q, r := x / TWO64, x % TWO64;
    DivUnique(x + k * TWO64, TWO64, q + k, r);
  }

  /** The digits before `p` sum to `acc`, and the digit at `p` weighs `scale`. */
  ghost predicate Carried(data: seq<Byte>, start: nat, p: nat, acc: int, scale: int) {
    match Parse(data, p)
    case Past => Parse(data, start).Past?
    case Number(v, next) => acc + scale * v >= 0 && Parse(data, start) == Number(acc + scale * v, next)
  }

  lemma CarryStart(data: seq<Byte>, start: nat)
    ensures Carried(data, start, start, 0, 1) && Accumulated(0, 0, 0, 1)
  {
  }

  lemma CarryPast(data: seq<Byte>, start: nat, p: nat, acc: int, scale: int)
    requires p >= |data| && Carried(data, start, p, acc, scale)
    ensures Parse(data, start).Past?
  {
  }

  lemma CarryEnd(data: seq<Byte>, start: nat, p: nat, acc: int, scale: int)
    requires p < |data| && data[p] < 128 && Carried(data, start, p, acc, scale)
    ensures acc + data[p] % 128 * scale >= 0 && Parse(data, start) == Number(acc + data[p] % 128 * scale, p + 1)
  {
    assert data[p] % 128 == data[p];
    assert Parse(data, p) == Number(data[p], p + 1);
    hide Parse;
  }

  lemma CarryOn(data: seq<Byte>, start: nat, p: nat, acc: int, scale: int)
    requires p < |data| && data[p] >= 128 && Carried(data, start, p, acc, scale)
    ensures Carried(data, start, p + 1, acc + data[p] % 128 * scale, 128 * scale)
  {
    var more, slice: int := Parse(data, p + 1), data[p] as int - 128;
    assert data[p] % 128 == slice;
    if more.Number? {
      assert Parse(data, p) == Number(slice + 128 * more.value, more.next);
      hide Parse;
      Digit(acc, scale, slice, more.value);
    }
  }

  lemma SmallDigit(acc: int, slice: int, scale: int)
    requires 0 <= acc < scale && 0 <= slice < 128
    ensures 0 <= acc + slice * scale < 128 * scale
  {
    assert slice * scale <= 127 * scale;
  }

  /** The state of the accumulator: bits from 64 on are dropped. */
  ghost predicate Accumulated(result: int, bit: int, acc: int, scale: int) {
    && result == acc % TWO64
    && (if bit <= 63 then 0 <= bit && scale == Pow2(bit) && 0 <= acc < scale else scale % TWO64 == 0)
  }

  /** `result |= slice << bit` on 64 bits. */
  function AddSlice(result: nat, slice: int, bit: int): nat
  {
    if bit > 63 || bit < 0 then result else Or(result, (slice * Pow2(bit)) % TWO64)
  }

  lemma {:induction false} PowAdd(a: nat, b: nat)
    ensures Pow2(a + b) == Pow2(a) * Pow2(b)
  {
    if a > 0 { PowAdd(a - 1, b); }
  }

  /** Only bits below `bit` are set in `result`, so the OR adds. */
  lemma OrIsSum(result: nat, slice: nat, bit: nat)
    requires bit <= 63 && result < Pow2(bit)
    ensures Or(result, (slice * Pow2(bit)) % TWO64) == (result + slice * Pow2(bit)) % TWO64
  {
    hide Pow2, Or;
    var p, q, x := Pow2(bit), Pow2(64 - bit), slice * Pow2(bit);
    PowAdd(bit, 64 - bit);
    Top();
    var k, r := x / TWO64, x % TWO64;
    var s := slice - k * q;
    assert k * TWO64 == (k * q) * p;
    Distribute(slice, k * q, p);
    assert r == s * p;
    BelowTop(s, p, q);
    OrAdds(result, s, bit);
    DivUnique(result + x, TWO64, k, result + r);
  }

  lemma Top()
    ensures Pow2(64) == TWO64
  {
    Powers();
    assert Pow2(64) == 2 * Pow2(63);
  }

  lemma BelowTop(s: int, p: int, q: int)
    requires p > 0 && q > 0 && 0 <= s * p < p * q
    ensures s >= 0 && s * p + p <= p * q
  {
    var sp, qp := s * p, q * p;
    assert qp == p * q;
    assert (-s) * p == -sp;
    Distribute(s, q, p);
    Distribute(q, s, p);
    if s < 0 { MulGe(-s, p); } else if s >= q { NotNegative(s - q, p); } else { MulGe(q - s, p); }
  }

  lemma NotNegative(k: int, d: int)
    requires k >= 0 && d > 0
    ensures k * d >= 0
  {
  }

  lemma Grow(result: nat, bit: int, acc: int, scale: int, slice: int)
    requires Accumulated(result, bit, acc, scale) && 0 <= slice < 128
    ensures Accumulated(AddSlice(result, slice, bit), if bit > 63 then bit else bit + 7, acc + slice * scale, 128 * scale)
  {
    if bit > 63 {
      var k := scale / TWO64;
      assert scale == k * TWO64;
      assert slice * scale == (slice * k) * TWO64;
      Multiples(acc, slice * k);
      DivUnique(128 * scale, TWO64, 128 * k, 0);
    } else {
      BelowWord(bit);
      DivUnique(acc, TWO64, 0, acc);
      OrIsSum(result, slice, bit);
      SmallDigit(acc, slice, scale);
      Accumulate(acc, slice, scale);
      SevenMore(bit);
    }
  }

  lemma {:induction false} BelowWord(bit: nat)
    requires bit <= 63
    ensures Pow2(bit) <= 0x8000_0000_0000_0000
    decreases 63 - bit
  {
    if bit == 63 { Powers(); } else { BelowWord(bit + 1); }
  }

  lemma SevenMore(bit: nat)
    requires bit <= 63
    ensures 128 * Pow2(bit) == Pow2(bit + 7)
    ensures bit + 7 > 63 ==> Pow2(bit + 7) % TWO64 == 0
  {
    Powers();
    if bit + 7 > 63 { AtLeast64(bit + 7); }
  }

  lemma {:induction false} AtLeast64(k: nat)
    requires k >= 64
    ensures Pow2(k) % TWO64 == 0
  {
    if k == 64 {
      Powers();
      assert Pow2(64) == 2 * Pow2(63);
    } else {
      AtLeast64(k - 1);
    }
  }

  /** `read_uleb128`: the number modulo 2^64, and the position after its last byte. */
  method ReadUleb128(data: seq<Byte>, start: nat) returns (r: Number)
    ensures match Parse(data, start)
            case Past => r == Past
            case Number(v, next) => r == Number(v % TWO64, next)
  {
    hide Parse, Carried, Accumulated, AddSlice;
    var p, result: nat, bit := start, 0, 0;
    ghost var acc, scale := 0, 1;
    CarryStart(data, start);
    while true
      invariant Carried(data, start, p, acc, scale)
      invariant Accumulated(result, bit, acc, scale)
      decreases |data| - p
    {
      if p >= |data| {
        CarryPast(data, start, p, acc, scale);
        return Past;
      }
      var slice: int := data[p] as int % 128;
      Grow(result, bit, acc, scale, slice);
      result := AddSlice(result, slice, bit);
      if bit <= 63 { bit := bit + 7; }
      if data[p] < 128 {
        CarryEnd(data, start, p, acc, scale);
        Reduced(result, bit, acc + slice * scale, 128 * scale);
        return Number(result, p + 1);
      }
      CarryOn(data, start, p, acc, scale);
      acc, scale := acc + slice * scale, 128 * scale;
      p := p + 1;
    }
  }

  lemma Reduced(result: int, bit: int, acc: int, scale: int)
    requires Accumulated(result, bit, acc, scale)
    ensures result == acc % TWO64
  {
  }

  lemma Accumulate(acc: int, slice: int, scale: int)
    ensures (acc % TWO64 + slice * scale) % TWO64 == (acc + slice * scale) % TWO64
  {
    Multiples(acc % TWO64 + slice * scale, acc / TWO64);
  }
}
