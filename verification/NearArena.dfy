/** `NearMemoryArena`: pages within a given range of a position, found between the mapped
    regions of the process.  Addresses are 64-bit and wrap around.
 */
module NearArena {
  import opened Arithmetic
  import opened MachineWords
  import opened CodeArena
  import opened BlankSearch

  function Wrap(x: int): U64 { x % TWO64 }
  function Signed(v: U64): int { if v >= 0x8000_0000_0000_0000 then v - TWO64 else v }
  function Abs(x: int): nat { if x < 0 then -x else x }

  /** A page size: a power of two in the source, and all that is used of it here. */
  predicate PageSize(p: int) { p > 0 && TWO64 % p == 0 }

  // ---------------------------------------------------------------- address helpers

  function AddrSub(a: U64, b: U64): U64 { if a > Wrap(a - b) then Wrap(a - b) else 0 }
  function AddrAdd(a: U64, b: U64): U64 { if a < Wrap(a + b) then Wrap(a + b) else TWO64 - 1 }

  /** `ALIGN(cur, pagesize)`. */
  function Floor(a: U64, p: int): U64
    requires p > 0
  {
    a - a % p
  }

  function PrevPage(cur: U64, p: int): U64
    requires p > 0
  {
    var a := Floor(cur, p);
    if Wrap(a - p) <= a then Wrap(a - p) else a
  }

  function NextPage(cur: U64, p: int): U64
    requires p > 0
  {
    var a := Floor(cur, p);
    if Wrap(a + p) >= a then Wrap(a + p) else a
  }

  lemma WrapSmall(x: int)
    ensures 0 <= x < TWO64 ==> Wrap(x) == x
    ensures -TWO64 <= x < 0 ==> Wrap(x) == x + TWO64
    ensures TWO64 <= x < 2 * TWO64 ==> Wrap(x) == x - TWO64
  {
    if -TWO64 <= x < 0 { DivUnique(x, TWO64, -1, x + TWO64); }
    if TWO64 <= x < 2 * TWO64 { DivUnique(x, TWO64, 1, x - TWO64); }
  }

  /** The helpers saturate at the ends of the address space, but for an offset of zero. */
  lemma AddrSaturates(a: U64, b: U64)
    ensures AddrSub(a, b) == (if b == 0 then 0 else if b <= a then a - b else 0)
    ensures AddrAdd(a, b) == (if b == 0 || a + b >= TWO64 then TWO64 - 1 else a + b)
  {
    WrapSmall(a - b);
    WrapSmall(a + b);
    hide Wrap;
  }

  lemma FloorBounds(a: U64, p: int)
    requires p > 0
    ensures a - p < Floor(a, p) <= a
  {
  }

  lemma PageSaturates(a: U64, p: int)
    requires 0 < p < TWO64
    ensures NextPage(a, p) == (if Floor(a, p) + p < TWO64 then Floor(a, p) + p else Floor(a, p))
    ensures PrevPage(a, p) == (if Floor(a, p) >= p then Floor(a, p) - p else Floor(a, p))
  {
    WrapSmall(Floor(a, p) + p);
    WrapSmall(Floor(a, p) - p);
    hide Wrap, Floor;
  }

  // ---------------------------------------------------------------- the search

  datatype Region = Region(start: U64, length: int)

  function End(r: Region): int { r.start + r.length }

  /** The process memory layout: not empty, sorted, without overlap, within the address space. */
  ghost predicate Layout(regions: seq<Region>) {
    && |regions| >= 1
    && (forall i :: 0 <= i < |regions| ==> 0 <= regions[i].length && End(regions[i]) < TWO64)
    && (forall i, j :: 0 <= i < j < |regions| ==> End(regions[i]) <= regions[j].start)
  }

  function MinPage(pos: U64, range: U64, p: int): U64
    requires p > 0
  {
    NextPage(AddrSub(pos, range), p)
  }

  function MaxPage(pos: U64, range: U64, p: int): U64
    requires p > 0
  {
    PrevPage(AddrAdd(pos, range), p)
  }

  /** An address is within `range` of `pos`, as the arena compares them: by the absolute
      value of their difference, which wraps around. */
  predicate Near(a: U64, pos: U64, range: U64) {
    Abs(Signed(Wrap(a - pos))) < range
  }

  lemma NearIs(a: U64, pos: U64, range: U64)
    requires Abs(a - pos) < range
    ensures Near(a, pos, range)
  {
    WrapSmall(a - pos);
    hide Wrap;
  }

  /** The lowest page is strictly within range. */
  lemma MinPageNear(pos: U64, range: U64, p: int)
    requires 0 < p < range
    ensures pos - range < MinPage(pos, range, p) && Abs(MinPage(pos, range, p) - pos) < range && MinPage(pos, range, p) > 0
  {
    hide AddrSub, NextPage, Floor;
    AddrSaturates(pos, range);
    var lo := AddrSub(pos, range);
    PageSaturates(lo, p);
    FloorBounds(lo, p);
  }

  lemma MaxPageNear(pos: U64, range: U64, p: int)
    requires PageSize(p) && p < range
    ensures MaxPage(pos, range, p) < pos + range && MaxPage(pos, range, p) % p == 0
  {
    hide AddrAdd, PrevPage, Floor;
    AddrSaturates(pos, range);
    var hi := AddrAdd(pos, range);
    PageSaturates(hi, p);
    FloorBounds(hi, p);
    FloorAligned(hi, p);
  }

  lemma FloorAligned(a: U64, p: int)
    requires p > 0
    ensures Floor(a, p) % p == 0 && (Floor(a, p) - p) % p == 0
  {
    DivUnique(Floor(a, p), p, a / p, 0);
    assert Floor(a, p) - p == (a / p - 1) * p;
    DivUnique(Floor(a, p) - p, p, a / p - 1, 0);
  }

  /** Between an address below an aligned one and that one there is a page boundary. */
  lemma NextBelow(a: U64, top: U64, p: int)
    requires PageSize(p) && p < TWO64 && a < top && top % p == 0
    ensures a < NextPage(a, p) <= top
  {
    hide NextPage, Floor;
    PageSaturates(a, p);
    FloorBounds(a, p);
    BoundaryBelow(a, top, p);
  }

  lemma BoundaryBelow(a: U64, top: int, p: int)
    requires p > 0 && a < top && top % p == 0
    ensures Floor(a, p) + p <= top
  {
    var q, t := a / p, top / p;
    assert a == q * p + a % p && top == t * p;
    if t <= q { MulMono(t, q, p); } else { MulMono(q + 1, t, p); }
  }

  lemma MulMono(a: int, b: int, p: int)
    requires a <= b && p > 0
    ensures a * p <= b * p
  {
  }

  function Max(a: U64, b: U64): U64 { if a > b then a else b }

  /** The page after the region before `i`. */
  function AfterPrevious(regions: seq<Region>, i: nat, p: int): U64
    requires p > 0 && 0 < i <= |regions|
  {
    NextPage(Wrap(End(regions[i - 1])), p)
  }

  predicate InWindow(r: Region, min: U64, max: U64) { End(r) < max && r.start >= min }

  /** The gap before region `i` is tried while no other page has been. */
  predicate TriesBefore(regions: seq<Region>, i: nat, assumed: U64, min: U64, max: U64, p: int)
    requires p > 0 && i < |regions|
  {
    InWindow(regions[i], min, max) && i >= 1 && assumed == min && regions[i].start > AfterPrevious(regions, i, p)
  }

  /** Where the region after `i` starts.  The test `i <= size - 2` is made on unsigned numbers, so
      with a single region it passes, and the search reads what lies behind the vector. */
  function NextStart(regions: seq<Region>, i: nat, beyond: U64): U64
    requires i < |regions|
  {
    if i + 1 < |regions| then regions[i + 1].start else beyond
  }

  predicate TriesAfter(regions: seq<Region>, i: nat, min: U64, max: U64, beyond: U64)
    requires i < |regions|
  {
    InWindow(regions[i], min, max) && (i + 1 < |regions| || |regions| == 1) && End(regions[i]) < NextStart(regions, i, beyond)
  }

  /** The addresses tried at region `i`, in order. */
  function RegionTries(regions: seq<Region>, i: nat, assumed: U64, min: U64, max: U64, p: int, beyond: U64): seq<U64>
    requires p > 0 && i < |regions|
  {
    (if TriesBefore(regions, i, assumed, min, max, p) then [Max(min, AfterPrevious(regions, i, p))] else [])
    + (if TriesAfter(regions, i, min, max, beyond) then [NextPage(Wrap(End(regions[i])), p)] else [])
  }

  /** `assumePageAddr` after trying `tries` in vain. */
  function AssumedAfter(assumed: U64, tries: seq<U64>): U64 {
    if tries == [] then assumed else tries[|tries| - 1]
  }

  function LoopTries(regions: seq<Region>, i: nat, assumed: U64, min: U64, max: U64, p: int, beyond: U64): seq<U64>
    requires p > 0 && i <= |regions|
    decreases |regions| - i
  {
    if i == |regions| then []
    else
      var t := RegionTries(regions, i, assumed, min, max, p, beyond);
      t + LoopTries(regions, i + 1, AssumedAfter(assumed, t), min, max, p, beyond)
  }

  /** Every address that the search asks the system for, in order, as long as it is refused. */
  function AllTries(pos: U64, range: U64, regions: seq<Region>, p: int, beyond: U64): seq<U64>
    requires p > 0 && |regions| >= 1
  {
    var min, max := MinPage(pos, range, p), MaxPage(pos, range, p);
    (if min < regions[0].start then [min] else [])
    + (if max < End(regions[|regions| - 1]) then [min] else [])
    + LoopTries(regions, 0, min, min, max, p, beyond)
  }

  /** The first address granted, where `grant(k)` is the system's answer to attempt `k`; 0 for none. */
  function FirstGranted(tries: seq<U64>, grant: nat -> bool, k: nat): U64
    decreases |tries|
  {
    if tries == [] then 0 else if grant(k) then tries[0] else FirstGranted(tries[1..], grant, k + 1)
  }

  /** An address strictly within range, and not null, which would let the system choose. */
  predicate GoodTry(a: U64, pos: U64, range: U64) { a > 0 && Abs(a - pos) < range }

  ghost predicate AllGood(tries: seq<U64>, pos: U64, range: U64) {
    forall k :: 0 <= k < |tries| ==> GoodTry(tries[k], pos, range)
  }

  lemma GoodAppend(a: seq<U64>, b: seq<U64>, pos: U64, range: U64)
    requires AllGood(a, pos, range) && AllGood(b, pos, range)
    ensures AllGood(a + b, pos, range)
  {
    hide GoodTry;
  }

  lemma RegionTriesNear(pos: U64, range: U64, regions: seq<Region>, i: nat, assumed: U64, p: int, beyond: U64)
    requires Layout(regions) && PageSize(p) && p < range && i < |regions|
    ensures AllGood(RegionTries(regions, i, assumed, MinPage(pos, range, p), MaxPage(pos, range, p), p, beyond), pos, range)
  {
    hide MinPage, MaxPage, NextPage, PrevPage, Floor;
    var min, max, r := MinPage(pos, range, p), MaxPage(pos, range, p), regions[i];
    MinPageNear(pos, range, p);
    MaxPageNear(pos, range, p);
    WrapSmall(End(r));
    hide Wrap;
    if InWindow(r, min, max) {
      assert min <= End(r) < max;
      NextBelow(Wrap(End(r)), max, p);
      if TriesBefore(regions, i, assumed, min, max, p) {
        assert min <= Max(min, AfterPrevious(regions, i, p)) <= r.start < max;
      }
    }
  }

  lemma {:induction false} LoopTriesNear(pos: U64, range: U64, regions: seq<Region>, i: nat, assumed: U64, p: int, beyond: U64)
    requires Layout(regions) && PageSize(p) && p < range && i <= |regions|
    ensures AllGood(LoopTries(regions, i, assumed, MinPage(pos, range, p), MaxPage(pos, range, p), p, beyond), pos, range)
    decreases |regions| - i
  {
    if i < |regions| {
      hide MinPage, MaxPage, RegionTries, AllGood, Layout, AssumedAfter;
      var min, max := MinPage(pos, range, p), MaxPage(pos, range, p);
      var t := RegionTries(regions, i, assumed, min, max, p, beyond);
      RegionTriesNear(pos, range, regions, i, assumed, p, beyond);
      LoopTriesNear(pos, range, regions, i + 1, AssumedAfter(assumed, t), p, beyond);
      GoodAppend(t, LoopTries(regions, i + 1, AssumedAfter(assumed, t), min, max, p, beyond), pos, range);
    }
  }

  /** For every layout, position and range of more than a page, every address that the
      search asks for lies strictly within range. */
  lemma TriesNear(pos: U64, range: U64, regions: seq<Region>, p: int, beyond: U64)
    requires Layout(regions) && PageSize(p) && p < range
    ensures forall a :: a in AllTries(pos, range, regions, p, beyond) ==> GoodTry(a, pos, range) && Near(a, pos, range)
  {
    hide MinPage, MaxPage, LoopTries, Near;
    var min, max := MinPage(pos, range, p), MaxPage(pos, range, p);
    MinPageNear(pos, range, p);
    LoopTriesNear(pos, range, regions, 0, min, p, beyond);
    var first := if min < regions[0].start then [min] else [];
    var last := if max < End(regions[|regions| - 1]) then [min] else [];
    GoodAppend(first, last, pos, range);
    GoodAppend(first + last, LoopTries(regions, 0, min, min, max, p, beyond), pos, range);
    forall a | a in AllTries(pos, range, regions, p, beyond) ensures GoodTry(a, pos, range) && Near(a, pos, range) {
      NearIs(a, pos, range);
    }
  }

  lemma {:induction false} GrantedIsTried(tries: seq<U64>, grant: nat -> bool, k: nat)
    ensures FirstGranted(tries, grant, k) == 0 || FirstGranted(tries, grant, k) in tries
    decreases |tries|
  {
    if tries != [] { GrantedIsTried(tries[1..], grant, k + 1); }
  }

  /** Trying `x`, then `rest`. */
  lemma GrantedFirst(x: U64, rest: seq<U64>, grant: nat -> bool, k: nat)
    ensures FirstGranted([x] + rest, grant, k) == if grant(k) then x else FirstGranted(rest, grant, k + 1)
  {
    assert ([x] + rest)[1..] == rest;
  }

  lemma GrantedNone(rest: seq<U64>, grant: nat -> bool, k: nat)
    ensures FirstGranted([] + rest, grant, k) == FirstGranted(rest, grant, k)
  {
    assert [] + rest == rest;
  }

  // ---------------------------------------------------------------- the search as a program

  /** The body of the loop of `search_near_blank_page`; `rest` is what would be tried later. */
  method TryRegion(regions: seq<Region>, i: nat, assumed: U64, min: U64, max: U64, p: int, beyond: U64, grant: nat -> bool, attempt: nat, ghost rest: seq<U64>)
    returns (found: bool, assumed': U64, attempt': nat)
    requires p > 0 && i < |regions|
    ensures var t := RegionTries(regions, i, assumed, min, max, p, beyond);
            if found then FirstGranted(t + rest, grant, attempt) == assumed'
            else assumed' == AssumedAfter(assumed, t) && FirstGranted(t + rest, grant, attempt) == FirstGranted(rest, grant, attempt')
  {
    hide NextPage, InWindow, AfterPrevious, Max, FirstGranted;
    assumed', attempt' := assumed, attempt;
    ghost var first: seq<U64> := if TriesBefore(regions, i, assumed, min, max, p) then [Max(min, AfterPrevious(regions, i, p))] else [];
    ghost var last: seq<U64> := if TriesAfter(regions, i, min, max, beyond) then [NextPage(Wrap(End(regions[i])), p)] else [];
    assert first + last + rest == first + (last + rest);
    if TriesBefore(regions, i, assumed, min, max, p) {
      assumed' := Max(min, AfterPrevious(regions, i, p));
      GrantedFirst(assumed', last + rest, grant, attempt);
      if grant(attempt) { return true, assumed', attempt; }
      attempt' := attempt + 1;
    } else {
      GrantedNone(last + rest, grant, attempt);
    }
    if TriesAfter(regions, i, min, max, beyond) {
      assumed' := NextPage(Wrap(End(regions[i])), p);
      GrantedFirst(assumed', rest, grant, attempt');
      if grant(attempt') { return true, assumed', attempt'; }
      attempt' := attempt' + 1;
    } else {
      GrantedNone(rest, grant, attempt');
    }
    return false, assumed', attempt';
  }

  /** `search_near_blank_page`. */
  method SearchNearBlankPage(pos: U64, range: U64, regions: seq<Region>, p: int, beyond: U64, grant: nat -> bool) returns (result: U64)
    requires Layout(regions) && PageSize(p) && p < range
    ensures result == FirstGranted(AllTries(pos, range, regions, p, beyond), grant, 0)
    ensures result == 0 || (GoodTry(result, pos, range) && Near(result, pos, range))
  {
    hide MinPage, MaxPage, Near, GoodTry, RegionTries, FirstGranted, AssumedAfter;
    ghost var all := AllTries(pos, range, regions, p, beyond);
    TriesNear(pos, range, regions, p, beyond);
    GrantedIsTried(all, grant, 0);
    var min, max := MinPage(pos, range, p), MaxPage(pos, range, p);
    var assumed: U64, attempt: nat := min, 0;
    ghost var loop := LoopTries(regions, 0, min, min, max, p, beyond);
    ghost var second: seq<U64> := if max < End(regions[|regions| - 1]) then [min] else [];
    if min < regions[0].start {
      assert all == [min] + (second + loop);
      GrantedFirst(min, second + loop, grant, 0);
      if grant(attempt) { return min; }
      attempt := attempt + 1;
    } else {
      assert all == second + loop;
    }
    GrantedNone(loop, grant, attempt);
    if max < End(regions[|regions| - 1]) {
      GrantedFirst(min, loop, grant, attempt);
      if grant(attempt) { return min; }
      attempt := attempt + 1;
    }
    var i := 0;
    while i < |regions|
      invariant 0 <= i <= |regions|
      invariant FirstGranted(LoopTries(regions, i, assumed, min, max, p, beyond), grant, attempt) == FirstGranted(all, grant, 0)
    {
      ghost var assumed' := AssumedAfter(assumed, RegionTries(regions, i, assumed, min, max, p, beyond));
      var found;
      found, assumed, attempt := TryRegion(regions, i, assumed, min, max, p, beyond, grant, attempt, LoopTries(regions, i + 1, assumed', min, max, p, beyond));
      if found { return assumed; }
      i := i + 1;
    }
    NothingTried(grant, attempt);
    return 0;
  }

  lemma NothingTried(grant: nat -> bool, k: nat)
    ensures FirstGranted([], grant, k) == 0
  {
  }

  // ---------------------------------------------------------------- blank bytes in mapped code

  /** What a region holds, and whether it is code or read-only data. */
  datatype Mapping = Mapping(bytes: seq<Byte>, readable: bool)

  function Zeros(n: nat): (z: seq<Byte>)
    ensures |z| == n && forall i :: 0 <= i < n ==> z[i] == 0
  {
    seq<Byte>(n, _ => 0)
  }

  /** Region `i` may be searched: readable, and all of it within range. */
  predicate Searched(regions: seq<Region>, maps: seq<Mapping>, i: nat, min: U64, max: U64)
    requires |maps| == |regions| && i < |regions|
  {
    maps[i].readable && End(regions[i]) <= max && regions[i].start >= min
  }

  /** `a` is the first run of `size` blank bytes of the first region that may be searched and has one. */
  ghost predicate BlankAt(regions: seq<Region>, maps: seq<Mapping>, min: U64, max: U64, size: nat, a: U64) {
    && |maps| == |regions|
    && exists i :: 0 <= i < |regions| && Searched(regions, maps, i, min, max)
                   && IsFirst(maps[i].bytes, Zeros(size), a - regions[i].start) && a - regions[i].start >= 0
                   && forall k :: 0 <= k < i && Searched(regions, maps, k, min, max) ==> !HasRun(maps[k].bytes, size)
  }

  ghost predicate SomeBlank(regions: seq<Region>, maps: seq<Mapping>, min: U64, max: U64, size: nat)
    requires |maps| == |regions|
  {
    exists i :: 0 <= i < |regions| && Searched(regions, maps, i, min, max) && HasRun(maps[i].bytes, size)
  }

  ghost predicate HasRun(bytes: seq<Byte>, size: nat) {
    exists j :: MatchAt(bytes, Zeros(size), j)
  }

  ghost predicate Mapped(regions: seq<Region>, maps: seq<Mapping>) {
    |maps| == |regions| && forall i :: 0 <= i < |regions| ==> |maps[i].bytes| == regions[i].length
  }

  /** `search_near_blank_memory_chunk`, other than on Arm; 0 for none. */
  method SearchNearBlankChunk(pos: U64, range: U64, size: nat, regions: seq<Region>, maps: seq<Mapping>, p: int) returns (result: U64)
    requires Layout(regions) && Mapped(regions, maps) && PageSize(p) && p < range
    ensures var min, max := MinPage(pos, range, p), MaxPage(pos, range, p);
            && (result != 0 <==> SomeBlank(regions, maps, min, max, size))
            && (result != 0 ==> BlankAt(regions, maps, min, max, size, result) && Near(result, pos, range))
  {
    hide MinPage, MaxPage, Near, IsFirst, MatchAt, Searched;
    var min, max := MinPage(pos, range, p), MaxPage(pos, range, p);
    for i := 0 to |regions|
      invariant forall k :: 0 <= k < i && Searched(regions, maps, k, min, max) ==> !HasRun(maps[k].bytes, size)
    {
      SearchedIs(regions, maps, i, min, max);
      if maps[i].readable && regions[i].start + regions[i].length <= max && min <= regions[i].start {
        var j := Memmem(maps[i].bytes, Zeros(size));
        FirstMeans(maps[i].bytes, size, j);
        if j != -1 {
          BlankNear(pos, range, p, regions, maps, i, size, j);
          return regions[i].start + j;
        }
      }
    }
    return 0;
  }

  // ---------------------------------------------------------------- the same on Arm

  /** How many regions before `i` are searched. */
  function Before(regions: seq<Region>, maps: seq<Mapping>, i: nat, min: U64, max: U64): nat
    requires |maps| == |regions| && i <= |regions|
  {
    if i == 0 then 0
    else Before(regions, maps, i - 1, min, max) + if Searched(regions, maps, i - 1, min, max) then 1 else 0
  }

  /** Three bytes, whatever lies behind the block that was set to zero. */
  type Triple = t: seq<Byte> | |t| == 3 witness [0, 0, 0]

  /** What is searched for in the `k`-th region searched: the size grows by three every time, the
      block of zeros is allocated before it does. */
  function ArmNeedle(size: nat, k: nat, behind: nat -> Triple): (r: seq<Byte>)
    ensures |r| == size + 3 * (k + 1) && forall i :: 0 <= i < size + 3 * k ==> r[i] == 0
  {
    Zeros(size + 3 * k) + behind(k)
  }

  /** `addr + (4 - addr % 4)`. */
  function Rounded(a: int): int { a + 4 - a % 4 }

  /** `a` is the first occurrence of its needle in region `i`, and no region searched before has its own. */
  ghost predicate ArmFoundAt(regions: seq<Region>, maps: seq<Mapping>, min: U64, max: U64, size: nat, behind: nat -> Triple, i: nat, a: int) {
    && |maps| == |regions| && i < |regions| && Searched(regions, maps, i, min, max)
    && IsFirst(maps[i].bytes, ArmNeedle(size, Before(regions, maps, i, min, max), behind), a - regions[i].start) && a >= regions[i].start
    && forall k :: 0 <= k < i && Searched(regions, maps, k, min, max) ==>
         !ArmOccurs(maps[k].bytes, size, Before(regions, maps, k, min, max), behind)
  }

  ghost predicate SomeArm(regions: seq<Region>, maps: seq<Mapping>, min: U64, max: U64, size: nat, behind: nat -> Triple)
    requires |maps| == |regions|
  {
    exists i :: 0 <= i < |regions| && Searched(regions, maps, i, min, max) &&
                ArmOccurs(maps[i].bytes, size, Before(regions, maps, i, min, max), behind)
  }

  ghost predicate ArmOccurs(bytes: seq<Byte>, size: nat, k: nat, behind: nat -> Triple) {
    exists j :: MatchAt(bytes, ArmNeedle(size, k, behind), j)
  }

  /** The C library's `memmem`. */
  method FindFirst(hay: seq<Byte>, needle: seq<Byte>) returns (r: int)
    ensures IsFirst(hay, needle, r)
  {
    r := 0;
    while r + |needle| <= |hay| && hay[r..r + |needle|] != needle
      invariant 0 <= r && forall j :: MatchAt(hay, needle, j) ==> r <= j
      decreases |hay| - r
    {
      r := r + 1;
    }
    if r + |needle| > |hay| { r := -1; }
  }

  /** `search_near_blank_memory_chunk` on Arm: the address found is rounded up to the next word. */
  method SearchNearBlankChunkArm(pos: U64, range: U64, size: nat, regions: seq<Region>, maps: seq<Mapping>, p: int, behind: nat -> Triple)
    returns (result: U64)
    requires Layout(regions) && Mapped(regions, maps) && PageSize(p) && 4 <= p < range
    ensures var min, max := MinPage(pos, range, p), MaxPage(pos, range, p);
            && (result != 0 <==> SomeArm(regions, maps, min, max, size, behind))
            && (result != 0 ==> Near(result, pos, range) && result % 4 == 0)
            && (result != 0 ==> exists i, a :: ArmFoundAt(regions, maps, min, max, size, behind, i, a) && result == Rounded(a))
  {
    hide MinPage, MaxPage, Near, IsFirst, MatchAt, Searched, ArmNeedle, Rounded;
    var min, max := MinPage(pos, range, p), MaxPage(pos, range, p);
    var count, allocSize := 0, size;
    for i := 0 to |regions|
      invariant count == Before(regions, maps, i, min, max) && allocSize == size + 3 * count
      invariant forall k :: 0 <= k < i && Searched(regions, maps, k, min, max) ==>
                  !ArmOccurs(maps[k].bytes, size, Before(regions, maps, k, min, max), behind)
    {
      SearchedIs(regions, maps, i, min, max);
      if maps[i].readable && regions[i].start + regions[i].length <= max && min <= regions[i].start {
        var blank := Zeros(allocSize);
        allocSize := allocSize + 3;
        NeedleIs(size, count, behind);
        var j := FindFirst(maps[i].bytes, blank + behind(count));
        ArmMeans(maps[i].bytes, size, count, behind, j);
        if j != -1 {
          ArmNear(pos, range, p, regions, maps, i, j);
          ghost var a := regions[i].start + j;
          assert ArmFoundAt(regions, maps, min, max, size, behind, i, a);
          return Rounded(regions[i].start + j);
        }
        count := count + 1;
      }
    }
    return 0;
  }

  lemma SearchedIs(regions: seq<Region>, maps: seq<Mapping>, i: nat, min: U64, max: U64)
    requires |maps| == |regions| && i < |regions|
    ensures Searched(regions, maps, i, min, max) <==> maps[i].readable && regions[i].start + regions[i].length <= max && min <= regions[i].start
  {
  }

  lemma NeedleIs(size: nat, k: nat, behind: nat -> Triple)
    ensures ArmNeedle(size, k, behind) == Zeros(size + 3 * k) + behind(k)
  {
  }

  lemma ArmMeans(bytes: seq<Byte>, size: nat, k: nat, behind: nat -> Triple, j: int)
    requires IsFirst(bytes, ArmNeedle(size, k, behind), j)
    ensures if j == -1 then !ArmOccurs(bytes, size, k, behind) else ArmOccurs(bytes, size, k, behind) && 0 <= j && j + 3 <= |bytes|
  {
  }

  lemma ArmNear(pos: U64, range: U64, p: int, regions: seq<Region>, maps: seq<Mapping>, i: nat, j: nat)
    requires Layout(regions) && Mapped(regions, maps) && PageSize(p) && 4 <= p < range && i < |regions| && j + 3 <= regions[i].length
    requires Searched(regions, maps, i, MinPage(pos, range, p), MaxPage(pos, range, p))
    ensures var r := Rounded(regions[i].start + j); 0 < r < TWO64 && Near(r, pos, range) && r % 4 == 0
  {
    hide MinPage, MaxPage, Near;
    MinPageNear(pos, range, p);
    MaxPageBelow(pos, range, p);
    var a := regions[i].start + j;
    DivUnique(Rounded(a), 4, a / 4 + 1, 0);
    NearIs(Rounded(a), pos, range);
  }

  /** The highest page leaves a page of room, unless it is the first page. */
  lemma MaxPageBelow(pos: U64, range: U64, p: int)
    requires PageSize(p) && p < range
    ensures MaxPage(pos, range, p) == 0 || (MaxPage(pos, range, p) + p <= pos + range && MaxPage(pos, range, p) + p < TWO64)
  {
    hide AddrAdd, PrevPage, Floor;
    AddrSaturates(pos, range);
    var hi := AddrAdd(pos, range);
    PageSaturates(hi, p);
    FloorBounds(hi, p);
    FloorSmall(hi, p);
  }

  lemma FloorSmall(a: U64, p: int)
    requires p > 0
    ensures Floor(a, p) < p ==> Floor(a, p) == 0
  {
    BoundaryBelow(0, if Floor(a, p) > 0 then Floor(a, p) else p, p) by { FloorAligned(a, p); DivUnique(p, p, 1, 0); }
  }

  /** The chunk at the rounded address lies within the bytes found if and only if the address was
      not a multiple of four already, or an earlier region was searched in vain. */
  lemma RoundedInside(a: int, size: nat, k: nat)
    ensures Rounded(a) + size <= a + (size + 3 * k + 3) <==> a % 4 != 0 || k >= 1
  {
  }

  /** A run of eleven blank bytes found at 0x1000 for a chunk of eight: the chunk takes the byte behind it. */
  lemma RoundedOverruns()
    ensures Rounded(0x1000) == 0x1004 && Rounded(0x1000) + 8 == 0x1000 + (8 + 3) + 1
  {
  }

  lemma FirstMeans(bytes: seq<Byte>, size: nat, j: int)
    requires IsFirst(bytes, Zeros(size), j)
    ensures if j == -1 then !HasRun(bytes, size) else HasRun(bytes, size) && 0 <= j && j + size <= |bytes|
  {
  }

  lemma BlankNear(pos: U64, range: U64, p: int, regions: seq<Region>, maps: seq<Mapping>, i: nat, size: nat, j: nat)
    requires Layout(regions) && Mapped(regions, maps) && PageSize(p) && p < range && i < |regions| && j <= regions[i].length
    requires Searched(regions, maps, i, MinPage(pos, range, p), MaxPage(pos, range, p))
    ensures 0 < regions[i].start + j < TWO64 && Near(regions[i].start + j, pos, range)
  {
    hide MinPage, MaxPage, Near;
    MinPageNear(pos, range, p);
    MaxPageNear(pos, range, p);
    NearIs(regions[i].start + j, pos, range);
  }

  // ---------------------------------------------------------------- allocation

  /** A page of the arena that can serve a request: right permission, near, and with room. */
  predicate Serves(page: Page, pos: U64, range: U64, size: int, permission: Permission) {
    Near(Wrap(page.cursor), pos, range) && HasRoom(page, size, permission)
  }

  /** A page just found near `pos` serves a request exactly when the request is smaller than a page. */
  lemma FreshPageServes(a: U64, pos: U64, range: U64, size: int, permission: Permission, p: int)
    requires Near(a, pos, range)
    ensures Serves(Page(a, p, a, permission, []), pos, range, size, permission) <==> size < p
  {
    WrapSmall(a);
  }

  /** A page serves a request exactly when it has the permission, its recorded chunks leave more than the
      size free, and the place right behind them is near. */
  lemma ServesExactly(page: Page, pos: U64, range: U64, size: int, permission: Permission)
    requires page.cursor == page.base + Sum(page.chunks)
    ensures Serves(page, pos, range, size, permission) <==>
            page.permission == permission && Sum(page.chunks) + size < page.length && Near(Wrap(page.base + Sum(page.chunks)), pos, range)
  {
    hide Near, Wrap, Sum;
  }

  /** Nearness is a distance below `range` either way round the address space. */
  lemma NearExactly(a: U64, pos: U64, range: U64)
    requires range <= 0x8000_0000_0000_0000
    ensures Near(a, pos, range) <==> Abs(a - pos) < range || Abs(a - pos) > TWO64 - range
  {
    WrapSmall(a - pos);
    hide Wrap;
  }

  /** Pages of the arena have the page size, and their cursor only moves up. */
  predicate PageShape(page: Page, p: int) { page.length == p && page.base <= page.cursor }

  /** The chunk is the page's latest, it ends where the cursor is, and it lies inside the page. */
  predicate CutFrom(page: Page, chunk: Chunk, permission: Permission) {
    && page.permission == permission && |page.chunks| > 0 && page.chunks[|page.chunks| - 1] == chunk
    && page.cursor == chunk.address + chunk.length < page.base + page.length
  }

  lemma ServedChunk(page: Page, pos: U64, range: U64, size: int, permission: Permission, p: int)
    requires Serves(page, pos, range, size, permission)
    ensures Near(Wrap(page.cursor), pos, range) && CutFrom(Cut(page, size), Chunk(page.cursor, size), permission)
    ensures PageShape(page, p) && size >= 0 ==> PageShape(Cut(page, size), p)
  {
  }

  /** What a search meets: the memory layout, what lies behind it, and the system's answers. */
  datatype System = System(regions: seq<Region>, beyond: U64, grant: nat -> bool)

  /** The search finds a page. */
  predicate Finds(pos: U64, range: U64, p: int, sys: System) {
    p > 0 && |sys.regions| >= 1 && FirstGranted(AllTries(pos, range, sys.regions, p, sys.beyond), sys.grant, 0) != 0
  }

  /** The page that the search finds, or 0. */
  function Found(pos: U64, range: U64, p: int, sys: System): U64 {
    if Finds(pos, range, p, sys) then FirstGranted(AllTries(pos, range, sys.regions, p, sys.beyond), sys.grant, 0) else 0
  }

  /** `pages` with the pages that the first `n` searches found. */
  function WithFound(pages: seq<Page>, pos: U64, range: U64, p: int, permission: Permission, sys: nat -> System, n: nat): seq<Page> {
    if n == 0 then pages
    else
      var a := Found(pos, range, p, sys(n - 1));
      WithFound(pages, pos, range, p, permission, sys, n - 1) + [Page(a, p, a, permission, [])]
  }

  /** The first page that serves the request. */
  ghost predicate FirstServing(pages: seq<Page>, i: int, pos: U64, range: U64, size: int, permission: Permission) {
    && 0 <= i < |pages| && Serves(pages[i], pos, range, size, permission)
    && forall k :: 0 <= k < i ==> !Serves(pages[k], pos, range, size, permission)
  }

  ghost predicate Layouts(sys: nat -> System) {
    forall k :: Layout(sys(k).regions)
  }

  ghost predicate SomeServes(pages: seq<Page>, pos: U64, range: U64, size: int, permission: Permission) {
    exists i :: 0 <= i < |pages| && Serves(pages[i], pos, range, size, permission)
  }

  /** The chunk is cut off the first page that serves the request, if `paged`, and nothing else changes. */
  ghost predicate AfterRequest(before: seq<Page>, after: seq<Page>, paged: bool, chunk: Chunk, pos: U64, range: U64, size: int, permission: Permission) {
    if !paged then after == before
    else exists i :: FirstServing(before, i, pos, range, size, permission)
                     && chunk == Chunk(before[i].cursor, size) && after == before[i := Cut(before[i], size)]
  }

  class NearMemoryArena {
    var pages: seq<Page>

    ghost predicate Valid(p: int)
      reads this
    {
      forall k :: 0 <= k < |pages| ==> PageShape(pages[k], p)
    }

    constructor (p: int)
      ensures pages == [] && Valid(p)
    {
      pages := [];
    }

    method PushPage(a: U64, p: int, permission: Permission)
      modifies this
      ensures pages == old(pages) + [Page(a, p, a, permission, [])]
    {
      pages := pages + [Page(a, p, a, permission, [])];
    }

    method FindPage(pos: U64, range: U64, size: int, permission: Permission) returns (i: nat)
      ensures i <= |pages| && (i < |pages| ==> Serves(pages[i], pos, range, size, permission))
      ensures forall k :: 0 <= k < i ==> !Serves(pages[k], pos, range, size, permission)
    {
      i := 0;
      while i < |pages| && !Serves(pages[i], pos, range, size, permission)
        invariant 0 <= i <= |pages|
        invariant forall k :: 0 <= k < i ==> !Serves(pages[k], pos, range, size, permission)
      {
        i := i + 1;
      }
    }

    /** `search_once_more`: look for a page that serves the request, and map another one near
        the position for as long as there is none.  `sys(k)` is what the `k`-th search meets,
        and `limit` is a search that finds nothing: only for requests of a page or more does
        termination rest on it. */
    method FindOrMapPage(pos: U64, range: U64, size: int, permission: Permission, p: int, sys: nat -> System, ghost limit: nat)
      returns (i: nat, searches: nat)
      requires Layouts(sys) && PageSize(p) && p < range && Valid(p)
      requires size >= p ==> !Finds(pos, range, p, sys(limit))
      modifies this
      ensures Valid(p) && i <= |pages| && (i < |pages| ==> FirstServing(pages, i, pos, range, size, permission))
      ensures pages == WithFound(old(pages), pos, range, p, permission, sys, searches)
      ensures size < p ==> searches == if !SomeServes(old(pages), pos, range, size, permission) && Finds(pos, range, p, sys(0)) then 1 else 0
      ensures i < |pages| <==> SomeServes(old(pages), pos, range, size, permission) ||
                               (size < p && Finds(pos, range, p, sys(0)))
      ensures size >= p ==> i == |pages| && !Finds(pos, range, p, sys(searches))
      ensures forall k :: 0 <= k < searches ==> Finds(pos, range, p, sys(k))
    {
      hide Finds, Layout, Serves, PageSize, PageShape, Near, GoodTry, FirstGranted, AllTries, Found;
      searches := 0;
      i := FindPage(pos, range, size, permission);
      NoneServes(pages, pos, range, size, permission, p);
      while i == |pages|
        invariant i <= |pages| && Valid(p) && pages == WithFound(old(pages), pos, range, p, permission, sys, searches)
        invariant searches <= if size < p then 1 else limit
        invariant i < |pages| ==> FirstServing(pages, i, pos, range, size, permission)
        invariant size >= p ==> i == |pages|
        invariant size < p && searches == 1 ==> i < |pages|
        invariant if searches == 0 then SomeServes(old(pages), pos, range, size, permission) <==> i < |pages|
                  else !SomeServes(old(pages), pos, range, size, permission)
        invariant forall k :: 0 <= k < searches ==> Finds(pos, range, p, sys(k))
        decreases (if size < p then 1 else limit) - searches
      {
        var now := sys(searches);
        assert Layout(now.regions);
        var a := SearchNearBlankPage(pos, range, now.regions, p, now.beyond, now.grant);
        FindsMeans(pos, range, p, now);
        if a == 0 { return; }
        PushPage(a, p, permission);
        searches := searches + 1;
        FreshPageServes(a, pos, range, size, permission, p);
        FreshShape(a, p, permission);
        assert pages[|pages| - 1] == Page(a, p, a, permission, []);
        i := FindPage(pos, range, size, permission);
        NoneServes(pages, pos, range, size, permission, p);
      }
    }

    /** `AllocateChunk`: a chunk of a page if one serves or can be mapped, otherwise, for code,
        blank bytes in the code that is mapped by then, found in one way on Arm and in another
        elsewhere.  A chunk starts strictly within range. */
    method AllocateChunk(pos: U64, range: U64, size: nat, permission: Permission, p: int, sys: nat -> System,
                         arm: bool, regions: seq<Region>, maps: seq<Mapping>, behind: nat -> Triple, ghost limit: nat)
      returns (ok: bool, chunk: Chunk, paged: bool)
      requires Layouts(sys) && Layout(regions) && Mapped(regions, maps) && PageSize(p) && 4 <= p < range && Valid(p)
      requires size >= p ==> !Finds(pos, range, p, sys(limit))
      modifies this
      ensures Valid(p)
      ensures ok ==> Near(Wrap(chunk.address), pos, range) && chunk.length == size
      ensures paged <==> SomeServes(old(pages), pos, range, size, permission) || (size < p && Finds(pos, range, p, sys(0)))
      ensures var n := if SomeServes(old(pages), pos, range, size, permission) || size >= p || !Finds(pos, range, p, sys(0)) then 0 else 1;
              size < p ==> AfterRequest(WithFound(old(pages), pos, range, p, permission, sys, n), pages, paged, chunk, pos, range, size, permission)
      ensures exists n: nat :: AfterRequest(WithFound(old(pages), pos, range, p, permission, sys, n), pages, paged, chunk, pos, range, size, permission)
      ensures paged ==> ok && exists i :: 0 <= i < |pages| && CutFrom(pages[i], chunk, permission)
      ensures var min, max := MinPage(pos, range, p), MaxPage(pos, range, p);
              && (!arm ==> (ok <==> paged || (permission != ReadWrite && SomeBlank(regions, maps, min, max, size))))
              && (!arm && ok && !paged ==> 0 <= chunk.address < TWO64 && BlankAt(regions, maps, min, max, size, chunk.address))
              && (arm ==> (ok <==> paged || (permission != ReadWrite && SomeArm(regions, maps, min, max, size, behind))))
              && (arm && ok && !paged ==>
                    exists i, a :: ArmFoundAt(regions, maps, min, max, size, behind, i, a) && chunk.address == Rounded(a))
    {
      hide Near, Finds, Layout, Serves, CutFrom, Cut, PageSize, PageShape, MinPage, MaxPage, SomeBlank, BlankAt, SomeArm, ArmFoundAt, Mapped,
           SomeServes, Rounded, FirstServing, AfterRequest, WithFound;
      var i, searches := FindOrMapPage(pos, range, size, permission, p, sys, limit);
      if i < |pages| {
        ServedFirst(pages, i, pos, range, size, permission);
        ServedChunk(pages[i], pos, range, size, permission, p);
        ghost var before := pages;
        chunk := Chunk(pages[i].cursor, size);
        pages := pages[i := Cut(pages[i], size)];
        assert CutFrom(pages[i], chunk, permission);
        RequestServed(before, i, chunk, pos, range, size, permission);
        return true, chunk, true;
      }
      RequestUnpaged(pages, pos, range, size, permission);
      if permission == ReadWrite { return false, Chunk(0, 0), false; }
      var a: U64;
      if arm {
        a := SearchNearBlankChunkArm(pos, range, size, regions, maps, p, behind);
      } else {
        a := SearchNearBlankChunk(pos, range, size, regions, maps, p);
      }
      WrapSmall(a);
      return a != 0, Chunk(a, size), false;
    }
  }

  lemma ServedFirst(pages: seq<Page>, i: nat, pos: U64, range: U64, size: int, permission: Permission)
    requires FirstServing(pages, i, pos, range, size, permission)
    ensures i < |pages| && Serves(pages[i], pos, range, size, permission)
  {
  }

  lemma RequestServed(pages: seq<Page>, i: nat, chunk: Chunk, pos: U64, range: U64, size: int, permission: Permission)
    requires i < |pages| && FirstServing(pages, i, pos, range, size, permission) && chunk == Chunk(pages[i].cursor, size)
    ensures AfterRequest(pages, pages[i := Cut(pages[i], size)], true, chunk, pos, range, size, permission)
  {
  }

  lemma RequestUnpaged(pages: seq<Page>, pos: U64, range: U64, size: int, permission: Permission)
    ensures forall chunk :: AfterRequest(pages, pages, false, chunk, pos, range, size, permission)
  {
  }

  lemma FindsMeans(pos: U64, range: U64, p: int, sys: System)
    requires PageSize(p) && Layout(sys.regions)
    ensures Finds(pos, range, p, sys) <==> FirstGranted(AllTries(pos, range, sys.regions, p, sys.beyond), sys.grant, 0) != 0
    ensures Found(pos, range, p, sys) == FirstGranted(AllTries(pos, range, sys.regions, p, sys.beyond), sys.grant, 0)
  {
  }

  lemma NoneServes(pages: seq<Page>, pos: U64, range: U64, size: int, permission: Permission, p: int)
    requires forall k :: 0 <= k < |pages| ==> PageShape(pages[k], p)
    ensures size >= p ==> forall k :: 0 <= k < |pages| ==> !Serves(pages[k], pos, range, size, permission)
  {
    hide Near, Wrap;
  }

  lemma FreshShape(a: U64, p: int, permission: Permission)
    ensures PageShape(Page(a, p, a, permission, []), p)
  {
  }
}
