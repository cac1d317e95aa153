/** Which addresses the search for a page near a position asks for, by the mapped regions
    alone: what the loop remembers of earlier attempts does not enter.
 */
module NearGaps {
  import opened Arithmetic
  import opened MachineWords
  import opened NearArena

  // ---------------------------------------------------------------- the window

  lemma NextAligned(a: U64, p: int)
    requires p > 0
    ensures (Floor(a, p) + p) % p == 0
  {
    assert Floor(a, p) + p == (a / p + 1) * p;
    DivUnique(Floor(a, p) + p, p, a / p + 1, 0);
  }

  /** The lowest page is the one page boundary within a page above the lower end of the range. */
  lemma MinPageExact(pos: U64, range: U64, p: int)
    requires PageSize(p) && p < range
    ensures var lo, min := if range <= pos then pos - range else 0, MinPage(pos, range, p); min % p == 0 && lo < min <= lo + p
  {
    hide AddrSub, NextPage, Floor;
    AddrSaturates(pos, range);
    var lo := AddrSub(pos, range);
    PageSaturates(lo, p);
    FloorBounds(lo, p);
    NextAligned(lo, p);
    assert lo + p < TWO64;
  }

  /** The highest page is the one boundary between one and two pages below the upper end. */
  lemma MaxPageExact(pos: U64, range: U64, p: int)
    requires PageSize(p) && p < range
    ensures var hi, max := if pos + range < TWO64 then pos + range else TWO64 - 1, MaxPage(pos, range, p);
            max % p == 0 && hi - 2 * p < max <= hi - p
  {
    hide AddrAdd, PrevPage, Floor;
    AddrSaturates(pos, range);
    var hi := AddrAdd(pos, range);
    PageSaturates(hi, p);
    FloorBounds(hi, p);
    FloorAligned(hi, p);
    FloorSmall(hi, p);
    FloorZero(hi, p);
  }

  lemma FloorZero(a: U64, p: int)
    requires 0 < p <= a
    ensures Floor(a, p) >= p
  {
    hide Floor;
    FloorBounds(a, p);
    FloorSmall(a, p);
  }

  // ---------------------------------------------------------------- the gaps

  /** The gap before region `i`: only the first region that starts in the window has one. */
  function GapBefore(regions: seq<Region>, i: nat, min: U64, max: U64, p: int): seq<U64>
    requires p > 0 && i < |regions|
  {
    if i > 0 && regions[i - 1].start < min <= regions[i].start && regions[i].start + regions[i].length < max
       && NextPage(Wrap(regions[i - 1].start + regions[i - 1].length), p) < regions[i].start
    then [Max(min, NextPage(Wrap(regions[i - 1].start + regions[i - 1].length), p))] else []
  }

  /** The gap after region `i`, if it is in the window and the next region does not follow at once. */
  function GapAfter(regions: seq<Region>, i: nat, min: U64, max: U64, p: int, beyond: U64): seq<U64>
    requires p > 0 && i < |regions|
  {
    var end := regions[i].start + regions[i].length;
    if min <= regions[i].start && end < max
       && ((i + 1 < |regions| && end < regions[i + 1].start) || (|regions| == 1 && end < beyond))
    then [NextPage(Wrap(end), p)] else []
  }

  /** The gaps of the regions from `i` on, in order. */
  function Gaps(regions: seq<Region>, i: nat, min: U64, max: U64, p: int, beyond: U64): seq<U64>
    requires p > 0 && i <= |regions|
    decreases |regions| - i
  {
    if i == |regions| then []
    else GapBefore(regions, i, min, max, p) + GapAfter(regions, i, min, max, p, beyond) + Gaps(regions, i + 1, min, max, p, beyond)
  }

  /** What `assumePageAddr` says before region `i`: it is still the lowest page if no region
      before `i` starts in the window, and afterwards it is the gap before a region that follows at once. */
  ghost predicate Remembers(regions: seq<Region>, i: nat, assumed: U64, min: U64, max: U64, p: int)
    requires i <= |regions|
  {
    if i == 0 then assumed == min
    else
      var r := regions[i - 1];
      && (r.start < min ==> assumed == min)
      && (min <= r.start && End(r) < max && i < |regions| && End(r) < regions[i].start ==> assumed != min)
  }

  lemma SameAfter(regions: seq<Region>, i: nat, min: U64, max: U64, p: int, beyond: U64)
    requires p > 0 && i < |regions|
    ensures GapAfter(regions, i, min, max, p, beyond) == if TriesAfter(regions, i, min, max, beyond) then [NextPage(Wrap(End(regions[i])), p)] else []
  {
    hide NextPage;
  }

  lemma SameBefore(regions: seq<Region>, i: nat, assumed: U64, min: U64, max: U64, p: int)
    requires Layout(regions) && 0 < p < TWO64 && PageSize(p) && i < |regions| && max % p == 0
    requires Remembers(regions, i, assumed, min, max, p)
    ensures GapBefore(regions, i, min, max, p) ==
            if TriesBefore(regions, i, assumed, min, max, p) then [Max(min, AfterPrevious(regions, i, p))] else []
  {
    hide NextPage, Max, PageSize, Wrap;
    if i > 0 && InWindow(regions[i], min, max) {
      PreviousEnds(regions, i, max, p);
      hide Layout;
    }
  }

  /** The page after the region before `i` lies behind the end of that region. */
  lemma PreviousEnds(regions: seq<Region>, i: nat, max: U64, p: int)
    requires Layout(regions) && 0 < p < TWO64 && PageSize(p) && 0 < i < |regions| && max % p == 0 && End(regions[i]) < max
    ensures End(regions[i - 1]) <= regions[i].start && End(regions[i - 1]) < max && End(regions[i - 1]) < AfterPrevious(regions, i, p)
    ensures regions[i - 1].start <= regions[i].start
  {
    hide NextPage, PageSize;
    var end := End(regions[i - 1]);
    assert end <= regions[i].start;
    WrapSmall(end);
    hide Wrap;
    NextBelow(end, max, p);
  }

  lemma StillRemembers(regions: seq<Region>, i: nat, assumed: U64, min: U64, max: U64, p: int, beyond: U64)
    requires Layout(regions) && 0 < p < TWO64 && PageSize(p) && i < |regions| && max % p == 0
    requires Remembers(regions, i, assumed, min, max, p)
    ensures var t := RegionTries(regions, i, assumed, min, max, p, beyond);
            Remembers(regions, i + 1, AssumedAfter(assumed, t), min, max, p)
  {
    hide NextPage, Max, PageSize;
    var r := regions[i];
    if r.start < min {
      assert !InWindow(r, min, max);
      assert RegionTries(regions, i, assumed, min, max, p, beyond) == [];
      if i > 0 { assert regions[i - 1].start <= End(regions[i - 1]) <= r.start; }
    } else if InWindow(r, min, max) && i + 1 < |regions| && End(r) < regions[i + 1].start {
      WrapSmall(End(r));
      hide Wrap;
      NextBelow(End(r), max, p);
    }
  }

  /** The loop asks for exactly the gaps. */
  lemma {:induction false} LoopTriesGaps(regions: seq<Region>, i: nat, assumed: U64, min: U64, max: U64, p: int, beyond: U64)
    requires Layout(regions) && 0 < p < TWO64 && PageSize(p) && i <= |regions| && max % p == 0
    requires Remembers(regions, i, assumed, min, max, p)
    ensures LoopTries(regions, i, assumed, min, max, p, beyond) == Gaps(regions, i, min, max, p, beyond)
    decreases |regions| - i
  {
    hide Remembers, GapBefore, GapAfter, TriesBefore, TriesAfter, AssumedAfter, PageSize, NextPage, AfterPrevious;
    if i < |regions| {
      SameBefore(regions, i, assumed, min, max, p);
      SameAfter(regions, i, min, max, p, beyond);
      StillRemembers(regions, i, assumed, min, max, p, beyond);
      var t := RegionTries(regions, i, assumed, min, max, p, beyond);
      LoopTriesGaps(regions, i + 1, AssumedAfter(assumed, t), min, max, p, beyond);
    }
  }

  /** Everything that is asked for, in order: the lowest page if it lies below the first region, again
      if the last region ends above the highest page, and then the gaps. */
  lemma TriesExact(pos: U64, range: U64, regions: seq<Region>, p: int, beyond: U64)
    requires Layout(regions) && PageSize(p) && p < range
    ensures var min, max, last := MinPage(pos, range, p), MaxPage(pos, range, p), regions[|regions| - 1];
            AllTries(pos, range, regions, p, beyond) ==
              (if min < regions[0].start then [min] else []) + (if max < last.start + last.length then [min] else [])
              + Gaps(regions, 0, min, max, p, beyond)
  {
    hide MinPage, MaxPage, Gaps, LoopTries;
    MaxPageNear(pos, range, p);
    LoopTriesGaps(regions, 0, MinPage(pos, range, p), MinPage(pos, range, p), MaxPage(pos, range, p), p, beyond);
  }

  lemma {:induction false} GapsContain(regions: seq<Region>, k: nat, min: U64, max: U64, p: int, beyond: U64, a: U64)
    requires p > 0 && k <= |regions|
    ensures a in Gaps(regions, k, min, max, p, beyond) <==>
            exists i :: k <= i < |regions| && (a in GapBefore(regions, i, min, max, p) || a in GapAfter(regions, i, min, max, p, beyond))
    decreases |regions| - k
  {
    hide GapBefore, GapAfter;
    if k < |regions| { GapsContain(regions, k + 1, min, max, p, beyond, a); }
  }

  /** So these addresses are asked for, and no others. */
  lemma TriedExactly(pos: U64, range: U64, regions: seq<Region>, p: int, beyond: U64, a: U64)
    requires Layout(regions) && PageSize(p) && p < range
    ensures var min, max, last := MinPage(pos, range, p), MaxPage(pos, range, p), regions[|regions| - 1];
            a in AllTries(pos, range, regions, p, beyond) <==>
              (a == min && (min < regions[0].start || max < last.start + last.length))
              || exists i :: 0 <= i < |regions| && (a in GapBefore(regions, i, min, max, p) || a in GapAfter(regions, i, min, max, p, beyond))
  {
    hide MinPage, MaxPage, Gaps, GapBefore, GapAfter, AllTries;
    TriesExact(pos, range, regions, p, beyond);
    GapsContain(regions, 0, MinPage(pos, range, p), MaxPage(pos, range, p), p, beyond, a);
  }

  // ---------------------------------------------------------------- what is granted

  /** Attempt `n` is the first that is granted, of attempts `k` and following. */
  lemma {:induction false} GrantedExactly(tries: seq<U64>, grant: nat -> bool, k: nat, n: nat)
    requires k <= n <= k + |tries| && (n < k + |tries| ==> grant(n)) && forall j :: k <= j < n ==> !grant(j)
    ensures FirstGranted(tries, grant, k) == if n < k + |tries| then tries[n - k] else 0
    decreases |tries|
  {
    if k < n { GrantedExactly(tries[1..], grant, k + 1, n); }
  }

  /** The search comes back with nothing if and only if every address it asks for is refused. */
  lemma NothingGranted(pos: U64, range: U64, regions: seq<Region>, p: int, beyond: U64, grant: nat -> bool)
    requires Layout(regions) && PageSize(p) && p < range
    ensures var tries := AllTries(pos, range, regions, p, beyond);
            FirstGranted(tries, grant, 0) == 0 <==> forall k :: 0 <= k < |tries| ==> !grant(k)
  {
    hide AllTries, Near;
    var tries := AllTries(pos, range, regions, p, beyond);
    TriesNear(pos, range, regions, p, beyond);
    var n := FirstGrant(grant, |tries|);
    GrantedExactly(tries, grant, 0, n);
    assert n < |tries| ==> tries[n] in tries && tries[n] > 0;
  }

  /** The first of `n` answers that is a grant. */
  lemma {:induction false} FirstGrant(grant: nat -> bool, n: nat) returns (k: nat)
    ensures k <= n && (k < n ==> grant(k)) && forall j :: 0 <= j < k ==> !grant(j)
  {
    if n == 0 { return 0; }
    k := FirstGrant(grant, n - 1);
    if k == n - 1 && !grant(k) { k := n; }
  }
}
