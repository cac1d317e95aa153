/** The local `memmem`, which looks for a run of blank bytes without ever going back.
 */
module BlankSearch {
  import opened MachineWords

  // ---------------------------------------------------------------- naive search

  ghost predicate MatchAt(hay: seq<Byte>, needle: seq<Byte>, j: int) {
    0 <= j && j + |needle| <= |hay| && hay[j..j + |needle|] == needle
  }

  /** `r` is the first place at which the needle occurs, or -1 when there is none. */
  ghost predicate IsFirst(hay: seq<Byte>, needle: seq<Byte>, r: int) {
    if r == -1 then forall j :: !MatchAt(hay, needle, j)
    else MatchAt(hay, needle, r) && forall j :: MatchAt(hay, needle, j) ==> r <= j
  }

  // ---------------------------------------------------------------- the one-pass search

  /** The search at position `at` with the first `matched` bytes of the needle just seen. */
  function Scan(hay: seq<Byte>, needle: seq<Byte>, at: nat, matched: nat): int
    requires matched <= |needle| && matched <= at <= |hay|
    decreases |hay| - at
  {
    if matched == |needle| then at - matched
    else if |needle| - matched > |hay| - at then -1
    else if needle[matched] != hay[at] then Scan(hay, needle, at + 1, 0)
    else Scan(hay, needle, at + 1, matched + 1)
  }

  /** `memmem`; -1 for NULL. */
  method Memmem(hay: seq<Byte>, needle: seq<Byte>) returns (r: int)
    ensures r == Scan(hay, needle, 0, 0)
    ensures Uniform(needle) ==> IsFirst(hay, needle, r)
  {
    var h, n, l, left := 0, 0, |needle|, |hay|;
    r := 0;
    while l != 0 && l <= left
      invariant 0 <= l <= |needle| && n == |needle| - l && left == |hay| - h >= 0 && r == h - n && 0 <= r
      invariant Scan(hay, needle, h, n) == Scan(hay, needle, 0, 0)
      decreases left
    {
      if needle[n] != hay[h] {
        h := h + 1;
        r, n, l := h, 0, |needle|;
      } else {
        n, h, l := n + 1, h + 1, l - 1;
      }
      left := left - 1;
    }
    if l != 0 { r := -1; }
    if Uniform(needle) { ScanFirst(hay, needle, 0, 0); }
  }

  ghost predicate Uniform(needle: seq<Byte>) {
    forall i :: 0 <= i < |needle| ==> needle[i] == needle[0]
  }

  /** For a needle of equal bytes, a match that has got to `at` and fails there rules out every
      start up to `at`, so the search finds the first occurrence. */
  lemma {:induction false} ScanFirst(hay: seq<Byte>, needle: seq<Byte>, at: nat, matched: nat)
    requires Uniform(needle) && matched <= |needle| && matched <= at <= |hay|
    requires hay[at - matched..at] == needle[..matched]
    requires forall j :: MatchAt(hay, needle, j) ==> at - matched <= j
    ensures IsFirst(hay, needle, Scan(hay, needle, at, matched))
    decreases |hay| - at
  {
    var r := at - matched;
    if matched == |needle| {
      assert needle[..matched] == needle;
    } else if |needle| - matched > |hay| - at {
    } else if needle[matched] != hay[at] {
      forall j | MatchAt(hay, needle, j) ensures at + 1 <= j {
        if j <= at { MismatchInside(hay, needle, at, j); }
      }
      ScanFirst(hay, needle, at + 1, 0);
    } else {
      assert hay[r..at + 1] == hay[r..at] + [hay[at]];
      assert needle[..matched + 1] == needle[..matched] + [needle[matched]];
      ScanFirst(hay, needle, at + 1, matched + 1);
    }
  }

  /** No occurrence starts at or before, and reaches over, a byte that the needle does not have. */
  lemma MismatchInside(hay: seq<Byte>, needle: seq<Byte>, at: nat, j: int)
    requires Uniform(needle) && needle != [] && at < |hay| && hay[at] != needle[0]
    requires j <= at < j + |needle|
    ensures !MatchAt(hay, needle, j)
  {
    assert 0 <= j && j + |needle| <= |hay| ==> hay[j..j + |needle|][at - j] == hay[at];
  }

  // ---------------------------------------------------------------- exactly the uniform needles

  /** Length of the run of bytes equal to the first. */
  lemma FirstOther(needle: seq<Byte>) returns (k: nat)
    requires !Uniform(needle)
    ensures 1 <= k < |needle| && needle[k] != needle[0] && forall i :: 0 <= i < k ==> needle[i] == needle[0]
  {
    k := 0;
    while k < |needle| && needle[k] == needle[0]
      invariant 0 <= k <= |needle|
      invariant forall i :: 0 <= i < k ==> needle[i] == needle[0]
    {
      k := k + 1;
    }
  }

  lemma {:induction false} ScanMatches(hay: seq<Byte>, needle: seq<Byte>, at: nat, k: nat)
    requires at <= k < |needle| && |hay| == |needle| + 1
    requires forall i :: at <= i < k ==> hay[i] == needle[i]
    ensures Scan(hay, needle, at, at) == Scan(hay, needle, k, k)
    decreases k - at
  {
    if at < k { ScanMatches(hay, needle, at + 1, k); }
  }

  /** The needle after one more copy of its first byte is missed. */
  lemma MissesShifted(needle: seq<Byte>)
    requires !Uniform(needle)
    ensures Scan([needle[0]] + needle, needle, 0, 0) == -1 && MatchAt([needle[0]] + needle, needle, 1)
  {
    var hay := [needle[0]] + needle;
    var k := FirstOther(needle);
    assert forall i :: 0 <= i < k ==> hay[i] == needle[i];
    ScanMatches(hay, needle, 0, k);
    assert hay[k] == needle[k - 1];
    assert hay[1..1 + |needle|] == needle;
  }

  ghost predicate FindsFirst(needle: seq<Byte>) {
    forall hay :: IsFirst(hay, needle, Scan(hay, needle, 0, 0))
  }

  /** The search finds the first occurrence in every haystack exactly for needles of equal
      bytes, such as the blank one it is used with. */
  lemma ExactlyUniform(needle: seq<Byte>)
    ensures FindsFirst(needle) <==> Uniform(needle)
  {
    if Uniform(needle) {
      forall hay ensures IsFirst(hay, needle, Scan(hay, needle, 0, 0)) {
        ScanFirst(hay, needle, 0, 0);
      }
    } else {
      MissesShifted(needle);
      var hay := [needle[0]] + needle;
      assert !IsFirst(hay, needle, Scan(hay, needle, 0, 0));
    }
  }
}
