/** The walk over an export trie on any bytes at all, well formed or not: it finds a node
    exactly when there is a route to one.
 */
module TrieRoutes {
  import opened MachineWords
  import opened Uleb128
  import opened ExportTrie

  /** An edge as it is in the bytes. */
  datatype Hop = Hop(name: seq<Byte>, target: nat)

  /** The bytes from `p` on are these edges: a name, a zero byte and a number each. */
  ghost predicate Lists(data: seq<Byte>, p: nat, hops: seq<Hop>)
    decreases |hops|
  {
    hops == [] ||
    (var zero := p + |hops[0].name|;
     && zero < |data| && data[p..zero] == hops[0].name && 0 !in hops[0].name && data[zero] == 0
     && var link := Parse(data, zero + 1);
        link.Number? && link.value % TWO64 == hops[0].target && Lists(data, link.next, hops[1..]))
  }

  /** Of at most `n` edges from `p` on, the last of `hops` is the first whose name is a prefix of `s`. */
  ghost predicate FirstMatch(data: seq<Byte>, p: nat, n: nat, s: seq<Byte>, hops: seq<Hop>) {
    && 0 < |hops| <= n && Lists(data, p, hops)
    && hops[|hops| - 1].name <= s
    && forall k :: 0 <= k < |hops| - 1 ==> !(hops[k].name <= s)
  }

  /** Looking for `s`, the walk goes from the node at `off` along `hop`. */
  ghost predicate Leads(data: seq<Byte>, off: nat, s: seq<Byte>, hop: Hop) {
    off < |data| &&
    match Parse(data, off)
    case Past => false
    case Number(v, q) =>
      var count := q + v % TWO64;
      && (s == [] ==> v % TWO64 == 0) && count < |data| && 0 < hop.target <= |data|
      && exists hops: seq<Hop> :: FirstMatch(data, count + 1, data[count], s, hops) && |hops| > 0 && hops[|hops| - 1] == hop
  }

  /** From the node at `off`, the names of the hops spell `s`, and the last leads to a node with a payload at `at`. */
  ghost predicate Route(data: seq<Byte>, off: nat, s: seq<Byte>, hops: seq<Hop>, at: nat)
    decreases |hops|
  {
    if hops == [] then
      s == [] && match Parse(data, off) case Past => false case Number(v, q) => v % TWO64 != 0 && q == at
    else
      && Leads(data, off, s, hops[0]) && hops[0].name <= s
      && Route(data, hops[0].target, s[|hops[0].name|..], hops[1..], at)
  }

  /** No hop goes back to an offset already recorded; offsets are recorded in 32 bits. */
  ghost predicate NoReturn(hops: seq<Hop>, visited: seq<nat>)
    decreases |hops|
  {
    hops == [] || (hops[0].target !in visited && NoReturn(hops[1..], visited + [hops[0].target % TWO32]))
  }

  // ---------------------------------------------------------------- edges

  lemma ListsFirst(data: seq<Byte>, p: nat, link: Number, rest: seq<Hop>)
    requires p <= |data| && ZeroAt(data, p) < |data| && link == Parse(data, ZeroAt(data, p) + 1) && link.Number?
    requires Lists(data, link.next, rest)
    ensures Lists(data, p, [Hop(data[p..ZeroAt(data, p)], link.value % TWO64)] + rest)
  {
    hide Parse, ZeroAt;
    var z := ZeroAt(data, p);
    var hops := [Hop(data[p..z], link.value % TWO64)] + rest;
    assert hops[0] == Hop(data[p..z], link.value % TWO64) && hops[1..] == rest;
  }

  lemma MatchLater(data: seq<Byte>, p: nat, n: nat, s: seq<Byte>, h: Hop, next: nat, rest: seq<Hop>)
    requires n > 0 && !(h.name <= s) && Lists(data, p, [h] + rest) && FirstMatch(data, next, n - 1, s, rest)
    ensures FirstMatch(data, p, n, s, [h] + rest)
  {
    hide Lists;
    var hops := [h] + rest;
    assert forall k :: 0 < k < |hops| ==> hops[k] == rest[k - 1];
  }

  lemma {:induction false} PickMeansMatch(data: seq<Byte>, p: nat, n: nat, s: seq<Byte>) returns (hops: seq<Hop>)
    requires p <= |data| && PickChild(data, p, n, s).Child?
    ensures FirstMatch(data, p, n, s, hops)
    ensures var h := hops[|hops| - 1]; PickChild(data, p, n, s) == Child(h.target, s[|h.name|..]) && 0 < h.target <= |data|
    decreases n
  {
    hide Parse, ZeroAt, PickChild, Lists;
    if n == 0 { PickNone(data, p, s); }
    PickRound(data, p, n, s);
    var z := ZeroAt(data, p);
    var link := Parse(data, z + 1);
    var h := Hop(data[p..z], link.value % TWO64);
    if h.name <= s {
      ListsNone(data, link.next);
      ListsFirst(data, p, link, []);
      hops := [h] + [];
    } else {
      var rest := PickMeansMatch(data, link.next, n - 1, s);
      hops := [h] + rest;
      ListsFirst(data, p, link, rest);
      MatchLater(data, p, n, s, h, link.next, rest);
    }
  }

  lemma ListsNone(data: seq<Byte>, p: nat)
    ensures Lists(data, p, [])
  {
  }

  lemma ListsParts(data: seq<Byte>, p: nat, hops: seq<Hop>)
    requires p <= |data| && hops != [] && Lists(data, p, hops)
    ensures var z := ZeroAt(data, p);
            && z < |data| && data[p..z] == hops[0].name
            && var link := Parse(data, z + 1);
               link.Number? && link.next <= |data| && link.value % TWO64 == hops[0].target && Lists(data, link.next, hops[1..])
  {
    NameEnds(data, p, hops[0].name);
    hide Parse, ZeroAt;
  }

  lemma {:induction false} MatchMeansPick(data: seq<Byte>, p: nat, n: nat, s: seq<Byte>, hops: seq<Hop>)
    requires p <= |data| && FirstMatch(data, p, n, s, hops)
    requires 0 < hops[|hops| - 1].target <= |data|
    ensures var h := hops[|hops| - 1]; PickChild(data, p, n, s) == Child(h.target, s[|h.name|..])
    decreases n
  {
    hide Parse, ZeroAt, PickChild, Lists;
    ListsParts(data, p, hops);
    PickRound(data, p, n, s);
    if |hops| > 1 {
      assert !(hops[0].name <= s);
      MatchMeansPick(data, Parse(data, ZeroAt(data, p) + 1).next, n - 1, s, hops[1..]);
    }
  }

  // ---------------------------------------------------------------- routes

  lemma StepMeansLeads(data: seq<Byte>, p: nat, s: seq<Byte>, visited: seq<nat>) returns (hop: Hop)
    requires |visited| < 128 && Walk(data, p, s, visited).Found? && !Here(data, p, s)
    ensures Leads(data, p, s, hop) && hop.name <= s && hop.target !in visited && |visited| < 127
    ensures Walk(data, p, s, visited) == Walk(data, hop.target, s[|hop.name|..], visited + [hop.target % TWO32])
  {
    hide Parse, PickChild, FirstMatch;
    var number := Parse(data, p);
    var count := number.next + number.value % TWO64;
    var hops := PickMeansMatch(data, count + 1, data[count], s);
    MatchNames(data, count + 1, data[count], s, hops);
    hop := hops[|hops| - 1];
  }

  lemma MatchNames(data: seq<Byte>, p: nat, n: nat, s: seq<Byte>, hops: seq<Hop>)
    requires FirstMatch(data, p, n, s, hops)
    ensures |hops| > 0 && hops[|hops| - 1].name <= s
  {
  }

  /** The node at `p` ends the walk for `s`. */
  ghost predicate Here(data: seq<Byte>, p: nat, s: seq<Byte>) {
    p < |data| && s == [] && match Parse(data, p) case Past => false case Number(v, _) => v % TWO64 != 0
  }

  lemma {:induction false} WalkMeansRoute(data: seq<Byte>, p: nat, s: seq<Byte>, visited: seq<nat>) returns (hops: seq<Hop>)
    requires |visited| < 128 && Walk(data, p, s, visited).Found?
    ensures Route(data, p, s, hops, Walk(data, p, s, visited).at)
    ensures NoReturn(hops, visited) && |visited| + |hops| <= 127
    decreases 128 - |visited|
  {
    hide Parse, PickChild, Leads;
    hops := [];
    if !Here(data, p, s) {
      var hop := StepMeansLeads(data, p, s, visited);
      hide Walk;
      var rest := WalkMeansRoute(data, hop.target, s[|hop.name|..], visited + [hop.target % TWO32]);
      hops := [hop] + rest;
      assert hops[1..] == rest;
    }
  }

  lemma LeadsMeansStep(data: seq<Byte>, p: nat, s: seq<Byte>, visited: seq<nat>, hop: Hop)
    requires |visited| < 127 && Leads(data, p, s, hop) && hop.name <= s && hop.target !in visited
    ensures Walk(data, p, s, visited) == Walk(data, hop.target, s[|hop.name|..], visited + [hop.target % TWO32])
  {
    hide Parse, PickChild, FirstMatch;
    var number := Parse(data, p);
    var count := number.next + number.value % TWO64;
    var hops: seq<Hop> :| FirstMatch(data, count + 1, data[count], s, hops) && |hops| > 0 && hops[|hops| - 1] == hop;
    MatchMeansPick(data, count + 1, data[count], s, hops);
  }

  lemma {:induction false} RouteMeansWalk(data: seq<Byte>, p: nat, s: seq<Byte>, visited: seq<nat>, hops: seq<Hop>, at: nat)
    requires 1 <= |visited| && |visited| + |hops| <= 127 && Route(data, p, s, hops, at) && NoReturn(hops, visited)
    ensures Walk(data, p, s, visited) == Found(at)
    decreases |hops|
  {
    hide Parse, PickChild, Leads;
    if hops != [] {
      LeadsMeansStep(data, p, s, visited, hops[0]);
      hide Walk;
      RouteMeansWalk(data, hops[0].target, s[|hops[0].name|..], visited + [hops[0].target % TWO32], hops[1..], at);
    } else {
      AtNumber(data, p);
    }
  }

  lemma AtNumber(data: seq<Byte>, p: nat)
    ensures Parse(data, p).Number? ==> p < |data|
  {
  }

  /** On any bytes: a payload is found at `at` if and only if a route of at most 126 hops that
      visits no node twice spells the symbol and leads there. */
  lemma FoundExactly(data: seq<Byte>, s: seq<Byte>, at: nat)
    ensures Walk(data, 0, s, [0]) == Found(at) <==>
            exists hops: seq<Hop> :: |hops| <= 126 && Route(data, 0, s, hops, at) && NoReturn(hops, [0])
  {
    hide Walk, Route, NoReturn;
    if Walk(data, 0, s, [0]) == Found(at) { var _ := WalkMeansRoute(data, 0, s, [0]); }
    if hops: seq<Hop> :| |hops| <= 126 && Route(data, 0, s, hops, at) && NoReturn(hops, [0]) {
      RouteMeansWalk(data, 0, s, [0], hops, at);
    }
  }
}
