/** Lookup of an exported symbol in a serialised Mach-O export trie.
 */
module ExportTrie {
  import opened Arithmetic
  import opened MachineWords
  import opened Uleb128

  // ---------------------------------------------------------------- tries and what they export

  /** A node with an empty payload exports nothing. */
  datatype Trie = Node(payload: seq<Byte>, children: seq<Edge>)
  datatype Edge = Edge(name: seq<Byte>, child: Trie)

  type Exports = map<seq<Byte>, seq<Byte>>

  ghost function Prefixed(name: seq<Byte>, m: Exports): Exports {
    map k | k in (set s | s in m :: name + s) :: m[k[|name|..]]
  }

  /** The plain map that a trie stands for. */
  ghost function ExportsOf(t: Trie): Exports
    decreases t, 1
  {
    EdgeExports(t.children) + if t.payload == [] then map[] else map[[] := t.payload]
  }

  ghost function EdgeExports(es: seq<Edge>): Exports
    decreases es, 0
  {
    if es == [] then map[]
    else Prefixed(es[0].name, ExportsOf(es[0].child)) + EdgeExports(es[1..])
  }

  /** Edges on the longest path. */
  ghost function Depth(t: Trie): nat
    decreases t, 1
  {
    EdgesDepth(t.children)
  }

  ghost function EdgesDepth(es: seq<Edge>): nat
    decreases es, 0
  {
    if es == [] then 0
    else
      var d, rest := 1 + Depth(es[0].child), EdgesDepth(es[1..]);
      if d > rest then d else rest
  }

  /** Edge names are non-empty C strings and no name is a prefix of a sibling's. */
  ghost predicate WellFormed(t: Trie)
    decreases t, 1
  {
    PrefixFree(t.children) && EdgesWellFormed(t.children)
  }

  ghost predicate PrefixFree(es: seq<Edge>) {
    forall j, k :: 0 <= j < |es| && 0 <= k < |es| && j != k ==> !(es[j].name <= es[k].name)
  }

  ghost predicate EdgesWellFormed(es: seq<Edge>)
    decreases es, 0
  {
    es == [] || (es[0].name != [] && 0 !in es[0].name && WellFormed(es[0].child) && EdgesWellFormed(es[1..]))
  }

  // ---------------------------------------------------------------- serialised form

  /** The bytes at `off` are node `t`: payload size, payload, number of children, and
      per child its name, a zero byte and the offset of its node.  Nothing is said
      about where nodes are placed. */
  ghost predicate Encodes(data: seq<Byte>, off: nat, t: Trie)
    decreases t, 1
  {
    var size := Parse(data, off);
    && size.Number? && size.value == |t.payload|
    && var count := size.next + |t.payload|;
       && count < |data|
       && data[size.next..count] == t.payload
       && data[count] == |t.children|
       && EdgesAt(data, count + 1, t.children)
  }

  ghost predicate EdgesAt(data: seq<Byte>, p: nat, es: seq<Edge>)
    decreases es, 0
  {
    es == [] ||
    (var zero := p + |es[0].name|;
     && zero < |data|
     && data[p..zero] == es[0].name
     && data[zero] == 0
     && var link := Parse(data, zero + 1);
        && link.Number?
        && 0 < link.value < |data|
        && Encodes(data, link.value, es[0].child)
        && EdgesAt(data, link.next, es[1..]))
  }

  // ---------------------------------------------------------------- the walk

  /** `Past` is a read beyond the trie, which the code does not guard against. */
  datatype Outcome = Found(at: nat) | Missing | Past

  datatype Pick = Child(offset: nat, rest: seq<Byte>) | NoChild | Malformed | PickPast

  /** Position of the zero byte that ends the string at `p`, or the length of the data. */
  function ZeroAt(data: seq<Byte>, p: nat): (z: nat)
    requires p <= |data|
    ensures p <= z <= |data|
    ensures forall k :: p <= k < z ==> data[k] != 0
    ensures z < |data| ==> data[z] == 0
    decreases |data| - p
  {
    if p == |data| || data[p] == 0 then p else ZeroAt(data, p + 1)
  }

  /** The first of `remaining` edges at `p` whose name is a prefix of `symbol`. */
  function PickChild(data: seq<Byte>, p: nat, remaining: nat, symbol: seq<Byte>): Pick
    requires p <= |data|
    decreases remaining
  {
    if remaining == 0 then NoChild
    else
      var z := ZeroAt(data, p);
      if z == |data| then PickPast
      else
        match Parse(data, z + 1)
        case Past => PickPast
        case Number(v, next) =>
          if data[p..z] <= symbol then
            var off := v % TWO64;
            if off == 0 || off > |data| then Malformed else Child(off, symbol[z - p..])
          else PickChild(data, next, remaining - 1, symbol)
  }

  function Walk(data: seq<Byte>, p: nat, symbol: seq<Byte>, visited: seq<nat>): Outcome
    requires |visited| < 128
    decreases 128 - |visited|
  {
    if p >= |data| then Missing
    else
      match Parse(data, p)
      case Past => Outcome.Past
      case Number(v, q) =>
        var size := v % TWO64;
        if symbol == [] && size != 0 then Found(q)
        else if q + size > |data| then Missing
        else if q + size == |data| then Outcome.Past
        else
          match PickChild(data, q + size + 1, data[q + size], symbol)
          case PickPast => Outcome.Past
          case Malformed => Missing
          case NoChild => Missing
          case Child(off, rest) =>
            if off in visited || |visited| == 127 then Missing
            else Walk(data, off, rest, visited + [off % TWO32])
  }

  // ---------------------------------------------------------------- the program

  /** Compare the edge name at `p` with the symbol, up to the zero byte. */
  method ScanEdge(data: seq<Byte>, start: nat, symbol: seq<Byte>) returns (zero: nat, wrongEdge: bool)
    requires start <= |data|
    ensures zero == ZeroAt(data, start)
    ensures wrongEdge <==> !(data[start..zero] <= symbol)
  {
    var p := start;
    wrongEdge := false;
    while p < |data| && data[p] != 0
      invariant start <= p <= |data| && ZeroAt(data, p) == ZeroAt(data, start)
      invariant wrongEdge <==> !(data[start..p] <= symbol)
    {
      if !wrongEdge && !(p - start < |symbol| && data[p] == symbol[p - start]) { wrongEdge := true; }
      assert data[start..p + 1] == data[start..p] + [data[p]];
      p := p + 1;
    }
    zero := p;
  }

  /** Skip a number without reading its value. */
  method SkipUleb(data: seq<Byte>, start: nat) returns (next: nat)
    requires start <= |data|
    ensures match Parse(data, start) case Past => next == 0 case Number(_, n) => next == n
  {
    var p := start;
    while p < |data| && data[p] >= 128
      invariant start <= p <= |data|
      invariant Parse(data, start).Past? <==> Parse(data, p).Past?
      invariant Parse(data, p).Number? ==> Parse(data, start).next == Parse(data, p).next
    {
      p := p + 1;
    }
    if p == |data| { return 0; }
    return p + 1;
  }

  /** The loop over the children of a node. */
  method FindChild(data: seq<Byte>, start: nat, count: nat, symbol: seq<Byte>) returns (r: Pick)
    requires start <= |data|
    ensures r == PickChild(data, start, count, symbol)
  {
    hide Parse, ZeroAt, PickChild;
    var p: nat, childrenRemaining := start, count;
    while childrenRemaining > 0
      invariant p <= |data| && PickChild(data, p, childrenRemaining, symbol) == PickChild(data, start, count, symbol)
    {
      PickRound(data, p, childrenRemaining, symbol);
      var zero, wrongEdge := ScanEdge(data, p, symbol);
      if zero == |data| { return PickPast; }
      if wrongEdge {
        var next := SkipUleb(data, zero + 1);
        if next == 0 { return PickPast; }
        p := next;
      } else {
        var link := ReadUleb128(data, zero + 1);
        if link.Past? { return PickPast; }
        if link.value == 0 || link.value > |data| { return Malformed; }
        return Child(link.value, symbol[zero - p..]);
      }
      childrenRemaining := childrenRemaining - 1;
    }
    PickNone(data, p, symbol);
    return NoChild;
  }

  lemma PickNone(data: seq<Byte>, p: nat, symbol: seq<Byte>)
    requires p <= |data|
    ensures PickChild(data, p, 0, symbol) == NoChild
  {
  }

  lemma PickRound(data: seq<Byte>, p: nat, remaining: nat, symbol: seq<Byte>)
    requires p <= |data| && remaining > 0
    ensures var z := ZeroAt(data, p);
            && (z == |data| ==> PickChild(data, p, remaining, symbol) == PickPast)
            && (z < |data| ==>
                  match Parse(data, z + 1)
                  case Past => PickChild(data, p, remaining, symbol) == PickPast
                  case Number(v, next) =>
                    next <= |data| &&
                    PickChild(data, p, remaining, symbol) ==
                      if !(data[p..z] <= symbol) then PickChild(data, next, remaining - 1, symbol)
                      else if v % TWO64 == 0 || v % TWO64 > |data| then Malformed
                      else Child(v % TWO64, symbol[z - p..]))
  {
    hide Parse, ZeroAt;
  }

  /** `walk_exported_trie`.  On any bytes at all it looks at no more than 127 nodes. */
  method WalkExportedTrie(data: seq<Byte>, name: seq<Byte>) returns (r: Outcome, nodes: nat)
    ensures r == Walk(data, 0, name, [0])
    ensures nodes <= 127
  {
    hide Parse, PickChild;
    var visitedNodeOffsets: seq<nat> := [0];
    var p, symbol := 0, name;
    nodes := 0;
    while p < |data|
      invariant 1 <= |visitedNodeOffsets| <= 127 && nodes == |visitedNodeOffsets| - 1
      invariant Walk(data, p, symbol, visitedNodeOffsets) == Walk(data, 0, name, [0])
      decreases 128 - |visitedNodeOffsets|
    {
      nodes := nodes + 1;
      var size := ReadUleb128(data, p);
      if size.Past? { return Outcome.Past, nodes; }
      if symbol == [] && size.value != 0 { return Found(size.next), nodes; }
      var children := size.next + size.value;
      if children > |data| { return Missing, nodes; }
      if children == |data| { return Outcome.Past, nodes; }
      var pick := FindChild(data, children + 1, data[children], symbol);
      match pick {
        case PickPast => return Outcome.Past, nodes;
        case Malformed => return Missing, nodes;
        case NoChild => return Missing, nodes;
        case Child(off, rest) =>
          var seen := false;
          for i := 0 to |visitedNodeOffsets|
            invariant seen <==> off in visitedNodeOffsets[..i]
          {
            if visitedNodeOffsets[i] == off { seen := true; }
          }
          assert visitedNodeOffsets[..|visitedNodeOffsets|] == visitedNodeOffsets;
          if seen { return Missing, nodes; }
          if |visitedNodeOffsets| + 1 >= 128 { return Missing, nodes; }
          visitedNodeOffsets := visitedNodeOffsets + [off % TWO32];
          symbol := rest;
          p := off;
      }
    }
    return Missing, nodes;
  }

  // ---------------------------------------------------------------- edges

  lemma NameEnds(data: seq<Byte>, p: nat, name: seq<Byte>)
    requires p + |name| < |data| && data[p..p + |name|] == name && 0 !in name && data[p + |name|] == 0
    ensures ZeroAt(data, p) == p + |name|
  {
    hide ZeroAt;
    assert forall k :: p <= k < p + |name| ==> data[k] in name by {
      forall k | p <= k < p + |name| ensures data[k] in name { assert data[k] == name[k - p]; }
    }
  }

  /** One round of the search among well-formed edges. */
  lemma PickFirst(data: seq<Byte>, p: nat, es: seq<Edge>, symbol: seq<Byte>) returns (link: Number)
    requires p <= |data| && es != [] && EdgesAt(data, p, es) && EdgesWellFormed(es) && |data| < TWO32
    ensures link.Number? && link.next <= |data| && 0 < link.value < TWO32 && Encodes(data, link.value, es[0].child)
    ensures EdgesAt(data, link.next, es[1..]) && EdgesWellFormed(es[1..]) && WellFormed(es[0].child)
    ensures PickChild(data, p, |es|, symbol) ==
            if es[0].name <= symbol then Child(link.value, symbol[|es[0].name|..])
            else PickChild(data, link.next, |es| - 1, symbol)
  {
    hide Parse, ZeroAt, Encodes, WellFormed, EdgesWellFormed, EdgesAt, PickChild;
    link := EdgeParts(data, p, es);
    PickRound(data, p, |es|, symbol);
    assert link.value % TWO64 == link.value;
  }

  /** The first edge, read off the bytes. */
  lemma EdgeParts(data: seq<Byte>, p: nat, es: seq<Edge>) returns (link: Number)
    requires p <= |data| && es != [] && EdgesAt(data, p, es) && EdgesWellFormed(es)
    ensures ZeroAt(data, p) == p + |es[0].name| < |data| && es[0].name == data[p..ZeroAt(data, p)]
    ensures link == Parse(data, ZeroAt(data, p) + 1) && link.Number? && link.next <= |data| && 0 < link.value < |data|
    ensures Encodes(data, link.value, es[0].child) && WellFormed(es[0].child)
    ensures EdgesAt(data, link.next, es[1..]) && EdgesWellFormed(es[1..])
  {
    NameEnds(data, p, es[0].name);
    link := Parse(data, p + |es[0].name| + 1);
    hide Parse, ZeroAt, Encodes, WellFormed;
  }

  /** The walk takes the edge whose name is a prefix of the symbol, if there is one. */
  lemma {:induction false} PicksTheEdge(data: seq<Byte>, p: nat, es: seq<Edge>, symbol: seq<Byte>) returns (k: nat)
    requires p <= |data| && EdgesAt(data, p, es) && EdgesWellFormed(es) && |data| < TWO32
    ensures Picked(data, PickChild(data, p, |es|, symbol), es, symbol, k)
    decreases |es|
  {
    hide Parse, ZeroAt, Encodes, EdgesAt, WellFormed, PickChild, EdgesWellFormed;
    k := 0;
    if es == [] {
      PickNone(data, p, symbol);
    } else {
      var link := PickFirst(data, p, es, symbol);
      if !(es[0].name <= symbol) {
        hide Picked;
        var j := PicksTheEdge(data, link.next, es[1..], symbol);
        k := j + 1;
        PickedLater(data, PickChild(data, p, |es|, symbol), es, symbol, j);
      }
    }
  }

  ghost predicate Picked(data: seq<Byte>, pick: Pick, es: seq<Edge>, symbol: seq<Byte>, k: nat) {
    match pick
    case Child(off, rest) =>
      && k < |es| && es[k].name <= symbol && rest == symbol[|es[k].name|..]
      && 0 < off < TWO32 && Encodes(data, off, es[k].child) && WellFormed(es[k].child)
    case NoChild => forall j :: 0 <= j < |es| ==> !(es[j].name <= symbol)
    case _ => false
  }

  lemma PickedLater(data: seq<Byte>, pick: Pick, es: seq<Edge>, symbol: seq<Byte>, k: nat)
    requires es != [] && !(es[0].name <= symbol) && Picked(data, pick, es[1..], symbol, k)
    ensures Picked(data, pick, es, symbol, k + 1)
  {
    hide Encodes, WellFormed;
    assert forall i :: 0 < i < |es| ==> es[i] == es[1..][i - 1];
  }

  lemma PrefixedAt(name: seq<Byte>, m: Exports, s: seq<Byte>)
    ensures s in Prefixed(name, m) <==> name <= s && s[|name|..] in m
    ensures s in Prefixed(name, m) ==> Prefixed(name, m)[s] == m[s[|name|..]]
  {
    if name <= s { assert s == name + s[|name|..]; }
    forall x | x in m && s == name + x ensures x == s[|name|..] {}
  }

  /** No edge leads to the symbol. */
  lemma {:induction false} NoEdgeExports(es: seq<Edge>, s: seq<Byte>)
    requires forall j :: 0 <= j < |es| ==> !(es[j].name <= s)
    ensures s !in EdgeExports(es)
    decreases |es|
  {
    if es != [] {
      PrefixedAt(es[0].name, ExportsOf(es[0].child), s);
      NoEdgeExports(es[1..], s);
    }
  }

  /** Exactly edge `k` leads to the symbol. */
  lemma {:induction false} EdgeExportsAt(es: seq<Edge>, k: nat, s: seq<Byte>)
    requires k < |es| && PrefixFree(es) && es[k].name <= s
    ensures var rest, m := s[|es[k].name|..], ExportsOf(es[k].child);
            (s in EdgeExports(es) <==> rest in m) && (rest in m ==> EdgeExports(es)[s] == m[rest])
    decreases |es|
  {
    hide ExportsOf, Prefixed;
    PrefixedAt(es[0].name, ExportsOf(es[0].child), s);
    if k == 0 {
      forall j | 0 <= j < |es[1..]| ensures !(es[1..][j].name <= s) { NotBoth(es[0].name, es[j + 1].name, s); }
      NoEdgeExports(es[1..], s);
    } else {
      if es[0].name <= s { NotBoth(es[0].name, es[k].name, s); }
      EdgeExportsAt(es[1..], k - 1, s);
    }
  }

  lemma NotBoth(a: seq<Byte>, b: seq<Byte>, s: seq<Byte>)
    requires !(a <= b) && !(b <= a)
    ensures !(a <= s && b <= s)
  {
  }

  lemma {:induction false} ChildShallower(es: seq<Edge>, k: nat)
    requires k < |es|
    ensures Depth(es[k].child) < EdgesDepth(es)
    decreases |es|
  {
    if k > 0 { ChildShallower(es[1..], k - 1); }
  }

  // ---------------------------------------------------------------- bytes determine the trie

  lemma {:induction false} EncodingUnique(data: seq<Byte>, off: nat, t: Trie, u: Trie)
    requires Encodes(data, off, t) && Encodes(data, off, u) && WellFormed(t) && WellFormed(u)
    ensures t == u
    decreases t, 1
  {
    var size := Parse(data, off);
    EdgesUnique(data, size.next + |t.payload| + 1, t.children, u.children);
  }

  lemma {:induction false} EdgesUnique(data: seq<Byte>, p: nat, es: seq<Edge>, fs: seq<Edge>)
    requires |es| == |fs| && p <= |data| && EdgesAt(data, p, es) && EdgesAt(data, p, fs)
    requires EdgesWellFormed(es) && EdgesWellFormed(fs)
    ensures es == fs
    decreases es, 0
  {
    if es != [] {
      hide Encodes, WellFormed, Parse, ZeroAt, EdgesAt, EdgesWellFormed;
      var link := EdgeParts(data, p, es);
      var _ := EdgeParts(data, p, fs);
      EncodingUnique(data, link.value, es[0].child, fs[0].child);
      EdgesUnique(data, link.next, es[1..], fs[1..]);
      assert es == [es[0]] + es[1..] && fs == [fs[0]] + fs[1..];
    }
  }

  // ---------------------------------------------------------------- the theorem

  /** Every visited offset holds a node at least `depth` deep. */
  ghost predicate Ancestors(data: seq<Byte>, visited: seq<nat>, depth: nat) {
    forall i :: 0 <= i < |visited| ==>
      exists a :: Encodes(data, visited[i], a) && WellFormed(a) && Depth(a) >= depth
  }

  /** A node is never at the offset of a deeper one, so the cycle check does not misfire. */
  lemma NotVisited(data: seq<Byte>, visited: seq<nat>, off: nat, t: Trie)
    requires Encodes(data, off, t) && WellFormed(t) && Ancestors(data, visited, Depth(t) + 1)
    ensures off !in visited
  {
    if off in visited {
      var i :| 0 <= i < |visited| && visited[i] == off;
      var a :| Encodes(data, visited[i], a) && WellFormed(a) && Depth(a) >= Depth(t) + 1;
      EncodingUnique(data, off, t, a);
      assert false;
    }
  }

  /** The payload of `s`, or nothing. */
  ghost predicate Agrees(data: seq<Byte>, r: Outcome, m: Exports, s: seq<Byte>) {
    if s in m then r.Found? && r.at + |m[s]| <= |data| && data[r.at..r.at + |m[s]|] == m[s] else r == Missing
  }

  /** One round of the walk on a well-formed node. */
  lemma WalkStep(data: seq<Byte>, off: nat, s: seq<Byte>, visited: seq<nat>, t: Trie) returns (k: nat, pick: Pick)
    requires Encodes(data, off, t) && WellFormed(t) && |data| < TWO32 && 1 <= |visited| < 128
    requires s != [] || t.payload == []
    ensures Picked(data, pick, t.children, s, k)
    ensures Walk(data, off, s, visited) ==
            if pick.Child? && pick.offset !in visited && |visited| < 127
            then Walk(data, pick.offset, pick.rest, visited + [pick.offset]) else Missing
  {
    hide Parse, PickChild, EdgesAt, EdgesWellFormed, WellFormed, Walk, Encodes;
    var size := NodeParts(data, off, t);
    var count := size.next + |t.payload|;
    k := PicksTheEdge(data, count + 1, t.children, s);
    pick := PickChild(data, count + 1, |t.children|, s);
    WalkUnfold(data, off, s, visited, size.value, size.next);
  }

  lemma NodeParts(data: seq<Byte>, off: nat, t: Trie) returns (size: Number)
    requires Encodes(data, off, t) && WellFormed(t)
    ensures size == Parse(data, off) && size.Number? && size.value == |t.payload| && off < |data|
    ensures size.next + |t.payload| < |data| && data[size.next + |t.payload|] == |t.children|
    ensures EdgesAt(data, size.next + |t.payload| + 1, t.children) && EdgesWellFormed(t.children)
  {
    size := Parse(data, off);
    hide EdgesAt, EdgesWellFormed, PrefixFree;
  }

  lemma WalkUnfold(data: seq<Byte>, off: nat, s: seq<Byte>, visited: seq<nat>, v: nat, q: nat)
    requires off < |data| && Parse(data, off) == Number(v, q) && v < TWO64 && q + v < |data| < TWO32 && |visited| < 128
    requires s != [] || v == 0
    ensures match PickChild(data, q + v + 1, data[q + v], s)
            case Child(off', rest) =>
              off' < TWO32 ==>
                Walk(data, off, s, visited) ==
                  if off' in visited || |visited| == 127 then Missing else Walk(data, off', rest, visited + [off'])
            case NoChild => Walk(data, off, s, visited) == Missing
            case _ => true
  {
    hide Parse, PickChild;
    assert v % TWO64 == v;
    assert forall x: nat :: x < TWO32 ==> x % TWO32 == x;
  }

  lemma Small64(n: nat)
    requires n < TWO32
    ensures n % TWO64 == n
  {
  }

  lemma WalkHere(data: seq<Byte>, off: nat, visited: seq<nat>, t: Trie)
    requires Encodes(data, off, t) && |data| < TWO32 && |visited| < 128 && t.payload != []
    ensures Agrees(data, Walk(data, off, [], visited), ExportsOf(t), [])
  {
    hide Parse, PickChild, EdgesAt, EdgeExports;
    Small64(|t.payload|);
    assert ExportsOf(t)[[]] == t.payload;
  }

  lemma {:induction false} WalkAgrees(data: seq<Byte>, off: nat, s: seq<Byte>, visited: seq<nat>, t: Trie)
    requires Encodes(data, off, t) && WellFormed(t) && |data| < TWO32
    requires 1 <= |visited| && |visited| + Depth(t) <= 127
    requires Ancestors(data, visited, Depth(t))
    ensures Agrees(data, Walk(data, off, s, visited), ExportsOf(t), s)
    decreases Depth(t)
  {
    hide Parse, PickChild, EdgesAt, EdgesWellFormed, Walk, Encodes, EdgeExports;
    if s == [] && t.payload != [] {
      WalkHere(data, off, visited, t);
      return;
    }
    var k, pick := WalkStep(data, off, s, visited, t);
    if pick.Child? {
      EdgeExportsAt(t.children, k, s);
      ChildShallower(t.children, k);
      hide PrefixFree, EdgesDepth;
      var child := t.children[k].child;
      NotVisited(data, visited, pick.offset, child);
      WalkAgrees(data, pick.offset, pick.rest, visited + [pick.offset], child);
      hide WellFormed, Ancestors;
    } else {
      NoEdgeExports(t.children, s);
    }
  }

  /** Walking the bytes of a well-formed trie of at most 126 levels is looking the
      symbol up in the map the trie stands for, and stays inside the bytes. */
  lemma LookupAgrees(data: seq<Byte>, s: seq<Byte>, t: Trie)
    requires Encodes(data, 0, t) && WellFormed(t) && |data| < TWO32 && Depth(t) <= 126
    ensures Agrees(data, Walk(data, 0, s, [0]), ExportsOf(t), s)
  {
    WalkAgrees(data, 0, s, [0], t);
  }

  // ---------------------------------------------------------------- the resolved value

  /** Flags and value of the payload at a found node; `None` covers a missing symbol, a
      re-export (bit 3 of the flags) and a payload that runs past the trie. */
  datatype Resolved = Resolved(flags: nat, value: nat) | None

  function ResolveAt(data: seq<Byte>, node: Outcome): Resolved {
    if !node.Found? then None
    else
      match Parse(data, node.at)
      case Past => None
      case Number(f, p) =>
        if f / 8 % 2 == 1 then None
        else
          match Parse(data, p)
          case Past => None
          case Number(v, _) => Resolved(f % TWO64, v % TWO64)
  }

  /** The end of `iterate_exported_symbol`. */
  method IterateExportedSymbol(data: seq<Byte>, name: seq<Byte>) returns (r: Resolved)
    ensures r == ResolveAt(data, Walk(data, 0, name, [0]))
  {
    var node, _ := WalkExportedTrie(data, name);
    hide Walk, Parse;
    if !node.Found? { return None; }
    var flags := ReadUleb128(data, node.at);
    if flags.Past? { return None; }
    LowBits(Parse(data, node.at).value);
    if flags.value / 8 % 2 == 1 { return None; }
    var value := ReadUleb128(data, flags.next);
    if value.Past? { return None; }
    return Resolved(flags.value, value.value);
  }

  lemma LowBits(f: nat)
    ensures f % TWO64 / 8 % 2 == f / 8 % 2
  {
    var q, r := f / TWO64, f % TWO64;
    assert f == q * TWO64 + r;
    DivUnique(f, 8, q * 0x2000_0000_0000_0000 + r / 8, r % 8);
    DivUnique(q * 0x2000_0000_0000_0000 + r / 8, 2, q * 0x1000_0000_0000_0000 + r / 8 / 2, r / 8 % 2);
  }

  /** A symbol that is exported with some flags, unless they say that it is a re-export, resolves to
      them and to the value that follows, both as 64-bit numbers. */
  lemma ResolvesExport(data: seq<Byte>, s: seq<Byte>, t: Trie, flags: nat, value: nat, more: seq<Byte>)
    requires Encodes(data, 0, t) && WellFormed(t) && |data| < TWO32 && Depth(t) <= 126
    requires s in ExportsOf(t) && ExportsOf(t)[s] == Encode(flags) + Encode(value) + more
    requires flags / 8 % 2 == 0
    ensures ResolveAt(data, Walk(data, 0, s, [0])) == Resolved(flags % TWO64, value % TWO64)
  {
    hide Walk, Parse, Encode, ExportsOf, Encodes, WellFormed, Depth, ResolveAt;
    LookupAgrees(data, s, t);
    var node := Walk(data, 0, s, [0]);
    assert node == Found(node.at);
    ResolveNumbers(data, node.at, flags, value, more);
  }

  lemma ResolveNumbers(data: seq<Byte>, at: nat, flags: nat, value: nat, more: seq<Byte>)
    requires var n := |Encode(flags) + Encode(value) + more|; at + n <= |data| && data[at..at + n] == Encode(flags) + Encode(value) + more
    requires flags / 8 % 2 == 0
    ensures ResolveAt(data, Found(at)) == Resolved(flags % TWO64, value % TWO64)
  {
    hide Parse, Encode;
    var a, b := Encode(flags), Encode(value);
    assert a + b + more == a + (b + more);
    NumberAt(data, at, flags, b + more);
    assert data[at + |a|..at + |a| + |b + more|] == data[at..at + |a + (b + more)|][|a|..] == b + more;
    NumberAt(data, at + |a|, value, more);
  }

  lemma NumberAt(data: seq<Byte>, at: nat, x: nat, more: seq<Byte>)
    requires var n := |Encode(x) + more|; at + n <= |data| && data[at..at + n] == Encode(x) + more
    ensures Parse(data, at) == Number(x, at + |Encode(x)|)
  {
    hide Parse, Encode;
    var n := |Encode(x) + more|;
    assert data == data[..at] + Encode(x) + (more + data[at + n..]);
    RoundTrip(data[..at], x, more + data[at + n..]);
  }

  /** A re-export, which bit 3 of the flags says, resolves to nothing. */
  lemma ReexportGivesNothing(data: seq<Byte>, s: seq<Byte>, t: Trie, flags: nat, more: seq<Byte>)
    requires Encodes(data, 0, t) && WellFormed(t) && |data| < TWO32 && Depth(t) <= 126
    requires s in ExportsOf(t) && ExportsOf(t)[s] == Encode(flags) + more && flags / 8 % 2 == 1
    ensures ResolveAt(data, Walk(data, 0, s, [0])) == None
  {
    hide Walk, Parse, Encode, ExportsOf, Encodes, WellFormed, Depth;
    LookupAgrees(data, s, t);
    NumberAt(data, Walk(data, 0, s, [0]).at, flags, more);
  }

  /** And so does every symbol that is not exported. */
  lemma MissingGivesNothing(data: seq<Byte>, s: seq<Byte>, t: Trie)
    requires Encodes(data, 0, t) && WellFormed(t) && |data| < TWO32 && Depth(t) <= 126
    requires s !in ExportsOf(t)
    ensures ResolveAt(data, Walk(data, 0, s, [0])) == None
  {
    hide Walk, Parse, ExportsOf, Encodes, WellFormed, Depth;
    LookupAgrees(data, s, t);
  }
}
