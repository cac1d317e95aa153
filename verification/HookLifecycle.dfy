/** Hooking and unhooking functions: save the prologue, patch it with a trampoline, and
    write the saved bytes back on destruction.
 */
module HookLifecycle {
  import opened MachineWords
  import opened HookRegistry

  type Memory = int -> Byte

  // ---------------------------------------------------------------- memory

  /** Memory after `CodePatch(address, bytes)`. */
  function Patch(m: Memory, address: int, bytes: seq<Byte>): Memory {
    (a: int) => if address <= a < address + |bytes| then bytes[a - address] else m(a)
  }

  function Read(m: Memory, address: int, n: nat): (r: seq<Byte>)
    ensures |r| == n && forall k :: 0 <= k < n ==> r[k] == m(address + k)
  {
    seq<Byte>(n, k => m(address + k))
  }

  /** The byte at `a` of the original memory overlaid with the trampolines of `live`, the newest on top. */
  function Overlay(original: Memory, live: seq<Hook>, a: int): Byte {
    if live == [] then original(a)
    else if live[0].address <= a < live[0].address + |live[0].trampoline| then live[0].trampoline[a - live[0].address]
    else Overlay(original, live[1..], a)
  }

  // ---------------------------------------------------------------- the state machine

  datatype State = State(memory: Memory, live: seq<Hook>)

  /** `DobbyHook` with what the code generators give it: the trampoline, the number of
      bytes that relocation covered, and whether a chunk for the relocated code was
      found; and `DobbyDestroy`. */
  datatype Request =
    | Install(address: int, replace: int, trampoline: seq<Byte>, covered: nat, relocated: bool)
    | Destroy(address: int)

  /** A request is turned down without effect. */
  predicate Refused(s: State, q: Request) {
    var i := IndexOf(s.live, q.address);
    match q
    case Install(address, replace, _, _, _) => address == 0 || (i < |s.live| && s.live[i].replace == replace)
    case Destroy(_) => i == |s.live|
  }

  /** The entry made for an installation: without relocated code the prologue is not saved. */
  function EntryFor(s: State, q: Request): Hook
    requires q.Install?
  {
    Hook(q.address, q.replace, if q.relocated then Read(s.memory, q.address, q.covered) else [], q.trampoline)
  }

  function Step(s: State, q: Request): State {
    if Refused(s, q) then s
    else
      match q
      case Install(address, _, trampoline, _, _) => State(Patch(s.memory, address, trampoline), [EntryFor(s, q)] + s.live)
      case Destroy(address) =>
        var i := IndexOf(s.live, address);
        State(Patch(s.memory, address, s.live[i].saved), Without(s.live, i))
  }

  function Run(s: State, requests: seq<Request>): State
    decreases |requests|
  {
    if requests == [] then s else Run(Step(s, requests[0]), requests[1..])
  }

  /** The covered ranges of two hooks do not overlap. */
  predicate Disjoint(h: Hook, g: Hook) {
    h.address + |h.saved| <= g.address || g.address + |g.saved| <= h.address
  }

  /** No hook newer than `i` overlaps it. */
  ghost predicate Clear(live: seq<Hook>, i: nat)
    requires i < |live|
  {
    forall k :: 0 <= k < i ==> Disjoint(live[k], live[i])
  }

  /** What the code generators guarantee of an installation (the trampoline fits in the covered
      prologue, which fits in the 64-byte buffer) and what the caller must: relocation
      succeeds, and a hook is destroyed only after those newer ones that overlap it. */
  ghost predicate Allowed(s: State, q: Request) {
    !Refused(s, q) ==>
      match q
      case Install(_, _, trampoline, covered, relocated) => |trampoline| <= covered <= 64 && relocated
      case Destroy(address) => Clear(s.live, IndexOf(s.live, address))
  }

  /** Hooks on ranges that are disjoint, or start together, can be destroyed in any order. */
  lemma ClearWhenDisjoint(live: seq<Hook>, address: int)
    requires IndexOf(live, address) < |live|
    requires forall i, j :: 0 <= i < j < |live| ==> live[i].address == live[j].address || Disjoint(live[i], live[j])
    ensures Clear(live, IndexOf(live, address))
  {
  }

  ghost predicate AllAllowed(s: State, requests: seq<Request>)
    decreases |requests|
  {
    requests != [] ==> Allowed(s, requests[0]) && AllAllowed(Step(s, requests[0]), requests[1..])
  }

  // ---------------------------------------------------------------- the invariant

  /** The bytes that hook `i` saved are those of the older hooks below it. */
  ghost predicate SavedOk(original: Memory, live: seq<Hook>, i: nat)
    requires i < |live|
  {
    var h := live[i];
    && |h.trampoline| <= |h.saved|
    && forall k :: 0 <= k < |h.saved| ==> h.saved[k] == Overlay(original, live[i + 1..], h.address + k)
  }

  ghost predicate Inv(original: Memory, s: State) {
    && (forall a :: s.memory(a) == Overlay(original, s.live, a))
    && (forall i :: 0 <= i < |s.live| ==> SavedOk(original, s.live, i))
  }

  /** An overlay split at any point. */
  lemma {:induction false} OverlayAppend(original: Memory, newer: seq<Hook>, older: seq<Hook>, a: int)
    ensures Overlay(original, newer + older, a) == Overlay((x: int) => Overlay(original, older, x), newer, a)
    decreases |newer|
  {
    if newer == [] {
      assert newer + older == older;
    } else {
      assert (newer + older)[1..] == newer[1..] + older;
      OverlayAppend(original, newer[1..], older, a);
    }
  }

  /** Overlays agree where what they cover agrees. */
  lemma {:induction false} OverlaySame(m: Memory, m': Memory, live: seq<Hook>, a: int)
    requires m(a) == m'(a)
    ensures Overlay(m, live, a) == Overlay(m', live, a)
    decreases |live|
  {
    if live != [] { OverlaySame(m, m', live[1..], a); }
  }

  /** An address that no trampoline of `live` covers. */
  lemma {:induction false} OverlayMisses(m: Memory, live: seq<Hook>, a: int)
    requires forall i :: 0 <= i < |live| ==> !(live[i].address <= a < live[i].address + |live[i].trampoline|)
    ensures Overlay(m, live, a) == m(a)
    decreases |live|
  {
    if live != [] { OverlayMisses(m, live[1..], a); }
  }

  /** Taking hook `i` out of the stack changes nothing outside its trampoline. */
  lemma OverlayWithout(original: Memory, live: seq<Hook>, i: nat, a: int)
    requires i < |live|
    requires !(live[i].address <= a < live[i].address + |live[i].trampoline|)
    ensures Overlay(original, Without(live, i), a) == Overlay(original, live, a)
  {
    var newer, older := live[..i], live[i + 1..];
    OverlayAppend(original, newer, older, a);
    OverlayAppend(original, newer, live[i..], a);
    assert live == newer + live[i..] && live[i..][1..] == older;
    OverlaySame((x: int) => Overlay(original, older, x), (x: int) => Overlay(original, live[i..], x), newer, a);
  }

  lemma InstallKeepsInv(original: Memory, s: State, q: Request)
    requires Inv(original, s) && Allowed(s, q) && q.Install? && !Refused(s, q)
    ensures Inv(original, Step(s, q))
  {
    var s', h := Step(s, q), EntryFor(s, q);
    assert s'.live[0] == h && s'.live[1..] == s.live;
    forall i | 0 <= i < |s'.live| ensures SavedOk(original, s'.live, i) {
      if i > 0 {
        assert SavedOk(original, s.live, i - 1);
        assert s'.live[i + 1..] == s.live[i - 1 + 1..];
      }
    }
  }

  /** In the range of the hook that is destroyed, only older hooks are below and no newer one above. */
  lemma DestroyedRange(original: Memory, s: State, i: nat, a: int)
    requires Inv(original, s) && i < |s.live| && Clear(s.live, i)
    requires s.live[i].address <= a < s.live[i].address + |s.live[i].saved|
    ensures Overlay(original, Without(s.live, i), a) == s.live[i].saved[a - s.live[i].address]
  {
    var h, newer, older := s.live[i], s.live[..i], s.live[i + 1..];
    assert SavedOk(original, s.live, i);
    OverlayAppend(original, newer, older, a);
    forall k | 0 <= k < |newer| ensures !(newer[k].address <= a < newer[k].address + |newer[k].trampoline|) {
      assert newer[k] == s.live[k] && Disjoint(s.live[k], h);
      assert SavedOk(original, s.live, k);
    }
    OverlayMisses((x: int) => Overlay(original, older, x), newer, a);
  }

  lemma DestroyKeepsMemory(original: Memory, s: State, q: Request, a: int)
    requires Inv(original, s) && q.Destroy? && !Refused(s, q) && Allowed(s, q)
    ensures Step(s, q).memory(a) == Overlay(original, Step(s, q).live, a)
  {
    var i := IndexOf(s.live, q.address);
    var h := s.live[i];
    assert SavedOk(original, s.live, i);
    if h.address <= a < h.address + |h.saved| {
      DestroyedRange(original, s, i, a);
    } else {
      OverlayWithout(original, s.live, i, a);
    }
  }

  /** A hook newer than the destroyed one, at another address, saved bytes that the destroyed one did not write. */
  lemma NewerKeepsSaved(original: Memory, live: seq<Hook>, i: nat, k: nat)
    requires k < i < |live| && SavedOk(original, live, k) && |live[i].trampoline| <= |live[i].saved|
    requires Disjoint(live[k], live[i])
    ensures SavedOk(original, Without(live, i), k)
  {
    hide Overlay;
    var h, rest := live[k], live[k + 1..];
    var less := Without(live, i);
    assert less[k] == h && less[k + 1..] == Without(rest, i - k - 1) && rest[i - k - 1] == live[i];
    forall b | 0 <= b < |h.saved| ensures h.saved[b] == Overlay(original, less[k + 1..], h.address + b) {
      OverlayWithout(original, rest, i - k - 1, h.address + b);
    }
  }

  lemma OlderKeepsSaved(original: Memory, live: seq<Hook>, i: nat, k: nat)
    requires i <= k < |live| - 1 && SavedOk(original, live, k + 1)
    ensures SavedOk(original, Without(live, i), k)
  {
    hide Overlay;
    var less := Without(live, i);
    assert less[k] == live[k + 1] && less[k + 1..] == live[k + 2..];
  }

  lemma DestroyKeepsSaved(original: Memory, s: State, i: nat, k: nat)
    requires Inv(original, s) && i < |s.live| && Clear(s.live, i) && k < |s.live| - 1
    ensures SavedOk(original, Without(s.live, i), k)
  {
    if k >= i {
      OlderKeepsSaved(original, s.live, i, k);
    } else {
      assert SavedOk(original, s.live, i);
      hide SavedOk, Overlay;
      assert Disjoint(s.live[k], s.live[i]);
      NewerKeepsSaved(original, s.live, i, k);
    }
  }

  lemma DestroyKeepsInv(original: Memory, s: State, q: Request)
    requires Inv(original, s) && q.Destroy? && !Refused(s, q) && Allowed(s, q)
    ensures Inv(original, Step(s, q))
  {
    var i, s' := IndexOf(s.live, q.address), Step(s, q);
    forall a ensures s'.memory(a) == Overlay(original, s'.live, a) { DestroyKeepsMemory(original, s, q, a); }
    forall k | 0 <= k < |s'.live| ensures SavedOk(original, s'.live, k) { DestroyKeepsSaved(original, s, i, k); }
  }

  // ---------------------------------------------------------------- the theorems

  /** Over every run, memory is the original overlaid with exactly the live trampolines. */
  lemma {:induction false} RunKeepsOverlay(original: Memory, s: State, requests: seq<Request>)
    requires Inv(original, s) && AllAllowed(s, requests)
    ensures Inv(original, Run(s, requests))
    decreases |requests|
  {
    if requests != [] {
      var q := requests[0];
      if !Refused(s, q) {
        match q
        case Install(_, _, _, _, _) => InstallKeepsInv(original, s, q);
        case Destroy(_) => DestroyKeepsInv(original, s, q);
      }
      RunKeepsOverlay(original, Step(s, q), requests[1..]);
    }
  }

  /** When every hook of a run has been destroyed, every byte is as it was, also where one
      function was hooked several times over or hooks overlapped. */
  lemma DestroyedRestores(original: Memory, requests: seq<Request>, a: int)
    requires AllAllowed(State(original, []), requests) && Run(State(original, []), requests).live == []
    ensures Run(State(original, []), requests).memory(a) == original(a)
  {
    RunKeepsOverlay(original, State(original, []), requests);
  }

  predicate InRange(h: Hook, a: int) { h.address <= a < h.address + |h.saved| }
  predicate InTrampoline(h: Hook, a: int) { h.address <= a < h.address + |h.trampoline| }

  /** An address that a newer trampoline covers does not depend on what lies below. */
  lemma {:induction false} OverlayCovered(m: Memory, m': Memory, live: seq<Hook>, a: int, k: nat)
    requires k < |live| && InTrampoline(live[k], a)
    ensures Overlay(m, live, a) == Overlay(m', live, a)
    decreases |live|
  {
    if !InTrampoline(live[0], a) { OverlayCovered(m, m', live[1..], a, k - 1); }
  }

  /** One destruction, in any order: memory is the overlay of the rest if and only if, wherever
      a newer trampoline reaches into the range, memory shows the byte that was saved. */
  lemma DestroyExact(original: Memory, s: State, address: int)
    requires Inv(original, s) && !Refused(s, Destroy(address))
    ensures var i, s' := IndexOf(s.live, address), Step(s, Destroy(address));
            var h := s.live[i];
            (forall a :: s'.memory(a) == Overlay(original, s'.live, a)) <==>
            (forall k, a :: 0 <= k < i && InRange(h, a) && InTrampoline(s.live[k], a) ==> s.memory(a) == h.saved[a - address])
  {
    hide Overlay;
    var i, s' := IndexOf(s.live, address), Step(s, Destroy(address));
    var h := s.live[i];
    forall k, a | 0 <= k < i && InRange(h, a) && InTrampoline(s.live[k], a) ensures Overlay(original, s'.live, a) == s.memory(a) {
      CoveredByte(original, s, i, k, a);
    }
    forall a | !exists k :: 0 <= k < i && InRange(h, a) && InTrampoline(s.live[k], a)
      ensures s'.memory(a) == Overlay(original, s'.live, a)
    {
      if InRange(h, a) { UncoveredByte(original, s, i, a); } else { OutsideByte(original, s, i, a); }
    }
    assert forall k, a :: 0 <= k < i && InRange(h, a) && InTrampoline(s.live[k], a) ==> s'.memory(a) == h.saved[a - address];
  }

  lemma OutsideByte(original: Memory, s: State, i: nat, a: int)
    requires Inv(original, s) && i < |s.live| && !InRange(s.live[i], a)
    ensures Overlay(original, Without(s.live, i), a) == s.memory(a)
  {
    assert SavedOk(original, s.live, i);
    OverlayWithout(original, s.live, i, a);
  }

  lemma CoveredByte(original: Memory, s: State, i: nat, k: nat, a: int)
    requires Inv(original, s) && k < i < |s.live| && InTrampoline(s.live[k], a)
    ensures Overlay(original, Without(s.live, i), a) == s.memory(a)
  {
    var newer, older := s.live[..i], s.live[i + 1..];
    OverlayAppend(original, newer, older, a);
    OverlayAppend(original, newer, s.live[i..], a);
    assert s.live == newer + s.live[i..];
    OverlayCovered((x: int) => Overlay(original, older, x), (x: int) => Overlay(original, s.live[i..], x), newer, a, k);
  }

  lemma UncoveredByte(original: Memory, s: State, i: nat, a: int)
    requires Inv(original, s) && i < |s.live| && InRange(s.live[i], a)
    requires forall k :: 0 <= k < i ==> !InTrampoline(s.live[k], a)
    ensures Overlay(original, Without(s.live, i), a) == s.live[i].saved[a - s.live[i].address]
  {
    var h, newer, older := s.live[i], s.live[..i], s.live[i + 1..];
    assert SavedOk(original, s.live, i);
    OverlayAppend(original, newer, older, a);
    OverlayMisses((x: int) => Overlay(original, older, x), newer, a);
    assert h.saved[a - h.address] == Overlay(original, older, h.address + (a - h.address));
  }

  // ---------------------------------------------------------------- destruction in any order

  /** What the code generators guarantee, and that relocation succeeds: nothing about ranges or order. */
  predicate Tidy(q: Request) { q.Install? ==> |q.trampoline| <= q.covered && q.relocated }

  datatype Saved = Never | Saved(byte: Byte)

  /** What the hook destroyed last of those over `a` had saved there. */
  function LastSaved(s: State, requests: seq<Request>, a: int): Saved
    decreases |requests|
  {
    if requests == [] then Never
    else
      var q := requests[0];
      var rest := LastSaved(Step(s, q), requests[1..], a);
      if rest.Saved? || Refused(s, q) || q.Install? then rest
      else
        var h := s.live[IndexOf(s.live, q.address)];
        if InRange(h, a) then Saved(h.saved[a - h.address]) else Never
  }

  ghost predicate TidyState(s: State) {
    forall i :: 0 <= i < |s.live| ==> |s.live[i].trampoline| <= |s.live[i].saved|
  }

  /** The byte at `a` after a run that destroys every hook. */
  lemma {:induction false} LastSavedStays(s: State, requests: seq<Request>, a: int)
    requires TidyState(s) && (forall k :: 0 <= k < |requests| ==> Tidy(requests[k])) && Run(s, requests).live == []
    ensures match LastSaved(s, requests, a)
            case Saved(b) => Run(s, requests).memory(a) == b
            case Never => Run(s, requests).memory(a) == s.memory(a) && forall i :: 0 <= i < |s.live| ==> !InRange(s.live[i], a)
    decreases |requests|
  {
    hide TidyState, Step;
    if requests != [] {
      var q := requests[0];
      StaysTidy(s, q);
      LastSavedStays(Step(s, q), requests[1..], a);
      if LastSaved(Step(s, q), requests[1..], a).Never? { UncoveredBefore(s, q, a); }
    }
  }

  lemma StaysTidy(s: State, q: Request)
    requires TidyState(s) && Tidy(q)
    ensures TidyState(Step(s, q))
  {
  }

  /** A step after which no live hook is over `a`. */
  lemma UncoveredBefore(s: State, q: Request, a: int)
    requires Tidy(q) && forall i :: 0 <= i < |Step(s, q).live| ==> !InRange(Step(s, q).live[i], a)
    ensures !Refused(s, q) && q.Destroy? && InRange(s.live[IndexOf(s.live, q.address)], a) ==>
              Step(s, q).memory(a) == s.live[IndexOf(s.live, q.address)].saved[a - q.address]
    ensures !(!Refused(s, q) && q.Destroy? && InRange(s.live[IndexOf(s.live, q.address)], a)) ==>
              Step(s, q).memory(a) == s.memory(a) && forall i :: 0 <= i < |s.live| ==> !InRange(s.live[i], a)
  {
    var s' := Step(s, q);
    if !Refused(s, q) {
      match q
      case Install(_, _, _, _, _) =>
        assert !InRange(s'.live[0], a);
        forall i | 0 <= i < |s.live| ensures !InRange(s.live[i], a) { assert s'.live[i + 1] == s.live[i]; }
      case Destroy(address) =>
        var j := IndexOf(s.live, address);
        forall i | 0 <= i < |s.live| && i != j ensures !InRange(s.live[i], a) {
          assert s.live[i] == s'.live[if i < j then i else i - 1];
        }
    }
  }

  /** Over every run from unpatched memory that destroys all its hooks, in any order and with any
      overlap: a byte is the original one if and only if no hook was ever destroyed over it,
      or the one destroyed last over it had saved the original byte. */
  lemma RestoredExact(original: Memory, requests: seq<Request>, a: int)
    requires forall k :: 0 <= k < |requests| ==> Tidy(requests[k])
    requires Run(State(original, []), requests).live == []
    ensures var last := LastSaved(State(original, []), requests, a);
            Run(State(original, []), requests).memory(a) == original(a) <==> last.Never? || last.byte == original(a)
  {
    LastSavedStays(State(original, []), requests, a);
  }

  /** When no chunk could be allocated for the relocated code, `DobbyHook` patches all the
      same but saves nothing: destroying the hook leaves the trampoline in place, so memory is
      restored exactly if the trampoline equals the bytes it replaced. */
  lemma UnrelocatedHook(s: State, q: Request)
    requires q.Install? && !q.relocated && !Refused(s, q)
    ensures var s' := Step(Step(s, q), Destroy(q.address));
            && s'.live == s.live
            && (forall a :: s'.memory(a) == Patch(s.memory, q.address, q.trampoline)(a))
            && ((forall a :: s'.memory(a) == s.memory(a)) <==> q.trampoline == Read(s.memory, q.address, |q.trampoline|))
  {
    var s1 := Step(s, q);
    AddThenRemove(s.live, EntryFor(s, q));
    var s' := Step(s1, Destroy(q.address));
    var here := Read(s.memory, q.address, |q.trampoline|);
    if forall a :: s'.memory(a) == s.memory(a) {
      forall k | 0 <= k < |here| ensures q.trampoline[k] == here[k] {
        assert s'.memory(q.address + k) == q.trampoline[k];
      }
    } else {
      var a :| s'.memory(a) != s.memory(a);
      assert q.trampoline[a - q.address] != here[a - q.address];
    }
  }

  /** A trampoline of three A64 instructions over a function of zero words. */
  const Zeros: Memory := (a: int) => 0 as Byte
  const Trampoline: seq<Byte> := [0x11, 0, 0, 0x90, 0x31, 0x42, 0, 0x91, 0x20, 0x02, 0x1f, 0xd6]

  /** A function hooked without relocated code stays patched. */
  lemma UnrelocatedHookLeaks()
    ensures var s, q := State(Zeros, []), Install(0x4000, 0x8000, Trampoline, 12, false);
            !Refused(s, q) && Step(Step(s, q), Destroy(0x4000)).memory(0x4000) == 0x11
  {
    UnrelocatedHook(State(Zeros, []), Install(0x4000, 0x8000, Trampoline, 12, false));
    assert Patch(Zeros, 0x4000, Trampoline)(0x4000) == 0x11;
  }

  /** Destroying the older of two overlapping hooks first: the newer one puts back a piece of
      the older trampoline. */
  lemma OverlapLeaks()
    ensures var s := State(Zeros, []);
            var requests := [Install(0x4000, 0x8000, Trampoline, 12, true), Install(0x4008, 0x9000, Trampoline, 12, true),
                             Destroy(0x4000), Destroy(0x4008)];
            Run(s, requests).live == [] && Run(s, requests).memory(0x4008) == 0x20
  {
    var s0 := State(Zeros, []);
    var q1, q2 := Install(0x4000, 0x8000, Trampoline, 12, true), Install(0x4008, 0x9000, Trampoline, 12, true);
    var s1 := Step(s0, q1);
    var s2 := Step(s1, q2);
    var h1, h2 := EntryFor(s0, q1), EntryFor(s1, q2);
    assert s1.live == [h1] && s2.live == [h2, h1];
    assert h2.saved[0] == s1.memory(0x4008 + 0) == 0x20;
    assert IndexOf(s2.live, 0x4000) == 1;
    var s3 := Step(s2, Destroy(0x4000));
    assert s3.live == [h2];
    var s4 := Step(s3, Destroy(0x4008));
    assert s4.live == [] && s4.memory(0x4008) == h2.saved[0];
    var requests := [q1, q2, Destroy(0x4000), Destroy(0x4008)];
    assert requests[1..] == [q2, Destroy(0x4000), Destroy(0x4008)] && requests[1..][1..] == [Destroy(0x4000), Destroy(0x4008)];
    assert requests[1..][1..][1..] == [Destroy(0x4008)] && requests[1..][1..][1..][1..] == [];
    assert Run(s3, [Destroy(0x4008)]) == Run(s4, []);
    assert Run(s2, requests[1..][1..]) == Run(s3, [Destroy(0x4008)]);
    assert Run(s1, requests[1..]) == Run(s2, requests[1..][1..]);
  }

  // ---------------------------------------------------------------- which requests have an effect

  /** Hook `i` is the newest on address `a`. */
  ghost predicate NewestAt(live: seq<Hook>, i: int, a: int) {
    0 <= i < |live| && live[i].address == a && forall k :: 0 <= k < i ==> live[k].address != a
  }

  ghost predicate Hooked(live: seq<Hook>, a: int) { exists i :: 0 <= i < |live| && live[i].address == a }

  /** `h` is on top of the registry and its trampoline in memory; all else is as before. */
  ghost predicate Added(s: State, s': State, h: Hook) {
    && s'.live == [h] + s.live
    && (forall k :: 0 <= k < |h.trampoline| ==> s'.memory(h.address + k) == h.trampoline[k])
    && (forall x :: !(h.address <= x < h.address + |h.trampoline|) ==> s'.memory(x) == s.memory(x))
  }

  /** In every state, an installation adds its hook, unless the address is null or the newest hook
      on the address has the same replacement: then nothing changes. */
  lemma InstallExact(s: State, q: Request)
    requires q.Install?
    ensures var s' := Step(s, q);
            if q.address == 0 || exists i :: NewestAt(s.live, i, q.address) && s.live[i].replace == q.replace then s' == s
            else exists saved :: Added(s, s', Hook(q.address, q.replace, saved, q.trampoline))
  {
    var i := IndexOf(s.live, q.address);
    if i < |s.live| {
      assert NewestAt(s.live, i, q.address);
      forall j | NewestAt(s.live, j, q.address) ensures j == i {}
    }
    if q.address != 0 && !exists j :: NewestAt(s.live, j, q.address) && s.live[j].replace == q.replace {
      var s', h := Step(s, q), EntryFor(s, q);
      assert Added(s, s', Hook(q.address, q.replace, h.saved, q.trampoline));
    }
  }

  /** Hooking an address twice: the second installation adds a hook, and shows its trampoline, if
      and only if it has another replacement. */
  lemma SecondInstall(s: State, first: Request, second: Request)
    requires first.Install? && second.Install? && first.address == second.address != 0 && !Hooked(s.live, first.address)
    ensures var s1 := Step(s, first);
            var s2 := Step(s1, second);
            && (exists saved :: Added(s, s1, Hook(first.address, first.replace, saved, first.trampoline)))
            && if first.replace == second.replace then s2 == s1
               else exists saved :: Added(s1, s2, Hook(second.address, second.replace, saved, second.trampoline))
  {
    var s1 := Step(s, first);
    InstallExact(s, first);
    assert Hooked(s.live, first.address) || !exists i :: NewestAt(s.live, i, first.address);
    var saved :| Added(s, s1, Hook(first.address, first.replace, saved, first.trampoline));
    assert NewestAt(s1.live, 0, first.address);
    forall j | NewestAt(s1.live, j, first.address) ensures j == 0 {}
    InstallExact(s1, second);
  }

  /** In every state, a destruction takes out the newest hook on the address and writes back what
      it saved, or changes nothing when there is none. */
  lemma DestroyNewest(s: State, a: int)
    ensures var s' := Step(s, Destroy(a));
            && (!Hooked(s.live, a) ==> s' == s)
            && forall i :: NewestAt(s.live, i, a) ==>
                 var h := s.live[i];
                 && s'.live == s.live[..i] + s.live[i + 1..]
                 && (forall k :: 0 <= k < |h.saved| ==> s'.memory(a + k) == h.saved[k])
                 && (forall x :: !(a <= x < a + |h.saved|) ==> s'.memory(x) == s.memory(x))
  {
    var i := IndexOf(s.live, a);
    forall j | NewestAt(s.live, j, a) ensures j == i {}
  }

  // ---------------------------------------------------------------- the program

  class Dobby {
    var memory: Memory
    const interceptor: Interceptor

    ghost predicate Valid()
      reads this, interceptor, interceptor.head, interceptor.nodes
    {
      interceptor.Valid()
    }

    ghost function Now(): State
      reads this, interceptor, interceptor.nodes
    {
      State(memory, interceptor.Entries())
    }

    constructor (m: Memory)
      ensures Valid() && Now() == State(m, [])
    {
      memory := m;
      interceptor := new Interceptor();
    }

    method CodePatch(address: int, bytes: seq<Byte>)
      modifies this
      ensures memory == Patch(old(memory), address, bytes)
    {
      memory := Patch(memory, address, bytes);
    }

    /** `DobbyHook`. */
    method DobbyHook(address: int, replace: int, trampoline: seq<Byte>, covered: nat, relocated: bool) returns (ok: bool)
      requires Valid()
      modifies this, interceptor, interceptor.head, interceptor.nodes
      ensures Valid()
      ensures ok == (|Now().live| > |old(Now()).live|)
      ensures Now() == Step(old(Now()), Install(address, replace, trampoline, covered, relocated))
    {
      if address == 0 { return false; }
      var found, h := interceptor.FindHookEntry(address);
      if found && h.replace == replace { return false; }
      var saved := if relocated then Read(memory, address, covered) else [];
      interceptor.AddHookEntry(Hook(address, replace, saved, trampoline));
      CodePatch(address, trampoline);
      return true;
    }

    /** `DobbyDestroy`. */
    method DobbyDestroy(address: int) returns (ok: bool)
      requires Valid()
      modifies this, interceptor, interceptor.head, interceptor.nodes
      ensures Valid()
      ensures ok == (|Now().live| < |old(Now()).live|)
      ensures Now() == Step(old(Now()), Destroy(address))
    {
      hide Patch, IndexOf, interceptor.Valid;
      var found, h := interceptor.FindHookEntry(address);
      if !found { return false; }
      CodePatch(address, h.saved);
      interceptor.RemoveHookEntry(address);
      return true;
    }
  }
}
