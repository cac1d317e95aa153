/** The registry of hooks: entries on an intrusive circular doubly linked list with a
    sentinel, newest first.
 */
module HookRegistry {
  import opened MachineWords

  /** A hook: where, what it forwards to, the bytes it replaced (`origin_chunk_`) and the
      bytes it wrote. */
  datatype Hook = Hook(address: int, replace: int, saved: seq<Byte>, trampoline: seq<Byte>)

  // ---------------------------------------------------------------- the sequence it refines

  /** Position of the newest entry for `address`, or the number of entries. */
  function IndexOf(entries: seq<Hook>, address: int): (i: nat)
    ensures i <= |entries|
    ensures i < |entries| ==> entries[i].address == address
    ensures forall k :: 0 <= k < i ==> entries[k].address != address
  {
    if entries == [] || entries[0].address == address then 0 else 1 + IndexOf(entries[1..], address)
  }

  function Without(entries: seq<Hook>, i: nat): seq<Hook>
    requires i < |entries|
  {
    entries[..i] + entries[i + 1..]
  }

  /** Adding an entry and removing its address gives back the registry, even when the
      address had entries before. */
  lemma AddThenRemove(entries: seq<Hook>, h: Hook)
    ensures var added := [h] + entries;
            IndexOf(added, h.address) == 0 && Without(added, 0) == entries
  {
  }

  // ---------------------------------------------------------------- the linked list

  /** `list_head` and the entry of the `HookEntryNode` around it; the sentinel has no use for its entry. */
  class ListNode {
    var next: ListNode?
    var prev: ListNode?
    var entry: Hook

    constructor (entry: Hook)
      ensures this.entry == entry
    {
      this.entry := entry;
    }
  }

  class Interceptor {
    const head: ListNode
    ghost var nodes: seq<ListNode>

    /** The circle: the sentinel, the nodes in order, and the sentinel again. */
    ghost function Ring(i: int): ListNode
      requires 0 <= i <= |nodes| + 1
      reads this
    {
      if 1 <= i <= |nodes| then nodes[i - 1] else head
    }

    ghost predicate Valid()
      reads this, head, nodes
    {
      && head !in nodes
      && (forall i, j :: 0 <= i < j < |nodes| ==> nodes[i] != nodes[j])
      && (forall i :: 0 <= i <= |nodes| ==> Ring(i).next == Ring(i + 1))
      && (forall i :: 0 < i <= |nodes| + 1 ==> Ring(i).prev == Ring(i - 1))
    }

    ghost function Entries(): (s: seq<Hook>)
      reads this, nodes
      ensures |s| == |nodes| && forall i :: 0 <= i < |nodes| ==> s[i] == nodes[i].entry
    {
      seq(|nodes|, i requires 0 <= i < |nodes| reads this, nodes => nodes[i].entry)
    }

    constructor ()
      ensures Valid() && Entries() == [] && fresh(head)
    {
      head := new ListNode(Hook(0, 0, [], []));
      nodes := [];
      new;
      head.next := head;
      head.prev := head;
    }

    /** `find_hook_entry_node`. */
    method FindNode(address: int) returns (n: ListNode?, ghost i: nat)
      requires Valid()
      ensures i == IndexOf(Entries(), address)
      ensures n == if i < |nodes| then nodes[i] else null
    {
      var p := head.next;
      i := 0;
      assert Ring(0).next == Ring(1);
      while p != head
        invariant i <= |nodes| && p == Ring(i + 1)
        invariant forall k :: 0 <= k < i ==> Entries()[k].address != address
        decreases |nodes| - i
      {
        assert i < |nodes|;
        if p.entry.address == address {
          FirstIndex(Entries(), address, i);
          return p, i;
        }
        assert Ring(i + 1).next == Ring(i + 2);
        p := p.next;
        i := i + 1;
      }
      assert i == |nodes|;
      FirstIndex(Entries(), address, i);
      return null, i;
    }

    /** `FindHookEntry`. */
    method FindHookEntry(address: int) returns (found: bool, h: Hook)
      requires Valid()
      ensures var i := IndexOf(Entries(), address);
              found == (i < |Entries()|) && (found ==> h == Entries()[i])
    {
      var n, i := FindNode(address);
      if n == null { return false, Hook(0, 0, [], []); }
      return true, n.entry;
    }

    /** `AddHookEntry`: the new node goes between the sentinel and its successor. */
    method AddHookEntry(h: Hook)
      requires Valid()
      modifies this, head, nodes
      ensures Valid() && Entries() == [h] + old(Entries())
      ensures fresh(set n | n in nodes && n !in old(nodes))
    {
      var n := new ListNode(h);
      var next := head.next;
      assert Ring(0).next == Ring(1);
      next.prev := n;
      n.next := next;
      n.prev := head;
      head.next := n;
      nodes := [n] + nodes;
      assert forall i :: 2 <= i <= |nodes| + 1 ==> Ring(i) == old(Ring(i - 1));
    }

    /** Positions on the circle are distinct, but for the sentinel's two. */
    lemma RingOnly(i: nat)
      requires Valid() && i < |nodes|
      ensures forall k: nat :: k <= |nodes| + 1 && k != i && !(i == 0 && k == |nodes| + 1) ==> Ring(k) != Ring(i)
      ensures forall k: nat :: k <= |nodes| + 1 && k != i + 1 ==> Ring(k) != Ring(i + 1)
      ensures forall k: nat :: k <= |nodes| + 1 && k != i + 2 && !(i + 1 == |nodes| && k == 0) ==> Ring(k) != Ring(i + 2)
    {
    }

    /** `list_del` of the node at position `i`. */
    method Unlink(n: ListNode, ghost i: nat)
      requires Valid() && i < |nodes| && n == nodes[i]
      modifies this, head, nodes
      ensures Valid() && nodes == old(nodes)[..i] + old(nodes)[i + 1..]
      ensures forall m :: m in old(nodes) ==> m.entry == old(m.entry)
    {
      RingOnly(i);
      assert n == Ring(i + 1) && n.prev == Ring(i) && n.next == Ring(i + 2);
      var prev, next := n.prev, n.next;
      next.prev := prev;
      prev.next := next;
      n.next := null;
      n.prev := null;
      nodes := nodes[..i] + nodes[i + 1..];
      assert forall k :: 0 <= k <= i ==> Ring(k) == old(Ring(k));
      assert forall k :: i < k <= |nodes| + 1 ==> Ring(k) == old(Ring(k + 1));
    }

    /** `RemoveHookEntry`: unlink the newest node for the address, if there is one. */
    method RemoveHookEntry(address: int)
      requires Valid()
      modifies this, head, nodes
      ensures Valid()
      ensures var before, i := old(Entries()), IndexOf(old(Entries()), address);
              Entries() == if i < |before| then Without(before, i) else before
      ensures forall n :: n in nodes ==> n in old(nodes)
    {
      hide Valid, IndexOf, Without;
      ghost var before, was := Entries(), nodes;
      var n, i := FindNode(address);
      if n != null {
        Unlink(n, i);
        forall k | 0 <= k < |nodes| ensures Entries()[k] == before[if k < i then k else k + 1] {
          assert nodes[k] == was[if k < i then k else k + 1];
        }
        IsWithout(before, Entries(), i);
      }
    }

    /** `GetHookEntryCount`. */
    method GetHookEntryCount() returns (count: int)
      requires Valid()
      ensures count == |Entries()|
    {
      count := 0;
      var p := head.next;
      assert Ring(0).next == Ring(1);
      while p != head
        invariant 0 <= count <= |nodes| && p == Ring(count + 1)
        decreases |nodes| - count
      {
        assert count < |nodes|;
        assert Ring(count + 1).next == Ring(count + 2);
        count := count + 1;
        p := p.next;
      }
      assert count == |nodes|;
    }
  }

  lemma IsWithout(entries: seq<Hook>, less: seq<Hook>, i: nat)
    requires i < |entries| && |less| == |entries| - 1
    requires forall k :: 0 <= k < |less| ==> less[k] == entries[if k < i then k else k + 1]
    ensures less == Without(entries, i)
  {
  }

  lemma {:induction false} FirstIndex(entries: seq<Hook>, address: int, i: nat)
    requires i <= |entries| && (i < |entries| ==> entries[i].address == address)
    requires forall k :: 0 <= k < i ==> entries[k].address != address
    ensures IndexOf(entries, address) == i
  {
    var j := IndexOf(entries, address);
    assert i < |entries| ==> j <= i;
  }
}
