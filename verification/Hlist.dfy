/** Lists with a single-pointer head, whose nodes point back at the pointer that
    points at them: include/list.h, lines 11-17 and 770-958. */
module Hlist {
  import opened List

  class HlistHead {
    var first: HlistNode?

    constructor ()
      ensures first == null
    {
      first := null;
    }
  }

  class HlistNode {
    var next: HlistNode?
    var pprev: Slot

    constructor ()
      ensures next == null && pprev == NoSlot
    {
      next, pprev := null, NoSlot;
    }
  }

  /** What a `struct hlist_node **` may point at: nothing, the first field of a head,
      or the next field of a node. */
  datatype Slot = NoSlot | FirstOf(head: HlistHead) | NextOf(node: HlistNode)

  /** *slot */
  function Deref(slot: Slot): HlistNode?
    requires slot != NoSlot
    reads if slot.FirstOf? then {slot.head} else if slot.NextOf? then {slot.node} else {}
  {
    match slot
    case FirstOf(h) => h.first
    case NextOf(n) => n.next
  }

  /** *slot = node */
  method Store(slot: Slot, node: HlistNode?)
    requires slot != NoSlot
    modifies if slot.FirstOf? then {slot.head} else {}
    modifies if slot.NextOf? then {slot.node} else {}
    ensures Deref(slot) == node
    ensures slot.NextOf? ==> slot.node.pprev == old(slot.node.pprev)
  {
    match slot
    case FirstOf(h) => h.first := node;
    case NextOf(n) => n.next := node;
  }

  /** The hlist of h holds the nodes of s, in this order. */
  ghost predicate Chain(h: HlistHead, s: seq<HlistNode>)
    reads h, s
  {
    && Distinct(s)
    && h.first == NodeAt(s, 0)
    && forall k {:trigger At(s, k)} :: At(s, k) ==> s[k].next == NodeAt(s, k + 1) && s[k].pprev == SlotAt(h, s, k)
  }

  ghost function NodeAt(s: seq<HlistNode>, k: nat): HlistNode? {
    if k < |s| then s[k] else null
  }

  ghost function SlotAt(h: HlistHead, s: seq<HlistNode>, k: nat): Slot
    requires k <= |s|
  {
    if k == 0 then FirstOf(h) else NextOf(s[k - 1])
  }

  /** The invariant behind every operation that needs no head: *pprev is the node. */
  lemma PprevPointsHere(h: HlistHead, s: seq<HlistNode>, i: nat)
    requires Chain(h, s) && i < |s|
    ensures s[i].pprev != NoSlot && Deref(s[i].pprev) == s[i]
  {
    assert At(s, i) && (i > 0 ==> At(s, i - 1));
  }

  predicate HlistUnhashed(n: HlistNode)
    reads n
  {
    n.pprev == NoSlot
  }

  method InitHlistNode(n: HlistNode)
    modifies n
    ensures n.next == null && HlistUnhashed(n)
  {
    n.next := null;
    n.pprev := NoSlot;
  }

  /** __hlist_del of the i-th node, without mention of the head. */
  method HlistUnlink(n: HlistNode, ghost h: HlistHead, ghost s: seq<HlistNode>, ghost i: nat)
    requires Chain(h, s) && i < |s| && n == s[i]
    modifies h, s
    ensures Chain(h, Without(s, i)) && unchanged(n)
  {
    assert At(s, i) && (i > 0 ==> At(s, i - 1)) && (i + 1 < |s| ==> At(s, i + 1));
    WithoutDistinct(s, i);
    var next := n.next;
    var pprev := n.pprev;
    Store(pprev, next);
    if next != null {
      next.pprev := pprev;
    }
    ghost var r := Without(s, i);
    forall k | At(r, k)
      ensures r[k].next == NodeAt(r, k + 1) && r[k].pprev == SlotAt(h, r, k)
    {
      assert At(s, if k < i then k else k + 1);
    }
  }

  /** hlist_del: NoSlot and null stand for the poison values. */
  method HlistDel(n: HlistNode, ghost h: HlistHead, ghost s: seq<HlistNode>, ghost i: nat)
    requires Chain(h, s) && i < |s| && n == s[i]
    modifies h, s
    ensures Chain(h, Without(s, i)) && n !in Without(s, i)
  {
    HlistUnlink(n, h, s, i);
    WithoutDistinct(s, i);
    hide *;
    n.next := null;
    n.pprev := NoSlot;
  }

  /** hlist_del_init: a node in no list stays as it is, so a second call does nothing. */
  method HlistDelInit(n: HlistNode, ghost h: HlistHead, ghost s: seq<HlistNode>, ghost i: nat)
    requires HlistUnhashed(n) || (Chain(h, s) && i < |s| && n == s[i])
    modifies n, h, s
    ensures old(HlistUnhashed(n)) ==> unchanged(n) && unchanged(h) && unchanged(set x | x in s)
    ensures !old(HlistUnhashed(n)) ==> Chain(h, Without(s, i)) && n.next == null
    ensures HlistUnhashed(n)
  {
    if !HlistUnhashed(n) {
      HlistUnlink(n, h, s, i);
      WithoutDistinct(s, i);
      hide Chain, Distinct, Without;
      InitHlistNode(n);
    }
  }

  method HlistAddHead(n: HlistNode, h: HlistHead, ghost s: seq<HlistNode>)
    requires Chain(h, s) && n !in s
    modifies n, h, s
    ensures Chain(h, [n] + s)
  {
    InsertDistinct(s, 0, n);
    assert [n] + s == InsertAt(s, 0, n);
    assert s != [] ==> At(s, 0);
    var first := h.first;
    n.next := first;
    if first != null {
      first.pprev := NextOf(n);
    }
    h.first := n;
    n.pprev := FirstOf(h);
    ghost var r := [n] + s;
    forall k | At(r, k)
      ensures r[k].next == NodeAt(r, k + 1) && r[k].pprev == SlotAt(h, r, k)
    {
      assert k > 0 ==> At(s, k - 1);
    }
  }

  /** hlist_add_before the i-th node, without mention of the head. */
  method HlistAddBefore(n: HlistNode, next: HlistNode, ghost h: HlistHead, ghost s: seq<HlistNode>, ghost i: nat)
    requires Chain(h, s) && n !in s && i < |s| && next == s[i]
    modifies n, h, s
    ensures Chain(h, InsertAt(s, i, n))
  {
    InsertDistinct(s, i, n);
    assert At(s, i) && (i > 0 ==> At(s, i - 1));
    n.pprev := next.pprev;
    n.next := next;
    next.pprev := NextOf(n);
    Store(n.pprev, n);
    ghost var r := InsertAt(s, i, n);
    forall k | At(r, k)
      ensures r[k].next == NodeAt(r, k + 1) && r[k].pprev == SlotAt(h, r, k)
    {
      assert k != i ==> At(s, if k < i then k else k - 1);
    }
  }

  method HlistAddBehind(n: HlistNode, prev: HlistNode, ghost h: HlistHead, ghost s: seq<HlistNode>, ghost i: nat)
    requires Chain(h, s) && n !in s && i < |s| && prev == s[i]
    modifies n, s
    ensures Chain(h, InsertAt(s, i + 1, n))
  {
    InsertDistinct(s, i + 1, n);
    assert At(s, i) && (i + 1 < |s| ==> At(s, i + 1));
    assert prev.next == NodeAt(s, i + 1);
    n.next := prev.next;
    prev.next := n;
    n.pprev := NextOf(prev);
    if n.next != null {
      n.next.pprev := NextOf(n);
    }
    ghost var r := InsertAt(s, i + 1, n);
    hide Distinct;
    assert n.next == NodeAt(s, i + 1) && prev.next == n && n.pprev == NextOf(prev);
    forall k | At(r, k)
      ensures r[k].next == NodeAt(r, k + 1) && r[k].pprev == SlotAt(h, r, k)
    {
      assert k != i + 1 ==> At(s, if k <= i then k else k - 1);
    }
  }

  /** The whole chain moves to another head, whatever that head held before. */
  method HlistMoveList(oldHead: HlistHead, newHead: HlistHead, ghost s: seq<HlistNode>)
    requires Chain(oldHead, s) && oldHead != newHead
    modifies oldHead, newHead, s
    ensures Chain(newHead, s) && Chain(oldHead, [])
  {
    newHead.first := oldHead.first;
    if newHead.first != null {
      newHead.first.pprev := FirstOf(newHead);
    }
    oldHead.first := null;
    assert s != [] ==> At(s, 0);
  }
}
