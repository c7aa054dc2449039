/** Circular doubly linked lists: include/list.h, lines 7-490. */
module List {

  class ListHead {
    var next: ListHead?
    var prev: ListHead?

    constructor ()
      ensures next == null && prev == null
    {
      next, prev := null, null;
    }
  }

  function Succ(i: nat, n: nat): nat {
    if i + 1 == n then 0 else i + 1
  }

  function Pred(i: nat, n: nat): int {
    if i == 0 then n - 1 else i - 1
  }

  /** i is a position of s. The facts below are stated per position and used only
      where a position is named, which keeps the proofs of the list surgery small. */
  ghost predicate At<T>(s: seq<T>, i: int) {
    0 <= i < |s|
  }

  ghost predicate Distinct<T>(s: seq<T>) {
    forall i, j {:trigger At(s, i), At(s, j)} :: At(s, i) && At(s, j) && s[i] == s[j] ==> i == j
  }

  /** The nodes of s, in this order, are exactly one circular list. */
  ghost predicate Ring(s: seq<ListHead>)
    reads s
  {
    && |s| > 0
    && Distinct(s)
    && forall i {:trigger At(s, i)} :: At(s, i) ==> s[i].next == s[Succ(i, |s|)] && s[i].prev == s[Pred(i, |s|)]
  }

  ghost predicate Disjoint<T>(s: seq<T>, t: seq<T>) {
    forall i, j :: 0 <= i < |s| && 0 <= j < |t| ==> s[i] != t[j]
  }

  // ---------- sequences the operations are specified by ----------

  function Without<T>(s: seq<T>, i: nat): (r: seq<T>)
    requires i < |s|
    ensures |r| == |s| - 1
  {
    s[..i] + s[i + 1..]
  }

  function Replaced<T>(s: seq<T>, i: nat, x: T): (r: seq<T>)
    requires i < |s|
    ensures |r| == |s|
  {
    s[i := x]
  }

  function Rotated<T>(s: seq<T>, k: nat): (r: seq<T>)
    requires k <= |s|
    ensures |r| == |s|
  {
    s[k..] + s[..k]
  }

  function InsertAt<T>(s: seq<T>, i: nat, x: T): (r: seq<T>)
    requires i <= |s|
    ensures |r| == |s| + 1
  {
    s[..i] + [x] + s[i..]
  }

  lemma InsertDistinct<T>(s: seq<T>, i: nat, x: T)
    requires Distinct(s) && i <= |s| && x !in s
    ensures Distinct(InsertAt(s, i, x))
  {
    var r := InsertAt(s, i, x);
    forall k | At(r, k) && k != i
      ensures At(s, if k < i then k else k - 1)
    {
    }
  }

  lemma WithoutDistinct<T>(s: seq<T>, i: nat)
    requires Distinct(s) && i < |s|
    ensures Distinct(Without(s, i)) && s[i] !in Without(s, i)
  {
    var r := Without(s, i);
    assert At(s, i);
    forall k | At(r, k)
      ensures r[k] == s[if k < i then k else k + 1] && r[k] != s[i]
      ensures At(s, if k < i then k else k + 1)
    {
      assert At(s, if k < i then k else k + 1);
    }
    assert forall x :: x in r ==> exists k :: At(r, k) && r[k] == x;
  }

  lemma UpdateLacks<T>(s: seq<T>, i: nat, x: T)
    requires Distinct(s) && i < |s| && x !in s
    ensures s[i] !in Replaced(s, i, x)
  {
    var r := Replaced(s, i, x);
    forall k | 0 <= k < |r|
      ensures r[k] != s[i]
    {
      assert At(s, k) && At(s, i) && s[i] in s;
    }
  }

  // ---------- facts about rings ----------

  lemma Neighbours(s: seq<ListHead>, i: nat)
    requires Ring(s) && i < |s|
    ensures s[i].next == s[Succ(i, |s|)]
    ensures s[i].prev == s[Pred(i, |s|)]
    ensures s[i].next in s && s[i].prev in s
  {
    assert At(s, i);
  }

  /** A ring may be read from any of its nodes. */
  lemma RingRotate(s: seq<ListHead>, k: nat)
    requires Ring(s) && k <= |s|
    ensures Ring(Rotated(s, k))
  {
    var r := Rotated(s, k);
    forall i | At(r, i)
      ensures At(s, if i + k < |s| then i + k else i + k - |s|)
    {
    }
  }

  ghost function Maybe(x: ListHead?): set<ListHead> {
    if x == null then {} else {x}
  }

  // ---------- operations ----------

  method InitListHead(list: ListHead)
    modifies list`next, list`prev
    ensures Ring([list])
  {
    list.next := list;
    list.prev := list;
  }

  /** __list_add: insert between the consecutive nodes s[i] and its successor. */
  method ListAddBetween(n: ListHead, prev: ListHead, next: ListHead, ghost s: seq<ListHead>, ghost i: nat)
    requires Ring(s) && i < |s| && prev == s[i] && next == s[Succ(i, |s|)] && n !in s
    modifies n`next, n`prev, prev`next, next`prev
    ensures Ring(InsertAt(s, i + 1, n))
  {
    next.prev := n;
    n.next := next;
    n.prev := prev;
    prev.next := n;
    ghost var r := InsertAt(s, i + 1, n);
    InsertDistinct(s, i + 1, n);
    hide Distinct;
    assert At(s, i) && At(s, Succ(i, |s|)) && s[i].next == n && s[Succ(i, |s|)].prev == n;
    forall k | At(r, k)
      ensures r[k].next == r[Succ(k, |r|)] && r[k].prev == r[Pred(k, |r|)]
    {
      if k != i + 1 {
        assert At(s, if k <= i then k else k - 1);
      }
    }
  }

  method ListAdd(n: ListHead, head: ListHead, ghost s: seq<ListHead>, ghost i: nat)
    requires Ring(s) && i < |s| && head == s[i] && n !in s
    modifies n`next, n`prev, head`next, Maybe(head.next)`prev
    ensures Ring(InsertAt(s, i + 1, n))
  {
    Neighbours(s, i);
    ListAddBetween(n, head, head.next, s, i);
  }

  method ListAddTail(n: ListHead, head: ListHead, ghost s: seq<ListHead>, ghost i: nat)
    requires Ring(s) && i < |s| && head == s[i] && n !in s
    modifies n`next, n`prev, head`prev, Maybe(head.prev)`next
    ensures Ring(InsertAt(s, if i == 0 then |s| else i, n))
  {
    Neighbours(s, i);
    ListAddBetween(n, head.prev, head, s, Pred(i, |s|));
  }

  /** __list_del: make the neighbours of s[i] point to each other. */
  method ListDelBetween(prev: ListHead, next: ListHead, ghost s: seq<ListHead>, ghost i: nat)
    requires Ring(s) && i < |s| && prev == s[i].prev && next == s[i].next
    modifies prev`next, next`prev
    ensures if |s| == 1 then Ring(s) else Ring(Without(s, i))
    ensures |s| > 1 ==> unchanged(s[i])
  {
    Neighbours(s, i);
    next.prev := prev;
    prev.next := next;
    if |s| > 1 {
      ghost var r := Without(s, i);
      WithoutDistinct(s, i);
      forall k | At(r, k)
        ensures r[k].next == r[Succ(k, |r|)] && r[k].prev == r[Pred(k, |r|)]
      {
        assert At(s, Pred(i, |s|)) && At(s, i) && At(s, Succ(i, |s|));
        assert At(s, if k < i then k else k + 1);
      }
    }
  }

  method ListDelEntry(entry: ListHead, ghost s: seq<ListHead>, ghost i: nat)
    requires Ring(s) && i < |s| && entry == s[i]
    modifies Maybe(entry.prev)`next, Maybe(entry.next)`prev
    ensures if |s| == 1 then Ring(s) else Ring(Without(s, i))
    ensures |s| > 1 ==> unchanged(entry)
  {
    Neighbours(s, i);
    ListDelBetween(entry.prev, entry.next, s, i);
  }

  method ListReplace(oldEntry: ListHead, newEntry: ListHead, ghost s: seq<ListHead>, ghost i: nat)
    requires Ring(s) && i < |s| && s[i] == oldEntry && newEntry !in s
    modifies newEntry`next, newEntry`prev, Maybe(oldEntry.prev)`next, Maybe(oldEntry.next)`prev
    ensures Ring(Replaced(s, i, newEntry))
  {
    Neighbours(s, i);
    newEntry.next := oldEntry.next;
    newEntry.next.prev := newEntry;
    newEntry.prev := oldEntry.prev;
    newEntry.prev.next := newEntry;
    ghost var r := Replaced(s, i, newEntry);
    assert At(s, i) && At(s, Succ(i, |s|)) && At(s, Pred(i, |s|));
    forall k | At(r, k)
      ensures At(s, k)
    {
    }
  }

  /** list_del leaves the entry unlinked; null stands for the poison values. */
  method ListDel(entry: ListHead, ghost s: seq<ListHead>, ghost i: nat)
    requires Ring(s) && i < |s| && entry == s[i]
    modifies entry`next, entry`prev, Maybe(entry.prev)`next, Maybe(entry.next)`prev
    ensures |s| > 1 ==> Ring(Without(s, i))
    ensures entry.next == null && entry.prev == null
  {
    ListDelEntry(entry, s, i);
    WithoutDistinct(s, i);
    entry.next := null;
    entry.prev := null;
  }

  method ListDelInit(entry: ListHead, ghost s: seq<ListHead>, ghost i: nat)
    requires Ring(s) && i < |s| && entry == s[i]
    modifies entry`next, entry`prev, Maybe(entry.prev)`next, Maybe(entry.next)`prev
    ensures |s| > 1 ==> Ring(Without(s, i))
    ensures Ring([entry])
  {
    ListDelEntry(entry, s, i);
    WithoutDistinct(s, i);
    InitListHead(entry);
  }

  method ListReplaceInit(oldEntry: ListHead, newEntry: ListHead, ghost s: seq<ListHead>, ghost i: nat)
    requires Ring(s) && i < |s| && s[i] == oldEntry && newEntry !in s
    modifies newEntry, oldEntry, oldEntry.prev, oldEntry.next
    ensures Ring(Replaced(s, i, newEntry)) && Ring([oldEntry])
  {
    ListReplace(oldEntry, newEntry, s, i);
    WithoutDistinct(s, i);
    InitListHead(oldEntry);
  }

  /** Taking x out of the place of t[j] and putting y there instead, in the way the
      list operations do it: y goes behind t[j]'s predecessor, wherever that is. */
  ghost function Reinsert<T>(t: seq<T>, j: nat, y: T): (w: seq<T>)
    requires j < |t| && |t| > 1
    ensures |w| == |t|
  {
    InsertAt(Without(t, j), if j == 0 then |t| - 1 else j, y)
  }

  lemma ReinsertPutsBack<T>(t: seq<T>, j: nat, y: T)
    requires j < |t| && |t| > 1
    ensures Replaced(t, j, y) == Rotated(Reinsert(t, j, y), if j == 0 then |t| - 1 else 0)
    ensures Without(t, j)[if j == 0 then |t| - 2 else j - 1] == t[Pred(j, |t|)]
  {
    var w := Reinsert(t, j, y);
    if j == 0 {
      assert w == t[1..] + [y];
      assert w[|t| - 1..] == [y] && w[..|t| - 1] == t[1..];
    } else {
      assert w == t[..j] + [y] + t[j + 1..];
    }
  }

  // The position of the i-th element once the j-th is gone.
  function Shifted(i: nat, j: nat): int {
    if i < j then i else i - 1
  }

  // The position behind which list_swap puts its first entry back.
  function BehindOf(j: nat, n: nat): int {
    if j == 0 then n - 2 else j - 1
  }

  lemma SwapSteps<T>(s: seq<T>, i: nat, j: nat)
    requires i < |s| && j < |s| && i != j && Distinct(s)
    ensures var d, i' := Without(s, j), Shifted(i, j);
      && s[j] !in d && 0 <= i' < |d| && d[i'] == s[i]
      && d[Succ(i', |d|)] in s && d[Pred(i', |d|)] in s
      && Replaced(d, i', s[j]) == Without(Replaced(s, i, s[j]), j)
  {
    WithoutDistinct(s, j);
  }

  lemma SwapTarget<T>(s: seq<T>, i: nat, j: nat)
    requires i < |s| && j < |s| && i != j && Distinct(s)
    ensures var r, p := Without(Replaced(s, i, s[j]), j), BehindOf(j, |s|);
      && 0 <= p < |r| && s[i] !in r
      && r[p] == (if s[Pred(j, |s|)] == s[i] then s[j] else s[Pred(j, |s|)])
      && r[p] in s && r[Succ(p, |r|)] in s
  {
    var q := Replaced(s, i, s[j]);
    var r := Without(q, j);
    assert At(s, i) && At(s, j) && At(s, Pred(j, |s|));
    forall k | 0 <= k < |r|
      ensures r[k] != s[i] && r[k] in s
    {
      var k' := if k < j then k else k + 1;
      assert r[k] == q[k'] && At(s, k');
    }
  }

  lemma SwapResult<T>(s: seq<T>, i: nat, j: nat)
    requires i < |s| && j < |s| && i != j
    ensures var q := Replaced(s, i, s[j]);
      var w := InsertAt(Without(q, j), BehindOf(j, |s|) + 1, s[i]);
      Replaced(q, j, s[i]) == Rotated(w, if j == 0 then |s| - 1 else 0)
  {
    ReinsertPutsBack(Replaced(s, i, s[j]), j, s[i]);
  }

  /** list_swap of two nodes of one ring, adjacent or not, head or not. */
  method ListSwap(entry1: ListHead, entry2: ListHead, ghost s: seq<ListHead>, ghost i: nat, ghost j: nat)
    requires Ring(s) && i < |s| && j < |s| && i != j && entry1 == s[i] && entry2 == s[j]
    modifies s
    ensures Ring(Replaced(Replaced(s, i, entry2), j, entry1))
  {
    Neighbours(s, j);
    SwapSteps(s, i, j);
    SwapTarget(s, i, j);
    SwapResult(s, i, j);
    hide *;
    ghost var d, i' := Without(s, j), Shifted(i, j);
    ghost var r, p := Without(Replaced(s, i, entry2), j), BehindOf(j, |s|);
    ghost var w, k := InsertAt(r, p + 1, entry1), if j == 0 then |s| - 1 else 0;
    ghost var swapped := Replaced(Replaced(s, i, entry2), j, entry1);
    assert swapped == Rotated(w, k);

    var pos := entry2.prev;
    ListDel(entry2, s, j);
    assert Ring(d);
    Neighbours(d, i');
    ListReplace(entry1, entry2, d, i');
    assert Ring(r);
    if pos == entry1 {
      pos := entry2;
    }
    assert pos == r[p];
    Neighbours(r, p);
    ListAdd(entry1, pos, r, p);
    RingRotate(w, k);
    assert Ring(swapped);
  }

  lemma SwapStepsAcross<T>(s: seq<T>, i: nat, t: seq<T>, j: nat)
    requires Distinct(s) && Distinct(t) && Disjoint(s, t) && i < |s| && j < |t|
    ensures t[j] !in s && t[Pred(j, |t|)] !in s && t[Succ(j, |t|)] !in s && s[i] in s
    ensures s[i] !in Replaced(s, i, t[j])
  {
    UpdateLacks(s, i, t[j]);
  }

  lemma NotWithout<T>(s: seq<T>, i: nat, t: seq<T>, j: nat)
    requires Distinct(t) && Disjoint(s, t) && i < |s| && j < |t|
    ensures s[i] !in Without(t, j) && t[j] !in Without(t, j)
  {
    WithoutDistinct(t, j);
    forall k | 0 <= k < |Without(t, j)|
      ensures Without(t, j)[k] != s[i]
    {
      assert Without(t, j)[k] == t[if k < j then k else k + 1];
    }
  }

  lemma WithoutElsewhere<T>(s: seq<T>, i: nat, t: seq<T>, j: nat, k: nat)
    requires Distinct(t) && Disjoint(s, t) && i < |s| && j < |t| && k < |t| - 1
    ensures Without(t, j)[k] in t && Without(t, j)[k] !in Replaced(s, i, t[j])
  {
    var k' := if k < j then k else k + 1;
    assert Without(t, j)[k] == t[k'];
    assert At(t, j) && At(t, k');
    assert forall l :: 0 <= l < |s| ==> s[l] != t[k'];
  }

  // The first half of list_swap, for nodes of two different rings.
  method SwapOut(entry1: ListHead, entry2: ListHead,
                 ghost s: seq<ListHead>, ghost i: nat, ghost t: seq<ListHead>, ghost j: nat)
    returns (pos: ListHead)
    requires Ring(s) && i < |s| && entry1 == s[i]
    requires Ring(t) && j < |t| && entry2 == t[j]
    requires Disjoint(s, t)
    modifies s, t
    ensures Ring(Replaced(s, i, entry2)) && pos == t[Pred(j, |t|)]
    ensures |t| > 1 ==> Ring(Without(t, j))
  {
    Neighbours(t, j);
    Neighbours(s, i);
    SwapStepsAcross(s, i, t, j);
    NotWithout(s, i, t, j);
    NotWithout(s, Pred(i, |s|), t, j);
    NotWithout(s, Succ(i, |s|), t, j);
    hide *;
    pos := entry2.prev;
    ListDel(entry2, t, j);
    ListReplace(entry1, entry2, s, i);
  }

  // list_add next to a ring that the three written nodes are not in.
  method ListAddBeside(n: ListHead, head: ListHead, ghost s: seq<ListHead>, ghost i: nat, ghost other: seq<ListHead>)
    requires Ring(s) && i < |s| && head == s[i] && n !in s
    requires other != [] ==> Ring(other) && n !in other && head !in other && s[Succ(i, |s|)] !in other
    modifies n, head, head.next
    ensures Ring(InsertAt(s, i + 1, n)) && (other != [] ==> Ring(other))
  {
    Neighbours(s, i);
    hide *;
    ListAdd(n, head, s, i);
  }

  // The ring that list_swap's first entry ends up in.
  ghost function AcrossRing<T>(s: seq<T>, i: nat, t: seq<T>, j: nat): seq<T>
    requires i < |s| && j < |t|
  {
    if |t| == 1 then Replaced(s, i, t[j]) else Without(t, j)
  }

  lemma AcrossTarget<T>(s: seq<T>, i: nat, t: seq<T>, j: nat)
    requires Distinct(s) && Distinct(t) && Disjoint(s, t) && i < |s| && j < |t|
    ensures var r, p := AcrossRing(s, i, t, j), if |t| == 1 then i else BehindOf(j, |t|);
      && 0 <= p < |r| && s[i] !in r && s[i] != t[Pred(j, |t|)]
      && r[p] == t[Pred(j, |t|)]
      && (r[Succ(p, |r|)] in s || r[Succ(p, |r|)] in t)
      && (|t| > 1 ==> r[p] !in Replaced(s, i, t[j]) && r[Succ(p, |r|)] !in Replaced(s, i, t[j]))
    ensures s[i] !in Replaced(s, i, t[j]) && s[i] in s && t[Pred(j, |t|)] in t
  {
    UpdateLacks(s, i, t[j]);
    NotWithout(s, i, t, j);
    if |t| > 1 {
      var p := BehindOf(j, |t|);
      WithoutElsewhere(s, i, t, j, p);
      WithoutElsewhere(s, i, t, j, Succ(p, |t| - 1));
      ReinsertPutsBack(t, j, s[i]);
    }
  }

  /** list_swap of nodes of two different rings: it exchanges them exactly when
      entry2 is not alone in its ring; otherwise both end up in the first ring. */
  method ListSwapAcross(entry1: ListHead, entry2: ListHead,
                        ghost s: seq<ListHead>, ghost i: nat, ghost t: seq<ListHead>, ghost j: nat)
    requires Ring(s) && i < |s| && entry1 == s[i]
    requires Ring(t) && j < |t| && entry2 == t[j]
    requires Disjoint(s, t)
    modifies s, t
    ensures |t| > 1 ==> Ring(Replaced(s, i, entry2)) && Ring(Replaced(t, j, entry1))
    ensures |t| == 1 ==> Ring(InsertAt(Replaced(s, i, entry2), i + 1, entry1))
    ensures Ring(Replaced(s, i, entry2)) && Ring(Replaced(t, j, entry1)) <==> |t| > 1
  {
    AcrossTarget(s, i, t, j);
    if |t| > 1 {
      ReinsertPutsBack(t, j, entry1);
    }
    ghost var s', r := Replaced(s, i, entry2), AcrossRing(s, i, t, j);
    ghost var p := if |t| == 1 then i else BehindOf(j, |t|);
    assert |t| > 1 ==> Reinsert(t, j, entry1) == InsertAt(r, p + 1, entry1);
    assert |t| == 1 ==> r == s';
    assert |t| > 1 ==> r == Without(t, j);
    hide *;
    var pos := SwapOut(entry1, entry2, s, i, t, j);
    assert Ring(s') && Ring(r);
    if pos == entry1 {
      pos := entry2;
    }
    assert pos == r[p];
    Neighbours(r, p);
    ListAddBeside(entry1, pos, r, p, if |t| == 1 then [] else s');
    assert Ring(InsertAt(r, p + 1, entry1)) && (|t| > 1 ==> Ring(s'));
    if |t| > 1 {
      RingRotate(InsertAt(r, p + 1, entry1), if j == 0 then |t| - 1 else 0);
    } else {
      NotAlone(InsertAt(s', i + 1, entry1), i + 1);
      AloneInserted(s', i, t, j, entry1);
    }
  }

  // A node of a larger ring is no ring of its own.
  lemma NotAlone(w: seq<ListHead>, k: nat)
    requires Ring(w) && |w| > 1 && k < |w|
    ensures !Ring([w[k]])
  {
    assert At(w, k) && At(w, Succ(k, |w|)) && At([w[k]], 0);
  }

  lemma AloneInserted<T>(s: seq<T>, i: nat, t: seq<T>, j: nat, x: T)
    requires i < |s| && j < |t| == 1
    ensures InsertAt(s, i + 1, x)[i + 1] == x && Replaced(t, j, x) == [x]
  {
  }

  // Two rings after an exchange of their nodes.
  lemma Exchanged<T>(s: seq<T>, i: nat, t: seq<T>, j: nat)
    requires Disjoint(s, t) && Distinct(s) && Distinct(t) && i < |s| && j < |t|
    ensures var s', t' := Replaced(s, i, t[j]), Replaced(t, j, s[i]);
      && Disjoint(s', t') && Disjoint(t', s')
      && (forall x :: x in s' || x in t' ==> x in s || x in t)
      && Replaced(s', i, s[i]) == s && Replaced(t', j, t[j]) == t
  {
    var s', t' := Replaced(s, i, t[j]), Replaced(t, j, s[i]);
    forall k, l | 0 <= k < |s'| && 0 <= l < |t'|
      ensures s'[k] != t'[l]
    {
      assert At(s, k) && At(s, i) && At(t, l) && At(t, j);
    }
  }

  lemma ExchangedTogether<T>(s: seq<T>, i: nat, x: T, y: T)
    requires i < |s|
    ensures var w := InsertAt(Replaced(s, i, y), i + 1, x);
      && w[i] == y && w[i + 1] == x && |w| > 1
      && (forall z :: z in w ==> z in s || z == x || z == y)
      && Replaced(Replaced(w, i, x), i + 1, y)[i + 1] == y
      && Replaced(Replaced(w, i + 1, y), i, x)[i + 1] == y
  {
  }

  /** Swapping across two rings and then again with the entries the other way round
      restores both rings exactly when the second entry was not alone in its ring, and
      then it restores every link. */
  method ListSwapAcrossAndBack(entry1: ListHead, entry2: ListHead,
                               s: seq<ListHead>, i: nat, t: seq<ListHead>, j: nat)
    requires Ring(s) && i < |s| && entry1 == s[i]
    requires Ring(t) && j < |t| && entry2 == t[j]
    requires Disjoint(s, t)
    modifies s, t
    ensures Ring(s) && Ring(t) <==> |t| > 1
    ensures |t| > 1 ==> forall x :: x in s || x in t ==> x.next == old(x.next) && x.prev == old(x.prev)
  {
    Exchanged(s, i, t, j);
    ExchangedTogether(s, i, entry1, entry2);
    assert |t| == 1 ==> t == [entry2];
    ghost var s', t' := Replaced(s, i, entry2), Replaced(t, j, entry1);
    ghost var w := InsertAt(s', i + 1, entry1);
    hide Ring, Disjoint, Distinct, Replaced, InsertAt;
    ListSwapAcross(entry1, entry2, s, i, t, j);
    if |t| > 1 {
      ListSwapAcross(entry2, entry1, s', i, t', j);
      RingFixesLinks(s);
      RingFixesLinks(t);
    } else {
      ListSwap(entry2, entry1, w, i, i + 1);
      NotAlone(Replaced(Replaced(w, i, entry1), i + 1, entry2), i + 1);
    }
  }

  /** Making the same call twice restores both rings exactly when neither entry was alone
      in its ring, and then it restores every link. */
  method ListSwapAcrossTwice(entry1: ListHead, entry2: ListHead,
                             s: seq<ListHead>, i: nat, t: seq<ListHead>, j: nat)
    requires Ring(s) && i < |s| && entry1 == s[i]
    requires Ring(t) && j < |t| && entry2 == t[j]
    requires Disjoint(s, t)
    modifies s, t
    ensures Ring(s) && Ring(t) <==> |s| > 1 && |t| > 1
    ensures |s| > 1 && |t| > 1 ==>
      forall x :: x in s || x in t ==> x.next == old(x.next) && x.prev == old(x.prev)
  {
    Exchanged(s, i, t, j);
    ExchangedTogether(s, i, entry1, entry2);
    assert |t| == 1 ==> t == [entry2];
    ghost var s', t' := Replaced(s, i, entry2), Replaced(t, j, entry1);
    ghost var w := InsertAt(s', i + 1, entry1);
    hide Ring, Disjoint, Distinct, Replaced, InsertAt;
    ListSwapAcross(entry1, entry2, s, i, t, j);
    if |t| > 1 {
      ListSwapAcross(entry1, entry2, t', j, s', i);
      if |s| > 1 {
        RingFixesLinks(s);
        RingFixesLinks(t);
      }
    } else {
      ListSwap(entry1, entry2, w, i + 1, i);
      NotAlone(Replaced(Replaced(w, i + 1, entry2), i, entry1), i + 1);
    }
  }

  /** Swapping twice restores every link. */
  method ListSwapTwice(entry1: ListHead, entry2: ListHead, ghost s: seq<ListHead>, ghost i: nat, ghost j: nat)
    requires Ring(s) && i < |s| && j < |s| && i != j && entry1 == s[i] && entry2 == s[j]
    modifies s
    ensures forall x :: x in s ==> x.next == old(x.next) && x.prev == old(x.prev)
  {
    ListSwap(entry1, entry2, s, i, j);
    ListSwap(entry1, entry2, Replaced(Replaced(s, i, entry2), j, entry1), j, i);
    assert Replaced(Replaced(Replaced(Replaced(s, i, entry2), j, entry1), j, entry2), i, entry1) == s;
    RingFixesLinks(s);
  }

  /** A ring determines both links of each of its nodes. */
  twostate lemma RingFixesLinks(s: seq<ListHead>)
    requires old(Ring(s)) && Ring(s)
    ensures forall x :: x in s ==> x.next == old(x.next) && x.prev == old(x.prev)
  {
    forall x | x in s
      ensures x.next == old(x.next) && x.prev == old(x.prev)
    {
      var i :| At(s, i) && s[i] == x;
    }
  }

  // ---------- surgery on pieces of rings ----------

  /** Inside the piece s the nodes are linked in order; its two ends are open. */
  ghost predicate Seg(s: seq<ListHead>)
    reads s
  {
    && (forall k {:trigger At(s, k)} :: At(s, k) && k + 1 < |s| ==> s[k].next == s[k + 1])
    && (forall k {:trigger At(s, k)} :: At(s, k) && k > 0 ==> s[k].prev == s[k - 1])
  }

  /** Two pieces are linked, the end of a to the start of b; an empty piece needs no link. */
  ghost predicate Tied(a: seq<ListHead>, b: seq<ListHead>)
    reads a, b
  {
    a != [] && b != [] ==> a[|a| - 1].next == b[0] && b[0].prev == a[|a| - 1]
  }

  lemma RingSplit(a: seq<ListHead>, b: seq<ListHead>)
    requires Ring(a + b)
    ensures Seg(a) && Seg(b) && Tied(a, b)
    ensures b == [] ==> Tied(a, a)
    ensures b != [] ==> Tied(b, a)
  {
    var s := a + b;
    forall k | At(a, k)
      ensures k + 1 < |a| ==> a[k].next == a[k + 1]
      ensures k > 0 ==> a[k].prev == a[k - 1]
    {
      assert At(s, k) && s[k] == a[k];
    }
    forall k | At(b, k)
      ensures k + 1 < |b| ==> b[k].next == b[k + 1]
      ensures k > 0 ==> b[k].prev == b[k - 1]
    {
      assert At(s, |a| + k) && s[|a| + k] == b[k];
    }
    assert Seg(a) && Seg(b);
    assert At(s, 0) && At(s, |s| - 1);
    assert a != [] ==> At(s, |a| - 1);
    assert b != [] ==> At(s, |a|);
    hide Seg;
  }

  lemma SegSplit(a: seq<ListHead>, b: seq<ListHead>)
    requires Seg(a + b)
    ensures Seg(a) && Seg(b) && Tied(a, b)
  {
    var s := a + b;
    forall k | At(a, k)
      ensures At(s, k) && s[k] == a[k]
    {
    }
    forall k | At(b, k)
      ensures At(s, |a| + k) && s[|a| + k] == b[k]
    {
    }
    assert a != [] ==> At(s, |a| - 1);
    assert b != [] ==> At(s, |a|);
  }

  lemma SegJoin(a: seq<ListHead>, b: seq<ListHead>)
    requires Seg(a) && Seg(b) && Tied(a, b)
    ensures Seg(a + b)
  {
    var s := a + b;
    forall k | At(s, k)
      ensures k + 1 < |s| ==> s[k].next == s[k + 1]
      ensures k > 0 ==> s[k].prev == s[k - 1]
    {
      if k < |a| {
        assert At(a, k);
      } else {
        assert At(b, k - |a|);
      }
    }
  }

  lemma RingClose(s: seq<ListHead>)
    requires s != [] && Distinct(s) && Seg(s) && Tied(s, s)
    ensures Ring(s)
  {
  }

  /** Writing only the outward links of a piece leaves it a piece. */
  twostate lemma SegKept(s: seq<ListHead>)
    requires old(Seg(s)) && Distinct(s)
    requires forall x :: x in s && x != s[|s| - 1] ==> x.next == old(x.next)
    requires forall x :: x in s && x != s[0] ==> x.prev == old(x.prev)
    ensures Seg(s)
  {
    forall k | At(s, k)
      ensures k + 1 < |s| ==> s[k].next == s[k + 1]
      ensures k > 0 ==> s[k].prev == s[k - 1]
    {
      assert At(s, 0) && At(s, |s| - 1);
    }
  }

  ghost predicate Apart<T>(a: seq<T>, b: seq<T>) {
    forall x :: x in a ==> x !in b
  }

  lemma DistinctSplit<T>(a: seq<T>, b: seq<T>)
    requires Distinct(a + b)
    ensures Distinct(a) && Distinct(b) && Apart(a, b)
  {
    var s := a + b;
    forall k | At(a, k)
      ensures At(s, k) && s[k] == a[k]
    {
    }
    forall k | At(b, k)
      ensures At(s, |a| + k) && s[|a| + k] == b[k]
    {
    }
    forall x | x in a
      ensures x !in b
    {
      var i :| At(a, i) && a[i] == x;
      assert forall k :: At(b, k) ==> b[k] != x;
      assert forall k :: 0 <= k < |b| ==> At(b, k);
    }
  }

  lemma DistinctJoin<T>(a: seq<T>, b: seq<T>)
    requires Distinct(a) && Distinct(b) && Apart(a, b)
    ensures Distinct(a + b)
  {
    var s := a + b;
    forall k | At(s, k)
      ensures if k < |a| then At(a, k) && s[k] == a[k] && s[k] in a
            else At(b, k - |a|) && s[k] == b[k - |a|] && s[k] in b
    {
    }
  }

  lemma DistinctSplit3<T>(a: seq<T>, b: seq<T>, c: seq<T>)
    requires Distinct(a + b + c)
    ensures Distinct(a) && Distinct(b) && Distinct(c)
    ensures Apart(a, b) && Apart(a, c) && Apart(b, c)
  {
    DistinctSplit(a + b, c);
    DistinctSplit(a, b);
    assert forall x :: x in a || x in b ==> x in a + b;
  }

  lemma RingSplit3(a: seq<ListHead>, b: seq<ListHead>, c: seq<ListHead>)
    requires Ring(a + b + c) && a != []
    ensures Seg(a) && Seg(b) && Seg(c) && Tied(a, b) && Tied(b, c) && (b == [] ==> Tied(a, c))
    ensures Tied(if c != [] then c else if b != [] then b else a, a)
  {
    assert a + b + c == a + (b + c);
    RingSplit(a, b + c);
    SegSplit(b, c);
  }

  lemma RingJoin3(a: seq<ListHead>, b: seq<ListHead>, c: seq<ListHead>)
    requires a != [] && Seg(a) && Seg(b) && Seg(c)
    requires Tied(a, b) && Tied(b, c) && (b == [] ==> Tied(a, c))
    requires Tied(if c != [] then c else if b != [] then b else a, a)
    requires Distinct(a) && Distinct(b) && Distinct(c) && Apart(a, b) && Apart(a, c) && Apart(b, c)
    ensures Ring(a + b + c)
  {
    SegJoin(b, c);
    SegJoin(a, b + c);
    DistinctJoin(b, c);
    DistinctJoin(a, b + c);
    assert a + b + c == a + (b + c);
    RingClose(a + b + c);
  }

  lemma RingJoin2(head: ListHead, p: seq<ListHead>)
    requires Seg(p) && Distinct(p) && head !in p
    requires Tied([head], p) && Tied(if p != [] then p else [head], [head])
    ensures Ring([head] + p)
  {
    SegJoin([head], p);
    DistinctJoin([head], p);
    RingClose([head] + p);
  }

  ghost function FirstNode(s: seq<ListHead>): set<ListHead> {
    if s == [] then {} else {s[0]}
  }

  ghost function LastNode(s: seq<ListHead>): set<ListHead> {
    if s == [] then {} else {s[|s| - 1]}
  }

  // The six writes of list_bulk_move_tail, and which segments they tie together.
  method Retie(head: ListHead, first: ListHead, last: ListHead,
               ghost h: seq<ListHead>, ghost m: seq<ListHead>, ghost b: seq<ListHead>)
    requires h != [] && m != [] && head == h[0] && first == m[0] && last == m[|m| - 1]
    requires Apart(h, m) && Apart(h, b) && Apart(m, b)
    requires Tied(h, m) && Tied(m, b) && (b == [] ==> Tied(m, h)) && Tied(b, h)
    modifies first`prev, last`next, head`prev, LastNode(h)`next
    modifies FirstNode(b)`prev, LastNode(b)`next
    ensures Tied(h, b) && Tied(b, m) && Tied(m, h) && (b == [] ==> Tied(h, m))
  {
    assert head in h && h[|h| - 1] in h && first in m && last in m;
    assert b != [] ==> b[0] in b && b[|b| - 1] in b;
    hide Apart;
    first.prev.next := last.next;
    last.next.prev := first.prev;
    head.prev.next := first;
    first.prev := head.prev;
    last.next := head;
    head.prev := last;
  }

  /** All of m moves behind b, where first and last are the ends of m. */
  method ListBulkMoveTail(head: ListHead, first: ListHead, last: ListHead,
                          ghost a: seq<ListHead>, ghost m: seq<ListHead>, ghost b: seq<ListHead>)
    requires Ring([head] + a + m + b) && |m| > 0 && first == m[0] && last == m[|m| - 1]
    modifies head, a, m, b
    ensures Ring([head] + a + b + m)
  {
    ghost var h := [head] + a;
    RingSplit3(h, m, b);
    DistinctSplit3(h, m, b);
    assert h[|h| - 1] in h && first in m && last in m && forall x :: x in h ==> x == head || x in a;
    assert b != [] ==> b[0] in b && b[|b| - 1] in b;
    Retie(head, first, last, h, m, b);
    hide Ring, Seg, Distinct, At, Tied;
    SegKept(h);
    SegKept(m);
    if b != [] {
      SegKept(b);
    }
    RingJoin3(h, b, m);
  }

  // ---------- moving and rotating ----------

  /** Moving s[i]: r is the ring of the target once s[i] has left, which is s without
      its i-th node if both are in one ring, and otherwise a ring of other nodes. */
  ghost predicate MoveTarget(s: seq<ListHead>, i: nat, r: seq<ListHead>)
    reads s, r
  {
    Ring(s) && i < |s| && (if |s| > 1 && r == Without(s, i) then true else Ring(r) && Apart(s, r))
  }

  lemma MoveTargetFacts(s: seq<ListHead>, i: nat, r: seq<ListHead>, k: nat)
    requires MoveTarget(s, i, r) && k < |r|
    ensures s[i] !in r && (r[k] in s || r[k] in r)
    ensures r[Succ(k, |r|)] in r && r[Pred(k, |r|)] in r
    ensures forall x :: x in r ==> x in s || Apart(s, r)
    ensures s[i].next == s[Succ(i, |s|)] && s[i].prev == s[Pred(i, |s|)]
    ensures s[i].next in s && s[i].prev in s && s[i] in s
    ensures s[i] !in Without(s, i) && (Apart(s, r) ==> Apart(Without(s, i), r))
  {
    WithoutDistinct(s, i);
    Neighbours(s, i);
    assert forall x :: x in Without(s, i) ==> x in s;
  }

  method ListMove(list: ListHead, head: ListHead,
                  ghost s: seq<ListHead>, ghost i: nat, ghost r: seq<ListHead>, ghost h: nat)
    requires MoveTarget(s, i, r) && list == s[i] && h < |r| && head == r[h]
    modifies s, r
    ensures Ring(InsertAt(r, h + 1, list))
    ensures Apart(s, r) && |s| > 1 ==> Ring(Without(s, i))
  {
    MoveTargetFacts(s, i, r, h);
    hide Ring, At, Distinct, Without, InsertAt;
    ListDelEntry(list, s, i);
    Neighbours(r, h);
    ListAdd(list, head, r, h);
  }

  method ListMoveTail(list: ListHead, head: ListHead,
                      ghost s: seq<ListHead>, ghost i: nat, ghost r: seq<ListHead>, ghost h: nat)
    requires MoveTarget(s, i, r) && list == s[i] && h < |r| && head == r[h]
    modifies s, r
    ensures Ring(InsertAt(r, if h == 0 then |r| else h, list))
    ensures Apart(s, r) && |s| > 1 ==> Ring(Without(s, i))
  {
    MoveTargetFacts(s, i, r, h);
    hide Ring, At, Distinct, Without, InsertAt;
    ListDelEntry(list, s, i);
    Neighbours(r, h);
    ListAddTail(list, head, r, h);
  }

  lemma MoveFirst<T>(a: seq<T>, m: seq<T>, b: seq<T>)
    requires m != [] && a != []
    ensures var s, i := a + m + b, |a|;
      && s[i] == m[0] && |Without(s, i)| > 0 && Without(s, i)[0] == a[0]
      && InsertAt(Without(s, i), |s| - 1, m[0]) == a + m[1..] + (b + [m[0]])
      && a + (b + [m[0]]) + m[1..] == a + b + m
  {
  }

  /** Moving the nodes of m to the tail one by one, in order, leaves the ring that
      list_bulk_move_tail leaves for m, and with it every link. */
  method MoveEachToTail(head: ListHead, m: seq<ListHead>, ghost a: seq<ListHead>, ghost b: seq<ListHead>)
    requires Ring([head] + a + m + b)
    modifies head, a, m, b
    ensures Ring([head] + a + b + m)
    decreases |m|
  {
    if m == [] {
      assert [head] + a + m + b == [head] + a + b + m;
    } else {
      ghost var s, i := [head] + a + m + b, 1 + |a|;
      MoveFirst([head] + a, m, b);
      assert forall x :: x in s ==> x == head || x in a || x in m || x in b;
      WithoutDistinct(s, i);
      hide Ring, Without, InsertAt, Distinct, At;
      ListMoveTail(m[0], head, s, i, Without(s, i), 0);
      MoveEachToTail(head, m[1..], a, b + [m[0]]);
    }
  }

  function RotatedLeft<T>(q: seq<T>): seq<T> {
    if q == [] then [] else q[1..] + [q[0]]
  }

  function RotatedLeftTimes<T>(q: seq<T>, n: nat): seq<T>
    decreases n
  {
    if n == 0 then q else RotatedLeftTimes(RotatedLeft(q), n - 1)
  }

  /** n rotations to the left bring the n-th entry to the front, and |q| of them
      bring every entry back to its place. */
  lemma {:induction false} RotateLeftTimes<T>(q: seq<T>, n: nat)
    requires n <= |q|
    ensures RotatedLeftTimes(q, n) == Rotated(q, n)
    ensures n == |q| ==> RotatedLeftTimes(q, n) == q
    decreases n
  {
    if n > 0 {
      var r := RotatedLeft(q);
      RotateLeftTimes(r, n - 1);
      assert r[n - 1..] + r[..n - 1] == q[n..] + q[..n];
    }
  }

  predicate ListEmpty(head: ListHead)
    reads head
  {
    head.next == head
  }

  method ListRotateLeft(head: ListHead, ghost q: seq<ListHead>)
    requires Ring([head] + q)
    modifies head, q
    ensures Ring([head] + RotatedLeft(q))
  {
    ghost var s := [head] + q;
    Neighbours(s, 0);
    if q != [] {
      RotateLeftSteps(head, q);
    } else {
      assert [head] + RotatedLeft(q) == s;
    }
    assert At(s, 0) && At(s, Succ(0, |s|));
    hide Ring, At, Distinct, Without, InsertAt, RotatedLeft;
    if !ListEmpty(head) {
      var first := head.next;
      ListMoveTail(first, head, s, 1, Without(s, 1), 0);
    }
  }

  /** k calls of list_rotate_left leave the ring that list_rotate_to_front leaves for the
      k-th entry, and as many calls as there are entries restore every link. */
  method RotateLeftRepeatedly(head: ListHead, k: nat, ghost q: seq<ListHead>)
    requires Ring([head] + q) && k <= |q|
    modifies head, q
    ensures Ring([head] + Rotated(q, k))
    ensures k == |q| ==> forall x :: x in [head] + q ==> x.next == old(x.next) && x.prev == old(x.prev)
  {
    RotateLeftTimes(q, k);
    RotationStarts(q);
    hide Ring, Rotated, RotatedLeft;
    for i := 0 to k
      invariant Ring([head] + RotatedLeftTimes(q, i))
      invariant forall x :: x in RotatedLeftTimes(q, i) ==> x in q
    {
      RotateOnceMore(q, i);
      ghost var r: seq<ListHead> := RotatedLeftTimes(q, i);
      assert forall j :: 0 <= j < |r| ==> r[j] in r && r[j] in q;
      ListRotateLeft(head, r);
    }
    if k == |q| {
      RingFixesLinks([head] + q);
    }
  }

  lemma RotationStarts<T>(q: seq<T>)
    ensures RotatedLeftTimes(q, 0) == q
  {
  }

  lemma {:induction false} RotateOnceMore<T>(q: seq<T>, n: nat)
    ensures RotatedLeftTimes(q, n + 1) == RotatedLeft(RotatedLeftTimes(q, n))
    ensures forall x :: x in RotatedLeft(RotatedLeftTimes(q, n)) ==> x in RotatedLeftTimes(q, n)
    decreases n
  {
    if n > 0 {
      RotateOnceMore(RotatedLeft(q), n - 1);
    }
  }

  lemma RotateLeftSteps<T>(head: T, q: seq<T>)
    requires q != []
    ensures var r := Without([head] + q, 1);
      && |r| == |q| && r[0] == head && ([head] + q)[1] == q[0]
      && InsertAt(r, |r|, q[0]) == [head] + RotatedLeft(q)
  {
  }

  method ListRotateToFront(list: ListHead, head: ListHead, ghost q: seq<ListHead>, ghost k: nat)
    requires Ring([head] + q) && k < |q| && list == q[k]
    modifies head, q
    ensures Ring([head] + Rotated(q, k))
  {
    ghost var i := if k == 0 then |q| else k;
    RotateFrontSteps(head, q, k);
    hide *;
    ListMoveTail(head, list, [head] + q, 0, q, k);
    RingRotate(InsertAt(q, i, head), i);
  }

  lemma RotateFrontSteps<T>(head: T, q: seq<T>, k: nat)
    requires k < |q|
    ensures ([head] + q)[0] == head && Without([head] + q, 0) == q
    ensures var i := if k == 0 then |q| else k;
      Rotated(InsertAt(q, i, head), i) == [head] + Rotated(q, k)
  {
    var i := if k == 0 then |q| else k;
    InsertRotated(q, i, head);
    assert Rotated(q, |q|) == q == Rotated(q, 0);
  }

  lemma InsertRotated<T>(q: seq<T>, i: nat, x: T)
    requires i <= |q|
    ensures Rotated(InsertAt(q, i, x), i) == [x] + Rotated(q, i)
  {
    var w := InsertAt(q, i, x);
    assert w[i..] == [x] + q[i..];
    assert w[..i] == q[..i];
  }

  // ---------- cutting and splicing ----------

  /** __list_cut_position: the first i > 0 entries move to list. */
  method ListCutAt(list: ListHead, head: ListHead, entry: ListHead, ghost q: seq<ListHead>, ghost i: nat)
    requires Ring([head] + q) && list !in [head] + q && 0 < i <= |q| && entry == q[i - 1]
    modifies list, head, q
    ensures Ring([list] + q[..i]) && Ring([head] + q[i..])
  {
    ghost var p, t := q[..i], q[i..];
    assert [head] + q == [head] + p + t;
    RingSplit3([head], p, t);
    DistinctSplit3([head], p, t);
    assert head in [head] && entry in p && p[0] in p;
    assert t != [] ==> t[0] in t;
    assert list !in p && list !in t;
    hide Ring, Seg, Distinct, At;
    var newFirst := entry.next;
    list.next := head.next;
    list.next.prev := list;
    list.prev := entry;
    entry.next := list;
    head.next := newFirst;
    newFirst.prev := head;
    SegKept(p);
    if t != [] {
      SegKept(t);
    }
    RingJoin2(list, p);
    RingJoin2(head, t);
  }

  predicate ListIsSingular(head: ListHead)
    reads head
  {
    !ListEmpty(head) && head.next == head.prev
  }

  lemma HeadLinks(head: ListHead, q: seq<ListHead>)
    requires Ring([head] + q)
    ensures q == [] ==> head.next == head && head.prev == head
    ensures q != [] ==> head.next == q[0] && head.prev == q[|q| - 1] && q[0] != head && q[|q| - 1] != head
    ensures q != [] && q[0] == q[|q| - 1] ==> |q| == 1
    ensures head !in q
  {
    var s := [head] + q;
    assert At(s, 0) && At(s, |q|);
    if q != [] {
      assert At(s, 1);
    }
    forall k | 0 <= k < |q|
      ensures q[k] != head
    {
      assert At(s, k + 1);
    }
  }

  /** Cutting behind entry, which is the head or q[i - 1]. When head has entries, the
      first i of them end up on list; when it has none, list is not even initialized. */
  method ListCutPosition(list: ListHead, head: ListHead, entry: ListHead, ghost q: seq<ListHead>, ghost i: nat)
    requires Ring([head] + q) && list !in [head] + q && i <= |q| && entry == ([head] + q)[i]
    modifies list, head, q
    ensures q != [] ==> Ring([list] + q[..i]) && Ring([head] + q[i..])
    ensures q == [] ==> unchanged(list) && unchanged(head)
  {
    HeadLinks(head, q);
    assert i == 0 ==> [list] + q[..i] == [list] && q[i..] == q;
    hide Ring, At, Distinct;
    if ListEmpty(head) {
      return;
    }
    if ListIsSingular(head) && head.next != entry && head != entry {
      return;
    }
    if entry == head {
      assert i == 0;
      InitListHead(list);
    } else {
      ListCutAt(list, head, entry, q, i);
    }
  }

  // How many entries list_cut_before moves, when entry is at position i of the ring.
  function CutBeforeCount(i: nat, n: nat): int {
    if i == 0 then n else i - 1
  }

  /** Cutting before entry, which is the head (all entries move) or q[i - 1]. */
  method ListCutBefore(list: ListHead, head: ListHead, entry: ListHead, ghost q: seq<ListHead>, ghost i: nat)
    requires Ring([head] + q) && list !in [head] + q && i <= |q| && entry == ([head] + q)[i]
    modifies list, head, q
    ensures var k := CutBeforeCount(i, |q|); Ring([list] + q[..k]) && Ring([head] + q[k..])
  {
    ghost var n := CutBeforeCount(i, |q|);
    ghost var p, t := q[..n], q[n..];
    HeadLinks(head, q);
    assert [head] + q == [head] + p + t;
    RingSplit3([head], p, t);
    DistinctSplit3([head], p, t);
    assert i != 0 ==> t[0] == entry;
    assert head in [head] && list !in p && list !in t;
    assert p != [] ==> p[0] in p && p[|p| - 1] in p;
    assert t != [] ==> t[0] in t;
    assert p == [] ==> [list] + p == [list] && [head] + t == [head] + q;
    hide Ring, Seg, Distinct, At;
    if head.next == entry {
      assert p == [];
      InitListHead(list);
      return;
    }
    list.next := head.next;
    list.next.prev := list;
    list.prev := entry.prev;
    list.prev.next := list;
    head.next := entry;
    entry.prev := head;
    SegKept(p);
    if t != [] {
      SegKept(t);
    }
    RingJoin2(list, p);
    RingJoin2(head, t);
  }

  /** __list_splice: the entries p of list go between the pieces a and b of a ring. */
  method ListSpliceBetween(list: ListHead, prev: ListHead, next: ListHead,
                           ghost p: seq<ListHead>, ghost a: seq<ListHead>, ghost b: seq<ListHead>)
    requires Ring([list] + p) && p != [] && Ring(a + b) && a != [] && Apart([list] + p, a + b)
    requires prev == a[|a| - 1] && next == (if b == [] then a[0] else b[0])
    modifies p, prev, next
    ensures Ring(a + p + b) && unchanged(list)
  {
    RingSplit([list], p);
    RingSplit(a, b);
    DistinctSplit([list], p);
    DistinctSplit(a, b);
    assert list in [list] + p && forall x :: x in p ==> x in [list] + p;
    assert forall x :: x in a || x in b ==> x in a + b;
    assert p[0] in p && p[|p| - 1] in p && a[0] in a && a[|a| - 1] in a;
    assert b != [] ==> b[0] in b;
    assert Apart(a, p) && Apart(p, b) && list !in a + b && list !in p;
    hide Ring, Seg, Distinct, At;
    var first := list.next;
    var last := list.prev;
    first.prev := prev;
    prev.next := first;
    last.next := next;
    next.prev := last;
    SegKept(a);
    SegKept(p);
    if b != [] {
      SegKept(b);
    }
    RingJoin3(a, p, b);
  }

  method ListSplice(list: ListHead, head: ListHead, ghost p: seq<ListHead>, ghost q: seq<ListHead>)
    requires Ring([list] + p) && Ring([head] + q) && Apart([list] + p, [head] + q)
    modifies p, head, q
    ensures Ring([head] + p + q) && unchanged(list)
  {
    HeadLinks(list, p);
    HeadLinks(head, q);
    assert p == [] ==> [head] + p + q == [head] + q;
    hide Ring, At, Distinct;
    if !ListEmpty(list) {
      ListSpliceBetween(list, head, head.next, p, [head], q);
    }
  }

  method ListSpliceTail(list: ListHead, head: ListHead, ghost p: seq<ListHead>, ghost q: seq<ListHead>)
    requires Ring([list] + p) && Ring([head] + q) && Apart([list] + p, [head] + q)
    modifies p, head, q
    ensures Ring([head] + q + p) && unchanged(list)
  {
    HeadLinks(list, p);
    HeadLinks(head, q);
    assert p == [] ==> [head] + q + p == [head] + q;
    assert [head] + q + [] == [head] + q && [head] + q + p + [] == [head] + q + p;
    hide Ring, At, Distinct;
    if !ListEmpty(list) {
      ListSpliceBetween(list, head.prev, head, p, [head] + q, []);
    }
  }

  method ListSpliceInit(list: ListHead, head: ListHead, ghost p: seq<ListHead>, ghost q: seq<ListHead>)
    requires Ring([list] + p) && Ring([head] + q) && Apart([list] + p, [head] + q)
    modifies list, p, head, q
    ensures Ring([head] + p + q) && Ring([list])
  {
    HeadLinks(list, p);
    HeadLinks(head, q);
    assert p == [] ==> [head] + p + q == [head] + q && [list] + p == [list];
    assert list in [list] + p && list !in [head] + p + q;
    hide Ring, At, Distinct;
    if !ListEmpty(list) {
      ListSpliceBetween(list, head, head.next, p, [head], q);
      InitListHead(list);
    }
  }

  method ListSpliceTailInit(list: ListHead, head: ListHead, ghost p: seq<ListHead>, ghost q: seq<ListHead>)
    requires Ring([list] + p) && Ring([head] + q) && Apart([list] + p, [head] + q)
    modifies list, p, head, q
    ensures Ring([head] + q + p) && Ring([list])
  {
    HeadLinks(list, p);
    HeadLinks(head, q);
    assert p == [] ==> [head] + q + p == [head] + q && [list] + p == [list];
    assert [head] + q + [] == [head] + q && [head] + q + p + [] == [head] + q + p;
    assert list in [list] + p && list !in [head] + q + p;
    hide Ring, At, Distinct;
    if !ListEmpty(list) {
      ListSpliceBetween(list, head.prev, head, p, [head] + q, []);
      InitListHead(list);
    }
  }

  /** Cutting a list anywhere into an empty one and splicing it back restores every link. */
  method CutPositionThenSplice(list: ListHead, head: ListHead, entry: ListHead, ghost q: seq<ListHead>, ghost i: nat)
    requires Ring([head] + q) && Ring([list]) && list !in [head] + q && i <= |q| && entry == ([head] + q)[i]
    modifies list, head, q
    ensures forall x :: x in [head] + q ==> x.next == old(x.next) && x.prev == old(x.prev)
  {
    ListCutPosition(list, head, entry, q, i);
    CutApart(list, head, q, i);
    assert q == [] ==> [list] + q[..i] == [list] && [head] + q[i..] == [head] + q;
    ListSplice(list, head, q[..i], q[i..]);
    assert [head] + q[..i] + q[i..] == [head] + q;
    RingFixesLinks([head] + q);
  }

  method CutBeforeThenSplice(list: ListHead, head: ListHead, entry: ListHead, ghost q: seq<ListHead>, ghost i: nat)
    requires Ring([head] + q) && list !in [head] + q && i <= |q| && entry == ([head] + q)[i]
    modifies list, head, q
    ensures forall x :: x in [head] + q ==> x.next == old(x.next) && x.prev == old(x.prev)
  {
    ghost var k := CutBeforeCount(i, |q|);
    ListCutBefore(list, head, entry, q, i);
    CutApart(list, head, q, k);
    ListSplice(list, head, q[..k], q[k..]);
    assert [head] + q[..k] + q[k..] == [head] + q;
    RingFixesLinks([head] + q);
  }

  lemma CutApart<T>(list: T, head: T, q: seq<T>, k: nat)
    requires list !in [head] + q && k <= |q| && Distinct([head] + q)
    ensures Apart([list] + q[..k], [head] + q[k..])
  {
    assert [head] + q == [head] + q[..k] + q[k..];
    DistinctSplit3([head], q[..k], q[k..]);
  }

  // ---------- safe iteration ----------

  /** What is left of q when the nodes in gone have been removed. */
  ghost function Remaining<T>(q: seq<T>, gone: set<T>): (r: seq<T>)
    ensures |r| <= |q|
    decreases |q|
  {
    if q == [] then []
    else
      var last := q[|q| - 1];
      Remaining(q[..|q| - 1], gone) + if last in gone then [] else [last]
  }

  // The ring in the middle of the iteration, when the first i nodes have been visited, and
  // the position of the next one.
  ghost function Halfway<T>(head: T, q: seq<T>, gone: set<T>, i: nat): (s: seq<T>)
    requires i <= |q|
    ensures |s| == Behind(q, gone, i) + |q| - i
  {
    [head] + Remaining(q[..i], gone) + q[i..]
  }

  ghost function Behind<T>(q: seq<T>, gone: set<T>, i: nat): (k: nat)
    requires i <= |q|
    ensures k > 0
  {
    1 + |Remaining(q[..i], gone)|
  }

  // The node that is visited when i have been visited, and the head at the end.
  ghost function Visited<T>(head: T, q: seq<T>, i: nat): T {
    if i < |q| then q[i] else head
  }

  lemma HalfwayStep<T>(head: T, q: seq<T>, gone: set<T>, i: nat)
    requires i < |q|
    ensures var s, k := Halfway(head, q, gone, i), Behind(q, gone, i);
      && s[k] == q[i] && s[Succ(k, |s|)] == Visited(head, q, i + 1)
      && Halfway(head, q, gone, i + 1) == if q[i] in gone then Without(s, k) else s
  {
    assert q[..i + 1][..i] == q[..i];
    var r := Remaining(q[..i], gone);
    assert Remaining(q[..i + 1], gone) == if q[i] in gone then r else r + [q[i]];
    hide Remaining;
    var s := [head] + r + q[i..];
    assert s[..1 + |r|] == [head] + r && s[1 + |r| + 1..] == q[i + 1..];
    assert [head] + (r + [q[i]]) + q[i + 1..] == s;
  }

  lemma {:induction false} RemainingIn<T>(q: seq<T>, gone: set<T>)
    ensures forall x :: x in Remaining(q, gone) ==> x in q
    decreases |q|
  {
    if q != [] {
      RemainingIn(q[..|q| - 1], gone);
    }
  }

  lemma HalfwayIn<T>(head: T, q: seq<T>, gone: set<T>, i: nat)
    requires i <= |q|
    ensures forall x :: x in Halfway(head, q, gone, i) ==> x == head || x in q
  {
    RemainingIn(q[..i], gone);
  }

  lemma HalfwayEnds<T>(head: T, q: seq<T>, gone: set<T>)
    ensures Halfway(head, q, gone, 0) == [head] + q
    ensures Halfway(head, q, gone, |q|) == [head] + Remaining(q, gone)
  {
    assert q[..|q|] == q;
  }

  // The body of the loop below.
  method RemoveIf(pos: ListHead, gone: set<ListHead>, ghost s: seq<ListHead>, ghost k: nat)
    requires Ring(s) && k < |s| && |s| > 1 && pos == s[k]
    modifies pos`next, pos`prev, Maybe(pos.prev)`next, Maybe(pos.next)`prev
    ensures Ring(if pos in gone then Without(s, k) else s)
  {
    hide Ring, Without;
    if pos in gone {
      ListDelInit(pos, s, k);
    }
  }

  /** list_for_each_safe with a body that removes the nodes in gone: every node is visited,
      once and in order, and exactly the others are left, in order. */
  method ListForEachSafe(head: ListHead, gone: set<ListHead>, ghost q: seq<ListHead>) returns (visited: seq<ListHead>)
    requires Ring([head] + q)
    modifies head, q
    ensures visited == q && Ring([head] + Remaining(q, gone))
  {
    HalfwayEnds(head, q, gone);
    DistinctSplit([head], q);
    assert head !in q && q[..|q|] == q && ([head] + q)[Succ(0, 1 + |q|)] == Visited(head, q, 0);
    Neighbours([head] + q, 0);
    Neighbours([head] + q, Succ(0, 1 + |q|));
    hide *;
    visited := [];
    var pos := head.next;
    var n := pos.next;
    while pos != head
      invariant |visited| <= |q| && visited == q[..|visited|]
      invariant Ring(Halfway(head, q, gone, |visited|))
      invariant pos == Visited(head, q, |visited|) && n == pos.next
      decreases |q| - |visited|
    {
      ghost var i := |visited|;
      ghost var s, k := Halfway(head, q, gone, i), Behind(q, gone, i);
      VisitedIs(head, q, i);
      HalfwayStep(head, q, gone, i);
      HalfwayIn(head, q, gone, i);
      Neighbours(s, k);
      assert n == Visited(head, q, i + 1) && pos.prev in s && pos.next in s;
      RemoveIf(pos, gone, s, k);
      visited := visited + [pos];
      assert visited == q[..i + 1] && Ring(Halfway(head, q, gone, i + 1));
      pos := n;
      n := pos.next;
    }
    VisitedIs(head, q, |visited|);
  }

  lemma VisitedIs<T>(head: T, q: seq<T>, i: nat)
    requires i <= |q| && head !in q
    ensures i < |q| ==> Visited(head, q, i) == q[i] != head
    ensures i == |q| ==> Visited(head, q, i) == head
  {
  }
}
