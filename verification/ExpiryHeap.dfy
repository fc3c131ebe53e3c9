/**
The heap order of Go's container/heap on plain expiry instants: what one exchange does to it. The
order is stated edge by edge, an edge being a position and its parent.
*/
module HeapOrder {
  function Parent(k: int): int
    requires k > 0
  {
    (k - 1) / 2
  }

  predicate Edge(t: seq<int>, k: int)
    requires 0 < k < |t|
  {
    t[Parent(k)] <= t[k]
  }

  /** Every edge among the first n positions is in order. */
  ghost predicate Ordered(t: seq<int>, n: int)
    requires n <= |t|
  {
    forall k :: 0 < k < n ==> Edge(t, k)
  }

  ghost predicate ChildrenOrdered(t: seq<int>, i: int, n: int)
    requires n <= |t|
  {
    forall k {:trigger Edge(t, k)} :: 0 < k < n && Parent(k) == i ==> Edge(t, k)
  }

  /** The position k expires no earlier than its grandparent. */
  predicate GrandEdge(t: seq<int>, k: int)
    requires 0 < k < |t| && 0 < Parent(k)
  {
    t[Parent(Parent(k))] <= t[k]
  }

  /** Only the edges that touch i may be out of order, and its children respect its parent. */
  ghost predicate OrderedAround(t: seq<int>, i: int, n: int)
    requires n <= |t|
  {
    && (forall k {:trigger Edge(t, k)} :: 0 < k < n && k != i && Parent(k) != i ==> Edge(t, k))
    && (forall k {:trigger GrandEdge(t, k)} :: 0 < k < n && Parent(k) == i && 0 < i ==> GrandEdge(t, k))
  }

  function Exchanged(t: seq<int>, i: int, j: int): seq<int>
    requires 0 <= i < |t| && 0 <= j < |t|
  {
    t[i := t[j]][j := t[i]]
  }

  lemma UpStep(t: seq<int>, j: int, n: int)
    requires 0 < j < n <= |t| && OrderedAround(t, j, n) && ChildrenOrdered(t, j, n) && !Edge(t, j)
    ensures OrderedAround(Exchanged(t, Parent(j), j), Parent(j), n)
    ensures ChildrenOrdered(Exchanged(t, Parent(j), j), Parent(j), n)
  {
    var p := Parent(j);
    var after := Exchanged(t, p, j);
    forall k | 0 < k < n && k != p ensures Edge(after, k) {
      assert k != j && Parent(k) != j ==> Edge(t, k);
      if Parent(k) == j {
        assert GrandEdge(t, k);
      }
    }
    forall k | 0 < k < n && Parent(k) == p && 0 < p ensures GrandEdge(after, k) {
      assert Edge(t, p);
      assert k != j ==> Edge(t, k);
    }
  }

  lemma UpStop(t: seq<int>, j: int, n: int)
    requires 0 <= j < n <= |t| && OrderedAround(t, j, n) && ChildrenOrdered(t, j, n)
    requires j == 0 || Edge(t, j)
    ensures Ordered(t, n)
  {
  }

  /** The child the sift goes down to: the left one unless the right one is strictly earlier. */
  predicate EarlierChild(t: seq<int>, i: int, j: int, n: int)
    requires n <= |t|
  {
    && 0 <= i < j < n && Parent(j) == i
    && forall k {:trigger t[k]} :: 0 < k < n && Parent(k) == i ==> t[j] <= t[k]
  }

  lemma DownStep(t: seq<int>, i: int, j: int, n: int)
    requires n <= |t| && EarlierChild(t, i, j, n) && OrderedAround(t, i, n) && t[j] < t[i]
    ensures OrderedAround(Exchanged(t, i, j), j, n) && Edge(Exchanged(t, i, j), j)
  {
    var after := Exchanged(t, i, j);
    forall k | 0 < k < n && k != j && Parent(k) != j ensures Edge(after, k) {
      if k == i {
        assert GrandEdge(t, j);
      } else if Parent(k) != i {
        assert Edge(t, k);
      }
    }
    forall k | 0 < k < n && Parent(k) == j ensures GrandEdge(after, k) {
      assert Edge(t, k);
    }
  }

  lemma DownStop(t: seq<int>, i: int, n: int)
    requires 0 <= i < n <= |t| && OrderedAround(t, i, n) && ChildrenOrdered(t, i, n)
    requires 0 < i && Edge(t, i)
    ensures Ordered(t, n)
  {
  }

  /** The choice the sift makes between its children, and when it may stop there. */
  lemma ChooseChild(t: seq<int>, i: int, j: int, n: int)
    requires 0 <= i && 2 * i + 1 < n <= |t|
    requires j == if 2 * i + 2 < n && t[2 * i + 2] < t[2 * i + 1] then 2 * i + 2 else 2 * i + 1
    ensures EarlierChild(t, i, j, n)
    ensures t[i] <= t[j] ==> ChildrenOrdered(t, i, n)
  {
    forall k | 0 < k && Parent(k) == i ensures k == 2 * i + 1 || k == 2 * i + 2 {}
  }

  /** An ordered heap with one instant replaced is ordered around that place. */
  lemma ReplaceOne(t: seq<int>, u: seq<int>, i: int, n: int)
    requires n <= |t| && n <= |u| && Ordered(t, n)
    requires forall k :: 0 <= k < n && k != i ==> t[k] == u[k]
    ensures OrderedAround(u, i, n)
  {
    forall k | 0 < k < n && k != i && Parent(k) != i ensures Edge(u, k) {
      assert Edge(t, k);
    }
    forall k | 0 < k < n && Parent(k) == i && 0 < i ensures GrandEdge(u, k) {
      assert Edge(t, k) && Edge(t, i);
    }
  }

  lemma OrderedPrefix(t: seq<int>, u: seq<int>, n: int)
    requires n <= |t| && n <= |u| && Ordered(t, n)
    requires forall k :: 0 <= k < n ==> t[k] == u[k]
    ensures Ordered(u, n)
  {
    forall k | 0 < k < n ensures Edge(u, k) {
      assert Edge(t, k);
    }
  }

  /** In an ordered heap the root is the earliest. */
  lemma {:induction false} RootIsEarliest(t: seq<int>, k: int)
    requires 0 <= k < |t| && Ordered(t, |t|)
    ensures t[0] <= t[k]
    decreases k
  {
    if k > 0 {
      assert Edge(t, k);
      RootIsEarliest(t, Parent(k));
    }
  }
}

/**
The binary min-heap on expiry instants (internal/cache/lru.go): Less, Swap, Push and Pop as the
repository writes them, and the sift loops of Go's container/heap that drive them. Every method says
exactly which entries the heap then holds, that the heap order stands, and that each entry still
knows its own place.
*/
module ExpiryHeap {
  import opened HeapOrder

  /** An element of Go's container/list; its value is an entry, and the entry points back. */
  class Element<K, V> {
    const item: Entry<K, V>

    constructor (item: Entry<K, V>)
      ensures this.item == item
    {
      this.item := item;
    }
  }

  class Entry<K, V> {
    const key: K
    var value: V
    var expiresAt: int
    var element: Element?<K, V>
    var heapIndex: int

    constructor (key: K, value: V, expiresAt: int)
      ensures this.key == key && this.value == value && this.expiresAt == expiresAt && element == null
    {
      this.key, this.value, this.expiresAt := key, value, expiresAt;
      element, heapIndex := null, 0;
    }
  }

  class Heap<K, V> {
    var items: seq<Entry<K, V>>

    constructor ()
      ensures items == []
    {
      items := [];
    }

    /** Every entry knows its own index; in particular no entry occurs twice. */
    ghost predicate Indexed()
      reads this, items
    {
      forall i :: 0 <= i < |items| ==> items[i].heapIndex == i
    }

    /** The expiry instants in heap positions. */
    ghost function Times(): (t: seq<int>)
      reads this, items
      ensures |t| == |items| && forall i :: 0 <= i < |items| ==> t[i] == items[i].expiresAt
    {
      seq(|items|, i requires 0 <= i < |items| reads this, items => items[i].expiresAt)
    }

    ghost predicate Valid()
      reads this, items
    {
      Indexed() && Ordered(Times(), |items|)
    }

    ghost function Entries(): set<Entry<K, V>>
      reads this
    {
      set x | x in items
    }

    predicate Less(first: int, second: int)
      requires 0 <= first < |items| && 0 <= second < |items|
      reads this, items
    {
      items[first].expiresAt < items[second].expiresAt
    }

    method Swap(first: int, second: int)
      requires Indexed() && 0 <= first < |items| && 0 <= second < |items|
      modifies this, Entries()`heapIndex
      ensures Indexed()
      ensures items == old(items)[first := old(items)[second]][second := old(items)[first]]
      ensures Entries() == old(Entries()) && Times() == Exchanged(old(Times()), first, second)
    {
      ghost var before := items;
      items := items[first := items[second]][second := items[first]];
      items[first].heapIndex := first;
      items[second].heapIndex := second;
      forall x | x in before ensures x in items {
        var i :| 0 <= i < |before| && before[i] == x;
        assert items[if i == first then second else if i == second then first else i] == x;
      }
    }

    method Push(item: Entry<K, V>)
      requires Indexed() && item !in items
      modifies this, item`heapIndex
      ensures Indexed() && items == old(items) + [item]
    {
      item.heapIndex := |items|;
      items := items + [item];
    }

    method Pop() returns (item: Entry<K, V>)
      requires Indexed() && items != []
      modifies this, Entries()`heapIndex
      ensures items == old(items)[..|old(items)| - 1] && item == old(items)[|old(items)| - 1]
      ensures Indexed() && item.heapIndex == -1 && Entries() == old(Entries()) - {item}
      ensures Ordered(old(Times()), |items|) ==> Ordered(Times(), |items|)
    {
      ghost var before := items;
      ghost var t := Times();
      var last := |items| - 1;
      item := items[last];
      item.heapIndex := -1;
      items := items[..last];
      assert before == items + [item];
      if Ordered(t, last) {
        OrderedPrefix(t, Times(), last);
      }
    }

    /** container/heap up: sift the entry at j0 towards the root. Only the first n entries are looked at. */
    method Up(j0: int, n: int)
      requires Indexed() && 0 <= j0 < n <= |items|
      requires OrderedAround(Times(), j0, n) && ChildrenOrdered(Times(), j0, n)
      modifies this, Entries()`heapIndex
      ensures Indexed() && Entries() == old(Entries()) && |items| == |old(items)|
      ensures Ordered(Times(), n) && items[n..] == old(items)[n..]
    {
      var j := j0;
      while j != 0
        invariant Indexed() && 0 <= j < n <= |items| && |items| == |old(items)|
        invariant Entries() == old(Entries()) && items[n..] == old(items)[n..]
        invariant OrderedAround(Times(), j, n) && ChildrenOrdered(Times(), j, n)
        decreases j
      {
        var parent := (j - 1) / 2;
        if !Less(j, parent) {
          break;
        }
        UpStep(Times(), j, n);
        Swap(parent, j);
        j := parent;
      }
      UpStop(Times(), j, n);
    }

    /** The child container/heap down compares with i: the right one only when it is strictly earlier. */
    method ChildToFollow(i: int, n: int) returns (j: int)
      requires 0 <= i && 2 * i + 1 < n <= |items|
      ensures EarlierChild(Times(), i, j, n)
      ensures Times()[i] <= Times()[j] ==> ChildrenOrdered(Times(), i, n)
    {
      j := 2 * i + 1;
      if j + 1 < n && Less(j + 1, j) {
        j := j + 1;
      }
      ChooseChild(Times(), i, j, n);
    }

    /** container/heap down: sift the entry at i0 towards the leaves of the first n entries. */
    method Down(i0: int, n: int) returns (moved: bool)
      requires Indexed() && 0 <= i0 < n <= |items| && OrderedAround(Times(), i0, n)
      modifies this, Entries()`heapIndex
      ensures Indexed() && Entries() == old(Entries()) && |items| == |old(items)|
      ensures items[n..] == old(items)[n..]
      ensures moved ==> Ordered(Times(), n)
      ensures !moved ==> items == old(items) && Times() == old(Times()) && ChildrenOrdered(Times(), i0, n)
    {
      var i := i0;
      moved := false;
      while 2 * i + 1 < n
        invariant Indexed() && i0 <= i < n <= |items| && |items| == |old(items)|
        invariant Entries() == old(Entries()) && items[n..] == old(items)[n..]
        invariant OrderedAround(Times(), i, n) && moved == (i > i0)
        invariant if moved then Edge(Times(), i) else items == old(items)
        decreases n - i
      {
        var j := ChildToFollow(i, n);
        if !Less(j, i) {
          break;
        }
        DownStep(Times(), i, j, n);
        Swap(i, j);
        i, moved := j, true;
      }
      if moved {
        DownStop(Times(), i, n);
      }
    }

    /** Sift the entry at i whichever way it has to go, among the first n entries. */
    method Sift(i: int, n: int)
      requires Indexed() && 0 <= i < n <= |items| && OrderedAround(Times(), i, n)
      modifies this, Entries()`heapIndex
      ensures Indexed() && Entries() == old(Entries()) && |items| == |old(items)|
      ensures Ordered(Times(), n) && items[n..] == old(items)[n..]
    {
      var moved := Down(i, n);
      if !moved {
        Up(i, n);
      }
    }

    /** container/heap Fix: restore the order after the entry at i changed its expiry. */
    method Fix(i: int)
      requires Indexed() && 0 <= i < |items| && OrderedAround(Times(), i, |items|)
      modifies this, Entries()`heapIndex
      ensures Valid() && Entries() == old(Entries()) && |items| == |old(items)|
    {
      Sift(i, |items|);
    }

    /** container/heap Push. */
    method Insert(item: Entry<K, V>)
      requires Valid() && item !in items
      modifies this, item`heapIndex, Entries()`heapIndex
      ensures Valid() && Entries() == old(Entries()) + {item} && |items| == |old(items)| + 1
    {
      ghost var before := Times();
      Push(item);
      assert forall x :: x in items <==> x in old(items) || x == item;
      OrderedPrefix(before, Times(), |items| - 1);
      ReplaceOne(Times(), Times(), |items| - 1, |items| - 1);
      Up(|items| - 1, |items|);
    }

    /** container/heap Remove. */
    method Remove(i: int) returns (item: Entry<K, V>)
      requires Valid() && 0 <= i < |items|
      modifies this, Entries()`heapIndex
      ensures Valid() && item == old(items)[i] && Entries() == old(Entries()) - {item}
      ensures |items| == |old(items)| - 1
    {
      var n := |items| - 1;
      ghost var removed := items[i];
      ghost var t := Times();
      OrderedPrefix(t, t, n);
      if n != i {
        Swap(i, n);
        ReplaceOne(t, Times(), i, n);
        Sift(i, n);
      }
      assert items[n] == removed by { assert items[n..][0] == removed; }
      item := Pop();
    }
  }
}
