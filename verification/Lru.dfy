/**
The bounded cache of internal/cache/lru.go: a hash map of keys, a recency list and a min-heap on
expiry, tied together by the back-pointers of the entries. Valid says the three agree; Contents is
what they jointly represent. Each method is proved to take exactly the lazy machine's step on it.
*/
module Lru {
  import opened Common
  import opened CacheSpec
  import opened ClockShape
  import opened HeapOrder
  import opened ExpiryHeap

  /** TTLForResult: successful empty results live for the negative TTL, the others for the positive one. */
  function TTLForResult(empty: bool, positiveTTL: int, negativeTTL: int): int {
    if empty then negativeTTL else positiveTTL
  }

  // ---------- the list and the map as values ----------

  ghost function Items<K, V>(recency: seq<Element<K, V>>): set<Entry<K, V>> {
    set e | e in recency :: e.item
  }

  /** No key occurs twice in the list, and the map leads from each key to its element and nowhere else. */
  ghost predicate Keyed<K, V>(recency: seq<Element<K, V>>, entries: map<K, Element<K, V>>) {
    && (forall i, j :: 0 <= i < j < |recency| ==> recency[i].item.key != recency[j].item.key)
    && (forall i :: 0 <= i < |recency| ==>
         recency[i].item.key in entries && entries[recency[i].item.key] == recency[i])
    && (forall k :: k in entries ==> entries[k] in recency && entries[k].item.key == k)
  }

  lemma KeyedWithout<K, V>(recency: seq<Element<K, V>>, entries: map<K, Element<K, V>>, i: nat)
    requires Keyed(recency, entries) && i < |recency|
    ensures Keyed(recency[..i] + recency[i + 1..], entries - {recency[i].item.key})
    ensures Items(recency[..i] + recency[i + 1..]) == Items(recency) - {recency[i].item}
  {
    var rest := recency[..i] + recency[i + 1..];
    assert forall j :: 0 <= j < |rest| ==> rest[j] == recency[if j < i then j else j + 1];
    forall j | 0 <= j < |recency| && j != i ensures recency[j] in rest {
      assert recency[j] == rest[if j < i then j else j - 1];
    }
    forall x | x in Items(recency) && x != recency[i].item ensures x in Items(rest) {
      var e :| e in recency && e.item == x;
      assert e in rest;
    }
  }

  lemma KeyedPromoted<K, V>(recency: seq<Element<K, V>>, entries: map<K, Element<K, V>>, i: nat)
    requires Keyed(recency, entries) && i < |recency|
    ensures Keyed([recency[i]] + (recency[..i] + recency[i + 1..]), entries)
    ensures Items([recency[i]] + (recency[..i] + recency[i + 1..])) == Items(recency)
  {
    var rest := recency[..i] + recency[i + 1..];
    KeyedWithout(recency, entries, i);
    KeyedPushed(rest, entries - {recency[i].item.key}, recency[i]);
    assert entries == (entries - {recency[i].item.key})[recency[i].item.key := recency[i]];
  }

  lemma KeyedPushed<K, V>(recency: seq<Element<K, V>>, entries: map<K, Element<K, V>>, e: Element<K, V>)
    requires Keyed(recency, entries) && e.item.key !in entries
    ensures Keyed([e] + recency, entries[e.item.key := e])
    ensures Items([e] + recency) == Items(recency) + {e.item}
  {
    forall j | 0 <= j < |recency| ensures recency[j] in [e] + recency {
      assert ([e] + recency)[j + 1] == recency[j];
    }
    forall x | x in Items(recency) ensures x in Items([e] + recency) {
      var f :| f in recency && f.item == x;
      assert f in [e] + recency;
    }
  }

  // ---------- the cells they represent ----------

  ghost function CellOf<K, V>(item: Entry<K, V>): Cell<K, V>
    reads item`value, item`expiresAt
  {
    Cell(item.key, item.value, item.expiresAt)
  }

  ghost function CellsOf<K, V>(recency: seq<Element<K, V>>): (cells: Cells<K, V>)
    reads Items(recency)`value, Items(recency)`expiresAt
    ensures |cells| == |recency| && forall i :: 0 <= i < |cells| ==> cells[i] == CellOf(recency[i].item)
  {
    if recency == [] then []
    else
      assert forall e :: e in recency[1..] ==> e in recency;
      [CellOf(recency[0].item)] + CellsOf(recency[1..])
  }

  /** Looking a key up in the map is looking its cell up in the list. */
  lemma KeyedFinds<K, V>(recency: seq<Element<K, V>>, entries: map<K, Element<K, V>>, key: K)
    requires Keyed(recency, entries)
    ensures DistinctKeys(CellsOf(recency))
    ensures key !in entries ==> Find(CellsOf(recency), key) == None
    ensures key in entries ==> entries[key] in recency && entries[key].item.key == key
    ensures key in entries ==> Find(CellsOf(recency), key) == Some(CellOf(entries[key].item))
  {
    var cells := CellsOf(recency);
    DistinctByIndex(cells);
    FindMember(cells, key);
    if key in entries {
      var i :| 0 <= i < |recency| && recency[i] == entries[key];
      WithoutAt(cells, i);
    }
  }

  lemma CellsCut<K, V>(recency: seq<Element<K, V>>, i: nat)
    requires i < |recency|
    ensures CellsOf(recency[..i] + recency[i + 1..]) == CellsOf(recency)[..i] + CellsOf(recency)[i + 1..]
  {
    hide CellsOf;
    var rest := recency[..i] + recency[i + 1..];
    var cells := CellsOf(recency);
    forall j | 0 <= j < |rest| ensures CellsOf(rest)[j] == (cells[..i] + cells[i + 1..])[j] {
      assert rest[j] == recency[if j < i then j else j + 1];
    }
  }

  lemma CellsWithout<K, V>(recency: seq<Element<K, V>>, entries: map<K, Element<K, V>>, i: nat)
    requires Keyed(recency, entries) && i < |recency|
    ensures CellsOf(recency[..i] + recency[i + 1..]) == Without(CellsOf(recency), recency[i].item.key)
  {
    hide Keyed;
    KeyedFinds(recency, entries, recency[i].item.key);
    CellsCut(recency, i);
    WithoutAt(CellsOf(recency), i);
  }

  lemma CellsPushed<K, V>(recency: seq<Element<K, V>>, e: Element<K, V>)
    ensures CellsOf([e] + recency) == [CellOf(e.item)] + CellsOf(recency)
  {
    assert ([e] + recency)[1..] == recency;
  }

  class LRU<K(==, !new), V(!new)> {
    const maxEntries: nat
    const expiry: Heap<K, V>
    var entries: map<K, Element<K, V>>
    var recency: seq<Element<K, V>>

    ghost function Footprint(): set<object>
      reads this, expiry
    {
      {this, expiry} + expiry.Entries() + Items(recency)
    }

    /** Map, list and heap hold the same entries, and every back-pointer is right. */
    ghost predicate Linked()
      reads this, expiry, Footprint()
    {
      && maxEntries > 0
      && Keyed(recency, entries)
      && expiry.Valid()
      && expiry.Entries() == Items(recency)
      && forall i :: 0 <= i < |recency| ==> recency[i].item.element == recency[i]
    }

    ghost predicate Valid()
      reads this, expiry, Footprint()
    {
      Linked() && |recency| <= maxEntries
    }

    /** The cells in recency order. */
    ghost function Contents(): Cells<K, V>
      reads this, Items(recency)`value, Items(recency)`expiresAt
    {
      CellsOf(recency)
    }

    constructor (maxEntries: nat)
      requires maxEntries > 0
      ensures Valid() && fresh(Footprint())
      ensures Contents() == [] && this.maxEntries == maxEntries
    {
      this.maxEntries := maxEntries;
      expiry := new Heap();
      entries := map[];
      recency := [];
    }

    method Get(key: K, now: int) returns (found: Option<V>)
      requires Valid()
      modifies Footprint()
      ensures Valid() && fresh(Footprint() - old(Footprint()))
      ensures var (after, answer) := LazyStep(old(Contents()), maxEntries, Op.Get(key), now);
              Contents() == after && answer == if found.Some? then Found(found.value) else Missing
    {
      hide Keyed, Items, CellsOf, Live, Without, DistinctKeys, Heap.Valid;
      KeyedFinds(recency, entries, key);
      if key !in entries {
        return None;
      }
      var element := entries[key];
      var item := element.item;
      if !(now < item.expiresAt) {
        Unlink(element);
        return None;
      }
      MoveToFront(element);
      return Some(item.value);
    }

    method Set(key: K, value: V, ttl: int, now: int)
      requires Valid()
      modifies Footprint()
      ensures Valid() && fresh(Footprint() - old(Footprint()))
      ensures Contents() == LazyStep(old(Contents()), maxEntries, Op.Set(key, value, ttl), now).0
    {
      hide Keyed, CellsOf, Live, Without, DistinctKeys, Heap.Valid;
      KeyedFinds(recency, entries, key);
      if ttl <= 0 {
        Delete(key);
        return;
      }
      var expiresAt := now + ttl;
      if key in entries {
        Refresh(entries[key], value, expiresAt);
      } else {
        PushFront(key, value, expiresAt);
        if |recency| > maxEntries {
          Evict(now);
        }
      }
    }

    method Delete(key: K)
      requires Valid()
      modifies Footprint()
      ensures Valid() && Footprint() <= old(Footprint())
      ensures Contents() == Without(old(Contents()), key)
    {
      hide Keyed, Items, CellsOf, Live, Without, DistinctKeys, Heap.Valid;
      KeyedFinds(recency, entries, key);
      if key in entries {
        Unlink(entries[key]);
      } else {
        WithoutFacts(Contents(), key);
      }
    }

    method Len(now: int) returns (n: nat)
      requires Valid()
      modifies Footprint()
      ensures Valid() && Footprint() <= old(Footprint())
      ensures (Contents(), Size(n)) == LazyStep(old(Contents()), maxEntries, Op.Len, now)
    {
      hide Keyed, Items, CellsOf, Live, Without, DistinctKeys, Heap.Valid;
      LiveShrinks(Contents(), now);
      RemoveExpired(now);
      n := |recency|;
    }

    /** remove: take one element out of all three structures. */
    method Unlink(element: Element<K, V>)
      requires Linked() && element in recency
      modifies this, expiry, expiry.Entries()`heapIndex
      ensures Linked() && Footprint() <= old(Footprint())
      ensures expiry.Entries() == old(expiry.Entries()) - {element.item}
      ensures Contents() == Without(old(Contents()), element.item.key) && |recency| == |old(recency)| - 1
    {
      hide Keyed, Items, CellsOf, Live, Without, DistinctKeys, Heap.Valid;
      var item := element.item;
      var i :| 0 <= i < |recency| && recency[i] == element;
      CellsWithout(recency, entries, i);
      KeyedWithout(recency, entries, i);
      ghost var at := PlaceOf(element);
      entries := entries - {item.key};
      recency := recency[..i] + recency[i + 1..];
      var removed := expiry.Remove(item.heapIndex);
    }

    /** Where the heap holds an element of the list. */
    ghost function PlaceOf(element: Element<K, V>): (i: int)
      requires Linked() && element in recency
      reads this, expiry, Footprint()
      ensures i == element.item.heapIndex && 0 <= i < |expiry.items| && expiry.items[i] == element.item
    {
      assert element.item in expiry.Entries();
      element.item.heapIndex
    }

    /** list.MoveToFront. */
    method MoveToFront(element: Element<K, V>)
      requires Linked() && element in recency
      modifies this`recency
      ensures Linked() && Footprint() == old(Footprint()) && |recency| == |old(recency)|
      ensures Contents() == [CellOf(element.item)] + Without(old(Contents()), element.item.key)
    {
      hide Keyed, Items, CellsOf, Live, Without, DistinctKeys, Heap.Valid;
      var i :| 0 <= i < |recency| && recency[i] == element;
      CellsWithout(recency, entries, i);
      CellsPushed(recency[..i] + recency[i + 1..], element);
      KeyedPromoted(recency, entries, i);
      recency := [element] + (recency[..i] + recency[i + 1..]);
    }

    /** removeExpired looks at the heap root only, and yet removes every expired entry and no live one. */
    method RemoveExpired(now: int)
      requires Linked()
      modifies this, expiry, expiry.Entries()`heapIndex
      ensures Linked() && Footprint() <= old(Footprint())
      ensures Contents() == Live(old(Contents()), now)
    {
      hide Keyed, Items, CellsOf, Live, Without, DistinctKeys, Heap.Valid;
      while expiry.items != [] && !(now < expiry.items[0].expiresAt)
        invariant Linked() && Footprint() <= old(Footprint())
        invariant expiry.Entries() <= old(expiry.Entries())
        invariant Live(Contents(), now) == Live(old(Contents()), now)
        decreases |recency|
      {
        var element := RootElement();
        KeyedFinds(recency, entries, element.item.key);
        ExpiredIsNotMissed(Contents(), element.item.key, now);
        Unlink(element);
      }
      AllLive(now);
      LiveShrinks(Contents(), now);
    }

    /** The list element of the heap root, by its back-pointer. */
    method RootElement() returns (element: Element<K, V>)
      requires Linked() && expiry.items != []
      ensures element in recency && element.item == expiry.items[0]
      ensures element.item.key in entries && entries[element.item.key] == element
    {
      assert expiry.items[0] in expiry.Entries();
      element := expiry.items[0].element;
    }

    lemma AllLive(now: int)
      requires Linked() && (expiry.items == [] || now < expiry.items[0].expiresAt)
      ensures forall i :: 0 <= i < |recency| ==> Contents()[i].LiveAt(now)
    {
      forall i | 0 <= i < |recency| ensures Contents()[i].LiveAt(now) {
        var k := PlaceOf(recency[i]);
        RootIsEarliest(expiry.Times(), k);
      }
    }

    /** The eviction in Set: the expired entries go first, and only then the least recently used one. */
    method Evict(now: int)
      requires Linked() && |recency| == maxEntries + 1
      modifies this, expiry, expiry.Entries()`heapIndex
      ensures Valid() && Footprint() <= old(Footprint())
      ensures Contents() == Overflow(old(Contents()), maxEntries, now)
    {
      hide Keyed, Items, CellsOf, Live, Without, DistinctKeys, Heap.Valid;
      LiveShrinks(Contents(), now);
      RemoveExpired(now);
      if |recency| > maxEntries {
        var last := |recency| - 1;
        KeyedFinds(recency, entries, recency[last].item.key);
        WithoutAt(Contents(), last);
        assert Contents()[..last] + Contents()[last + 1..] == Contents()[..last];
        assert forall x :: x in expiry.items <==> x in expiry.Entries();
        Unlink(recency[last]);
      }
    }

    /** heap.Fix after the entry's expiry changed: the heap stays valid and keeps its entries. */
    method Retime(item: Entry<K, V>, value: V, expiresAt: int)
      requires expiry.Valid() && item in expiry.items
      modifies expiry, item, expiry.Entries()`heapIndex
      ensures expiry.Valid() && expiry.Entries() == old(expiry.Entries())
      ensures item.value == value && item.expiresAt == expiresAt && item.element == old(item.element)
    {
      ghost var t := expiry.Times();
      item.value := value;
      item.expiresAt := expiresAt;
      ReplaceOne(t, expiry.Times(), item.heapIndex, |t|);
      expiry.Fix(item.heapIndex);
    }

    /** The branch of Set for a key that is present, expired or not. */
    method Refresh(element: Element<K, V>, value: V, expiresAt: int)
      requires Linked() && element in recency
      modifies this`recency, expiry, element.item, expiry.Entries()`heapIndex
      ensures Linked() && Footprint() == old(Footprint()) && |recency| == |old(recency)|
      ensures Contents() == [Cell(element.item.key, value, expiresAt)]
                          + Without(old(Contents()), element.item.key)
    {
      hide Keyed, Items, CellsOf, Live, Without, DistinctKeys, Heap.Valid;
      ghost var i :| 0 <= i < |recency| && recency[i] == element;
      ghost var rest := recency[..i] + recency[i + 1..];
      ghost var at := PlaceOf(element);
      KeyedWithout(recency, entries, i);
      CellsWithout(recency, entries, i);
      Retime(element.item, value, expiresAt);
      assert CellsOf(rest) == old(CellsOf(rest));
      CellsWithout(recency, entries, i);
      MoveToFront(element);
    }

    /** The branch of Set for an absent key, before anything is evicted. */
    method PushFront(key: K, value: V, expiresAt: int)
      requires Linked() && key !in entries
      modifies this, expiry, expiry.Entries()`heapIndex
      ensures Linked() && fresh(Footprint() - old(Footprint())) && |recency| == |old(recency)| + 1
      ensures Contents() == [Cell(key, value, expiresAt)] + old(Contents())
    {
      hide Keyed, Items, CellsOf, Live, Without, DistinctKeys, Heap.Valid;
      var item := new Entry(key, value, expiresAt);
      var element := new Element(item);
      KeyedPushed(recency, entries, element);
      CellsPushed(recency, element);
      recency := [element] + recency;
      item.element := element;
      entries := entries[key := element];
      expiry.Insert(item);
    }
  }

  /** Unlinking an expired cell loses no live one. */
  lemma ExpiredIsNotMissed<K, V>(cells: Cells<K, V>, key: K, now: int)
    requires DistinctKeys(cells) && Find(cells, key).Some? && !Find(cells, key).value.LiveAt(now)
    ensures Live(Without(cells, key), now) == Live(cells, now)
  {
    LiveWithoutCommute(cells, key, now);
    FindLive(cells, key, now);
    WithoutFacts(Live(cells, now), key);
  }

  /**
  A whole run against a fresh cache: map, list and heap together answer every operation as the
  reference cache does, which purges before each operation and evicts only live cells. The clock need
  only be without a peak, which is exactly what it takes.
  */
  method Replay<K(==, !new), V(!new)>(maxEntries: nat, ops: seq<Timed<K, V>>) returns (answers: seq<Answer<V>>)
    requires maxEntries > 0 && NoPeak(Instants(ops))
    ensures answers == EagerRun([], maxEntries, ops)
  {
    hide LazyStep, EagerStep, LazyRun, EagerRun, Live, LRU.Valid, LRU.Contents;
    var cache := new LRU<K, V>(maxEntries);
    answers := [];
    NoOperations<K, V>([], maxEntries);
    assert ops[0..] == ops;
    for i := 0 to |ops|
      invariant cache.Valid() && fresh(cache.Footprint()) && cache.maxEntries == maxEntries
      invariant answers + LazyRun(cache.Contents(), maxEntries, ops[i..]) == LazyRun([], maxEntries, ops)
    {
      LazyRunTail(cache.Contents(), maxEntries, ops, i);
      var answer := Perform(cache, ops[i].op, ops[i].now);
      ghost var rest := LazyRun(cache.Contents(), maxEntries, ops[i + 1..]);
      assert answers + ([answer] + rest) == answers + [answer] + rest;
      answers := answers + [answer];
    }
    assert ops[|ops|..] == [];
    NoOperations(cache.Contents(), maxEntries);
    assert answers == LazyRun([], maxEntries, ops);
    RunsWithoutPeakAgree(maxEntries, ops);
  }

  method Perform<K(==, !new), V(!new)>(cache: LRU<K, V>, op: Op<K, V>, now: int) returns (answer: Answer<V>)
    requires cache.Valid()
    modifies cache.Footprint()
    ensures cache.Valid() && fresh(cache.Footprint() - old(cache.Footprint()))
    ensures (cache.Contents(), answer) == LazyStep(old(cache.Contents()), cache.maxEntries, op, now)
  {
    hide Live, Without, Find, Overflow;
    answer := Done;
    match op {
      case Get(key) =>
        var found := cache.Get(key, now);
        answer := if found.Some? then Found(found.value) else Missing;
      case Set(key, value, ttl) => cache.Set(key, value, ttl, now);
      case Delete(key) => cache.Delete(key);
      case Len =>
        var n := cache.Len(now);
        answer := Size(n);
    }
  }
}
