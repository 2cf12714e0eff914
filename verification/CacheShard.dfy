/** One cache shard: a map and an intrusive doubly linked list over the same entries,
    updated in place, proved to refine the recency list of module Recency. */
module CacheShard {
  import opened Recency
  import CacheKey
  import CacheTtl

  /** A cached response with its intrusive list links. */
  class Entry<K(!new)> {
    const item: Item<K>
    const message: CacheTtl.Message?
    var touched: bool
    var prev: Entry?<K>
    var next: Entry?<K>

    constructor (item: Item<K>, message: CacheTtl.Message?)
      requires item.hasMessage <==> message != null
      ensures this.item == item && this.message == message && !touched && prev == null && next == null
    {
      this.item, this.message, touched, prev, next := item, message, false, null, null;
    }
  }

  /** The outcome of looking a key up. */
  datatype Found<K(!new)> = Miss | Hit(entry: Entry<K>) | Expired(entry: Entry<K>)

  ghost function Items<K(!new)>(order: seq<Entry<K>>): (items: seq<Item<K>>)
    ensures |items| == |order|
    ensures forall i :: 0 <= i < |order| ==> items[i] == order[i].item
  {
    seq(|order|, i requires 0 <= i < |order| => order[i].item)
  }

  /** `entries` indexes exactly the entries of `order`, each under its own key. */
  ghost predicate Indexes<K(!new)>(entries: map<K, Entry<K>>, order: seq<Entry<K>>) {
    && (forall i :: 0 <= i < |order| ==> order[i].item.key in entries && entries[order[i].item.key] == order[i])
    && |entries| == |order|
  }

  lemma IndexSize<K(!new)>(entries: map<K, Entry<K>>, order: seq<Entry<K>>)
    requires Indexes(entries, order)
    ensures |entries| == |order|
  {
  }

  ghost function KeySet<K(!new)>(order: seq<Entry<K>>): set<K> {
    set i | 0 <= i < |order| :: order[i].item.key
  }

  lemma {:induction false} KeySetSize<K(!new)>(order: seq<Entry<K>>)
    requires DistinctKeys(Items(order))
    ensures |KeySet(order)| == |order|
  {
    if order != [] {
      var n := |order| - 1;
      KeySetSize(order[..n]);
      assert forall i :: 0 <= i < n ==> Items(order)[i].key != Items(order)[n].key;
      assert KeySet(order) == KeySet(order[..n]) + {order[n].item.key};
    }
  }

  lemma SubsetOfSameSize<K(!new)>(a: set<K>, b: set<K>)
    requires a <= b && |a| == |b|
    ensures a == b
  {
    assert b == a + (b - a);
    assert |b| == |a| + |b - a|;
  }

  /** Every value of the map is on the list, under its own key. */
  lemma MappedIsListed<K(!new)>(entries: map<K, Entry<K>>, order: seq<Entry<K>>, key: K)
    requires NoDuplicates(order) && Indexes(entries, order)
    ensures key in entries <==> exists i :: 0 <= i < |order| && order[i].item.key == key
    ensures key in entries ==> entries[key] in order && entries[key].item.key == key
  {
    KeySetSize(order);
    SubsetOfSameSize(KeySet(order), entries.Keys);
    if key in entries {
      assert key in KeySet(order);
      var i :| 0 <= i < |order| && order[i].item.key == key;
    }
  }

  ghost predicate NoDuplicates<K(!new)>(order: seq<Entry<K>>) {
    forall i, j :: 0 <= i < j < |order| ==> order[i] != order[j]
  }

  ghost function NodeSet<K(!new)>(order: seq<Entry<K>>): set<Entry<K>> {
    set e | e in order
  }

  ghost function Cut<K(!new)>(order: seq<Entry<K>>, k: nat): seq<Entry<K>>
    requires k < |order|
  {
    order[..k] + order[k + 1..]
  }

  lemma CutList<K(!new)>(order: seq<Entry<K>>, k: nat)
    requires k < |order| && NoDuplicates(order)
    ensures NoDuplicates(Cut(order, k)) && order[k] !in Cut(order, k) && NodeSet(Cut(order, k)) <= NodeSet(order)
  {
  }

  /** Following `next` from `front` meets exactly the entries of the list. */
  ghost predicate Forward<K(!new)>(order: seq<Entry<K>>, front: Entry?<K>)
    reads NodeSet(order)`next
  {
    && front == (if order == [] then null else order[0])
    && forall i {:trigger order[i].next} :: 0 <= i < |order| ==>
         order[i].next == if i + 1 < |order| then order[i + 1] else null
  }

  /** Following `prev` from `back` meets them in reverse. */
  ghost predicate Backward<K(!new)>(order: seq<Entry<K>>, back: Entry?<K>)
    reads NodeSet(order)`prev
  {
    && back == (if order == [] then null else order[|order| - 1])
    && forall i {:trigger order[i].prev} :: 0 <= i < |order| ==>
         order[i].prev == if i > 0 then order[i - 1] else null
  }

  /** Unlinking position k and dropping its key from the map. */
  lemma CutEntry<K(!new)>(entries: map<K, Entry<K>>, order: seq<Entry<K>>, k: nat)
    requires k < |order| && NoDuplicates(order) && Indexes(entries, order)
    ensures Items(Cut(order, k)) == Without(Items(order), iset{order[k].item.key})
    ensures Indexes(entries - {order[k].item.key}, Cut(order, k))
    ensures NodeSet(Cut(order, k)) <= NodeSet(order)
  {
    var key := order[k].item.key;
    assert DistinctKeys(Items(order));
    WithoutOne(Items(order), k);
    assert Items(Cut(order, k)) == Items(order)[..k] + Items(order)[k + 1..];
    assert (entries - {key}).Keys == entries.Keys - {key};
  }

  /** Moving position k to the front. */
  lemma MoveEntry<K(!new)>(entries: map<K, Entry<K>>, order: seq<Entry<K>>, k: nat)
    requires k < |order| && NoDuplicates(order) && Indexes(entries, order)
    ensures Items([order[k]] + Cut(order, k)) == MoveToFront(Items(order), order[k].item)
    ensures Indexes(entries, [order[k]] + Cut(order, k))
    ensures NodeSet([order[k]] + Cut(order, k)) <= NodeSet(order)
  {
    CutEntry(entries, order, k);
    PushItems(Cut(order, k), order[k]);
  }

  /** Putting a new key in front. */
  lemma PushEntry<K(!new)>(entries: map<K, Entry<K>>, order: seq<Entry<K>>, entry: Entry<K>)
    requires Indexes(entries, order) && entry.item.key !in entries
    ensures Indexes(entries[entry.item.key := entry], [entry] + order)
  {
    assert entries[entry.item.key := entry].Keys == entries.Keys + {entry.item.key};
  }

  lemma PushItems<K(!new)>(order: seq<Entry<K>>, entry: Entry<K>)
    ensures Items([entry] + order) == [entry.item] + Items(order)
  {
  }

  lemma TakeItems<K(!new)>(order: seq<Entry<K>>, n: nat)
    ensures Items(if |order| <= n then order else order[..n]) == Take(Items(order), n)
  {
    if n < |order| {
      assert Items(order[..n]) == Items(order)[..n];
    }
  }

  class Shard<K(!new, ==)> {
    var entries: map<K, Entry<K>>
    var lruFront: Entry?<K>
    var lruBack: Entry?<K>
    var capacity: nat
    var hits: nat
    ghost var order: seq<Entry<K>>  // the list from lruFront to lruBack

    constructor (capacity: nat)
      requires capacity >= 1
      ensures Valid() && order == [] && this.capacity == capacity && hits == 0
    {
      entries, lruFront, lruBack, this.capacity, hits, order := map[], null, null, capacity, 0, [];
    }

    ghost function Nodes(): set<Entry<K>>
      reads this`order
    {
      NodeSet(order)
    }

    /** `order` is the list: no entry twice, `prev` the exact reverse of `next`. */
    ghost predicate Linked()
      reads this`order, this`lruFront, this`lruBack, Nodes()`prev, Nodes()`next
    {
      NoDuplicates(order) && Forward(order, lruFront) && Backward(order, lruBack)
    }

    ghost predicate Valid()
      reads this`order, this`lruFront, this`lruBack, this`entries, this`capacity, Nodes()`prev, Nodes()`next
    {
      Linked() && Indexes(entries, order) && capacity >= 1
    }

    /** The abstract value of the shard. */
    ghost function Abs(): seq<Item<K>>
      reads this`order
    {
      Items(order)
    }

    // --- List operations.  The map is not looked at here.

    method PushFront(entry: Entry<K>)
      requires Linked() && entry !in order
      modifies this`lruFront, this`lruBack, this`order, entry`prev, entry`next, Nodes()`prev
      ensures Linked() && order == [entry] + old(order)
    {
      entry.prev := null;
      entry.next := lruFront;
      if lruFront != null {
        lruFront.prev := entry;
      }
      lruFront := entry;
      if lruBack == null {
        lruBack := entry;
      }
      order := [entry] + order;
    }

    /** Forwards, the list goes past position k. */
    method SkipForward(entry: Entry<K>, ghost k: nat)
      requires Linked() && k < |order| && order[k] == entry
      modifies this`lruFront, Nodes()`next
      ensures Forward(Cut(order, k), lruFront) && entry.next == old(entry.next)
    {
      if entry.prev != null {
        entry.prev.next := entry.next;
      } else {
        lruFront := entry.next;
      }
    }

    /** And backwards. */
    method SkipBackward(entry: Entry<K>, ghost k: nat)
      requires NoDuplicates(order) && Backward(order, lruBack) && k < |order| && order[k] == entry
      requires entry.next == (if k + 1 < |order| then order[k + 1] else null)
      modifies this`lruBack, Nodes()`prev
      ensures Backward(Cut(order, k), lruBack)
    {
      if entry.next != null {
        entry.next.prev := entry.prev;
      } else {
        lruBack := entry.prev;
      }
    }

    lemma NextAt(k: nat)
      requires Linked() && k < |order|
      ensures order[k].next == if k + 1 < |order| then order[k + 1] else null
    {
    }

    method IntrusiveRemove(entry: Entry<K>) returns (ghost k: nat)
      requires Linked() && entry in order
      modifies this`lruFront, this`lruBack, this`order, Nodes()`prev, Nodes()`next
      ensures Linked() && k < |old(order)| && old(order)[k] == entry
      ensures order == Cut(old(order), k) && entry !in order
    {
      hide Forward, Backward, NoDuplicates, Cut;
      k :| 0 <= k < |order| && order[k] == entry;
      NextAt(k);
      SkipForward(entry, k);
      SkipBackward(entry, k);
      CutList(order, k);
      entry.prev := null;
      entry.next := null;
      order := Cut(order, k);
    }

    // --- Operations under the write lock.

    /** Moving an entry that is not at the front. */
    method MoveListed(entry: Entry<K>)
      requires Valid() && entry in order
      modifies this`lruFront, this`lruBack, this`order, Nodes()`prev, Nodes()`next
      ensures Valid() && Abs() == MoveToFront(old(Abs()), entry.item)
      ensures Nodes() <= old(Nodes())
    {
      hide Shard.Linked, Indexes, NoDuplicates, Items, MoveToFront, Cut;
      ListHasNoDuplicates();
      ghost var was := order;
      ghost var k := IntrusiveRemove(entry);
      CutList(was, k);
      PushFront(entry);
      assert order == [was[k]] + Cut(was, k);
      MoveEntry(entries, was, k);
    }

    method MoveEntryToFront(entry: Entry<K>)
      requires Valid() && entry in order
      modifies this`lruFront, this`lruBack, this`order, Nodes()`prev, Nodes()`next
      ensures Valid() && Abs() == MoveToFront(old(Abs()), entry.item)
      ensures Nodes() <= old(Nodes())
    {
      if entry == lruFront {
        MoveEntry(entries, order, 0);
        assert order == [entry] + Cut(order, 0);
        return;
      }
      MoveListed(entry);
    }

    method RemoveEntry(entry: Entry<K>)
      requires Valid() && entry in order
      modifies this`entries, this`lruFront, this`lruBack, this`order, Nodes()`prev, Nodes()`next
      ensures Valid() && Abs() == Without(old(Abs()), iset{entry.item.key})
      ensures entries == old(entries) - {entry.item.key} && entry !in order
      ensures exists k :: 0 <= k < |old(order)| && old(order)[k] == entry && order == Cut(old(order), k)
      ensures Nodes() <= old(Nodes())
    {
      hide Shard.Linked, Indexes, NoDuplicates, Items, Without, Cut, NodeSet;
      ListHasNoDuplicates();
      ghost var was := order;
      ghost var k := IntrusiveRemove(entry);
      CutEntry(entries, was, k);
      entries := entries - {entry.item.key};
    }

    method EvictOldest() returns (evicted: bool)
      requires Valid()
      modifies this`entries, this`lruFront, this`lruBack, this`order, Nodes()`prev, Nodes()`next
      ensures Valid() && evicted == (old(order) != []) && entries.Keys <= old(entries).Keys
      ensures order == if evicted then old(order)[..|old(order)| - 1] else []
      ensures Nodes() <= old(Nodes())
    {
      if lruBack == null {
        return false;
      }
      RemoveEntry(lruBack);
      return true;
    }

    /** The locked part of Delete, and DeleteLocal. */
    method Delete(key: K) returns (notify: bool)
      requires Valid()
      modifies this`entries, this`lruFront, this`lruBack, this`order, Nodes()`prev, Nodes()`next
      ensures Valid() && Abs() == Without(old(Abs()), iset{key}) && entries.Keys == old(entries.Keys) - {key}
      ensures notify <==> key in old(entries)
      ensures Nodes() <= old(Nodes())
    {
      MappedIsListed(entries, order, key);
      notify := key in entries;
      if notify {
        RemoveEntry(entries[key]);
      } else {
        WithoutNothing(Abs(), iset{key});
      }
    }

    /** The eviction loop of addEntry. */
    method MakeRoom()
      requires Valid()
      modifies this`entries, this`lruFront, this`lruBack, this`order, Nodes()`prev, Nodes()`next
      ensures Valid() && entries.Keys <= old(entries).Keys
      ensures order == if |old(order)| <= capacity - 1 then old(order) else old(order)[..capacity - 1]
      ensures Nodes() <= old(Nodes())
    {
      hide Shard.Linked, Indexes, NodeSet;
      IndexSize(entries, order);
      while |entries| >= capacity
        invariant Valid() && |order| <= |old(order)| && order == old(order)[..|order|]
        invariant |order| < |old(order)| ==> |order| >= capacity - 1
        invariant entries.Keys <= old(entries).Keys && |entries| == |order| && Nodes() <= old(Nodes())
        decreases |entries|
      {
        var evicted := EvictOldest();
        IndexSize(entries, order);
        if !evicted {
          break;
        }
      }
    }

    /** Linking and indexing an entry whose key is not held. */
    method AddNew(entry: Entry<K>)
      requires Valid() && entry !in order && entry.item.key !in entries
      modifies this`entries, this`lruFront, this`lruBack, this`order
      modifies entry`prev, entry`next, Nodes()`prev
      ensures Valid() && order == [entry] + old(order) && Abs() == [entry.item] + old(Abs())
    {
      PushEntry(entries, order, entry);
      PushItems(order, entry);
      PushFront(entry);
      entries := entries[entry.item.key := entry];
    }

    /** addEntry: replace, evict from the back while full, push. */
    method AddEntry(entry: Entry<K>)
      requires Valid() && entry !in order
      modifies this`entries, this`lruFront, this`lruBack, this`order
      modifies entry`prev, entry`next, Nodes()`prev, Nodes()`next
      ensures Valid() && Abs() == Insert(old(Abs()), entry.item, capacity)
      ensures Nodes() <= old(Nodes()) + {entry}
    {
      hide Shard.Linked, Indexes;
      var _ := Delete(entry.item.key);
      ghost var others := order;
      MakeRoom();
      assert Abs() == Take(Without(old(Abs()), iset{entry.item.key}), capacity - 1) by {
        TakeItems(others, capacity - 1);
      }
      AddNew(entry);
    }

    /** Clear on one shard: unlink every entry, then start afresh. */
    method Clear()
      requires Valid()
      modifies this`entries, this`lruFront, this`lruBack, this`order, Nodes()`prev, Nodes()`next
      ensures Valid() && order == [] && entries == map[]
      ensures forall e :: e in old(order) ==> e.prev == null && e.next == null
    {
      var e := lruFront;
      ghost var i := 0;
      while e != null
        invariant 0 <= i <= |order| && order == old(order)
        invariant e == if i < |order| then order[i] else null
        invariant forall j {:trigger order[j].next} :: i <= j < |order| ==>
                    order[j].next == if j + 1 < |order| then order[j + 1] else null
        invariant forall j :: 0 <= j < i ==> order[j].prev == null && order[j].next == null
        invariant NoDuplicates(order)
        decreases |order| - i
      {
        var next := e.next;
        e.prev := null;
        e.next := null;
        e := next;
        i := i + 1;
      }
      entries, lruFront, lruBack, order := map[], null, null, [];
    }

    /** EvictPercent on one shard. */
    method EvictPercent(percent: int)
      requires Valid()
      modifies this`entries, this`lruFront, this`lruBack, this`order, Nodes()`prev, Nodes()`next
      ensures Valid() && order == old(order)[..|old(order)| - EvictCount(|old(order)|, percent)]
    {
      hide Shard.Linked, Indexes, NodeSet;
      IndexSize(entries, order);
      var count := EvictCount(|entries|, percent);
      for j := 0 to count
        invariant Valid() && j <= |old(order)| && order == old(order)[..|old(order)| - j] && Nodes() <= old(Nodes())
      {
        var evicted := EvictOldest();
        if !evicted {
          break;
        }
      }
    }

    // --- Get, one method per stretch between lock operations, and GetStale.

    /** What the read-locked part of Get found. */
    method GetLookup(key: K, now: int) returns (found: Found<K>)
      requires Valid()
      ensures found == Miss <==> key !in entries
      ensures found != Miss ==> key in entries && found.entry == entries[key]
      ensures found != Miss ==> found.entry in Nodes() && found.entry.item.key == key
      ensures found.Hit? ==> !found.entry.item.IsExpired(now)
      ensures found.Expired? ==> found.entry.item.IsExpired(now)
    {
      if key !in entries {
        return Miss;
      }
      MappedIsListed(entries, order, key);
      var entry := entries[key];
      return if entry.item.IsExpired(now) then Expired(entry) else Hit(entry);
    }

    /** The first of the two unlocked counters of a hit. */
    method GetSample() returns (number: nat)
      modifies this`hits
      ensures hits == old(hits) + 1 && number == hits
    {
      hits := hits + 1;
      number := hits;
    }

    /** The second: the first hit of an entry is always promoted, later ones when their number
        is a multiple of sixteen.  Other hits may have been counted in between. */
    method GetTouch(entry: Entry<K>, number: nat) returns (promote: bool)
      modifies entry`touched
      ensures entry.touched && (promote <==> !old(entry.touched) || number % 16 == 0)
    {
      var firstTouch := !entry.touched;
      entry.touched := true;
      promote := firstTouch || number % 16 == 0;
    }

    /** The write-locked end of a hit.  Nothing is assumed about the entry: another
        thread may have replaced or removed it since the lookup. */
    method GetPromote(key: K, entry: Entry<K>)
      requires Valid()
      modifies this`lruFront, this`lruBack, this`order, Nodes()`prev, Nodes()`next
      ensures Valid() && Nodes() <= old(Nodes())
      ensures Abs() == if entry in old(Nodes()) && entry.item.key == key then MoveToFront(old(Abs()), entry.item)
                       else old(Abs())
    {
      MappedIsListed(entries, order, key);
      assert entry in order ==> entries[entry.item.key] == entry;
      if key in entries && entries[key] == entry {
        MoveEntryToFront(entry);
      }
    }

    /** The write-locked end of a lookup that found an expired entry. */
    method GetExpire(key: K, entry: Entry<K>, now: int, serveStale: bool, grace: int)
      requires Valid()
      modifies this`entries, this`lruFront, this`lruBack, this`order, Nodes()`prev, Nodes()`next
      ensures Valid() && Nodes() <= old(Nodes())
      ensures Abs() == if entry in old(Nodes()) && entry.item.key == key
                          && (serveStale ==> entry.item.StaleDeadlineReached(now, grace))
                       then Without(old(Abs()), iset{key})
                       else old(Abs())
    {
      MappedIsListed(entries, order, key);
      assert entry in order ==> entries[entry.item.key] == entry;
      if key in entries && entries[key] == entry {
        if serveStale {
          if entry.item.StaleDeadlineReached(now, grace) {
            RemoveEntry(entry);
          }
        } else {
          RemoveEntry(entry);
        }
      }
    }

    /** The locked part of GetStale; a returned entry is then copied for the caller. */
    method GetStaleLocked(key: K, now: int, serveStale: bool, grace: int) returns (stale: Found<K>)
      requires Valid()
      modifies this`entries, this`lruFront, this`lruBack, this`order, Nodes()`prev, Nodes()`next
      ensures Valid() && Nodes() <= old(Nodes())
      ensures stale == Miss || stale.Expired?
      ensures stale.Expired? ==> key in old(entries) && stale.entry == old(entries)[key]
      ensures stale.Expired? <==>
                && serveStale && key in old(entries) && old(entries)[key].item.IsExpired(now)
                && !old(entries)[key].item.StaleDeadlineReached(now, grace)
      ensures Abs() == if stale.Expired? then MoveToFront(old(Abs()), stale.entry.item)
                       else if serveStale && key in old(entries) && old(entries)[key].item.IsExpired(now)
                       then Without(old(Abs()), iset{key})
                       else old(Abs())
    {
      stale := Miss;
      if !serveStale || key !in entries {
        return;
      }
      MappedIsListed(entries, order, key);
      var entry := entries[key];
      if !entry.item.IsExpired(now) {
        return;
      }
      if entry.item.StaleDeadlineReached(now, grace) {
        RemoveEntry(entry);
        return;
      }
      MoveEntryToFront(entry);
      stale := Expired(entry);
    }

    /** GetStale: the locked part, then the copy of the message outside the lock.  A held entry
        in its grace period is served, with TTLs of at most 30 seconds, just when it has a
        message. */
    method GetStale(key: K, now: int, serveStale: bool, grace: int) returns (r: CacheTtl.Stale)
      requires Valid()
      modifies this`entries, this`lruFront, this`lruBack, this`order, Nodes()`prev, Nodes()`next
      ensures Valid() && Nodes() <= old(Nodes())
      ensures !r.Nothing? <==>
                && serveStale && key in old(entries) && old(entries)[key].item.IsExpired(now)
                && !old(entries)[key].item.StaleDeadlineReached(now, grace)
      ensures r.NilDereference? ==> old(entries)[key].message == null
      ensures r.Served? ==>
                && old(entries)[key].message != null && fresh(r.message) && fresh(r.message.Records())
                && CacheTtl.View(r.message) == CacheTtl.Capped(CacheTtl.View(old(entries)[key].message), CacheTtl.STALE_TTL)
                && CacheTtl.AtMost(CacheTtl.View(r.message), 30)
      ensures Abs() == if !r.Nothing? then MoveToFront(old(Abs()), old(entries)[key].item)
                       else if serveStale && key in old(entries) && old(entries)[key].item.IsExpired(now)
                       then Without(old(Abs()), iset{key})
                       else old(Abs())
    {
      hide Shard.Linked, Indexes, NoDuplicates, Items, Without, MoveToFront;
      hide CacheTtl.View, CacheTtl.Capped, CacheTtl.AtMost;
      var stale := GetStaleLocked(key, now, serveStale, grace);
      if stale == Miss {
        return CacheTtl.Nothing;
      }
      r := CacheTtl.StaleMessage(stale.entry.message);
    }

    lemma ListHasNoDuplicates()
      requires Linked()
      ensures NoDuplicates(order)
    {
    }

    /** The loop of InvalidatePattern: the keys are visited in an arbitrary order while
        entries are removed. */
    method RemoveMatching(doomed: K -> bool) returns (removed: seq<K>)
      requires Valid()
      modifies this`entries, this`lruFront, this`lruBack, this`order, Nodes()`prev, Nodes()`next
      ensures Valid() && Abs() == Without(old(Abs()), KeysWhere(doomed))
      ensures NoRepeats(removed)
      ensures forall k :: k in removed <==> doomed(k) && k in old(entries.Keys)
      ensures Nodes() <= old(Nodes())
    {
      hide Shard.Linked, Indexes, NoDuplicates, NoRepeats, Items, Without, Visited, In;
      ListHasNoDuplicates();
      removed := [];
      var todo := entries.Keys;
      ghost var all := todo;
      NoneVisited(all, doomed);
      NothingIn<K>();
      WithoutNothing(Abs(), In(removed));
      while todo != {}
        invariant Valid() && Visited(all, todo, entries.Keys, removed, doomed)
        invariant Abs() == Without(old(Abs()), In(removed)) && Nodes() <= old(Nodes())
        decreases |todo|
      {
        var key :| key in todo;
        VisitOne(all, todo, entries.Keys, removed, doomed, key);
        todo := todo - {key};
        if doomed(key) {
          var _ := Delete(key);
          WithoutTwice(old(Abs()), In(removed), iset{key});
          removed := removed + [key];
        }
      }
      AllVisited(old(entries), old(order), entries.Keys, removed, doomed);
    }
  }

  /** Part way through the loop: every visited key is gone exactly when it is doomed,
      and `removed` lists what is gone. */
  ghost predicate Visited<K(!new)>(all: set<K>, todo: set<K>, keys: set<K>, removed: seq<K>, doomed: K -> bool) {
    && todo <= keys <= all
    && (forall k :: k in all - todo ==> (k in keys <==> !doomed(k)))
    && (forall k :: k in removed <==> k in all - keys)
    && NoRepeats(removed)
  }

  lemma NoneVisited<K(!new)>(all: set<K>, doomed: K -> bool)
    ensures Visited(all, all, all, [], doomed)
  {
  }

  lemma NothingIn<K(!new)>()
    ensures forall k: K :: k !in In([])
  {
  }

  lemma VisitOne<K(!new)>(all: set<K>, todo: set<K>, keys: set<K>, removed: seq<K>, doomed: K -> bool, key: K)
    requires Visited(all, todo, keys, removed, doomed) && key in todo
    ensures !doomed(key) ==> Visited(all, todo - {key}, keys, removed, doomed)
    ensures doomed(key) ==> Visited(all, todo - {key}, keys - {key}, removed + [key], doomed)
    ensures In(removed) + iset{key} == In(removed + [key])
  {
    assert key !in removed;
  }

  lemma AllVisited<K(!new)>(entries: map<K, Entry<K>>, order: seq<Entry<K>>, keys: set<K>, removed: seq<K>,
                            doomed: K -> bool)
    requires NoDuplicates(order) && Indexes(entries, order) && Visited(entries.Keys, {}, keys, removed, doomed)
    ensures Without(Items(order), In(removed)) == Without(Items(order), KeysWhere(doomed))
    ensures forall k :: k in removed <==> doomed(k) && k in entries.Keys
    ensures NoRepeats(removed)
  {
    forall x | x in Items(order) ensures x.key in entries {
      MappedIsListed(entries, order, x.key);
    }
    WithoutAgree(Items(order), In(removed), KeysWhere(doomed));
  }

  ghost function In<K(!new)>(keys: seq<K>): iset<K> {
    iset k | k in keys
  }

  ghost predicate NoRepeats<K>(keys: seq<K>) {
    forall i, j :: 0 <= i < j < |keys| ==> keys[i] != keys[j]
  }

  /** Which keys a pattern invalidates. */
  function Doomed(pattern: string): string -> bool {
    k => CacheKey.Invalidates(pattern, k)
  }

  /** InvalidatePattern on one shard, whose keys are strings.  The keys made from short names
      without the separator go exactly when their name lies at or below the pattern; each
      key is reported once and the others keep their order. */
  method InvalidatePattern(shard: Shard<string>, pattern: string) returns (invalidated: seq<string>)
    requires shard.Valid()
    modifies shard`entries, shard`lruFront, shard`lruBack, shard`order, shard.Nodes()`prev, shard.Nodes()`next
    ensures shard.Valid() && shard.Abs() == Without(old(shard.Abs()), KeysWhere(Doomed(pattern)))
    ensures NoRepeats(invalidated)
    ensures forall k :: k in invalidated <==> Doomed(pattern)(k) && k in old(shard.entries)
    ensures forall n, q, d, hash :: CacheKey.Keyable(n, q) && CacheKey.KeyOf(n, q, d, hash) in old(shard.entries) ==>
              (CacheKey.KeyOf(n, q, d, hash) in invalidated <==> CacheKey.Covers(pattern, n))
  {
    invalidated := shard.RemoveMatching(Doomed(pattern));
    forall n, q, d, hash | CacheKey.Keyable(n, q) && CacheKey.KeyOf(n, q, d, hash) in old(shard.entries)
      ensures CacheKey.KeyOf(n, q, d, hash) in invalidated <==> CacheKey.Covers(pattern, n)
    {
      CacheKey.InvalidatesSubtree(n, q, d, hash, pattern);
    }
  }

  // --- The list as a walk through the heap

  /** The entries met by following `next` (or `prev`) at most n times. */
  ghost function Walk<K(!new)>(e: Entry?<K>, forward: bool, n: nat): seq<Entry<K>>
    reads *
  {
    if e == null || n == 0 then [] else [e] + Walk(if forward then e.next else e.prev, forward, n - 1)
  }

  /** A walk of any sufficient length meets every entry once and stops: forwards it is the
      list, backwards its reverse. */
  lemma WalkIsList<K(!new)>(shard: Shard<K>, n: nat)
    requires shard.Valid() && n >= |shard.entries|
    ensures Walk(shard.lruFront, true, n) == shard.order
    ensures |Walk(shard.lruBack, false, n)| == |shard.order|
    ensures forall i :: 0 <= i < |shard.order| ==>
              Walk(shard.lruBack, false, n)[i] == shard.order[|shard.order| - 1 - i]
  {
    WalkForward(shard, 0, n);
    WalkBackward(shard, |shard.order|, n);
  }

  lemma {:induction false} WalkForward<K(!new)>(shard: Shard<K>, i: nat, n: nat)
    requires shard.Linked() && i <= |shard.order| && n >= |shard.order| - i
    ensures Walk(if i < |shard.order| then shard.order[i] else null, true, n) == shard.order[i..]
    decreases n
  {
    if i < |shard.order| {
      WalkForward(shard, i + 1, n - 1);
      assert shard.order[i].next == if i + 1 < |shard.order| then shard.order[i + 1] else null;
    }
  }

  lemma {:induction false} WalkBackward<K(!new)>(shard: Shard<K>, i: nat, n: nat)
    requires shard.Linked() && i <= |shard.order| && n >= i
    ensures var w := Walk(if i > 0 then shard.order[i - 1] else null, false, n);
            |w| == i && forall j :: 0 <= j < i ==> w[j] == shard.order[i - 1 - j]
    decreases n
  {
    if i > 0 {
      WalkBackward(shard, i - 1, n - 1);
      assert shard.order[i - 1].prev == if i - 1 > 0 then shard.order[i - 2] else null;
    }
  }
}
