/** The plain recency list that every cache shard refines: items from most to
    least recently used, at most one per key. */
module Recency {

  /** What a cached entry is, apart from its list links.  `id` stands for the entry's
      address: two entries are the same entry exactly when their ids agree. */
  datatype Item<K> = Item(id: nat, key: K, insertedAt: int, expireTime: int, hasMessage: bool) {

    /** Entry.IsExpired for a non-nil entry. */
    predicate IsExpired(now: int) {
      now >= expireTime
    }

    /** staleDeadlineReached for a non-nil entry. */
    predicate StaleDeadlineReached(now: int, grace: int) {
      now >= expireTime + grace
    }
  }

  ghost predicate DistinctKeys<K(!new)>(order: seq<Item<K>>) {
    forall i, j :: 0 <= i < j < |order| ==> order[i].key != order[j].key
  }

  /** The items whose key is in `gone` dropped, the others in their old order. */
  ghost function Without<K(!new)>(order: seq<Item<K>>, gone: iset<K>): seq<Item<K>> {
    if order == [] then []
    else if order[0].key in gone then Without(order[1..], gone)
    else [order[0]] + Without(order[1..], gone)
  }

  ghost function Take<K(!new)>(order: seq<Item<K>>, n: nat): seq<Item<K>> {
    if n <= |order| then order[..n] else order
  }

  /** Writing `x`: it comes first, followed by the most recent of the others. */
  ghost function Insert<K(!new)>(order: seq<Item<K>>, x: Item<K>, capacity: nat): seq<Item<K>>
    requires capacity >= 1
  {
    [x] + Take(Without(order, iset{x.key}), capacity - 1)
  }

  ghost function MoveToFront<K(!new)>(order: seq<Item<K>>, x: Item<K>): seq<Item<K>> {
    [x] + Without(order, iset{x.key})
  }

  /** How many entries EvictPercent takes from a shard of the given size. */
  function EvictCount(size: nat, percent: int): (count: nat)
    ensures count <= size
    ensures !(0 < percent <= 100) || size == 0 ==> count == 0
    ensures 0 < percent <= 100 && size > 0 ==>
              count >= 1 && (count > 1 ==> count * 100 <= size * percent) && size * percent < (count + 1) * 100
  {
    if percent <= 0 || percent > 100 || size == 0 then 0
    else
      assert 0 <= size * percent <= size * 100;
      if size * percent / 100 == 0 then 1 else size * percent / 100
  }

  const SHARDS := 16

  /** perShardCapacity, with the division that truncates towards zero: at least one entry,
      and no more than it takes for the shards together to hold the total. */
  function PerShardCapacity(total: int): (per: nat)
    ensures per >= 1 && 16 * per >= total
    ensures per > 1 ==> 16 * (per - 1) < total
  {
    var sum := total + SHARDS - 1;
    var per := if sum >= 0 then sum / SHARDS else -(-sum / SHARDS);
    if per < 1 then 1 else per
  }

  ghost function KeysWhere<K(!new)>(p: K -> bool): iset<K> {
    iset k | p(k)
  }

  lemma {:induction false} WithoutMembers<K(!new)>(order: seq<Item<K>>, gone: iset<K>)
    ensures forall x :: x in Without(order, gone) <==> x in order && x.key !in gone
    ensures |Without(order, gone)| <= |order|
  {
    if order != [] {
      WithoutMembers(order[1..], gone);
      assert forall x :: x in order <==> x == order[0] || x in order[1..];
    }
  }

  lemma {:induction false} WithoutKeepsDistinctKeys<K(!new)>(order: seq<Item<K>>, gone: iset<K>)
    requires DistinctKeys(order)
    ensures DistinctKeys(Without(order, gone))
  {
    if order != [] {
      var rest := Without(order[1..], gone);
      WithoutKeepsDistinctKeys(order[1..], gone);
      WithoutMembers(order[1..], gone);
      forall j | 0 <= j < |rest| ensures rest[j].key != order[0].key {
        assert rest[j] in rest;
        assert rest[j] in order[1..];
      }
    }
  }

  lemma {:induction false} WithoutNothing<K(!new)>(order: seq<Item<K>>, gone: iset<K>)
    requires forall x :: x in order ==> x.key !in gone
    ensures Without(order, gone) == order
  {
    if order != [] {
      assert forall x :: x in order[1..] ==> x in order;
      WithoutNothing(order[1..], gone);
      assert order[0] in order;
    }
  }

  lemma {:induction false} WithoutConcat<K(!new)>(a: seq<Item<K>>, b: seq<Item<K>>, gone: iset<K>)
    ensures Without(a + b, gone) == Without(a, gone) + Without(b, gone)
  {
    if a == [] {
      assert a + b == b;
    } else {
      assert (a + b)[1..] == a[1..] + b;
      WithoutConcat(a[1..], b, gone);
    }
  }

  /** Dropping one present key cuts exactly its position out of the list. */
  lemma {:induction false} WithoutOne<K(!new)>(order: seq<Item<K>>, k: nat)
    requires DistinctKeys(order) && k < |order|
    ensures Without(order, iset{order[k].key}) == order[..k] + order[k + 1..]
  {
    var gone := iset{order[k].key};
    if k == 0 {
      WithoutNothing(order[1..], gone);
    } else {
      WithoutOne(order[1..], k - 1);
      assert order[1..][k - 1] == order[k] && order[1..][k..] == order[k + 1..];
      assert order[..k] == [order[0]] + order[1..][..k - 1];
    }
  }

  /** Dropping key sets one after the other is dropping their union. */
  lemma {:induction false} WithoutTwice<K(!new)>(order: seq<Item<K>>, a: iset<K>, b: iset<K>)
    ensures Without(Without(order, a), b) == Without(order, a + b)
  {
    if order != [] {
      WithoutTwice(order[1..], a, b);
    }
  }

  /** Only the keys that occur matter. */
  lemma {:induction false} WithoutAgree<K(!new)>(order: seq<Item<K>>, a: iset<K>, b: iset<K>)
    requires forall x :: x in order ==> (x.key in a <==> x.key in b)
    ensures Without(order, a) == Without(order, b)
  {
    if order != [] {
      assert order[0] in order && forall x :: x in order[1..] ==> x in order;
      WithoutAgree(order[1..], a, b);
    }
  }

  /** Insert keeps one item per key, restores the bound whatever the list was before
      (even after the capacity shrank), evicts only a tail of the old list, and evicts
      nobody when a shard within capacity refreshes a key it holds. */
  lemma InsertIsLru<K(!new)>(order: seq<Item<K>>, x: Item<K>, capacity: nat)
    requires DistinctKeys(order) && capacity >= 1
    ensures DistinctKeys(Insert(order, x, capacity))
    ensures |Insert(order, x, capacity)| <= capacity
    ensures var others := Without(order, iset{x.key});
            var kept := |Insert(order, x, capacity)| - 1;
            && 0 <= kept <= |others|
            && Insert(order, x, capacity) == [x] + others[..kept]
            && (kept < |others| ==> kept == capacity - 1)
    ensures |order| <= capacity && (exists y :: y in order && y.key == x.key) ==>
              && |Insert(order, x, capacity)| == |order|
              && forall y :: y in order && y.key != x.key ==> y in Insert(order, x, capacity)
  {
    var others := Without(order, iset{x.key});
    WithoutMembers(order, iset{x.key});
    WithoutKeepsDistinctKeys(order, iset{x.key});
    var n := if capacity - 1 <= |others| then capacity - 1 else |others|;
    assert Insert(order, x, capacity) == [x] + others[..n];
    forall i | 0 <= i < |others| ensures others[i].key != x.key {
      assert others[i] in others;
    }
    if y :| y in order && y.key == x.key {
      var k :| 0 <= k < |order| && order[k] == y;
      WithoutOne(order, k);
      if |order| <= capacity {
        assert others[..n] == others;
        assert forall y :: y in order && y.key != x.key ==> y in others;
      }
    }
  }
}
