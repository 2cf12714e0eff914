/** Every interleaving of the operations on one shard.  Get is not atomic: its lookup,
    its two counters and its second locked part are separate steps, with any steps of other
    threads in between. */
module CacheRuns {
  import CacheTtl
  import opened Recency

  /** The settings of a run; times and durations are in the same unit. */
  datatype Config = Config(serveStale: bool, grace: int, limits: CacheTtl.Limits)

  /** Where a thread inside Get stands. */
  datatype Pending<K> =
    | Sampling(item: Item<K>)                // found live, hit not yet counted
    | Touching(item: Item<K>, number: nat)   // counted as this hit, entry not yet marked as touched
    | Promoting(item: Item<K>)               // about to take the write lock to promote
    | Expiring(item: Item<K>, now: int)      // found expired at `now`, about to take the write lock

  datatype State<K> = State(
    order: seq<Item<K>>, capacity: nat, hits: nat, touched: set<nat>, pending: map<nat, Pending<K>>)

  datatype Step<!K> =
    | Lookup(thread: nat, key: K, now: int)
    | Sample(thread: nat)
    | Touch(thread: nat)
    | Promote(thread: nat)
    | Expire(thread: nat)
    | Write(id: nat, key: K, now: int, writing: CacheTtl.Writing)
    | Delete(key: K)
    | Stale(key: K, now: int)                // GetStale
    | EvictPercent(percent: int)
    | Invalidate(doomed: K -> bool)
    | Clear
    | Resize(total: int)                     // UpdateConfig

  /** The entry that a write stores. */
  function Stored<K>(cfg: Config, id: nat, key: K, now: int, writing: CacheTtl.Writing): Item<K> {
    Item(id, key, now, now + CacheTtl.Lifetime(writing, cfg.limits), CacheTtl.CarriesMessage(writing))
  }

  ghost predicate Writes<K>(cfg: Config, step: Step<K>, x: Item<K>) {
    step.Write? && Stored(cfg, step.id, step.key, step.now, step.writing) == x
  }

  ghost function Find<K(!new)>(order: seq<Item<K>>, key: K): (i: nat)
    ensures i <= |order| && (i < |order| ==> order[i].key == key)
    ensures forall j :: 0 <= j < i ==> order[j].key != key
  {
    if order == [] || order[0].key == key then 0 else 1 + Find(order[1..], key)
  }

  /** The item is expired and still in its grace period. */
  ghost predicate InGrace<K>(cfg: Config, x: Item<K>, now: int) {
    cfg.serveStale && x.IsExpired(now) && !x.StaleDeadlineReached(now, cfg.grace)
  }

  /** What a GetStale comes to: an item in its grace period is served if it has a message and
      makes the source dereference nil if it has none. */
  datatype Answer<K> = Nothing | Served(item: Item<K>) | NilDereference(item: Item<K>)

  ghost function StaleAnswer<K(!new)>(cfg: Config, order: seq<Item<K>>, key: K, now: int): Answer<K> {
    var i := Find(order, key);
    if i == |order| || !InGrace(cfg, order[i], now) then Nothing
    else if order[i].hasMessage then Served(order[i])
    else NilDereference(order[i])
  }

  /** And what it does to the list. */
  ghost function StaleOrder<K(!new)>(cfg: Config, order: seq<Item<K>>, key: K, now: int): seq<Item<K>> {
    var i := Find(order, key);
    if !cfg.serveStale || i == |order| || !order[i].IsExpired(now) then order
    else if order[i].StaleDeadlineReached(now, cfg.grace) then Without(order, iset{key})
    else MoveToFront(order, order[i])
  }

  // One function per step.  A step that is not possible in the state changes nothing.

  ghost function LookupStep<K(!new)>(s: State<K>, t: nat, key: K, now: int): State<K> {
    var i := Find(s.order, key);
    if t in s.pending || i == |s.order| then s
    else if s.order[i].IsExpired(now) then s.(pending := s.pending[t := Expiring(s.order[i], now)])
    else s.(pending := s.pending[t := Sampling(s.order[i])])
  }

  ghost function SampleStep<K(!new)>(s: State<K>, t: nat): State<K> {
    if t !in s.pending || !s.pending[t].Sampling? then s
    else s.(hits := s.hits + 1, pending := s.pending[t := Touching(s.pending[t].item, s.hits + 1)])
  }

  ghost function TouchStep<K(!new)>(s: State<K>, t: nat): State<K> {
    if t !in s.pending || !s.pending[t].Touching? then s
    else
      var Touching(x, number) := s.pending[t];
      var promote := x.id !in s.touched || number % 16 == 0;
      s.(touched := s.touched + {x.id},
         pending := if promote then s.pending[t := Promoting(x)] else s.pending - {t})
  }

  ghost function PromoteStep<K(!new)>(s: State<K>, t: nat): State<K> {
    if t !in s.pending || !s.pending[t].Promoting? then s
    else
      var x := s.pending[t].item;
      s.(order := if x in s.order then MoveToFront(s.order, x) else s.order, pending := s.pending - {t})
  }

  ghost function ExpireStep<K(!new)>(cfg: Config, s: State<K>, t: nat): State<K> {
    if t !in s.pending || !s.pending[t].Expiring? then s
    else
      var Expiring(x, now) := s.pending[t];
      var drop := x in s.order && (cfg.serveStale ==> x.StaleDeadlineReached(now, cfg.grace));
      s.(order := if drop then Without(s.order, iset{x.key}) else s.order, pending := s.pending - {t})
  }

  ghost function Next<K(!new)>(cfg: Config, s: State<K>, step: Step<K>): State<K>
    requires s.capacity >= 1
  {
    match step
    case Lookup(t, key, now) => LookupStep(s, t, key, now)
    case Sample(t) => SampleStep(s, t)
    case Touch(t) => TouchStep(s, t)
    case Promote(t) => PromoteStep(s, t)
    case Expire(t) => ExpireStep(cfg, s, t)
    case Stale(key, now) => s.(order := StaleOrder(cfg, s.order, key, now))
    case Write(id, key, now, w) => s.(order := Insert(s.order, Stored(cfg, id, key, now, w), s.capacity))
    case Delete(key) => s.(order := Without(s.order, iset{key}))
    case EvictPercent(percent) => s.(order := s.order[..|s.order| - EvictCount(|s.order|, percent)])
    case Invalidate(doomed) => s.(order := Without(s.order, KeysWhere(doomed)))
    case Clear => s.(order := [])
    case Resize(total) => s.(capacity := PerShardCapacity(total))
  }

  ghost function Start<K>(capacity: nat): State<K> {
    State([], capacity, 0, {}, map[])
  }

  /** The states a schedule passes through, starting with an empty shard. */
  ghost predicate IsRun<K(!new)>(cfg: Config, states: seq<State<K>>, steps: seq<Step<K>>) {
    && |states| == |steps| + 1
    && states[0] == Start(states[0].capacity)
    && (forall i :: 0 <= i < |states| ==> states[i].capacity >= 1)
    && (forall i :: 0 <= i < |steps| ==> states[i + 1] == Next(cfg, states[i], steps[i]))
  }

  /** Every write stores a new entry. */
  ghost predicate FreshWrites<K(!new)>(steps: seq<Step<K>>) {
    forall i, j :: 0 <= i < j < |steps| && steps[i].Write? && steps[j].Write? ==> steps[i].id != steps[j].id
  }

  // --- One item per key in every state of every run

  lemma KeepsOnePerKey<K(!new)>(cfg: Config, s: State<K>, step: Step<K>)
    requires s.capacity >= 1 && DistinctKeys(s.order)
    ensures DistinctKeys(Next(cfg, s, step).order)
  {
    match step
    case Promote(t) =>
      if t in s.pending && s.pending[t].Promoting? { MoveKeepsOnePerKey(s.order, s.pending[t].item); }
    case Expire(t) =>
      if t in s.pending && s.pending[t].Expiring? {
        WithoutKeepsDistinctKeys(s.order, iset{s.pending[t].item.key});
      }
    case Write(id, key, now, w) => InsertIsLru(s.order, Stored(cfg, id, key, now, w), s.capacity);
    case Delete(key) => WithoutKeepsDistinctKeys(s.order, iset{key});
    case Stale(key, now) =>
      WithoutKeepsDistinctKeys(s.order, iset{key});
      var i := Find(s.order, key);
      if i < |s.order| { MoveKeepsOnePerKey(s.order, s.order[i]); }
    case Invalidate(doomed) => WithoutKeepsDistinctKeys(s.order, KeysWhere(doomed));
    case _ =>
  }

  lemma MoveKeepsOnePerKey<K(!new)>(order: seq<Item<K>>, x: Item<K>)
    requires DistinctKeys(order)
    ensures DistinctKeys(MoveToFront(order, x))
    ensures x in order ==> |MoveToFront(order, x)| == |order|
  {
    var rest := Without(order, iset{x.key});
    WithoutKeepsDistinctKeys(order, iset{x.key});
    WithoutMembers(order, iset{x.key});
    forall j | 0 <= j < |rest| ensures rest[j].key != x.key {
      assert rest[j] in rest;
    }
    if x in order {
      var k :| 0 <= k < |order| && order[k] == x;
      WithoutOne(order, k);
    }
  }

  lemma {:induction false} OnePerKey<K(!new)>(cfg: Config, states: seq<State<K>>, steps: seq<Step<K>>, n: nat)
    requires IsRun(cfg, states, steps) && n <= |steps|
    ensures DistinctKeys(states[n].order)
  {
    if n > 0 {
      OnePerKey(cfg, states, steps, n - 1);
      KeepsOnePerKey(cfg, states[n - 1], steps[n - 1]);
    }
  }

  // --- What Get returns

  /** No step but a write adds items. */
  lemma OnlyWritesAdd<K(!new)>(cfg: Config, s: State<K>, step: Step<K>, x: Item<K>)
    requires s.capacity >= 1 && x in Next(cfg, s, step).order
    ensures x in s.order || Writes(cfg, step, x)
  {
    match step
    case Expire(t) =>
      if t in s.pending && s.pending[t].Expiring? { WithoutMembers(s.order, iset{s.pending[t].item.key}); }
    case Promote(t) =>
      if t in s.pending && s.pending[t].Promoting? { WithoutMembers(s.order, iset{s.pending[t].item.key}); }
    case Write(_, key, _, _) => WithoutMembers(s.order, iset{key});
    case Delete(key) => WithoutMembers(s.order, iset{key});
    case Stale(key, now) => WithoutMembers(s.order, iset{key});
    case Invalidate(doomed) => WithoutMembers(s.order, KeysWhere(doomed));
    case _ =>
  }

  /** Every held item was written earlier and has been held ever since. */
  lemma {:induction false} HeldSinceWritten<K(!new)>(
    cfg: Config, states: seq<State<K>>, steps: seq<Step<K>>, n: nat, x: Item<K>) returns (w: nat)
    requires IsRun(cfg, states, steps) && n <= |steps| && x in states[n].order
    ensures w < n && Writes(cfg, steps[w], x)
    ensures forall m :: w < m <= n ==> x in states[m].order
  {
    OnlyWritesAdd(cfg, states[n - 1], steps[n - 1], x);
    if x in states[n - 1].order {
      w := HeldSinceWritten(cfg, states, steps, n - 1, x);
    } else {
      w := n - 1;
    }
  }

  /** The latest write of a held item's key is the write of that item. */
  lemma LatestWrite<K(!new)>(cfg: Config, states: seq<State<K>>, steps: seq<Step<K>>, n: nat, x: Item<K>)
    returns (w: nat)
    requires IsRun(cfg, states, steps) && FreshWrites(steps) && n <= |steps| && x in states[n].order
    ensures w < n && Writes(cfg, steps[w], x)
    ensures forall m :: w < m <= n ==> x in states[m].order
    ensures forall m :: w < m < n && steps[m].Write? ==> steps[m].key != x.key
  {
    w := HeldSinceWritten(cfg, states, steps, n, x);
    forall m | w < m < n && steps[m].Write? ensures steps[m].key != x.key {
      OnePerKey(cfg, states, steps, m + 1);
      assert x in states[m + 1].order && Writes(cfg, steps[m], states[m + 1].order[0]);
      assert states[m + 1].order[0] != x;
    }
  }

  /** In any run, a lookup that hits finds the item of the latest write of its key, which
      has not been removed since, within the clamped lifetime that the write asked for. */
  lemma GetReturnsLatest<K(!new)>(
    cfg: Config, states: seq<State<K>>, steps: seq<Step<K>>, i: nat, x: Item<K>) returns (w: nat)
    requires IsRun(cfg, states, steps) && FreshWrites(steps)
    requires i < |steps| && steps[i].Lookup? && steps[i].thread !in states[i].pending
    requires steps[i].thread in states[i + 1].pending && states[i + 1].pending[steps[i].thread] == Sampling(x)
    ensures w < i && Writes(cfg, steps[w], x) && x.key == steps[i].key
    ensures forall m :: w < m <= i ==> x in states[m].order
    ensures forall m :: w < m < i && steps[m].Write? ==> steps[m].key != x.key
    ensures steps[i].now < steps[w].now + CacheTtl.Lifetime(steps[w].writing, cfg.limits)
    ensures cfg.limits.maxTTL > 0 ==> steps[i].now < steps[w].now + cfg.limits.maxTTL
  {
    w := LatestWrite(cfg, states, steps, i, x);
  }

  /** A write makes its key hit at once and until exactly the time it asks for, as far as the
      limits allow it; from then on the same lookup finds it expired. */
  lemma WrittenHits<K(!new)>(
    cfg: Config, s: State<K>, id: nat, key: K, now: int, w: CacheTtl.Writing, asked: int, t: nat, at: int)
    requires s.capacity >= 1 && t !in s.pending && CacheTtl.Asks(w, cfg.limits, asked)
    requires cfg.limits.minTTL <= asked && (cfg.limits.maxTTL > 0 ==> asked <= cfg.limits.maxTTL)
    ensures var written := Next(cfg, s, Write(id, key, now, w));
            var found := Next(cfg, written, Lookup(t, key, at));
            && |written.order| > 0 && written.order[0].key == key && written.order[0].id == id
            && (written.order[0].hasMessage <==>
                  match w case Set(_, present) => present case SetNegativeMessage(_, present) => present case _ => false)
            && t in found.pending
            && found.pending[t] == if at < now + asked then Sampling(written.order[0]) else Expiring(written.order[0], at)
  {
    CacheTtl.LivesAsAsked(w, cfg.limits, asked);
    var written := Next(cfg, s, Write(id, key, now, w));
    assert Find(written.order, key) == 0;
  }

  /** In any run a lookup by an idle thread hits a held item exactly before the lifetime of the
      item's write is over. */
  lemma HeldHits<K(!new)>(cfg: Config, states: seq<State<K>>, steps: seq<Step<K>>, i: nat, x: Item<K>, asked: int)
    returns (w: nat)
    requires IsRun(cfg, states, steps) && FreshWrites(steps) && i < |steps| && steps[i].Lookup?
    requires steps[i].thread !in states[i].pending && x in states[i].order && x.key == steps[i].key
    ensures w < i && Writes(cfg, steps[w], x)
    ensures steps[i].thread in states[i + 1].pending
    ensures CacheTtl.Asks(steps[w].writing, cfg.limits, asked) && cfg.limits.minTTL <= asked
            && (cfg.limits.maxTTL > 0 ==> asked <= cfg.limits.maxTTL) ==>
              states[i + 1].pending[steps[i].thread] ==
                if steps[i].now < steps[w].now + asked then Sampling(x) else Expiring(x, steps[i].now)
  {
    w := LatestWrite(cfg, states, steps, i, x);
    OnePerKey(cfg, states, steps, i);
    FindHeld(states[i].order, x);
    if CacheTtl.Asks(steps[w].writing, cfg.limits, asked) {
      CacheTtl.LivesAsAsked(steps[w].writing, cfg.limits, asked);
    }
  }

  // --- What the other operations do

  /** Removals remove exactly what they name. */
  lemma RemovesExactly<K(!new)>(cfg: Config, s: State<K>, key: K, doomed: K -> bool, x: Item<K>)
    requires s.capacity >= 1
    ensures x in Next(cfg, s, Delete(key)).order <==> x in s.order && x.key != key
    ensures x in Next(cfg, s, Invalidate(doomed)).order <==> x in s.order && !doomed(x.key)
    ensures x !in Next(cfg, s, Clear).order
  {
    WithoutMembers(s.order, iset{key});
    WithoutMembers(s.order, KeysWhere(doomed));
  }

  /** Eviction takes a share of the list from its back; a new capacity takes effect at once. */
  lemma EvictsFromBack<K(!new)>(cfg: Config, s: State<K>, percent: int, total: int)
    requires s.capacity >= 1
    ensures var order := Next(cfg, s, EvictPercent(percent)).order;
            && |order| <= |s.order| && order == s.order[..|order|]
            && (!(0 < percent <= 100) ==> order == s.order)
            && (0 < percent <= 100 && s.order != [] ==>
                  var gone := |s.order| - |order|;
                  gone >= 1 && (gone > 1 ==> gone * 100 <= |s.order| * percent) && |s.order| * percent < (gone + 1) * 100)
    ensures var per := Next(cfg, s, Resize(total)).capacity;
            per >= 1 && 16 * per >= total && (per > 1 ==> 16 * (per - 1) < total)
  {
  }

  /** Promotion puts the item first and keeps the others in their order. */
  lemma PromotesToFront<K(!new)>(order: seq<Item<K>>, k: nat)
    requires DistinctKeys(order) && k < |order|
    ensures MoveToFront(order, order[k]) == [order[k]] + order[..k] + order[k + 1..]
  {
    WithoutOne(order, k);
  }

  // --- When a hit promotes

  /** The step moves the thread's own Get on. */
  ghost predicate OwnStep<K>(step: Step<K>, t: nat) {
    (step.Sample? || step.Touch? || step.Promote? || step.Expire?) && step.thread == t
  }

  lemma {:induction false} StaysPending<K(!new)>(
    cfg: Config, states: seq<State<K>>, steps: seq<Step<K>>, t: nat, a: nat, b: nat)
    requires IsRun(cfg, states, steps) && a <= b <= |steps| && t in states[a].pending
    requires forall m :: a <= m < b ==> !OwnStep(steps[m], t)
    ensures t in states[b].pending && states[b].pending[t] == states[a].pending[t]
    decreases b
  {
    hide Insert, Without, MoveToFront, StaleOrder, Find;
    if a < b {
      StaysPending(cfg, states, steps, t, a, b - 1);
      assert !OwnStep(steps[b - 1], t);
      assert states[b] == Next(cfg, states[b - 1], steps[b - 1]);
    }
  }

  /** The step takes a hit number. */
  ghost predicate Samples<K>(s: State<K>, step: Step<K>) {
    step.Sample? && step.thread in s.pending && s.pending[step.thread].Sampling?
  }

  ghost function SampledBefore<K>(states: seq<State<K>>, steps: seq<Step<K>>, n: nat): nat
    requires n <= |steps| <= |states|
  {
    if n == 0 then 0
    else SampledBefore(states, steps, n - 1) + if Samples(states[n - 1], steps[n - 1]) then 1 else 0
  }

  /** The step touches the item of this identity. */
  ghost predicate Touches<K>(s: State<K>, step: Step<K>, id: nat) {
    && step.Touch? && step.thread in s.pending && s.pending[step.thread].Touching?
    && s.pending[step.thread].item.id == id
  }

  ghost predicate TouchedBefore<K>(states: seq<State<K>>, steps: seq<Step<K>>, n: nat, id: nat)
    requires n <= |steps| <= |states|
  {
    exists m :: 0 <= m < n && Touches(states[m], steps[m], id)
  }

  lemma {:induction false} HitsCounted<K(!new)>(cfg: Config, states: seq<State<K>>, steps: seq<Step<K>>, n: nat)
    requires IsRun(cfg, states, steps) && n <= |steps|
    ensures states[n].hits == SampledBefore(states, steps, n)
  {
    hide Next, Samples;
    if n > 0 {
      HitsCounted(cfg, states, steps, n - 1);
      HitsStep(cfg, states[n - 1], steps[n - 1]);
      assert states[n] == Next(cfg, states[n - 1], steps[n - 1]);
    }
  }

  lemma HitsStep<K(!new)>(cfg: Config, s: State<K>, step: Step<K>)
    requires s.capacity >= 1
    ensures Next(cfg, s, step).hits == s.hits + if Samples(s, step) then 1 else 0
  {
    hide Insert, Without, MoveToFront, StaleOrder, Find;
  }

  lemma {:induction false} TouchesRecorded<K(!new)>(
    cfg: Config, states: seq<State<K>>, steps: seq<Step<K>>, n: nat, id: nat)
    requires IsRun(cfg, states, steps) && n <= |steps|
    ensures id in states[n].touched <==> TouchedBefore(states, steps, n, id)
  {
    if n > 0 {
      TouchesRecorded(cfg, states, steps, n - 1, id);
      assert states[n] == Next(cfg, states[n - 1], steps[n - 1]);
      assert id in states[n].touched <==> id in states[n - 1].touched || Touches(states[n - 1], steps[n - 1], id);
    }
  }

  /** A Get that finds a live item, takes its hit number in step i and touches the item in
      step j goes on to promote it exactly if no Get touched the item before or the hit is
      the sixteenth, thirty-second, ... of the run.  Other threads do anything meanwhile. */
  lemma HitPromotesExactly<K(!new)>(
    cfg: Config, states: seq<State<K>>, steps: seq<Step<K>>, t: nat, l: nat, i: nat, j: nat, x: Item<K>)
    requires IsRun(cfg, states, steps) && l < i < j < |steps|
    requires steps[l].Lookup? && steps[l].thread == t && steps[i] == Sample(t) && steps[j] == Touch(t)
    requires forall m :: l < m < j && m != i ==> !OwnStep(steps[m], t)
    requires t !in states[l].pending && x in states[l].order && x.key == steps[l].key && steps[l].now < x.expireTime
    ensures t in states[j + 1].pending
        <==> !TouchedBefore(states, steps, j, x.id) || (SampledBefore(states, steps, i) + 1) % 16 == 0
    ensures t in states[j + 1].pending ==> states[j + 1].pending[t] == Promoting(x)
    ensures states[j + 1].order == states[j].order
  {
    hide Insert, Without, MoveToFront, StaleOrder, SampledBefore, TouchedBefore;
    OnePerKey(cfg, states, steps, l);
    var k := Find(states[l].order, x.key);
    assert states[l].order[k] == x;
    assert states[l + 1] == Next(cfg, states[l], steps[l]);
    StaysPending(cfg, states, steps, t, l + 1, i);
    assert states[i + 1] == Next(cfg, states[i], steps[i]);
    StaysPending(cfg, states, steps, t, i + 1, j);
    assert states[j + 1] == Next(cfg, states[j], steps[j]);
    HitsCounted(cfg, states, steps, i);
    TouchesRecorded(cfg, states, steps, j, x.id);
  }

  /** The promotion itself, whenever it gets the lock: the item goes first if the list still
      holds that very item, the others keep their order, and the Get is over. */
  lemma PromotionExactly<K(!new)>(
    cfg: Config, states: seq<State<K>>, steps: seq<Step<K>>, t: nat, j: nat, p: nat, x: Item<K>, k: nat)
    requires IsRun(cfg, states, steps) && j <= p < |steps| && steps[p] == Promote(t)
    requires t in states[j].pending && states[j].pending[t] == Promoting(x)
    requires forall m :: j <= m < p ==> !OwnStep(steps[m], t)
    ensures t !in states[p + 1].pending && states[p + 1].touched == states[p].touched
    ensures x !in states[p].order ==> states[p + 1].order == states[p].order
    ensures k < |states[p].order| && states[p].order[k] == x
        ==> states[p + 1].order == [x] + states[p].order[..k] + states[p].order[k + 1..]
  {
    StaysPending(cfg, states, steps, t, j, p);
    assert states[p + 1] == Next(cfg, states[p], steps[p]);
    OnePerKey(cfg, states, steps, p);
    if k < |states[p].order| && states[p].order[k] == x {
      PromotesToFront(states[p].order, k);
    }
  }

  // --- The bound

  /** From any write on, up to the next change of capacity, the shard is within its
      capacity, however many entries it held before that write. */
  lemma {:induction false} WithinCapacity<K(!new)>(
    cfg: Config, states: seq<State<K>>, steps: seq<Step<K>>, w: nat, n: nat)
    requires IsRun(cfg, states, steps) && w < n <= |steps| && steps[w].Write?
    requires forall m :: w < m < n ==> !steps[m].Resize?
    ensures |states[n].order| <= states[n].capacity
  {
    OnePerKey(cfg, states, steps, n - 1);
    if w < n - 1 {
      WithinCapacity(cfg, states, steps, w, n - 1);
    }
    StepKeepsBound(cfg, states[n - 1], steps[n - 1]);
  }

  lemma StepKeepsBound<K(!new)>(cfg: Config, s: State<K>, step: Step<K>)
    requires s.capacity >= 1 && DistinctKeys(s.order)
    requires step.Write? || (!step.Resize? && |s.order| <= s.capacity)
    ensures |Next(cfg, s, step).order| <= Next(cfg, s, step).capacity
  {
    match step
    case Write(id, key, now, w) => InsertIsLru(s.order, Stored(cfg, id, key, now, w), s.capacity);
    case Promote(t) =>
      if t in s.pending && s.pending[t].Promoting? { MoveKeepsOnePerKey(s.order, s.pending[t].item); }
    case Expire(t) =>
      if t in s.pending && s.pending[t].Expiring? { WithoutMembers(s.order, iset{s.pending[t].item.key}); }
    case Delete(key) => WithoutMembers(s.order, iset{key});
    case Stale(key, now) =>
      WithoutMembers(s.order, iset{key});
      var i := Find(s.order, key);
      if i < |s.order| { MoveKeepsOnePerKey(s.order, s.order[i]); }
    case Invalidate(doomed) => WithoutMembers(s.order, KeysWhere(doomed));
    case _ =>
  }

  // --- Serve-stale

  /** The steps that read the clock. */
  ghost predicate Timed<K>(step: Step<K>) {
    step.Lookup? || step.Stale?
  }

  ghost predicate MonotoneClock<K(!new)>(steps: seq<Step<K>>) {
    forall i, j :: 0 <= i < j < |steps| && Timed(steps[i]) && Timed(steps[j]) ==> steps[i].now <= steps[j].now
  }

  /** The time a pending removal carries is the time of that thread's lookup. */
  lemma {:induction false} ExpiringSinceLookup<K(!new)>(
    cfg: Config, states: seq<State<K>>, steps: seq<Step<K>>, n: nat, t: nat) returns (i: nat)
    requires IsRun(cfg, states, steps) && n <= |steps| && t in states[n].pending && states[n].pending[t].Expiring?
    ensures i < n && steps[i].Lookup? && steps[i].thread == t && steps[i].now == states[n].pending[t].now
  {
    var before := states[n - 1];
    if t in before.pending && before.pending[t] == states[n].pending[t] {
      i := ExpiringSinceLookup(cfg, states, steps, n - 1, t);
    } else {
      i := n - 1;
    }
  }

  /** With serve-stale on and a clock that does not run backwards, what a Get removes is
      past its grace period for every later GetStale: Get never destroys an answer that
      GetStale could still give. */
  lemma GetKeepsServable<K(!new)>(
    cfg: Config, states: seq<State<K>>, steps: seq<Step<K>>, i: nat, j: nat, x: Item<K>)
    requires IsRun(cfg, states, steps) && cfg.serveStale && MonotoneClock(steps)
    requires i < j < |steps| && steps[i].Expire? && steps[j].Stale?
    requires x in states[i].order && x !in states[i + 1].order
    ensures !InGrace(cfg, x, steps[j].now)
  {
    var t := steps[i].thread;
    OnePerKey(cfg, states, steps, i);
    WithoutMembers(states[i].order, iset{states[i].pending[t].item.key});
    assert x == states[i].pending[t].item;
    var l := ExpiringSinceLookup(cfg, states, steps, i, t);
  }

  /** In any run, GetStale comes to something for a key just when an entry of it is held and in
      its grace period; that entry is then the latest write of the key, and it is served if
      that write carried a message, while without a message the source dereferences nil. */
  lemma StaleAnswersLatest<K(!new)>(cfg: Config, states: seq<State<K>>, steps: seq<Step<K>>, i: nat) returns (w: nat)
    requires IsRun(cfg, states, steps) && FreshWrites(steps) && i < |steps| && steps[i].Stale?
    ensures var a := StaleAnswer(cfg, states[i].order, steps[i].key, steps[i].now);
            && (!a.Nothing? <==>
                  exists x :: x in states[i].order && x.key == steps[i].key && InGrace(cfg, x, steps[i].now))
            && (!a.Nothing? ==>
                  && w < i && Writes(cfg, steps[w], a.item) && steps[w].key == steps[i].key
                  && InGrace(cfg, a.item, steps[i].now)
                  && (forall m :: w < m <= i ==> a.item in states[m].order)
                  && (forall m :: w < m < i && steps[m].Write? ==> steps[m].key != steps[w].key)
                  && (a.Served? <==> CacheTtl.CarriesMessage(steps[w].writing)))
  {
    w := 0;
    var order, key, now := states[i].order, steps[i].key, steps[i].now;
    var a := StaleAnswer(cfg, order, key, now);
    OnePerKey(cfg, states, steps, i);
    if x :| x in order && x.key == key && InGrace(cfg, x, now) {
      FindHeld(order, x);
      w := LatestWrite(cfg, states, steps, i, x);
    }
  }

  lemma FindHeld<K(!new)>(order: seq<Item<K>>, x: Item<K>)
    requires DistinctKeys(order) && x in order
    ensures Find(order, x.key) < |order| && order[Find(order, x.key)] == x
  {
    var k :| 0 <= k < |order| && order[k] == x;
    var i := Find(order, x.key);
    assert i <= k;
  }

  /** A negative entry written without a message, asked for in its grace period, ends in the
      nil dereference. */
  lemma MessagelessStale<K(!new)>(key: K) returns (cfg: Config, states: seq<State<K>>, steps: seq<Step<K>>)
    ensures IsRun(cfg, states, steps) && FreshWrites(steps) && |steps| == 2
    ensures steps[0].Write? && steps[0].key == key && steps[0].writing.SetNegative? && steps[1].Stale?
    ensures StaleAnswer(cfg, states[1].order, steps[1].key, steps[1].now).NilDereference?
  {
    cfg := Config(true, 10, CacheTtl.Limits(0, 0, 5));
    var first: Step<K>, second: Step<K> := Write(0, key, 0, CacheTtl.SetNegative), Stale(key, 7);
    var s0: State<K> := Start(1);
    var s1 := Next(cfg, s0, first);
    steps, states := [first, second], [s0, s1, Next(cfg, s1, second)];
    assert s1.order == [Stored(cfg, 0, key, 0, CacheTtl.SetNegative)];
    assert Find(s1.order, key) == 0;
  }

  /** With serve-stale on, time splits for a held key into a range only Get answers, a grace
      range only GetStale answers, provided the entry has a message, and a range neither
      answers. */
  lemma TimeSplits<K(!new)>(cfg: Config, s: State<K>, t: nat, k: nat, now: int)
    requires s.capacity >= 1 && DistinctKeys(s.order) && k < |s.order| && t !in s.pending && cfg.serveStale
    requires cfg.grace >= 0
    ensures var x := s.order[k];
            var got := Next(cfg, s, Lookup(t, x.key, now));
            var after := Next(cfg, s, Stale(x.key, now));
            var stale := StaleAnswer(cfg, s.order, x.key, now);
            && (now < x.expireTime ==> got.pending[t] == Sampling(x) && stale == Nothing && after == s)
            && (x.expireTime <= now < x.expireTime + cfg.grace ==>
                  got.pending[t] == Expiring(x, now) && Next(cfg, got, Expire(t)).order == s.order
                  && stale == (if x.hasMessage then Served(x) else NilDereference(x))
                  && after.order == MoveToFront(s.order, x))
            && (x.expireTime + cfg.grace <= now ==>
                  got.pending[t] == Expiring(x, now) && x !in Next(cfg, got, Expire(t)).order
                  && stale == Nothing && x !in after.order)
  {
    var x := s.order[k];
    assert Find(s.order, x.key) == k;
    WithoutMembers(s.order, iset{x.key});
  }
}
