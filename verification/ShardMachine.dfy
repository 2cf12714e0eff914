/** The heap-allocated shard run under an arbitrary schedule, proved step by step to be
    in the state that module CacheRuns computes for that schedule. */
module ShardMachine {
  import opened Recency
  import opened CacheShard
  import opened CacheRuns
  import opened Durations
  import CacheTtl

  /** A thread inside Get, holding the entry its lookup returned. */
  datatype Live<K(!new)> =
    | LiveSampling(entry: Entry<K>)
    | LiveTouching(entry: Entry<K>, number: nat)
    | LivePromoting(entry: Entry<K>)
    | LiveExpiring(entry: Entry<K>, now: int)
  {
    ghost function View(): Pending<K> {
      match this
      case LiveSampling(e) => Sampling(e.item)
      case LiveTouching(e, number) => Touching(e.item, number)
      case LivePromoting(e) => Promoting(e.item)
      case LiveExpiring(e, now) => Expiring(e.item, now)
    }
  }

  class Machine<K(!new, ==)> {
    const shard: Shard<K>
    const cfg: Config
    var pending: map<nat, Live<K>>
    ghost var made: set<Entry<K>>  // every entry written so far, held or not

    constructor (cfg: Config, total: int)
      ensures Valid() && fresh(shard) && View() == Start(PerShardCapacity(total)) && this.cfg == cfg && made == {}
    {
      shard := new Shard(PerShardCapacity(total));
      this.cfg := cfg;
      pending := map[];
      made := {};
    }

    ghost predicate Valid()
      reads this`pending, this`made, shard, made`prev, made`next
    {
      && shard.Nodes() <= made && shard.Valid()
      && (forall t :: t in pending ==> pending[t].entry in made)
      && (forall e, f :: e in made && f in made && e.item.id == f.item.id ==> e == f)
      && (forall e :: e in made ==> (e.item.hasMessage <==> e.message != null))
    }

    ghost function TouchedIds(): set<nat>
      reads this`made, made`touched
    {
      set e | e in made && e.touched :: e.item.id
    }

    ghost function PendingView(): map<nat, Pending<K>>
      reads this`pending
    {
      map t | t in pending :: pending[t].View()
    }

    ghost function View(): State<K>
      reads this`pending, this`made, shard`order, shard`capacity, shard`hits, made`touched
    {
      State(shard.Abs(), shard.capacity, shard.hits, TouchedIds(), PendingView())
    }

    /** Identity of entries is identity of items. */
    lemma HeldIffListed(e: Entry<K>)
      requires Valid() && e in made
      ensures e in shard.Nodes() <==> e.item in shard.Abs()
    {
      if e.item in shard.Abs() {
        var i :| 0 <= i < |shard.order| && shard.Abs()[i] == e.item;
        assert shard.order[i] in shard.Nodes();
      }
      if e in shard.Nodes() {
        var i :| 0 <= i < |shard.order| && shard.order[i] == e;
        assert shard.Abs()[i] == e.item;
      }
    }

    /** Looking a key up in the map is finding it in the list. */
    lemma FindIsMapped(key: K)
      requires shard.Valid()
      ensures key in shard.entries <==> Find(shard.Abs(), key) < |shard.Abs()|
      ensures key in shard.entries ==> shard.entries[key].item == shard.Abs()[Find(shard.Abs(), key)]
    {
      MappedIsListed(shard.entries, shard.order, key);
      var i := Find(shard.Abs(), key);
      if i < |shard.order| {
        assert shard.order[i].item.key == key;
      } else {
        assert forall j :: 0 <= j < |shard.order| ==> shard.Abs()[j].key != key;
      }
    }

    lemma PendingAt(t: nat)
      ensures t in PendingView() <==> t in pending
      ensures t in pending ==> PendingView()[t] == pending[t].View()
    {
    }

    method Enter(t: nat, live: Live<K>)
      requires Valid() && live.entry in made
      modifies this`pending
      ensures Valid() && PendingView() == old(PendingView())[t := live.View()]
    {
      hide Shard.Linked, Indexes, Items, NodeSet;
      pending := pending[t := live];
    }

    method Lookup(t: nat, key: K, now: int)
      requires Valid()
      modifies this`pending
      ensures Valid() && View() == LookupStep(old(View()), t, key, now)
    {
      hide Shard.Valid, Shard.Abs, NodeSet, Machine.TouchedIds, Machine.PendingView, Find;
      FindIsMapped(key);
      PendingAt(t);
      if t !in pending {
        var found := shard.GetLookup(key, now);
        match found
        case Miss =>
        case Hit(e) => Enter(t, LiveSampling(e));
        case Expired(e) => Enter(t, LiveExpiring(e, now));
      }
    }

    /** Thread t leaves Get. */
    method Leave(t: nat)
      requires Valid()
      modifies this`pending
      ensures Valid() && PendingView() == old(PendingView()) - {t}
    {
      hide Shard.Linked, Indexes, Items, NodeSet;
      pending := pending - {t};
    }

    method Sample(t: nat)
      requires Valid()
      modifies this`pending, shard`hits
      ensures Valid() && View() == SampleStep(old(View()), t)
    {
      hide Shard.Valid, Shard.Abs, Shard.Nodes, NodeSet, Machine.PendingView, Machine.TouchedIds;
      PendingAt(t);
      if t in pending && pending[t].LiveSampling? {
        var number := shard.GetSample();
        Enter(t, LiveTouching(pending[t].entry, number));
      }
    }

    /** Marking e as touched. */
    method TouchEntry(e: Entry<K>, number: nat) returns (promote: bool)
      requires Valid() && e in made
      modifies made`touched
      ensures Valid() && TouchedIds() == old(TouchedIds()) + {e.item.id}
      ensures promote <==> e.item.id !in old(TouchedIds()) || number % 16 == 0
    {
      hide Shard.Linked, Indexes, Items, NodeSet;
      promote := shard.GetTouch(e, number);
      assert forall f :: f in made && f != e ==> f.touched == old(f.touched) && f.item.id != e.item.id;
    }

    method Touch(t: nat)
      requires Valid()
      modifies this`pending, made`touched
      ensures Valid() && View() == TouchStep(old(View()), t)
    {
      hide Shard.Valid, Shard.Abs, Shard.Nodes, NodeSet, Machine.PendingView, Machine.TouchedIds;
      PendingAt(t);
      if t in pending && pending[t].LiveTouching? {
        var e := pending[t].entry;
        var promote := TouchEntry(e, pending[t].number);
        if promote {
          Enter(t, LivePromoting(e));
        } else {
          Leave(t);
        }
      }
    }

    /** The second locked part of Get on a hit, for an entry that may be held or not. */
    method PromoteEntry(e: Entry<K>)
      requires Valid() && e in made
      modifies shard`lruFront, shard`lruBack, shard`order, made`prev, made`next
      ensures Valid()
      ensures shard.Abs() == if e.item in old(shard.Abs()) then MoveToFront(old(shard.Abs()), e.item)
                             else old(shard.Abs())
    {
      hide Shard.Linked, Indexes, Items, NodeSet;
      HeldIffListed(e);
      shard.GetPromote(e.item.key, e);
    }

    method Promote(t: nat)
      requires Valid()
      modifies this`pending, shard`lruFront, shard`lruBack, shard`order, made`prev, made`next
      ensures Valid() && View() == PromoteStep(old(View()), t)
    {
      hide Shard.Valid, Shard.Abs, Shard.Nodes, NodeSet, Machine.PendingView, Machine.TouchedIds, MoveToFront;
      PendingAt(t);
      if t in pending && pending[t].LivePromoting? {
        PromoteEntry(pending[t].entry);
        Leave(t);
      }
    }

    /** The second locked part of Get on an expired entry. */
    method ExpireEntry(e: Entry<K>, now: int)
      requires Valid() && e in made
      modifies shard`entries, shard`lruFront, shard`lruBack, shard`order, made`prev, made`next
      ensures Valid()
      ensures shard.Abs() == if e.item in old(shard.Abs())
                                && (cfg.serveStale ==> e.item.StaleDeadlineReached(now, cfg.grace))
                             then Without(old(shard.Abs()), iset{e.item.key})
                             else old(shard.Abs())
    {
      hide Shard.Linked, Indexes, Items, NodeSet;
      HeldIffListed(e);
      shard.GetExpire(e.item.key, e, now, cfg.serveStale, cfg.grace);
    }

    method Expire(t: nat)
      requires Valid()
      modifies this`pending, shard`entries, shard`lruFront, shard`lruBack, shard`order, made`prev, made`next
      ensures Valid() && View() == ExpireStep(cfg, old(View()), t)
    {
      hide Shard.Valid, Shard.Abs, Shard.Nodes, NodeSet, Machine.PendingView, Machine.TouchedIds, Without;
      PendingAt(t);
      if t in pending && pending[t].LiveExpiring? {
        ExpireEntry(pending[t].entry, pending[t].now);
        Leave(t);
      }
    }

    /** A new entry, then addEntry under the lock. */
    method Store(item: Item<K>, message: CacheTtl.Message?)
      requires Valid() && (forall e :: e in made ==> e.item.id != item.id) && (item.hasMessage <==> message != null)
      modifies this`made, shard`entries, shard`lruFront, shard`lruBack, shard`order, made`prev, made`next
      ensures Valid() && View() == old(View()).(order := Insert(old(View()).order, item, old(View()).capacity))
      ensures forall e :: e in made ==> e in old(made) || (fresh(e) && e.item == item)
    {
      hide Shard.Linked, Indexes, Items;
      var entry := new Entry(item, message);
      assert entry !in shard.Nodes();
      made := made + {entry};
      shard.AddEntry(entry);
      assert TouchedIds() == old(TouchedIds());
    }

    /** setInternal: the clamped lifetime counts from the clock reading under the lock.  The
        message is already a copy. */
    method SetInternal(id: nat, key: K, message: CacheTtl.Message?, ttl: nat, now: int)
      requires Valid() && forall e :: e in made ==> e.item.id != id
      modifies this`made, shard`entries, shard`lruFront, shard`lruBack, shard`order, made`prev, made`next
      ensures Valid() && View() == Next(cfg, old(View()), Step.Write(id, key, now, CacheTtl.Set(ttl, message != null)))
      ensures forall e :: e in made ==> e in old(made) || (fresh(e) && e.item.id == id)
    {
      hide Shard.Linked, Indexes, Items, NodeSet, Machine.TouchedIds, Machine.PendingView, Insert;
      var duration := ttl * SECOND;
      if duration < cfg.limits.minTTL {
        duration := cfg.limits.minTTL;
      }
      if cfg.limits.maxTTL > 0 && duration > cfg.limits.maxTTL {
        duration := cfg.limits.maxTTL;
      }
      Store(Item(id, key, now, now + duration, message != null), message);
    }

    /** setNegativeEntry. */
    method SetNegativeEntry(id: nat, key: K, message: CacheTtl.Message?, duration: int, now: int)
      requires Valid() && forall e :: e in made ==> e.item.id != id
      modifies this`made, shard`entries, shard`lruFront, shard`lruBack, shard`order, made`prev, made`next
      ensures Valid()
      ensures var item := Item(id, key, now, now + CacheTtl.Clamp(duration, cfg.limits), message != null);
              View() == old(View()).(order := Insert(old(View()).order, item, old(View()).capacity))
      ensures forall e :: e in made ==> e in old(made) || (fresh(e) && e.item.id == id)
    {
      hide Shard.Linked, Indexes, Items, NodeSet, Machine.TouchedIds, Machine.PendingView, Insert;
      var ttl := duration;
      if ttl < cfg.limits.minTTL {
        ttl := cfg.limits.minTTL;
      }
      if cfg.limits.maxTTL > 0 && ttl > cfg.limits.maxTTL {
        ttl := cfg.limits.maxTTL;
      }
      Store(Item(id, key, now, now + ttl, message != null), message);
    }

    /** SetNegative, SetNegativeWithTTL and SetNegativeMessage: the first two store no message,
        and the last two apply the configured ceiling. */
    method SetNegative(id: nat, key: K, message: CacheTtl.Message?, writing: CacheTtl.Writing, now: int)
      requires Valid() && forall e :: e in made ==> e.item.id != id
      requires !writing.Set? && (message != null <==> CacheTtl.CarriesMessage(writing))
      modifies this`made, shard`entries, shard`lruFront, shard`lruBack, shard`order, made`prev, made`next
      ensures Valid() && View() == Next(cfg, old(View()), Step.Write(id, key, now, writing))
      ensures forall e :: e in made ==> e in old(made) || (fresh(e) && e.item.id == id)
    {
      hide Shard.Linked, Indexes, Items, NodeSet, Machine.TouchedIds, Machine.PendingView, Insert;
      var d;
      match writing {
        case SetNegative => d := cfg.limits.negativeTTL;
        case SetNegativeWithTTL(soa) => d := soa * SECOND;
        case SetNegativeMessage(soa, _) =>
          d := soa * SECOND;
          if d <= 0 {
            d := cfg.limits.negativeTTL;
          }
      }
      if !writing.SetNegative? && cfg.limits.negativeTTL > 0 && d > cfg.limits.negativeTTL {
        d := cfg.limits.negativeTTL;
      }
      SetNegativeEntry(id, key, message, d, now);
    }

    /** GetStale on the heap, with the outcome that the run computes. */
    method Stale(key: K, now: int) returns (r: CacheTtl.Stale)
      requires Valid()
      modifies shard`entries, shard`lruFront, shard`lruBack, shard`order, made`prev, made`next
      ensures Valid() && shard.Abs() == StaleOrder(cfg, old(shard.Abs()), key, now)
      ensures Agrees(r, StaleAnswer(cfg, old(shard.Abs()), key, now))
      ensures r.Served? ==> CacheTtl.AtMost(CacheTtl.View(r.message), CacheTtl.STALE_TTL)
    {
      hide Shard.Valid, Shard.Abs, Shard.Nodes, NodeSet;
      hide Find, Without, MoveToFront, CacheTtl.View, CacheTtl.Capped, CacheTtl.AtMost;
      FindIsMapped(key);
      MappedIsMade(key);
      r := shard.GetStale(key, now, cfg.serveStale, cfg.grace);
    }

    lemma MappedIsMade(key: K)
      requires Valid()
      ensures key in shard.entries ==> shard.entries[key] in made
    {
      MappedIsListed(shard.entries, shard.order, key);
    }

    /** The steps that are one locked operation of the shard. */
    method Locked(step: Step<K>)
      requires Valid()
      requires step.Delete? || step.EvictPercent? || step.Invalidate? || step.Clear? || step.Resize?
      modifies shard`entries, shard`lruFront, shard`lruBack, shard`order, shard`capacity, made`prev, made`next
      ensures Valid() && View() == Next(cfg, old(View()), step)
    {
      hide Shard.Linked, Indexes, NodeSet, Items, Machine.TouchedIds, Machine.PendingView;
      hide LookupStep, SampleStep, TouchStep, PromoteStep, ExpireStep, StaleOrder;
      match step
      case Delete(key) => var _ := shard.Delete(key);
      case EvictPercent(percent) => Evict(percent);
      case Invalidate(doomed) => var _ := shard.RemoveMatching(doomed);
      case Clear => Clear();
      case Resize(total) => shard.capacity := PerShardCapacity(total);
    }

    method Evict(percent: int)
      requires Valid()
      modifies shard`entries, shard`lruFront, shard`lruBack, shard`order, made`prev, made`next
      ensures Valid()
      ensures shard.Abs() == old(shard.Abs())[..|old(shard.Abs())| - EvictCount(|old(shard.Abs())|, percent)]
    {
      hide Shard.Linked, Indexes;
      shard.EvictPercent(percent);
    }

    method Clear()
      requires Valid()
      modifies shard`entries, shard`lruFront, shard`lruBack, shard`order, made`prev, made`next
      ensures Valid() && shard.Abs() == []
    {
      hide Shard.Linked, Indexes;
      shard.Clear();
    }

    /** One step; a write comes with its message, a GetStale with its outcome. */
    method Perform(step: Step<K>, message: CacheTtl.Message?) returns (r: CacheTtl.Stale)
      requires Valid() && (step.Write? ==> forall e :: e in made ==> e.item.id != step.id)
      requires step.Write? ==> (message != null <==> CacheTtl.CarriesMessage(step.writing))
      modifies this, shard, made
      ensures Valid() && View() == Next(cfg, old(View()), step)
      ensures step.Stale? ==> Agrees(r, StaleAnswer(cfg, old(View()).order, step.key, step.now))
      ensures forall e :: e in made ==> e in old(made) || (fresh(e) && step.Write? && e.item.id == step.id)
    {
      hide Shard.Linked, Indexes, Items, NodeSet, Machine.TouchedIds, Machine.PendingView;
      hide LookupStep, SampleStep, TouchStep, PromoteStep, ExpireStep, StaleOrder, StaleAnswer, Stored, Insert;
      hide CacheTtl.View, CacheTtl.AtMost;
      r := CacheTtl.Nothing;
      match step
      case Lookup(t, key, now) => Lookup(t, key, now);
      case Sample(t) => Sample(t);
      case Touch(t) => Touch(t);
      case Promote(t) => Promote(t);
      case Expire(t) => Expire(t);
      case Write(id, key, now, writing) =>
        if writing.Set? {
          SetInternal(id, key, message, writing.ttlSeconds, now);
        } else {
          SetNegative(id, key, message, writing, now);
        }
      case Stale(key, now) => r := Stale(key, now);
      case _ => Locked(step);
    }

    /** Any schedule: the list walked through the heap is the recency list of the run, and
        every GetStale comes to what the run says. */
    method Run(steps: seq<Step<K>>, messages: seq<CacheTtl.Message?>)
      returns (ghost states: seq<State<K>>, answers: seq<CacheTtl.Stale>)
      requires Valid() && View() == Start(shard.capacity) && made == {} && FreshWrites(steps)
      requires |messages| == |steps| && forall i :: 0 <= i < |steps| && steps[i].Write? ==>
                 (messages[i] != null <==> CacheTtl.CarriesMessage(steps[i].writing))
      modifies this, shard
      ensures Valid() && IsRun(cfg, states, steps) && states[0] == old(View()) && View() == states[|steps|]
      ensures |answers| == |steps| && forall i :: 0 <= i < |steps| && steps[i].Stale? ==>
                Agrees(answers[i], StaleAnswer(cfg, states[i].order, steps[i].key, steps[i].now))
    {
      hide Shard.Linked, Indexes, Items, NodeSet, Machine.TouchedIds, Machine.PendingView, Next, StaleAnswer;
      states, answers := [View()], [];
      for i := 0 to |steps|
        invariant Valid() && fresh(made) && |states| == i + 1 && View() == states[i]
        invariant states[0] == old(View()) && IsRun(cfg, states, steps[..i])
        invariant forall e :: e in made ==> exists w :: 0 <= w < i && steps[w].Write? && steps[w].id == e.item.id
        invariant |answers| == i && forall j :: 0 <= j < i && steps[j].Stale? ==>
                    Agrees(answers[j], StaleAnswer(cfg, states[j].order, steps[j].key, steps[j].now))
      {
        var r := Perform(steps[i], messages[i]);
        states, answers := states + [View()], answers + [r];
      }
      assert steps[..|steps|] == steps;
    }
  }

  /** The outcome on the heap is of the kind that the run computes. */
  ghost predicate Agrees<K(!new)>(r: CacheTtl.Stale, a: Answer<K>) {
    && (r.Nothing? <==> a.Nothing?) && (r.Served? <==> a.Served?)
    && (r.NilDereference? <==> a.NilDereference?)
  }
}
