/** The aggressive negative cache: NSEC records keyed by owner, looked up by range, with
    eviction to a maximum size. */
module NsecCache {
  import opened Text
  import opened CanonicalOrder
  import opened Durations
  import opened NsecRing
  import opened Wrappers

  datatype Entry = Entry(owner: Name, next: Name, types: seq<nat>, expire: int) {
    predicate Expired(now: int) {
      now >= expire
    }
  }

  /** What a lookup synthesises, and from which cached record. */
  datatype Answer = Nothing | NxDomain(key: string) | NoData(key: string)

  /** Name.String: labels joined with dots and a final dot. */
  function Presentation(name: Name): string {
    Join(name, '.') + "."
  }

  /** The map key of a record. */
  function KeyOf(owner: Name): string {
    Lower(Presentation(owner))
  }

  predicate Denies(e: Entry, name: Name, now: int) {
    !e.Expired(now) && InRange(name, e.owner, e.next)
  }

  predicate ProvesNoData(e: Entry, name: Name, qtype: nat, now: int) {
    !e.Expired(now) && !InRange(name, e.owner, e.next) && Compare(name, e.owner) == 0 && qtype !in e.types
  }

  /** What lookupAt may return, whatever order the map is visited in. */
  ghost predicate MayAnswer(entries: map<string, Entry>, name: Name, qtype: nat, now: int, a: Answer) {
    match a
    case NxDomain(key) => key in entries && Denies(entries[key], name, now)
    case NoData(key) => key in entries && ProvesNoData(entries[key], name, qtype, now)
    case Nothing => forall k :: k in entries ==>
                      !Denies(entries[k], name, now) && !ProvesNoData(entries[k], name, qtype, now)
  }

  /** lookupAt; a name that does not parse is answered with nothing. */
  method LookupAt(entries: map<string, Entry>, qname: Option<Name>, qtype: nat, now: int) returns (a: Answer)
    ensures qname.None? ==> a == Nothing
    ensures qname.Some? ==> MayAnswer(entries, qname.value, qtype, now, a)
    ensures a.NxDomain? ==> a.key in entries && now < entries[a.key].expire
                            && InRange(qname.value, entries[a.key].owner, entries[a.key].next)
    ensures a.NoData? ==> a.key in entries && now < entries[a.key].expire && qtype !in entries[a.key].types
                          && Compare(qname.value, entries[a.key].owner) == 0
  {
    if qname.None? {
      return Nothing;
    }
    var name := qname.value;
    var todo := entries.Keys;
    while todo != {}
      invariant todo <= entries.Keys
      invariant forall k :: k in entries && k !in todo ==>
                  !Denies(entries[k], name, now) && !ProvesNoData(entries[k], name, qtype, now)
      decreases |todo|
    {
      var key :| key in todo;
      todo := todo - {key};
      var e := entries[key];
      if !e.Expired(now) {
        if InRange(name, e.owner, e.next) {
          return NxDomain(key);
        }
        var cmp := CompareNames(name, e.owner);
        if cmp == 0 && qtype !in e.types {
          return NoData(key);
        }
      }
    }
    return Nothing;
  }

  // --- Entries that come from one ring

  /** Record i of the ring, up to case. */
  ghost predicate IsRecord(owners: seq<Name>, e: Entry, i: nat) {
    i < |owners| && Same(e.owner, owners[i]) && Same(e.next, owners[NextIndex(owners, i)])
  }

  ghost predicate FromRing(owners: seq<Name>, entries: map<string, Entry>) {
    forall k :: k in entries ==> k == KeyOf(entries[k].owner) && exists i :: IsRecord(owners, entries[k], i)
  }

  lemma RecordCovers(owners: seq<Name>, e: Entry, i: nat, name: Name)
    requires IsRecord(owners, e, i)
    ensures InRange(name, e.owner, e.next) <==> Covers(owners, i, name)
  {
    CompareSame(e.owner, owners[i], name);
    CompareSame(e.next, owners[NextIndex(owners, i)], name);
    CompareSame(e.owner, owners[i], e.next);
    CompareSame(e.next, owners[NextIndex(owners, i)], owners[i]);
  }

  lemma {:induction false} SameKey(a: Name, b: Name)
    requires Same(a, b)
    ensures KeyOf(a) == KeyOf(b)
  {
    SameJoin(a, b);
    assert KeyOf(a) == Lower(Join(a, '.')) + ".";
    assert KeyOf(b) == Lower(Join(b, '.')) + ".";
  }

  lemma {:induction false} SameJoin(a: Name, b: Name)
    requires Same(a, b)
    ensures Lower(Join(a, '.')) == Lower(Join(b, '.'))
  {
    if |a| > 1 {
      SameJoin(a[1..], b[1..]);
      assert Lower(Join(a, '.')) == Lower(a[0]) + "." + Lower(Join(a[1..], '.'));
      assert Lower(Join(b, '.')) == Lower(b[0]) + "." + Lower(Join(b[1..], '.'));
    }
  }

  /** Two cached records of the same ring position are the same cached record. */
  lemma OneEntryPerRecord(owners: seq<Name>, entries: map<string, Entry>, k: string, k': string, i: nat)
    requires FromRing(owners, entries) && k in entries && k' in entries
    requires IsRecord(owners, entries[k], i) && IsRecord(owners, entries[k'], i)
    ensures k == k'
  {
    SameKey(entries[k].owner, entries[k'].owner);
  }

  /** For records of one ring, no-data is only answered for an owner, from its own record. */
  lemma NoDataMeansOwner(owners: seq<Name>, entries: map<string, Entry>, name: Name, qtype: nat, now: int, a: Answer)
    requires FromRing(owners, entries) && MayAnswer(entries, name, qtype, now, a) && a.NoData?
    ensures IsOwner(owners, name) && a.key == KeyOf(name)
  {
    var e := entries[a.key];
    var i: nat :| IsRecord(owners, e, i);
    NameOrder(name, e.owner);
    SameKey(name, e.owner);
    assert Same(name, owners[i]);
  }

  /** For records of one ring a name that owns a record is never denied. */
  lemma OwnerNeverDenied(owners: seq<Name>, entries: map<string, Entry>, name: Name, qtype: nat, now: int, a: Answer)
    requires Ascending(owners) && FromRing(owners, entries) && IsOwner(owners, name)
    requires MayAnswer(entries, name, qtype, now, a)
    ensures !a.NxDomain?
  {
    if a.NxDomain? {
      var i :| IsRecord(owners, entries[a.key], i);
      var j :| 0 <= j < |owners| && Same(name, owners[j]);
      RecordCovers(owners, entries[a.key], i, name);
      OwnerNotCovered(owners, i, j, name);
    }
  }

  /** For records of one ring the answer does not depend on the order of the visit. */
  lemma AnswerUnique(
    owners: seq<Name>, entries: map<string, Entry>, name: Name, qtype: nat, now: int, a: Answer, b: Answer)
    requires Ascending(owners) && FromRing(owners, entries)
    requires MayAnswer(entries, name, qtype, now, a) && MayAnswer(entries, name, qtype, now, b)
    ensures a == b
  {
    if a.NoData? { NoDataMeansOwner(owners, entries, name, qtype, now, a); }
    if b.NoData? { NoDataMeansOwner(owners, entries, name, qtype, now, b); }
    if IsOwner(owners, name) {
      OwnerNeverDenied(owners, entries, name, qtype, now, a);
      OwnerNeverDenied(owners, entries, name, qtype, now, b);
    } else if a.NxDomain? && b.NxDomain? {
      var i :| IsRecord(owners, entries[a.key], i);
      var j :| IsRecord(owners, entries[b.key], j);
      RecordCovers(owners, entries[a.key], i, name);
      RecordCovers(owners, entries[b.key], j, name);
      var only := CoveredOnce(owners, name);
      OneEntryPerRecord(owners, entries, a.key, b.key, i);
    }
  }

  /** For records of one ring: a name is denied just when an unexpired cached record covers it,
      and has no data of a type just when its own unexpired cached record does not list it. */
  lemma AnswersExactly(owners: seq<Name>, entries: map<string, Entry>, name: Name, qtype: nat, now: int, a: Answer)
    requires Ascending(owners) && FromRing(owners, entries) && MayAnswer(entries, name, qtype, now, a)
    ensures a.NxDomain? <==>
              exists k :: k in entries && now < entries[k].expire && InRange(name, entries[k].owner, entries[k].next)
    ensures a.NoData? <==>
              exists k :: k in entries && now < entries[k].expire && Same(name, entries[k].owner) && qtype !in entries[k].types
  {
    if k :| k in entries && now < entries[k].expire && InRange(name, entries[k].owner, entries[k].next) {
      CoveredIsDenied(owners, entries, name, qtype, now, a, k);
    }
    if k :| k in entries && now < entries[k].expire && Same(name, entries[k].owner) && qtype !in entries[k].types {
      OwnerHasNoData(owners, entries, name, qtype, now, a, k);
    }
    if a.NoData? {
      NameOrder(name, entries[a.key].owner);
    }
  }

  lemma CoveredIsDenied(owners: seq<Name>, entries: map<string, Entry>, name: Name, qtype: nat, now: int, a: Answer, k: string)
    requires Ascending(owners) && FromRing(owners, entries) && MayAnswer(entries, name, qtype, now, a)
    requires k in entries && now < entries[k].expire && InRange(name, entries[k].owner, entries[k].next)
    ensures a.NxDomain?
  {
    assert Denies(entries[k], name, now);
    if a.NoData? {
      NoDataMeansOwner(owners, entries, name, qtype, now, a);
      OwnerNeverDenied(owners, entries, name, qtype, now, NxDomain(k));
    }
  }

  lemma OwnerHasNoData(owners: seq<Name>, entries: map<string, Entry>, name: Name, qtype: nat, now: int, a: Answer, k: string)
    requires Ascending(owners) && FromRing(owners, entries) && MayAnswer(entries, name, qtype, now, a)
    requires k in entries && now < entries[k].expire && Same(name, entries[k].owner) && qtype !in entries[k].types
    ensures a.NoData?
  {
    var i: nat :| IsRecord(owners, entries[k], i);
    SameTransitive(name, entries[k].owner, owners[i]);
    OwnerNeverDenied(owners, entries, name, qtype, now, a);
    NameOrder(name, entries[k].owner);
    RecordCovers(owners, entries[k], i, name);
    OwnerNotCovered(owners, i, i, name);
    assert ProvesNoData(entries[k], name, qtype, now);
  }

  lemma SameTransitive(a: Name, b: Name, c: Name)
    requires Same(a, b) && Same(b, c)
    ensures Same(a, c)
  {
  }

  // --- Filling the cache

  /** Authority records of a response, as far as AddFromResponse looks at them. */
  datatype Authority =
    | Soa(minimum: nat)
    | Nsec(owner: Name, next: Name, types: seq<nat>, ttl: nat)
    | OtherRecord

  /** The SOA minimum of the first usable SOA record, if any. */
  function FirstMinimum(authorities: seq<Authority>): Option<nat> {
    if authorities == [] then None
    else if authorities[0].Soa? then Some(authorities[0].minimum)
    else FirstMinimum(authorities[1..])
  }

  /** What the cache stores for one NSEC record of a response. */
  function EntryFor(r: Authority, minimum: Option<nat>, now: int): Entry
    requires r.Nsec?
  {
    var ttl := if minimum.Some? && minimum.value < r.ttl then minimum.value else r.ttl;
    Entry(r.owner, r.next, r.types, now + ttl * SECOND)
  }

  /** The minimum is that of the first SOA record. */
  lemma {:induction false} FirstMinimumIs(authorities: seq<Authority>, i: nat)
    requires i < |authorities| && authorities[i].Soa? && forall j :: 0 <= j < i ==> !authorities[j].Soa?
    ensures FirstMinimum(authorities) == Some(authorities[i].minimum)
  {
    if i > 0 {
      FirstMinimumIs(authorities[1..], i - 1);
    }
  }

  /** A cached record lives, from when it is stored, for the smaller of its TTL and the SOA
      minimum, in seconds. */
  lemma LivesForSmaller(r: Authority, minimum: Option<nat>, now: int)
    requires r.Nsec?
    ensures var e := EntryFor(r, minimum, now);
            && e.owner == r.owner && e.next == r.next && e.types == r.types
            && e.expire <= now + r.ttl * 1_000_000_000
            && (minimum.Some? ==> e.expire <= now + minimum.value * 1_000_000_000)
            && (e.expire == now + r.ttl * 1_000_000_000
                || (minimum.Some? && e.expire == now + minimum.value * 1_000_000_000))
  {
  }

  class Store {
    var entries: map<string, Entry>
    const maxSize: nat

    constructor (maxSize: int)
      ensures entries == map[] && this.maxSize == if maxSize <= 0 then 10000 else maxSize
    {
      entries := map[];
      this.maxSize := if maxSize <= 0 then 10000 else maxSize;
    }

    /** evictExpiredAt. */
    method EvictExpired(now: int)
      modifies this
      ensures entries == map k | k in old(entries) && !old(entries)[k].Expired(now) :: old(entries)[k]
    {
      var todo := entries.Keys;
      while todo != {}
        invariant todo <= old(entries).Keys
        invariant entries == map k | k in old(entries) && (k in todo || !old(entries)[k].Expired(now)) :: old(entries)[k]
        decreases |todo|
      {
        var key :| key in todo;
        todo := todo - {key};
        if entries[key].Expired(now) {
          entries := entries - {key};
        }
      }
    }

    /** The inner loop of evictToMaxSize: an entry that expires first. */
    method Oldest() returns (key: string)
      requires entries != map[] && "" !in entries
      ensures key in entries && forall k :: k in entries ==> entries[key].expire <= entries[k].expire
    {
      key := "";
      var oldest := 0;
      var todo := entries.Keys;
      while todo != {}
        invariant todo <= entries.Keys
        invariant key == "" ==> todo == entries.Keys
        invariant key != "" ==> key in entries && oldest == entries[key].expire
        invariant forall k :: k in entries && k !in todo ==> oldest <= entries[k].expire
        decreases |todo|
      {
        var k :| k in todo;
        todo := todo - {k};
        if key == "" || entries[k].expire < oldest {
          key, oldest := k, entries[k].expire;
        }
      }
      assert entries.Keys != {};
    }

    /** evictToMaxSize: the expired entries go first, then those that expire soonest. */
    method EvictToMaxSize(now: int)
      requires "" !in entries
      modifies this
      ensures Evicted(old(entries), maxSize, now, entries)
    {
      EvictExpired(now);
      ghost var live := entries;
      assert live.Keys == LiveKeys(old(entries), now);
      while |entries| > maxSize
        invariant entries.Keys <= live.Keys && forall k :: k in entries ==> entries[k] == live[k]
        invariant forall k, kept :: k in live && k !in entries && kept in entries ==>
                    live[k].expire <= entries[kept].expire
        invariant entries == live || (|live| > maxSize && |entries| >= maxSize)
        decreases |entries|
      {
        var key := Oldest();
        entries := entries - {key};
      }
    }

    /** Within its size, each entry under the key of its owner. */
    ghost predicate Valid()
      reads this
    {
      |entries| <= maxSize && Keyed(entries)
    }

    /** The body of the record loop, which holds the lock. */
    method Take(authorities: seq<Authority>, i: nat, clock: Clock)
      requires Valid() && i < |authorities|
      modifies this
      ensures Valid() && Stored(old(entries), maxSize, authorities, i, clock, entries)
    {
      var r := authorities[i];
      if r.Nsec? {
        entries := entries[KeyOf(r.owner) := EntryFor(r, FirstMinimum(authorities), clock.stored)];
        KeysNotEmpty(entries);
        if |entries| > maxSize {
          EvictToMaxSize(clock.evicted);
        }
      }
    }

    /** AddFromResponse, with the clock readings of each record.  Only a validated name-error
        response is taken in, record by record, and the cache stays within its size
        throughout. */
    method AddFromResponse(authorities: seq<Authority>, nameError: bool, validated: bool, clocks: seq<Clock>)
      requires Valid() && |clocks| == |authorities|
      modifies this
      ensures Valid()
      ensures !validated || !nameError ==> entries == old(entries)
      ensures validated && nameError ==> exists tables :: IsFilling(tables, maxSize, authorities, |authorities|, clocks)
                                                           && tables[0] == old(entries)
                                                           && tables[|authorities|] == entries
    {
      hide Stored, Keyed;
      if !validated || !nameError {
        return;
      }
      ghost var tables := [entries];
      for i := 0 to |authorities|
        invariant Valid() && IsFilling(tables, maxSize, authorities, i, clocks)
        invariant tables[0] == old(entries) && tables[i] == entries
      {
        Take(authorities, i, clocks[i]);
        tables := tables + [entries];
      }
    }
  }

  /** When a record is stored, and when the eviction after it looks at the clock. */
  datatype Clock = Clock(stored: int, evicted: int)

  ghost function LiveKeys(entries: map<string, Entry>, now: int): set<string> {
    set k | k in entries && !entries[k].Expired(now)
  }

  /** Eviction down to a size: of the live entries as many as fit stay, and none that goes
      expires later than one that stays. */
  ghost predicate Evicted(before: map<string, Entry>, maxSize: nat, now: int, after: map<string, Entry>) {
    var live := LiveKeys(before, now);
    && after.Keys <= live && (forall k :: k in after ==> after[k] == before[k])
    && |after| == (if |live| <= maxSize then |live| else maxSize)
    && forall k, kept :: k in live && k !in after && kept in after ==> before[k].expire <= after[kept].expire
  }

  /** What taking in record i does to the table. */
  ghost predicate Stored(before: map<string, Entry>, maxSize: nat, authorities: seq<Authority>, i: nat, clock: Clock,
                         after: map<string, Entry>)
    requires i < |authorities|
  {
    var r := authorities[i];
    if !r.Nsec? then after == before
    else
      var put := before[KeyOf(r.owner) := EntryFor(r, FirstMinimum(authorities), clock.stored)];
      if |put| <= maxSize then after == put else Evicted(put, maxSize, clock.evicted, after)
  }

  /** The tables while the first n records of a response are taken in. */
  ghost predicate IsFilling(tables: seq<map<string, Entry>>, maxSize: nat, authorities: seq<Authority>, n: nat,
                            clocks: seq<Clock>)
  {
    && n <= |authorities| == |clocks| && |tables| == n + 1
    && forall i :: 0 <= i < n ==> Stored(tables[i], maxSize, authorities, i, clocks[i], tables[i + 1])
  }

  ghost predicate Keyed(entries: map<string, Entry>) {
    forall k :: k in entries ==> k == KeyOf(entries[k].owner)
  }

  /** Every entry was there before or is the entry of one of the first n records. */
  ghost predicate ComesFrom(entries: map<string, Entry>, before: map<string, Entry>, authorities: seq<Authority>,
                            n: nat, clocks: seq<Clock>)
    requires n <= |authorities| == |clocks|
  {
    forall k :: k in entries ==>
      || (k in before && entries[k] == before[k])
      || exists i :: 0 <= i < n && authorities[i].Nsec?
                     && entries[k] == EntryFor(authorities[i], FirstMinimum(authorities), clocks[i].stored)
  }

  /** The table with the entries of the first n records put in, one after the other. */
  ghost function Added(before: map<string, Entry>, authorities: seq<Authority>, n: nat, clocks: seq<Clock>)
    : map<string, Entry>
    requires n <= |authorities| == |clocks|
    decreases n
  {
    if n == 0 then before
    else
      var rest := Added(before, authorities, n - 1, clocks);
      var r := authorities[n - 1];
      if r.Nsec? then rest[KeyOf(r.owner) := EntryFor(r, FirstMinimum(authorities), clocks[n - 1].stored)] else rest
  }

  lemma AddedGrows(before: map<string, Entry>, authorities: seq<Authority>, n: nat, clocks: seq<Clock>)
    requires n < |authorities| == |clocks|
    ensures |Added(before, authorities, n, clocks)| <= |Added(before, authorities, n + 1, clocks)|
  {
    hide KeyOf, EntryFor;
  }

  /** What the cache holds after a response is old or comes from it. */
  lemma {:induction false} FillingComesFrom(
    tables: seq<map<string, Entry>>, maxSize: nat, authorities: seq<Authority>, n: nat, clocks: seq<Clock>)
    requires IsFilling(tables, maxSize, authorities, n, clocks)
    ensures ComesFrom(tables[n], tables[0], authorities, n, clocks)
  {
    hide KeyOf, EntryFor, FirstMinimum;
    if n > 0 {
      FillingComesFrom(tables[..n], maxSize, authorities, n - 1, clocks);
      assert Stored(tables[n - 1], maxSize, authorities, n - 1, clocks[n - 1], tables[n]);
    }
  }

  /** When everything fits, it holds all that it held and all of the response. */
  lemma {:induction false} FillingKeepsAll(
    tables: seq<map<string, Entry>>, maxSize: nat, authorities: seq<Authority>, n: nat, clocks: seq<Clock>)
    requires IsFilling(tables, maxSize, authorities, n, clocks)
    requires |Added(tables[0], authorities, n, clocks)| <= maxSize
    ensures tables[n] == Added(tables[0], authorities, n, clocks)
  {
    hide KeyOf, EntryFor, FirstMinimum, Evicted;
    if n > 0 {
      AddedGrows(tables[0], authorities, n - 1, clocks);
      FillingKeepsAll(tables[..n], maxSize, authorities, n - 1, clocks);
      assert Stored(tables[n - 1], maxSize, authorities, n - 1, clocks[n - 1], tables[n]);
    }
  }

  lemma KeysNotEmpty(entries: map<string, Entry>)
    requires Keyed(entries)
    ensures "" !in entries
  {
    assert forall k :: k in entries ==> |k| == |Presentation(entries[k].owner)|;
  }

  // --- Any number of responses, taken in by any number of threads

  /** One record of some response is taken in. */
  datatype Taking = Taking(authorities: seq<Authority>, i: nat, clock: Clock)

  /** The tables while records are taken in, those of different responses interleaved. */
  ghost predicate IsHistory(tables: seq<map<string, Entry>>, maxSize: nat, takings: seq<Taking>) {
    && |tables| == |takings| + 1
    && forall j :: 0 <= j < |takings| ==>
         && takings[j].i < |takings[j].authorities|
         && Stored(tables[j], maxSize, takings[j].authorities, takings[j].i, takings[j].clock, tables[j + 1])
  }

  /** The record is one of the ring, up to case. */
  ghost predicate OfRing(owners: seq<Name>, r: Authority) {
    r.Nsec? ==> exists j :: IsRecord(owners, EntryFor(r, None, 0), j)
  }

  lemma TakeStaysInRing(owners: seq<Name>, before: map<string, Entry>, maxSize: nat, t: Taking, after: map<string, Entry>)
    requires FromRing(owners, before) && |before| <= maxSize && t.i < |t.authorities|
    requires Stored(before, maxSize, t.authorities, t.i, t.clock, after) && OfRing(owners, t.authorities[t.i])
    ensures FromRing(owners, after) && |after| <= maxSize
  {
    hide KeyOf, FirstMinimum;
    var r := t.authorities[t.i];
    if r.Nsec? {
      var e := EntryFor(r, FirstMinimum(t.authorities), t.clock.stored);
      var j :| IsRecord(owners, EntryFor(r, None, 0), j);
      assert IsRecord(owners, e, j);
      assert FromRing(owners, before[KeyOf(r.owner) := e]);
    }
  }

  /** A cache filled with records of one ring, in whatever interleaving, holds only records of
      that ring and never more than its size. */
  lemma {:induction false} HistoryStaysInRing(
    owners: seq<Name>, tables: seq<map<string, Entry>>, maxSize: nat, takings: seq<Taking>, n: nat)
    requires IsHistory(tables, maxSize, takings) && n <= |takings|
    requires FromRing(owners, tables[0]) && |tables[0]| <= maxSize
    requires forall j :: 0 <= j < |takings| ==> OfRing(owners, takings[j].authorities[takings[j].i])
    ensures FromRing(owners, tables[n]) && |tables[n]| <= maxSize
  {
    hide Stored, FromRing, OfRing;
    if n > 0 {
      HistoryStaysInRing(owners, tables, maxSize, takings, n - 1);
      TakeStaysInRing(owners, tables[n - 1], maxSize, takings[n - 1], tables[n]);
    }
  }
}
