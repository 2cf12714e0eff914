/** Lifetimes: the TTL clamps of writing, and the TTL ageing and clamping of the
    message copies that the cache serves.  Records are heap objects whose TTL is
    updated in place; the cached records themselves never change. */
module CacheTtl {

  import opened Durations

  // --- How long an entry lives

  datatype Limits = Limits(minTTL: int, maxTTL: int, negativeTTL: int)

  /** The clamp of setInternal and setNegativeEntry: maxTTL 0 means no upper bound. */
  function Clamp(duration: int, limits: Limits): (d: int)
    ensures limits.maxTTL > 0 ==> d <= limits.maxTTL
    ensures limits.maxTTL <= 0 || limits.minTTL <= limits.maxTTL ==> d >= limits.minTTL
    ensures limits.minTTL <= duration && (limits.maxTTL > 0 ==> duration <= limits.maxTTL) ==> d == duration
    ensures duration < limits.minTTL && (limits.maxTTL > 0 ==> limits.minTTL <= limits.maxTTL) ==> d == limits.minTTL
    ensures limits.maxTTL > 0 && (duration > limits.maxTTL || limits.minTTL > limits.maxTTL) ==> d == limits.maxTTL
  {
    var low := if duration < limits.minTTL then limits.minTTL else duration;
    if limits.maxTTL > 0 && low > limits.maxTTL then limits.maxTTL else low
  }

  /** The lifetime SetNegativeWithTTL gives an entry for an SOA value in seconds. */
  function NegativeLifetime(soaSeconds: nat, limits: Limits): (d: int)
    ensures limits.negativeTTL > 0 ==> d <= Clamp(limits.negativeTTL, limits)
    ensures limits.maxTTL > 0 ==> d <= limits.maxTTL
  {
    var asked := soaSeconds * SECOND;
    Clamp(if limits.negativeTTL > 0 && asked > limits.negativeTTL then limits.negativeTTL else asked, limits)
  }

  /** The lifetime SetNegativeMessage gives: an SOA value of zero falls back to the
      configured negative TTL. */
  function NegativeMessageLifetime(soaSeconds: nat, limits: Limits): (d: int)
    ensures limits.negativeTTL > 0 ==> d <= Clamp(limits.negativeTTL, limits)
    ensures limits.maxTTL > 0 ==> d <= limits.maxTTL
    ensures soaSeconds > 0 ==> d == NegativeLifetime(soaSeconds, limits)
  {
    var asked := if soaSeconds == 0 then limits.negativeTTL else soaSeconds * SECOND;
    Clamp(if limits.negativeTTL > 0 && asked > limits.negativeTTL then limits.negativeTTL else asked, limits)
  }

  /** The clamps applied after the ceiling do not lift it. */
  predicate CeilingBelowClamps(limits: Limits) {
    limits.minTTL <= limits.negativeTTL || 0 < limits.maxTTL <= limits.negativeTTL
  }

  /** The configured negative TTL bounds what an SOA value can ask for just when the minimum
      does not exceed it, or the maximum cuts back to it. */
  lemma CeilingExactly(limits: Limits)
    requires limits.negativeTTL > 0
    ensures (forall soa: nat :: NegativeLifetime(soa, limits) <= limits.negativeTTL) <==> CeilingBelowClamps(limits)
    ensures (forall soa: nat :: NegativeMessageLifetime(soa, limits) <= limits.negativeTTL) <==>
              CeilingBelowClamps(limits)
  {
    assert NegativeLifetime(limits.negativeTTL, limits) == NegativeMessageLifetime(limits.negativeTTL, limits)
        == Clamp(limits.negativeTTL, limits);
  }

  /** A minimum above the ceiling extends negative caching beyond it. */
  lemma CeilingExceeded()
    ensures var limits := Limits(5 * SECOND, 0, SECOND);
            NegativeLifetime(3600, limits) > limits.negativeTTL && NegativeMessageLifetime(3600, limits) > limits.negativeTTL
  {
  }

  /** The ways to write an entry; `present` is whether the given message is not nil. */
  datatype Writing =
    | Set(ttlSeconds: nat, present: bool)                  // also a completed prefetch
    | SetNegative
    | SetNegativeWithTTL(soaSeconds: nat)
    | SetNegativeMessage(soaSeconds: nat, present: bool)

  /** How long the written entry lives. */
  function Lifetime(w: Writing, limits: Limits): (d: int)
    ensures limits.maxTTL > 0 ==> d <= limits.maxTTL
    ensures limits.maxTTL <= 0 || limits.minTTL <= limits.maxTTL ==> d >= limits.minTTL
  {
    match w
    case Set(ttl, _) => Clamp(ttl * SECOND, limits)
    case SetNegative => Clamp(limits.negativeTTL, limits)
    case SetNegativeWithTTL(soa) => NegativeLifetime(soa, limits)
    case SetNegativeMessage(soa, _) => NegativeMessageLifetime(soa, limits)
  }

  /** The entry carries a message. */
  predicate CarriesMessage(w: Writing) {
    match w
    case Set(_, present) => present
    case SetNegativeMessage(_, present) => present
    case _ => false
  }

  /** The duration a write asks for, in nanoseconds, before the limits apply. */
  ghost predicate Asks(w: Writing, limits: Limits, asked: int) {
    match w
    case Set(ttl, _) => asked == ttl * 1_000_000_000
    case SetNegative => asked == limits.negativeTTL
    case SetNegativeWithTTL(soa) =>
      && asked <= soa * 1_000_000_000 && (limits.negativeTTL > 0 ==> asked <= limits.negativeTTL)
      && (asked == soa * 1_000_000_000 || asked == limits.negativeTTL > 0)
    case SetNegativeMessage(soa, _) =>
      if soa == 0 then asked == limits.negativeTTL
      else && asked <= soa * 1_000_000_000 && (limits.negativeTTL > 0 ==> asked <= limits.negativeTTL)
           && (asked == soa * 1_000_000_000 || asked == limits.negativeTTL > 0)
  }

  /** An entry lives exactly as long as its write asks for, where the limits allow it, and
      otherwise for the limit that is in the way. */
  lemma LivesAsAsked(w: Writing, limits: Limits, asked: int)
    requires Asks(w, limits, asked)
    ensures limits.minTTL <= asked && (limits.maxTTL > 0 ==> asked <= limits.maxTTL) ==> Lifetime(w, limits) == asked
    ensures asked < limits.minTTL && (limits.maxTTL > 0 ==> limits.minTTL <= limits.maxTTL) ==>
              Lifetime(w, limits) == limits.minTTL
    ensures limits.maxTTL > 0 && (asked > limits.maxTTL || limits.minTTL > limits.maxTTL) ==>
              Lifetime(w, limits) == limits.maxTTL
  {
  }

  // --- Records and messages

  const TYPE_OPT := 41

  class ResourceRecord {
    const rtype: nat
    const body: string  // owner, class and data
    var ttl: nat

    constructor (rtype: nat, body: string, ttl: nat)
      ensures this.rtype == rtype && this.body == body && this.ttl == ttl
    {
      this.rtype, this.body, this.ttl := rtype, body, ttl;
    }
  }

  ghost function Objects(rrs: seq<ResourceRecord?>): set<ResourceRecord> {
    set r: ResourceRecord | r in rrs
  }

  class Message {
    const answers: seq<ResourceRecord?>
    const authorities: seq<ResourceRecord?>
    const additionals: seq<ResourceRecord?>

    constructor (answers: seq<ResourceRecord?>, authorities: seq<ResourceRecord?>, additionals: seq<ResourceRecord?>)
      ensures this.answers == answers && this.authorities == authorities && this.additionals == additionals
    {
      this.answers, this.authorities, this.additionals := answers, authorities, additionals;
    }

    ghost function Records(): set<ResourceRecord> {
      Objects(answers) + Objects(authorities) + Objects(additionals)
    }
  }

  /** The value of a record and of a message.  Missing records are left out. */
  datatype Rec = Rec(rtype: nat, body: string, ttl: nat)

  datatype Sections = Sections(answers: seq<Rec>, authorities: seq<Rec>, additionals: seq<Rec>)

  ghost function Recs(rrs: seq<ResourceRecord?>): seq<Rec>
    reads rrs
  {
    if rrs == [] then []
    else if rrs[|rrs| - 1] == null then Recs(rrs[..|rrs| - 1])
    else Recs(rrs[..|rrs| - 1]) + [Rec(rrs[|rrs| - 1].rtype, rrs[|rrs| - 1].body, rrs[|rrs| - 1].ttl)]
  }

  lemma RecsSnoc(rrs: seq<ResourceRecord?>, rr: ResourceRecord?)
    ensures Recs(rrs + [rr]) == Recs(rrs) + if rr == null then [] else [Rec(rr.rtype, rr.body, rr.ttl)]
    ensures Objects(rrs + [rr]) == Objects(rrs) + if rr == null then {} else {rr}
  {
    assert (rrs + [rr])[..|rrs|] == rrs;
  }

  ghost function View(m: Message): Sections
    reads m.answers, m.authorities, m.additionals
  {
    Sections(Recs(m.answers), Recs(m.authorities), Recs(m.additionals))
  }

  // --- Ageing and clamping on values

  function AgedTtl(ttl: nat, age: nat): nat {
    if age == 0 then ttl else if ttl <= age then 1 else ttl - age
  }

  ghost function AgedRec(r: Rec, age: nat): Rec {
    if r.rtype == TYPE_OPT then r else r.(ttl := AgedTtl(r.ttl, age))
  }

  ghost function CappedRec(r: Rec, cap: nat): Rec {
    if r.rtype != TYPE_OPT && r.ttl > cap then r.(ttl := cap) else r
  }

  ghost function AgedRecs(rs: seq<Rec>, age: nat): seq<Rec> {
    seq(|rs|, i requires 0 <= i < |rs| => AgedRec(rs[i], age))
  }

  ghost function CappedRecs(rs: seq<Rec>, cap: nat): seq<Rec> {
    seq(|rs|, i requires 0 <= i < |rs| => CappedRec(rs[i], cap))
  }

  ghost function Aged(s: Sections, age: nat): Sections {
    Sections(AgedRecs(s.answers, age), AgedRecs(s.authorities, age), AgedRecs(s.additionals, age))
  }

  ghost function Capped(s: Sections, cap: nat): Sections {
    Sections(CappedRecs(s.answers, cap), CappedRecs(s.authorities, cap), CappedRecs(s.additionals, cap))
  }

  lemma AgeingComposes(s: Sections, a: nat, b: nat)
    ensures Aged(Aged(s, a), b) == Aged(s, a + b)
  {
    var both := Aged(Aged(s, a), b);
    assert both.answers == Aged(s, a + b).answers;
    assert both.authorities == Aged(s, a + b).authorities;
    assert both.additionals == Aged(s, a + b).additionals;
  }

  /** Ageing and capping a section record by record: the records stay the same but for their
      TTLs, which become max(1, TTL - age) and min(TTL, cap), except those of OPT records. */
  lemma SectionByRecord(rs: seq<Rec>, age: nat, cap: nat, i: nat)
    requires i < |rs| && age >= 1
    ensures |AgedRecs(rs, age)| == |rs| && |CappedRecs(rs, cap)| == |rs| && AgedRecs(rs, 0) == rs
    ensures var r, aged, capped := rs[i], AgedRecs(rs, age)[i], CappedRecs(rs, cap)[i];
            && aged.rtype == capped.rtype == r.rtype && aged.body == capped.body == r.body
            && (r.rtype == 41 ==> aged == capped == r)
            && (r.rtype != 41 ==> aged.ttl >= 1 && aged.ttl >= r.ttl - age && (aged.ttl == 1 || aged.ttl == r.ttl - age))
            && (r.rtype != 41 ==> capped.ttl <= cap && capped.ttl <= r.ttl && (capped.ttl == cap || capped.ttl == r.ttl))
  {
    assert AgedRecs(rs, 0) == rs;
  }

  /** The value of a section lists its records that are not missing, in order. */
  lemma {:induction false} RecsAt(rrs: seq<ResourceRecord?>)
    requires forall i :: 0 <= i < |rrs| ==> rrs[i] != null
    ensures |Recs(rrs)| == |rrs|
    ensures forall i :: 0 <= i < |rrs| ==> Recs(rrs)[i] == Rec(rrs[i].rtype, rrs[i].body, rrs[i].ttl)
  {
    if rrs != [] {
      RecsAt(rrs[..|rrs| - 1]);
    }
  }

  /** An entry inserted s whole seconds ago, and less than one more, is s seconds old. */
  lemma AgeInSeconds(insertedAt: int, now: int, s: nat)
    requires insertedAt + s * 1_000_000_000 <= now < insertedAt + (s + 1) * 1_000_000_000
    ensures AgeSeconds(insertedAt, now) == s
  {
  }

  // --- Copying and updating in place

  /** Deep copy of one section, dropping missing records. */
  method CopySection(rrs: seq<ResourceRecord?>) returns (copies: seq<ResourceRecord?>)
    ensures Distinct(copies) && Recs(copies) == Recs(rrs)
    ensures fresh(Objects(copies))
  {
    hide Recs;
    copies := [];
    for i := 0 to |rrs|
      invariant Distinct(copies) && Recs(copies) == Recs(rrs[..i])
      invariant fresh(Objects(copies))
    {
      RecsSnoc(rrs[..i], rrs[i]);
      assert rrs[..i + 1] == rrs[..i] + [rrs[i]];
      var rr := rrs[i];
      if rr != null {
        var copy := new ResourceRecord(rr.rtype, rr.body, rr.ttl);
        RecsSnoc(copies, copy);
        copies := copies + [copy];
      }
    }
    assert rrs[..|rrs|] == rrs;
  }

  ghost predicate Distinct(rrs: seq<ResourceRecord?>) {
    forall i, j :: 0 <= i < j < |rrs| && rrs[i] != null ==> rrs[i] != rrs[j]
  }

  /** The section's records with the given TTLs instead of their own. */
  ghost function RecsWith(rrs: seq<ResourceRecord?>, ttls: seq<nat>): seq<Rec>
    requires |ttls| == |rrs|
  {
    if rrs == [] then []
    else
      var n := |rrs| - 1;
      var before := RecsWith(rrs[..n], ttls[..n]);
      if rrs[n] == null then before else before + [Rec(rrs[n].rtype, rrs[n].body, ttls[n])]
  }

  ghost predicate HaveTtls(rrs: seq<ResourceRecord?>, ttls: seq<nat>)
    reads rrs
  {
    |ttls| == |rrs| && forall i :: 0 <= i < |rrs| && rrs[i] != null ==> rrs[i].ttl == ttls[i]
  }

  ghost function Ttls(rrs: seq<ResourceRecord?>): (ttls: seq<nat>)
    reads rrs
    ensures HaveTtls(rrs, ttls)
  {
    seq(|rrs|, i requires 0 <= i < |rrs| reads rrs => if rrs[i] == null then 0 else rrs[i].ttl)
  }

  lemma {:induction false} RecsAreWith(rrs: seq<ResourceRecord?>, ttls: seq<nat>)
    requires HaveTtls(rrs, ttls)
    ensures Recs(rrs) == RecsWith(rrs, ttls)
  {
    if rrs != [] {
      RecsAreWith(rrs[..|rrs| - 1], ttls[..|rrs| - 1]);
    }
  }

  lemma {:induction false} RecsWithAged(rrs: seq<ResourceRecord?>, before: seq<nat>, after: seq<nat>, age: nat)
    requires |before| == |after| == |rrs| && age >= 1
    requires forall i :: 0 <= i < |rrs| && rrs[i] != null ==> after[i] == OneAged(rrs[i].rtype, before[i], age)
    ensures RecsWith(rrs, after) == AgedRecs(RecsWith(rrs, before), age)
  {
    if rrs != [] {
      var n := |rrs| - 1;
      RecsWithAged(rrs[..n], before[..n], after[..n], age);
    }
  }

  lemma {:induction false} RecsWithCapped(rrs: seq<ResourceRecord?>, before: seq<nat>, after: seq<nat>, cap: nat)
    requires |before| == |after| == |rrs|
    requires forall i :: 0 <= i < |rrs| && rrs[i] != null ==> after[i] == OneCapped(rrs[i].rtype, before[i], cap)
    ensures RecsWith(rrs, after) == CappedRecs(RecsWith(rrs, before), cap)
  {
    if rrs != [] {
      var n := |rrs| - 1;
      RecsWithCapped(rrs[..n], before[..n], after[..n], cap);
    }
  }

  function OneAged(rtype: nat, ttl: nat, age: nat): nat {
    if rtype == 41 then ttl else if ttl > age then ttl - age else 1
  }

  function OneCapped(rtype: nat, ttl: nat, cap: nat): nat {
    if rtype != 41 && ttl > cap then cap else ttl
  }

  /** The loop of decrementMessageTTLs on one section. */
  method DecrementSection(rrs: seq<ResourceRecord?>, age: nat)
    requires Distinct(rrs) && age >= 1
    modifies Objects(rrs)
    ensures Recs(rrs) == AgedRecs(old(Recs(rrs)), age)
    ensures forall j :: 0 <= j < |rrs| && rrs[j] != null ==>
              rrs[j].ttl == if rrs[j].rtype == 41 then old(rrs[j].ttl)
                            else if old(rrs[j].ttl) > age then old(rrs[j].ttl) - age else 1
  {
    hide Recs, AgedRecs, RecsWith;
    ghost var before := Ttls(rrs);
    RecsAreWith(rrs, before);
    for i := 0 to |rrs|
      invariant forall j :: 0 <= j < |rrs| && rrs[j] != null ==>
                  rrs[j].ttl == if j < i then OneAged(rrs[j].rtype, before[j], age) else before[j]
    {
      var rr := rrs[i];
      if rr != null && rr.rtype != TYPE_OPT {
        rr.ttl := if rr.ttl - age < 1 then 1 else rr.ttl - age;
        assert rr.ttl == OneAged(rr.rtype, before[i], age);
      }
    }
    ghost var after := Ttls(rrs);
    RecsAreWith(rrs, after);
    RecsWithAged(rrs, before, after, age);
  }

  /** The loop of clampMessageTTLs on one section. */
  method ClampSection(rrs: seq<ResourceRecord?>, cap: nat)
    requires Distinct(rrs)
    modifies Objects(rrs)
    ensures Recs(rrs) == CappedRecs(old(Recs(rrs)), cap)
    ensures forall j :: 0 <= j < |rrs| && rrs[j] != null ==>
              rrs[j].ttl == if rrs[j].rtype != 41 && old(rrs[j].ttl) > cap then cap else old(rrs[j].ttl)
  {
    hide Recs, CappedRecs, RecsWith;
    ghost var before := Ttls(rrs);
    RecsAreWith(rrs, before);
    for i := 0 to |rrs|
      invariant forall j :: 0 <= j < |rrs| && rrs[j] != null ==>
                  rrs[j].ttl == if j < i then OneCapped(rrs[j].rtype, before[j], cap) else before[j]
    {
      var rr := rrs[i];
      if rr != null && rr.rtype != TYPE_OPT && rr.ttl > cap {
        rr.ttl := cap;
      }
    }
    ghost var after := Ttls(rrs);
    RecsAreWith(rrs, after);
    RecsWithCapped(rrs, before, after, cap);
  }

  /** A message none of whose records occurs twice, so that updating records in place
      updates each once. */
  ghost predicate Unshared(m: Message) {
    && Distinct(m.answers) && Distinct(m.authorities) && Distinct(m.additionals)
    && Objects(m.answers) !! Objects(m.authorities) !! Objects(m.additionals)
  }

  method CopyMessage(m: Message) returns (copy: Message)
    ensures fresh(copy) && fresh(copy.Records()) && Unshared(copy) && View(copy) == View(m)
  {
    var answers := CopySection(m.answers);
    var authorities := CopySection(m.authorities);
    var additionals := CopySection(m.additionals);
    copy := new Message(answers, authorities, additionals);
  }

  /** How old an entry is in whole seconds; an entry from the future is not old. */
  function AgeSeconds(insertedAt: int, now: int): nat {
    if now <= insertedAt then 0 else (now - insertedAt) / SECOND
  }

  /** AgeAdjustedMessage: a fresh copy of the cached message, aged.  The cached message is
      outside the modifies clause.  An insertion time of 0 is the unset time. */
  method AgeAdjustedMessage(cached: Message?, insertedAt: int, now: int) returns (served: Message?)
    ensures served == null <==> cached == null
    ensures served != null ==>
              && fresh(served) && fresh(served.Records())
              && View(served) == Aged(View(cached), if insertedAt == 0 then 0 else AgeSeconds(insertedAt, now))
  {
    hide Recs, AgedRecs, Distinct;
    if cached == null {
      return null;
    }
    served := CopyMessage(cached);
    var age := AgeSeconds(insertedAt, now);
    if insertedAt == 0 || age <= 0 {
      AgeZero(View(cached));
      return;
    }
    DecrementSection(served.answers, age);
    DecrementSection(served.authorities, age);
    DecrementSection(served.additionals, age);
  }

  lemma AgeZero(s: Sections)
    ensures Aged(s, 0) == s
  {
    assert Aged(s, 0).answers == s.answers;
    assert Aged(s, 0).authorities == s.authorities;
    assert Aged(s, 0).additionals == s.additionals;
  }

  const STALE_TTL: nat := 30

  /** What GetStale comes to.  The source dereferences the copied message without a nil
      check. */
  datatype Stale = Nothing | Served(message: Message) | NilDereference

  /** No record but OPT has a TTL above the cap. */
  ghost predicate AtMost(s: Sections, cap: nat) {
    && (forall i :: 0 <= i < |s.answers| && s.answers[i].rtype != TYPE_OPT ==> s.answers[i].ttl <= cap)
    && (forall i :: 0 <= i < |s.authorities| && s.authorities[i].rtype != TYPE_OPT ==> s.authorities[i].ttl <= cap)
    && (forall i :: 0 <= i < |s.additionals| && s.additionals[i].rtype != TYPE_OPT ==> s.additionals[i].ttl <= cap)
  }

  lemma CappedAtMost(s: Sections, cap: nat)
    ensures AtMost(Capped(s, cap), cap)
  {
  }

  /** The message part of GetStale, outside the lock: a fresh copy whose TTLs are capped at
      30 seconds.  Entries written by SetNegative and SetNegativeWithTTL carry no message. */
  method StaleMessage(cached: Message?) returns (stale: Stale)
    ensures !stale.Nothing? && (stale.NilDereference? <==> cached == null)
    ensures stale.Served? ==>
              && fresh(stale.message) && fresh(stale.message.Records())
              && View(stale.message) == Capped(View(cached), STALE_TTL) && AtMost(View(stale.message), 30)
  {
    hide Recs, CappedRecs, Distinct, AtMost;
    if cached == null {
      return NilDereference;
    }
    CappedAtMost(View(cached), STALE_TTL);
    var served := CopyMessage(cached);
    ClampSection(served.answers, STALE_TTL);
    ClampSection(served.authorities, STALE_TTL);
    ClampSection(served.additionals, STALE_TTL);
    stale := Served(served);
  }
}
