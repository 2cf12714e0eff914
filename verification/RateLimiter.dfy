/** The sliding-window rate limiter of the API, and what it guarantees over any sequence
    of requests and clean-ups. */
module RateLimiter {

  import opened Orders

  const MAX_ENTRIES := 50000

  /** The timestamps after a cutoff, in order. */
  function Recent(times: seq<int>, cutoff: int): (r: seq<int>)
    ensures |r| <= |times|
  {
    if times == [] then []
    else
      var before := Recent(times[..|times| - 1], cutoff);
      if times[|times| - 1] > cutoff then before + [times[|times| - 1]] else before
  }

  function TimesOf<K>(requests: map<K, seq<int>>, ip: K): seq<int> {
    if ip in requests then requests[ip] else []
  }

  datatype Verdict<K> = Verdict(rejected: bool, victim: set<K>)

  /** Addresses are strings in the source; only the empty one, `none`, is special. */
  class Limiter<K(!new, ==)> {
    var requests: map<K, seq<int>>
    const maxReqs: nat
    const window: nat
    const none: K

    constructor (maxReqs: nat, window: nat, none: K)
      requires maxReqs >= 1
      ensures Valid() && requests == map[] && this.maxReqs == maxReqs && this.window == window && this.none == none
    {
      requests := map[];
      this.maxReqs, this.window, this.none := maxReqs, window, none;
    }

    /** Every stored list is non-empty, so a full table always has a list to replace. */
    ghost predicate Valid()
      reads this
    {
      && maxReqs >= 1 && |requests| <= MAX_ENTRIES
      && forall ip :: ip in requests ==> requests[ip] != []
    }

    /** The replacement loop of a full table. */
    method Oldest() returns (oldest: K)
      requires requests != map[] && forall ip :: ip in requests ==> requests[ip] != []
      ensures oldest in requests && MayReplace(requests, none, oldest)
    {
      oldest := none;
      var oldestTime := 0;
      var todo := requests.Keys;
      ghost var order: seq<K> := [];
      while todo != {}
        invariant todo <= requests.Keys && IsOrder(order, requests.Keys - todo)
        invariant Pick(oldest, oldestTime) == Picked(requests, none, order)
        decreases |todo|
      {
        var ip :| ip in todo;
        todo := todo - {ip};
        assert (order + [ip])[..|order|] == order;
        order := order + [ip];
        if |requests[ip]| > 0 && (oldest == none || requests[ip][0] < oldestTime) {
          oldest, oldestTime := ip, requests[ip][0];
        }
      }
      assert requests.Keys - todo == requests.Keys;
      var some :| some in requests.Keys;
      assert some in order;
      PickedIsVisited(requests, none, order);
    }

    /** The filter loop. */
    method Filter(times: seq<int>, cutoff: int) returns (valid: seq<int>)
      ensures valid == Recent(times, cutoff)
    {
      valid := [];
      for i := 0 to |times|
        invariant valid == Recent(times[..i], cutoff)
      {
        assert times[..i + 1][..i] == times[..i];
        if times[i] > cutoff {
          valid := valid + [times[i]];
        }
      }
      assert times[..|times|] == times;
    }

    /** checkRateLimit: whether the request is rejected, and whose record was replaced. */
    method Check(ip: K, now: int) returns (v: Verdict<K>)
      requires Valid()
      modifies this
      ensures Valid() && Checked(old(requests), maxReqs, window, none, ip, now, v, requests)
    {
      hide Recent;
      v := Verdict(false, {});
      var reqs := [];
      if ip in requests {
        reqs := requests[ip];
      } else if |requests| >= MAX_ENTRIES {
        var oldest := Oldest();
        requests := requests - {oldest};
        v := v.(victim := {oldest});
        assert |requests| < MAX_ENTRIES;
      }
      var valid := Filter(reqs, now - window);
      if |valid| >= maxReqs {
        requests := requests[ip := valid];
        v := v.(rejected := true);
      } else {
        requests := requests[ip := valid + [now]];
      }
    }

    /** cleanup. */
    method Cleanup(now: int)
      requires Valid()
      modifies this
      ensures Valid() && Cleaned(old(requests), window, now, requests)
    {
      hide Recent;
      var todo := requests.Keys;
      while todo != {}
        invariant todo <= requests.Keys <= old(requests).Keys
        invariant forall ip :: ip in todo ==> requests[ip] == old(requests)[ip]
        invariant forall ip :: ip in old(requests) && ip !in todo ==>
                    TimesOf(requests, ip) == Recent(old(requests)[ip], now - window)
        invariant forall ip :: ip in requests ==> requests[ip] != []
        invariant |requests| <= |old(requests)|
        decreases |todo|
      {
        var ip :| ip in todo;
        todo := todo - {ip};
        var valid := Filter(requests[ip], now - window);
        if |valid| == 0 {
          requests := requests - {ip};
        } else {
          requests := requests[ip := valid];
        }
      }
    }
  }

  /** What one request does to the table. */
  ghost predicate Checked<K(!new)>(before: map<K, seq<int>>, maxReqs: nat, window: nat, none: K, ip: K, now: int, v: Verdict<K>,
                          after: map<K, seq<int>>)
  {
    var valid := Recent(TimesOf(before, ip), now - window);
    && (if ip in before || |before| < MAX_ENTRIES then v.victim == {}
        else exists oldest :: oldest in before && v.victim == {oldest} && MayReplace(before, none, oldest))
    && v.rejected == (|valid| >= maxReqs)
    && after == (before - v.victim)[ip := if v.rejected then valid else valid + [now]]
  }

  // --- Which record a full table gives up

  /** What the replacement loop has found so far; the empty address means nothing yet. */
  datatype Pick<K> = Pick(ip: K, time: int)

  /** The loop, over the addresses in the given order. */
  function Picked<K(==)>(requests: map<K, seq<int>>, none: K, order: seq<K>): Pick<K> {
    if order == [] then Pick(none, 0)
    else
      var p, ip := Picked(requests, none, order[..|order| - 1]), order[|order| - 1];
      if ip in requests && |requests[ip]| > 0 && (p.ip == none || requests[ip][0] < p.time)
      then Pick(ip, requests[ip][0]) else p
  }

  /** Some order of visiting the table makes the loop choose this address. */
  ghost predicate MayReplace<K(!new)>(requests: map<K, seq<int>>, none: K, ip: K) {
    exists order :: IsOrder(order, requests.Keys) && Picked(requests, none, order).ip == ip
  }

  ghost predicate AllRequested<K(!new)>(requests: map<K, seq<int>>) {
    forall ip :: ip in requests ==> requests[ip] != []
  }

  ghost predicate IsOldest<K(!new)>(requests: map<K, seq<int>>, ip: K)
    requires AllRequested(requests)
  {
    ip in requests && forall other :: other in requests ==> requests[ip][0] <= requests[other][0]
  }

  /** The empty address is not stored, or alone, or some other address is as old. */
  ghost predicate ClearOldest<K(!new)>(requests: map<K, seq<int>>, none: K)
    requires AllRequested(requests)
  {
    || none !in requests || requests.Keys == {none}
    || exists other :: other in requests && other != none && requests[other][0] <= requests[none][0]
  }

  lemma {:induction false} PickedIsVisited<K(!new)>(requests: map<K, seq<int>>, none: K, order: seq<K>)
    requires AllRequested(requests) && forall ip :: ip in order ==> ip in requests
    ensures var p := Picked(requests, none, order);
            p.ip != none || order != [] ==> p.ip in requests && p.time == requests[p.ip][0]
  {
    if order != [] {
      PickedIsVisited(requests, none, order[..|order| - 1]);
    }
  }

  /** Once an oldest address other than the empty one has been visited, its time stays. */
  lemma {:induction false} OldestStays<K(!new)>(requests: map<K, seq<int>>, none: K, order: seq<K>, ip: K)
    requires AllRequested(requests) && (forall x :: x in order ==> x in requests)
    requires IsOldest(requests, ip) && ip != none && ip in order
    ensures var p := Picked(requests, none, order); p.ip != none && p.time == requests[ip][0]
  {
    var n := |order| - 1;
    PickedIsVisited(requests, none, order[..n]);
    if ip in order[..n] {
      OldestStays(requests, none, order[..n], ip);
    } else {
      assert order[n] == ip;
    }
  }

  lemma {:induction false} LeastExists<K(!new)>(requests: map<K, seq<int>>, some: set<K>) returns (least: K)
    requires AllRequested(requests) && some <= requests.Keys && some != {}
    ensures least in some && forall ip :: ip in some ==> requests[least][0] <= requests[ip][0]
    decreases |some|
  {
    var ip :| ip in some;
    least := ip;
    if some == {ip} {
    } else {
      assert some - {ip} != {} by { assert some == some - {ip} + {ip}; }
      var other := LeastExists(requests, some - {ip});
      if requests[other][0] < requests[ip][0] {
        least := other;
      }
    }
  }

  /** A full table gives up an oldest record, in every order of visiting, just under that
      condition: when the empty address alone is oldest, a newer record may go. */
  lemma ReplacesOldestExactly<K(!new)>(requests: map<K, seq<int>>, none: K)
    requires AllRequested(requests) && requests != map[]
    ensures (forall ip :: MayReplace(requests, none, ip) ==> IsOldest(requests, ip)) <==> ClearOldest(requests, none)
  {
    if ClearOldest(requests, none) {
      forall ip | MayReplace(requests, none, ip) ensures IsOldest(requests, ip) {
        ClearIsFound(requests, none, ip);
      }
    } else {
      assert requests.Keys == requests.Keys - {none} + {none};
      var last :| last in requests.Keys - {none};
      var order := OrderEndingWith(requests.Keys, last);
      var p := Picked(requests, none, order);
      PickedIsVisited(requests, none, order);
      assert p.ip != none && MayReplace(requests, none, p.ip) && !IsOldest(requests, p.ip);
    }
  }

  lemma ClearIsFound<K(!new)>(requests: map<K, seq<int>>, none: K, ip: K)
    requires AllRequested(requests) && requests != map[] && ClearOldest(requests, none) && MayReplace(requests, none, ip)
    ensures IsOldest(requests, ip)
  {
    var order :| IsOrder(order, requests.Keys) && Picked(requests, none, order).ip == ip;
    var some :| some in requests;
    assert some in order;
    PickedIsVisited(requests, none, order);
    if requests.Keys != {none} {
      var least := LeastExists(requests, requests.Keys - {none});
      OldestStays(requests, none, order, least);
    }
  }

  lemma ReplacedIsStored<K(!new)>(requests: map<K, seq<int>>, none: K, ip: K)
    requires AllRequested(requests) && requests != map[] && MayReplace(requests, none, ip)
    ensures ip in requests
  {
    var order :| IsOrder(order, requests.Keys) && Picked(requests, none, order).ip == ip;
    var some :| some in requests;
    assert some in order;
    PickedIsVisited(requests, none, order);
  }

  /** What a clean-up does to the table: an address without recent requests is dropped. */
  ghost predicate Cleaned<K(!new)>(before: map<K, seq<int>>, window: nat, now: int, after: map<K, seq<int>>) {
    && after.Keys <= before.Keys
    && (forall ip :: ip in after ==> after[ip] != [])
    && forall ip :: ip in before ==> TimesOf(after, ip) == Recent(before[ip], now - window)
  }

  // --- Runs

  /** A request with its verdict, or a clean-up. */
  datatype Op<K> = Request(ip: K, now: int, verdict: Verdict<K>) | Sweep(now: int)

  ghost predicate IsRun<K(!new)>(
    maxReqs: nat, window: nat, none: K, tables: seq<map<K, seq<int>>>, ops: seq<Op<K>>)
  {
    && |tables| == |ops| + 1
    && (forall i :: 0 <= i < |ops| ==>
          match ops[i]
          case Request(ip, now, v) => Checked(tables[i], maxReqs, window, none, ip, now, v, tables[i + 1])
          case Sweep(now) => Cleaned(tables[i], window, now, tables[i + 1]))
    && (forall i, j :: 0 <= i < j < |ops| ==> ops[i].now <= ops[j].now)
  }

  /** When the requests of `ip` in steps a to n were admitted. */
  ghost function Admitted<K(!new)>(ops: seq<Op<K>>, ip: K, a: nat, n: nat): seq<int>
    requires a <= n <= |ops|
    decreases n
  {
    if a == n then []
    else
      var before := Admitted(ops, ip, a, n - 1);
      match ops[n - 1]
      case Request(other, now, v) => if other == ip && !v.rejected then before + [now] else before
      case Sweep(_) => before
  }

  /** The record of `ip` is not replaced in steps a to n. */
  ghost predicate NotReplaced<K(!new)>(ops: seq<Op<K>>, ip: K, a: nat, n: nat)
    requires a <= n <= |ops|
  {
    forall i :: a <= i < n && ops[i].Request? ==> ip !in ops[i].verdict.victim
  }

  /** How many of the times lie in [lo, hi). */
  ghost function Count(times: seq<int>, lo: int, hi: int): nat {
    if times == [] then 0
    else Count(times[..|times| - 1], lo, hi) + if lo <= times[|times| - 1] < hi then 1 else 0
  }

  lemma {:induction false} CountAtMostRecent(times: seq<int>, lo: int, hi: int, cutoff: int)
    requires cutoff < lo
    ensures Count(times, lo, hi) <= |Recent(times, cutoff)|
  {
    if times != [] {
      CountAtMostRecent(times[..|times| - 1], lo, hi, cutoff);
    }
  }

  /** Filtering keeps exactly the times after the cutoff, and as many of them as there are. */
  lemma {:induction false} RecentExactly(times: seq<int>, cutoff: int, hi: int)
    requires forall i :: 0 <= i < |times| ==> times[i] < hi
    ensures forall t :: t in Recent(times, cutoff) <==> t in times && t > cutoff
    ensures |Recent(times, cutoff)| == Count(times, cutoff + 1, hi)
  {
    if times != [] {
      var n := |times| - 1;
      RecentExactly(times[..n], cutoff, hi);
      assert forall t :: t in times <==> t in times[..n] || t == times[n];
    }
  }

  lemma {:induction false} RecentConcat(a: seq<int>, b: seq<int>, cutoff: int)
    ensures Recent(a + b, cutoff) == Recent(a, cutoff) + Recent(b, cutoff)
  {
    if b == [] {
      assert a + b == a;
    } else {
      var n := |b| - 1;
      assert (a + b)[..|a| + n] == a + b[..n];
      RecentConcat(a, b[..n], cutoff);
    }
  }

  lemma {:induction false} RecentTwice(times: seq<int>, c: int, d: int)
    ensures Recent(Recent(times, c), d) == Recent(times, if c < d then d else c)
  {
    if times != [] {
      var n := |times| - 1;
      var before := Recent(times[..n], c);
      RecentTwice(times[..n], c, d);
      if times[n] > c {
        assert Recent(times, c) == before + [times[n]];
        assert (before + [times[n]])[..|before|] == before;
      } else {
        assert Recent(times, c) == before;
      }
    }
  }

  lemma AgreeStep(stored: seq<int>, history: seq<int>, now: int, window: nat, d: int)
    requires d >= now - window && Recent(stored, d) == Recent(history, d)
    ensures Recent(Recent(stored, now - window), d) == Recent(history, d)
    ensures Recent(Recent(stored, now - window) + [now], d) == Recent(history + [now], d)
  {
    RecentTwice(stored, now - window, d);
    RecentConcat(Recent(stored, now - window), [now], d);
    RecentConcat(history, [now], d);
  }

  /** What a step leaves stored for an address that it does not replace. */
  lemma StoredAfter<K(!new)>(
    maxReqs: nat, window: nat, none: K, tables: seq<map<K, seq<int>>>, ops: seq<Op<K>>, ip: K, i: nat)
    requires IsRun(maxReqs, window, none, tables, ops) && i < |ops| && NotReplaced(ops, ip, i, i + 1)
    ensures var before, after := TimesOf(tables[i], ip), TimesOf(tables[i + 1], ip);
            match ops[i]
            case Request(other, now, v) =>
              if other != ip then after == before
              else if v.rejected then after == Recent(before, now - window)
              else after == Recent(before, now - window) + [now] && |Recent(before, now - window)| < maxReqs
            case Sweep(now) => after == Recent(before, now - window)
  {
  }

  /** While its record is not replaced, what is stored for an address agrees, after any
      cutoff at or past the window, with what it had at the start plus everything admitted
      since. */
  lemma {:induction false} StoredAgrees<K(!new)>(
    maxReqs: nat, window: nat, none: K, tables: seq<map<K, seq<int>>>, ops: seq<Op<K>>, ip: K, a: nat, n: nat, d: int)
    requires IsRun(maxReqs, window, none, tables, ops) && a <= n <= |ops| && NotReplaced(ops, ip, a, n)
    requires a < n ==> d >= ops[n - 1].now - window
    ensures Recent(TimesOf(tables[n], ip), d) == Recent(TimesOf(tables[a], ip) + Admitted(ops, ip, a, n), d)
    decreases n
  {
    hide Recent, Checked, Cleaned, TimesOf;
    var had := TimesOf(tables[a], ip);
    if n == a {
      assert had + [] == had;
    } else {
      var admitted := Admitted(ops, ip, a, n - 1);
      var now := ops[n - 1].now;
      assert a < n - 1 ==> ops[n - 2].now <= now;
      StoredAgrees(maxReqs, window, none, tables, ops, ip, a, n - 1, d);
      StoredAfter(maxReqs, window, none, tables, ops, ip, n - 1);
      AgreeStep(TimesOf(tables[n - 1], ip), had + admitted, now, window, d);
      assert had + (admitted + [now]) == had + admitted + [now];
    }
  }

  /** At an admission, fewer than maxReqs of the earlier ones are within the window. */
  lemma RoomAtAdmission<K(!new)>(
    maxReqs: nat, window: nat, none: K, tables: seq<map<K, seq<int>>>, ops: seq<Op<K>>, ip: K, a: nat, n: nat)
    requires IsRun(maxReqs, window, none, tables, ops) && a <= n < |ops| && NotReplaced(ops, ip, a, n + 1)
    requires ops[n].Request? && ops[n].ip == ip && !ops[n].verdict.rejected
    ensures |Recent(Admitted(ops, ip, a, n), ops[n].now - window)| < maxReqs
  {
    hide Recent, Checked, Cleaned, Admitted;
    assert a < n ==> ops[n - 1].now <= ops[n].now;
    StoredAgrees(maxReqs, window, none, tables, ops, ip, a, n, ops[n].now - window);
    StoredAfter(maxReqs, window, none, tables, ops, ip, n);
    RecentConcat(TimesOf(tables[a], ip), Admitted(ops, ip, a, n), ops[n].now - window);
  }

  /** The sliding window: over any stretch in which the record of an address is not replaced,
      whatever clean-ups happen in between, no interval of window length contains more than
      maxReqs of its admitted requests. */
  lemma {:induction false} WindowBound<K(!new)>(
    maxReqs: nat, window: nat, none: K, tables: seq<map<K, seq<int>>>, ops: seq<Op<K>>, ip: K, a: nat, n: nat, lo: int)
    requires IsRun(maxReqs, window, none, tables, ops) && a <= n <= |ops| && NotReplaced(ops, ip, a, n)
    ensures Count(Admitted(ops, ip, a, n), lo, lo + window) <= maxReqs
    decreases n
  {
    hide Recent, IsRun;
    if a < n {
      WindowBound(maxReqs, window, none, tables, ops, ip, a, n - 1, lo);
      var op, admitted := ops[n - 1], Admitted(ops, ip, a, n - 1);
      if op.Request? && op.ip == ip && !op.verdict.rejected {
        assert (admitted + [op.now])[..|admitted|] == admitted;
        if lo <= op.now < lo + window {
          RoomAtAdmission(maxReqs, window, none, tables, ops, ip, a, n - 1);
          CountAtMostRecent(admitted, lo, lo + window, op.now - window);
        }
      }
    }
  }

  /** Nothing is rejected needlessly either: an address first seen at step a, and not replaced
      since, is rejected exactly when maxReqs of its requests were admitted within the window
      that ends now. */
  lemma RejectedExactly<K(!new)>(
    maxReqs: nat, window: nat, none: K, tables: seq<map<K, seq<int>>>, ops: seq<Op<K>>, ip: K, a: nat, n: nat)
    requires IsRun(maxReqs, window, none, tables, ops) && a <= n < |ops| && NotReplaced(ops, ip, a, n)
    requires ip !in tables[a] && ops[n].Request? && ops[n].ip == ip
    ensures ops[n].verdict.rejected <==>
              Count(Admitted(ops, ip, a, n), ops[n].now - window + 1, ops[n].now + 1) >= maxReqs
  {
    hide Recent, Checked, Cleaned, Count;
    AdmittedBefore(ops, ip, a, n, ops[n].now);
    RecentExactly(Admitted(ops, ip, a, n), ops[n].now - window, ops[n].now + 1);
    assert a < n ==> ops[n - 1].now <= ops[n].now;
    StoredAgrees(maxReqs, window, none, tables, ops, ip, a, n, ops[n].now - window);
    assert [] + Admitted(ops, ip, a, n) == Admitted(ops, ip, a, n);
    VerdictOf(maxReqs, window, none, tables, ops, n);
  }

  lemma {:induction false} AdmittedBefore<K(!new)>(ops: seq<Op<K>>, ip: K, a: nat, n: nat, now: int)
    requires a <= n <= |ops| && forall i :: a <= i < n ==> ops[i].now <= now
    ensures forall i :: 0 <= i < |Admitted(ops, ip, a, n)| ==> Admitted(ops, ip, a, n)[i] <= now
    decreases n
  {
    if a < n {
      AdmittedBefore(ops, ip, a, n - 1, now);
    }
  }

  /** A clean-up keeps an address just when one of its stored times is within the window, and
      then keeps exactly those times. */
  lemma CleanedExactly<K(!new)>(before: map<K, seq<int>>, window: nat, now: int, after: map<K, seq<int>>, ip: K)
    requires Cleaned(before, window, now, after)
    ensures ip in after <==> ip in before && exists i :: 0 <= i < |before[ip]| && before[ip][i] > now - window
    ensures ip in after ==> forall t :: t in after[ip] <==> t in before[ip] && t > now - window
  {
    hide Recent, Count;
    if ip in before {
      var hi := UpperBound(before[ip]);
      RecentExactly(before[ip], now - window, hi);
      assert TimesOf(after, ip) == Recent(before[ip], now - window);
      forall i | 0 <= i < |before[ip]| && before[ip][i] > now - window ensures ip in after {
        assert before[ip][i] in Recent(before[ip], now - window);
      }
      if ip in after {
        var t := after[ip][0];
        assert t in after[ip] && t in before[ip];
        var i :| 0 <= i < |before[ip]| && before[ip][i] == t;
      }
    }
  }

  lemma {:induction false} UpperBound(times: seq<int>) returns (hi: int)
    ensures forall i :: 0 <= i < |times| ==> times[i] < hi
  {
    hi := 0;
    if times != [] {
      hi := UpperBound(times[..|times| - 1]);
      if hi <= times[|times| - 1] {
        hi := times[|times| - 1] + 1;
      }
    }
  }

  /** A request is judged, and its times are stored, by what is within the window alone. */
  lemma CheckedExactly<K(!new)>(before: map<K, seq<int>>, maxReqs: nat, window: nat, none: K, ip: K, now: int,
                                v: Verdict<K>, after: map<K, seq<int>>)
    requires Checked(before, maxReqs, window, none, ip, now, v, after)
    requires ip in before ==> forall i :: 0 <= i < |before[ip]| ==> before[ip][i] <= now
    ensures v.rejected <==> maxReqs == 0 || (ip in before && Count(before[ip], now - window + 1, now + 1) >= maxReqs)
    ensures ip in after && forall t :: t in after[ip] <==>
              (ip in before && t in before[ip] && t > now - window) || (!v.rejected && t == now)
  {
    hide Recent;
    RecentExactly(TimesOf(before, ip), now - window, now + 1);
  }

  lemma VerdictOf<K(!new)>(
    maxReqs: nat, window: nat, none: K, tables: seq<map<K, seq<int>>>, ops: seq<Op<K>>, n: nat)
    requires IsRun(maxReqs, window, none, tables, ops) && n < |ops| && ops[n].Request?
    ensures ops[n].verdict.rejected <==>
              |Recent(TimesOf(tables[n], ops[n].ip), ops[n].now - window)| >= maxReqs
  {
    assert Checked(tables[n], maxReqs, window, none, ops[n].ip, ops[n].now, ops[n].verdict, tables[n + 1]);
  }

  ghost predicate Bounded<K(!new)>(table: map<K, seq<int>>) {
    |table| <= 50000 && forall ip :: ip in table ==> table[ip] != []
  }

  /** The table never outgrows its cap, because no stored list is ever empty and so a full
      table always has a list to replace. */
  lemma {:induction false} TableBounded<K(!new)>(
    maxReqs: nat, window: nat, none: K, tables: seq<map<K, seq<int>>>, ops: seq<Op<K>>, n: nat)
    requires IsRun(maxReqs, window, none, tables, ops) && n <= |ops| && maxReqs >= 1 && Bounded(tables[0])
    ensures Bounded(tables[n])
  {
    hide Recent;
    if n > 0 {
      TableBounded(maxReqs, window, none, tables, ops, n - 1);
      BoundedStep(maxReqs, window, none, tables[n - 1], ops[n - 1], tables[n]);
    }
  }

  lemma BoundedStep<K(!new)>(
    maxReqs: nat, window: nat, none: K, before: map<K, seq<int>>, op: Op<K>, after: map<K, seq<int>>)
    requires maxReqs >= 1 && Bounded(before)
    requires match op
             case Request(ip, now, v) => Checked(before, maxReqs, window, none, ip, now, v, after)
             case Sweep(now) => Cleaned(before, window, now, after)
    ensures Bounded(after)
  {
    hide Recent, Checked;
    match op
    case Request(ip, now, v) =>
      CheckedLists(before, maxReqs, window, none, ip, now, v, after);
      CheckedKeys(before, maxReqs, window, none, ip, now, v, after);
      ReplacedSize(before.Keys, v.victim, ip);
    case Sweep(now) =>
      SubsetSize(after.Keys, before.Keys);
  }

  lemma CheckedLists<K(!new)>(before: map<K, seq<int>>, maxReqs: nat, window: nat, none: K, ip: K, now: int,
                              v: Verdict<K>, after: map<K, seq<int>>)
    requires maxReqs >= 1 && Checked(before, maxReqs, window, none, ip, now, v, after)
    requires forall other :: other in before ==> before[other] != []
    ensures forall other :: other in after ==> after[other] != []
  {
    hide Recent, MayReplace;
  }

  lemma CheckedKeys<K(!new)>(before: map<K, seq<int>>, maxReqs: nat, window: nat, none: K, ip: K, now: int,
                             v: Verdict<K>, after: map<K, seq<int>>)
    requires Checked(before, maxReqs, window, none, ip, now, v, after)
    ensures after.Keys == before.Keys - v.victim + {ip} && v.victim <= before.Keys
    ensures if ip in before || |before| < MAX_ENTRIES then v.victim == {} else exists oldest :: v.victim == {oldest}
  {
    hide Recent, MayReplace;
  }

  lemma ReplacedSize<K>(before: set<K>, victim: set<K>, ip: K)
    requires |before| <= MAX_ENTRIES && victim <= before
    requires ip !in before && |before| >= MAX_ENTRIES ==> exists oldest :: victim == {oldest}
    requires ip in before ==> victim == {}
    ensures |before - victim + {ip}| <= MAX_ENTRIES
  {
    if ip in before {
      assert before - victim + {ip} == before;
    } else {
      SubsetSize(before - victim, before);
    }
  }

  lemma {:induction false} SubsetSize<K>(a: set<K>, b: set<K>)
    requires a <= b
    ensures |a| <= |b|
  {
    assert b == a + (b - a);
  }

  // --- A run in which a newer record is replaced

  /** The table after n addresses have sent one request each, the empty address, 0, first. */
  ghost function Filled(n: nat): map<int, seq<int>> {
    map i | 0 <= i < n :: [FirstAt(i)]
  }

  function FirstAt(i: int): int {
    if i == 0 then 1 else 2
  }

  lemma {:induction false} FilledSize(n: nat)
    ensures |Filled(n)| == n && AllRequested(Filled(n))
  {
    if n > 0 {
      FilledSize(n - 1);
      assert Filled(n).Keys == Filled(n - 1).Keys + {n - 1};
      assert |Filled(n)| == |Filled(n).Keys|;
    }
  }

  ghost function FillOp(i: nat): Op<int> {
    Request(i, FirstAt(i), Verdict(false, {}))
  }

  lemma FillStep(i: nat)
    requires i < MAX_ENTRIES
    ensures Checked(Filled(i), 100, 60, 0, i, FillOp(i).now, FillOp(i).verdict, Filled(i + 1))
  {
    FilledSize(i);
    var none: set<int> := {};
    assert Filled(i) - none == Filled(i);
    assert Recent(TimesOf(Filled(i), i), FirstAt(i) - 60) == [];
    assert Filled(i + 1) == Filled(i)[i := [FirstAt(i)]];
    assert [] + [FirstAt(i)] == [FirstAt(i)];
  }

  /** When the table is full, its oldest record is that of the empty address, and some visiting
      order passes it over. */
  lemma NewerVictim() returns (victim: int)
    ensures AllRequested(Filled(MAX_ENTRIES)) && victim in Filled(MAX_ENTRIES)
    ensures MayReplace(Filled(MAX_ENTRIES), 0, victim) && !IsOldest(Filled(MAX_ENTRIES), victim)
  {
    var full := Filled(MAX_ENTRIES);
    FilledSize(MAX_ENTRIES);
    assert 0 in full && 1 in full && full[0] == [1];
    assert forall ip :: ip in full && ip != 0 ==> full[ip] == [2];
    assert !ClearOldest(full, 0);
    ReplacesOldestExactly(full, 0);
    victim :| MayReplace(full, 0, victim) && !IsOldest(full, victim);
    ReplacedIsStored(full, 0, victim);
  }

  lemma ReplaceStep(victim: int) returns (after: map<int, seq<int>>)
    requires victim in Filled(MAX_ENTRIES) && MayReplace(Filled(MAX_ENTRIES), 0, victim)
    ensures Checked(Filled(MAX_ENTRIES), 100, 60, 0, MAX_ENTRIES, 3, Verdict(false, {victim}), after)
  {
    hide MayReplace, Recent;
    FilledSize(MAX_ENTRIES);
    RecentNone();
    assert TimesOf(Filled(MAX_ENTRIES), MAX_ENTRIES) == [];
    assert Recent(TimesOf(Filled(MAX_ENTRIES), MAX_ENTRIES), 3 - 60) == [];
    after := (Filled(MAX_ENTRIES) - {victim})[MAX_ENTRIES := [] + [3]];
  }

  lemma RecentNone()
    ensures Recent([], 3 - 60) == []
  {
  }

  /** From the empty table, one request of the empty address, one of each of the others that fit
      and one more: the last replaces a record that is not the oldest. */
  lemma NewerReplacedInRun() returns (tables: seq<map<int, seq<int>>>, ops: seq<Op<int>>, victim: int)
    ensures IsRun(100, 60, 0, tables, ops) && tables[0] == map[] && |ops| == MAX_ENTRIES + 1
    ensures ops[MAX_ENTRIES].Request? && ops[MAX_ENTRIES].verdict.victim == {victim}
    ensures Bounded(tables[MAX_ENTRIES]) && |tables[MAX_ENTRIES]| == MAX_ENTRIES
    ensures AllRequested(tables[MAX_ENTRIES]) && !IsOldest(tables[MAX_ENTRIES], victim)
  {
    hide Checked, Filled, MayReplace, IsOldest;
    FilledSize(MAX_ENTRIES);
    EmptyStart();
    victim := NewerVictim();
    var after := ReplaceStep(victim);
    var fill := seq(MAX_ENTRIES, i requires 0 <= i < MAX_ENTRIES => FillOp(i));
    ops := fill + [Request(MAX_ENTRIES, 3, Verdict(false, {victim}))];
    tables := seq(MAX_ENTRIES + 1, i requires 0 <= i <= MAX_ENTRIES => Filled(i)) + [after];
    forall i | 0 <= i < MAX_ENTRIES
      ensures ops[i].Request? && Checked(tables[i], 100, 60, 0, ops[i].ip, ops[i].now, ops[i].verdict, tables[i + 1])
    {
      FillStep(i);
      assert ops[i] == FillOp(i) && tables[i] == Filled(i) && tables[i + 1] == Filled(i + 1);
    }
    assert tables[MAX_ENTRIES] == Filled(MAX_ENTRIES) && tables[MAX_ENTRIES + 1] == after;
  }

  lemma EmptyStart()
    ensures Filled(0) == map[]
  {
  }
}
