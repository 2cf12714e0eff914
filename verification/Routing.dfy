/** The cluster membership table and its health-weighted choice of a peer. */
module Routing {

  import opened Arithmetic
  import opened Wrappers

  const MAX_CLUSTER_NODES := 65536
  const WORDS := 0x1_0000_0000

  datatype NodeState = Alive | Suspect | Dead | Draining

  /** `lastUpdated` is None while no health report has arrived. */
  datatype Health = Health(latencyMs: real, cpuPercent: real, memoryPercent: real, activeConns: int,
                           lastUpdated: Option<int>)

  /** A score from 0 to 100; 50 without a report. */
  method HealthScore(h: Health) returns (score: nat)
    ensures score == ScoreOf(h)
  {
    if h.lastUpdated.None? {
      return 50;
    }
    var s := 100.0;
    if h.latencyMs > 500.0 {
      s := s - 50.0;
    } else if h.latencyMs > 200.0 {
      s := s - 25.0;
    } else if h.latencyMs > 100.0 {
      s := s - 10.0;
    }
    if h.cpuPercent > 80.0 {
      s := s - 40.0;
    } else if h.cpuPercent > 60.0 {
      s := s - 20.0;
    } else if h.cpuPercent > 40.0 {
      s := s - 10.0;
    }
    if h.memoryPercent > 85.0 {
      s := s - 30.0;
    } else if h.memoryPercent > 70.0 {
      s := s - 15.0;
    }
    if h.activeConns > 800 {
      s := s - 30.0;
    } else if h.activeConns > 500 {
      s := s - 15.0;
    } else if h.activeConns > 300 {
      s := s - 5.0;
    }
    if s < 0.0 {
      return 0;
    }
    score := s.Floor;
  }

  /** The penalty of a measurement against three thresholds. */
  function Penalty(x: real, low: (real, nat), mid: (real, nat), high: (real, nat)): nat {
    if x > high.0 then high.1 else if x > mid.0 then mid.1 else if x > low.0 then low.1 else 0
  }

  function TotalPenalty(h: Health): nat {
    Penalty(h.latencyMs, (100.0, 10), (200.0, 25), (500.0, 50))
    + Penalty(h.cpuPercent, (40.0, 10), (60.0, 20), (80.0, 40))
    + Penalty(h.memoryPercent, (70.0, 15), (70.0, 15), (85.0, 30))
    + Penalty(h.activeConns as real, (300.0, 5), (500.0, 15), (800.0, 30))
  }

  function ScoreOf(h: Health): (score: nat)
    ensures score <= 100
  {
    if h.lastUpdated.None? then 50
    else if TotalPenalty(h) > 100 then 0
    else 100 - TotalPenalty(h)
  }

  /** A report that is nowhere worse never scores less. */
  lemma ScoreMonotone(better: Health, worse: Health)
    requires better.lastUpdated.Some? && worse.lastUpdated.Some?
    requires better.latencyMs <= worse.latencyMs && better.cpuPercent <= worse.cpuPercent
    requires better.memoryPercent <= worse.memoryPercent && better.activeConns <= worse.activeConns
    ensures ScoreOf(better) >= ScoreOf(worse)
  {
  }

  function Step(exceeded: bool, points: nat): nat {
    if exceeded then points else 0
  }

  /** The penalties as steps: each threshold that is exceeded costs its own points, and the score
      is what is left of a hundred. */
  lemma ScoreBySteps(h: Health)
    requires h.lastUpdated.Some?
    ensures var cost :=
              Step(h.latencyMs > 100.0, 10) + Step(h.latencyMs > 200.0, 15) + Step(h.latencyMs > 500.0, 25)
              + Step(h.cpuPercent > 40.0, 10) + Step(h.cpuPercent > 60.0, 10) + Step(h.cpuPercent > 80.0, 20)
              + Step(h.memoryPercent > 70.0, 15) + Step(h.memoryPercent > 85.0, 15)
              + Step(h.activeConns > 300, 5) + Step(h.activeConns > 500, 10) + Step(h.activeConns > 800, 15);
            ScoreOf(h) == if cost > 100 then 0 else 100 - cost
  {
  }

  // --- The weighted choice

  function Sum(scores: seq<nat>): nat {
    if scores == [] then 0 else Sum(scores[..|scores| - 1]) + scores[|scores| - 1]
  }

  /** The point lies in the stretch of candidate c when the scores are laid end to end. */
  predicate Picks(scores: seq<nat>, point: nat, c: nat)
    requires c < |scores|
  {
    Sum(scores[..c]) <= point < Sum(scores[..c + 1])
  }

  lemma {:induction false} SumGrows(scores: seq<nat>, i: nat, j: nat)
    requires i <= j <= |scores|
    ensures Sum(scores[..i]) <= Sum(scores[..j])
  {
    if i < j {
      SumGrows(scores, i, j - 1);
      assert scores[..j][..j - 1] == scores[..j - 1];
    }
  }

  /** The final loop of GetBest; `fallback` says that it ran off its end. */
  method Select(scores: seq<nat>, point: nat) returns (c: nat, fallback: bool)
    requires scores != []
    ensures c < |scores|
    ensures fallback <==> point >= Sum(scores)
    ensures fallback ==> c == |scores| - 1
    ensures !fallback ==> Picks(scores, point, c)
  {
    var sum := 0;
    for i := 0 to |scores|
      invariant sum == Sum(scores[..i]) <= point
    {
      assert scores[..i + 1][..i] == scores[..i];
      sum := sum + scores[i];
      if point < sum {
        assert scores[..|scores|] == scores;
        SumGrows(scores, i + 1, |scores|);
        return i, false;
      }
    }
    assert scores[..|scores|] == scores;
    return |scores| - 1, true;
  }

  /** Exactly score(c) of the points select candidate c, so a score of zero is never chosen,
      and no point selects two candidates. */
  lemma PointsOf(scores: seq<nat>, c: nat)
    requires c < |scores|
    ensures |set p: nat | p < Sum(scores) && Picks(scores, p, c)| == scores[c]
    ensures forall p: nat, d: nat :: d < |scores| && Picks(scores, p, c) && Picks(scores, p, d) ==> c == d
  {
    var lo, hi := Sum(scores[..c]), Sum(scores[..c + 1]);
    assert scores[..c + 1][..c] == scores[..c] && scores[..|scores|] == scores;
    SumGrows(scores, c + 1, |scores|);
    Interval(lo, hi);
    assert (set p: nat | p < Sum(scores) && Picks(scores, p, c)) == Stretch(lo, hi);
    forall p: nat, d: nat | d < |scores| && Picks(scores, p, c) && Picks(scores, p, d) ensures c == d {
      if c < d {
        SumGrows(scores, c + 1, d);
      } else if d < c {
        SumGrows(scores, d + 1, c);
      }
    }
  }

  ghost function Stretch(lo: nat, hi: nat): set<nat> {
    set p: nat | lo <= p < hi && IsPoint(p)
  }

  predicate IsPoint(p: int) {
    p >= 0
  }

  lemma {:induction false} Interval(lo: nat, hi: nat)
    requires lo <= hi
    ensures |Stretch(lo, hi)| == hi - lo
  {
    if lo < hi {
      Interval(lo, hi - 1);
      assert IsPoint(hi - 1);
      assert Stretch(lo, hi) == Stretch(lo, hi - 1) + {hi - 1};
    }
  }

  /** The random word is reduced to this point. */
  predicate Lands(word: int, total: nat, point: nat)
    requires total > 0
  {
    word % total == point
  }

  /** Each of the points is hit by the same number of random words, or by one more. */
  lemma {:induction false} WordsPerPoint(words: nat, total: nat, point: nat)
    requires point < total
    ensures |set w: int | 0 <= w < words && Lands(w, total, point)| ==
              words / total + if point < words % total then 1 else 0
  {
    if words > 0 {
      WordsPerPoint(words - 1, total, point);
      NextQuotient(words - 1, total);
      assert Lands(words - 1, total, point) <==> (words - 1) % total == point;
      OneMoreWord(words - 1, total, point);
    } else {
      assert (set w: int | 0 <= w < words && Lands(w, total, point)) == {};
    }
  }

  lemma OneMoreWord(words: nat, total: nat, point: nat)
    requires total > 0
    ensures |set w: int | 0 <= w < words + 1 && Lands(w, total, point)| ==
              |set w: int | 0 <= w < words && Lands(w, total, point)| + if Lands(words, total, point) then 1 else 0
  {
    hide Lands;
    var before, after := set w: int | 0 <= w < words && Lands(w, total, point),
                         set w: int | 0 <= w < words + 1 && Lands(w, total, point);
    assert after == before + if Lands(words, total, point) then {words} else {};
  }

  lemma NextQuotient(w: nat, d: nat)
    requires d > 0
    ensures if w % d + 1 == d then (w + 1) / d == w / d + 1 && (w + 1) % d == 0
            else (w + 1) / d == w / d && (w + 1) % d == w % d + 1
  {
    var q, r := w / d, w % d;
    assert w == q * d + r;
    if r + 1 == d {
      assert w + 1 == (q + 1) * d;
      DivUnique(w + 1, d, q + 1, 0);
    } else {
      DivUnique(w + 1, d, q, r + 1);
    }
  }

  // --- The membership table

  /** Identifiers are strings in the source; only their equality matters here. */
  type NodeId = nat

  class Member {
    const id: NodeId
    var state: NodeState
    var lastSeen: int
    var version: nat
    var health: Health

    constructor (id: NodeId, state: NodeState, lastSeen: int, version: nat, health: Health)
      ensures this.id == id && View() == MemberView(id, state, lastSeen, version, health)
    {
      this.id, this.state, this.lastSeen, this.version, this.health := id, state, lastSeen, version, health;
    }

    function View(): MemberView
      reads this
    {
      MemberView(id, state, lastSeen, version, health)
    }
  }

  datatype MemberView = MemberView(id: NodeId, state: NodeState, lastSeen: int, version: nat, health: Health)

  class NodeList {
    var nodes: map<NodeId, Member>
    const self: Member

    constructor (self: Member)
      ensures Valid() && nodes == map[self.id := self] && this.self == self
    {
      nodes, this.self := map[self.id := self], self;
    }

    /** Every member is listed under its own identifier, within the cap. */
    ghost predicate Valid()
      reads this
    {
      |nodes| <= MAX_CLUSTER_NODES && forall id :: id in nodes ==> nodes[id].id == id
    }

    /** A newer version replaces a member; a new one needs room. */
    method Add(node: Member) returns (ok: bool)
      requires Valid()
      modifies this`nodes
      ensures Valid()
      ensures ok <==> if node.id in old(nodes) then node.version > old(nodes)[node.id].version
                      else |old(nodes)| < 65536
      ensures nodes == if ok then old(nodes)[node.id := node] else old(nodes)
    {
      if node.id in nodes {
        if node.version > nodes[node.id].version {
          nodes := nodes[node.id := node];
          return true;
        }
        return false;
      }
      if |nodes| >= MAX_CLUSTER_NODES {
        return false;
      }
      nodes := nodes[node.id := node];
      return true;
    }

    /** Peers may not change the local node; every other member's state change is versioned. */
    method UpdateState(id: NodeId, state: NodeState, now: int) returns (ok: bool)
      requires Valid()
      modifies if id in nodes && id != self.id then {nodes[id]} else {}
      ensures Valid() && (ok <==> id in nodes && id != self.id)
      ensures ok ==> nodes[id].View() == old(nodes[id].View()).(state := state, lastSeen := now,
                                                                version := old(nodes[id].version) + 1)
    {
      if id !in nodes || id == self.id {
        return false;
      }
      var node := nodes[id];
      node.state := state;
      node.lastSeen := now;
      node.version := node.version + 1;
      return true;
    }

    method UpdateHealth(id: NodeId, health: Health, now: int) returns (ok: bool)
      requires Valid()
      modifies if id in nodes then {nodes[id]} else {}
      ensures Valid() && (ok <==> id in nodes)
      ensures ok ==> nodes[id].View() == old(nodes[id].View()).(health := health, lastSeen := now)
    {
      if id !in nodes {
        return false;
      }
      nodes[id].health := health;
      nodes[id].lastSeen := now;
      return true;
    }

    predicate Eligible(id: NodeId, exclude: seq<NodeId>)
      reads this, nodes.Values
    {
      id in nodes && id != self.id && nodes[id].state.Alive? && id !in exclude
    }

    /** An enumeration of the eligible members with their scores, as some iteration over the
        table gives it. */
    ghost predicate Enumerates(order: seq<NodeId>, scores: seq<nat>, exclude: seq<NodeId>)
      reads this, nodes.Values
    {
      && Distinct(order) && |scores| == |order|
      && (forall i :: 0 <= i < |order| ==>
            order[i] in nodes && Eligible(order[i], exclude) && scores[i] == ScoreOf(nodes[order[i]].health))
      && forall id :: Eligible(id, exclude) ==> id in order
    }

    /** The candidate loop. */
    method Candidates(exclude: seq<NodeId>) returns (order: seq<NodeId>, scores: seq<nat>)
      requires Valid()
      ensures Enumerates(order, scores, exclude) && |order| <= MAX_CLUSTER_NODES
    {
      order, scores := [], [];
      var todo := nodes.Keys;
      while todo != {}
        invariant todo <= nodes.Keys && |order| == |scores| <= |nodes| - |todo|
        invariant Distinct(order)
        invariant forall i :: 0 <= i < |order| ==>
                    && order[i] !in todo && Eligible(order[i], exclude)
                    && scores[i] == ScoreOf(nodes[order[i]].health)
        invariant forall id :: Eligible(id, exclude) && id !in todo ==> id in order
        decreases |todo|
      {
        var id :| id in todo;
        todo := todo - {id};
        if id != self.id && nodes[id].state.Alive? && id !in exclude {
          var score := HealthScore(nodes[id].health);
          order, scores := order + [id], scores + [score];
        }
      }
    }

    /** GetBest, with the random word as a parameter: nothing when nobody is eligible; a
        uniform choice when every score is zero; otherwise the member whose stretch of the
        scores contains the reduced word, which has a positive score.  The total always fits
        the 32-bit word it is reduced by. */
    method GetBest(exclude: seq<NodeId>, random: nat) returns (best: Option<MemberView>)
      requires Valid() && random < WORDS
      ensures exists order, scores :: Enumerates(order, scores, exclude) && Sum(scores) < WORDS
                                      && Best(order, scores, random, best)
      ensures best.Some? ==>
                && best.value.id in nodes && best.value == nodes[best.value.id].View()
                && best.value.state == Alive && best.value.id != self.id && best.value.id !in exclude
      ensures best.None? ==> forall id :: id in nodes && id != self.id && nodes[id].state == Alive ==> id in exclude
    {
      hide Distinct, Chosen;
      var candidates, scores := Candidates(exclude);
      SumAtMost(scores);
      if |candidates| == 0 {
        best := None;
        assert forall id :: id in nodes ==> !Eligible(id, exclude);
        assert Best(candidates, scores, random, best);
        return;
      }
      var c := Choose(scores, random);
      best := Some(nodes[candidates[c]].View());
      assert Best(candidates, scores, random, best);
    }

    /** The choice for one enumeration of the candidates. */
    ghost predicate Best(order: seq<NodeId>, scores: seq<nat>, random: nat, best: Option<MemberView>)
      requires |scores| == |order| && forall i :: 0 <= i < |order| ==> order[i] in nodes
      reads this, nodes.Values
    {
      match best
      case None => order == []
      case Some(view) =>
        exists c: nat :: c < |order| && view == nodes[order[c]].View() && Chosen(scores, random, c)
    }
  }

  ghost predicate Distinct(order: seq<NodeId>) {
    forall i, j :: 0 <= i < j < |order| ==> order[i] != order[j]
  }

  /** The candidate that the random word chooses. */
  ghost predicate Chosen(scores: seq<nat>, random: nat, c: nat)
    requires c < |scores|
  {
    if Sum(scores) == 0 then c == random % |scores|
    else scores[c] > 0 && Picks(scores, random % Sum(scores), c)
  }

  /** The second half of GetBest, with its two conversions to 32-bit words. */
  method Choose(scores: seq<nat>, random: nat) returns (c: nat)
    requires 0 < |scores| < WORDS && Sum(scores) < WORDS
    ensures c < |scores| && Chosen(scores, random, c)
  {
    hide Picks;
    var total := Total(scores);
    if total == 0 {
      return random % ToWord(|scores|);
    }
    var fallback;
    c, fallback := Select(scores, random % ToWord(total));
    PositiveScore(scores, random % total, c);
  }

  function ToWord(n: nat): (w: nat)
    ensures n < WORDS ==> w == n
  {
    n % WORDS
  }

  method Total(scores: seq<nat>) returns (total: nat)
    ensures total == Sum(scores)
  {
    total := 0;
    for i := 0 to |scores|
      invariant total == Sum(scores[..i])
    {
      assert scores[..i + 1][..i] == scores[..i];
      total := total + scores[i];
    }
    assert scores[..|scores|] == scores;
  }

  lemma {:induction false} SumAtMost(scores: seq<nat>)
    requires forall i :: 0 <= i < |scores| ==> scores[i] <= 100
    ensures Sum(scores) <= 100 * |scores|
  {
    if scores != [] {
      SumAtMost(scores[..|scores| - 1]);
    }
  }

  lemma PositiveScore(scores: seq<nat>, point: nat, c: nat)
    requires c < |scores| && Picks(scores, point, c)
    ensures scores[c] > 0
  {
    assert scores[..c + 1][..c] == scores[..c];
  }

  ghost predicate Chooses(order: seq<NodeId>, scores: seq<nat>, point: nat, id: NodeId)
    requires |scores| == |order|
  {
    exists k :: 0 <= k < |order| && order[k] == id && Picks(scores, point, k)
  }

  ghost predicate SomebodyAt(order: seq<NodeId>, scores: seq<nat>, point: nat)
    requires |scores| == |order|
  {
    exists id :: id in order && Chooses(order, scores, point, id)
  }

  /** Every point below the total picks a candidate. */
  lemma {:induction false} PointPicks(scores: seq<nat>, point: nat) returns (c: nat)
    requires point < Sum(scores)
    ensures c < |scores| && Picks(scores, point, c)
  {
    var n := |scores| - 1;
    var front := scores[..n];
    if point < Sum(front) {
      c := PointPicks(front, point);
      assert front[..c] == scores[..c] && front[..c + 1] == scores[..c + 1];
    } else {
      c := n;
      assert scores[..n + 1] == scores;
    }
  }

  /** Whatever order the table is walked in, a member is chosen for exactly as many of the
      points as its score, and every point chooses somebody. */
  lemma ChanceIsScore(order: seq<NodeId>, scores: seq<nat>, c: nat)
    requires |scores| == |order| && c < |order| && Distinct(order)
    ensures |set p: nat | p < Sum(scores) && Chooses(order, scores, p, order[c])| == scores[c]
    ensures forall p: nat :: p < Sum(scores) ==> SomebodyAt(order, scores, p)
  {
    PointsOf(scores, c);
    assert (set p: nat | p < Sum(scores) && Chooses(order, scores, p, order[c]))
        == (set p: nat | p < Sum(scores) && Picks(scores, p, c));
    forall p: nat | p < Sum(scores) ensures SomebodyAt(order, scores, p) {
      var k := PointPicks(scores, p);
      assert order[k] in order && Chooses(order, scores, p, order[k]);
    }
  }

  // --- How many random words choose a member

  predicate Within(word: int, total: nat, lo: nat, hi: nat)
    requires total > 0
  {
    lo <= word % total < hi
  }

  ghost function WordsIn(words: nat, total: nat, lo: nat, hi: nat): set<nat>
    requires total > 0
  {
    set w: nat | w < words && Within(w, total, lo, hi)
  }

  function Min(a: nat, b: nat): nat {
    if a < b then a else b
  }

  /** The words below `words` that are reduced into the stretch from lo to hi: as many per
      point as the total goes into them, and one more for each of the first points left
      over. */
  lemma {:induction false} WordsWithin(words: nat, total: nat, lo: nat, hi: nat)
    requires lo <= hi <= total && total > 0
    ensures |WordsIn(words, total, lo, hi)| ==
              (hi - lo) * (words / total) + (Min(hi, words % total) - Min(lo, words % total))
  {
    hide WordsIn, Lands;
    if lo == hi {
      NoWords(words, total, lo);
    } else {
      WordsWithin(words, total, lo, hi - 1);
      WordsPerPoint(words, total, hi - 1);
      OnePointMore(words, total, lo, hi - 1);
      OneMoreTime(hi - 1 - lo, words / total);
    }
  }

  lemma NoWords(words: nat, total: nat, at: nat)
    requires total > 0
    ensures WordsIn(words, total, at, at) == {}
  {
  }

  lemma OnePointMore(words: nat, total: nat, lo: nat, hi: nat)
    requires lo <= hi < total
    ensures |WordsIn(words, total, lo, hi + 1)| ==
              |WordsIn(words, total, lo, hi)| + |set w: int | 0 <= w < words && Lands(w, total, hi)|
  {
    var more, less := WordsIn(words, total, lo, hi + 1), WordsIn(words, total, lo, hi);
    var there := set w: nat | w < words && Lands(w, total, hi);
    assert more == less + there && less !! there;
    assert there == set w: int | 0 <= w < words && Lands(w, total, hi);
  }

  /** Of the random words, a member is chosen for its score times the whole number of times
      the total fits into them, plus its part of what is left over; when every score is zero,
      the words are dealt out one by one. */
  lemma WordsChoose(scores: seq<nat>, c: nat)
    requires c < |scores|
    ensures |set w: nat | w < WORDS && Chosen(scores, w, c)| ==
              var total := Sum(scores);
              if total == 0 then WORDS / |scores| + (if c < WORDS % |scores| then 1 else 0)
              else var left := WORDS % total;
                   scores[c] * (WORDS / total) + (Min(Sum(scores[..c + 1]), left) - Min(Sum(scores[..c]), left))
  {
    var total := Sum(scores);
    if total == 0 {
      WordsPerPoint(WORDS, |scores|, c);
      ZeroChosen(scores, c);
    } else {
      var lo, hi := Sum(scores[..c]), Sum(scores[..c + 1]);
      assert scores[..c + 1][..c] == scores[..c] && scores[..|scores|] == scores;
      SumGrows(scores, c + 1, |scores|);
      WordsWithin(WORDS, total, lo, hi);
      WeightedChosen(scores, c);
    }
  }

  lemma ZeroChosen(scores: seq<nat>, c: nat)
    requires c < |scores| && Sum(scores) == 0
    ensures (set w: nat | w < WORDS && Chosen(scores, w, c)) == set w: int | 0 <= w < WORDS && Lands(w, |scores|, c)
  {
  }

  lemma WeightedChosen(scores: seq<nat>, c: nat)
    requires c < |scores| && Sum(scores) > 0
    ensures (set w: nat | w < WORDS && Chosen(scores, w, c)) ==
            WordsIn(WORDS, Sum(scores), Sum(scores[..c]), Sum(scores[..c + 1]))
  {
    assert scores[..c + 1][..c] == scores[..c];
  }
}
