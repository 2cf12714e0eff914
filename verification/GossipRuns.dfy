/** Any number of gossip nodes over a network that may lose, duplicate, delay and reorder
    frames but not forge them: election safety, per-node leadership, replay protection and
    the authority behind zone updates, over every run. */
module GossipRuns {

  import opened Gossip

  /** `frames` holds every frame ever sent, so delivery may take any of them, any number of
      times or never.  `pending` holds the broadcasts that have been begun: their frames go
      out one by one, after the lock is released. */
  datatype System = System(nodes: map<NodeId, Node>, frames: set<Frame>, pending: set<(NodeId, Message)>)

  /** External frames come from senders that are not nodes of the system. */
  datatype Step =
    | Deliver(to: NodeId, frame: Frame, now: int)
    | Act(node: NodeId, action: Local)
    | Begin(node: NodeId, msg: Message)
    | Send(node: NodeId, msg: Message)
    | External(frame: Frame)

  predicate Enabled(s: System, step: Step) {
    match step
    case Deliver(to, f, _) => to in s.nodes && f in s.frames
    case Act(n, _) => n in s.nodes
    case Begin(n, m) => n in s.nodes && Begins(s.nodes[n], m)
    case Send(n, m) => n in s.nodes && Sends(s, n, m)
    case External(f) => f.from !in s.nodes
  }

  /** The check made under the lock before a broadcast: leadership for an update; an election
      takes the term it has just reached. */
  predicate Begins(n: Node, m: Message) {
    match m
    case Election(proposed, term) => proposed == n.self && term == n.electionTerm
    case ZoneUpdate(_) => n.isLeader
    case ConfigSync(_) => n.isLeader
    case _ => false
  }

  /** Announcements and heartbeats are sent under the lock; other broadcasts after it. */
  predicate Sends(s: System, n: NodeId, m: Message)
    requires n in s.nodes
  {
    match m
    case Leader(leader, term) => s.nodes[n].isLeader && leader == n && term == s.nodes[n].leaderTerm
    case Heartbeat(leader, term) => s.nodes[n].isLeader && leader == n && term == s.nodes[n].leaderTerm
    case Other => true
    case _ => (n, m) in s.pending
  }

  /** What a step does to one node. */
  function After(n: Node, step: Step): Node {
    match step
    case Deliver(to, f, now) => if to == n.self then OnFrame(n, f, now) else n
    case Act(node, a) => if node == n.self then OnLocal(n, a) else n
    case Begin(_, _) => n
    case Send(node, _) => if node == n.self then Sent(n, 1) else n
    case External(_) => n
  }

  function Emitted(s: System, step: Step): set<Frame>
    requires Enabled(s, step)
  {
    match step
    case Send(n, m) => {NextFrame(s.nodes[n], m)}
    case External(f) => {f}
    case _ => {}
  }

  ghost predicate Next(s: System, step: Step, t: System) {
    && Enabled(s, step)
    && t.nodes.Keys == s.nodes.Keys
    && (forall n :: n in s.nodes ==> t.nodes[n] == After(s.nodes[n], step))
    && t.frames == s.frames + Emitted(s, step)
    && t.pending == s.pending + if step.Begin? then {(step.node, step.msg)} else {}
  }

  predicate IsFresh(node: Node, id: NodeId) {
    node == Fresh(id, node.version, node.onZone, node.onConfig, node.lastHeartbeat)
  }

  ghost predicate Init(s: System) {
    && (forall n :: n in s.nodes ==>
          n != NONE && s.nodes[n].version != 0 && IsFresh(s.nodes[n], n))
    && s.frames == {} && s.pending == {}
  }

  ghost predicate IsRun(states: seq<System>, steps: seq<Step>) {
    && |states| == |steps| + 1 && Init(states[0])
    && forall i :: 0 <= i < |steps| ==> Next(states[i], steps[i], states[i + 1])
  }

  // --- One node along a run

  lemma {:induction false} NodeKept(states: seq<System>, steps: seq<Step>, i: nat, n: NodeId)
    requires IsRun(states, steps) && i < |states| && n in states[0].nodes
    ensures n in states[i].nodes && states[i].nodes[n].self == n && WellFormed(states[i].nodes[n])
  {
    hide After;
    if i > 0 {
      NodeKept(states, steps, i - 1, n);
      assert Next(states[i - 1], steps[i - 1], states[i]);
      StepKeepsWellFormed(states[i - 1].nodes[n], steps[i - 1]);
    }
  }

  lemma StepKeepsWellFormed(n: Node, step: Step)
    requires WellFormed(n)
    ensures WellFormed(After(n, step)) && After(n, step).self == n.self && After(n, step).version == n.version
    ensures After(n, step).leaderTerm >= n.leaderTerm && After(n, step).electionTerm >= n.electionTerm
    ensures After(n, step).nextSequence >= n.nextSequence
  {
    hide OnFrame, OnLocal;
    match step
    case Deliver(_, f, now) => FrameKeeps(n, f, now);
    case Act(_, a) => LocalKeeps(n, a);
    case _ =>
  }

  /** One node is a later state of the other. */
  predicate Later(n: Node, m: Node) {
    && WellFormed(m) && m.self == n.self && m.version == n.version && m.nextSequence == n.nextSequence
    && m.leaderTerm >= n.leaderTerm && m.electionTerm >= n.electionTerm
  }

  lemma LocalKeeps(n: Node, a: Local)
    requires WellFormed(n)
    ensures Later(n, OnLocal(n, a))
  {
  }

  lemma FrameKeeps(n: Node, f: Frame, now: int)
    requires WellFormed(n)
    ensures Later(n, OnFrame(n, f, now))
  {
    hide Accepts, Dispatched;
    DispatchKeeps(Marked(n, f), f.msg, now);
  }

  lemma DispatchKeeps(n: Node, msg: Message, now: int)
    requires WellFormed(n)
    ensures Later(n, Dispatched(n, msg, now))
  {
  }

  /** A node's states along a run; everything that concerns one node only is proved on these. */
  ghost predicate IsTrace(trace: seq<Node>, steps: seq<Step>) {
    && |trace| == |steps| + 1 && (forall i :: 0 <= i < |trace| ==> WellFormed(trace[i]))
    && forall i :: 0 <= i < |steps| ==> trace[i + 1] == After(trace[i], steps[i])
  }

  ghost function Trace(states: seq<System>, steps: seq<Step>, n: NodeId): (trace: seq<Node>)
    requires IsRun(states, steps) && n in states[0].nodes
    ensures IsTrace(trace, steps) && trace[0].sequences == map[]
    ensures forall i :: 0 <= i < |states| ==>
              n in states[i].nodes && trace[i] == states[i].nodes[n] && trace[i].self == n
  {
    hide After, WellFormed;
    assert forall i :: 0 <= i < |states| ==>
             n in states[i].nodes && states[i].nodes[n].self == n && WellFormed(states[i].nodes[n]) by {
      forall i | 0 <= i < |states|
        ensures n in states[i].nodes && states[i].nodes[n].self == n && WellFormed(states[i].nodes[n])
      {
        NodeKept(states, steps, i, n);
      }
    }
    seq(|states|, i requires 0 <= i < |states| && n in states[i].nodes => states[i].nodes[n])
  }

  /** This node's own split-brain detection fires at this step. */
  predicate OwnStepDown(n: Node, step: Step) {
    step.Act? && step.node == n.self && step.action.DetectSplitBrain? && SplitBrain(n)
  }

  lemma LeaderKeptByStep(n: Node, step: Step)
    requires WellFormed(n) && n.currentLeader != NONE && After(n, step).leaderTerm == n.leaderTerm
    ensures After(n, step).currentLeader == n.currentLeader || OwnStepDown(n, step)
  {
    hide Accepts, Dispatched;
    if step.Deliver? {
      LeaderKeptByMessage(Marked(n, step.frame), step.frame.msg, step.now);
    }
  }

  lemma LeaderKeptByMessage(n: Node, msg: Message, now: int)
    requires n.currentLeader != NONE
    ensures Dispatched(n, msg, now).leaderTerm == n.leaderTerm ==> Dispatched(n, msg, now).currentLeader == n.currentLeader
  {
  }

  lemma {:induction false} LeadershipOnTrace(trace: seq<Node>, steps: seq<Step>, i: nat, j: nat)
    requires IsTrace(trace, steps) && i <= j < |trace|
    ensures trace[j].self == trace[i].self
    ensures trace[i].leaderTerm <= trace[j].leaderTerm && trace[i].electionTerm <= trace[j].electionTerm
    ensures trace[i].currentLeader != NONE && trace[j].currentLeader != trace[i].currentLeader
            && trace[i].leaderTerm == trace[j].leaderTerm ==>
              && trace[i].currentLeader == trace[i].self
              && exists k :: i <= k < j && OwnStepDown(trace[k], steps[k])
  {
    hide After;
    if i < j {
      LeadershipOnTrace(trace, steps, i, j - 1);
      StepKeepsWellFormed(trace[j - 1], steps[j - 1]);
      if trace[i].currentLeader != NONE && trace[i].leaderTerm == trace[j].leaderTerm
         && trace[j - 1].currentLeader == trace[i].currentLeader != trace[j].currentLeader {
        LeaderKeptByStep(trace[j - 1], steps[j - 1]);
        assert OwnStepDown(trace[j - 1], steps[j - 1]);
      }
    }
  }

  /** In every run a node leads exactly when it names itself, terms never go back, and within
      a term a known leader is only ever given up by this node's own split-brain step-down
      from leading itself. */
  lemma Leadership(states: seq<System>, steps: seq<Step>, i: nat, j: nat, n: NodeId)
    requires IsRun(states, steps) && i <= j < |states| && n in states[0].nodes
    ensures n in states[i].nodes && n in states[j].nodes
    ensures var a, b := states[i].nodes[n], states[j].nodes[n];
            && (b.isLeader <==> b.currentLeader == n)
            && a.leaderTerm <= b.leaderTerm && a.electionTerm <= b.electionTerm
            && (a.currentLeader != NONE && b.currentLeader != a.currentLeader && a.leaderTerm == b.leaderTerm ==>
                  && a.currentLeader == n
                  && exists k :: i <= k < j && n in states[k].nodes && OwnStepDown(states[k].nodes[n], steps[k]))
  {
    hide After, Init, SplitBrain;
    var trace := Trace(states, steps, n);
    NodeKept(states, steps, j, n);
    LeadershipOnTrace(trace, steps, i, j);
    assert trace[i] == states[i].nodes[n] && trace[j] == states[j].nodes[n];
    if k :| i <= k < j && OwnStepDown(trace[k], steps[k]) {
      assert trace[k] == states[k].nodes[n];
    }
  }

  // --- What a node does, field by field

  predicate Announces(m: Message, leader: NodeId, term: nat) {
    (m.Leader? || m.Heartbeat?) && m.leader == leader && m.term == term
  }

  /** The leadership fields of two states of a node agree. */
  predicate SameLeadership(n: Node, m: Node) {
    && m.currentLeader == n.currentLeader && m.leaderTerm == n.leaderTerm
    && m.isLeader == n.isLeader && m.lastHeartbeat == n.lastHeartbeat
  }

  /** Everything but the leadership fields and the high-water marks agrees. */
  predicate SameOtherwise(n: Node, m: Node) {
    && m.self == n.self && m.version == n.version && m.onZone == n.onZone && m.onConfig == n.onConfig
    && m.electionTerm == n.electionTerm && m.electionRunning == n.electionRunning && m.nextSequence == n.nextSequence
  }

  /** An accepted announcement or heartbeat of another sender makes the node follow its leader
      in its term, from that moment on, just when the term is higher, or the same while no
      leader or this leader is known; otherwise the node's leadership stays as it is. */
  lemma FollowsExactly(n: Node, f: Frame, now: int, leader: NodeId, term: nat)
    requires WellFormed(n) && Accepts(n, f) && f.from != n.self && Announces(f.msg, leader, term)
    ensures var m := OnFrame(n, f, now);
            && SameOtherwise(n, m)
            && if term > n.leaderTerm
                  || (term == n.leaderTerm && (n.currentLeader == NONE || n.currentLeader == leader))
               then m.currentLeader == leader && m.leaderTerm == term && (m.isLeader <==> leader == n.self)
                    && m.lastHeartbeat == now
               else SameLeadership(n, m)
  {
    hide Accepts, Dispatched;
    FollowsMessage(Marked(n, f), f.msg, now, leader, term);
  }

  lemma FollowsMessage(n: Node, msg: Message, now: int, leader: NodeId, term: nat)
    requires WellFormed(n) && Announces(msg, leader, term)
    ensures var m := Dispatched(n, msg, now);
            && SameOtherwise(n, m)
            && if term > n.leaderTerm
                  || (term == n.leaderTerm && (n.currentLeader == NONE || n.currentLeader == leader))
               then m.currentLeader == leader && m.leaderTerm == term && (m.isLeader <==> leader == n.self)
                    && m.lastHeartbeat == now
               else SameLeadership(n, m)
  {
  }

  /** The same in a run: what the node is after the delivery. */
  lemma FollowsInRun(states: seq<System>, steps: seq<Step>, i: nat, leader: NodeId, term: nat)
    requires IsRun(states, steps) && i < |steps| && steps[i].Deliver? && steps[i].to in states[i].nodes
    requires AcceptedAt(states[i].nodes[steps[i].to], steps[i]) && steps[i].frame.from != steps[i].to
    requires Announces(steps[i].frame.msg, leader, term)
    ensures steps[i].to in states[i + 1].nodes
    ensures var a, b := states[i].nodes[steps[i].to], states[i + 1].nodes[steps[i].to];
            if term > a.leaderTerm || (term == a.leaderTerm && (a.currentLeader == NONE || a.currentLeader == leader))
            then b.currentLeader == leader && b.leaderTerm == term && (b.isLeader <==> leader == steps[i].to)
                 && b.lastHeartbeat == steps[i].now
            else SameLeadership(a, b)
  {
    hide Init, Accepts, OnFrame;
    Kept(states, steps, i, steps[i].to);
    FollowsExactly(states[i].nodes[steps[i].to], steps[i].frame, steps[i].now, leader, term);
  }

  /** A leader that accepts an election frame of another sender keeps the highest election term
      seen, and its next split-brain check makes it step down just when that is above its own
      term. */
  lemma ElectionForcesStepDown(n: Node, f: Frame, now: int)
    requires WellFormed(n) && n.isLeader && Accepts(n, f) && f.from != n.self && f.msg.Election?
    ensures var m := OnFrame(n, f, now);
            var d := OnLocal(m, DetectSplitBrain);
            && SameLeadership(n, m) && m.electionTerm == (if f.msg.term > n.electionTerm then f.msg.term else n.electionTerm)
            && if f.msg.term > n.leaderTerm || n.electionTerm > n.leaderTerm
               then !d.isLeader && d.currentLeader == NONE && d.leaderTerm == n.leaderTerm
                    && d.lastHeartbeat == n.lastHeartbeat && SameOtherwise(m, d)
               else d == m
  {
    hide Accepts;
  }

  /** A node that does not lead is not touched by the check, nor by stepping down. */
  lemma FollowersStay(n: Node)
    requires !n.isLeader
    ensures OnLocal(n, DetectSplitBrain) == n && OnLocal(n, StepDown) == n
  {
  }

  /** Stepping down leaves the node without a leader, in a term in which every announcement of
      the old one is ignored. */
  lemma StepDownLeavesTerm(n: Node, f: Frame, now: int, leader: NodeId, term: nat)
    requires WellFormed(n) && n.isLeader
    ensures var d := OnLocal(n, StepDown);
            && !d.isLeader && d.currentLeader == NONE && d.leaderTerm == n.leaderTerm + 1
            && d.lastHeartbeat == n.lastHeartbeat && d.sequences == n.sequences && SameOtherwise(n, d)
            && (Accepts(d, f) && f.from != n.self && Announces(f.msg, leader, term) && term <= n.leaderTerm ==>
                  SameLeadership(d, OnFrame(d, f, now)))
  {
  }

  /** A follower whose leader has been silent for fifteen seconds, and that runs no election,
      starts one and leaves the leader's term; anyone else is not touched. */
  lemma SilenceExactly(n: Node, now: int)
    ensures var d := OnLocal(n, CheckHealth(now));
            if !n.isLeader && n.currentLeader != NONE && now - n.lastHeartbeat >= 15_000_000_000 && !n.electionRunning
            then && d.electionRunning && d.leaderTerm == n.leaderTerm + 1 && d.currentLeader == n.currentLeader
                 && !d.isLeader && d.lastHeartbeat == n.lastHeartbeat && d.sequences == n.sequences
                 && d.electionTerm == n.electionTerm && d.nextSequence == n.nextSequence
            else d == n
  {
  }

  /** An election round raises the election term by one and clears the guard, nothing else. */
  lemma ElectionRound(n: Node)
    ensures var d := OnLocal(OnLocal(n, BeginElection), EndElection);
            && d.electionTerm == n.electionTerm + 1 && !d.electionRunning && SameLeadership(n, d)
            && d.sequences == n.sequences && d.nextSequence == n.nextSequence && d.self == n.self
  {
  }

  /** The callback runs on an accepted update of another sender just when a follower knows a
      leader, the sender is that leader, the callback is registered and the payload decodes. */
  lemma CallbackRunsExactly(n: Node, f: Frame)
    requires Accepts(n, f) && f.from != n.self && (f.msg.ZoneUpdate? || f.msg.ConfigSync?)
    ensures Applies(n, f) <==>
              && !n.isLeader && n.currentLeader != NONE && n.currentLeader == f.from
              && (if f.msg.ZoneUpdate? then n.onZone else n.onConfig) && f.msg.payload.Some?
  {
  }

  // --- Replay protection

  /** The frame is delivered to this node at this step and passes the guard. */
  predicate AcceptedAt(n: Node, step: Step) {
    step.Deliver? && step.to == n.self && Accepts(n, step.frame)
  }

  predicate Versioned(step: Step) {
    step.Deliver? && step.frame.version != 0
  }

  lemma SequencesByStep(n: Node, step: Step)
    ensures After(n, step).sequences ==
            if AcceptedAt(n, step) && Versioned(step) then n.sequences[step.frame.from := step.frame.sequence]
            else n.sequences
  {
    hide Accepts, Dispatched, OnLocal;
    match step
    case Deliver(_, f, now) => SequencesByMessage(Marked(n, f), f.msg, now);
    case Act(_, a) => SequencesByLocal(n, a);
    case _ =>
  }

  lemma SequencesByMessage(n: Node, msg: Message, now: int)
    ensures Dispatched(n, msg, now).sequences == n.sequences
  {
  }

  lemma SequencesByLocal(n: Node, a: Local)
    ensures OnLocal(n, a).sequences == n.sequences
  {
  }

  /** The high-water mark of a sender is the sequence number of the last versioned frame
      accepted from it, which is above that of every earlier one. */
  lemma {:induction false} HighWater(trace: seq<Node>, steps: seq<Step>, j: nat, i: nat)
    requires IsTrace(trace, steps) && i < j < |trace| && AcceptedAt(trace[i], steps[i]) && Versioned(steps[i])
    ensures var f := steps[i].frame;
            f.from in trace[j].sequences && f.sequence <= trace[j].sequences[f.from]
  {
    hide After;
    SequencesByStep(trace[j - 1], steps[j - 1]);
    if i < j - 1 {
      HighWater(trace, steps, j - 1, i);
    }
  }

  lemma {:induction false} MarkHasFrame(trace: seq<Node>, steps: seq<Step>, j: nat, from: NodeId)
    requires IsTrace(trace, steps) && trace[0].sequences == map[] && j < |trace| && from in trace[j].sequences
    ensures exists i :: 0 <= i < j && AcceptedAt(trace[i], steps[i]) && Versioned(steps[i])
                        && steps[i].frame.from == from && steps[i].frame.sequence == trace[j].sequences[from]
  {
    hide After;
    SequencesByStep(trace[j - 1], steps[j - 1]);
    if !(AcceptedAt(trace[j - 1], steps[j - 1]) && Versioned(steps[j - 1]) && steps[j - 1].frame.from == from) {
      MarkHasFrame(trace, steps, j - 1, from);
    }
  }

  lemma AcceptedOnTrace(trace: seq<Node>, steps: seq<Step>, j: nat)
    requires IsTrace(trace, steps) && trace[0].sequences == map[] && j < |steps|
    requires Versioned(steps[j]) && steps[j].to == trace[j].self
    ensures AcceptedAt(trace[j], steps[j]) <==>
              && steps[j].frame.version == trace[j].version
              && forall i :: 0 <= i < j && AcceptedAt(trace[i], steps[i]) && Versioned(steps[i])
                             && steps[i].frame.from == steps[j].frame.from ==>
                               steps[i].frame.sequence < steps[j].frame.sequence
  {
    hide After;
    var f := steps[j].frame;
    forall i | 0 <= i < j && AcceptedAt(trace[i], steps[i]) && Versioned(steps[i]) && steps[i].frame.from == f.from
      ensures f.from in trace[j].sequences && steps[i].frame.sequence <= trace[j].sequences[f.from]
    {
      HighWater(trace, steps, j, i);
    }
    if f.from in trace[j].sequences {
      MarkHasFrame(trace, steps, j, f.from);
    }
  }

  /** The node of the run accepts a versioned frame of this sender at this step. */
  ghost predicate AcceptsFrom(states: seq<System>, steps: seq<Step>, n: NodeId, i: nat, from: NodeId)
    requires i < |states| && i < |steps|
  {
    n in states[i].nodes && AcceptedAt(states[i].nodes[n], steps[i]) && Versioned(steps[i]) && steps[i].frame.from == from
  }

  /** Replay protection, exactly: in every run a versioned frame is accepted just when its
      version fits and its sequence number is above that of every versioned frame accepted
      before from the same sender. */
  lemma AcceptedExactly(states: seq<System>, steps: seq<Step>, n: NodeId, j: nat)
    requires IsRun(states, steps) && n in states[0].nodes && j < |steps| && Versioned(steps[j]) && steps[j].to == n
    ensures n in states[j].nodes
    ensures AcceptedAt(states[j].nodes[n], steps[j]) <==>
              && steps[j].frame.version == states[j].nodes[n].version
              && forall i :: 0 <= i < j && AcceptsFrom(states, steps, n, i, steps[j].frame.from) ==>
                               steps[i].frame.sequence < steps[j].frame.sequence
  {
    hide After, Init, Accepts;
    var trace := Trace(states, steps, n);
    assert forall i :: 0 <= i <= j ==> n in states[i].nodes && trace[i] == states[i].nodes[n];
    AcceptedOnTrace(trace, steps, j);
  }

  /** Whatever the network duplicates, a node handles a versioned frame at most once, and the
      frames of one sender in the order they were numbered. */
  lemma HandledOnce(states: seq<System>, steps: seq<Step>, n: NodeId, i: nat, j: nat)
    requires IsRun(states, steps) && n in states[0].nodes && i < j < |steps| && Versioned(steps[j])
    requires AcceptsFrom(states, steps, n, j, steps[j].frame.from)
    requires AcceptsFrom(states, steps, n, i, steps[j].frame.from)
    ensures steps[i].frame.sequence < steps[j].frame.sequence
  {
    hide After, Init, Accepts;
    NodeKept(states, steps, j, n);
    AcceptedExactly(states, steps, n, j);
  }

  /** A frame that is not accepted changes nothing at all. */
  lemma RejectedChangesNothing(n: Node, step: Step)
    requires step.Deliver? && step.to == n.self && !AcceptedAt(n, step)
    ensures After(n, step) == n && !Applies(n, step.frame)
  {
  }

  // --- What is on the wire

  predicate SameNumber(f: Frame, g: Frame) {
    f.from == g.from && f.sequence == g.sequence
  }

  /** The frames of a node carry its version; a sequence number of it belongs to one frame, and
      the next one is still unused. */
  ghost predicate FreshSequences(s: System) {
    && (forall f :: f in s.frames && f.from in s.nodes ==>
          f.sequence <= s.nodes[f.from].nextSequence && f.version == s.nodes[f.from].version)
    && forall f, g :: f in s.frames && g in s.frames && f.from in s.nodes && SameNumber(f, g) ==> f == g
  }

  lemma {:induction false} SequencesUnique(states: seq<System>, steps: seq<Step>, i: nat)
    requires IsRun(states, steps) && i < |states|
    ensures FreshSequences(states[i])
  {
    hide After, Init;
    if i > 0 {
      SequencesUnique(states, steps, i - 1);
      forall n | n in states[i - 1].nodes
        ensures states[i - 1].nodes[n].self == n
                && states[i].nodes[n].nextSequence >= states[i - 1].nodes[n].nextSequence
                && states[i].nodes[n].version == states[i - 1].nodes[n].version
      {
        Kept(states, steps, i - 1, n);
      }
      var s, step, t := states[i - 1], steps[i - 1], states[i];
      assert Next(s, step, t);
      if step.Send? {
        assert t.nodes[step.node] == Sent(s.nodes[step.node], 1) by { AfterSend(s.nodes[step.node], step); }
      }
    } else {
      InitEmpty(states[0]);
    }
  }

  lemma AfterSend(n: Node, step: Step)
    requires step.Send? && step.node == n.self
    ensures After(n, step) == Sent(n, 1)
  {
  }

  lemma InitEmpty(s: System)
    requires Init(s)
    ensures s.frames == {} && s.pending == {} && forall n :: n in s.nodes ==> !s.nodes[n].isLeader
  {
  }

  /** The nodes stay the same; each moves by its own step. */
  lemma Kept(states: seq<System>, steps: seq<Step>, i: nat, n: NodeId)
    requires IsRun(states, steps) && i < |steps| && n in states[i].nodes
    ensures n in states[0].nodes && n in states[i + 1].nodes && states[i].nodes[n].self == n
    ensures WellFormed(states[i].nodes[n]) && states[i + 1].nodes[n] == After(states[i].nodes[n], steps[i])
    ensures states[i + 1].nodes[n].nextSequence >= states[i].nodes[n].nextSequence
    ensures states[i + 1].nodes[n].version == states[i].nodes[n].version
  {
    hide After, Init, WellFormed;
    SameNodes(states, steps, i);
    NodeKept(states, steps, i, n);
    assert Next(states[i], steps[i], states[i + 1]);
    StepKeepsWellFormed(states[i].nodes[n], steps[i]);
  }

  lemma {:induction false} SameNodes(states: seq<System>, steps: seq<Step>, i: nat)
    requires IsRun(states, steps) && i < |states|
    ensures states[i].nodes.Keys == states[0].nodes.Keys
  {
    hide After, Init;
    if i > 0 {
      SameNodes(states, steps, i - 1);
      assert Next(states[i - 1], steps[i - 1], states[i]);
    }
  }

  // --- Election safety

  /** A sender outside the system has announced this leader for this term. */
  ghost predicate Announced(s: System, leader: NodeId, term: nat) {
    exists f :: f in s.frames && f.from !in s.nodes && Announces(f.msg, leader, term)
  }

  /** Every leadership claim, on the wire or held by a node, repeats an outside announcement. */
  ghost predicate ClaimsAnnounced(s: System) {
    && (forall f :: f in s.frames && (f.msg.Leader? || f.msg.Heartbeat?) ==> Announced(s, f.msg.leader, f.msg.term))
    && forall n :: n in s.nodes && s.nodes[n].isLeader ==> Announced(s, n, s.nodes[n].leaderTerm)
  }

  lemma LeaderGainedByStep(n: Node, step: Step)
    requires WellFormed(n) && After(n, step).isLeader
    ensures (n.isLeader && n.leaderTerm == After(n, step).leaderTerm)
            || (step.Deliver? && Announces(step.frame.msg, n.self, After(n, step).leaderTerm))
  {
    hide Accepts, Dispatched;
    if step.Deliver? {
      LeaderGainedByMessage(Marked(n, step.frame), step.frame.msg, step.now);
    }
  }

  lemma LeaderGainedByMessage(n: Node, msg: Message, now: int)
    requires WellFormed(n)
    ensures var m := Dispatched(n, msg, now);
            m.isLeader ==> (n.isLeader && n.leaderTerm == m.leaderTerm) || Announces(msg, n.self, m.leaderTerm)
  {
  }

  lemma AnnouncedGrows(s: System, step: Step, t: System, leader: NodeId, term: nat)
    requires Next(s, step, t) && Announced(s, leader, term)
    ensures Announced(t, leader, term)
  {
    var f :| f in s.frames && f.from !in s.nodes && Announces(f.msg, leader, term);
    assert f in t.frames && f.from !in t.nodes;
  }

  lemma {:induction false} ClaimsRepeatAnnouncements(states: seq<System>, steps: seq<Step>, i: nat)
    requires IsRun(states, steps) && i < |states|
    ensures ClaimsAnnounced(states[i])
  {
    hide After, Init, Announced, WellFormed;
    if i > 0 {
      ClaimsRepeatAnnouncements(states, steps, i - 1);
      assert Next(states[i - 1], steps[i - 1], states[i]);
      forall f | f in states[i].frames && (f.msg.Leader? || f.msg.Heartbeat?)
        ensures Announced(states[i], f.msg.leader, f.msg.term)
      {
        FrameAnnounced(states[i - 1], steps[i - 1], states[i], f);
      }
      forall n | n in states[i].nodes && states[i].nodes[n].isLeader
        ensures Announced(states[i], n, states[i].nodes[n].leaderTerm)
      {
        Kept(states, steps, i - 1, n);
        LeaderGainedByStep(states[i - 1].nodes[n], steps[i - 1]);
        AnnouncedGrows(states[i - 1], steps[i - 1], states[i], n, states[i].nodes[n].leaderTerm);
      }
    } else {
      InitEmpty(states[0]);
    }
  }

  lemma FrameAnnounced(s: System, step: Step, t: System, f: Frame)
    requires Next(s, step, t) && ClaimsAnnounced(s) && f in t.frames && (f.msg.Leader? || f.msg.Heartbeat?)
    ensures Announced(t, f.msg.leader, f.msg.term)
  {
    hide After;
    if f in s.frames || step.Send? {
      assert Announced(s, f.msg.leader, f.msg.term);
      AnnouncedGrows(s, step, t, f.msg.leader, f.msg.term);
    } else {
      assert step.External? && f == step.frame && f.from !in t.nodes;
      assert Announces(f.msg, f.msg.leader, f.msg.term);
    }
  }

  /** The outside announcements name at most one of the nodes per term. */
  ghost predicate OneLeaderPerTerm(s: System) {
    forall a, b, term :: a in s.nodes && b in s.nodes && Announced(s, a, term) && Announced(s, b, term) ==> a == b
  }

  lemma {:induction false} AnnouncedLater(states: seq<System>, steps: seq<Step>, i: nat, j: nat, leader: NodeId, term: nat)
    requires IsRun(states, steps) && i <= j < |states| && Announced(states[i], leader, term)
    ensures Announced(states[j], leader, term)
  {
    hide After, Init, Announced;
    if i < j {
      AnnouncedLater(states, steps, i, j - 1, leader, term);
      AnnouncedGrows(states[j - 1], steps[j - 1], states[j], leader, term);
    }
  }

  /** Election safety: if the outside announcements of a whole run name at most one leader per
      term, then over the whole run at most one node leads in any term, even at different
      times. */
  lemma OneNodeLeadsPerTerm(states: seq<System>, steps: seq<Step>, i: nat, a: NodeId, j: nat, b: NodeId)
    requires IsRun(states, steps) && i < |states| && j < |states| && OneLeaderPerTerm(states[|steps|])
    requires a in states[i].nodes && states[i].nodes[a].isLeader
    requires b in states[j].nodes && states[j].nodes[b].isLeader
    requires states[i].nodes[a].leaderTerm == states[j].nodes[b].leaderTerm
    ensures a == b
  {
    hide After, Init, Announced;
    var term := states[i].nodes[a].leaderTerm;
    ClaimsRepeatAnnouncements(states, steps, i);
    ClaimsRepeatAnnouncements(states, steps, j);
    AnnouncedLater(states, steps, i, |steps|, a, term);
    AnnouncedLater(states, steps, j, |steps|, b, term);
    SameNodes(states, steps, i);
    SameNodes(states, steps, j);
    SameNodes(states, steps, |steps|);
  }

  /** At no time do two nodes lead in the same term. */
  ghost predicate NeverTwoLeaders(states: seq<System>) {
    forall i, a, b :: 0 <= i < |states| && LeadTogether(states[i], a, b) ==> a == b
  }

  predicate LeadTogether(s: System, a: NodeId, b: NodeId) {
    && a in s.nodes && b in s.nodes && s.nodes[a].isLeader && s.nodes[b].isLeader
    && s.nodes[a].leaderTerm == s.nodes[b].leaderTerm
  }

  /** The outside announcements of the run all belong to the given ones. */
  ghost predicate Confined(states: seq<System>, announcements: iset<(NodeId, nat)>)
    requires states != []
  {
    forall leader: NodeId, term: nat ::
      Announced(states[|states| - 1], leader, term) ==> (leader, term) in announcements
  }

  /** No two nodes are named for one term. */
  ghost predicate Functional(announcements: iset<(NodeId, nat)>) {
    forall a: NodeId, b: NodeId, term: nat {:trigger (a, term), (b, term)} ::
      a != NONE && b != NONE && (a, term) in announcements && (b, term) in announcements ==> a == b
  }

  ghost predicate Safe(announcements: iset<(NodeId, nat)>) {
    forall states, steps :: IsRun(states, steps) && Confined(states, announcements) ==> NeverTwoLeaders(states)
  }

  /** The condition is exact: a collection of outside announcements is safe in every run of
      every system just when it does not name two nodes for one term. */
  lemma SafeExactly(announcements: iset<(NodeId, nat)>)
    ensures Safe(announcements) <==> Functional(announcements)
  {
    hide After, Announced;
    if Functional(announcements) {
      forall states, steps | IsRun(states, steps) && Confined(states, announcements)
        ensures NeverTwoLeaders(states)
      {
        ConfinedIsSafe(states, steps, announcements);
      }
    } else {
      var a, b, term :| a != NONE && b != NONE && (a, term) in announcements && (b, term) in announcements && a != b;
      var states, steps := TwoLeaders(a, b, term);
    }
  }

  lemma ConfinedIsSafe(states: seq<System>, steps: seq<Step>, announcements: iset<(NodeId, nat)>)
    requires IsRun(states, steps) && Confined(states, announcements) && Functional(announcements)
    ensures NeverTwoLeaders(states)
  {
    hide After, Announced;
    SameNodes(states, steps, |steps|);
    var last := states[|steps|];
    forall a, b, term: nat | a in last.nodes && b in last.nodes && Announced(last, a, term) && Announced(last, b, term)
      ensures a == b
    {
      NodeKept(states, steps, |steps|, a);
      NodeKept(states, steps, |steps|, b);
      assert (a, term) in announcements && (b, term) in announcements;
    }
    assert OneLeaderPerTerm(last);
    forall i, a, b | 0 <= i < |states| && LeadTogether(states[i], a, b) ensures a == b {
      OneNodeLeadsPerTerm(states, steps, i, a, i, b);
    }
  }

  /** Two announcements for one term are enough to make two nodes lead in it. */
  lemma TwoLeaders(a: NodeId, b: NodeId, term: nat) returns (states: seq<System>, steps: seq<Step>)
    requires a != NONE && b != NONE && a != b
    ensures IsRun(states, steps) && Confined(states, iset{(a, term), (b, term)}) && !NeverTwoLeaders(states)
  {
    hide After, OnFrame, Next, Init;
    var f, g := Frame(a + b, 1, 1, Leader(a, term)), Frame(a + b, 1, 2, Leader(b, term));
    var n, m := Fresh(a, 1, true, true, 0), Fresh(b, 1, true, true, 0);
    var p, q := Adopt(Marked(n, f), a, term, 0), Adopt(Marked(m, g), b, term, 0);
    var s0 := System(map[a := n, b := m], {}, {});
    var s1 := s0.(frames := {f});
    var s2 := s0.(frames := {f, g});
    var s3 := s2.(nodes := map[a := p, b := m]);
    var s4 := s2.(nodes := map[a := p, b := q]);
    FreshPair(s0, a, b);
    AnnounceStep(s0, f, s1);
    AnnounceStep(s1, g, s2);
    AdoptStep(s2, a, b, f, term, s3);
    AdoptStep(s3, b, a, g, term, s4);
    steps := [External(f), External(g), Deliver(a, f, 0), Deliver(b, g, 0)];
    states := [s0, s1, s2, s3, s4];
    assert LeadTogether(states[4], a, b);
  }

  lemma FreshPair(s: System, a: NodeId, b: NodeId)
    requires a != NONE && b != NONE && s == System(map[a := Fresh(a, 1, true, true, 0), b := Fresh(b, 1, true, true, 0)], {}, {})
    ensures Init(s)
  {
  }

  lemma AnnounceStep(s: System, f: Frame, t: System)
    requires f.from !in s.nodes && t == s.(frames := s.frames + {f})
    ensures Next(s, External(f), t)
  {
  }

  lemma AdoptStep(s: System, n: NodeId, other: NodeId, f: Frame, term: nat, t: System)
    requires s.nodes.Keys == {n, other} && n != other && s.nodes[other].self == other && s.nodes[n] == Fresh(n, 1, true, true, 0)
    requires f in s.frames && f.from !in s.nodes && f.version == 1 && f.msg == Leader(n, term)
    requires t.nodes == s.nodes[n := Adopt(Marked(s.nodes[n], f), n, term, 0)]
    requires t.frames == s.frames && t.pending == s.pending
    ensures Next(s, Deliver(n, f, 0), t)
  {
  }

  /** Without an outside announcement nobody ever leads: the nodes cannot elect themselves. */
  lemma NobodyLeadsUnannounced(states: seq<System>, steps: seq<Step>, i: nat, n: NodeId)
    requires IsRun(states, steps) && i < |states| && n in states[i].nodes
    requires forall leader, term :: !Announced(states[|steps|], leader, term)
    ensures !states[i].nodes[n].isLeader
  {
    hide After, Init, Announced;
    if states[i].nodes[n].isLeader {
      ClaimsRepeatAnnouncements(states, steps, i);
      AnnouncedLater(states, steps, i, |steps|, n, states[i].nodes[n].leaderTerm);
    }
  }

  // --- Authority behind updates

  ghost predicate BegunBefore(states: seq<System>, steps: seq<Step>, i: nat, n: NodeId, m: Message)
    requires |states| == |steps| + 1
  {
    exists k :: 0 <= k < i && k < |steps| && steps[k] == Begin(n, m) && n in states[k].nodes
                && Begins(states[k].nodes[n], m)
  }

  ghost predicate Broadcasted(m: Message) {
    m.ZoneUpdate? || m.ConfigSync?
  }

  /** Every update on the wire or about to go there was begun by its sender, while leading. */
  lemma {:induction false} UpdatesBegun(states: seq<System>, steps: seq<Step>, i: nat)
    requires IsRun(states, steps) && i < |states|
    ensures forall n, m :: (n, m) in states[i].pending ==> BegunBefore(states, steps, i, n, m)
    ensures forall f :: f in states[i].frames && f.from in states[0].nodes && Broadcasted(f.msg) ==>
              BegunBefore(states, steps, i, f.from, f.msg)
  {
    hide After, Init, BegunBefore;
    if i > 0 {
      UpdatesBegun(states, steps, i - 1);
      SameNodes(states, steps, i - 1);
      var s, step, t := states[i - 1], steps[i - 1], states[i];
      assert Next(s, step, t);
      forall n, m | (n, m) in t.pending ensures BegunBefore(states, steps, i, n, m) {
        BegunStays(states, steps, i, n, m);
      }
      forall f | f in t.frames && f.from in states[0].nodes && Broadcasted(f.msg)
        ensures BegunBefore(states, steps, i, f.from, f.msg)
      {
        if f !in s.frames && step.Send? {
          Kept(states, steps, i - 1, step.node);
        }
        BegunStays(states, steps, i, f.from, f.msg);
      }
    } else {
      InitEmpty(states[0]);
    }
  }

  lemma BegunStays(states: seq<System>, steps: seq<Step>, i: nat, n: NodeId, m: Message)
    requires IsRun(states, steps) && 0 < i < |states|
    requires BegunBefore(states, steps, i - 1, n, m) || steps[i - 1] == Begin(n, m)
    ensures BegunBefore(states, steps, i, n, m)
  {
    hide After, Init;
    assert Next(states[i - 1], steps[i - 1], states[i]);
  }

  /** The leader a node believes in was announced from outside. */
  ghost predicate BeliefsAnnounced(s: System) {
    forall n :: n in s.nodes && s.nodes[n].currentLeader != NONE ==> SomeTerm(s, s.nodes[n].currentLeader)
  }

  ghost predicate SomeTerm(s: System, leader: NodeId) {
    exists term :: Announced(s, leader, term)
  }

  lemma BeliefGainedByStep(n: Node, step: Step)
    requires After(n, step).currentLeader != NONE
    ensures After(n, step).currentLeader == n.currentLeader
            || (step.Deliver? && (step.frame.msg.Leader? || step.frame.msg.Heartbeat?)
                && step.frame.msg.leader == After(n, step).currentLeader)
  {
    hide Accepts, Dispatched;
    if step.Deliver? {
      BeliefGainedByMessage(Marked(n, step.frame), step.frame.msg, step.now);
    }
  }

  lemma BeliefGainedByMessage(n: Node, msg: Message, now: int)
    ensures var m := Dispatched(n, msg, now);
            m.currentLeader == n.currentLeader || ((msg.Leader? || msg.Heartbeat?) && msg.leader == m.currentLeader)
  {
  }

  lemma {:induction false} BelievedWasAnnounced(states: seq<System>, steps: seq<Step>, i: nat)
    requires IsRun(states, steps) && i < |states|
    ensures BeliefsAnnounced(states[i])
  {
    hide After, Announced, WellFormed;
    if i > 0 {
      BelievedWasAnnounced(states, steps, i - 1);
      ClaimsRepeatAnnouncements(states, steps, i - 1);
      assert Next(states[i - 1], steps[i - 1], states[i]);
      forall n | n in states[i].nodes && states[i].nodes[n].currentLeader != NONE
        ensures SomeTerm(states[i], states[i].nodes[n].currentLeader)
      {
        Kept(states, steps, i - 1, n);
        BeliefGainedByStep(states[i - 1].nodes[n], steps[i - 1]);
        var leader := states[i].nodes[n].currentLeader;
        var term :| Announced(states[i - 1], leader, term);
        AnnouncedGrows(states[i - 1], steps[i - 1], states[i], leader, term);
      }
    }
  }

  /** A zone or configuration update that a node applies comes from the sender it believes to
      be the leader, which was announced from outside; if the sender is a node, it held the
      leadership when it began the broadcast. */
  lemma UpdateHasAuthority(states: seq<System>, steps: seq<Step>, i: nat)
    requires IsRun(states, steps) && i < |steps| && steps[i].Deliver?
    requires var n := steps[i].to; n in states[i].nodes && Applies(states[i].nodes[n], steps[i].frame)
    ensures var f := steps[i].frame;
            && f.from == states[i].nodes[steps[i].to].currentLeader && SomeTerm(states[i], f.from)
            && (f.from in states[i].nodes ==>
                  exists k :: 0 <= k < i && steps[k] == Begin(f.from, f.msg)
                              && f.from in states[k].nodes && states[k].nodes[f.from].isLeader)
  {
    hide After, Init, SomeTerm;
    SameNodes(states, steps, i);
    UpdatesBegun(states, steps, i);
    BelievedWasAnnounced(states, steps, i);
    assert Next(states[i], steps[i], states[i + 1]);
    var f := steps[i].frame;
    if f.from in states[i].nodes {
      assert BegunBefore(states, steps, i, f.from, f.msg);
    }
  }
}
