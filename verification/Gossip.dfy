/** One node of the gossip protocol: the leadership fields, the replay guard and the wire.
    Identifiers are strings in the source; only their equality and the empty one matter, so
    they are numbers here with 0 for the empty string.  Terms and sequence numbers do not
    wrap around. */
module Gossip {

  import opened Durations
  import opened Wrappers

  type NodeId = nat
  const NONE: NodeId := 0
  const HEARTBEAT_TIMEOUT := 15 * SECOND

  type Payload = string

  /** `Other` stands for the message kinds, and the undecodable payloads, that touch none of
      the fields below.  An update whose payload does not decode carries none. */
  datatype Message =
    | Election(proposed: NodeId, term: nat)
    | Leader(leader: NodeId, term: nat)
    | Heartbeat(leader: NodeId, term: nat)
    | ZoneUpdate(payload: Option<Payload>)
    | ConfigSync(payload: Option<Payload>)
    | Other

  datatype Frame = Frame(from: NodeId, version: nat, sequence: nat, msg: Message)

  /** `onZone` and `onConfig` say whether the callbacks are registered. */
  datatype Node = Node(
    self: NodeId, version: nat, onZone: bool, onConfig: bool,
    currentLeader: NodeId, isLeader: bool, leaderTerm: nat, electionTerm: nat,
    electionRunning: bool, lastHeartbeat: int,
    sequences: map<NodeId, nat>, nextSequence: nat)

  /** A node as it is created. */
  function Fresh(self: NodeId, version: nat, onZone: bool, onConfig: bool, lastHeartbeat: int): Node {
    Node(self, version, onZone, onConfig, NONE, false, 0, 0, false, lastHeartbeat, map[], 1)
  }

  function Adopt(n: Node, leader: NodeId, term: nat, now: int): Node {
    n.(currentLeader := leader, leaderTerm := term, isLeader := leader == n.self, lastHeartbeat := now)
  }

  function OnLeader(n: Node, leader: NodeId, term: nat, now: int): Node {
    if term > n.leaderTerm || (term == n.leaderTerm && n.currentLeader in {NONE, leader})
    then Adopt(n, leader, term, now) else n
  }

  function OnHeartbeat(n: Node, leader: NodeId, term: nat, now: int): Node {
    if term > n.leaderTerm || (term == n.leaderTerm && n.currentLeader == NONE) then Adopt(n, leader, term, now)
    else if term == n.leaderTerm && leader == n.currentLeader then n.(lastHeartbeat := now)
    else n
  }

  function OnElection(n: Node, term: nat): Node {
    if term > n.electionTerm then n.(electionTerm := term) else n
  }

  /** decodeMessage accepts the frame. */
  predicate Accepts(n: Node, f: Frame) {
    f.version == 0 || (f.version == n.version && (f.from in n.sequences ==> f.sequence > n.sequences[f.from]))
  }

  function Marked(n: Node, f: Frame): Node {
    if f.version == 0 then n else n.(sequences := n.sequences[f.from := f.sequence])
  }

  function Dispatched(n: Node, msg: Message, now: int): Node {
    match msg
    case Election(_, term) => OnElection(n, term)
    case Leader(leader, term) => OnLeader(n, leader, term, now)
    case Heartbeat(leader, term) => OnHeartbeat(n, leader, term, now)
    case _ => n
  }

  /** handleMessage: a frame of one's own is recorded but not dispatched. */
  function OnFrame(n: Node, f: Frame, now: int): Node {
    if !Accepts(n, f) then n
    else if f.from == n.self then Marked(n, f)
    else Dispatched(Marked(n, f), f.msg, now)
  }

  /** The message has a registered callback and a payload for it. */
  predicate Delivers(n: Node, msg: Message) {
    match msg
    case ZoneUpdate(payload) => n.onZone && payload.Some?
    case ConfigSync(payload) => n.onConfig && payload.Some?
    case _ => false
  }

  /** The zone or configuration callback runs on this frame. */
  predicate Applies(n: Node, f: Frame) {
    && Accepts(n, f) && f.from != n.self && Delivers(n, f.msg)
    && !n.isLeader && n.currentLeader != NONE && f.from == n.currentLeader
  }

  datatype Local = DetectSplitBrain | StepDown | CheckHealth(now: int) | BeginElection | EndElection

  predicate SplitBrain(n: Node) {
    n.isLeader && n.electionTerm > n.leaderTerm
  }

  predicate LeaderTimedOut(n: Node, now: int) {
    && !n.isLeader && n.currentLeader != NONE
    && now >= n.lastHeartbeat + HEARTBEAT_TIMEOUT && !n.electionRunning
  }

  function OnLocal(n: Node, a: Local): Node {
    match a
    case DetectSplitBrain => if SplitBrain(n) then n.(isLeader := false, currentLeader := NONE) else n
    case StepDown =>
      if n.isLeader then n.(isLeader := false, currentLeader := NONE, leaderTerm := n.leaderTerm + 1) else n
    case CheckHealth(now) =>
      if LeaderTimedOut(n, now) then n.(electionRunning := true, leaderTerm := n.leaderTerm + 1) else n
    case BeginElection => n.(electionTerm := n.electionTerm + 1)
    case EndElection => n.(electionRunning := false)
  }

  /** The frame sendMessage writes next, and the node after it. */
  function NextFrame(n: Node, msg: Message): Frame {
    Frame(n.self, n.version, n.nextSequence + 1, msg)
  }

  function Sent(n: Node, count: nat): Node {
    n.(nextSequence := n.nextSequence + count)
  }

  /** The frames of one broadcast to `count` peers. */
  function Frames(n: Node, msg: Message, count: nat): (fs: seq<Frame>)
    ensures |fs| == count
    ensures forall i :: 0 <= i < count ==> fs[i] == NextFrame(Sent(n, i), msg)
  {
    seq(count, i requires 0 <= i < count => NextFrame(Sent(n, i), msg))
  }

  /** The fields of the source's GossipProtocol that these handlers use, with the socket as
      the sequence of frames written to it and the time as a parameter. */
  class GossipProtocol {
    const self: NodeId
    const version: nat
    const onZone: bool
    const onConfig: bool
    var currentLeader: NodeId
    var isLeader: bool
    var leaderTerm: nat
    var electionTerm: nat
    var electionRunning: bool
    var lastHeartbeat: int
    var sequences: map<NodeId, nat>
    var nextSequence: nat
    var wire: seq<Frame>

    constructor (self: NodeId, configured: nat, onZone: bool, onConfig: bool, lastHeartbeat: int)
      ensures State() == Fresh(self, if configured == 0 then 1 else configured, onZone, onConfig, lastHeartbeat)
      ensures wire == [] && nextSequence == 1 && sequences == map[] && currentLeader == NONE && !isLeader
      ensures leaderTerm == electionTerm == 0 && !electionRunning && version != 0
    {
      this.self, this.version := self, if configured == 0 then 1 else configured;
      this.onZone, this.onConfig := onZone, onConfig;
      currentLeader, isLeader, leaderTerm, electionTerm := NONE, false, 0, 0;
      electionRunning, this.lastHeartbeat, sequences, nextSequence, wire := false, lastHeartbeat, map[], 1, [];
    }

    function State(): Node
      reads this
    {
      Node(self, version, onZone, onConfig, currentLeader, isLeader, leaderTerm, electionTerm, electionRunning, lastHeartbeat,
           sequences, nextSequence)
    }

    method HandleElection(term: nat)
      modifies this`electionTerm
      ensures State() == OnElection(old(State()), term)
    {
      if term > electionTerm {
        electionTerm := term;
      }
    }

    method HandleLeader(leader: NodeId, term: nat, now: int)
      modifies this`currentLeader, this`isLeader, this`leaderTerm, this`lastHeartbeat
      ensures State() == OnLeader(old(State()), leader, term, now)
    {
      if term < leaderTerm {
        return;
      }
      var adopt := false;
      if term > leaderTerm {
        adopt := true;
      } else if currentLeader == NONE {
        adopt := true;
      } else if leader == currentLeader {
        adopt := true;
      }
      if !adopt {
        return;
      }
      currentLeader := leader;
      leaderTerm := term;
      isLeader := leader == self;
      lastHeartbeat := now;
    }

    method HandleHeartbeat(leader: NodeId, term: nat, now: int)
      modifies this`currentLeader, this`isLeader, this`leaderTerm, this`lastHeartbeat
      ensures State() == OnHeartbeat(old(State()), leader, term, now)
    {
      if term < leaderTerm {
        return;
      }
      var adopt := false;
      if term > leaderTerm {
        adopt := true;
      } else if currentLeader == NONE {
        adopt := true;
      }
      if adopt {
        currentLeader := leader;
        leaderTerm := term;
        isLeader := leader == self;
        lastHeartbeat := now;
        return;
      }
      if leader == currentLeader {
        lastHeartbeat := now;
      }
    }

    /** handleZoneUpdate and handleConfigSync: whether the callback runs. */
    method HandleUpdate(from: NodeId, registered: bool, payload: Option<Payload>) returns (called: bool)
      ensures called <==> !isLeader && currentLeader != NONE && from == currentLeader && registered && payload.Some?
    {
      if isLeader {
        return false;
      }
      if currentLeader == NONE {
        return false;
      }
      if from != currentLeader {
        return false;
      }
      called := false;
      if registered {
        if payload.None? {
          return;
        }
        called := true;
      }
    }

    /** decodeMessage, for a frame that decrypts and unmarshals. */
    method DecodeMessage(f: Frame) returns (ok: bool)
      modifies this`sequences
      ensures ok == Accepts(old(State()), f)
      ensures State() == if ok then Marked(old(State()), f) else old(State())
    {
      if f.version != 0 && f.version != version {
        return false;
      }
      if f.version != 0 {
        if f.from in sequences && f.sequence <= sequences[f.from] {
          return false;
        }
        sequences := sequences[f.from := f.sequence];
      }
      ok := true;
    }

    method HandleMessage(f: Frame, now: int) returns (called: bool)
      modifies this
      ensures State() == OnFrame(old(State()), f, now) && wire == old(wire)
      ensures called == Applies(old(State()), f)
    {
      called := false;
      var ok := DecodeMessage(f);
      if !ok {
        return;
      }
      if f.from == self {
        return;
      }
      match f.msg
      case Election(_, term) => HandleElection(term);
      case Leader(leader, term) => HandleLeader(leader, term, now);
      case Heartbeat(leader, term) => HandleHeartbeat(leader, term, now);
      case ZoneUpdate(payload) => called := HandleUpdate(f.from, onZone, payload);
      case ConfigSync(payload) => called := HandleUpdate(f.from, onConfig, payload);
      case Other =>
    }

    method DetectSplitBrain() returns (stepped: bool)
      modifies this`isLeader, this`currentLeader
      ensures State() == OnLocal(old(State()), Local.DetectSplitBrain)
      ensures stepped == SplitBrain(old(State()))
    {
      if !isLeader {
        return false;
      }
      if electionTerm > leaderTerm {
        isLeader := false;
        currentLeader := NONE;
        return true;
      }
      stepped := false;
    }

    method StepDown()
      modifies this`isLeader, this`currentLeader, this`leaderTerm
      ensures State() == OnLocal(old(State()), Local.StepDown)
    {
      if isLeader {
        isLeader := false;
        currentLeader := NONE;
        leaderTerm := leaderTerm + 1;
      }
    }

    /** checkLeaderHealth: whether an election is launched. */
    method CheckLeaderHealth(now: int) returns (launched: bool)
      modifies this`electionRunning, this`leaderTerm
      ensures State() == OnLocal(old(State()), CheckHealth(now))
      ensures launched == LeaderTimedOut(old(State()), now)
    {
      launched := false;
      if isLeader || currentLeader == NONE {
        return;
      }
      if now >= lastHeartbeat + HEARTBEAT_TIMEOUT {
        if electionRunning {
          return;
        }
        electionRunning := true;
        leaderTerm := leaderTerm + 1;
        launched := true;
      }
    }

    method SendMessage(msg: Message)
      modifies this`nextSequence, this`wire
      ensures State() == Sent(old(State()), 1) && nextSequence == old(nextSequence) + 1
      ensures wire == old(wire) + [Frame(self, version, old(nextSequence) + 1, msg)]
    {
      nextSequence := nextSequence + 1;
      wire := wire + [Frame(self, version, nextSequence, msg)];
    }

    /** The loop over the alive peers that every broadcast ends with. */
    method Broadcast(msg: Message, peers: nat)
      modifies this`nextSequence, this`wire
      ensures State() == Sent(old(State()), peers) && wire == old(wire) + Frames(old(State()), msg, peers)
    {
      for i := 0 to peers
        invariant State() == Sent(old(State()), i) && wire == old(wire) + Frames(old(State()), msg, i)
      {
        SendMessage(msg);
        assert Frames(old(State()), msg, i + 1) == Frames(old(State()), msg, i) + [NextFrame(Sent(old(State()), i), msg)];
      }
    }

    method SendHeartbeat(peers: nat)
      modifies this`nextSequence, this`wire
      ensures !isLeader ==> State() == old(State()) && wire == old(wire)
      ensures isLeader ==> State() == Sent(old(State()), peers)
                           && wire == old(wire) + Frames(old(State()), Heartbeat(self, leaderTerm), peers)
    {
      if !isLeader {
        return;
      }
      Broadcast(Heartbeat(self, leaderTerm), peers);
    }

    method AnnounceLeader(peers: nat) returns (ok: bool)
      modifies this`nextSequence, this`wire
      ensures ok == isLeader
      ensures !ok ==> State() == old(State()) && wire == old(wire)
      ensures ok ==> State() == Sent(old(State()), peers)
                     && wire == old(wire) + Frames(old(State()), Leader(self, leaderTerm), peers)
    {
      if !isLeader {
        return false;
      }
      Broadcast(Leader(self, leaderTerm), peers);
      ok := true;
    }

    /** BroadcastZoneUpdate and BroadcastConfigUpdate. */
    method BroadcastUpdate(msg: Message, peers: nat) returns (ok: bool)
      requires msg.ZoneUpdate? || msg.ConfigSync?
      modifies this`nextSequence, this`wire
      ensures ok == isLeader
      ensures !ok ==> State() == old(State()) && wire == old(wire)
      ensures ok ==> State() == Sent(old(State()), peers) && wire == old(wire) + Frames(old(State()), msg, peers)
    {
      if !isLeader {
        return false;
      }
      Broadcast(msg, peers);
      ok := true;
    }

    method StartElection(peers: nat)
      modifies this`electionTerm, this`electionRunning, this`nextSequence, this`wire
      ensures State() == OnLocal(Sent(OnLocal(old(State()), BeginElection), peers), EndElection)
      ensures wire == old(wire) + Frames(old(State()), Election(self, electionTerm), peers)
    {
      electionTerm := electionTerm + 1;
      Broadcast(Election(self, electionTerm), peers);
      electionRunning := false;
    }
  }

  // --- What every step of a node keeps

  /** The invariant of a node: it holds leadership exactly when it names itself. */
  predicate WellFormed(n: Node) {
    n.self != NONE && n.version != 0 && (n.isLeader <==> n.currentLeader == n.self)
  }

  /** On a well-formed node an announcement and a heartbeat do the same. */
  lemma LeaderIsHeartbeat(n: Node, leader: NodeId, term: nat, now: int)
    requires WellFormed(n)
    ensures OnLeader(n, leader, term, now) == OnHeartbeat(n, leader, term, now)
  {
  }
}
