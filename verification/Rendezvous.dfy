/** The rendezvous client of the swap maker: two statuses for each node, and a queue of peers to dial. */
module Rendezvous {
  import opened Options

  type PeerId = nat

  datatype ConnectionStatus = Disconnected | Dialling | Connected

  datatype RegistrationStatus = RegisterOnNextConnection | Pending | Registered

  datatype Node = Node(peerId: PeerId, connection: ConnectionStatus, registration: RegistrationStatus)

  /** What the client did and saw: calls of register, with the connection status at the call, and Registered events. */
  datatype Observation = RegisterCalled(node: nat, connection: ConnectionStatus) | RegisteredSeen(peer: PeerId)

  datatype State = State(nodes: seq<Node>, toDial: seq<PeerId>, localPeer: PeerId, history: seq<Observation>)

  /** What the inner client reports when it is polled. */
  datatype InnerPoll = NothingReported | RegisteredReported(peer: PeerId) | OtherReported

  datatype Event =
    | InjectConnected(peer: PeerId)
    | InjectDisconnected(peer: PeerId)
    | InjectDialFailure(failed: Option<PeerId>)
    | Poll(expired: set<nat>, inner: InnerPoll)

  datatype Action = NoAction | Dial(peer: PeerId) | Reported(inner: InnerPoll)

  function Initial(peers: seq<PeerId>, localPeer: PeerId): State {
    State(seq(|peers|, i requires 0 <= i < |peers| => Node(peers[i], Disconnected, RegisterOnNextConnection)), [],
        localPeer, [])
  }

  // The changes of one node.

  function SetConnection(s: State, i: nat, status: ConnectionStatus): State
    requires i < |s.nodes|
  {
    s.(nodes := s.nodes[i := s.nodes[i].(connection := status)])
  }

  function SetRegistration(s: State, i: nat, status: RegistrationStatus): State
    requires i < |s.nodes|
  {
    s.(nodes := s.nodes[i := s.nodes[i].(registration := status)])
  }

  /** A call of register, which leaves the node pending. */
  function RegisterNode(s: State, i: nat): State
    requires i < |s.nodes|
  {
    SetRegistration(s, i, Pending).(history := s.history + [RegisterCalled(i, s.nodes[i].connection)])
  }

  function ConnectNode(s: State, peer: PeerId, i: nat): State
    requires i < |s.nodes|
  {
    if s.nodes[i].peerId != peer then s
    else
      var s' := SetConnection(s, i, Connected);
      if s'.nodes[i].registration == RegisterOnNextConnection then RegisterNode(s', i) else s'
  }

  function DisconnectNode(s: State, peer: PeerId, i: nat): State
    requires i < |s.nodes|
  {
    if s.nodes[i].peerId == peer then SetConnection(s, i, Disconnected) else s
  }

  function PollNode(s: State, expired: set<nat>, i: nat): State
    requires i < |s.nodes|
  {
    var node := s.nodes[i];
    match node.registration
    case RegisterOnNextConnection =>
      (match node.connection
       case Disconnected => SetConnection(s, i, Dialling).(toDial := s.toDial + [node.peerId])
       case Dialling => s
       case Connected => RegisterNode(s, i))
    case Registered =>
      if i !in expired then s
      else (match node.connection
            case Connected => RegisterNode(s, i)
            case Disconnected => SetRegistration(s, i, RegisterOnNextConnection).(toDial := s.toDial + [node.peerId])
            case Dialling => s)
    case Pending => s
  }

  // The steps.

  function ConnectNodes(s: State, peer: PeerId, n: nat): (r: State)
    requires n <= |s.nodes|
    ensures |r.nodes| == |s.nodes|
  {
    if n == 0 then s else ConnectNode(ConnectNodes(s, peer, n - 1), peer, n - 1)
  }

  function DisconnectNodes(s: State, peer: PeerId, n: nat): (r: State)
    requires n <= |s.nodes|
    ensures |r.nodes| == |s.nodes|
  {
    if n == 0 then s else DisconnectNode(DisconnectNodes(s, peer, n - 1), peer, n - 1)
  }

  function PollNodes(s: State, expired: set<nat>, n: nat): (r: State)
    requires n <= |s.nodes|
    ensures |r.nodes| == |s.nodes|
  {
    if n == 0 then s else PollNode(PollNodes(s, expired, n - 1), expired, n - 1)
  }

  /** The first node with a peer, or the number of nodes. */
  function Position(nodes: seq<Node>, peer: PeerId): (i: nat)
    ensures i <= |nodes| && (i < |nodes| ==> nodes[i].peerId == peer)
    ensures forall j :: 0 <= j < i ==> nodes[j].peerId != peer
  {
    if nodes == [] then 0 else if nodes[0].peerId == peer then 0 else 1 + Position(nodes[1..], peer)
  }

  /** A Registered event arms the timer of the first node with that peer. */
  function SeeRegistered(s: State, peer: PeerId): State {
    var s' := s.(history := s.history + [RegisteredSeen(peer)]);
    var i := Position(s.nodes, peer);
    if i < |s.nodes| then SetRegistration(s', i, Registered) else s'
  }

  /** The state after one callback. */
  function Callback(s: State, e: Event): State {
    match e
    case InjectConnected(peer) => ConnectNodes(s, peer, |s.nodes|)
    case InjectDisconnected(peer) => DisconnectNodes(s, peer, |s.nodes|)
    case InjectDialFailure(peer) => if peer.Some? then DisconnectNodes(s, peer.value, |s.nodes|) else s
    case Poll(expired, inner) =>
      if s.toDial != [] then s.(toDial := s.toDial[1..])
      else
        var s' := PollNodes(s, expired, |s.nodes|);
        if inner.RegisteredReported? then SeeRegistered(s', inner.peer) else s'
  }

  /** A step is one callback; the counter has no effect, and keeps proofs about runs from unfolding the callbacks. */
  function StepAt(s: State, e: Event, k: nat): State
    decreases s, e, k
  {
    if k > 0 then StepAt(s, e, k - 1) else Callback(s, e)
  }

  function Step(s: State, e: Event): State {
    StepAt(s, e, 3)
  }

  lemma StepIs(s: State, e: Event)
    ensures Step(s, e) == Callback(s, e)
  {
    assert StepAt(s, e, 1) == StepAt(s, e, 0);
    assert StepAt(s, e, 2) == StepAt(s, e, 1);
  }

  function PollAction(s: State, inner: InnerPoll): Action {
    if s.toDial == [] then Reported(inner)
    else if s.toDial[0] == s.localPeer then NoAction
    else Dial(s.toDial[0])
  }

  function Run(s: State, events: seq<Event>, n: nat): State
    requires n <= |events|
  {
    if n == 0 then s else Step(Run(s, events, n - 1), events[n - 1])
  }

  // Safety of whole runs.

  /** The node has called register and has seen no Registered event for its peer since. */
  function IsWaiting(nodes: seq<Node>, history: seq<Observation>, i: nat): bool
    requires i < |nodes|
  {
    if history == [] then false
    else
      match history[|history| - 1]
      case RegisterCalled(node, _) => node == i || IsWaiting(nodes, history[..|history| - 1], i)
      case RegisteredSeen(peer) => Position(nodes, peer) != i && IsWaiting(nodes, history[..|history| - 1], i)
  }

  /** At each call of register, the node was connected and was not waiting for an earlier call. */
  predicate CallsAreInOrder(nodes: seq<Node>, history: seq<Observation>) {
    forall k :: 0 <= k < |history| && history[k].RegisterCalled? ==>
      history[k].node < |nodes| && history[k].connection == Connected
          && !IsWaiting(nodes, history[..k], history[k].node)
  }

  /** A node is pending exactly while it waits. */
  predicate StatusesMatch(s: State) {
    forall i :: 0 <= i < |s.nodes| ==> (s.nodes[i].registration == Pending <==> IsWaiting(s.nodes, s.history, i))
  }

  predicate SamePeers(nodes: seq<Node>, nodes': seq<Node>) {
    |nodes| == |nodes'| && forall i :: 0 <= i < |nodes| ==> nodes[i].peerId == nodes'[i].peerId
  }

  lemma {:induction false} SamePosition(nodes: seq<Node>, nodes': seq<Node>, peer: PeerId)
    requires SamePeers(nodes, nodes')
    ensures Position(nodes, peer) == Position(nodes', peer)
  {
    if nodes != [] {
      SamePosition(nodes[1..], nodes'[1..], peer);
    }
  }

  lemma {:induction false} SameWaiting(nodes: seq<Node>, nodes': seq<Node>, history: seq<Observation>, i: nat)
    requires SamePeers(nodes, nodes') && i < |nodes|
    ensures IsWaiting(nodes, history, i) == IsWaiting(nodes', history, i)
  {
    if history != [] {
      SameWaiting(nodes, nodes', history[..|history| - 1], i);
      match history[|history| - 1]
      case RegisterCalled(_, _) =>
      case RegisteredSeen(peer) => SamePosition(nodes, nodes', peer);
    }
  }

  /** The counter has no effect; it keeps proofs about runs from unfolding the predicate. */
  predicate IsSafeAt(s: State, k: nat)
    decreases s, k
  {
    if k > 0 then IsSafeAt(s, k - 1) else CallsAreInOrder(s.nodes, s.history) && StatusesMatch(s)
  }

  predicate IsSafe(s: State) {
    IsSafeAt(s, 3)
  }

  lemma SafetyIs(s: State)
    ensures IsSafe(s) <==> CallsAreInOrder(s.nodes, s.history) && StatusesMatch(s)
  {
    assert IsSafeAt(s, 1) == IsSafeAt(s, 0);
    assert IsSafeAt(s, 2) == IsSafeAt(s, 1);
  }

  lemma SafeHistory(s: State, s': State)
    requires CallsAreInOrder(s.nodes, s.history) && SamePeers(s.nodes, s'.nodes) && s.history <= s'.history
    requires forall k :: |s.history| <= k < |s'.history| && s'.history[k].RegisterCalled? ==>
               && s'.history[k].node < |s.nodes| && s'.history[k].connection == Connected
               && !IsWaiting(s'.nodes, s'.history[..k], s'.history[k].node)
    ensures CallsAreInOrder(s'.nodes, s'.history)
  {
    forall k | 0 <= k < |s'.history| && s'.history[k].RegisterCalled?
      ensures s'.history[k].node < |s'.nodes| && s'.history[k].connection == Connected
              && !IsWaiting(s'.nodes, s'.history[..k], s'.history[k].node)
    {
      if k < |s.history| {
        assert s'.history[..k] == s.history[..k];
        SameWaiting(s.nodes, s'.nodes, s.history[..k], s.history[k].node);
      }
    }
  }

  /** A change of one node that keeps its peer, with no new observation. */
  lemma QuietChange(s: State, s': State, i: nat)
    requires IsSafe(s) && i < |s.nodes| && s'.history == s.history
    requires |s'.nodes| == |s.nodes| && s'.nodes == s.nodes[i := s'.nodes[i]] && s'.nodes[i].peerId == s.nodes[i].peerId
    requires (s'.nodes[i].registration == Pending) == (s.nodes[i].registration == Pending)
    ensures IsSafe(s') && SamePeers(s.nodes, s'.nodes)
  {
    SafetyIs(s);
    SafetyIs(s');
    SafeHistory(s, s');
    forall j | 0 <= j < |s'.nodes|
      ensures s'.nodes[j].registration == Pending <==> IsWaiting(s'.nodes, s'.history, j)
    {
      SameWaiting(s.nodes, s'.nodes, s.history, j);
    }
  }

  lemma RegisterIsSafe(s: State, i: nat)
    requires IsSafe(s) && i < |s.nodes| && s.nodes[i].connection == Connected && s.nodes[i].registration != Pending
    ensures IsSafe(RegisterNode(s, i)) && SamePeers(s.nodes, RegisterNode(s, i).nodes)
  {
    var s' := RegisterNode(s, i);
    var last := RegisterCalled(i, Connected);
    SafetyIs(s);
    SafetyIs(s');
    assert s'.history[..|s.history|] == s.history;
    SameWaiting(s.nodes, s'.nodes, s.history, i);
    SafeHistory(s, s');
    forall j | 0 <= j < |s'.nodes|
      ensures s'.nodes[j].registration == Pending <==> IsWaiting(s'.nodes, s'.history, j)
    {
      SameWaiting(s.nodes, s'.nodes, s.history, j);
    }
  }

  lemma SeeRegisteredIsSafe(s: State, peer: PeerId)
    requires IsSafe(s)
    ensures IsSafe(SeeRegistered(s, peer)) && SamePeers(s.nodes, SeeRegistered(s, peer).nodes)
  {
    var s' := SeeRegistered(s, peer);
    SafetyIs(s);
    SafetyIs(s');
    assert s'.history[..|s.history|] == s.history;
    SafeHistory(s, s');
    SamePosition(s.nodes, s'.nodes, peer);
    forall j | 0 <= j < |s'.nodes|
      ensures s'.nodes[j].registration == Pending <==> IsWaiting(s'.nodes, s'.history, j)
    {
      SameWaiting(s.nodes, s'.nodes, s.history, j);
    }
  }

  lemma SamePeersChain(a: seq<Node>, b: seq<Node>, c: seq<Node>)
    requires SamePeers(a, b) && SamePeers(b, c)
    ensures SamePeers(a, c)
  {}

  lemma ConnectNodeIsSafe(s: State, peer: PeerId, i: nat)
    requires IsSafe(s) && i < |s.nodes|
    ensures IsSafe(ConnectNode(s, peer, i)) && SamePeers(s.nodes, ConnectNode(s, peer, i).nodes)
  {
    if s.nodes[i].peerId == peer {
      var s' := SetConnection(s, i, Connected);
      QuietChange(s, s', i);
      if s'.nodes[i].registration == RegisterOnNextConnection {
        RegisterIsSafe(s', i);
      }
    }
  }

  lemma PollNodeIsSafe(s: State, expired: set<nat>, i: nat)
    requires IsSafe(s) && i < |s.nodes|
    ensures IsSafe(PollNode(s, expired, i)) && SamePeers(s.nodes, PollNode(s, expired, i).nodes)
  {
    if s.nodes[i].registration != Pending && s.nodes[i].connection == Connected {
      RegisterIsSafe(s, i);
    } else {
      QuietChange(s, PollNode(s, expired, i), i);
    }
  }

  lemma {:induction false} ConnectNodesIsSafe(s: State, peer: PeerId, n: nat)
    requires IsSafe(s) && n <= |s.nodes|
    ensures IsSafe(ConnectNodes(s, peer, n)) && SamePeers(s.nodes, ConnectNodes(s, peer, n).nodes)
  {
    if n > 0 {
      var t := ConnectNodes(s, peer, n - 1);
      ConnectNodesIsSafe(s, peer, n - 1);
      ConnectNodeIsSafe(t, peer, n - 1);
      SamePeersChain(s.nodes, t.nodes, ConnectNode(t, peer, n - 1).nodes);
    }
  }

  lemma {:induction false} DisconnectNodesIsSafe(s: State, peer: PeerId, n: nat)
    requires IsSafe(s) && n <= |s.nodes|
    ensures IsSafe(DisconnectNodes(s, peer, n)) && SamePeers(s.nodes, DisconnectNodes(s, peer, n).nodes)
  {
    if n > 0 {
      var t := DisconnectNodes(s, peer, n - 1);
      DisconnectNodesIsSafe(s, peer, n - 1);
      QuietChange(t, DisconnectNode(t, peer, n - 1), n - 1);
    }
  }

  lemma {:induction false} PollNodesIsSafe(s: State, expired: set<nat>, n: nat)
    requires IsSafe(s) && n <= |s.nodes|
    ensures IsSafe(PollNodes(s, expired, n)) && SamePeers(s.nodes, PollNodes(s, expired, n).nodes)
  {
    if n > 0 {
      var t := PollNodes(s, expired, n - 1);
      PollNodesIsSafe(s, expired, n - 1);
      PollNodeIsSafe(t, expired, n - 1);
      SamePeersChain(s.nodes, t.nodes, PollNode(t, expired, n - 1).nodes);
    }
  }

  lemma StepIsSafe(s: State, e: Event)
    requires IsSafe(s)
    ensures IsSafe(Step(s, e)) && SamePeers(s.nodes, Step(s, e).nodes) && Step(s, e) == Callback(s, e)
  {
    StepIs(s, e);
    match e
    case InjectConnected(peer) => ConnectNodesIsSafe(s, peer, |s.nodes|);
    case InjectDisconnected(peer) => DisconnectNodesIsSafe(s, peer, |s.nodes|);
    case InjectDialFailure(peer) =>
      if peer.Some? {
        DisconnectNodesIsSafe(s, peer.value, |s.nodes|);
      }
    case Poll(expired, inner) =>
      if s.toDial == [] {
        PollNodesIsSafe(s, expired, |s.nodes|);
        if inner.RegisteredReported? {
          SeeRegisteredIsSafe(PollNodes(s, expired, |s.nodes|), inner.peer);
        }
      } else {
        SafetyIs(s);
        SafetyIs(Step(s, e));
      }
  }

  /**
    In every run, each call of register is made for a connected node that is not waiting, and a node is
    pending exactly while it waits.
  */
  lemma {:induction false} RunIsSafe(peers: seq<PeerId>, localPeer: PeerId, events: seq<Event>, n: nat)
    requires n <= |events|
    ensures IsSafe(Run(Initial(peers, localPeer), events, n))
    ensures SamePeers(Initial(peers, localPeer).nodes, Run(Initial(peers, localPeer), events, n).nodes)
  {
    if n > 0 {
      RunIsSafe(peers, localPeer, events, n - 1);
      StepIsSafe(Run(Initial(peers, localPeer), events, n - 1), events[n - 1]);
    } else {
      var s := Initial(peers, localPeer);
      SafetyIs(s);
      assert StatusesMatch(s);
    }
  }

  lemma {:induction false} LastRegistered(nodes: seq<Node>, history: seq<Observation>, j: nat, k: nat) returns (m: nat)
    requires j < k <= |history| && history[j].RegisterCalled? && history[j].node < |nodes|
    requires !IsWaiting(nodes, history[..k], history[j].node)
    ensures j < m < k && history[m].RegisteredSeen? && nodes[history[j].node].peerId == history[m].peer
    decreases k
  {
    var prefix := history[..k];
    assert prefix[..k - 1] == history[..k - 1];
    if history[k - 1].RegisteredSeen? && Position(nodes, history[k - 1].peer) == history[j].node {
      m := k - 1;
    } else {
      m := LastRegistered(nodes, history, j, k - 1);
    }
  }

  /** Between two calls for one node there is a Registered event of its peer. */
  lemma RegisteredBetweenCalls(peers: seq<PeerId>, localPeer: PeerId, events: seq<Event>, n: nat, j: nat, k: nat)
    returns (m: nat)
    requires n <= |events|
    requires var h := Run(Initial(peers, localPeer), events, n).history;
             j < k < |h| && h[j].RegisterCalled? && h[k].RegisterCalled? && h[j].node == h[k].node
    ensures var s := Run(Initial(peers, localPeer), events, n);
            && j < m < k && s.history[m].RegisteredSeen? && s.history[j].node < |s.nodes|
            && s.nodes[s.history[j].node].peerId == s.history[m].peer
  {
    var s := Run(Initial(peers, localPeer), events, n);
    RunIsSafe(peers, localPeer, events, n);
    SafetyIs(s);
    m := LastRegistered(s.nodes, s.history, j, k);
  }

  /**
    After a poll that reaches the nodes, a node that still has to register is not connected, and its peer is
    in the queue or being dialled.
  */
  lemma {:induction false} PolledNodes(s: State, expired: set<nat>, n: nat)
    requires n <= |s.nodes|
    ensures var r := PollNodes(s, expired, n);
            && s.toDial <= r.toDial && r.nodes[n..] == s.nodes[n..]
            && forall i :: 0 <= i < n && r.nodes[i].registration == RegisterOnNextConnection ==>
                 r.nodes[i].connection == Dialling
                     || (r.nodes[i].connection == Disconnected && r.nodes[i].peerId in r.toDial)
  {
    if n > 0 {
      var t := PollNodes(s, expired, n - 1);
      PolledNodes(s, expired, n - 1);
      var r := PollNode(t, expired, n - 1);
      assert t.nodes[n - 1] == t.nodes[n - 1..][0] == s.nodes[n - 1];
      assert r.nodes[n..] == t.nodes[n - 1..][1..] == s.nodes[n..];
      forall i | 0 <= i < n && r.nodes[i].registration == RegisterOnNextConnection
        ensures r.nodes[i].connection == Dialling
                || (r.nodes[i].connection == Disconnected && r.nodes[i].peerId in r.toDial)
      {
        if i < n - 1 {
          assert t.toDial <= r.toDial && r.nodes[i] == t.nodes[i];
        } else if r.nodes[i].connection == Disconnected {
          assert r.toDial[|r.toDial| - 1] == r.nodes[i].peerId;
        }
      }
    }
  }
}
