/** When a rendezvous node registers, and when it registers again. */
module RendezvousProgress {
  import opened Rendezvous

  // One step of one node.

  /** The step calls register for the node. */
  predicate Registers(s: State, e: Event, i: nat)
    requires i < |s.nodes|
  {
    var node := s.nodes[i];
    match e
    case InjectConnected(peer) => node.peerId == peer && node.registration == RegisterOnNextConnection
    case Poll(expired, _) =>
      && s.toDial == [] && node.connection == Connected
      && (node.registration == RegisterOnNextConnection || (node.registration == Registered && i in expired))
    case _ => false
  }

  /** The step reports a registration with the peer of the node, and the node is the first with that peer. */
  predicate Arms(s: State, e: Event, i: nat) {
    e.Poll? && s.toDial == [] && e.inner.RegisteredReported? && Position(s.nodes, e.inner.peer) == i
  }

  /** The node after the check of its status in a poll. */
  function CheckedNode(node: Node, expired: bool): Node {
    match node.registration
    case RegisterOnNextConnection =>
      (match node.connection
       case Disconnected => node.(connection := Dialling)
       case Dialling => node
       case Connected => node.(registration := Pending))
    case Registered =>
      if !expired || node.connection == Dialling then node
      else if node.connection == Connected then node.(registration := Pending)
      else node.(registration := RegisterOnNextConnection)
    case Pending => node
  }

  /** The node after a step. */
  function NextNode(s: State, e: Event, i: nat): Node
    requires i < |s.nodes|
  {
    var node := s.nodes[i];
    match e
    case InjectConnected(peer) =>
      if node.peerId != peer then node
      else Node(peer, Connected, if node.registration == RegisterOnNextConnection then Pending else node.registration)
    case InjectDisconnected(peer) => if node.peerId == peer then node.(connection := Disconnected) else node
    case InjectDialFailure(peer) =>
      if peer.Some? && node.peerId == peer.value then node.(connection := Disconnected) else node
    case Poll(expired, _) =>
      if s.toDial != [] then node
      else
        var checked := CheckedNode(node, i in expired);
        if Arms(s, e, i) then checked.(registration := Registered) else checked
  }

  /** How often register was called for the node. */
  function Calls(history: seq<Observation>, i: nat): nat {
    if history == [] then 0
    else
      var last := history[|history| - 1];
      Calls(history[..|history| - 1], i) + if last.RegisterCalled? && last.node == i then 1 else 0
  }

  lemma CallsAppend(history: seq<Observation>, o: Observation, i: nat)
    ensures Calls(history + [o], i) == Calls(history, i) + if o.RegisterCalled? && o.node == i then 1 else 0
  {
    assert (history + [o])[..|history|] == history;
  }

  /** What a loop over the first n nodes has done to node i, for a body that changes one node and may register it. */
  predicate LoopEffect(s: State, r: State, i: nat, n: nat, next: Node, registers: bool) {
    && i < |s.nodes| == |r.nodes|
    && r.nodes[i] == (if i < n then next else s.nodes[i])
    && Calls(r.history, i) == Calls(s.history, i) + if i < n && registers then 1 else 0
  }

  lemma ConnectNodeEffect(s: State, peer: PeerId, j: nat, i: nat)
    requires j < |s.nodes| && i < |s.nodes|
    ensures var r, e := ConnectNode(s, peer, j), InjectConnected(peer);
            && |r.nodes| == |s.nodes| && r.nodes[i] == (if i == j then NextNode(s, e, i) else s.nodes[i])
            && Calls(r.history, i) == Calls(s.history, i) + if i == j && Registers(s, e, i) then 1 else 0
  {
    CallsAppend(s.history, RegisterCalled(j, Connected), i);
  }

  lemma {:induction false} ConnectNodesEffect(s: State, peer: PeerId, n: nat, i: nat)
    requires n <= |s.nodes| && i < |s.nodes|
    ensures var e := InjectConnected(peer);
            LoopEffect(s, ConnectNodes(s, peer, n), i, n, NextNode(s, e, i), Registers(s, e, i))
  {
    if n > 0 {
      ConnectNodesEffect(s, peer, n - 1, i);
      ConnectNodeEffect(ConnectNodes(s, peer, n - 1), peer, n - 1, i);
    }
  }

  lemma {:induction false} DisconnectNodesEffect(s: State, peer: PeerId, n: nat, i: nat)
    requires n <= |s.nodes| && i < |s.nodes|
    ensures LoopEffect(s, DisconnectNodes(s, peer, n), i, n, NextNode(s, InjectDisconnected(peer), i), false)
  {
    if n > 0 {
      DisconnectNodesEffect(s, peer, n - 1, i);
    }
  }

  /** The check of a node calls register for it. */
  predicate CheckRegisters(node: Node, expired: bool) {
    && node.connection == Connected
    && (node.registration == RegisterOnNextConnection || (node.registration == Registered && expired))
  }

  lemma PollNodeEffect(s: State, expired: set<nat>, j: nat, i: nat)
    requires j < |s.nodes| && i < |s.nodes|
    ensures var r, x := PollNode(s, expired, j), i in expired;
            && |r.nodes| == |s.nodes| && r.nodes[i] == (if i == j then CheckedNode(s.nodes[i], x) else s.nodes[i])
            && Calls(r.history, i) == Calls(s.history, i) + if i == j && CheckRegisters(s.nodes[i], x) then 1 else 0
  {
    CallsAppend(s.history, RegisterCalled(j, s.nodes[j].connection), i);
  }

  /** What the polls of the first n nodes have done to node i. */
  predicate PollEffect(s: State, r: State, expired: set<nat>, i: nat, n: nat)
    requires i < |s.nodes|
  {
    LoopEffect(s, r, i, n, CheckedNode(s.nodes[i], i in expired), CheckRegisters(s.nodes[i], i in expired))
  }

  lemma NextPollEffect(s: State, t: State, expired: set<nat>, i: nat, n: nat)
    requires i < |s.nodes| && 0 < n <= |s.nodes| && PollEffect(s, t, expired, i, n - 1)
    ensures PollEffect(s, PollNode(t, expired, n - 1), expired, i, n)
  {
    PollNodeEffect(t, expired, n - 1, i);
  }

  lemma {:induction false} PollNodesEffect(s: State, expired: set<nat>, n: nat, i: nat)
    requires n <= |s.nodes| && i < |s.nodes|
    ensures PollEffect(s, PollNodes(s, expired, n), expired, i, n)
  {
    if n > 0 {
      PollNodesEffect(s, expired, n - 1, i);
      NextPollEffect(s, PollNodes(s, expired, n - 1), expired, i, n);
    }
  }

  lemma PollKeepsPeers(s: State, expired: set<nat>, n: nat)
    requires n <= |s.nodes|
    ensures SamePeers(s.nodes, PollNodes(s, expired, n).nodes)
  {
    forall j | 0 <= j < |s.nodes|
      ensures s.nodes[j].peerId == PollNodes(s, expired, n).nodes[j].peerId
    {
      PollNodesEffect(s, expired, n, j);
    }
  }

  lemma PollStepOfNode(s: State, expired: set<nat>, inner: InnerPoll, i: nat)
    requires i < |s.nodes| && s.toDial == []
    ensures var r, e := Step(s, Poll(expired, inner)), Poll(expired, inner);
            && |r.nodes| == |s.nodes| && r.nodes[i] == NextNode(s, e, i)
            && Calls(r.history, i) == Calls(s.history, i) + if Registers(s, e, i) then 1 else 0
  {
    var t := PollNodes(s, expired, |s.nodes|);
    StepIs(s, Poll(expired, inner));
    PollNodesEffect(s, expired, |s.nodes|, i);
    if inner.RegisteredReported? {
      PollKeepsPeers(s, expired, |s.nodes|);
      SamePosition(s.nodes, t.nodes, inner.peer);
      CallsAppend(t.history, RegisteredSeen(inner.peer), i);
    }
  }

  /** A step treats each node by itself, and calls register for it exactly under the stated condition. */
  lemma StepOfNode(s: State, e: Event, i: nat)
    requires i < |s.nodes|
    ensures |Step(s, e).nodes| == |s.nodes| && Step(s, e).nodes[i] == NextNode(s, e, i)
    ensures Calls(Step(s, e).history, i) == Calls(s.history, i) + if Registers(s, e, i) then 1 else 0
  {
    StepIs(s, e);
    match e
    case InjectConnected(peer) => ConnectNodesEffect(s, peer, |s.nodes|, i);
    case InjectDisconnected(peer) => DisconnectNodesEffect(s, peer, |s.nodes|, i);
    case InjectDialFailure(peer) =>
      if peer.Some? {
        DisconnectNodesEffect(s, peer.value, |s.nodes|, i);
      }
    case Poll(expired, inner) =>
      if s.toDial == [] {
        PollStepOfNode(s, expired, inner, i);
      }
  }

  // Whole runs.

  lemma StepLength(s: State, e: Event)
    ensures |Step(s, e).nodes| == |s.nodes|
  {
    StepIs(s, e);
  }

  /** Nodes keep their number and their peers. */
  lemma {:induction false} RunKeepsPeers(s: State, events: seq<Event>, n: nat)
    requires n <= |events|
    ensures SamePeers(s.nodes, Run(s, events, n).nodes)
  {
    if n > 0 {
      var t := Run(s, events, n - 1);
      RunKeepsPeers(s, events, n - 1);
      forall i | 0 <= i < |s.nodes|
        ensures |Run(s, events, n).nodes| == |s.nodes| && s.nodes[i].peerId == Run(s, events, n).nodes[i].peerId
      {
        StepOfNode(t, events[n - 1], i);
      }
      StepLength(t, events[n - 1]);
    }
  }

  ghost predicate IsArmed(s: State, events: seq<Event>, m: nat, n: nat, i: nat)
    requires n <= |events|
  {
    exists k :: m <= k < n && Arms(Run(s, events, k), events[k], i)
  }

  ghost predicate StaysPending(s: State, events: seq<Event>, m: nat, n: nat, i: nat)
    requires n <= |events|
  {
    forall k :: m <= k <= n ==> i < |Run(s, events, k).nodes| && Run(s, events, k).nodes[i].registration == Pending
  }

  /** A pending node stays pending exactly until a registration is reported that arms it. */
  lemma {:induction false} PendingUntilArmed(s: State, events: seq<Event>, m: nat, n: nat, i: nat)
    requires m <= n <= |events| && i < |Run(s, events, m).nodes|
    requires Run(s, events, m).nodes[i].registration == Pending
    ensures StaysPending(s, events, m, n, i) <==> !IsArmed(s, events, m, n, i)
  {
    if m < n {
      var t := Run(s, events, n - 1);
      PendingUntilArmed(s, events, m, n - 1, i);
      if StaysPending(s, events, m, n - 1, i) {
        StepOfNode(t, events[n - 1], i);
        assert Run(s, events, n) == Step(t, events[n - 1]);
        assert Arms(t, events[n - 1], i) ==> IsArmed(s, events, m, n, i);
      } else {
        var k :| m <= k < n - 1 && Arms(Run(s, events, k), events[k], i);
        assert IsArmed(s, events, m, n, i);
      }
    }
  }

  predicate RegistersAt(s: State, events: seq<Event>, k: nat, i: nat)
    requires k < |events|
  {
    i < |Run(s, events, k).nodes| && Registers(Run(s, events, k), events[k], i)
  }

  ghost predicate IsCalled(s: State, events: seq<Event>, m: nat, n: nat, i: nat)
    requires n <= |events|
  {
    exists k :: m <= k < n && RegistersAt(s, events, k, i)
  }

  /**
    In every run, register is called for a node between two times exactly when a step between them meets the
    condition.
  */
  lemma {:induction false} CalledIff(s: State, events: seq<Event>, m: nat, n: nat, i: nat)
    requires m <= n <= |events| && i < |s.nodes|
    ensures Calls(Run(s, events, m).history, i) <= Calls(Run(s, events, n).history, i)
    ensures Calls(Run(s, events, m).history, i) < Calls(Run(s, events, n).history, i) <==> IsCalled(s, events, m, n, i)
  {
    if m < n {
      var t := Run(s, events, n - 1);
      CalledIff(s, events, m, n - 1, i);
      RunKeepsPeers(s, events, n - 1);
      StepOfNode(t, events[n - 1], i);
      assert Run(s, events, n) == Step(t, events[n - 1]);
      assert RegistersAt(s, events, n - 1, i) <==> Registers(t, events[n - 1], i);
    }
  }

  /** The node is armed, and at a later step meets the condition for calling register. */
  ghost predicate IsArmedAndCalled(s: State, events: seq<Event>, m: nat, n: nat, i: nat)
    requires n <= |events|
  {
    exists k :: m <= k < n && IsArmed(s, events, m, k, i) && RegistersAt(s, events, k, i)
  }

  /**
    A pending node registers again exactly when it is armed and a later step meets the condition for calling
    register: without a report of its own registration it is stuck.
  */
  lemma PendingRegistersAgainIff(s: State, events: seq<Event>, m: nat, n: nat, i: nat)
    requires m <= n <= |events| && i < |s.nodes| && i < |Run(s, events, m).nodes|
    requires Run(s, events, m).nodes[i].registration == Pending
    ensures Calls(Run(s, events, m).history, i) < Calls(Run(s, events, n).history, i)
       <==> IsArmedAndCalled(s, events, m, n, i)
  {
    CalledIff(s, events, m, n, i);
    if IsCalled(s, events, m, n, i) {
      var k :| m <= k < n && RegistersAt(s, events, k, i);
      PendingUntilArmed(s, events, m, k, i);
    }
  }

  /** A node that is not the first with its peer is never armed. */
  lemma OnlyFirstIsArmed(s: State, events: seq<Event>, m: nat, n: nat, i: nat)
    requires n <= |events| && i < |s.nodes| && Position(s.nodes, s.nodes[i].peerId) != i
    ensures !IsArmed(s, events, m, n, i)
  {
    forall k | m <= k < n
      ensures !Arms(Run(s, events, k), events[k], i)
    {
      RunKeepsPeers(s, events, k);
      if events[k].Poll? && events[k].inner.RegisteredReported? {
        SamePosition(s.nodes, Run(s, events, k).nodes, events[k].inner.peer);
      }
    }
  }

  /** A node that is not the first with its peer registers at most once in a run. */
  lemma {:induction false} DuplicateRegistersOnce(s: State, events: seq<Event>, n: nat, i: nat)
    requires n <= |events| && i < |s.nodes| && Position(s.nodes, s.nodes[i].peerId) != i && s.history == []
    requires s.nodes[i].registration == RegisterOnNextConnection
    ensures |Run(s, events, n).nodes| == |s.nodes| && Calls(Run(s, events, n).history, i) <= 1
    ensures Calls(Run(s, events, n).history, i) == 1 ==> Run(s, events, n).nodes[i].registration == Pending
    ensures Calls(Run(s, events, n).history, i) == 0
        ==> Run(s, events, n).nodes[i].registration == RegisterOnNextConnection
  {
    if n > 0 {
      var t := Run(s, events, n - 1);
      DuplicateRegistersOnce(s, events, n - 1, i);
      OnlyFirstIsArmed(s, events, n - 1, n, i);
      assert !Arms(t, events[n - 1], i);
      StepOfNode(t, events[n - 1], i);
      assert Run(s, events, n) == Step(t, events[n - 1]);
    }
  }
}
