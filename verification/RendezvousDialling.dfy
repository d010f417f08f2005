/** The queue of peers to dial: what enters it, in which order it is dialled, and what a dialled node does next. */
module RendezvousDialling {
  import opened Options
  import opened Rendezvous
  import opened RendezvousProgress

  // The queue.

  /** The check of a disconnected node that has to register, at once or because its registration has expired. */
  predicate NeedsDial(node: Node, expired: bool) {
    && node.connection == Disconnected
    && (node.registration == RegisterOnNextConnection || (node.registration == Registered && expired))
  }

  /** The peers of the first n nodes that need to be dialled, in order. */
  function PeersToDial(nodes: seq<Node>, expired: set<nat>, n: nat): seq<PeerId>
    requires n <= |nodes|
  {
    if n == 0 then []
    else
      PeersToDial(nodes, expired, n - 1)
      + if NeedsDial(nodes[n - 1], n - 1 in expired) then [nodes[n - 1].peerId] else []
  }

  /** The checks of the nodes queue exactly the peers that need to be dialled. */
  lemma {:induction false} PollNodesQueues(s: State, expired: set<nat>, n: nat)
    requires n <= |s.nodes|
    ensures PollNodes(s, expired, n).toDial == s.toDial + PeersToDial(s.nodes, expired, n)
  {
    if n > 0 {
      PollNodesQueues(s, expired, n - 1);
      PollNodesEffect(s, expired, n - 1, n - 1);
    }
  }

  /** What a step adds to the queue. */
  function Queued(s: State, e: Event): seq<PeerId> {
    if e.Poll? && s.toDial == [] then PeersToDial(s.nodes, e.expired, |s.nodes|) else []
  }

  /** The peer that a step dials. */
  function Dialled(s: State, e: Event): seq<PeerId> {
    if e.Poll? && PollAction(s, e.inner).Dial? then [PollAction(s, e.inner).peer] else []
  }

  lemma {:induction false} ConnectNodesSpare(s: State, peer: PeerId, n: nat)
    requires n <= |s.nodes|
    ensures ConnectNodes(s, peer, n).toDial == s.toDial && ConnectNodes(s, peer, n).localPeer == s.localPeer
  {
    if n > 0 {
      ConnectNodesSpare(s, peer, n - 1);
    }
  }

  lemma {:induction false} DisconnectNodesSpare(s: State, peer: PeerId, n: nat)
    requires n <= |s.nodes|
    ensures DisconnectNodes(s, peer, n).toDial == s.toDial && DisconnectNodes(s, peer, n).localPeer == s.localPeer
  {
    if n > 0 {
      DisconnectNodesSpare(s, peer, n - 1);
    }
  }

  lemma {:induction false} PollNodesSpare(s: State, expired: set<nat>, n: nat)
    requires n <= |s.nodes|
    ensures PollNodes(s, expired, n).localPeer == s.localPeer
  {
    if n > 0 {
      PollNodesSpare(s, expired, n - 1);
    }
  }

  /** The peers other than the client itself. */
  function Others(peers: seq<PeerId>, localPeer: PeerId): seq<PeerId> {
    if peers == [] then [] else (if peers[0] == localPeer then [] else [peers[0]]) + Others(peers[1..], localPeer)
  }

  /**
    A poll takes the first peer from the queue, or, if there is none, checks the nodes and reports what the
    inner client does.
  */
  lemma StepOfQueue(s: State, e: Event)
    ensures Step(s, e).localPeer == s.localPeer
    ensures Step(s, e).toDial == (if e.Poll? && s.toDial != [] then s.toDial[1..] else s.toDial) + Queued(s, e)
    ensures e.Poll? ==> (PollAction(s, e.inner) == Reported(e.inner) <==> s.toDial == [])
    ensures Dialled(s, e) == if e.Poll? && s.toDial != [] then Others(s.toDial[..1], s.localPeer) else []
  {
    StepIs(s, e);
    match e
    case InjectConnected(peer) => ConnectNodesSpare(s, peer, |s.nodes|);
    case InjectDisconnected(peer) => DisconnectNodesSpare(s, peer, |s.nodes|);
    case InjectDialFailure(peer) =>
      if peer.Some? {
        DisconnectNodesSpare(s, peer.value, |s.nodes|);
      }
    case Poll(expired, inner) =>
      if s.toDial == [] {
        PollNodesQueues(s, expired, |s.nodes|);
        PollNodesSpare(s, expired, |s.nodes|);
      } else {
        assert s.toDial[..1] == [s.toDial[0]];
        assert [s.toDial[0]][1..] == [];
      }
  }

  // Whole runs.

  lemma {:induction false} OthersAppend(p: seq<PeerId>, q: seq<PeerId>, localPeer: PeerId)
    ensures Others(p + q, localPeer) == Others(p, localPeer) + Others(q, localPeer)
  {
    if p == [] {
      assert p + q == q;
    } else {
      assert (p + q)[1..] == p[1..] + q;
      OthersAppend(p[1..], q, localPeer);
    }
  }

  /** What entered the queue during a run, in order. */
  function AllQueued(s: State, events: seq<Event>, n: nat): seq<PeerId>
    requires n <= |events|
  {
    if n == 0 then [] else AllQueued(s, events, n - 1) + Queued(Run(s, events, n - 1), events[n - 1])
  }

  /** What was dialled during a run, in order. */
  function AllDialled(s: State, events: seq<Event>, n: nat): seq<PeerId>
    requires n <= |events|
  {
    if n == 0 then [] else AllDialled(s, events, n - 1) + Dialled(Run(s, events, n - 1), events[n - 1])
  }

  lemma StepDials(s: State, e: Event)
    ensures Dialled(s, e) + Others(Step(s, e).toDial, s.localPeer)
         == Others(s.toDial, s.localPeer) + Others(Queued(s, e), s.localPeer)
  {
    var rest := if e.Poll? && s.toDial != [] then s.toDial[1..] else s.toDial;
    StepOfQueue(s, e);
    OthersAppend(rest, Queued(s, e), s.localPeer);
    if e.Poll? && s.toDial != [] {
      assert s.toDial == s.toDial[..1] + rest;
      OthersAppend(s.toDial[..1], rest, s.localPeer);
    }
  }

  lemma NextInOrder(dialled: seq<PeerId>, d: seq<PeerId>, rest': seq<PeerId>, rest: seq<PeerId>, q: seq<PeerId>,
                    start: seq<PeerId>, queued: seq<PeerId>)
    requires d + rest' == rest + q && dialled + rest == start + queued
    ensures (dialled + d) + rest' == start + (queued + q)
  {
    assert (dialled + d) + rest' == dialled + (d + rest');
    assert dialled + (rest + q) == (dialled + rest) + q;
    assert (start + queued) + q == start + (queued + q);
  }

  /** What was dialled, and then what is in the queue, except for the client itself. */
  function Dials(s: State, events: seq<Event>, n: nat): seq<PeerId>
    requires n <= |events|
  {
    AllDialled(s, events, n) + Others(Run(s, events, n).toDial, s.localPeer)
  }

  lemma NextDials(s: State, events: seq<Event>, n: nat)
    requires n < |events| && Run(s, events, n).localPeer == s.localPeer
    requires Dials(s, events, n) == Others(s.toDial, s.localPeer) + Others(AllQueued(s, events, n), s.localPeer)
    ensures Dials(s, events, n + 1) == Others(s.toDial, s.localPeer) + Others(AllQueued(s, events, n + 1), s.localPeer)
  {
    var t, e := Run(s, events, n), events[n];
    StepDials(t, e);
    OthersAppend(AllQueued(s, events, n), Queued(t, e), s.localPeer);
    NextInOrder(AllDialled(s, events, n), Dialled(t, e), Others(Step(t, e).toDial, s.localPeer),
      Others(t.toDial, s.localPeer), Others(Queued(t, e), s.localPeer), Others(s.toDial, s.localPeer),
      Others(AllQueued(s, events, n), s.localPeer));
  }

  /**
    In every run, what was dialled and then what is in the queue is what entered the queue, in that order and
    each as often as it did, except for the client itself.
  */
  lemma {:induction false} QueuedIsDialledInOrder(s: State, events: seq<Event>, n: nat)
    requires n <= |events|
    ensures Run(s, events, n).localPeer == s.localPeer
    ensures AllDialled(s, events, n) + Others(Run(s, events, n).toDial, s.localPeer)
         == Others(s.toDial, s.localPeer) + Others(AllQueued(s, events, n), s.localPeer)
  {
    if n > 0 {
      QueuedIsDialledInOrder(s, events, n - 1);
      NextDials(s, events, n - 1);
      StepOfQueue(Run(s, events, n - 1), events[n - 1]);
    } else {
      assert Others(AllQueued(s, events, 0), s.localPeer) == [];
    }
  }

  function Polls(events: seq<Event>, n: nat): nat
    requires n <= |events|
  {
    if n == 0 then 0 else Polls(events, n - 1) + if events[n - 1].Poll? then 1 else 0
  }

  /** While the queue lasts, each poll dials its next peer, whatever else happens between the polls. */
  lemma {:induction false} PollsDialQueue(s: State, events: seq<Event>, n: nat)
    requires n <= |events| && Polls(events, n) <= |s.toDial|
    ensures var m := Polls(events, n);
            && Run(s, events, n).toDial == s.toDial[m..] && Run(s, events, n).localPeer == s.localPeer
            && AllDialled(s, events, n) == Others(s.toDial[..m], s.localPeer)
  {
    if n > 0 {
      var t, e, m := Run(s, events, n - 1), events[n - 1], Polls(events, n - 1);
      PollsDialQueue(s, events, n - 1);
      StepOfQueue(t, e);
      if e.Poll? {
        assert s.toDial[m..][..1] == s.toDial[m..m + 1] && s.toDial[..m + 1] == s.toDial[..m] + s.toDial[m..m + 1];
        OthersAppend(s.toDial[..m], s.toDial[m..m + 1], s.localPeer);
      }
    }
  }

  lemma {:induction false} NeededIsQueued(nodes: seq<Node>, expired: set<nat>, n: nat, i: nat)
    requires i < n <= |nodes| && NeedsDial(nodes[i], i in expired)
    ensures nodes[i].peerId in PeersToDial(nodes, expired, n)
  {
    if i < n - 1 {
      NeededIsQueued(nodes, expired, n - 1, i);
    }
  }

  lemma {:induction false} OtherRemains(peers: seq<PeerId>, localPeer: PeerId, peer: PeerId)
    ensures peer in Others(peers, localPeer) <==> peer in peers && peer != localPeer
  {
    if peers != [] {
      OtherRemains(peers[1..], localPeer, peer);
      assert peers == [peers[0]] + peers[1..];
    }
  }

  /**
    A node that needs to be dialled when the nodes are checked is dialled: by the time that the queue of that
    check has been polled off, whatever else happens.
  */
  lemma NodeIsDialled(s: State, expired: set<nat>, inner: InnerPoll, events: seq<Event>, n: nat, i: nat)
    requires s.toDial == [] && i < |s.nodes| && NeedsDial(s.nodes[i], i in expired)
    requires s.nodes[i].peerId != s.localPeer && n <= |events|
    requires Polls(events, n) == |Step(s, Poll(expired, inner)).toDial|
    ensures s.nodes[i].peerId in AllDialled(Step(s, Poll(expired, inner)), events, n)
  {
    var t := Step(s, Poll(expired, inner));
    StepOfQueue(s, Poll(expired, inner));
    NeededIsQueued(s.nodes, expired, |s.nodes|, i);
    PollsDialQueue(t, events, n);
    assert t.toDial[..|t.toDial|] == t.toDial;
    OtherRemains(t.toDial, s.localPeer, s.nodes[i].peerId);
  }

  // The statuses.

  /** The effect of a check on the statuses of a node, which a report of its own registration overrides. */
  lemma CheckedStatuses(s: State, expired: set<nat>, inner: InnerPoll, i: nat)
    requires s.toDial == [] && i < |s.nodes|
    ensures var e := Poll(expired, inner);
            var node, node' := s.nodes[i], NextNode(s, e, i);
            && |Step(s, e).nodes| == |s.nodes| && Step(s, e).nodes[i] == node'
            && (node'.connection == Connected <==> node.connection == Connected)
            && (node'.connection == Dialling <==>
                  || node.connection == Dialling
                  || (node.connection == Disconnected && node.registration == RegisterOnNextConnection))
            && (node'.registration == Registered <==>
                  || Arms(s, e, i)
                  || (node.registration == Registered && (i !in expired || node.connection == Dialling)))
            && (node'.registration == RegisterOnNextConnection <==>
                  && !Arms(s, e, i)
                  && (if node.registration == Registered then i in expired && node.connection == Disconnected
                      else node.registration == RegisterOnNextConnection && node.connection != Connected))
  {
    StepOfNode(s, Poll(expired, inner), i);
  }

  /**
    A node that was queued by a check is queued by the next one too, while it stays disconnected, exactly if it was
    queued because its registration had expired.
  */
  lemma QueuedTwiceIff(node: Node, expired: bool, later: bool)
    requires NeedsDial(node, expired)
    ensures NeedsDial(CheckedNode(node, expired), later) <==> node.registration == Registered
  {}

  /** One registration, the loss of the connection, and the expiry of the registration. */
  function LostRegistration(): seq<Event> {
    [Poll({}, NothingReported), Poll({}, NothingReported), InjectConnected(5), Poll({}, RegisteredReported(5)),
     InjectDisconnected(5), Poll({0}, NothingReported), Poll({0}, NothingReported), Poll({0}, NothingReported),
     Poll({0}, NothingReported)]
  }

  lemma CheckOfOne(s: State, expired: set<nat>)
    requires |s.nodes| == 1 && s.toDial == []
    ensures Step(s, Poll(expired, NothingReported)) == PollNode(s, expired, 0)
  {
    StepIs(s, Poll(expired, NothingReported));
    assert PollNodes(s, expired, 0) == s;
  }

  const REGISTERED_ONCE: seq<Observation> := [RegisterCalled(0, Connected), RegisteredSeen(5)]

  lemma RegistrationIsLost()
    ensures Run(Initial([5], 3), LostRegistration(), 5) == State([Node(5, Disconnected, Registered)], [], 3,
                REGISTERED_ONCE)
    ensures AllDialled(Initial([5], 3), LostRegistration(), 5) == [5]
  {
    var s0, events := Initial([5], 3), LostRegistration();
    var s1 := State([Node(5, Dialling, RegisterOnNextConnection)], [5], 3, []);
    var s2 := s1.(toDial := []);
    var s3 := State([Node(5, Connected, Pending)], [], 3, [RegisterCalled(0, Connected)]);
    var s4 := State([Node(5, Connected, Registered)], [], 3, REGISTERED_ONCE);
    CheckOfOne(s0, {});
    StepIs(s1, events[1]);
    StepIs(s2, events[2]);
    assert ConnectNodes(s2, 5, 0) == s2;
    StepIs(s3, events[3]);
    assert PollNodes(s3, {}, 0) == s3;
    StepIs(s4, events[4]);
    assert DisconnectNodes(s4, 5, 0) == s4;
    assert Run(s0, events, 0) == s0;
    assert Run(s0, events, 1) == s1;
    assert Run(s0, events, 2) == s2;
    assert Run(s0, events, 3) == s3;
    assert Run(s0, events, 4) == s4;
    assert AllDialled(s0, events, 1) == [];
    assert AllDialled(s0, events, 3) == [5];
  }

  lemma RegistrationExpires()
    ensures Run(Initial([5], 3), LostRegistration(), 8)
         == State([Node(5, Dialling, RegisterOnNextConnection)], [5], 3, REGISTERED_ONCE)
    ensures AllDialled(Initial([5], 3), LostRegistration(), 8) == [5, 5]
  {
    var s0, events := Initial([5], 3), LostRegistration();
    var s5 := State([Node(5, Disconnected, Registered)], [], 3, REGISTERED_ONCE);
    var s6 := State([Node(5, Disconnected, RegisterOnNextConnection)], [5], 3, REGISTERED_ONCE);
    var s7 := s6.(toDial := []);
    RegistrationIsLost();
    CheckOfOne(s5, {0});
    StepIs(s6, events[6]);
    CheckOfOne(s7, {0});
    assert Run(s0, events, 6) == s6;
    assert Run(s0, events, 7) == s7;
    assert AllDialled(s0, events, 6) == [5];
    assert AllDialled(s0, events, 7) == [5, 5];
  }

  /** A node whose registration expires after it was disconnected is dialled twice for the new one. */
  lemma ExpiredIsDialledTwice()
    ensures AllDialled(Initial([5], 3), LostRegistration(), 5) == [5]
    ensures AllDialled(Initial([5], 3), LostRegistration(), 9) == [5, 5, 5]
  {
    RegistrationIsLost();
    RegistrationExpires();
    assert AllDialled(Initial([5], 3), LostRegistration(), 9) == [5, 5] + [5];
  }

  /** The peer of the node is reported as disconnected, or dialling it has failed. */
  predicate Loses(e: Event, peer: PeerId) {
    e == InjectDisconnected(peer) || e == InjectDialFailure(Some(peer))
  }

  ghost predicate WasConnected(events: seq<Event>, n: nat, peer: PeerId)
    requires n <= |events|
  {
    exists k :: 0 <= k < n && events[k] == InjectConnected(peer) && forall j :: k < j < n ==> !Loses(events[j], peer)
  }

  /** In every run, a node is connected exactly if its peer was reported as connected, and not as lost since. */
  lemma {:induction false} ConnectedIff(peers: seq<PeerId>, localPeer: PeerId, events: seq<Event>, n: nat, i: nat)
    requires n <= |events| && i < |peers|
    ensures var s := Run(Initial(peers, localPeer), events, n);
            && |s.nodes| == |peers| && s.nodes[i].peerId == peers[i]
            && (s.nodes[i].connection == Connected <==> WasConnected(events, n, peers[i]))
  {
    RunKeepsPeers(Initial(peers, localPeer), events, n);
    if n > 0 {
      var s, e := Run(Initial(peers, localPeer), events, n - 1), events[n - 1];
      ConnectedIff(peers, localPeer, events, n - 1, i);
      StepOfNode(s, e, i);
      if e == InjectConnected(peers[i]) {
        assert WasConnected(events, n, peers[i]);
      } else if WasConnected(events, n - 1, peers[i]) && !Loses(e, peers[i]) {
        var k :| 0 <= k < n - 1 && events[k] == InjectConnected(peers[i])
          && forall j :: k < j < n - 1 ==> !Loses(events[j], peers[i]);
        assert WasConnected(events, n, peers[i]);
      }
    }
  }

  /** A node is registered only after a report of its registration. */
  lemma {:induction false} RegisteredWasReported(peers: seq<PeerId>, localPeer: PeerId, events: seq<Event>, n: nat,
                                                 i: nat)
    requires n <= |events| && i < |peers|
    ensures var s := Run(Initial(peers, localPeer), events, n);
            && |s.nodes| == |peers|
            && (s.nodes[i].registration == Registered ==> IsArmed(Initial(peers, localPeer), events, 0, n, i))
  {
    RunKeepsPeers(Initial(peers, localPeer), events, n);
    if n > 0 {
      var s := Run(Initial(peers, localPeer), events, n - 1);
      RegisteredWasReported(peers, localPeer, events, n - 1, i);
      StepOfNode(s, events[n - 1], i);
    }
  }

  lemma {:induction false} StaysUnregistered(s: State, events: seq<Event>, n: nat, i: nat)
    requires n <= |events| && i < |s.nodes| && s.nodes[i].registration == RegisterOnNextConnection
    requires !IsArmed(s, events, 0, n, i) && !IsCalled(s, events, 0, n, i)
    ensures |Run(s, events, n).nodes| == |s.nodes|
            && Run(s, events, n).nodes[i].registration == RegisterOnNextConnection
  {
    if n > 0 {
      var t := Run(s, events, n - 1);
      StaysUnregistered(s, events, n - 1, i);
      StepOfNode(t, events[n - 1], i);
      assert !Arms(t, events[n - 1], i) && !RegistersAt(s, events, n - 1, i);
    }
  }

  /**
    A node that is to register on the next connection does so: if its peer is reported as connected, register is
    called for it by then, unless a report of its registration came before.
  */
  lemma {:induction false} NextConnectionRegisters(s: State, events: seq<Event>, n: nat, i: nat)
    requires n < |events| && i < |s.nodes| && s.nodes[i].registration == RegisterOnNextConnection
    requires events[n] == InjectConnected(s.nodes[i].peerId) && !IsArmed(s, events, 0, n, i)
    ensures Calls(s.history, i) < Calls(Run(s, events, n + 1).history, i)
  {
    CalledIff(s, events, 0, n + 1, i);
    if !IsCalled(s, events, 0, n, i) {
      StaysUnregistered(s, events, n, i);
      RunKeepsPeers(s, events, n);
      assert RegistersAt(s, events, n, i);
    }
  }
}
