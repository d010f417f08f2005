/** The rendezvous client as the program has it: an object that updates its nodes and its queue in place. */
module RendezvousMachine {
  import opened Options
  import opened Rendezvous

  class Behaviour {
    var rendezvousNodes: seq<Node>
    var toDial: seq<PeerId>
    const localPeerId: PeerId
    var history: seq<Observation>

    constructor (peers: seq<PeerId>, localPeerId: PeerId)
      ensures Valid() && Value() == Initial(peers, localPeerId)
    {
      rendezvousNodes :=
          seq(|peers|, i requires 0 <= i < |peers| => Node(peers[i], Disconnected, RegisterOnNextConnection));
      toDial, history := [], [];
      this.localPeerId := localPeerId;
      new;
      RunIsSafe(peers, localPeerId, [], 0);
    }

    /** What every run keeps: each call of register is for a connected node that does not wait for an earlier one. */
    ghost predicate Valid()
      reads this
    {
      IsSafe(Value())
    }

    function Value(): State
      reads this
    {
      State(rendezvousNodes, toDial, localPeerId, history)
    }

    method SetConnection(i: nat, status: ConnectionStatus)
      requires i < |rendezvousNodes|
      modifies this`rendezvousNodes
      ensures Value() == Rendezvous.SetConnection(old(Value()), i, status)
    {
      rendezvousNodes := rendezvousNodes[i := rendezvousNodes[i].(connection := status)];
    }

    method SetRegistration(i: nat, status: RegistrationStatus)
      requires i < |rendezvousNodes|
      modifies this`rendezvousNodes
      ensures Value() == Rendezvous.SetRegistration(old(Value()), i, status)
    {
      rendezvousNodes := rendezvousNodes[i := rendezvousNodes[i].(registration := status)];
    }

    method Register(i: nat)
      requires i < |rendezvousNodes|
      modifies this`history
      ensures history == old(history) + [RegisterCalled(i, rendezvousNodes[i].connection)]
    {
      history := history + [RegisterCalled(i, rendezvousNodes[i].connection)];
    }

    method OnConnected(peer: PeerId)
      requires Valid()
      modifies this
      ensures Valid() && Value() == Step(old(Value()), InjectConnected(peer))
    {
      StepIsSafe(Value(), InjectConnected(peer));
      for i := 0 to |rendezvousNodes|
        invariant |rendezvousNodes| == |old(rendezvousNodes)| && Value() == ConnectNodes(old(Value()), peer, i)
      {
        if peer == rendezvousNodes[i].peerId {
          SetConnection(i, Connected);
          match rendezvousNodes[i].registration
          case RegisterOnNextConnection =>
            Register(i);
            SetRegistration(i, Pending);
          case Registered =>
          case Pending =>
        }
      }
    }

    method OnDisconnected(peer: PeerId)
      requires Valid()
      modifies this
      ensures Valid() && Value() == Step(old(Value()), InjectDisconnected(peer))
    {
      StepIsSafe(Value(), InjectDisconnected(peer));
      for i := 0 to |rendezvousNodes|
        invariant |rendezvousNodes| == |old(rendezvousNodes)| && Value() == DisconnectNodes(old(Value()), peer, i)
      {
        if peer == rendezvousNodes[i].peerId {
          SetConnection(i, Disconnected);
        }
      }
    }

    method OnDialFailure(peer: Option<PeerId>)
      requires Valid()
      modifies this
      ensures Valid() && Value() == Step(old(Value()), InjectDialFailure(peer))
    {
      StepIsSafe(Value(), InjectDialFailure(peer));
      for i := 0 to |rendezvousNodes|
        invariant |rendezvousNodes| == |old(rendezvousNodes)|
        invariant Value() == if peer.Some? then DisconnectNodes(old(Value()), peer.value, i) else old(Value())
      {
        if peer.Some? && peer.value == rendezvousNodes[i].peerId {
          SetConnection(i, Disconnected);
        }
      }
    }

    /** One round of the check of a node's status. */
    method CheckNode(i: nat, expired: set<nat>)
      requires i < |rendezvousNodes|
      modifies this
      ensures Value() == PollNode(old(Value()), expired, i)
    {
      var connectionStatus := rendezvousNodes[i].connection;
      match rendezvousNodes[i].registration
      case RegisterOnNextConnection =>
        match connectionStatus {
          case Disconnected =>
            SetConnection(i, Dialling);
            toDial := toDial + [rendezvousNodes[i].peerId];
          case Dialling =>
          case Connected =>
            SetRegistration(i, Pending);
            Register(i);
        }
      case Registered =>
        if i in expired {
          match connectionStatus {
            case Connected =>
              SetRegistration(i, Pending);
              Register(i);
            case Disconnected =>
              SetRegistration(i, RegisterOnNextConnection);
              toDial := toDial + [rendezvousNodes[i].peerId];
            case Dialling =>
          }
        }
      case Pending =>
    }

    method OnPoll(expired: set<nat>, inner: InnerPoll) returns (action: Action)
      requires Valid()
      modifies this
      ensures Valid() && Value() == Step(old(Value()), Poll(expired, inner))
              && action == PollAction(old(Value()), inner)
    {
      StepIsSafe(Value(), Poll(expired, inner));
      if toDial != [] {
        var peer := toDial[0];
        toDial := toDial[1..];
        return if peer == localPeerId then NoAction else Dial(peer);
      }
      CheckNodes(expired);
      if inner.RegisteredReported? {
        OnRegistered(inner.peer);
      }
      action := Reported(inner);
    }

    method CheckNodes(expired: set<nat>)
      modifies this
      ensures Value() == PollNodes(old(Value()), expired, |old(rendezvousNodes)|)
    {
      for i := 0 to |rendezvousNodes|
        invariant |rendezvousNodes| == |old(rendezvousNodes)| && Value() == PollNodes(old(Value()), expired, i)
      {
        CheckNode(i, expired);
      }
    }

    /** A Registered event arms the timer of the first node with its peer. */
    method OnRegistered(peer: PeerId)
      modifies this
      ensures Value() == SeeRegistered(old(Value()), peer)
    {
      history := history + [RegisteredSeen(peer)];
      var i := 0;
      while i < |rendezvousNodes| && rendezvousNodes[i].peerId != peer
        invariant 0 <= i <= |rendezvousNodes| && forall j :: 0 <= j < i ==> rendezvousNodes[j].peerId != peer
      {
        i := i + 1;
      }
      if i < |rendezvousNodes| {
        SetRegistration(i, Registered);
      }
    }
  }
}
