/**
  The event loop of the swap maker: the routing of transfer proofs and encrypted signatures.

  One arm of the loop is one step. The swarm and the channels of the swaps are represented by
  what was done with them: the requests sent, the answers given, the signatures forwarded.
*/
module EventLoop {
  type PeerId = nat
  type SwapId = nat
  type RequestId = nat
  type Responder = nat
  type Channel = nat
  type Proof = nat
  type Signature = nat

  datatype Request = Request(swapId: SwapId, proof: Proof)

  /** A request, and the responder that tells the swap of its acknowledgement. */
  datatype Outgoing = Outgoing(request: Request, responder: Responder)

  datatype Sent = Sent(peer: PeerId, outgoing: Outgoing)

  datatype Answer = Answer(id: RequestId, responder: Responder)

  /** The channel by which a swap gives its one proof, with room for it until the loop takes it. */
  datatype Offer = Idle | Offered(proof: Proof, responder: Responder) | Taken

  /**
    A handle that was given to a swap: whether the swap still holds it, whether the swap still has the
    receiver for its encrypted signature, and the channel for its proof.
  */
  datatype Handle = Handle(peer: PeerId, swapId: SwapId, alive: bool, waiting: bool, offer: Offer)

  datatype Forward = Forward(handle: nat, swapId: SwapId, signature: Signature, channel: Channel, from: PeerId)

  datatype Event =
    | SetupCompleted(peer: PeerId, swapId: SwapId, stored: bool, started: bool)
    | Resumed(swapId: SwapId, started: bool)
    | SwapStopped(handle: nat)
    | ConnectionEstablished(peer: PeerId)
    | ConnectionClosed(peer: PeerId, numEstablished: nat)
    | ProofGiven(handle: nat, proof: Proof, responder: Responder)
    | ProofReady(handle: nat)
    | ProofAcknowledged(peer: PeerId, id: RequestId)
    | SignatureReceived(swapId: SwapId, signature: Signature, channel: Channel, peer: PeerId)
    | SignatureConfirmed(forward: nat)
    | WaitAbandoned(handle: nat)
    | SenderAnswered(forward: nat)

  datatype State = State(
    peers: map<SwapId, PeerId>,
    connected: set<PeerId>,
    handles: seq<Handle>,
    buffered: map<PeerId, seq<Outgoing>>,
    inflight: map<RequestId, Responder>,
    sent: seq<Sent>,
    answered: seq<Answer>,
    receivers: map<SwapId, nat>,
    forwarded: seq<Forward>,
    pending: set<nat>,
    confirmed: set<nat>,
    abandoned: set<nat>,
    unacknowledged: set<nat>,
    acknowledged: seq<nat>)

  function Initial(peers: map<SwapId, PeerId>): State {
    State(peers, {}, [], map[], map[], [], [], map[], [], {}, {}, {}, {}, [])
  }

  // The steps.

  function NewHandle(s: State, peer: PeerId, swapId: SwapId, alive: bool): State {
    s.(handles := s.handles + [Handle(peer, swapId, alive, alive, Idle)],
        receivers := s.receivers[swapId := |s.handles|])
  }

  /** The database records one peer for a swap; it refuses another, and may fail on its own. */
  predicate IsRecorded(s: State, swapId: SwapId, stored: bool) {
    stored && swapId !in s.peers
  }

  /** The swarm numbers its requests. */
  function SendRequest(s: State, peer: PeerId, o: Outgoing): State {
    s.(sent := s.sent + [Sent(peer, o)], inflight := s.inflight[|s.sent| := o.responder])
  }

  function SendAll(s: State, peer: PeerId, os: seq<Outgoing>, n: nat): State
    requires n <= |os|
  {
    if n == 0 then s else SendRequest(SendAll(s, peer, os, n - 1), peer, os[n - 1])
  }

  function Buffered(s: State, peer: PeerId): seq<Outgoing> {
    if peer in s.buffered then s.buffered[peer] else []
  }

  /** A swap that holds its handle can put one proof into the channel. */
  predicate CanGiveProof(s: State, handle: nat) {
    handle < |s.handles| && s.handles[handle].alive && s.handles[handle].offer.Idle?
  }

  /** A proof in the channel is taken even if the swap has dropped its handle since. */
  predicate CanTakeProof(s: State, handle: nat) {
    handle < |s.handles| && s.handles[handle].offer.Offered?
  }

  function TakeProof(s: State, handle: nat): State
    requires CanTakeProof(s, handle)
  {
    var h := s.handles[handle];
    var o := Outgoing(Request(h.swapId, h.offer.proof), h.offer.responder);
    var s' := s.(handles := s.handles[handle := h.(offer := Taken)]);
    if h.peer in s.connected then SendRequest(s', h.peer, o)
    else s'.(buffered := s.buffered[h.peer := Buffered(s, h.peer) + [o]])
  }

  /**
    The receiver of the swap is taken out at its first signature from the peer on record, whether or not that
    can be relayed.
  */
  function ReceiveSignature(s: State, swapId: SwapId, signature: Signature, channel: Channel, peer: PeerId): State {
    if swapId !in s.peers || s.peers[swapId] != peer || swapId !in s.receivers then s
    else
      var handle := s.receivers[swapId];
      var s' := s.(receivers := s.receivers - {swapId});
      if handle >= |s.handles| || !s.handles[handle].waiting then s'
      else
        s'.(forwarded := s.forwarded + [Forward(handle, swapId, signature, channel, peer)],
            pending := s.pending + {|s.forwarded|},
            unacknowledged := s.unacknowledged + {|s.forwarded|})
  }

  /** The signatures that lie in the channel of a handle. */
  function PendingFor(s: State, handle: nat): set<nat> {
    set f | f in s.pending && f < |s.forwarded| && s.forwarded[f].handle == handle
  }

  /** Dropping the receiver drops a signature that lies in its channel, and with it the means of confirming it. */
  function DropReceiver(s: State, handle: nat): State {
    if handle < |s.handles| then
      s.(handles := s.handles[handle := s.handles[handle].(waiting := false)],
         pending := s.pending - PendingFor(s, handle),
         abandoned := s.abandoned + PendingFor(s, handle))
    else s
  }

  /** The swap receives the signature and confirms it at once; its receiver is used up. */
  function ConfirmSignature(s: State, forward: nat): State {
    if forward in s.pending && forward < |s.forwarded| && s.forwarded[forward].handle < |s.handles| then
      var handle := s.forwarded[forward].handle;
      s.(handles := s.handles[handle := s.handles[handle].(waiting := false)],
         pending := s.pending - {forward},
         confirmed := s.confirmed + {forward})
    else s
  }

  /** One arm of the loop. */
  function Arm(s: State, e: Event): State {
    match e
    case SetupCompleted(peer, swapId, stored, started) =>
      var s' := NewHandle(s, peer, swapId, IsRecorded(s, swapId, stored) && started);
      if IsRecorded(s, swapId, stored) then s'.(peers := s.peers[swapId := peer]) else s'
    case Resumed(swapId, started) =>
      if swapId in s.peers then NewHandle(s, s.peers[swapId], swapId, started) else s
    case SwapStopped(handle) =>
      if handle < |s.handles| then
        DropReceiver(s.(handles := s.handles[handle := s.handles[handle].(alive := false)]), handle)
      else s
    case ConnectionEstablished(peer) =>
      var s' := s.(connected := s.connected + {peer});
      SendAll(s'.(buffered := s.buffered - {peer}), peer, Buffered(s, peer), |Buffered(s, peer)|)
    case ConnectionClosed(peer, numEstablished) =>
      if numEstablished == 0 then s.(connected := s.connected - {peer}) else s
    case ProofGiven(handle, proof, responder) =>
      if CanGiveProof(s, handle)
      then s.(handles := s.handles[handle := s.handles[handle].(offer := Offered(proof, responder))])
      else s
    case ProofReady(handle) =>
      if CanTakeProof(s, handle) then TakeProof(s, handle) else s
    case ProofAcknowledged(_, id) =>
      if id in s.inflight
      then s.(inflight := s.inflight - {id}, answered := s.answered + [Answer(id, s.inflight[id])])
      else s
    case SignatureReceived(swapId, signature, channel, peer) =>
      ReceiveSignature(s, swapId, signature, channel, peer)
    case SignatureConfirmed(forward) =>
      ConfirmSignature(s, forward)
    case WaitAbandoned(handle) =>
      DropReceiver(s, handle)
    case SenderAnswered(forward) =>
      // The loop waits until the swap has confirmed the signature or dropped it, and answers in both cases.
      if forward in s.unacknowledged && forward !in s.pending
      then s.(unacknowledged := s.unacknowledged - {forward}, acknowledged := s.acknowledged + [forward])
      else s
  }

  /** A step is one arm; the counter has no effect, and keeps proofs about runs from unfolding the arms. */
  function StepAt(s: State, e: Event, k: nat): State
    decreases s, e, k
  {
    if k > 0 then StepAt(s, e, k - 1) else Arm(s, e)
  }

  function Step(s: State, e: Event): State {
    StepAt(s, e, 3)
  }

  lemma StepIs(s: State, e: Event)
    ensures Step(s, e) == Arm(s, e)
  {
    assert StepAt(s, e, 1) == StepAt(s, e, 0);
    assert StepAt(s, e, 2) == StepAt(s, e, 1);
  }

  function Run(s: State, events: seq<Event>, n: nat): State
    requires n <= |events|
  {
    if n == 0 then s else Step(Run(s, events, n - 1), events[n - 1])
  }

  // Transfer proofs.

  /** What was sent to a peer, in order. */
  function SentTo(sent: seq<Sent>, peer: PeerId): seq<Outgoing> {
    if sent == [] then []
    else
      var last := sent[|sent| - 1];
      SentTo(sent[..|sent| - 1], peer) + if last.peer == peer then [last.outgoing] else []
  }

  /** What was sent to a peer, and then what is buffered for it. */
  function History(s: State, peer: PeerId): seq<Outgoing> {
    SentTo(s.sent, peer) + Buffered(s, peer)
  }

  /** A proof that is taken from a handle goes to the peer and bears the swap of the handle. */
  function SubmittedBy(s: State, e: Event, peer: PeerId): seq<Outgoing> {
    if e.ProofReady? && CanTakeProof(s, e.handle) && s.handles[e.handle].peer == peer then
      var h := s.handles[e.handle];
      [Outgoing(Request(h.swapId, h.offer.proof), h.offer.responder)]
    else []
  }

  /** What the swaps have submitted for a peer during a run, in order. */
  function Submitted(s: State, events: seq<Event>, n: nat, peer: PeerId): seq<Outgoing>
    requires n <= |events|
  {
    if n == 0 then []
    else Submitted(s, events, n - 1, peer) + SubmittedBy(Run(s, events, n - 1), events[n - 1], peer)
  }

  ghost predicate IsAnswered(s: State, id: RequestId) {
    exists i :: 0 <= i < |s.answered| && s.answered[i].id == id
  }

  /** Every request that was sent is in flight with its own responder, or was answered to it, once. */
  ghost predicate AnswersAreExact(s: State) {
    && (forall id :: id in s.inflight ==> id < |s.sent| && s.inflight[id] == s.sent[id].outgoing.responder)
    && (forall i :: 0 <= i < |s.answered| ==>
          var a := s.answered[i];
          a.id < |s.sent| && a.id !in s.inflight && a.responder == s.sent[a.id].outgoing.responder)
    && (forall i, j :: 0 <= i < j < |s.answered| ==> s.answered[i].id != s.answered[j].id)
    && (forall id: RequestId :: id < |s.sent| && id !in s.inflight ==> IsAnswered(s, id))
  }

  /** Nothing is buffered for a connected peer, and no buffer is empty. */
  predicate BuffersAreForAbsentPeers(s: State) {
    forall peer :: peer in s.buffered ==> peer !in s.connected && s.buffered[peer] != []
  }

  lemma {:induction false} SendAllFrame(s: State, peer: PeerId, os: seq<Outgoing>, n: nat)
    requires n <= |os|
    ensures var s' := SendAll(s, peer, os, n); s' == s.(sent := s'.sent, inflight := s'.inflight)
  {
    if n > 0 {
      SendAllFrame(s, peer, os, n - 1);
    }
  }

  lemma SentToAppend(sent: seq<Sent>, last: Sent, peer: PeerId)
    ensures SentTo(sent + [last], peer) == SentTo(sent, peer) + if last.peer == peer then [last.outgoing] else []
  {
    assert (sent + [last])[..|sent|] == sent;
  }

  lemma {:induction false} SendAllSends(s: State, peer: PeerId, os: seq<Outgoing>, n: nat, to: PeerId)
    requires n <= |os|
    ensures SentTo(SendAll(s, peer, os, n).sent, to) == SentTo(s.sent, to) + if to == peer then os[..n] else []
  {
    if n > 0 {
      var sent := SendAll(s, peer, os, n - 1).sent;
      SendAllSends(s, peer, os, n - 1, to);
      SentToAppend(sent, Sent(peer, os[n - 1]), to);
      assert os[..n] == os[..n - 1] + [os[n - 1]];
      assert SendAll(s, peer, os, n).sent == sent + [Sent(peer, os[n - 1])];
    }
  }

  lemma SendKeepsAnswers(s: State, peer: PeerId, o: Outgoing)
    requires AnswersAreExact(s)
    ensures AnswersAreExact(SendRequest(s, peer, o))
  {
    var s' := SendRequest(s, peer, o);
    forall id: RequestId | id < |s'.sent| && id !in s'.inflight
      ensures IsAnswered(s', id)
    {
      assert IsAnswered(s, id);
    }
  }

  lemma {:induction false} SendAllKeepsAnswers(s: State, peer: PeerId, os: seq<Outgoing>, n: nat)
    requires n <= |os| && AnswersAreExact(s)
    ensures AnswersAreExact(SendAll(s, peer, os, n))
  {
    if n > 0 {
      SendAllKeepsAnswers(s, peer, os, n - 1);
      SendKeepsAnswers(SendAll(s, peer, os, n - 1), peer, os[n - 1]);
    }
  }

  lemma AcknowledgeKeepsAnswers(s: State, id: RequestId)
    requires AnswersAreExact(s) && id in s.inflight
    ensures AnswersAreExact(s.(inflight := s.inflight - {id}, answered := s.answered + [Answer(id, s.inflight[id])]))
  {
    var s' := s.(inflight := s.inflight - {id}, answered := s.answered + [Answer(id, s.inflight[id])]);
    forall k: RequestId | k < |s'.sent| && k !in s'.inflight
      ensures IsAnswered(s', k)
    {
      if k == id {
        assert s'.answered[|s.answered|].id == k;
      } else {
        assert IsAnswered(s, k);
        var i :| 0 <= i < |s.answered| && s.answered[i].id == k;
        assert s'.answered[i].id == k;
      }
    }
  }

  lemma SameAnswers(s: State, s': State)
    requires AnswersAreExact(s) && s'.sent == s.sent && s'.inflight == s.inflight && s'.answered == s.answered
    ensures AnswersAreExact(s')
  {
    forall id: RequestId | id < |s'.sent| && id !in s'.inflight
      ensures IsAnswered(s', id)
    {
      assert IsAnswered(s, id);
    }
  }

  /** The other arms of the loop leave the proofs alone. */
  lemma QuietStep(s: State, e: Event)
    requires !e.ConnectionEstablished? && !e.ProofReady? && !e.ProofAcknowledged?
    ensures var s' := Step(s, e);
            s'.sent == s.sent && s'.inflight == s.inflight && s'.answered == s.answered && s'.buffered == s.buffered
  {
    StepIs(s, e);
  }

  lemma StepKeepsAnswers(s: State, e: Event)
    requires AnswersAreExact(s)
    ensures AnswersAreExact(Step(s, e))
  {
    StepIs(s, e);
    match e
    case ConnectionEstablished(peer) =>
      var t := s.(connected := s.connected + {peer}, buffered := s.buffered - {peer});
      SameAnswers(s, t);
      SendAllKeepsAnswers(t, peer, Buffered(s, peer), |Buffered(s, peer)|);
    case ProofReady(handle) =>
      if CanTakeProof(s, handle) {
        var h := s.handles[handle];
        var t := s.(handles := s.handles[handle := h.(offer := Taken)]);
        SameAnswers(s, t);
        if h.peer in s.connected {
          SendKeepsAnswers(t, h.peer, Outgoing(Request(h.swapId, h.offer.proof), h.offer.responder));
        } else {
          SameAnswers(s, Step(s, e));
        }
      }
    case ProofAcknowledged(_, id) =>
      if id in s.inflight {
        AcknowledgeKeepsAnswers(s, id);
      }
    case _ =>
      QuietStep(s, e);
      SameAnswers(s, Step(s, e));
  }

  lemma StepKeepsBuffers(s: State, e: Event)
    requires BuffersAreForAbsentPeers(s)
    ensures BuffersAreForAbsentPeers(Step(s, e))
  {
    StepIs(s, e);
    if e.ConnectionEstablished? {
      var t := s.(connected := s.connected + {e.peer}, buffered := s.buffered - {e.peer});
      SendAllFrame(t, e.peer, Buffered(s, e.peer), |Buffered(s, e.peer)|);
    }
  }

  lemma FlushKeepsOrder(s: State, p: PeerId, peer: PeerId)
    ensures History(Step(s, ConnectionEstablished(p)), peer) == History(s, peer)
  {
    var t := s.(connected := s.connected + {p}, buffered := s.buffered - {p});
    var os := Buffered(s, p);
    var s' := SendAll(t, p, os, |os|);
    StepIs(s, ConnectionEstablished(p));
    SendAllFrame(t, p, os, |os|);
    SendAllSends(t, p, os, |os|, peer);
    assert os[..|os|] == os;
    if p == peer {
      assert Buffered(s', peer) == [];
    } else {
      assert SentTo(s'.sent, peer) == SentTo(s.sent, peer) && Buffered(s', peer) == Buffered(s, peer);
    }
  }

  lemma SendExtends(s: State, p: PeerId, o: Outgoing, peer: PeerId)
    requires p !in s.buffered
    ensures History(SendRequest(s, p, o), peer) == History(s, peer) + if p == peer then [o] else []
  {
    SentToAppend(s.sent, Sent(p, o), peer);
  }

  lemma AppendAssociates<T>(a: seq<T>, b: seq<T>, c: seq<T>)
    ensures a + (b + c) == (a + b) + c
  {}

  lemma BufferExtends(s: State, p: PeerId, o: Outgoing, peer: PeerId)
    ensures History(s.(buffered := s.buffered[p := Buffered(s, p) + [o]]), peer)
         == History(s, peer) + if p == peer then [o] else []
  {
    AppendAssociates(SentTo(s.sent, peer), Buffered(s, peer), [o]);
  }

  lemma TakeKeepsOrder(s: State, handle: nat, peer: PeerId)
    requires BuffersAreForAbsentPeers(s) && CanTakeProof(s, handle)
    ensures History(TakeProof(s, handle), peer) == History(s, peer) + SubmittedBy(s, ProofReady(handle), peer)
  {
    var h := s.handles[handle];
    var o := Outgoing(Request(h.swapId, h.offer.proof), h.offer.responder);
    var t := s.(handles := s.handles[handle := h.(offer := Taken)]);
    assert History(t, peer) == History(s, peer);
    if h.peer in s.connected {
      SendExtends(t, h.peer, o, peer);
    } else {
      BufferExtends(t, h.peer, o, peer);
    }
  }

  /** One step adds what it takes from a handle to what was sent to its peer or is buffered for it, in order. */
  lemma StepKeepsOrder(s: State, e: Event, peer: PeerId)
    requires BuffersAreForAbsentPeers(s)
    ensures History(Step(s, e), peer) == History(s, peer) + SubmittedBy(s, e, peer)
  {
    match e
    case ConnectionEstablished(p) =>
      FlushKeepsOrder(s, p, peer);
    case ProofReady(handle) =>
      StepIs(s, e);
      if CanTakeProof(s, handle) {
        TakeKeepsOrder(s, handle, peer);
      }
    case ProofAcknowledged(_, _) =>
      StepIs(s, e);
    case _ =>
      QuietStep(s, e);
  }

  /**
    In every run: for each peer, what was sent and then what is buffered is what the swaps have
    submitted, in that order; nothing is buffered for a connected peer; and every request is in
    flight or was answered once, to its own responder.
  */
  lemma {:induction false} ProofsAreConserved(peers: map<SwapId, PeerId>, events: seq<Event>, n: nat)
    requires n <= |events|
    ensures var s := Run(Initial(peers), events, n);
            && AnswersAreExact(s) && BuffersAreForAbsentPeers(s)
            && forall peer :: History(s, peer) == Submitted(Initial(peers), events, n, peer)
  {
    if n > 0 {
      var s := Run(Initial(peers), events, n - 1);
      ProofsAreConserved(peers, events, n - 1);
      StepKeepsAnswers(s, events[n - 1]);
      StepKeepsBuffers(s, events[n - 1]);
      forall peer
        ensures History(Step(s, events[n - 1]), peer) == Submitted(Initial(peers), events, n, peer)
      {
        StepKeepsOrder(s, events[n - 1], peer);
      }
    }
  }
}
