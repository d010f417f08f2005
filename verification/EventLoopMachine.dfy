/** The event loop as the program has it: an object whose maps the arms of the loop update in place. */
module EventLoopMachine {
  import opened EventLoop
  import opened EncryptedSignatures

  /** What every step keeps. The counter is as in EventLoop.StepAt. */
  ghost predicate IsSafeAt(s: State, k: nat)
    decreases s, k
  {
    if k > 0 then IsSafeAt(s, k - 1)
    else AnswersAreExact(s) && BuffersAreForAbsentPeers(s) && SignaturesAreRouted(s) && AnswersToSenders(s)
  }

  ghost predicate IsSafe(s: State) {
    IsSafeAt(s, 3)
  }

  lemma SafetyIs(s: State)
    ensures IsSafe(s)
       <==> AnswersAreExact(s) && BuffersAreForAbsentPeers(s) && SignaturesAreRouted(s) && AnswersToSenders(s)
  {
    assert IsSafeAt(s, 1) == IsSafeAt(s, 0);
    assert IsSafeAt(s, 2) == IsSafeAt(s, 1);
  }

  lemma StepIsSafe(s: State, e: Event)
    requires IsSafe(s)
    ensures IsSafe(Step(s, e)) && Step(s, e) == Arm(s, e)
  {
    SafetyIs(s);
    SafetyIs(Step(s, e));
    StepIs(s, e);
    StepKeepsAnswers(s, e);
    StepKeepsBuffers(s, e);
    StepIsRouted(s, e);
    StepKeepsSenders(s, e);
  }

  class EventLoopObject {
    var peers: map<SwapId, PeerId>
    var connected: set<PeerId>
    var handles: seq<Handle>
    var bufferedTransferProofs: map<PeerId, seq<Outgoing>>
    var inflightTransferProofs: map<RequestId, Responder>
    var sent: seq<Sent>
    var answered: seq<Answer>
    var recvEncryptedSignature: map<SwapId, nat>
    var forwarded: seq<Forward>
    var pending: set<nat>
    var confirmed: set<nat>
    var abandoned: set<nat>
    var inflightEncryptedSignatures: set<nat>
    var acknowledged: seq<nat>

    constructor (peers: map<SwapId, PeerId>)
      ensures Value() == Initial(peers) && Valid()
    {
      this.peers, connected, handles := peers, {}, [];
      bufferedTransferProofs, inflightTransferProofs, sent, answered := map[], map[], [], [];
      recvEncryptedSignature, forwarded, pending, confirmed, abandoned := map[], [], {}, {}, {};
      inflightEncryptedSignatures, acknowledged := {}, [];
      new;
      SafetyIs(Initial(peers));
    }

    ghost predicate Valid()
      reads this
    {
      IsSafe(Value())
    }

    function Value(): State
      reads this
    {
      State(peers, connected, handles, bufferedTransferProofs, inflightTransferProofs, sent, answered,
            recvEncryptedSignature, forwarded, pending, confirmed, abandoned, inflightEncryptedSignatures, acknowledged)
    }

    method NewHandle(peer: PeerId, swapId: SwapId, alive: bool)
      modifies this
      ensures Value() == EventLoop.NewHandle(old(Value()), peer, swapId, alive)
    {
      recvEncryptedSignature := recvEncryptedSignature[swapId := |handles|];
      handles := handles + [Handle(peer, swapId, alive, alive, Idle)];
    }

    /** A request of the swarm, which numbers its requests. */
    method SendRequest(peer: PeerId, outgoing: Outgoing) returns (id: RequestId)
      modifies this`sent
      ensures id == |old(sent)| && sent == old(sent) + [Sent(peer, outgoing)]
    {
      id := |sent|;
      sent := sent + [Sent(peer, outgoing)];
    }

    /** The handle is made before the database is asked. */
    method HandleExecutionSetupDone(peer: PeerId, swapId: SwapId, stored: bool, started: bool)
      requires Valid()
      modifies this
      ensures Valid() && Value() == Step(old(Value()), SetupCompleted(peer, swapId, stored, started))
    {
      StepIsSafe(Value(), SetupCompleted(peer, swapId, stored, started));
      var recorded := stored && swapId !in peers;
      NewHandle(peer, swapId, recorded && started);
      if recorded {
        peers := peers[swapId := peer];
      }
    }

    method Resume(swapId: SwapId, started: bool)
      requires Valid()
      modifies this
      ensures Valid() && Value() == Step(old(Value()), Resumed(swapId, started))
    {
      StepIsSafe(Value(), Resumed(swapId, started));
      if swapId in peers {
        NewHandle(peers[swapId], swapId, started);
      }
    }

    /** The swap drops its receiver, and with it a signature that lies in the channel. */
    method Drop(handle: nat)
      modifies this
      ensures Value() == DropReceiver(old(Value()), handle)
    {
      if handle < |handles| {
        var dropped := set f | f in pending && f < |forwarded| && forwarded[f].handle == handle;
        assert dropped == PendingFor(Value(), handle);
        handles := handles[handle := handles[handle].(waiting := false)];
        pending, abandoned := pending - dropped, abandoned + dropped;
      }
    }

    method Stop(handle: nat)
      requires Valid()
      modifies this
      ensures Valid() && Value() == Step(old(Value()), SwapStopped(handle))
    {
      StepIsSafe(Value(), SwapStopped(handle));
      if handle < |handles| {
        handles := handles[handle := handles[handle].(alive := false)];
        Drop(handle);
      }
    }

    method AbandonWait(handle: nat)
      requires Valid()
      modifies this
      ensures Valid() && Value() == Step(old(Value()), WaitAbandoned(handle))
    {
      StepIsSafe(Value(), WaitAbandoned(handle));
      Drop(handle);
    }

    /** Sends what was buffered for the peer, in the order in which it was buffered. */
    method OnConnectionEstablished(peer: PeerId)
      requires Valid()
      modifies this
      ensures Valid() && Value() == Step(old(Value()), ConnectionEstablished(peer))
    {
      StepIsSafe(Value(), ConnectionEstablished(peer));
      connected := connected + {peer};
      if peer in bufferedTransferProofs {
        var transferProofs := bufferedTransferProofs[peer];
        bufferedTransferProofs := bufferedTransferProofs - {peer};
        SendBuffered(peer, transferProofs);
      } else {
        assert bufferedTransferProofs - {peer} == bufferedTransferProofs;
      }
    }

    method SendBuffered(peer: PeerId, transferProofs: seq<Outgoing>)
      modifies this
      ensures Value() == SendAll(old(Value()), peer, transferProofs, |transferProofs|)
    {
      for i := 0 to |transferProofs|
        invariant Value() == SendAll(old(Value()), peer, transferProofs, i)
      {
        var id := SendRequest(peer, transferProofs[i]);
        inflightTransferProofs := inflightTransferProofs[id := transferProofs[i].responder];
      }
    }

    method OnConnectionClosed(peer: PeerId, numEstablished: nat)
      requires Valid()
      modifies this
      ensures Valid() && Value() == Step(old(Value()), ConnectionClosed(peer, numEstablished))
    {
      StepIsSafe(Value(), ConnectionClosed(peer, numEstablished));
      if numEstablished == 0 {
        connected := connected - {peer};
      }
    }

    /** A swap puts its proof into the channel. */
    method GiveProof(handle: nat, proof: Proof, responder: Responder)
      requires Valid()
      modifies this
      ensures Valid() && Value() == Step(old(Value()), ProofGiven(handle, proof, responder))
    {
      StepIsSafe(Value(), ProofGiven(handle, proof, responder));
      if handle < |handles| && handles[handle].alive && handles[handle].offer.Idle? {
        handles := handles[handle := handles[handle].(offer := Offered(proof, responder))];
      }
    }

    /** The next transfer proof of a swap is sent, or buffered while its peer is not connected. */
    method OnTransferProof(handle: nat)
      requires Valid()
      modifies this
      ensures Valid() && Value() == Step(old(Value()), ProofReady(handle))
    {
      StepIsSafe(Value(), ProofReady(handle));
      if !(handle < |handles| && handles[handle].offer.Offered?) {
        return;
      }
      var peer, swapId, offer := handles[handle].peer, handles[handle].swapId, handles[handle].offer;
      var outgoing := Outgoing(Request(swapId, offer.proof), offer.responder);
      handles := handles[handle := handles[handle].(offer := Taken)];
      if peer !in connected {
        var waiting := if peer in bufferedTransferProofs then bufferedTransferProofs[peer] else [];
        bufferedTransferProofs := bufferedTransferProofs[peer := waiting + [outgoing]];
        return;
      }
      var id := SendRequest(peer, outgoing);
      inflightTransferProofs := inflightTransferProofs[id := offer.responder];
    }

    method OnTransferProofAcknowledged(peer: PeerId, id: RequestId)
      requires Valid()
      modifies this
      ensures Valid() && Value() == Step(old(Value()), ProofAcknowledged(peer, id))
    {
      StepIsSafe(Value(), ProofAcknowledged(peer, id));
      if id in inflightTransferProofs {
        var responder := inflightTransferProofs[id];
        inflightTransferProofs := inflightTransferProofs - {id};
        answered := answered + [Answer(id, responder)];
      }
    }

    /** Relays a signature to its swap, if it comes from the peer of the swap and the swap still waits for one. */
    method OnEncryptedSignature(swapId: SwapId, signature: Signature, channel: Channel, peer: PeerId)
      requires Valid()
      modifies this
      ensures Valid() && Value() == Step(old(Value()), SignatureReceived(swapId, signature, channel, peer))
    {
      StepIsSafe(Value(), SignatureReceived(swapId, signature, channel, peer));
      if swapId !in peers {
        return;
      }
      if peers[swapId] != peer {
        return;
      }
      if swapId !in recvEncryptedSignature {
        return;
      }
      var handle := recvEncryptedSignature[swapId];
      recvEncryptedSignature := recvEncryptedSignature - {swapId};
      if handle >= |handles| || !handles[handle].waiting {
        return;
      }
      pending := pending + {|forwarded|};
      inflightEncryptedSignatures := inflightEncryptedSignatures + {|forwarded|};
      forwarded := forwarded + [Forward(handle, swapId, signature, channel, peer)];
    }

    /** The swap receives a signature and confirms it. */
    method Confirm(forward: nat)
      requires Valid()
      modifies this
      ensures Valid() && Value() == Step(old(Value()), SignatureConfirmed(forward))
    {
      StepIsSafe(Value(), SignatureConfirmed(forward));
      if forward in pending && forward < |forwarded| && forwarded[forward].handle < |handles| {
        var handle := forwarded[forward].handle;
        handles := handles[handle := handles[handle].(waiting := false)];
        pending, confirmed := pending - {forward}, confirmed + {forward};
      }
    }

    /** The sender of a signature is answered, whether the swap confirmed the signature or dropped it. */
    method AnswerSender(forward: nat)
      requires Valid()
      modifies this
      ensures Valid() && Value() == Step(old(Value()), SenderAnswered(forward))
    {
      StepIsSafe(Value(), SenderAnswered(forward));
      if forward in inflightEncryptedSignatures && forward !in pending {
        inflightEncryptedSignatures := inflightEncryptedSignatures - {forward};
        acknowledged := acknowledged + [forward];
      }
    }

    /** The loop: one arm for each event. */
    method Loop(events: seq<Event>)
      requires Valid()
      modifies this
      ensures Valid() && Value() == Run(old(Value()), events, |events|)
    {
      for i := 0 to |events|
        invariant Valid() && Value() == Run(old(Value()), events, i)
      {
        Dispatch(events[i]);
      }
    }

    method Dispatch(event: Event)
      requires Valid()
      modifies this
      ensures Valid() && Value() == Step(old(Value()), event)
    {
      match event
      case SetupCompleted(peer, swapId, stored, started) => HandleExecutionSetupDone(peer, swapId, stored, started);
      case Resumed(swapId, started) => Resume(swapId, started);
      case SwapStopped(handle) => Stop(handle);
      case ConnectionEstablished(peer) => OnConnectionEstablished(peer);
      case ConnectionClosed(peer, numEstablished) => OnConnectionClosed(peer, numEstablished);
      case ProofGiven(handle, proof, responder) => GiveProof(handle, proof, responder);
      case ProofReady(handle) => OnTransferProof(handle);
      case ProofAcknowledged(peer, id) => OnTransferProofAcknowledged(peer, id);
      case SignatureReceived(swapId, signature, channel, peer) =>
        OnEncryptedSignature(swapId, signature, channel, peer);
      case SignatureConfirmed(forward) => Confirm(forward);
      case WaitAbandoned(handle) => AbandonWait(handle);
      case SenderAnswered(forward) => AnswerSender(forward);
    }
  }
}
