/** The state of the event loop after a run, in terms of the events of the run. */
module EventLoopTraces {
  import opened EventLoop
  import opened EventLoopRuns
  import opened EncryptedSignatures

  lemma FlushFrame(s: State, peer: PeerId)
    ensures var t := Arm(s, ConnectionEstablished(peer));
            t == s.(connected := s.connected + {peer}, buffered := s.buffered - {peer}, sent := t.sent,
                    inflight := t.inflight)
  {
    var t := s.(connected := s.connected + {peer}, buffered := s.buffered - {peer});
    SendAllFrame(t, peer, Buffered(s, peer), |Buffered(s, peer)|);
  }

  // Connections.

  /** A connection was established at k, and the last one was not closed until n. */
  predicate StaysConnected(events: seq<Event>, k: nat, n: nat, peer: PeerId)
    requires k < n <= |events|
  {
    events[k] == ConnectionEstablished(peer) && forall j :: k < j < n ==> events[j] != ConnectionClosed(peer, 0)
  }

  /** A connection was established and its last one was not closed since; the counter is as in EventLoop.StepAt. */
  ghost predicate WasConnectedAt(events: seq<Event>, n: nat, peer: PeerId, c: nat)
    requires n <= |events|
    decreases events, n, peer, c
  {
    if c > 0 then WasConnectedAt(events, n, peer, c - 1)
    else exists k :: 0 <= k < n && StaysConnected(events, k, n, peer)
  }

  ghost predicate WasConnected(events: seq<Event>, n: nat, peer: PeerId)
    requires n <= |events|
  {
    WasConnectedAt(events, n, peer, 3)
  }

  lemma WasConnectedIs(events: seq<Event>, n: nat, peer: PeerId)
    requires n <= |events|
    ensures WasConnected(events, n, peer)
       <==> exists k :: 0 <= k < n && StaysConnected(events, k, n, peer)
  {
    assert WasConnectedAt(events, n, peer, 1) == WasConnectedAt(events, n, peer, 0);
    assert WasConnectedAt(events, n, peer, 2) == WasConnectedAt(events, n, peer, 1);
  }

  lemma NextConnected(events: seq<Event>, n: nat, peer: PeerId)
    requires n < |events|
    ensures WasConnected(events, n + 1, peer)
       <==> || events[n] == ConnectionEstablished(peer)
            || (WasConnected(events, n, peer) && events[n] != ConnectionClosed(peer, 0))
  {
    WasConnectedIs(events, n, peer);
    WasConnectedIs(events, n + 1, peer);
    if WasConnected(events, n, peer) && events[n] != ConnectionClosed(peer, 0) {
      var k :| 0 <= k < n && StaysConnected(events, k, n, peer);
      assert StaysConnected(events, k, n + 1, peer);
    }
    if events[n] == ConnectionEstablished(peer) {
      assert StaysConnected(events, n, n + 1, peer);
    }
    var next := n + 1;
    if k :| 0 <= k < n && StaysConnected(events, k, next, peer) {
      assert StaysConnected(events, k, n, peer);
    }
  }

  lemma StepConnects(s: State, e: Event, peer: PeerId)
    ensures peer in Step(s, e).connected
       <==> e == ConnectionEstablished(peer) || (peer in s.connected && e != ConnectionClosed(peer, 0))
  {
    StepIs(s, e);
    if e.ConnectionEstablished? {
      FlushFrame(s, e.peer);
    }
  }

  /** A peer counts as connected exactly if a connection was established and its last one was not closed since. */
  lemma {:induction false} ConnectedIff(peers: map<SwapId, PeerId>, events: seq<Event>, n: nat, peer: PeerId)
    requires n <= |events|
    ensures peer in Run(Initial(peers), events, n).connected <==> WasConnected(events, n, peer)
  {
    if n > 0 {
      ConnectedIff(peers, events, n - 1, peer);
      StepConnects(Run(Initial(peers), events, n - 1), events[n - 1], peer);
      NextConnected(events, n - 1, peer);
    } else {
      WasConnectedIs(events, 0, peer);
    }
  }

  // The sending of proofs.

  /** A proof that is taken is sent at once exactly if its peer is connected, and otherwise buffered. */
  lemma TakenIsSentIff(s: State, e: Event)
    requires e.ProofReady? && CanTakeProof(s, e.handle)
    ensures var s', h := Step(s, e), s.handles[e.handle];
            var o := Outgoing(Request(h.swapId, h.offer.proof), h.offer.responder);
            && s'.sent == (if h.peer in s.connected then s.sent + [Sent(h.peer, o)] else s.sent)
            && s'.buffered == (if h.peer in s.connected then s.buffered
                               else s.buffered[h.peer := Buffered(s, h.peer) + [o]])
  {
    StepIs(s, e);
  }

  /** The last moment up to n at which the peer was connected, or the start. */
  ghost predicate IsLastConnected(events: seq<Event>, m: nat, n: nat, peer: PeerId)
    requires m <= n <= |events|
  {
    (m == 0 || WasConnected(events, m, peer)) && forall k :: m < k <= n ==> !WasConnected(events, k, peer)
  }

  lemma {:induction false} LastConnected(events: seq<Event>, n: nat, peer: PeerId) returns (m: nat)
    requires n <= |events|
    ensures m <= n && IsLastConnected(events, m, n, peer)
  {
    if n == 0 || WasConnected(events, n, peer) {
      m := n;
    } else {
      m := LastConnected(events, n - 1, peer);
    }
  }

  lemma NotSentWhileAbsent(s: State, e: Event, peer: PeerId)
    requires peer !in Step(s, e).connected
    ensures SentTo(Step(s, e).sent, peer) == SentTo(s.sent, peer)
  {
    StepIs(s, e);
    match e
    case ConnectionEstablished(p) =>
      var t := s.(connected := s.connected + {p}, buffered := s.buffered - {p});
      FlushFrame(s, p);
      SendAllSends(t, p, Buffered(s, p), |Buffered(s, p)|, peer);
    case ProofReady(handle) =>
      if CanTakeProof(s, handle) {
        TakenIsSentIff(s, e);
        var h := s.handles[handle];
        if h.peer in s.connected {
          SentToAppend(s.sent, Sent(h.peer, Outgoing(Request(h.swapId, h.offer.proof), h.offer.responder)), peer);
        }
      }
    case ProofAcknowledged(_, _) =>
    case _ =>
      QuietStep(s, e);
  }

  lemma NothingWaits(peers: map<SwapId, PeerId>, events: seq<Event>, n: nat, peer: PeerId)
    requires n <= |events| && (n == 0 || peer in Run(Initial(peers), events, n).connected)
    ensures SentTo(Run(Initial(peers), events, n).sent, peer) == Submitted(Initial(peers), events, n, peer)
  {
    var s := Run(Initial(peers), events, n);
    ProofsAreConserved(peers, events, n);
    assert Buffered(s, peer) == [];
    assert History(s, peer) == SentTo(s.sent, peer);
  }

  lemma NothingSent(peers: map<SwapId, PeerId>, events: seq<Event>, n: nat, peer: PeerId)
    requires 0 < n <= |events| && !WasConnected(events, n, peer)
    ensures SentTo(Run(Initial(peers), events, n).sent, peer) == SentTo(Run(Initial(peers), events, n - 1).sent, peer)
  {
    ConnectedIff(peers, events, n, peer);
    NotSentWhileAbsent(Run(Initial(peers), events, n - 1), events[n - 1], peer);
  }

  /**
    In every run, what was sent to a peer is exactly what the swaps had submitted for it when it was last
    connected, in that order: nothing is sent to an absent peer, and nothing waits for a connected one.
  */
  lemma {:induction false} SentIsSubmittedWhileConnected(peers: map<SwapId, PeerId>, events: seq<Event>, m: nat, n: nat,
                                                         peer: PeerId)
    requires m <= n <= |events| && IsLastConnected(events, m, n, peer)
    ensures SentTo(Run(Initial(peers), events, n).sent, peer) == Submitted(Initial(peers), events, m, peer)
  {
    if m == n {
      ConnectedIff(peers, events, n, peer);
      NothingWaits(peers, events, n, peer);
    } else {
      SentIsSubmittedWhileConnected(peers, events, m, n - 1, peer);
      NothingSent(peers, events, n, peer);
    }
  }

  /** The request with the number id was acknowledged after it had been sent. */
  ghost predicate WasAcknowledged(peers: map<SwapId, PeerId>, events: seq<Event>, n: nat, id: RequestId)
    requires n <= |events|
  {
    exists k :: 0 <= k < n && events[k].ProofAcknowledged? && events[k].id == id
      && id < |Run(Initial(peers), events, k).sent|
  }

  lemma NewAnswer(s: State, e: Event, id: RequestId)
    ensures IsAnswered(Step(s, e), id)
       <==> IsAnswered(s, id) || (e.ProofAcknowledged? && e.id == id && id in s.inflight)
  {
    var s' := Step(s, e);
    StepAnswers(s, e);
    if IsAnswered(s, id) {
      var i :| 0 <= i < |s.answered| && s.answered[i].id == id;
      assert s'.answered[i].id == id;
    }
    if e.ProofAcknowledged? && e.id == id && id in s.inflight {
      assert s'.answered[|s.answered|].id == id;
    }
  }

  /** In every run, a responder is answered exactly when its request was acknowledged after it had been sent. */
  lemma {:induction false} AnsweredIff(peers: map<SwapId, PeerId>, events: seq<Event>, n: nat, id: RequestId)
    requires n <= |events|
    ensures IsAnswered(Run(Initial(peers), events, n), id) <==> WasAcknowledged(peers, events, n, id)
  {
    if n > 0 {
      var s, e := Run(Initial(peers), events, n - 1), events[n - 1];
      AnsweredIff(peers, events, n - 1, id);
      ProofsAreConserved(peers, events, n - 1);
      NewAnswer(s, e, id);
      if WasAcknowledged(peers, events, n - 1, id) {
        var k :| 0 <= k < n - 1 && events[k].ProofAcknowledged? && events[k].id == id
          && id < |Run(Initial(peers), events, k).sent|;
        assert WasAcknowledged(peers, events, n, id);
      }
      if id in s.inflight && e.ProofAcknowledged? && e.id == id {
        assert WasAcknowledged(peers, events, n, id);
      }
    }
  }

  // The records of the swaps.

  /** The swap is set up with the peer, and the database does not fail. */
  predicate Records(e: Event, swapId: SwapId) {
    e.SetupCompleted? && e.swapId == swapId && e.stored
  }

  ghost predicate IsFirstRecord(events: seq<Event>, k: nat, swapId: SwapId)
    requires k < |events|
  {
    Records(events[k], swapId) && forall j :: 0 <= j < k ==> !Records(events[j], swapId)
  }

  ghost predicate HasRecord(events: seq<Event>, n: nat, swapId: SwapId)
    requires n <= |events|
  {
    exists k :: 0 <= k < n && IsFirstRecord(events, k, swapId)
  }

  lemma StepRecords(s: State, e: Event, swapId: SwapId)
    ensures var s' := Step(s, e);
            && (swapId in s'.peers <==> swapId in s.peers || Records(e, swapId))
            && (swapId in s'.peers ==> s'.peers[swapId] == if swapId in s.peers then s.peers[swapId] else e.peer)
  {
    if ChangesRouting(e) {
      StepIs(s, e);
    } else {
      SparedRouting(s, e);
    }
  }

  /** If there is no first record there is none. */
  lemma {:induction false} NoRecord(events: seq<Event>, n: nat, swapId: SwapId)
    requires n <= |events| && forall k :: 0 <= k < n ==> !IsFirstRecord(events, k, swapId)
    ensures forall k :: 0 <= k < n ==> !Records(events[k], swapId)
  {
    if n > 0 {
      NoRecord(events, n - 1, swapId);
      assert !IsFirstRecord(events, n - 1, swapId);
    }
  }

  /** In every run, the peer on record for a swap is the one of the database, or that of the first recorded setup. */
  lemma {:induction false} RecordedIff(peers: map<SwapId, PeerId>, events: seq<Event>, n: nat, swapId: SwapId)
    requires n <= |events|
    ensures var s := Run(Initial(peers), events, n);
            && (swapId in s.peers <==> swapId in peers || HasRecord(events, n, swapId))
            && (swapId in peers ==> s.peers[swapId] == peers[swapId])
            && (swapId !in peers ==> forall k :: 0 <= k < n && IsFirstRecord(events, k, swapId) ==>
                  swapId in s.peers && s.peers[swapId] == events[k].peer)
  {
    if n > 0 {
      var s, e := Run(Initial(peers), events, n - 1), events[n - 1];
      RecordedIff(peers, events, n - 1, swapId);
      StepRecords(s, e, swapId);
      if Records(e, swapId) && swapId !in s.peers {
        NoRecord(events, n - 1, swapId);
        assert IsFirstRecord(events, n - 1, swapId);
      }
    }
  }

  // The handles.

  /** A swap is started with a new handle. */
  predicate Starts(s: State, e: Event) {
    || (e.SetupCompleted? && e.stored && e.started && e.swapId !in s.peers)
    || (e.Resumed? && e.started && e.swapId in s.peers)
  }

  /** The event made the handle h and started its swap. */
  predicate StartsHandle(peers: map<SwapId, PeerId>, events: seq<Event>, c: nat, h: nat)
    requires c < |events|
  {
    var s := Run(Initial(peers), events, c);
    |s.handles| == h && Starts(s, events[c])
  }

  /** The event in which a handle was made, for the peer and the swap of the event. */
  lemma {:induction false} MakingEvent(peers: map<SwapId, PeerId>, events: seq<Event>, n: nat, h: nat)
    returns (c: nat)
    requires n <= |events| && h < |Run(Initial(peers), events, n).handles|
    ensures c < n && |Run(Initial(peers), events, c).handles| == h
    ensures var s, e, handle :=
                Run(Initial(peers), events, c), events[c], Run(Initial(peers), events, n).handles[h];
            if e.SetupCompleted? then handle.peer == e.peer && handle.swapId == e.swapId
            else e.Resumed? && handle.swapId == e.swapId && e.swapId in s.peers && handle.peer == s.peers[e.swapId]
  {
    var s := Run(Initial(peers), events, n - 1);
    StepHandles(s, events[n - 1]);
    if h < |s.handles| {
      c := MakingEvent(peers, events, n - 1, h);
    } else {
      c := n - 1;
    }
  }

  lemma HandlesGrow(peers: map<SwapId, PeerId>, events: seq<Event>, m: nat, n: nat)
    requires m <= n <= |events|
    ensures |Run(Initial(peers), events, m).handles| <= |Run(Initial(peers), events, n).handles|
  {
    var h := |Run(Initial(peers), events, m).handles|;
    if h > 0 {
      RunKeepsHandles(Initial(peers), events, m, n, h - 1);
    }
  }

  lemma StartedHasHandle(peers: map<SwapId, PeerId>, events: seq<Event>, c: nat, n: nat, h: nat)
    requires c < n <= |events| && StartsHandle(peers, events, c, h)
    ensures h < |Run(Initial(peers), events, n).handles|
  {
    StepHandles(Run(Initial(peers), events, c), events[c]);
    HandlesGrow(peers, events, c + 1, n);
  }

  /** The swap was started with the handle at c, and has not stopped until n. */
  predicate RunsSince(peers: map<SwapId, PeerId>, events: seq<Event>, c: nat, n: nat, h: nat)
    requires c < n <= |events|
  {
    StartsHandle(peers, events, c, h) && forall k :: c < k < n ==> events[k] != SwapStopped(h)
  }

  ghost predicate IsRunning(peers: map<SwapId, PeerId>, events: seq<Event>, n: nat, h: nat)
    requires n <= |events|
  {
    exists c :: 0 <= c < n && RunsSince(peers, events, c, n, h)
  }

  lemma NextRunning(peers: map<SwapId, PeerId>, events: seq<Event>, n: nat, h: nat)
    requires n < |events|
    ensures IsRunning(peers, events, n + 1, h)
       <==> StartsHandle(peers, events, n, h) || (IsRunning(peers, events, n, h) && events[n] != SwapStopped(h))
  {
    if IsRunning(peers, events, n, h) && events[n] != SwapStopped(h) {
      var c :| 0 <= c < n && RunsSince(peers, events, c, n, h);
      assert RunsSince(peers, events, c, n + 1, h);
    }
    if StartsHandle(peers, events, n, h) {
      assert RunsSince(peers, events, n, n + 1, h);
    }
    var next := n + 1;
    if c :| 0 <= c < n && RunsSince(peers, events, c, next, h) {
      assert RunsSince(peers, events, c, n, h);
    }
  }

  lemma StepAlive(s: State, e: Event, h: nat)
    requires h < |Step(s, e).handles|
    ensures Step(s, e).handles[h].alive
       <==> if h < |s.handles| then s.handles[h].alive && e != SwapStopped(h) else Starts(s, e)
    ensures h >= |s.handles| ==> h == |s.handles|
  {
    StepHandles(s, e);
  }

  /** A swap holds its handle exactly if it was started with it and has not stopped since. */
  lemma {:induction false} AliveIff(peers: map<SwapId, PeerId>, events: seq<Event>, n: nat, h: nat)
    requires n <= |events| && h < |Run(Initial(peers), events, n).handles|
    ensures Run(Initial(peers), events, n).handles[h].alive <==> IsRunning(peers, events, n, h)
  {
    var s, e := Run(Initial(peers), events, n - 1), events[n - 1];
    StepAlive(s, e, h);
    NextRunning(peers, events, n - 1, h);
    if h < |s.handles| {
      AliveIff(peers, events, n - 1, h);
    } else if IsRunning(peers, events, n - 1, h) {
      var c :| 0 <= c < n - 1 && RunsSince(peers, events, c, n - 1, h);
      StartedHasHandle(peers, events, c, n - 1, h);
    }
  }

  /** The swap drops the receiver of its handle, or uses it up. */
  predicate UsesReceiver(s: State, e: Event, h: nat) {
    || DropsReceiver(e, h)
    || (e.SignatureConfirmed? && e.forward in s.pending && e.forward < |s.forwarded|
          && s.forwarded[e.forward].handle == h)
  }

  predicate UsesAt(peers: map<SwapId, PeerId>, events: seq<Event>, k: nat, h: nat)
    requires k < |events|
  {
    UsesReceiver(Run(Initial(peers), events, k), events[k], h)
  }

  /** The swap was started with the handle at c, and has not used or dropped its receiver until n. */
  predicate WaitsSince(peers: map<SwapId, PeerId>, events: seq<Event>, c: nat, n: nat, h: nat)
    requires c < n <= |events|
  {
    StartsHandle(peers, events, c, h) && forall k :: c < k < n ==> !UsesAt(peers, events, k, h)
  }

  ghost predicate IsWaitingHandle(peers: map<SwapId, PeerId>, events: seq<Event>, n: nat, h: nat)
    requires n <= |events|
  {
    exists c :: 0 <= c < n && WaitsSince(peers, events, c, n, h)
  }

  lemma NextWaiting(peers: map<SwapId, PeerId>, events: seq<Event>, n: nat, h: nat)
    requires n < |events|
    ensures IsWaitingHandle(peers, events, n + 1, h)
       <==> || StartsHandle(peers, events, n, h)
            || (IsWaitingHandle(peers, events, n, h) && !UsesAt(peers, events, n, h))
  {
    if IsWaitingHandle(peers, events, n, h) && !UsesAt(peers, events, n, h) {
      var c :| 0 <= c < n && WaitsSince(peers, events, c, n, h);
      assert WaitsSince(peers, events, c, n + 1, h);
    }
    if StartsHandle(peers, events, n, h) {
      assert WaitsSince(peers, events, n, n + 1, h);
    }
    var next := n + 1;
    if c :| 0 <= c < n && WaitsSince(peers, events, c, next, h) {
      assert WaitsSince(peers, events, c, n, h);
    }
  }

  lemma StepWaits(s: State, e: Event, h: nat)
    requires h < |Step(s, e).handles|
    ensures Step(s, e).handles[h].waiting
       <==> if h < |s.handles| then s.handles[h].waiting && !UsesReceiver(s, e, h) else Starts(s, e)
    ensures h >= |s.handles| ==> h == |s.handles|
  {
    StepHandles(s, e);
  }

  /** A swap still waits for its signature exactly if it was started and has not used or dropped the receiver since. */
  lemma {:induction false} WaitingIff(peers: map<SwapId, PeerId>, events: seq<Event>, n: nat, h: nat)
    requires n <= |events| && h < |Run(Initial(peers), events, n).handles|
    ensures Run(Initial(peers), events, n).handles[h].waiting <==> IsWaitingHandle(peers, events, n, h)
  {
    var s, e := Run(Initial(peers), events, n - 1), events[n - 1];
    StepWaits(s, e, h);
    NextWaiting(peers, events, n - 1, h);
    assert UsesAt(peers, events, n - 1, h) == UsesReceiver(s, e, h);
    if h < |s.handles| {
      WaitingIff(peers, events, n - 1, h);
    } else if IsWaitingHandle(peers, events, n - 1, h) {
      var c :| 0 <= c < n - 1 && WaitsSince(peers, events, c, n - 1, h);
      StartedHasHandle(peers, events, c, n - 1, h);
    }
  }

  // The channels for proofs.

  predicate Gives(s: State, e: Event, h: nat) {
    e.ProofGiven? && e.handle == h && h < |s.handles| && s.handles[h].alive
  }

  /** The event is the first in which the swap gives a proof while it holds its handle. */
  ghost predicate IsFirstGiven(peers: map<SwapId, PeerId>, events: seq<Event>, g: nat, h: nat)
    requires g < |events|
  {
    && Gives(Run(Initial(peers), events, g), events[g], h)
    && forall j :: 0 <= j < g ==> !Gives(Run(Initial(peers), events, j), events[j], h)
  }

  lemma StepOffers(s: State, e: Event, h: nat)
    requires h < |Step(s, e).handles|
    ensures Step(s, e).handles[h].offer ==
            if h >= |s.handles| then Idle
            else if Gives(s, e, h) && s.handles[h].offer.Idle? then Offered(e.proof, e.responder)
            else if e == ProofReady(h) && s.handles[h].offer.Offered? then Taken
            else s.handles[h].offer
  {
    StepHandles(s, e);
  }

  ghost predicate WasGiven(peers: map<SwapId, PeerId>, events: seq<Event>, n: nat, h: nat)
    requires n <= |events|
  {
    exists g :: 0 <= g < n && IsFirstGiven(peers, events, g, h)
  }

  ghost predicate WasTaken(peers: map<SwapId, PeerId>, events: seq<Event>, n: nat, h: nat)
    requires n <= |events|
  {
    exists t :: 0 <= t < n && events[t] == ProofReady(h) && WasGiven(peers, events, t, h)
  }

  /** The first proof that was given, and its responder. */
  ghost predicate WasOffered(peers: map<SwapId, PeerId>, events: seq<Event>, n: nat, h: nat, proof: Proof,
                             responder: Responder)
    requires n <= |events|
  {
    exists g :: 0 <= g < n && IsFirstGiven(peers, events, g, h) && events[g] == ProofGiven(h, proof, responder)
  }

  lemma {:induction false} NoneGiven(peers: map<SwapId, PeerId>, events: seq<Event>, n: nat, h: nat)
    requires n <= |events| && !WasGiven(peers, events, n, h)
    ensures forall j :: 0 <= j < n ==> !Gives(Run(Initial(peers), events, j), events[j], h)
  {
    if n > 0 {
      NoneGiven(peers, events, n - 1, h);
      assert !IsFirstGiven(peers, events, n - 1, h);
    }
  }

  lemma NextGiven(peers: map<SwapId, PeerId>, events: seq<Event>, n: nat, h: nat)
    requires n < |events|
    ensures WasGiven(peers, events, n + 1, h)
       <==> WasGiven(peers, events, n, h) || Gives(Run(Initial(peers), events, n), events[n], h)
  {
    if Gives(Run(Initial(peers), events, n), events[n], h) && !WasGiven(peers, events, n, h) {
      NoneGiven(peers, events, n, h);
      assert IsFirstGiven(peers, events, n, h);
    }
  }

  lemma NextTaken(peers: map<SwapId, PeerId>, events: seq<Event>, n: nat, h: nat)
    requires n < |events|
    ensures WasTaken(peers, events, n + 1, h)
       <==> WasTaken(peers, events, n, h) || (events[n] == ProofReady(h) && WasGiven(peers, events, n, h))
  {}

  lemma NothingGiven(peers: map<SwapId, PeerId>, events: seq<Event>, n: nat, h: nat)
    requires n <= |events| && h >= |Run(Initial(peers), events, n).handles|
    ensures !WasGiven(peers, events, n, h) && !WasTaken(peers, events, n, h)
  {
    forall j | 0 <= j < n
      ensures !Gives(Run(Initial(peers), events, j), events[j], h)
    {
      HandlesGrow(peers, events, j, n);
    }
  }

  /** What the channel of a handle holds, in terms of the events. */
  ghost predicate OfferFits(peers: map<SwapId, PeerId>, events: seq<Event>, n: nat, h: nat, offer: Offer)
    requires n <= |events|
  {
    match offer
    case Idle => !WasGiven(peers, events, n, h)
    case Offered(proof, responder) => WasOffered(peers, events, n, h, proof, responder)
        && !WasTaken(peers, events, n, h)
    case Taken => WasTaken(peers, events, n, h)
  }

  lemma TakenWasGiven(peers: map<SwapId, PeerId>, events: seq<Event>, n: nat, h: nat)
    requires n <= |events| && WasTaken(peers, events, n, h)
    ensures WasGiven(peers, events, n, h)
  {
    var t :| 0 <= t < n && events[t] == ProofReady(h) && WasGiven(peers, events, t, h);
    var g :| 0 <= g < t && IsFirstGiven(peers, events, g, h);
  }

  lemma NextOffer(peers: map<SwapId, PeerId>, events: seq<Event>, n: nat, h: nat)
    requires n < |events| && h < |Run(Initial(peers), events, n).handles|
    requires OfferFits(peers, events, n, h, Run(Initial(peers), events, n).handles[h].offer)
    ensures h < |Run(Initial(peers), events, n + 1).handles|
    ensures OfferFits(peers, events, n + 1, h, Run(Initial(peers), events, n + 1).handles[h].offer)
  {
    var s, e := Run(Initial(peers), events, n), events[n];
    StepHandles(s, e);
    StepOffers(s, e, h);
    NextGiven(peers, events, n, h);
    NextTaken(peers, events, n, h);
    match s.handles[h].offer
    case Idle =>
      if Gives(s, e, h) {
        NoneGiven(peers, events, n, h);
        assert IsFirstGiven(peers, events, n, h);
        assert WasOffered(peers, events, n + 1, h, e.proof, e.responder);
        if WasTaken(peers, events, n, h) {
          TakenWasGiven(peers, events, n, h);
        }
      }
    case Offered(proof, responder) =>
      var g :| 0 <= g < n && IsFirstGiven(peers, events, g, h) && events[g] == ProofGiven(h, proof, responder);
      assert WasOffered(peers, events, n + 1, h, proof, responder);
    case Taken =>
  }

  /**
    In every run, the channel of a handle is empty until its swap gives a proof while it holds the handle, then
    holds the proof that was given first, and that is taken exactly if the loop was ready for it since.
  */
  lemma {:induction false} OfferIff(peers: map<SwapId, PeerId>, events: seq<Event>, n: nat, h: nat)
    requires n <= |events| && h < |Run(Initial(peers), events, n).handles|
    ensures OfferFits(peers, events, n, h, Run(Initial(peers), events, n).handles[h].offer)
  {
    var s, e := Run(Initial(peers), events, n - 1), events[n - 1];
    if h < |s.handles| {
      OfferIff(peers, events, n - 1, h);
      NextOffer(peers, events, n - 1, h);
    } else {
      StepOffers(s, e, h);
      NothingGiven(peers, events, n - 1, h);
      NextGiven(peers, events, n - 1, h);
    }
  }

  // The encrypted signatures.

  lemma StepAnswersSenders(s: State, e: Event)
    ensures Step(s, e).acknowledged == s.acknowledged
            + if e.SenderAnswered? && e.forward in s.unacknowledged && e.forward !in s.pending then [e.forward] else []
  {
    if ChangesSignatures(e) {
      StepIs(s, e);
    } else {
      SparedSignatures(s, e);
    }
  }

  ghost predicate WasAnswered(peers: map<SwapId, PeerId>, events: seq<Event>, n: nat, f: nat)
    requires n <= |events|
  {
    exists k :: 0 <= k < n && events[k] == SenderAnswered(f)
      && f < |Run(Initial(peers), events, k).forwarded| && f !in Run(Initial(peers), events, k).pending
  }

  /**
    In every run, the sender of a forwarded signature has been answered exactly if its turn came when the signature
    was no longer in the channel.
  */
  lemma {:induction false} SenderAnsweredIff(peers: map<SwapId, PeerId>, events: seq<Event>, n: nat, f: nat)
    requires n <= |events|
    ensures f in Run(Initial(peers), events, n).acknowledged <==> WasAnswered(peers, events, n, f)
  {
    if n > 0 {
      var s, e := Run(Initial(peers), events, n - 1), events[n - 1];
      SenderAnsweredIff(peers, events, n - 1, f);
      SignaturesAreSafe(peers, events, n - 1);
      StepAnswersSenders(s, e);
      assert f in Step(s, e).acknowledged
        <==> f in s.acknowledged || (e == SenderAnswered(f) && f in s.unacknowledged && f !in s.pending);
      if e == SenderAnswered(f) && f < |s.forwarded| && f !in s.pending {
        assert WasAnswered(peers, events, n, f);
      }
    }
  }

  /** A handle is made for the swap. */
  predicate Makes(s: State, e: Event, swapId: SwapId) {
    (e.SetupCompleted? && e.swapId == swapId) || (e.Resumed? && e.swapId == swapId && swapId in s.peers)
  }

  /** A signature for the swap comes from the peer on record. */
  predicate Arrives(s: State, e: Event, swapId: SwapId) {
    e.SignatureReceived? && e.swapId == swapId && swapId in s.peers && s.peers[swapId] == e.peer
  }

  lemma StepReceivers(s: State, e: Event, swapId: SwapId)
    ensures swapId in Step(s, e).receivers
       <==> Makes(s, e, swapId) || (swapId in s.receivers && !Arrives(s, e, swapId))
  {
    if ChangesRouting(e) {
      StepIs(s, e);
    } else {
      SparedRouting(s, e);
    }
  }

  predicate MakesAt(peers: map<SwapId, PeerId>, events: seq<Event>, k: nat, swapId: SwapId)
    requires k < |events|
  {
    Makes(Run(Initial(peers), events, k), events[k], swapId)
  }

  predicate ArrivesAt(peers: map<SwapId, PeerId>, events: seq<Event>, k: nat, swapId: SwapId)
    requires k < |events|
  {
    Arrives(Run(Initial(peers), events, k), events[k], swapId)
  }

  /** A handle was made for the swap at c, and no signature has arrived until n. */
  predicate ExpectedSince(peers: map<SwapId, PeerId>, events: seq<Event>, c: nat, n: nat, swapId: SwapId)
    requires c < n <= |events|
  {
    MakesAt(peers, events, c, swapId) && forall k :: c < k < n ==> !ArrivesAt(peers, events, k, swapId)
  }

  ghost predicate IsExpected(peers: map<SwapId, PeerId>, events: seq<Event>, n: nat, swapId: SwapId)
    requires n <= |events|
  {
    exists c :: 0 <= c < n && ExpectedSince(peers, events, c, n, swapId)
  }

  lemma NextExpected(peers: map<SwapId, PeerId>, events: seq<Event>, n: nat, swapId: SwapId)
    requires n < |events|
    ensures IsExpected(peers, events, n + 1, swapId)
       <==> || MakesAt(peers, events, n, swapId)
            || (IsExpected(peers, events, n, swapId) && !ArrivesAt(peers, events, n, swapId))
  {
    if IsExpected(peers, events, n, swapId) && !ArrivesAt(peers, events, n, swapId) {
      var c :| 0 <= c < n && ExpectedSince(peers, events, c, n, swapId);
      assert ExpectedSince(peers, events, c, n + 1, swapId);
    }
    if MakesAt(peers, events, n, swapId) {
      assert ExpectedSince(peers, events, n, n + 1, swapId);
    }
    var next := n + 1;
    if c :| 0 <= c < n && ExpectedSince(peers, events, c, next, swapId) {
      assert ExpectedSince(peers, events, c, n, swapId);
    }
  }

  /**
    In every run, a receiver is kept for a swap exactly if no signature from its peer arrived since its latest handle
    was made: the first one takes the receiver, whether or not the swap still waits for it.
  */
  lemma {:induction false} ReceiverKeptIff(peers: map<SwapId, PeerId>, events: seq<Event>, n: nat, swapId: SwapId)
    requires n <= |events|
    ensures swapId in Run(Initial(peers), events, n).receivers <==> IsExpected(peers, events, n, swapId)
  {
    if n > 0 {
      var s, e := Run(Initial(peers), events, n - 1), events[n - 1];
      ReceiverKeptIff(peers, events, n - 1, swapId);
      StepReceivers(s, e, swapId);
      NextExpected(peers, events, n - 1, swapId);
    }
  }

  /** The swap receives the signature, or drops the receiver. */
  predicate Leaves(e: Event, f: nat, h: nat) {
    e == SignatureConfirmed(f) || DropsReceiver(e, h)
  }

  /** A drop of the receiver empties the channel of its handle. */
  lemma DropPends(s: State, h: nat, f: nat)
    requires f < |s.forwarded|
    ensures f in DropReceiver(s, h).pending
       <==> f in s.pending && !(h < |s.handles| && s.forwarded[f].handle == h)
  {}

  lemma QuietPends(s: State, e: Event, f: nat)
    requires f < |s.forwarded| && !e.SignatureConfirmed?
    requires !DropsReceiver(e, s.forwarded[f].handle)
    ensures f in Step(s, e).pending <==> f in s.pending
  {
    if ChangesSignatures(e) {
      StepIs(s, e);
    } else {
      SparedSignatures(s, e);
    }
  }

  lemma StepPends(s: State, e: Event, f: nat)
    requires SignaturesAreRouted(s) && f < |s.forwarded|
    ensures f in Step(s, e).pending <==> f in s.pending && !Leaves(e, f, s.forwarded[f].handle)
  {
    var h := s.forwarded[f].handle;
    assert ForwardFits(s, s.forwarded[f]);
    if e.SignatureConfirmed? {
      StepIs(s, e);
      assert e.forward < |s.forwarded| ==> ForwardFits(s, s.forwarded[e.forward]);
    } else if e == WaitAbandoned(h) {
      StepIs(s, e);
      DropPends(s, h, f);
    } else if e == SwapStopped(h) {
      StepIs(s, e);
      DropPends(s.(handles := s.handles[h := s.handles[h].(alive := false)]), h, f);
    } else {
      QuietPends(s, e, f);
    }
  }

  lemma NewPends(s: State, e: Event)
    requires |Step(s, e).forwarded| > |s.forwarded|
    ensures |s.forwarded| in Step(s, e).pending
  {
    StepForwards(s, e);
    StepIs(s, e);
  }

  lemma StepConfirms(s: State, e: Event, f: nat)
    requires SignaturesAreRouted(s) && AnswersToSenders(s)
    ensures f in Step(s, e).confirmed <==> f in s.confirmed || (f in s.pending && e == SignatureConfirmed(f))
  {
    if f < |s.forwarded| {
      assert ForwardFits(s, s.forwarded[f]);
    }
    if ChangesSignatures(e) {
      StepIs(s, e);
    } else {
      SparedSignatures(s, e);
    }
  }

  ghost predicate HasLeft(peers: map<SwapId, PeerId>, events: seq<Event>, n: nat, f: nat, h: nat)
    requires n <= |events|
  {
    exists k :: 0 <= k < n && f < |Run(Initial(peers), events, k).forwarded| && Leaves(events[k], f, h)
  }

  ghost predicate WasConfirmed(peers: map<SwapId, PeerId>, events: seq<Event>, n: nat, f: nat)
    requires n <= |events|
  {
    exists k :: 0 <= k < n && events[k] == SignatureConfirmed(f) && f in Run(Initial(peers), events, k).pending
  }

  lemma NewHasNotLeft(peers: map<SwapId, PeerId>, events: seq<Event>, n: nat, f: nat, h: nat)
    requires 0 < n <= |events| && f >= |Run(Initial(peers), events, n - 1).forwarded|
    ensures !HasLeft(peers, events, n, f, h)
  {
    forall k | 0 <= k < n
      ensures f >= |Run(Initial(peers), events, k).forwarded|
    {
      ForwardedGrows(Initial(peers), events, k, n - 1);
    }
  }

  lemma NextLeft(peers: map<SwapId, PeerId>, events: seq<Event>, n: nat, f: nat, h: nat)
    requires n < |events|
    ensures HasLeft(peers, events, n + 1, f, h)
       <==> HasLeft(peers, events, n, f, h)
            || (f < |Run(Initial(peers), events, n).forwarded| && Leaves(events[n], f, h))
  {}

  /** In every run, a forwarded signature lies in the channel until the swap receives it or drops the receiver. */
  lemma {:induction false} PendingIff(peers: map<SwapId, PeerId>, events: seq<Event>, n: nat, f: nat)
    requires n <= |events| && f < |Run(Initial(peers), events, n).forwarded|
    ensures var s := Run(Initial(peers), events, n);
            f in s.pending <==> !HasLeft(peers, events, n, f, s.forwarded[f].handle)
  {
    var s, e := Run(Initial(peers), events, n - 1), events[n - 1];
    StepForwards(s, e);
    if f < |s.forwarded| {
      PendingIff(peers, events, n - 1, f);
      SignaturesAreSafe(peers, events, n - 1);
      StepPends(s, e, f);
      NextLeft(peers, events, n - 1, f, s.forwarded[f].handle);
    } else {
      NewPends(s, e);
      NewHasNotLeft(peers, events, n, f, Step(s, e).forwarded[f].handle);
    }
  }

  /** In every run, a signature is confirmed exactly if the swap received it while it lay in the channel. */
  lemma {:induction false} ConfirmedIff(peers: map<SwapId, PeerId>, events: seq<Event>, n: nat, f: nat)
    requires n <= |events|
    ensures f in Run(Initial(peers), events, n).confirmed <==> WasConfirmed(peers, events, n, f)
  {
    if n > 0 {
      var s, e := Run(Initial(peers), events, n - 1), events[n - 1];
      ConfirmedIff(peers, events, n - 1, f);
      SignaturesAreSafe(peers, events, n - 1);
      StepConfirms(s, e, f);
      if f in s.pending && e == SignatureConfirmed(f) {
        assert WasConfirmed(peers, events, n, f);
      }
    }
  }
}
