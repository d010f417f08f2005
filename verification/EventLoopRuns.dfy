/** Facts about whole runs of the event loop. */
module EventLoopRuns {
  import opened EventLoop

  // The place of a responder.

  /** The number of requests to the peer of the id-th one that were sent before it. */
  function Rank(sent: seq<Sent>, id: RequestId): nat
    requires id < |sent|
  {
    |SentTo(sent[..id], sent[id].peer)|
  }

  lemma {:induction false} SentToPrefix(sent: seq<Sent>, n: nat, peer: PeerId)
    requires n <= |sent|
    ensures SentTo(sent[..n], peer) <= SentTo(sent, peer)
  {
    if n < |sent| {
      var init := sent[..|sent| - 1];
      SentToPrefix(init, n, peer);
      assert init[..n] == sent[..n];
    } else {
      assert sent[..n] == sent;
    }
  }

  lemma RankIsPlace(sent: seq<Sent>, id: RequestId)
    requires id < |sent|
    ensures Rank(sent, id) < |SentTo(sent, sent[id].peer)|
    ensures SentTo(sent, sent[id].peer)[Rank(sent, id)] == sent[id].outgoing
  {
    var next := sent[..id + 1];
    assert next[..id] == sent[..id];
    SentToPrefix(sent, id + 1, sent[id].peer);
  }

  lemma RankIncreases(sent: seq<Sent>, i: RequestId, j: RequestId)
    requires i < j < |sent| && sent[i].peer == sent[j].peer
    ensures Rank(sent, i) < Rank(sent, j)
  {
    RankIsPlace(sent[..j], i);
    assert sent[..j][..i] == sent[..i];
  }

  lemma {:induction false} PlaceHasId(sent: seq<Sent>, peer: PeerId, k: nat) returns (id: RequestId)
    requires k < |SentTo(sent, peer)|
    ensures id < |sent| && sent[id].peer == peer && Rank(sent, id) == k && sent[id].outgoing == SentTo(sent, peer)[k]
  {
    var init := sent[..|sent| - 1];
    if k < |SentTo(init, peer)| {
      id := PlaceHasId(init, peer, k);
      assert init[..id] == sent[..id];
    } else {
      id := |sent| - 1;
    }
  }

  /** No responder is given twice. */
  ghost predicate DistinctResponders(events: seq<Event>) {
    forall i, j :: 0 <= i < j < |events| && events[i].ProofGiven? && events[j].ProofGiven?
      ==> events[i].responder != events[j].responder
  }

  /** The handle that a step changes, or none of them. */
  function ChangedHandle(s: State, e: Event): nat {
    match e
    case SwapStopped(handle) => handle
    case WaitAbandoned(handle) => handle
    case ProofGiven(handle, _, _) => if CanGiveProof(s, handle) then handle else |s.handles|
    case ProofReady(handle) => if CanTakeProof(s, handle) then handle else |s.handles|
    case SignatureConfirmed(f) => if f in s.pending && f < |s.forwarded| then s.forwarded[f].handle else |s.handles|
    case _ => |s.handles|
  }

  function NextHandle(h: Handle, e: Event): Handle {
    match e
    case SwapStopped(_) => h.(alive := false, waiting := false)
    case WaitAbandoned(_) => h.(waiting := false)
    case ProofGiven(_, proof, responder) => h.(offer := Offered(proof, responder))
    case ProofReady(_) => h.(offer := Taken)
    case SignatureConfirmed(_) => h.(waiting := false)
    case _ => h
  }

  /** The handles after a step: one is added, or one changes. */
  function NextHandles(s: State, e: Event): seq<Handle> {
    match e
    case SetupCompleted(peer, swapId, stored, started) =>
      var alive := IsRecorded(s, swapId, stored) && started;
      s.handles + [Handle(peer, swapId, alive, alive, Idle)]
    case Resumed(swapId, started) =>
      if swapId in s.peers then s.handles + [Handle(s.peers[swapId], swapId, started, started, Idle)] else s.handles
    case _ =>
      var h := ChangedHandle(s, e);
      if h < |s.handles| then s.handles[h := NextHandle(s.handles[h], e)] else s.handles
  }

  lemma StepHandles(s: State, e: Event)
    ensures Step(s, e).handles == NextHandles(s, e)
  {
    StepIs(s, e);
    if e.ConnectionEstablished? {
      var t := s.(connected := s.connected + {e.peer}, buffered := s.buffered - {e.peer});
      SendAllFrame(t, e.peer, Buffered(s, e.peer), |Buffered(s, e.peer)|);
    }
  }

  predicate Later(s: State, s': State, h: nat) {
    && h < |s.handles| && h < |s'.handles|
    && s'.handles[h].peer == s.handles[h].peer && s'.handles[h].swapId == s.handles[h].swapId
    && (s'.handles[h].alive ==> s.handles[h].alive) && (s'.handles[h].waiting ==> s.handles[h].waiting)
    && (s.handles[h].offer.Taken? ==> s'.handles[h].offer.Taken?)
  }

  /** Each handle keeps its peer and its swap, what a swap has dropped stays dropped, and what was taken stays taken. */
  lemma StepKeepsHandles(s: State, e: Event, h: nat)
    requires h < |s.handles|
    ensures Later(s, Step(s, e), h)
  {
    StepHandles(s, e);
  }

  lemma {:induction false} RunKeepsHandles(s: State, events: seq<Event>, m: nat, n: nat, h: nat)
    requires m <= n <= |events| && h < |Run(s, events, m).handles|
    ensures Later(Run(s, events, m), Run(s, events, n), h)
  {
    if m < n {
      RunKeepsHandles(s, events, m, n - 1, h);
      StepKeepsHandles(Run(s, events, n - 1), events[n - 1], h);
    }
  }

  lemma OfferComesFrom(s: State, e: Event, h: nat)
    requires CanTakeProof(Step(s, e), h) && !(CanTakeProof(s, h) && Step(s, e).handles[h].offer == s.handles[h].offer)
    ensures var offer := Step(s, e).handles[h].offer; e == ProofGiven(h, offer.proof, offer.responder)
    ensures CanGiveProof(s, h)
  {
    StepHandles(s, e);
  }

  /** The event in which the swap gave the proof that lies in the channel of a handle. */
  lemma {:induction false} GivingEvent(peers: map<SwapId, PeerId>, events: seq<Event>, n: nat, h: nat) returns (k: nat)
    requires n <= |events| && CanTakeProof(Run(Initial(peers), events, n), h)
    ensures var offer := Run(Initial(peers), events, n).handles[h].offer;
            k < n && events[k] == ProofGiven(h, offer.proof, offer.responder)
    ensures CanGiveProof(Run(Initial(peers), events, k), h)
  {
    var s := Run(Initial(peers), events, n - 1);
    if CanTakeProof(s, h) && Step(s, events[n - 1]).handles[h].offer == s.handles[h].offer {
      k := GivingEvent(peers, events, n - 1, h);
    } else {
      k := n - 1;
      OfferComesFrom(s, events[k], h);
    }
  }

  /** The event that took the k-th proof for a peer. */
  lemma {:induction false} TakingEvent(s: State, events: seq<Event>, n: nat, peer: PeerId, k: nat) returns (i: nat)
    requires n <= |events| && k < |Submitted(s, events, n, peer)|
    ensures i < n && events[i].ProofReady? && CanTakeProof(Run(s, events, i), events[i].handle)
    ensures var h := Run(s, events, i).handles[events[i].handle];
            h.peer == peer && h.offer.responder == Submitted(s, events, n, peer)[k].responder
    ensures k == |Submitted(s, events, i, peer)|
  {
    if k < |Submitted(s, events, n - 1, peer)| {
      i := TakingEvent(s, events, n - 1, peer, k);
    } else {
      i := n - 1;
    }
  }

  /** What was taken is not taken again. */
  lemma TakenOnce(s: State, events: seq<Event>, i: nat, j: nat)
    requires i < |events| && j < |events| && events[i].ProofReady? && events[j].ProofReady?
    requires events[i].handle == events[j].handle
    requires CanTakeProof(Run(s, events, i), events[i].handle) && CanTakeProof(Run(s, events, j), events[j].handle)
    ensures i == j
  {
    var h := events[i].handle;
    if i != j {
      var m, n := if i < j then i else j, if i < j then j else i;
      StepIs(Run(s, events, m), events[m]);
      RunKeepsHandles(s, events, m + 1, n, h);
    }
  }

  /** With distinct responders, a responder has one place among all submissions. */
  lemma SubmittedOnce(peers: map<SwapId, PeerId>, events: seq<Event>, n: nat, p: PeerId, k: nat, q: PeerId, l: nat)
    requires n <= |events| && DistinctResponders(events)
    requires k < |Submitted(Initial(peers), events, n, p)| && l < |Submitted(Initial(peers), events, n, q)|
    requires Submitted(Initial(peers), events, n, p)[k].responder
             == Submitted(Initial(peers), events, n, q)[l].responder
    ensures p == q && k == l
  {
    var i := TakingEvent(Initial(peers), events, n, p, k);
    var j := TakingEvent(Initial(peers), events, n, q, l);
    var g := GivingEvent(peers, events, i, events[i].handle);
    var g' := GivingEvent(peers, events, j, events[j].handle);
    assert g == g';
    TakenOnce(Initial(peers), events, i, j);
  }

  ghost predicate IsBuffered(s: State, r: Responder) {
    exists peer, i :: 0 <= i < |Buffered(s, peer)| && Buffered(s, peer)[i].responder == r
  }

  ghost predicate IsInFlight(s: State, r: Responder) {
    exists id :: id in s.inflight && s.inflight[id] == r
  }

  ghost predicate IsAnsweredResponder(s: State, r: Responder) {
    exists i :: 0 <= i < |s.answered| && s.answered[i].responder == r
  }

  ghost predicate IsSubmitted(peers: map<SwapId, PeerId>, events: seq<Event>, n: nat, r: Responder)
    requires n <= |events|
  {
    exists peer, k :: 0 <= k < |Submitted(Initial(peers), events, n, peer)|
        && Submitted(Initial(peers), events, n, peer)[k].responder == r
  }

  /** The place of a request that was sent among the submissions for its peer. */
  lemma SentIsSubmitted(peers: map<SwapId, PeerId>, events: seq<Event>, n: nat, id: RequestId)
    requires n <= |events| && id < |Run(Initial(peers), events, n).sent|
    ensures var sent := Run(Initial(peers), events, n).sent;
            var os := Submitted(Initial(peers), events, n, sent[id].peer);
            Rank(sent, id) < |SentTo(sent, sent[id].peer)| <= |os| && os[Rank(sent, id)] == sent[id].outgoing
  {
    var s := Run(Initial(peers), events, n);
    ProofsAreConserved(peers, events, n);
    RankIsPlace(s.sent, id);
    assert History(s, s.sent[id].peer) == SentTo(s.sent, s.sent[id].peer) + Buffered(s, s.sent[id].peer);
  }

  /** The place of a buffered request among the submissions for its peer. */
  lemma BufferedIsSubmitted(peers: map<SwapId, PeerId>, events: seq<Event>, n: nat, peer: PeerId, i: nat)
    requires n <= |events| && i < |Buffered(Run(Initial(peers), events, n), peer)|
    ensures var s := Run(Initial(peers), events, n);
            var os, k := Submitted(Initial(peers), events, n, peer), |SentTo(s.sent, peer)| + i;
            k < |os| && os[k] == Buffered(s, peer)[i]
  {
    var s := Run(Initial(peers), events, n);
    ProofsAreConserved(peers, events, n);
    assert History(s, peer) == SentTo(s.sent, peer) + Buffered(s, peer);
  }

  /** The requests that were sent have distinct responders. */
  lemma SentResponderIsUnique(peers: map<SwapId, PeerId>, events: seq<Event>, n: nat, i: RequestId, j: RequestId)
    requires n <= |events| && DistinctResponders(events)
    requires var s := Run(Initial(peers), events, n);
             i < |s.sent| && j < |s.sent| && s.sent[i].outgoing.responder == s.sent[j].outgoing.responder
    ensures i == j
  {
    var sent := Run(Initial(peers), events, n).sent;
    SentIsSubmitted(peers, events, n, i);
    SentIsSubmitted(peers, events, n, j);
    SubmittedOnce(peers, events, n, sent[i].peer, Rank(sent, i), sent[j].peer, Rank(sent, j));
    if i < j {
      RankIncreases(sent, i, j);
    } else if j < i {
      RankIncreases(sent, j, i);
    }
  }

  /** A responder with a buffered request has none that was sent. */
  lemma BufferedIsNotSent(peers: map<SwapId, PeerId>, events: seq<Event>, n: nat, peer: PeerId, i: nat, id: RequestId)
    requires n <= |events| && DistinctResponders(events)
    requires var s := Run(Initial(peers), events, n); i < |Buffered(s, peer)| && id < |s.sent|
    ensures var s := Run(Initial(peers), events, n); Buffered(s, peer)[i].responder != s.sent[id].outgoing.responder
  {
    var s := Run(Initial(peers), events, n);
    SentIsSubmitted(peers, events, n, id);
    BufferedIsSubmitted(peers, events, n, peer, i);
    if Buffered(s, peer)[i].responder == s.sent[id].outgoing.responder {
      SubmittedOnce(peers, events, n, peer, |SentTo(s.sent, peer)| + i, s.sent[id].peer, Rank(s.sent, id));
    }
  }

  lemma SubmittedHasPlace(peers: map<SwapId, PeerId>, events: seq<Event>, n: nat, r: Responder)
    requires n <= |events| && IsSubmitted(peers, events, n, r)
    ensures var s := Run(Initial(peers), events, n); IsBuffered(s, r) || IsInFlight(s, r) || IsAnsweredResponder(s, r)
  {
    var s := Run(Initial(peers), events, n);
    ProofsAreConserved(peers, events, n);
    var peer, k :| 0 <= k < |Submitted(Initial(peers), events, n, peer)|
        && Submitted(Initial(peers), events, n, peer)[k].responder == r;
    var m := |SentTo(s.sent, peer)|;
    assert History(s, peer)[k].responder == r;
    if k < m {
      var id := PlaceHasId(s.sent, peer, k);
      if id !in s.inflight {
        assert IsAnswered(s, id);
      }
    } else {
      assert Buffered(s, peer)[k - m].responder == r;
    }
  }

  /**
    In every run, each responder that was taken from a swap is in exactly one place: buffered, in
    flight, or answered; and no other responder is anywhere.
  */
  lemma ResponderHasOnePlace(peers: map<SwapId, PeerId>, events: seq<Event>, n: nat, r: Responder)
    requires n <= |events| && DistinctResponders(events)
    ensures var s := Run(Initial(peers), events, n);
            && (IsSubmitted(peers, events, n, r) <==> IsBuffered(s, r) || IsInFlight(s, r) || IsAnsweredResponder(s, r))
            && !(IsBuffered(s, r) && IsInFlight(s, r)) && !(IsBuffered(s, r) && IsAnsweredResponder(s, r))
            && !(IsInFlight(s, r) && IsAnsweredResponder(s, r))
  {
    var s := Run(Initial(peers), events, n);
    ProofsAreConserved(peers, events, n);
    if IsSubmitted(peers, events, n, r) {
      SubmittedHasPlace(peers, events, n, r);
    }
    if IsBuffered(s, r) {
      var peer, i :| 0 <= i < |Buffered(s, peer)| && Buffered(s, peer)[i].responder == r;
      BufferedIsSubmitted(peers, events, n, peer, i);
      if id: RequestId :| id < |s.sent| && s.sent[id].outgoing.responder == r {
        BufferedIsNotSent(peers, events, n, peer, i, id);
      }
    }
    if id: RequestId :| id < |s.sent| && s.sent[id].outgoing.responder == r {
      SentIsSubmitted(peers, events, n, id);
    }
    if IsInFlight(s, r) && IsAnsweredResponder(s, r) {
      var id :| id in s.inflight && s.inflight[id] == r;
      var i :| 0 <= i < |s.answered| && s.answered[i].responder == r;
      SentResponderIsUnique(peers, events, n, id, s.answered[i].id);
    }
  }

  /** A responder is answered at most once. */
  lemma AnsweredOnce(peers: map<SwapId, PeerId>, events: seq<Event>, n: nat, i: nat, j: nat)
    requires n <= |events| && DistinctResponders(events)
    requires var s := Run(Initial(peers), events, n);
             i < |s.answered| && j < |s.answered| && s.answered[i].responder == s.answered[j].responder
    ensures i == j
  {
    var s := Run(Initial(peers), events, n);
    ProofsAreConserved(peers, events, n);
    SentResponderIsUnique(peers, events, n, s.answered[i].id, s.answered[j].id);
  }

  lemma StepAnswers(s: State, e: Event)
    ensures Step(s, e).answered == s.answered +
            if e.ProofAcknowledged? && e.id in s.inflight then [Answer(e.id, s.inflight[e.id])] else []
  {
    StepIs(s, e);
    if e.ConnectionEstablished? {
      var t := s.(connected := s.connected + {e.peer}, buffered := s.buffered - {e.peer});
      SendAllFrame(t, e.peer, Buffered(s, e.peer), |Buffered(s, e.peer)|);
    }
  }

  /** An answer is given only on the acknowledgement of a request that had been sent with that responder. */
  lemma {:induction false} AnsweredWasAcknowledged(peers: map<SwapId, PeerId>, events: seq<Event>, n: nat, i: nat)
    returns (k: nat)
    requires n <= |events| && i < |Run(Initial(peers), events, n).answered|
    ensures k < n && events[k].ProofAcknowledged?
    ensures var a, s := Run(Initial(peers), events, n).answered[i], Run(Initial(peers), events, k);
            && a.id == events[k].id && a.id in s.inflight && a.id < |s.sent|
                && s.sent[a.id].outgoing.responder == a.responder
  {
    var s := Run(Initial(peers), events, n - 1);
    StepAnswers(s, events[n - 1]);
    if i < |s.answered| {
      k := AnsweredWasAcknowledged(peers, events, n - 1, i);
    } else {
      k := n - 1;
      ProofsAreConserved(peers, events, k);
    }
  }
}
