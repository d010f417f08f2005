/** The routing of encrypted signatures in every run of the event loop, and the answers to their senders. */
module EncryptedSignatures {
  import opened EventLoop
  import opened EventLoopRuns

  // Routing.

  /** No later handle was made for the same swap. */
  predicate IsLatest(s: State, h: nat) {
    h < |s.handles| && forall j :: h < j < |s.handles| ==> s.handles[j].swapId != s.handles[h].swapId
  }

  ghost predicate IsForwardedTo(s: State, h: nat) {
    exists i :: 0 <= i < |s.forwarded| && s.forwarded[i].handle == h
  }

  /** A handle that waits for a signature belongs to the peer on record for its swap. */
  predicate WaitingFits(s: State, h: nat)
    requires h < |s.handles|
  {
    var handle := s.handles[h];
    handle.waiting ==> handle.swapId in s.peers && s.peers[handle.swapId] == handle.peer
  }

  /** The receiver that is kept for a swap is that of its latest handle. */
  predicate ReceiverFits(s: State, swapId: SwapId)
    requires swapId in s.receivers
  {
    var h := s.receivers[swapId];
    IsLatest(s, h) && s.handles[h].swapId == swapId
  }

  /** A signature was forwarded to a handle of its swap and of the peer that it came from. */
  predicate ForwardFits(s: State, f: Forward) {
    f.handle < |s.handles| && s.handles[f.handle].peer == f.from && s.handles[f.handle].swapId == f.swapId
  }

  /** The latest handle of a swap that waits and was given no signature has its receiver kept. */
  ghost predicate KeepsReceiver(s: State, h: nat)
    requires h < |s.handles|
  {
    s.handles[h].waiting && IsLatest(s, h) && !IsForwardedTo(s, h) ==> s.handles[h].swapId in s.receivers
  }

  ghost predicate SignaturesAreRouted(s: State) {
    && (forall h :: 0 <= h < |s.handles| ==> WaitingFits(s, h) && KeepsReceiver(s, h))
    && (forall swapId :: swapId in s.receivers ==> ReceiverFits(s, swapId))
    && (forall i :: 0 <= i < |s.forwarded| ==> ForwardFits(s, s.forwarded[i]))
    && (forall i, j :: 0 <= i < j < |s.forwarded| ==> s.forwarded[i].handle != s.forwarded[j].handle)
    && (forall i, swapId :: 0 <= i < |s.forwarded| && swapId in s.receivers
          ==> s.receivers[swapId] != s.forwarded[i].handle)
  }

  /** The arms that make a handle or take a receiver. */
  predicate ChangesRouting(e: Event) {
    e.SetupCompleted? || e.Resumed? || e.SignatureReceived?
  }

  lemma SparedRouting(s: State, e: Event)
    requires !ChangesRouting(e)
    ensures var s' := Step(s, e);
            && s'.peers == s.peers && s'.receivers == s.receivers && s'.forwarded == s.forwarded
            && |s'.handles| == |s.handles|
  {
    StepIs(s, e);
    StepHandles(s, e);
    if e.ConnectionEstablished? {
      var t := s.(connected := s.connected + {e.peer}, buffered := s.buffered - {e.peer});
      SendAllFrame(t, e.peer, Buffered(s, e.peer), |Buffered(s, e.peer)|);
    }
  }

  lemma SameLatest(s: State, s': State, h: nat)
    requires |s'.handles| == |s.handles| && h < |s.handles| && forall j :: 0 <= j < |s.handles| ==> Later(s, s', j)
    ensures IsLatest(s', h) == IsLatest(s, h)
  {
    assert Later(s, s', h);
    forall j | h < j < |s.handles|
      ensures s'.handles[j].swapId == s.handles[j].swapId
    {
      assert Later(s, s', j);
    }
  }

  lemma SameRouting(s: State, s': State)
    requires SignaturesAreRouted(s) && s'.peers == s.peers && s'.receivers == s.receivers && s'.forwarded == s.forwarded
    requires |s'.handles| == |s.handles| && forall h :: 0 <= h < |s.handles| ==> Later(s, s', h)
    ensures SignaturesAreRouted(s')
  {
    forall h | 0 <= h < |s'.handles|
      ensures WaitingFits(s', h) && KeepsReceiver(s', h) && IsLatest(s', h) == IsLatest(s, h)
    {
      SameLatest(s, s', h);
      assert Later(s, s', h) && WaitingFits(s, h) && KeepsReceiver(s, h);
      assert IsForwardedTo(s', h) == IsForwardedTo(s, h);
    }
    forall swapId | swapId in s'.receivers
      ensures ReceiverFits(s', swapId)
    {
      assert ReceiverFits(s, swapId) && Later(s, s', s.receivers[swapId]);
      SameLatest(s, s', s.receivers[swapId]);
    }
    forall i | 0 <= i < |s'.forwarded|
      ensures ForwardFits(s', s'.forwarded[i])
    {
      assert ForwardFits(s, s.forwarded[i]);
      assert Later(s, s', s.forwarded[i].handle);
    }
  }

  lemma OlderHandle(s: State, s': State, h: nat)
    requires h < |s.handles| <= |s'.handles| && s'.handles[..|s.handles|] == s.handles
    ensures IsLatest(s', h) ==> IsLatest(s, h)
  {
    forall j | h <= j < |s.handles|
      ensures s.handles[j] == s'.handles[j]
    {
      assert s'.handles[..|s.handles|][j] == s'.handles[j];
    }
  }

  /** A new handle takes the place of the receiver of its swap. */
  lemma NewHandleIsRouted(s: State, s': State, handle: Handle)
    requires SignaturesAreRouted(s) && s'.handles == s.handles + [handle] && s'.forwarded == s.forwarded
    requires s'.receivers == s.receivers[handle.swapId := |s.handles|]
    requires forall swapId :: swapId in s.peers ==> swapId in s'.peers && s'.peers[swapId] == s.peers[swapId]
    requires WaitingFits(s', |s.handles|)
    ensures SignaturesAreRouted(s')
  {
    forall h | 0 <= h < |s'.handles|
      ensures WaitingFits(s', h) && KeepsReceiver(s', h)
    {
      if h < |s.handles| {
        assert WaitingFits(s, h) && KeepsReceiver(s, h);
        assert IsForwardedTo(s', h) == IsForwardedTo(s, h);
        assert s'.handles[|s.handles|] == handle;
        assert IsLatest(s', h) ==> IsLatest(s, h) by { OlderHandle(s, s', h); }
      }
    }
    forall swapId | swapId in s'.receivers
      ensures ReceiverFits(s', swapId)
    {
      if swapId != handle.swapId {
        assert ReceiverFits(s, swapId);
      }
    }
    forall i | 0 <= i < |s'.forwarded|
      ensures ForwardFits(s', s'.forwarded[i])
    {
      assert ForwardFits(s, s.forwarded[i]);
    }
  }

  lemma SetupIsRouted(s: State, peer: PeerId, swapId: SwapId, stored: bool, started: bool)
    requires SignaturesAreRouted(s)
    ensures SignaturesAreRouted(Step(s, SetupCompleted(peer, swapId, stored, started)))
  {
    var alive := IsRecorded(s, swapId, stored) && started;
    StepIs(s, SetupCompleted(peer, swapId, stored, started));
    NewHandleIsRouted(s, Step(s, SetupCompleted(peer, swapId, stored, started)),
        Handle(peer, swapId, alive, alive, Idle));
  }

  lemma ResumeIsRouted(s: State, swapId: SwapId, started: bool)
    requires SignaturesAreRouted(s)
    ensures SignaturesAreRouted(Step(s, Resumed(swapId, started)))
  {
    StepIs(s, Resumed(swapId, started));
    if swapId in s.peers {
      NewHandleIsRouted(s, Step(s, Resumed(swapId, started)), Handle(s.peers[swapId], swapId, started, started, Idle));
    }
  }

  /** The handle whose receiver is taken was given the signature, or does not wait. */
  lemma ReceiptKeepsReceiver(s: State, s': State, swapId: SwapId, h: nat)
    requires swapId in s.receivers && ReceiverFits(s, swapId) && h < |s.handles| && KeepsReceiver(s, h)
    requires s'.handles == s.handles && s'.receivers == s.receivers - {swapId} && s.forwarded <= s'.forwarded
    requires s.handles[s.receivers[swapId]].waiting ==>
               |s'.forwarded| > |s.forwarded| && s'.forwarded[|s.forwarded|].handle == s.receivers[swapId]
    ensures KeepsReceiver(s', h)
  {
    if i :| 0 <= i < |s.forwarded| && s.forwarded[i].handle == h {
      assert s'.forwarded[i].handle == h;
    }
    assert IsForwardedTo(s, h) ==> IsForwardedTo(s', h);
    assert s.handles[h].swapId == swapId && IsLatest(s, h) ==> h == s.receivers[swapId];
  }

  lemma ReceiptIsRouted(s: State, swapId: SwapId, signature: Signature, channel: Channel, peer: PeerId)
    requires SignaturesAreRouted(s)
    ensures SignaturesAreRouted(ReceiveSignature(s, swapId, signature, channel, peer))
  {
    var s' := ReceiveSignature(s, swapId, signature, channel, peer);
    if s' != s {
      assert ReceiverFits(s, swapId);
      forall h | 0 <= h < |s'.handles|
        ensures WaitingFits(s', h) && KeepsReceiver(s', h)
      {
        assert WaitingFits(s, h) && KeepsReceiver(s, h);
        ReceiptKeepsReceiver(s, s', swapId, h);
      }
      forall other | other in s'.receivers
        ensures ReceiverFits(s', other)
      {
        assert ReceiverFits(s, other);
      }
      forall i | 0 <= i < |s'.forwarded|
        ensures ForwardFits(s', s'.forwarded[i])
      {
        if i < |s.forwarded| {
          assert ForwardFits(s, s.forwarded[i]);
        } else {
          assert WaitingFits(s, s.receivers[swapId]);
        }
      }
    }
  }

  lemma StepIsRouted(s: State, e: Event)
    requires SignaturesAreRouted(s)
    ensures SignaturesAreRouted(Step(s, e))
  {
    match e
    case SetupCompleted(peer, swapId, stored, started) =>
      SetupIsRouted(s, peer, swapId, stored, started);
    case Resumed(swapId, started) =>
      ResumeIsRouted(s, swapId, started);
    case SignatureReceived(swapId, signature, channel, peer) =>
      StepIs(s, e);
      ReceiptIsRouted(s, swapId, signature, channel, peer);
    case _ =>
      SparedRouting(s, e);
      forall h | 0 <= h < |s.handles|
        ensures Later(s, Step(s, e), h)
      {
        StepKeepsHandles(s, e, h);
      }
      SameRouting(s, Step(s, e));
  }

  // Answers to the senders.

  /**
    A forwarded signature lies in its channel, was confirmed, or was dropped with the receiver, and only one
    of these.
  */
  predicate IsResolved(s: State, f: nat) {
    if f in s.pending then f !in s.confirmed && f !in s.abandoned && f in s.unacknowledged
    else f in s.confirmed <==> f !in s.abandoned
  }

  ghost predicate AnswersToSenders(s: State) {
    && (forall f: nat :: f < |s.forwarded| ==> IsResolved(s, f))
    && (forall f :: f in s.pending || f in s.confirmed || f in s.abandoned || f in s.unacknowledged
          ==> f < |s.forwarded|)
    && (forall i :: 0 <= i < |s.acknowledged| ==>
          s.acknowledged[i] < |s.forwarded| && s.acknowledged[i] !in s.unacknowledged)
    && (forall f: nat :: f < |s.forwarded| ==> f in s.unacknowledged || f in s.acknowledged)
    && (forall i, j :: 0 <= i < j < |s.acknowledged| ==> s.acknowledged[i] != s.acknowledged[j])
  }

  /** The arms that concern a forwarded signature. */
  predicate ChangesSignatures(e: Event) {
    e.SwapStopped? || e.SignatureReceived? || e.SignatureConfirmed? || e.WaitAbandoned? || e.SenderAnswered?
  }

  lemma SparedSignatures(s: State, e: Event)
    requires !ChangesSignatures(e)
    ensures var s' := Step(s, e);
            && s'.forwarded == s.forwarded && s'.pending == s.pending && s'.confirmed == s.confirmed
            && s'.abandoned == s.abandoned && s'.unacknowledged == s.unacknowledged && s'.acknowledged == s.acknowledged
  {
    StepIs(s, e);
    if e.ConnectionEstablished? {
      var t := s.(connected := s.connected + {e.peer}, buffered := s.buffered - {e.peer});
      SendAllFrame(t, e.peer, Buffered(s, e.peer), |Buffered(s, e.peer)|);
    }
  }

  lemma DropKeepsAnswers(s: State, handle: nat)
    requires AnswersToSenders(s)
    ensures AnswersToSenders(DropReceiver(s, handle))
  {
    var s' := DropReceiver(s, handle);
    forall f: nat | f < |s'.forwarded|
      ensures IsResolved(s', f)
    {
      assert IsResolved(s, f);
    }
  }

  lemma ConfirmKeepsAnswers(s: State, forward: nat)
    requires AnswersToSenders(s)
    ensures AnswersToSenders(ConfirmSignature(s, forward))
  {
    var s' := ConfirmSignature(s, forward);
    forall f: nat | f < |s'.forwarded|
      ensures IsResolved(s', f)
    {
      assert IsResolved(s, f);
    }
  }

  lemma ReceiveKeepsAnswers(s: State, swapId: SwapId, signature: Signature, channel: Channel, peer: PeerId)
    requires AnswersToSenders(s)
    ensures AnswersToSenders(ReceiveSignature(s, swapId, signature, channel, peer))
  {
    var s' := ReceiveSignature(s, swapId, signature, channel, peer);
    forall f: nat | f < |s'.forwarded|
      ensures IsResolved(s', f)
    {
      assert f < |s.forwarded| ==> IsResolved(s, f);
    }
  }

  lemma AnswerKeepsAnswers(s: State, forward: nat)
    requires AnswersToSenders(s) && forward in s.unacknowledged && forward !in s.pending
    ensures AnswersToSenders(
              s.(unacknowledged := s.unacknowledged - {forward}, acknowledged := s.acknowledged + [forward]))
  {
    var s' := s.(unacknowledged := s.unacknowledged - {forward}, acknowledged := s.acknowledged + [forward]);
    assert s'.acknowledged[|s.acknowledged|] == forward;
    forall f: nat | f < |s'.forwarded|
      ensures IsResolved(s', f) && (f in s'.unacknowledged || f in s'.acknowledged)
    {
      assert IsResolved(s, f);
    }
  }

  lemma SameSenders(s: State, s': State)
    requires AnswersToSenders(s)
    requires s'.forwarded == s.forwarded && s'.pending == s.pending && s'.confirmed == s.confirmed
    requires s'.abandoned == s.abandoned && s'.unacknowledged == s.unacknowledged && s'.acknowledged == s.acknowledged
    ensures AnswersToSenders(s')
  {
    forall f: nat | f < |s'.forwarded|
      ensures IsResolved(s', f)
    {
      assert IsResolved(s, f);
    }
  }

  lemma StepKeepsSenders(s: State, e: Event)
    requires AnswersToSenders(s)
    ensures AnswersToSenders(Step(s, e))
  {
    if !ChangesSignatures(e) {
      SparedSignatures(s, e);
      SameSenders(s, Step(s, e));
    } else {
      StepIs(s, e);
      match e
      case SwapStopped(handle) =>
        if handle < |s.handles| {
          var t := s.(handles := s.handles[handle := s.handles[handle].(alive := false)]);
          SameSenders(s, t);
          DropKeepsAnswers(t, handle);
        }
      case WaitAbandoned(handle) => DropKeepsAnswers(s, handle);
      case SignatureConfirmed(forward) => ConfirmKeepsAnswers(s, forward);
      case SignatureReceived(swapId, signature, channel, peer) =>
        ReceiveKeepsAnswers(s, swapId, signature, channel, peer);
      case SenderAnswered(forward) =>
        if forward in s.unacknowledged && forward !in s.pending {
          AnswerKeepsAnswers(s, forward);
        }
    }
  }

  /**
    In every run, a signature is forwarded only to a handle of its own swap and of the peer that it came
    from, at most one to each handle; each is in its channel, confirmed or dropped; and its sender
    is answered at most once, not before it has left the channel.
  */
  lemma {:induction false} SignaturesAreSafe(peers: map<SwapId, PeerId>, events: seq<Event>, n: nat)
    requires n <= |events|
    ensures var s := Run(Initial(peers), events, n); SignaturesAreRouted(s) && AnswersToSenders(s)
  {
    if n > 0 {
      var s := Run(Initial(peers), events, n - 1);
      SignaturesAreSafe(peers, events, n - 1);
      StepIsRouted(s, events[n - 1]);
      StepKeepsSenders(s, events[n - 1]);
    }
  }

  // Where a forwarded signature comes from.

  lemma StepForwards(s: State, e: Event)
    ensures s.forwarded <= Step(s, e).forwarded && |Step(s, e).forwarded| <= |s.forwarded| + 1
    ensures |Step(s, e).forwarded| > |s.forwarded| ==>
              && e.SignatureReceived? && e.swapId in s.peers && s.peers[e.swapId] == e.peer && e.swapId in s.receivers
              && var h := s.receivers[e.swapId];
                 && h < |s.handles| && s.handles[h].waiting
                 && Step(s, e).forwarded[|s.forwarded|] == Forward(h, e.swapId, e.signature, e.channel, e.peer)
  {
    if ChangesSignatures(e) {
      StepIs(s, e);
    } else {
      SparedSignatures(s, e);
    }
  }

  /** A signature is forwarded only when it is received from the peer on record, for a swap that waits for it. */
  lemma {:induction false} ForwardedWasReceived(peers: map<SwapId, PeerId>, events: seq<Event>, n: nat, i: nat)
    returns (k: nat)
    requires n <= |events| && i < |Run(Initial(peers), events, n).forwarded|
    ensures k < n
    ensures var f, s := Run(Initial(peers), events, n).forwarded[i], Run(Initial(peers), events, k);
            && events[k] == SignatureReceived(f.swapId, f.signature, f.channel, f.from)
            && f.swapId in s.peers && s.peers[f.swapId] == f.from && |s.forwarded| == i
            && f.handle < |s.handles| && s.handles[f.handle].waiting
            && s.handles[f.handle].swapId == f.swapId && s.handles[f.handle].peer == f.from
  {
    var s := Run(Initial(peers), events, n - 1);
    StepForwards(s, events[n - 1]);
    if i < |s.forwarded| {
      k := ForwardedWasReceived(peers, events, n - 1, i);
    } else {
      k := n - 1;
      SignaturesAreSafe(peers, events, k);
      assert ReceiverFits(s, events[k].swapId) && WaitingFits(s, s.receivers[events[k].swapId]);
    }
  }

  // Delivery.

  /** The handle for which a signature of a swap from a peer is meant. */
  ghost predicate IsRecipient(s: State, h: nat, swapId: SwapId, peer: PeerId) {
    && h < |s.handles| && s.handles[h].swapId == swapId && s.handles[h].peer == peer && s.handles[h].waiting
    && IsLatest(s, h) && !IsForwardedTo(s, h)
  }

  /**
    In every run, a signature is forwarded exactly when the latest handle of its swap belongs to its
    sender, still waits, and was given no signature before; and then it goes to that handle.
  */
  lemma ForwardedIff(peers: map<SwapId, PeerId>, events: seq<Event>, n: nat,
                     swapId: SwapId, signature: Signature, channel: Channel, peer: PeerId)
    requires n <= |events|
    ensures var s := Run(Initial(peers), events, n);
            var s' := Step(s, SignatureReceived(swapId, signature, channel, peer));
            && (forall h: nat :: IsRecipient(s, h, swapId, peer)
                  ==> s'.forwarded == s.forwarded + [Forward(h, swapId, signature, channel, peer)])
            && ((forall h: nat :: !IsRecipient(s, h, swapId, peer)) ==> s'.forwarded == s.forwarded)
  {
    var s := Run(Initial(peers), events, n);
    StepIs(s, SignatureReceived(swapId, signature, channel, peer));
    SignaturesAreSafe(peers, events, n);
    forall h: nat | IsRecipient(s, h, swapId, peer)
      ensures swapId in s.peers && s.peers[swapId] == peer && swapId in s.receivers && s.receivers[swapId] == h
    {
      assert WaitingFits(s, h) && KeepsReceiver(s, h);
      assert ReceiverFits(s, swapId);
    }
    if swapId in s.receivers && s.handles[s.receivers[swapId]].waiting {
      var h := s.receivers[swapId];
      assert ReceiverFits(s, swapId) && WaitingFits(s, h);
      assert IsRecipient(s, h, swapId, s.handles[h].peer);
    }
  }

  /** A swap that waits is given the signature of its peer exactly when no later handle was made for its swap id. */
  lemma WaitingSwapIsServedIff(peers: map<SwapId, PeerId>, events: seq<Event>, n: nat,
                               h: nat, signature: Signature, channel: Channel)
    requires n <= |events|
    requires var s := Run(Initial(peers), events, n);
             h < |s.handles| && s.handles[h].waiting && !IsForwardedTo(s, h)
    ensures var s := Run(Initial(peers), events, n);
            var s' := Step(s, SignatureReceived(s.handles[h].swapId, signature, channel, s.handles[h].peer));
            IsForwardedTo(s', h) <==> IsLatest(s, h)
  {
    var s := Run(Initial(peers), events, n);
    var swapId, peer := s.handles[h].swapId, s.handles[h].peer;
    var s' := Step(s, SignatureReceived(swapId, signature, channel, peer));
    ForwardedIff(peers, events, n, swapId, signature, channel, peer);
    if IsLatest(s, h) {
      assert IsRecipient(s, h, swapId, peer);
      assert s'.forwarded[|s.forwarded|].handle == h;
    } else if g: nat :| IsRecipient(s, g, swapId, peer) {
      assert s'.forwarded == s.forwarded + [Forward(g, swapId, signature, channel, peer)];
    }
  }

  /**
    A second setup with the swap id of a running swap stops the delivery: the database refuses the new
    peer, but the receiver of the running swap has been replaced before.
  */
  lemma SecondSetupStopsDelivery(signature: Signature, channel: Channel)
    ensures var s := Run(Initial(map[]), [SetupCompleted(1, 7, true, true), SetupCompleted(2, 7, true, true)], 2);
            && s.peers == map[7 := 1] && s.handles[0] == Handle(1, 7, true, true, Idle)
            && Step(s, SignatureReceived(7, signature, channel, 1)).forwarded == []
  {
    var events := [SetupCompleted(1, 7, true, true), SetupCompleted(2, 7, true, true)];
    var s0 := Initial(map[]);
    var s1 := Step(s0, events[0]);
    var s2 := Step(s1, events[1]);
    StepIs(s0, events[0]);
    StepIs(s1, events[1]);
    StepIs(s2, SignatureReceived(7, signature, channel, 1));
    assert Run(s0, events, 0) == s0;
    assert Run(s0, events, 1) == s1;
    assert s1.peers == map[7 := 1];
  }

  // Answers without confirmation.

  /** The swap drops the receiver of the handle. */
  predicate DropsReceiver(e: Event, h: nat) {
    e == WaitAbandoned(h) || e == SwapStopped(h)
  }

  lemma StepAbandons(s: State, e: Event, f: nat)
    requires SignaturesAreRouted(s) && AnswersToSenders(s) && f < |s.forwarded|
    ensures f in Step(s, e).abandoned
       <==> f in s.abandoned || (DropsReceiver(e, s.forwarded[f].handle) && f in s.pending)
  {
    assert ForwardFits(s, s.forwarded[f]);
    if ChangesSignatures(e) {
      StepIs(s, e);
    } else {
      SparedSignatures(s, e);
    }
  }

  /** A signature is abandoned when its swap drops the receiver while the signature lies in the channel. */
  ghost predicate WasDropped(peers: map<SwapId, PeerId>, events: seq<Event>, n: nat, f: nat, h: nat)
    requires n <= |events|
  {
    exists k :: 0 <= k < n && DropsReceiver(events[k], h) && f in Run(Initial(peers), events, k).pending
  }

  lemma NewIsNotAbandoned(s: State, e: Event, f: nat)
    requires AnswersToSenders(s) && |s.forwarded| <= f && e.SignatureReceived?
    ensures f !in Step(s, e).abandoned
  {
    StepIs(s, e);
  }

  lemma {:induction false} ForwardedGrows(s: State, events: seq<Event>, m: nat, n: nat)
    requires m <= n <= |events|
    ensures Run(s, events, m).forwarded <= Run(s, events, n).forwarded
  {
    if m < n {
      ForwardedGrows(s, events, m, n - 1);
      StepForwards(Run(s, events, n - 1), events[n - 1]);
    }
  }

  lemma {:induction false} AbandonedIff(peers: map<SwapId, PeerId>, events: seq<Event>, n: nat, f: nat)
    requires n <= |events| && f < |Run(Initial(peers), events, n).forwarded|
    ensures var s := Run(Initial(peers), events, n);
            f in s.abandoned <==> WasDropped(peers, events, n, f, s.forwarded[f].handle)
  {
    if n > 0 {
      var s, s' := Run(Initial(peers), events, n - 1), Run(Initial(peers), events, n);
      var h := s'.forwarded[f].handle;
      SignaturesAreSafe(peers, events, n - 1);
      StepForwards(s, events[n - 1]);
      if f < |s.forwarded| {
        AbandonedIff(peers, events, n - 1, f);
        StepAbandons(s, events[n - 1], f);
        if WasDropped(peers, events, n - 1, f, h) {
          var k :| 0 <= k < n - 1 && DropsReceiver(events[k], h) && f in Run(Initial(peers), events, k).pending;
        }
      } else {
        NewIsNotAbandoned(s, events[n - 1], f);
        forall k | 0 <= k < n
          ensures f !in Run(Initial(peers), events, k).pending
        {
          SignaturesAreSafe(peers, events, k);
          ForwardedGrows(Initial(peers), events, k, n - 1);
        }
      }
    }
  }

  /**
    The answer to a sender confirms that the swap has the signature, unless the swap dropped its
    receiver while the signature lay in the channel: then, and only then, it is answered all the same.
  */
  lemma AnswerConfirmsIff(peers: map<SwapId, PeerId>, events: seq<Event>, n: nat, f: nat)
    requires n <= |events| && f in Run(Initial(peers), events, n).acknowledged
    ensures var s := Run(Initial(peers), events, n);
            f < |s.forwarded| && (f in s.confirmed <==> !WasDropped(peers, events, n, f, s.forwarded[f].handle))
  {
    var s := Run(Initial(peers), events, n);
    SignaturesAreSafe(peers, events, n);
    assert IsResolved(s, f);
    AbandonedIff(peers, events, n, f);
  }

  /** A sender is answered although the swap never received its signature. */
  lemma AnswerWithoutConfirmation(signature: Signature, channel: Channel)
    ensures var events := [SetupCompleted(1, 7, true, true), SignatureReceived(7, signature, channel, 1),
                           WaitAbandoned(0), SenderAnswered(0)];
            var s := Run(Initial(map[]), events, 4);
            s.acknowledged == [0] && s.forwarded == [Forward(0, 7, signature, channel, 1)] && s.confirmed == {}
  {
    var events := [SetupCompleted(1, 7, true, true), SignatureReceived(7, signature, channel, 1),
                   WaitAbandoned(0), SenderAnswered(0)];
    var s0 := Initial(map[]);
    var s1 := Step(s0, events[0]);
    var s2 := Step(s1, events[1]);
    var s3 := Step(s2, events[2]);
    StepIs(s0, events[0]);
    StepIs(s1, events[1]);
    StepIs(s2, events[2]);
    StepIs(s3, events[3]);
    assert s2.forwarded == [Forward(0, 7, signature, channel, 1)] && s2.pending == {0};
    assert PendingFor(s2, 0) == {0};
    assert Run(s0, events, 0) == s0;
    assert Run(s0, events, 1) == s1;
    assert Run(s0, events, 2) == s2;
    assert Run(s0, events, 3) == s3;
  }
}
