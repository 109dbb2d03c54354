/** What the relay guarantees over whole runs, from any interleaving of registrations, messages,
    disconnections, kill-switches and dispatches. */
module BrokerTheorems {
  import opened Common
  import opened Protocol
  import opened SessionStore
  import opened BrokerSpec
  import opened BrokerSafety
  import Policy = CommandPolicy

  lemma ReachableInv(cfg: Config, start: real, events: seq<Event>)
    ensures Inv(cfg, Run(cfg, Init(start), events))
  {
    InitInv(cfg, start);
    RunKeepsInv(cfg, Init(start), events);
  }

  lemma {:induction false} RunAppend(cfg: Config, s: State, a: seq<Event>, b: seq<Event>)
    ensures Run(cfg, s, a + b) == Run(cfg, Run(cfg, s, a), b)
  {
    if b == [] {
      assert a + b == a;
    } else {
      RunAppend(cfg, s, a, b[..|b| - 1]);
      assert (a + b)[..|a + b| - 1] == a + b[..|b| - 1];
    }
  }

  // ----- What a dispatch yields -----

  /** A prefix that reaches the first result is all there is up to that result. */
  lemma {:induction false} CompletePrefix(yielded: seq<Chunk>, answers: seq<Chunk>)
    requires yielded <= answers && IsComplete(yielded)
    ensures yielded == UpToResult(answers)
  {
    if |yielded| > 1 {
      assert yielded[0] == yielded[..|yielded| - 1][0];
      assert yielded[1..][..|yielded| - 2] == yielded[..|yielded| - 1][1..];
      CompletePrefix(yielded[1..], answers[1..]);
    }
  }

  lemma FlightHolds(t: Traffic, r: RequestId)
    requires TrafficOk(t) && r in t.flights
    ensures t.flights[r].yielded <= AnswersTo(t, r) && PhaseOk(t.flights[r].phase, t.flights[r].yielded)
    ensures t.flights[r].since <= |t.heard|
  {
    assert OneOk(t, r);
  }

  lemma PendingHolds(t: Traffic, r: RequestId)
    requires TrafficOk(t) && r in t.flights
    ensures r in t.pending <==> !t.flights[r].phase.Ended?
    ensures r in t.pending ==> t.pending[r].connection == t.flights[r].connection
    ensures r in t.pending && t.flights[r].connection in t.cut ==> Disconnected in t.pending[r].queue
  {
    assert OneOk(t, r);
  }

  /** Event number `i` of the run dispatched `r` to the code of `f`, which was live, on the connection
      its record gave, when the relay had heard `f.since` messages. */
  ghost predicate DispatchedAt(cfg: Config, start: real, events: seq<Event>, i: nat, r: RequestId, f: Flight) {
    && i < |events| && events[i].Dispatch? && events[i].r == r && events[i].code == f.code && events[i].tool == f.tool
    && var s := Run(cfg, Init(start), events[..i]);
       && f.code in s.records && events[i].now < s.records[f.code].expiresAt
       && s.records[f.code].connection == f.connection
       && |s.t.heard| == f.since
  }

  lemma DispatchedStays(cfg: Config, start: real, events: seq<Event>, e: Event, i: nat, r: RequestId, f: Flight,
                        g: Flight)
    requires DispatchedAt(cfg, start, events, i, r, f) && SameCall(f, g)
    ensures DispatchedAt(cfg, start, events + [e], i, r, g)
  {
    assert (events + [e])[..i] == events[..i];
  }

  /** A new dispatch comes from a `Dispatch` step to a live code; other steps keep the calls. */
  lemma NewFlight(cfg: Config, s: State, e: Event, r: RequestId)
    requires r in Step(cfg, s, e).t.flights
    ensures var f := Step(cfg, s, e).t.flights[r];
            if r in s.t.flights then SameCall(s.t.flights[r], f)
            else
              && e.Dispatch? && e.r == r && e.code == f.code && e.tool == f.tool && |s.t.heard| == f.since
              && f.code in s.records && e.now < s.records[f.code].expiresAt
              && s.records[f.code].connection == f.connection
  {
    if !e.Dispatch? {
      ConsumeKeepsCalls(s.t, e);
    }
  }

  lemma {:induction false} EachFlightWasDispatched(cfg: Config, start: real, events: seq<Event>, r: RequestId)
    requires r in Run(cfg, Init(start), events).t.flights
    ensures exists i :: DispatchedAt(cfg, start, events, i, r, Run(cfg, Init(start), events).t.flights[r])
  {
    var front, e := events[..|events| - 1], events[|events| - 1];
    var s, f := Run(cfg, Init(start), front), Run(cfg, Init(start), events).t.flights[r];
    assert events == front + [e];
    NewFlight(cfg, s, e, r);
    if r in s.t.flights {
      EachFlightWasDispatched(cfg, start, front, r);
      var i :| DispatchedAt(cfg, start, front, i, r, s.t.flights[r]);
      DispatchedStays(cfg, start, front, e, i, r, s.t.flights[r], f);
    } else {
      assert DispatchedAt(cfg, start, events, |front|, r, f);
    }
  }

  /** In every reachable state, a dispatch comes from a step that found its code live on its
      connection; what it has yielded is, in order, the beginning of what that connection has said
      about it since that step; and when it ended normally it yielded all of that, up to the first
      result, which is also the outcome. Nothing any other connection says, and nothing about any
      other request, ever gets in. */
  lemma DispatchYieldsItsAnswers(cfg: Config, start: real, events: seq<Event>, r: RequestId)
    requires r in Run(cfg, Init(start), events).t.flights
    ensures var s := Run(cfg, Init(start), events);
            var f := s.t.flights[r];
            && (exists i :: DispatchedAt(cfg, start, events, i, r, f))
            && f.since <= |s.t.heard|
            && f.yielded <= Answers(s.t.heard[f.since..], f.connection, r)
            && (f.phase.Ended? && f.phase.outcome.Finished? ==>
                  && f.yielded == UpToResult(Answers(s.t.heard[f.since..], f.connection, r))
                  && f.yielded != [] && var last := f.yielded[|f.yielded| - 1];
                     last.Result? && f.phase.outcome == Finished(last.exitCode, last.error))
            && OwnerOk(s, f)
  {
    ReachableInv(cfg, start, events);
    EachFlightWasDispatched(cfg, start, events, r);
    var s := Run(cfg, Init(start), events);
    FlightHolds(s.t, r);
    var f := s.t.flights[r];
    if f.phase.Ended? && f.phase.outcome.Finished? {
      CompletePrefix(f.yielded, AnswersTo(s.t, r));
    }
  }

  // ----- Why a dispatch ended -----

  /** Event number `i` found `r` in that phase. */
  ghost predicate Happened(cfg: Config, start: real, events: seq<Event>, i: nat, e: Event) {
    i < |events| && events[i] == e && Fits(Run(cfg, Init(start), events[..i]).t, e)
  }

  predicate Fits(t: Traffic, e: Event) {
    match e
    case SendDone(r, _) => InPhase(t, r, Sending)
    case Timeout(r) => InPhase(t, r, Waiting)
    case Close(r) => IsLiveFlight(t, r)
    case _ => false
  }

  /** The client was gone: its loop ended, its session was killed, or the command could not be sent;
      the timer ran out while the dispatch waited; its consumer closed it. */
  ghost predicate HasCause(cfg: Config, start: real, events: seq<Event>, cut: set<ConnId>, r: RequestId, f: Flight)
    requires f.phase.Ended?
  {
    match f.phase.outcome
    case ClientGone => f.connection in cut || exists i :: Happened(cfg, start, events, i, SendDone(r, false))
    case TimedOut => exists i :: Happened(cfg, start, events, i, Timeout(r))
    case Nothing => exists i :: Happened(cfg, start, events, i, Close(r))
    case Finished(_, _) => IsComplete(f.yielded)
  }

  lemma HappenedStays(cfg: Config, start: real, events: seq<Event>, e: Event, i: nat, what: Event)
    requires Happened(cfg, start, events, i, what)
    ensures Happened(cfg, start, events + [e], i, what)
  {
    assert (events + [e])[..i] == events[..i];
  }

  lemma CauseStays(cfg: Config, start: real, events: seq<Event>, e: Event, cut: set<ConnId>, cut': set<ConnId>,
                   r: RequestId, f: Flight)
    requires f.phase.Ended? && HasCause(cfg, start, events, cut, r, f) && cut <= cut'
    ensures HasCause(cfg, start, events + [e], cut', r, f)
  {
    match f.phase.outcome
    case ClientGone =>
      if f.connection !in cut {
        var i :| Happened(cfg, start, events, i, SendDone(r, false));
        HappenedStays(cfg, start, events, e, i, SendDone(r, false));
      }
    case TimedOut =>
      var i :| Happened(cfg, start, events, i, Timeout(r));
      HappenedStays(cfg, start, events, e, i, Timeout(r));
    case Nothing =>
      var i :| Happened(cfg, start, events, i, Close(r));
      HappenedStays(cfg, start, events, e, i, Close(r));
    case Finished(_, _) =>
  }

  lemma CutGrows(cfg: Config, s: State, e: Event)
    ensures s.t.cut <= Step(cfg, s, e).t.cut
  {
  }

  /** A step that ends `r`: which one it is, and the outcome it writes. */
  lemma EndingStep(cfg: Config, s: State, e: Event, r: RequestId)
    requires TrafficOk(s.t)
    requires r in Step(cfg, s, e).t.flights && Step(cfg, s, e).t.flights[r].phase.Ended?
    requires !(r in s.t.flights && s.t.flights[r].phase.Ended?)
    ensures var f := Step(cfg, s, e).t.flights[r];
            match f.phase.outcome
            case ClientGone => f.connection in s.t.cut || (e == SendDone(r, false) && Fits(s.t, e))
            case TimedOut => e == Timeout(r) && Fits(s.t, e)
            case Nothing => e == Close(r) && Fits(s.t, e)
            case Finished(_, _) => true
  {
    if e == Next(r) && HasItem(s.t, r) {
      SentinelMeansCut(s.t, r);
    }
  }

  lemma SentinelMeansCut(t: Traffic, r: RequestId)
    requires TrafficOk(t) && r in t.flights && r in t.pending
    ensures Disconnected in t.pending[r].queue ==> t.flights[r].connection in t.cut
  {
    assert OneOk(t, r);
  }

  /** In every reachable state each ended dispatch, and so its entry in the audit trail, has the
      outcome that really happened to it. */
  lemma {:induction false} OutcomeHasItsCause(cfg: Config, start: real, events: seq<Event>, r: RequestId)
    requires var t := Run(cfg, Init(start), events).t; r in t.flights && t.flights[r].phase.Ended?
    ensures var t := Run(cfg, Init(start), events).t;
            HasCause(cfg, start, events, t.cut, r, t.flights[r])
  {
    var front, e := events[..|events| - 1], events[|events| - 1];
    var s, t' := Run(cfg, Init(start), front), Run(cfg, Init(start), events).t;
    assert events == front + [e] && events[..|front|] == front;
    CutGrows(cfg, s, e);
    if r in s.t.flights && s.t.flights[r].phase.Ended? {
      OutcomeHasItsCause(cfg, start, front, r);
      EndedStep(cfg, s, r, e);
      CauseStays(cfg, start, front, e, s.t.cut, t'.cut, r, s.t.flights[r]);
    } else {
      ReachableInv(cfg, start, front);
      ReachableInv(cfg, start, events);
      EndingStep(cfg, s, e, r);
      FlightHolds(t', r);
      assert Fits(s.t, e) ==> Happened(cfg, start, events, |front|, e);
    }
  }

  // ----- Coming to an end -----

  /** What ends a dispatch once it is taken from the queue: the sentinel, or a final message. */
  predicate IsTerminator(i: Item) {
    i.Disconnected? || i.final
  }

  predicate HasTerminator(queue: seq<Item>) {
    exists i :: 0 <= i < |queue| && IsTerminator(queue[i])
  }

  /** The dispatch has not ended, and what will end it is in its hands or in its queue. */
  predicate IsBound(t: Traffic, r: RequestId) {
    && IsLiveFlight(t, r) && r in t.pending
    && (IsFinalHanded(t.flights[r].phase) || HasTerminator(t.pending[r].queue))
  }

  predicate IsFinalHanded(phase: Phase) {
    phase.Handed? && phase.final
  }

  /** How many entries precede the first terminator. */
  function Ahead(queue: seq<Item>): nat {
    if queue == [] || IsTerminator(queue[0]) then 0 else 1 + Ahead(queue[1..])
  }

  /** How many steps of its own a dispatch is away from its end. */
  function Rank(t: Traffic, r: RequestId): nat {
    if !IsBound(t, r) then 0
    else if IsFinalHanded(t.flights[r].phase) then 1
    else
      2 * Ahead(t.pending[r].queue) +
      match t.flights[r].phase
      case Waiting => 2
      case _ => 3
  }

  /** The dispatch's own next step, or its consumer's: no timer, no early close. */
  ghost predicate IsOwnStep(t: Traffic, r: RequestId, e: Event) {
    || (e == SendDone(r, true) && InPhase(t, r, Sending))
    || (e == SendDone(r, false) && InPhase(t, r, Sending))
    || (e == Next(r) && HasItem(t, r))
    || (e == Resume(r) && r in t.flights && t.flights[r].phase.Handed?)
  }

  ghost predicate IsCutShort(e: Event, r: RequestId) {
    e == Timeout(r) || e == Close(r)
  }

  /** It ended because its client went away, or with the client's own result. */
  predicate HasGivenUp(t: Traffic, r: RequestId) {
    && r in t.flights && t.flights[r].phase.Ended?
    && (t.flights[r].phase.outcome.ClientGone? || t.flights[r].phase.outcome.Finished?)
  }

  lemma TerminatorAfterFirst(queue: seq<Item>)
    requires HasTerminator(queue) && !IsTerminator(queue[0])
    ensures HasTerminator(queue[1..])
  {
    var k :| 0 <= k < |queue| && IsTerminator(queue[k]);
    assert IsTerminator(queue[1..][k - 1]);
  }

  lemma {:induction false} AheadStays(queue: seq<Item>, i: Item)
    requires HasTerminator(queue)
    ensures HasTerminator(queue + [i]) && Ahead(queue + [i]) == Ahead(queue)
  {
    var k :| 0 <= k < |queue| && IsTerminator(queue[k]);
    assert IsTerminator((queue + [i])[k]);
    if !IsTerminator(queue[0]) {
      assert (queue + [i])[1..] == queue[1..] + [i];
      TerminatorAfterFirst(queue);
      AheadStays(queue[1..], i);
    }
  }

  /** Each of its own steps brings a bound dispatch closer to its end. */
  lemma OwnStepRank(t: Traffic, r: RequestId, e: Event)
    requires IsBound(t, r) && IsOwnStep(t, r, e)
    ensures var t' := Consume(t, e);
            Rank(t', r) < Rank(t, r) && (IsBound(t', r) || HasGivenUp(t', r))
  {
    if e == Next(r) && !IsTerminator(t.pending[r].queue[0]) {
      TerminatorAfterFirst(t.pending[r].queue);
    }
  }

  lemma CutShortRank(t: Traffic, r: RequestId, e: Event)
    requires IsBound(t, r) && IsCutShort(e, r)
    ensures var t' := Consume(t, e);
            t' == t || (Rank(t', r) == 0 && r in t'.flights && t'.flights[r].phase.Ended?)
  {
  }

  /** One such step is always possible. */
  lemma OwnStepEnabled(t: Traffic, r: RequestId)
    requires IsBound(t, r)
    ensures IsOwnStep(t, r, SendDone(r, true)) || IsOwnStep(t, r, Next(r)) || IsOwnStep(t, r, Resume(r))
    ensures Rank(t, r) > 0
  {
    match t.flights[r].phase
    case Sending => assert IsOwnStep(t, r, SendDone(r, true));
    case Waiting => assert IsOwnStep(t, r, Next(r));
    case Handed(_, _) => assert IsOwnStep(t, r, Resume(r));
  }

  /** `t'` has `r` as `t` has it, but for what was queued since. */
  predicate OnlyQueued(t: Traffic, t': Traffic, r: RequestId) {
    && r in t.flights && r in t'.flights && t'.flights[r] == t.flights[r]
    && r in t.pending && r in t'.pending
    && (t'.pending[r] == t.pending[r]
        || (|t'.pending[r].queue| == |t.pending[r].queue| + 1 && t.pending[r].queue <= t'.pending[r].queue))
  }

  lemma OnlyQueuedRank(t: Traffic, t': Traffic, r: RequestId)
    requires IsBound(t, r) && OnlyQueued(t, t', r)
    ensures IsBound(t', r) && Rank(t', r) == Rank(t, r)
  {
    if t'.pending[r] != t.pending[r] {
      var queue := t'.pending[r].queue;
      assert queue == t.pending[r].queue + [queue[|queue| - 1]];
      if HasTerminator(t.pending[r].queue) {
        AheadStays(t.pending[r].queue, queue[|queue| - 1]);
      }
    }
  }

  lemma OthersConsume(t: Traffic, r: RequestId, e: Event)
    requires IsBound(t, r) && !IsOwnStep(t, r, e) && !IsCutShort(e, r)
    ensures OnlyQueued(t, Consume(t, e), r)
  {
  }

  lemma OthersAct(cfg: Config, s: State, r: RequestId, e: Event)
    requires IsBound(s.t, r) && !IsOwnStep(s.t, r, e) && !IsCutShort(e, r)
    ensures OnlyQueued(s.t, Act(cfg, s, e).t, r)
  {
    OthersConsume(s.t, r, e);
  }

  /** How many steps of its own `r` takes in a run. */
  ghost function OwnSteps(cfg: Config, s: State, events: seq<Event>, r: RequestId): nat {
    if events == [] then 0
    else
      var front, e := events[..|events| - 1], events[|events| - 1];
      OwnSteps(cfg, s, front, r) + if IsOwnStep(Run(cfg, s, front).t, r, e) then 1 else 0
  }

  ghost predicate NeverCutShort(events: seq<Event>, r: RequestId) {
    Timeout(r) !in events && Close(r) !in events
  }

  lemma OthersBound(cfg: Config, s: State, r: RequestId, e: Event)
    requires IsBound(s.t, r) && !IsOwnStep(s.t, r, e) && !IsCutShort(e, r)
    ensures IsBound(Step(cfg, s, e).t, r) && Rank(Step(cfg, s, e).t, r) == Rank(s.t, r)
  {
    var s1 := if TimeOf(e).Some? then s.(clock := TimeOf(e).value) else s;
    OthersAct(cfg, s1, r, e);
    OnlyQueuedRank(s.t, Act(cfg, s1, e).t, r);
  }

  lemma BoundStep(cfg: Config, s: State, r: RequestId, e: Event)
    requires IsBound(s.t, r)
    ensures var t' := Step(cfg, s, e).t;
            && Rank(t', r) + (if IsOwnStep(s.t, r, e) then 1 else 0) <= Rank(s.t, r)
            && (IsBound(t', r) || (r in t'.flights && t'.flights[r].phase.Ended?))
            && (!IsCutShort(e, r) ==> IsBound(t', r) || HasGivenUp(t', r))
  {
    if IsOwnStep(s.t, r, e) {
      OwnStepRank(s.t, r, e);
    } else if IsCutShort(e, r) {
      CutShortRank(s.t, r, e);
    } else {
      OthersBound(cfg, s, r, e);
    }
  }

  lemma EndedStep(cfg: Config, s: State, r: RequestId, e: Event)
    requires r in s.t.flights && s.t.flights[r].phase.Ended?
    ensures var t' := Step(cfg, s, e).t;
            r in t'.flights && t'.flights[r] == s.t.flights[r] && !IsOwnStep(s.t, r, e)
  {
  }

  /** Once a sentinel or a result is queued, a dispatch takes at most `Rank` more steps of its own,
      whatever else happens in between; one is always possible until it has ended; and unless the
      timer or an early close comes first, it ends with `client_disconnected` or with the client's
      result. */
  lemma {:induction false} BoundDispatchEnds(cfg: Config, s: State, events: seq<Event>, r: RequestId)
    requires IsBound(s.t, r)
    ensures var t' := Run(cfg, s, events).t;
            && OwnSteps(cfg, s, events, r) + Rank(t', r) <= Rank(s.t, r)
            && (IsBound(t', r) || (r in t'.flights && t'.flights[r].phase.Ended?))
            && (NeverCutShort(events, r) ==> IsBound(t', r) || HasGivenUp(t', r))
            && (IsBound(t', r) ==> exists e :: IsOwnStep(t', r, e))
    decreases |events|
  {
    if events == [] {
      OwnStepEnabled(s.t, r);
    } else {
      var front, e := events[..|events| - 1], events[|events| - 1];
      var s1 := Run(cfg, s, front);
      BoundDispatchEnds(cfg, s, front, r);
      assert NeverCutShort(events, r) ==> NeverCutShort(front, r) && !IsCutShort(e, r);
      if IsBound(s1.t, r) {
        BoundStep(cfg, s1, r, e);
      } else {
        EndedStep(cfg, s1, r, e);
      }
      if IsBound(Step(cfg, s1, e).t, r) {
        OwnStepEnabled(Step(cfg, s1, e).t, r);
      }
    }
  }

  lemma DisconnectedIsTerminator(queue: seq<Item>)
    requires Disconnected in queue
    ensures HasTerminator(queue)
  {
    var i :| 0 <= i < |queue| && queue[i] == Disconnected;
    assert IsTerminator(queue[i]);
  }

  /** In a reachable state every dispatch still in flight on a cut connection is bound to end. */
  lemma CutIsBound(t: Traffic, r: RequestId)
    requires TrafficOk(t) && IsLiveFlight(t, r) && t.flights[r].connection in t.cut
    ensures IsBound(t, r)
  {
    PendingHolds(t, r);
    DisconnectedIsTerminator(t.pending[r].queue);
  }

  lemma {:induction false} ResultIsTerminator(queue: seq<Item>)
    requires QueueOk(queue) && !NoResult(ChunksIn(queue))
    ensures HasTerminator(queue)
  {
    if queue != [] {
      var front, last := queue[..|queue| - 1], queue[|queue| - 1];
      if IsTerminator(last) {
        assert IsTerminator(queue[|queue| - 1]);
      } else {
        if NoResult(ChunksIn(front)) {
          NoResultSnoc(ChunksIn(front), if last.Delivered? then [last.chunk] else []);
        }
        ResultIsTerminator(front);
        var k :| 0 <= k < |front| && IsTerminator(front[k]);
        assert IsTerminator(queue[k]);
      }
    }
  }

  lemma NoResultSnoc(a: seq<Chunk>, b: seq<Chunk>)
    requires NoResult(a) && NoResult(b)
    ensures NoResult(a + b)
  {
  }

  /** So is one whose connection has sent its result. */
  lemma ResultIsBound(t: Traffic, r: RequestId)
    requires TrafficOk(t) && IsLiveFlight(t, r) && !NoResult(AnswersTo(t, r))
    ensures IsBound(t, r)
  {
    assert OneOk(t, r);
    BoundByResult(t.flights[r], t.pending[r], AnswersTo(t, r), t.flights[r].connection in t.cut);
  }

  lemma BoundByResult(f: Flight, p: Pending, answers: seq<Chunk>, isCut: bool)
    requires FlightOk(f, Some(p), answers, isCut) && !NoResult(answers)
    ensures IsFinalHanded(f.phase) || HasTerminator(p.queue)
  {
    if !IsFinalHanded(f.phase) {
      if f.phase.Handed? {
        EndsWithSplit(f.yielded, f.phase.chunk);
      }
      if NoResult(ChunksIn(p.queue)) {
        NoResultSnoc(f.yielded, ChunksIn(p.queue));
      } else {
        ResultIsTerminator(p.queue);
      }
    }
  }

  lemma WakeWakes(t: Traffic, c: ConnId, r: RequestId)
    requires IsLiveFlight(t, r) && r in t.pending && t.pending[r].connection == c
    ensures IsBound(Wake(t, c), r)
  {
    var queue := Wake(t, c).pending[r].queue;
    assert IsTerminator(queue[|queue| - 1]);
  }

  predicate IsPendingOn(t: Traffic, r: RequestId, c: ConnId) {
    IsLiveFlight(t, r) && r in t.pending && t.pending[r].connection == c
  }

  /** In a reachable state the dispatches of a connection that have not ended are pending on it. */
  lemma LiveIsPending(t: Traffic, r: RequestId)
    requires TrafficOk(t) && IsLiveFlight(t, r)
    ensures IsPendingOn(t, r, t.flights[r].connection)
  {
    PendingHolds(t, r);
  }

  /** The end of a WebSocket loop, and a kill-switch that finds its session, wake every request
      pending on that connection. */
  lemma DisconnectWakes(cfg: Config, s: State, c: ConnId, r: RequestId)
    requires IsOpen(s, c) && IsPendingOn(s.t, r, c)
    ensures IsBound(Step(cfg, s, Disconnect(c)).t, r)
  {
    WakeWakes(s.t, c, r);
  }

  lemma TerminateWakes(cfg: Config, s: State, code: string, r: RequestId)
    requires code in s.records && IsPendingOn(s.t, r, s.records[code].connection)
    ensures IsBound(Step(cfg, s, Terminate(code)).t, r)
  {
    WakeWakes(s.t, s.records[code].connection, r);
  }

  /** The loop of `c` ends, or the kill-switch hits its session. */
  ghost predicate CutsOff(s: State, e: Event, c: ConnId) {
    || (e == Disconnect(c) && IsOpen(s, c))
    || (e.Terminate? && e.code in s.records && s.records[e.code].connection == c)
  }

  /** From any reachable state: once connection `c` is cut off, every dispatch in flight on it has
      its terminator and comes to an end in a bounded number of its own steps, without the timer. */
  lemma CutOffRequestsEnd(cfg: Config, start: real, before: seq<Event>, e: Event, after: seq<Event>, c: ConnId,
                          r: RequestId)
    requires CutsOff(Run(cfg, Init(start), before), e, c)
    requires IsLiveFlight(Run(cfg, Init(start), before).t, r)
    requires Run(cfg, Init(start), before).t.flights[r].connection == c
    ensures var s := Step(cfg, Run(cfg, Init(start), before), e);
            var t' := Run(cfg, s, after).t;
            && IsBound(s.t, r)
            && OwnSteps(cfg, s, after, r) + Rank(t', r) <= Rank(s.t, r)
            && (NeverCutShort(after, r) ==> IsBound(t', r) || HasGivenUp(t', r))
            && (IsBound(t', r) ==> exists o :: IsOwnStep(t', r, o))
  {
    var s := Run(cfg, Init(start), before);
    ReachableInv(cfg, start, before);
    LiveIsPending(s.t, r);
    if e.Terminate? {
      TerminateWakes(cfg, s, e.code, r);
    } else {
      DisconnectWakes(cfg, s, c, r);
    }
    BoundDispatchEnds(cfg, Step(cfg, s, e), after, r);
  }

  // ----- No resurrection -----

  /** The frames sent to a connection. */
  function FramesTo(frames: seq<Frame>, c: ConnId): seq<Frame> {
    if frames == [] then []
    else if frames[|frames| - 1].connection == c then FramesTo(frames[..|frames| - 1], c) + [frames[|frames| - 1]]
    else FramesTo(frames[..|frames| - 1], c)
  }

  lemma FramesToSnoc(frames: seq<Frame>, f: Frame, c: ConnId)
    ensures FramesTo(frames + [f], c) == FramesTo(frames, c) + if f.connection == c then [f] else []
  {
    assert (frames + [f])[..|frames|] == frames;
  }

  /** The commands of a connection: its frames, and the dispatches bound to it. */
  ghost predicate NoneNew(t: Traffic, t': Traffic, c: ConnId) {
    && FramesTo(t'.frames, c) == FramesTo(t.frames, c)
    && forall r :: r in t'.flights && t'.flights[r].connection == c ==> r in t.flights && t.flights[r].connection == c
  }

  lemma CutDispatch(cfg: Config, s: State, c: ConnId, e: Event)
    requires RegistryOk(s) && c in s.t.cut && e.Dispatch?
    ensures c in Act(cfg, s, e).t.cut && NoneNew(s.t, Act(cfg, s, e).t, c)
  {
    if e.r !in s.t.flights && IsLive(s.records, e.code, e.now) {
      assert RecordOk(s, e.code);
      FramesToSnoc(s.t.frames, Frame(e.r, s.records[e.code].connection, e.code, e.tool, e.params, e.now), c);
    }
  }

  lemma CutAct(cfg: Config, s: State, c: ConnId, e: Event)
    requires RegistryOk(s) && c in s.t.cut
    ensures c in Act(cfg, s, e).t.cut && NoneNew(s.t, Act(cfg, s, e).t, c)
  {
    if e.Dispatch? {
      CutDispatch(cfg, s, c, e);
    } else {
      ConsumeIsLocal(s.t, e);
      ConsumeKeepsCalls(s.t, e);
    }
  }

  lemma RegistryStep(cfg: Config, s: State, e: Event)
    requires RegistryOk(s)
    ensures RegistryOk(Step(cfg, s, e))
  {
    var s1 := if TimeOf(e).Some? then s.(clock := TimeOf(e).value) else s;
    QuietRegistry(s, s1);
    RegistryAct(cfg, s1, e);
  }

  lemma CutStep(cfg: Config, s: State, c: ConnId, e: Event)
    requires RegistryOk(s) && c in s.t.cut
    ensures c in Step(cfg, s, e).t.cut && NoneNew(s.t, Step(cfg, s, e).t, c)
  {
    var s1 := if TimeOf(e).Some? then s.(clock := TimeOf(e).value) else s;
    QuietRegistry(s, s1);
    CutAct(cfg, s1, c, e);
  }

  lemma CutHasNoCode(s: State, c: ConnId)
    requires RegistryOk(s) && c in s.t.cut
    ensures forall code :: code in s.records ==> s.records[code].connection != c
  {
    forall code | code in s.records
      ensures s.records[code].connection != c
    {
      assert RecordOk(s, code);
    }
  }

  /** Nothing is ever dispatched again to a connection whose loop ended or whose session was
      killed: it holds no code, gets no frame, and no new dispatch is bound to it. */
  lemma {:induction false} CutIsForEver(cfg: Config, s: State, events: seq<Event>, c: ConnId)
    requires RegistryOk(s) && c in s.t.cut
    ensures var s' := Run(cfg, s, events);
            && RegistryOk(s') && c in s'.t.cut && NoneNew(s.t, s'.t, c)
            && forall code :: code in s'.records ==> s'.records[code].connection != c
  {
    if events != [] {
      var front, e := events[..|events| - 1], events[|events| - 1];
      CutIsForEver(cfg, s, front, c);
      RegistryStep(cfg, Run(cfg, s, front), e);
      CutStep(cfg, Run(cfg, s, front), c, e);
    }
    CutHasNoCode(Run(cfg, s, events), c);
  }

  // ----- The audit trail -----

  /** In every reachable state the pending requests are exactly the dispatches in flight, and the
      "allowed" entries of the trail are, in order and one each, those of the dispatches that have
      ended, with the outcome they ended with. */
  lemma EachDispatchIsAuditedOnce(cfg: Config, start: real, events: seq<Event>)
    ensures var t := Run(cfg, Init(start), events).t;
            && (forall r :: r in t.pending <==> IsLiveFlight(t, r))
            && (forall r :: r in t.ended <==> r in t.flights && t.flights[r].phase.Ended?)
            && (forall i, j :: 0 <= i < j < |t.ended| ==> t.ended[i] != t.ended[j])
            && |EndEntries(t.trail)| == |t.ended|
            && (forall i :: 0 <= i < |t.ended| ==> EntryFor(t, t.ended[i], EndEntries(t.trail)[i]))
  {
    ReachableInv(cfg, start, events);
    var t := Run(cfg, Init(start), events).t;
    forall r
      ensures r in t.pending <==> IsLiveFlight(t, r)
    {
      if r in t.flights {
        PendingHolds(t, r);
      }
    }
  }

  /** What the trail says about refusals. */
  function DeniedEntries(trail: seq<AuditEntry>): seq<AuditEntry> {
    if trail == [] then []
    else if trail[|trail| - 1].DeniedEntry? then DeniedEntries(trail[..|trail| - 1]) + [trail[|trail| - 1]]
    else DeniedEntries(trail[..|trail| - 1])
  }

  lemma DeniedSnoc(trail: seq<AuditEntry>, a: AuditEntry)
    ensures DeniedEntries(trail + [a]) == DeniedEntries(trail) + if a.DeniedEntry? then [a] else []
  {
    assert (trail + [a])[..|trail|] == trail;
  }

  /** A command for a live session that the policy does not let through, given all it has let
      through so far. */
  ghost predicate IsRefused(cfg: Config, s: State, e: Event) {
    && e.Dispatch? && s.clock <= e.now && e.r !in s.t.flights && IsLive(s.records, e.code, e.now)
    && !Policy.Admits(cfg.policy, s.t.admissions, e.code, Policy.Subject(e.tool, e.params), e.now)
  }

  /** Entry `a` states why `e` was refused. */
  ghost predicate Explains(cfg: Config, s: State, e: Event, a: AuditEntry)
    requires e.Dispatch?
  {
    && a.DeniedEntry? && a.code == e.code && a.tool == e.tool
    && Policy.Decides(Policy.Refused(a.reason), cfg.policy, s.t.admissions, e.code, Policy.Subject(e.tool, e.params),
                      e.now)
  }

  /** The trail gains one explained "denied" entry for each refusal, in order, and no other. */
  ghost predicate RefusalsLogged(cfg: Config, s: State, events: seq<Event>, logged: seq<AuditEntry>) {
    if events == [] then logged == []
    else
      var front, e := events[..|events| - 1], events[|events| - 1];
      if IsRefused(cfg, Run(cfg, s, front), e) then
        && logged != [] && RefusalsLogged(cfg, s, front, logged[..|logged| - 1])
        && Explains(cfg, Run(cfg, s, front), e, logged[|logged| - 1])
      else RefusalsLogged(cfg, s, front, logged)
  }

  lemma ConsumeDenies(t: Traffic, e: Event)
    ensures DeniedEntries(Consume(t, e).trail) == DeniedEntries(t.trail)
  {
    var t' := Consume(t, e);
    if t'.trail != t.trail {
      assert t'.trail == t.trail + [t'.trail[|t.trail|]] && t'.trail[|t.trail|].AllowedEntry?;
      DeniedSnoc(t.trail, t'.trail[|t.trail|]);
    }
  }

  lemma DeniedDispatch(cfg: Config, s: State, e: Event)
    requires IsRefused(cfg, s, e)
    ensures var t, t' := s.t, Step(cfg, s, e).t;
            && |t'.trail| == |t.trail| + 1 && Explains(cfg, s, e, t'.trail[|t.trail|])
            && t' == t.(trail := t.trail + [t'.trail[|t.trail|]])
  {
    Policy.DecideDecides(cfg.policy, s.t.admissions, e.code, Policy.Subject(e.tool, e.params), e.now);
  }

  lemma OtherDispatch(cfg: Config, s: State, e: Event)
    requires e.Dispatch? && !IsRefused(cfg, s, e)
    ensures Step(cfg, s, e).t.trail == s.t.trail
  {
    Policy.DecideDecides(cfg.policy, s.t.admissions, e.code, Policy.Subject(e.tool, e.params), e.now);
  }

  /** A refusal adds its entry, leaves nothing pending and sends nothing; any other step adds none. */
  lemma DeniedStep(cfg: Config, s: State, e: Event)
    ensures var t, t' := s.t, Step(cfg, s, e).t;
            if IsRefused(cfg, s, e) then
              && |t'.trail| == |t.trail| + 1 && Explains(cfg, s, e, t'.trail[|t.trail|])
              && DeniedEntries(t'.trail) == DeniedEntries(t.trail) + [t'.trail[|t.trail|]]
              && t' == t.(trail := t'.trail)
            else DeniedEntries(t'.trail) == DeniedEntries(t.trail)
  {
    var t, t' := s.t, Step(cfg, s, e).t;
    if IsRefused(cfg, s, e) {
      DeniedDispatch(cfg, s, e);
      DeniedSnoc(t.trail, t'.trail[|t.trail|]);
    } else if e.Dispatch? {
      OtherDispatch(cfg, s, e);
    } else if e.Terminate? {
      DeniedSnoc(t.trail, t'.trail[|t.trail|]);
    } else {
      ConsumeDenies(t, e);
    }
  }

  lemma {:induction false} EachRefusalIsAuditedOnce(cfg: Config, start: real, events: seq<Event>)
    ensures RefusalsLogged(cfg, Init(start), events, DeniedEntries(Run(cfg, Init(start), events).t.trail))
  {
    if events != [] {
      var front, e := events[..|events| - 1], events[|events| - 1];
      EachRefusalIsAuditedOnce(cfg, start, front);
      var s := Run(cfg, Init(start), front);
      DeniedStep(cfg, s, e);
      var logged := DeniedEntries(Step(cfg, s, e).t.trail);
      if IsRefused(cfg, s, e) {
        assert logged[..|logged| - 1] == DeniedEntries(s.t.trail);
      }
    }
  }

  // ----- The frames sent -----

  /** When `command` frames naming `code` were sent. */
  function FrameTimes(frames: seq<Frame>, code: string): seq<real> {
    if frames == [] then []
    else
      var before, last := FrameTimes(frames[..|frames| - 1], code), frames[|frames| - 1];
      if last.code == code then before + [last.at] else before
  }

  lemma {:induction false} FramesAreAdmissions(frames: seq<Frame>, admissions: seq<Policy.Admission>, code: string)
    requires |frames| == |admissions|
    requires forall i :: 0 <= i < |frames| ==> admissions[i] == Policy.Admission(frames[i].code, frames[i].at)
    ensures FrameTimes(frames, code) == Policy.TimesOf(admissions, code)
  {
    if frames != [] {
      FramesAreAdmissions(frames[..|frames| - 1], admissions[..|admissions| - 1], code);
    }
  }

  /** Over every run, the `command` frames that leave the relay for one code are at most the rate
      limit in any window of sixty seconds, and at most the quota in all. */
  lemma FramesStayWithinLimits(cfg: Config, start: real, events: seq<Event>, code: string, at: real)
    ensures var times := FrameTimes(Run(cfg, Init(start), events).t.frames, code);
            && (cfg.policy.ratePerMinute.Some? ==>
                  Policy.CountIn(times, at - 60.0, at) <=
                  if cfg.policy.ratePerMinute.value > 0 then cfg.policy.ratePerMinute.value else 0)
            && (cfg.policy.maxCommands.Some? ==>
                  |times| <= if cfg.policy.maxCommands.value > 0 then cfg.policy.maxCommands.value else 0)
  {
    ReachableInv(cfg, start, events);
    var t := Run(cfg, Init(start), events).t;
    FramesMatch(cfg, t);
    FramesAreAdmissions(t.frames, t.admissions, code);
    WithinMeans(cfg.policy, t.admissions, code, at);
  }

  lemma FramesMatch(cfg: Config, t: Traffic)
    requires FramesOk(cfg, t)
    ensures |t.frames| == |t.admissions| && Policy.WithinLimits(cfg.policy, t.admissions)
    ensures forall i :: 0 <= i < |t.frames| ==> t.admissions[i] == Policy.Admission(t.frames[i].code, t.frames[i].at)
  {
    forall i | 0 <= i < |t.frames|
      ensures t.admissions[i] == Policy.Admission(t.frames[i].code, t.frames[i].at)
    {
      assert FrameFor(t, t.frames[i], t.admissions[i]);
    }
  }

  lemma WithinMeans(p: Policy.Config, history: seq<Policy.Admission>, code: string, at: real)
    requires Policy.WithinLimits(p, history)
    ensures var times := Policy.TimesOf(history, code);
            && (p.ratePerMinute.Some? ==>
                  Policy.CountIn(times, at - 60.0, at) <=
                  if p.ratePerMinute.value > 0 then p.ratePerMinute.value else 0)
            && (p.maxCommands.Some? ==> |times| <= if p.maxCommands.value > 0 then p.maxCommands.value else 0)
  {
    var times := Policy.TimesOf(history, code);
    assert Policy.LimitsHold(p, times);
    if p.ratePerMinute.Some? {
      Policy.SpacedIsBounded(times, p.ratePerMinute.value, at);
    }
  }

  // ----- The registry -----

  /** In every reachable state each record sits under its own code and belongs to an open loop that
      was given that code, so no two records share a connection. */
  lemma RegistryIsOneToOne(cfg: Config, start: real, events: seq<Event>, a: string, b: string)
    requires var s := Run(cfg, Init(start), events); a in s.records && b in s.records
    ensures var s := Run(cfg, Init(start), events);
            && s.records[a].code == a && IsOpen(s, s.records[a].connection)
            && (s.records[a].connection == s.records[b].connection ==> a == b)
  {
    ReachableInv(cfg, start, events);
    var s := Run(cfg, Init(start), events);
    assert RecordOk(s, a) && RecordOk(s, b);
  }

  /** The code a wish leads to: none, or a free one, and when it is the one wished for. */
  lemma WishTells(isDigit: char -> bool, records: Records, desired: Option<string>, draws: nat -> string)
    ensures var code := Chosen(isDigit, records, Normalize(isDigit, desired), draws);
            && (code.Some? ==> code.value !in records)
            && (code.None? <==>
                  && (forall i: nat :: i < 100 ==> draws(i) in records)
                  && !(desired.Some? && IsNineDigits(isDigit, desired.value) && desired.value !in records))
            && (desired.Some? ==>
                  (code == desired <==>
                     desired.value !in records
                     && (IsNineDigits(isDigit, desired.value) || IsDrawn(records, draws, desired.value))))
  {
    FirstFreeIsFirst(records, draws, 0);
    if desired.Some? {
      DrawnIsFirstFree(records, draws, desired.value);
    }
  }

  /** Registering takes no one else's code and touches no one else's record, even when it fails;
      the desired code is granted exactly when it is well-formed and free, or happens to be drawn. */
  lemma RegisterTakesNothing(cfg: Config, s: State, c: ConnId, details: Details, desired: Option<string>,
                             draws: nat -> string, now: real)
    requires RegistryOk(s) && IsOpen(s, c) && s.loops[c].session.None? && s.clock <= now
    ensures var s' := Step(cfg, s, Register(c, details, desired, draws, now));
            && (forall code :: code in s.records ==> code in s'.records && s'.records[code] == s.records[code])
            && (s'.loops[c].Closed? <==>
                  && (forall i: nat :: i < 100 ==> draws(i) in s.records)
                  && !(desired.Some? && IsNineDigits(cfg.isDigit, desired.value) && desired.value !in s.records))
            && (desired.Some? ==>
                  (s'.loops[c] == Open(desired) <==>
                     desired.value !in s.records
                     && (IsNineDigits(cfg.isDigit, desired.value) || IsDrawn(s.records, draws, desired.value))))
            && (s'.loops[c].Open? ==>
                  s'.loops[c].session.Some? && s'.loops[c].session.value !in s.records
                  && s'.records == Created(s.records, s'.loops[c].session.value, c, details, now, cfg.ttl))
  {
    WishTells(cfg.isDigit, s.records, desired, draws);
    forall code | code in s.records
      ensures s.records[code].connection != c
    {
      assert RecordOk(s, code);
    }
  }

  /** A connection that was given a code never holds a record under any other. */
  lemma {:induction false} OneSessionForLife(cfg: Config, s: State, events: seq<Event>, c: ConnId, code: string)
    requires RegistryOk(s) && SessionOf(s, c) == Some(code)
    ensures var s' := Run(cfg, s, events);
            && RegistryOk(s') && SessionOf(s', c) == Some(code)
            && forall k :: k in s'.records && s'.records[k].connection == c ==> k == code
  {
    if events != [] {
      var front, e := events[..|events| - 1], events[|events| - 1];
      OneSessionForLife(cfg, s, front, c, code);
      var s1 := Run(cfg, s, front);
      RegistryStep(cfg, s1, e);
      LoopsAct(cfg, if TimeOf(e).Some? then s1.(clock := TimeOf(e).value) else s1, e);
    }
    var s' := Run(cfg, s, events);
    forall k | k in s'.records && s'.records[k].connection == c
      ensures k == code
    {
      assert RecordOk(s', k);
    }
  }

  // ----- The time to live -----

  /** In state `s`, the event registers `code`, or is a heartbeat of a loop that was given it. */
  ghost predicate Refreshes(cfg: Config, s: State, e: Event, code: string) {
    || (e.Heartbeat? && e.conn in s.loops && s.loops[e.conn] == Open(Some(code)))
    || (e.Register? && e.conn in s.loops && s.loops[e.conn] == Open(None)
        && Step(cfg, s, e).loops[e.conn] == Open(Some(code)))
  }

  /** Event number `i` of the run did so at time `t`. */
  ghost predicate RefreshedAt(cfg: Config, start: real, events: seq<Event>, i: nat, code: string, t: real) {
    i < |events| && TimeOf(events[i]) == Some(t) && Refreshes(cfg, Run(cfg, Init(start), events[..i]), events[i], code)
  }

  /** The code was refreshed less than the time to live before `at`. */
  ghost predicate IsFresh(cfg: Config, start: real, events: seq<Event>, code: string, at: real) {
    exists i, t :: RefreshedAt(cfg, start, events, i, code, t) && t <= at < t + cfg.ttl
  }

  /** The end of a record's life was set by one of the events, not later than now. */
  ghost predicate LifeOk(cfg: Config, start: real, events: seq<Event>, s: State, code: string)
    requires code in s.records
  {
    exists i, t ::
      RefreshedAt(cfg, start, events, i, code, t) && t <= s.clock && s.records[code].expiresAt == t + cfg.ttl
  }

  lemma RefreshStays(cfg: Config, start: real, events: seq<Event>, e: Event, i: nat, code: string, t: real)
    requires RefreshedAt(cfg, start, events, i, code, t)
    ensures RefreshedAt(cfg, start, events + [e], i, code, t)
  {
    assert (events + [e])[..i] == events[..i];
  }

  lemma ClockMovesOn(cfg: Config, s: State, e: Event)
    ensures s.clock <= Step(cfg, s, e).clock
  {
  }

  /** A step leaves a record's end of life alone, or sets it from its own time. */
  lemma LivesStep(cfg: Config, s: State, e: Event, code: string)
    requires code in Step(cfg, s, e).records
    ensures var s' := Step(cfg, s, e);
            || (code in s.records && s'.records[code].expiresAt == s.records[code].expiresAt)
            || (Refreshes(cfg, s, e, code) && TimeOf(e).Some? && TimeOf(e).value <= s'.clock
                && s'.records[code].expiresAt == TimeOf(e).value + cfg.ttl)
  {
  }

  lemma {:induction false} RecordsAreRefreshed(cfg: Config, start: real, events: seq<Event>, code: string)
    requires code in Run(cfg, Init(start), events).records
    ensures LifeOk(cfg, start, events, Run(cfg, Init(start), events), code)
  {
    var front, e := events[..|events| - 1], events[|events| - 1];
    var s, s' := Run(cfg, Init(start), front), Run(cfg, Init(start), events);
    assert events == front + [e];
    ClockMovesOn(cfg, s, e);
    LivesStep(cfg, s, e, code);
    if code in s.records && s'.records[code].expiresAt == s.records[code].expiresAt {
      RecordsAreRefreshed(cfg, start, front, code);
      var i, t :| RefreshedAt(cfg, start, front, i, code, t) && t <= s.clock
                  && s.records[code].expiresAt == t + cfg.ttl;
      RefreshStays(cfg, start, front, e, i, code, t);
    } else {
      assert RefreshedAt(cfg, start, events, |front|, code, TimeOf(e).value);
    }
  }

  /** A step sends at most one frame, now, and only to a session that is alive. */
  lemma FrameStep(cfg: Config, s: State, e: Event)
    ensures var s' := Step(cfg, s, e);
            || s'.t.frames == s.t.frames
            || exists f: Frame :: f.code in s.records && s.clock <= f.at < s.records[f.code].expiresAt
                               && s'.t.frames == s.t.frames + [f]
  {
    if e.Dispatch? {
      var s' := Step(cfg, s, e);
      if s'.t.frames != s.t.frames {
        var f := s'.t.frames[|s.t.frames|];
        assert f.code in s.records && f.at < s.records[f.code].expiresAt && s'.t.frames == s.t.frames + [f];
      }
    } else {
      ConsumeIsLocal(s.t, e);
    }
  }

  /** Over any run each `command` frame names a code that was registered, or refreshed by a heartbeat
      of a loop that was given it, less than the time to live before. */
  lemma {:induction false} FramesAreFresh(cfg: Config, start: real, events: seq<Event>, k: nat)
    requires k < |Run(cfg, Init(start), events).t.frames|
    ensures var f := Run(cfg, Init(start), events).t.frames[k];
            IsFresh(cfg, start, events, f.code, f.at)
  {
    var front, e := events[..|events| - 1], events[|events| - 1];
    var s := Run(cfg, Init(start), front);
    assert events == front + [e];
    FrameStep(cfg, s, e);
    if k < |s.t.frames| {
      var f := s.t.frames[k];
      FramesAreFresh(cfg, start, front, k);
      var i, t :| RefreshedAt(cfg, start, front, i, f.code, t) && t <= f.at < t + cfg.ttl;
      RefreshStays(cfg, start, front, e, i, f.code, t);
    } else {
      var f := Run(cfg, Init(start), events).t.frames[k];
      RecordsAreRefreshed(cfg, start, front, f.code);
      var i, t :| RefreshedAt(cfg, start, front, i, f.code, t) && t <= s.clock
                  && s.records[f.code].expiresAt == t + cfg.ttl;
      RefreshStays(cfg, start, front, e, i, f.code, t);
    }
  }
}
