/** What every interleaving keeps: the registry, the queues of pending requests, the audit trail
    and the policy's limits, in every state a run can reach. */
module BrokerSafety {
  import opened Common
  import opened Protocol
  import opened SessionStore
  import opened BrokerSpec
  import Policy = CommandPolicy

  // ----- The registry -----

  /** A record sits under its own code and belongs to a loop that was given that very code. */
  ghost predicate RecordOk(s: State, code: string)
    requires code in s.records
  {
    var rec := s.records[code];
    && rec.code == code && rec.connection !in s.t.cut
    && rec.connection in s.loops && s.loops[rec.connection] == Open(Some(code))
  }

  /** In particular a connection has one record at most; and one that was cut has none and cannot
      get one again. */
  ghost predicate RegistryOk(s: State) {
    && (forall code :: code in s.records ==> RecordOk(s, code))
    && (forall c :: c in s.t.cut ==> c in s.loops && s.loops[c] != Open(None))
  }

  lemma RegisteredRegistry(cfg: Config, s: State, c: ConnId, details: Details, raw: Option<string>,
                           draws: nat -> string, now: real)
    requires RegistryOk(s)
    ensures RegistryOk(Registered(cfg, s, c, details, raw, draws, now))
  {
    var s' := Registered(cfg, s, c, details, raw, draws, now);
    FirstFreeIsFirst(s.records, draws, 0);
    forall code | code in s'.records
      ensures RecordOk(s', code)
    {
      assert code in s.records ==> RecordOk(s, code);
    }
  }

  lemma UnregisteredRegistry(s: State, c: ConnId)
    requires RegistryOk(s)
    ensures RegistryOk(Unregistered(s, c))
  {
    var s' := Unregistered(s, c);
    forall code | code in s'.records
      ensures RecordOk(s', code)
    {
      assert RecordOk(s, code);
    }
  }

  lemma TerminatedRegistry(s: State, code: string)
    requires RegistryOk(s)
    ensures RegistryOk(Terminated(s, code))
  {
    var s' := Terminated(s, code);
    assert code in s.records ==> RecordOk(s, code);
    forall k | k in s'.records
      ensures RecordOk(s', k)
    {
      assert RecordOk(s, k);
    }
  }

  /** Fewer or refreshed records, more loops, and no new cut. */
  lemma QuietRegistry(s: State, s': State)
    requires RegistryOk(s) && s'.t.cut == s.t.cut
    requires forall code :: code in s'.records ==> code in s.records && SameHolder(s.records[code], s'.records[code])
    requires forall c :: c in s.loops ==> c in s'.loops && s'.loops[c] == s.loops[c]
    ensures RegistryOk(s')
  {
    forall code | code in s'.records
      ensures RecordOk(s', code)
    {
      assert RecordOk(s, code);
    }
  }

  predicate SameHolder(a: Record, b: Record) {
    a.code == b.code && a.connection == b.connection
  }

  lemma ConsumeIsLocal(t: Traffic, e: Event)
    ensures var t' := Consume(t, e);
            t'.cut == t.cut && t'.heard == t.heard && t'.frames == t.frames && t'.admissions == t.admissions
  {
  }

  lemma QuietAct(cfg: Config, s: State, e: Event)
    requires RegistryOk(s) && (e.Dispatch? || e.Connect? || e.Heartbeat? || e.Inspect? || e.Hear?)
    ensures RegistryOk(Act(cfg, s, e))
  {
    QuietRegistry(s, Act(cfg, s, e));
  }

  lemma RegistryAct(cfg: Config, s: State, e: Event)
    requires RegistryOk(s)
    ensures RegistryOk(Act(cfg, s, e))
  {
    match e
    case Register(c, details, raw, draws, now) => RegisteredRegistry(cfg, s, c, details, raw, draws, now);
    case Disconnect(c) => UnregisteredRegistry(s, c);
    case Terminate(code) => TerminatedRegistry(s, code);
    case Dispatch(_, _, _, _, _) => QuietAct(cfg, s, e);
    case Connect(_) => QuietAct(cfg, s, e);
    case Heartbeat(_, _) => QuietAct(cfg, s, e);
    case Inspect(_, _) => QuietAct(cfg, s, e);
    case Hear(_, _) => QuietAct(cfg, s, e);
    case _ =>
      ConsumeIsLocal(s.t, e);
      QuietRegistry(s, s.(t := Consume(s.t, e)));
  }

  // ----- One dispatch -----

  ghost predicate QueueOk(queue: seq<Item>) {
    forall i :: 0 <= i < |queue| && queue[i].Delivered? ==> queue[i].final == queue[i].chunk.Result?
  }

  /** The last chunk is `c`, and no result came before it. */
  ghost predicate EndsWith(yielded: seq<Chunk>, c: Chunk) {
    |yielded| > 0 && yielded[|yielded| - 1] == c && NoResult(yielded[..|yielded| - 1])
  }

  ghost predicate IsComplete(yielded: seq<Chunk>) {
    |yielded| > 0 && yielded[|yielded| - 1].Result? && NoResult(yielded[..|yielded| - 1])
  }

  /** Where the dispatch stands and what it has yielded agree. */
  ghost predicate PhaseOk(phase: Phase, yielded: seq<Chunk>) {
    match phase
    case Sending => yielded == []
    case Waiting => NoResult(yielded)
    case Handed(c, final) => EndsWith(yielded, c) && final == c.Result?
    case Ended(Finished(x, e)) =>
      IsComplete(yielded) && yielded[|yielded| - 1].exitCode == x && yielded[|yielded| - 1].error == e
    case Ended(_) => NoResult(yielded) || IsComplete(yielded)
  }

  /** A dispatch `f`, its place in the pending table, and what its connection has said about it
      since it started. */
  ghost predicate FlightOk(f: Flight, p: Option<Pending>, answers: seq<Chunk>, isCut: bool) {
    && PhaseOk(f.phase, f.yielded)
    && (p.None? <==> f.phase.Ended?)
    && match p
       case None => f.yielded <= answers
       case Some(p) =>
         && p.connection == f.connection
         && f.yielded + ChunksIn(p.queue) == answers
         && QueueOk(p.queue)
         && (isCut <==> Disconnected in p.queue)
  }

  function PendingOf(t: Traffic, r: RequestId): Option<Pending> {
    if r in t.pending then Some(t.pending[r]) else None
  }

  /** What the owner of the dispatch has said about it since it started. */
  function AnswersTo(t: Traffic, r: RequestId): seq<Chunk>
    requires r in t.flights
  {
    var f := t.flights[r];
    if f.since <= |t.heard| then Answers(t.heard[f.since..], f.connection, r) else []
  }

  ghost predicate OneOk(t: Traffic, r: RequestId)
    requires r in t.flights
  {
    var f := t.flights[r];
    f.since <= |t.heard| && FlightOk(f, PendingOf(t, r), AnswersTo(t, r), f.connection in t.cut)
  }

  ghost predicate TrafficOk(t: Traffic) {
    && (forall r {:trigger OneOk(t, r)} :: r in t.flights ==> OneOk(t, r))
    && (forall r :: r in t.pending ==> r in t.flights)
  }

  lemma ChunksSnoc(queue: seq<Item>, i: Item)
    ensures ChunksIn(queue + [i]) == ChunksIn(queue) + if i.Delivered? then [i.chunk] else []
  {
    assert (queue + [i])[..|queue|] == queue;
  }

  lemma {:induction false} ChunksHead(queue: seq<Item>)
    requires queue != []
    ensures ChunksIn(queue) == (if queue[0].Delivered? then [queue[0].chunk] else []) + ChunksIn(queue[1..])
  {
    if |queue| > 1 {
      ChunksHead(queue[..|queue| - 1]);
      assert queue[..|queue| - 1][1..] == queue[1..][..|queue| - 2];
    } else {
      assert queue[..0] == [] && queue[1..] == [];
    }
  }

  lemma AnswersSnoc(heard: seq<Heard>, h: Heard, c: ConnId, r: RequestId)
    ensures Answers(heard + [h], c, r) ==
            Answers(heard, c, r) + if h.connection == c && h.wire.requestId == Some(r) then [h.wire.chunk] else []
  {
    assert (heard + [h])[..|heard|] == heard;
  }

  lemma SentinelFlight(f: Flight, p: Pending, answers: seq<Chunk>, isCut: bool)
    requires FlightOk(f, Some(p), answers, isCut)
    ensures FlightOk(f, Some(p.(queue := p.queue + [Disconnected])), answers, true)
  {
    ChunksSnoc(p.queue, Disconnected);
  }

  lemma MessageFlight(f: Flight, p: Pending, answers: seq<Chunk>, isCut: bool, c: Chunk)
    requires FlightOk(f, Some(p), answers, isCut)
    ensures FlightOk(f, Some(p.(queue := p.queue + [Delivered(c, c.Result?)])), answers + [c], isCut)
  {
    ChunksSnoc(p.queue, Delivered(c, c.Result?));
  }

  lemma HandedFlight(f: Flight, p: Pending, answers: seq<Chunk>, isCut: bool)
    requires FlightOk(f, Some(p), answers, isCut) && f.phase == Waiting && p.queue != [] && p.queue[0].Delivered?
    ensures FlightOk(f.(yielded := f.yielded + [p.queue[0].chunk], phase := Handed(p.queue[0].chunk, p.queue[0].final)),
                     Some(p.(queue := p.queue[1..])), answers, isCut)
  {
    var c := p.queue[0].chunk;
    ChunksHead(p.queue);
    assert f.yielded + [c] + ChunksIn(p.queue[1..]) == f.yielded + ([c] + ChunksIn(p.queue[1..]));
    assert (f.yielded + [c])[..|f.yielded|] == f.yielded;
    assert Disconnected in p.queue ==> Disconnected in p.queue[1..];
  }

  lemma EndedFlight(f: Flight, p: Pending, answers: seq<Chunk>, isCut: bool, o: Outcome)
    requires FlightOk(f, Some(p), answers, isCut) && PhaseOk(Ended(o), f.yielded)
    ensures FlightOk(f.(phase := Ended(o)), None, answers, isCut)
  {
  }

  lemma MovedFlight(f: Flight, p: Pending, answers: seq<Chunk>, isCut: bool, phase: Phase)
    requires FlightOk(f, Some(p), answers, isCut) && PhaseOk(phase, f.yielded) && !phase.Ended?
    ensures FlightOk(f.(phase := phase), Some(p), answers, isCut)
  {
  }

  lemma EndsWithSplit(yielded: seq<Chunk>, c: Chunk)
    requires EndsWith(yielded, c) && !c.Result?
    ensures NoResult(yielded)
  {
    assert yielded == yielded[..|yielded| - 1] + [c];
  }

  /** A dispatch may end without a final outcome at any moment. */
  lemma AbandonedPhase(phase: Phase, yielded: seq<Chunk>, o: Outcome)
    requires PhaseOk(phase, yielded) && !phase.Ended? && !o.Finished?
    ensures PhaseOk(Ended(o), yielded)
  {
    if phase.Handed? && !phase.chunk.Result? {
      EndsWithSplit(yielded, phase.chunk);
    }
  }

  lemma ResumedPhase(phase: Phase, yielded: seq<Chunk>)
    requires PhaseOk(phase, yielded) && phase.Handed?
    ensures phase.final ==> PhaseOk(Ended(OutcomeOf(phase.chunk)), yielded)
    ensures !phase.final ==> PhaseOk(Waiting, yielded)
  {
    if !phase.final {
      EndsWithSplit(yielded, phase.chunk);
    }
  }

  // ----- All dispatches -----

  /** Request `q` is in `t'` just as it was in `t`. */
  predicate Untouched(t: Traffic, t': Traffic, q: RequestId) {
    && (q in t.flights <==> q in t'.flights) && (q in t.flights ==> t.flights[q] == t'.flights[q])
    && PendingOf(t, q) == PendingOf(t', q)
  }

  /** The step concerned request `r` alone and heard nothing. */
  lemma OnlyOne(t: Traffic, t': Traffic, r: RequestId)
    requires TrafficOk(t) && t'.heard == t.heard && t'.cut == t.cut
    requires r in t'.flights && OneOk(t', r)
    requires forall q :: q != r ==> Untouched(t, t', q)
    ensures TrafficOk(t')
  {
    forall q | q in t'.flights
      ensures OneOk(t', q)
    {
      assert q != r ==> Untouched(t, t', q);
      if q != r {
        assert OneOk(t, q);
      }
    }
    forall q | q in t'.pending
      ensures q in t'.flights
    {
      assert q != r ==> Untouched(t, t', q);
    }
  }

  lemma WakeOne(t: Traffic, c: ConnId, q: RequestId)
    requires q in t.flights && OneOk(t, q)
    ensures OneOk(Wake(t, c), q)
  {
    if q in t.pending && t.pending[q].connection == c {
      SentinelFlight(t.flights[q], t.pending[q], AnswersTo(t, q), t.flights[q].connection in t.cut);
    }
  }

  lemma WakeTraffic(t: Traffic, c: ConnId)
    requires TrafficOk(t)
    ensures TrafficOk(Wake(t, c))
  {
    forall q | q in t.flights
      ensures OneOk(Wake(t, c), q)
    {
      WakeOne(t, c, q);
    }
  }

  lemma ListenOne(t: Traffic, c: ConnId, w: Wire, q: RequestId)
    requires q in t.flights && OneOk(t, q)
    ensures OneOk(Listen(t, c, w), q)
  {
    var f := t.flights[q];
    assert Listen(t, c, w).heard[f.since..] == t.heard[f.since..] + [Heard(c, w)];
    AnswersSnoc(t.heard[f.since..], Heard(c, w), f.connection, q);
    if q in t.pending && f.connection == c && w.requestId == Some(q) {
      MessageFlight(f, t.pending[q], AnswersTo(t, q), c in t.cut, w.chunk);
    }
  }

  lemma ListenTraffic(t: Traffic, c: ConnId, w: Wire)
    requires TrafficOk(t)
    ensures TrafficOk(Listen(t, c, w))
  {
    forall q | q in t.flights
      ensures OneOk(Listen(t, c, w), q)
    {
      ListenOne(t, c, w, q);
    }
  }

  lemma AdmitOne(t: Traffic, r: RequestId, code: string, tool: string, params: map<string, string>, c: ConnId,
                 now: real)
    requires r !in t.flights && c !in t.cut
    ensures OneOk(Admit(t, r, code, tool, params, c, now), r)
  {
    assert t.heard[|t.heard|..] == [];
  }

  lemma AdmitTraffic(t: Traffic, r: RequestId, code: string, tool: string, params: map<string, string>, c: ConnId,
                     now: real)
    requires TrafficOk(t) && r !in t.flights && c !in t.cut
    ensures TrafficOk(Admit(t, r, code, tool, params, c, now))
  {
    AdmitOne(t, r, code, tool, params, c, now);
    OnlyOne(t, Admit(t, r, code, tool, params, c, now), r);
  }

  lemma FinishOne(t: Traffic, r: RequestId, o: Outcome)
    requires IsLiveFlight(t, r) && OneOk(t, r) && PhaseOk(Ended(o), t.flights[r].yielded)
    ensures OneOk(Finish(t, r, o), r)
  {
    EndedFlight(t.flights[r], t.pending[r], AnswersTo(t, r), t.flights[r].connection in t.cut, o);
  }

  lemma FinishAlone(t: Traffic, r: RequestId, o: Outcome)
    requires r in t.flights
    ensures forall q :: q != r ==> Untouched(t, Finish(t, r, o), q)
  {
  }

  lemma FinishTraffic(t: Traffic, r: RequestId, o: Outcome)
    requires TrafficOk(t) && IsLiveFlight(t, r) && PhaseOk(Ended(o), t.flights[r].yielded)
    ensures TrafficOk(Finish(t, r, o))
  {
    FinishOne(t, r, o);
    FinishAlone(t, r, o);
    OnlyOne(t, Finish(t, r, o), r);
  }

  lemma MoveOne(t: Traffic, r: RequestId, p: Phase)
    requires IsLiveFlight(t, r) && OneOk(t, r) && !p.Ended? && PhaseOk(p, t.flights[r].yielded)
    ensures OneOk(Move(t, r, p), r)
  {
    MovedFlight(t.flights[r], t.pending[r], AnswersTo(t, r), t.flights[r].connection in t.cut, p);
  }

  lemma MoveAlone(t: Traffic, r: RequestId, p: Phase)
    requires r in t.flights
    ensures forall q :: q != r ==> Untouched(t, Move(t, r, p), q)
  {
  }

  lemma MoveTraffic(t: Traffic, r: RequestId, p: Phase)
    requires TrafficOk(t) && IsLiveFlight(t, r) && !p.Ended? && PhaseOk(p, t.flights[r].yielded)
    ensures TrafficOk(Move(t, r, p))
  {
    MoveOne(t, r, p);
    MoveAlone(t, r, p);
    OnlyOne(t, Move(t, r, p), r);
  }

  lemma HandOne(t: Traffic, r: RequestId)
    requires HasItem(t, r) && OneOk(t, r) && t.pending[r].queue[0].Delivered?
    ensures OneOk(Hand(t, r, t.pending[r].queue[0].chunk, t.pending[r].queue[0].final), r)
  {
    HandedFlight(t.flights[r], t.pending[r], AnswersTo(t, r), t.flights[r].connection in t.cut);
  }

  lemma HandAlone(t: Traffic, r: RequestId, chunk: Chunk, final: bool)
    requires HasItem(t, r)
    ensures forall q :: q != r ==> Untouched(t, Hand(t, r, chunk, final), q)
  {
  }

  lemma HandTraffic(t: Traffic, r: RequestId)
    requires TrafficOk(t) && HasItem(t, r) && t.pending[r].queue[0].Delivered?
    ensures TrafficOk(Hand(t, r, t.pending[r].queue[0].chunk, t.pending[r].queue[0].final))
  {
    var first := t.pending[r].queue[0];
    HandOne(t, r);
    HandAlone(t, r, first.chunk, first.final);
    OnlyOne(t, Hand(t, r, first.chunk, first.final), r);
  }

  lemma AbandonTraffic(t: Traffic, r: RequestId, o: Outcome)
    requires TrafficOk(t) && IsLiveFlight(t, r) && !o.Finished?
    ensures TrafficOk(Finish(t, r, o))
  {
    assert OneOk(t, r);
    AbandonedPhase(t.flights[r].phase, t.flights[r].yielded, o);
    FinishTraffic(t, r, o);
  }

  lemma ResumedOne(t: Traffic, r: RequestId)
    requires TrafficOk(t) && r in t.flights && t.flights[r].phase.Handed?
    ensures var p := t.flights[r].phase;
            && (p.final ==> PhaseOk(Ended(OutcomeOf(p.chunk)), t.flights[r].yielded))
            && (!p.final ==> PhaseOk(Waiting, t.flights[r].yielded))
  {
    assert OneOk(t, r);
    ResumedPhase(t.flights[r].phase, t.flights[r].yielded);
  }

  lemma FinalTraffic(t: Traffic, r: RequestId)
    requires TrafficOk(t) && r in t.flights && t.flights[r].phase.Handed? && t.flights[r].phase.final
    ensures TrafficOk(Finish(t, r, OutcomeOf(t.flights[r].phase.chunk)))
  {
    ResumedOne(t, r);
    FinishTraffic(t, r, OutcomeOf(t.flights[r].phase.chunk));
  }

  lemma MoreTraffic(t: Traffic, r: RequestId)
    requires TrafficOk(t) && r in t.flights
    requires t.flights[r].phase.Sending? || (t.flights[r].phase.Handed? && !t.flights[r].phase.final)
    ensures TrafficOk(Move(t, r, Waiting))
  {
    if t.flights[r].phase.Handed? {
      ResumedOne(t, r);
    } else {
      assert OneOk(t, r);
    }
    MoveTraffic(t, r, Waiting);
  }

  lemma SendDoneTraffic(t: Traffic, r: RequestId, ok: bool)
    requires TrafficOk(t)
    ensures TrafficOk(Consume(t, SendDone(r, ok)))
  {
    if !InPhase(t, r, Sending) {
      assert Consume(t, SendDone(r, ok)) == t;
    } else if ok {
      assert Consume(t, SendDone(r, ok)) == Move(t, r, Waiting);
      MoreTraffic(t, r);
    } else {
      assert Consume(t, SendDone(r, ok)) == Finish(t, r, ClientGone);
      AbandonTraffic(t, r, ClientGone);
    }
  }

  lemma NextTraffic(t: Traffic, r: RequestId)
    requires TrafficOk(t)
    ensures TrafficOk(Consume(t, Next(r)))
  {
    if !HasItem(t, r) {
      assert Consume(t, Next(r)) == t;
    } else if t.pending[r].queue[0].Delivered? {
      var first := t.pending[r].queue[0];
      assert Consume(t, Next(r)) == Hand(t, r, first.chunk, first.final);
      HandTraffic(t, r);
    } else {
      assert Consume(t, Next(r)) == Finish(t, r, ClientGone);
      AbandonTraffic(t, r, ClientGone);
    }
  }

  lemma ResumeTraffic(t: Traffic, r: RequestId)
    requires TrafficOk(t)
    ensures TrafficOk(Consume(t, Resume(r)))
  {
    if r !in t.flights || !t.flights[r].phase.Handed? {
      assert Consume(t, Resume(r)) == t;
    } else if t.flights[r].phase.final {
      assert Consume(t, Resume(r)) == Finish(t, r, OutcomeOf(t.flights[r].phase.chunk));
      FinalTraffic(t, r);
    } else {
      assert Consume(t, Resume(r)) == Move(t, r, Waiting);
      MoreTraffic(t, r);
    }
  }

  lemma TimeoutTraffic(t: Traffic, r: RequestId)
    requires TrafficOk(t)
    ensures TrafficOk(Consume(t, Timeout(r)))
  {
    if InPhase(t, r, Waiting) {
      assert Consume(t, Timeout(r)) == Finish(t, r, TimedOut);
      AbandonTraffic(t, r, TimedOut);
    } else {
      assert Consume(t, Timeout(r)) == t;
    }
  }

  lemma CloseTraffic(t: Traffic, r: RequestId)
    requires TrafficOk(t)
    ensures TrafficOk(Consume(t, Close(r)))
  {
    if IsLiveFlight(t, r) {
      assert Consume(t, Close(r)) == Finish(t, r, Nothing);
      AbandonTraffic(t, r, Nothing);
    } else {
      assert Consume(t, Close(r)) == t;
    }
  }

  lemma OthersConsumeNothing(t: Traffic, e: Event)
    requires !e.SendDone? && !e.Next? && !e.Resume? && !e.Timeout? && !e.Close?
    ensures Consume(t, e) == t
  {
  }

  lemma ConsumeTraffic(t: Traffic, e: Event)
    requires TrafficOk(t)
    ensures TrafficOk(Consume(t, e))
  {
    if e.SendDone? {
      SendDoneTraffic(t, e.r, e.ok);
    } else if e.Next? {
      NextTraffic(t, e.r);
    } else if e.Resume? {
      ResumeTraffic(t, e.r);
    } else if e.Timeout? {
      TimeoutTraffic(t, e.r);
    } else if e.Close? {
      CloseTraffic(t, e.r);
    } else {
      OthersConsumeNothing(t, e);
    }
  }

  lemma NoteTraffic(t: Traffic, a: AuditEntry)
    requires TrafficOk(t)
    ensures TrafficOk(Note(t, a))
  {
    forall q | q in t.flights
      ensures OneOk(Note(t, a), q)
    {
      assert OneOk(t, q);
    }
  }

  lemma TrafficAct(cfg: Config, s: State, e: Event)
    requires TrafficOk(s.t) && RegistryOk(s)
    ensures TrafficOk(Act(cfg, s, e).t)
  {
    match e
    case Connect(_) =>
    case Heartbeat(_, _) =>
    case Inspect(_, _) =>
    case Hear(c, w) => ListenTraffic(s.t, c, w);
    case Register(c, _, _, _, _) => WakeTraffic(s.t, c);
    case Disconnect(c) => WakeTraffic(s.t, c);
    case Terminate(code) =>
      if code in s.records {
        WakeTraffic(s.t, s.records[code].connection);
        NoteTraffic(Wake(s.t, s.records[code].connection), KilledEntry(code, true));
      } else {
        NoteTraffic(s.t, KilledEntry(code, false));
      }
    case Dispatch(r, code, tool, params, now) =>
      var d := Policy.Decide(cfg.policy, s.t.admissions, code, Policy.Subject(tool, params), now);
      if d.Refused? {
        NoteTraffic(s.t, DeniedEntry(code, tool, d.reason));
      } else if r !in s.t.flights && IsLive(s.records, code, now) {
        assert RecordOk(s, code);
        AdmitTraffic(s.t, r, code, tool, params, s.records[code].connection, now);
      }
    case _ => ConsumeTraffic(s.t, e);
  }

  // ----- The audit trail -----

  /** The entries written when dispatches ended. */
  function EndEntries(trail: seq<AuditEntry>): seq<AuditEntry> {
    if trail == [] then []
    else if trail[|trail| - 1].AllowedEntry? then EndEntries(trail[..|trail| - 1]) + [trail[|trail| - 1]]
    else EndEntries(trail[..|trail| - 1])
  }

  ghost predicate EntryFor(t: Traffic, r: RequestId, a: AuditEntry) {
    && r in t.flights && t.flights[r].phase.Ended?
    && a == AllowedEntry(t.flights[r].code, t.flights[r].tool, t.flights[r].phase.outcome)
  }

  /** The dispatches that ended, each once, and the "allowed" entries of the trail match one for
      one, in order, with the right outcome. */
  ghost predicate TrailOk(t: Traffic) {
    && (forall r :: r in t.flights && t.flights[r].phase.Ended? ==> r in t.ended)
    && (forall i, j :: 0 <= i < j < |t.ended| ==> t.ended[i] != t.ended[j])
    && |EndEntries(t.trail)| == |t.ended|
    && (forall i :: 0 <= i < |t.ended| ==> EntryFor(t, t.ended[i], EndEntries(t.trail)[i]))
  }

  lemma EndEntriesSnoc(trail: seq<AuditEntry>, a: AuditEntry)
    ensures EndEntries(trail + [a]) == EndEntries(trail) + if a.AllowedEntry? then [a] else []
  {
    assert (trail + [a])[..|trail|] == trail;
  }

  lemma FinishTrail(t: Traffic, r: RequestId, o: Outcome)
    requires TrailOk(t) && IsLiveFlight(t, r)
    ensures TrailOk(Finish(t, r, o))
  {
    var t', a := Finish(t, r, o), AllowedEntry(t.flights[r].code, t.flights[r].tool, o);
    EndEntriesSnoc(t.trail, a);
    forall i | 0 <= i < |t'.ended|
      ensures EntryFor(t', t'.ended[i], EndEntries(t'.trail)[i])
      ensures i < |t.ended| ==> t'.ended[i] != r
    {
      if i < |t.ended| {
        assert EntryFor(t, t.ended[i], EndEntries(t.trail)[i]);
      }
    }
  }

  /** No dispatch ended, and those that had are as they were. */
  lemma SameTrail(t: Traffic, t': Traffic)
    requires TrailOk(t) && EndEntries(t'.trail) == EndEntries(t.trail) && t'.ended == t.ended
    requires forall r :: r in t.flights && t.flights[r].phase.Ended? ==>
               r in t'.flights && t'.flights[r] == t.flights[r]
    requires forall r :: r in t'.flights && t'.flights[r].phase.Ended? ==> r in t.flights && t.flights[r].phase.Ended?
    ensures TrailOk(t')
  {
    forall i | 0 <= i < |t'.ended|
      ensures EntryFor(t', t'.ended[i], EndEntries(t'.trail)[i])
    {
      assert EntryFor(t, t.ended[i], EndEntries(t.trail)[i]);
    }
  }

  lemma NoteTrail(t: Traffic, a: AuditEntry)
    requires TrailOk(t) && !a.AllowedEntry?
    ensures TrailOk(Note(t, a))
  {
    EndEntriesSnoc(t.trail, a);
    SameTrail(t, Note(t, a));
  }

  lemma ConsumeTrail(t: Traffic, e: Event)
    requires TrailOk(t)
    ensures TrailOk(Consume(t, e))
  {
    match e
    case SendDone(r, ok) =>
      if InPhase(t, r, Sending) {
        if ok {
          SameTrail(t, Move(t, r, Waiting));
        } else {
          FinishTrail(t, r, ClientGone);
        }
      }
    case Next(r) =>
      if HasItem(t, r) {
        if t.pending[r].queue[0].Delivered? {
          SameTrail(t, Hand(t, r, t.pending[r].queue[0].chunk, t.pending[r].queue[0].final));
        } else {
          FinishTrail(t, r, ClientGone);
        }
      }
    case Resume(r) =>
      if r in t.flights && t.flights[r].phase.Handed? {
        if t.flights[r].phase.final {
          FinishTrail(t, r, OutcomeOf(t.flights[r].phase.chunk));
        } else {
          SameTrail(t, Move(t, r, Waiting));
        }
      }
    case Timeout(r) =>
      if InPhase(t, r, Waiting) {
        FinishTrail(t, r, TimedOut);
      }
    case Close(r) =>
      if IsLiveFlight(t, r) {
        FinishTrail(t, r, Nothing);
      }
    case _ =>
  }

  lemma TrailAct(cfg: Config, s: State, e: Event)
    requires TrailOk(s.t)
    ensures TrailOk(Act(cfg, s, e).t)
  {
    match e
    case Connect(_) =>
    case Heartbeat(_, _) =>
    case Inspect(_, _) =>
    case Hear(c, w) => SameTrail(s.t, Listen(s.t, c, w));
    case Register(c, _, _, _, _) => SameTrail(s.t, Wake(s.t, c));
    case Disconnect(c) => SameTrail(s.t, Wake(s.t, c));
    case Terminate(code) =>
      if code in s.records {
        SameTrail(s.t, Wake(s.t, s.records[code].connection));
        NoteTrail(Wake(s.t, s.records[code].connection), KilledEntry(code, true));
      } else {
        NoteTrail(s.t, KilledEntry(code, false));
      }
    case Dispatch(r, code, tool, params, now) =>
      var d := Policy.Decide(cfg.policy, s.t.admissions, code, Policy.Subject(tool, params), now);
      if d.Refused? {
        NoteTrail(s.t, DeniedEntry(code, tool, d.reason));
      } else if r !in s.t.flights && IsLive(s.records, code, now) {
        SameTrail(s.t, Admit(s.t, r, code, tool, params, s.records[code].connection, now));
      }
    case _ => ConsumeTrail(s.t, e);
  }

  // ----- The frames sent -----

  ghost predicate FrameFor(t: Traffic, f: Frame, a: Policy.Admission) {
    && f.requestId in t.flights
    && t.flights[f.requestId].connection == f.connection && t.flights[f.requestId].code == f.code
    && t.flights[f.requestId].tool == f.tool
    && a == Policy.Admission(f.code, f.at)
  }

  function FrameIds(frames: seq<Frame>): seq<RequestId> {
    seq(|frames|, i requires 0 <= i < |frames| => frames[i].requestId)
  }

  /** Each admission sent one frame, to the connection of its dispatch; and each dispatch has one. */
  ghost predicate FramesPaired(t: Traffic) {
    && |t.frames| == |t.admissions|
    && (forall i :: 0 <= i < |t.frames| ==> FrameFor(t, t.frames[i], t.admissions[i]))
    && (forall i, j :: 0 <= i < j < |t.frames| ==> t.frames[i].requestId != t.frames[j].requestId)
    && (forall r :: r in t.flights ==> r in FrameIds(t.frames))
  }

  /** And the policy's limits hold of all that was admitted. */
  ghost predicate FramesOk(cfg: Config, t: Traffic) {
    FramesPaired(t) && Policy.WithinLimits(cfg.policy, t.admissions)
  }

  predicate SameCall(f: Flight, g: Flight) {
    f.code == g.code && f.connection == g.connection && f.tool == g.tool && f.since == g.since
  }

  /** No frame was sent, and the calls are what they were. */
  lemma SameFrames(cfg: Config, t: Traffic, t': Traffic)
    requires FramesOk(cfg, t) && t'.frames == t.frames && t'.admissions == t.admissions
    requires t'.flights.Keys == t.flights.Keys
    requires forall r :: r in t.flights ==> SameCall(t.flights[r], t'.flights[r])
    ensures FramesOk(cfg, t')
  {
    forall i | 0 <= i < |t'.frames|
      ensures FrameFor(t', t'.frames[i], t'.admissions[i])
    {
      assert FrameFor(t, t.frames[i], t.admissions[i]);
    }
  }

  lemma AdmitFrame(t: Traffic, r: RequestId, code: string, tool: string, params: map<string, string>, c: ConnId,
                   now: real)
    requires FramesPaired(t) && r !in t.flights
    ensures FramesPaired(Admit(t, r, code, tool, params, c, now))
  {
    var t' := Admit(t, r, code, tool, params, c, now);
    forall i | 0 <= i < |t'.frames|
      ensures FrameFor(t', t'.frames[i], t'.admissions[i])
      ensures i < |t.frames| ==> t'.frames[i].requestId != r
    {
      if i < |t.frames| {
        assert FrameFor(t, t.frames[i], t.admissions[i]);
      }
    }
    assert FrameIds(t'.frames) == FrameIds(t.frames) + [r];
  }

  lemma ConsumeKeepsCalls(t: Traffic, e: Event)
    ensures Consume(t, e).flights.Keys == t.flights.Keys
    ensures forall r :: r in t.flights ==> SameCall(t.flights[r], Consume(t, e).flights[r])
  {
  }

  lemma FramesAct(cfg: Config, s: State, e: Event)
    requires FramesOk(cfg, s.t)
    ensures FramesOk(cfg, Act(cfg, s, e).t)
  {
    match e
    case Connect(_) =>
    case Heartbeat(_, _) =>
    case Inspect(_, _) =>
    case Hear(c, w) => SameFrames(cfg, s.t, Listen(s.t, c, w));
    case Register(c, _, _, _, _) => SameFrames(cfg, s.t, Wake(s.t, c));
    case Disconnect(c) => SameFrames(cfg, s.t, Wake(s.t, c));
    case Terminate(code) => SameFrames(cfg, s.t, Terminated(s, code).t);
    case Dispatch(r, code, tool, params, now) =>
      var subject := Policy.Subject(tool, params);
      var d := Policy.Decide(cfg.policy, s.t.admissions, code, subject, now);
      Policy.DecideDecides(cfg.policy, s.t.admissions, code, subject, now);
      if d.Refused? {
        SameFrames(cfg, s.t, Note(s.t, DeniedEntry(code, tool, d.reason)));
      } else if r !in s.t.flights && IsLive(s.records, code, now) {
        AdmitFrame(s.t, r, code, tool, params, s.records[code].connection, now);
        Policy.AdmissionStaysWithin(cfg.policy, s.t.admissions, code, subject, now);
      }
    case _ =>
      ConsumeIsLocal(s.t, e);
      ConsumeKeepsCalls(s.t, e);
      SameFrames(cfg, s.t, Consume(s.t, e));
  }

  // ----- Whose dispatches they are -----

  /** A loop that was given a code keeps it, open or closed, and a closed one stays so. */
  ghost predicate LoopsKept(s: State, s': State) {
    && (forall c :: SessionOf(s, c).Some? ==> SessionOf(s', c) == SessionOf(s, c))
    && (forall c :: c in s.loops && s.loops[c].Closed? ==> c in s'.loops && s'.loops[c] == s.loops[c])
  }

  /** The connection of a dispatch is the one that was given the code it names. */
  ghost predicate OwnerOk(s: State, f: Flight) {
    SessionOf(s, f.connection) == Some(f.code)
  }

  ghost predicate OwnersOk(s: State) {
    forall r :: r in s.t.flights ==> OwnerOk(s, s.t.flights[r])
  }

  lemma LoopsAct(cfg: Config, s: State, e: Event)
    ensures LoopsKept(s, Act(cfg, s, e))
  {
  }

  lemma SameOwners(s: State, s': State)
    requires OwnersOk(s) && LoopsKept(s, s')
    requires s'.t.flights.Keys == s.t.flights.Keys
    requires forall r :: r in s.t.flights ==> SameCall(s.t.flights[r], s'.t.flights[r])
    ensures OwnersOk(s')
  {
    forall r | r in s'.t.flights
      ensures OwnerOk(s', s'.t.flights[r])
    {
      assert OwnerOk(s, s.t.flights[r]);
    }
  }

  lemma OwnersAct(cfg: Config, s: State, e: Event)
    requires RegistryOk(s) && OwnersOk(s)
    ensures OwnersOk(Act(cfg, s, e))
  {
    LoopsAct(cfg, s, e);
    if e.Dispatch? {
      if e.r !in s.t.flights && IsLive(s.records, e.code, e.now) {
        assert RecordOk(s, e.code);
      }
    } else {
      ConsumeKeepsCalls(s.t, e);
      SameOwners(s, Act(cfg, s, e));
    }
  }

  // ----- Every reachable state -----

  ghost predicate Inv(cfg: Config, s: State) {
    RegistryOk(s) && TrafficOk(s.t) && TrailOk(s.t) && FramesOk(cfg, s.t) && OwnersOk(s)
  }

  lemma ClockInv(cfg: Config, s: State, now: real)
    requires Inv(cfg, s)
    ensures Inv(cfg, s.(clock := now))
  {
    QuietRegistry(s, s.(clock := now));
    SameOwners(s, s.(clock := now));
  }

  lemma InvStep(cfg: Config, s: State, e: Event)
    requires Inv(cfg, s)
    ensures Inv(cfg, Step(cfg, s, e))
  {
    var s1 := if TimeOf(e).Some? then s.(clock := TimeOf(e).value) else s;
    ClockInv(cfg, s, s1.clock);
    RegistryAct(cfg, s1, e);
    TrafficAct(cfg, s1, e);
    TrailAct(cfg, s1, e);
    FramesAct(cfg, s1, e);
    OwnersAct(cfg, s1, e);
  }

  /** The invariant holds after any run from any state where it holds. */
  lemma {:induction false} RunKeepsInv(cfg: Config, s: State, events: seq<Event>)
    requires Inv(cfg, s)
    ensures Inv(cfg, Run(cfg, s, events))
  {
    if events != [] {
      RunKeepsInv(cfg, s, events[..|events| - 1]);
      InvStep(cfg, Run(cfg, s, events[..|events| - 1]), events[|events| - 1]);
    }
  }

  /** And it holds of the relay that has just started. */
  lemma InitInv(cfg: Config, now: real)
    ensures Inv(cfg, Init(now))
  {
    assert forall code :: Policy.TimesOf([], code) == [];
  }
}
