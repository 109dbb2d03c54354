/** The relay's session protocol as a transition system: relay/broker.py, the registry behind it,
    and the WebSocket loop of relay/app.py. One step is what one coroutine does between two awaits,
    and a run is any interleaving of steps of any number of clients and dispatches. */
module BrokerSpec {
  import opened Common
  import opened Protocol
  import opened SessionStore
  import Policy = CommandPolicy

  datatype Config = Config(isDigit: char -> bool, ttl: real, policy: Policy.Config)

  /** What is queued for a dispatch: a client message and whether it is final, or the sentinel that
      wakes the dispatch when its connection goes away. */
  datatype Item = Disconnected | Delivered(chunk: Chunk, final: bool)

  datatype Pending = Pending(connection: ConnId, queue: seq<Item>)

  /** The outcome written to the audit trail when a dispatch ends. */
  datatype Outcome = Finished(exitCode: Option<int>, error: Option<string>) | TimedOut | ClientGone | Nothing

  /** Where a dispatch is suspended: sending the command, waiting on its queue, or having handed a
      chunk to its consumer. */
  datatype Phase = Sending | Waiting | Handed(chunk: Chunk, final: bool) | Ended(outcome: Outcome)

  /** The frame of one `dispatch_command` generator. `since` is how many client messages the relay
      had heard when it started. */
  datatype Flight = Flight(code: string, tool: string, connection: ConnId, since: nat,
                           yielded: seq<Chunk>, phase: Phase)

  /** The WebSocket loop of a connection, with its `session_code` variable, as it was last. */
  datatype Loop = Open(session: Option<string>) | Closed(session: Option<string>)

  datatype AuditEntry =
    | AllowedEntry(code: string, tool: string, outcome: Outcome)
    | DeniedEntry(code: string, tool: string, reason: Policy.Reason)
    | KilledEntry(code: string, found: bool)

  datatype Heard = Heard(connection: ConnId, wire: Wire)

  /** A `command` frame sent to a client. */
  datatype Frame = Frame(requestId: RequestId, connection: ConnId, code: string, tool: string,
                         params: map<string, string>, at: real)

  /** Everything about requests. `pending`, `flights`, `admissions` and `trail` are the program's;
      the others record what happened: messages heard, frames sent, dispatches in the order they
      ended, and the connections whose loop ended or whose session was killed. */
  datatype Traffic = Traffic(
    pending: map<RequestId, Pending>,
    flights: map<RequestId, Flight>,
    admissions: seq<Policy.Admission>,
    trail: seq<AuditEntry>,
    heard: seq<Heard>,
    frames: seq<Frame>,
    ended: seq<RequestId>,
    cut: set<ConnId>)

  datatype State = State(records: Records, loops: map<ConnId, Loop>, clock: real, t: Traffic)

  datatype Event =
    | Connect(conn: ConnId)
    | Register(conn: ConnId, details: Details, desired: Option<string>, draws: nat -> string, now: real)
    | Heartbeat(conn: ConnId, now: real)
    | Hear(conn: ConnId, wire: Wire)
    | Disconnect(conn: ConnId)
    | Terminate(code: string)
    | Inspect(code: string, now: real)
    | Dispatch(r: RequestId, code: string, tool: string, params: map<string, string>, now: real)
    | SendDone(r: RequestId, ok: bool)
    | Next(r: RequestId)
    | Resume(r: RequestId)
    | Timeout(r: RequestId)
    | Close(r: RequestId)

  function Init(now: real): State {
    State(map[], map[], now, Traffic(map[], map[], [], [], [], [], [], {}))
  }

  // ----- What happens to requests -----

  function Woken(pending: map<RequestId, Pending>, c: ConnId): map<RequestId, Pending> {
    map r | r in pending ::
      if pending[r].connection == c then pending[r].(queue := pending[r].queue + [Disconnected]) else pending[r]
  }

  /** The connection goes away: the sentinel is queued for each of its pending requests. */
  function Wake(t: Traffic, c: ConnId): Traffic {
    t.(pending := Woken(t.pending, c), cut := t.cut + {c})
  }

  /** `handle_client_message`: queued for the request it names if that request is pending on this
      very connection, dropped otherwise. Only a result is final. */
  function Routed(pending: map<RequestId, Pending>, c: ConnId, w: Wire): map<RequestId, Pending> {
    if w.requestId.Some? && w.requestId.value in pending && pending[w.requestId.value].connection == c then
      var r := w.requestId.value;
      pending[r := pending[r].(queue := pending[r].queue + [Delivered(w.chunk, w.chunk.Result?)])]
    else pending
  }

  function Listen(t: Traffic, c: ConnId, w: Wire): Traffic {
    t.(heard := t.heard + [Heard(c, w)], pending := Routed(t.pending, c, w))
  }

  function Note(t: Traffic, a: AuditEntry): Traffic {
    t.(trail := t.trail + [a])
  }

  /** The policy lets the command through: it becomes pending and its frame is sent. */
  function Admit(t: Traffic, r: RequestId, code: string, tool: string, params: map<string, string>, c: ConnId,
                 now: real): Traffic {
    t.(pending := t.pending[r := Pending(c, [])],
       flights := t.flights[r := Flight(code, tool, c, |t.heard|, [], Sending)],
       admissions := t.admissions + [Policy.Admission(code, now)],
       frames := t.frames + [Frame(r, c, code, tool, params, now)])
  }

  predicate InPhase(t: Traffic, r: RequestId, p: Phase) {
    r in t.flights && t.flights[r].phase == p
  }

  predicate IsLiveFlight(t: Traffic, r: RequestId) {
    r in t.flights && !t.flights[r].phase.Ended?
  }

  /** The `finally` clause: no longer pending, and one entry in the audit trail. */
  function Finish(t: Traffic, r: RequestId, o: Outcome): Traffic
    requires r in t.flights
  {
    var f := t.flights[r];
    t.(pending := t.pending - {r}, flights := t.flights[r := f.(phase := Ended(o))],
       trail := t.trail + [AllowedEntry(f.code, f.tool, o)], ended := t.ended + [r])
  }

  function Move(t: Traffic, r: RequestId, p: Phase): Traffic
    requires r in t.flights
  {
    t.(flights := t.flights[r := t.flights[r].(phase := p)])
  }

  predicate HasItem(t: Traffic, r: RequestId) {
    InPhase(t, r, Waiting) && r in t.pending && t.pending[r].queue != []
  }

  /** The dispatch takes the next message of its queue and hands it to its consumer. */
  function Hand(t: Traffic, r: RequestId, chunk: Chunk, final: bool): Traffic
    requires HasItem(t, r)
  {
    var f, p := t.flights[r], t.pending[r];
    t.(pending := t.pending[r := p.(queue := p.queue[1..])],
       flights := t.flights[r := f.(yielded := f.yielded + [chunk], phase := Handed(chunk, final))])
  }

  function OutcomeOf(c: Chunk): Outcome {
    if c.Result? then Finished(c.exitCode, c.error) else Finished(None, None)
  }

  /** The steps of a dispatch once its command is on its way; any other event changes nothing. */
  function Consume(t: Traffic, e: Event): Traffic {
    match e
    case SendDone(r, ok) =>
      if InPhase(t, r, Sending) then (if ok then Move(t, r, Waiting) else Finish(t, r, ClientGone)) else t
    case Next(r) =>
      if HasItem(t, r) then
        (match t.pending[r].queue[0]
         case Disconnected => Finish(t, r, ClientGone)
         case Delivered(chunk, final) => Hand(t, r, chunk, final))
      else t
    case Resume(r) =>
      if r in t.flights && t.flights[r].phase.Handed? then
        (if t.flights[r].phase.final then Finish(t, r, OutcomeOf(t.flights[r].phase.chunk)) else Move(t, r, Waiting))
      else t
    case Timeout(r) => if InPhase(t, r, Waiting) then Finish(t, r, TimedOut) else t
    case Close(r) => if IsLiveFlight(t, r) then Finish(t, r, Nothing) else t
    case _ => t
  }

  // ----- Connections and dispatches -----

  predicate IsOpen(s: State, c: ConnId) {
    c in s.loops && s.loops[c].Open?
  }

  function SessionOf(s: State, c: ConnId): Option<string> {
    if c in s.loops then s.loops[c].session else None
  }

  /** `_normalize_desired_code`: anything that is not a well-formed code counts as no wish. */
  function Normalize(isDigit: char -> bool, raw: Option<string>): Option<string> {
    if raw.Some? && IsCode(isDigit, raw.value) then raw else None
  }

  /** `unregister_connection`, when a WebSocket loop ends for whatever reason. */
  function Unregistered(s: State, c: ConnId): State {
    s.(records := Without(s.records, c), loops := s.loops[c := Closed(SessionOf(s, c))], t := Wake(s.t, c))
  }

  /** A `register` message. A replayed one changes nothing; when no code can be drawn the exception
      ends the loop. */
  function Registered(cfg: Config, s: State, c: ConnId, details: Details, raw: Option<string>, draws: nat -> string,
                      now: real): State {
    if !IsOpen(s, c) || s.loops[c].session.Some? then s
    else
      match Chosen(cfg.isDigit, s.records, Normalize(cfg.isDigit, raw), draws)
      case Some(code) =>
        s.(records := Created(s.records, code, c, details, now, cfg.ttl), loops := s.loops[c := Open(Some(code))])
      case None => Unregistered(s, c)
  }

  /** The kill-switch. */
  function Terminated(s: State, code: string): State {
    if code !in s.records then s.(t := Note(s.t, KilledEntry(code, false)))
    else
      s.(records := s.records - {code},
         t := Note(Wake(s.t, s.records[code].connection), KilledEntry(code, true)))
  }

  /** From the lookup to the `command` frame: unknown or expired code, refusal, or admission. */
  function Dispatched(cfg: Config, s: State, r: RequestId, code: string, tool: string, params: map<string, string>,
                      now: real): State {
    if r in s.t.flights then s  // request identifiers are fresh
    else if !IsLive(s.records, code, now) then s.(records := Purged(s.records, code, now))
    else
      match Policy.Decide(cfg.policy, s.t.admissions, code, Policy.Subject(tool, params), now)
      case Refused(reason) => s.(t := Note(s.t, DeniedEntry(code, tool, reason)))
      case Allowed => s.(t := Admit(s.t, r, code, tool, params, s.records[code].connection, now))
  }

  // ----- Steps and runs -----

  function TimeOf(e: Event): Option<real> {
    match e
    case Register(_, _, _, _, now) => Some(now)
    case Heartbeat(_, now) => Some(now)
    case Inspect(_, now) => Some(now)
    case Dispatch(_, _, _, _, now) => Some(now)
    case _ => None
  }

  /** One step; an event that cannot happen in this state leaves it alone, and the clock never
      goes back. */
  function Step(cfg: Config, s: State, e: Event): State {
    match TimeOf(e)
    case None => Act(cfg, s, e)
    case Some(now) => if now < s.clock then s else Act(cfg, s.(clock := now), e)
  }

  function Act(cfg: Config, s: State, e: Event): State {
    match e
    case Connect(c) => if c in s.loops then s else s.(loops := s.loops[c := Open(None)])
    case Register(c, details, raw, draws, now) => Registered(cfg, s, c, details, raw, draws, now)
    case Heartbeat(c, now) =>
      if IsOpen(s, c) && s.loops[c].session.Some? then
        s.(records := Touched(s.records, s.loops[c].session.value, now, cfg.ttl))
      else s
    case Hear(c, w) => if IsOpen(s, c) then s.(t := Listen(s.t, c, w)) else s
    case Disconnect(c) => if IsOpen(s, c) then Unregistered(s, c) else s
    case Terminate(code) => Terminated(s, code)
    case Inspect(code, now) => s.(records := Purged(s.records, code, now))
    case Dispatch(r, code, tool, params, now) => Dispatched(cfg, s, r, code, tool, params, now)
    case _ => s.(t := Consume(s.t, e))
  }

  function Run(cfg: Config, s: State, events: seq<Event>): State {
    if events == [] then s else Step(cfg, Run(cfg, s, events[..|events| - 1]), events[|events| - 1])
  }

  lemma RunSnoc(cfg: Config, s: State, events: seq<Event>, e: Event)
    ensures Run(cfg, s, events + [e]) == Step(cfg, Run(cfg, s, events), e)
  {
    assert (events + [e])[..|events|] == events;
  }

  // ----- What a dispatch should yield -----

  /** The messages of one connection about one request, in order. */
  function Answers(heard: seq<Heard>, c: ConnId, r: RequestId): seq<Chunk> {
    if heard == [] then []
    else
      var before, last := Answers(heard[..|heard| - 1], c, r), heard[|heard| - 1];
      if last.connection == c && last.wire.requestId == Some(r) then before + [last.wire.chunk] else before
  }

  /** The messages in a queue. */
  function ChunksIn(queue: seq<Item>): seq<Chunk> {
    if queue == [] then []
    else if queue[|queue| - 1].Delivered? then ChunksIn(queue[..|queue| - 1]) + [queue[|queue| - 1].chunk]
    else ChunksIn(queue[..|queue| - 1])
  }

  predicate NoResult(s: seq<Chunk>) {
    forall i :: 0 <= i < |s| ==> !s[i].Result?
  }

  /** The messages up to the first result, that one included. */
  function UpToResult(s: seq<Chunk>): seq<Chunk> {
    if s == [] then []
    else if s[0].Result? then [s[0]]
    else [s[0]] + UpToResult(s[1..])
  }
}
