/** How long a session lives: over any run a code is found for the time to live after each register
    and heartbeat, and once found expired it is free again. */
module SessionLife {
  import opened Common
  import opened Protocol
  import opened SessionStore
  import opened BrokerSpec
  import opened BrokerSafety
  import opened BrokerTheorems
  import Policy = CommandPolicy

  /** At that time, an open loop is given `code`, or one that has it sends a heartbeat and it has not
      expired yet. */
  ghost predicate Renews(cfg: Config, s: State, e: Event, c: ConnId, code: string, at: real) {
    && IsOpen(s, c) && s.clock <= at && TimeOf(e) == Some(at)
    && match e
       case Register(conn, _, _, _, _) =>
         conn == c && s.loops[c].session == None && Step(cfg, s, e).loops[c] == Open(Some(code))
       case Heartbeat(conn, _) =>
         conn == c && s.loops[c].session == Some(code) && code in s.records && at < s.records[code].expiresAt
       case _ => false
  }

  /** The code belongs to connection `owner`, and lives until `until` at least. */
  ghost predicate LivesUntil(s: State, owner: ConnId, code: string, until: real) {
    && code in s.records && s.records[code].connection == owner && until <= s.records[code].expiresAt
    && owner in s.loops && s.loops[owner] == Open(Some(code))
  }

  /** The life it gets is exactly the time to live. A heartbeat serves whoever holds the code now. */
  lemma RenewedExactly(cfg: Config, s: State, e: Event, c: ConnId, code: string, at: real)
    requires RegistryOk(s) && Renews(cfg, s, e, c, code, at)
    ensures var s' := Step(cfg, s, e);
            var owner := if e.Register? then c else s.records[code].connection;
            && s'.clock == at && LivesUntil(s', owner, code, at + cfg.ttl)
            && s'.records[code].expiresAt == at + cfg.ttl
  {
    if e.Register? {
      FirstFreeIsFirst(s.records, e.draws, 0);
    } else {
      assert RecordOk(s, code);
    }
  }

  // ----- Nothing but the end of the connection, a kill or time takes the code away -----

  lemma RegisterSpares(cfg: Config, s: State, e: Event, owner: ConnId, code: string, until: real)
    requires e.Register? && LivesUntil(s, owner, code, until)
    ensures LivesUntil(Act(cfg, s, e), owner, code, until)
  {
    FirstFreeIsFirst(s.records, e.draws, 0);
  }

  lemma HeartbeatSpares(cfg: Config, s: State, e: Event, owner: ConnId, code: string, until: real)
    requires e.Heartbeat? && LivesUntil(s, owner, code, until) && e.now < until <= e.now + cfg.ttl
    ensures LivesUntil(Act(cfg, s, e), owner, code, until)
  {
  }

  lemma ReadingSpares(cfg: Config, s: State, e: Event, owner: ConnId, code: string, until: real)
    requires e.Inspect? || e.Dispatch?
    requires LivesUntil(s, owner, code, until) && e.now < until
    ensures LivesUntil(Act(cfg, s, e), owner, code, until)
  {
  }

  lemma EndingSpares(cfg: Config, s: State, e: Event, owner: ConnId, code: string, until: real)
    requires (e.Disconnect? && e.conn != owner) || (e.Terminate? && e.code != code)
    requires LivesUntil(s, owner, code, until)
    ensures LivesUntil(Act(cfg, s, e), owner, code, until)
  {
  }

  lemma RestSpares(cfg: Config, s: State, e: Event)
    requires TimeOf(e).None? && !e.Disconnect? && !e.Terminate?
    ensures Act(cfg, s, e).records == s.records
    ensures forall c :: c in s.loops ==> c in Act(cfg, s, e).loops && Act(cfg, s, e).loops[c] == s.loops[c]
  {
  }

  lemma StaysAlive(cfg: Config, s: State, e: Event, owner: ConnId, code: string, at: real)
    requires LivesUntil(s, owner, code, at + cfg.ttl) && at <= s.clock
    requires e != Disconnect(owner) && e != Terminate(code) && Step(cfg, s, e).clock < at + cfg.ttl
    ensures LivesUntil(Step(cfg, s, e), owner, code, at + cfg.ttl)
  {
    var s1 := if TimeOf(e).Some? then s.(clock := TimeOf(e).value) else s;
    if TimeOf(e).Some? && TimeOf(e).value < s.clock {
    } else if e.Register? {
      RegisterSpares(cfg, s1, e, owner, code, at + cfg.ttl);
    } else if e.Heartbeat? {
      HeartbeatSpares(cfg, s1, e, owner, code, at + cfg.ttl);
    } else if e.Inspect? || e.Dispatch? {
      ReadingSpares(cfg, s1, e, owner, code, at + cfg.ttl);
    } else if e.Disconnect? || e.Terminate? {
      EndingSpares(cfg, s1, e, owner, code, at + cfg.ttl);
    } else {
      RestSpares(cfg, s1, e);
    }
  }

  /** It stays alive over any run without the end of its connection or a kill, while the clock has
      not got there. */
  lemma {:induction false} RunStaysAlive(cfg: Config, s: State, events: seq<Event>, owner: ConnId, code: string,
                                         at: real)
    requires LivesUntil(s, owner, code, at + cfg.ttl) && at <= s.clock
    requires Disconnect(owner) !in events && Terminate(code) !in events
    requires Run(cfg, s, events).clock < at + cfg.ttl
    ensures LivesUntil(Run(cfg, s, events), owner, code, at + cfg.ttl) && at <= Run(cfg, s, events).clock
  {
    if events != [] {
      var front, e := events[..|events| - 1], events[|events| - 1];
      ClockMovesOn(cfg, Run(cfg, s, front), e);
      RunStaysAlive(cfg, s, front, owner, code, at);
      assert e in events;
      StaysAlive(cfg, Run(cfg, s, front), e, owner, code, at);
    }
  }

  // ----- What dispatches and lookups find -----

  /** A dispatch under a fresh identifier finds the session: its command leaves for that connection,
      or the policy refuses it. */
  ghost predicate IsFoundByDispatch(s: State, s': State, r: RequestId, owner: ConnId, code: string, tool: string) {
    || (r in s'.t.flights && s'.t.flights[r].connection == owner && s'.t.flights[r].code == code)
    || (exists reason :: s'.t == s.t.(trail := s.t.trail + [DeniedEntry(code, tool, reason)]))
  }

  lemma LiveIsFound(cfg: Config, s: State, owner: ConnId, code: string, until: real, r: RequestId, tool: string,
                    params: map<string, string>, now: real)
    requires LivesUntil(s, owner, code, until) && s.clock <= now < until && r !in s.t.flights
    ensures IsFoundByDispatch(s, Step(cfg, s, Dispatch(r, code, tool, params, now)), r, owner, code, tool)
  {
    var d := Policy.Decide(cfg.policy, s.t.admissions, code, Policy.Subject(tool, params), now);
    if d.Refused? {
      assert Step(cfg, s, Dispatch(r, code, tool, params, now)).t
          == s.t.(trail := s.t.trail + [DeniedEntry(code, tool, d.reason)]);
    }
  }

  lemma {:induction false} RunIsLater(cfg: Config, s: State, events: seq<Event>)
    ensures s.clock <= Run(cfg, s, events).clock
  {
    if events != [] {
      RunIsLater(cfg, s, events[..|events| - 1]);
      ClockMovesOn(cfg, Run(cfg, s, events[..|events| - 1]), events[|events| - 1]);
    }
  }

  /** From any reachable state: a code that connection `c` registered, or refreshed by a heartbeat
      while it was live, has its end of life set to exactly the time to live after that; and whatever
      happens then, as long as the connection that holds it is not closed and the code is not killed,
      every dispatch and every lookup before that end finds it, on that connection. */
  lemma RenewedIsFound(cfg: Config, start: real, before: seq<Event>, e: Event, c: ConnId, code: string, at: real,
                       after: seq<Event>, owner: ConnId, now: real)
    requires Renews(cfg, Run(cfg, Init(start), before), e, c, code, at)
    requires owner == if e.Register? then c else Run(cfg, Init(start), before).records[code].connection
    requires Disconnect(owner) !in after && Terminate(code) !in after
    requires Run(cfg, Init(start), before + [e] + after).clock <= now < at + cfg.ttl
    ensures var s := Run(cfg, Init(start), before + [e]);
            code in s.records && s.records[code].expiresAt == at + cfg.ttl
    ensures var s := Run(cfg, Init(start), before + [e] + after);
            && code in s.records && s.records[code].connection == owner && at + cfg.ttl <= s.records[code].expiresAt
            && Step(cfg, s, Inspect(code, now)).records == s.records
            && forall r, tool, params :: r !in s.t.flights ==>
                 IsFoundByDispatch(s, Step(cfg, s, Dispatch(r, code, tool, params, now)), r, owner, code, tool)
  {
    var s0, s1 := Run(cfg, Init(start), before), Run(cfg, Init(start), before + [e]);
    var s := Run(cfg, Init(start), before + [e] + after);
    ReachableInv(cfg, start, before);
    RunSnoc(cfg, Init(start), before, e);
    RunAppend(cfg, Init(start), before + [e], after);
    RenewedExactly(cfg, s0, e, c, code, at);
    RunStaysAlive(cfg, s1, after, owner, code, at);
    forall r, tool, params | r !in s.t.flights
      ensures IsFoundByDispatch(s, Step(cfg, s, Dispatch(r, code, tool, params, now)), r, owner, code, tool)
    {
      LiveIsFound(cfg, s, owner, code, at + cfg.ttl, r, tool, params, now);
    }
  }

  // ----- What is found expired is free -----

  /** A lookup, a dispatch or a heartbeat at that time looks `code` up. */
  predicate LooksUp(s: State, e: Event, code: string) {
    match e
    case Inspect(k, _) => k == code
    case Dispatch(r, k, _, _, _) => k == code && r !in s.t.flights
    case Heartbeat(c, _) => IsOpen(s, c) && s.loops[c].session == Some(code)
    case _ => false
  }

  /** Whoever looks up a code that has expired removes its record, and no other; so the code can be
      given again. */
  lemma ExpiredIsFreed(cfg: Config, s: State, e: Event, code: string, now: real)
    requires LooksUp(s, e, code) && TimeOf(e) == Some(now) && s.clock <= now
    requires code in s.records && s.records[code].expiresAt <= now
    ensures Step(cfg, s, e).records == s.records - {code}
    ensures Step(cfg, s, e).t == s.t
  {
  }
}
