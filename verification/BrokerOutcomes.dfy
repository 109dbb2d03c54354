/** How dispatches are cut short, and what the kill-switch leaves in the audit trail. */
module BrokerOutcomes {
  import opened Common
  import opened Protocol
  import opened SessionStore
  import opened BrokerSpec
  import opened BrokerSafety
  import opened BrokerTheorems

  // ----- Cut short -----

  /** `r` is over with that outcome: no longer pending, and audited once, now. */
  ghost predicate IsOver(t: Traffic, t': Traffic, r: RequestId, o: Outcome)
    requires r in t.flights
  {
    var f := t.flights[r];
    && r in t'.flights && t'.flights[r] == f.(phase := Ended(o)) && r !in t'.pending
    && t'.trail == t.trail + [AllowedEntry(f.code, f.tool, o)] && t'.ended == t.ended + [r]
    && t'.frames == t.frames
  }

  /** A send that fails, a timer that runs out on a dispatch that waits, and a consumer that closes it
      end it at once, each with its own outcome; and so does the sentinel when it is taken. */
  lemma EndsAtOnce(cfg: Config, s: State, r: RequestId)
    requires r in s.t.flights && !s.t.flights[r].phase.Ended?
    ensures s.t.flights[r].phase == Sending ==> IsOver(s.t, Step(cfg, s, SendDone(r, false)).t, r, ClientGone)
    ensures s.t.flights[r].phase == Waiting ==> IsOver(s.t, Step(cfg, s, Timeout(r)).t, r, TimedOut)
    ensures IsOver(s.t, Step(cfg, s, Close(r)).t, r, Nothing)
    ensures s.t.flights[r].phase == Waiting && r in s.t.pending && [Disconnected] <= s.t.pending[r].queue ==>
              IsOver(s.t, Step(cfg, s, Next(r)).t, r, ClientGone)
  {
  }

  /** A result that has been handed over ends it with the exit code and the error it carries. */
  lemma ResultEnds(cfg: Config, start: real, events: seq<Event>, r: RequestId, chunk: Chunk)
    requires var t := Run(cfg, Init(start), events).t;
             r in t.flights && t.flights[r].phase.Handed? && t.flights[r].phase.chunk == chunk && chunk.Result?
    ensures var s := Run(cfg, Init(start), events);
            IsOver(s.t, Step(cfg, s, Resume(r)).t, r, Finished(chunk.exitCode, chunk.error))
  {
    ReachableInv(cfg, start, events);
    FlightHolds(Run(cfg, Init(start), events).t, r);
  }

  // ----- The kill-switch -----

  /** What the trail says about kills. */
  function KilledEntries(trail: seq<AuditEntry>): seq<AuditEntry> {
    if trail == [] then []
    else if trail[|trail| - 1].KilledEntry? then KilledEntries(trail[..|trail| - 1]) + [trail[|trail| - 1]]
    else KilledEntries(trail[..|trail| - 1])
  }

  lemma KilledSnoc(trail: seq<AuditEntry>, a: AuditEntry)
    ensures KilledEntries(trail + [a]) == KilledEntries(trail) + if a.KilledEntry? then [a] else []
  {
    assert (trail + [a])[..|trail|] == trail;
  }

  /** The trail gains one entry for each kill, in order, that says whether the session was known, and
      no other. */
  ghost predicate KillsLogged(cfg: Config, s: State, events: seq<Event>, logged: seq<AuditEntry>) {
    if events == [] then logged == []
    else
      var front, e := events[..|events| - 1], events[|events| - 1];
      if e.Terminate? then
        && logged != [] && KillsLogged(cfg, s, front, logged[..|logged| - 1])
        && logged[|logged| - 1] == KilledEntry(e.code, e.code in Run(cfg, s, front).records)
      else KillsLogged(cfg, s, front, logged)
  }

  lemma OthersKillNothing(cfg: Config, s: State, e: Event)
    requires !e.Terminate?
    ensures KilledEntries(Step(cfg, s, e).t.trail) == KilledEntries(s.t.trail)
  {
    var t, t' := s.t, Step(cfg, s, e).t;
    if t'.trail != t.trail {
      assert t'.trail == t.trail + [t'.trail[|t.trail|]] && !t'.trail[|t.trail|].KilledEntry?;
      KilledSnoc(t.trail, t'.trail[|t.trail|]);
    }
  }

  lemma {:induction false} EachKillIsAudited(cfg: Config, start: real, events: seq<Event>)
    ensures KillsLogged(cfg, Init(start), events, KilledEntries(Run(cfg, Init(start), events).t.trail))
  {
    if events != [] {
      var front, e := events[..|events| - 1], events[|events| - 1];
      EachKillIsAudited(cfg, start, front);
      var s := Run(cfg, Init(start), front);
      if e.Terminate? {
        KilledSnoc(s.t.trail, KilledEntry(e.code, e.code in s.records));
        var logged := KilledEntries(Step(cfg, s, e).t.trail);
        assert logged[..|logged| - 1] == KilledEntries(s.t.trail);
      } else {
        OthersKillNothing(cfg, s, e);
      }
    }
  }
}
