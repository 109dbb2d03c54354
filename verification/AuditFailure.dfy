/** A kill whose audit entry cannot be written (relay/broker.py): the session is removed, the write
    raises, and what should come next, waking the requests and closing the connection, does not. */
module AuditFailure {
  import opened Common
  import opened Protocol
  import opened SessionStore
  import opened BrokerSpec
  import opened BrokerSafety
  import opened BrokerTheorems

  /** What the failing kill leaves. */
  function HalfKilled(s: State, code: string): State {
    s.(records := s.records - {code})
  }

  lemma HalfKillKeepsInv(cfg: Config, s: State, code: string)
    requires Inv(cfg, s)
    ensures Inv(cfg, HalfKilled(s, code))
  {
    QuietRegistry(s, HalfKilled(s, code));
    SameOwners(s, HalfKilled(s, code));
  }

  /** Nothing the relay guarantees in every reachable state is lost, then or later. */
  lemma HalfKillIsSafe(cfg: Config, start: real, before: seq<Event>, code: string, after: seq<Event>)
    ensures Inv(cfg, Run(cfg, HalfKilled(Run(cfg, Init(start), before), code), after))
  {
    var s := Run(cfg, Init(start), before);
    ReachableInv(cfg, start, before);
    HalfKillKeepsInv(cfg, s, code);
    RunKeepsInv(cfg, HalfKilled(s, code), after);
  }

  function Kills(code: string, n: nat): seq<Event> {
    if n == 0 then [] else Kills(code, n - 1) + [Terminate(code)]
  }

  /** Only the audit trail may differ. */
  predicate OnlyTrailDiffers(s: State, s': State) {
    && s'.t.pending == s.t.pending && s'.t.flights == s.t.flights && s'.t.cut == s.t.cut
    && s'.loops == s.loops && s'.records == s.records
  }

  lemma VainKill(cfg: Config, s: State, s': State, code: string)
    requires code !in s.records && OnlyTrailDiffers(s, s')
    ensures OnlyTrailDiffers(s, Step(cfg, s', Terminate(code)))
  {
    assert Step(cfg, s', Terminate(code)) == s'.(t := Note(s'.t, KilledEntry(code, false)));
  }

  /** Killing again does not help, however often: the code is unknown now, nobody is woken, and the
      connection stays as it is. */
  lemma {:induction false} KillingAgainIsInVain(cfg: Config, s: State, code: string, n: nat)
    requires code !in s.records
    ensures OnlyTrailDiffers(s, Run(cfg, s, Kills(code, n)))
  {
    if n > 0 {
      KillingAgainIsInVain(cfg, s, code, n - 1);
      VainKill(cfg, s, Run(cfg, s, Kills(code, n - 1)), code);
      RunSnoc(cfg, s, Kills(code, n - 1), Terminate(code));
    }
  }

  /** A request in flight on the killed session is bound to end by a whole kill, not by half of one:
      there it is left to its client, to the end of the connection, which still wakes it, and to the
      timer. */
  lemma OnlyTheConnectionWakes(cfg: Config, start: real, before: seq<Event>, code: string, r: RequestId, n: nat)
    requires code in Run(cfg, Init(start), before).records
    requires var s := Run(cfg, Init(start), before);
             IsLiveFlight(s.t, r) && s.t.flights[r].connection == s.records[code].connection
    ensures var s := Run(cfg, Init(start), before);
            var half := Run(cfg, HalfKilled(s, code), Kills(code, n));
            && IsBound(Step(cfg, s, Terminate(code)).t, r)
            && (IsBound(half.t, r) <==> IsBound(s.t, r))
            && IsBound(Step(cfg, half, Disconnect(s.records[code].connection)).t, r)
  {
    var s := Run(cfg, Init(start), before);
    ReachableInv(cfg, start, before);
    LiveIsPending(s.t, r);
    TerminateWakes(cfg, s, code, r);
    KillingAgainIsInVain(cfg, HalfKilled(s, code), code, n);
    assert RecordOk(s, code);
    DisconnectWakes(cfg, Run(cfg, HalfKilled(s, code), Kills(code, n)), s.records[code].connection, r);
  }
}
