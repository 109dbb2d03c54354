/** The relay's broker and WebSocket loop as the program runs them: fields assigned in place, one
    method for what happens between two awaits. Each is proved to be one step of BrokerSpec, and the
    state after any sequence of calls is a run of it, for which the theorems about runs hold. */
module Broker {
  import opened Common
  import opened Protocol
  import opened SessionStore
  import opened BrokerSpec
  import BrokerSafety
  import Policy = CommandPolicy

  /** How a dispatch starts: with an exception, or with its command on the way. */
  datatype Start = NotFound | Denied(reason: Policy.Reason) | Sent(connection: ConnId)

  class Broker {
    const cfg: Config
    const store: InMemorySessionStore
    const policy: Policy.CommandPolicy
    var pending: map<RequestId, Pending>
    var flights: map<RequestId, Flight>  // the frames of the `dispatch_command` generators
    var loops: map<ConnId, Loop>         // the `session_code` variables of the WebSocket loops
    var trail: seq<AuditEntry>
    var heard: seq<Heard>                // history: the program only routes messages; `since` counts them
    ghost var frames: seq<Frame>
    ghost var ended: seq<RequestId>
    ghost var cut: set<ConnId>
    ghost var clock: real
    ghost const start: real
    ghost var events: seq<Event>         // the calls so far

    /** What has been called so far, as a run, leads to this very state. */
    ghost predicate Valid()
      reads this, store, policy
    {
      && Wired() && Snapshot() == Run(cfg, Init(start), events)
    }

    ghost predicate Wired()
      reads this, store, policy
    {
      && store.isDigit == cfg.isDigit
      && policy.cfg == cfg.policy && policy.Valid() && policy.clock <= clock
    }

    ghost function Snapshot(): State
      reads this, store, policy
    {
      State(store.records, loops, clock, Traffic(pending, flights, policy.history, trail, heard, frames, ended, cut))
    }

    constructor (cfg: Config, start: real)
      ensures Valid() && fresh(store) && fresh(policy) && this.cfg == cfg
      ensures Snapshot() == Init(start) && this.start == start && events == []
    {
      this.cfg := cfg;
      store := new InMemorySessionStore(cfg.isDigit);
      policy := new Policy.CommandPolicy(cfg.policy, start);
      pending, flights, loops, trail := map[], map[], map[], [];
      heard, frames, ended, cut, clock := [], [], [], {}, start;
      this.start, events := start, [];
    }

    /** Every state the program can reach satisfies the invariant. */
    lemma ReachedStateIsSafe()
      requires Valid()
      ensures BrokerSafety.Inv(cfg, Snapshot())
    {
      BrokerSafety.InitInv(cfg, start);
      BrokerSafety.RunKeepsInv(cfg, Init(start), events);
    }

    /** Records the step that was just taken. */
    ghost method Took(e: Event)
      requires Wired() && Snapshot() == Step(cfg, Run(cfg, Init(start), events), e)
      modifies this`events
      ensures Valid() && events == old(events) + [e]
    {
      RunSnoc(cfg, Init(start), events, e);
      assert Snapshot() == Run(cfg, Init(start), events + [e]);
      events := events + [e];
    }

    // ----- The WebSocket loop -----

    method Connect(c: ConnId)
      requires Valid() && c !in loops
      modifies this
      ensures Valid() && events == old(events) + [BrokerSpec.Connect(c)]
      ensures Snapshot() == Step(cfg, old(Snapshot()), BrokerSpec.Connect(c))
    {
      loops := loops[c := Open(None)];
      Took(BrokerSpec.Connect(c));
    }

    /** A `register` message: the code it is answered with, or None when the loop ends instead. */
    method Register(c: ConnId, details: Details, raw: Option<string>, draws: nat -> string, now: real)
      returns (code: Option<string>)
      requires Valid() && c in loops && loops[c].Open? && clock <= now
      modifies this, store
      ensures Valid() && events == old(events) + [BrokerSpec.Register(c, details, raw, draws, now)]
      ensures Snapshot() == Step(cfg, old(Snapshot()), BrokerSpec.Register(c, details, raw, draws, now))
      ensures loops[c] == if code.Some? then Open(code) else Closed(None)
    {
      clock := now;
      if loops[c].session.Some? {
        code := loops[c].session;
      } else {
        code := store.Create(c, details, cfg.ttl, Normalize(cfg.isDigit, raw), draws, now);
        if code.Some? {
          loops := loops[c := Open(code)];
        } else {
          DropConnection(c);
        }
      }
      Took(BrokerSpec.Register(c, details, raw, draws, now));
    }

    method Heartbeat(c: ConnId, now: real)
      requires Valid() && c in loops && loops[c].Open? && clock <= now
      modifies this, store
      ensures Valid() && events == old(events) + [BrokerSpec.Heartbeat(c, now)]
      ensures Snapshot() == Step(cfg, old(Snapshot()), BrokerSpec.Heartbeat(c, now))
    {
      clock := now;
      if loops[c].session.Some? {
        var known := store.Touch(loops[c].session.value, cfg.ttl, now);
      }
      Took(BrokerSpec.Heartbeat(c, now));
    }

    /** The `finally` clause of the loop, and the broker's own clean-up. */
    method UnregisterConnection(c: ConnId)
      requires Valid() && c in loops && loops[c].Open?
      modifies this, store
      ensures Valid() && events == old(events) + [Disconnect(c)]
      ensures Snapshot() == Step(cfg, old(Snapshot()), Disconnect(c))
    {
      DropConnection(c);
      Took(Disconnect(c));
    }

    method DropConnection(c: ConnId)
      requires Wired() && c in loops
      modifies this`loops, this`pending, this`cut, store
      ensures Wired() && Snapshot() == Unregistered(old(Snapshot()), c)
    {
      store.RemoveByConnection(c);
      loops := loops[c := Closed(loops[c].session)];
      WakePending(c);
    }

    /** Queues the sentinel for every request pending on `c`. */
    method WakePending(c: ConnId)
      modifies this`pending, this`cut
      ensures pending == Woken(old(pending), c) && cut == old(cut) + {c}
    {
      var todo := pending.Keys;
      while todo != {}
        invariant todo <= pending.Keys == old(pending).Keys && cut == old(cut)
        invariant forall r :: r in pending ==>
                    pending[r] == if r in todo then old(pending)[r] else Woken(old(pending), c)[r]
        decreases |todo|
      {
        var r :| r in todo;
        todo := todo - {r};
        if pending[r].connection == c {
          pending := pending[r := pending[r].(queue := pending[r].queue + [Disconnected])];
        }
      }
      assert pending == Woken(old(pending), c);
      cut := cut + {c};
    }

    // ----- The kill-switch and the rest of the broker's interface -----

    method TerminateSession(code: string) returns (found: bool)
      requires Valid()
      modifies this, store
      ensures Valid() && events == old(events) + [Terminate(code)]
      ensures Snapshot() == Step(cfg, old(Snapshot()), Terminate(code))
      ensures found <==> code in old(store.records)
    {
      var record := store.Terminate(code);
      found := record.Some?;
      trail := trail + [KilledEntry(code, found)];
      if found {
        WakePending(record.value.connection);
      }
      Took(Terminate(code));
    }

    method GetSessionInfo(code: string, now: real) returns (record: Option<Record>)
      requires Valid() && clock <= now
      modifies this, store
      ensures Valid() && events == old(events) + [Inspect(code, now)]
      ensures Snapshot() == Step(cfg, old(Snapshot()), Inspect(code, now))
      ensures record == if code in old(store.records) && now < old(store.records)[code].expiresAt
                        then Some(old(store.records)[code]) else None
    {
      clock := now;
      record := store.Get(code, now);
      Took(Inspect(code, now));
    }

    method HandleClientMessage(c: ConnId, w: Wire)
      requires Valid() && c in loops && loops[c].Open?
      modifies this
      ensures Valid() && events == old(events) + [Hear(c, w)]
      ensures Snapshot() == Step(cfg, old(Snapshot()), Hear(c, w))
    {
      heard := heard + [Heard(c, w)];
      // Unknown, finished, or somebody else's requests: the message is dropped.
      if w.requestId.Some? && w.requestId.value in pending && pending[w.requestId.value].connection == c {
        var r := w.requestId.value;
        match w.chunk {
          case Result(_, _, _) =>
            pending := pending[r := pending[r].(queue := pending[r].queue + [Delivered(w.chunk, true)])];
          case _ =>
            pending := pending[r := pending[r].(queue := pending[r].queue + [Delivered(w.chunk, false)])];
        }
      }
      Took(Hear(c, w));
    }

    // ----- One dispatch, from await to await -----

    /** The command becomes pending and its frame is sent. */
    method Launch(r: RequestId, code: string, tool: string, params: map<string, string>, c: ConnId, now: real)
      modifies this`pending, this`flights, this`frames
      ensures pending == old(pending)[r := Pending(c, [])]
      ensures flights == old(flights)[r := Flight(code, tool, c, |heard|, [], Sending)]
      ensures frames == old(frames) + [Frame(r, c, code, tool, params, now)]
    {
      pending := pending[r := Pending(c, [])];
      flights := flights[r := Flight(code, tool, c, |heard|, [], Sending)];
      frames := frames + [Frame(r, c, code, tool, params, now)];
    }

    /** The policy is asked, and a refusal is written to the audit trail. */
    method Screen(code: string, tool: string, params: map<string, string>, now: real) returns (d: Policy.Decision)
      requires Wired() && clock <= now
      modifies this`trail, this`clock, policy
      ensures Wired() && clock == now
      ensures d == Policy.Decide(cfg.policy, old(policy.history), code, Policy.Subject(tool, params), now)
      ensures policy.history ==
              if d.Allowed? then old(policy.history) + [Policy.Admission(code, now)] else old(policy.history)
      ensures trail == if d.Allowed? then old(trail) else old(trail) + [DeniedEntry(code, tool, d.reason)]
    {
      clock := now;
      d := policy.Check(code, tool, params, now);
      if d.Refused? {
        trail := trail + [DeniedEntry(code, tool, d.reason)];
      }
    }

    /** The lookup, the policy, and the command on its way. */
    method LookUpAndSend(r: RequestId, code: string, tool: string, params: map<string, string>, now: real)
      returns (outcome: Start)
      requires Wired() && clock <= now && r !in flights
      modifies this`pending, this`flights, this`frames, this`trail, this`clock, store, policy
      ensures Wired()
      ensures Snapshot() == Dispatched(cfg, old(Snapshot()).(clock := now), r, code, tool, params, now)
      ensures outcome.NotFound? <==> !(code in old(store.records) && now < old(store.records)[code].expiresAt)
      ensures outcome.Sent? <==> r in flights
      ensures outcome.Sent? ==>
                code in old(store.records) && outcome.connection == old(store.records)[code].connection
    {
      clock := now;
      var record := store.Get(code, now);
      if record.None? {
        outcome := NotFound;
      } else {
        var decision := Screen(code, tool, params, now);
        if decision.Refused? {
          outcome := Denied(decision.reason);
        } else {
          Launch(r, code, tool, params, record.value.connection, now);
          outcome := Sent(record.value.connection);
        }
      }
    }

    /** Up to the `send_json` of the command. `r` is the fresh identifier. */
    method DispatchCommand(r: RequestId, code: string, tool: string, params: map<string, string>, now: real)
      returns (outcome: Start)
      requires Valid() && clock <= now && r !in flights
      modifies this, store, policy
      ensures Valid() && events == old(events) + [Dispatch(r, code, tool, params, now)]
      ensures Snapshot() == Step(cfg, old(Snapshot()), Dispatch(r, code, tool, params, now))
      ensures outcome.NotFound? <==> !(code in old(store.records) && now < old(store.records)[code].expiresAt)
      ensures outcome.Sent? <==> r in flights
      ensures outcome.Sent? ==>
                code in old(store.records) && outcome.connection == old(store.records)[code].connection
    {
      outcome := LookUpAndSend(r, code, tool, params, now);
      Took(Dispatch(r, code, tool, params, now));
    }

    /** The `finally` clause. */
    method End(r: RequestId, outcome: Outcome)
      requires r in flights
      modifies this`pending, this`flights, this`trail, this`ended
      ensures pending == old(pending) - {r} && flights == old(flights)[r := old(flights)[r].(phase := Ended(outcome))]
      ensures trail == old(trail) + [AllowedEntry(old(flights)[r].code, old(flights)[r].tool, outcome)]
      ensures ended == old(ended) + [r]
    {
      pending := pending - {r};
      trail := trail + [AllowedEntry(flights[r].code, flights[r].tool, outcome)];
      flights := flights[r := flights[r].(phase := Ended(outcome))];
      ended := ended + [r];
    }

    method CommandSent(r: RequestId, ok: bool)
      requires Valid() && r in flights && flights[r].phase.Sending?
      modifies this
      ensures Valid() && events == old(events) + [SendDone(r, ok)]
      ensures Snapshot() == Step(cfg, old(Snapshot()), SendDone(r, ok))
    {
      if ok {
        flights := flights[r := flights[r].(phase := Waiting)];
      } else {
        End(r, ClientGone);
      }
      Took(SendDone(r, ok));
    }

    /** `queue.get()` returns: the chunk yielded, or None when the dispatch raises instead. */
    method TakeItem(r: RequestId) returns (chunk: Option<Chunk>)
      requires Valid() && r in flights && flights[r].phase.Waiting? && r in pending && pending[r].queue != []
      modifies this
      ensures Valid() && events == old(events) + [Next(r)]
      ensures Snapshot() == Step(cfg, old(Snapshot()), Next(r))
      ensures flights[r].yielded == old(flights)[r].yielded + if chunk.Some? then [chunk.value] else []
    {
      var item := pending[r].queue[0];
      match item {
        case Disconnected =>
          End(r, ClientGone);
          chunk := None;
        case Delivered(c, final) =>
          pending := pending[r := pending[r].(queue := pending[r].queue[1..])];
          flights := flights[r := flights[r].(yielded := flights[r].yielded + [c], phase := Handed(c, final))];
          chunk := Some(c);
      }
      Took(Next(r));
    }

    /** The consumer asks for more after a yield. */
    method ResumeDispatch(r: RequestId)
      requires Valid() && r in flights && flights[r].phase.Handed?
      modifies this
      ensures Valid() && events == old(events) + [Resume(r)]
      ensures Snapshot() == Step(cfg, old(Snapshot()), Resume(r))
    {
      var chunk := flights[r].phase.chunk;
      if flights[r].phase.final {
        End(r, OutcomeOf(chunk));
      } else {
        flights := flights[r := flights[r].(phase := Waiting)];
      }
      Took(Resume(r));
    }

    method TimeOut(r: RequestId)
      requires Valid() && r in flights && flights[r].phase.Waiting?
      modifies this
      ensures Valid() && events == old(events) + [Timeout(r)]
      ensures Snapshot() == Step(cfg, old(Snapshot()), Timeout(r))
    {
      End(r, TimedOut);
      Took(Timeout(r));
    }

    /** The consumer closes the generator, or its task is cancelled. */
    method Abandon(r: RequestId)
      requires Valid() && r in flights && !flights[r].phase.Ended?
      modifies this
      ensures Valid() && events == old(events) + [Close(r)]
      ensures Snapshot() == Step(cfg, old(Snapshot()), Close(r))
    {
      End(r, Nothing);
      Took(Close(r));
    }
  }
}
