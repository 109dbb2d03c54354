/** The theorems about runs are not empty: for every answer a client can give there is a run in
    which the relay carries it, whole, from the client to the consumer of the dispatch. */
module Delivery {
  import opened Common
  import opened Protocol
  import opened SessionStore
  import opened BrokerSpec
  import opened BrokerSafety
  import opened BrokerTheorems
  import Policy = CommandPolicy

  /** The connection says it all. */
  function Saying(c: ConnId, r: RequestId, said: seq<Chunk>): seq<Event> {
    if said == [] then []
    else Saying(c, r, said[..|said| - 1]) + [Hear(c, Wire(Some(r), said[|said| - 1]))]
  }

  /** The consumer takes `n` messages, one after the other. */
  function Draining(r: RequestId, n: nat): seq<Event> {
    if n == 0 then [] else Draining(r, n - 1) + [Next(r)] + [Resume(r)]
  }

  function Queued(said: seq<Chunk>): seq<Item> {
    if said == [] then []
    else Queued(said[..|said| - 1]) + [Delivered(said[|said| - 1], said[|said| - 1].Result?)]
  }

  lemma {:induction false} QueuedAt(said: seq<Chunk>, i: nat)
    requires i < |said|
    ensures |Queued(said)| == |said| && Queued(said)[i] == Delivered(said[i], said[i].Result?)
  {
    if |said| > 1 {
      QueuedAt(said[..|said| - 1], if i < |said| - 1 then i else 0);
    }
  }

  /** Request `r` is waiting on connection `c` with this queue, and has yielded nothing but `yielded`. */
  predicate IsWaiting(t: Traffic, c: ConnId, r: RequestId, queue: seq<Item>, yielded: seq<Chunk>) {
    && r in t.pending && t.pending[r] == Pending(c, queue)
    && r in t.flights && t.flights[r].connection == c && t.flights[r].phase == Waiting
    && t.flights[r].yielded == yielded
  }

  lemma {:induction false} SayingFillsTheQueue(cfg: Config, s: State, c: ConnId, r: RequestId, said: seq<Chunk>)
    requires IsOpen(s, c) && IsWaiting(s.t, c, r, [], [])
    ensures var s' := Run(cfg, s, Saying(c, r, said));
            IsOpen(s', c) && IsWaiting(s'.t, c, r, Queued(said), [])
  {
    if said != [] {
      var front, last := said[..|said| - 1], said[|said| - 1];
      SayingFillsTheQueue(cfg, s, c, r, front);
      RunSnoc(cfg, s, Saying(c, r, front), Hear(c, Wire(Some(r), last)));
    }
  }

  /** Taking one message that is not final hands it over and waits for the next. */
  lemma TakeOne(cfg: Config, s: State, c: ConnId, r: RequestId, chunk: Chunk, queue: seq<Item>, yielded: seq<Chunk>)
    requires queue != [] && queue[0] == Delivered(chunk, false) && IsWaiting(s.t, c, r, queue, yielded)
    ensures IsWaiting(Step(cfg, Step(cfg, s, Next(r)), Resume(r)).t, c, r, queue[1..], yielded + [chunk])
  {
  }

  predicate HasEnded(t: Traffic, r: RequestId, o: Outcome, yielded: seq<Chunk>) {
    r in t.flights && t.flights[r].phase == Ended(o) && t.flights[r].yielded == yielded
  }

  /** Taking the final one ends the dispatch with it. */
  lemma TakeLast(cfg: Config, s: State, c: ConnId, r: RequestId, chunk: Chunk, queue: seq<Item>, yielded: seq<Chunk>)
    requires chunk.Result? && queue != [] && queue[0] == Delivered(chunk, true) && IsWaiting(s.t, c, r, queue, yielded)
    ensures var s' := Step(cfg, Step(cfg, s, Next(r)), Resume(r));
            HasEnded(s'.t, r, Finished(chunk.exitCode, chunk.error), yielded + [chunk])
  {
  }

  lemma RunTwo(cfg: Config, s: State, events: seq<Event>, d: Event, e: Event)
    ensures Run(cfg, s, events + [d] + [e]) == Step(cfg, Step(cfg, Run(cfg, s, events), d), e)
  {
    RunSnoc(cfg, s, events, d);
    RunSnoc(cfg, s, events + [d], e);
  }

  /** One turn of the consumer: it takes a message and asks for the next. */
  ghost predicate IsTurn(cfg: Config, r: RequestId, s: State, s': State) {
    s' == Step(cfg, Step(cfg, s, Next(r)), Resume(r))
  }

  lemma DrainingTurn(cfg: Config, s: State, r: RequestId, n: nat)
    ensures IsTurn(cfg, r, Run(cfg, s, Draining(r, n)), Run(cfg, s, Draining(r, n + 1)))
  {
    RunTwo(cfg, s, Draining(r, n), Next(r), Resume(r));
  }

  /** From `n` messages taken to one more. */
  lemma DrainOne(cfg: Config, s: State, s': State, c: ConnId, r: RequestId, said: seq<Chunk>, n: nat)
    requires n + 1 < |said| && NoResult(said[..|said| - 1]) && |Queued(said)| == |said|
    requires IsTurn(cfg, r, s, s')
    requires IsWaiting(s.t, c, r, Queued(said)[n..], said[..n])
    ensures IsWaiting(s'.t, c, r, Queued(said)[n + 1..], said[..n + 1])
  {
    QueuedAt(said, n);
    assert said[..|said| - 1][n] == said[n];
    TakeOne(cfg, s, c, r, said[n], Queued(said)[n..], said[..n]);
    assert Queued(said)[n..][1..] == Queued(said)[n + 1..];
    assert said[..n] + [said[n]] == said[..n + 1];
  }

  lemma {:induction false} TurnsYield(cfg: Config, states: nat -> State, c: ConnId, r: RequestId,
                                      said: seq<Chunk>, n: nat)
    requires forall k: nat :: IsTurn(cfg, r, states(k), states(k + 1))
    requires IsWaiting(states(0).t, c, r, Queued(said), []) && n < |said| && NoResult(said[..|said| - 1])
    ensures |Queued(said)| == |said| && IsWaiting(states(n).t, c, r, Queued(said)[n..], said[..n])
  {
    QueuedAt(said, n);
    if n == 0 {
      assert Queued(said)[0..] == Queued(said) && said[..0] == [];
    } else {
      TurnsYield(cfg, states, c, r, said, n - 1);
      assert IsTurn(cfg, r, states(n - 1), states((n - 1) + 1));
      DrainOne(cfg, states(n - 1), states(n), c, r, said, n - 1);
    }
  }

  lemma DrainingYields(cfg: Config, s: State, c: ConnId, r: RequestId, said: seq<Chunk>, n: nat)
    requires IsWaiting(s.t, c, r, Queued(said), []) && n < |said| && NoResult(said[..|said| - 1])
    ensures |Queued(said)| == |said|
    ensures IsWaiting(Run(cfg, s, Draining(r, n)).t, c, r, Queued(said)[n..], said[..n])
  {
    var states := (k: nat) => Run(cfg, s, Draining(r, k));
    forall k: nat
      ensures IsTurn(cfg, r, states(k), states(k + 1))
    {
      DrainingTurn(cfg, s, r, k);
    }
    TurnsYield(cfg, states, c, r, said, n);
  }

  /** The last message, taken after all the others. */
  lemma DrainLast(cfg: Config, s: State, s': State, c: ConnId, r: RequestId, said: seq<Chunk>)
    requires IsSentence(said) && |Queued(said)| == |said|
    requires IsTurn(cfg, r, s, s')
    requires IsWaiting(s.t, c, r, Queued(said)[|said| - 1..], said[..|said| - 1])
    ensures var last := said[|said| - 1]; HasEnded(s'.t, r, Finished(last.exitCode, last.error), said)
  {
    var n := |said| - 1;
    QueuedAt(said, n);
    TakeLast(cfg, s, c, r, said[n], Queued(said)[n..], said[..n]);
    assert said[..n] + [said[n]] == said;
  }

  /** A waiting dispatch whose client says a sentence yields it whole and ends with its result. */
  lemma SentenceIsCarried(cfg: Config, s: State, c: ConnId, r: RequestId, said: seq<Chunk>)
    requires IsOpen(s, c) && IsWaiting(s.t, c, r, [], []) && IsSentence(said)
    ensures var last := said[|said| - 1];
            var s' := Run(cfg, s, Saying(c, r, said) + Draining(r, |said|));
            HasEnded(s'.t, r, Finished(last.exitCode, last.error), said)
  {
    var n := |said| - 1;
    var s1 := Run(cfg, s, Saying(c, r, said));
    SayingFillsTheQueue(cfg, s, c, r, said);
    DrainingYields(cfg, s1, c, r, said, n);
    DrainingTurn(cfg, s1, r, n);
    DrainLast(cfg, Run(cfg, s1, Draining(r, n)), Run(cfg, s1, Draining(r, n + 1)), c, r, said);
    RunAppend(cfg, s, Saying(c, r, said), Draining(r, |said|));
  }

  /** A client connects and registers, and a command is dispatched to it and sent. */
  function Opening(code: string, details: Details, r: RequestId, tool: string, params: map<string, string>,
                   now: real): seq<Event> {
    [] + [Connect(0)] + [Register(0, details, Some(code), _ => code, now)]
    + [Dispatch(r, code, tool, params, now)] + [SendDone(r, true)]
  }

  lemma RegisteredNow(cfg: Config, code: string, details: Details, now: real)
    requires IsCode(cfg.isDigit, code)
    ensures var s := Step(cfg, Step(cfg, Init(now), Connect(0)), Register(0, details, Some(code), _ => code, now));
            s == State(map[code := Record(code, 0, details, now, now + cfg.ttl)], map[0 := Open(Some(code))], now,
                       Init(now).t)
  {
    assert Normalize(cfg.isDigit, Some(code)) == Some(code);
  }

  lemma OpeningWaits(cfg: Config, code: string, details: Details, r: RequestId, tool: string, params: map<string,
                     string>, now: real)
    requires IsCode(cfg.isDigit, code) && cfg.ttl > 0.0
    requires Policy.Admits(cfg.policy, [], code, Policy.Subject(tool, params), now)
    ensures var s := Run(cfg, Init(now), Opening(code, details, r, tool, params, now));
            IsOpen(s, 0) && IsWaiting(s.t, 0, r, [], [])
  {
    var two := [] + [Connect(0)] + [Register(0, details, Some(code), _ => code, now)];
    RunTwo(cfg, Init(now), [], Connect(0), Register(0, details, Some(code), _ => code, now));
    RunTwo(cfg, Init(now), two, Dispatch(r, code, tool, params, now), SendDone(r, true));
    RegisteredNow(cfg, code, details, now);
    Policy.DecideDecides(cfg.policy, [], code, Policy.Subject(tool, params), now);
  }

  /** From the start: any well-formed code, any command the policy admits first, any sentence. */
  lemma EverySentenceCanBeDelivered(cfg: Config, code: string, details: Details, r: RequestId, tool: string,
                                    params: map<string, string>, now: real, said: seq<Chunk>)
    requires IsCode(cfg.isDigit, code) && cfg.ttl > 0.0 && IsSentence(said)
    requires Policy.Admits(cfg.policy, [], code, Policy.Subject(tool, params), now)
    ensures var events := Opening(code, details, r, tool, params, now) + (Saying(0, r, said) + Draining(r, |said|));
            var last := said[|said| - 1];
            HasEnded(Run(cfg, Init(now), events).t, r, Finished(last.exitCode, last.error), said)
  {
    OpeningWaits(cfg, code, details, r, tool, params, now);
    var s := Run(cfg, Init(now), Opening(code, details, r, tool, params, now));
    SentenceIsCarried(cfg, s, 0, r, said);
    RunAppend(cfg, Init(now), Opening(code, details, r, tool, params, now), Saying(0, r, said) + Draining(r, |said|));
  }
}
