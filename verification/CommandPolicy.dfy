/** The command policy of the relay (relay/command_policy.py): deny and allow patterns, a quota,
    and a limit over a sliding window kept in one deque a session code. */
module CommandPolicy {
  import opened Common

  const WINDOW := 60.0

  /** Patterns are predicates: what a regular expression matches is not modelled. */
  datatype Config = Config(deny: seq<string -> bool>, allow: seq<string -> bool>,
                           maxCommands: Option<int>, ratePerMinute: Option<int>)

  datatype Reason = Denied(pattern: nat) | NotAllowed | QuotaExceeded | RateExceeded

  datatype Decision = Allowed | Refused(reason: Reason)

  /** One command let through. */
  datatype Admission = Admission(code: string, at: real)

  /** What the patterns apply to: the command line, the path, or nothing. */
  function Subject(tool: string, params: map<string, string>): Option<string> {
    if tool in ["run_command", "run_shell"] then Lookup(params, "command")
    else if tool in ["read_file", "write_file"] then Lookup(params, "path")
    else None
  }

  function Lookup(params: map<string, string>, key: string): Option<string> {
    if key in params then Some(params[key]) else None
  }

  /** Some pattern from number `from` on matches. */
  predicate Matches(patterns: seq<string -> bool>, subject: string) {
    exists i :: 0 <= i < |patterns| && patterns[i](subject)
  }

  predicate FirstMatch(patterns: seq<string -> bool>, subject: string, k: nat) {
    k < |patterns| && patterns[k](subject) && forall i :: 0 <= i < k ==> !patterns[i](subject)
  }

  // ----- The reference: one scan of everything ever admitted -----

  /** When commands of `code` were let through. */
  function TimesOf(history: seq<Admission>, code: string): seq<real> {
    if history == [] then []
    else
      var before, last := TimesOf(history[..|history| - 1], code), history[|history| - 1];
      if last.code == code then before + [last.at] else before
  }

  /** Those less than a window ago. */
  function InWindow(times: seq<real>, now: real): seq<real> {
    if times == [] then []
    else
      var before, last := InWindow(times[..|times| - 1], now), times[|times| - 1];
      if now - last < WINDOW then before + [last] else before
  }

  predicate QuotaReached(cfg: Config, times: seq<real>) {
    cfg.maxCommands.Some? && |times| >= cfg.maxCommands.value
  }

  predicate RateReached(cfg: Config, times: seq<real>, now: real) {
    cfg.ratePerMinute.Some? && |InWindow(times, now)| >= cfg.ratePerMinute.value
  }

  predicate PatternsPass(cfg: Config, subject: Option<string>) {
    subject.Some? ==> !Matches(cfg.deny, subject.value) && (cfg.allow == [] || Matches(cfg.allow, subject.value))
  }

  predicate Admits(cfg: Config, history: seq<Admission>, code: string, subject: Option<string>, now: real) {
    && PatternsPass(cfg, subject)
    && !QuotaReached(cfg, TimesOf(history, code))
    && !RateReached(cfg, TimesOf(history, code), now)
  }

  /** What it means for a decision to be the right one, given the history alone. */
  ghost predicate Decides(d: Decision, cfg: Config, history: seq<Admission>, code: string, subject: Option<string>,
                          now: real) {
    match d
    case Allowed => Admits(cfg, history, code, subject, now)
    case Refused(Denied(k)) => subject.Some? && FirstMatch(cfg.deny, subject.value, k)
    case Refused(NotAllowed) =>
      subject.Some? && !Matches(cfg.deny, subject.value) && cfg.allow != [] && !Matches(cfg.allow, subject.value)
    case Refused(QuotaExceeded) => PatternsPass(cfg, subject) && QuotaReached(cfg, TimesOf(history, code))
    case Refused(RateExceeded) =>
      && PatternsPass(cfg, subject) && !QuotaReached(cfg, TimesOf(history, code))
      && RateReached(cfg, TimesOf(history, code), now)
  }

  lemma FirstMatchIsUnique(patterns: seq<string -> bool>, subject: string, i: nat, j: nat)
    requires FirstMatch(patterns, subject, i) && FirstMatch(patterns, subject, j)
    ensures i == j
  {
    if i < j || j < i {
      assert false;
    }
  }

  /** The history leaves room for one decision only. */
  lemma DecisionIsUnique(d: Decision, e: Decision, cfg: Config, history: seq<Admission>, code: string,
                         subject: Option<string>, now: real)
    requires Decides(d, cfg, history, code, subject, now) && Decides(e, cfg, history, code, subject, now)
    ensures d == e
  {
    match (d, e)
    case (Refused(Denied(i)), Refused(Denied(j))) =>
      FirstMatchIsUnique(cfg.deny, subject.value, i, j);
    case (_, _) =>
  }

  /** The number of the first pattern that matches, from number `from` on. */
  function FirstIndex(patterns: seq<string -> bool>, subject: string, from: nat): Option<nat>
    decreases |patterns| - from
  {
    if from >= |patterns| then None
    else if patterns[from](subject) then Some(from)
    else FirstIndex(patterns, subject, from + 1)
  }

  /** The decision, as one scan of the history. */
  function Decide(cfg: Config, history: seq<Admission>, code: string, subject: Option<string>, now: real): Decision {
    if subject.Some? && FirstIndex(cfg.deny, subject.value, 0).Some? then
      Refused(Denied(FirstIndex(cfg.deny, subject.value, 0).value))
    else if subject.Some? && cfg.allow != [] && FirstIndex(cfg.allow, subject.value, 0).None? then Refused(NotAllowed)
    else if QuotaReached(cfg, TimesOf(history, code)) then Refused(QuotaExceeded)
    else if RateReached(cfg, TimesOf(history, code), now) then Refused(RateExceeded)
    else Allowed
  }

  lemma {:induction false} FirstIndexMatches(patterns: seq<string -> bool>, subject: string, from: nat)
    requires from <= |patterns| && forall i :: 0 <= i < from ==> !patterns[i](subject)
    ensures var k := FirstIndex(patterns, subject, from);
            && (k.Some? ==> FirstMatch(patterns, subject, k.value))
            && (k.None? <==> !Matches(patterns, subject))
    decreases |patterns| - from
  {
    if from < |patterns| && !patterns[from](subject) {
      FirstIndexMatches(patterns, subject, from + 1);
    }
  }

  /** The scan makes the right decision; by the lemma above there is no other. */
  lemma DecideDecides(cfg: Config, history: seq<Admission>, code: string, subject: Option<string>, now: real)
    ensures Decides(Decide(cfg, history, code, subject, now), cfg, history, code, subject, now)
    ensures Decide(cfg, history, code, subject, now).Allowed? <==> Admits(cfg, history, code, subject, now)
  {
    if subject.Some? {
      FirstIndexMatches(cfg.deny, subject.value, 0);
      FirstIndexMatches(cfg.allow, subject.value, 0);
    }
  }

  // ----- The implementation -----

  class CommandPolicy {
    const cfg: Config
    var counts: map<string, nat>
    var timestamps: map<string, seq<real>>
    ghost var history: seq<Admission>       // everything ever admitted
    ghost var gone: map<string, seq<real>>  // what was evicted from each deque
    ghost var clock: real                   // the last time this policy was asked

    ghost predicate Valid()
      reads this
    {
      forall code :: Tracks(Count(code), Gone(code), Deque(code), TimesOf(history, code), clock)
    }

    function Count(code: string): nat
      reads this
    {
      if code in counts then counts[code] else 0
    }

    function Deque(code: string): seq<real>
      reads this
    {
      if code in timestamps then timestamps[code] else []
    }

    ghost function Gone(code: string): seq<real>
      reads this
    {
      if code in gone then gone[code] else []
    }

    constructor (cfg: Config, now: real)
      ensures Valid() && history == [] && this.cfg == cfg && clock == now
    {
      this.cfg := cfg;
      counts, timestamps := map[], map[];
      history, gone, clock := [], map[], now;
    }

    /** Decides one command. The decision is the one the whole history dictates, a refusal leaves
        the history alone, and the deque ends up holding exactly what is still in the window. */
    method Check(code: string, tool: string, params: map<string, string>, now: real) returns (d: Decision)
      requires Valid() && clock <= now
      modifies this
      ensures Valid() && clock == now
      ensures d == Decide(cfg, old(history), code, Subject(tool, params), now)
      ensures history == if d.Allowed? then old(history) + [Admission(code, now)] else old(history)
      ensures d.Allowed? || d == Refused(RateExceeded) ==>
                Deque(code) == InWindow(TimesOf(history, code), now)
    {
      Wait(now);
      var subject := Subject(tool, params);
      ghost var times := TimesOf(history, code);
      if subject.Some? {
        var denied := MatchFirst(cfg.deny, subject.value);
        if denied.Some? {
          return Refused(Denied(denied.value));
        }
        if cfg.allow != [] {
          var allowed := MatchFirst(cfg.allow, subject.value);
          if allowed.None? {
            return Refused(NotAllowed);
          }
        }
      }
      var count := Count(code);
      if cfg.maxCommands.Some? && count >= cfg.maxCommands.value {
        return Refused(QuotaExceeded);
      }
      Evict(code, now);
      if cfg.ratePerMinute.Some? && |timestamps[code]| >= cfg.ratePerMinute.value {
        return Refused(RateExceeded);
      }
      TimesSnoc(history, Admission(code, now), code);
      WindowSnoc(times, now);
      Admit(code, now);
      d := Allowed;
    }

    /** Time passes. */
    ghost method Wait(now: real)
      requires Valid() && clock <= now
      modifies this`clock
      ensures Valid() && clock == now
    {
      forall c
        ensures Tracks(Count(c), Gone(c), Deque(c), TimesOf(history, c), now)
      {
        AllGoneLater(Gone(c), clock, now);
      }
      clock := now;
    }

    /** Drops the expired timestamps at the front of the deque. */
    method Evict(code: string, now: real)
      requires Valid() && clock == now
      modifies this`timestamps, this`gone
      ensures Valid()
      ensures code in timestamps && Deque(code) == InWindow(TimesOf(history, code), now)
    {
      ghost var out;
      var deque;
      out, deque := PopExpired(Gone(code), Deque(code), TimesOf(history, code), now);
      timestamps := timestamps[code := deque];
      gone := gone[code := out];
      forall c
        ensures Tracks(Count(c), Gone(c), Deque(c), TimesOf(history, c), clock)
      {
        assert c != code ==> Tracks(Count(c), old(Gone(c)), old(Deque(c)), TimesOf(history, c), clock);
      }
    }

    method Admit(code: string, now: real)
      requires Valid() && clock == now && code in timestamps
      modifies this`counts, this`timestamps, this`history
      ensures Valid() && history == old(history) + [Admission(code, now)]
      ensures Deque(code) == old(Deque(code)) + [now]
    {
      ghost var times := TimesOf(history, code);
      TracksSnoc(Count(code), Gone(code), Deque(code), times, now);
      counts := counts[code := Count(code) + 1];
      timestamps := timestamps[code := timestamps[code] + [now]];
      history := history + [Admission(code, now)];
      forall c
        ensures Tracks(Count(c), Gone(c), Deque(c), TimesOf(history, c), clock)
      {
        TimesSnoc(old(history), Admission(code, now), c);
        assert Tracks(old(Count(c)), Gone(c), old(Deque(c)), TimesOf(old(history), c), clock);
      }
    }
  }

  /** The eviction loop: takes from the front until it is inside the window. */
  method PopExpired(ghost gone: seq<real>, deque: seq<real>, ghost times: seq<real>, now: real)
    returns (ghost out: seq<real>, kept: seq<real>)
    requires Tracks(|times|, gone, deque, times, now)
    ensures Tracks(|times|, out, kept, times, now)
    ensures kept == InWindow(times, now)
  {
    out, kept := gone, deque;
    while kept != [] && now - kept[0] >= WINDOW
      invariant Tracks(|times|, out, kept, times, now)
      decreases |kept|
    {
      GoneSnoc(out, kept[0], now);
      MoveOver(out, kept);
      out, kept := out + [kept[0]], kept[1..];
    }
    TracksWindow(|times|, out, kept, times, now);
  }

  method MatchFirst(patterns: seq<string -> bool>, subject: string) returns (k: Option<nat>)
    ensures k == FirstIndex(patterns, subject, 0)
  {
    for i := 0 to |patterns|
      invariant FirstIndex(patterns, subject, i) == FirstIndex(patterns, subject, 0)
    {
      if patterns[i](subject) {
        return Some(i);
      }
    }
    k := None;
  }

  ghost predicate NonDecreasing(times: seq<real>) {
    |times| < 2 || (times[|times| - 2] <= times[|times| - 1] && NonDecreasing(times[..|times| - 1]))
  }

  /** All of them are out of the window. */
  ghost predicate AllGone(times: seq<real>, now: real) {
    times == [] || (now - times[|times| - 1] >= WINDOW && AllGone(times[..|times| - 1], now))
  }

  /** What one code's counter and deque say about the times it was let through: how many there
      are, and, once those out of the window are set apart, the others in order. */
  ghost predicate Tracks(count: nat, gone: seq<real>, deque: seq<real>, times: seq<real>, clock: real) {
    && count == |times| && times == gone + deque
    && AllGone(gone, clock) && NonDecreasing(times)
    && (times != [] ==> times[|times| - 1] <= clock)
  }

  lemma {:induction false} AllGoneLater(times: seq<real>, clock: real, now: real)
    requires AllGone(times, clock) && clock <= now
    ensures AllGone(times, now)
  {
    if times != [] {
      AllGoneLater(times[..|times| - 1], clock, now);
    }
  }

  lemma GoneSnoc(gone: seq<real>, first: real, now: real)
    requires AllGone(gone, now) && now - first >= WINDOW
    ensures AllGone(gone + [first], now)
  {
    assert (gone + [first])[..|gone|] == gone;
  }

  lemma MoveOver<T>(gone: seq<T>, deque: seq<T>)
    requires deque != []
    ensures gone + [deque[0]] + deque[1..] == gone + deque
  {
    assert deque == [deque[0]] + deque[1..];
  }

  lemma TracksSnoc(count: nat, gone: seq<real>, deque: seq<real>, times: seq<real>, clock: real)
    requires Tracks(count, gone, deque, times, clock)
    ensures Tracks(count + 1, gone, deque + [clock], times + [clock], clock)
  {
    assert (times + [clock])[..|times|] == times;
    assert gone + (deque + [clock]) == times + [clock];
  }

  lemma {:induction false} WindowAfterGone(gone: seq<real>, rest: seq<real>, now: real)
    requires AllGone(gone, now)
    ensures InWindow(gone + rest, now) == InWindow(rest, now)
  {
    if rest != [] {
      WindowAfterGone(gone, rest[..|rest| - 1], now);
      assert (gone + rest)[..|gone + rest| - 1] == gone + rest[..|rest| - 1];
    } else {
      assert gone + rest == gone;
      if gone != [] {
        WindowAfterGone(gone[..|gone| - 1], [], now);
        assert gone[..|gone| - 1] + [] == gone[..|gone| - 1];
      }
    }
  }

  lemma {:induction false} FirstIsLeast(times: seq<real>, from: nat, now: real)
    requires NonDecreasing(times) && from < |times| && now - times[from] < WINDOW
    ensures InWindow(times[from..], now) == times[from..] && times[from] <= times[|times| - 1]
  {
    if from < |times| - 1 {
      var front := times[..|times| - 1];
      FirstIsLeast(front, from, now);
      assert times[from..][..|times| - from - 1] == front[from..];
    } else {
      assert times[from..] == [times[from]];
      assert times[from..][..0] == [];
    }
  }

  /** Once its front is inside the window, the deque is exactly the window. */
  lemma TracksWindow(count: nat, gone: seq<real>, deque: seq<real>, times: seq<real>, now: real)
    requires Tracks(count, gone, deque, times, now)
    requires deque == [] || now - deque[0] < WINDOW
    ensures deque == InWindow(times, now)
  {
    WindowAfterGone(gone, deque, now);
    if deque != [] {
      assert times[|gone|] == deque[0];
      assert times[|gone|..] == deque;
      FirstIsLeast(times, |gone|, now);
    }
  }

  lemma TimesSnoc(history: seq<Admission>, a: Admission, code: string)
    ensures TimesOf(history + [a], code) == TimesOf(history, code) + if a.code == code then [a.at] else []
  {
    assert (history + [a])[..|history|] == history;
  }

  lemma WindowSnoc(times: seq<real>, now: real)
    ensures InWindow(times + [now], now) == InWindow(times, now) + [now]
  {
    assert (times + [now])[..|times|] == times;
  }

  // ----- Whole runs -----

  datatype Call = Call(code: string, tool: string, params: map<string, string>, now: real)

  predicate AdmitsCall(cfg: Config, history: seq<Admission>, c: Call) {
    Admits(cfg, history, c.code, Subject(c.tool, c.params), c.now)
  }

  function AfterCall(cfg: Config, history: seq<Admission>, c: Call): seq<Admission> {
    if AdmitsCall(cfg, history, c) then history + [Admission(c.code, c.now)] else history
  }

  /** Everything let through once a run of calls is added to a history. */
  function AfterCalls(cfg: Config, history: seq<Admission>, calls: seq<Call>): seq<Admission> {
    if calls == [] then history
    else AfterCall(cfg, AfterCalls(cfg, history, calls[..|calls| - 1]), calls[|calls| - 1])
  }

  function Admitted(cfg: Config, calls: seq<Call>): seq<Admission> {
    AfterCalls(cfg, [], calls)
  }

  /** How many of the times are after `from` and not after `to`. */
  function CountIn(times: seq<real>, from: real, to: real): nat {
    if times == [] then 0
    else
      var last := times[|times| - 1];
      CountIn(times[..|times| - 1], from, to) + if from < last <= to then 1 else 0
  }

  /** Each one was let through with fewer than `limit` in the window before it. */
  ghost predicate Spaced(times: seq<real>, limit: int) {
    times == [] ||
    (|InWindow(times[..|times| - 1], times[|times| - 1])| < limit && Spaced(times[..|times| - 1], limit))
  }

  lemma {:induction false} BetweenIsInWindow(times: seq<real>, t: real, now: real)
    requires now <= t
    ensures CountIn(times, t - 60.0, t) <= |InWindow(times, now)|
  {
    if times != [] {
      BetweenIsInWindow(times[..|times| - 1], t, now);
    }
  }

  /** Of times that have all come, those in the window are those of the last sixty seconds. */
  lemma {:induction false} WindowIsCounted(times: seq<real>, now: real)
    requires forall i :: 0 <= i < |times| ==> times[i] <= now
    ensures |InWindow(times, now)| == CountIn(times, now - 60.0, now)
  {
    if times != [] {
      WindowIsCounted(times[..|times| - 1], now);
    }
  }

  lemma {:induction false} SpacedIsBounded(times: seq<real>, limit: int, t: real)
    requires Spaced(times, limit)
    ensures CountIn(times, t - 60.0, t) <= if limit > 0 then limit else 0
  {
    if times != [] {
      SpacedIsBounded(times[..|times| - 1], limit, t);
      if t - 60.0 < times[|times| - 1] <= t {
        BetweenIsInWindow(times[..|times| - 1], t, times[|times| - 1]);
      }
    }
  }

  ghost predicate LimitsHold(cfg: Config, times: seq<real>) {
    && (cfg.maxCommands.Some? ==> |times| <= if cfg.maxCommands.value > 0 then cfg.maxCommands.value else 0)
    && (cfg.ratePerMinute.Some? ==> Spaced(times, cfg.ratePerMinute.value))
  }

  /** The two limits hold of every code in a history. */
  ghost predicate WithinLimits(cfg: Config, history: seq<Admission>) {
    forall code :: LimitsHold(cfg, TimesOf(history, code))
  }

  lemma AdmissionStaysWithin(cfg: Config, history: seq<Admission>, code: string, subject: Option<string>, now: real)
    requires WithinLimits(cfg, history) && Admits(cfg, history, code, subject, now)
    ensures WithinLimits(cfg, history + [Admission(code, now)])
  {
    forall c
      ensures LimitsHold(cfg, TimesOf(history + [Admission(code, now)], c))
    {
      TimesSnoc(history, Admission(code, now), c);
      var times := TimesOf(history, c);
      assert (times + [now])[..|times|] == times;
    }
  }

  /** The text of a command that patterns can match: its command line, or the path of its file. */
  predicate Shows(tool: string, params: map<string, string>, text: string) {
    || ((tool == "run_command" || tool == "run_shell") && "command" in params && params["command"] == text)
    || ((tool == "read_file" || tool == "write_file") && "path" in params && params["path"] == text)
  }

  /** Why a command may be refused, told of its own parameters and of the times commands of its code
      were let through: the first deny pattern it matches; failing that, that it matches none of the
      allow patterns; then the quota; then the rate of the last sixty seconds. */
  ghost predicate IsDue(cfg: Config, times: seq<real>, tool: string, params: map<string, string>, now: real,
                        reason: Reason) {
    match reason
    case Denied(k) =>
      exists text :: Shows(tool, params, text) && k < |cfg.deny| && cfg.deny[k](text)
                     && forall i :: 0 <= i < k ==> !cfg.deny[i](text)
    case NotAllowed =>
      exists text :: Shows(tool, params, text) && (forall i :: 0 <= i < |cfg.deny| ==> !cfg.deny[i](text))
                     && cfg.allow != [] && forall i :: 0 <= i < |cfg.allow| ==> !cfg.allow[i](text)
    case QuotaExceeded =>
      && (forall text :: Shows(tool, params, text) ==> PatternsAllow(cfg, text))
      && cfg.maxCommands.Some? && |times| >= cfg.maxCommands.value
    case RateExceeded =>
      && (forall text :: Shows(tool, params, text) ==> PatternsAllow(cfg, text))
      && (cfg.maxCommands.Some? ==> |times| < cfg.maxCommands.value)
      && cfg.ratePerMinute.Some? && CountIn(times, now - 60.0, now) >= cfg.ratePerMinute.value
  }

  /** No deny pattern matches, and one of the allow patterns does when there are any. */
  predicate PatternsAllow(cfg: Config, text: string) {
    && (forall i :: 0 <= i < |cfg.deny| ==> !cfg.deny[i](text))
    && (cfg.allow != [] ==> exists i :: 0 <= i < |cfg.allow| && cfg.allow[i](text))
  }

  lemma SubjectShows(tool: string, params: map<string, string>, text: string)
    ensures Shows(tool, params, text) <==> Subject(tool, params) == Some(text)
  {
  }

  /** A decision refuses for the reason that is due, and lets through when none is. */
  lemma DecisionIsDue(cfg: Config, history: seq<Admission>, code: string, tool: string, params: map<string, string>,
                      now: real, times: seq<real>)
    requires times == TimesOf(history, code) && forall i :: 0 <= i < |times| ==> times[i] <= now
    ensures match Decide(cfg, history, code, Subject(tool, params), now)
            case Refused(reason) => IsDue(cfg, times, tool, params, now, reason)
            case Allowed => forall reason :: !IsDue(cfg, times, tool, params, now, reason)
  {
    var subject := Subject(tool, params);
    DecideDecides(cfg, history, code, subject, now);
    WindowIsCounted(times, now);
    forall text
      ensures Shows(tool, params, text) <==> subject == Some(text)
    {
      SubjectShows(tool, params, text);
    }
    if subject.Some? {
      assert Shows(tool, params, subject.value);
    }
  }

  /** Over every run, at most `ratePerMinute` commands of one code fall in any window of sixty
      seconds, wherever it starts, and at most `maxCommands` are ever let through. */
  lemma {:induction false} WindowSafety(cfg: Config, calls: seq<Call>, code: string, t: real)
    ensures WithinLimits(cfg, Admitted(cfg, calls))
    ensures cfg.ratePerMinute.Some? ==>
              CountIn(TimesOf(Admitted(cfg, calls), code), t - 60.0, t)
              <= if cfg.ratePerMinute.value > 0 then cfg.ratePerMinute.value else 0
    ensures cfg.maxCommands.Some? ==>
              |TimesOf(Admitted(cfg, calls), code)| <= if cfg.maxCommands.value > 0 then cfg.maxCommands.value else 0
  {
    if calls != [] {
      var front, c := calls[..|calls| - 1], calls[|calls| - 1];
      WindowSafety(cfg, front, code, t);
      if AdmitsCall(cfg, Admitted(cfg, front), c) {
        AdmissionStaysWithin(cfg, Admitted(cfg, front), c.code, Subject(c.tool, c.params), c.now);
      }
    }
    if cfg.ratePerMinute.Some? {
      SpacedIsBounded(TimesOf(Admitted(cfg, calls), code), cfg.ratePerMinute.value, t);
    }
  }

  lemma {:induction false} AfterCallsAppend(cfg: Config, history: seq<Admission>, a: seq<Call>, b: seq<Call>)
    ensures AfterCalls(cfg, history, a + b) == AfterCalls(cfg, AfterCalls(cfg, history, a), b)
  {
    if b == [] {
      assert a + b == a;
    } else {
      AfterCallsAppend(cfg, history, a, b[..|b| - 1]);
      assert (a + b)[..|a + b| - 1] == a + b[..|b| - 1];
    }
  }

  /** A refused call consumes nothing: had it never been made, every later decision of the run
      would have been the same. */
  lemma RefusalIsFree(cfg: Config, before: seq<Call>, refused: Call, after: seq<Call>)
    requires !AdmitsCall(cfg, Admitted(cfg, before), refused)
    ensures Admitted(cfg, before + [refused] + after) == Admitted(cfg, before + after)
  {
    AfterCallsAppend(cfg, [], before + [refused], after);
    AfterCallsAppend(cfg, [], before, after);
    assert (before + [refused])[..|before|] == before;
  }
}
