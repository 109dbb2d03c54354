/** What the command policy makes of whole runs: which commands leave the relay, and why the others
    do not, told by the commands themselves and the frames already sent. */
module BrokerPolicy {
  import opened Common
  import opened Protocol
  import opened SessionStore
  import opened BrokerSpec
  import opened BrokerSafety
  import opened BrokerTheorems
  import Policy = CommandPolicy

  /** The frame is that of event number `i`. */
  ghost predicate AskedAt(events: seq<Event>, i: nat, f: Frame) {
    i < |events| && events[i] == Dispatch(f.requestId, f.code, f.tool, f.params, f.at)
  }

  /** The patterns have nothing against what the frame asks for. */
  predicate PassesPatterns(p: Policy.Config, f: Frame) {
    && ((f.tool == "run_command" || f.tool == "run_shell") && "command" in f.params ==>
          Policy.PatternsAllow(p, f.params["command"]))
    && ((f.tool == "read_file" || f.tool == "write_file") && "path" in f.params ==>
          Policy.PatternsAllow(p, f.params["path"]))
  }

  /** A frame that this step sends. */
  ghost predicate IsNewFrame(cfg: Config, s: State, e: Event, f: Frame) {
    && e == Dispatch(f.requestId, f.code, f.tool, f.params, f.at)
    && Policy.Admits(cfg.policy, s.t.admissions, f.code, Policy.Subject(f.tool, f.params), f.at)
  }

  lemma NewFrame(cfg: Config, s: State, e: Event)
    ensures var s' := Step(cfg, s, e);
            || s'.t.frames == s.t.frames
            || (exists f :: s'.t.frames == s.t.frames + [f] && IsNewFrame(cfg, s, e, f) && f.at == s'.clock)
  {
    if e.Dispatch? {
      var s' := Step(cfg, s, e);
      Policy.DecideDecides(cfg.policy, s.t.admissions, e.code, Policy.Subject(e.tool, e.params), e.now);
      if s'.t.frames != s.t.frames {
        assert IsNewFrame(cfg, s, e, s'.t.frames[|s.t.frames|]);
      }
    } else {
      ConsumeIsLocal(s.t, e);
    }
  }

  lemma NewFramePasses(cfg: Config, s: State, e: Event, f: Frame)
    requires IsNewFrame(cfg, s, e, f)
    ensures PassesPatterns(cfg.policy, f)
  {
  }

  /** Over any run, each frame is the one that was asked for, with its tool and its parameters, and no
      pattern stood against it: a command line of `run_command` or `run_shell`, or the path of a
      `read_file` or a `write_file`, matches no deny pattern, and one of the allow patterns when there
      are any. */
  lemma {:induction false} FramesPassThePatterns(cfg: Config, start: real, events: seq<Event>, k: nat)
    requires k < |Run(cfg, Init(start), events).t.frames|
    ensures var f := Run(cfg, Init(start), events).t.frames[k];
            && (exists i :: AskedAt(events, i, f))
            && PassesPatterns(cfg.policy, f)
  {
    var front, e := events[..|events| - 1], events[|events| - 1];
    var s, f := Run(cfg, Init(start), front), Run(cfg, Init(start), events).t.frames[k];
    NewFrame(cfg, s, e);
    if k < |s.t.frames| {
      FramesPassThePatterns(cfg, start, front, k);
      var i :| AskedAt(front, i, f);
      assert AskedAt(events, i, f);
    } else {
      NewFramePasses(cfg, s, e, f);
      assert AskedAt(events, |front|, f);
    }
  }

  /** No frame is later than the clock. */
  lemma {:induction false} FramesHaveLeft(cfg: Config, start: real, events: seq<Event>)
    ensures HaveLeft(Run(cfg, Init(start), events).t.frames, Run(cfg, Init(start), events).clock)
  {
    if events != [] {
      FramesHaveLeft(cfg, start, events[..|events| - 1]);
      var s := Run(cfg, Init(start), events[..|events| - 1]);
      NewFrame(cfg, s, events[|events| - 1]);
      ClockMovesOn(cfg, s, events[|events| - 1]);
    }
  }

  predicate HaveLeft(frames: seq<Frame>, now: real) {
    forall k :: 0 <= k < |frames| ==> frames[k].at <= now
  }

  lemma {:induction false} TimesAreFrames(frames: seq<Frame>, code: string, now: real)
    requires HaveLeft(frames, now)
    ensures forall i :: 0 <= i < |FrameTimes(frames, code)| ==> FrameTimes(frames, code)[i] <= now
  {
    if frames != [] {
      TimesAreFrames(frames[..|frames| - 1], code, now);
    }
  }

  /** A command for a live session, under a fresh identifier. */
  ghost predicate IsAsked(s: State, e: Event) {
    && e.Dispatch? && s.clock <= e.now && e.r !in s.t.flights
    && e.code in s.records && e.now < s.records[e.code].expiresAt
  }

  ghost predicate IsReason(cfg: Config, s: State, e: Event, reason: Policy.Reason)
    requires e.Dispatch?
  {
    Policy.IsDue(cfg.policy, FrameTimes(s.t.frames, e.code), e.tool, e.params, e.now, reason)
  }

  /** Its frame leaves for the connection of the session, and nothing is audited yet. */
  ghost predicate IsSent(s: State, s': State, e: Event)
    requires IsAsked(s, e)
  {
    && s'.t.frames == s.t.frames + [Frame(e.r, s.records[e.code].connection, e.code, e.tool, e.params, e.now)]
    && s'.t.trail == s.t.trail && e.r in s'.t.pending
  }

  /** It is audited as refused for that reason, and nothing else happens. */
  ghost predicate IsDenied(s: State, s': State, e: Event, reason: Policy.Reason)
    requires e.Dispatch?
  {
    s'.t == s.t.(trail := s.t.trail + [DeniedEntry(e.code, e.tool, reason)])
  }

  /** In every reachable state a command for a live session is either sent, and then there is no
      reason against it, or refused, and then for the reason there is: counted by the frames sent so
      far to its code, in all and in the last sixty seconds. */
  lemma DispatchIsDecided(cfg: Config, start: real, events: seq<Event>, e: Event)
    requires IsAsked(Run(cfg, Init(start), events), e)
    ensures var s := Run(cfg, Init(start), events);
            var s' := Step(cfg, s, e);
            || (IsSent(s, s', e) && forall reason :: !IsReason(cfg, s, e, reason))
            || (exists reason :: IsDenied(s, s', e, reason) && IsReason(cfg, s, e, reason))
  {
    ReachableInv(cfg, start, events);
    FramesHaveLeft(cfg, start, events);
    var s := Run(cfg, Init(start), events);
    FramesMatch(cfg, s.t);
    FramesAreAdmissions(s.t.frames, s.t.admissions, e.code);
    TimesAreFrames(s.t.frames, e.code, e.now);
    Policy.DecisionIsDue(cfg.policy, s.t.admissions, e.code, e.tool, e.params, e.now, FrameTimes(s.t.frames, e.code));
    var d := Policy.Decide(cfg.policy, s.t.admissions, e.code, Policy.Subject(e.tool, e.params), e.now);
    if d.Refused? {
      assert IsDenied(s, Step(cfg, s, e), e, d.reason) && IsReason(cfg, s, e, d.reason);
    }
  }

  /** Tools without a command line or a path are never refused by a pattern. */
  lemma OnlyTextIsFiltered(cfg: Config, start: real, events: seq<Event>, e: Event, reason: Policy.Reason)
    requires IsAsked(Run(cfg, Init(start), events), e)
    requires e.tool !in ["run_command", "run_shell", "read_file", "write_file"]
    requires IsDenied(Run(cfg, Init(start), events), Step(cfg, Run(cfg, Init(start), events), e), e, reason)
    ensures reason.QuotaExceeded? || reason.RateExceeded?
  {
    var s := Run(cfg, Init(start), events);
    var s' := Step(cfg, s, e);
    DispatchIsDecided(cfg, start, events, e);
    assert s'.t.trail != s.t.trail;
    var due :| IsDenied(s, s', e, due) && IsReason(cfg, s, e, due);
    assert s'.t.trail[|s.t.trail|] == DeniedEntry(e.code, e.tool, due) == DeniedEntry(e.code, e.tool, reason);
  }
}
