/** The guard-rail under concurrency: every command runs in a goroutine of its own, and the policy
    can be switched between any two steps (client/executor.go, client/policy.go). */
module GuardRail {
  import opened Common
  import opened LocalPolicy

  type Id = nat

  /** How far one gated operation has got. */
  datatype Stage = Arrived | Checking | Asking | Remembering | Cleared | Barred | Done

  datatype Op = Op(description: string, stage: Stage)

  datatype Entry =
    | PolicySet(p: Policy)
    | PolicyRead(id: Id, p: Policy)
    | Recalled(id: Id, description: string)  // found in memory
    | Answered(id: Id, description: string, verdict: Verdict)
    | Executed(id: Id, description: string)

  /** `log` is history: everything that was set, read, recalled, answered and run, in order. */
  datatype State = State(policy: Policy, memory: set<string>, ops: map<Id, Op>, log: seq<Entry>)

  datatype Event =
    | SetPolicy(p: Policy)
    | Arrive(id: Id, description: string)
    | ReadPolicy(id: Id)
    | CheckMemory(id: Id)
    | Answer(id: Id, verdict: Verdict)
    | Remember(id: Id)
    | Execute(id: Id)

  function Start(p: Policy): State {
    State(p, {}, map[], [PolicySet(p)])
  }

  predicate IsAt(s: State, id: Id, stage: Stage) {
    id in s.ops && s.ops[id].stage == stage
  }

  function Move(s: State, id: Id, stage: Stage): State
    requires id in s.ops
  {
    s.(ops := s.ops[id := s.ops[id].(stage := stage)])
  }

  function Note(s: State, e: Entry): State {
    s.(log := s.log + [e])
  }

  /** One step; what cannot happen now changes nothing. `canAsk` says whether there is an operator. */
  function Step(canAsk: bool, s: State, e: Event): State {
    match e
    case SetPolicy(p) => Note(s.(policy := p), PolicySet(p))
    case Arrive(id, d) => if id in s.ops then s else s.(ops := s.ops[id := Op(d, Arrived)])
    case ReadPolicy(id) =>
      if !IsAt(s, id, Arrived) then s
      else
        Note(Move(s, id, match s.policy case Auto => Cleared case Deny => Barred case Confirm => Checking),
             PolicyRead(id, s.policy))
    case CheckMemory(id) =>
      if !IsAt(s, id, Checking) then s
      else if s.ops[id].description in s.memory then Note(Move(s, id, Cleared), Recalled(id, s.ops[id].description))
      else Move(s, id, if canAsk then Asking else Barred)
    case Answer(id, v) =>
      if !IsAt(s, id, Asking) then s
      else
        Note(Move(s, id, if !v.approved then Barred else if v.always then Remembering else Cleared),
             Answered(id, s.ops[id].description, v))
    case Remember(id) =>
      if !IsAt(s, id, Remembering) then s
      else Move(s.(memory := s.memory + {s.ops[id].description}), id, Cleared)
    case Execute(id) =>
      if !IsAt(s, id, Cleared) then s else Note(Move(s, id, Done), Executed(id, s.ops[id].description))
  }

  function Run(canAsk: bool, s: State, events: seq<Event>): State {
    if events == [] then s else Step(canAsk, Run(canAsk, s, events[..|events| - 1]), events[|events| - 1])
  }

  // ----- What an operation can go through -----

  /** The policy as last set. */
  function PolicyAt(log: seq<Entry>): Option<Policy> {
    if log == [] then None
    else if log[|log| - 1].PolicySet? then Some(log[|log| - 1].p)
    else PolicyAt(log[..|log| - 1])
  }

  predicate IsToujours(e: Entry, description: string) {
    e.Answered? && e.description == description && e.verdict == Verdict(true, true)
  }

  /** The operator has answered "toujours" to this very description. */
  ghost predicate AlwaysBefore(log: seq<Entry>, description: string) {
    exists i :: 0 <= i < |log| && IsToujours(log[i], description)
  }

  predicate IsAbout(e: Entry, id: Id) {
    !e.PolicySet? && e.id == id
  }

  /** What happened to one operation, in order. */
  function Course(log: seq<Entry>, id: Id): seq<Entry> {
    if log == [] then []
    else if IsAbout(log[|log| - 1], id) then Course(log[..|log| - 1], id) + [log[|log| - 1]]
    else Course(log[..|log| - 1], id)
  }

  /** The policy was read as `auto`; or as `confirm`, and the description was found in memory; or as
      `confirm`, and the operator approved this operation. */
  predicate MayRun(course: seq<Entry>, id: Id, description: string) {
    || course == [PolicyRead(id, Auto)]
    || course == [PolicyRead(id, Confirm), Recalled(id, description)]
    || course == [PolicyRead(id, Confirm), Answered(id, description, Verdict(true, false))]
    || course == [PolicyRead(id, Confirm), Answered(id, description, Verdict(true, true))]
  }

  /** It was read as `deny`; or as `confirm`, with nobody to ask, or an operator who refused. */
  predicate MayNotRun(course: seq<Entry>, id: Id, description: string) {
    || course == [PolicyRead(id, Deny)]
    || course == [PolicyRead(id, Confirm)]
    || course == [PolicyRead(id, Confirm), Answered(id, description, Verdict(false, false))]
    || course == [PolicyRead(id, Confirm), Answered(id, description, Verdict(false, true))]
  }

  predicate HasRun(course: seq<Entry>, id: Id, description: string) {
    && course != [] && course[|course| - 1] == Executed(id, description)
    && MayRun(course[..|course| - 1], id, description)
  }

  /** Its course so far is settled by how far it has got. */
  predicate IsCourse(course: seq<Entry>, id: Id, op: Op) {
    match op.stage
    case Arrived => course == []
    case Checking => course == [PolicyRead(id, Confirm)]
    case Asking => course == [PolicyRead(id, Confirm)]
    case Remembering => course == [PolicyRead(id, Confirm), Answered(id, op.description, Verdict(true, true))]
    case Cleared => MayRun(course, id, op.description)
    case Barred => MayNotRun(course, id, op.description)
    case Done => HasRun(course, id, op.description)
  }

  predicate OneOk(s: State, id: Id) {
    if id in s.ops then IsCourse(Course(s.log, id), id, s.ops[id]) else Course(s.log, id) == []
  }

  /** Each policy read is the one last set, what is found in memory was answered "toujours" before,
      and what runs may run by then. */
  ghost predicate EntryOk(log: seq<Entry>, i: nat)
    requires i < |log|
  {
    match log[i]
    case PolicyRead(_, p) => PolicyAt(log[..i]) == Some(p)
    case Recalled(_, description) => AlwaysBefore(log[..i], description)
    case Executed(id, description) => MayRun(Course(log[..i], id), id, description)
    case _ => true
  }

  ghost predicate Inv(s: State) {
    && PolicyAt(s.log) == Some(s.policy)
    && (forall d :: d in s.memory ==> AlwaysBefore(s.log, d))
    && (forall id {:trigger OneOk(s, id)} :: OneOk(s, id))
    && (forall i {:trigger EntryOk(s.log, i)} :: 0 <= i < |s.log| ==> EntryOk(s.log, i))
  }

  lemma AlwaysSnoc(log: seq<Entry>, e: Entry, d: string)
    requires AlwaysBefore(log, d)
    ensures AlwaysBefore(log + [e], d)
  {
    var i :| 0 <= i < |log| && IsToujours(log[i], d);
    assert IsToujours((log + [e])[i], d);
  }

  lemma CourseSnoc(log: seq<Entry>, e: Entry, id: Id)
    ensures Course(log + [e], id) == if IsAbout(e, id) then Course(log, id) + [e] else Course(log, id)
  {
    assert (log + [e])[..|log|] == log;
  }

  lemma PolicySnoc(log: seq<Entry>, e: Entry)
    ensures PolicyAt(log + [e]) == if e.PolicySet? then Some(e.p) else PolicyAt(log)
  {
    assert (log + [e])[..|log|] == log;
  }

  lemma EntrySnoc(log: seq<Entry>, e: Entry, i: nat)
    requires i < |log| && EntryOk(log, i)
    ensures EntryOk(log + [e], i)
  {
    assert (log + [e])[..i] == log[..i];
  }

  /** `s'` differs from `s` in operation `id` at most. */
  ghost predicate OnlyOne(s: State, s': State, id: Id) {
    forall q :: q != id ==> (q in s'.ops <==> q in s.ops) && (q in s.ops ==> s'.ops[q] == s.ops[q])
  }

  /** A step that adds nothing to the log. */
  lemma QuietInv(s: State, s': State, id: Id)
    requires Inv(s) && s'.log == s.log && s'.policy == s.policy && OnlyOne(s, s', id) && OneOk(s', id)
    requires forall d :: d in s'.memory ==> AlwaysBefore(s.log, d)
    ensures Inv(s')
  {
    forall q
      ensures OneOk(s', q)
    {
      assert OneOk(s, q);
    }
  }

  /** A step that adds one entry, about `id` or about no operation. */
  lemma LoggedInv(s: State, s': State, id: Id, e: Entry)
    requires Inv(s) && s'.log == s.log + [e] && OnlyOne(s, s', id) && OneOk(s', id) && s'.memory == s.memory
    requires (e.PolicySet? || e.id == id) && s'.policy == if e.PolicySet? then e.p else s.policy
    requires EntryOk(s'.log, |s.log|)
    ensures Inv(s')
  {
    PolicySnoc(s.log, e);
    forall d | d in s'.memory
      ensures AlwaysBefore(s'.log, d)
    {
      AlwaysSnoc(s.log, e, d);
    }
    forall q
      ensures OneOk(s', q)
    {
      if q != id {
        CourseSnoc(s.log, e, q);
        assert OneOk(s, q);
      }
    }
    forall i: nat | i < |s'.log|
      ensures EntryOk(s'.log, i)
    {
      if i < |s.log| {
        EntrySnoc(s.log, e, i);
      }
    }
  }

  /** What the new entry needs, from what is known of the log before it. */
  lemma NewEntry(s: State, e: Entry)
    requires Inv(s)
    requires match e
             case PolicyRead(_, p) => p == s.policy
             case Recalled(_, d) => d in s.memory
             case Executed(id, d) => MayRun(Course(s.log, id), id, d)
             case _ => true
    ensures EntryOk(s.log + [e], |s.log|)
  {
    assert (s.log + [e])[..|s.log|] == s.log && (s.log + [e])[|s.log|] == e;
  }

  /** An operation that moves on with an entry of its own. */
  lemma MoveInv(s: State, id: Id, stage: Stage, e: Entry)
    requires Inv(s) && id in s.ops && IsAbout(e, id)
    requires IsCourse(Course(s.log, id) + [e], id, s.ops[id].(stage := stage))
    requires match e
             case PolicyRead(_, p) => p == s.policy
             case Recalled(_, d) => d in s.memory
             case Executed(_, d) => MayRun(Course(s.log, id), id, d)
             case _ => true
    ensures Inv(Note(Move(s, id, stage), e))
  {
    CourseSnoc(s.log, e, id);
    NewEntry(s, e);
    LoggedInv(s, Note(Move(s, id, stage), e), id, e);
  }

  lemma StartInv(p: Policy)
    ensures Inv(Start(p))
  {
    forall id
      ensures OneOk(Start(p), id)
    {
      assert Start(p).log[..0] == [];
    }
  }

  lemma SetPolicyInv(canAsk: bool, s: State, p: Policy)
    requires Inv(s)
    ensures Inv(Step(canAsk, s, SetPolicy(p)))
  {
    var e := PolicySet(p);
    CourseSnoc(s.log, e, 0);
    assert OneOk(s, 0);
    NewEntry(s, e);
    LoggedInv(s, Step(canAsk, s, SetPolicy(p)), 0, e);
  }

  lemma ArriveInv(canAsk: bool, s: State, id: Id, d: string)
    requires Inv(s) && id !in s.ops
    ensures Inv(Step(canAsk, s, Arrive(id, d)))
  {
    assert OneOk(s, id);
    QuietInv(s, Step(canAsk, s, Arrive(id, d)), id);
  }

  lemma ReadPolicyInv(canAsk: bool, s: State, id: Id)
    requires Inv(s) && IsAt(s, id, Arrived)
    ensures Inv(Step(canAsk, s, ReadPolicy(id)))
  {
    var e := PolicyRead(id, s.policy);
    assert OneOk(s, id);
    assert [] + [e] == [e];
    MoveInv(s, id, match s.policy case Auto => Cleared case Deny => Barred case Confirm => Checking, e);
  }

  lemma CheckMemoryInv(canAsk: bool, s: State, id: Id)
    requires Inv(s) && IsAt(s, id, Checking)
    ensures Inv(Step(canAsk, s, CheckMemory(id)))
  {
    assert OneOk(s, id);
    if s.ops[id].description in s.memory {
      MoveInv(s, id, Cleared, Recalled(id, s.ops[id].description));
    } else {
      QuietInv(s, Step(canAsk, s, CheckMemory(id)), id);
    }
  }

  lemma AnswerInv(canAsk: bool, s: State, id: Id, v: Verdict)
    requires Inv(s) && IsAt(s, id, Asking)
    ensures Inv(Step(canAsk, s, Answer(id, v)))
  {
    var stage := if !v.approved then Barred else if v.always then Remembering else Cleared;
    assert OneOk(s, id);
    assert v == Verdict(v.approved, v.always);
    MoveInv(s, id, stage, Answered(id, s.ops[id].description, v));
  }

  lemma {:induction false} CourseIsLogged(log: seq<Entry>, id: Id, e: Entry)
    requires e in Course(log, id)
    ensures exists i :: 0 <= i < |log| && log[i] == e
  {
    var front, last := log[..|log| - 1], log[|log| - 1];
    if e in Course(front, id) {
      CourseIsLogged(front, id, e);
      var i :| 0 <= i < |front| && front[i] == e;
      assert log[i] == e;
    } else {
      assert log[|log| - 1] == e;
    }
  }

  lemma RememberInv(canAsk: bool, s: State, id: Id)
    requires Inv(s) && IsAt(s, id, Remembering)
    ensures Inv(Step(canAsk, s, Remember(id)))
  {
    var d := s.ops[id].description;
    assert OneOk(s, id);
    assert Course(s.log, id)[1] == Answered(id, d, Verdict(true, true));
    CourseIsLogged(s.log, id, Answered(id, d, Verdict(true, true)));
    var i :| 0 <= i < |s.log| && s.log[i] == Answered(id, d, Verdict(true, true));
    assert IsToujours(s.log[i], d);
    QuietInv(s, Step(canAsk, s, Remember(id)), id);
  }

  lemma ExecuteInv(canAsk: bool, s: State, id: Id)
    requires Inv(s) && IsAt(s, id, Cleared)
    ensures Inv(Step(canAsk, s, Execute(id)))
  {
    var e, course := Executed(id, s.ops[id].description), Course(s.log, id);
    assert OneOk(s, id);
    assert (course + [e])[..|course|] == course;
    MoveInv(s, id, Done, e);
  }

  lemma StepInv(canAsk: bool, s: State, e: Event)
    requires Inv(s)
    ensures Inv(Step(canAsk, s, e))
  {
    match e
    case SetPolicy(p) => SetPolicyInv(canAsk, s, p);
    case Arrive(id, d) => if id !in s.ops { ArriveInv(canAsk, s, id, d); }
    case ReadPolicy(id) => if IsAt(s, id, Arrived) { ReadPolicyInv(canAsk, s, id); }
    case CheckMemory(id) => if IsAt(s, id, Checking) { CheckMemoryInv(canAsk, s, id); }
    case Answer(id, v) => if IsAt(s, id, Asking) { AnswerInv(canAsk, s, id, v); }
    case Remember(id) => if IsAt(s, id, Remembering) { RememberInv(canAsk, s, id); }
    case Execute(id) => if IsAt(s, id, Cleared) { ExecuteInv(canAsk, s, id); }
  }

  lemma {:induction false} RunInv(canAsk: bool, p: Policy, events: seq<Event>)
    ensures Inv(Run(canAsk, Start(p), events))
  {
    if events == [] {
      StartInv(p);
    } else {
      RunInv(canAsk, p, events[..|events| - 1]);
      StepInv(canAsk, Run(canAsk, Start(p), events[..|events| - 1]), events[|events| - 1]);
    }
  }

  // ----- The theorems about runs -----

  lemma {:induction false} CourseHolds(log: seq<Entry>, id: Id, i: nat)
    requires i < |log| && IsAbout(log[i], id)
    ensures log[i] in Course(log, id)
  {
    if i < |log| - 1 {
      CourseHolds(log[..|log| - 1], id, i);
    }
  }

  lemma {:induction false} CourseGrows(log: seq<Entry>, id: Id, k: nat)
    requires k <= |log|
    ensures Course(log[..k], id) <= Course(log, id)
  {
    if k < |log| {
      CourseGrows(log[..|log| - 1], id, k);
      assert log[..|log| - 1][..k] == log[..k];
    } else {
      assert log[..k] == log;
    }
  }

  /** Running is the last thing that happens to an operation. */
  lemma RunIsLast(log: seq<Entry>, k: nat, id: Id, d: string)
    requires k < |log| && log[k] == Executed(id, d) && MayRun(Course(log[..k], id), id, d)
    requires HasRun(Course(log, id), id, d)
    ensures Course(log, id) == Course(log[..k], id) + [log[k]]
  {
    var all, before := Course(log, id), Course(log[..k], id);
    CourseGrows(log, id, k + 1);
    assert log[..k + 1] == log[..k] + [log[k]];
    CourseSnoc(log[..k], log[k], id);
    assert all[|before|] == log[k];
    assert forall i :: 0 <= i < |all| - 1 ==> all[i] == all[..|all| - 1][i];
  }

  lemma RunHolds(s: State, k: nat)
    requires Inv(s) && k < |s.log| && s.log[k].Executed?
    ensures HasRun(Course(s.log, s.log[k].id), s.log[k].id, s.log[k].description)
    ensures MayRun(Course(s.log[..k], s.log[k].id), s.log[k].id, s.log[k].description)
  {
    var id, d := s.log[k].id, s.log[k].description;
    assert OneOk(s, id) && EntryOk(s.log, k);
    CourseHolds(s.log, id, k);
    assert s.log[k] in Course(s.log, id);
  }

  /** Over every run, however the policy is switched meanwhile. Each policy read is the one in force.
      What is found in memory was answered "toujours", to the same description, before it was looked
      for. And an operation that ran had until then gone through one of four courses and nothing
      else: the policy read as `auto`; read as `confirm`, then found in memory; read as `confirm`, then
      approved by the operator, with or without "toujours". Afterwards nothing more happens to it. */
  lemma OnlyJustifiedOperationsRun(canAsk: bool, p: Policy, events: seq<Event>, k: nat)
    requires k < |Run(canAsk, Start(p), events).log|
    ensures var log := Run(canAsk, Start(p), events).log;
            match log[k]
            case PolicyRead(_, read) => PolicyAt(log[..k]) == Some(read)
            case Recalled(_, description) => AlwaysBefore(log[..k], description)
            case Executed(id, description) =>
              MayRun(Course(log[..k], id), id, description) && Course(log, id) == Course(log[..k], id) + [log[k]]
            case _ => true
  {
    RunInv(canAsk, p, events);
    var s := Run(canAsk, Start(p), events);
    assert EntryOk(s.log, k);
    if s.log[k].Executed? {
      RunHolds(s, k);
      RunIsLast(s.log, k, s.log[k].id, s.log[k].description);
    }
  }

  /** The operator refused it, or the policy did. */
  predicate IsRefusal(e: Entry, id: Id) {
    || (e.Answered? && e.id == id && !e.verdict.approved)
    || e == PolicyRead(id, Deny)
  }

  /** An operation that was refused never runs, before or after, whatever is answered to others. */
  lemma RefusedNeverRuns(canAsk: bool, p: Policy, events: seq<Event>, log: seq<Entry>, i: nat, k: nat)
    requires log == Run(canAsk, Start(p), events).log && i < |log| && k < |log|
    requires log[k].Executed?
    ensures !IsRefusal(log[i], log[k].id)
  {
    RunInv(canAsk, p, events);
    RunHolds(Run(canAsk, Start(p), events), k);
    if IsRefusal(log[i], log[k].id) {
      CourseHolds(log, log[k].id, i);
      NoRefusalIn(Course(log, log[k].id), log[k].id, log[k].description, log[i]);
    }
  }

  lemma NoRefusalIn(course: seq<Entry>, id: Id, d: string, e: Entry)
    requires HasRun(course, id, d) && e in course
    ensures !IsRefusal(e, id)
  {
    var front := course[..|course| - 1];
    assert course == front + [course[|course| - 1]];
  }

  /** No operation runs twice. */
  lemma RunsOnce(canAsk: bool, p: Policy, events: seq<Event>, log: seq<Entry>, i: nat, k: nat)
    requires log == Run(canAsk, Start(p), events).log && i < k < |log|
    requires log[i].Executed? && log[k].Executed?
    ensures log[i].id != log[k].id
  {
    RunInv(canAsk, p, events);
    RunHolds(Run(canAsk, Start(p), events), k);
    if log[i].id == log[k].id {
      assert log[..k][i] == log[i];
      CourseHolds(log[..k], log[k].id, i);
    }
  }

  /** What the log says of an operation it says under the operation's own description, */
  lemma EntryDescribes(s: State, i: nat)
    requires Inv(s) && i < |s.log| && (s.log[i].Recalled? || s.log[i].Answered? || s.log[i].Executed?)
    ensures s.log[i].id in s.ops && s.ops[s.log[i].id].description == s.log[i].description
  {
    var id := s.log[i].id;
    assert OneOk(s, id);
    CourseHolds(s.log, id, i);
    if s.log[i].Executed? {
      RunHolds(s, i);
    }
  }

  /** which is the one it arrived with. */
  lemma {:induction false} OpsArrived(canAsk: bool, p: Policy, events: seq<Event>, id: Id)
    requires id in Run(canAsk, Start(p), events).ops
    ensures Arrive(id, Run(canAsk, Start(p), events).ops[id].description) in events
  {
    var front, e := events[..|events| - 1], events[|events| - 1];
    assert events == front + [e];
    if id in Run(canAsk, Start(p), front).ops {
      OpsArrived(canAsk, p, front, id);
    }
  }

  // ----- The same steps, uninterrupted -----

  /** What one goroutine does when no other runs in between. */
  function Decided(operator: Operator, s: State, id: Id): State
    requires id in s.ops
  {
    var d := s.ops[id].description;
    var s1 := Step(operator.Some?, Step(operator.Some?, s, ReadPolicy(id)), CheckMemory(id));
    var s2 := if operator.Some? then Step(true, s1, Answer(id, operator.value(d))) else s1;
    Step(operator.Some?, s2, Remember(id))
  }

  /** Uninterrupted, the steps decide what the executor decides in one go, and remember the same. */
  lemma UninterruptedDecision(operator: Operator, s: State, id: Id)
    requires IsAt(s, id, Arrived)
    ensures var s', d := Decided(operator, s, id), s.ops[id].description;
            var approved := Approves(s.memory, operator, d);
            && (IsAt(s', id, Cleared) <==> Passes(s.policy, approved))
            && (IsAt(s', id, Barred) <==> !Passes(s.policy, approved))
            && s'.memory == if s.policy.Confirm? then Remembered(s.memory, operator, d) else s.memory
  {
  }
}
