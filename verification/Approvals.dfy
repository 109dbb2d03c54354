/** What the operator's answers are about: the description put to the guard-rail tells a write by its
    path and its size and a read by its path, so "toujours" reaches no other file. */
module Approvals {
  import opened Common
  import opened Executor
  import opened GuardRail
  import opened LocalPolicy
  import Base64
  import FileRead

  // ----- Descriptions -----

  predicate IsDigit(c: char) {
    '0' <= c <= '9'
  }

  /** The end of a write's description. */
  function Sized(n: nat): string {
    " (" + Digits(n) + " octets)"
  }

  /** Where the opening parenthesis of the size stands, counted from the end. */
  lemma SizedAt(path: string, n: nat, k: nat)
    requires k <= |Digits(n)|
    ensures var text, d := path + Sized(n), |Digits(n)|;
            && |text| == |path| + d + 10
            && (k < d ==> IsDigit(text[|text| - 9 - k])) && (k == d ==> text[|text| - 9 - k] == '(')
  {
    var d := Digits(n);
    if k < |d| {
      DigitsAreDigits(n, |d| - 1 - k);
      assert (path + Sized(n))[|path| + 2 + (|d| - 1 - k)] == d[|d| - 1 - k];
    }
  }

  /** A description can be read back: the size is the digits before the last word, and the path all
      that comes before them. */
  lemma SizedIsReadBack(a: string, m: nat, b: string, n: nat)
    requires a + Sized(m) == b + Sized(n)
    ensures a == b && m == n
  {
    var d, e := |Digits(m)|, |Digits(n)|;
    var least := if d < e then d else e;
    SizedAt(a, m, least);
    SizedAt(b, n, least);
    assert d == e && |a| == |b|;
    var text := a + Sized(m);
    assert a == text[..|a|] == b;
    assert Digits(m) == text[|a| + 2..|a| + 2 + d] == Digits(n);
    DigitsInjective(m, n);
  }

  predicate IsReading(c: Command) {
    c.tool == "read_file" && c.read.Some?
  }

  predicate IsWriting(c: Command) {
    c.tool == "write_file" && c.write.Some?
  }

  /** It runs that very text. */
  predicate RunsText(c: Command, text: string) {
    (c.tool == "run_shell" || c.tool == "run_command") && c.run.Some? && c.run.value.command == text
  }

  /** What is said to the operator, told by the tool. */
  lemma Described(c: Command, isDestructive: string -> bool, d: string)
    requires Gated(c, isDestructive) == Some(d)
    ensures IsReading(c) ==> d == "read_file " + c.read.value.path
    ensures IsWriting(c) ==>
              d == ("write_file " + c.write.value.path) + Sized(Base64.EstimatedLen(c.write.value.payload))
    ensures IsReading(c) || IsWriting(c) || RunsText(c, d)
  {
    if IsWriting(c) {
      var w := c.write.value;
      assert DescribeWrite(w) == ("write_file " + w.path) + Sized(Base64.EstimatedLen(w.payload));
    }
  }

  /** An answer about `other` counts for `c`: the same file, and the same size if it is written; or the
      same command line. Since a command line can be any text, one that reads like the description of
      a transfer counts for that transfer too, and the other way round. */
  predicate CountsFor(other: Command, c: Command) {
    if IsWriting(c) then
      var size := Base64.EstimatedLen(c.write.value.payload);
      || (IsWriting(other) && other.write.value.path == c.write.value.path
          && Base64.EstimatedLen(other.write.value.payload) == size)
      || RunsText(other, "write_file " + c.write.value.path + " (" + Digits(size) + " octets)")
    else if IsReading(c) then
      || (IsReading(other) && other.read.value.path == c.read.value.path)
      || RunsText(other, "read_file " + c.read.value.path)
    else
      || (c.run.Some? && RunsText(other, c.run.value.command))
      || (IsReading(other) && RunsText(c, "read_file " + other.read.value.path))
      || (IsWriting(other) && RunsText(c, DescribeWrite(other.write.value)))
  }

  lemma NeverConfused(d: string, read: string, written: string, size: string)
    requires d == "read_file " + read
    ensures d != ("write_file " + written) + size
  {
    assert d[0] == 'r' && (("write_file " + written) + size)[0] == 'w';
  }

  lemma SamePrefix(front: string, a: string, b: string)
    requires front + a == front + b
    ensures a == b
  {
    assert a == (front + a)[|front|..] == (front + b)[|front|..] == b;
  }

  /** Two operations with one description are two writes to the same path of the same size, or two
      reads of the same path, or one of them is a command line that spells it out. */
  lemma SameDescription(c: Command, other: Command, isDestructive: string -> bool, d: string)
    requires Gated(c, isDestructive) == Some(d) == Gated(other, isDestructive)
    ensures CountsFor(other, c)
  {
    Described(c, isDestructive, d);
    Described(other, isDestructive, d);
    if IsWriting(c) && IsWriting(other) {
      var v, w := c.write.value, other.write.value;
      var m, n := Base64.EstimatedLen(v.payload), Base64.EstimatedLen(w.payload);
      SizedIsReadBack("write_file " + v.path, m, "write_file " + w.path, n);
      SamePrefix("write_file ", v.path, w.path);
    } else if IsReading(c) && IsReading(other) {
      SamePrefix("read_file ", c.read.value.path, other.read.value.path);
    } else if IsWriting(c) && IsReading(other) {
      NeverConfused(d, other.read.value.path, c.write.value.path, Sized(Base64.EstimatedLen(c.write.value.payload)));
    } else if IsReading(c) && IsWriting(other) {
      NeverConfused(d, c.read.value.path, other.write.value.path,
                    Sized(Base64.EstimatedLen(other.write.value.payload)));
    }
  }

  // ----- Over whole runs -----

  /** Operation `id` is command `commands(id)`, and arrives under its description. */
  ghost predicate Arrives(events: seq<Event>, commands: Id -> Command, isDestructive: string -> bool) {
    forall id, d :: Arrive(id, d) in events ==> Gated(commands(id), isDestructive) == Some(d)
  }

  lemma EntryIsAbout(canAsk: bool, p: Policy, events: seq<Event>, commands: Id -> Command,
                     isDestructive: string -> bool, log: seq<Entry>, i: nat)
    requires log == GuardRail.Run(canAsk, Start(p), events).log && Arrives(events, commands, isDestructive)
    requires i < |log| && (log[i].Recalled? || log[i].Answered? || log[i].Executed?)
    ensures Gated(commands(log[i].id), isDestructive) == Some(log[i].description)
  {
    RunInv(canAsk, p, events);
    EntryDescribes(GuardRail.Run(canAsk, Start(p), events), i);
    OpsArrived(canAsk, p, events, log[i].id);
  }

  /** Whatever is found in memory, the operator had answered "toujours" before to an operation whose
      answer counts for it: for a write, one to the same path and of the same size. */
  lemma RecalledWasAlwaysed(canAsk: bool, p: Policy, events: seq<Event>, commands: Id -> Command,
                            isDestructive: string -> bool, log: seq<Entry>, k: nat)
    requires log == GuardRail.Run(canAsk, Start(p), events).log && Arrives(events, commands, isDestructive)
    requires k < |log| && log[k].Recalled?
    ensures exists j :: 0 <= j < k && log[j].Answered? && log[j].verdict == Verdict(true, true)
                        && CountsFor(commands(log[j].id), commands(log[k].id))
  {
    var d := log[k].description;
    OnlyJustifiedOperationsRun(canAsk, p, events, k);
    var j :| 0 <= j < k && IsToujours(log[..k][j], d);
    EntryIsAbout(canAsk, p, events, commands, isDestructive, log, j);
    EntryIsAbout(canAsk, p, events, commands, isDestructive, log, k);
    SameDescription(commands(log[k].id), commands(log[j].id), isDestructive, d);
  }

  /** The operator approved this very operation before number `k`. */
  ghost predicate WasApproved(log: seq<Entry>, k: nat, id: Id) {
    exists j :: 0 <= j < k <= |log| && log[j].Answered? && log[j].id == id && log[j].verdict.approved
  }

  /** The operator answered "toujours" before number `k` to one whose answer counts for it. */
  ghost predicate WasAlwaysed(log: seq<Entry>, k: nat, id: Id, commands: Id -> Command) {
    exists j :: 0 <= j < k <= |log| && log[j].Answered? && log[j].verdict == Verdict(true, true)
                && CountsFor(commands(log[j].id), commands(id))
  }

  /** Over any run, however operations interleave and the policy is switched: an operation runs only
      if it read the policy as `auto`, or the operator approved it, or had answered "toujours" to one
      that counts for it. */
  lemma RunsOnlyIfApproved(canAsk: bool, p: Policy, events: seq<Event>, commands: Id -> Command,
                           isDestructive: string -> bool, log: seq<Entry>, k: nat)
    requires log == GuardRail.Run(canAsk, Start(p), events).log && Arrives(events, commands, isDestructive)
    requires k < |log| && log[k].Executed?
    ensures PolicyRead(log[k].id, Auto) in log[..k] || WasApproved(log, k, log[k].id)
            || WasAlwaysed(log, k, log[k].id, commands)
  {
    var id, d := log[k].id, log[k].description;
    OnlyJustifiedOperationsRun(canAsk, p, events, k);
    var course := Course(log[..k], id);
    if course == [PolicyRead(id, Auto)] {
      assert course[0] in course;
      CourseIsLogged(log[..k], id, PolicyRead(id, Auto));
    } else {
      var last := course[1];
      assert last in course;
      CourseIsLogged(log[..k], id, last);
      var j :| 0 <= j < k && log[..k][j] == last;
      assert log[j] == last;
      if last.Recalled? {
        RecalledWasAlwaysed(canAsk, p, events, commands, isDestructive, log, j);
      }
    }
  }
}
