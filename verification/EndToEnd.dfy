/** The client's answers, the relay's queues and the tools' aggregators put together: what the
    harness is told of what happened on the remote machine. */
module EndToEnd {
  import opened Common
  import opened Protocol
  import opened BrokerSpec
  import opened BrokerSafety
  import opened BrokerTheorems
  import opened LocalPolicy
  import opened SessionStore
  import Aggregate
  import Argv
  import Broker
  import opened LenientUtf8
  import opened Utf8
  import Executor
  import FilePipeline
  import FileRead
  import FileRelay
  import FileWrite
  import Base64
  import opened Unicode

  // ----- A sentence goes through whole -----

  /** The result of a sentence is its last message: cutting at the first result loses nothing, and
      whatever is said afterwards is never looked at. */
  lemma {:induction false} SentenceEndsAtResult(s: seq<Chunk>, more: seq<Chunk>)
    requires |s| > 0 && s[|s| - 1].Result? && NoResult(s[..|s| - 1])
    ensures UpToResult(s + more) == s
  {
    if |s| == 1 {
      assert s + more == [s[0]] + more && s == [s[0]];
    } else {
      assert s[0] == s[..|s| - 1][0];
      assert s[1..][..|s| - 2] == s[..|s| - 1][1..];
      SentenceEndsAtResult(s[1..], more);
      assert (s + more)[1..] == s[1..] + more && s == [s[0]] + s[1..];
    }
  }

  lemma SentenceHasOneResult(s: seq<Chunk>)
    requires IsSentence(s)
    ensures NoResult(s[..|s| - 1])
  {
  }

  /** The messages about one request among those of a connection. */
  function About(wires: seq<Wire>, r: RequestId): seq<Chunk> {
    if wires == [] then []
    else
      var before, last := About(wires[..|wires| - 1], r), wires[|wires| - 1];
      if last.requestId == Some(r) then before + [last.chunk] else before
  }

  /** What one connection said, out of everything heard. */
  function From(heard: seq<Heard>, c: ConnId): seq<Wire> {
    if heard == [] then []
    else
      var before, last := From(heard[..|heard| - 1], c), heard[|heard| - 1];
      if last.connection == c then before + [last.wire] else before
  }

  lemma {:induction false} AnswersAreAbout(heard: seq<Heard>, c: ConnId, r: RequestId)
    ensures Answers(heard, c, r) == About(From(heard, c), r)
  {
    if heard != [] {
      var front, last := heard[..|heard| - 1], heard[|heard| - 1];
      AnswersAreAbout(front, c, r);
      if last.connection == c {
        assert (From(front, c) + [last.wire])[..|From(front, c)|] == From(front, c);
      }
    }
  }

  lemma {:induction false} AboutAppend(a: seq<Wire>, b: seq<Wire>, r: RequestId)
    ensures About(a + b, r) == About(a, r) + About(b, r)
  {
    if b == [] {
      assert a + b == a;
    } else {
      AboutAppend(a, b[..|b| - 1], r);
      assert (a + b)[..|a + b| - 1] == a + b[..|b| - 1];
    }
  }

  lemma {:induction false} AboutTagged(q: RequestId, s: seq<Chunk>, r: RequestId)
    ensures About(Tagged(q, s), r) == if q == r then s else []
  {
    if s != [] {
      AboutTagged(q, s[..|s| - 1], r);
      assert Tagged(q, s)[..|s| - 1] == Tagged(q, s[..|s| - 1]);
      assert s == s[..|s| - 1] + [s[|s| - 1]];
    }
  }

  /** Commands run concurrently, so the messages of several come mixed on one connection: those
      about another request, wherever they fall, change nothing for this one. */
  lemma OthersChangeNothing(before: seq<Wire>, q: RequestId, other: seq<Chunk>, after: seq<Wire>, r: RequestId)
    requires q != r
    ensures About(before + Tagged(q, other) + after, r) == About(before + after, r)
  {
    AboutAppend(before, after, r);
    AboutAppend(before + Tagged(q, other), after, r);
    AboutAppend(before, Tagged(q, other), r);
    AboutTagged(q, other, r);
  }

  /** What the connection of `r` has said about it since it was dispatched. */
  function SaidAbout(t: Traffic, r: RequestId): seq<Chunk>
    requires r in t.flights && t.flights[r].since <= |t.heard|
  {
    About(From(t.heard[t.flights[r].since..], t.flights[r].connection), r)
  }

  /** It starts with all of `said`. */
  predicate HasSaid(t: Traffic, r: RequestId, said: seq<Chunk>) {
    r in t.flights && t.flights[r].since <= |t.heard| && said <= SaidAbout(t, r)
  }

  /** In every reachable state: if what the owner has said about `r` since it was dispatched starts
      with a sentence, the dispatch has yielded a beginning of that sentence, all of it if it ended
      normally; and until it ends nothing is dropped, it is bound to end. */
  lemma SentenceIsYielded(cfg: Config, start: real, events: seq<Event>, r: RequestId, t: Traffic, said: seq<Chunk>)
    requires t == Run(cfg, Init(start), events).t && IsSentence(said) && HasSaid(t, r, said)
    ensures t.flights[r].yielded <= said
    ensures t.flights[r].phase.Ended? && t.flights[r].phase.outcome.Finished? ==>
              && t.flights[r].yielded == said
              && t.flights[r].phase.outcome == Finished(said[|said| - 1].exitCode, said[|said| - 1].error)
    ensures !t.flights[r].phase.Ended? ==> IsBound(t, r)
  {
    var f := t.flights[r];
    ReachableInv(cfg, start, events);
    AnswersAreAbout(t.heard[f.since..], f.connection, r);
    FlightHolds(t, r);
    PhaseYields(f.phase, f.yielded, SaidAbout(t, r), said);
    if !f.phase.Ended? {
      SentenceBinds(t, r, said);
    }
  }

  /** A flight whose answers start with a sentence. */
  lemma PhaseYields(phase: Phase, yielded: seq<Chunk>, answers: seq<Chunk>, said: seq<Chunk>)
    requires PhaseOk(phase, yielded) && yielded <= answers && said <= answers && IsSentence(said)
    ensures yielded <= said
    ensures phase.Ended? && phase.outcome.Finished? ==>
              yielded == said && phase.outcome == Finished(said[|said| - 1].exitCode, said[|said| - 1].error)
  {
    var more := answers[|said|..];
    assert answers == said + more;
    SentenceHasOneResult(said);
    YieldsWithin(phase, yielded, said, more);
    if phase.Ended? && phase.outcome.Finished? {
      CompletePrefix(yielded, answers);
      SentenceEndsAtResult(said, more);
    }
  }

  lemma SentenceBinds(t: Traffic, r: RequestId, said: seq<Chunk>)
    requires TrafficOk(t) && IsLiveFlight(t, r) && t.flights[r].since <= |t.heard|
    requires IsSentence(said) && said <= AnswersTo(t, r)
    ensures IsBound(t, r)
  {
    assert AnswersTo(t, r)[|said| - 1] == said[|said| - 1];
    ResultIsBound(t, r);
  }

  lemma ResultIsLast(phase: Phase, yielded: seq<Chunk>, i: nat)
    requires PhaseOk(phase, yielded) && i < |yielded| - 1
    ensures !yielded[i].Result?
  {
    assert yielded[..|yielded| - 1][i] == yielded[i];
  }

  /** No dispatch yields anything past a result. */
  lemma YieldsWithin(phase: Phase, yielded: seq<Chunk>, said: seq<Chunk>, more: seq<Chunk>)
    requires PhaseOk(phase, yielded) && yielded <= said + more
    requires |said| > 0 && said[|said| - 1].Result? && NoResult(said[..|said| - 1])
    ensures yielded <= said
  {
    if |yielded| > |said| {
      assert yielded[|said| - 1] == (said + more)[|said| - 1];
      ResultIsLast(phase, yielded, |said| - 1);
    }
    assert yielded == (said + more)[..|yielded|] == said[..|yielded|];
  }

  // ----- What the harness is told -----

  /** What the pumps read of one of the two streams, read by read. */
  function PiecesOn(output: seq<Executor.Output>, stderr: bool): seq<seq<byte>> {
    if output == [] then []
    else
      var before, last := PiecesOn(output[..|output| - 1], stderr), output[|output| - 1];
      if (last.stream == "stderr") == stderr then before + [last.piece] else before
  }

  /** The text the relay gets of it. */
  function Printed(output: seq<Executor.Output>, stderr: bool): string {
    LenientAll(PiecesOn(output, stderr))
  }

  lemma PrintedSnoc(front: seq<Executor.Output>, last: Executor.Output, stderr: bool)
    ensures Printed(front + [last], stderr) ==
            Printed(front, stderr) + if (last.stream == "stderr") == stderr then Lenient(last.piece) else ""
  {
    var pieces := PiecesOn(front, stderr);
    assert (front + [last])[..|front|] == front;
    assert (pieces + [last.piece])[..|pieces|] == pieces;
    assert Printed(front, stderr) + "" == Printed(front, stderr);
  }

  lemma {:induction false} PrintedIsText(output: seq<Executor.Output>, stderr: bool)
    ensures Aggregate.TextOf(Executor.Streams(output), stderr) == Printed(output, stderr)
  {
    if output != [] {
      var front, last := output[..|output| - 1], output[|output| - 1];
      PrintedIsText(front, stderr);
      assert output == front + [last];
      PrintedSnoc(front, last, stderr);
      var c := Executor.StreamOf(last);
      assert (Executor.Streams(front) + [c])[..|Executor.Streams(front)|] == Executor.Streams(front);
    }
  }

  /** When what was read of a stream is well-formed text, it is reported as it is if and only if no
      read stopped inside a character. */
  lemma TextIsReportedExactly(output: seq<Executor.Output>, stderr: bool, text: string)
    requires Concat(PiecesOn(output, stderr)) == Encode(text)
    ensures var pieces := PiecesOn(output, stderr);
            Printed(output, stderr) == text <==> forall i :: 0 <= i <= |pieces| ==> OnBoundary(text, CutAt(pieces, i))
  {
    PiecesOfText(text, PiecesOn(output, stderr));
  }

  /** Whatever the bytes, what is reported is what one single read of them all would give if and only
      if no read stopped inside a character; and otherwise it is longer. */
  lemma BytesAreReportedExactly(output: seq<Executor.Output>, stderr: bool)
    ensures var pieces := PiecesOn(output, stderr);
            && (Printed(output, stderr) == Lenient(Concat(pieces)) <==> CutsAtEdges(pieces))
            && (!CutsAtEdges(pieces) ==> |Printed(output, stderr)| > |Lenient(Concat(pieces))|)
  {
    PiecesReadAsOne(PiecesOn(output, stderr));
  }

  lemma CutInsideAccent(letters: string, first: seq<byte>, rest: seq<byte>)
    requires letters == seq(4095, _ => 'a') && first == Encode(letters) + [0xC3] && rest == [0xA9]
    ensures Concat([first] + [rest]) == Encode(letters + "é")
    ensures LenientAll([first] + [rest]) == letters + "\U{FFFD}\U{FFFD}"
  {
    var text, pieces := letters + "é", [first] + [rest];
    AccentTorn([0xC3]);
    EncodeAppend(letters, "é");
    ConcatSnoc([], first);
    ConcatSnoc([first], rest);
    assert [] + [first] == [first] && Concat<byte>([]) + first == first;
    LenientAfter(letters, [0xC3]);
    assert pieces[..1] == [first] && [first][..0] == [];
    assert Lenient([0xC3]) == "\U{FFFD}" && Lenient([0xA9]) == "\U{FFFD}";
    assert pieces[..|pieces| - 1] == [first] && LenientAll([first]) == "" + Lenient(first) == Lenient(first);
    Regroup(letters, "\U{FFFD}", "\U{FFFD}");
  }

  /** For instance 4095 letters and an accented one, read as fast as a pump can: the first read of
      4096 bytes takes half of it, and the relay gets two replacement characters for it. */
  lemma AccentIsMisreported(letters: string, first: Executor.Piece, rest: Executor.Piece, output: seq<Executor.Output>)
    requires letters == seq(4095, _ => 'a') && first == Encode(letters) + [0xC3] && rest == [0xA9]
    requires output == [Executor.Output("stdout", first)] + [Executor.Output("stdout", rest)]
    ensures Concat(PiecesOn(output, false)) == Encode(letters + "é")
    ensures Printed(output, false) == letters + "\U{FFFD}\U{FFFD}"
  {
    CutInsideAccent(letters, first, rest);
    var one := [Executor.Output("stdout", first)];
    assert output[..1] == one && one[..0] == [];
    assert PiecesOn(one, false) == [] + [first] == [first];
    assert PiecesOn(output, false) == [first] + [rest];
  }

  lemma GateHasNoText(p: LocalPolicy.Policy, approved: bool, s: seq<Chunk>, stderr: bool)
    ensures Aggregate.TextOf(Executor.GateMessages(p, approved) + s, stderr) == Aggregate.TextOf(s, stderr)
  {
    var gate := Executor.GateMessages(p, approved);
    Aggregate.TextAppend(gate, s, stderr);
    if gate != [] {
      assert gate[..0] == [];
    }
  }

  /** The guard-rail's messages change nothing of what the work is reported as, once it passes. */
  lemma GateAddsNothing(p: LocalPolicy.Policy, approved: bool, work: seq<Chunk>)
    requires Passes(p, approved) && Executor.IsBody(work)
    ensures Aggregate.Answered(Executor.Gatekept(p, approved, work), None) == Aggregate.Answered(work, None)
  {
    var gate, front, final := Executor.GateMessages(p, approved), work[..|work| - 1], work[|work| - 1];
    assert work == front + [final];
    assert gate + work == (gate + front) + [final];
    Aggregate.ResultDecides(gate + front, final);
    Aggregate.ResultDecides(front, final);
    GateHasNoText(p, approved, front, false);
    GateHasNoText(p, approved, front, true);
  }

  /** What the harness is told of a process: the text of what was read of each stream, in order, its
      exit code and its error. */
  function ProcessAnswer(process: Executor.Process): Aggregate.Answer {
    match process
    case CannotStart(error) => Aggregate.Done("", "", Some(1), if error == "" then None else Some(error))
    case Ran(output, exitCode, error) =>
      Aggregate.Done(Printed(output, false), Printed(output, true), Some(exitCode),
                     if error == "" then None else Some(error))
  }

  lemma ProcessIsReported(process: Executor.Process)
    ensures Aggregate.Answered(Executor.ProcessMessages(process), None) == ProcessAnswer(process)
  {
    match process
    case CannotStart(error) =>
      Aggregate.ResultDecides([], Executor.Failure(error));
      assert [] + [Executor.Failure(error)] == [Executor.Failure(error)];
    case Ran(output, exitCode, error) =>
      Aggregate.ResultDecides(Executor.Streams(output), Executor.Final(exitCode, error, NO_META));
      PrintedIsText(output, false);
      PrintedIsText(output, true);
  }

  lemma ProcessIsBody(process: Executor.Process)
    ensures Executor.IsBody(Executor.ProcessMessages(process))
  {
    if process.Ran? {
      Executor.StreamsAreStreams(process.output);
    }
  }

  /** A command that runs, once approved or when nothing gates it, is reported with the text of what
      was read of each stream, in order, its exit code and its error. */
  lemma RunIsReported(p: LocalPolicy.Policy, approved: bool, process: Executor.Process)
    requires Passes(p, approved)
    ensures Aggregate.Answered(Executor.Gatekept(p, approved, Executor.ProcessMessages(process)), None)
            == ProcessAnswer(process)
  {
    ProcessIsBody(process);
    GateAddsNothing(p, approved, Executor.ProcessMessages(process));
    ProcessIsReported(process);
  }

  /** A command the guard-rail stops is reported as refused, with no output, whatever it would do. */
  lemma RefusalIsReported(p: LocalPolicy.Policy, approved: bool, work: seq<Chunk>)
    requires !Passes(p, approved)
    ensures Aggregate.Answered(Executor.Gatekept(p, approved, work), None)
            == Aggregate.Done("", "", Some(126), Some(if p.Deny? then "refused_by_policy" else "refused_by_user"))
  {
    var gate := Executor.GateMessages(p, approved);
    Aggregate.ResultDecides(gate, Executor.Refused(p));
    GateHasNoText(p, approved, [], false);
    GateHasNoText(p, approved, [], true);
    assert gate + [] == gate;
  }

  lemma {:induction false} ApprovalCarriesNothing(a: Chunk, s: seq<Chunk>)
    requires a.Approval?
    ensures FileRelay.TotalChars([a] + s) == FileRelay.TotalChars(s)
    ensures FileRelay.Pieces([a] + s) == FileRelay.Pieces(s)
    ensures FileRelay.LastResult([a] + s) == FileRelay.LastResult(s)
  {
    if s == [] {
      assert [a] + s == [a] && [a][..0] == [];
    } else {
      ApprovalCarriesNothing(a, s[..|s| - 1]);
      assert ([a] + s)[..|s|] == [a] + s[..|s| - 1];
    }
  }

  /** What the guard-rail makes of a read: it is refused, or answered as the file deserves. */
  function ReadAnswer(policy: LocalPolicy.Policy, approved: bool, p: FileRead.Params, source: FileRead.Source,
                      sha: seq<byte> -> string): FileRelay.Answer {
    if Passes(policy, approved) then FilePipeline.Expected(p, source, sha)
    else FileRelay.Error(if policy.Deny? then "refused_by_policy" else "refused_by_user", Some(126))
  }

  lemma RefusedReadIsAnswered(policy: LocalPolicy.Policy, approved: bool, path: string, code: string,
                              sha: seq<byte> -> string)
    requires !Passes(policy, approved) && code == if policy.Deny? then "refused_by_policy" else "refused_by_user"
    ensures FileRelay.Answered(path, Executor.GateMessages(policy, approved) + [Executor.Refused(policy)], None, sha)
            == FileRelay.Error(code, Some(126))
  {
    var gate := Executor.GateMessages(policy, approved);
    assert |gate| == 1 && gate[..0] == [];
    FilePipeline.FailureIsReported(path, gate, 126, code, sha);
  }

  /** Every read, of any file, readable or not, is answered as it should be: refused when the
      guard-rail stops it; otherwise the same whether it had to be approved or not. */
  lemma ReadIsAnswered(policy: LocalPolicy.Policy, approved: bool, p: FileRead.Params, source: FileRead.Source,
                       sha: seq<byte> -> string)
    ensures var reply := Executor.Gatekept(policy, approved, Executor.ReadMessages(p, source, sha));
            FileRelay.Answered(p.path, reply, None, sha) == ReadAnswer(policy, approved, p, source, sha)
  {
    if !Passes(policy, approved) {
      RefusedReadIsAnswered(policy, approved, p.path,
                            if policy.Deny? then "refused_by_policy" else "refused_by_user", sha);
    } else {
      var work := Executor.ReadMessages(p, source, sha);
      FilePipeline.AnsweredAsExpected(p, source, sha, FileRead.ChunksOf(FileRead.SentBytes(p, source)));
      if policy.Confirm? {
        ApprovalCarriesNothing(Approval(Some(true)), work);
        assert Executor.GateMessages(policy, approved) == [Approval(Some(true))];
      } else {
        assert Executor.GateMessages(policy, approved) + work == work;
      }
    }
  }

  /** A beginning of an answer that is already over the cap is answered as the whole would be. */
  lemma OverCapEarly(path: string, yielded: seq<Chunk>, reply: seq<Chunk>, sha: seq<byte> -> string)
    requires yielded <= reply && FileRelay.TotalChars(yielded) > FileRelay.MAX_TRANSFER_CHARS
    ensures FileRelay.Answered(path, yielded, None, sha) == FileRelay.Answered(path, reply, None, sha)
  {
    FileRelay.TotalCharsMonotone(reply, |yielded|);
    assert reply[..|yielded|] == yielded;
  }

  // ----- Every tool, the whole way -----

  /** A client as a command finds it. */
  datatype Client = Client(cmd: Executor.Command, w: Executor.World, tree: FileWrite.Tree, sha: seq<byte> -> string,
                           isDestructive: string -> bool, policy: LocalPolicy.Policy, memory: set<string>,
                           operator: Operator)
  {
    /** Everything it says while its connection holds. */
    function Reply(): seq<Chunk> {
      Executor.Reply(cmd, w, tree, sha, isDestructive, policy, memory, operator)
    }

    function Approved(description: string): bool {
      Approves(memory, operator, description)
    }

    function RefusalCode(): string {
      if policy.Deny? then "refused_by_policy" else "refused_by_user"
    }
  }

  /** A dispatch that ended normally has yielded all that a client replied to it. */
  lemma ReplyIsYielded(cfg: Config, start: real, events: seq<Event>, r: RequestId, t: Traffic, c: Client)
    requires t == Run(cfg, Init(start), events).t && HasSaid(t, r, c.Reply())
    ensures t.flights[r].yielded <= c.Reply()
    ensures t.flights[r].phase.Ended? && t.flights[r].phase.outcome.Finished? ==> t.flights[r].yielded == c.Reply()
  {
    Executor.ReplyIsSentence(c.cmd, c.w, c.tree, c.sha, c.isDestructive, c.policy, c.memory, c.operator);
    SentenceIsYielded(cfg, start, events, r, t, c.Reply());
  }

  // ----- Reads -----

  predicate IsRead(c: Client) {
    c.cmd.tool == "read_file" && c.cmd.read.Some?
  }

  /** What the executor replies to a read: the guard-rail's messages, then the transfer's. */
  lemma ReadReply(c: Client, description: string)
    requires IsRead(c) && description == "read_file " + c.cmd.read.value.path
    ensures c.Reply() == Executor.Gatekept(c.policy, c.Approved(description),
                                           Executor.ReadMessages(c.cmd.read.value, c.w.source, c.sha))
  {
  }

  /** The whole way: any read dispatched by the relay, answered by a client whose connection holds,
      among whatever else that connection carries, and yielded to the tool. When the dispatch ends
      normally, and also when the tool closes it because the cap is exceeded, the harness is told
      what the file, the guard-rail and the operator call for. */
  lemma ReadReachesTheHarness(cfg: Config, start: real, events: seq<Event>, r: RequestId, t: Traffic, c: Client)
    requires t == Run(cfg, Init(start), events).t && HasSaid(t, r, c.Reply())
    requires || (t.flights[r].phase.Ended? && t.flights[r].phase.outcome.Finished?)
             || FileRelay.TotalChars(t.flights[r].yielded) > FileRelay.MAX_TRANSFER_CHARS
    ensures IsRead(c) ==>
              var p := c.cmd.read.value;
              FileRelay.Answered(p.path, t.flights[r].yielded, None, c.sha) ==
              ReadAnswer(c.policy, c.Approved("read_file " + p.path), p, c.w.source, c.sha)
  {
    if IsRead(c) {
      var p := c.cmd.read.value;
      var description := "read_file " + p.path;
      ReplyIsYielded(cfg, start, events, r, t, c);
      ReadReply(c, description);
      ReadIsAnswered(c.policy, c.Approved(description), p, c.w.source, c.sha);
      if FileRelay.TotalChars(t.flights[r].yielded) > FileRelay.MAX_TRANSFER_CHARS {
        OverCapEarly(p.path, t.flights[r].yielded, c.Reply(), c.sha);
      }
    }
  }

  // ----- Runs -----

  predicate IsRunnable(c: Client) {
    (c.cmd.tool == "run_shell" || c.cmd.tool == "run_command") && c.cmd.run.Some?
  }

  /** How the command goes on this machine. */
  function ProcessOf(c: Client): Executor.Process
    requires IsRunnable(c)
  {
    if c.cmd.tool == "run_shell" then c.w.shell(c.cmd.run.value) else Executor.Plain(c.w, c.cmd.run.value)
  }

  /** What the harness is told of a run: a blank command is an error, a destructive one that the
      guard-rail stops is refused, and any other is reported as it went. */
  function RunAnswer(c: Client): Aggregate.Answer
    requires IsRunnable(c)
  {
    var command := c.cmd.run.value.command;
    if IsBlank(command) then Aggregate.Done("", "", Some(1), Some("params.command manquant"))
    else if c.isDestructive(command) && !Passes(c.policy, c.Approved(command)) then
      Aggregate.Done("", "", Some(126), Some(c.RefusalCode()))
    else ProcessAnswer(ProcessOf(c))
  }

  lemma RunIsAnswered(c: Client)
    requires IsRunnable(c)
    ensures Aggregate.Answered(c.Reply(), None) == RunAnswer(c)
  {
    var command := c.cmd.run.value.command;
    if IsBlank(command) {
      BlankIsReported(c.Reply(), "params.command manquant");
    } else if !c.isDestructive(command) {
      ProcessIsReported(ProcessOf(c));
    } else if Passes(c.policy, c.Approved(command)) {
      RunIsReported(c.policy, c.Approved(command), ProcessOf(c));
    } else {
      RefusalIsReported(c.policy, c.Approved(command), Executor.ProcessMessages(ProcessOf(c)));
    }
  }

  lemma BlankIsReported(reply: seq<Chunk>, code: string)
    requires code != "" && reply == [Executor.Failure(code)]
    ensures Aggregate.Answered(reply, None) == Aggregate.Done("", "", Some(1), Some(code))
  {
    Aggregate.ResultDecides([], Executor.Failure(code));
    assert [] + [Executor.Failure(code)] == reply;
  }

  /** The whole way for `run_shell` and `run_command`, likewise. */
  lemma RunReachesTheHarness(cfg: Config, start: real, events: seq<Event>, r: RequestId, t: Traffic, c: Client)
    requires t == Run(cfg, Init(start), events).t && HasSaid(t, r, c.Reply())
    requires t.flights[r].phase.Ended? && t.flights[r].phase.outcome.Finished?
    ensures IsRunnable(c) ==> Aggregate.Answered(t.flights[r].yielded, None) == RunAnswer(c)
  {
    ReplyIsYielded(cfg, start, events, r, t, c);
    if IsRunnable(c) {
      RunIsAnswered(c);
    }
  }

  /** A command line made by quoting any arguments, none of them lost or altered on the way, is told as
      the program went that was given them. */
  lemma ArgumentsAreRun(c: Client, args: seq<string>)
    requires IsRunnable(c) && c.cmd.tool == "run_command" && c.cmd.run.value.command == Argv.Join(Argv.QuotedAll(args))
    requires args != [] && c.w.isInstalled(args[0])
    requires c.isDestructive(c.cmd.run.value.command) ==> Passes(c.policy, c.Approved(c.cmd.run.value.command))
    ensures Aggregate.Answered(c.Reply(), None) == ProcessAnswer(c.w.program(args, c.cmd.run.value.timeout))
  {
    assert Argv.QuotedAll(args)[0] == Argv.DoubleQuoted(args[0]);
    assert c.cmd.run.value.command[0] == '"' && !IsSpace('"');
    RunIsAnswered(c);
    Executor.ArgumentsReachTheProgram(c.w, args, c.cmd.run.value);
  }

  // ----- System information, and commands that cannot be read -----

  /** `system_info` is never gated, and is told as the line the machine gives, or as its error. */
  lemma InfoIsAnswered(c: Client)
    requires c.cmd.tool == "system_info"
    ensures Aggregate.Answered(c.Reply(), None) ==
            match c.w.info
            case Info(json) => Aggregate.Done(json + "\n", "", Some(0), None)
            case InfoFailed(error) => Aggregate.Done("", "", Some(1), if error == "" then None else Some(error))
  {
    match c.w.info
    case Info(json) =>
      var line := Stream(Some("stdout"), Some(json + "\n"));
      Aggregate.ResultDecides([line], Executor.Final(0, "", NO_META));
      assert [line][..0] == [] && "" + (json + "\n") == json + "\n";
      assert c.Reply() == [line] + [Executor.Final(0, "", NO_META)];
    case InfoFailed(error) =>
      Aggregate.ResultDecides([], Executor.Failure(error));
      assert [] + [Executor.Failure(error)] == c.Reply();
  }

  lemma FailureAlone(path: string, content: seq<byte>, code: string, sha: seq<byte> -> string)
    requires code != ""
    ensures var reply := [Executor.Failure(code)];
            && Aggregate.Answered(reply, None) == Aggregate.Done("", "", Some(1), Some(code))
            && FileRelay.Answered(path, reply, None, sha) == FileRelay.Error(code, Some(1))
            && FileRelay.WriteAnswered(path, content, reply, None, sha) == FileRelay.Error(code, Some(1))
  {
    BlankIsReported([Executor.Failure(code)], code);
    FilePipeline.ResultLast([], Executor.Failure(code));
    assert [] + [Executor.Failure(code)] == [Executor.Failure(code)];
  }

  /** A command whose parameters cannot be read is told as such, without a question to the operator;
      and so is one for a tool the client does not have. */
  lemma UnreadableIsAnswered(c: Client, path: string, content: seq<byte>)
    ensures c.cmd.tool == "run_shell" || c.cmd.tool == "run_command" ==> c.cmd.run.None? ==>
              Aggregate.Answered(c.Reply(), None)
              == Aggregate.Done("", "", Some(1), Some("params invalides: " + c.cmd.decodeError))
    ensures c.cmd.tool == "read_file" && c.cmd.read.None? ==>
              FileRelay.Answered(path, c.Reply(), None, c.sha) == FileRelay.Error("invalid_params", Some(1))
    ensures c.cmd.tool == "write_file" && c.cmd.write.None? ==>
              FileRelay.WriteAnswered(path, content, c.Reply(), None, c.sha)
              == FileRelay.Error("invalid_params", Some(1))
    ensures c.cmd.tool !in ["run_shell", "run_command", "system_info", "read_file", "write_file"] ==>
              Aggregate.Answered(c.Reply(), None)
              == Aggregate.Done("", "", Some(1), Some("outil inconnu: " + c.cmd.tool))
  {
    FailureAlone(path, content, "params invalides: " + c.cmd.decodeError, c.sha);
    FailureAlone(path, content, "invalid_params", c.sha);
    FailureAlone(path, content, "outil inconnu: " + c.cmd.tool, c.sha);
  }

  // ----- Writes -----

  /** The relay reads these bytes in the payload. */
  predicate Carries(c: Client, content: seq<byte>)
    requires Executor.IsWrite(c.cmd)
  {
    Base64.RelayDecode(c.cmd.write.value.payload) == Some(content)
  }

  /** What the harness is told of a write whose payload the relay decoded as `content`. */
  function WriteAnswer(c: Client, content: seq<byte>): FileRelay.Answer
    requires Executor.IsWrite(c.cmd)
  {
    var p := c.cmd.write.value;
    if !Passes(c.policy, c.Approved(Executor.DescribeWrite(p))) then FileRelay.Error(c.RefusalCode(), Some(126))
    else
      match FileWrite.Answer(Executor.RequestOf(p, c.w), c.tree, c.w.faults, c.sha)
      case Failed(code) => FileRelay.Error(code, Some(1))
      case Installed(_, _) => FileRelay.Written(p.path, |content|, c.sha(content))
  }

  lemma GateIsLight(policy: LocalPolicy.Policy, approved: bool)
    ensures FileRelay.TotalChars(Executor.GateMessages(policy, approved)) == 0
  {
    var gate := Executor.GateMessages(policy, approved);
    if gate != [] {
      assert gate[..|gate| - 1] == [];
    }
  }

  /** A result that comes after the guard-rail's messages decides the answer to a write. */
  lemma WriteResultDecides(policy: LocalPolicy.Policy, approved: bool, result: Chunk, path: string, content: seq<byte>,
                           sha: seq<byte> -> string)
    requires result.Result?
    ensures FileRelay.WriteAnswered(path, content, Executor.GateMessages(policy, approved) + [result], None, sha) ==
            FileRelay.WriteFileAnswer(path, content,
                                      Some(FileRelay.Outcome(result.exitCode, result.error, result.meta)), None, sha)
  {
    GateIsLight(policy, approved);
    FilePipeline.ResultLast(Executor.GateMessages(policy, approved), result);
  }

  /** The bytes and the hash the client reports are those the relay decoded. */
  lemma InstalledIsDecoded(c: Client, content: seq<byte>)
    requires Executor.IsWrite(c.cmd)
    ensures var p := c.cmd.write.value;
            var o := FileWrite.Answer(Executor.RequestOf(p, c.w), c.tree, c.w.faults, c.sha);
            Carries(c, content) && o.Installed? ==> o == FileWrite.Installed(|content|, c.sha(content)) && p.path != ""
  {
    var p := c.cmd.write.value;
    if Carries(c, content) && FileWrite.Answer(Executor.RequestOf(p, c.w), c.tree, c.w.faults, c.sha).Installed? {
      FileWrite.SameContent(p.payload, content);
    }
  }

  /** One result, whatever the install made of the write; and after the guard-rail's messages. */
  function WriteResult(c: Client, approved: bool): Chunk
    requires Executor.IsWrite(c.cmd)
  {
    var p := c.cmd.write.value;
    if !Passes(c.policy, approved) then Executor.Refused(c.policy)
    else
      match FileWrite.Answer(Executor.RequestOf(p, c.w), c.tree, c.w.faults, c.sha)
      case Failed(code) => Executor.Failure(code)
      case Installed(n, sha) => Executor.Final(0, "", Meta(Some(p.path), None, Some(sha), None, Some(n)))
  }

  lemma WriteReply(c: Client, approved: bool, description: string)
    requires Executor.IsWrite(c.cmd) && approved == c.Approved(description)
    requires var p := c.cmd.write.value;
             description == "write_file " + p.path + " (" + Digits(Base64.EstimatedLen(p.payload)) + " octets)"
    ensures c.Reply() == Executor.GateMessages(c.policy, approved) + [WriteResult(c, approved)]
  {
  }

  lemma WriteResultAnswer(c: Client, content: seq<byte>, approved: bool, result: Chunk)
    requires Executor.IsWrite(c.cmd) && result == WriteResult(c, approved)
    requires approved == c.Approved(Executor.DescribeWrite(c.cmd.write.value))
    ensures Carries(c, content) ==>
            FileRelay.WriteFileAnswer(c.cmd.write.value.path, content,
                                      Some(FileRelay.Outcome(result.exitCode, result.error, result.meta)), None, c.sha)
            == WriteAnswer(c, content)
  {
    var p := c.cmd.write.value;
    FileWrite.FailureHasCode(Executor.RequestOf(p, c.w), c.tree, c.w.faults, c.sha);
    InstalledIsDecoded(c, content);
  }

  lemma WriteIsAnswered(c: Client, content: seq<byte>)
    requires Executor.IsWrite(c.cmd)
    ensures Carries(c, content) ==>
              FileRelay.WriteAnswered(c.cmd.write.value.path, content, c.Reply(), None, c.sha)
              == WriteAnswer(c, content)
  {
    var approved := c.Approved(Executor.DescribeWrite(c.cmd.write.value));
    var result := WriteResult(c, approved);
    WriteReply(c, approved, Executor.DescribeWrite(c.cmd.write.value));
    WriteResultDecides(c.policy, approved, result, c.cmd.write.value.path, content, c.sha);
    WriteResultAnswer(c, content, approved, result);
  }

  /** The whole way for `write_file`, likewise. */
  lemma WriteReachesTheHarness(cfg: Config, start: real, events: seq<Event>, r: RequestId, t: Traffic, c: Client,
                               content: seq<byte>)
    requires t == Run(cfg, Init(start), events).t && HasSaid(t, r, c.Reply())
    requires t.flights[r].phase.Ended? && t.flights[r].phase.outcome.Finished?
    ensures Executor.IsWrite(c.cmd) && Carries(c, content) ==>
              FileRelay.WriteAnswered(c.cmd.write.value.path, content, t.flights[r].yielded, None, c.sha)
              == WriteAnswer(c, content)
  {
    ReplyIsYielded(cfg, start, events, r, t, c);
    if Executor.IsWrite(c.cmd) {
      WriteIsAnswered(c, content);
    }
  }

  /** The permissions a new file gets: those asked for, else those of the file it replaces, else 0644;
      0600 when they cannot be set. */
  function PermOf(c: Client, before: Option<FileWrite.Node>): int
    requires Executor.IsWrite(c.cmd)
  {
    var p := c.cmd.write.value;
    if c.w.faults.chmod then 384
    else if p.mode.Some? then p.mode.value
    else if !c.w.faults.stat && before.Some? && before.value.File? then before.value.perm
    else 420
  }

  /** And it is true. What is reported as written had been let through under the description of its path
      and size, is at that path with its permissions, and replaced nothing it was not allowed to; after
      any other answer that path is as it was. Nothing else on the disk changes but that directories
      above it may be created, if they may. `after` is the disk as the executor leaves it. */
  lemma WriteAnswerIsTrue(c: Client, content: seq<byte>, after: FileWrite.Tree, description: string)
    requires Executor.IsWrite(c.cmd)
    requires var p := c.cmd.write.value;
             description == "write_file " + p.path + " (" + Digits(Base64.EstimatedLen(p.payload)) + " octets)"
    requires if Passes(c.policy, c.Approved(description))
             then FileWrite.Leaves(Executor.RequestOf(c.cmd.write.value, c.w), c.tree, after, c.w.faults)
             else after == c.tree
    ensures var p := c.cmd.write.value;
            var place := c.w.locate(p.path);
            var now, before := FileWrite.At(after, place), FileWrite.At(c.tree, place);
            Carries(c, content) ==>
              match WriteAnswer(c, content)
              case Written(path, size, sha256) =>
                && Passes(c.policy, c.Approved(description)) && !IsBlank(p.path)
                && now == Some(FileWrite.File(content, PermOf(c, before)))
                && path == p.path && size == |content| && sha256 == c.sha(content)
                && before != Some(FileWrite.Dir) && (before.Some? && !c.w.faults.stat ==> p.overwrite)
              case _ => now == before
    ensures var p := c.cmd.write.value;
            && FileWrite.OnlyDirsAdded(c.tree - {c.w.locate(p.path)}, after - {c.w.locate(p.path)}, c.w.locate(p.path))
            && (!p.createDirs ==> after - {c.w.locate(p.path)} == c.tree - {c.w.locate(p.path)})
  {
    var q := Executor.RequestOf(c.cmd.write.value, c.w);
    if Carries(c, content) && FileWrite.Refusal(q, c.tree, c.w.faults.stat).None? {
      FileWrite.SucceedsExactly(q, c.tree, c.w.faults);
      FileWrite.SameContent(q.payload, content);
    }
  }

  // ----- What is audited -----

  /** The outcome in the audit trail is the one the harness is told: the exit code and the error of the
      client's own result, which every dispatch that ended normally has. */
  lemma TrailAgreesWithAnswer(cfg: Config, start: real, events: seq<Event>, r: RequestId, t: Traffic)
    requires t == Run(cfg, Init(start), events).t && r in t.flights
    requires t.flights[r].phase.Ended? && t.flights[r].phase.outcome.Finished?
    ensures var o, yielded := t.flights[r].phase.outcome, t.flights[r].yielded;
            && Aggregate.Answered(yielded, None) ==
               Aggregate.Done(Aggregate.TextOf(yielded, false), Aggregate.TextOf(yielded, true), o.exitCode, o.error)
            && FileRelay.LastResult(yielded).Some?
            && FileRelay.LastResult(yielded).value.exitCode == o.exitCode
            && FileRelay.LastResult(yielded).value.error == o.error
  {
    DispatchYieldsItsAnswers(cfg, start, events, r);
    var yielded := t.flights[r].yielded;
    var front, last := yielded[..|yielded| - 1], yielded[|yielded| - 1];
    assert yielded == front + [last];
    Aggregate.ResultDecides(front, last);
    Aggregate.NoTextInResult(front, last, false);
    Aggregate.NoTextInResult(front, last, true);
    FilePipeline.ResultLast(front, last);
  }

  // ----- A connection that breaks in the middle -----

  lemma AboutPrefix(a: seq<Wire>, b: seq<Wire>, r: RequestId)
    requires a <= b
    ensures About(a, r) <= About(b, r)
  {
    assert b == a + b[|a|..];
    AboutAppend(a, b[|a|..], r);
  }

  lemma {:induction false} FromAppend(a: seq<Heard>, b: seq<Heard>, c: ConnId)
    ensures From(a + b, c) == From(a, c) + From(b, c)
  {
    if b == [] {
      assert a + b == a;
    } else {
      FromAppend(a, b[..|b| - 1], c);
      assert (a + b)[..|a + b| - 1] == a + b[..|b| - 1];
    }
  }

  /** What is heard about a request after `since`, when nothing was before, is all that is heard of it. */
  lemma HeardSince(heard: seq<Heard>, since: nat, c: ConnId, r: RequestId)
    requires since <= |heard| && About(From(heard[..since], c), r) == []
    ensures About(From(heard[since..], c), r) == About(From(heard, c), r)
  {
    assert heard == heard[..since] + heard[since..];
    FromAppend(heard[..since], heard[since..], c);
    AboutAppend(From(heard[..since], c), From(heard[since..], c), r);
  }

  /** The relay hears of an answer no more than the network took of it: all of it when the
      connection holds and everything got there, a beginning of it in any case. */
  lemma HeardWithinDelivered(conn: Conn, wires: seq<Wire>, r: RequestId)
    requires conn.Valid() && wires <= conn.delivered
    ensures About(wires, r) <= About(conn.delivered, r) <= About(conn.attempted, r)
    ensures !conn.broken && wires == conn.delivered ==> About(wires, r) == About(conn.attempted, r)
  {
    AboutPrefix(conn.delivered, conn.attempted, r);
    AboutPrefix(wires, conn.delivered, r);
  }

  /** The protocol error a dispatch raises when it ends that way. */
  function Raised(o: Outcome): Option<string> {
    match o
    case ClientGone => Some("client_disconnected")
    case TimedOut => Some("timeout")
    case _ => None
  }

  /** The protocol error a dispatch raises when it does not get as far as its command. */
  function RaisedAtOnce(s: Broker.Start): Option<string> {
    match s
    case NotFound => Some("session_not_found")
    case Denied(_) => Some("denied")
    case Sent(_) => None
  }

  /** A command that is not sent is told as an error, by every tool. */
  lemma NotSentIsReported(s: Broker.Start, path: string, content: seq<byte>, sha: seq<byte> -> string)
    requires !s.Sent?
    ensures var code := if s.NotFound? then "session_not_found" else "denied";
            && Aggregate.Answered([], RaisedAtOnce(s)) == Aggregate.Error(code)
            && FileRelay.Answered(path, [], RaisedAtOnce(s), sha) == FileRelay.Error(code, None)
            && FileRelay.WriteAnswered(path, content, [], RaisedAtOnce(s), sha) == FileRelay.Error(code, None)
  {
  }

  /** In every state, reachable or not: a dispatch that did not end normally is told as an error by
      every tool, whatever it had yielded. In particular it is never content, and never written. (A
      tool closes a dispatch itself only over the cap; one that is cancelled answers nothing.) */
  lemma UnfinishedIsReported(f: Flight, path: string, content: seq<byte>, sha: seq<byte> -> string)
    requires f.phase.Ended? && !f.phase.outcome.Finished?
    ensures var o, total := f.phase.outcome, FileRelay.TotalChars(f.yielded);
            var code := if o.ClientGone? then "client_disconnected" else "timeout";
            && (!o.Nothing? ==> Aggregate.Answered(f.yielded, Raised(o)) == Aggregate.Error(code))
            && (!o.Nothing? || total > 8388608 ==>
                  var reported := FileRelay.Error(if total > 8388608 then "file_too_large" else code, None);
                  && FileRelay.Answered(path, f.yielded, Raised(o), sha) == reported
                  && FileRelay.WriteAnswered(path, content, f.yielded, Raised(o), sha) == reported)
  {
    if FileRelay.TotalChars(f.yielded) > 8388608 {
      FileRelay.TooLargeIsReported(path, content, f.yielded, Raised(f.phase.outcome), sha);
    } else if !f.phase.outcome.Nothing? {
      FileRelay.RaisedIsReported(path, content, f.yielded, Raised(f.phase.outcome).value, sha);
    }
  }

  /** A sentence cut short lacks its result. */
  lemma CutSentenceHasNoResult(part: seq<Chunk>, said: seq<Chunk>)
    requires part <= said && part != said && IsSentence(said)
    ensures NoResult(part)
  {
    SentenceHasOneResult(said);
    assert forall i :: 0 <= i < |part| ==> part[i] == said[..|said| - 1][i];
  }

  /** The client's connection broke before the result of its answer `said` to `r` was written, and `r`
      has ended. */
  ghost predicate BreaksOff(t: Traffic, r: RequestId, conn: Conn, said: seq<Chunk>)
    reads conn
  {
    && r in t.flights && t.flights[r].phase.Ended? && t.flights[r].since <= |t.heard|
    && conn.Valid() && IsSentence(said) && About(conn.attempted, r) == said && About(conn.delivered, r) != said
    && From(t.heard, t.flights[r].connection) <= conn.delivered
    && About(From(t.heard[..t.flights[r].since], t.flights[r].connection), r) == []
  }

  /** Then the dispatch has not ended normally, and unless the timer ran out or its consumer closed it,
      it can only have ended as `client_disconnected`. (That it does end when the relay notices is
      CutOffRequestsEnd.) */
  lemma BrokenIsUnfinished(cfg: Config, start: real, events: seq<Event>, r: RequestId, t: Traffic, conn: Conn,
                           said: seq<Chunk>)
    requires t == Run(cfg, Init(start), events).t && BreaksOff(t, r, conn, said)
    ensures !t.flights[r].phase.outcome.Finished?
    ensures NeverCutShort(events, r) ==> t.flights[r].phase.outcome.ClientGone?
  {
    var f := t.flights[r];
    HeardSince(t.heard, f.since, f.connection, r);
    HeardWithinDelivered(conn, From(t.heard, f.connection), r);
    CutSentenceHasNoResult(SaidAbout(t, r), said);
    AnswersAreAbout(t.heard[f.since..], f.connection, r);
    NotFinished(cfg, start, events, r, t);
  }

  /** So what it yielded of a file is never given to the harness as content. */
  lemma BrokenReadIsNeverContent(cfg: Config, start: real, events: seq<Event>, r: RequestId, t: Traffic, conn: Conn,
                                 said: seq<Chunk>, path: string, sha: seq<byte> -> string)
    requires t == Run(cfg, Init(start), events).t && BreaksOff(t, r, conn, said)
    ensures var f, total := t.flights[r], FileRelay.TotalChars(t.flights[r].yielded);
            !f.phase.outcome.Nothing? || total > 8388608 ==>
              FileRelay.Answered(path, f.yielded, Raised(f.phase.outcome), sha) ==
              FileRelay.Error(
                if total > 8388608 then "file_too_large"
                else if f.phase.outcome.ClientGone? then "client_disconnected" else "timeout", None)
  {
    BrokenIsUnfinished(cfg, start, events, r, t, conn, said);
    UnfinishedIsReported(t.flights[r], path, [], sha);
  }

  /** A write is never reported as done, though the client may have done it, */
  lemma BrokenWriteIsNeverWritten(cfg: Config, start: real, events: seq<Event>, r: RequestId, t: Traffic, conn: Conn,
                                  said: seq<Chunk>, path: string, content: seq<byte>, sha: seq<byte> -> string)
    requires t == Run(cfg, Init(start), events).t && BreaksOff(t, r, conn, said)
    ensures var f, total := t.flights[r], FileRelay.TotalChars(t.flights[r].yielded);
            !f.phase.outcome.Nothing? || total > 8388608 ==>
              FileRelay.WriteAnswered(path, content, f.yielded, Raised(f.phase.outcome), sha) ==
              FileRelay.Error(
                if total > 8388608 then "file_too_large"
                else if f.phase.outcome.ClientGone? then "client_disconnected" else "timeout", None)
  {
    BrokenIsUnfinished(cfg, start, events, r, t, conn, said);
    UnfinishedIsReported(t.flights[r], path, content, sha);
  }

  /** and neither is a run. */
  lemma BrokenRunIsNeverDone(cfg: Config, start: real, events: seq<Event>, r: RequestId, t: Traffic, conn: Conn,
                             said: seq<Chunk>)
    requires t == Run(cfg, Init(start), events).t && BreaksOff(t, r, conn, said)
    ensures var f := t.flights[r];
            !f.phase.outcome.Nothing? ==>
              Aggregate.Answered(f.yielded, Raised(f.phase.outcome)) ==
              Aggregate.Error(if f.phase.outcome.ClientGone? then "client_disconnected" else "timeout")
  {
    BrokenIsUnfinished(cfg, start, events, r, t, conn, said);
    UnfinishedIsReported(t.flights[r], "", [], _ => "");
  }

  /** Without a result no dispatch ends normally. */
  lemma NotFinished(cfg: Config, start: real, events: seq<Event>, r: RequestId, t: Traffic)
    requires t == Run(cfg, Init(start), events).t && r in t.flights && t.flights[r].phase.Ended?
    requires t.flights[r].since <= |t.heard| && NoResult(AnswersTo(t, r))
    ensures !t.flights[r].phase.outcome.Finished?
    ensures NeverCutShort(events, r) ==> t.flights[r].phase.outcome.ClientGone?
  {
    ReachableInv(cfg, start, events);
    FlightHolds(t, r);
    OutcomeHasItsCause(cfg, start, events, r);
    var yielded := t.flights[r].yielded;
    assert yielded != [] ==> yielded[|yielded| - 1] == AnswersTo(t, r)[|yielded| - 1];
  }
}
