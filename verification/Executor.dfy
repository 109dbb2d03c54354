/** The client's executor (client/executor.go): one `command` message in, and its messages out,
    for every tool, policy, operator and failure. */
module Executor {
  import opened Common
  import opened Protocol
  import opened Unicode
  import opened LenientUtf8
  import Argv
  import Base64
  import FileRead
  import FileWrite
  import opened LocalPolicy

  // ----- What comes in -----

  datatype Run = Run(command: string, shell: string, timeout: int)

  datatype Write = Write(path: string, payload: string, mode: Option<int>, createDirs: bool, overwrite: bool)

  /** A `command` message. Each tool decodes the same parameters its own way; None when they do not
      decode, and then `decodeError` says why. */
  datatype Command = Command(requestId: RequestId, tool: string, run: Option<Run>, read: Option<FileRead.Params>,
                             write: Option<Write>, decodeError: string)

  const STREAM_CHUNK := 4096

  /** What one read of a pump brings. */
  type Piece = b: seq<byte> | 0 < |b| <= STREAM_CHUNK witness [0]

  datatype Output = Output(stream: string, piece: Piece)

  /** How running something goes: it cannot start, or its pumps read some output and it ends.
      (Waiting for the process closes the pipes, so what it wrote last may never be read.) */
  datatype Process = CannotStart(error: string) | Ran(output: seq<Output>, exitCode: int, error: string)

  datatype Info = Info(json: string) | InfoFailed(error: string)

  /** What this command meets on the machine. */
  datatype World = World(shell: Run -> Process, isInstalled: string -> bool, program: (seq<string>, int) -> Process,
                         info: Info, source: FileRead.Source, locate: string -> FileWrite.Place,
                         faults: FileWrite.Faults, tmpName: string)

  /** The install a write asks for: at the very path it names. */
  function RequestOf(p: Write, w: World): FileWrite.Request {
    FileWrite.Request(if IsBlank(p.path) then [] else w.locate(p.path), p.payload, p.mode, p.createDirs, p.overwrite)
  }

  // ----- What goes out: the reference -----

  function Final(exitCode: int, error: string, meta: Meta): Chunk {
    Result(Some(exitCode), if error == "" then None else Some(error), meta)
  }

  function Failure(error: string): Chunk {
    Final(1, error, NO_META)
  }

  function Refused(p: Policy): Chunk {
    Final(126, if p.Deny? then "refused_by_policy" else "refused_by_user", NO_META)
  }

  /** The guard-rail says nothing under `auto`, and answers the relay otherwise. */
  function GateMessages(p: Policy, approved: bool): seq<Chunk> {
    match p
    case Auto => []
    case Confirm => [Approval(Some(approved))]
    case Deny => [Approval(Some(false))]
  }

  /** A piece becomes text on its own. */
  function StreamOf(o: Output): Chunk {
    Stream(Some(o.stream), Some(Lenient(o.piece)))
  }

  function Streams(output: seq<Output>): seq<Chunk> {
    if output == [] then [] else Streams(output[..|output| - 1]) + [StreamOf(output[|output| - 1])]
  }

  predicate AllStreams(s: seq<Chunk>) {
    forall i :: 0 <= i < |s| ==> s[i].Stream?
  }

  lemma StreamsSnoc(output: seq<Output>, i: nat)
    requires i < |output|
    ensures Streams(output[..i + 1]) == Streams(output[..i]) + [StreamOf(output[i])]
  {
    assert output[..i + 1][..i] == output[..i];
  }

  lemma {:induction false} StreamsAreStreams(output: seq<Output>)
    ensures AllStreams(Streams(output)) && |Streams(output)| == |output|
  {
    if output != [] {
      StreamsAreStreams(output[..|output| - 1]);
    }
  }

  const UNCLOSED := "guillemets non fermés dans la commande"
  const EMPTY_COMMAND := "commande vide"

  /** `run_command` splits its line itself and checks that the program exists. */
  function Plain(w: World, run: Run): Process {
    match Argv.Arguments(run.command)
    case None => CannotStart(UNCLOSED)
    case Some(args) =>
      if args == [] then CannotStart(EMPTY_COMMAND)
      else if !w.isInstalled(args[0]) then CannotStart("exécutable introuvable: " + args[0])
      else w.program(args, run.timeout)
  }

  function ProcessMessages(p: Process): seq<Chunk> {
    match p
    case CannotStart(error) => [Failure(error)]
    case Ran(output, exitCode, error) => Streams(output) + [Final(exitCode, error, NO_META)]
  }

  function ReadMessages(p: FileRead.Params, source: FileRead.Source, sha: seq<byte> -> string): seq<Chunk> {
    FileRead.ChunksOf(FileRead.SentBytes(p, source)) + [FileRead.Closing(p, source, sha)]
  }

  function WriteMessages(path: string, o: FileWrite.Outcome): seq<Chunk> {
    match o
    case Failed(code) => [Failure(code)]
    case Installed(n, sha) => [Final(0, "", Meta(Some(path), None, Some(sha), None, Some(n)))]
  }

  /** What the operator is asked, and what "toujours" remembers. */
  function DescribeWrite(p: Write): string {
    "write_file " + p.path + " (" + Digits(Base64.EstimatedLen(p.payload)) + " octets)"
  }

  predicate IsRun(tool: string) {
    tool == "run_shell" || tool == "run_command"
  }

  /** The description put to the guard-rail, for the operations it gates: destructive commands,
      and every file transfer. */
  function Gated(cmd: Command, isDestructive: string -> bool): Option<string> {
    if IsRun(cmd.tool) then
      if cmd.run.Some? && !IsBlank(cmd.run.value.command) && isDestructive(cmd.run.value.command) then
        Some(cmd.run.value.command)
      else None
    else if cmd.tool == "read_file" then
      if cmd.read.Some? then Some("read_file " + cmd.read.value.path) else None
    else if cmd.tool == "write_file" then
      if cmd.write.Some? then Some(DescribeWrite(cmd.write.value)) else None
    else None
  }

  /** What is said once nothing stands in the way. */
  function Work(cmd: Command, w: World, tree: FileWrite.Tree, sha: seq<byte> -> string): seq<Chunk> {
    if IsRun(cmd.tool) then
      if cmd.run.None? then [Failure("params invalides: " + cmd.decodeError)]
      else if IsBlank(cmd.run.value.command) then [Failure("params.command manquant")]
      else ProcessMessages(if cmd.tool == "run_shell" then w.shell(cmd.run.value) else Plain(w, cmd.run.value))
    else if cmd.tool == "system_info" then
      match w.info
      case Info(json) => [Stream(Some("stdout"), Some(json + "\n")), Final(0, "", NO_META)]
      case InfoFailed(error) => [Failure(error)]
    else if cmd.tool == "read_file" then
      if cmd.read.None? then [Failure("invalid_params")] else ReadMessages(cmd.read.value, w.source, sha)
    else if cmd.tool == "write_file" then
      if cmd.write.None? then [Failure("invalid_params")]
      else WriteMessages(cmd.write.value.path, FileWrite.Answer(RequestOf(cmd.write.value, w), tree, w.faults, sha))
    else [Failure("outil inconnu: " + cmd.tool)]
  }

  /** Everything one command is answered with on a connection that holds. */
  function Reply(cmd: Command, w: World, tree: FileWrite.Tree, sha: seq<byte> -> string,
                 isDestructive: string -> bool, p: Policy, memory: set<string>, operator: Operator): seq<Chunk> {
    match Gated(cmd, isDestructive)
    case None => Work(cmd, w, tree, sha)
    case Some(description) => Gatekept(p, Approves(memory, operator, description), Work(cmd, w, tree, sha))
  }

  /** The guard-rail's messages, then what it lets through or its refusal. */
  function Gatekept(p: Policy, approved: bool, work: seq<Chunk>): seq<Chunk> {
    GateMessages(p, approved) + if Passes(p, approved) then work else [Refused(p)]
  }

  /** The relay is told the truth about the guard-rail: nothing under `auto`; under `confirm` what was
      decided, then the work, or a refusal by the user; under `deny` a refusal by the policy. */
  lemma GateTells(approved: bool, work: seq<Chunk>)
    ensures Gatekept(Auto, approved, work) == work
    ensures Gatekept(Confirm, true, work) == [Approval(Some(true))] + work
    ensures Gatekept(Confirm, false, work) ==
            [Approval(Some(false)), Result(Some(126), Some("refused_by_user"), NO_META)]
    ensures Gatekept(Deny, approved, work) ==
            [Approval(Some(false)), Result(Some(126), Some("refused_by_policy"), NO_META)]
  {
    assert [] + work == work;
  }

  /** Any arguments, quoted and joined, reach the program unchanged, provided that the first of them
      names a program that is installed. */
  lemma ArgumentsReachTheProgram(w: World, args: seq<string>, run: Run)
    requires run.command == Argv.Join(Argv.QuotedAll(args))
    ensures Plain(w, run) ==
            if args == [] then CannotStart("commande vide")
            else if w.isInstalled(args[0]) then w.program(args, run.timeout)
            else CannotStart("exécutable introuvable: " + args[0])
  {
    Argv.QuotedLineSplits(args);
  }

  /** A line with a quote left open starts nothing. */
  lemma OpenQuoteIsReported(w: World, run: Run)
    requires Argv.Arguments(run.command).None?
    ensures Plain(w, run) == CannotStart("guillemets non fermés dans la commande")
  {
  }

  /** Output of the tool, then its result. */
  predicate IsBody(s: seq<Chunk>) {
    && |s| > 0 && s[|s| - 1].Result?
    && forall i :: 0 <= i < |s| - 1 ==> s[i].Stream? || s[i].FileChunk?
  }

  predicate IsOpenGate(s: seq<Chunk>) {
    s == [] || s == [Approval(Some(true))]
  }

  lemma BodyIsSentence(s: seq<Chunk>)
    requires IsBody(s)
    ensures IsSentence(s)
  {
  }

  lemma ApprovedIsSentence(approval: Chunk, s: seq<Chunk>)
    requires IsBody(s) && approval.Approval?
    ensures IsSentence([approval] + s)
  {
    var t := [approval] + s;
    assert forall i :: 0 < i < |t| ==> t[i] == s[i - 1];
  }

  lemma WorkIsBody(cmd: Command, w: World, tree: FileWrite.Tree, sha: seq<byte> -> string)
    ensures IsBody(Work(cmd, w, tree, sha))
  {
    if IsRun(cmd.tool) && cmd.run.Some? {
      var p := if cmd.tool == "run_shell" then w.shell(cmd.run.value) else Plain(w, cmd.run.value);
      if p.Ran? {
        StreamsAreStreams(p.output);
      }
    }
  }

  lemma RefusalIsSentence(p: Policy, said: seq<Chunk>)
    requires !p.Auto? && said == GateMessages(p, false) + [Refused(p)]
    ensures IsSentence(said)
  {
    ApprovedIsSentence(Approval(Some(false)), [Refused(p)]);
  }

  lemma GateThenBody(gate: seq<Chunk>, body: seq<Chunk>)
    requires IsOpenGate(gate) && IsBody(body)
    ensures IsSentence(gate + body)
  {
    BodyIsSentence(body);
    if gate == [] {
      assert gate + body == body;
    } else {
      ApprovedIsSentence(gate[0], body);
    }
  }

  /** Whatever comes in, the answer is one sentence: at most one approval, then output, then one
      result, which is last. */
  lemma ReplyIsSentence(cmd: Command, w: World, tree: FileWrite.Tree, sha: seq<byte> -> string,
                        isDestructive: string -> bool, p: Policy, memory: set<string>, operator: Operator)
    ensures IsSentence(Reply(cmd, w, tree, sha, isDestructive, p, memory, operator))
  {
    WorkIsBody(cmd, w, tree, sha);
    match Gated(cmd, isDestructive)
    case None =>
      BodyIsSentence(Work(cmd, w, tree, sha));
    case Some(description) =>
      var approved := Approves(memory, operator, description);
      if Passes(p, approved) {
        GateThenBody(GateMessages(p, approved), Work(cmd, w, tree, sha));
      } else {
        RefusalIsSentence(p, GateMessages(p, approved) + [Refused(p)]);
      }
  }

  // ----- The executor -----

  class Executor {
    const conn: Conn
    const policy: PolicyController
    const disk: FileWrite.Disk
    const operator: Operator
    const isDestructive: string -> bool
    const sha: seq<byte> -> string
    var alwaysAllowed: set<string>

    constructor (conn: Conn, policy: PolicyController, disk: FileWrite.Disk, operator: Operator,
                 isDestructive: string -> bool, sha: seq<byte> -> string)
      ensures this.conn == conn && this.policy == policy && this.disk == disk && this.operator == operator
      ensures this.isDestructive == isDestructive && this.sha == sha && alwaysAllowed == {}
    {
      this.conn, this.policy, this.disk, this.operator := conn, policy, disk, operator;
      this.isDestructive, this.sha := isDestructive, sha;
      alwaysAllowed := {};
    }

    /** Writes one message of the answer. */
    method Say(r: RequestId, c: Chunk) returns (ok: bool)
      requires conn.Valid()
      modifies conn
      ensures conn.Valid() && conn.attempted == old(conn.attempted) + Tagged(r, [c])
      ensures ok <==> old(conn.WritesLeft()) > 0
      ensures conn.WritesLeft() == if ok then old(conn.WritesLeft()) - 1 else 0
    {
      ok := conn.WriteJson(Wire(Some(r), c));
    }

    /** The same, on top of what has been said already. */
    method SayMore(r: RequestId, c: Chunk, ghost before: seq<Wire>,
                   ghost said: seq<Chunk>) returns (ghost now: seq<Chunk>)
      requires conn.Valid() && conn.attempted == before + Tagged(r, said)
      modifies conn
      ensures conn.Valid() && now == said + [c] && conn.attempted == before + Tagged(r, now)
      ensures conn.WritesLeft() == if old(conn.WritesLeft()) > 0 then old(conn.WritesLeft()) - 1 else 0
    {
      TaggedAppend(r, said, [c]);
      var _ := Say(r, c);
      now := said + [c];
    }

    method SendResult(r: RequestId, exitCode: int, error: string, meta: Meta)
      requires conn.Valid()
      modifies conn
      ensures conn.Valid() && conn.attempted == old(conn.attempted) + Tagged(r, [Final(exitCode, error, meta)])
    {
      var _ := Say(r, Final(exitCode, error, meta));
    }

    /** A command approved with "toujours" is not asked again; otherwise the operator decides. */
    method ResolveApproval(description: string) returns (approved: bool)
      modifies this`alwaysAllowed
      ensures approved == Approves(old(alwaysAllowed), operator, description)
      ensures alwaysAllowed == Remembered(old(alwaysAllowed), operator, description)
    {
      if description in alwaysAllowed {
        return true;
      }
      if operator.None? {
        return false;
      }
      var verdict := operator.value(description);
      if verdict.approved && verdict.always {
        alwaysAllowed := alwaysAllowed + {description};
      }
      approved := verdict.approved;
    }

    /** Applies the policy of the moment. When the answer is no, the result has been sent too. */
    method PassesGuardRail(r: RequestId, description: string) returns (passed: bool, ghost said: seq<Chunk>)
      requires conn.Valid()
      modifies conn, this`alwaysAllowed
      ensures conn.Valid() && conn.attempted == old(conn.attempted) + Tagged(r, said)
      ensures var approved := Approves(old(alwaysAllowed), operator, description);
              && passed == Passes(policy.p, approved)
              && said == GateMessages(policy.p, approved) + if passed then [] else [Refused(policy.p)]
      ensures passed ==> IsOpenGate(said)
      ensures alwaysAllowed == if policy.p.Confirm? then Remembered(old(alwaysAllowed), operator, description)
                               else old(alwaysAllowed)
      ensures conn.WritesLeft() == if |said| <= old(conn.WritesLeft()) then old(conn.WritesLeft()) - |said| else 0
    {
      ghost var before := conn.attempted;
      said, passed := [], true;
      var p := policy.Get();
      match p
      case Deny =>
        said := SayMore(r, Approval(Some(false)), before, said);
        said := SayMore(r, Final(126, "refused_by_policy", NO_META), before, said);
        passed := false;
      case Confirm =>
        var approved := ResolveApproval(description);
        said := SayMore(r, Approval(Some(approved)), before, said);
        if !approved {
          said := SayMore(r, Final(126, "refused_by_user", NO_META), before, said);
          passed := false;
        }
      case Auto =>
    }

    /** The two pumps: each read is sent at once, as text of its own, until a write of that pump fails. */
    method Pump(r: RequestId, output: seq<Output>) returns (ghost said: seq<Chunk>)
      requires conn.Valid()
      modifies conn
      ensures conn.Valid() && conn.attempted == old(conn.attempted) + Tagged(r, said)
      ensures AllStreams(said)
      ensures |output| <= old(conn.WritesLeft()) ==> said == Streams(output)
    {
      said := [];
      var stopped: set<string> := {};
      for i := 0 to |output|
        invariant conn.Valid() && conn.attempted == old(conn.attempted) + Tagged(r, said)
        invariant AllStreams(said)
        invariant i <= old(conn.WritesLeft()) ==>
                    stopped == {} && said == Streams(output[..i]) && conn.WritesLeft() == old(conn.WritesLeft()) - i
      {
        StreamsSnoc(output, i);
        if output[i].stream !in stopped {
          var c := StreamOf(output[i]);
          var ok := Say(r, c);
          TaggedAppend(r, said, [c]);
          said := said + [c];
          if !ok {
            stopped := stopped + {output[i].stream};
          }
        }
      }
      assert output[..|output|] == output;
    }

    method RunAndReport(r: RequestId, p: Process) returns (ghost said: seq<Chunk>)
      requires conn.Valid()
      modifies conn
      ensures conn.Valid() && conn.attempted == old(conn.attempted) + Tagged(r, said) && IsBody(said)
      ensures |ProcessMessages(p)| <= old(conn.WritesLeft()) ==> said == ProcessMessages(p)
    {
      match p
      case CannotStart(error) =>
        SendResult(r, 1, error, NO_META);
        said := [Failure(error)];
      case Ran(output, exitCode, error) =>
        said := Pump(r, output);
        StreamsAreStreams(output);
        SendResult(r, exitCode, error, NO_META);
        TaggedAppend(r, said, [Final(exitCode, error, NO_META)]);
        said := said + [Final(exitCode, error, NO_META)];
    }

    /** `buildPlainCommand`, then the program itself. */
    method RunPlain(w: World, run: Run) returns (p: Process)
      ensures p == Plain(w, run)
    {
      var args := Argv.SplitArgv(run.command);
      if args.None? {
        return CannotStart(UNCLOSED);
      }
      if args.value == [] {
        return CannotStart(EMPTY_COMMAND);
      }
      if !w.isInstalled(args.value[0]) {
        return CannotStart("exécutable introuvable: " + args.value[0]);
      }
      p := w.program(args.value, run.timeout);
    }

    method SystemInfo(r: RequestId, info: Info) returns (ghost said: seq<Chunk>)
      requires conn.Valid()
      modifies conn
      ensures conn.Valid() && conn.attempted == old(conn.attempted) + Tagged(r, said)
      ensures said == match info
                      case Info(json) => [Stream(Some("stdout"), Some(json + "\n")), Final(0, "", NO_META)]
                      case InfoFailed(error) => [Failure(error)]
    {
      match info
      case InfoFailed(error) =>
        SendResult(r, 1, error, NO_META);
        said := [Failure(error)];
      case Info(json) =>
        var c := Stream(Some("stdout"), Some(json + "\n"));
        var _ := Say(r, c);
        SendResult(r, 0, "", NO_META);
        TaggedAppend(r, [c], [Final(0, "", NO_META)]);
        said := [c] + [Final(0, "", NO_META)];
    }

    method ReadFile(r: RequestId, p: FileRead.Params, source: FileRead.Source) returns (ghost said: seq<Chunk>)
      requires conn.Valid()
      modifies conn
      ensures conn.Valid() && conn.attempted == old(conn.attempted) + Tagged(r, said) && IsBody(said)
      ensures |ReadMessages(p, source, sha)| <= old(conn.WritesLeft()) ==> said == ReadMessages(p, source, sha)
    {
      var t; ghost var sent;
      t, sent := FileRead.ReadFileTransfer(p, source, sha, conn, r);
      said := FileRead.ChunksOf(sent);
      var last := match t case Sent(meta) => Final(0, "", meta) case Failed(code) => Failure(code);
      var _ := Say(r, last);
      TaggedAppend(r, said, [last]);
      said := said + [last];
      FileRead.ChunksAreCounted(FileRead.SentBytes(p, source));
    }

    method WriteFile(r: RequestId, p: Write, w: World) returns (ghost said: seq<Chunk>)
      requires conn.Valid() && FileWrite.DirOf(RequestOf(p, w).path) + [w.tmpName] !in disk.tree
      requires FileWrite.DirOf(RequestOf(p, w).path) + [w.tmpName] != RequestOf(p, w).path
      modifies conn, disk
      ensures conn.Valid() && conn.attempted == old(conn.attempted) + Tagged(r, said)
      ensures said == WriteMessages(p.path, FileWrite.Answer(RequestOf(p, w), old(disk.tree), w.faults, sha))
      ensures FileWrite.Leaves(RequestOf(p, w), old(disk.tree), disk.tree, w.faults)
    {
      var o := FileWrite.WriteFileTransfer(disk, RequestOf(p, w), w.faults, w.tmpName, sha);
      said := WriteMessages(p.path, o);
      match o
      case Failed(code) =>
        SendResult(r, 1, code, NO_META);
      case Installed(n, digest) =>
        SendResult(r, 0, "", Meta(Some(p.path), None, Some(digest), None, Some(n)));
    }

    /** What one command does once nothing stands in its way. */
    method DoWork(cmd: Command, w: World) returns (ghost said: seq<Chunk>)
      requires conn.Valid() && TempIsFresh(cmd, w, disk.tree)
      modifies conn, disk
      ensures conn.Valid() && conn.attempted == old(conn.attempted) + Tagged(cmd.requestId, said) && IsBody(said)
      ensures var work := Work(cmd, w, old(disk.tree), sha);
              |work| <= old(conn.WritesLeft()) ==> said == work
      ensures WorkLeaves(cmd, w, old(disk.tree), disk.tree)
    {
      var r := cmd.requestId;
      if IsRun(cmd.tool) {
        said := DoRun(cmd, w);
      } else if cmd.tool == "system_info" {
        said := SystemInfo(r, w.info);
      } else if cmd.tool == "read_file" {
        if cmd.read.None? {
          SendResult(r, 1, "invalid_params", NO_META);
          said := [Failure("invalid_params")];
        } else {
          said := ReadFile(r, cmd.read.value, w.source);
        }
      } else if cmd.tool == "write_file" {
        if cmd.write.None? {
          SendResult(r, 1, "invalid_params", NO_META);
          said := [Failure("invalid_params")];
        } else {
          said := WriteFile(r, cmd.write.value, w);
        }
      } else {
        SendResult(r, 1, "outil inconnu: " + cmd.tool, NO_META);
        said := [Failure("outil inconnu: " + cmd.tool)];
      }
    }

    method DoRun(cmd: Command, w: World) returns (ghost said: seq<Chunk>)
      requires conn.Valid() && IsRun(cmd.tool)
      modifies conn
      ensures conn.Valid() && conn.attempted == old(conn.attempted) + Tagged(cmd.requestId, said) && IsBody(said)
      ensures var work := Work(cmd, w, disk.tree, sha);
              |work| <= old(conn.WritesLeft()) ==> said == work
    {
      var r := cmd.requestId;
      if cmd.run.None? {
        SendResult(r, 1, "params invalides: " + cmd.decodeError, NO_META);
        said := [Failure("params invalides: " + cmd.decodeError)];
      } else if IsBlank(cmd.run.value.command) {
        SendResult(r, 1, "params.command manquant", NO_META);
        said := [Failure("params.command manquant")];
      } else if cmd.tool == "run_shell" {
        said := RunAndReport(r, w.shell(cmd.run.value));
      } else {
        var p := RunPlain(w, cmd.run.value);
        said := RunAndReport(r, p);
      }
    }

    /** One `command` message, from its arrival to its result. */
    method Handle(cmd: Command, w: World) returns (ghost said: seq<Chunk>)
      requires conn.Valid() && TempIsFresh(cmd, w, disk.tree)
      modifies conn, disk, this`alwaysAllowed
      // It is answered with one sentence and nothing else, on whatever connection...
      ensures conn.Valid() && conn.attempted == old(conn.attempted) + Tagged(cmd.requestId, said) && IsSentence(said)
      // ... and with exactly the reply on one that holds.
      ensures var reply := Reply(cmd, w, old(disk.tree), sha, isDestructive, policy.p, old(alwaysAllowed), operator);
              |reply| <= old(conn.WritesLeft()) ==> said == reply
      // Only "toujours", answered now to this very description, is remembered.
      ensures alwaysAllowed ==
              if Gated(cmd, isDestructive).Some? && policy.p.Confirm?
              then Remembered(old(alwaysAllowed), operator, Gated(cmd, isDestructive).value) else old(alwaysAllowed)
      // A write that passed under its description leaves the disk as its install does, at the path
      // and with the payload described; nothing else touches it.
      ensures if && IsWrite(cmd)
                 && var size := Base64.EstimatedLen(cmd.write.value.payload);
                    var description := "write_file " + cmd.write.value.path + " (" + Digits(size) + " octets)";
                    Passes(policy.p, Approves(old(alwaysAllowed), operator, description))
              then FileWrite.Leaves(RequestOf(cmd.write.value, w), old(disk.tree), disk.tree, w.faults)
              else disk.tree == old(disk.tree)
    {
      var gated := Gated(cmd, isDestructive);
      match gated
      case None =>
        said := DoWork(cmd, w);
        BodyIsSentence(said);
      case Some(description) =>
        said := HandleGated(cmd, w, description);
    }

    method HandleGated(cmd: Command, w: World, description: string) returns (ghost said: seq<Chunk>)
      requires conn.Valid() && TempIsFresh(cmd, w, disk.tree)
      modifies conn, disk, this`alwaysAllowed
      ensures conn.Valid() && conn.attempted == old(conn.attempted) + Tagged(cmd.requestId, said) && IsSentence(said)
      ensures var approved := Approves(old(alwaysAllowed), operator, description);
              var reply := Gatekept(policy.p, approved, Work(cmd, w, old(disk.tree), sha));
              |reply| <= old(conn.WritesLeft()) ==> said == reply
      ensures alwaysAllowed == if policy.p.Confirm? then Remembered(old(alwaysAllowed), operator, description)
                               else old(alwaysAllowed)
      ensures if Passes(policy.p, Approves(old(alwaysAllowed), operator, description))
              then WorkLeaves(cmd, w, old(disk.tree), disk.tree) else disk.tree == old(disk.tree)
    {
      var passed; ghost var gate;
      passed, gate := PassesGuardRail(cmd.requestId, description);
      said := gate;
      if passed {
        said := WorkAfter(cmd, w, gate);
      } else {
        RefusalIsSentence(policy.p, gate);
      }
    }

    /** The work of a command that passed; `gate` is what the guard-rail has sent already. */
    method WorkAfter(cmd: Command, w: World, ghost gate: seq<Chunk>) returns (ghost said: seq<Chunk>)
      requires conn.Valid() && TempIsFresh(cmd, w, disk.tree) && IsOpenGate(gate)
      modifies conn, disk
      ensures conn.Valid() && IsSentence(said)
      ensures forall before :: old(conn.attempted) == before + Tagged(cmd.requestId, gate) ==>
                               conn.attempted == before + Tagged(cmd.requestId, said)
      ensures var work := Work(cmd, w, old(disk.tree), sha);
              |work| <= old(conn.WritesLeft()) ==> said == gate + work
      ensures WorkLeaves(cmd, w, old(disk.tree), disk.tree)
    {
      ghost var body := DoWork(cmd, w);
      TaggedAppend(cmd.requestId, gate, body);
      GateThenBody(gate, body);
      said := gate + body;
    }
  }

  predicate IsWrite(cmd: Command) {
    cmd.tool == "write_file" && cmd.write.Some?
  }

  /** What the work of a command makes of the disk. */
  ghost predicate WorkLeaves(cmd: Command, w: World, before: FileWrite.Tree, after: FileWrite.Tree) {
    if IsWrite(cmd) then FileWrite.Leaves(RequestOf(cmd.write.value, w), before, after, w.faults) else after == before
  }

  /** `os.CreateTemp` picks a name that is not taken. */
  predicate TempIsFresh(cmd: Command, w: World, tree: FileWrite.Tree) {
    cmd.write.Some? ==>
      var path := RequestOf(cmd.write.value, w).path;
      FileWrite.DirOf(path) + [w.tmpName] !in tree && FileWrite.DirOf(path) + [w.tmpName] != path
  }
}
