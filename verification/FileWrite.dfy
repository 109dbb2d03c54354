/** `write_file` on the client (client/filetransfer.go): the payload goes to a temporary file in
    the target's directory, which is then renamed onto the target. */
module FileWrite {
  import opened Common
  import opened Base64
  import FileRead

  const TEMP_PERM := 384     // 0600, what CreateTemp gives
  const DEFAULT_PERM := 420  // 0644

  type OsError = FileRead.OsError

  /** A path by its components; the empty path is the blank one, which is refused. */
  type Path = seq<string>

  /** Where a path that is not blank leads. */
  type Place = p: Path | p != [] witness [""]

  datatype Node = Dir | File(content: seq<byte>, perm: int)

  type Tree = map<Path, Node>

  /** What goes wrong in this run, and with which error where the client tells errors apart. `mkdir`
      says how many levels MkdirAll gets through, `write` how many bytes the write gets through. */
  datatype Faults = Faults(stat: bool, mkdir: Option<(nat, OsError)>, create: Option<OsError>,
                           write: Option<(nat, OsError)>, sync: Option<OsError>, close: Option<OsError>,
                           chmod: bool, rename: Option<OsError>)

  datatype Request = Request(path: Path, payload: string, mode: Option<int>, createDirs: bool, overwrite: bool)

  datatype Outcome = Installed(bytesWritten: nat, sha256: string) | Failed(code: string)

  function At(t: Tree, p: Path): Option<Node> {
    if p in t then Some(t[p]) else None
  }

  function DirOf(p: Path): Path {
    if p == [] then [] else p[..|p| - 1]
  }

  predicate IsDir(t: Tree, p: Path) {
    p == [] || At(t, p) == Some(Dir)
  }

  /** `b` is `a` with, perhaps, some of the directories above `p` created. */
  ghost predicate OnlyDirsAdded(a: Tree, b: Tree, p: Path) {
    && (forall q :: q in a ==> At(b, q) == At(a, q))
    && (forall q :: q in b && q !in a ==> b[q] == Dir && q < p)
  }

  /** The disk, and every state it went through. */
  class Disk {
    var tree: Tree
    ghost var states: seq<Tree>

    constructor (tree: Tree)
      ensures this.tree == tree && states == [tree]
    {
      this.tree := tree;
      states := [tree];
    }

    method Put(p: Path, n: Node)
      modifies this
      ensures tree == old(tree)[p := n] && states == old(states) + [tree]
    {
      tree := tree[p := n];
      states := states + [tree];
    }

    method Remove(p: Path)
      modifies this
      ensures tree == old(tree) - {p} && states == old(states) + [tree]
    {
      tree := tree - {p};
      states := states + [tree];
    }

    /** The atomic step: the target takes the temporary's node in one move. */
    method Rename(from: Path, to: Path)
      requires from in tree
      modifies this
      ensures tree == (old(tree) - {from})[to := old(tree)[from]] && states == old(states) + [tree]
    {
      tree := (tree - {from})[to := tree[from]];
      states := states + [tree];
    }
  }

  /** Why a temporary cannot be created under `dir`: something above is missing, or is a file. */
  function DirError(t: Tree, dir: Path): (code: string)
    ensures code != ""
  {
    if dir == [] then "io_error"
    else if IsDir(t, DirOf(dir)) then (if At(t, dir).None? then "file_not_found" else "io_error")
    else DirError(t, DirOf(dir))
  }

  /** The checks made on the request and the target before the disk is touched. */
  function Refusal(q: Request, t: Tree, statFails: bool): Option<string> {
    if q.path == [] then Some("invalid_params")
    else
      match DecodeSkippingNewlines(q.payload)
      case None => Some("invalid_base64")
      case Some(content) =>
        if |content| > FileRead.MAX_TRANSFER_BYTES then Some("file_too_large")
        else if statFails || q.path !in t then None
        else if t[q.path] == Dir then Some("is_a_directory")
        else if !q.overwrite then Some("file_exists")
        else None
  }

  /** What the target becomes: the decoded bytes, with the requested permissions, else the ones it
      had, else the default; a failing chmod leaves the temporary's own. */
  function NewNode(q: Request, t: Tree, f: Faults): Node
    requires Refusal(q, t, f.stat).None?
  {
    var content := DecodeSkippingNewlines(q.payload).value;
    File(content,
         if f.chmod then TEMP_PERM
         else if q.mode.Some? then q.mode.value
         else if !f.stat && q.path in t then t[q.path].perm
         else DEFAULT_PERM)
  }

  /** MkdirAll can only go through directories. */
  predicate CanMakeDirs(t: Tree, dir: Path, fault: Option<(nat, OsError)>) {
    && (forall i :: 0 < i <= |dir| ==> At(t, dir[..i]).None? || t[dir[..i]] == Dir)
    && (fault.None? || fault.value.0 >= |dir|)
  }

  /** Why it stops, level by level from number `i` on: the fault, or a file in the way. */
  function MkdirFailure(t: Tree, dir: Path, i: nat, fault: Option<(nat, OsError)>): Option<string>
    requires i <= |dir|
    decreases |dir| - i
  {
    if i == |dir| then None
    else if fault.Some? && fault.value.0 == i then Some(FileRead.CodeOf(fault.value.1))
    else if At(t, dir[..i + 1]).Some? && t[dir[..i + 1]].File? then Some("io_error")
    else MkdirFailure(t, dir, i + 1, fault)
  }

  lemma {:induction false} MkdirStops(t: Tree, dir: Path, i: nat, fault: Option<(nat, OsError)>)
    requires i <= |dir|
    ensures MkdirFailure(t, dir, i, fault).None? <==>
            && (forall j :: i < j <= |dir| ==> At(t, dir[..j]).None? || t[dir[..j]] == Dir)
            && (fault.None? || !(i <= fault.value.0 < |dir|))
    decreases |dir| - i
  {
    if i < |dir| {
      MkdirStops(t, dir, i + 1, fault);
    }
  }

  /** What stops the temporary from being filled. */
  function FillFailure(f: Faults): Option<OsError> {
    if f.write.Some? then Some(f.write.value.1) else if f.sync.Some? then f.sync else f.close
  }

  /** The install goes through exactly under these circumstances. */
  predicate Succeeds(q: Request, t: Tree, f: Faults) {
    && Refusal(q, t, f.stat).None?
    && (if q.createDirs then CanMakeDirs(t, DirOf(q.path), f.mkdir) else IsDir(t, DirOf(q.path)))
    && f.create.None? && f.write.None? && f.sync.None? && f.close.None? && f.rename.None?
    && At(t, q.path) != Some(Dir)
  }

  /** The error code of the first step that fails. The rename looks at the target first, and refuses
      to replace a directory that stat could not see. */
  function FailureOf(q: Request, t: Tree, f: Faults): Option<string> {
    var dir := DirOf(q.path);
    var blocked := if q.createDirs then MkdirFailure(t, dir, 0, f.mkdir) else None;
    if blocked.Some? then blocked
    else if f.create.Some? then Some(FileRead.CodeOf(f.create.value))
    else if !q.createDirs && !IsDir(t, dir) then Some(DirError(t, dir))
    else if FillFailure(f).Some? then Some(FileRead.CodeOf(FillFailure(f).value))
    else if At(t, q.path) == Some(Dir) then Some("file_exists")
    else if f.rename.Some? then Some(FileRead.CodeOf(f.rename.value))
    else None
  }

  lemma SucceedsExactly(q: Request, t: Tree, f: Faults)
    requires Refusal(q, t, f.stat).None?
    ensures FailureOf(q, t, f).None? <==> Succeeds(q, t, f)
  {
    MkdirStops(t, DirOf(q.path), 0, f.mkdir);
  }

  /** What the client answers. */
  function Answer(q: Request, t: Tree, f: Faults, sha: seq<byte> -> string): Outcome {
    if Refusal(q, t, f.stat).Some? then Failed(Refusal(q, t, f.stat).value)
    else if FailureOf(q, t, f).Some? then Failed(FailureOf(q, t, f).value)
    else
      var content := DecodeSkippingNewlines(q.payload).value;
      Installed(|content|, sha(content))
  }

  /** Level `i` of `dir` is where the directories end. */
  ghost predicate IsBadLevel(t: Tree, dir: Path, i: nat) {
    && 0 < i <= |dir| && IsDir(t, dir[..i - 1])
    && forall k :: i <= k <= |dir| ==> !IsDir(t, dir[..k])
  }

  lemma {:induction false} DirErrorTells(t: Tree, dir: Path) returns (i: nat)
    requires !IsDir(t, dir)
    ensures IsBadLevel(t, dir, i)
    ensures DirError(t, dir) == if dir[..i] in t then "io_error" else "file_not_found"
  {
    var up := DirOf(dir);
    assert dir[..|dir|] == dir;
    if IsDir(t, up) {
      i := |dir|;
    } else {
      i := DirErrorTells(t, up);
      assert forall k :: 0 <= k <= |up| ==> up[..k] == dir[..k];
    }
  }

  /** What stands behind an error code: a step that met that error, or the state of the disk. */
  ghost predicate IsCause(q: Request, t: Tree, f: Faults, code: string) {
    var dir := DirOf(q.path);
    || (q.createDirs && f.mkdir.Some? && f.mkdir.value.0 < |dir| && IsCodeOf(f.mkdir.value.1, code))
    || (q.createDirs && code == "io_error" && exists i :: 0 < i <= |dir| && IsFileAt(t, dir[..i]))
    || (!q.createDirs && code == "io_error" && exists i: nat :: IsBadLevel(t, dir, i) && dir[..i] in t)
    || (!q.createDirs && code == "file_not_found" && exists i: nat :: IsBadLevel(t, dir, i) && dir[..i] !in t)
    || (exists e :: IsCodeOf(e, code)
                    && (f.create == Some(e) || (f.write.Some? && f.write.value.1 == e) || f.sync == Some(e)
                        || f.close == Some(e) || f.rename == Some(e)))
    || (code == "file_exists" && At(t, q.path) == Some(Dir))
  }

  predicate IsFileAt(t: Tree, p: Path) {
    p in t && t[p].File?
  }

  predicate IsCodeOf(e: OsError, code: string) {
    match e
    case NotFound => code == "file_not_found"
    case NoPermission => code == "permission_denied"
    case AlreadyExists => code == "file_exists"
    case OtherError => code == "io_error"
  }

  lemma {:induction false} MkdirHasCause(t: Tree, dir: Path, i: nat, fault: Option<(nat, OsError)>)
    requires i <= |dir| && MkdirFailure(t, dir, i, fault).Some?
    ensures var code := MkdirFailure(t, dir, i, fault).value;
            || (fault.Some? && fault.value.0 < |dir| && IsCodeOf(fault.value.1, code))
            || (code == "io_error" && exists k :: 0 < k <= |dir| && IsFileAt(t, dir[..k]))
    decreases |dir| - i
  {
    if !(fault.Some? && fault.value.0 == i) {
      if IsFileAt(t, dir[..i + 1]) {
      } else {
        MkdirHasCause(t, dir, i + 1, fault);
      }
    }
  }

  lemma CodeIsCause(q: Request, t: Tree, f: Faults, e: OsError)
    requires f.create == Some(e) || (f.write.Some? && f.write.value.1 == e) || f.sync == Some(e)
             || f.close == Some(e) || f.rename == Some(e)
    ensures IsCause(q, t, f, FileRead.CodeOf(e))
  {
    assert IsCodeOf(e, FileRead.CodeOf(e));
  }

  /** An install that fails after its request was accepted is answered with the code of something that
      did go wrong. */
  lemma FailureHasCause(q: Request, t: Tree, f: Faults, sha: seq<byte> -> string)
    requires Refusal(q, t, f.stat).None? && Answer(q, t, f, sha).Failed?
    ensures IsCause(q, t, f, Answer(q, t, f, sha).code)
  {
    var dir := DirOf(q.path);
    if q.createDirs && MkdirFailure(t, dir, 0, f.mkdir).Some? {
      MkdirHasCause(t, dir, 0, f.mkdir);
    } else if f.create.Some? {
      CodeIsCause(q, t, f, f.create.value);
    } else if !q.createDirs && !IsDir(t, dir) {
      var i := DirErrorTells(t, dir);
    } else if FillFailure(f).Some? {
      CodeIsCause(q, t, f, FillFailure(f).value);
    } else if At(t, q.path) != Some(Dir) {
      CodeIsCause(q, t, f, f.rename.value);
    }
  }

  lemma {:induction false} MkdirHasCode(t: Tree, dir: Path, i: nat, fault: Option<(nat, OsError)>)
    requires i <= |dir|
    ensures MkdirFailure(t, dir, i, fault) != Some("")
    decreases |dir| - i
  {
    if i < |dir| {
      MkdirHasCode(t, dir, i + 1, fault);
    }
  }

  /** Whatever fails has its code. */
  lemma FailureHasCode(q: Request, t: Tree, f: Faults, sha: seq<byte> -> string)
    ensures Answer(q, t, f, sha) != Failed("")
  {
    MkdirHasCode(t, DirOf(q.path), 0, f.mkdir);
  }

  method MkdirAll(disk: Disk, dir: Path, fault: Option<(nat, OsError)>, ghost target: Path)
    returns (failure: Option<string>)
    requires dir < target
    modifies disk
    ensures OnlyDirsAdded(old(disk.tree), disk.tree, target)
    ensures old(disk.states) <= disk.states
    ensures forall i :: |old(disk.states)| <= i < |disk.states| ==>
              OnlyDirsAdded(old(disk.tree), disk.states[i], target)
    ensures failure == MkdirFailure(old(disk.tree), dir, 0, fault)
    ensures failure.None? <==> CanMakeDirs(old(disk.tree), dir, fault)
    ensures failure.None? ==> IsDir(disk.tree, dir)
  {
    MkdirStops(disk.tree, dir, 0, fault);
    var i := 0;
    while i < |dir|
      invariant 0 <= i <= |dir|
      invariant OnlyDirsAdded(old(disk.tree), disk.tree, target)
      invariant old(disk.states) <= disk.states
      invariant forall j :: |old(disk.states)| <= j < |disk.states| ==>
                  OnlyDirsAdded(old(disk.tree), disk.states[j], target)
      invariant MkdirFailure(old(disk.tree), dir, 0, fault) == MkdirFailure(old(disk.tree), dir, i, fault)
      invariant forall j :: i < j <= |dir| ==> At(disk.tree, dir[..j]) == At(old(disk.tree), dir[..j])
      invariant IsDir(disk.tree, dir[..i])
    {
      if fault.Some? && fault.value.0 == i {
        return Some(FileRead.CodeOf(fault.value.1));
      }
      var level := dir[..i + 1];
      match At(disk.tree, level) {
        case None =>
          disk.Put(level, Dir);
        case Some(Dir) =>
        case Some(File(_, _)) =>
          return Some("io_error");
      }
      i := i + 1;
    }
    assert dir[..|dir|] == dir;
    failure := None;
  }

  /** The target keeps its old node or has its new one, and every other path that existed is as it
      was: what may be seen at any moment of the install, and after a crash. */
  ghost predicate Intact(before: Tree, now: Tree, target: Path, done: Option<Node>) {
    && (At(now, target) == At(before, target) || (done.Some? && At(now, target) == done))
    && (forall p :: p in before && p != target ==> At(now, p) == At(before, p))
  }

  /** What the install makes of the disk. Success: the target holds the decoded bytes, in a directory,
      and only directories above it are new, if they may be created. Failure: the target is as it was. */
  ghost predicate Leaves(q: Request, before: Tree, after: Tree, f: Faults) {
    if Succeeds(q, before, f) then
      && At(after, q.path) == Some(NewNode(q, before, f)) && IsDir(after, DirOf(q.path))
      && OnlyDirsAdded(before - {q.path}, after - {q.path}, q.path)
      && (!q.createDirs ==> after - {q.path} == before - {q.path})
    else OnlyDirsAdded(before, after, q.path) && (!q.createDirs ==> after == before)
  }

  /** Installs the payload at the target. `tmpName` is the name CreateTemp picked. */
  method WriteFileTransfer(disk: Disk, q: Request, f: Faults, tmpName: string, sha: seq<byte> -> string)
    returns (r: Outcome)
    requires DirOf(q.path) + [tmpName] !in disk.tree && DirOf(q.path) + [tmpName] != q.path
    modifies disk
    ensures r == Answer(q, old(disk.tree), f, sha)
    // A refused request touches nothing.
    ensures Refusal(q, old(disk.tree), f.stat).Some? ==> disk.tree == old(disk.tree) && disk.states == old(disk.states)
    // Then the target is new or as it was, and no temporary is left.
    ensures r.Installed? <==> Succeeds(q, old(disk.tree), f)
    ensures Leaves(q, old(disk.tree), disk.tree, f)
    ensures DirOf(q.path) + [tmpName] !in disk.tree
    // Every state in between.
    ensures old(disk.states) <= disk.states
    ensures forall i :: |old(disk.states)| <= i < |disk.states| ==>
              Intact(old(disk.tree), disk.states[i], q.path,
                     if Refusal(q, old(disk.tree), f.stat).None? then Some(NewNode(q, old(disk.tree), f)) else None)
  {
    var refusal := Refusal(q, disk.tree, f.stat);
    if refusal.Some? {
      return Failed(refusal.value);
    }
    var content := DecodeSkippingNewlines(q.payload).value;
    var node := NewNode(q, disk.tree, f);
    SucceedsExactly(q, disk.tree, f);
    var dir := DirOf(q.path);
    if q.createDirs {
      var failure := MkdirAll(disk, dir, f.mkdir, q.path);
      if failure.Some? {
        return Failed(failure.value);
      }
    }
    if f.create.Some? {
      return Failed(FileRead.CodeOf(f.create.value));
    }
    if !IsDir(disk.tree, dir) {
      return Failed(DirError(disk.tree, dir));
    }
    var tmp := dir + [tmpName];
    r := FillAndRename(disk, q.path, tmp, content, node, f, sha);
  }

  /** From CreateTemp to the rename, cleaning up on any failure. */
  method FillAndRename(disk: Disk, target: Path, tmp: Path, content: seq<byte>, node: Node, f: Faults,
                       sha: seq<byte> -> string)
    returns (r: Outcome)
    requires tmp !in disk.tree && tmp != target
    requires node.File? && node.content == content
    modifies disk
    ensures r == if FillFailure(f).Some? then Failed(FileRead.CodeOf(FillFailure(f).value))
                 else if At(old(disk.tree), target) == Some(Dir) then Failed("file_exists")
                 else if f.rename.Some? then Failed(FileRead.CodeOf(f.rename.value))
                 else Installed(|content|, sha(content))
    ensures disk.tree == if r.Installed? then old(disk.tree)[target := node] else old(disk.tree)
    ensures old(disk.states) <= disk.states
    ensures forall i :: |old(disk.states)| <= i < |disk.states| ==>
              Intact(old(disk.tree), disk.states[i], target, Some(node))
  {
    var failure := FillTemp(disk, target, tmp, content, node, f);
    if failure.Some? {
      r := Failed(FileRead.CodeOf(failure.value));
    } else if At(disk.tree, target) == Some(Dir) {
      r := Failed("file_exists");
    } else if f.rename.Some? {
      r := Failed(FileRead.CodeOf(f.rename.value));
    } else {
      disk.Rename(tmp, target);
      r := Installed(|content|, sha(content));
    }
    if r.Failed? {
      disk.Remove(tmp);
    }
    assert Intact(old(disk.tree), disk.tree, target, Some(node));
  }

  /** Creates the temporary, writes, flushes and closes it, and sets its permissions. */
  method FillTemp(disk: Disk, target: Path, tmp: Path, content: seq<byte>, node: Node, f: Faults)
    returns (failure: Option<OsError>)
    requires tmp !in disk.tree && tmp != target
    requires node.File? && node.content == content
    modifies disk
    ensures failure == FillFailure(f)
    ensures tmp in disk.tree && disk.tree == old(disk.tree)[tmp := disk.tree[tmp]]
    ensures failure.None? ==> disk.tree[tmp] == node
    ensures old(disk.states) <= disk.states
    ensures forall i :: |old(disk.states)| <= i < |disk.states| ==>
              Intact(old(disk.tree), disk.states[i], target, Some(node))
  {
    disk.Put(tmp, File([], TEMP_PERM));
    assert Intact(old(disk.tree), disk.tree, target, Some(node));
    var written := match f.write case Some((k, _)) => (if k < |content| then content[..k] else content)
                                 case None => content;
    disk.Put(tmp, File(written, TEMP_PERM));
    assert Intact(old(disk.tree), disk.tree, target, Some(node));
    failure := FillFailure(f);
    if failure.None? {
      disk.Put(tmp, File(written, node.perm));
      assert Intact(old(disk.tree), disk.tree, target, Some(node));
    }
  }

  // ----- The relay's check before sending -----

  /** The relay decodes the payload with its own decoder, applies the same limit, and forwards the
      text as it came (relay/mcp_server.py). */
  function RelayRefusal(payload: string): Option<string> {
    match RelayDecode(payload)
    case None => Some("invalid_base64")
    case Some(content) => if |content| > FileRead.MAX_TRANSFER_BYTES then Some("file_too_large") else None
  }

  /** The client refuses the payload itself, whatever the target. */
  predicate RefusesContent(payload: string) {
    match DecodeSkippingNewlines(payload)
    case None => true
    case Some(content) => |content| > FileRead.MAX_TRANSFER_BYTES
  }

  lemma {:induction false} PaddingIsEquals(t: string, i: nat)
    requires |t| - Padding(t) <= i < |t|
    ensures t[i] == '='
  {
    if i < |t| - 1 {
      PaddingIsEquals(t[..|t| - 1], i);
    }
  }

  /** What the relay lets through has no line break for the client to skip. */
  lemma AcceptedHasNoNewline(t: string)
    requires Alphabetic(Body(t))
    ensures DecodeSkippingNewlines(t) == Decode(t)
  {
    forall i | 0 <= i < |t|
      ensures t[i] != '\n' && t[i] != '\r'
    {
      if i < |Body(t)| {
        assert Value(Body(t)[i]).Some?;
      } else {
        PaddingIsEquals(t, i);
      }
    }
    FilterAll(c => c != '\n' && c != '\r', t);
  }

  /** A payload the relay lets through is refused by the client for its content exactly when it has
      padding after whole groups; otherwise both read the same bytes in it. */
  lemma RelayLetsThrough(payload: string)
    requires RelayRefusal(payload).None?
    ensures RefusesContent(payload) <==> |Body(payload)| % 4 == 0 && Padding(payload) > 0
    ensures !RefusesContent(payload) ==> DecodeSkippingNewlines(payload) == RelayDecode(payload)
  {
    AcceptedHasNoNewline(payload);
    StrictIsRelayWithoutSurplus(payload);
  }

  /** When the client installs a payload the relay decoded, it installs the bytes the relay decoded. */
  lemma SameContent(payload: string, content: seq<byte>)
    requires RelayDecode(payload) == Some(content) && DecodeSkippingNewlines(payload).Some?
    ensures DecodeSkippingNewlines(payload) == Some(content)
  {
    AcceptedHasNoNewline(payload);
    StrictIsRelayWithoutSurplus(payload);
  }

  /** The relay refuses what it cannot decode and what decodes to more than 8 MiB, and nothing else. */
  lemma RelayRefusesExactly(payload: string)
    ensures RelayRefusal(payload) == Some("invalid_base64") <==> RelayDecode(payload).None?
    ensures RelayRefusal(payload) == Some("file_too_large") <==>
            RelayDecode(payload).Some? && |RelayDecode(payload).value| > 8388608
    ensures RelayRefusal(payload).Some? <==> RelayDecode(payload).None? || |RelayDecode(payload).value| > 8388608
  {
  }

  /** The client refuses a blank path first, then what it cannot decode, then what is too large, before
      it looks at the disk. */
  lemma RefusedUnseen(q: Request, t: Tree, statFails: bool)
    ensures q.path == [] ==> Refusal(q, t, statFails) == Some("invalid_params")
    ensures q.path != [] && DecodeSkippingNewlines(q.payload).None? ==>
              Refusal(q, t, statFails) == Some("invalid_base64")
    ensures q.path != [] && DecodeSkippingNewlines(q.payload).Some?
            && |DecodeSkippingNewlines(q.payload).value| > 8388608 ==>
              Refusal(q, t, statFails) == Some("file_too_large")
  {
  }

  /** So a request that reaches the client is refused for its content, or for its path or its
      target, or goes ahead. */
  lemma RefusalAfterRelay(q: Request, t: Tree, statFails: bool)
    requires q.path != [] && RelayRefusal(q.payload).None?
    ensures Refusal(q, t, statFails) ==
            if |Body(q.payload)| % 4 == 0 && Padding(q.payload) > 0 then Some("invalid_base64")
            else if statFails || q.path !in t then None
            else if t[q.path] == Dir then Some("is_a_directory")
            else if !q.overwrite then Some("file_exists")
            else None
  {
    AcceptedHasNoNewline(q.payload);
    StrictIsRelayWithoutSurplus(q.payload);
  }

  /** Such payloads exist: any whole groups with `=` behind them. The relay reads the bytes in it and
      sends it on, the client answers `invalid_base64`. */
  lemma SurplusPaddingIsRefused(s: seq<byte>, k: nat)
    requires 0 < |s| <= 8388608 && |s| % 3 == 0 && k > 0
    ensures var t := Encode(s) + seq(k, _ => '=');
            RelayDecode(t) == Some(s) && RelayRefusal(t).None? && RefusesContent(t)
  {
    SurplusPadding(s, k);
    RelayLetsThrough(Encode(s) + seq(k, _ => '='));
  }

  /** For instance "AAAA=". */
  lemma OneEqualsTooMany(t: string)
    requires t == "AAAA="
    ensures RelayRefusal(t).None? && RefusesContent(t)
  {
    ThreeZeros();
    assert t == Encode([0, 0, 0]) + seq(1, _ => '=');
    SurplusPaddingIsRefused([0, 0, 0], 1);
  }

  /** Up to the documented 8 MiB, any content survives the trip: encoded by the harness, let
      through by the relay, and exactly what a successful install puts at the target. */
  lemma WriteDelivers(content: seq<byte>, q: Request, t: Tree, f: Faults)
    requires q.payload == Encode(content)
    ensures RelayRefusal(q.payload).None? <==> |content| <= 8388608
    ensures Succeeds(q, t, f) ==> NewNode(q, t, f).content == content
  {
    RelayDecodeEncode(content);
    LenientDecodeEncode(content);
  }
}
