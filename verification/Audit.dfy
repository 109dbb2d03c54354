/** The hash-chained audit log (relay/audit.py), byte by byte: appending, appends that fail part
    way, reopening, verifying. The hash and JSON are functions it is given; of JSON only what
    Lawful says is used. */
module Audit {
  import opened Common
  import Utf8

  datatype Json = Str(s: string) | Other(text: string)

  /** A JSON object. */
  type Fields = map<string, Json>

  /** Sixty-four zeros, the hash before the first record. */
  const GENESIS := Zeros(64)

  function Zeros(n: nat): string {
    if n == 0 then "" else Zeros(n - 1) + "0"
  }

  /** What one line is, leading and trailing blanks aside. */
  datatype Parsed = Blank | Record(fields: Fields) | NotObject | Invalid

  /** `hash` is SHA-256 over a record's canonical text, `text` that text, keys in order, and
      `parse` reads one line. */
  datatype Codec = Codec(hash: Fields -> string, text: Fields -> string, parse: string -> Parsed)

  function Field(f: Fields, key: string): Option<Json> {
    if key in f then Some(f[key]) else None
  }

  // ----- What is taken for granted -----

  /** Nobody finds two records with one hash, or a record that holds its own. */
  ghost predicate IdealHash(j: Codec) {
    && (forall a, b :: j.hash(a) == j.hash(b) ==> a == b)
    && (forall a :: j.hash(a) != GENESIS && j.hash(a) != "" && Field(a, "prev_hash") != Some(Str(j.hash(a))))
  }

  predicate IsEol(c: char) {
    c == '\n' || c == '\r'
  }

  predicate OnOneLine(t: string) {
    forall i :: 0 <= i < |t| ==> !IsEol(t[i])
  }

  /** A record's text is one line that starts with a brace, and reads back as the record. */
  predicate IsReadBack(j: Codec, f: Fields) {
    j.parse(j.text(f)) == Record(f) && j.text(f) != "" && j.text(f)[0] == '{' && OnOneLine(j.text(f))
  }

  ghost predicate ReadsBack(j: Codec) {
    j.parse("") == Blank && forall f {:trigger j.text(f)} :: IsReadBack(j, f)
  }

  /** Every key starts with a small letter, as all the relay's keys do. */
  predicate IsOrdinary(f: Fields) {
    forall key <- f :: key != "" && 'a' <= key[0] <= 'z'
  }

  /** The text of a record or a beginning of it: what one append can leave on a line. */
  ghost predicate IsPiece(j: Codec, t: string) {
    t != "" && exists f :: IsOrdinary(f) && t <= j.text(f)
  }

  ghost predicate ArePieces(j: Codec, pieces: seq<string>) {
    forall i :: 0 <= i < |pieces| ==> IsPiece(j, pieces[i])
  }

  ghost predicate IsTorn(j: Codec, t: string) {
    t != "" && exists f :: t < j.text(f)
  }

  /** No part of a record is JSON, and neither are two pieces in a row: what follows a whole object
      is in excess, and a piece cut short swallows the `{"` of the next one, whose key then stands
      where only punctuation can, or never gets its own closing brace. */
  ghost predicate ScrapsAreInvalid(j: Codec) {
    && (forall t {:trigger IsTorn(j, t)} :: IsTorn(j, t) ==> j.parse(t) == Invalid)
    && (forall pieces {:trigger ArePieces(j, pieces)} ::
          |pieces| >= 2 && ArePieces(j, pieces) ==> j.parse(Concat(pieces)) == Invalid)
  }

  ghost predicate Lawful(j: Codec) {
    IdealHash(j) && ReadsBack(j) && ScrapsAreInvalid(j)
  }

  // ----- Reading -----

  /** The lines of a text; the last one lacks its line break. (A carriage return and a line feed
      end two lines here and one in the program; the one between them is blank.) */
  function Lines(text: string): (lines: seq<string>)
    ensures lines != []
  {
    if text == "" then [""]
    else
      var before, c := Lines(text[..|text| - 1]), text[|text| - 1];
      if IsEol(c) then before + [""] else before[..|before| - 1] + [before[|before| - 1] + [c]]
  }

  function Finished(text: string): seq<string> {
    Lines(text)[..|Lines(text)| - 1]
  }

  function Unfinished(text: string): string {
    Lines(text)[|Lines(text)| - 1]
  }

  /** The hash stored in a record, when it is a non-empty string. */
  function StoredHash(p: Parsed): Option<string> {
    match p
    case Record(f) =>
      (match Field(f, "hash")
       case Some(Str(s)) => if s != "" then Some(s) else None
       case _ => None)
    case _ => None
  }

  function LastHash(j: Codec, lines: seq<string>): string {
    if lines == [] then GENESIS
    else
      match StoredHash(j.parse(lines[|lines| - 1]))
      case Some(s) => s
      case None => LastHash(j, lines[..|lines| - 1])
  }

  lemma NextLastHash(j: Codec, lines: seq<string>, i: nat)
    requires i < |lines|
    ensures LastHash(j, lines[..i + 1]) ==
            match StoredHash(j.parse(lines[i])) case Some(s) => s case None => LastHash(j, lines[..i])
  {
    assert lines[..i + 1][..i] == lines[..i];
  }

  method ReadLastHash(j: Codec, lines: seq<string>) returns (last: string)
    ensures last == LastHash(j, lines)
  {
    last := GENESIS;
    for i := 0 to |lines|
      invariant last == LastHash(j, lines[..i])
    {
      NextLastHash(j, lines, i);
      match j.parse(lines[i])
      case Record(f) =>
        match Field(f, "hash") {
          case Some(Str(s)) =>
            if s != "" {
              last := s;
            }
          case _ =>
        }
      case _ =>
    }
    assert lines[..|lines|] == lines;
  }

  // ----- Verifying -----

  datatype Verdict = Intact(last: string) | Broken | Raises

  /** One record against the hash expected before it. */
  predicate Links(j: Codec, f: Fields, expected: string) {
    && Field(f, "prev_hash") == Some(Str(expected))
    && Field(f, "hash") == Some(Str(j.hash(f - {"hash"})))
  }

  /** One more line. */
  function Judge(j: Codec, before: Verdict, p: Parsed): Verdict {
    match before
    case Intact(expected) =>
      (match p
       case Blank => before
       case Record(f) => if Links(j, f, expected) then Intact(j.hash(f - {"hash"})) else Broken
       case NotObject => Raises
       case Invalid => Broken)
    case _ => before
  }

  function VerdictOn(j: Codec, lines: seq<string>): Verdict {
    if lines == [] then Intact(GENESIS)
    else Judge(j, VerdictOn(j, lines[..|lines| - 1]), j.parse(lines[|lines| - 1]))
  }

  /** What the decoder hands over of an undecodable file before it raises: it works buffer by
      buffer, so some part of the text before the malformed byte. */
  function Seen(file: seq<byte>, ahead: nat): string {
    var text := Utf8.Scan(file).0;
    if ahead <= |text| then text[..ahead] else text
  }

  /** The verdict on a file. True is Intact, false is Broken; it raises on a line that is JSON but
      not an object, and on bytes that are not UTF-8, unless a line seen before them is bad. */
  function Verify(j: Codec, file: seq<byte>, ahead: nat): Verdict {
    match Utf8.Decode(file)
    case Some(text) => VerdictOn(j, Lines(text))
    case None =>
      (match VerdictOn(j, Finished(Seen(file, ahead)))
       case Intact(_) => Raises
       case bad => bad)
  }

  /** `verify_chain`, on a decoder that is `ahead` characters further when it meets a bad byte. */
  method VerifyChain(j: Codec, file: seq<byte>, ahead: nat) returns (v: Verdict)
    ensures v == Verify(j, file, ahead)
  {
    match Utf8.Decode(file)
    case Some(text) =>
      v := CheckLines(j, Lines(text));
    case None =>
      v := CheckLines(j, Finished(Seen(file, ahead)));
      if v.Intact? {
        v := Raises;
      }
  }

  /** Its loop over the lines. */
  method CheckLines(j: Codec, lines: seq<string>) returns (v: Verdict)
    ensures v == VerdictOn(j, lines)
  {
    var expected := GENESIS;
    for i := 0 to |lines|
      invariant VerdictOn(j, lines[..i]) == Intact(expected)
    {
      NextVerdict(j, lines, i);
      match j.parse(lines[i])
      case Blank =>
      case NotObject =>
        VerdictSticks(j, lines, i + 1);
        return Raises;
      case Invalid =>
        VerdictSticks(j, lines, i + 1);
        return Broken;
      case Record(f) =>
        if Field(f, "prev_hash") != Some(Str(expected)) {
          VerdictSticks(j, lines, i + 1);
          return Broken;
        }
        var computed := j.hash(f - {"hash"});
        if Field(f, "hash") != Some(Str(computed)) {
          VerdictSticks(j, lines, i + 1);
          return Broken;
        }
        expected := computed;
    }
    assert lines[..|lines|] == lines;
    v := Intact(expected);
  }

  lemma NextVerdict(j: Codec, lines: seq<string>, i: nat)
    requires i < |lines|
    ensures VerdictOn(j, lines[..i + 1]) == Judge(j, VerdictOn(j, lines[..i]), j.parse(lines[i]))
  {
    assert lines[..i + 1][..i] == lines[..i];
  }

  lemma {:induction false} VerdictSticks(j: Codec, lines: seq<string>, n: nat)
    requires n <= |lines| && !VerdictOn(j, lines[..n]).Intact?
    ensures VerdictOn(j, lines) == VerdictOn(j, lines[..n])
  {
    if n < |lines| {
      assert lines[..|lines| - 1][..n] == lines[..n];
      VerdictSticks(j, lines[..|lines| - 1], n);
    } else {
      assert lines[..n] == lines;
    }
  }

  // ----- Writing -----

  /** What `record` adds to an event: the link to the previous record, then the hash of it all. */
  function Sealed(j: Codec, event: Fields, prev: string): Fields {
    var linked := event["prev_hash" := Str(prev)];
    linked["hash" := Str(j.hash(linked))]
  }

  /** The line of a record. */
  function LineOf(j: Codec, event: Fields, prev: string): string {
    j.text(Sealed(j, event, prev)) + "\n"
  }

  function BytesOf(j: Codec, event: Fields, prev: string): seq<byte> {
    Utf8.Encode(LineOf(j, event, prev))
  }

  function FirstBytes(b: seq<byte>, k: nat): seq<byte> {
    if k <= |b| then b[..k] else b
  }

  /** The file on disk and the process that appends to it. */
  class AuditLog {
    const j: Codec
    var file: seq<byte>
    var prevHash: string

    /** Opens an existing file. Returns false where the constructor raises. */
    method Reopen() returns (ok: bool)
      modifies this`prevHash
      ensures ok <==> Utf8.Decode(file).Some?
      ensures prevHash == if ok then LastHash(j, Lines(Utf8.Decode(file).value)) else old(prevHash)
      ensures Log(file, prevHash, ok) == StepLog(j, Log(file, old(prevHash), true), Restart)
    {
      var text := Utf8.Decode(file);
      if text.None? {
        return false;
      }
      prevHash := ReadLastHash(j, Lines(text.value));
      ok := true;
    }

    /** Appends one record. */
    method Record(event: Fields) returns (entry: Fields)
      modifies this
      ensures entry == Sealed(j, event, old(prevHash))
      ensures file == old(file) + Utf8.Encode(j.text(entry) + "\n")
      ensures Field(entry, "hash") == Some(Str(prevHash))
      ensures Log(file, prevHash, true) == StepLog(j, Log(old(file), old(prevHash), true), Append(event))
    {
      entry := event["prev_hash" := Str(prevHash)];
      var entryHash := j.hash(entry);
      entry := entry["hash" := Str(entryHash)];
      file := file + Utf8.Encode(j.text(entry) + "\n");
      prevHash := entryHash;
    }

    /** An append that fails after `k` bytes: the exception leaves `prevHash` alone. */
    method FailedRecord(event: Fields, k: nat)
      modifies this`file
      ensures Log(file, prevHash, true) == StepLog(j, Log(old(file), prevHash, true), FailedAppend(event, k))
    {
      var entry := event["prev_hash" := Str(prevHash)];
      entry := entry["hash" := Str(j.hash(entry))];
      file := file + FirstBytes(Utf8.Encode(j.text(entry) + "\n"), k);
    }

    constructor (j: Codec)
      ensures this.j == j && file == [] && prevHash == GENESIS
    {
      this.j := j;
      file, prevHash := [], GENESIS;
    }
  }

  // ----- Tampering -----

  function RecordsOf(j: Codec, lines: seq<string>): seq<Fields> {
    if lines == [] then []
    else
      match j.parse(lines[|lines| - 1])
      case Record(f) => RecordsOf(j, lines[..|lines| - 1]) + [f]
      case _ => RecordsOf(j, lines[..|lines| - 1])
  }

  lemma {:induction false} GenesisMeansEmpty(j: Codec, lines: seq<string>)
    requires IdealHash(j) && VerdictOn(j, lines) == Intact(GENESIS)
    ensures RecordsOf(j, lines) == []
  {
    if lines != [] {
      var front := lines[..|lines| - 1];
      if j.parse(lines[|lines| - 1]) == Blank {
        GenesisMeansEmpty(j, front);
      } else {
        assert false;
      }
    }
  }

  lemma SameHashSameFields(j: Codec, f: Fields, g: Fields, before: string, before': string)
    requires IdealHash(j) && Links(j, f, before) && Links(j, g, before') && j.hash(f - {"hash"}) == j.hash(g - {"hash"})
    ensures f == g && before == before'
  {
    var x := f - {"hash"};
    assert x == g - {"hash"};
    assert f == x["hash" := f["hash"]];
    assert g == x["hash" := g["hash"]];
  }

  /** Two logs that both verify and end on the same hash are equal, record for record: an edit, a
      deletion or a reordering anywhere before the last record cannot keep both the verdict and
      the last hash. */
  lemma {:induction false} TamperEvident(j: Codec, a: seq<string>, b: seq<string>)
    requires IdealHash(j) && VerdictOn(j, a).Intact? && VerdictOn(j, a) == VerdictOn(j, b)
    ensures RecordsOf(j, a) == RecordsOf(j, b)
    decreases |a| + |b|
  {
    if a == [] {
      GenesisMeansEmpty(j, b);
    } else if b == [] {
      GenesisMeansEmpty(j, a);
    } else {
      var a', b' := a[..|a| - 1], b[..|b| - 1];
      if j.parse(b[|b| - 1]) == Blank {
        TamperEvident(j, a, b');
      } else if j.parse(a[|a| - 1]) == Blank {
        TamperEvident(j, a', b);
      } else {
        var f, g := j.parse(a[|a| - 1]).fields, j.parse(b[|b| - 1]).fields;
        SameHashSameFields(j, f, g, VerdictOn(j, a').last, VerdictOn(j, b').last);
        TamperEvident(j, a', b');
      }
    }
  }

  /** The same for whole files. */
  lemma TamperEvidentFile(j: Codec, a: seq<byte>, b: seq<byte>, m: nat, n: nat)
    requires IdealHash(j) && Verify(j, a, m).Intact? && Verify(j, a, m) == Verify(j, b, n)
    ensures Utf8.Decode(a).Some? && Utf8.Decode(b).Some?
    ensures RecordsOf(j, Lines(Utf8.Decode(a).value)) == RecordsOf(j, Lines(Utf8.Decode(b).value))
  {
    TamperEvident(j, Lines(Utf8.Decode(a).value), Lines(Utf8.Decode(b).value));
  }

  // ----- A text that grows -----

  lemma LinesSplit(text: string)
    ensures Lines(text) == Finished(text) + [Unfinished(text)]
  {
  }

  /** The verdict and the last hash of a text, from its finished lines and the one that is not. */
  lemma SplitVerdict(j: Codec, text: string)
    ensures VerdictOn(j, Lines(text)) == Judge(j, VerdictOn(j, Finished(text)), j.parse(Unfinished(text)))
    ensures LastHash(j, Lines(text)) ==
            match StoredHash(j.parse(Unfinished(text)))
            case Some(s) => s
            case None => LastHash(j, Finished(text))
  {
  }

  lemma LinesSnoc(text: string, c: char)
    ensures Finished(text + [c]) == if IsEol(c) then Lines(text) else Finished(text)
    ensures Unfinished(text + [c]) == if IsEol(c) then "" else Unfinished(text) + [c]
  {
    assert (text + [c])[..|text|] == text;
  }

  lemma {:induction false} LinesPlain(text: string, t: string)
    requires OnOneLine(t)
    ensures Finished(text + t) == Finished(text) && Unfinished(text + t) == Unfinished(text) + t
  {
    if t == "" {
      assert text + t == text && Unfinished(text) + t == Unfinished(text);
    } else {
      var front, c := t[..|t| - 1], t[|t| - 1];
      LinesPlain(text, front);
      LinesSnoc(text + front, c);
      assert t == front + [c];
      Regroup(text, front, [c]);
      Regroup(Unfinished(text), front, [c]);
    }
  }

  lemma OneMoreChar(text: string, c: char)
    ensures Finished(text) <= Finished(text + [c])
  {
    LinesSnoc(text, c);
    LinesSplit(text);
  }

  lemma PrefixOfPrefix<T>(a: seq<T>, b: seq<T>, c: seq<T>)
    requires a <= b && b <= c
    ensures a <= c
  {
  }

  lemma {:induction false} FinishedGrows(text: string, t: string)
    ensures Finished(text) <= Finished(text + t)
  {
    if t == "" {
      assert text + t == text;
    } else {
      var front, c := t[..|t| - 1], t[|t| - 1];
      FinishedGrows(text, front);
      OneMoreChar(text + front, c);
      assert text + t == (text + front) + [c];
      PrefixOfPrefix(Finished(text), Finished(text + front), Finished(text + t));
    }
  }

  /** A bad line, once finished, is for ever: whatever bytes are appended, and whatever became of
      the file after that line, it never verifies again. */
  lemma DamageIsForEver(j: Codec, file: seq<byte>, more: seq<byte>, ahead: nat)
    requires !VerdictOn(j, Finished(Utf8.Scan(file).0)).Intact?
    ensures !Verify(j, file + more, ahead).Intact?
  {
    var before, after := Utf8.Scan(file).0, Utf8.Scan(file + more).0;
    Utf8.ScanGrows(file, more);
    assert after == before + after[|before|..];
    FinishedGrows(before, after[|before|..]);
    LinesSplit(after);
    assert Lines(after)[..|Finished(before)|] == Finished(before);
    VerdictSticks(j, Lines(after), |Finished(before)|);
  }

  // ----- Runs of records, failed writes and restarts -----

  datatype Op = Append(event: Fields) | FailedAppend(event: Fields, k: nat) | Restart

  /** `running` is false once a restart has raised. */
  datatype Log = Log(file: seq<byte>, prevHash: string, running: bool)

  const NEW_LOG := Log([], GENESIS, true)

  /** What the methods of AuditLog do, on values. */
  function StepLog(j: Codec, s: Log, op: Op): Log {
    match op
    case Append(event) =>
      if s.running then Log(s.file + BytesOf(j, event, s.prevHash), j.hash(event["prev_hash" := Str(s.prevHash)]), true)
      else s
    case FailedAppend(event, k) =>
      if s.running then s.(file := s.file + FirstBytes(BytesOf(j, event, s.prevHash), k)) else s
    case Restart =>
      match Utf8.Decode(s.file)
      case Some(text) => s.(prevHash := LastHash(j, Lines(text)), running := true)
      case None => s.(running := false)
  }

  function RunLog(j: Codec, ops: seq<Op>): Log {
    if ops == [] then NEW_LOG else StepLog(j, RunLog(j, ops[..|ops| - 1]), ops[|ops| - 1])
  }

  /** What the operations so far have made of the log. */
  datatype Health =
    | Clean
    | Unterminated  // the last record is whole but its line break is missing
    | Ahead         // the last record is whole, but the process, told that it failed, does not count it
    | Damaged

  /** Damage is a record cut short, anything written after a missing line break or by a process that
      is behind its file, and an event that brings its own `hash` field. */
  function Progress(j: Codec, s: Log, health: Health, op: Op): Health {
    match op
    case Restart => if health.Ahead? then Clean else health
    case Append(event) => if health.Clean? && "hash" !in event then Clean else Damaged
    case FailedAppend(event, k) =>
      var whole := |BytesOf(j, event, s.prevHash)|;
      if k == 0 then health
      else if !health.Clean? || "hash" in event || k < whole - 1 then Damaged
      else if k == whole - 1 then Unterminated
      else Ahead
  }

  function HealthOf(j: Codec, ops: seq<Op>): Health {
    if ops == [] then Clean
    else Progress(j, RunLog(j, ops[..|ops| - 1]), HealthOf(j, ops[..|ops| - 1]), ops[|ops| - 1])
  }

  // ----- What is on the last line -----

  predicate Holds(j: Codec, text: string) {
    VerdictOn(j, Lines(text)).Intact?
  }

  /** Only pieces of records stand on the unfinished line. */
  ghost predicate IsTracked(j: Codec, text: string) {
    exists pieces :: ArePieces(j, pieces) && Unfinished(text) == Concat(pieces)
  }

  lemma PieceIsPlain(j: Codec, t: string)
    requires ReadsBack(j) && IsPiece(j, t)
    ensures OnOneLine(t)
  {
    var f :| IsOrdinary(f) && t <= j.text(f);
    assert IsReadBack(j, f);
    assert forall i :: 0 <= i < |t| ==> t[i] == j.text(f)[i];
  }

  lemma WholeIsPiece(j: Codec, f: Fields)
    requires ReadsBack(j) && IsOrdinary(f)
    ensures IsPiece(j, j.text(f)) && OnOneLine(j.text(f)) && j.parse(j.text(f)) == Record(f)
  {
    assert IsReadBack(j, f);
  }

  lemma PiecesSnoc(j: Codec, pieces: seq<string>, t: string)
    requires ArePieces(j, pieces) && IsPiece(j, t)
    ensures ArePieces(j, pieces + [t]) && Concat(pieces + [t]) == Concat(pieces) + t
  {
    ConcatSnoc(pieces, t);
  }

  /** One more piece on a line that already holds one is not JSON. */
  lemma PieceOnPieces(j: Codec, text: string, pieces: seq<string>, t: string)
    requires Lawful(j) && ArePieces(j, pieces) && Unfinished(text) == Concat(pieces) && IsPiece(j, t)
    ensures IsTracked(j, text + t)
    ensures pieces != [] || !VerdictOn(j, Finished(text)).Intact? ==> !Holds(j, text + t)
  {
    PieceIsPlain(j, t);
    LinesPlain(text, t);
    PiecesSnoc(j, pieces, t);
    SplitVerdict(j, text + t);
  }

  lemma PieceOnDamage(j: Codec, text: string, t: string)
    requires Lawful(j) && !Holds(j, text) && IsTracked(j, text) && IsPiece(j, t)
    ensures !Holds(j, text + t) && IsTracked(j, text + t)
  {
    var pieces :| ArePieces(j, pieces) && Unfinished(text) == Concat(pieces);
    SplitVerdict(j, text);
    PieceOnPieces(j, text, pieces, t);
  }

  lemma PieceOnRecord(j: Codec, text: string, f: Fields, t: string)
    requires Lawful(j) && IsOrdinary(f) && Unfinished(text) == j.text(f) && IsPiece(j, t)
    ensures !Holds(j, text + t) && IsTracked(j, text + t)
  {
    WholeIsPiece(j, f);
    ConcatSnoc([], j.text(f));
    assert [] + [j.text(f)] == [j.text(f)] && Concat<char>([]) + j.text(f) == j.text(f);
    PieceOnPieces(j, text, [j.text(f)], t);
  }

  lemma PieceOnBlank(j: Codec, text: string, t: string)
    requires Lawful(j) && Unfinished(text) == "" && IsPiece(j, t)
    ensures IsTracked(j, text + t) && Finished(text + t) == Finished(text) && Unfinished(text + t) == t
    ensures IsTorn(j, t) ==> !Holds(j, text + t)
  {
    PieceIsPlain(j, t);
    LinesPlain(text, t);
    PieceOnPieces(j, text, [], t);
    assert "" + t == t;
    SplitVerdict(j, text + t);
  }

  /** The line break changes nothing but that the line is finished. */
  lemma EolOnText(j: Codec, text: string)
    requires ReadsBack(j)
    ensures Finished(text + "\n") == Lines(text) && Unfinished(text + "\n") == ""
    ensures VerdictOn(j, Lines(text + "\n")) == VerdictOn(j, Lines(text)) && IsTracked(j, text + "\n")
    ensures LastHash(j, Lines(text + "\n")) == LastHash(j, Lines(text))
  {
    LinesSnoc(text, '\n');
    SplitVerdict(j, text + "\n");
    assert ArePieces(j, []) && Unfinished(text + "\n") == Concat<char>([]);
  }

  // ----- What is written of a line -----

  /** The bytes of a line by its characters: cut before the line break, after it, or earlier. */
  lemma LineCuts(t: string, k: nat)
    requires k <= |Utf8.Encode(t + "\n")|
    ensures |Utf8.Encode(t + "\n")| == |Utf8.Encode(t)| + 1
    ensures Utf8.EndsAt(t + "\n", |t|, |Utf8.Encode(t)|) && Utf8.EndsAt(t + "\n", |t| + 1, |Utf8.Encode(t)| + 1)
    ensures forall i {:trigger Utf8.EndsAt(t + "\n", i, k)} ::
              Utf8.EndsAt(t + "\n", i, k) && 0 < k < |Utf8.Encode(t)| ==> 0 < i < |t|
  {
    var line := t + "\n";
    Utf8.OneMore(line, |t|);
    assert line[..|t|] == t && line[..|t| + 1] == line;
    forall i | Utf8.EndsAt(line, i, k) && 0 < k < |Utf8.Encode(t)|
      ensures 0 < i < |t|
    {
      if i >= |t| {
        Utf8.Longer(line, |t|, i);
      }
    }
  }

  /** What a cut line does to the text of the file. */
  lemma WriteCut(file: seq<byte>, line: string, k: nat)
    requires Utf8.Decode(file).Some? && k <= |Utf8.Encode(line)|
    ensures Utf8.Decode(file + Utf8.Encode(line)[..k]).Some? <==> Utf8.OnBoundary(line, k)
    ensures forall i {:trigger Utf8.EndsAt(line, i, k)} ::
              Utf8.EndsAt(line, i, k) ==>
                Utf8.Decode(file + Utf8.Encode(line)[..k]) == Some(Utf8.Decode(file).value + line[..i])
  {
    Utf8.DecodeAppend(file, Utf8.Encode(line)[..k]);
    Utf8.CutDecodes(line, k);
    forall i | Utf8.EndsAt(line, i, k)
      ensures Utf8.Decode(Utf8.Encode(line)[..k]) == Some(line[..i])
    {
      Utf8.CutDecodesTo(line, i, k);
    }
  }

  /** Bytes that cannot be read stay so: a line starts with a brace. */
  lemma WriteOnUnreadable(j: Codec, file: seq<byte>, e: Fields, k: nat)
    requires ReadsBack(j) && Utf8.Decode(file).None?
    ensures Utf8.Decode(file + FirstBytes(Utf8.Encode(j.text(e) + "\n"), k)).None?
  {
    assert IsReadBack(j, e);
    var line := j.text(e) + "\n";
    assert line[0] == '{';
    assert Utf8.Encode(line)[0] == Utf8.EncodeChar('{')[0] == 0x7B;
    Utf8.NotMended(file, FirstBytes(Utf8.Encode(line), k));
  }

  // ----- The state of the log -----

  /** What each state of health says of the text. */
  ghost predicate TextMatches(j: Codec, text: string, prevHash: string, health: Health) {
    match health
    case Clean =>
      Unfinished(text) == "" && VerdictOn(j, Lines(text)) == Intact(prevHash) && LastHash(j, Lines(text)) == prevHash
    case Unterminated =>
      Holds(j, text) && exists f :: IsOrdinary(f) && Unfinished(text) == j.text(f)
    case Ahead =>
      && Unfinished(text) == "" && VerdictOn(j, Lines(text)) == Intact(LastHash(j, Lines(text)))
      && LastHash(j, Lines(text)) != prevHash
    case Damaged =>
      !Holds(j, text) && IsTracked(j, text)
  }

  /** A file that cannot be read is damaged too, and one that can has not stopped the relay. */
  ghost predicate Matches(j: Codec, s: Log, health: Health) {
    match Utf8.Decode(s.file)
    case None => health.Damaged?
    case Some(text) => s.running && TextMatches(j, text, s.prevHash, health)
  }

  /** A sealed record links to the hash it was given and no other, unless the event brought a hash
      of its own. */
  lemma SealedLinks(j: Codec, event: Fields, prev: string, expected: string)
    requires IdealHash(j)
    ensures Links(j, Sealed(j, event, prev), expected) <==> expected == prev && "hash" !in event
    ensures "hash" !in event ==> j.hash(Sealed(j, event, prev) - {"hash"}) == j.hash(event["prev_hash" := Str(prev)])
  {
    var linked := event["prev_hash" := Str(prev)];
    var entry := Sealed(j, event, prev);
    if "hash" !in event {
      assert entry - {"hash"} == linked;
    } else {
      assert "hash" in linked && "hash" !in entry - {"hash"};
      assert j.hash(linked) != j.hash(entry - {"hash"});
    }
  }

  lemma SealedIsOrdinary(j: Codec, event: Fields, prev: string)
    requires IsOrdinary(event)
    ensures IsOrdinary(Sealed(j, event, prev))
  {
  }

  /** What a sealed record is worth after a log that ends on `expected`. */
  lemma JudgeSealed(j: Codec, event: Fields, prev: string, expected: string, now: string)
    requires IdealHash(j) && now == j.hash(event["prev_hash" := Str(prev)])
    ensures Judge(j, Intact(expected), Record(Sealed(j, event, prev))) ==
            if expected == prev && "hash" !in event then Intact(now) else Broken
    ensures StoredHash(Record(Sealed(j, event, prev))) == Some(now) && now != prev
  {
    var linked := event["prev_hash" := Str(prev)];
    SealedLinks(j, event, prev, expected);
    assert Field(linked, "prev_hash") == Some(Str(prev));
    assert Field(Sealed(j, event, prev), "hash") == Some(Str(now));
  }

  /** A whole record on a blank line. */
  lemma RecordOnBlank(j: Codec, text: string, entry: Fields, t: string)
    requires Lawful(j) && Unfinished(text) == "" && IsOrdinary(entry) && t == j.text(entry)
    ensures Unfinished(text + t) == t && IsTracked(j, text + t)
    ensures VerdictOn(j, Lines(text + t)) == Judge(j, VerdictOn(j, Lines(text)), Record(entry))
    ensures LastHash(j, Lines(text + t)) ==
            match StoredHash(Record(entry)) case Some(s) => s case None => LastHash(j, Finished(text))
  {
    WholeIsPiece(j, entry);
    PieceOnBlank(j, text, t);
    SplitVerdict(j, text);
    SplitVerdict(j, text + t);
  }

  /** The next record of a log that ends on a blank line and holds. */
  lemma NextOnBlank(j: Codec, text: string, event: Fields, prev: string, t: string, now: string)
    requires Lawful(j) && Unfinished(text) == "" && IsOrdinary(event) && Holds(j, text)
    requires t == j.text(Sealed(j, event, prev)) && now == j.hash(event["prev_hash" := Str(prev)])
    ensures Unfinished(text + t) == t && IsTracked(j, text + t)
    ensures LastHash(j, Lines(text + t)) == now != prev
    ensures VerdictOn(j, Lines(text + t)) ==
            if VerdictOn(j, Lines(text)) == Intact(prev) && "hash" !in event then Intact(now) else Broken
  {
    SealedIsOrdinary(j, event, prev);
    RecordOnBlank(j, text, Sealed(j, event, prev), t);
    JudgeSealed(j, event, prev, VerdictOn(j, Lines(text)).last, now);
  }

  /** A piece of a record, none of it or all of it, short of the line break. */
  lemma PieceMatches(j: Codec, text: string, prev: string, health: Health, event: Fields, i: nat)
    requires Lawful(j) && TextMatches(j, text, prev, health) && IsOrdinary(event)
    requires 0 < i <= |j.text(Sealed(j, event, prev))|
    ensures var t := j.text(Sealed(j, event, prev));
            TextMatches(j, text + t[..i], prev,
                        if !health.Clean? || "hash" in event || i < |t| then Damaged else Unterminated)
  {
    var entry := Sealed(j, event, prev);
    var t := j.text(entry);
    SealedIsOrdinary(j, event, prev);
    assert IsPiece(j, t[..i]);
    match health
    case Damaged =>
      PieceOnDamage(j, text, t[..i]);
    case Unterminated =>
      var f :| IsOrdinary(f) && Unfinished(text) == j.text(f);
      PieceOnRecord(j, text, f, t[..i]);
    case _ =>
      if i < |t| {
        assert IsTorn(j, t[..i]);
        PieceOnBlank(j, text, t[..i]);
      } else {
        assert t[..i] == t;
        SealedIsOrdinary(j, event, prev);
        NextOnBlank(j, text, event, prev, t, j.hash(event["prev_hash" := Str(prev)]));
      }
  }

  /** The whole line. `now` is the hash the process goes on from: the record's, or the one before
      it when it was told that the write failed. */
  lemma LineMatches(j: Codec, text: string, prev: string, health: Health, event: Fields, now: string, done: bool)
    requires Lawful(j) && TextMatches(j, text, prev, health) && IsOrdinary(event)
    requires now == if done then j.hash(event["prev_hash" := Str(prev)]) else prev
    ensures TextMatches(j, text + LineOf(j, event, prev), now,
                        if !health.Clean? || "hash" in event then Damaged else if done then Clean else Ahead)
  {
    var t := j.text(Sealed(j, event, prev));
    assert text + LineOf(j, event, prev) == (text + t) + "\n";
    EolOnText(j, text + t);
    assert IsReadBack(j, Sealed(j, event, prev));
    assert t[..|t|] == t;
    PieceMatches(j, text, prev, health, event, |t|);
    if health.Clean? {
      NextOnBlank(j, text, event, prev, t, j.hash(event["prev_hash" := Str(prev)]));
    }
  }

  // ----- One operation -----

  predicate IsOrdinaryOp(op: Op) {
    op.Restart? || IsOrdinary(op.event)
  }

  lemma WriteLine(file: seq<byte>, line: string)
    requires Utf8.Decode(file).Some?
    ensures Utf8.Decode(file + Utf8.Encode(line)) == Some(Utf8.Decode(file).value + line)
  {
    Utf8.DecodeEncode(line);
    Utf8.DecodeAppend(file, Utf8.Encode(line));
  }

  lemma AppendMatches(j: Codec, s: Log, event: Fields, health: Health)
    requires Lawful(j) && Matches(j, s, health) && IsOrdinary(event) && s.running
    ensures Matches(j, StepLog(j, s, Append(event)), Progress(j, s, health, Append(event)))
  {
    var b, now := BytesOf(j, event, s.prevHash), j.hash(event["prev_hash" := Str(s.prevHash)]);
    if Utf8.Decode(s.file).None? {
      WriteOnUnreadable(j, s.file, Sealed(j, event, s.prevHash), |b|);
      assert FirstBytes(b, |b|) == b;
    } else {
      WriteLine(s.file, LineOf(j, event, s.prevHash));
      LineMatches(j, Utf8.Decode(s.file).value, s.prevHash, health, event, now, true);
    }
  }

  /** An append that fails after `k` bytes, at least one, and the text that gets on the line. */
  lemma CutLine(file: seq<byte>, t: string, k: nat) returns (i: nat)
    requires Utf8.Decode(file).Some? && 0 < k <= |Utf8.Encode(t)|
    ensures |Utf8.Encode(t + "\n")| == |Utf8.Encode(t)| + 1
    ensures var after := Utf8.Decode(file + Utf8.Encode(t + "\n")[..k]);
            && (k == |Utf8.Encode(t)| ==> after.Some?)
            && (after.Some? ==> 0 < i <= |t| && after.value == Utf8.Decode(file).value + t[..i]
                                && (i == |t| <==> k == |Utf8.Encode(t)|))
  {
    var line := t + "\n";
    LineCuts(t, 0);
    LineCuts(t, k);
    WriteCut(file, line, k);
    i := |t|;
    if k == |Utf8.Encode(t)| {
      assert Utf8.EndsAt(line, |t|, k) && line[..|t|] == t[..|t|];
    } else if Utf8.OnBoundary(line, k) {
      i :| Utf8.EndsAt(line, i, k);
      assert line[..i] == t[..i];
    }
  }

  /** The failure came after the last byte. */
  lemma LateFailureMatches(j: Codec, s: Log, event: Fields, k: nat, health: Health)
    requires Lawful(j) && Matches(j, s, health) && IsOrdinary(event) && s.running && Utf8.Decode(s.file).Some?
    requires k >= |BytesOf(j, event, s.prevHash)| > 0
    ensures Matches(j, StepLog(j, s, FailedAppend(event, k)), Progress(j, s, health, FailedAppend(event, k)))
  {
    var b := BytesOf(j, event, s.prevHash);
    WriteLine(s.file, LineOf(j, event, s.prevHash));
    LineMatches(j, Utf8.Decode(s.file).value, s.prevHash, health, event, s.prevHash, false);
    assert FirstBytes(b, k) == b;
  }

  /** It came before. */
  lemma EarlyFailure(j: Codec, s: Log, event: Fields, k: nat, health: Health, t: string, b: seq<byte>)
    requires t == j.text(Sealed(j, event, s.prevHash)) && b == BytesOf(j, event, s.prevHash)
    requires s.running && |b| == |Utf8.Encode(t)| + 1 && 0 < k < |b|
    ensures StepLog(j, s, FailedAppend(event, k)) == s.(file := s.file + b[..k])
    ensures Progress(j, s, health, FailedAppend(event, k)) ==
            if !health.Clean? || "hash" in event || k < |Utf8.Encode(t)| then Damaged else Unterminated
  {
  }

  lemma EarlyFailureMatches(j: Codec, s: Log, event: Fields, k: nat, health: Health, t: string)
    requires Lawful(j) && Matches(j, s, health) && IsOrdinary(event) && s.running && Utf8.Decode(s.file).Some?
    requires t == j.text(Sealed(j, event, s.prevHash)) && 0 < k <= |Utf8.Encode(t)|
    ensures Matches(j, StepLog(j, s, FailedAppend(event, k)), Progress(j, s, health, FailedAppend(event, k)))
  {
    var i := CutLine(s.file, t, k);
    EarlyFailure(j, s, event, k, health, t, Utf8.Encode(t + "\n"));
    if Utf8.Decode(s.file + Utf8.Encode(t + "\n")[..k]).Some? {
      PieceMatches(j, Utf8.Decode(s.file).value, s.prevHash, health, event, i);
    }
  }

  lemma FailedAppendMatches(j: Codec, s: Log, event: Fields, k: nat, health: Health)
    requires Lawful(j) && Matches(j, s, health) && IsOrdinary(event) && s.running && k > 0
    ensures Matches(j, StepLog(j, s, FailedAppend(event, k)), Progress(j, s, health, FailedAppend(event, k)))
  {
    var t := j.text(Sealed(j, event, s.prevHash));
    LineCuts(t, 0);
    if Utf8.Decode(s.file).None? {
      WriteOnUnreadable(j, s.file, Sealed(j, event, s.prevHash), k);
    } else if k > |Utf8.Encode(t)| {
      LateFailureMatches(j, s, event, k, health);
    } else {
      EarlyFailureMatches(j, s, event, k, health, t);
    }
  }

  lemma StepMatches(j: Codec, s: Log, op: Op, health: Health)
    requires Lawful(j) && Matches(j, s, health) && IsOrdinaryOp(op)
    ensures Matches(j, StepLog(j, s, op), Progress(j, s, health, op))
  {
    match op
    case Restart =>
    case Append(event) =>
      if s.running {
        AppendMatches(j, s, event, health);
      }
    case FailedAppend(event, k) =>
      if s.running && k > 0 {
        FailedAppendMatches(j, s, event, k, health);
      } else {
        assert s.file + [] == s.file;
      }
  }

  // ----- Whole runs -----

  /** The log is always in the state its operations make of it. */
  lemma {:induction false} RunMatches(j: Codec, ops: seq<Op>)
    requires Lawful(j) && forall op <- ops :: IsOrdinaryOp(op)
    ensures Matches(j, RunLog(j, ops), HealthOf(j, ops))
  {
    if ops == [] {
      assert ArePieces(j, []);
      assert Lines("") == [""] && Finished("") == [] && Unfinished("") == "";
      SplitVerdict(j, "");
    } else {
      var front := ops[..|ops| - 1];
      RunMatches(j, front);
      StepMatches(j, RunLog(j, front), ops[|ops| - 1], HealthOf(j, front));
    }
  }

  /** A log verifies exactly when nothing in its life damaged it. In particular a log of plain
      records and restarts always verifies, and what the program itself writes never mends one. */
  lemma VerifiesExactly(j: Codec, ops: seq<Op>, file: seq<byte>, ahead: nat)
    requires Lawful(j) && (forall op <- ops :: IsOrdinaryOp(op)) && file == RunLog(j, ops).file
    ensures Verify(j, file, ahead).Intact? <==> HealthOf(j, ops) != Damaged
  {
    RunMatches(j, ops);
    HealthyVerifies(j, RunLog(j, ops), HealthOf(j, ops), ahead);
  }

  /** The write was not cut inside a character. */
  ghost predicate CutsWhole(j: Codec, s: Log, op: Op) {
    op.FailedAppend? && op.k < |BytesOf(j, op.event, s.prevHash)| ==>
      Utf8.OnBoundary(LineOf(j, op.event, s.prevHash), op.k)
  }

  ghost predicate IsWholeAt(j: Codec, ops: seq<Op>, i: nat)
    requires i < |ops|
  {
    CutsWhole(j, RunLog(j, ops[..i]), ops[i])
  }

  ghost predicate EveryCutIsWhole(j: Codec, ops: seq<Op>) {
    forall i {:trigger IsWholeAt(j, ops, i)} :: 0 <= i < |ops| ==> IsWholeAt(j, ops, i)
  }

  lemma SameCut(j: Codec, ops: seq<Op>, front: seq<Op>, i: nat)
    requires i < |front| && front <= ops
    ensures IsWholeAt(j, ops, i) <==> IsWholeAt(j, front, i)
  {
    assert ops[..i] == front[..i];
  }

  lemma LastCut(j: Codec, ops: seq<Op>, front: seq<Op>)
    requires ops != [] && front == ops[..|ops| - 1]
    ensures EveryCutIsWhole(j, ops) <==> EveryCutIsWhole(j, front) && IsWholeAt(j, ops, |front|)
  {
    forall i: nat | i < |front|
      ensures IsWholeAt(j, ops, i) <==> IsWholeAt(j, front, i)
    {
      SameCut(j, ops, front, i);
    }
  }

  lemma StepReadable(j: Codec, s: Log, op: Op)
    requires ReadsBack(j) && (Utf8.Decode(s.file).Some? ==> s.running)
    ensures Utf8.Decode(StepLog(j, s, op).file).Some? <==> Utf8.Decode(s.file).Some? && CutsWhole(j, s, op)
    ensures Utf8.Decode(StepLog(j, s, op).file).Some? ==> StepLog(j, s, op).running
  {
    if !op.Restart? && s.running {
      var b := BytesOf(j, op.event, s.prevHash);
      assert FirstBytes(b, |b|) == b;
      if Utf8.Decode(s.file).None? {
        WriteOnUnreadable(j, s.file, Sealed(j, op.event, s.prevHash), if op.Append? then |b| else op.k);
      } else if op.Append? || op.k >= |b| {
        WriteLine(s.file, LineOf(j, op.event, s.prevHash));
      } else {
        WriteCut(s.file, LineOf(j, op.event, s.prevHash), op.k);
      }
    }
  }

  lemma RunLogSnoc(j: Codec, ops: seq<Op>, op: Op)
    ensures RunLog(j, ops + [op]) == StepLog(j, RunLog(j, ops), op)
  {
    assert (ops + [op])[..|ops|] == ops;
  }

  /** One more operation, after a log `s` that is readable just when all its cuts were whole. */
  lemma RestartStep(j: Codec, s: Log, s': Log, op: Op, whole: bool, whole': bool)
    requires ReadsBack(j) && s' == StepLog(j, s, op) && (whole' <==> whole && CutsWhole(j, s, op))
    requires (Utf8.Decode(s.file).Some? <==> whole) && (whole ==> s.running)
    ensures (Utf8.Decode(s'.file).Some? <==> whole') && (whole' ==> s'.running)
  {
    StepReadable(j, s, op);
  }

  /** The relay can restart exactly when every write that failed stopped between two characters: any
      other leftover is skipped over, that one makes the file unreadable as a whole, for good. */
  lemma {:induction false} RestartExactly(j: Codec, ops: seq<Op>)
    requires ReadsBack(j)
    ensures Utf8.Decode(RunLog(j, ops).file).Some? <==> EveryCutIsWhole(j, ops)
    ensures EveryCutIsWhole(j, ops) ==> RunLog(j, ops).running
  {
    if ops != [] {
      var front, op := ops[..|ops| - 1], ops[|ops| - 1];
      RestartExactly(j, front);
      LastCut(j, ops, front);
      RestartStep(j, RunLog(j, front), RunLog(j, ops), op, EveryCutIsWhole(j, front), EveryCutIsWhole(j, ops));
    }
  }

  /** At any time in its life, then, one cut inside a character keeps the relay from starting. */
  lemma TornWriteBlocksRestart(j: Codec, ops: seq<Op>, torn: Op)
    requires ReadsBack(j) && !CutsWhole(j, RunLog(j, ops), torn)
    ensures !RunLog(j, ops + [torn] + [Restart]).running
  {
    assert (ops + [torn])[..|ops|] == ops;
    LastCut(j, ops + [torn], ops);
    RestartExactly(j, ops + [torn]);
    RunLogSnoc(j, ops + [torn], Restart);
  }

  /** For instance: an append cut one byte into an accented letter. */
  lemma AccentBlocksRestart(j: Codec, ops: seq<Op>, event: Fields, line: string, i: nat, k: nat)
    requires ReadsBack(j) && line == LineOf(j, event, RunLog(j, ops).prevHash)
    requires i < |line| && line[i] == 'é' && k == |Utf8.Encode(line[..i])| + 1
    ensures !RunLog(j, ops + [FailedAppend(event, k)] + [Restart]).running
  {
    Utf8.TornAfter(line, i);
    TornWriteBlocksRestart(j, ops, FailedAppend(event, k));
  }

  /** After a restart the next record continues from the last readable one. */
  lemma NextRecordLinks(j: Codec, ops: seq<Op>, event: Fields, file: seq<byte>, text: string)
    requires file == RunLog(j, ops).file && Utf8.Decode(file) == Some(text)
    ensures RunLog(j, ops + [Restart, Append(event)]).file == file + BytesOf(j, event, LastHash(j, Lines(text)))
  {
    RunLogSnoc(j, ops, Restart);
    RunLogSnoc(j, ops + [Restart], Append(event));
    assert ops + [Restart, Append(event)] == ops + [Restart] + [Append(event)];
  }

  lemma CompletedIsAppended(j: Codec, s: Log, event: Fields, k: nat, b: seq<byte>)
    requires s.running && b == BytesOf(j, event, s.prevHash) && k <= |b|
    ensures StepLog(j, s, FailedAppend(event, k)).file + b[k..] == StepLog(j, s, Append(event)).file
  {
    assert (s.file + b[..k]) + b[k..] == s.file + b;
  }

  lemma HealthyVerifies(j: Codec, s: Log, health: Health, ahead: nat)
    requires Matches(j, s, health)
    ensures Verify(j, s.file, ahead).Intact? <==> health != Damaged
  {
  }

  /** A bad line that is not finished is another matter: somebody who adds the missing bytes of a
      record cut short on a clean log, wherever it was cut, makes the log verify again. */
  lemma CompletionMends(j: Codec, s: Log, event: Fields, k: nat, b: seq<byte>, ahead: nat)
    requires Lawful(j) && Matches(j, s, Clean) && s.running && IsOrdinary(event) && "hash" !in event
    requires b == BytesOf(j, event, s.prevHash) && k <= |b|
    ensures Verify(j, StepLog(j, s, FailedAppend(event, k)).file + b[k..], ahead).Intact?
  {
    AppendMatches(j, s, event, Clean);
    CompletedIsAppended(j, s, event, k, b);
    HealthyVerifies(j, StepLog(j, s, Append(event)), Clean, ahead);
  }
}
