/** What `verify_chain` answers about the logs the relay itself can leave, beyond whether they verify:
    when it answers false and when it raises; and where a restart resumes. */
module AuditVerdict {
  import opened Common
  import opened Audit
  import Utf8

  /** A line feed and a carriage return end a line, and nothing else does. */
  lemma BreaksEndLines(text: string, c: char)
    ensures c == '\n' || c == '\r' ==> Lines(text + [c]) == Lines(text) + [""]
    ensures c != '\n' && c != '\r' ==>
              var lines := Lines(text);
              Lines(text + [c]) == lines[..|lines| - 1] + [lines[|lines| - 1] + [c]]
  {
    LinesSnoc(text, c);
    LinesSplit(text + [c]);
  }

  // ----- The first bad line -----

  /** The record continues from `expected` and carries its own hash. */
  predicate Continues(j: Codec, f: Fields, expected: string) {
    && "prev_hash" in f && f["prev_hash"] == Str(expected)
    && "hash" in f && f["hash"] == Str(j.hash(f - {"hash"}))
  }

  /** After lines that hold, the next one decides: a blank one or a record that continues goes on, a
      line that is JSON but no object raises, and anything else is the end of the chain. */
  lemma LineDecides(j: Codec, lines: seq<string>, i: nat, expected: string)
    requires i < |lines| && VerdictOn(j, lines[..i]) == Intact(expected)
    ensures match j.parse(lines[i])
            case Blank => VerdictOn(j, lines[..i + 1]) == Intact(expected)
            case Record(f) =>
              if Continues(j, f, expected) then VerdictOn(j, lines[..i + 1]) == Intact(j.hash(f - {"hash"}))
              else VerdictOn(j, lines) == Broken
            case NotObject => VerdictOn(j, lines) == Raises
            case Invalid => VerdictOn(j, lines) == Broken
  {
    NextVerdict(j, lines, i);
    if !VerdictOn(j, lines[..i + 1]).Intact? {
      VerdictSticks(j, lines, i + 1);
    }
  }

  // ----- Lines the relay can leave -----

  ghost predicate IsMade(j: Codec, line: string) {
    exists pieces :: ArePieces(j, pieces) && line == Concat(pieces)
  }

  ghost predicate AllMade(j: Codec, lines: seq<string>) {
    forall i {:trigger IsMade(j, lines[i])} :: 0 <= i < |lines| ==> IsMade(j, lines[i])
  }

  /** Such a line is blank, a record, or not JSON. */
  lemma MadeIsNoScalar(j: Codec, line: string)
    requires Lawful(j) && IsMade(j, line)
    ensures !j.parse(line).NotObject?
  {
    var pieces :| ArePieces(j, pieces) && line == Concat(pieces);
    if |pieces| == 1 {
      ConcatSnoc([], pieces[0]);
      assert IsPiece(j, pieces[0]) && [] + [pieces[0]] == pieces && Concat<char>([]) + pieces[0] == pieces[0];
      var f :| IsOrdinary(f) && line <= j.text(f);
      assert IsReadBack(j, f);
      assert line != j.text(f) ==> IsTorn(j, line);
    }
  }

  lemma {:induction false} MadeNeverRaises(j: Codec, lines: seq<string>)
    requires Lawful(j) && AllMade(j, lines)
    ensures !VerdictOn(j, lines).Raises?
  {
    if lines != [] {
      var front, last := lines[..|lines| - 1], lines[|lines| - 1];
      assert IsMade(j, lines[|lines| - 1]);
      assert forall i {:trigger IsMade(j, front[i])} :: 0 <= i < |front| ==> front[i] == lines[i];
      MadeNeverRaises(j, front);
      MadeIsNoScalar(j, last);
    }
  }

  lemma MadeSnoc(j: Codec, front: seq<string>, last: string)
    ensures AllMade(j, front + [last]) <==> AllMade(j, front) && IsMade(j, last)
  {
    var all := front + [last];
    assert all[|front|] == last;
    assert forall i :: 0 <= i < |front| ==> all[i] == front[i];
    if AllMade(j, all) {
      assert IsMade(j, all[|front|]);
      assert forall i {:trigger IsMade(j, front[i])} :: 0 <= i < |front| ==> IsMade(j, all[i]);
    }
  }

  lemma MoreIsMade(j: Codec, line: string, t: string)
    requires IsMade(j, line) && IsPiece(j, t)
    ensures IsMade(j, line + t)
  {
    var pieces :| ArePieces(j, pieces) && line == Concat(pieces);
    PiecesSnoc(j, pieces, t);
  }

  lemma PieceIsMade(j: Codec, text: string, t: string)
    requires ReadsBack(j) && AllMade(j, Lines(text)) && (t == "" || IsPiece(j, t))
    ensures AllMade(j, Lines(text + t))
  {
    if t == "" {
      assert text + t == text;
    } else {
      PieceIsPlain(j, t);
      LinesPlain(text, t);
      LinesSplit(text);
      LinesSplit(text + t);
      MadeSnoc(j, Finished(text), Unfinished(text));
      MoreIsMade(j, Unfinished(text), t);
      MadeSnoc(j, Finished(text), Unfinished(text) + t);
    }
  }

  lemma EolIsMade(j: Codec, text: string)
    requires ReadsBack(j) && AllMade(j, Lines(text))
    ensures AllMade(j, Lines(text + "\n"))
  {
    EolOnText(j, text);
    LinesSplit(text + "\n");
    assert ArePieces(j, []) && Concat<char>([]) == "";
    assert IsMade(j, "");
    MadeSnoc(j, Lines(text), "");
  }

  /** The line of a record, or the beginning of it. */
  lemma CutIsMade(j: Codec, text: string, event: Fields, prev: string, i: nat)
    requires ReadsBack(j) && AllMade(j, Lines(text)) && IsOrdinary(event) && i <= |LineOf(j, event, prev)|
    ensures AllMade(j, Lines(text + LineOf(j, event, prev)[..i]))
  {
    var t, line := j.text(Sealed(j, event, prev)), LineOf(j, event, prev);
    SealedIsOrdinary(j, event, prev);
    if i <= |t| {
      assert line[..i] == t[..i];
      PieceIsMade(j, text, t[..i]);
    } else {
      WholeIsPiece(j, Sealed(j, event, prev));
      PieceIsMade(j, text, t);
      EolIsMade(j, text + t);
      assert text + line[..i] == (text + t) + "\n";
    }
  }

  lemma WholeWriteIsMade(j: Codec, file: seq<byte>, text: string, event: Fields, prev: string)
    requires ReadsBack(j) && IsOrdinary(event) && Utf8.Decode(file) == Some(text) && AllMade(j, Lines(text))
    ensures Utf8.Decode(file + BytesOf(j, event, prev)) == Some(text + LineOf(j, event, prev))
    ensures AllMade(j, Lines(text + LineOf(j, event, prev)))
  {
    var line := LineOf(j, event, prev);
    WriteLine(file, line);
    CutIsMade(j, text, event, prev, |line|);
    assert line[..|line|] == line;
  }

  lemma CutWriteIsMade(j: Codec, file: seq<byte>, text: string, event: Fields, prev: string, k: nat)
    requires ReadsBack(j) && IsOrdinary(event) && Utf8.Decode(file) == Some(text) && AllMade(j, Lines(text))
    requires k < |BytesOf(j, event, prev)| && Utf8.Decode(file + BytesOf(j, event, prev)[..k]).Some?
    ensures AllMade(j, Lines(Utf8.Decode(file + BytesOf(j, event, prev)[..k]).value))
  {
    var line := LineOf(j, event, prev);
    WriteCut(file, line, k);
    var i :| Utf8.EndsAt(line, i, k);
    CutIsMade(j, text, event, prev, i);
  }

  lemma StepFile(j: Codec, s: Log, op: Op)
    requires s.running && !op.Restart?
    ensures var b := BytesOf(j, op.event, s.prevHash);
            StepLog(j, s, op).file == s.file + if op.Append? || op.k >= |b| then b else b[..op.k]
  {
  }

  lemma WriteIsMade(j: Codec, s: Log, op: Op, after: seq<byte>)
    requires ReadsBack(j) && IsOrdinaryOp(op) && s.running && Utf8.Decode(s.file).Some? && !op.Restart?
    requires AllMade(j, Lines(Utf8.Decode(s.file).value)) && after == StepLog(j, s, op).file
    ensures Utf8.Decode(after).Some? ==> AllMade(j, Lines(Utf8.Decode(after).value))
  {
    var text, b := Utf8.Decode(s.file).value, BytesOf(j, op.event, s.prevHash);
    StepFile(j, s, op);
    if op.Append? || op.k >= |b| {
      WholeWriteIsMade(j, s.file, text, op.event, s.prevHash);
    } else if Utf8.Decode(after).Some? {
      CutWriteIsMade(j, s.file, text, op.event, s.prevHash, op.k);
    }
  }

  /** Every line of a readable log the relay has left is pieces of records and nothing else. */
  lemma {:induction false} RunIsMade(j: Codec, ops: seq<Op>)
    requires ReadsBack(j) && forall op <- ops :: IsOrdinaryOp(op)
    requires Utf8.Decode(RunLog(j, ops).file).Some?
    ensures AllMade(j, Lines(Utf8.Decode(RunLog(j, ops).file).value))
  {
    if ops == [] {
      assert Utf8.Decode([]) == Some("") && Lines("") == [""];
      assert ArePieces(j, []) && Concat<char>([]) == "";
      assert IsMade(j, "");
    } else {
      var front, op := ops[..|ops| - 1], ops[|ops| - 1];
      RestartExactly(j, ops);
      LastCut(j, ops, front);
      RestartExactly(j, front);
      RunIsMade(j, front);
      if !op.Restart? {
        WriteIsMade(j, RunLog(j, front), op, RunLog(j, ops).file);
      }
    }
  }

  /** On a log the relay has left, whatever failed and however often it restarted: when the file can be
      read, `verify_chain` never raises, and answers false exactly when the log is damaged; when it
      cannot, it never answers true. */
  lemma VerdictExactly(j: Codec, ops: seq<Op>, file: seq<byte>, ahead: nat)
    requires Lawful(j) && (forall op <- ops :: IsOrdinaryOp(op)) && file == RunLog(j, ops).file
    ensures Utf8.Decode(file).Some? ==>
              && !Verify(j, file, ahead).Raises?
              && (Verify(j, file, ahead).Broken? <==> HealthOf(j, ops) == Damaged)
    ensures Utf8.Decode(file).None? ==> !Verify(j, file, ahead).Intact?
  {
    VerifiesExactly(j, ops, file, ahead);
    if Utf8.Decode(file).Some? {
      RunIsMade(j, ops);
      MadeNeverRaises(j, Lines(Utf8.Decode(file).value));
    }
  }

  lemma PrefixHolds(j: Codec, lines: seq<string>, front: seq<string>)
    requires front <= lines && VerdictOn(j, lines).Intact?
    ensures VerdictOn(j, front).Intact?
  {
    assert lines[..|front|] == front;
    if !VerdictOn(j, front).Intact? {
      VerdictSticks(j, lines, |front|);
    }
  }

  /** On a file that cannot be decoded, `text` being what is readable before its first bad byte: a bad
      line finished among the characters the decoder has handed over decides, and without one before
      the bad byte it raises. */
  lemma UndecodableDecides(j: Codec, file: seq<byte>, text: string, ahead: nat, seen: nat)
    requires Utf8.Decode(file).None? && text == Utf8.Scan(file).0 && seen <= |text|
    ensures seen <= ahead && !VerdictOn(j, Finished(text[..seen])).Intact? ==>
              Verify(j, file, ahead) == VerdictOn(j, Finished(text[..seen]))
    ensures VerdictOn(j, Finished(text)).Intact? ==> Verify(j, file, ahead) == Raises
  {
    var handed := Seen(file, ahead);
    assert text == handed + text[|handed|..];
    FinishedGrows(handed, text[|handed|..]);
    if VerdictOn(j, Finished(text)).Intact? {
      PrefixHolds(j, Finished(text), Finished(handed));
    }
    if seen <= ahead && !VerdictOn(j, Finished(text[..seen])).Intact? {
      assert handed == text[..seen] + handed[seen..];
      FinishedGrows(text[..seen], handed[seen..]);
      assert Finished(handed)[..|Finished(text[..seen])|] == Finished(text[..seen]);
      VerdictSticks(j, Finished(handed), |Finished(text[..seen])|);
    }
  }

  // ----- Where a restart resumes -----

  /** A record on that line stores a hash: a string that is not empty. */
  predicate Stores(j: Codec, line: string) {
    match j.parse(line)
    case Record(f) => "hash" in f && f["hash"].Str? && f["hash"].s != ""
    case _ => false
  }

  predicate IsLastStored(j: Codec, lines: seq<string>, i: nat) {
    i < |lines| && Stores(j, lines[i]) && forall k :: i < k < |lines| ==> !Stores(j, lines[k])
  }

  /** A restart resumes from the last line that stores a hash, others after it being skipped whatever
      is wrong with them, or from sixty-four zeros when there is none. */
  lemma {:induction false} LastHashIsLast(j: Codec, lines: seq<string>)
    ensures || (exists i: nat :: IsLastStored(j, lines, i)
                                 && Str(LastHash(j, lines)) == j.parse(lines[i]).fields["hash"])
            || (LastHash(j, lines) == seq(64, _ => '0') && forall k :: 0 <= k < |lines| ==> !Stores(j, lines[k]))
  {
    if lines == [] {
      ZerosAre(64);
    } else {
      var front, last := lines[..|lines| - 1], lines[|lines| - 1];
      if Stores(j, last) {
        assert IsLastStored(j, lines, |lines| - 1);
      } else {
        LastHashIsLast(j, front);
        if i: nat :| IsLastStored(j, front, i) && Str(LastHash(j, front)) == j.parse(front[i]).fields["hash"] {
          assert IsLastStored(j, lines, i);
        }
      }
    }
  }

  lemma {:induction false} ZerosAre(n: nat)
    ensures Zeros(n) == seq(n, _ => '0')
  {
    if n > 0 {
      ZerosAre(n - 1);
    }
  }
}
