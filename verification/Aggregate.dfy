/** The relay's aggregator for command tools: `_dispatch_and_aggregate` in relay/mcp_server.py. */
module Aggregate {
  import opened Common
  import opened Protocol

  datatype Answer =
    | Error(code: string)
    | Done(stdout: string, stderr: string, exitCode: Option<int>, error: Option<string>)

  /** The text of one stream, in order; what is not "stderr" counts as stdout. */
  function TextOf(chunks: seq<Chunk>, stderr: bool): string {
    if chunks == [] then ""
    else
      var before, c := TextOf(chunks[..|chunks| - 1], stderr), chunks[|chunks| - 1];
      if c.Stream? && (c.stream == Some("stderr")) == stderr then before + DataOf(c) else before
  }

  function DataOf(c: Chunk): string
    requires c.Stream?
  {
    match c.data case Some(d) => d case None => ""
  }

  /** The last result's exit code and error. */
  function LastOutcome(chunks: seq<Chunk>): Option<(Option<int>, Option<string>)> {
    if chunks == [] then None
    else
      match chunks[|chunks| - 1]
      case Result(x, e, _) => Some((x, e))
      case _ => LastOutcome(chunks[..|chunks| - 1])
  }

  function LastApproval(chunks: seq<Chunk>): Option<bool> {
    if chunks == [] then None
    else
      match chunks[|chunks| - 1]
      case Approval(a) => a
      case _ => LastApproval(chunks[..|chunks| - 1])
  }

  /** The tool's answer to what a dispatch yielded and how it ended. A refusal without a result is
      still reported as one. */
  function Answered(chunks: seq<Chunk>, raised: Option<string>): Answer {
    if raised.Some? then Error(raised.value)
    else
      match LastOutcome(chunks)
      case Some((x, e)) => Done(TextOf(chunks, false), TextOf(chunks, true), x, e)
      case None =>
        Done(TextOf(chunks, false), TextOf(chunks, true), None,
             if LastApproval(chunks) == Some(false) then Some("refused_by_user") else None)
  }

  method DispatchAndAggregate(chunks: seq<Chunk>, raised: Option<string>) returns (answer: Answer)
    ensures answer == Answered(chunks, raised)
  {
    var stdout, stderr := "", "";
    var outcome: Option<(Option<int>, Option<string>)> := None;
    var approved: Option<bool> := None;
    for i := 0 to |chunks|
      invariant stdout == TextOf(chunks[..i], false) && stderr == TextOf(chunks[..i], true)
      invariant outcome == LastOutcome(chunks[..i]) && approved == LastApproval(chunks[..i])
    {
      assert chunks[..i + 1][..i] == chunks[..i];
      match chunks[i]
      case Stream(stream, _) =>
        if stream == Some("stderr") {
          stderr := stderr + DataOf(chunks[i]);
        } else {
          stdout := stdout + DataOf(chunks[i]);
        }
      case Result(x, e, _) => outcome := Some((x, e));
      case Approval(a) => approved := a;
      case FileChunk(_, _) =>
    }
    assert chunks[..|chunks|] == chunks;
    if raised.Some? {
      return Error(raised.value);
    }
    if outcome.None? && approved == Some(false) {
      outcome := Some((None, Some("refused_by_user")));
    }
    match outcome
    case Some((x, e)) => answer := Done(stdout, stderr, x, e);
    case None => answer := Done(stdout, stderr, None, None);
  }

  // ----- Lemmas -----

  lemma {:induction false} TextAppend(a: seq<Chunk>, b: seq<Chunk>, stderr: bool)
    ensures TextOf(a + b, stderr) == TextOf(a, stderr) + TextOf(b, stderr)
  {
    if b == [] {
      assert a + b == a;
    } else {
      var front, last := b[..|b| - 1], b[|b| - 1];
      TextAppend(a, front, stderr);
      assert (a + b)[..|a + b| - 1] == a + front && (a + b)[|a + b| - 1] == last;
      if last.Stream? {
        Regroup(TextOf(a, stderr), TextOf(front, stderr), DataOf(last));
      }
    }
  }

  /** A message without its text counts as one with an empty text. */
  lemma NoTextIsEmpty(chunks: seq<Chunk>, stream: Option<string>, stderr: bool)
    ensures TextOf(chunks + [Stream(stream, None)], stderr) == TextOf(chunks, stderr)
  {
    assert (chunks + [Stream(stream, None)])[..|chunks|] == chunks;
    assert TextOf(chunks, stderr) + "" == TextOf(chunks, stderr);
  }

  /** An error of the protocol is all that is told, whatever was yielded before. */
  lemma RaisedIsReported(chunks: seq<Chunk>, code: string)
    ensures Answered(chunks, Some(code)) == Error(code)
  {
  }

  lemma {:induction false} StreamsDecideNothing(chunks: seq<Chunk>, more: seq<Chunk>)
    requires forall c <- more :: c.Stream? || c.FileChunk?
    ensures LastOutcome(chunks + more) == LastOutcome(chunks) && LastApproval(chunks + more) == LastApproval(chunks)
  {
    if more == [] {
      assert chunks + more == chunks;
    } else {
      StreamsDecideNothing(chunks, more[..|more| - 1]);
      assert (chunks + more)[..|chunks + more| - 1] == chunks + more[..|more| - 1];
    }
  }

  /** An answer without a result: a refusal that is not taken back counts as `refused_by_user`, and
      anything else as done, with nothing said of how. */
  lemma NoResultIsReported(before: seq<Chunk>, approved: Option<bool>, after: seq<Chunk>)
    requires LastOutcome(before) == None && forall c <- after :: c.Stream? || c.FileChunk?
    ensures var all := before + [Approval(approved)] + after;
            Answered(all, None) == Done(TextOf(all, false), TextOf(all, true), None,
                                        if approved == Some(false) then Some("refused_by_user") else None)
  {
    StreamsDecideNothing(before + [Approval(approved)], after);
    assert (before + [Approval(approved)])[..|before|] == before;
  }

  lemma NoTextInResult(chunks: seq<Chunk>, result: Chunk, stderr: bool)
    requires result.Result?
    ensures TextOf(chunks + [result], stderr) == TextOf(chunks, stderr)
  {
    assert (chunks + [result])[..|chunks|] == chunks;
  }

  /** A result that comes last is the outcome, and adds no text. */
  lemma ResultDecides(chunks: seq<Chunk>, result: Chunk)
    requires result.Result?
    ensures Answered(chunks + [result], None) ==
            Done(TextOf(chunks, false), TextOf(chunks, true), result.exitCode, result.error)
  {
    assert (chunks + [result])[..|chunks|] == chunks;
  }
}
