/** The receiving half of `read_file`: relay/mcp_server.py collects the chunks under a cap, sorts
    them by sequence number, decodes each one and builds the tool's answer. */
module FileRelay {
  import opened Common
  import opened Protocol
  import opened Base64
  import FileRead

  const MAX_TRANSFER_CHARS := 8 * 1024 * 1024

  type Piece = (int, string)  // sequence number, base64

  datatype Outcome = Outcome(exitCode: Option<int>, error: Option<string>, meta: Meta)

  /** Base64 characters carried by the chunks. */
  function TotalChars(chunks: seq<Chunk>): nat {
    if chunks == [] then 0
    else TotalChars(chunks[..|chunks| - 1]) + CharsOf(chunks[|chunks| - 1])
  }

  function CharsOf(c: Chunk): nat {
    if c.FileChunk? then |DataOf(c)| else 0
  }

  function DataOf(c: Chunk): string
    requires c.FileChunk?
  {
    match c.base64 case Some(d) => d case None => ""
  }

  /** The pieces the chunks carry; a chunk without a number takes its rank of arrival. */
  function Pieces(chunks: seq<Chunk>): seq<Piece> {
    if chunks == [] then []
    else
      var before, c := Pieces(chunks[..|chunks| - 1]), chunks[|chunks| - 1];
      if c.FileChunk? then
        before + [(match c.seqNo case Some(n) => n case None => |before|, DataOf(c))]
      else before
  }

  /** The last result among the chunks. */
  function LastResult(chunks: seq<Chunk>): Option<Outcome> {
    if chunks == [] then None
    else
      match chunks[|chunks| - 1]
      case Result(x, e, m) => Some(Outcome(x, e, m))
      case _ => LastResult(chunks[..|chunks| - 1])
  }

  /** Consumes what a dispatch yields. `raised` is the protocol error it ended with, if any;
      `taken` is how many chunks were consumed. Going over the cap stops the transfer before the
      chunk in excess is kept, so what is held in memory never exceeds the cap. */
  method DispatchFileTransfer(chunks: seq<Chunk>, raised: Option<string>)
    returns (received: seq<Piece>, outcome: Option<Outcome>, failure: Option<string>, taken: nat)
    ensures taken <= |chunks|
    ensures TotalChars(chunks) > MAX_TRANSFER_CHARS ==>
              && failure == Some("file_too_large")
              && 0 < taken && TotalChars(chunks[..taken]) > MAX_TRANSFER_CHARS
              && TotalChars(chunks[..taken - 1]) <= MAX_TRANSFER_CHARS
              && received == Pieces(chunks[..taken - 1])
    ensures TotalChars(chunks) <= MAX_TRANSFER_CHARS ==>
              && failure == raised && taken == |chunks|
              && received == Pieces(chunks) && outcome == LastResult(chunks)
  {
    received, outcome, failure := [], None, None;
    var size := 0;
    taken := 0;
    assert chunks[..|chunks|] == chunks;
    while taken < |chunks|
      invariant taken <= |chunks|
      invariant received == Pieces(chunks[..taken])
      invariant outcome == LastResult(chunks[..taken])
      invariant size == TotalChars(chunks[..taken]) <= MAX_TRANSFER_CHARS
    {
      var c := chunks[taken];
      taken := taken + 1;
      assert chunks[..taken][..taken - 1] == chunks[..taken - 1];
      match c
      case FileChunk(n, _) =>
        size := size + |DataOf(c)|;
        if size > MAX_TRANSFER_CHARS {
          TotalCharsMonotone(chunks, taken);
          failure := Some("file_too_large");
          return;
        }
        received := received + [(match n case Some(k) => k case None => |received|, DataOf(c))];
      case Result(x, e, m) =>
        outcome := Some(Outcome(x, e, m));
      case _ =>
    }
    failure := raised;
  }

  // ----- Reassembly -----

  /** Stable sort by sequence number. */
  function SortBySeq(s: seq<Piece>): seq<Piece> {
    if s == [] then [] else Insert(SortBySeq(s[..|s| - 1]), s[|s| - 1])
  }

  /** Puts `p` after the last piece whose number is not larger. */
  function Insert(s: seq<Piece>, p: Piece): seq<Piece> {
    if s == [] || s[|s| - 1].0 <= p.0 then s + [p]
    else Insert(s[..|s| - 1], p) + [s[|s| - 1]]
  }

  datatype Decoded =
    | Content(bytes: seq<byte>)
    | Malformed  // binascii.Error, answered as `invalid_base64`
    | NotAscii   // a plain ValueError, which the tool does not catch

  function DecodePiece(text: string): Decoded {
    if exists c <- text :: c as int >= 128 then NotAscii
    else match RelayDecode(text) case Some(b) => Content(b) case None => Malformed
  }

  /** Decodes the pieces one by one, in order, and joins the bytes. */
  function Join(sorted: seq<Piece>): Decoded {
    if sorted == [] then Content([])
    else
      match Join(sorted[..|sorted| - 1])
      case Content(front) =>
        (match DecodePiece(sorted[|sorted| - 1].1)
         case Content(last) => Content(front + last)
         case bad => bad)
      case bad => bad
  }

  function Reassemble(received: seq<Piece>): Decoded {
    Join(SortBySeq(received))
  }

  // ----- The tool -----

  /** What the tool forwards to the client, `None` when it rejects the arguments itself. */
  function ClientParams(path: string, offset: int, maxBytes: Option<int>): Option<FileRead.Params> {
    if (maxBytes.Some? && maxBytes.value <= 0) || offset < 0 then None
    else Some(FileRead.Params(path, offset, match maxBytes case Some(n) => n case None => 0))
  }

  datatype Answer =
    | Error(error: string, exitCode: Option<int>)
    | FileContent(path: string, base64: string, size: int, sha256: string, truncated: bool)
    | Written(path: string, bytesWritten: int, sha256: string)
    | Uncaught

  function NonEmpty(s: Option<string>): bool {
    s.Some? && s.value != ""
  }

  function ReadFileAnswer(path: string, received: seq<Piece>, outcome: Option<Outcome>, failure: Option<string>,
                          sha: seq<byte> -> string): Answer {
    if failure.Some? then Error(failure.value, None)
    else if outcome.Some? && NonEmpty(outcome.value.error) then
      Error(outcome.value.error.value, outcome.value.exitCode)
    else
      match Reassemble(received)
      case Malformed => Error("invalid_base64", None)
      case NotAscii => Uncaught
      case Content(bytes) =>
        var meta := if outcome.Some? then outcome.value.meta else NO_META;
        FileContent(
          if NonEmpty(meta.path) then meta.path.value else path,
          Encode(bytes),
          if meta.size.Some? then meta.size.value else |bytes|,
          if NonEmpty(meta.sha256) then meta.sha256.value else sha(bytes),
          meta.truncated == Some(true))
  }

  /** The relay's part of `read_file`, from the yielded chunks to the answer. */
  method ReadFile(path: string, chunks: seq<Chunk>, raised: Option<string>, sha: seq<byte> -> string)
    returns (answer: Answer)
    ensures answer == Answered(path, chunks, raised, sha)
  {
    var received, outcome, failure, _ := DispatchFileTransfer(chunks, raised);
    answer := ReadFileAnswer(path, received, outcome, failure, sha);
  }

  function Answered(path: string, chunks: seq<Chunk>, raised: Option<string>, sha: seq<byte> -> string): Answer {
    if TotalChars(chunks) > MAX_TRANSFER_CHARS then Error("file_too_large", None)
    else ReadFileAnswer(path, Pieces(chunks), LastResult(chunks), raised, sha)
  }

  /** `content` is what the relay decoded of the payload before it dispatched the write. */
  function WriteFileAnswer(path: string, content: seq<byte>, outcome: Option<Outcome>, failure: Option<string>,
                           sha: seq<byte> -> string): Answer {
    if failure.Some? then Error(failure.value, None)
    else if outcome.Some? && NonEmpty(outcome.value.error) then
      Error(outcome.value.error.value, outcome.value.exitCode)
    else
      var meta := if outcome.Some? then outcome.value.meta else NO_META;
      Written(
        if NonEmpty(meta.path) then meta.path.value else path,
        if meta.bytesWritten.Some? then meta.bytesWritten.value else |content|,
        if NonEmpty(meta.sha256) then meta.sha256.value else sha(content))
  }

  /** The relay's part of `write_file`, likewise. */
  method WriteFile(path: string, content: seq<byte>, chunks: seq<Chunk>, raised: Option<string>,
                   sha: seq<byte> -> string)
    returns (answer: Answer)
    ensures answer == WriteAnswered(path, content, chunks, raised, sha)
  {
    var _, outcome, failure, _ := DispatchFileTransfer(chunks, raised);
    answer := WriteFileAnswer(path, content, outcome, failure, sha);
  }

  function WriteAnswered(path: string, content: seq<byte>, chunks: seq<Chunk>, raised: Option<string>,
                         sha: seq<byte> -> string): Answer {
    if TotalChars(chunks) > MAX_TRANSFER_CHARS then Error("file_too_large", None)
    else WriteFileAnswer(path, content, LastResult(chunks), raised, sha)
  }

  // ----- Lemmas -----

  /** A dispatch that ended with an error of the protocol is answered with it, and one over the cap as
      too large: whatever was yielded before, result included, it is neither content nor written. */
  lemma RaisedIsReported(path: string, content: seq<byte>, chunks: seq<Chunk>, code: string, sha: seq<byte> -> string)
    ensures var reported := if TotalChars(chunks) > 8388608 then "file_too_large" else code;
            && Answered(path, chunks, Some(code), sha) == Error(reported, None)
            && WriteAnswered(path, content, chunks, Some(code), sha) == Error(reported, None)
  {
  }

  /** Over the cap it does not matter how the dispatch ended. */
  lemma TooLargeIsReported(path: string, content: seq<byte>, chunks: seq<Chunk>, raised: Option<string>,
                           sha: seq<byte> -> string)
    requires TotalChars(chunks) > 8388608
    ensures Answered(path, chunks, raised, sha) == Error("file_too_large", None)
    ensures WriteAnswered(path, content, chunks, raised, sha) == Error("file_too_large", None)
  {
  }

  lemma {:induction false} TotalCharsMonotone(chunks: seq<Chunk>, n: nat)
    requires n <= |chunks|
    ensures TotalChars(chunks[..n]) <= TotalChars(chunks)
  {
    if n < |chunks| {
      var front := chunks[..|chunks| - 1];
      TotalCharsMonotone(front, n);
      assert front[..n] == chunks[..n];
    } else {
      assert chunks[..n] == chunks;
    }
  }

  ghost predicate Sorted(s: seq<Piece>) {
    forall i, j :: 0 <= i < j < |s| ==> s[i].0 <= s[j].0
  }

  lemma SortedSnoc(s: seq<Piece>, last: Piece)
    requires Sorted(s) && forall q <- s :: q.0 <= last.0
    ensures Sorted(s + [last])
  {
    assert forall i :: 0 <= i < |s| ==> s[i] in s;
  }

  lemma {:induction false} InsertSorts(s: seq<Piece>, p: Piece)
    requires Sorted(s)
    ensures Sorted(Insert(s, p)) && multiset(Insert(s, p)) == multiset(s) + multiset{p}
    ensures forall q <- Insert(s, p) :: q == p || q in s
  {
    if s != [] && s[|s| - 1].0 > p.0 {
      var front, last := s[..|s| - 1], s[|s| - 1];
      InsertSorts(front, p);
      assert s == front + [last];
      SortedSnoc(Insert(front, p), last);
    }
  }

  /** Sorting gives an ordered permutation of the pieces. */
  lemma {:induction false} SortSorts(s: seq<Piece>)
    ensures Sorted(SortBySeq(s)) && multiset(SortBySeq(s)) == multiset(s)
  {
    if s != [] {
      var front, last := s[..|s| - 1], s[|s| - 1];
      SortSorts(front);
      InsertSorts(SortBySeq(front), last);
      assert s == front + [last];
    }
  }

  lemma {:induction false} InsertStable(s: seq<Piece>, p: Piece, k: int)
    ensures Filter((q: Piece) => q.0 == k, Insert(s, p)) ==
            Filter((q: Piece) => q.0 == k, s) + (if p.0 == k then [p] else [])
  {
    var same := (q: Piece) => q.0 == k;
    if s == [] || s[|s| - 1].0 <= p.0 {
      FilterSnoc(same, s, p);
    } else {
      var front, last := s[..|s| - 1], s[|s| - 1];
      InsertStable(front, p, k);
      FilterSnoc(same, Insert(front, p), last);
      FilterSnoc(same, front, last);
      assert s == front + [last];
    }
  }

  /** The sort is stable: pieces that share a number keep their order of arrival. */
  lemma {:induction false} SortStable(s: seq<Piece>, k: int)
    ensures Filter((q: Piece) => q.0 == k, SortBySeq(s)) == Filter((q: Piece) => q.0 == k, s)
  {
    if s != [] {
      var front, last := s[..|s| - 1], s[|s| - 1];
      SortStable(front, k);
      InsertStable(SortBySeq(front), last, k);
      FilterSnoc((q: Piece) => q.0 == k, front, last);
      assert s == front + [last];
    }
  }

  ghost predicate StrictlySorted(s: seq<Piece>) {
    forall i, j :: 0 <= i < j < |s| ==> s[i].0 < s[j].0
  }

  lemma LastIsLargest(s: seq<Piece>, x: Piece)
    requires Sorted(s) && x in s
    ensures x.0 <= s[|s| - 1].0
    ensures StrictlySorted(s) && x.0 == s[|s| - 1].0 ==> x == s[|s| - 1]
  {
  }

  lemma DropLast(s: seq<Piece>)
    requires s != []
    ensures multiset(s[..|s| - 1]) == multiset(s) - multiset{s[|s| - 1]}
  {
    assert s == s[..|s| - 1] + [s[|s| - 1]];
  }

  lemma SameLast(a: seq<Piece>, b: seq<Piece>)
    requires Sorted(a) && StrictlySorted(b) && multiset(a) == multiset(b) && a != [] && b != []
    ensures a[|a| - 1] == b[|b| - 1]
  {
    var x, y := a[|a| - 1], b[|b| - 1];
    assert x in multiset(b) && y in multiset(a);
    LastIsLargest(a, y);
    LastIsLargest(b, x);
  }

  lemma {:induction false} OrderedIsUnique(a: seq<Piece>, b: seq<Piece>)
    requires Sorted(a) && StrictlySorted(b) && multiset(a) == multiset(b)
    ensures a == b
  {
    assert |a| == |multiset(a)| == |multiset(b)| == |b|;
    if a != [] {
      SameLast(a, b);
      DropLast(a);
      DropLast(b);
      OrderedIsUnique(a[..|a| - 1], b[..|b| - 1]);
    }
  }

  /** Whatever the order of arrival, pieces with distinct numbers are put back in order. */
  lemma SortRestores(arrived: seq<Piece>, inOrder: seq<Piece>)
    requires StrictlySorted(inOrder) && multiset(arrived) == multiset(inOrder)
    ensures SortBySeq(arrived) == inOrder
  {
    SortSorts(arrived);
    OrderedIsUnique(SortBySeq(arrived), inOrder);
  }
}
