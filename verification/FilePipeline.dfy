/** `read_file` end to end: the client's chunks, in whatever order they reach the relay, and the
    answer the tool gives. Then repeated reads: on the client alone they recover a file of any size,
    through the relay exactly when each of them fits under its cap. */
module FilePipeline {
  import opened Common
  import opened Protocol
  import opened Base64
  import opened FileRead
  import opened FileRelay
  import opened Unicode

  /** The largest transfer that fits under the relay's cap, which counts base64 characters. */
  const LARGEST_READ := 6 * 1024 * 1024

  // ----- What the chunks weigh -----

  lemma TotalCharsAppend(a: seq<Chunk>, b: seq<Chunk>)
    ensures TotalChars(a + b) == TotalChars(a) + TotalChars(b)
  {
    if b == [] {
      assert a + b == a;
    } else {
      TotalCharsAppend(a, b[..|b| - 1]);
      assert (a + b)[..|a + b| - 1] == a + b[..|b| - 1];
    }
  }

  /** The chunk messages of a list of base64 texts, numbered from zero. */
  function Numbered(texts: seq<string>): (chunks: seq<Chunk>)
    ensures |chunks| == |texts|
    ensures forall i :: 0 <= i < |texts| ==> chunks[i] == FileChunk(Some(i), Some(texts[i]))
  {
    seq(|texts|, i requires 0 <= i < |texts| => FileChunk(Some(i), Some(texts[i])))
  }

  function Texts(slices: seq<seq<byte>>): seq<string> {
    if slices == [] then [] else [Encode(slices[0])] + Texts(slices[1..])
  }

  lemma {:induction false} TextsAt(slices: seq<seq<byte>>, i: nat)
    requires i < |slices|
    ensures |Texts(slices)| == |slices| && Texts(slices)[i] == Encode(slices[i])
  {
    if i > 0 {
      TextsAt(slices[1..], i - 1);
    } else if |slices| > 1 {
      TextsAt(slices[1..], 0);
    }
  }

  lemma FullChunkWeight(head: seq<byte>)
    requires |head| == CHUNK_BYTES
    ensures |Encode(head)| == CHUNK_BYTES / 3 * 4
  {
    EncodeLength(head);
  }

  lemma WeightSplits(n: nat)
    requires n >= CHUNK_BYTES
    ensures (n + 2) / 3 * 4 == CHUNK_BYTES / 3 * 4 + (n - CHUNK_BYTES + 2) / 3 * 4
  {
  }

  /** Characters of the texts together. */
  function Weigh(texts: seq<string>): nat {
    if texts == [] then 0 else |texts[0]| + Weigh(texts[1..])
  }

  lemma {:induction false} WeighSnoc(texts: seq<string>, last: string)
    ensures Weigh(texts + [last]) == Weigh(texts) + |last|
  {
    if texts == [] {
      assert texts + [last] == [last];
    } else {
      WeighSnoc(texts[1..], last);
      assert (texts + [last])[1..] == texts[1..] + [last];
    }
  }

  lemma {:induction false} SlicesWeigh(s: seq<byte>)
    ensures Weigh(Texts(Slices(s))) == (|s| + 2) / 3 * 4
  {
    if s == [] {
    } else if |s| <= CHUNK_BYTES {
      EncodeLength(s);
      assert Texts([s]) == [Encode(s)];
    } else {
      var head, tail := s[..CHUNK_BYTES], s[CHUNK_BYTES..];
      SlicesWeigh(tail);
      assert Slices(s)[1..] == Slices(tail);
      assert Texts(Slices(s))[1..] == Texts(Slices(tail));
      FullChunkWeight(head);
      WeightSplits(|s|);
    }
  }

  lemma {:induction false} NumberedWeight(texts: seq<string>)
    ensures TotalChars(Numbered(texts)) == Weigh(texts)
  {
    if texts != [] {
      var front, last := texts[..|texts| - 1], texts[|texts| - 1];
      NumberedWeight(front);
      WeighSnoc(front, last);
      assert texts == front + [last];
      assert Numbered(texts)[..|texts| - 1] == Numbered(front);
    }
  }

  lemma ChunksAreNumbered(s: seq<byte>)
    ensures ChunksOf(s) == Numbered(Texts(Slices(s)))
  {
    var slices := Slices(s);
    assert |Texts(slices)| == |slices| by {
      if slices != [] {
        TextsAt(slices, 0);
      }
    }
    forall i | 0 <= i < |slices|
      ensures Texts(slices)[i] == Encode(slices[i])
    {
      TextsAt(slices, i);
    }
  }

  /** Chunks are cut on multiples of three bytes, so together they weigh what one single encoding
      of the bytes would: four characters for every three bytes, rounded up once. */
  lemma ChunksWeight(s: seq<byte>)
    ensures TotalChars(ChunksOf(s)) == |Encode(s)| == (|s| + 2) / 3 * 4
  {
    SlicesWeigh(s);
    NumberedWeight(Texts(Slices(s)));
    EncodeLength(s);
    ChunksAreNumbered(s);
  }

  lemma WithinCap(m: nat)
    ensures (m + 2) / 3 * 4 <= MAX_TRANSFER_CHARS <==> m <= LARGEST_READ
  {
  }

  lemma {:induction false} SlicesCover(s: seq<byte>)
    ensures |s| <= |Slices(s)| * 196608
  {
    if |s| > CHUNK_BYTES {
      SlicesCover(s[CHUNK_BYTES..]);
    }
  }

  lemma AfterFirst<T>(first: T, rest: seq<T>, i: nat)
    requires 0 < i <= |rest|
    ensures ([first] + rest)[i] == rest[i - 1]
  {
  }

  lemma TailSlice<T>(s: seq<T>, n: nat, a: nat, b: nat)
    requires a <= b && n + b <= |s|
    ensures s[n..][a..b] == s[n + a..n + b]
  {
  }

  lemma {:induction false} SliceAt(s: seq<byte>, i: nat)
    requires i < |Slices(s)|
    ensures i * 196608 < |s| && Slices(s)[i] == s[i * 196608..Min((i + 1) * 196608, |s|)]
  {
    if |s| > CHUNK_BYTES && i > 0 {
      var tail := s[CHUNK_BYTES..];
      SliceAt(tail, i - 1);
      AfterFirst(s[..CHUNK_BYTES], Slices(tail), i);
      TailSlice(s, CHUNK_BYTES, (i - 1) * 196608, Min(i * 196608, |tail|));
    }
  }

  /** Chunk number `i` carries the bytes from `i` times 192 KiB on, 192 KiB of them unless it is the
      last, and together the chunks carry them all. */
  lemma ChunkAt(s: seq<byte>, i: nat)
    requires i < |ChunksOf(s)|
    ensures var c := ChunksOf(s)[i];
            && c.FileChunk? && c.seqNo == Some(i) && i * 196608 < |s| && c.base64.Some?
            && Decode(c.base64.value) == Some(s[i * 196608..Min((i + 1) * 196608, |s|)])
    ensures |s| <= |ChunksOf(s)| * 196608
  {
    SliceAt(s, i);
    SlicesCover(s);
    DecodeEncode(Slices(s)[i]);
  }

  // ----- Any order of arrival -----

  function PieceOf(c: Chunk): Piece {
    if c.FileChunk? && c.seqNo.Some? then (c.seqNo.value, DataOf(c)) else (0, "")
  }

  /** Numbered chunks give one piece each. */
  lemma {:induction false} PiecesNumbered(s: seq<Chunk>)
    requires forall c <- s :: c.FileChunk? && c.seqNo.Some?
    ensures Pieces(s) == Map(PieceOf, s)
  {
    if s != [] {
      PiecesNumbered(s[..|s| - 1]);
    }
  }

  /** Characters held in the collected pieces. */
  function Held(s: seq<Piece>): nat {
    if s == [] then 0 else Held(s[..|s| - 1]) + |s[|s| - 1].1|
  }

  lemma {:induction false} HeldIsTotal(chunks: seq<Chunk>)
    ensures Held(Pieces(chunks)) == TotalChars(chunks)
  {
    if chunks != [] {
      HeldIsTotal(chunks[..|chunks| - 1]);
    }
  }

  lemma {:induction false} InsertHeld(s: seq<Piece>, p: Piece)
    ensures Held(Insert(s, p)) == Held(s) + |p.1|
  {
    if s != [] && s[|s| - 1].0 > p.0 {
      InsertHeld(s[..|s| - 1], p);
    }
  }

  lemma {:induction false} SortHeld(s: seq<Piece>)
    ensures Held(SortBySeq(s)) == Held(s)
  {
    if s != [] {
      SortHeld(s[..|s| - 1]);
      InsertHeld(SortBySeq(s[..|s| - 1]), s[|s| - 1]);
    }
  }

  /** In whatever order numbered chunks arrive, the relay weighs the same total and sorts the
      same pieces. */
  lemma ShuffleSorts(arrived: seq<Chunk>, inOrder: seq<Chunk>)
    requires multiset(arrived) == multiset(inOrder)
    requires forall c <- inOrder :: c.FileChunk? && c.seqNo.Some?
    requires StrictlySorted(Map(PieceOf, inOrder))
    ensures SortBySeq(Pieces(arrived)) == Map(PieceOf, inOrder)
    ensures TotalChars(arrived) == TotalChars(inOrder)
  {
    forall c | c in arrived
      ensures c in inOrder
    {
      assert c in multiset(arrived);
      assert c in multiset(inOrder);
    }
    PiecesNumbered(arrived);
    PiecesNumbered(inOrder);
    MapShuffle(PieceOf, arrived, inOrder);
    SortRestores(Pieces(arrived), Pieces(inOrder));
    HeldIsTotal(arrived);
    HeldIsTotal(inOrder);
    SortHeld(Pieces(arrived));
  }

  // ----- Decoding what was sent -----

  function Numbering(slices: seq<seq<byte>>): seq<Piece> {
    seq(|slices|, i requires 0 <= i < |slices| => (i, Encode(slices[i])))
  }

  lemma EncodeIsAscii(s: seq<byte>)
    ensures DecodePiece(Encode(s)) == Content(s)
  {
    RelayDecodeEncode(s);
    assert forall c <- Encode(s) :: (c as int) < 128;
  }

  lemma {:induction false} JoinDecodes(slices: seq<seq<byte>>)
    ensures Join(Numbering(slices)) == Content(Concat(slices))
  {
    if slices != [] {
      var front, last := slices[..|slices| - 1], slices[|slices| - 1];
      JoinDecodes(front);
      assert Numbering(slices)[..|slices| - 1] == Numbering(front);
      EncodeIsAscii(last);
    }
  }

  /** The slices put end to end are the bytes. */
  lemma {:induction false} SlicesConcat(s: seq<byte>)
    ensures Concat(Slices(s)) == s
  {
    if |s| > CHUNK_BYTES {
      var head, tail := s[..CHUNK_BYTES], s[CHUNK_BYTES..];
      SlicesConcat(tail);
      ConcatAppend([head], Slices(tail));
      ConcatSnoc([], head);
      assert [] + [head] == [head];
      assert s == head + tail;
    } else if s != [] {
      ConcatSnoc([], s);
      assert [] + [s] == [s];
    }
  }

  lemma PiecesOfChunks(s: seq<byte>)
    ensures Map(PieceOf, ChunksOf(s)) == Numbering(Slices(s))
  {
    var pieces, numbered := Map(PieceOf, ChunksOf(s)), Numbering(Slices(s));
    forall i | 0 <= i < |pieces|
      ensures pieces[i] == numbered[i]
    {
      assert pieces[i] == PieceOf(ChunksOf(s)[i]);
    }
  }

  lemma ReassembleInOrder(s: seq<byte>)
    ensures Join(Map(PieceOf, ChunksOf(s))) == Content(s)
  {
    PiecesOfChunks(s);
    JoinDecodes(Slices(s));
    SlicesConcat(s);
  }

  lemma ReassembleShuffled(s: seq<byte>, arrived: seq<Chunk>)
    requires multiset(arrived) == multiset(ChunksOf(s))
    ensures Reassemble(Pieces(arrived)) == Content(s)
    ensures TotalChars(arrived) == (|s| + 2) / 3 * 4
  {
    ShuffleSorts(arrived, ChunksOf(s));
    ReassembleInOrder(s);
    ChunksWeight(s);
  }

  // ----- Chunks as an older or a faulty client might send them -----

  /** Without numbers, pieces take their rank and so keep their order of arrival. */
  lemma {:induction false} UnnumberedInOrder(texts: seq<string>, chunks: seq<Chunk>)
    requires |chunks| == |texts| && forall i :: 0 <= i < |texts| ==> chunks[i] == FileChunk(None, Some(texts[i]))
    ensures |Pieces(chunks)| == |texts|
    ensures forall i :: 0 <= i < |texts| ==> Pieces(chunks)[i] == (i, texts[i])
  {
    if texts != [] {
      UnnumberedInOrder(texts[..|texts| - 1], chunks[..|chunks| - 1]);
    }
  }

  /** So a read whose chunks come without their numbers, in order, is put together all the same. */
  lemma UnnumberedAreJoined(s: seq<byte>, chunks: seq<Chunk>)
    requires |chunks| == |ChunksOf(s)|
    requires forall i :: 0 <= i < |chunks| ==> chunks[i] == FileChunk(None, ChunksOf(s)[i].base64)
    ensures Reassemble(Pieces(chunks)) == Content(s)
  {
    var slices := Slices(s);
    var texts := seq(|slices|, i requires 0 <= i < |slices| => Encode(slices[i]));
    UnnumberedInOrder(texts, chunks);
    assert Pieces(chunks) == Numbering(slices);
    SortRestores(Pieces(chunks), Pieces(chunks));
    JoinDecodes(slices);
    SlicesConcat(s);
  }

  lemma {:induction false} FirstBadPieceDecides(sorted: seq<Piece>, i: nat)
    requires i < |sorted| && Join(sorted[..i]).Content? && !DecodePiece(sorted[i].1).Content?
    ensures Join(sorted) == DecodePiece(sorted[i].1)
  {
    if i < |sorted| - 1 {
      assert sorted[..|sorted| - 1][..i] == sorted[..i];
      FirstBadPieceDecides(sorted[..|sorted| - 1], i);
    } else {
      assert sorted[..|sorted| - 1] == sorted[..i];
    }
  }

  /** The first piece, in the order of the numbers, that cannot be read decides: one with a character
      that is not ASCII makes the tool raise, any other is answered `invalid_base64`. */
  lemma BadPieceIsReported(path: string, chunks: seq<Chunk>, i: nat, sha: seq<byte> -> string)
    requires TotalChars(chunks) <= MAX_TRANSFER_CHARS
    requires LastResult(chunks).Some? ==> !NonEmpty(LastResult(chunks).value.error)
    requires i < |SortBySeq(Pieces(chunks))| && Join(SortBySeq(Pieces(chunks))[..i]).Content?
    ensures var text := SortBySeq(Pieces(chunks))[i].1;
            && ((exists c <- text :: c as int >= 128) ==> Answered(path, chunks, None, sha) == Uncaught)
            && ((forall c <- text :: c as int < 128) && RelayDecode(text).None? ==>
                  Answered(path, chunks, None, sha) == Error("invalid_base64", None))
  {
    var sorted := SortBySeq(Pieces(chunks));
    if !DecodePiece(sorted[i].1).Content? {
      FirstBadPieceDecides(sorted, i);
    }
  }

  lemma ResultAnswers(path: string, chunks: seq<Chunk>, content: seq<byte>, result: Chunk, sha: seq<byte> -> string)
    requires result.Result?
    ensures var o := Outcome(result.exitCode, result.error, result.meta);
            && Answered(path, chunks + [result], None, sha) ==
               (if TotalChars(chunks) > MAX_TRANSFER_CHARS then Error("file_too_large", None)
                else ReadFileAnswer(path, Pieces(chunks), Some(o), None, sha))
            && WriteAnswered(path, content, chunks + [result], None, sha) ==
               (if TotalChars(chunks) > MAX_TRANSFER_CHARS then Error("file_too_large", None)
                else WriteFileAnswer(path, content, Some(o), None, sha))
  {
    ResultLast(chunks, result);
  }

  /** What a result leaves unsaid, the tools fill in: their own path, and the size and the hash of the
      bytes they have. */
  lemma UnsaidIsFilledIn(path: string, s: seq<byte>, arrived: seq<Chunk>, content: seq<byte>, bare: Chunk,
                         sha: seq<byte> -> string)
    requires multiset(arrived) == multiset(ChunksOf(s)) && |s| <= LARGEST_READ
    requires bare.Result? && bare.error == None && bare.meta == NO_META
    ensures Answered(path, arrived + [bare], None, sha) == FileContent(path, Encode(s), |s|, sha(s), false)
    ensures WriteAnswered(path, content, arrived + [bare], None, sha) == Written(path, |content|, sha(content))
  {
    ResultAnswers(path, arrived, content, bare, sha);
    CapDecides(s, arrived);
  }

  /** A chunk without its data counts as an empty one. */
  lemma NoDataIsEmpty(chunks: seq<Chunk>, seqNo: Option<int>)
    ensures TotalChars(chunks + [FileChunk(seqNo, None)]) == TotalChars(chunks)
    ensures Pieces(chunks + [FileChunk(seqNo, None)]) == Pieces(chunks + [FileChunk(seqNo, Some(""))])
  {
    var none, empty := chunks + [FileChunk(seqNo, None)], chunks + [FileChunk(seqNo, Some(""))];
    assert none[..|chunks|] == chunks && empty[..|chunks|] == chunks;
  }

  lemma EmptyOutcome(path: string, received: seq<Piece>, content: seq<byte>, said: Outcome, unsaid: Outcome,
                     sha: seq<byte> -> string)
    requires said.error == Some("") && said.meta.path == Some("") && said.meta.sha256 == Some("")
    requires unsaid == said.(error := None, meta := said.meta.(path := None, sha256 := None))
    ensures ReadFileAnswer(path, received, Some(said), None, sha)
            == ReadFileAnswer(path, received, Some(unsaid), None, sha)
    ensures WriteFileAnswer(path, content, Some(said), None, sha)
            == WriteFileAnswer(path, content, Some(unsaid), None, sha)
  {
  }

  /** An empty error, path or hash in a result counts as one that is not given. */
  lemma EmptyIsNotGiven(path: string, chunks: seq<Chunk>, content: seq<byte>, exitCode: Option<int>, meta: Meta,
                        sha: seq<byte> -> string)
    requires meta.path == Some("") && meta.sha256 == Some("")
    ensures var said := chunks + [Result(exitCode, Some(""), meta)];
            var unsaid := chunks + [Result(exitCode, None, meta.(path := None, sha256 := None))];
            && Answered(path, said, None, sha) == Answered(path, unsaid, None, sha)
            && WriteAnswered(path, content, said, None, sha) == WriteAnswered(path, content, unsaid, None, sha)
  {
    var bare := meta.(path := None, sha256 := None);
    ResultAnswers(path, chunks, content, Result(exitCode, Some(""), meta), sha);
    ResultAnswers(path, chunks, content, Result(exitCode, None, bare), sha);
    EmptyOutcome(path, Pieces(chunks), content, Outcome(exitCode, Some(""), meta), Outcome(exitCode, None, bare), sha);
  }

  // ----- The round trip -----

  /** Chunks first, then a result: the result decides the outcome and adds nothing to the pieces. */
  lemma ResultLast(chunks: seq<Chunk>, result: Chunk)
    requires result.Result?
    ensures Pieces(chunks + [result]) == Pieces(chunks)
    ensures TotalChars(chunks + [result]) == TotalChars(chunks)
    ensures LastResult(chunks + [result]) == Some(Outcome(result.exitCode, result.error, result.meta))
  {
    assert (chunks + [result])[..|chunks|] == chunks;
  }

  /** The answer to one read, as a function of the file. The documentation promises 8 MiB; the
      code delivers LARGEST_READ, because its cap counts base64 characters. */
  function Expected(p: Params, source: Source, sha: seq<byte> -> string): Answer {
    var sent := SentBytes(p, source);
    if |sent| > LARGEST_READ then Error("file_too_large", None)
    else if !IsServed(p, source) then Error(FailureCode(p, source), Some(1))
    else FileContent(p.path, Encode(sent), |sent|, sha(sent), IsTruncated(p, source))
  }

  lemma CapDecides(wanted: seq<byte>, arrived: seq<Chunk>)
    requires multiset(arrived) == multiset(ChunksOf(wanted))
    ensures TotalChars(arrived) > MAX_TRANSFER_CHARS <==> |wanted| > LARGEST_READ
    ensures Reassemble(Pieces(arrived)) == Content(wanted)
  {
    ReassembleShuffled(wanted, arrived);
    WithinCap(|wanted|);
  }

  lemma ServedIsWanted(p: Params, source: Source)
    requires IsServed(p, source)
    ensures SentBytes(p, source) == Wanted(source.content, p.offset, p.maxBytes) && p.path != ""
  {
  }

  /** `n` is the least of what is left of the file, 8 MiB, and the size asked for if there is one. */
  predicate IsCount(n: int, length: nat, offset: nat, maxBytes: nat) {
    var left := if offset < length then length - offset else 0;
    && 0 <= n <= left && n <= 8388608 && (maxBytes > 0 ==> n <= maxBytes)
    && (n == left || n == 8388608 || (maxBytes > 0 && n == maxBytes))
  }

  /** Of `n` bytes from `offset` on, how many come before the first that cannot be read. */
  function ReadableCount(badAt: Option<nat>, offset: nat, n: nat): nat {
    if badAt.None? || offset + n <= badAt.value then n
    else if badAt.value < offset then 0
    else badAt.value - offset
  }

  /** The piece of the file that was asked for, at its place, with its size and its hash, and
      `truncated` exactly when readable bytes remain after it. */
  predicate IsThePiece(a: Answer, p: Params, content: seq<byte>, badAt: Option<nat>, sha: seq<byte> -> string) {
    && a.FileContent? && a.path == p.path && 0 <= p.offset && 0 <= p.maxBytes
    && IsCount(a.size, |content|, p.offset, p.maxBytes)
    && var bytes := if p.offset <= |content| then content[p.offset..p.offset + a.size] else [];
       && Decode(a.base64) == Some(bytes) && a.sha256 == sha(bytes)
       && (a.truncated <==> p.offset + a.size < |content| && (badAt.None? || p.offset + a.size < badAt.value))
  }

  /** What every read should be answered: the error code of what is wrong with it, `io_error` when
      some of the bytes cannot be read, `file_too_large` when more than 6 MiB can, or the piece. */
  ghost predicate IsExact(a: Answer, p: Params, source: Source, sha: seq<byte> -> string) {
    if IsBlank(p.path) || p.offset < 0 || p.maxBytes < 0 then a == Error("invalid_params", Some(1))
    else
      match source
      case Unavailable(NotFound) => a == Error("file_not_found", Some(1))
      case Unavailable(NoPermission) => a == Error("permission_denied", Some(1))
      case Unavailable(AlreadyExists) => a == Error("file_exists", Some(1))
      case Unavailable(OtherError) => a == Error("io_error", Some(1))
      case Directory => a == Error("is_a_directory", Some(1))
      case Regular(content, badAt) =>
        exists n: nat ::
          && IsCount(n, |content|, p.offset, p.maxBytes)
          && var readable := ReadableCount(badAt, p.offset, n);
             if readable > 6291456 then a == Error("file_too_large", None)
             else if readable < n then a == Error("io_error", Some(1))
             else IsThePiece(a, p, content, badAt, sha) && a.size == n
  }

  lemma WantedIsCounted(content: seq<byte>, offset: nat, maxBytes: nat)
    ensures IsCount(|Wanted(content, offset, maxBytes)|, |content|, offset, maxBytes)
    ensures Wanted(content, offset, maxBytes) ==
            if offset <= |content| then content[offset..offset + |Wanted(content, offset, maxBytes)|] else []
  {
  }

  lemma SentIsCounted(p: Params, source: Source)
    requires Acceptable(p, source)
    ensures var wanted := Wanted(source.content, p.offset, p.maxBytes);
            && |SentBytes(p, source)| == ReadableCount(source.badAt, p.offset, |wanted|)
            && (IsServed(p, source) <==> |SentBytes(p, source)| == |wanted|)
            && (IsTruncated(p, source) <==>
                  && p.offset + |wanted| < |source.content|
                  && (source.badAt.None? || p.offset + |wanted| < source.badAt.value))
  {
    WantedIsCounted(source.content, p.offset, p.maxBytes);
  }

  lemma PieceIs(a: Answer, p: Params, content: seq<byte>, badAt: Option<nat>, sha: seq<byte> -> string,
                wanted: seq<byte>)
    requires 0 <= p.offset && 0 <= p.maxBytes && IsCount(|wanted|, |content|, p.offset, p.maxBytes)
    requires wanted == if p.offset <= |content| then content[p.offset..p.offset + |wanted|] else []
    requires a.FileContent? && a.path == p.path && a.size == |wanted| && a.sha256 == sha(wanted)
    requires Decode(a.base64) == Some(wanted)
    requires a.truncated <==> p.offset + |wanted| < |content| && (badAt.None? || p.offset + |wanted| < badAt.value)
    ensures IsThePiece(a, p, content, badAt, sha)
  {
  }

  lemma ServedIsThePiece(p: Params, source: Source, sha: seq<byte> -> string, wanted: seq<byte>, a: Answer)
    requires IsServed(p, source) && wanted == Wanted(source.content, p.offset, p.maxBytes)
    requires a == FileContent(p.path, Encode(wanted), |wanted|, sha(wanted), IsTruncated(p, source))
    ensures IsThePiece(a, p, source.content, source.badAt, sha)
  {
    WantedIsCounted(source.content, p.offset, p.maxBytes);
    SentIsCounted(p, source);
    DecodeEncode(wanted);
    PieceIs(a, p, source.content, source.badAt, sha, wanted);
  }

  lemma ExpectedOfFile(p: Params, source: Source, sha: seq<byte> -> string, wanted: seq<byte>)
    requires Acceptable(p, source) && wanted == Wanted(source.content, p.offset, p.maxBytes)
    ensures var readable := ReadableCount(source.badAt, p.offset, |wanted|);
            Expected(p, source, sha) ==
            if readable > 6291456 then Error("file_too_large", None)
            else if readable < |wanted| then Error("io_error", Some(1))
            else FileContent(p.path, Encode(wanted), |wanted|, sha(wanted), IsTruncated(p, source))
  {
    SentIsCounted(p, source);
  }

  lemma ExpectedIsExact(p: Params, source: Source, sha: seq<byte> -> string)
    ensures IsExact(Expected(p, source, sha), p, source, sha)
  {
    if Acceptable(p, source) {
      var wanted := Wanted(source.content, p.offset, p.maxBytes);
      WantedIsCounted(source.content, p.offset, p.maxBytes);
      ExpectedOfFile(p, source, sha, wanted);
      if IsServed(p, source) {
        ServedIsThePiece(p, source, sha, wanted,
                         FileContent(p.path, Encode(wanted), |wanted|, sha(wanted), IsTruncated(p, source)));
      }
      assert IsCount(|wanted|, |source.content|, p.offset, p.maxBytes);
    }
  }

  lemma AnsweredAsExpected(p: Params, source: Source, sha: seq<byte> -> string, arrived: seq<Chunk>)
    requires multiset(arrived) == multiset(ChunksOf(SentBytes(p, source)))
    ensures Answered(p.path, arrived + [Closing(p, source, sha)], None, sha) == Expected(p, source, sha)
  {
    ResultLast(arrived, Closing(p, source, sha));
    CapDecides(SentBytes(p, source), arrived);
    if IsServed(p, source) {
      ServedIsWanted(p, source);
    }
  }

  /** End to end, for every file, offset and size limit, served or not: a transfer whose chunks
      reach the relay in any order, followed by its result, is answered with exactly the wanted
      bytes, with the reason it failed, or with `file_too_large` when there are more than
      LARGEST_READ of them. */
  lemma ReadFileRoundTrip(p: Params, source: Source, sha: seq<byte> -> string, arrived: seq<Chunk>, a: Answer)
    requires multiset(arrived) == multiset(ChunksOf(SentBytes(p, source)))
    requires a == Answered(p.path, arrived + [Closing(p, source, sha)], None, sha)
    ensures a == Expected(p, source, sha) && IsExact(a, p, source, sha)
  {
    AnsweredAsExpected(p, source, sha, arrived);
    ExpectedIsExact(p, source, sha);
  }

  /** The documented 8 MiB is not reached: one byte more than LARGEST_READ is already refused. */
  lemma DocumentedLimitFails(sha: seq<byte> -> string)
    ensures var content: seq<byte> := seq(LARGEST_READ + 1, _ => 0);
            var p := Params("f", 0, 0);
            && |content| < MAX_TRANSFER_BYTES
            && IsServed(p, Regular(content, None))
            && Expected(p, Regular(content, None), sha) == Error("file_too_large", None)
  {
    var content: seq<byte> := seq(LARGEST_READ + 1, _ => 0);
    WantedAll(content);
    assert "f"[0] == 'f' && !IsSpace('f');
  }

  lemma WantedAll(content: seq<byte>)
    requires |content| <= MAX_TRANSFER_BYTES
    ensures Wanted(content, 0, 0) == content
  {
  }

  lemma WantedIs(content: seq<byte>, offset: nat, maxBytes: nat)
    requires offset <= |content|
    ensures |Wanted(content, offset, maxBytes)| == Min(Limit(maxBytes), |content| - offset)
    ensures Wanted(content, offset, maxBytes) == content[offset..offset + Min(Limit(maxBytes), |content| - offset)]
  {
  }

  /** A transfer the client reports as failed, or refuses, is never answered with content. */
  lemma FailureIsReported(path: string, chunks: seq<Chunk>, exitCode: int, code: string, sha: seq<byte> -> string)
    requires code != ""
    ensures Answered(path, chunks + [Result(Some(exitCode), Some(code), NO_META)], None, sha)
            == if TotalChars(chunks) > MAX_TRANSFER_CHARS then Error("file_too_large", None)
               else Error(code, Some(exitCode))
  {
    ResultLast(chunks, Result(Some(exitCode), Some(code), NO_META));
  }

  // ----- Repeated reads -----

  /** Reads again and again, `sizes(i)` bytes at most the i-th time, moving on by the reported
      size while the report says that bytes remain. */
  function Resume(path: string, content: seq<byte>, offset: nat, sizes: nat -> nat, i: nat): seq<byte>
    requires !IsBlank(path)
    decreases if offset < |content| then |content| - offset else 0
  {
    var p := Params(path, offset, sizes(i));
    var wanted := Wanted(content, offset, sizes(i));
    if IsTruncated(p, Regular(content, None)) then wanted + Resume(path, content, offset + |wanted|, sizes, i + 1)
    else wanted
  }

  /** What one read returns, and what is left after it. */
  lemma WantedThenRest(content: seq<byte>, offset: nat, maxBytes: nat)
    requires offset <= |content|
    ensures var wanted := Wanted(content, offset, maxBytes);
            var next := offset + |wanted|;
            && next <= |content|
            && (next < |content| ==> wanted != [])
            && wanted + content[next..] == content[offset..]
            && (next == |content| ==> wanted == content[offset..])
  {
    WantedIs(content, offset, maxBytes);
  }

  lemma TruncatedBeforeEnd(p: Params, content: seq<byte>)
    requires Acceptable(p, Regular(content, None)) && p.offset <= |content|
    ensures IsTruncated(p, Regular(content, None)) <==> p.offset + |Wanted(content, p.offset, p.maxBytes)| < |content|
  {
    WantedIs(content, p.offset, p.maxBytes);
  }

  /** One read returns `wanted`, and the next one starts at `next`. */
  lemma ResumeStep(path: string, content: seq<byte>, offset: nat, sizes: nat -> nat, i: nat)
    returns (wanted: seq<byte>, next: nat)
    requires !IsBlank(path) && offset <= |content|
    ensures next == offset + |wanted| <= |content| && (next < |content| ==> next > offset)
    ensures wanted + content[next..] == content[offset..]
    ensures next == |content| ==> Resume(path, content, offset, sizes, i) == content[offset..]
    ensures next < |content| ==>
              Resume(path, content, offset, sizes, i) == wanted + Resume(path, content, next, sizes, i + 1)
  {
    wanted := Wanted(content, offset, sizes(i));
    next := offset + |wanted|;
    WantedThenRest(content, offset, sizes(i));
    TruncatedBeforeEnd(Params(path, offset, sizes(i)), content);
  }

  /** Whatever sizes are asked for, repeated reads end and recover the rest of the file. (That
      they end is the termination of Resume: each one moves on by at least one byte.) */
  lemma {:induction false} ResumeRecovers(path: string, content: seq<byte>, offset: nat, sizes: nat -> nat, i: nat)
    requires !IsBlank(path) && offset <= |content|
    ensures Resume(path, content, offset, sizes, i) == content[offset..]
    decreases |content| - offset
  {
    var wanted, next := ResumeStep(path, content, offset, sizes, i);
    if next < |content| {
      ResumeRecovers(path, content, next, sizes, i + 1);
    }
  }

  // ----- Repeated reads through the relay -----

  /** One call of the tool as the harness sees it: the bytes it decodes and whether more remain, or
      None when the answer is an error. */
  type Fetch = (nat, nat) -> Option<(seq<byte>, bool)>

  function Fetched(a: Answer): Option<(seq<byte>, bool)> {
    match a
    case FileContent(_, base64, _, _, truncated) =>
      (match Decode(base64)
       case Some(bytes) => Some((bytes, truncated))
       case None => None)
    case _ => None
  }

  /** What the tool answers, from its own arguments on. */
  function ToolAnswer(path: string, content: seq<byte>, sha: seq<byte> -> string, offset: int,
                      maxBytes: Option<int>): Answer {
    match ClientParams(path, offset, maxBytes)
    case Some(p) => Expected(p, Regular(content, None), sha)
    case None => Error("invalid_params", None)
  }

  /** A size of zero is one that is not given. */
  function Given(size: nat): Option<int> {
    if size == 0 then None else Some(size)
  }

  /** The tool, on one file. */
  function Tool(path: string, content: seq<byte>, sha: seq<byte> -> string): Fetch {
    (offset, size) => Fetched(ToolAnswer(path, content, sha, offset, Given(size)))
  }

  lemma ToolAsks(path: string, content: seq<byte>, sha: seq<byte> -> string, offset: nat, size: nat)
    ensures ToolAnswer(path, content, sha, offset, Given(size)) ==
            Expected(Params(path, offset, size), Regular(content, None), sha)
  {
    assert ClientParams(path, offset, Given(size)) == Some(Params(path, offset, size));
  }

  /** The harness reads again and again, at most `n` times, moving on by what it got while more
      remains; None as soon as one answer is an error. With k reads left it asks for sizes(k). */
  function Recover(fetch: Fetch, offset: nat, sizes: nat -> nat, n: nat): Option<seq<byte>>
    decreases n
  {
    if n == 0 then None
    else
      match fetch(offset, sizes(n))
      case None => None
      case Some((bytes, more)) =>
        if !more then Some(bytes) else Prepend(bytes, Recover(fetch, offset + |bytes|, sizes, n - 1))
  }

  function Prepend(bytes: seq<byte>, rest: Option<seq<byte>>): Option<seq<byte>> {
    match rest
    case None => None
    case Some(r) => Some(bytes + r)
  }

  /** What one call gives, told by what was wanted. */
  function Told(content: seq<byte>, offset: nat, size: nat): Option<(seq<byte>, bool)> {
    var wanted := Wanted(content, offset, size);
    if |wanted| > LARGEST_READ then None else Some((wanted, offset + |wanted| < |content|))
  }

  lemma ExpectedTells(p: Params, content: seq<byte>, sha: seq<byte> -> string)
    requires Acceptable(p, Regular(content, None)) && p.offset <= |content|
    ensures Fetched(Expected(p, Regular(content, None), sha)) == Told(content, p.offset, p.maxBytes)
  {
    ServedIsWanted(p, Regular(content, None));
    TruncatedBeforeEnd(p, content);
    DecodeEncode(Wanted(content, p.offset, p.maxBytes));
  }

  lemma ToolTells(path: string, content: seq<byte>, sha: seq<byte> -> string, offset: nat, size: nat, answer: Answer)
    requires !IsBlank(path) && offset <= |content| && answer == ToolAnswer(path, content, sha, offset, Given(size))
    ensures Fetched(answer) == Told(content, offset, size)
  {
    ToolAsks(path, content, sha, offset, size);
    ExpectedTells(Params(path, offset, size), content, sha);
  }

  /** The tool refuses a negative offset and a size that is not positive, and passes the rest on; it
      answers `file_too_large` when both the size asked for and what is left of the file exceed 6 MiB,
      and otherwise with the piece of the file that was asked for. */
  lemma HarnessGetsTheFile(path: string, content: seq<byte>, sha: seq<byte> -> string, offset: int,
                           maxBytes: Option<int>)
    requires !IsBlank(path)
    ensures var a := ToolAnswer(path, content, sha, offset, maxBytes);
            if offset < 0 || (maxBytes.Some? && maxBytes.value <= 0) then a == Error("invalid_params", None)
            else if |content| - offset > 6291456 && (maxBytes.None? || maxBytes.value > 6291456) then
              a == Error("file_too_large", None)
            else
              var p := Params(path, offset, if maxBytes.Some? then maxBytes.value else 0);
              IsThePiece(a, p, content, None, sha)
  {
    if offset >= 0 && (maxBytes.Some? ==> maxBytes.value > 0) {
      var p := Params(path, offset, if maxBytes.Some? then maxBytes.value else 0);
      ExpectedIsExact(p, Regular(content, None), sha);
    }
  }

  /** No read along the way asks for more than goes through. */
  predicate AllFit(content: seq<byte>, offset: nat, sizes: nat -> nat, n: nat)
    decreases n
  {
    n > 0 ==>
      var wanted := |Wanted(content, offset, sizes(n))|;
      wanted <= LARGEST_READ && (offset + wanted < |content| ==> AllFit(content, offset + wanted, sizes, n - 1))
  }

  ghost predicate TellsTrue(fetch: Fetch, content: seq<byte>, offset: nat, size: nat) {
    fetch(offset, size) == Told(content, offset, size)
  }

  lemma {:induction false} FetchingRecovers(fetch: Fetch, content: seq<byte>, offset: nat, sizes: nat -> nat, n: nat)
    requires offset <= |content| < offset + n
    requires forall o: nat, size: nat :: o <= |content| ==> TellsTrue(fetch, content, o, size)
    ensures Recover(fetch, offset, sizes, n) ==
            if AllFit(content, offset, sizes, n) then Some(content[offset..]) else None
    decreases n
  {
    var wanted := Wanted(content, offset, sizes(n));
    WantedThenRest(content, offset, sizes(n));
    assert TellsTrue(fetch, content, offset, sizes(n));
    if |wanted| <= LARGEST_READ && offset + |wanted| < |content| {
      FetchingRecovers(fetch, content, offset + |wanted|, sizes, n - 1);
    }
  }

  /** Through the relay, repeated reads of any sizes recover the rest of the file if and only if each
      of them fits under the cap; and they never recover anything else. */
  lemma ToolRecovers(path: string, content: seq<byte>, offset: nat, sizes: nat -> nat, sha: seq<byte> -> string, n: nat)
    requires !IsBlank(path) && offset <= |content| < offset + n
    ensures Recover(Tool(path, content, sha), offset, sizes, n) ==
            if AllFit(content, offset, sizes, n) then Some(content[offset..]) else None
  {
    var fetch := Tool(path, content, sha);
    forall o: nat, size: nat | o <= |content|
      ensures TellsTrue(fetch, content, o, size)
    {
      ToolTells(path, content, sha, o, size, ToolAnswer(path, content, sha, o, Given(size)));
    }
    FetchingRecovers(fetch, content, offset, sizes, n);
  }

  /** With one size throughout, that is: a size that fits, or little enough left to read. */
  lemma {:induction false} ConstantSizeFits(content: seq<byte>, offset: nat, sizes: nat -> nat, size: nat, n: nat)
    requires offset <= |content| < offset + n && forall k :: sizes(k) == size
    ensures AllFit(content, offset, sizes, n) <==> 0 < size <= LARGEST_READ || |content| - offset <= LARGEST_READ
    decreases n
  {
    var wanted := |Wanted(content, offset, sizes(n))|;
    assert sizes(n) == size;
    WantedIs(content, offset, size);
    if offset + wanted < |content| {
      ConstantSizeFits(content, offset + wanted, sizes, size, n - 1);
    }
  }

  /** So reads that ask for no particular size do not recover a file of more than LARGEST_READ bytes. */
  lemma DefaultSizeFails(path: string, content: seq<byte>, sha: seq<byte> -> string, sizes: nat -> nat, n: nat)
    requires !IsBlank(path) && LARGEST_READ < |content| < n && forall k :: sizes(k) == 0
    ensures Recover(Tool(path, content, sha), 0, sizes, n) == None
  {
    ToolRecovers(path, content, 0, sizes, sha, n);
    ConstantSizeFits(content, 0, sizes, 0, n);
  }
}
