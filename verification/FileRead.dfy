/** The sending half of `read_file`: client/filetransfer.go cuts the requested slice of a file
    into chunks, and says in the final metadata what it sent and whether bytes remain. */
module FileRead {
  import opened Common
  import opened Protocol
  import opened Base64
  import opened Unicode

  const MAX_TRANSFER_BYTES := 8 * 1024 * 1024
  const CHUNK_BYTES := 192 * 1024

  /** What the operating system says went wrong, as far as the client tells errors apart. */
  datatype OsError = NotFound | NoPermission | AlreadyExists | OtherError

  function CodeOf(e: OsError): (code: string)
    ensures code != ""
  {
    match e
    case NotFound => "file_not_found"
    case NoPermission => "permission_denied"
    case AlreadyExists => "file_exists"
    case OtherError => "io_error"
  }

  /** The file as this read finds it. `badAt` is a position the device cannot read past. */
  datatype Source =
    | Unavailable(error: OsError)  // stat, open or seek failed
    | Directory
    | Regular(content: seq<byte>, badAt: Option<nat>)

  datatype Params = Params(path: string, offset: int, maxBytes: int)

  datatype Transfer = Sent(meta: Meta) | Failed(code: string)

  /** How many bytes one transfer may carry. */
  function Limit(maxBytes: nat): (limit: nat)
    ensures 0 < limit <= MAX_TRANSFER_BYTES && (maxBytes > 0 ==> limit <= maxBytes)
    ensures limit == MAX_TRANSFER_BYTES || limit == maxBytes
  {
    if 0 < maxBytes < MAX_TRANSFER_BYTES then maxBytes else MAX_TRANSFER_BYTES
  }

  function Min(a: int, b: int): int {
    if a < b then a else b
  }

  /** At most `limit` bytes from `offset` on. */
  function Cut(content: seq<byte>, offset: nat, limit: nat): (w: seq<byte>)
    ensures |w| <= limit
    ensures |w| < limit ==> offset + |w| >= |content|
    ensures w != [] ==> offset + |w| <= |content| && w == content[offset..offset + |w|]
  {
    if offset >= |content| then [] else content[offset..Min(offset + limit, |content|)]
  }

  /** What a transfer is for: the bytes from `offset` on, up to the limit. */
  function Wanted(content: seq<byte>, offset: nat, maxBytes: nat): seq<byte> {
    Cut(content, offset, Limit(maxBytes))
  }

  /** The bytes cut into full chunks and one last, possibly short, chunk. */
  function Slices(s: seq<byte>): seq<seq<byte>> {
    if s == [] then []
    else if |s| <= CHUNK_BYTES then [s]
    else [s[..CHUNK_BYTES]] + Slices(s[CHUNK_BYTES..])
  }

  /** The chunk messages that carry the bytes. */
  function ChunksOf(s: seq<byte>): (chunks: seq<Chunk>)
    ensures |chunks| == |Slices(s)|
    ensures forall i :: 0 <= i < |chunks| ==> chunks[i] == FileChunk(Some(i), Some(Encode(Slices(s)[i])))
  {
    var slices := Slices(s);
    seq(|slices|, i requires 0 <= i < |slices| => FileChunk(Some(i), Some(Encode(slices[i]))))
  }

  datatype ReadStatus = Full | Eof | DeviceError

  /** `io.ReadFull` at `pos`: up to `n` bytes, and why it stopped short if it did. */
  function ReadFull(content: seq<byte>, badAt: Option<nat>, pos: nat, n: nat): (r: (seq<byte>, ReadStatus))
    ensures |r.0| <= n
    ensures pos < |content| ==> r.0 <= content[pos..]
    ensures pos >= |content| ==> r.0 == []
  {
    if pos >= |content| then ([], if n == 0 then Full else Eof)
    else
      var end := Min(pos + n, |content|);
      if badAt.Some? && badAt.value < end then
        (content[pos..if badAt.value < pos then pos else badAt.value], DeviceError)
      else (content[pos..end], if end == pos + n then Full else Eof)
  }

  /** Some wanted byte lies past what the device can read. */
  predicate Damaged(badAt: Option<nat>, offset: nat, wanted: seq<byte>) {
    wanted != [] && badAt.Some? && badAt.value < offset + |wanted|
  }

  /** The wanted bytes up to the first that cannot be read. */
  function Readable(badAt: Option<nat>, offset: nat, wanted: seq<byte>): (r: seq<byte>)
    ensures r <= wanted
    ensures Damaged(badAt, offset, wanted) <==> |r| < |wanted|
  {
    if !Damaged(badAt, offset, wanted) then wanted
    else if badAt.value < offset then []
    else wanted[..badAt.value - offset]
  }

  /** One `ReadFull` of the chunk loop, in terms of the wanted bytes. */
  method ReadNext(content: seq<byte>, badAt: Option<nat>, offset: nat, limit: nat, sent: seq<byte>, n: nat)
    returns (data: seq<byte>, status: ReadStatus)
    requires sent <= Readable(badAt, offset, Cut(content, offset, limit)) && 0 < n <= limit - |sent|
    ensures var wanted := Cut(content, offset, limit);
            && sent + data <= Readable(badAt, offset, wanted) && |data| <= n
            && (status == Full ==> |data| == n)
            && (status == Eof ==> sent + data == wanted && |wanted| < limit)
            && (status == DeviceError ==>
                  Damaged(badAt, offset, wanted) && sent + data == Readable(badAt, offset, wanted))
  {
    var pos := offset + |sent|;
    var r := ReadFull(content, badAt, pos, n);
    data, status := r.0, r.1;
    ghost var wanted := Cut(content, offset, limit);
    if pos < |content| {
      assert wanted == content[offset..offset + |wanted|];
      assert data == content[pos..pos + |data|];
      assert sent + data == wanted[..|sent + data|];
    } else {
      assert sent + data == sent;
    }
  }

  /** How many chunks `n` bytes make. */
  function ChunkCount(n: nat): nat {
    if n == 0 then 0 else if n <= CHUNK_BYTES then 1 else 1 + ChunkCount(n - CHUNK_BYTES)
  }

  lemma {:induction false} CountMonotone(a: nat, b: nat)
    requires a <= b
    ensures ChunkCount(a) <= ChunkCount(b)
  {
    if a > CHUNK_BYTES {
      CountMonotone(a - CHUNK_BYTES, b - CHUNK_BYTES);
    }
  }

  /** Between `k - 1` and `k` full chunks, it is `k`. */
  lemma {:induction false} CountIs(n: nat, k: nat)
    requires n <= k * CHUNK_BYTES && (k > 0 ==> n > (k - 1) * CHUNK_BYTES)
    ensures ChunkCount(n) == k
  {
    if k > 1 {
      CountIs(n - CHUNK_BYTES, k - 1);
    }
  }

  /** That many chunk messages carry `s`. */
  lemma {:induction false} ChunksAreCounted(s: seq<byte>)
    ensures |ChunksOf(s)| == |Slices(s)| == ChunkCount(|s|)
  {
    if |s| > CHUNK_BYTES {
      ChunksAreCounted(s[CHUNK_BYTES..]);
    }
  }

  lemma {:induction false} SlicesSnoc(s: seq<byte>, data: seq<byte>, k: nat)
    requires |s| == k * CHUNK_BYTES && 0 < |data| <= CHUNK_BYTES
    ensures Slices(s + data) == Slices(s) + [data] && |Slices(s)| == k
  {
    if k == 0 {
      assert s + data == data;
    } else {
      var t := s + data;
      assert t[..CHUNK_BYTES] == s[..CHUNK_BYTES];
      assert t[CHUNK_BYTES..] == s[CHUNK_BYTES..] + data;
      SlicesSnoc(s[CHUNK_BYTES..], data, k - 1);
      if k == 1 {
        assert s[..CHUNK_BYTES] == s;
      }
    }
  }

  lemma NextSlice(s: seq<byte>, data: seq<byte>, k: nat)
    requires |s| == k * CHUNK_BYTES && 0 < |data| <= CHUNK_BYTES
    ensures ChunkCount(|s|) == k && ChunkCount(|s + data|) == k + 1
    ensures ChunksOf(s + data) == ChunksOf(s) + [FileChunk(Some(k), Some(Encode(data)))]
  {
    SlicesSnoc(s, data, k);
    ChunksAreCounted(s);
    ChunksAreCounted(s + data);
  }

  predicate Acceptable(p: Params, source: Source) {
    !IsBlank(p.path) && p.offset >= 0 && p.maxBytes >= 0 && source.Regular?
  }

  /** Whether bytes remain: probing one byte past the limit. */
  function IsTruncated(p: Params, source: Source): bool
    requires Acceptable(p, source)
  {
    var wanted := Wanted(source.content, p.offset, p.maxBytes);
    var next := p.offset + |wanted|;
    |wanted| == Limit(p.maxBytes) && next < |source.content| && (source.badAt.None? || next < source.badAt.value)
  }

  /** The metadata of a complete transfer. */
  function Description(p: Params, source: Source, sha: seq<byte> -> string): Meta
    requires Acceptable(p, source)
  {
    var wanted := Wanted(source.content, p.offset, p.maxBytes);
    Meta(Some(p.path), Some(|wanted|), Some(sha(wanted)), Some(IsTruncated(p, source)), None)
  }

  /** The stable error code a failed transfer reports. */
  function FailureCode(p: Params, source: Source): (code: string)
    ensures code != ""
  {
    if IsBlank(p.path) || p.offset < 0 || p.maxBytes < 0 then "invalid_params"
    else
      match source
      case Unavailable(error) => CodeOf(error)
      case Directory => "is_a_directory"
      case Regular(_, _) => "io_error"
  }

  /** The bytes a read sends while its connection holds. */
  function SentBytes(p: Params, source: Source): seq<byte> {
    if Acceptable(p, source) then Readable(source.badAt, p.offset, Wanted(source.content, p.offset, p.maxBytes)) else []
  }

  predicate IsServed(p: Params, source: Source) {
    Acceptable(p, source) && !Damaged(source.badAt, p.offset, Wanted(source.content, p.offset, p.maxBytes))
  }

  /** The result that closes it. */
  function Closing(p: Params, source: Source, sha: seq<byte> -> string): (c: Chunk)
    ensures c.Result?
  {
    if IsServed(p, source) then Result(Some(0), None, Description(p, source, sha))
    else Result(Some(1), Some(FailureCode(p, source)), NO_META)
  }

  /** Streams the requested slice over `conn` and returns the metadata of the final result.
      `sha` stands for SHA-256 in hexadecimal; `sent` is what was attempted. */
  method ReadFileTransfer(p: Params, source: Source, sha: seq<byte> -> string, conn: Conn, r: RequestId)
    returns (t: Transfer, ghost sent: seq<byte>)
    requires conn.Valid()
    modifies conn
    // What is sent is chunks of the wanted bytes, from the first on and in order, and nothing else;
    // a request that cannot be served sends nothing.
    ensures conn.Valid() && conn.attempted == old(conn.attempted) + Tagged(r, ChunksOf(sent))
    ensures sent <= SentBytes(p, source)
    // While writes get through, every byte that can be read is sent.
    ensures ChunkCount(|SentBytes(p, source)|) <= old(conn.WritesLeft()) ==> sent == SentBytes(p, source)
    // The transfer is complete exactly when every byte can be read and every chunk written.
    ensures t.Sent? <==> IsServed(p, source) && ChunkCount(|SentBytes(p, source)|) <= old(conn.WritesLeft())
    ensures t.Sent? ==> conn.WritesLeft() == old(conn.WritesLeft()) - ChunkCount(|SentBytes(p, source)|)
    // And then it is described truly; otherwise the reason is given.
    ensures t.Sent? ==> t.meta == Description(p, source, sha)
    ensures t.Failed? ==> t.code == FailureCode(p, source)
  {
    sent := [];
    if IsBlank(p.path) || p.offset < 0 || p.maxBytes < 0 {
      t := Failed("invalid_params");
      return;
    }
    match source
    case Unavailable(error) =>
      t := Failed(CodeOf(error));
    case Directory =>
      t := Failed("is_a_directory");
    case Regular(content, badAt) =>
      var complete, reachedEof, hashed := StreamSlice(content, badAt, p.offset, Limit(p.maxBytes), conn, r);
      sent := hashed;
      if !complete {
        t := Failed("io_error");
        return;
      }
      assert hashed == Wanted(content, p.offset, p.maxBytes);
      var truncated := false;
      if !reachedEof {
        truncated := Probe(content, badAt, p.offset + |hashed|);
      }
      t := Sent(Meta(Some(p.path), Some(|hashed|), Some(sha(hashed)), Some(truncated), None));
  }

  /** Stopped on the limit: one more byte tells a whole file from a cut one. */
  method Probe(content: seq<byte>, badAt: Option<nat>, pos: nat) returns (more: bool)
    ensures more <==> pos < |content| && (badAt.None? || pos < badAt.value)
  {
    var (probe, _) := ReadFull(content, badAt, pos, 1);
    more := probe != [];
  }

  /** Writes chunk number `seqNo`; `before` and `sent` describe what the transfer wrote so far. */
  method SendChunk(conn: Conn, r: RequestId, seqNo: nat, data: seq<byte>, ghost before: seq<Wire>,
                   ghost sent: seq<byte>)
    returns (ok: bool)
    requires conn.Valid() && |sent| == seqNo * CHUNK_BYTES && 0 < |data| <= CHUNK_BYTES
    requires conn.attempted == before + Tagged(r, ChunksOf(sent))
    modifies conn
    ensures conn.Valid() && conn.attempted == before + Tagged(r, ChunksOf(sent + data))
    ensures ok <==> old(conn.WritesLeft()) > 0
    ensures ok ==> conn.WritesLeft() == old(conn.WritesLeft()) - 1
  {
    var chunk := FileChunk(Some(seqNo), Some(Encode(data)));
    NextSlice(sent, data, seqNo);
    TaggedAppend(r, ChunksOf(sent), [chunk]);
    ok := conn.WriteJson(Wire(Some(r), chunk));
  }

  /** Full chunks so far, and after a last one either still so, or the limit is reached. */
  ghost predicate InStep(sent: nat, seqNo: nat, limit: nat) {
    ChunkCount(sent) == seqNo && (sent == seqNo * CHUNK_BYTES || sent == limit)
  }

  lemma NextInStep(sent: nat, seqNo: nat, limit: nat, more: nat)
    requires sent == seqNo * CHUNK_BYTES < limit && 0 < more <= Min(CHUNK_BYTES, limit - sent)
    ensures ChunkCount(sent + more) == seqNo + 1
    ensures more == Min(CHUNK_BYTES, limit - sent) ==> InStep(sent + more, seqNo + 1, limit)
  {
    CountIs(sent + more, seqNo + 1);
  }

  lemma InStepIsFull(sent: nat, seqNo: nat, limit: nat)
    requires InStep(sent, seqNo, limit) && sent < limit
    ensures sent == seqNo * CHUNK_BYTES
  {
  }

  /** One turn of the chunk loop: `data` is what it read and attempted to send. */
  method StreamOne(content: seq<byte>, badAt: Option<nat>, offset: nat, limit: nat, conn: Conn, r: RequestId,
                   seqNo: nat, sent: seq<byte>, ghost before: seq<Wire>)
    returns (data: seq<byte>, status: ReadStatus, ok: bool)
    requires conn.Valid() && |sent| == seqNo * CHUNK_BYTES < limit
    requires sent <= Readable(badAt, offset, Cut(content, offset, limit))
    requires conn.attempted == before + Tagged(r, ChunksOf(sent))
    modifies conn
    ensures conn.Valid() && conn.attempted == before + Tagged(r, ChunksOf(sent + data))
    ensures ok <==> data == [] || old(conn.WritesLeft()) > 0
    ensures ok ==> conn.WritesLeft() == old(conn.WritesLeft()) - if data != [] then 1 else 0
    ensures |data| <= Min(CHUNK_BYTES, limit - |sent|)
    ensures status == Full ==> |data| == Min(CHUNK_BYTES, limit - |sent|)
    ensures var wanted := Cut(content, offset, limit);
            && sent + data <= Readable(badAt, offset, wanted)
            && (status == Eof ==> |sent + data| == |wanted| < limit)
            && (status == DeviceError ==>
                  Damaged(badAt, offset, wanted) && |sent + data| == |Readable(badAt, offset, wanted)|)
  {
    data, status := ReadNext(content, badAt, offset, limit, sent, Min(CHUNK_BYTES, limit - |sent|));
    ok := true;
    if data != [] {
      ok := SendChunk(conn, r, seqNo, data, before, sent);
    } else {
      assert sent + data == sent;
    }
  }

  /** The chunk loop. `sent` is what went into the hash. */
  method StreamSlice(content: seq<byte>, badAt: Option<nat>, offset: nat, limit: nat, conn: Conn, r: RequestId)
    returns (complete: bool, reachedEof: bool, sent: seq<byte>)
    requires conn.Valid() && limit > 0
    modifies conn
    ensures conn.Valid()
    ensures conn.attempted == old(conn.attempted) + Tagged(r, ChunksOf(sent))
    ensures var wanted := Cut(content, offset, limit);
            var readable := Readable(badAt, offset, wanted);
            && sent <= readable
            && (complete ==> |sent| == |wanted| && conn.WritesLeft() == old(conn.WritesLeft()) - ChunkCount(|wanted|))
            && (!complete ==> Damaged(badAt, offset, wanted) || ChunkCount(|readable|) > old(conn.WritesLeft()))
            && (complete ==> (reachedEof <==> |wanted| < limit))
            && (ChunkCount(|readable|) <= old(conn.WritesLeft()) ==> |sent| == |readable|)
  {
    ghost var readable := Readable(badAt, offset, Cut(content, offset, limit));
    ghost var before := conn.attempted;
    var seqNo := 0;
    complete, reachedEof, sent := true, false, [];
    while |sent| < limit
      invariant sent <= readable && InStep(|sent|, seqNo, limit)
      invariant conn.Valid() && conn.WritesLeft() == old(conn.WritesLeft()) - seqNo
      invariant conn.attempted == before + Tagged(r, ChunksOf(sent))
    {
      InStepIsFull(|sent|, seqNo, limit);
      var data, status, ok := StreamOne(content, badAt, offset, limit, conn, r, seqNo, sent, before);
      if data != [] {
        NextInStep(|sent|, seqNo, limit, |data|);
      }
      sent := sent + data;
      CountMonotone(|sent|, |readable|);
      if !ok || status == DeviceError {
        complete := false;
        return;
      }
      if status == Eof {
        reachedEof := true;
        return;
      }
      seqNo := seqNo + 1;
    }
  }
}
