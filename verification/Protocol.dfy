/** The messages a client sends about one command, and the client's end of its connection. */
module Protocol {
  import opened Common

  type RequestId = string

  /** Final metadata of a file transfer; every field may be missing on the wire. */
  datatype Meta = Meta(path: Option<string>, size: Option<int>, sha256: Option<string>,
                       truncated: Option<bool>, bytesWritten: Option<int>)

  const NO_META := Meta(None, None, None, None, None)

  datatype Chunk =
    | Stream(stream: Option<string>, data: Option<string>)
    | FileChunk(seqNo: Option<int>, base64: Option<string>)
    | Approval(approved: Option<bool>)
    | Result(exitCode: Option<int>, error: Option<string>, meta: Meta)

  /** One client message: the request it claims to answer, and its content. */
  datatype Wire = Wire(requestId: Option<RequestId>, chunk: Chunk)

  /** What one command's messages look like: at most one approval, then output, then one result. */
  predicate IsSentence(s: seq<Chunk>) {
    |s| > 0 && s[|s| - 1].Result? && IsOpening(s[..|s| - 1])
  }

  /** A sentence that still lacks its result. */
  predicate IsOpening(s: seq<Chunk>) {
    (forall i :: 0 < i < |s| ==> s[i].Stream? || s[i].FileChunk?) && (s != [] ==> !s[0].Result?)
  }

  function Tagged(r: RequestId, s: seq<Chunk>): (w: seq<Wire>)
    ensures |w| == |s|
    ensures forall i :: 0 <= i < |s| ==> w[i] == Wire(Some(r), s[i])
  {
    seq(|s|, i requires 0 <= i < |s| => Wire(Some(r), s[i]))
  }

  lemma TaggedAppend(r: RequestId, a: seq<Chunk>, b: seq<Chunk>)
    ensures Tagged(r, a + b) == Tagged(r, a) + Tagged(r, b)
  {
  }

  /** How many writes in a row the network takes, from number `from` on. */
  function TakenFrom(network: seq<bool>, from: nat): nat
    decreases |network| - from
  {
    if from < |network| && network[from] then 1 + TakenFrom(network, from + 1) else 0
  }

  /** The client's end of the WebSocket. `network` says which writes the network would take; the
      connection keeps the first error it met, and refuses every write from then on. */
  class Conn {
    const network: seq<bool>
    var count: nat
    var broken: bool
    ghost var attempted: seq<Wire>
    ghost var delivered: seq<Wire>

    /** What got through is all that was attempted, or a beginning of it once broken. */
    ghost predicate Valid()
      reads this
    {
      if broken then |delivered| < |attempted| && delivered <= attempted else delivered == attempted
    }

    ghost function WritesLeft(): nat
      reads this
    {
      if broken then 0 else TakenFrom(network, count)
    }

    constructor (network: seq<bool>)
      ensures Valid() && attempted == [] && !broken && WritesLeft() == TakenFrom(network, 0)
    {
      this.network, count, broken := network, 0, false;
      attempted, delivered := [], [];
    }

    method WriteJson(w: Wire) returns (ok: bool)
      requires Valid()
      modifies this
      ensures Valid() && (old(broken) ==> broken)
      ensures ok <==> old(WritesLeft()) > 0
      ensures WritesLeft() == if ok then old(WritesLeft()) - 1 else 0
      ensures attempted == old(attempted) + [w]
      ensures delivered == if ok then old(delivered) + [w] else old(delivered)
    {
      attempted := attempted + [w];
      ok := !broken && count < |network| && network[count];
      if ok {
        delivered := delivered + [w];
      } else {
        broken := true;
      }
      count := count + 1;
    }
  }
}
