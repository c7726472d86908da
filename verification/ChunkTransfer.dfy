/**
 The command line client downloading the chunk resource at one block size. The server side
 is the engine's block mapping (RFC 7959, sections 2.2 and 2.4): block k at size s is offset
 k * s, and the more flag is set when the handler does not return -1. A confirmable request
 is answered in its acknowledgement, any other in a non-confirmable message; the resource
 has a handler for GET only, and other methods get an error without Block2.
 */
module ChunkTransfer {
  import opened Text
  import opened Blockwise
  import opened Chunks
  import opened GcoapCli

  datatype Exchange = Exchange(request: Request, pdu: Pdu, payload: string)

  function BlockNum(request: Request): nat {
    match request.block2
    case None => 0
    case Some(wanted) => wanted.num
  }

  function Answer(request: Request, s: nat): Exchange {
    var k := BlockNum(request);
    var (reply, next) := Serve(k * s, s);
    var msgType := if request.msgType == Con then Ack else Non;
    if request.code != Get then Exchange(request, Pdu(msgType, None), "")
    else Exchange(request, Pdu(msgType, if reply.Content? then Some(Block(k, next != -1, s)) else None), reply.payload)
  }

  /** The whole run: every response goes to the client's callback, its request to the server. */
  function Run(path: string, request: Request, s: nat): seq<Exchange>
    requires s > 0
    decreases CHUNKS_TOTAL - BlockNum(request) * s
  {
    var answer := Answer(request, s);
    [answer] +
    match FollowOn(path, Answered, answer.pdu)
    case None => []
    case Some(next) =>
      assert BlockNum(next) * s > BlockNum(request) * s by { Scaled(BlockNum(request), BlockNum(next), s); }
      Run(path, next, s)
  }

  function Received(run: seq<Exchange>): string {
    if run == [] then "" else run[0].payload + Received(run[1..])
  }

  /** The request for block k of a transfer: the user's own at first, then the callback's. */
  function Nth(first: Request, path: string, s: nat, k: nat): Request {
    if k == 0 then first else Request(Get, path, first.msgType, Some(BlockWanted(k, s)), None, "")
  }

  /** The exchange expected for block k. */
  ghost predicate ExpectedAt(e: Exchange, k: nat, first: Request, path: string, s: nat)
    requires s > 0
  {
    && e.request == Nth(first, path, s, k)
    && k * s < CHUNKS_TOTAL
    && e.pdu.block2 == Some(Block(k, k + 1 < BlockCount(CHUNKS_TOTAL, s), s))
    && |e.payload| == Min(s, CHUNKS_TOTAL - k * s)
    && e.payload == Representation(s)[k * s..k * s + |e.payload|]
  }

  predicate UserRequest(r: Request) {
    r.code == Get && r.block2 == None && (r.msgType == Con || r.msgType == Non)
  }

  lemma AnswerExpected(first: Request, path: string, s: nat, k: nat)
    requires s > 0 && UserRequest(first) && k * s < CHUNKS_TOTAL
    ensures ExpectedAt(Answer(Nth(first, path, s, k), s), k, first, path, s)
    ensures Answer(Nth(first, path, s, k), s).pdu.msgType == if first.msgType == Con then Ack else Non
  {
    BlockIsSlice(k, s);
    LastBlock(CHUNKS_TOTAL, s, k);
  }

  lemma RunStep(first: Request, path: string, s: nat, k: nat)
    requires s > 0 && UserRequest(first) && path != "" && k * s < CHUNKS_TOTAL
    ensures var run, count := Run(path, Nth(first, path, s, k), s), BlockCount(CHUNKS_TOTAL, s);
            && run != [] && ExpectedAt(run[0], k, first, path, s) && k < count
            && run[1..] == (if k + 1 < count then Run(path, Nth(first, path, s, k + 1), s) else [])
            && (k + 1 < count ==> (k + 1) * s < CHUNKS_TOTAL)
  {
    AnswerExpected(first, path, s, k);
    LastBlock(CHUNKS_TOTAL, s, k);
    assert (k + 1) * s == k * s + s;
  }

  /** The exchanges are those expected for blocks k, k + 1, and so on. */
  ghost predicate ExpectedFrom(run: seq<Exchange>, k: nat, first: Request, path: string, s: nat)
    requires s > 0
    decreases |run|
  {
    run != [] ==> ExpectedAt(run[0], k, first, path, s) && ExpectedFrom(run[1..], k + 1, first, path, s)
  }

  lemma {:induction false} ExpectedIndex(run: seq<Exchange>, k: nat, first: Request, path: string, s: nat, i: nat)
    requires s > 0 && i < |run| && ExpectedFrom(run, k, first, path, s)
    ensures ExpectedAt(run[i], k + i, first, path, s)
    decreases i
  {
    if i > 0 {
      ExpectedIndex(run[1..], k + 1, first, path, s, i - 1);
    }
  }

  lemma {:induction false} RunFrom(first: Request, path: string, s: nat, k: nat)
    requires s > 0 && UserRequest(first) && path != "" && k * s < CHUNKS_TOTAL
    ensures var run := Run(path, Nth(first, path, s, k), s);
            && k + |run| == BlockCount(CHUNKS_TOTAL, s)
            && ExpectedFrom(run, k, first, path, s)
    decreases BlockCount(CHUNKS_TOTAL, s) - k
  {
    RunStep(first, path, s, k);
    if k + 1 < BlockCount(CHUNKS_TOTAL, s) {
      RunFrom(first, path, s, k + 1);
    }
  }

  /** Blocks k, k + 1, ... up to the last one join to the rest of the representation. */
  lemma {:induction false} ReceivedFrom(run: seq<Exchange>, k: nat, o: nat, first: Request, path: string, s: nat)
    requires s > 0 && run != [] && ExpectedFrom(run, k, first, path, s)
    requires k + |run| == BlockCount(CHUNKS_TOTAL, s) && o == k * s
    ensures o < CHUNKS_TOTAL && Received(run) == Representation(s)[o..]
    decreases |run|
  {
    SliceAt(run[0], k, o, first, path, s);
    if |run| > 1 {
      ReceivedFrom(run[1..], k + 1, o + s, first, path, s);
      SplitAt(Representation(s), o, o + s);
    } else {
      assert run[1..] == [];
    }
  }

  lemma SliceAt(e: Exchange, k: nat, o: nat, first: Request, path: string, s: nat)
    requires s > 0 && o == k * s && ExpectedAt(e, k, first, path, s)
    ensures o < CHUNKS_TOTAL && o + s == (k + 1) * s
    ensures |e.payload| == Min(s, CHUNKS_TOTAL - o) && e.payload == Representation(s)[o..o + |e.payload|]
    ensures CHUNKS_TOTAL <= o + s <==> k + 1 == BlockCount(CHUNKS_TOTAL, s)
  {
    LastBlock(CHUNKS_TOTAL, s, k);
  }

  lemma SplitAt(r: string, a: nat, b: nat)
    requires a <= b <= |r|
    ensures r[a..] == r[a..b] + r[b..]
  {
  }

  /** A GET of the user's path, in the type asked for, for block i; no block is named at first. */
  predicate AsksFor(request: Request, c: Command, i: nat, s: nat) {
    && request.code == Get && request.path == c.path
    && request.msgType == (if c.confirmable then Con else Non)
    && request.block2 == (if i == 0 then None else Some(BlockWanted(i, s)))
  }

  lemma ExpectedAsks(e: Exchange, c: Command, k: nat, s: nat)
    requires s > 0 && c.code == Get && ExpectedAt(e, k, RequestOf(c), c.path, s)
    ensures AsksFor(e.request, c, k, s)
  {
    hide Representation;
  }

  lemma ExpectedReads(e: Exchange, k: nat, o: nat, first: Request, path: string, s: nat)
    requires s > 0 && o == k * s && ExpectedAt(e, k, first, path, s)
    ensures OffsetOverAndOver(e.payload, o)
  {
    hide OffsetOverAndOver, Representation, BlockBytes, ExpectedAt;
    SliceAt(e, k, o, first, path, s);
    BlockSlice(k, o, s);
  }

  lemma ExpectedBlock(e: Exchange, c: Command, k: nat, s: nat)
    requires s > 0 && c.code == Get && ExpectedAt(e, k, RequestOf(c), c.path, s)
    ensures AsksFor(e.request, c, k, s) && OffsetOverAndOver(e.payload, k * s)
  {
    hide ExpectedAt, OffsetOverAndOver, AsksFor;
    ExpectedAsks(e, c, k, s);
    Scaled(0, k, s);
    ExpectedReads(e, k, k * s, RequestOf(c), c.path, s);
  }

  lemma BlockSlice(k: nat, o: nat, s: nat)
    requires s > 0 && o == k * s && o < CHUNKS_TOTAL
    ensures |BlockBytes(k, s)| == Min(s, CHUNKS_TOTAL - o)
    ensures BlockBytes(k, s) == Representation(s)[o..o + |BlockBytes(k, s)|]
    ensures OffsetOverAndOver(BlockBytes(k, s), o)
  {
    hide Representation, BlockBytes, OffsetOverAndOver, Tag, ReadTags;
    BlockIsSlice(k, s);
    BlockReads(k, s);
  }

  /**
   With a path the client can retain, the run asks for blocks 0, 1, 2, ... without gap or
   repeat, each in the user's own message type, ends after ceil(2050 / s) responses, only the
   last of which is shorter than s or has the more flag clear, and delivers the whole
   representation, whose block i is its own offset i * s between bars over and over.
   */
  lemma CompleteTransfer(c: Command, s: nat)
    requires s > 0 && c.code == Get && 0 < |c.path| <= 31
    ensures var run := Run(Retained(c.path), RequestOf(c), s);
            && |run| == BlockCount(CHUNKS_TOTAL, s) == (2050 + s - 1) / s
            && (forall i | 0 <= i < |run| ::
                  && ExpectedAt(run[i], i, RequestOf(c), c.path, s)
                  && AsksFor(run[i].request, c, i, s)
                  && OffsetOverAndOver(run[i].payload, i * s))
            && Received(run) == Representation(s)
  {
    hide OffsetOverAndOver, AsksFor;
    assert BlockCount(CHUNKS_TOTAL, s) == (2050 + s - 1) / s;
    hide BlockCount, Run, ExpectedAt, Representation;
    RunFrom(RequestOf(c), c.path, s, 0);
    ReceivedFrom(Run(c.path, RequestOf(c), s), 0, 0, RequestOf(c), c.path, s);
    var run := Run(c.path, RequestOf(c), s);
    forall i | 0 <= i < |run|
      ensures ExpectedAt(run[i], i, RequestOf(c), c.path, s)
      ensures AsksFor(run[i].request, c, i, s) && OffsetOverAndOver(run[i].payload, i * s)
    {
      ExpectedIndex(run, 0, RequestOf(c), c.path, s, i);
      ExpectedBlock(run[i], c, i, s);
    }
    assert Representation(s)[0 * s..] == Representation(s);
  }

  /** Exactly when does a command fetch everything: a get whose path fits, or for which one block is enough. */
  lemma TransferCompletes(c: Command, s: nat)
    requires s > 0
    ensures Received(Run(Retained(c.path), RequestOf(c), s)) == Representation(s)
            <==> c.code == Get && (0 < |c.path| <= 31 || s >= 2050)
  {
    if c.code != Get {
      var run := Run(Retained(c.path), RequestOf(c), s);
      assert run == [Answer(RequestOf(c), s)] && run[1..] == [];
    } else if 0 < |c.path| <= 31 {
      CompleteTransfer(c, s);
    } else {
      var run := Run("", RequestOf(c), s);
      AnswerExpected(RequestOf(c), "", s, 0);
      assert run == [Answer(RequestOf(c), s)] && run[1..] == [];
      assert |Representation(s)| == CHUNKS_TOTAL;
    }
  }
}
