/**
 The upload-and-echo resource used as intended: whole uploads in order, and whole downloads.
 */
module EchoTransfer {
  import opened Text
  import opened Blockwise
  import opened Echo

  // ----- uploads -----

  function Join(pieces: seq<seq<byte>>): seq<byte> {
    if pieces == [] then [] else pieces[0] + Join(pieces[1..])
  }

  /** Pieces uploaded in order from byte `at` on: the final state and the answer to the last piece. */
  function UploadAll(st: State, pieces: seq<seq<byte>>, at: nat, meta: Metadata, granted: bool): (r: (State, Outcome))
    requires ValidState(st) && pieces != []
    ensures ValidState(r.0)
    decreases |pieces|
  {
    var step := Upload(st, Post(at, pieces[0], |pieces| > 1, meta), granted);
    if |pieces| == 1 then step
    else UploadAll(step.0, pieces[1..], at + |pieces[0]|, meta, granted)
  }

  /** An upload that does not fit, or whose last piece is empty, gets no separate response. */
  lemma {:induction false} UploadRefused(st: State, pieces: seq<seq<byte>>, at: nat, meta: Metadata, granted: bool)
    requires ValidState(st) && pieces != []
    requires at + |Join(pieces)| > 256 || pieces[|pieces| - 1] == []
    ensures UploadAll(st, pieces, at, meta, granted).1 == Waiting
    decreases |pieces|
  {
    if |pieces| == 1 {
      assert Join(pieces[1..]) == [];
    } else {
      var next := Upload(st, Post(at, pieces[0], true, meta), granted).0;
      UploadRefused(next, pieces[1..], at + |pieces[0]|, meta, granted);
    }
  }

  /** Any other upload, in pieces of any sizes, ends in the state and answer of one made in a single piece. */
  lemma {:induction false} UploadAccepted(st: State, pieces: seq<seq<byte>>, at: nat, meta: Metadata, granted: bool)
    requires ValidState(st) && pieces != []
    requires at + |Join(pieces)| <= 256 && pieces[|pieces| - 1] != []
    ensures Join(pieces) != []
    ensures UploadAll(st, pieces, at, meta, granted) == Upload(st, Post(at, Join(pieces), false, meta), granted)
    decreases |pieces|
  {
    if |pieces| == 1 {
      assert Join(pieces[1..]) == [] && Join(pieces) == pieces[0];
    } else {
      var next := Upload(st, Post(at, pieces[0], true, meta), granted).0;
      UploadAccepted(next, pieces[1..], at + |pieces[0]|, meta, granted);
      UploadInTwo(st, at, pieces[0], Join(pieces[1..]), meta, granted);
    }
  }

  /** Storing a piece and then what follows it stores both behind one another. */
  lemma UploadInTwo(st: State, at: nat, piece: seq<byte>, later: seq<byte>, meta: Metadata, granted: bool)
    requires ValidState(st) && later != [] && at + |piece| + |later| <= MAX_DATA_LEN
    ensures var next := Upload(st, Post(at, piece, true, meta), granted).0;
            Upload(next, Post(at + |piece|, later, false, meta), granted) ==
            Upload(st, Post(at, piece + later, false, meta), granted)
  {
    var next := Upload(st, Post(at, piece, true, meta), granted).0;
    var middle, end := at + |piece|, at + |piece| + |later|;
    assert next.msg[..middle] == st.msg[..at] + piece;
    assert next.msg[end..] == st.msg[end..];
    assert next.msg[..middle] + later + next.msg[end..] == st.msg[..at] + (piece + later) + st.msg[end..];
  }

  /** So the array then holds the whole upload, behind it what it held before. */
  lemma UploadStored(st: State, pieces: seq<seq<byte>>, meta: Metadata, granted: bool)
    requires ValidState(st) && Acceptable(pieces)
    ensures var (done, outcome) := UploadAll(st, pieces, 0, meta, granted);
            && done == State(Join(pieces) + st.msg[|Join(pieces)|..], |Join(pieces)|, meta)
            && outcome == if granted then FirstBlock(done) else Dropped
  {
    UploadAccepted(st, pieces, 0, meta, granted);
    var p := Join(pieces);
    assert st.msg[..0] + p + st.msg[0 + |p|..] == p + st.msg[|p|..];
  }

  // ----- downloads -----

  datatype End = Complete | Refused | Broken

  datatype Download = Download(bytes: seq<byte>, blocks: nat, end: End)

  /** Contents of the engine's buffer at each request; nothing is known but its length. */
  type Buffers = int -> seq<byte>

  ghost predicate BigEnough(stale: Buffers, s: nat) {
    forall o :: |stale(o)| >= COPY_LEN && |stale(o)| >= s
  }

  /** Follow-up requests from offset `o` on, until one returns -1 or is refused. */
  ghost function Fetch(st: State, o: nat, s: nat, stale: Buffers): Download
    requires ValidState(st) && s > 0 && BigEnough(stale, s)
    decreases MAX_DATA_LEN - o
  {
    var (outcome, next) := FollowUp(st, o, s, stale(o));
    match outcome
    case Block(payload) =>
      if next == -1 then Download(payload, 1, Complete)
      else
        var rest := Fetch(st, next, s, stale);
        Download(payload + rest.bytes, 1 + rest.blocks, rest.end)
    case Undefined => Download([], 0, Broken)
    case _ => Download([], 0, Refused)
  }

  /** Offset of the last block of n bytes. */
  function LastOffset(n: nat, s: nat): nat
    requires n > 0 && s > 0
  {
    (n - 1) / s * s
  }

  /** A follow-up block starts where the fixed copy would run beyond the array. */
  predicate Overrun(n: nat, s: nat)
    requires n > 0 && s > 0
  {
    n > s && LastOffset(n, s) > 224
  }

  /** How many bytes of n a download delivers: all, or those up to the first such block. */
  function ServedLength(n: nat, s: nat): nat
    requires n > 0 && s > 0
  {
    if Overrun(n, s) then ((MAX_DATA_LEN - COPY_LEN) / s + 1) * s else n
  }

  lemma LastOffsetFrom(k: nat, o: nat, s: nat, n: nat)
    requires s > 0 && o == k * s && o < n
    ensures if n <= o + s then LastOffset(n, s) == o else LastOffset(n, s) >= o + s
    ensures o + s == (k + 1) * s
  {
    assert (k + 1) * s == k * s + s;
    if n <= o + s {
      BlockOfByte(n - 1, k, s);
    } else {
      assert n - 1 == (n - 1) / s * s + (n - 1) % s;
      Scaled((n - 1) / s, k, s);
      Scaled(k + 1, (n - 1) / s, s);
    }
  }

  /** Block starts up to byte 224 and the first one behind it. */
  lemma FirstBeyond(k: nat, o: nat, s: nat)
    requires s > 0 && o == k * s
    ensures var cut := ((MAX_DATA_LEN - COPY_LEN) / s + 1) * s;
            && (o + COPY_LEN <= MAX_DATA_LEN ==> o + s <= cut)
            && (o + COPY_LEN > MAX_DATA_LEN && o <= cut ==> o == cut)
  {
    var q := (MAX_DATA_LEN - COPY_LEN) / s;
    assert MAX_DATA_LEN - COPY_LEN == q * s + (MAX_DATA_LEN - COPY_LEN) % s;
    assert (q + 1) * s == q * s + s;
    assert (k + 1) * s == k * s + s;
    Scaled(k, q, s);
    Scaled(q + 1, k, s);
    Scaled(k + 1, q + 1, s);
    Scaled(q, k, s);
  }

  /** The block at offset o: what the fixed copy reaches, then buffer contents. */
  function BlockAt(msg: seq<byte>, o: nat, n: nat, stale: seq<byte>): (b: seq<byte>)
    requires o + COPY_LEN <= |msg| && n <= |stale| && COPY_LEN <= |stale|
    ensures |b| == n
  {
    (msg[o..o + COPY_LEN] + stale[COPY_LEN..])[..n]
  }

  /** A download is its first block and then the download from the next offset on. */
  lemma FetchStep(st: State, o: nat, s: nat, stale: Buffers)
    requires ValidState(st) && s > 0 && BigEnough(stale, s)
    ensures Fetch(st, o, s, stale) ==
            if o >= st.len then Download([], 0, Refused)
            else if o + COPY_LEN > MAX_DATA_LEN then Download([], 0, Broken)
            else
              var block := BlockAt(st.msg, o, Min(s, st.len - o), stale(o));
              if st.len - o < s then Download(block, 1, Complete)
              else
                var rest := Fetch(st, o + s, s, stale);
                Download(block + rest.bytes, 1 + rest.blocks, rest.end)
  {
  }

  /** Where a download from offset o ends, after how many bytes and blocks, whatever the buffers hold. */
  lemma {:induction false} FetchEnd(st: State, k: nat, o: nat, s: nat, stale: Buffers)
    requires ValidState(st) && s > 0 && BigEnough(stale, s) && o == k * s && s <= o < st.len
    requires Overrun(st.len, s) ==> o <= ServedLength(st.len, s)
    ensures var d := Fetch(st, o, s, stale);
            && |d.bytes| == ServedLength(st.len, s) - o
            && (d.end == Broken <==> Overrun(st.len, s))
            && (d.end != Broken ==>
                  && d.blocks == BlockCount(st.len - o, s)
                  && d.end == if (st.len - o) % s == 0 then Refused else Complete)
    decreases MAX_DATA_LEN - o
  {
    hide Fetch, FollowUp, BlockAt;
    var rest := st.len - o;
    FetchStep(st, o, s, stale);
    LastOffsetFrom(k, o, s, st.len);
    FirstBeyond(k, o, s);
    if rest < s {
      ShortRest(rest, s);
    } else {
      OneBlockLess(rest, s);
      if rest > s && o + COPY_LEN <= MAX_DATA_LEN {
        FetchEnd(st, k + 1, o + s, s, stale);
      } else {
        FetchStep(st, o + s, s, stale);
        ShortRest(0, s);
      }
    }
  }

  /** Byte j of a download: the copy reaches 32 bytes of each follow-up block, the rest is buffer contents. */
  function Delivered(msg: seq<byte>, s: nat, stale: Buffers, j: nat): byte
    requires s > 0 && j < |msg| && |stale(j / s * s)| >= s
  {
    if j < s || j % s < COPY_LEN then msg[j] else stale(j / s * s)[j % s]
  }

  /** Byte j of the block at offset o, when the copy stays inside the array. */
  lemma BlockDelivered(msg: seq<byte>, k: nat, o: nat, s: nat, n: nat, stale: Buffers, j: nat)
    requires |msg| == MAX_DATA_LEN && s > 0 && BigEnough(stale, s) && o == k * s && s <= o
    requires o + COPY_LEN <= MAX_DATA_LEN && o <= j < o + n <= MAX_DATA_LEN && n <= s
    ensures BlockAt(msg, o, n, stale(o))[j - o] == Delivered(msg, s, stale, j)
  {
    ByteOfBlock(k, s, j - o);
    assert j / s * s == o && j % s == j - o;
    if j - o < COPY_LEN {
      assert (msg[o..o + COPY_LEN] + stale(o)[COPY_LEN..])[j - o] == msg[j];
    } else {
      assert (msg[o..o + COPY_LEN] + stale(o)[COPY_LEN..])[j - o] == stale(o)[j - o];
    }
  }

  lemma {:induction false} FetchByte(st: State, k: nat, o: nat, s: nat, stale: Buffers, j: nat)
    requires ValidState(st) && s > 0 && BigEnough(stale, s) && o == k * s && s <= o <= j
    requires j < o + |Fetch(st, o, s, stale).bytes| && j < MAX_DATA_LEN
    ensures Fetch(st, o, s, stale).bytes[j - o] == Delivered(st.msg, s, stale, j)
    decreases MAX_DATA_LEN - o
  {
    hide Fetch, FollowUp, Delivered, BlockAt;
    FetchStep(st, o, s, stale);
    if j < o + s {
      BlockDelivered(st.msg, k, o, s, Min(s, st.len - o), stale, j);
    } else {
      assert o + s == (k + 1) * s by { Scaled(k, k + 1, s); assert (k + 1) * s == k * s + s; }
      FetchByte(st, k + 1, o + s, s, stale, j);
    }
  }

  // ----- echo -----

  /** What a client puts together: the separate response's block, then the follow-up blocks. */
  ghost function Echoed(st: State, pieces: seq<seq<byte>>, meta: Metadata, stale: Buffers): Download
    requires ValidState(st) && pieces != [] && meta.block2Size > 0 && BigEnough(stale, meta.block2Size)
  {
    var (done, outcome) := UploadAll(st, pieces, 0, meta, true);
    match outcome
    case First(_, payload, more) =>
      if more then
        var rest := Fetch(done, meta.block2Size, meta.block2Size, stale);
        Download(payload + rest.bytes, rest.blocks, rest.end)
      else Download(payload, 0, Complete)
    case _ => Download([], 0, Broken)
  }

  /** A completed upload of at least one byte. */
  predicate Acceptable(pieces: seq<seq<byte>>) {
    pieces != [] && pieces[|pieces| - 1] != [] && 0 < |Join(pieces)| <= 256
  }

  /** The first block of an accepted upload, then the follow-ups. */
  lemma EchoedParts(st: State, pieces: seq<seq<byte>>, meta: Metadata, stale: Buffers)
    requires ValidState(st) && Acceptable(pieces) && meta.block2Size > 0 && BigEnough(stale, meta.block2Size)
    ensures var s, p, done := meta.block2Size, Join(pieces), UploadAll(st, pieces, 0, meta, true).0;
            && ValidState(done) && done.len == |p| && done.msg[..|p|] == p
            && Echoed(st, pieces, meta, stale) ==
               if |p| <= s then Download(p, 0, Complete)
               else
                 var rest := Fetch(done, s, s, stale);
                 Download(p[..s] + rest.bytes, rest.blocks, rest.end)
  {
    UploadStored(st, pieces, meta, true);
  }

  /**
   How the echo of an upload ends, whatever the buffers hold: broken, short of the upload,
   exactly when a follow-up block overruns the array; otherwise after ceil(n / s) - 1
   follow-ups, the last of which returns -1 exactly when s does not divide n, one more
   request being refused if it does.
   */
  lemma EndSignal(st: State, pieces: seq<seq<byte>>, meta: Metadata, stale: Buffers)
    requires ValidState(st) && Acceptable(pieces) && meta.block2Size > 0 && BigEnough(stale, meta.block2Size)
    ensures var d, n, s := Echoed(st, pieces, meta, stale), |Join(pieces)|, meta.block2Size;
            && |d.bytes| == ServedLength(n, s)
            && (d.end == Broken <==> Overrun(n, s))
            && (Overrun(n, s) ==> ServedLength(n, s) < n)
            && (!Overrun(n, s) ==>
                  && d.blocks == BlockCount(n, s) - 1
                  && d.end == if n > s && n % s == 0 then Refused else Complete)
  {
    hide Echoed, Fetch, FollowUp, UploadAll;
    var n, s := |Join(pieces)|, meta.block2Size;
    var done := UploadAll(st, pieces, 0, meta, true).0;
    EchoedParts(st, pieces, meta, stale);
    if n > s {
      SecondBlock(n, s);
      FetchEnd(done, 1, s, s, stale);
      OneBlockLess(n, s);
    } else {
      LastBlock(n, s, 0);
    }
  }

  lemma SecondBlock(n: nat, s: nat)
    requires 0 < s < n <= MAX_DATA_LEN
    ensures Overrun(n, s) ==> s <= ServedLength(n, s) < n
  {
    Scaled(1, (MAX_DATA_LEN - COPY_LEN) / s + 1, s);
    BlockOfByte(n - 1, (n - 1) / s, s);
    FirstBeyond((n - 1) / s, LastOffset(n, s), s);
  }

  /** Every byte that arrives, from the upload or from the buffer. */
  lemma EchoedByte(st: State, pieces: seq<seq<byte>>, meta: Metadata, stale: Buffers, j: nat)
    requires ValidState(st) && Acceptable(pieces) && meta.block2Size > 0 && BigEnough(stale, meta.block2Size)
    requires j < ServedLength(|Join(pieces)|, meta.block2Size)
    ensures j < |Join(pieces)| && j < |Echoed(st, pieces, meta, stale).bytes|
    ensures Echoed(st, pieces, meta, stale).bytes[j] == Delivered(Join(pieces), meta.block2Size, stale, j)
  {
    hide Echoed, Fetch, FollowUp, UploadAll;
    var s, p := meta.block2Size, Join(pieces);
    var done := UploadAll(st, pieces, 0, meta, true).0;
    EndSignal(st, pieces, meta, stale);
    EchoedParts(st, pieces, meta, stale);
    assert done.msg[j] == done.msg[..|p|][j];
    if j >= s {
      FetchByte(done, 1, s, s, stale, j);
    }
  }

  /** Without an overrun, the sizes for which no block of n bytes is longer than the copy. */
  predicate CopyReaches(n: nat, s: nat) {
    n <= s || s <= 32 || n <= s + 32
  }

  lemma AllReached(n: nat, s: nat, j: nat)
    requires s > 0 && CopyReaches(n, s) && j < n
    ensures j < s || j % s < COPY_LEN
  {
    if s > COPY_LEN && j >= s {
      ByteOfBlock(1, s, j - s);
    }
  }

  /**
   Whether an upload comes back, in two separate parts. If the array is overrun the download is
   broken and short, whatever the buffers hold. If not, it is complete, and unchanged for all
   buffer contents exactly when the copy reaches every byte; otherwise the first byte it does
   not reach is the buffer's.
   */
  lemma EchoExactly(st: State, pieces: seq<seq<byte>>, meta: Metadata)
    requires ValidState(st) && Acceptable(pieces) && meta.block2Size > 0
    ensures Overrun(|Join(pieces)|, meta.block2Size) ==>
              forall stale | BigEnough(stale, meta.block2Size) ::
                var d := Echoed(st, pieces, meta, stale);
                d.end == Broken && |d.bytes| < |Join(pieces)|
    ensures !Overrun(|Join(pieces)|, meta.block2Size) ==>
              ((forall stale | BigEnough(stale, meta.block2Size) ::
                  Echoed(st, pieces, meta, stale).bytes == Join(pieces))
               <==> CopyReaches(|Join(pieces)|, meta.block2Size))
    ensures !Overrun(|Join(pieces)|, meta.block2Size) && !CopyReaches(|Join(pieces)|, meta.block2Size) ==>
              forall stale | BigEnough(stale, meta.block2Size) ::
                var d := Echoed(st, pieces, meta, stale);
                && d.end != Broken && |d.bytes| == |Join(pieces)|
                && d.bytes[meta.block2Size + COPY_LEN] == stale(meta.block2Size)[COPY_LEN]
  {
    var s, p := meta.block2Size, Join(pieces);
    forall stale: Buffers | BigEnough(stale, s)
      ensures Overrun(|p|, s) ==>
                Echoed(st, pieces, meta, stale).end == Broken && |Echoed(st, pieces, meta, stale).bytes| < |p|
      ensures !Overrun(|p|, s) ==>
                Echoed(st, pieces, meta, stale).end != Broken && |Echoed(st, pieces, meta, stale).bytes| == |p|
      ensures !Overrun(|p|, s) && CopyReaches(|p|, s) ==> Echoed(st, pieces, meta, stale).bytes == p
      ensures !Overrun(|p|, s) && !CopyReaches(|p|, s) ==>
                Echoed(st, pieces, meta, stale).bytes[s + COPY_LEN] == stale(s)[COPY_LEN]
    {
      EndSignal(st, pieces, meta, stale);
      if !Overrun(|p|, s) {
        EchoedBytes(st, pieces, meta, stale);
      }
    }
    var wrong := Constant(s, if |p| > s + COPY_LEN then OtherThan(p[s + COPY_LEN]) else 0);
    assert BigEnough(wrong, s);
  }

  lemma EchoedBytes(st: State, pieces: seq<seq<byte>>, meta: Metadata, stale: Buffers)
    requires ValidState(st) && Acceptable(pieces) && meta.block2Size > 0 && BigEnough(stale, meta.block2Size)
    requires !Overrun(|Join(pieces)|, meta.block2Size)
    ensures |Echoed(st, pieces, meta, stale).bytes| == |Join(pieces)|
    ensures if CopyReaches(|Join(pieces)|, meta.block2Size) then
              Echoed(st, pieces, meta, stale).bytes == Join(pieces)
            else
              Echoed(st, pieces, meta, stale).bytes[meta.block2Size + COPY_LEN] == stale(meta.block2Size)[COPY_LEN]
  {
    var s, p, got := meta.block2Size, Join(pieces), Echoed(st, pieces, meta, stale).bytes;
    EndSignal(st, pieces, meta, stale);
    if CopyReaches(|p|, s) {
      forall j: nat | j < |p|
        ensures got[j] == p[j]
      {
        EchoedByte(st, pieces, meta, stale, j);
        AllReached(|p|, s, j);
      }
    } else {
      EchoedByte(st, pieces, meta, stale, s + COPY_LEN);
      ByteOfBlock(1, s, COPY_LEN);
    }
  }

  function OtherThan(b: byte): (c: byte)
    ensures c != b
  {
    if b == 0 then 1 else 0
  }

  /** Buffers that hold the same byte everywhere. */
  ghost function Constant(s: nat, b: byte): (stale: Buffers)
    ensures BigEnough(stale, s) && forall o :: |stale(o)| > COPY_LEN && stale(o)[COPY_LEN] == b
  {
    o => seq<byte>(COPY_LEN + s + 1, _ => b)
  }

  /**
   At block size 32 every upload comes back unchanged; at 16 those of at most 240 bytes do, and
   of any other exactly the first 240 bytes arrive and the next block is undefined.
   */
  lemma EchoAtSmallSizes(st: State, pieces: seq<seq<byte>>, meta: Metadata, stale: Buffers)
    requires ValidState(st) && Acceptable(pieces) && BigEnough(stale, meta.block2Size)
    requires meta.block2Size == 16 || meta.block2Size == 32
    ensures var d, p := Echoed(st, pieces, meta, stale), Join(pieces);
            if meta.block2Size == 32 || |p| <= 240 then d.end != Broken && d.bytes == p
            else d.end == Broken && d.bytes == p[..240]
  {
    var s, p, got := meta.block2Size, Join(pieces), Echoed(st, pieces, meta, stale).bytes;
    EndSignal(st, pieces, meta, stale);
    SmallSizes(|p|, s);
    forall j: nat | j < |got|
      ensures j < |p| && got[j] == p[j]
    {
      EchoedByte(st, pieces, meta, stale, j);
    }
  }

  lemma SmallSizes(n: nat, s: nat)
    requires 0 < n <= MAX_DATA_LEN && (s == 16 || s == 32)
    ensures Overrun(n, s) <==> s == 16 && n > 240
    ensures Overrun(n, s) ==> ServedLength(n, s) == 240
  {
  }

  function Repeat(n: nat, b: byte): (r: seq<byte>)
    ensures |r| == n && forall i | 0 <= i < n :: r[i] == b
  {
    seq<byte>(n, _ => b)
  }

  lemma JoinOne(p: seq<byte>)
    ensures Join([p]) == p
  {
    var pieces: seq<seq<byte>> := [p];
    assert pieces[1..] == [];
  }

  /** At size 64, an upload of 97 zeros comes back changed by one byte of the buffer. */
  lemma EchoCanChange(st: State, meta: Metadata, stale: Buffers)
    requires ValidState(st) && meta.block2Size == 64 && BigEnough(stale, 64) && stale(64)[32] != 0
    ensures var d := Echoed(st, [Repeat(97, 0)], meta, stale);
            d.end == Complete && d.bytes == Repeat(96, 0) + [stale(64)[32]] && d.bytes != Repeat(97, 0)
  {
    hide Echoed;
    var p := Repeat(97, 0);
    var d := Echoed(st, [p], meta, stale);
    JoinOne(p);
    assert LastOffset(97, 64) == 64 && 97 % 64 == 33;
    EndSignal(st, [p], meta, stale);
    forall j: nat | j < 96
      ensures d.bytes[j] == 0
    {
      EchoedByte(st, [p], meta, stale, j);
      assert j >= 64 ==> j % 64 == j - 64;
    }
    EchoedByte(st, [p], meta, stale, 96);
    assert 96 / 64 * 64 == 64 && 96 % 64 == 32;
    assert d.bytes[96] == stale(64)[32];
    assert d.bytes == Repeat(96, 0) + [stale(64)[32]];
  }
}
