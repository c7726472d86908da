/**
 Runs of the upload-and-echo resource with pieces and block requests in any order: what the
 array holds, and which bytes an answer shows.
 */
module EchoRuns {
  import opened Text
  import opened Echo
  import opened EchoTransfer

  // ----- pieces stored over one another -----

  ghost predicate AllStorable(pieces: seq<Post>) {
    forall k | 0 <= k < |pieces| :: Storable(pieces[k])
  }

  /** The state after the engine has stored the pieces one by one. */
  function StoreAll(st: State, pieces: seq<Post>): (r: State)
    requires ValidState(st) && AllStorable(pieces)
    ensures ValidState(r)
  {
    if pieces == [] then st
    else Stored(StoreAll(st, pieces[..|pieces| - 1]), pieces[|pieces| - 1])
  }

  predicate Inside(post: Post, p: nat) {
    post.at <= p < post.at + |post.payload|
  }

  /** The bytes of a piece by their positions. */
  function BytesOf(post: Post): map<nat, byte> {
    map p: nat | p < post.at + |post.payload| && Inside(post, p) :: post.payload[p - post.at]
  }

  /** The positions the pieces cover, each with the byte sent for it last. */
  function Covered(pieces: seq<Post>): map<nat, byte> {
    if pieces == [] then map[] else Covered(pieces[..|pieces| - 1]) + BytesOf(pieces[|pieces| - 1])
  }

  /** In other words, those inside some piece. */
  lemma {:induction false} CoveredBySome(pieces: seq<Post>, p: nat)
    ensures p in Covered(pieces) <==> exists k :: 0 <= k < |pieces| && Inside(pieces[k], p)
  {
    if pieces != [] {
      var n := |pieces| - 1;
      CoveredBySome(pieces[..n], p);
      assert Inside(pieces[n], p) <==> p in BytesOf(pieces[n]);
    }
  }

  /** The end of the last piece. */
  function Length(before: nat, pieces: seq<Post>): nat {
    if pieces == [] then before
    else
      var last := pieces[|pieces| - 1];
      last.at + |last.payload|
  }

  /** Whatever the pieces and their order, covered positions hold the bytes sent, all others what they held before. */
  lemma {:induction false} StoredExactly(st: State, pieces: seq<Post>)
    requires ValidState(st) && AllStorable(pieces)
    ensures StoreAll(st, pieces).len == Length(st.len, pieces)
    ensures forall p: nat | p < MAX_DATA_LEN ::
              StoreAll(st, pieces).msg[p] == if p in Covered(pieces) then Covered(pieces)[p] else st.msg[p]
    ensures forall p | p in Covered(pieces) :: p < MAX_DATA_LEN
  {
    hide Stored, Inside;
    if pieces != [] {
      var front, last := pieces[..|pieces| - 1], pieces[|pieces| - 1];
      StoredExactly(st, front);
      PieceStored(StoreAll(st, front), last);
    }
  }

  lemma PieceStored(st: State, post: Post)
    requires ValidState(st) && Storable(post)
    ensures Stored(st, post).len == post.at + |post.payload|
    ensures forall p: nat | p < MAX_DATA_LEN ::
              Stored(st, post).msg[p] == if p in BytesOf(post) then BytesOf(post)[p] else st.msg[p]
    ensures forall p | p in BytesOf(post) :: p < MAX_DATA_LEN
  {
  }

  // ----- pieces of one upload in any order -----

  /** The pieces are slices of `whole`, each at its own offset. */
  ghost predicate SlicesOf(pieces: seq<Post>, whole: seq<byte>) {
    forall k | 0 <= k < |pieces| ::
      var end := pieces[k].at + |pieces[k].payload|;
      Storable(pieces[k]) && end <= |whole| && pieces[k].payload == whole[pieces[k].at..end]
  }

  lemma {:induction false} SlicesCovered(pieces: seq<Post>, whole: seq<byte>)
    requires SlicesOf(pieces, whole)
    ensures forall p | p in Covered(pieces) :: p < |whole| && Covered(pieces)[p] == whole[p]
  {
    if pieces != [] {
      SlicesCovered(pieces[..|pieces| - 1], whole);
    }
  }

  lemma WholeStored(st: State, whole: Post)
    requires ValidState(st) && Storable(whole) && whole.at == 0
    ensures var next := Stored(st, whole);
            && next.len == |whole.payload| && next.meta == st.meta
            && forall p: nat | p < MAX_DATA_LEN ::
                 next.msg[p] == if p < |whole.payload| then whole.payload[p] else st.msg[p]
  {
  }

  /** Up to n, the arrays agree at all positions that are not covered. */
  ghost predicate AgreeOutside(own: map<nat, byte>, n: nat, a: seq<byte>, b: seq<byte>) {
    n <= |a| && n <= |b| && forall p: nat | p < n :: p in own || a[p] == b[p]
  }

  ghost predicate CoversUpTo(own: map<nat, byte>, n: nat) {
    forall p: nat | p < n :: p in own
  }

  /** An array that does not agree, unless everything is covered. */
  lemma OtherArray(own: map<nat, byte>, n: nat, a: seq<byte>, b: seq<byte>) returns (msg: seq<byte>)
    requires n <= |a| && n <= |b|
    ensures |msg| == |a| && (AgreeOutside(own, n, msg, b) ==> CoversUpTo(own, n))
    ensures CoversUpTo(own, n) ==> forall c: seq<byte> | |c| == |a| :: AgreeOutside(own, n, c, b)
  {
    msg := a;
    if p: nat :| p < n && p !in own {
      msg := a[p := OtherThan(b[p])];
    }
  }

  ghost predicate StoresWhole(st: State, pieces: seq<Post>, whole: Post) {
    ValidState(st) && AllStorable(pieces) && Storable(whole) && StoreAll(st, pieces) == Stored(st, whole)
  }

  /** Over one array, positions left out do no harm if they happen to hold their bytes already. */
  lemma WholeOver(st: State, pieces: seq<Post>, whole: Post)
    requires ValidState(st) && Storable(whole) && whole.at == 0 && SlicesOf(pieces, whole.payload)
    ensures StoresWhole(st, pieces, whole) <==>
            && Length(st.len, pieces) == |whole.payload|
            && AgreeOutside(Covered(pieces), |whole.payload|, st.msg, whole.payload)
  {
    hide StoreAll, Covered, Stored, Length, SlicesOf;
    SlicesCovered(pieces, whole.payload);
    SlicesStorable(pieces, whole.payload);
    var a, b := StoreAll(st, pieces), Stored(st, whole);
    StoredExactly(st, pieces);
    MetaKept(st, pieces);
    WholeStored(st, whole);
    if AgreeOutside(Covered(pieces), |whole.payload|, st.msg, whole.payload) {
      assert forall p: nat | p < MAX_DATA_LEN :: a.msg[p] == b.msg[p];
      assert a.msg == b.msg;
    }
  }

  lemma SlicesStorable(pieces: seq<Post>, whole: seq<byte>)
    requires SlicesOf(pieces, whole)
    ensures AllStorable(pieces)
  {
  }

  /** Storing them is storing `whole` at once, over every array, exactly when they cover it and the last one ends it. */
  lemma AnyOrderStoresWhole(st: State, pieces: seq<Post>, whole: Post)
    requires ValidState(st) && Storable(whole) && whole.at == 0 && SlicesOf(pieces, whole.payload)
    ensures (forall msg | |msg| == MAX_DATA_LEN :: StoresWhole(st.(msg := msg), pieces, whole))
            <==> CoversUpTo(Covered(pieces), |whole.payload|) && Length(st.len, pieces) == |whole.payload|
  {
    hide Covered, Length, SlicesOf, CoversUpTo, AgreeOutside, StoresWhole;
    var n := |whole.payload|;
    forall msg: seq<byte> | |msg| == MAX_DATA_LEN
      ensures StoresWhole(st.(msg := msg), pieces, whole) <==>
              Length(st.len, pieces) == n && AgreeOutside(Covered(pieces), n, msg, whole.payload)
    {
      WholeOver(st.(msg := msg), pieces, whole);
    }
    var msg := OtherArray(Covered(pieces), n, st.msg, whole.payload);
    assert StoresWhole(st.(msg := msg), pieces, whole) ==> AgreeOutside(Covered(pieces), n, msg, whole.payload);
  }

  lemma {:induction false} MetaKept(st: State, pieces: seq<Post>)
    requires ValidState(st) && AllStorable(pieces)
    ensures StoreAll(st, pieces).meta == st.meta
  {
    if pieces != [] {
      MetaKept(st, pieces[..|pieces| - 1]);
    }
  }

  // ----- runs -----

  datatype Event = Piece(post: Post, granted: bool) | Later(offset: int, size: nat, stale: seq<byte>)

  /** Block requests start behind offset 0, over a buffer as big as the engine's. */
  predicate Answerable(event: Event) {
    event.Later? ==> event.offset != 0 && |event.stale| >= COPY_LEN && |event.stale| >= event.size
  }

  function After(st: State, events: seq<Event>): (r: State)
    requires ValidState(st)
    ensures ValidState(r)
  {
    if events == [] then st
    else
      var before := After(st, events[..|events| - 1]);
      match events[|events| - 1]
      case Piece(post, granted) => Upload(before, post, granted).0
      case Later(_, _, _) => before
  }

  /** The pieces a run stores. */
  function StoredIn(events: seq<Event>): seq<Post> {
    if events == [] then []
    else
      var front, last := StoredIn(events[..|events| - 1]), events[|events| - 1];
      if last.Piece? && Storable(last.post) then front + [last.post] else front
  }

  /** Refused pieces and block requests change nothing: array and length are those of the stored pieces alone. */
  lemma {:induction false} RunStores(st: State, events: seq<Event>)
    requires ValidState(st)
    ensures AllStorable(StoredIn(events))
    ensures StoreAll(st, StoredIn(events)).(meta := After(st, events).meta) == After(st, events)
  {
    if events != [] {
      var front, last := events[..|events| - 1], events[|events| - 1];
      RunStores(st, front);
      if last.Piece? && Storable(last.post) {
        StoreMore(st, StoredIn(front), last.post);
      }
    }
  }

  /** The upload begun last: the state it found, and its pieces stored since, in their order. */
  datatype Begun = Begun(before: State, pieces: seq<Post>)

  ghost predicate ValidUpload(upload: Begun) {
    ValidState(upload.before) && AllStorable(upload.pieces)
  }

  /** A stored piece at 0 begins a new upload, any other belongs to the one begun last. */
  function Current(st: State, upload: Begun, post: Post): Begun {
    if !Storable(post) then upload
    else if post.at == 0 then Begun(st, [post])
    else upload.(pieces := upload.pieces + [post])
  }

  datatype Served = Served(event: Event, outcome: Outcome, upload: Begun)

  /** One event: the new state, the upload begun last by then, and the outcome. */
  function Step(st: State, upload: Begun, event: Event): (r: (State, Begun, Outcome))
    requires ValidState(st) && Answerable(event)
    ensures ValidState(r.0)
  {
    match event
    case Piece(post, granted) =>
      var (next, outcome) := Upload(st, post, granted);
      (next, Current(st, upload, post), outcome)
    case Later(offset, size, stale) => (st, upload, FollowUp(st, offset, size, stale).0)
  }

  /** Each outcome of a run, beside the upload begun last. */
  function History(st: State, upload: Begun, events: seq<Event>): seq<Served>
    requires ValidState(st) && forall k | 0 <= k < |events| :: Answerable(events[k])
    decreases |events|
  {
    if events == [] then []
    else
      var (next, now, outcome) := Step(st, upload, events[0]);
      [Served(events[0], outcome, now)] + History(next, now, events[1..])
  }

  /** Array and length are what the upload left over the state it found. */
  ghost predicate Stands(st: State, upload: Begun) {
    && ValidState(st) && ValidUpload(upload)
    && StoreAll(upload.before, upload.pieces).(meta := st.meta) == st
  }

  /**
   Covered positions are shown with the byte sent for them, what the copy does not reach is the
   buffer's, and how long an answer is or whether it is refused depends on the length alone.
   */
  ghost predicate OwnBytes(served: Served) {
    var own, len := Covered(served.upload.pieces), Length(served.upload.before.len, served.upload.pieces);
    match (served.event, served.outcome)
    case (Piece(post, granted), First(meta, payload, more)) =>
      && Storable(post) && !post.more && granted && meta == post.meta
      && |payload| == Min(len, meta.block2Size) && (more <==> len > meta.block2Size)
      && forall i | 0 <= i < |payload| && i in own :: payload[i] == own[i]
    case (Piece(post, _), Dropped) => Storable(post) && !post.more
    case (Piece(post, _), outcome) => outcome == Waiting && (Storable(post) ==> post.more)
    case (Later(offset, size, stale), Block(payload)) =>
      && 0 < offset < len && |payload| == Min(size, len - offset) && |payload| <= |stale|
      && (forall i | 0 <= i < Min(|payload|, COPY_LEN) && offset + i in own :: payload[i] == own[offset + i])
      && forall i | COPY_LEN <= i < |payload| :: payload[i] == stale[i]
    case (Later(offset, _, _), OutOfScope) => !(0 < offset < len)
    case (Later(offset, _, _), outcome) => outcome == Undefined && MAX_DATA_LEN - COPY_LEN < offset < len
  }

  // ----- what an answer depends on -----

  /** Does the answer copy byte `p` of the array, of which `len` bytes are in use? */
  predicate Shows(event: Event, len: nat, p: nat) {
    match event
    case Piece(post, granted) =>
      Storable(post) && !post.more && granted && p < Min(len, post.meta.block2Size)
    case Later(offset, size, _) =>
      && 0 < offset < len && offset + COPY_LEN <= MAX_DATA_LEN
      && offset <= p < len && p < offset + Min(size, COPY_LEN)
  }

  /** The answer in a state in which the event's piece, if any, is stored. */
  function Reply(st: State, event: Event): Outcome
    requires ValidState(st) && Answerable(event)
  {
    match event
    case Piece(post, granted) =>
      if !Storable(post) || post.more then Waiting
      else if granted then FirstBlock(st.(meta := post.meta)) else Dropped
    case Later(offset, size, stale) => FollowUp(st, offset, size, stale).0
  }

  /** Two arrays in use up to the same length are answered alike exactly when they agree where the answer shows them. */
  lemma SameReply(a: State, b: State, event: Event)
    requires ValidState(a) && ValidState(b) && a.len == b.len && Answerable(event)
    ensures Reply(a, event) == Reply(b, event) <==> forall p: nat | Shows(event, a.len, p) :: a.msg[p] == b.msg[p]
  {
    match event
    case Piece(post, granted) =>
      SamePrefix(a.msg, b.msg, Min(a.len, post.meta.block2Size));
    case Later(offset, size, stale) =>
      if 0 < offset < a.len && offset + COPY_LEN <= MAX_DATA_LEN {
        SameBlock(a.msg, b.msg, offset, Min(size, a.len - offset), stale);
      }
  }

  lemma SamePrefix(a: seq<byte>, b: seq<byte>, n: nat)
    requires n <= |a| && n <= |b|
    ensures a[..n] == b[..n] <==> forall p: nat | p < n :: a[p] == b[p]
  {
  }

  lemma SameBlock(a: seq<byte>, b: seq<byte>, o: nat, n: nat, stale: seq<byte>)
    requires o + COPY_LEN <= |a| && o + COPY_LEN <= |b| && COPY_LEN <= |stale| && n <= |stale|
    ensures (a[o..o + COPY_LEN] + stale[COPY_LEN..])[..n] == (b[o..o + COPY_LEN] + stale[COPY_LEN..])[..n]
            <==> forall p: nat | o <= p < o + Min(n, COPY_LEN) :: a[p] == b[p]
  {
    var x, y := a[o..o + COPY_LEN] + stale[COPY_LEN..], b[o..o + COPY_LEN] + stale[COPY_LEN..];
    SamePrefix(x, y, n);
    assert forall i: nat | i < COPY_LEN :: x[i] == a[o + i] && y[i] == b[o + i];
    assert forall p: nat | o <= p < o + Min(n, COPY_LEN) :: a[p] == x[p - o] && b[p] == y[p - o];
  }

  /** The answer, had the array held `msg` before the upload was begun. */
  function ReplyOver(msg: seq<byte>, upload: Begun, event: Event): Outcome
    requires ValidUpload(upload) && |msg| == MAX_DATA_LEN && Answerable(event)
  {
    Reply(StoreAll(upload.before.(msg := msg), upload.pieces), event)
  }

  /** The answer shows nothing but bytes of the upload. */
  ghost predicate AllOwn(upload: Begun, event: Event) {
    forall p: nat | Shows(event, Length(upload.before.len, upload.pieces), p) :: p in Covered(upload.pieces)
  }

  /** An answer is independent of what the array held before the upload exactly when the upload covers all it shows. */
  lemma AnswerDecides(upload: Begun, event: Event)
    requires ValidUpload(upload) && Answerable(event)
    ensures (forall msg | |msg| == MAX_DATA_LEN ::
               ReplyOver(msg, upload, event) == ReplyOver(upload.before.msg, upload, event))
            <==> AllOwn(upload, event)
  {
    hide StoreAll, Covered, Reply, Shows;
    var st := upload.before;
    StoredExactly(st, upload.pieces);
    if AllOwn(upload, event) {
      forall msg: seq<byte> | |msg| == MAX_DATA_LEN
        ensures ReplyOver(msg, upload, event) == ReplyOver(st.msg, upload, event)
      {
        AnswersCompared(upload, event, msg);
      }
    } else {
      var p: nat :| Shows(event, Length(st.len, upload.pieces), p) && p !in Covered(upload.pieces);
      ShownInside(upload, event, p);
      var msg := st.msg[p := OtherThan(st.msg[p])];
      AnswersCompared(upload, event, msg);
      assert ReplyOver(msg, upload, event) != ReplyOver(st.msg, upload, event);
    }
  }

  /** The bytes follow-up blocks are taken from. */
  function InUse(st: State): seq<byte>
    requires ValidState(st)
  {
    st.msg[..st.len]
  }

  /** They are independent of what the array held before exactly when the pieces cover all of them. */
  lemma CoverDecides(st: State, pieces: seq<Post>)
    requires ValidState(st) && AllStorable(pieces)
    ensures (forall msg | |msg| == MAX_DATA_LEN ::
               InUse(StoreAll(st.(msg := msg), pieces)) == InUse(StoreAll(st, pieces)))
            <==> CoversUpTo(Covered(pieces), Length(st.len, pieces))
  {
    hide StoreAll, Covered, Length, InUse, CoversUpTo, AgreeOutside;
    StoredExactly(st, pieces);
    var n := Length(st.len, pieces);
    forall msg: seq<byte> | |msg| == MAX_DATA_LEN
      ensures InUse(StoreAll(st.(msg := msg), pieces)) == InUse(StoreAll(st, pieces)) <==>
              AgreeOutside(Covered(pieces), n, msg, st.msg)
    {
      InUseOver(st, pieces, msg);
    }
    var msg := OtherArray(Covered(pieces), n, st.msg, st.msg);
    assert InUse(StoreAll(st.(msg := msg), pieces)) == InUse(StoreAll(st, pieces)) ==>
           AgreeOutside(Covered(pieces), n, msg, st.msg);
  }

  lemma InUseOver(st: State, pieces: seq<Post>, msg: seq<byte>)
    requires ValidState(st) && AllStorable(pieces) && |msg| == MAX_DATA_LEN
    ensures InUse(StoreAll(st.(msg := msg), pieces)) == InUse(StoreAll(st, pieces)) <==>
            AgreeOutside(Covered(pieces), Length(st.len, pieces), msg, st.msg)
  {
    hide StoreAll, Covered, Length;
    StoredExactly(st, pieces);
    StoredExactly(st.(msg := msg), pieces);
    SamePrefix(StoreAll(st.(msg := msg), pieces).msg, StoreAll(st, pieces).msg, Length(st.len, pieces));
  }

  lemma ShownInside(upload: Begun, event: Event, p: nat)
    requires ValidUpload(upload) && Shows(event, Length(upload.before.len, upload.pieces), p)
    ensures p < MAX_DATA_LEN
  {
  }

  lemma AnswersCompared(upload: Begun, event: Event, msg: seq<byte>)
    requires ValidUpload(upload) && Answerable(event) && |msg| == MAX_DATA_LEN
    ensures ReplyOver(msg, upload, event) == ReplyOver(upload.before.msg, upload, event) <==>
            forall p: nat | p < MAX_DATA_LEN && Shows(event, Length(upload.before.len, upload.pieces), p) ::
              p in Covered(upload.pieces) || msg[p] == upload.before.msg[p]
  {
    hide StoreAll, Covered, Reply, Shows;
    var st := upload.before;
    var other := st.(msg := msg);
    StoredExactly(st, upload.pieces);
    StoredExactly(other, upload.pieces);
    SameReply(StoreAll(other, upload.pieces), StoreAll(st, upload.pieces), event);
    forall p: nat | Shows(event, Length(st.len, upload.pieces), p)
      ensures p < MAX_DATA_LEN
    {
      ShownInside(upload, event, p);
    }
  }

  // ----- every run -----

  lemma StepStands(st: State, upload: Begun, event: Event)
    requires Stands(st, upload) && Answerable(event)
    ensures var (next, now, outcome) := Step(st, upload, event);
            Stands(next, now) && Reply(next, event) == outcome
  {
    hide StoreAll, Stored;
    if event.Piece? && Storable(event.post) {
      if event.post.at == 0 {
        StoreOne(st, event.post);
      } else {
        StoreMore(upload.before, upload.pieces, event.post);
        MetaUnread(StoreAll(upload.before, upload.pieces), st.meta, event.post);
      }
    }
  }

  lemma MetaUnread(st: State, meta: Metadata, post: Post)
    requires ValidState(st) && Storable(post)
    ensures Stored(st.(meta := meta), post) == Stored(st, post).(meta := meta)
  {
  }

  lemma StoreOne(st: State, post: Post)
    requires ValidState(st) && Storable(post)
    ensures StoreAll(st, [post]) == Stored(st, post)
  {
    assert [post][..0] == [];
  }

  lemma StoreMore(st: State, pieces: seq<Post>, post: Post)
    requires ValidState(st) && AllStorable(pieces) && Storable(post)
    ensures AllStorable(pieces + [post])
    ensures StoreAll(st, pieces + [post]) == Stored(StoreAll(st, pieces), post)
  {
    assert (pieces + [post])[..|pieces|] == pieces;
  }

  /** In every state of a run, an answer is the one its upload gives. */
  lemma OwnReply(st: State, upload: Begun, event: Event)
    requires Stands(st, upload) && Answerable(event)
    ensures OwnBytes(Served(event, Reply(st, event), upload))
    ensures Reply(st, event) == ReplyOver(upload.before.msg, upload, event)
  {
    hide StoreAll, Covered;
    StoredExactly(upload.before, upload.pieces);
  }

  /** Its covered bytes are shown, and it depends on the array found exactly when it shows others. */
  ghost predicate Exact(served: Served) {
    && ValidUpload(served.upload) && Answerable(served.event) && OwnBytes(served)
    && ((forall msg | |msg| == MAX_DATA_LEN :: ReplyOver(msg, served.upload, served.event) == served.outcome)
        <==> AllOwn(served.upload, served.event))
  }

  lemma {:induction false} ExactFrom(st: State, upload: Begun, events: seq<Event>, i: nat)
    requires Stands(st, upload) && (forall k | 0 <= k < |events| :: Answerable(events[k])) && i < |events|
    ensures var h := History(st, upload, events);
            |h| == |events| && h[i].event == events[i] && Exact(h[i])
    decreases |events|
  {
    hide OwnBytes, ReplyOver, AllOwn, Reply, Step;
    var (next, now, outcome) := Step(st, upload, events[0]);
    var h := History(st, upload, events);
    StepStands(st, upload, events[0]);
    OwnReply(next, now, events[0]);
    AnswerDecides(now, events[0]);
    assert h[1..] == History(next, now, events[1..]);
    if |events| > 1 {
      ExactFrom(next, now, events[1..], if i > 0 then i - 1 else 0);
    }
  }

  /**
   In every run from any state, with pieces in any order, repeated, or leaving gaps, each answer shows the
   bytes of the upload begun last wherever that covers them, and depends on what the array held before
   that upload exactly when it shows a position the upload does not cover.
   */
  lemma NoStaleData(st: State, events: seq<Event>, i: nat)
    requires ValidState(st) && (forall k | 0 <= k < |events| :: Answerable(events[k])) && i < |events|
    ensures var h := History(st, Begun(st, []), events);
            |h| == |events| && h[i].event == events[i] && Exact(h[i])
  {
    hide History, Exact;
    ExactFrom(st, Begun(st, []), events, i);
  }

  // ----- two inputs -----

  /** Behind 256 sevens, a new upload of pieces at 0 and at 96 is answered with 16 of its bytes and 16 sevens. */
  lemma GapShowsEarlierUpload(meta: Metadata)
    requires meta.block2Size == 32
    ensures var sevens, piece := Repeat(256, 7), Repeat(16, 1);
            var begun := Upload(State(sevens, 256, meta), Post(0, piece, true, meta), true).0;
            Upload(begun, Post(96, piece, false, meta), true).1 == First(meta, piece + sevens[..16], true)
  {
    var sevens, piece := Repeat(256, 7), Repeat(16, 1);
    var begun := Upload(State(sevens, 256, meta), Post(0, piece, true, meta), true).0;
    var done := Upload(begun, Post(96, piece, false, meta), true).0;
    assert begun.msg == piece + sevens[16..];
    assert done.msg[..96] == begun.msg[..96];
    assert done.msg[..32] == begun.msg[..32] == piece + sevens[..16];
  }

  /** Delayed, repeated and overtaken pieces do no harm: the array holds the whole upload in the end. */
  lemma DelayedPieces(st: State, a: Post, b: Post, c: Post, d: Post, whole: Post)
    requires ValidState(st) && Storable(whole) && whole.at == 0 && |whole.payload| == 64
    requires (a.at, b.at, c.at, d.at) == (0, 16, 32, 48)
    requires |a.payload| == |b.payload| == |c.payload| == |d.payload| == 16
    requires SlicesOf([a, c, b, c, d], whole.payload)
    ensures StoresWhole(st, [a, c, b, c, d], whole)
  {
    hide Covered, SlicesOf, StoresWhole;
    var pieces := [a, c, b, c, d];
    AnyOrderStoresWhole(st, pieces, whole);
    forall p: nat | p < 64
      ensures p in Covered(pieces)
    {
      FivePieces(a, b, c, d, p);
    }
    assert st.(msg := st.msg) == st;
  }

  lemma FivePieces(a: Post, b: Post, c: Post, d: Post, p: nat)
    requires (a.at, b.at, c.at, d.at) == (0, 16, 32, 48)
    requires |a.payload| == |b.payload| == |c.payload| == |d.payload| == 16 && p < 64
    ensures p in Covered([a, c, b, c, d])
  {
    hide Covered;
    var pieces := [a, c, b, c, d];
    CoveredBySome(pieces, p);
    assert Inside(pieces[0], p) || Inside(pieces[1], p) || Inside(pieces[2], p) || Inside(pieces[4], p);
  }
}
