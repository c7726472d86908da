/**
 The chunk-wise resource of res-chunks.c: a 2050-byte representation generated piece by
 piece, the byte offset being handed from call to call and set to -1 at the end.

 The preferred size is any natural number and the offset any integer; within the C types
 (uint16_t and int32_t) none of the sums below overflows.
 */
module Chunks {
  import opened Text
  import opened Blockwise

  const CHUNKS_TOTAL: nat := 2050

  datatype Reply = Content(payload: string) | BadOption(payload: string)

  /** What one `"|%ld|"` conversion prints for the offset. */
  function Tag(offset: int): (t: string)
    ensures |t| >= 3
  {
    "|" + Signed(offset) + "|"
  }

  // ----- the tags read back -----

  /** A number between two bars, and the text behind it. */
  function ReadTag(s: string): (r: Option<(int, string)>)
    ensures r.Some? ==> |r.value.1| < |s|
  {
    if s == "" || s[0] != '|' then None
    else
      match ParseInt(s[1..])
      case None => None
      case Some(p) =>
        if p.1 != "" && p.1[0] == '|' && |p.1| < |s| then Some((p.0, p.1[1..])) else None
  }

  /** All whole tags from the start of a text on, and what remains behind them. */
  function ReadTags(s: string): (seq<int>, string)
    decreases |s|
  {
    match ReadTag(s)
    case None => ([], s)
    case Some(tag) =>
      var (numbers, rest) := ReadTags(tag.1);
      ([tag.0] + numbers, rest)
  }

  /** What a tag prints is the offset, whatever follows. */
  lemma TagReads(offset: int, rest: string)
    ensures ReadTag(Tag(offset) + rest) == Some((offset, rest))
  {
    hide Signed, ParseInt;
    var number, behind := Signed(offset), "|" + rest;
    ParseSigned(offset, behind);
    TagParts(number, rest);
  }

  lemma TagParts(number: string, rest: string)
    ensures var s := ("|" + number + "|") + rest;
            s[0] == '|' && s[1..] == number + ("|" + rest) && ("|" + rest)[1..] == rest
  {
  }

  /** A tag cut short is not one. */
  lemma CutTag(offset: int, n: nat)
    requires n < |Tag(offset)|
    ensures ReadTag(Tag(offset)[..n]) == None
  {
    var s := Tag(offset)[..n];
    NoBarInside(offset);
    if n > 0 {
      var p := ParseInt(s[1..]);
      if p.Some? && p.value.1 != "" {
        assert p.value.1[0] == s[n - |p.value.1|];
      }
    }
  }

  lemma NoBarInside(offset: int)
    ensures forall i | 0 < i < |Tag(offset)| - 1 :: Tag(offset)[i] != '|'
  {
    assert forall i | 0 < i < |Tag(offset)| - 1 :: Tag(offset)[i] == Signed(offset)[i - 1];
  }

  /** The first n characters of the tag of `offset` written over and over. */
  function Filled(offset: int, n: nat): (r: string)
    ensures |r| == n
  {
    seq(n, i requires 0 <= i < n => Tag(offset)[i % |Tag(offset)|])
  }

  /** The offset between bars over and over, the last time cut short or not begun. */
  ghost predicate OffsetOverAndOver(payload: string, offset: int) {
    var (numbers, rest) := ReadTags(payload);
    && (forall i | 0 <= i < |numbers| :: numbers[i] == offset)
    && exists more :: more != "" && ReadTag(rest + more) == Some((offset, ""))
  }

  lemma StartReads(offset: int, n: nat)
    requires n < |Tag(offset)|
    ensures OffsetOverAndOver(Tag(offset)[..n], offset) && ReadTags(Tag(offset)[..n]).0 == []
  {
    hide Tag, ReadTag;
    var t := Tag(offset);
    CutTag(offset, n);
    TagReads(offset, "");
    assert t[..n] + t[n..] == t + "";
    assert t[n..] != "" && ReadTag(t[..n] + t[n..]) == Some((offset, ""));
    assert ReadTags(t[..n]) == ([], t[..n]);
  }

  lemma OneMoreReads(offset: int, later: string)
    requires OffsetOverAndOver(later, offset)
    ensures OffsetOverAndOver(Tag(offset) + later, offset)
    ensures |ReadTags(Tag(offset) + later).0| == 1 + |ReadTags(later).0|
  {
    hide Tag, ReadTag;
    TagReads(offset, later);
    assert ReadTags(Tag(offset) + later) == ([offset] + ReadTags(later).0, ReadTags(later).1);
  }

  /** As many whole tags as there is room for, and the start of one more. */
  lemma {:induction false} FilledReads(offset: int, n: nat)
    ensures OffsetOverAndOver(Filled(offset, n), offset)
    ensures |ReadTags(Filled(offset, n)).0| == n / |Tag(offset)|
    decreases n
  {
    hide Tag, ReadTags, OffsetOverAndOver;
    var length := |Tag(offset)|;
    if n < length {
      TagStart(offset, n);
      StartReads(offset, n);
      NoneWhole(n, length);
    } else {
      hide Filled;
      FilledReads(offset, n - length);
      TagThenFilled(offset, n);
      OneMoreReads(offset, Filled(offset, n - length));
      OneTagLess(n, length);
    }
  }

  lemma TagStart(offset: int, n: nat)
    requires n < |Tag(offset)|
    ensures Filled(offset, n) == Tag(offset)[..n]
  {
    hide Tag;
    forall i: nat | i < n
      ensures Filled(offset, n)[i] == Tag(offset)[i]
    {
      ByteOfBlock(0, |Tag(offset)|, i);
    }
  }

  lemma NoneWhole(n: nat, length: nat)
    requires n < length
    ensures n / length == 0
  {
  }

  lemma OneTagLess(n: nat, length: nat)
    requires 0 < length <= n
    ensures n / length == 1 + (n - length) / length
  {
    var q, r := (n - length) / length, (n - length) % length;
    assert n - length == q * length + r;
    assert (q + 1) * length == q * length + length;
    ByteOfBlock(q + 1, length, r);
  }

  lemma TagThenFilled(offset: int, n: nat)
    requires |Tag(offset)| <= n
    ensures Filled(offset, n) == Tag(offset) + Filled(offset, n - |Tag(offset)|)
  {
    hide Tag;
    var length := |Tag(offset)|;
    forall i: nat | i < n
      ensures Filled(offset, n)[i] == (Tag(offset) + Filled(offset, n - length))[i]
    {
      if i >= length {
        OneBlockLess(i, length);
      } else {
        ByteOfBlock(0, length, i);
      }
    }
  }

  /** Reply and new offset for one request. */
  function Serve(offset: int, preferredSize: nat): (Reply, int) {
    if offset >= CHUNKS_TOTAL then (BadOption("BlockOutOfScope"), offset)
    else
      var n := Min(preferredSize, CHUNKS_TOTAL - offset);
      (Content(Filled(offset, n)), if offset + n == CHUNKS_TOTAL then -1 else offset + n)
  }

  /** An error from the total on; before it, the offset over and over, as many bytes as asked for and left. */
  lemma ServedReads(offset: int, preferredSize: nat)
    ensures offset >= 2050 ==> Serve(offset, preferredSize) == (BadOption("BlockOutOfScope"), offset)
    ensures offset < 2050 ==>
              var (reply, next) := Serve(offset, preferredSize);
              && reply.Content? && |reply.payload| == Min(preferredSize, 2050 - offset)
              && OffsetOverAndOver(reply.payload, offset)
              && next == if offset + |reply.payload| == 2050 then -1 else offset + |reply.payload|
  {
    hide Filled, Tag, OffsetOverAndOver;
    if offset < CHUNKS_TOTAL {
      FilledReads(offset, Min(preferredSize, CHUNKS_TOTAL - offset));
    }
  }

  /** A tag printed r times in a row, as the loop of the handler prints it. */
  function Repeated(tag: string, r: nat): string {
    if r == 0 then "" else Repeated(tag, r - 1) + tag
  }

  lemma RepeatedStart(tag: string)
    ensures Repeated(tag, 0) == ""
  {
  }

  lemma RepeatedNext(tag: string, r: nat)
    ensures Repeated(tag, r + 1) == Repeated(tag, r) + tag
  {
  }

  lemma {:induction false} RepeatedLength(tag: string, r: nat)
    ensures |Repeated(tag, r)| == r * |tag|
  {
    if r > 0 {
      RepeatedLength(tag, r - 1);
      assert r * |tag| == (r - 1) * |tag| + |tag|;
    }
  }

  lemma {:induction false} RepeatedAt(tag: string, r: nat, i: nat)
    requires tag != "" && i < |Repeated(tag, r)|
    ensures Repeated(tag, r)[i] == tag[i % |tag|]
  {
    assert r > 0;
    var done := |Repeated(tag, r - 1)|;
    if i < done {
      RepeatedAt(tag, r - 1, i);
    } else {
      RepeatedLength(tag, r - 1);
      ByteOfBlock(r - 1, |tag|, i - done);
    }
  }

  /** Enough tags in a row, cut twice, are the reply. */
  lemma ServedFrom(offset: int, r: nat, preferredSize: nat)
    requires offset < CHUNKS_TOTAL && preferredSize <= |Repeated(Tag(offset), r)|
    ensures var n := Min(preferredSize, CHUNKS_TOTAL - offset);
            var text := Repeated(Tag(offset), r)[..n];
            Serve(offset, preferredSize) == (Content(text), if offset + n == CHUNKS_TOTAL then -1 else offset + n)
  {
    var n := Min(preferredSize, CHUNKS_TOTAL - offset);
    forall i: nat | i < n
      ensures Repeated(Tag(offset), r)[i] == Filled(offset, n)[i]
    {
      RepeatedAt(Tag(offset), r, i);
    }
    assert Repeated(Tag(offset), r)[..n] == Filled(offset, n);
  }

  /** The loop of the handler: tags one behind another until the preferred size is reached. */
  method Generate(buffer: array<char>, preferredSize: nat, offset: int) returns (strpos: nat, ghost rounds: nat)
    requires buffer.Length >= preferredSize + 1
    modifies buffer
    ensures strpos == |Repeated(Tag(offset), rounds)| >= preferredSize
    ensures buffer[..preferredSize] == Repeated(Tag(offset), rounds)[..preferredSize]
  {
    hide Signed, Repeated;
    strpos, rounds := 0, 0;
    RepeatedStart(Tag(offset));
    ghost var text := "";
    while strpos < preferredSize
      invariant text == Repeated(Tag(offset), rounds) && strpos == |text|
      invariant buffer[..Min(strpos, preferredSize)] == text[..Min(strpos, preferredSize)]
      decreases preferredSize - strpos
    {
      ghost var before := buffer[..];
      assert before[..strpos] == text;
      var printed := Snprintf(buffer, strpos, preferredSize - strpos + 1, "|" + Signed(offset) + "|");
      AppendCut(before, buffer[..], text, Tag(offset), preferredSize);
      strpos := strpos + printed;
      RepeatedNext(Tag(offset), rounds);
      rounds, text := rounds + 1, text + Tag(offset);
    }
  }

  /**
   The resource handler. The engine's buffer has one byte more than the preferred size, for
   the NUL of the last `snprintf`.
   */
  method GetHandler(buffer: array<char>, preferredSize: nat, offset: int) returns (reply: Reply, newOffset: int)
    requires buffer.Length >= preferredSize + 1
    modifies buffer
    ensures (reply, newOffset) == Serve(offset, preferredSize)
    ensures offset >= 2050 ==>
              reply == BadOption("BlockOutOfScope") && newOffset == offset && buffer[..] == old(buffer[..])
    ensures offset < 2050 ==>
              && reply.Content? && reply.payload <= buffer[..]
              && |reply.payload| == Min(preferredSize, 2050 - offset)
              && OffsetOverAndOver(reply.payload, offset)
              && newOffset == if offset + |reply.payload| == 2050 then -1 else offset + |reply.payload|
  {
    ServedReads(offset, preferredSize);
    hide Serve, Tag, Repeated, OffsetOverAndOver;
    newOffset := offset;
    if offset >= CHUNKS_TOTAL {
      return BadOption("BlockOutOfScope"), newOffset;
    }
    var strpos, rounds := Generate(buffer, preferredSize, offset);
    ServedFrom(offset, rounds, preferredSize);
    if strpos > preferredSize {
      strpos := preferredSize;
    }
    if offset + strpos > CHUNKS_TOTAL {
      strpos := CHUNKS_TOTAL - offset;
    }
    assert buffer[..strpos] == buffer[..preferredSize][..strpos] == Repeated(Tag(offset), rounds)[..strpos];
    reply := Content(buffer[..strpos]);
    newOffset := newOffset + strpos;
    if newOffset >= CHUNKS_TOTAL {
      newOffset := -1;
    }
  }

  // ----- pieces of sizes that may change at every request -----

  datatype Piece = Piece(start: nat, payload: string, next: int)

  predicate Positive(sizes: seq<nat>) {
    forall i | 0 <= i < |sizes| :: sizes[i] > 0
  }

  /** The pieces delivered from `start` on while the offset is handed back, one request per size. */
  function Walk(start: nat, sizes: seq<nat>): seq<Piece>
    requires start < CHUNKS_TOTAL && Positive(sizes)
    decreases |sizes|
  {
    if sizes == [] then []
    else
      var (reply, next) := Serve(start, sizes[0]);
      [Piece(start, reply.payload, next)] + (if next == -1 then [] else Walk(next, sizes[1..]))
  }

  function Sum(sizes: seq<nat>): nat {
    if sizes == [] then 0 else sizes[0] + Sum(sizes[1..])
  }

  function Joined(pieces: seq<Piece>): string {
    if pieces == [] then "" else pieces[0].payload + Joined(pieces[1..])
  }

  /** A piece carries the bytes of its own stretch, and -1 exactly when it reaches the total. */
  ghost predicate WellCut(piece: Piece) {
    var end := piece.start + |piece.payload|;
    && piece.start < end <= CHUNKS_TOTAL
    && piece.payload == Filled(piece.start, |piece.payload|)
    && piece.next == if end == CHUNKS_TOTAL then -1 else end
  }

  /** The pieces follow one another from `start` on, each starting where the last one ended. */
  ghost predicate Tiled(start: nat, pieces: seq<Piece>)
    decreases |pieces|
  {
    pieces == [] ||
    (pieces[0].start == start && WellCut(pieces[0])
     && (pieces[0].next == -1 ==> |pieces| == 1)
     && (pieces[0].next != -1 ==> Tiled(start + |pieces[0].payload|, pieces[1..])))
  }

  /** The piece delivered for one request. */
  function PieceFor(start: nat, size: nat): (piece: Piece)
    requires start < CHUNKS_TOTAL && size > 0
    ensures piece.start == start && WellCut(piece)
    ensures |piece.payload| == Min(size, CHUNKS_TOTAL - start)
  {
    var (reply, next) := Serve(start, size);
    Piece(start, reply.payload, next)
  }

  lemma WalkStep(start: nat, sizes: seq<nat>)
    requires start < CHUNKS_TOTAL && Positive(sizes) && sizes != []
    ensures var first := PieceFor(start, sizes[0]);
            Walk(start, sizes) == [first] + if first.next == -1 then [] else Walk(first.next, sizes[1..])
  {
  }

  lemma {:induction false} WalkTiled(start: nat, sizes: seq<nat>)
    requires start < CHUNKS_TOTAL && Positive(sizes)
    ensures Tiled(start, Walk(start, sizes))
    decreases |sizes|
  {
    if sizes == [] {
    } else {
      WalkStep(start, sizes);
      hide Walk, PieceFor;
      var first := PieceFor(start, sizes[0]);
      var rest := if first.next == -1 then [] else Walk(first.next, sizes[1..]);
      FirstThenRest(first, rest);
      if first.next != -1 {
        WalkTiled(first.next, sizes[1..]);
      }
    }
  }

  lemma {:induction false} WalkLength(start: nat, sizes: seq<nat>)
    requires start < CHUNKS_TOTAL && Positive(sizes)
    ensures |Joined(Walk(start, sizes))| == Min(Sum(sizes), CHUNKS_TOTAL - start)
    decreases |sizes|
  {
    if sizes == [] {
    } else {
      WalkStep(start, sizes);
      hide Walk, PieceFor;
      var first := PieceFor(start, sizes[0]);
      FirstThenRest(first, if first.next == -1 then [] else Walk(first.next, sizes[1..]));
      if first.next != -1 {
        WalkLength(first.next, sizes[1..]);
      }
    }
  }

  lemma {:induction false} WalkEnd(start: nat, sizes: seq<nat>)
    requires start < CHUNKS_TOTAL && Positive(sizes)
    ensures var pieces := Walk(start, sizes);
            (pieces != [] && pieces[|pieces| - 1].next == -1) <==> Sum(sizes) >= CHUNKS_TOTAL - start
    decreases |sizes|
  {
    if sizes == [] {
    } else {
      WalkStep(start, sizes);
      hide Walk, PieceFor;
      var first := PieceFor(start, sizes[0]);
      if first.next != -1 {
        WalkEnd(first.next, sizes[1..]);
      }
    }
  }

  /**
   Whatever sizes are asked for, the pieces tile an initial stretch of the representation:
   as many bytes as were asked for, never beyond the total, ended by -1 exactly when the
   sizes asked for reach the total.
   */
  lemma Tiling(start: nat, sizes: seq<nat>)
    requires start < CHUNKS_TOTAL && Positive(sizes)
    ensures var pieces := Walk(start, sizes);
            && Tiled(start, pieces)
            && |Joined(pieces)| == Min(Sum(sizes), 2050 - start)
            && ((pieces != [] && pieces[|pieces| - 1].next == -1) <==> Sum(sizes) >= 2050 - start)
  {
    hide Walk, Tiled, Joined, Sum;
    WalkTiled(start, sizes);
    WalkLength(start, sizes);
    WalkEnd(start, sizes);
  }

  lemma FirstThenRest(first: Piece, rest: seq<Piece>)
    ensures ([first] + rest)[1..] == rest
    ensures Joined([first] + rest) == first.payload + Joined(rest)
  {
    assert ([first] + rest)[1..] == rest;
  }

  // ----- one fixed block size -----

  /** The representation a client of block size s receives. */
  function Representation(s: nat): (r: string)
    requires s > 0
    ensures |r| == 2050
  {
    seq(CHUNKS_TOTAL, p requires 0 <= p < CHUNKS_TOTAL => TagChar(p / s * s, p % s))
  }

  function BlockBytes(k: nat, s: nat): (r: string)
    ensures |r| == if k * s < CHUNKS_TOTAL then Min(s, CHUNKS_TOTAL - k * s) else 0
  {
    match Serve(k * s, s).0
    case Content(payload) => payload
    case BadOption(_) => ""
  }

  /** The character at place i among the tags of `offset` in a row. */
  function TagChar(offset: int, i: nat): char {
    Tag(offset)[i % |Tag(offset)|]
  }

  lemma BlockChar(k: nat, s: nat, i: nat)
    requires i < |BlockBytes(k, s)|
    ensures BlockBytes(k, s)[i] == TagChar(k * s, i)
  {
    hide Tag;
  }

  lemma RepresentationAt(s: nat, p: nat)
    requires s > 0 && p < CHUNKS_TOTAL
    ensures Representation(s)[p] == TagChar(p / s * s, p % s)
  {
    hide Tag;
  }

  /** A block is its own offset over and over, in as many whole tags as fit. */
  lemma BlockReads(k: nat, s: nat)
    requires k * s < CHUNKS_TOTAL
    ensures OffsetOverAndOver(BlockBytes(k, s), k * s)
    ensures |ReadTags(BlockBytes(k, s)).0| == |BlockBytes(k, s)| / |Tag(k * s)|
  {
    hide OffsetOverAndOver, Filled, Tag;
    FilledReads(k * s, Min(s, CHUNKS_TOTAL - k * s));
  }

  lemma BlockByte(k: nat, s: nat, i: nat)
    requires i < s && k * s + i < CHUNKS_TOTAL
    ensures Representation(s)[k * s + i] == TagChar(k * s, i)
    ensures i < |BlockBytes(k, s)| && BlockBytes(k, s)[i] == TagChar(k * s, i)
  {
    hide TagChar, BlockBytes, Representation;
    BlockChar(k, s, i);
    ByteOfBlock(k, s, i);
    RepresentationAt(s, k * s + i);
  }

  /** Block k carries bytes k * s up to (k + 1) * s of the representation, cut at the total. */
  lemma BlockIsSlice(k: nat, s: nat)
    requires s > 0 && k * s < CHUNKS_TOTAL
    ensures |BlockBytes(k, s)| == Min(s, CHUNKS_TOTAL - k * s)
    ensures BlockBytes(k, s) == Representation(s)[k * s..k * s + |BlockBytes(k, s)|]
  {
    forall i: nat | i < |BlockBytes(k, s)|
      ensures BlockBytes(k, s)[i] == Representation(s)[k * s + i]
    {
      BlockByte(k, s, i);
    }
  }

  predicate Covers(k: nat, s: nat, p: nat) {
    k * s <= p < k * s + |BlockBytes(k, s)|
  }

  /** Where the bytes of an arriving block go. */
  function Placed(k: nat, s: nat): map<nat, char> {
    map p: nat | p < CHUNKS_TOTAL && Covers(k, s, p) :: BlockBytes(k, s)[p - k * s]
  }

  lemma PlacedBytes(k: nat, s: nat, p: nat)
    requires s > 0
    ensures p in Placed(k, s) <==> p < CHUNKS_TOTAL && p / s == k
    ensures p in Placed(k, s) ==> Placed(k, s)[p] == Representation(s)[p]
  {
    BlockOfByte(p, k, s);
    if p in Placed(k, s) {
      BlockByte(k, s, p - k * s);
    }
  }

  /** A receiver's store after placing each arriving block at its offset. */
  function Reassembled(arrivals: seq<nat>, s: nat): map<nat, char> {
    if arrivals == [] then map[]
    else Reassembled(arrivals[..|arrivals| - 1], s) + Placed(arrivals[|arrivals| - 1], s)
  }

  lemma {:induction false} ReassembledBytes(arrivals: seq<nat>, s: nat, p: nat)
    requires s > 0
    ensures p in Reassembled(arrivals, s) <==> p < CHUNKS_TOTAL && p / s in arrivals
    ensures p in Reassembled(arrivals, s) ==> Reassembled(arrivals, s)[p] == Representation(s)[p]
  {
    if arrivals == [] {
    } else {
      var front, k := arrivals[..|arrivals| - 1], arrivals[|arrivals| - 1];
      ReassembledBytes(front, s, p);
      PlacedBytes(k, s, p);
      assert arrivals == front + [k];
    }
  }

  /** Duplicates and reordering are harmless once every block has arrived. */
  lemma AnyArrivalOrder(arrivals: seq<nat>, s: nat)
    requires s > 0
    requires forall k: nat | k * s < CHUNKS_TOTAL :: k in arrivals
    ensures Reassembled(arrivals, s) == map p: nat | p < CHUNKS_TOTAL :: Representation(s)[p]
  {
    hide Reassembled, Representation;
    forall p: nat
      ensures p in Reassembled(arrivals, s) <==> p < CHUNKS_TOTAL
      ensures p in Reassembled(arrivals, s) ==> Reassembled(arrivals, s)[p] == Representation(s)[p]
    {
      ArrivedByte(arrivals, s, p);
    }
  }

  lemma ArrivedByte(arrivals: seq<nat>, s: nat, p: nat)
    requires s > 0
    requires forall k: nat | k * s < CHUNKS_TOTAL :: k in arrivals
    ensures p in Reassembled(arrivals, s) <==> p < CHUNKS_TOTAL
    ensures p in Reassembled(arrivals, s) ==> Reassembled(arrivals, s)[p] == Representation(s)[p]
  {
    hide Reassembled, Representation;
    ReassembledBytes(arrivals, s, p);
    BlockOfByte(p, p / s, s);
    if p < CHUNKS_TOTAL {
      assert (p / s) * s < CHUNKS_TOTAL;
      assert p / s in arrivals;
    }
  }
}
