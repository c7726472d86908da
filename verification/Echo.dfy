/**
 The upload-and-echo resource of res-b1-sep-b2.c: a Block1 upload into a 256-byte array, a
 separate response with the first Block2 block, and follow-up blocks served by byte offset.

 Assumed of the engine (RFC 7959, section 2.5): `coap_block1_handler` refuses an empty block
 or one that ends beyond the array, storing nothing; otherwise it stores the block at its
 Block1 offset and sets the length to the end of the block. It returns 0 only for a stored
 block without the more flag. `coap_separate_accept` copies the request's metadata.
 */
module Echo {
  import opened Text

  const MAX_DATA_LEN: nat := 256
  const COPY_LEN: nat := 32

  datatype Metadata = Metadata(endpoint: nat, mid: nat, token: seq<byte>, block2Size: nat)

  /** A POST: its Block1 offset and more flag, its payload, and what `coap_separate_accept` stores. */
  datatype Post = Post(at: nat, payload: seq<byte>, more: bool, meta: Metadata)

  /**
   What the client gets. Waiting: no separate response (an intermediate or refused block);
   Dropped: no transaction could be had; First: the separate response, `more` meaning
   that a Block2 option with the more flag is set; Undefined: the fixed copy of 32 bytes
   would run beyond the end of the array, where C promises nothing.
   */
  datatype Outcome =
    | Waiting
    | Dropped
    | First(meta: Metadata, payload: seq<byte>, more: bool)
    | OutOfScope
    | Block(payload: seq<byte>)
    | Undefined

  /** The static variables: array, length, and metadata of the last completed upload. */
  datatype State = State(msg: seq<byte>, len: nat, meta: Metadata)

  ghost predicate ValidState(st: State) {
    |st.msg| == MAX_DATA_LEN && st.len <= MAX_DATA_LEN
  }

  predicate Storable(post: Post) {
    post.payload != [] && post.at + |post.payload| <= MAX_DATA_LEN
  }

  function Stored(st: State, post: Post): (r: State)
    requires ValidState(st) && Storable(post)
    ensures ValidState(r)
  {
    var end := post.at + |post.payload|;
    st.(msg := st.msg[..post.at] + post.payload + st.msg[end..], len := end)
  }

  function FirstBlock(st: State): Outcome
    requires ValidState(st)
  {
    First(st.meta, st.msg[..Min(st.len, st.meta.block2Size)], st.len > st.meta.block2Size)
  }

  /** One POST handled with offset 0; `granted` says whether a transaction is available. */
  function Upload(st: State, post: Post, granted: bool): (r: (State, Outcome))
    requires ValidState(st)
    ensures ValidState(r.0)
  {
    if !Storable(post) then (st, Waiting)
    else if post.more then (Stored(st, post), Waiting)
    else
      var done := Stored(st, post).(meta := post.meta);
      (done, if granted then FirstBlock(done) else Dropped)
  }

  /**
   One request for a later block, `stale` being what the engine's buffer held before: the
   outcome and the new offset.
   */
  function FollowUp(st: State, offset: int, size: nat, stale: seq<byte>): (Outcome, int)
    requires ValidState(st) && |stale| >= COPY_LEN && |stale| >= size
  {
    if offset < 0 || offset >= st.len then (OutOfScope, offset)
    else if offset + COPY_LEN > MAX_DATA_LEN then (Undefined, offset)
    else
      var filled := st.msg[offset..offset + COPY_LEN] + stale[COPY_LEN..];
      if st.len - offset < size then (Block(filled[..st.len - offset]), -1)
      else (Block(filled[..size]), offset + size)
  }

  class Resource {
    const bigMsg: array<byte>
    var bigMsgLen: nat
    var requestMetadata: Metadata

    ghost predicate Valid()
      reads this
    {
      bigMsg.Length == MAX_DATA_LEN && bigMsgLen <= MAX_DATA_LEN
    }

    ghost function Abstract(): (st: State)
      requires Valid()
      reads this, bigMsg
      ensures ValidState(st)
    {
      State(bigMsg[..], bigMsgLen, requestMetadata)
    }

    constructor ()
      ensures Valid() && fresh(bigMsg) && bigMsgLen == 0
    {
      bigMsg := new byte[MAX_DATA_LEN](_ => 0);
      bigMsgLen := 0;
      requestMetadata := Metadata(0, 0, [], 0);
    }

    /** The engine's Block1 handler, as assumed above. */
    method Block1Handler(post: Post) returns (code: int)
      requires Valid()
      modifies this`bigMsgLen, bigMsg
      ensures Valid()
      ensures code == 0 <==> Storable(post) && !post.more
      ensures Abstract() == if Storable(post) then Stored(old(Abstract()), post) else old(Abstract())
    {
      if |post.payload| == 0 || post.at + |post.payload| > MAX_DATA_LEN {
        return -1;
      }
      forall i | 0 <= i < |post.payload| {
        bigMsg[post.at + i] := post.payload[i];
      }
      bigMsgLen := post.at + |post.payload|;
      assert bigMsg[..] == Stored(old(Abstract()), post).msg;
      code := if post.more then 1 else 0;
    }

    /** `res_post_handler`: `buffer` is the engine's response buffer. */
    method PostHandler(post: Post, buffer: array<byte>, preferredSize: nat, offset: int, granted: bool)
      returns (outcome: Outcome, newOffset: int)
      requires Valid() && buffer != bigMsg
      requires buffer.Length >= COPY_LEN && buffer.Length >= preferredSize
      modifies this, bigMsg, buffer
      ensures Valid()
      ensures offset == 0 ==> (Abstract(), outcome) == Upload(old(Abstract()), post, granted) && newOffset == 0
      ensures offset != 0 ==> Abstract() == old(Abstract())
                              && (outcome, newOffset) == FollowUp(Abstract(), offset, preferredSize, old(buffer[..]))
      ensures offset != 0 && !(0 < offset < bigMsgLen) ==> outcome == OutOfScope && newOffset == offset
    {
      newOffset := offset;
      if offset == 0 {
        var code := Block1Handler(post);
        if code != 0 {
          return Waiting, newOffset;
        }
        requestMetadata := post.meta;
        outcome := Dropped;
        if granted {
          var size := requestMetadata.block2Size;
          var payload := bigMsg[..if bigMsgLen > size then size else bigMsgLen];
          outcome := First(requestMetadata, payload, bigMsgLen > size);
        }
      } else {
        if offset < 0 || offset >= bigMsgLen {
          return OutOfScope, newOffset;
        }
        if offset + COPY_LEN > MAX_DATA_LEN {
          return Undefined, newOffset;
        }
        forall i | 0 <= i < COPY_LEN {
          buffer[i] := bigMsg[offset + i];
        }
        assert buffer[..] == bigMsg[offset..offset + COPY_LEN] + old(buffer[..])[COPY_LEN..];
        var size := preferredSize;
        if bigMsgLen - offset < size {
          size := bigMsgLen - offset;
          newOffset := -1;
        } else {
          newOffset := newOffset + size;
        }
        outcome := Block(buffer[..size]);
      }
    }
  }
}
