/**
 The command line client of gcoap_cli.c: command parsing, the retained request path, the
 request counter and the response callback that asks for the next block.

 Assumed of the library: `gcoap_req_init` builds a non-confirmable request for a method and
 a path; `coap_opt_add_block2_control` adds the Block2 option (number and size, more flag 0).
 */
module GcoapCli {
  import opened Text

  const LAST_REQ_PATH_MAX: nat := 32
  const METHOD_CODES: seq<string> := ["get", "post", "put"]

  const COAP_FORMAT_TEXT: nat := 0

  datatype Method = Get | Post | Put

  const METHODS: seq<Method> := [Get, Post, Put]

  datatype MsgType = Con | Non | Ack | Rst

  datatype Block = Block(num: nat, more: bool, size: nat)

  datatype BlockWanted = BlockWanted(num: nat, size: nat)

  /** A request; the payload of a post or put comes with the Content-Format option. */
  datatype Request = Request(
    code: Method, path: string, msgType: MsgType, block2: Option<BlockWanted>,
    contentFormat: Option<nat>, payload: string)

  datatype MemoState = Answered | TimedOut | Failed

  datatype Pdu = Pdu(msgType: MsgType, block2: Option<Block>)

  // ----- the response callback -----

  /** The request a response calls for, given the retained path. */
  function FollowOn(path: string, memo: MemoState, pdu: Pdu): Option<Request> {
    match (memo, pdu.block2)
    case (Answered, Some(block)) =>
      if block.more && (block.num > 0 || path != "") then
        Some(Request(Get, path, if pdu.msgType == Ack then Con else Non,
                     Some(BlockWanted(block.num + 1, block.size)), None, ""))
      else None
    case _ => None
  }

  // ----- command lines -----

  /** A request command: method, address, port and path, and the data of a post or put. */
  datatype Command = Command(code: Method, confirmable: bool, addr: string, port: string, path: string, data: string)

  datatype Parsed = Help | Info | Usage | Do(command: Command)

  function MethodName(code: Method): string {
    match code
    case Get => "get"
    case Post => "post"
    case Put => "put"
  }

  /** The words of a command as a user types them behind the program name. */
  function Words(c: Command): seq<string> {
    [MethodName(c.code)] + (if c.confirmable then ["-c"] else [])
    + [c.addr, c.port, c.path] + (if c.code == Get then [] else [c.data])
  }

  /** A get carries no data; an address spelt "-c" can only follow the option itself. */
  predicate Typeable(c: Command) {
    (c.code == Get ==> c.data == "") && (c.confirmable || c.addr != "-c")
  }

  function CodeOf(word: string): Option<Method> {
    if word == "get" then Some(Get)
    else if word == "post" then Some(Post)
    else if word == "put" then Some(Put)
    else None
  }

  function Parse(argv: seq<string>): Parsed
    requires |argv| >= 1
  {
    if |argv| == 1 then Help
    else if argv[1] == "info" then Info
    else
      match CodeOf(argv[1])
      case None => Help
      case Some(code) =>
        var confirmable := |argv| > 2 && argv[2] == "-c";
        var apos := if confirmable then 3 else 2;
        if |argv| == apos + (if code == Get then 3 else 4) then
          Do(Command(code, confirmable, argv[apos], argv[apos + 1], argv[apos + 2],
                     if code == Get then "" else argv[apos + 3]))
        else Usage
  }

  /** The command lines accepted are exactly the renderings of typeable commands, read back unchanged. */
  lemma ParsesExactlyWords(argv: seq<string>, c: Command)
    requires |argv| >= 1
    ensures Parse(argv) == Do(c) <==> Typeable(c) && argv[1..] == Words(c)
  {
    if Typeable(c) && argv[1..] == Words(c) {
      assert forall i | 0 <= i < |Words(c)| :: argv[i + 1] == Words(c)[i];
    }
  }

  // ----- the module state -----

  datatype Outcome = Printed(parsed: Parsed) | TooSmall | Sent(request: Request, ok: bool)

  /** The path kept for later blocks: the whole path, or nothing when it does not fit. */
  function Retained(path: string): string {
    if |path| < LAST_REQ_PATH_MAX then path else ""
  }

  function RequestOf(c: Command): Request {
    Request(c.code, c.path, if c.confirmable then Con else Non, None,
            if c.data != "" then Some(COAP_FORMAT_TEXT) else None, c.data)
  }

  /** A request as the words typed ask for it. */
  ghost predicate AsTyped(argv: seq<string>, request: Request) {
    var n := |argv|;
    && n >= 5
    && (argv[1] == "get" <==> request.code == Get)
    && (argv[1] == "post" <==> request.code == Post)
    && (argv[1] == "put" <==> request.code == Put)
    && request.msgType == (if argv[2] == "-c" then Con else Non)
    && request.path == (if argv[1] == "get" then argv[n - 1] else argv[n - 2])
    && request.payload == (if argv[1] == "get" then "" else argv[n - 1])
    && request.contentFormat == (if request.payload == "" then None else Some(0))
    && request.block2 == None
  }

  lemma RequestAsTyped(argv: seq<string>, c: Command)
    requires |argv| >= 1 && Parse(argv) == Do(c)
    ensures AsTyped(argv, RequestOf(c)) && c.path == RequestOf(c).path && c.data == RequestOf(c).payload
  {
  }

  /** Every other line asks for help or information, or shows the usage of a method whose words do not match. */
  lemma NoRequest(argv: seq<string>)
    requires |argv| >= 1
    ensures Parse(argv) == Help <==> |argv| == 1 || argv[1] !in {"info", "get", "post", "put"}
    ensures Parse(argv) == Info <==> |argv| > 1 && argv[1] == "info"
    ensures Parse(argv) == Usage <==>
            && |argv| > 1 && argv[1] in {"get", "post", "put"}
            && forall c | Typeable(c) :: argv[1..] != Words(c)
  {
    match Parse(argv)
    case Do(c) => ParsesExactlyWords(argv, c);
    case _ =>
      forall c | Typeable(c)
        ensures argv[1..] != Words(c)
      {
        ParsesExactlyWords(argv, c);
      }
  }

  class Cli {
    const lastReqPath: array<char>
    var reqCount: nat

    ghost predicate Valid()
      reads this
    {
      lastReqPath.Length == LAST_REQ_PATH_MAX && reqCount < 0x1_0000
    }

    /** The C string held in the path buffer. */
    ghost function Path(): string
      reads lastReqPath
    {
      CString(lastReqPath[..])
    }

    constructor ()
      ensures Valid() && fresh(lastReqPath)
      ensures Path() == "" && reqCount == 0
    {
      lastReqPath := new char[LAST_REQ_PATH_MAX](_ => NUL);
      reqCount := 0;
    }

    method RespHandler(memo: MemoState, pdu: Pdu) returns (next: Option<Request>)
      ensures next == FollowOn(Path(), memo, pdu)
    {
      if memo == TimedOut {
        return None;
      } else if memo == Failed {
        return None;
      }
      next := None;
      if pdu.block2.Some? {
        var block := pdu.block2.value;
        if block.more {
          var pathLen := Strlen(lastReqPath);
          if block.num == 0 && pathLen == 0 {
            return None;
          }
          var request := Request(Get, lastReqPath[..pathLen], Non, None, None, "");
          if pdu.msgType == Ack {
            request := request.(msgType := Con);
          }
          block := block.(num := block.num + 1);
          next := Some(request.(block2 := Some(BlockWanted(block.num, block.size))));
        }
      }
    }

    /** `_send`: `addressed` says whether address and port were understood, `sent` what the library returned. */
    method Send(addressed: bool, sent: nat) returns (bytesSent: nat)
      requires Valid()
      modifies this
      ensures Valid()
      ensures bytesSent == (if addressed then sent else 0)
      ensures reqCount == (if bytesSent > 0 then (old(reqCount) + 1) % 0x1_0000 else old(reqCount))
    {
      if !addressed {
        return 0;
      }
      bytesSent := sent;
      if bytesSent > 0 {
        reqCount := (reqCount + 1) % 0x1_0000;
      }
    }

    method Retain(path: string)
      requires Valid() && NUL !in path
      modifies lastReqPath
      ensures Path() == Retained(path)
    {
      forall i | 0 <= i < lastReqPath.Length {
        lastReqPath[i] := NUL;
      }
      if |path| < LAST_REQ_PATH_MAX {
        forall i | 0 <= i < |path| {
          lastReqPath[i] := path[i];
        }
        assert lastReqPath[..] == path + [NUL] + lastReqPath[|path| + 1..];
        CStringOfTerminated(path, lastReqPath[|path| + 1..]);
      }
    }

    /** Index of a method word in the table, -1 if there is none. */
    method CodePos(word: string) returns (codePos: int)
      ensures -1 <= codePos < |METHODS|
      ensures CodeOf(word) == if codePos == -1 then None else Some(METHODS[codePos])
    {
      codePos := -1;
      for i := 0 to |METHOD_CODES|
        invariant codePos == -1 ==> forall j | 0 <= j < i :: word != METHOD_CODES[j]
        invariant codePos != -1 ==> 0 <= codePos < i && word == METHOD_CODES[codePos]
      {
        if word == METHOD_CODES[i] {
          codePos := i;
        }
      }
      if codePos == -1 {
        assert word != METHOD_CODES[0] && word != METHOD_CODES[1] && word != METHOD_CODES[2];
      }
    }

    /** The part of `gcoap_cli_cmd` behind the argument count check. */
    method SendCommand(c: Command, room: nat, addressed: bool, sent: nat) returns (r: Outcome)
      requires Valid() && NUL !in c.path
      modifies this, lastReqPath
      ensures Valid() && Path() == Retained(c.path)
      ensures r == if |c.data| > room then TooSmall else Sent(RequestOf(c), addressed && sent > 0)
      ensures reqCount == if r.Sent? && r.ok then (old(reqCount) + 1) % 0x1_0000 else old(reqCount)
    {
      var request := Request(c.code, c.path, if c.confirmable then Con else Non, None, None, "");
      Retain(c.path);
      var paylen := |c.data|;
      if paylen > 0 {
        request := request.(contentFormat := Some(COAP_FORMAT_TEXT));
        if room >= paylen {
          request := request.(payload := c.data);
        } else {
          return TooSmall;
        }
      }
      var bytesSent := Send(addressed, sent);
      r := Sent(request, bytesSent > 0);
    }

    /** `gcoap_cli_cmd`: `room` is the payload room of the request, the words are C strings. */
    method Cmd(argv: seq<string>, room: nat, addressed: bool, sent: nat) returns (r: Outcome)
      requires Valid() && |argv| >= 1
      requires forall i | 0 <= i < |argv| :: NUL !in argv[i]
      modifies this, lastReqPath
      ensures Valid()
      ensures match Parse(argv)
              case Do(c) =>
                && Path() == Retained(c.path)
                && AsTyped(argv, RequestOf(c))
                && r == (if |c.data| > room then TooSmall else Sent(RequestOf(c), addressed && sent > 0))
                && reqCount == (if r.Sent? && r.ok then (old(reqCount) + 1) % 0x1_0000 else old(reqCount))
              case parsed => r == Printed(parsed) && Path() == old(Path()) && reqCount == old(reqCount)
    {
      hide CodeOf, Retained, RequestOf, CString, AsTyped;
      if Parse(argv).Do? {
        RequestAsTyped(argv, Parse(argv).command);
      }
      if |argv| == 1 {
        return Printed(Help);
      }
      if argv[1] == "info" {
        return Printed(Info);
      }
      var codePos := CodePos(argv[1]);
      if codePos == -1 {
        return Printed(Help);
      }
      var code := METHODS[codePos];
      var apos, msgType := 2, Non;
      if |argv| > apos && argv[apos] == "-c" {
        msgType := Con;
        apos := apos + 1;
      }
      if (|argv| == apos + 3 && codePos == 0) || (|argv| == apos + 4 && codePos != 0) {
        var data := if |argv| == apos + 4 then argv[apos + 3] else "";
        r := SendCommand(Command(code, msgType == Con, argv[apos], argv[apos + 1], argv[apos + 2], data),
                         room, addressed, sent);
      } else {
        return Printed(Usage);
      }
    }
  }

  // ----- runs of the callback -----

  /** What comes back for a request: the outcome, the message type and the more flag. */
  datatype Answer = Answer(memo: MemoState, msgType: MsgType, more: bool)

  predicate Continues(a: Answer) {
    a.memo == Answered && a.more
  }

  /** The server answers the block asked for. */
  function PduFor(num: nat, size: nat, a: Answer): Pdu {
    Pdu(a.msgType, Some(Block(num, a.more, size)))
  }

  /** Follow-on requests after the request for block `num`, one answer per outstanding request. */
  function FollowOns(path: string, num: nat, size: nat, answers: seq<Answer>): seq<Request>
    decreases |answers|
  {
    if answers == [] then []
    else
      match FollowOn(path, answers[0].memo, PduFor(num, size, answers[0]))
      case None => []
      case Some(request) => [request] + FollowOns(path, num + 1, size, answers[1..])
  }

  /** How many answers in a row ask the client to go on. */
  function Going(answers: seq<Answer>): (n: nat)
    ensures n <= |answers|
    ensures forall i | 0 <= i < n :: Continues(answers[i])
    ensures n < |answers| ==> !Continues(answers[n])
  {
    if answers == [] || !Continues(answers[0]) then 0 else 1 + Going(answers[1..])
  }

  lemma {:induction false} FollowOnsFrom(path: string, num: nat, size: nat, answers: seq<Answer>)
    requires path != "" || num > 0
    ensures var requests := FollowOns(path, num, size, answers);
            && |requests| == Going(answers)
            && forall i | 0 <= i < |requests| ::
                 requests[i] == Request(Get, path, if answers[i].msgType == Ack then Con else Non,
                                        Some(BlockWanted(num + i + 1, size)), None, "")
    decreases |answers|
  {
    if answers == [] || !Continues(answers[0]) {
    } else {
      FollowOnsFrom(path, num + 1, size, answers[1..]);
    }
  }

  /**
   Behind any command: as long as the answers go on, follow-on request i is a GET of the
   user's path for block i + 1, confirmable exactly when answer i was an acknowledgement;
   a path that is empty or too long gets no follow-on at all.
   */
  lemma Continuation(c: Command, size: nat, answers: seq<Answer>)
    ensures var requests := FollowOns(Retained(c.path), 0, size, answers);
            && (0 < |c.path| <= 31 ==>
                  && |requests| == Going(answers)
                  && forall i | 0 <= i < |requests| ::
                       requests[i] == Request(Get, c.path, if answers[i].msgType == Ack then Con else Non,
                                              Some(BlockWanted(i + 1, size)), None, ""))
            && (!(0 < |c.path| <= 31) ==> requests == [])
  {
    if 0 < |c.path| < LAST_REQ_PATH_MAX {
      FollowOnsFrom(c.path, 0, size, answers);
    }
  }
}
