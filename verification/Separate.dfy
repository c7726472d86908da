/**
 The separate-response resource of res-separate.c: one store slot in use, a counter of open
 requests, and a resume handler that answers the request stored last (section 5.2.2 of
 RFC 7252).

 Assumed of the engine: `coap_separate_accept` copies the request's metadata into the slot;
 `coap_separate_resume` starts a response with exactly that metadata.
 */
module Separate {
  import opened Text

  const COAP_MAX_OPEN_SEPARATE: nat := 2
  const INFO_SIZE: nat := 16

  datatype Metadata = Metadata(endpoint: nat, mid: nat, token: seq<byte>, block2Num: nat, block2Size: nat)

  /** A GET with its metadata, or a call of the resume handler, which may get a transaction or not. */
  datatype Event = Get(meta: Metadata) | Resume(granted: bool)

  datatype Response = Response(
    endpoint: nat, mid: nat, token: seq<byte>, block2Num: nat, more: bool, block2Size: nat, payload: string)

  datatype Outcome = Accepted | Rejected | Answered(response: Response) | Nothing

  datatype Slot = Slot(meta: Metadata, info: string)

  datatype State = State(active: nat, slot: Slot)

  predicate Initial(st: State) {
    st.active == 0
  }

  /** The answer owed to a request. */
  function AnswerTo(meta: Metadata): Response {
    Response(meta.endpoint, meta.mid, meta.token, meta.block2Num, false, meta.block2Size, "StoredInfo")
  }

  function Step(st: State, event: Event): (State, Outcome) {
    match event
    case Get(meta) =>
      if st.active >= COAP_MAX_OPEN_SEPARATE then (st, Rejected)
      else (State(st.active + 1, Slot(meta, "StoredInfo")), Accepted)
    case Resume(granted) =>
      if st.active > 0 && granted then
        (st.(active := 0), Answered(AnswerTo(st.slot.meta).(payload := st.slot.info)))
      else (st, Nothing)
  }

  /** What `snprintf` leaves in the slot's buffer. */
  lemma {:induction false} InfoWritten(before: string, after: string)
    requires |before| == INFO_SIZE
    requires var k := Min(|"StoredInfo"|, INFO_SIZE - 1);
             after == before[..0] + "StoredInfo"[..k] + [NUL] + before[0 + k + 1..]
    ensures CString(after) == "StoredInfo"
  {
    hide CString;
    assert after == "StoredInfo" + [NUL] + before[11..];
    CStringOfTerminated("StoredInfo", before[11..]);
  }

  class Resource {
    var separateActive: nat
    /** `request_metadata` of each slot, and `buffer` of the first. */
    const separateStore: array<Metadata>
    const info: array<char>

    ghost predicate Valid()
      reads this
    {
      && separateActive <= COAP_MAX_OPEN_SEPARATE == separateStore.Length
      && info.Length == INFO_SIZE
    }

    ghost function Abstract(): State
      requires Valid()
      reads this, separateStore, info
    {
      State(separateActive, Slot(separateStore[0], CString(info[..])))
    }

    constructor ()
      ensures Valid() && fresh(separateStore) && fresh(info) && Initial(Abstract())
    {
      separateActive := 0;
      separateStore := new Metadata[COAP_MAX_OPEN_SEPARATE](_ => Metadata(0, 0, [], 0, 0));
      info := new char[INFO_SIZE](_ => NUL);
    }

    method GetHandler(meta: Metadata) returns (outcome: Outcome)
      requires Valid()
      modifies this, separateStore, info
      ensures Valid()
      ensures (Abstract(), outcome) == Step(old(Abstract()), Get(meta))
      ensures separateStore[1] == old(separateStore[1])
    {
      if separateActive >= COAP_MAX_OPEN_SEPARATE {
        outcome := Rejected;
      } else {
        separateActive := separateActive + 1;
        separateStore[0] := meta;
        hide CString, Min;
        ghost var before := info[..];
        var _ := Snprintf(info, 0, INFO_SIZE, "StoredInfo");
        InfoWritten(before, info[..]);
        outcome := Accepted;
      }
    }

    method ResumeHandler(granted: bool) returns (outcome: Outcome)
      requires Valid()
      modifies this
      ensures Valid()
      ensures (Abstract(), outcome) == Step(old(Abstract()), Resume(granted))
    {
      outcome := Nothing;
      if separateActive > 0 {
        if granted {
          var meta := separateStore[0];
          var length := Strlen(info);
          outcome := Answered(Response(meta.endpoint, meta.mid, meta.token,
                                       meta.block2Num, false, meta.block2Size, info[..length]));
          separateActive := 0;
        }
      }
    }
  }

  // ----- runs -----

  datatype Entry = Entry(event: Event, outcome: Outcome)

  /** The state and the history after a run from `start`. */
  function Run(start: State, events: seq<Event>): (r: (State, seq<Entry>))
    ensures |r.1| == |events|
  {
    if events == [] then (start, [])
    else
      var (st, history) := Run(start, events[..|events| - 1]);
      var (next, outcome) := Step(st, events[|events| - 1]);
      (next, history + [Entry(events[|events| - 1], outcome)])
  }

  function Accepts(h: seq<Entry>): nat {
    if h == [] then 0 else Accepts(h[..|h| - 1]) + if h[|h| - 1].outcome == Accepted then 1 else 0
  }

  function Answers(h: seq<Entry>): nat {
    if h == [] then 0 else Answers(h[..|h| - 1]) + if h[|h| - 1].outcome.Answered? then 1 else 0
  }

  /** The accepted request waiting for its answer, by its place in the history. */
  function Open(h: seq<Entry>): (i: Option<nat>)
    ensures i.Some? ==> i.value < |h| && h[i.value].outcome == Accepted
    ensures i.Some? ==> forall m | i.value < m < |h| :: h[m].outcome != Accepted && !h[m].outcome.Answered?
  {
    if h == [] then None
    else
      match h[|h| - 1].outcome
      case Accepted => Some(|h| - 1)
      case Answered(_) => None
      case _ => Open(h[..|h| - 1])
  }

  /** Accepted requests whose slot was taken by a later one before they were answered. */
  function Superseded(h: seq<Entry>): nat {
    if h == [] then 0
    else Superseded(h[..|h| - 1]) + if h[|h| - 1].outcome == Accepted && Open(h[..|h| - 1]).Some? then 1 else 0
  }

  /** Accepted requests since the last answer. */
  function AcceptsSinceAnswer(h: seq<Entry>): nat {
    if h == [] then 0
    else
      match h[|h| - 1].outcome
      case Accepted => AcceptsSinceAnswer(h[..|h| - 1]) + 1
      case Answered(_) => 0
      case _ => AcceptsSinceAnswer(h[..|h| - 1])
  }

  /** What holds between state and history at every point of every run. */
  ghost predicate Bookkept(st: State, h: seq<Entry>) {
    && st.active == AcceptsSinceAnswer(h) <= 2
    && (st.active > 0 <==> Open(h).Some?)
    && (Open(h).Some? ==> h[Open(h).value].event.Get?
                          && st.slot == Slot(h[Open(h).value].event.meta, "StoredInfo"))
    && Accepts(h) == Answers(h) + Superseded(h) + (if Open(h).Some? then 1 else 0)
    && Accepts(h) <= 2 * Answers(h) + st.active
  }

  lemma {:induction false} Conservation(start: State, events: seq<Event>)
    requires Initial(start)
    ensures Bookkept(Run(start, events).0, Run(start, events).1)
  {
    if events == [] {
    } else {
      var front := events[..|events| - 1];
      Conservation(start, front);
      StepBookkept(Run(start, front).0, Run(start, front).1, events[|events| - 1]);
    }
  }

  lemma {:induction false} StepBookkept(st: State, h: seq<Entry>, event: Event)
    requires Bookkept(st, h)
    ensures var (next, outcome) := Step(st, event);
            Bookkept(next, h + [Entry(event, outcome)])
  {
    var (next, outcome) := Step(st, event);
    var h' := h + [Entry(event, outcome)];
    assert h'[..|h'| - 1] == h;
  }

  /** Histories grow at the end only. */
  lemma {:induction false} Prefix(start: State, events: seq<Event>, k: nat)
    requires k <= |events|
    ensures Run(start, events).1[..k] == Run(start, events[..k]).1
    decreases |events|
  {
    if k < |events| {
      Prefix(start, events[..|events| - 1], k);
      assert events[..|events| - 1][..k] == events[..k];
      assert Run(start, events).1[..k] == Run(start, events[..|events| - 1]).1[..k];
    } else {
      assert events[..k] == events;
    }
  }

  /** The response is the answer to a GET with that metadata. */
  predicate GoesTo(response: Response, event: Event) {
    && event.Get?
    && response.endpoint == event.meta.endpoint && response.mid == event.meta.mid
    && response.token == event.meta.token
    && response.block2Num == event.meta.block2Num && response.block2Size == event.meta.block2Size
    && !response.more && response.payload == "StoredInfo"
  }

  /**
   Every answer of a run goes to the request accepted last before it, carries that request's
   endpoint, message id, token and block, and is the first answer since.
   */
  lemma {:induction false} AnswersLatest(start: State, events: seq<Event>, j: nat)
    requires Initial(start) && j < |events|
    requires Run(start, events).1[j].outcome.Answered?
    ensures var h := Run(start, events).1;
            && Open(h[..j]).Some?
            && GoesTo(h[j].outcome.response, h[Open(h[..j]).value].event)
  {
    hide Run, Step, Open, Bookkept, GoesTo;
    var (st, before) := Run(start, events[..j]);
    EntryAt(start, events, j);
    Prefix(start, events, j);
    Conservation(start, events[..j]);
    StepAnswers(st, before, events[j]);
    OpenBefore(Run(start, events).1, j);
  }

  lemma {:induction false} OpenBefore(h: seq<Entry>, j: nat)
    requires j <= |h| && Open(h[..j]).Some?
    ensures Open(h[..j]).value < j && h[..j][Open(h[..j]).value] == h[Open(h[..j]).value]
  {
  }

  lemma {:induction false} StepAnswers(st: State, h: seq<Entry>, event: Event)
    requires Bookkept(st, h) && Step(st, event).1.Answered?
    ensures Open(h).Some? && GoesTo(Step(st, event).1.response, h[Open(h).value].event)
  {
    hide Open;
  }

  lemma {:induction false} EntryAt(start: State, events: seq<Event>, j: nat)
    requires j < |events|
    ensures Run(start, events).1[j] == Entry(events[j], Step(Run(start, events[..j]).0, events[j]).1)
  {
    hide Step;
    Prefix(start, events, j + 1);
    assert events[..j + 1][..j] == events[..j];
    assert Run(start, events).1[..j + 1][j] == Run(start, events).1[j];
  }

  /** Two answers go to two requests, in the order of their acceptance, so none is answered twice. */
  lemma {:induction false} AnsweredOnceInOrder(start: State, events: seq<Event>, j1: nat, j2: nat)
    requires Initial(start) && j1 < j2 < |events|
    requires Run(start, events).1[j1].outcome.Answered? && Run(start, events).1[j2].outcome.Answered?
    ensures var h := Run(start, events).1;
            && Open(h[..j1]).Some? && Open(h[..j2]).Some?
            && Open(h[..j1]).value < j1 < Open(h[..j2]).value < j2
  {
    var h := Run(start, events).1;
    AnswersLatest(start, events, j1);
    AnswersLatest(start, events, j2);
    var i2 := Open(h[..j2]).value;
    assert h[..j2][j1] == h[j1] && h[..j2][i2] == h[i2];
  }

  /** The first entry behind the i-th that accepts or answers a request. */
  function NextMark(h: seq<Entry>, i: nat): (k: Option<nat>)
    ensures k.Some? ==> i < k.value < |h| && (h[k.value].outcome == Accepted || h[k.value].outcome.Answered?)
    ensures forall m | i < m < (if k.Some? then k.value else |h|) ::
              h[m].outcome != Accepted && !h[m].outcome.Answered?
    decreases |h| - i
  {
    if i + 1 >= |h| then None
    else if h[i + 1].outcome == Accepted || h[i + 1].outcome.Answered? then Some(i + 1)
    else NextMark(h, i + 1)
  }

  lemma {:induction false} OpenIs(h: seq<Entry>, i: nat)
    requires i < |h| && h[i].outcome == Accepted
    ensures Open(h) == Some(i) <==> forall m | i < m < |h| :: h[m].outcome != Accepted && !h[m].outcome.Answered?
    decreases |h|
  {
    var last := |h| - 1;
    if i < last {
      assert h[..last][i] == h[i];
      OpenIs(h[..last], i);
    }
  }

  /** Entry j answers the request of entry i. */
  ghost predicate Answering(h: seq<Entry>, i: nat, j: nat) {
    i < j < |h| && h[j].outcome.Answered? && Open(h[..j]) == Some(i)
  }

  /**
   An accepted request is answered exactly when the next accept or answer behind it is an answer; that
   one is then the only one, and carries the request's metadata.
   */
  lemma {:induction false} AnsweredExactly(start: State, events: seq<Event>, i: nat)
    requires Initial(start) && i < |events| && Run(start, events).1[i].outcome == Accepted
    ensures var h := Run(start, events).1;
            var k := NextMark(h, i);
            && ((exists j: nat :: Answering(h, i, j)) <==> k.Some? && h[k.value].outcome.Answered?)
            && (forall j: nat | Answering(h, i, j) ::
                  k == Some(j) && GoesTo(h[j].outcome.response, h[i].event))
  {
    hide Run, NextMark, Open;
    var h := Run(start, events).1;
    forall j: nat | i < j < |h|
      ensures Answering(h, i, j) <==> NextMark(h, i) == Some(j) && h[j].outcome.Answered?
      ensures Answering(h, i, j) ==> GoesTo(h[j].outcome.response, h[i].event)
    {
      NextIs(h, i, j);
      if Answering(h, i, j) {
        AnswersLatest(start, events, j);
      }
    }
  }

  lemma {:induction false} NextIs(h: seq<Entry>, i: nat, j: nat)
    requires i < j < |h| && h[i].outcome == Accepted
    ensures Answering(h, i, j) <==> NextMark(h, i) == Some(j) && h[j].outcome.Answered?
  {
    hide NextMark, Open;
    OpenIs(h[..j], i);
    assert forall m | i < m < j :: h[..j][m] == h[m];
  }

  /** When a handler refuses, fails or answers, seen from the history alone. */
  lemma {:induction false} OutcomesFromHistory(start: State, events: seq<Event>, event: Event)
    requires Initial(start)
    ensures var (st, h) := Run(start, events);
            var (next, outcome) := Step(st, event);
            && (outcome == Rejected <==> event.Get? && AcceptsSinceAnswer(h) == 2)
            && (outcome.Answered? <==> event == Resume(true) && Open(h).Some?)
            && (outcome == Rejected || outcome == Nothing ==> next == st)
  {
    Conservation(start, events);
  }
}
