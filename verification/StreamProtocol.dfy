/**
 The protocol of a streaming action response: one start event, any number of data frames, one
 terminal event. `Start` and `Step` say what one call of the client does to its state; the lemmas say
 what whole runs do.
 */
module StreamProtocol {
  import opened ByteText
  import opened StreamFormat

  const START: Bytes := "declarion.stream.start"
  const END: Bytes := "declarion.stream.end"

  /** The error object a terminal event carries. */
  datatype PlatformError = PlatformError(typeName: Bytes, title: Bytes, retryable: bool)

  datatype EndEnvelope = EndEnvelope(status: Bytes, error: Option<PlatformError>, frames: int, bytes: int)

  /** The JSON library, as far as the stream asks it anything. */
  datatype JsonCodec = JsonCodec(valid: Bytes -> bool, decodeEnd: Bytes -> Option<EndEnvelope>)

  datatype Config = Config(json: JsonCodec, cap: int)

  datatype StreamError = Wire(flaw: Flaw) | Platform(error: PlatformError)

  datatype Delivered = Delivered(frames: int, bytes: int)

  /** A stream past its start event. `rest` is what its body has still to give; it is empty once done. */
  datatype State = State(
    rest: Bytes, cur: Bytes, received: Delivered, err: Option<StreamError>, done: bool, delivered: Delivered)

  datatype Started = Ready(meta: Bytes, state: State) | NotStarted(error: StreamError)

  datatype Called = Called(state: State, more: bool)

  function Fresh(rest: Bytes): State {
    State(rest, "", Delivered(0, 0), None, false, Delivered(0, 0))
  }

  function Start(cfg: Config, wire: Bytes): Started {
    match ParseEvent(wire, cfg.cap)
    case Failed(flaw) => NotStarted(Wire(flaw))
    case Parsed(event, rest) =>
      if event.name == START && cfg.json.valid(event.data) then Ready(event.data, Fresh(rest))
      else NotStarted(Wire(Unreadable))
  }

  function Finish(s: State, err: Option<StreamError>): State {
    s.(rest := "", err := err, done := true)
  }

  /** The error a terminal event stands for; none for a success. */
  function Verdict(json: JsonCodec, data: Bytes): Option<StreamError> {
    match json.decodeEnd(data)
    case None => Some(Wire(Unreadable))
    case Some(env) =>
      if env.status == "success" then None
      else if env.status == "error" && env.error.Some? then Some(Platform(env.error.value))
      else Some(Wire(Unreadable))
  }

  function FinishTerminal(json: JsonCodec, s: State, data: Bytes): State {
    var sent := match json.decodeEnd(data)
      case None => s.delivered
      case Some(env) => Delivered(env.frames, env.bytes);
    Finish(s.(delivered := sent), Verdict(json, data))
  }

  /** One call of Next. */
  function Step(cfg: Config, s: State): (r: Called)
    ensures r.more ==> |r.state.rest| < |s.rest| && !r.state.done
    ensures !r.more ==> r.state.done
  {
    if s.done then Called(s, false)
    else
      match ParseEvent(s.rest, cfg.cap)
      case Failed(flaw) => Called(Finish(s, Some(Wire(flaw))), false)
      case Parsed(event, rest) =>
        if event.name == "" then
          var received := Delivered(s.received.frames + 1, s.received.bytes + |event.data|);
          Called(s.(rest := rest, cur := event.data, received := received), true)
        else if event.name == END then Called(FinishTerminal(cfg.json, s, event.data), false)
        else Called(Finish(s, Some(Wire(Unreadable))), false)
  }

  // ---- Whole runs ----

  function After(cfg: Config, s: State, n: nat): State
    decreases n
  {
    if n == 0 then s else After(cfg, Step(cfg, s).state, n - 1)
  }

  datatype Run = Run(frames: seq<Bytes>, final: State)

  /** Calling Next until it returns false. */
  function Drain(cfg: Config, s: State): Run
    decreases |s.rest|
  {
    var c := Step(cfg, s);
    if c.more then
      var run := Drain(cfg, c.state);
      Run([c.state.cur] + run.frames, run.final)
    else Run([], c.state)
  }

  /** The run with the first frame given. */
  function RunAfter(first: Bytes, rest: Run): Run { Run([first] + rest.frames, rest.final) }

  lemma DrainMore(cfg: Config, s: State)
    requires Step(cfg, s).more
    ensures Drain(cfg, s) == RunAfter(Step(cfg, s).state.cur, Drain(cfg, Step(cfg, s).state))
    ensures !s.done && !Step(cfg, s).state.done && Step(cfg, s).state.err == s.err
    ensures var next := Step(cfg, s).state;
            next.received == Delivered(s.received.frames + 1, s.received.bytes + |next.cur|)
    ensures |Step(cfg, s).state.rest| < |s.rest|
  {
    hide ParseEvent;
  }

  lemma DrainNoMore(cfg: Config, s: State)
    requires !Step(cfg, s).more
    ensures Drain(cfg, s) == Run([], Step(cfg, s).state)
    ensures Step(cfg, s).state.done && Step(cfg, s).state.received == s.received
  {
    hide ParseEvent;
  }

  lemma SumFirst(first: Bytes, frames: seq<Bytes>, n: nat)
    requires n <= |frames|
    ensures SumLengths(([first] + frames)[..n + 1]) == |first| + SumLengths(frames[..n])
  {
    assert ([first] + frames)[..n + 1][1..] == frames[..n];
  }

  /** The whole run is counted exactly. */
  lemma {:induction false} RunCounts(cfg: Config, s: State)
    ensures var run := Drain(cfg, s);
            run.final.done && run.final.received
              == Delivered(s.received.frames + |run.frames|, s.received.bytes + SumLengths(run.frames))
    decreases |s.rest|
  {
    hide Step, Drain;
    if Step(cfg, s).more {
      DrainMore(cfg, s);
      var next := Step(cfg, s).state;
      RunCounts(cfg, next);
      var frames := Drain(cfg, next).frames;
      SumFirst(next.cur, frames, |frames|);
      assert ([next.cur] + frames)[..|frames| + 1] == [next.cur] + frames && frames[..|frames|] == frames;
    } else {
      DrainNoMore(cfg, s);
    }
  }

  /** The first calls return the frames in order, each counted. */
  lemma {:induction false} FirstCalls(cfg: Config, s: State, n: nat)
    requires !s.done && n <= |Drain(cfg, s).frames|
    ensures var frames, now := Drain(cfg, s).frames, After(cfg, s, n);
            && !now.done && now.err == s.err && (Step(cfg, now).more <==> n < |frames|)
            && now.received == Delivered(s.received.frames + n, s.received.bytes + SumLengths(frames[..n]))
            && (n > 0 ==> now.cur == frames[n - 1])
    decreases n
  {
    hide Step, Drain;
    if Step(cfg, s).more { DrainMore(cfg, s); } else { DrainNoMore(cfg, s); }
    if n > 0 {
      var next := Step(cfg, s).state;
      FirstCalls(cfg, next, n - 1);
      SumFirst(next.cur, Drain(cfg, next).frames, n - 1);
    }
  }

  /** Later calls return nothing and leave the state as the run ended. */
  lemma {:induction false} LaterCalls(cfg: Config, s: State, n: nat)
    requires n > |Drain(cfg, s).frames|
    ensures After(cfg, s, n) == Drain(cfg, s).final
    decreases n
  {
    hide Step, Drain;
    if Step(cfg, s).more {
      DrainMore(cfg, s);
      LaterCalls(cfg, Step(cfg, s).state, n - 1);
    } else {
      DrainNoMore(cfg, s);
      DoneIsSticky(cfg, Step(cfg, s).state, n - 1);
    }
  }

  /**
   Any number of calls: the first ones return the frames of the run, in order and counted exactly;
   every later one returns false and leaves the state as it is.
   */
  lemma {:induction false} RunShape(cfg: Config, s: State, n: nat)
    requires !s.done
    ensures var run := Drain(cfg, s);
            var now := After(cfg, s, n);
            && run.final.done
            && (Step(cfg, now).more <==> n < |run.frames|)
            && (n <= |run.frames| ==>
                  !now.done && now.err == s.err
                  && now.received == Delivered(s.received.frames + n, s.received.bytes + SumLengths(run.frames[..n]))
                  && (n > 0 ==> now.cur == run.frames[n - 1]))
            && (n > |run.frames| ==> now == run.final)
            && run.final.received
               == Delivered(s.received.frames + |run.frames|, s.received.bytes + SumLengths(run.frames))
  {
    hide Drain, After, ParseEvent;
    RunCounts(cfg, s);
    if n <= |Drain(cfg, s).frames| { FirstCalls(cfg, s, n); } else { LaterCalls(cfg, s, n); }
  }

  lemma {:induction false} DoneIsSticky(cfg: Config, s: State, n: nat)
    requires s.done
    ensures After(cfg, s, n) == s
  {
    if n > 0 { DoneIsSticky(cfg, s, n - 1); }
  }

  /** `rest` starts with exactly these data frames, and `after` follows them. */
  ghost predicate StartsWithFrames(cap: int, rest: Bytes, frames: seq<Bytes>, after: Bytes)
    decreases |frames|
  {
    if frames == [] then rest == after
    else
      var p := ParseEvent(rest, cap);
      p.Parsed? && p.event == Event("", frames[0]) && StartsWithFrames(cap, p.rest, frames[1..], after)
  }

  ghost predicate StartsWithTerminal(cap: int, rest: Bytes, data: Bytes) {
    var p := ParseEvent(rest, cap);
    p.Parsed? && p.event == Event(END, data)
  }

  /** What a terminal event's data lets a client report: nothing only for a success, else the error it carries. */
  ghost predicate TerminalGives(json: JsonCodec, data: Bytes, err: Option<StreamError>) {
    var sent := json.decodeEnd(data);
    && (err == None <==> sent.Some? && sent.value.status == "success")
    && (forall x :: err == Some(Platform(x)) <==>
          sent.Some? && sent.value.status == "error" && sent.value.error == Some(x))
    && (err == Some(Wire(Unreadable)) <==>
          || sent == None
          || (sent.value.status == "error" && sent.value.error == None)
          || (sent.value.status != "success" && sent.value.status != "error"))
  }

  /** The counts a terminal event states are the ones reported as sent. */
  ghost predicate CountsGiven(json: JsonCodec, data: Bytes, delivered: Delivered) {
    forall env :: json.decodeEnd(data) == Some(env) ==> delivered == Delivered(env.frames, env.bytes)
  }

  lemma VerdictIsGiven(json: JsonCodec, data: Bytes)
    ensures TerminalGives(json, data, Verdict(json, data))
  {
    assert "success"[0] != "error"[0];
  }

  lemma {:induction false} FramesThenRest(cfg: Config, s: State, frames: seq<Bytes>, after: Bytes)
      returns (t: State)
    requires !s.done && StartsWithFrames(cfg.cap, s.rest, frames, after)
    ensures !t.done && t.rest == after && t.err == s.err && t.delivered == s.delivered
    ensures t.received == Delivered(s.received.frames + |frames|, s.received.bytes + SumLengths(frames))
    ensures Drain(cfg, s) == Run(frames + Drain(cfg, t).frames, Drain(cfg, t).final)
    decreases |frames|
  {
    hide ParseEvent, Drain;
    if frames == [] {
      t := s;
      assert frames + Drain(cfg, t).frames == Drain(cfg, t).frames;
    } else {
      var next := Step(cfg, s).state;
      DrainMore(cfg, s);
      t := FramesThenRest(cfg, next, frames[1..], after);
      assert [frames[0]] + (frames[1..] + Drain(cfg, t).frames) == frames + Drain(cfg, t).frames;
    }
  }

  /**
   How any run ends. After the frames comes something that is no frame: a terminal event, whose own verdict and
   counts are then reported; an event of any other name; or bytes that hold no event.
   */
  lemma {:induction false} RunOutcome(cfg: Config, s: State, frames: seq<Bytes>, after: Bytes)
    requires !s.done && StartsWithFrames(cfg.cap, s.rest, frames, after)
    ensures var run, p := Drain(cfg, s), ParseEvent(after, cfg.cap);
            && (p.Failed? ==>
                  && run.frames == frames && run.final.err == Some(Wire(p.flaw))
                  && run.final.delivered == s.delivered)
            && (p.Parsed? && p.event.name == "declarion.stream.end" ==>
                  var sent := cfg.json.decodeEnd(p.event.data);
                  && run.frames == frames && TerminalGives(cfg.json, p.event.data, run.final.err)
                  && CountsGiven(cfg.json, p.event.data, run.final.delivered)
                  && (sent == None ==> run.final.delivered == s.delivered))
            && (p.Parsed? && p.event.name != "declarion.stream.end" && p.event.name != "" ==>
                  && run.frames == frames && run.final.err == Some(Wire(Unreadable))
                  && run.final.delivered == s.delivered)
  {
    hide ParseEvent, TerminalGives, Verdict;
    var t := FramesThenRest(cfg, s, frames, after);
    var p := ParseEvent(after, cfg.cap);
    if p.Failed? || p.event.name != "" {
      if p.Parsed? { VerdictIsGiven(cfg.json, p.event.data); }
      DrainNoMore(cfg, t);
      assert frames + [] == frames;
    }
  }

  /** Every run has such frames and something after them that is no frame. */
  lemma {:induction false} RunHasFrames(cfg: Config, s: State) returns (after: Bytes)
    requires !s.done
    ensures StartsWithFrames(cfg.cap, s.rest, Drain(cfg, s).frames, after)
    ensures var p := ParseEvent(after, cfg.cap); p.Parsed? ==> p.event.name != ""
    decreases |s.rest|
  {
    hide ParseEvent;
    if Step(cfg, s).more {
      DrainMore(cfg, s);
      after := RunHasFrames(cfg, Step(cfg, s).state);
      var frames := Drain(cfg, s).frames;
      assert frames[1..] == Drain(cfg, Step(cfg, s).state).frames;
    } else {
      DrainNoMore(cfg, s);
      after := s.rest;
    }
  }

  /** The client reports these frames and then a clean end. */
  predicate EndsClean(cfg: Config, s: State, frames: seq<Bytes>) {
    var run := Drain(cfg, s);
    run.frames == frames && run.final.err == None
  }

  /** The data of a terminal event that reports success. */
  ghost predicate ReportsSuccess(json: JsonCodec, data: Bytes) {
    exists env :: json.decodeEnd(data) == Some(env) && env.status == "success"
  }

  /** A run ends clean exactly when the wire holds the frames and then a terminal event of success. */
  lemma {:induction false} EndsCleanIff(cfg: Config, s: State, frames: seq<Bytes>)
    requires !s.done
    ensures EndsClean(cfg, s, frames) <==>
            exists after, data :: StartsWithFrames(cfg.cap, s.rest, frames, after)
              && StartsWithTerminal(cfg.cap, after, data) && ReportsSuccess(cfg.json, data)
  {
    hide ParseEvent, Drain, StartsWithFrames;
    if EndsClean(cfg, s, frames) {
      var after := RunHasFrames(cfg, s);
      RunOutcome(cfg, s, frames, after);
      assert StartsWithTerminal(cfg.cap, after, ParseEvent(after, cfg.cap).event.data);
    }
    forall after, data | StartsWithFrames(cfg.cap, s.rest, frames, after)
      && StartsWithTerminal(cfg.cap, after, data) && ReportsSuccess(cfg.json, data)
      ensures EndsClean(cfg, s, frames)
    {
      RunOutcome(cfg, s, frames, after);
    }
  }

  /** The client opens the stream with this metadata, reports these frames and then a clean end. */
  predicate CleanAnswer(cfg: Config, wire: Bytes, meta: Bytes, frames: seq<Bytes>) {
    var started := Start(cfg, wire);
    started.Ready? && started.meta == meta && EndsClean(cfg, started.state, frames)
  }

  /**
   An answer is reported complete exactly when the wire holds one valid start event, the frames, and a
   terminal event of success, in that order and with nothing else between them but heartbeats.
   */
  lemma {:induction false} CleanAnswerIff(cfg: Config, wire: Bytes, meta: Bytes, frames: seq<Bytes>)
    ensures CleanAnswer(cfg, wire, meta, frames) <==>
            && cfg.json.valid(meta)
            && exists rest, after, data ::
                 && ParseEvent(wire, cfg.cap) == Parsed(Event(START, meta), rest)
                 && StartsWithFrames(cfg.cap, rest, frames, after)
                 && StartsWithTerminal(cfg.cap, after, data) && ReportsSuccess(cfg.json, data)
  {
    hide ParseEvent, EndsClean, StartsWithFrames, StartsWithTerminal, ReportsSuccess;
    var p := ParseEvent(wire, cfg.cap);
    if p.Parsed? { EndsCleanIff(cfg, Fresh(p.rest), frames); }
  }

  /** Why a stream does not open: the bytes hold no event, or their first event is no valid start. */
  lemma {:induction false} StartOutcome(cfg: Config, wire: Bytes)
    ensures var started, p := Start(cfg, wire), ParseEvent(wire, cfg.cap);
            && (p.Failed? ==> started == NotStarted(Wire(p.flaw)))
            && (p.Parsed? && (p.event.name != "declarion.stream.start" || !cfg.json.valid(p.event.data)) ==>
                  started == NotStarted(Wire(Unreadable)))
            && (p.Parsed? && p.event.name == "declarion.stream.start" && cfg.json.valid(p.event.data) ==>
                  && started.Ready? && started.meta == p.event.data && started.state.rest == p.rest
                  && started.state.received == started.state.delivered == Delivered(0, 0)
                  && started.state.err == None && !started.state.done)
  {
    hide ParseEvent;
  }

  // ---- Round trip ----

  datatype Item = Frame(payload: Bytes) | Heartbeat(comments: seq<Bytes>)

  function ItemLines(item: Item): seq<Bytes> {
    match item
    case Frame(payload) => DataLines(payload)
    case Heartbeat(comments) => comments
  }

  function Encode(items: seq<Item>): Bytes {
    if items == [] then "" else WriteBlock(ItemLines(items[0])) + Encode(items[1..])
  }

  function Payloads(items: seq<Item>): seq<Bytes> {
    if items == [] then []
    else (if items[0].Frame? then [items[0].payload] else []) + Payloads(items[1..])
  }

  ghost predicate Sendable(item: Item, cap: int) {
    && |WriteBlock(ItemLines(item))| <= cap
    && match item
       case Frame(payload) => CR !in payload && Utf8Valid(payload)
       case Heartbeat(comments) =>
         comments != [] && Wellformed(comments) && forall i :: 0 <= i < |comments| ==> IsComment(comments[i])
  }

  ghost predicate SendableControl(name: Bytes, payload: Bytes, cap: int) {
    CR !in payload && Utf8Valid(payload) && |WriteBlock(ControlLines(name, payload))| <= cap
  }

  lemma {:induction false} FramesRoundTrip(cfg: Config, s: State, items: seq<Item>, endData: Bytes, trailing: Bytes)
    requires !s.done && s.rest == Encode(items) + WriteBlock(ControlLines(END, endData)) + trailing
    requires forall i :: 0 <= i < |items| ==> Sendable(items[i], cfg.cap)
    requires SendableControl(END, endData, cfg.cap)
    ensures var run := Drain(cfg, s);
            && run.frames == Payloads(items) && TerminalGives(cfg.json, endData, run.final.err)
            && CountsGiven(cfg.json, endData, run.final.delivered)
    decreases |items|
  {
    hide ParseEvent, ControlLines, DataLines, WriteBlock, Utf8Valid, Wellformed, TerminalGives, Verdict;
    var close := WriteBlock(ControlLines(END, endData));
    if items == [] {
      assert s.rest == close + trailing;
      ParseOfControlBlock(END, endData, trailing, cfg.cap);
      VerdictIsGiven(cfg.json, endData);
    } else {
      var after := Encode(items[1..]) + close + trailing;
      assert s.rest == WriteBlock(ItemLines(items[0])) + after;
      match items[0]
      case Frame(payload) =>
        ParseOfDataBlock(payload, after, cfg.cap);
        FramesRoundTrip(cfg, Step(cfg, s).state, items[1..], endData, trailing);
      case Heartbeat(comments) =>
        ParsePastHeartbeat(comments, after, cfg.cap);
        FramesRoundTrip(cfg, s.(rest := after), items[1..], endData, trailing);
        DrainPastHeartbeat(cfg, s, after);
    }
  }

  lemma {:induction false} DrainPastHeartbeat(cfg: Config, s: State, after: Bytes)
    requires !s.done && ParseEvent(s.rest, cfg.cap) == ParseEvent(after, cfg.cap)
    ensures Drain(cfg, s) == Drain(cfg, s.(rest := after))
  {
    hide ParseEvent;
  }

  /** The wire a server writes for these items, with heartbeats before the start event too. */
  function WholeWire(lead: seq<Item>, meta: Bytes, items: seq<Item>, endData: Bytes): Bytes {
    Encode(lead) + (WriteBlock(ControlLines(START, meta)) + (Encode(items) + WriteBlock(ControlLines(END, endData))))
  }

  /** What a whole answer gives its caller. */
  ghost predicate Arrives(cfg: Config, wire: Bytes, meta: Bytes, items: seq<Item>, endData: Bytes) {
    var started := Start(cfg, wire);
    && started.Ready? && started.meta == meta
    && var run := Drain(cfg, started.state);
       && run.frames == Payloads(items)
       && TerminalGives(cfg.json, endData, run.final.err)
       && CountsGiven(cfg.json, endData, run.final.delivered)
       && run.final.received == Delivered(|Payloads(items)|, SumLengths(Payloads(items)))
  }

  lemma {:induction false} WithoutLead(cfg: Config, meta: Bytes, items: seq<Item>, endData: Bytes, after: Bytes)
    requires forall i :: 0 <= i < |items| ==> Sendable(items[i], cfg.cap)
    requires SendableControl(START, meta, cfg.cap) && cfg.json.valid(meta)
    requires SendableControl(END, endData, cfg.cap)
    requires exists trailing :: after == Encode(items) + WriteBlock(ControlLines(END, endData)) + trailing
    ensures Arrives(cfg, WriteBlock(ControlLines(START, meta)) + after, meta, items, endData)
  {
    hide ParseEvent, ControlLines, WriteBlock, Utf8Valid, Sendable, Drain, Encode, Payloads, TerminalGives, CountsGiven;
    var trailing :| after == Encode(items) + WriteBlock(ControlLines(END, endData)) + trailing;
    ParseOfControlBlock(START, meta, after, cfg.cap);
    FramesRoundTrip(cfg, Fresh(after), items, endData, trailing);
    RunCounts(cfg, Fresh(after));
  }

  lemma WireWithoutLead(meta: Bytes, items: seq<Item>, endData: Bytes, trailing: Bytes)
    ensures WholeWire([], meta, items, endData) + trailing
         == WriteBlock(ControlLines(START, meta))
            + (Encode(items) + WriteBlock(ControlLines(END, endData)) + trailing)
  {
    hide WriteBlock, ControlLines;
  }

  lemma WireAfterLead(lead: seq<Item>, meta: Bytes, items: seq<Item>, endData: Bytes, trailing: Bytes)
    requires lead != []
    ensures WholeWire(lead, meta, items, endData) + trailing
         == WriteBlock(ItemLines(lead[0])) + (WholeWire(lead[1..], meta, items, endData) + trailing)
  {
    hide WriteBlock, ControlLines;
  }

  /**
   Everything sent arrives: the metadata, then exactly the payloads in order, then the terminal's own
   verdict, with heartbeats anywhere and whatever follows the terminal event ignored.
   */
  lemma {:induction false} RoundTrip(
      cfg: Config, lead: seq<Item>, meta: Bytes, items: seq<Item>, endData: Bytes, trailing: Bytes)
    requires forall i :: 0 <= i < |lead| ==> lead[i].Heartbeat? && Sendable(lead[i], cfg.cap)
    requires forall i :: 0 <= i < |items| ==> Sendable(items[i], cfg.cap)
    requires SendableControl(START, meta, cfg.cap) && cfg.json.valid(meta)
    requires SendableControl(END, endData, cfg.cap)
    ensures Arrives(cfg, WholeWire(lead, meta, items, endData) + trailing, meta, items, endData)
    decreases |lead|
  {
    hide ParseEvent, ControlLines, WriteBlock, Wellformed, IsComment, Drain, WholeWire, SendableControl;
    hide TerminalGives, CountsGiven;
    if lead == [] {
      WireWithoutLead(meta, items, endData, trailing);
      WithoutLead(cfg, meta, items, endData, Encode(items) + WriteBlock(ControlLines(END, endData)) + trailing);
    } else {
      var after := WholeWire(lead[1..], meta, items, endData) + trailing;
      WireAfterLead(lead, meta, items, endData, trailing);
      ParsePastHeartbeat(lead[0].comments, after, cfg.cap);
      RoundTrip(cfg, lead[1..], meta, items, endData, trailing);
    }
  }

  // ---- Truncation ----

  /**
   However much of the end of a clean wire is lost, the client either still ends clean with the same
   frames, because only bytes after the terminal event were lost, or reports an interruption after a
   prefix of the frames. A truncated answer is never taken for a whole one.
   */
  lemma {:induction false} TruncatedIsNeverClean(cfg: Config, s: State, lost: Bytes, frames: seq<Bytes>)
    requires !s.done && EndsClean(cfg, s.(rest := s.rest + lost), frames)
    ensures var run := Drain(cfg, s);
            || EndsClean(cfg, s, frames)
            || (run.frames <= frames && run.final.err == Some(Wire(Interrupted)))
    decreases |s.rest|
  {
    hide ParseEvent;
    var whole := s.(rest := s.rest + lost);
    ParseOfCut(s.rest, lost, cfg.cap);
    var c := Step(cfg, whole);
    if ParseEvent(s.rest, cfg.cap) != Failed(Interrupted) && c.more {
      var d := Step(cfg, s);
      assert c.state == d.state.(rest := d.state.rest + lost);
      assert Drain(cfg, whole).frames[1..] == Drain(cfg, c.state).frames;
      TruncatedIsNeverClean(cfg, d.state, lost, frames[1..]);
      assert frames == [frames[0]] + frames[1..];
    }
  }

  /** The same from the first byte: a cut inside the start event is an interruption too. */
  lemma {:induction false} TruncatedAnswer(cfg: Config, kept: Bytes, lost: Bytes, meta: Bytes, frames: seq<Bytes>)
    requires CleanAnswer(cfg, kept + lost, meta, frames)
    ensures || CleanAnswer(cfg, kept, meta, frames)
            || Start(cfg, kept) == NotStarted(Wire(Interrupted))
            || (Start(cfg, kept).Ready? && Start(cfg, kept).meta == meta
                && var run := Drain(cfg, Start(cfg, kept).state);
                   run.frames <= frames && run.final.err == Some(Wire(Interrupted)))
  {
    hide ParseEvent, EndsClean, Drain;
    ParseOfCut(kept, lost, cfg.cap);
    if ParseEvent(kept, cfg.cap) != Failed(Interrupted) {
      var s := Start(cfg, kept).state;
      assert s.(rest := s.rest + lost) == Start(cfg, kept + lost).state;
      TruncatedIsNeverClean(cfg, s, lost, frames);
    }
  }
}
