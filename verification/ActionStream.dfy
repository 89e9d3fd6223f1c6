/** The incremental reader: buffered fragments in, whole events out. */
module ActionStreams {
  import opened ByteText
  import opened StreamFormat
  import opened StreamProtocol

  /** How a slice read from the buffer ended: at a line feed, at a full buffer, or with the body. */
  datatype SliceEnd = Delimited | BufferFull | BodyEnded

  /** A request that can be cancelled, counting how often it was. */
  class Request {
    var cancels: nat

    constructor ()
      ensures cancels == 0
    {
      cancels := 0;
    }

    method Cancel()
      modifies this
      ensures cancels == old(cancels) + 1
    {
      cancels := cancels + 1;
    }
  }

  /** A buffered body. Which fragments it hands out is its own business. */
  class BodyReader {
    /** Whether closing it fails. */
    const stuck: bool
    var rest: Bytes
    var closes: nat

    constructor (body: Bytes, stuck: bool)
      ensures rest == body && closes == 0 && this.stuck == stuck
    {
      rest, closes, this.stuck := body, 0, stuck;
    }

    method Close() returns (ok: bool)
      modifies this`closes
      ensures closes == old(closes) + 1 && ok == !stuck
    {
      closes := closes + 1;
      ok := !stuck;
    }

    /** A non-deterministic choice of fragment: every buffer size and every arrival of bytes is one. */
    method ReadSlice() returns (frag: Bytes, how: SliceEnd)
      modifies this`rest
      ensures old(rest) == frag + rest
      ensures how == Delimited ==> LF in frag && LF !in frag[..|frag| - 1]
      ensures how != Delimited ==> LF !in frag
      ensures how == BufferFull ==> frag != ""
      ensures how == BodyEnded ==> rest == ""
    {
      var n := LineLength(rest);
      LineLengthFindsFirst(rest);
      assert rest == rest[..n] + rest[n..];
      var most := if Terminated(rest) then n - 1 else n;
      if * {
        var k: nat :| k <= most;
        if 0 < k {
          frag, rest, how := rest[..k], rest[k..], BufferFull;
          return;
        }
      }
      frag, rest, how := rest[..n], rest[n..], if Terminated(rest) then Delimited else BodyEnded;
    }
  }

  /** How reading one line ended. */
  datatype LineEnd = LineRead | CapExceeded | ReadFailed

  class ActionStream {
    const json: JsonCodec
    const maxEventBytes: int
    const reader: BodyReader
    /** What cancels the request; none when the caller gave nothing to cancel with. */
    const request: Request?
    var meta: Bytes
    var cur: Bytes
    var received: Delivered
    var err: Option<StreamError>
    var done: bool
    var delivered: Delivered
    var closed: bool
    /** The most bytes held at once: the data and name of the event being read and the current line. */
    ghost var peak: int

    constructor (json: JsonCodec, body: BodyReader, request: Request?, maxEventBytes: int)
      ensures this.json == json && this.maxEventBytes == maxEventBytes && reader == body && this.request == request
      ensures Abs() == Fresh(body.rest) && meta == "" && !closed && peak == 0
    {
      this.json, this.maxEventBytes, reader, this.request := json, maxEventBytes, body, request;
      meta, cur, received, err, done, delivered := "", "", Delivered(0, 0), None, false, Delivered(0, 0);
      closed, peak := false, 0;
    }

    ghost function Cfg(): Config { Config(json, maxEventBytes) }

    /** What a caller can tell apart: nothing is read any more once the stream is done. */
    ghost function Abs(): State
      reads this, reader
    {
      State(if done then "" else reader.rest, cur, received, err, done, delivered)
    }

    /** `total` is the running count of the event's bytes, `held` what is retained of it already. */
    method ReadLine(total: int, ghost held: int) returns (line: Bytes, total': int, how: LineEnd)
      requires 0 <= held <= total && (total > 0 ==> total <= maxEventBytes)
      modifies reader`rest, this`peak
      ensures var n := LineLength(old(reader.rest));
              how == if n > 0 && total + n > maxEventBytes then CapExceeded
                     else if !Terminated(old(reader.rest)) then ReadFailed
                     else LineRead
      ensures how == LineRead ==>
                var n := LineLength(old(reader.rest));
                line != "" && line == old(reader.rest)[..n]
                && reader.rest == old(reader.rest)[n..] && total' == total + n
      ensures peak <= if old(peak) < maxEventBytes then maxEventBytes else old(peak)
    {
      hide LineLength, Terminated;
      ghost var was := reader.rest;
      line, total' := "", total;
      while true
        invariant was == line + reader.rest && LF !in line
        invariant total' == total + |line| && (total' > 0 ==> total' <= maxEventBytes)
        invariant peak <= if old(peak) < maxEventBytes then maxEventBytes else old(peak)
        decreases |reader.rest|
      {
        ghost var before := line;
        var frag, slice := reader.ReadSlice();
        assert was == (before + frag) + reader.rest;
        assert slice == Delimited ==> (before + frag)[..|before + frag| - 1] == before + frag[..|frag| - 1];
        LineFromFragments(was, before + frag, reader.rest, slice == Delimited);
        if |frag| > 0 {
          total' := total' + |frag|;
          if total' > maxEventBytes {
            return line, total', CapExceeded;
          }
          line := line + frag;
          peak := if peak < held + |line| then held + |line| else peak;
        }
        match slice
        case Delimited => return line, total', LineRead;
        case BufferFull =>
        case BodyEnded => return line, total', ReadFailed;
      }
    }

    /** Reads one event. The outcome is the meaning of the bytes, however they were fragmented. */
    method ReadEvent() returns (r: Parsed)
      modifies reader`rest, this`peak
      ensures var p := ParseEvent(old(reader.rest), maxEventBytes);
              if p.Failed? then r == p
              else r == Parsed(p.event, reader.rest) && reader.rest == p.rest
      ensures peak <= if old(peak) < maxEventBytes then maxEventBytes else old(peak)
    {
      hide LexBlock, ReadFirst, LineLength, Terminated, HasPrefix, FieldValue;
      hide DataValues, EventName, HasComment, Emit, Utf8Valid, Join;
      while true
        invariant ParseEvent(reader.rest, maxEventBytes) == ParseEvent(old(reader.rest), maxEventBytes)
        invariant peak <= if old(peak) < maxEventBytes then maxEventBytes else old(peak)
        decreases |reader.rest|
      {
        ghost var start := reader.rest;
        var event, data: Bytes, haveData, comment, total := "", "", false, false, 0;
        ghost var lines: seq<Bytes> := [];
        NothingYet();
        PrependNothing(LexBlock(start, 0, maxEventBytes));
        while true
          invariant LexBlock(start, 0, maxEventBytes) == Prepend(lines, LexBlock(reader.rest, total, maxEventBytes))
          invariant data == Join(DataValues(lines), LF) && haveData == (DataValues(lines) != [])
          invariant event == EventName(lines) && comment == HasComment(lines)
          invariant total == |Emit(lines)| && (total > 0 ==> total <= maxEventBytes)
          invariant peak <= if old(peak) < maxEventBytes then maxEventBytes else old(peak)
          invariant |reader.rest| <= |start|
          decreases |reader.rest|
        {
          ValuesWithinBlock(lines);
          ghost var rest := reader.rest;
          var raw, total', how := ReadLine(total, |data| + |event|);
          LexCases(rest, total, maxEventBytes);
          if how == CapExceeded { return Failed(EventTooLarge); }
          if how == ReadFailed { return Failed(Interrupted); }
          ghost var before := total;
          total := total';
          if CR in raw { return Failed(Unreadable); }
          var line := raw[..|raw| - 1];
          assert line == rest[..LineLength(rest) - 1];
          if line == "" {
            assert lines + [] == lines;
            break;
          }
          if HasPrefix(line, ":") {
            comment := true;
          } else if HasPrefix(line, "event:") {
            event := FieldValue(line, "event:");
          } else if HasPrefix(line, "data:") {
            var v := FieldValue(line, "data:");
            if haveData { data := data + [LF]; }
            data := data + v;
            haveData := true;
          } else {
            return Failed(Unreadable);
          }
          TakeLine(start, lines, rest, before, maxEventBytes);
          SayLine(lines, line);
          OneKindOfLine(line);
          lines := lines + [line];
        }
        if !haveData && event == "" {
          if comment { continue; }
          return Failed(Unreadable);
        }
        if haveData && !Utf8Valid(data) { return Failed(Unreadable); }
        return Parsed(Event(event, data), reader.rest);
      }
    }

    /** Takes the mandatory start event. A stream whose start is refused is closed and never handed out. */
    method ReadStart() returns (failure: Option<StreamError>)
      requires Abs() == Fresh(reader.rest)
      modifies this, reader`rest
      ensures closed == old(closed)
      ensures match Start(Cfg(), old(reader.rest))
              case NotStarted(error) => failure == Some(error)
              case Ready(metadata, state) => failure == None && meta == metadata && Abs() == state
      ensures peak <= if old(peak) < maxEventBytes then maxEventBytes else old(peak)
    {
      var r := ReadEvent();
      match r
      case Failed(flaw) => failure := Some(Wire(flaw));
      case Parsed(event, _) =>
        if event.name != START || !json.valid(event.data) {
          return Some(Wire(Unreadable));
        }
        meta := event.data;
        failure := None;
    }

    /** Advances to the next data frame; false when the stream has ended or was closed. */
    method Next() returns (more: bool)
      modifies this, reader`rest
      ensures old(done || closed) ==> !more && Abs() == old(Abs())
      ensures !old(done || closed) ==> Called(Abs(), more) == Step(Cfg(), old(Abs()))
      ensures closed == old(closed) && meta == old(meta)
      ensures peak <= if old(peak) < maxEventBytes then maxEventBytes else old(peak)
    {
      hide ParseEvent;
      if done || closed { return false; }
      var r := ReadEvent();
      match r
      case Failed(flaw) =>
        SetFinished(Some(Wire(flaw)));
        more := false;
      case Parsed(event, _) =>
        if event.name == "" {
          cur := event.data;
          received := Delivered(received.frames + 1, received.bytes + |event.data|);
          more := true;
        } else {
          if event.name == END {
            SetTerminal(event.data);
          } else {
            SetFinished(Some(Wire(Unreadable)));
          }
          more := false;
        }
    }

    method SetFinished(failure: Option<StreamError>)
      requires !done
      modifies this`err, this`done
      ensures Abs() == Finish(old(Abs()), failure)
    {
      err, done := failure, true;
    }

    method SetTerminal(data: Bytes)
      requires !done
      modifies this`err, this`done, this`delivered
      ensures Abs() == FinishTerminal(json, old(Abs()), data)
      ensures TerminalGives(json, data, err) && CountsGiven(json, data, delivered)
    {
      VerdictIsGiven(json, data);
      match json.decodeEnd(data)
      case None => SetFinished(Some(Wire(Unreadable)));
      case Some(env) =>
        delivered := Delivered(env.frames, env.bytes);
        if env.status == "success" {
          SetFinished(None);
        } else if env.status == "error" {
          if env.error == None {
            SetFinished(Some(Wire(Unreadable)));
          } else {
            SetFinished(Some(Platform(env.error.value)));
          }
        } else {
          SetFinished(Some(Wire(Unreadable)));
        }
    }

    /**
     Only the first call cancels the request and closes the body, and only it can fail; what was read stays in
     place.
     */
    method Close() returns (ok: bool)
      modifies this`closed, reader`closes, request
      ensures closed && Abs() == old(Abs())
      ensures reader.closes == old(reader.closes) + if old(closed) then 0 else 1
      ensures request != null ==> request.cancels == old(request.cancels) + if old(closed) then 0 else 1
      ensures ok == (old(closed) || !reader.stuck)
    {
      if closed { return true; }
      closed := true;
      if request != null { request.Cancel(); }
      ok := reader.Close();
    }
  }

  /** Opens a stream: nothing is handed out before its start event has been taken and found valid. */
  method NewActionStreamStarted(json: JsonCodec, body: BodyReader, request: Request?, maxEventBytes: int)
      returns (stream: ActionStream?, failure: Option<StreamError>)
    modifies body, request
    ensures match Start(Config(json, maxEventBytes), old(body.rest))
            case NotStarted(error) => stream == null && failure == Some(error)
            case Ready(metadata, state) =>
              stream != null && failure == None && fresh(stream) && stream.reader == body && stream.request == request
              && stream.Cfg() == Config(json, maxEventBytes)
              && stream.meta == metadata && stream.Abs() == state && !stream.closed
    ensures body.closes == old(body.closes) + if stream == null then 1 else 0
    ensures request != null ==> request.cancels == old(request.cancels) + if stream == null then 1 else 0
  {
    var s := new ActionStream(json, body, request, maxEventBytes);
    failure := s.ReadStart();
    if failure.Some? {
      var _ := s.Close();
      return null, failure;
    }
    stream := s;
  }

  /** The loop every caller writes. Its result is the run of the protocol, for any fragmentation. */
  method Collect(s: ActionStream) returns (frames: seq<Bytes>)
    requires !s.done && !s.closed
    modifies s, s.reader`rest
    ensures var run := Drain(s.Cfg(), old(s.Abs()));
            frames == run.frames && s.Abs() == run.final
    ensures s.peak <= if old(s.peak) < s.maxEventBytes then s.maxEventBytes else old(s.peak)
  {
    hide Step;
    frames := [];
    ghost var initial := s.Abs();
    while true
      invariant !s.done && !s.closed
      invariant var run, rest := Drain(s.Cfg(), initial), Drain(s.Cfg(), s.Abs());
                run.frames == frames + rest.frames && run.final == rest.final
      invariant s.peak <= if old(s.peak) < s.maxEventBytes then s.maxEventBytes else old(s.peak)
      decreases |s.reader.rest|
    {
      var more := s.Next();
      if !more { return; }
      frames := frames + [s.cur];
    }
  }
}
