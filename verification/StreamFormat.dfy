/**
 The event format of a streaming action response: a strict subset of the event-stream syntax
 (section 9.2.6 of the WHATWG HTML Living Standard). This module says what an event on the wire
 means; class ActionStream reads one incrementally.
 */
module StreamFormat {
  import opened ByteText

  /** What can be wrong with a stream: the declared type a failure carries, not the text of its cause. */
  datatype Flaw = EventTooLarge | Interrupted | Unreadable

  datatype Event = Event(name: Bytes, data: Bytes)

  datatype Lexed = Block(lines: seq<Bytes>, rest: Bytes) | Stopped(flaw: Flaw)

  datatype Parsed = Parsed(event: Event, rest: Bytes) | Failed(flaw: Flaw)

  // ---- Lines ----

  /** Bytes up to and including the first line feed, or all of them when there is none. */
  function LineLength(s: Bytes): (n: nat)
    ensures n <= |s| && (s != "" ==> n > 0)
  {
    if s == "" then 0 else if s[0] == LF then 1 else 1 + LineLength(s[1..])
  }

  predicate Terminated(s: Bytes) {
    var n := LineLength(s);
    n > 0 && s[n - 1] == LF
  }

  predicate IsComment(line: Bytes) { HasPrefix(line, ":") }

  predicate IsName(line: Bytes) { HasPrefix(line, "event:") }

  predicate IsData(line: Bytes) { HasPrefix(line, "data:") }

  /** A line that may stand inside a block. */
  predicate Recognised(line: Bytes) { IsComment(line) || IsName(line) || IsData(line) }

  function FieldValue(line: Bytes, field: Bytes): (v: Bytes)
    requires HasPrefix(line, field)
    ensures |v| + |field| <= |line|
  {
    TrimPrefix(TrimPrefix(line, field), " ")
  }

  // ---- Blocks ----

  datatype FirstLine = Blank | Field(line: Bytes) | Refused(flaw: Flaw)

  /** The line at the start of `rest`, when `total` bytes of its block have gone before. */
  function ReadFirst(rest: Bytes, total: int, cap: int): FirstLine {
    var n := LineLength(rest);
    if n > 0 && total + n > cap then Refused(EventTooLarge)
    else if !Terminated(rest) then Refused(Interrupted)
    else if CR in rest[..n] then Refused(Unreadable)
    else if n == 1 then Blank
    else if !Recognised(rest[..n - 1]) then Refused(Unreadable)
    else Field(rest[..n - 1])
  }

  /**
   The lines of the block at the start of `rest`, or the first thing wrong with it, when `total`
   bytes of the block have gone before and at most `cap` are allowed.
   */
  function LexBlock(rest: Bytes, total: int, cap: int): (r: Lexed)
    ensures r.Block? ==> |r.rest| < |rest|
    decreases |rest|
  {
    match ReadFirst(rest, total, cap)
    case Refused(f) => Stopped(f)
    case Blank => Block([], rest[LineLength(rest)..])
    case Field(line) =>
      match LexBlock(rest[LineLength(rest)..], total + LineLength(rest), cap)
      case Stopped(f) => Stopped(f)
      case Block(lines, r) => Block([line] + lines, r)
  }

  function DataValues(lines: seq<Bytes>): seq<Bytes> {
    if lines == [] then []
    else
      var last := lines[|lines| - 1];
      DataValues(lines[..|lines| - 1]) + if IsData(last) then [FieldValue(last, "data:")] else []
  }

  /** The value of the last event line, empty when there is none. */
  function EventName(lines: seq<Bytes>): Bytes {
    if lines == [] then ""
    else
      var last := lines[|lines| - 1];
      if IsName(last) then FieldValue(last, "event:") else EventName(lines[..|lines| - 1])
  }

  predicate HasComment(lines: seq<Bytes>) {
    exists i :: 0 <= i < |lines| && IsComment(lines[i])
  }

  /** The next event on the wire, past any blocks that hold only comments. */
  function ParseEvent(rest: Bytes, cap: int): (r: Parsed)
    ensures r.Parsed? ==> |r.rest| < |rest|
    decreases |rest|
  {
    match LexBlock(rest, 0, cap)
    case Stopped(f) => Failed(f)
    case Block(lines, after) =>
      var values := DataValues(lines);
      var name := EventName(lines);
      if values == [] && name == "" then
        if HasComment(lines) then ParseEvent(after, cap) else Failed(Unreadable)
      else if !Utf8Valid(Join(values, LF)) then Failed(Unreadable)
      else Parsed(Event(name, Join(values, LF)), after)
  }

  // ---- What the sender writes ----

  function Emit(lines: seq<Bytes>): Bytes {
    if lines == [] then "" else lines[0] + [LF] + Emit(lines[1..])
  }

  function WriteBlock(lines: seq<Bytes>): Bytes { Emit(lines) + [LF] }

  function FieldLines(parts: seq<Bytes>): seq<Bytes> {
    seq(|parts|, i requires 0 <= i < |parts| => "data: " + parts[i])
  }

  function DataLines(payload: Bytes): seq<Bytes> { FieldLines(Split(payload, LF)) }

  function ControlLines(name: Bytes, payload: Bytes): seq<Bytes> {
    ["event: " + name] + DataLines(payload)
  }

  /** Lines a block may hold: each recognised and free of line feeds and carriage returns. */
  ghost predicate Wellformed(lines: seq<Bytes>) {
    forall i :: 0 <= i < |lines| ==> WellformedLine(lines[i])
  }

  predicate WellformedLine(line: Bytes) {
    Recognised(line) && LF !in line && CR !in line
  }

  // ---- Lexing inverts writing ----

  lemma {:induction false} FirstLineOfWritten(line: Bytes, tail: Bytes)
    requires LF !in line
    ensures LineLength(line + [LF] + tail) == |line| + 1
  {
    var s := line + [LF] + tail;
    if line != "" {
      FirstLineOfWritten(line[1..], tail);
      assert s[1..] == line[1..] + [LF] + tail;
    }
  }

  lemma {:induction false} ReadFirstOfWritten(line: Bytes, tail: Bytes, total: nat, cap: int)
    requires line == "" || WellformedLine(line)
    requires total + |line| + 1 <= cap
    ensures var wire := line + [LF] + tail;
            ReadFirst(wire, total, cap) == (if line == "" then Blank else Field(line))
            && LineLength(wire) == |line| + 1 && wire[|line| + 1..] == tail
  {
    var wire := line + [LF] + tail;
    FirstLineOfWritten(line, tail);
    var n := |line| + 1;
    assert wire[n - 1] == LF;
    assert wire[..n] == line + [LF];
    assert wire[..n - 1] == line;
  }

  lemma {:induction false} LineLengthFindsFirst(s: Bytes)
    ensures Terminated(s) <==> LF in s
    ensures LF in s ==> LF !in s[..LineLength(s) - 1]
    ensures LF !in s ==> LineLength(s) == |s|
  {
    if s != "" && s[0] != LF {
      var n := LineLength(s[1..]);
      LineLengthFindsFirst(s[1..]);
      assert s == [s[0]] + s[1..];
      if LF in s {
        assert s[..n] == [s[0]] + s[1..][..n - 1];
      }
    }
  }

  lemma {:induction false} WrittenOfReadFirst(rest: Bytes, total: nat, cap: int)
    requires !ReadFirst(rest, total, cap).Refused?
    ensures var first := ReadFirst(rest, total, cap);
            var line := if first.Blank? then "" else first.line;
            var n := LineLength(rest);
            n == |line| + 1 && total + n <= cap && rest == line + [LF] + rest[n..]
            && (first.Field? ==> WellformedLine(line))
  {
    var n := LineLength(rest);
    LineLengthFindsFirst(rest);
    assert rest == rest[..n - 1] + [LF] + rest[n..];
    assert forall c :: c in rest[..n - 1] ==> c in rest[..n];
  }

  lemma WriteCons(line: Bytes, lines: seq<Bytes>, after: Bytes)
    ensures WriteBlock([]) + after == "" + [LF] + after
    ensures WriteBlock([line] + lines) + after == line + [LF] + (WriteBlock(lines) + after)
    ensures |WriteBlock([line] + lines)| == |line| + 1 + |WriteBlock(lines)|
  {
    assert ([line] + lines)[1..] == lines;
  }

  lemma {:induction false} LexOfWritten(lines: seq<Bytes>, after: Bytes, total: nat, cap: int)
    requires Wellformed(lines)
    requires total + |WriteBlock(lines)| <= cap
    ensures LexBlock(WriteBlock(lines) + after, total, cap) == Block(lines, after)
    decreases |lines|
  {
    hide ReadFirst, LineLength, Recognised, Emit;
    if lines == [] {
      ReadFirstOfWritten("", after, total, cap);
      WriteCons("", [], after);
    } else {
      var line, tail := lines[0], WriteBlock(lines[1..]) + after;
      assert [line] + lines[1..] == lines;
      WriteCons(line, lines[1..], after);
      LexOfWritten(lines[1..], after, total + |line| + 1, cap);
      NoBlankFields(line);
      ReadFirstOfWritten(line, tail, total, cap);
    }
  }

  lemma NoBlankFields(line: Bytes)
    ensures Recognised(line) ==> line != ""
  {
  }

  /** Conversely, what was lexed is exactly what was written, within the bound. */
  lemma {:induction false} WrittenOfLex(rest: Bytes, total: nat, cap: int)
    requires LexBlock(rest, total, cap).Block?
    ensures var b := LexBlock(rest, total, cap);
            Wellformed(b.lines) && rest == WriteBlock(b.lines) + b.rest
            && total + |WriteBlock(b.lines)| <= cap
    decreases |rest|
  {
    hide ReadFirst, LineLength, Recognised, WellformedLine, HasComment, WriteBlock, Emit;
    WrittenOfReadFirst(rest, total, cap);
    match ReadFirst(rest, total, cap)
    case Blank =>
      WriteCons("", [], rest[LineLength(rest)..]);
      WriteBlank();
    case Field(line) =>
      var tail := rest[|line| + 1..];
      WrittenOfLex(tail, total + |line| + 1, cap);
      var b := LexBlock(tail, total + |line| + 1, cap);
      WriteCons(line, b.lines, b.rest);
  }

  lemma WriteBlank()
    ensures |WriteBlock([])| == 1
  {
  }

  // ---- A wire that is cut short ----

  lemma {:induction false} UnterminatedPrefix(line: Bytes, tail: Bytes, k: nat, total: nat, cap: int)
    requires LF !in line && k <= |line| && total + k <= cap
    ensures ReadFirst((line + [LF] + tail)[..k], total, cap) == Refused(Interrupted)
  {
    var cut := (line + [LF] + tail)[..k];
    assert cut == line[..k];
    LineLengthFindsFirst(cut);
  }

  lemma WriteFirst(lines: seq<Bytes>, line: Bytes, tail: Bytes)
    requires line == if lines == [] then "" else lines[0]
    requires tail == if lines == [] then "" else WriteBlock(lines[1..])
    ensures WriteBlock(lines) == line + [LF] + tail
  {
  }

  /** Inside a written block there is nothing to report but that the rest has not come. */
  lemma {:induction false} LexOfPartialBlock(lines: seq<Bytes>, k: nat, total: nat, cap: int)
    requires Wellformed(lines) && k < |WriteBlock(lines)|
    requires total + |WriteBlock(lines)| <= cap
    ensures LexBlock(WriteBlock(lines)[..k], total, cap) == Stopped(Interrupted)
    decreases |lines|
  {
    hide ReadFirst, LineLength, Recognised, Emit, WriteBlock;
    var line := if lines == [] then "" else lines[0];
    var tail := if lines == [] then "" else WriteBlock(lines[1..]);
    var cut := WriteBlock(lines)[..k];
    WriteFirst(lines, line, tail);
    if k <= |line| {
      UnterminatedPrefix(line, tail, k, total, cap);
    } else {
      var more := tail[..k - |line| - 1];
      assert cut == line + [LF] + more;
      LexOfPartialBlock(lines[1..], k - |line| - 1, total + |line| + 1, cap);
      NoBlankFields(line);
      ReadFirstOfWritten(line, more, total, cap);
    }
  }

  lemma {:induction false} LexOfCut(kept: Bytes, lost: Bytes, cap: int)
    requires LexBlock(kept + lost, 0, cap).Block?
    ensures var b := LexBlock(kept + lost, 0, cap);
            || LexBlock(kept, 0, cap) == Stopped(Interrupted)
            || exists r :: b.rest == r + lost && LexBlock(kept, 0, cap) == Block(b.lines, r)
  {
    hide LexBlock, WriteBlock, Emit, Wellformed;
    var b := LexBlock(kept + lost, 0, cap);
    WrittenOfLex(kept + lost, 0, cap);
    var w := WriteBlock(b.lines);
    if |kept| < |w| {
      assert kept == (kept + lost)[..|kept|] == w[..|kept|];
      LexOfPartialBlock(b.lines, |kept|, 0, cap);
    } else {
      var r := kept[|w|..];
      assert w == (w + b.rest)[..|w|] == kept[..|w|];
      assert kept == w + r;
      assert b.rest == (kept + lost)[|w|..] == r + lost;
      LexOfWritten(b.lines, r, 0, cap);
    }
  }

  /** Losing the end of the wire never changes an event: it is read the same, or found interrupted. */
  lemma {:induction false} ParseOfCut(kept: Bytes, lost: Bytes, cap: int)
    requires ParseEvent(kept + lost, cap).Parsed?
    ensures var e := ParseEvent(kept + lost, cap);
            || ParseEvent(kept, cap) == Failed(Interrupted)
            || exists r :: e.rest == r + lost && ParseEvent(kept, cap) == Parsed(e.event, r)
    decreases |kept|
  {
    hide LexBlock, DataValues, EventName, Utf8Valid, HasComment, Join;
    LexOfCut(kept, lost, cap);
    var b := LexBlock(kept + lost, 0, cap);
    if LexBlock(kept, 0, cap) != Stopped(Interrupted) {
      var r :| b.rest == r + lost && LexBlock(kept, 0, cap) == Block(b.lines, r);
      if DataValues(b.lines) == [] && EventName(b.lines) == "" {
        ParseOfCut(r, lost, cap);
      }
    }
  }

  // ---- What a written block means ----

  lemma {:induction false} DataLineValue(part: Bytes)
    ensures var line := "data: " + part;
            IsData(line) && !IsName(line) && FieldValue(line, "data:") == part
  {
    var line := "data: " + part;
    assert line[5..] == " " + part && (" " + part)[1..] == part;
    assert line[..5] == "data:" && line[0] == 'd';
  }

  lemma {:induction false} ValuesOfDataLines(prefix: seq<Bytes>, parts: seq<Bytes>)
    ensures DataValues(prefix + FieldLines(parts)) == DataValues(prefix) + parts
    ensures EventName(prefix + FieldLines(parts)) == EventName(prefix)
  {
    hide FieldValue, IsData, IsName;
    var all := prefix + FieldLines(parts);
    if parts == [] {
      assert all == prefix;
    } else {
      var init, last := parts[..|parts| - 1], parts[|parts| - 1];
      ValuesOfDataLines(prefix, init);
      assert all == prefix + FieldLines(init) + ["data: " + last];
      assert all[..|all| - 1] == prefix + FieldLines(init);
      DataLineValue(last);
      assert init + [last] == parts;
    }
  }

  lemma {:induction false} DataLinesWellformed(payload: Bytes)
    requires CR !in payload
    ensures Wellformed(DataLines(payload))
  {
    var parts := Split(payload, LF);
    forall line | line in DataLines(payload)
      ensures Recognised(line) && LF !in line && CR !in line
    {
      var i :| 0 <= i < |parts| && line == "data: " + parts[i];
      assert parts[i] in parts;
      assert line[..5] == "data:";
    }
  }

  /** A data block carries its payload through, whatever spaces, colons or line feeds it holds. */
  lemma {:induction false} ParseOfDataBlock(payload: Bytes, after: Bytes, cap: int)
    requires CR !in payload && Utf8Valid(payload)
    requires |WriteBlock(DataLines(payload))| <= cap
    ensures ParseEvent(WriteBlock(DataLines(payload)) + after, cap) == Parsed(Event("", payload), after)
  {
    hide LexBlock, Emit, FieldLines, DataValues, EventName, Utf8Valid, Split, Join, Wellformed;
    DataLinesWellformed(payload);
    LexOfWritten(DataLines(payload), after, 0, cap);
    NothingYet();
    var parts := Split(payload, LF);
    assert [] + FieldLines(parts) == DataLines(payload) && [] + parts == parts;
    ValuesOfDataLines([], parts);
    JoinOfSplit(payload, LF);
  }

  lemma {:induction false} ParseOfControlBlock(name: Bytes, payload: Bytes, after: Bytes, cap: int)
    requires LF !in name && CR !in name
    requires CR !in payload && Utf8Valid(payload)
    requires |WriteBlock(ControlLines(name, payload))| <= cap
    ensures ParseEvent(WriteBlock(ControlLines(name, payload)) + after, cap) == Parsed(Event(name, payload), after)
  {
    hide LexBlock, Emit, FieldLines, DataValues, EventName, Utf8Valid, Split, Join, WellformedLine;
    var line, lines := "event: " + name, ControlLines(name, payload);
    DataLinesWellformed(payload);
    NameLine(name);
    assert Wellformed(lines);
    LexOfWritten(lines, after, 0, cap);
    var parts := Split(payload, LF);
    assert DataValues([line]) + parts == parts;
    ValuesOfDataLines([line], parts);
    JoinOfSplit(payload, LF);
  }

  lemma NothingYet()
    ensures DataValues([]) == [] && EventName([]) == "" && !HasComment([])
    ensures Join([], LF) == "" && Emit([]) == "" && Utf8Valid("")
  {
  }

  lemma {:induction false} NameLine(name: Bytes)
    requires LF !in name && CR !in name
    ensures var line := "event: " + name;
            Wellformed([line]) && EventName([line]) == name && DataValues([line]) == []
  {
    var line: Bytes := "event: " + name;
    var lines: seq<Bytes> := [line];
    assert line[..6] == "event:" && line[6..] == " " + name && (" " + name)[1..] == name;
    assert line[0] == 'e';
    assert |lines[..0]| == 0;
  }

  /** A block of comments is skipped. */
  lemma {:induction false} ParsePastHeartbeat(comments: seq<Bytes>, after: Bytes, cap: int)
    requires comments != [] && Wellformed(comments)
    requires forall i :: 0 <= i < |comments| ==> IsComment(comments[i])
    requires |WriteBlock(comments)| <= cap
    ensures ParseEvent(WriteBlock(comments) + after, cap) == ParseEvent(after, cap)
  {
    LexOfWritten(comments, after, 0, cap);
    CommentsSayNothing(comments);
    assert comments[0] in comments;
  }

  lemma {:induction false} CommentsSayNothing(comments: seq<Bytes>)
    requires forall i :: 0 <= i < |comments| ==> IsComment(comments[i])
    ensures DataValues(comments) == [] && EventName(comments) == ""
  {
    if comments != [] {
      var last := comments[|comments| - 1];
      assert last in comments && last[0] == ':';
      CommentsSayNothing(comments[..|comments| - 1]);
    }
  }

  // ---- Reading line by line ----

  function Prepend(lines: seq<Bytes>, lexed: Lexed): Lexed {
    match lexed
    case Stopped(f) => Stopped(f)
    case Block(more, rest) => Block(lines + more, rest)
  }

  lemma PrependNothing(lexed: Lexed)
    ensures Prepend([], lexed) == lexed
  {
    match lexed
    case Stopped(_) =>
    case Block(more, _) => assert [] + more == more;
  }

  /** The ways a block can go on, in the order the reader tells them apart. */
  lemma LexCases(rest: Bytes, total: int, cap: int)
    ensures var n := LineLength(rest);
            var lexed := LexBlock(rest, total, cap);
            if n > 0 && total + n > cap then lexed == Stopped(EventTooLarge)
            else if !Terminated(rest) then lexed == Stopped(Interrupted)
            else if CR in rest[..n] then lexed == Stopped(Unreadable)
            else if rest[..n - 1] == "" then lexed == Block([], rest[n..])
            else if !Recognised(rest[..n - 1]) then lexed == Stopped(Unreadable)
            else ReadFirst(rest, total, cap) == Field(rest[..n - 1])
  {
    hide LineLength, Recognised;
  }

  /** One more line read: what is left to lex, and what the lines so far say. */
  lemma {:induction false} TakeLine(start: Bytes, lines: seq<Bytes>, rest: Bytes, total: int, cap: int)
    requires ReadFirst(rest, total, cap).Field?
    requires LexBlock(start, 0, cap) == Prepend(lines, LexBlock(rest, total, cap))
    ensures var line := ReadFirst(rest, total, cap).line;
            var n := LineLength(rest);
            && LexBlock(start, 0, cap) == Prepend(lines + [line], LexBlock(rest[n..], total + n, cap))
            && |Emit(lines + [line])| == |Emit(lines)| + |line| + 1
  {
    hide ReadFirst, LineLength;
    var line := ReadFirst(rest, total, cap).line;
    EmitSnoc(lines, line);
    match LexBlock(rest[LineLength(rest)..], total + LineLength(rest), cap)
    case Stopped(_) =>
    case Block(more, _) => assert lines + ([line] + more) == lines + [line] + more;
  }

  lemma {:induction false} SayLine(lines: seq<Bytes>, line: Bytes)
    ensures EventName(lines + [line]) == if IsName(line) then FieldValue(line, "event:") else EventName(lines)
    ensures HasComment(lines + [line]) == (HasComment(lines) || IsComment(line))
    ensures DataValues(lines + [line]) == DataValues(lines) + if IsData(line) then [FieldValue(line, "data:")] else []
    ensures Join(DataValues(lines + [line]), LF)
         == if !IsData(line) then Join(DataValues(lines), LF)
            else if DataValues(lines) == [] then FieldValue(line, "data:")
            else Join(DataValues(lines), LF) + [LF] + FieldValue(line, "data:")
  {
    hide HasPrefix, FieldValue;
    var all := lines + [line];
    assert all[..|lines|] == lines && all[|lines|] == line;
    if IsData(line) {
      JoinSnoc(DataValues(lines), FieldValue(line, "data:"));
    } else {
      assert DataValues(all) == DataValues(lines);
    }
    if HasComment(lines) {
      var i :| 0 <= i < |lines| && IsComment(lines[i]);
      assert all[i] == lines[i];
    }
  }

  lemma OneKindOfLine(line: Bytes)
    ensures IsComment(line) ==> !IsName(line) && !IsData(line)
    ensures IsName(line) ==> !IsComment(line) && !IsData(line)
    ensures IsData(line) ==> !IsComment(line) && !IsName(line)
  {
    if line != "" {
      assert IsComment(line) ==> line[0] == ':';
      assert IsName(line) ==> line[0] == 'e';
      assert IsData(line) ==> line[0] == 'd';
    }
  }

  /** What a reader has put together from its fragments so far is the start of one line, or all of it. */
  lemma {:induction false} LineFromFragments(was: Bytes, line: Bytes, rest: Bytes, ended: bool)
    requires was == line + rest
    requires if ended then line != "" && line[|line| - 1] == LF && LF !in line[..|line| - 1] else LF !in line
    ensures |line| <= LineLength(was)
    ensures ended ==> LineLength(was) == |line| && Terminated(was)
    ensures !ended && rest == "" ==> LineLength(was) == |line| && !Terminated(was)
  {
    LineLengthFindsFirst(was);
    if ended {
      var body := line[..|line| - 1];
      assert was == body + [LF] + rest;
      FirstLineOfWritten(body, rest);
    }
  }

  // ---- Retained memory ----

  lemma {:induction false} ValuesWithinBlock(lines: seq<Bytes>)
    ensures |Join(DataValues(lines), LF)| + |EventName(lines)| <= |Emit(lines)|
  {
    if lines != [] {
      var init, last := lines[..|lines| - 1], lines[|lines| - 1];
      ValuesWithinBlock(init);
      EmitSnoc(init, last);
      assert lines == init + [last];
      if IsData(last) {
        JoinSnoc(DataValues(init), FieldValue(last, "data:"));
        assert DataValues(lines) == DataValues(init) + [FieldValue(last, "data:")];
        assert last[0] == 'd';
      } else {
        assert DataValues(lines) == DataValues(init);
      }
    }
  }

  lemma {:induction false} EmitSnoc(lines: seq<Bytes>, last: Bytes)
    ensures Emit(lines + [last]) == Emit(lines) + last + [LF]
  {
    if lines != [] {
      EmitSnoc(lines[1..], last);
      assert (lines + [last])[1..] == lines[1..] + [last];
    } else {
      assert [last][1..] == [];
    }
  }

  lemma {:induction false} JoinSnoc(parts: seq<Bytes>, last: Bytes)
    ensures Join(parts + [last], LF) == if parts == [] then last else Join(parts, LF) + [LF] + last
  {
    if |parts| > 0 {
      JoinSnoc(parts[1..], last);
      assert (parts + [last])[1..] == parts[1..] + [last];
    }
  }

  /** An event that was accepted came from fewer bytes than the cap, and holds no more than they. */
  lemma {:induction false} EventWithinCap(rest: Bytes, cap: int)
    requires ParseEvent(rest, cap).Parsed?
    ensures var e := ParseEvent(rest, cap).event; |e.name| + |e.data| < cap
    decreases |rest|
  {
    var b := LexBlock(rest, 0, cap);
    WrittenOfLex(rest, 0, cap);
    if DataValues(b.lines) == [] && EventName(b.lines) == "" {
      EventWithinCap(b.rest, cap);
    } else {
      ValuesWithinBlock(b.lines);
    }
  }
}
