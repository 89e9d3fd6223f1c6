/**
 The wire as a grammar: which bytes hold an event and which are refused, told without reading them in order.
 The reader's meaning of the bytes is exactly this.
 */
module StreamGrammar {
  import opened ByteText
  import opened StreamFormat

  // ---- What a block says ----

  /** A field with its value; one space after the colon is not part of it. */
  predicate IsField(line: Bytes, field: Bytes, value: Bytes) {
    line == field + " " + value || (line == field + value && !HasPrefix(value, " "))
  }

  lemma {:induction false} FieldValueIff(line: Bytes, field: Bytes, value: Bytes)
    ensures HasPrefix(line, field) && FieldValue(line, field) == value <==> IsField(line, field, value)
  {
    if HasPrefix(line, field) {
      var v := line[|field|..];
      assert line == field + v;
      assert HasPrefix(v, " ") ==> v == " " + v[1..];
      assert field + (" " + value) == field + " " + value;
      if line == field + " " + value { assert v == " " + value; }
      if line == field + value { assert v == value; }
    }
  }

  /** The lines of a block give this name and these data values: the last name counts, and comments say nothing. */
  ghost predicate Says(lines: seq<Bytes>, name: Bytes, values: seq<Bytes>)
    decreases |lines|, 0
  {
    if lines == [] then name == "" && values == []
    else
      var init, last := lines[..|lines| - 1], lines[|lines| - 1];
      || (HasPrefix(last, ":") && Says(init, name, values))
      || (IsField(last, "event:", name) && SaysUnnamed(init, values))
      || (values != [] && IsField(last, "data:", values[|values| - 1]) && Says(init, name, values[..|values| - 1]))
  }

  /** The same data values under some name. */
  ghost predicate SaysUnnamed(lines: seq<Bytes>, values: seq<Bytes>)
    decreases |lines|, 1
  {
    exists earlier :: Says(lines, earlier, values)
  }

  /** Only the reading that fits the kind of the last line is left of the three. */
  lemma {:induction false} SaysLast(lines: seq<Bytes>, name: Bytes, values: seq<Bytes>)
    requires lines != [] && Recognised(lines[|lines| - 1])
    ensures var init, last := lines[..|lines| - 1], lines[|lines| - 1];
            Says(lines, name, values) <==>
              if IsComment(last) then Says(init, name, values)
              else if IsName(last) then
                FieldValue(last, "event:") == name && SaysUnnamed(init, values)
              else
                && values != [] && FieldValue(last, "data:") == values[|values| - 1]
                && Says(init, name, values[..|values| - 1])
  {
    hide IsField, FieldValue, HasPrefix;
    var last := lines[|lines| - 1];
    OneKindOfLine(last);
    FieldValueIff(last, "event:", name);
    if values != [] { FieldValueIff(last, "data:", values[|values| - 1]); }
  }

  /** The relation is what the reader's two functions compute. */
  lemma {:induction false} SaysIff(lines: seq<Bytes>, name: Bytes, values: seq<Bytes>)
    requires Wellformed(lines)
    ensures Says(lines, name, values) <==> EventName(lines) == name && DataValues(lines) == values
    decreases |lines|
  {
    if lines != [] {
      hide Says, FieldValue, HasPrefix, Wellformed, IsComment, IsName, IsData, EventName, DataValues;
      var init, last := lines[..|lines| - 1], lines[|lines| - 1];
      WellformedParts(lines);
      OneKindOfLine(last);
      SaysLast(lines, name, values);
      LastSays(lines);
      if IsData(last) {
        if values != [] {
          SaysIff(init, name, values[..|values| - 1]);
          assert values == values[..|values| - 1] + [values[|values| - 1]];
        }
      } else if IsName(last) {
        SaysIff(init, EventName(init), values);
        forall earlier | Says(init, earlier, values) ensures DataValues(init) == values {
          SaysIff(init, earlier, values);
        }
      } else {
        SaysIff(init, name, values);
      }
    } else {
      NothingYet();
    }
  }

  lemma LastSays(lines: seq<Bytes>)
    requires lines != []
    ensures var init, last := lines[..|lines| - 1], lines[|lines| - 1];
            && DataValues(lines) == DataValues(init) + (if IsData(last) then [FieldValue(last, "data:")] else [])
            && EventName(lines) == if IsName(last) then FieldValue(last, "event:") else EventName(init)
  {
    hide FieldValue, IsData, IsName;
  }

  lemma WellformedParts(lines: seq<Bytes>)
    requires Wellformed(lines) && lines != []
    ensures Wellformed(lines[..|lines| - 1]) && Recognised(lines[|lines| - 1])
  {
  }

  // ---- Accepted events ----

  function WriteBlocks(blocks: seq<seq<Bytes>>): Bytes {
    if blocks == [] then "" else WriteBlock(blocks[0]) + WriteBlocks(blocks[1..])
  }

  /** A block that is passed over: it holds a comment and neither data nor a name. */
  ghost predicate Silent(lines: seq<Bytes>, cap: int) {
    Wellformed(lines) && |WriteBlock(lines)| <= cap && HasComment(lines) && Says(lines, "", [])
  }

  ghost predicate AllSilent(blocks: seq<seq<Bytes>>, cap: int) {
    forall i :: 0 <= i < |blocks| ==> Silent(blocks[i], cap)
  }

  /** A block that holds this event. */
  ghost predicate Tells(lines: seq<Bytes>, event: Event, cap: int) {
    && Wellformed(lines) && |WriteBlock(lines)| <= cap && Utf8Valid(event.data)
    && exists values :: Says(lines, event.name, values) && event.data == Join(values, LF)
                        && (event.name != "" || values != [])
  }

  lemma {:induction false} ParsePastSilent(lines: seq<Bytes>, after: Bytes, cap: int)
    requires Silent(lines, cap)
    ensures ParseEvent(WriteBlock(lines) + after, cap) == ParseEvent(after, cap)
  {
    hide LexBlock, Wellformed, Says, WriteBlock, DataValues, EventName;
    LexOfWritten(lines, after, 0, cap);
    SaysIff(lines, "", []);
  }

  lemma {:induction false} ParsePastAllSilent(blocks: seq<seq<Bytes>>, after: Bytes, cap: int)
    requires AllSilent(blocks, cap)
    ensures ParseEvent(WriteBlocks(blocks) + after, cap) == ParseEvent(after, cap)
  {
    hide ParseEvent, WriteBlock, Silent;
    if blocks == [] {
      assert WriteBlocks(blocks) + after == after;
    } else {
      assert WriteBlocks(blocks) + after == WriteBlock(blocks[0]) + (WriteBlocks(blocks[1..]) + after);
      ParsePastSilent(blocks[0], WriteBlocks(blocks[1..]) + after, cap);
      ParsePastAllSilent(blocks[1..], after, cap);
    }
  }

  lemma {:induction false} ParseOfTelling(lines: seq<Bytes>, event: Event, after: Bytes, cap: int)
    requires Tells(lines, event, cap)
    ensures ParseEvent(WriteBlock(lines) + after, cap) == Parsed(event, after)
  {
    hide LexBlock, Wellformed, Says, WriteBlock, DataValues, EventName, Utf8Valid, Join;
    var values :|
      Says(lines, event.name, values) && event.data == Join(values, LF) && (event.name != "" || values != []);
    LexOfWritten(lines, after, 0, cap);
    SaysIff(lines, event.name, values);
  }

  /** The blocks before the one that decides: all of them silent. */
  lemma {:induction false} SilentThenDecided(wire: Bytes, cap: int) returns (beats: seq<seq<Bytes>>, rest: Bytes)
    ensures AllSilent(beats, cap) && wire == WriteBlocks(beats) + rest
    ensures ParseEvent(rest, cap) == ParseEvent(wire, cap)
    ensures var b := LexBlock(rest, 0, cap);
            b.Block? ==> DataValues(b.lines) != [] || EventName(b.lines) != "" || !HasComment(b.lines)
    decreases |wire|
  {
    hide Wellformed, Says, WriteBlock, DataValues, EventName, HasComment, Utf8Valid;
    var b := LexBlock(wire, 0, cap);
    if b.Block? && DataValues(b.lines) == [] && EventName(b.lines) == "" && HasComment(b.lines) {
      WrittenOfLex(wire, 0, cap);
      SaysIff(b.lines, "", []);
      var more;
      more, rest := SilentThenDecided(b.rest, cap);
      beats := [b.lines] + more;
      assert beats[1..] == more;
      assert wire == WriteBlock(b.lines) + (WriteBlocks(more) + rest);
    } else {
      beats, rest := [], wire;
      assert WriteBlocks([]) + wire == wire;
    }
  }

  /** An event is read exactly from silent blocks followed by one block that tells it; the rest is left. */
  lemma {:induction false} ParsedIff(wire: Bytes, cap: int, event: Event, rest: Bytes)
    ensures ParseEvent(wire, cap) == Parsed(event, rest) <==>
            exists beats, lines ::
              && wire == WriteBlocks(beats) + (WriteBlock(lines) + rest)
              && AllSilent(beats, cap) && Tells(lines, event, cap)
  {
    hide ParseEvent, Tells, AllSilent, WriteBlock, WriteBlocks;
    if ParseEvent(wire, cap) == Parsed(event, rest) {
      var beats, tail := SilentThenDecided(wire, cap);
      var lines := TellingBlock(tail, cap, event, rest);
      assert wire == WriteBlocks(beats) + (WriteBlock(lines) + rest);
    }
    forall beats, lines |
      wire == WriteBlocks(beats) + (WriteBlock(lines) + rest) && AllSilent(beats, cap) && Tells(lines, event, cap)
      ensures ParseEvent(wire, cap) == Parsed(event, rest)
    {
      ParsePastAllSilent(beats, WriteBlock(lines) + rest, cap);
      ParseOfTelling(lines, event, rest, cap);
    }
  }

  lemma {:induction false} TellingBlock(tail: Bytes, cap: int, event: Event, rest: Bytes) returns (lines: seq<Bytes>)
    requires ParseEvent(tail, cap) == Parsed(event, rest)
    requires var b := LexBlock(tail, 0, cap);
             b.Block? ==> DataValues(b.lines) != [] || EventName(b.lines) != "" || !HasComment(b.lines)
    ensures tail == WriteBlock(lines) + rest && Tells(lines, event, cap)
  {
    hide LexBlock, Wellformed, Says, WriteBlock, DataValues, EventName, Utf8Valid, Join, HasComment;
    WrittenOfLex(tail, 0, cap);
    lines := LexBlock(tail, 0, cap).lines;
    SaysIff(lines, event.name, DataValues(lines));
  }

  // ---- Refused wires ----

  /** The next line breaks a block of which `total` bytes have gone before. */
  ghost predicate Breaks(rest: Bytes, total: int, cap: int, flaw: Flaw) {
    match flaw
    case EventTooLarge => exists k: nat :: LineReaches(rest, k) && total + k > cap
    case Interrupted => LF !in rest && (rest == "" || total + |rest| <= cap)
    case Unreadable =>
      exists line, tail :: LineThen(rest, line, tail) && total + |line| + 1 <= cap
                           && (CR in line || (line != "" && !Recognised(line)))
  }

  /** The first line has at least `k` bytes, its line feed included. */
  predicate LineReaches(rest: Bytes, k: nat) { 0 < k <= |rest| && LF !in rest[..k - 1] }

  predicate LineThen(rest: Bytes, line: Bytes, tail: Bytes) { LF !in line && rest == line + [LF] + tail }

  lemma {:induction false} BreaksIff(rest: Bytes, total: int, cap: int, flaw: Flaw)
    ensures ReadFirst(rest, total, cap) == Refused(flaw) <==> Breaks(rest, total, cap, flaw)
  {
    hide LineLength, Terminated, Recognised;
    var n := LineLength(rest);
    LineLengthFindsFirst(rest);
    FirstReaches(rest);
    if LF in rest {
      assert rest[n - 1] == LF by { TerminatedEnds(rest); }
      assert LineThen(rest, rest[..n - 1], rest[n..]) by { assert rest == rest[..n - 1] + [LF] + rest[n..]; }
      assert rest[..n] == rest[..n - 1] + [LF];
      assert CR in rest[..n] <==> CR in rest[..n - 1];
      forall line, tail | LineThen(rest, line, tail) ensures line == rest[..n - 1] {
        FirstLineOfWritten(line, tail);
        assert rest[..|line|] == line;
      }
    }
  }

  lemma TerminatedEnds(s: Bytes)
    requires Terminated(s)
    ensures LineLength(s) > 0 && s[LineLength(s) - 1] == LF
  {
  }

  lemma KeptInPrefix(s: Bytes, i: nat, n: nat)
    ensures i < n <= |s| ==> s[i] in s[..n]
  {
    if i < n <= |s| { assert s[..n][i] == s[i]; }
  }

  lemma {:induction false} FirstReaches(rest: Bytes)
    ensures forall k: nat :: LineReaches(rest, k) ==> k <= LineLength(rest)
    ensures rest != "" ==> LineReaches(rest, LineLength(rest))
  {
    LineLengthFindsFirst(rest);
    if LF in rest {
      var n := LineLength(rest);
      assert rest[n - 1] == LF by { TerminatedEnds(rest); }
      forall k: nat | LineReaches(rest, k) ensures k <= n { KeptInPrefix(rest, n - 1, k - 1); }
    } else if rest != "" {
      var n := LineLength(rest);
      assert forall c :: c in rest[..n - 1] ==> c in rest;
    }
  }

  /** A finished block that holds nothing to report, or no UTF-8. */
  ghost predicate Senseless(lines: seq<Bytes>) {
    exists name, values :: Says(lines, name, values)
      && if name == "" && values == [] then !HasComment(lines) else !Utf8Valid(Join(values, LF))
  }

  /** What follows these whole lines of a block makes it fail: the next line, or the blank line that ends it. */
  ghost predicate Fails(lines: seq<Bytes>, rest: Bytes, cap: int, flaw: Flaw) {
    && Wellformed(lines) && (lines != [] ==> |Emit(lines)| <= cap)
    && (|| Breaks(rest, |Emit(lines)|, cap, flaw)
        || (flaw == Unreadable && rest != "" && rest[0] == LF && |WriteBlock(lines)| <= cap && Senseless(lines)))
  }

  lemma EmitCons(line: Bytes, lines: seq<Bytes>, after: Bytes)
    ensures Emit([]) + after == after
    ensures Emit([line] + lines) + after == line + [LF] + (Emit(lines) + after)
    ensures |Emit([line] + lines)| == |line| + 1 + |Emit(lines)|
  {
    assert ([line] + lines)[1..] == lines;
  }

  lemma LexField(rest: Bytes, total: int, cap: int)
    requires ReadFirst(rest, total, cap).Field?
    ensures var n := LineLength(rest);
            LexBlock(rest, total, cap)
              == Prepend([ReadFirst(rest, total, cap).line], LexBlock(rest[n..], total + n, cap))
  {
    hide ReadFirst, LineLength;
  }

  lemma PrependTwice(a: seq<Bytes>, b: seq<Bytes>, lexed: Lexed)
    ensures Prepend(a, Prepend(b, lexed)) == Prepend(a + b, lexed)
  {
    match lexed
    case Stopped(_) =>
    case Block(more, _) => assert a + (b + more) == a + b + more;
  }

  lemma {:induction false} LexOfLines(lines: seq<Bytes>, rest: Bytes, total: nat, cap: int)
    requires Wellformed(lines) && (lines != [] ==> total + |Emit(lines)| <= cap)
    ensures LexBlock(Emit(lines) + rest, total, cap) == Prepend(lines, LexBlock(rest, total + |Emit(lines)|, cap))
    decreases |lines|
  {
    hide ReadFirst, LineLength, Recognised, Emit, LexBlock, Prepend;
    if lines == [] {
      EmitCons("", [], rest);
      PrependNothing(LexBlock(rest, total, cap));
      EmitNothing();
    } else {
      var line, tail := lines[0], Emit(lines[1..]) + rest;
      assert [line] + lines[1..] == lines;
      EmitCons(line, lines[1..], rest);
      LexOfLines(lines[1..], rest, total + |line| + 1, cap);
      NoBlankFields(line);
      ReadFirstOfWritten(line, tail, total, cap);
      LexField(line + [LF] + tail, total, cap);
      PrependTwice([line], lines[1..], LexBlock(rest, total + |Emit(lines)|, cap));
    }
  }

  lemma EmitNothing()
    ensures Emit([]) == ""
  {
  }

  lemma {:induction false} StoppedAt(rest: Bytes, total: nat, cap: int) returns (lines: seq<Bytes>, tail: Bytes)
    requires LexBlock(rest, total, cap).Stopped?
    ensures rest == Emit(lines) + tail && Wellformed(lines) && (lines != [] ==> total + |Emit(lines)| <= cap)
    ensures ReadFirst(tail, total + |Emit(lines)|, cap) == Refused(LexBlock(rest, total, cap).flaw)
    decreases |rest|
  {
    hide ReadFirst, LineLength, Emit, WellformedLine;
    EmitNothing();
    if ReadFirst(rest, total, cap).Refused? {
      lines, tail := [], rest;
    } else {
      WrittenOfReadFirst(rest, total, cap);
      var line := ReadFirst(rest, total, cap).line;
      var more;
      more, tail := StoppedAt(rest[|line| + 1..], total + |line| + 1, cap);
      EmitCons(line, more, tail);
      lines := [line] + more;
    }
  }

  lemma {:induction false} FailingIsRefused(lines: seq<Bytes>, rest: Bytes, cap: int, flaw: Flaw)
    requires Fails(lines, rest, cap, flaw)
    ensures ParseEvent(Emit(lines) + rest, cap) == Failed(flaw)
  {
    hide LexBlock, Wellformed, Says, DataValues, EventName, Utf8Valid, Join, Emit, HasComment, Breaks;
    if Breaks(rest, |Emit(lines)|, cap, flaw) {
      LexOfLines(lines, rest, 0, cap);
      BreaksIff(rest, |Emit(lines)|, cap, flaw);
      StoppedFirst(rest, |Emit(lines)|, cap);
    } else {
      var name, values :| Says(lines, name, values)
        && if name == "" && values == [] then !HasComment(lines) else !Utf8Valid(Join(values, LF));
      assert Emit(lines) + rest == WriteBlock(lines) + rest[1..];
      LexOfWritten(lines, rest[1..], 0, cap);
      SaysIff(lines, name, values);
    }
  }

  lemma StoppedFirst(rest: Bytes, total: int, cap: int)
    ensures ReadFirst(rest, total, cap).Refused? ==>
              LexBlock(rest, total, cap) == Stopped(ReadFirst(rest, total, cap).flaw)
  {
    hide ReadFirst;
  }

  lemma {:induction false} FailingBlock(tail: Bytes, cap: int, flaw: Flaw) returns (lines: seq<Bytes>, rest: Bytes)
    requires ParseEvent(tail, cap) == Failed(flaw)
    requires var b := LexBlock(tail, 0, cap);
             b.Block? ==> DataValues(b.lines) != [] || EventName(b.lines) != "" || !HasComment(b.lines)
    ensures tail == Emit(lines) + rest && Fails(lines, rest, cap, flaw)
  {
    hide LexBlock, Wellformed, Says, DataValues, EventName, Utf8Valid, Join, Emit, HasComment, Breaks, ReadFirst;
    if LexBlock(tail, 0, cap).Stopped? {
      lines, rest := StoppedAt(tail, 0, cap);
      BreaksIff(rest, |Emit(lines)|, cap, flaw);
    } else {
      var b := LexBlock(tail, 0, cap);
      WrittenOfLex(tail, 0, cap);
      lines, rest := b.lines, [LF] + b.rest;
      assert tail == Emit(lines) + ([LF] + b.rest);
      SaysIff(lines, EventName(lines), DataValues(lines));
    }
  }

  /**
   A wire is refused with a flaw exactly when silent blocks and whole good lines are followed by a line, or a
   finished block, that has it.
   */
  lemma {:induction false} FailedIff(wire: Bytes, cap: int, flaw: Flaw)
    ensures ParseEvent(wire, cap) == Failed(flaw) <==>
            exists beats, lines, rest ::
              && wire == WriteBlocks(beats) + (Emit(lines) + rest)
              && AllSilent(beats, cap) && Fails(lines, rest, cap, flaw)
  {
    hide ParseEvent, Fails, AllSilent, Emit, WriteBlocks;
    if ParseEvent(wire, cap) == Failed(flaw) {
      var beats, tail := SilentThenDecided(wire, cap);
      var lines, rest := FailingBlock(tail, cap, flaw);
      assert wire == WriteBlocks(beats) + (Emit(lines) + rest);
    }
    forall beats, lines, rest |
      wire == WriteBlocks(beats) + (Emit(lines) + rest) && AllSilent(beats, cap) && Fails(lines, rest, cap, flaw)
      ensures ParseEvent(wire, cap) == Failed(flaw)
    {
      ParsePastAllSilent(beats, Emit(lines) + rest, cap);
      FailingIsRefused(lines, rest, cap, flaw);
    }
  }
}
