/** The bounded trace path a request carries: a language of legal paths closed under appending. */
module TracePaths {
  import opened ByteText

  const MAX_BYTES := 256
  const ARROW: Bytes := "->"
  const MARK: Bytes := "->truncated"
  const INVALID: Bytes := "invalid"

  predicate PlainByte(c: char) {
    'A' <= c <= 'Z' || 'a' <= c <= 'z' || '0' <= c <= '9' || c in "._:-"
  }

  /** A plain byte, or the head of an arrow whose shaft stands right before it. */
  predicate LegalAt(path: Bytes, i: nat)
    requires i < |path|
  {
    PlainByte(path[i]) || (path[i] == '>' && i > 0 && path[i - 1] == '-')
  }

  predicate Legal(path: Bytes) {
    |path| <= MAX_BYTES && forall i :: 0 <= i < |path| ==> LegalAt(path, i)
  }

  function Sanitized(path: Bytes): (r: Bytes)
    ensures Legal(r) && (r == path <==> Legal(path) || path == INVALID)
  {
    if Legal(path) then path else INVALID
  }

  predicate PlainCode(c: int) {
    48 <= c <= 57 || 65 <= c <= 90 || 97 <= c <= 122 || c == 46 || c == 95 || c == 58 || c == 45
  }

  lemma PlainByteIff(c: char)
    ensures PlainByte(c) <==> PlainCode(c as int)
  {
    var marks := "._:-";
    assert marks == ['.', '_', ':', '-'];
    assert marks[0] == '.' && marks[1] == '_' && marks[2] == ':' && marks[3] == '-';
  }

  /** A digit, a letter, one of four marks, or a greater-than after a hyphen. */
  predicate AllowedAt(path: Bytes, i: nat)
    requires i < |path|
  {
    PlainCode(path[i] as int) || (path[i] as int == 62 && i > 0 && path[i - 1] as int == 45)
  }

  lemma LegalAtIff(path: Bytes, i: nat)
    requires i < |path|
    ensures LegalAt(path, i) <==> AllowedAt(path, i)
  {
    hide PlainByte, PlainCode;
    PlainByteIff(path[i]);
  }

  /** The legal paths, by the codes of their bytes. */
  lemma {:induction false} LegalIff(path: Bytes)
    ensures Legal(path) <==> |path| <= 256 && forall i :: 0 <= i < |path| ==> AllowedAt(path, i)
  {
    hide AllowedAt, LegalAt;
    forall i | 0 <= i < |path| ensures LegalAt(path, i) <==> AllowedAt(path, i) { LegalAtIff(path, i); }
  }

  method SanitizePath(path: Bytes) returns (r: Bytes)
    ensures r == Sanitized(path)
  {
    if |path| > MAX_BYTES { return INVALID; }
    for i := 0 to |path|
      invariant forall j :: 0 <= j < i ==> LegalAt(path, j)
    {
      var c := path[i];
      if PlainByte(c) { continue; }
      if c == '>' && i > 0 && path[i - 1] == '-' { continue; }
      assert !LegalAt(path, i);
      return INVALID;
    }
    r := path;
  }

  /** What a context carries about its request; both empty when it carries nothing. */
  datatype Work = Work(requestID: Bytes, tracePath: Bytes)

  function WithWork(requestID: Bytes, path: Bytes): Work { Work(requestID, Sanitized(path)) }

  function AppendPath(w: Work, code: Bytes): Work {
    var step := Sanitized(code);
    if w.tracePath == "" then WithWork(w.requestID, step)
    else
      var joined := w.tracePath + ARROW + step;
      WithWork(w.requestID, if |joined| > MAX_BYTES then joined[..MAX_BYTES - |MARK|] + MARK else joined)
  }

  function HandlerTracePath(w: Work, method': Bytes): Work {
    if w.tracePath == method' || HasSuffix(w.tracePath, ARROW + method') then w
    else AppendPath(w, method')
  }

  // ---- Legal paths stay legal ----

  lemma ArrowJoinsLegal(a: Bytes, b: Bytes)
    requires forall i :: 0 <= i < |a| ==> LegalAt(a, i)
    requires forall i :: 0 <= i < |b| ==> LegalAt(b, i)
    ensures var s := a + ARROW + b; forall i :: 0 <= i < |s| ==> LegalAt(s, i)
  {
    var s := a + ARROW + b;
    forall i | 0 <= i < |s| ensures LegalAt(s, i) {
      if i < |a| {
        assert LegalAt(a, i) && s[i] == a[i] && (i > 0 ==> s[i - 1] == a[i - 1]);
      } else if i >= |a| + 2 {
        var j := i - |a| - 2;
        assert LegalAt(b, j) && s[i] == b[j] && (j > 0 ==> s[i - 1] == b[j - 1]);
      } else {
        assert s[|a|] == '-' && s[|a| + 1] == '>';
      }
    }
  }

  lemma LegalPrefix(s: Bytes, n: nat)
    requires n <= |s| && forall i :: 0 <= i < |s| ==> LegalAt(s, i)
    ensures forall i :: 0 <= i < n ==> LegalAt(s[..n], i)
  {
    forall i | 0 <= i < n ensures LegalAt(s[..n], i) { assert LegalAt(s, i); }
  }

  /** What appending comes to when nothing is rejected on the way. */
  function Extended(path: Bytes, step: Bytes): Bytes {
    if path == "" then step
    else if |path| + |ARROW| + |step| <= MAX_BYTES then path + ARROW + step
    else (path + ARROW + step)[..MAX_BYTES - |MARK|] + MARK
  }

  /**
   Appending to a legal path never loses it to "invalid", wherever the cut falls, even between the
   two bytes of an arrow.
   */
  lemma {:induction false} AppendExtends(w: Work, code: Bytes)
    requires Legal(w.tracePath)
    ensures AppendPath(w, code) == Work(w.requestID, Extended(w.tracePath, Sanitized(code)))
    ensures Legal(Extended(w.tracePath, Sanitized(code)))
  {
    var path, step := w.tracePath, Sanitized(code);
    var joined := path + ARROW + step;
    ArrowJoinsLegal(path, step);
    if |joined| > MAX_BYTES {
      var cut := joined[..MAX_BYTES - |MARK|];
      LegalPrefix(joined, |cut|);
      assert MARK == ARROW + "truncated";
      assert cut + MARK == cut + ARROW + "truncated";
      ArrowJoinsLegal(cut, "truncated");
    }
  }

  datatype Change = Adopt(path: Bytes) | Append(code: Bytes) | Handle(method': Bytes)

  function Changed(w: Work, c: Change): Work {
    match c
    case Adopt(path) => if path == "" then w else WithWork(w.requestID, path)
    case Append(code) => AppendPath(w, code)
    case Handle(m) => HandlerTracePath(w, m)
  }

  function Carried(w: Work, changes: seq<Change>): Work {
    if changes == [] then w else Changed(Carried(w, changes[..|changes| - 1]), changes[|changes| - 1])
  }

  /** Over every run the stored path is legal, so cleaning it again changes nothing, and the request is the same. */
  lemma {:induction false} CarriedStaysLegal(w: Work, changes: seq<Change>)
    requires Legal(w.tracePath)
    ensures var now := Carried(w, changes);
            Legal(now.tracePath) && Sanitized(now.tracePath) == now.tracePath && now.requestID == w.requestID
  {
    if changes != [] {
      CarriedStaysLegal(w, changes[..|changes| - 1]);
    }
  }

  /** A path cut to the full length keeps its mark: whatever is appended, it is cut to itself again. */
  lemma {:induction false} TruncatedIsFinal(w: Work, code: Bytes)
    requires Legal(w.tracePath) && |w.tracePath| == MAX_BYTES && HasSuffix(w.tracePath, MARK)
    ensures AppendPath(w, code) == w
  {
    AppendExtends(w, code);
    var path, step := w.tracePath, Sanitized(code);
    assert (path + ARROW + step)[..MAX_BYTES - |MARK|] == path[..MAX_BYTES - |MARK|];
    assert path == path[..MAX_BYTES - |MARK|] + MARK;
  }

  // ---- What is recorded ----

  /** The path ends with this method as its last step, or is nothing else. */
  predicate EndsWithStep(path: Bytes, m: Bytes) { path == m || HasSuffix(path, "->" + m) }

  /**
   A method that is not the last step is appended, and the request is the same: alone to an empty path, after an
   arrow while that fits in 256 bytes, and else with the joined path cut to make room for the mark.
   */
  lemma {:induction false} HandlerRecords(w: Work, m: Bytes)
    requires Legal(w.tracePath)
    ensures var next, step := HandlerTracePath(w, m), if Legal(m) then m else "invalid";
            var joined := w.tracePath + "->" + step;
            && next.requestID == w.requestID
            && (EndsWithStep(w.tracePath, m) ==> next == w)
            && (!EndsWithStep(w.tracePath, m) ==>
                  next.tracePath == if w.tracePath == "" then step
                                    else if |joined| <= 256 then joined
                                    else joined[..245] + "->truncated")
  {
    hide Legal;
    AppendExtends(w, m);
  }

  /** Afterwards a legal method is the last step, unless the path was cut. */
  lemma {:induction false} HandledIsLast(w: Work, m: Bytes)
    requires Legal(w.tracePath) && Legal(m)
    ensures var path := HandlerTracePath(w, m).tracePath;
            EndsWithStep(path, m) || (|path| == 256 && HasSuffix(path, "->truncated"))
  {
    hide Legal;
    HandlerRecords(w, m);
    var path, joined := HandlerTracePath(w, m).tracePath, w.tracePath + "->" + m;
    assert joined == w.tracePath + ("->" + m) && joined[|joined| - |"->" + m|..] == "->" + m;
    if path == joined[..if |joined| < 245 then |joined| else 245] + "->truncated" {
      assert path[|path| - 11..] == "->truncated";
    }
  }

  /** A path that came with a request replaces the one carried, when it is legal; otherwise it is recorded as such. */
  lemma {:induction false} AdoptedPath(w: Work, path: Bytes)
    ensures var next := Changed(w, Adopt(path));
            && next.requestID == w.requestID
            && next.tracePath == if path == "" then w.tracePath else if Legal(path) then path else "invalid"
  {
  }

  // ---- Handling twice ----

  predicate Overflows(w: Work, step: Bytes) {
    w.tracePath != "" && |w.tracePath| + |ARROW| + |step| > MAX_BYTES
  }

  lemma {:induction false} OverflowTruncates(w: Work, code: Bytes)
    requires Legal(w.tracePath) && Overflows(w, Sanitized(code))
    ensures var next := AppendPath(w, code);
            Legal(next.tracePath) && |next.tracePath| == MAX_BYTES && HasSuffix(next.tracePath, MARK)
  {
    AppendExtends(w, code);
    var next := AppendPath(w, code).tracePath;
    assert next[|next| - |MARK|..] == MARK;
  }

  /**
   Handling a method twice is handling it once exactly when the method is legal or the path was cut;
   an illegal method is recorded as "invalid" again each time.
   */
  lemma {:induction false} HandleTwiceIff(w: Work, m: Bytes)
    requires Legal(w.tracePath)
    ensures HandlerTracePath(HandlerTracePath(w, m), m) == HandlerTracePath(w, m)
            <==> Legal(m) || Overflows(w, INVALID)
  {
    hide Legal;
    var once := HandlerTracePath(w, m);
    if Legal(m) {
      LegalHandledTwice(w, m);
    } else {
      IllegalIsAppended(w, m);
      assert once == AppendPath(w, m);
      if Overflows(w, INVALID) {
        OverflowTruncates(w, m);
        IllegalIsAppended(once, m);
        TruncatedIsFinal(once, m);
      } else {
        InvalidGrows(w, m);
      }
    }
  }

  /** On an empty path a question mark is recorded once more each time. */
  lemma {:induction false} HandleTwiceCanDiffer(requestID: Bytes)
    ensures var once := HandlerTracePath(Work(requestID, ""), "?");
            once.tracePath == "invalid" && HandlerTracePath(once, "?").tracePath == "invalid->invalid"
  {
    var w := Work(requestID, "");
    var once := Work(requestID, INVALID);
    assert !LegalAt("?", 0);
    assert Sanitized("?") == INVALID;
    IllegalIsAppended(w, "?");
    AppendExtends(w, "?");
    IllegalIsAppended(once, "?");
    AppendExtends(once, "?");
    assert INVALID + ARROW + INVALID == "invalid->invalid";
  }

  lemma {:induction false} LegalHandledTwice(w: Work, m: Bytes)
    requires Legal(w.tracePath) && Legal(m)
    ensures HandlerTracePath(HandlerTracePath(w, m), m) == HandlerTracePath(w, m)
  {
    hide Legal;
    var once := HandlerTracePath(w, m);
    if once != w || !HasSuffix(w.tracePath, ARROW + m) {
      AppendExtends(w, m);
      if Overflows(w, m) {
        if once == AppendPath(w, m) {
          OverflowTruncates(w, m);
          TruncatedIsFinal(once, m);
        }
      } else if w.tracePath != "" && once == AppendPath(w, m) {
        var path := once.tracePath;
        assert path == w.tracePath + (ARROW + m);
        assert path[|path| - |ARROW + m|..] == ARROW + m;
      }
    }
  }

  /** A legal path neither is nor ends with an illegal method. */
  lemma {:induction false} IllegalIsAppended(w: Work, m: Bytes)
    requires Legal(w.tracePath) && !Legal(m)
    ensures HandlerTracePath(w, m) == AppendPath(w, m) && Sanitized(m) == INVALID && m != ""
  {
    var path := w.tracePath;
    if HasSuffix(path, ARROW + m) {
      var start := |path| - |m|;
      assert path[start - 2..] == ARROW + m;
      assert (ARROW + m)[1] == '>';
      assert path[start - 1] == '>';
      forall i | 0 <= i < |m| ensures LegalAt(m, i) {
        assert m[i] == (ARROW + m)[i + 2] == path[start - 2..][i + 2] == path[start + i];
        assert LegalAt(path, start + i);
        if i > 0 { assert m[i - 1] == (ARROW + m)[i + 1] == path[start - 2..][i + 1] == path[start + i - 1]; }
      }
    }
  }

  lemma {:induction false} InvalidGrows(w: Work, m: Bytes)
    requires Legal(w.tracePath) && !Legal(m) && !Overflows(w, INVALID)
    ensures var once := AppendPath(w, m); HandlerTracePath(once, m) != once
  {
    hide Legal;
    var once := AppendPath(w, m);
    AppendExtends(w, m);
    IllegalIsAppended(w, m);
    IllegalIsAppended(once, m);
    AppendExtends(once, m);
    var a, b := once.tracePath, AppendPath(once, m).tracePath;
    assert a[|a| - 1] == 'd' && a[|a| - 2] == 'i';
    if |a| + 9 > MAX_BYTES {
      assert b[|b| - 2] == 'e';
    }
  }
}
