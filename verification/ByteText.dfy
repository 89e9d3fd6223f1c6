/** Byte strings, as Go's `string` and `[]byte` hold them: one character stands for one byte. */
module ByteText {
  datatype Option<+T> = None | Some(value: T)

  type Bytes = string

  const LF: char := '\n'
  const CR: char := '\r'

  predicate HasPrefix(s: Bytes, prefix: Bytes) {
    prefix <= s
  }

  predicate HasSuffix(s: Bytes, suffix: Bytes) {
    |suffix| <= |s| && s[|s| - |suffix|..] == suffix
  }

  function TrimPrefix(s: Bytes, prefix: Bytes): (r: Bytes)
    ensures |r| <= |s|
    ensures HasPrefix(s, prefix) ==> s == prefix + r
  {
    if HasPrefix(s, prefix) then s[|prefix|..] else s
  }

  function SumLengths(parts: seq<Bytes>): nat {
    if parts == [] then 0 else |parts[0]| + SumLengths(parts[1..])
  }

  /** The parts of `s` between its separators, as `strings.Split` returns them: never empty. */
  function Split(s: Bytes, sep: char): (parts: seq<Bytes>)
    ensures |parts| > 0
    ensures forall p :: p in parts ==> sep !in p && forall c :: c in p ==> c in s
  {
    if s == "" then [""]
    else
      var tail := Split(s[1..], sep);
      if s[0] == sep then [""] + tail else [[s[0]] + tail[0]] + tail[1..]
  }

  /** The parts joined with a separator between each two of them. */
  function Join(parts: seq<Bytes>, sep: char): Bytes {
    if parts == [] then ""
    else if |parts| == 1 then parts[0]
    else parts[0] + [sep] + Join(parts[1..], sep)
  }

  lemma {:induction false} JoinOfSplit(s: Bytes, sep: char)
    ensures Join(Split(s, sep), sep) == s
  {
    if s != "" {
      var tail := Split(s[1..], sep);
      JoinOfSplit(s[1..], sep);
      var parts := Split(s, sep);
      if s[0] == sep {
        assert parts[1..] == tail;
        assert Join(parts, sep) == "" + [sep] + Join(tail, sep);
      } else {
        assert parts[1..] == tail[1..];
        if |tail| > 1 {
          assert Join(parts, sep) == [s[0]] + tail[0] + [sep] + Join(tail[1..], sep);
          assert Join(parts, sep) == [s[0]] + Join(tail, sep);
        }
      }
      assert s == [s[0]] + s[1..];
    }
  }

  lemma {:induction false} SplitOfPart(p: Bytes, sep: char)
    requires sep !in p
    ensures Split(p, sep) == [p]
  {
    if p != "" {
      SplitOfPart(p[1..], sep);
      assert p == [p[0]] + p[1..];
    }
  }

  lemma {:induction false} SplitAfterPart(p: Bytes, rest: Bytes, sep: char)
    requires sep !in p
    ensures Split(p + [sep] + rest, sep) == [p] + Split(rest, sep)
  {
    var s := p + [sep] + rest;
    if p == "" {
      assert s[1..] == rest;
    } else {
      SplitAfterPart(p[1..], rest, sep);
      assert s[1..] == p[1..] + [sep] + rest;
      assert p == [p[0]] + p[1..];
    }
  }

  /** Splitting undoes joining for a non-empty list of parts free of the separator. */
  lemma {:induction false} SplitOfJoin(parts: seq<Bytes>, sep: char)
    requires parts != []
    requires forall p :: p in parts ==> sep !in p
    ensures Split(Join(parts, sep), sep) == parts
  {
    assert parts[0] in parts;
    if |parts| == 1 {
      SplitOfPart(parts[0], sep);
    } else {
      assert forall p :: p in parts[1..] ==> p in parts;
      SplitOfJoin(parts[1..], sep);
      SplitAfterPart(parts[0], Join(parts[1..], sep), sep);
    }
  }

  // ---- UTF-8 (section 3 of RFC 3629) ----

  predicate Between(b: char, lo: int, hi: int) {
    lo <= b as int <= hi
  }

  predicate Continuation(b: char) {
    Between(b, 0x80, 0xBF)
  }

  /** Length of the well-formed sequence at the start of `s`; 0 when there is none. */
  function RuneLength(s: Bytes): (n: nat)
    ensures n <= |s|
  {
    if s == "" then 0
    else if Between(s[0], 0, 0x7F) then 1
    else if Between(s[0], 0xC2, 0xDF) then
      if |s| >= 2 && Continuation(s[1]) then 2 else 0
    else if Between(s[0], 0xE0, 0xEF) then
      if |s| >= 3 && Continuation(s[1]) && Continuation(s[2])
         && (s[0] as int == 0xE0 ==> Between(s[1], 0xA0, 0xBF))
         && (s[0] as int == 0xED ==> Between(s[1], 0x80, 0x9F))
      then 3 else 0
    else if Between(s[0], 0xF0, 0xF4) then
      if |s| >= 4 && Continuation(s[1]) && Continuation(s[2]) && Continuation(s[3])
         && (s[0] as int == 0xF0 ==> Between(s[1], 0x90, 0xBF))
         && (s[0] as int == 0xF4 ==> Between(s[1], 0x80, 0x8F))
      then 4 else 0
    else 0
  }

  predicate Utf8Valid(s: Bytes)
    decreases |s|
  {
    s == "" || (RuneLength(s) > 0 && Utf8Valid(s[RuneLength(s)..]))
  }
}
