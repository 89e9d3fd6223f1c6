/** Unpadded base64url (sections 3.5 and 5 of RFC 4648), as strictly as the elevation header is read. */
module Base64Url {
  import opened ByteText

  predicate IsBytes(b: Bytes) { forall i :: 0 <= i < |b| ==> b[i] as int < 256 }

  /** The character for a six-bit number. */
  function Letter(x: int): (c: char)
    requires 0 <= x < 64
    ensures c != CR && c != LF
  {
    if x < 26 then ('A' as int + x) as char
    else if x < 52 then ('a' as int + (x - 26)) as char
    else if x < 62 then ('0' as int + (x - 52)) as char
    else if x == 62 then '-' else '_'
  }

  function Number(c: char): (x: Option<int>)
    ensures x.Some? ==> 0 <= x.value < 64
  {
    if 'A' <= c <= 'Z' then Some(c as int - 'A' as int)
    else if 'a' <= c <= 'z' then Some(c as int - 'a' as int + 26)
    else if '0' <= c <= '9' then Some(c as int - '0' as int + 52)
    else if c == '-' then Some(62)
    else if c == '_' then Some(63)
    else None
  }

  lemma NumberOfLetter(x: int)
    requires 0 <= x < 64
    ensures Number(Letter(x)) == Some(x)
  {
  }

  /** The four, three or two letters of a group of three, two or one bytes. */
  function EncodeGroup(g: Bytes): Bytes
    requires 1 <= |g| <= 3 && IsBytes(g)
  {
    var b0 := g[0] as int;
    var b1 := if |g| > 1 then g[1] as int else 0;
    var b2 := if |g| > 2 then g[2] as int else 0;
    [Letter(b0 / 4), Letter(b0 % 4 * 16 + b1 / 16)]
    + (if |g| > 1 then [Letter(b1 % 16 * 4 + b2 / 64)] else [])
    + (if |g| > 2 then [Letter(b2 % 64)] else [])
  }

  function EncodeToString(b: Bytes): Bytes
    requires IsBytes(b)
  {
    if b == "" then ""
    else if |b| <= 3 then EncodeGroup(b)
    else EncodeGroup(b[..3]) + EncodeToString(b[3..])
  }

  /** A group of letters read back; the bits a short group leaves over must be zero. */
  function DecodeGroup(g: Bytes): (r: Option<Bytes>)
    requires 1 <= |g| <= 4
    ensures r.Some? ==> IsBytes(r.value)
  {
    if |g| == 1 then None
    else
      var x0, x1 := Number(g[0]), Number(g[1]);
      var x2 := if |g| > 2 then Number(g[2]) else Some(0);
      var x3 := if |g| > 3 then Number(g[3]) else Some(0);
      if x0.None? || x1.None? || x2.None? || x3.None? then None
      else
        var b0 := (x0.value * 4 + x1.value / 16) as char;
        var b1 := (x1.value % 16 * 16 + x2.value / 4) as char;
        var b2 := (x2.value % 4 * 64 + x3.value) as char;
        if |g| == 2 then (if x1.value % 16 == 0 then Some([b0]) else None)
        else if |g| == 3 then (if x2.value % 4 == 0 then Some([b0, b1]) else None)
        else Some([b0, b1, b2])
  }

  function DecodeLetters(s: Bytes): (r: Option<Bytes>)
    ensures r.Some? ==> IsBytes(r.value)
  {
    if s == "" then Some("")
    else if |s| <= 4 then DecodeGroup(s)
    else
      var head, tail := DecodeGroup(s[..4]), DecodeLetters(s[4..]);
      if head.None? || tail.None? then None else Some(head.value + tail.value)
  }

  /** The decoder skips line breaks anywhere. */
  function WithoutBreaks(s: Bytes): Bytes {
    if s == "" then ""
    else (if s[0] == CR || s[0] == LF then "" else [s[0]]) + WithoutBreaks(s[1..])
  }

  /** What the header reader takes: it encodes again what it decoded, and wants the header back. */
  function ReadHeader(header: Bytes): (r: Option<Bytes>)
    ensures r.Some? ==> IsBytes(r.value)
  {
    var b := DecodeLetters(WithoutBreaks(header));
    if b.Some? && EncodeToString(b.value) == header then b else None
  }

  lemma SextetsHoldBytes(b0: int, b1: int, b2: int)
    requires 0 <= b0 < 256 && 0 <= b1 < 256 && 0 <= b2 < 256
    ensures var x1, x2 := b0 % 4 * 16 + b1 / 16, b1 % 16 * 4 + b2 / 64;
            && b0 / 4 * 4 + x1 / 16 == b0 && x1 % 16 * 16 + x2 / 4 == b1 && x2 % 4 * 64 + b2 % 64 == b2
            && (b1 == 0 ==> x1 % 16 == 0) && (b2 == 0 ==> x2 % 4 == 0)
  {
  }

  lemma {:induction false} OneByteRoundTrip(b0: int)
    requires 0 <= b0 < 256
    ensures var g: Bytes := [b0 as char]; |EncodeGroup(g)| == 2 && DecodeGroup(EncodeGroup(g)) == Some(g)
  {
    hide Number, Letter;
    NumberOfLetter(b0 / 4);
    NumberOfLetter(b0 % 4 * 16);
    SextetsHoldBytes(b0, 0, 0);
  }

  lemma {:induction false} TwoBytesRoundTrip(b0: int, b1: int)
    requires 0 <= b0 < 256 && 0 <= b1 < 256
    ensures var g: Bytes := [b0 as char, b1 as char];
            |EncodeGroup(g)| == 3 && DecodeGroup(EncodeGroup(g)) == Some(g)
  {
    hide Number, Letter;
    NumberOfLetter(b0 / 4);
    NumberOfLetter(b0 % 4 * 16 + b1 / 16);
    NumberOfLetter(b1 % 16 * 4);
    SextetsHoldBytes(b0, b1, 0);
  }

  lemma {:induction false} ThreeBytesRoundTrip(b0: int, b1: int, b2: int)
    requires 0 <= b0 < 256 && 0 <= b1 < 256 && 0 <= b2 < 256
    ensures var g: Bytes := [b0 as char, b1 as char, b2 as char];
            |EncodeGroup(g)| == 4 && DecodeGroup(EncodeGroup(g)) == Some(g)
  {
    hide Number, Letter;
    NumberOfLetter(b0 / 4);
    NumberOfLetter(b0 % 4 * 16 + b1 / 16);
    NumberOfLetter(b1 % 16 * 4 + b2 / 64);
    NumberOfLetter(b2 % 64);
    SextetsHoldBytes(b0, b1, b2);
  }

  lemma {:induction false} GroupRoundTrip(g: Bytes)
    requires 1 <= |g| <= 3 && IsBytes(g)
    ensures |EncodeGroup(g)| == |g| + 1 && DecodeGroup(EncodeGroup(g)) == Some(g)
  {
    hide EncodeGroup, DecodeGroup;
    if |g| == 1 {
      OneByteRoundTrip(g[0] as int);
      assert g == [g[0]];
    } else if |g| == 2 {
      TwoBytesRoundTrip(g[0] as int, g[1] as int);
      assert g == [g[0], g[1]];
    } else {
      ThreeBytesRoundTrip(g[0] as int, g[1] as int, g[2] as int);
      assert g == [g[0], g[1], g[2]];
    }
  }

  // ---- The encoding itself ----

  /** The letters are those of table 2 of RFC 4648, in its order: four runs, each without a gap. */
  lemma LettersInOrder(x: int)
    requires 0 <= x < 64
    ensures Letter(0) == 'A' && Letter(25) == 'Z' && Letter(26) == 'a' && Letter(51) == 'z'
    ensures Letter(52) == '0' && Letter(61) == '9' && Letter(62) == '-' && Letter(63) == '_'
    ensures x !in {25, 51, 61, 62, 63} ==> Letter(x + 1) as int == Letter(x) as int + 1
  {
  }

  function NumberAt(s: Bytes, i: nat): int { if i < |s| && Number(s[i]).Some? then Number(s[i]).value else 0 }

  function ByteAt(g: Bytes, i: nat): int { if i < |g| then g[i] as int else 0 }

  /** A group's letters, read as digits to the base 64, are the number its bytes are to the base 256. */
  lemma {:induction false} GroupIsNumber(g: Bytes)
    requires 1 <= |g| <= 3 && IsBytes(g)
    ensures var s := EncodeGroup(g);
            && |s| == |g| + 1 && (forall i :: 0 <= i < |s| ==> Number(s[i]).Some?)
            && ((NumberAt(s, 0) * 64 + NumberAt(s, 1)) * 64 + NumberAt(s, 2)) * 64 + NumberAt(s, 3)
               == (ByteAt(g, 0) * 256 + ByteAt(g, 1)) * 256 + ByteAt(g, 2)
  {
    hide Number, Letter;
    var b0, b1, b2 := ByteAt(g, 0), ByteAt(g, 1), ByteAt(g, 2);
    var x0, x1, x2, x3 := b0 / 4, b0 % 4 * 16 + b1 / 16, b1 % 16 * 4 + b2 / 64, b2 % 64;
    NumberOfLetter(x0);
    NumberOfLetter(x1);
    NumberOfLetter(x2);
    NumberOfLetter(x3);
    SextetsSum(b0, b1, b2);
    var s := EncodeGroup(g);
    assert s[0] == Letter(x0) && s[1] == Letter(x1);
    assert |g| > 1 ==> s[2] == Letter(x2);
    assert |g| > 2 ==> s[3] == Letter(x3);
  }

  lemma EncodeUnfold(b: Bytes)
    requires IsBytes(b) && b != ""
    ensures |b| <= 3 ==> EncodeToString(b) == EncodeGroup(b)
    ensures |b| > 3 ==> EncodeToString(b) == EncodeGroup(b[..3]) + EncodeToString(b[3..]) && |EncodeGroup(b[..3])| == 4
  {
    hide EncodeGroup;
    GroupIsNumber(if |b| <= 3 then b else b[..3]);
  }

  /** Four letters to three bytes, and one letter more than the bytes left over. */
  lemma {:induction false} EncodedLength(b: Bytes)
    requires IsBytes(b)
    ensures |EncodeToString(b)| == |b| / 3 * 4 + if |b| % 3 == 0 then 0 else |b| % 3 + 1
    decreases |b|
  {
    if b != "" {
      hide EncodeGroup, EncodeToString;
      EncodeUnfold(b);
      if |b| <= 3 { GroupIsNumber(b); } else { EncodedLength(b[3..]); }
    } else {
      assert EncodeToString("") == "";
    }
  }

  /** The bytes of the `k`th group. */
  function Group(b: Bytes, k: nat): Bytes
    requires 3 * k < |b|
  {
    b[3 * k..if |b| < 3 * k + 3 then |b| else 3 * k + 3]
  }

  /** The letters of the `k`th group of bytes stand at its place, four to a group. */
  lemma {:induction false} GroupStands(b: Bytes, k: nat)
    requires IsBytes(b) && 3 * k < |b|
    ensures 1 <= |Group(b, k)| <= 3 && IsBytes(Group(b, k))
    ensures 4 * k <= |EncodeToString(b)| && EncodeGroup(Group(b, k)) <= EncodeToString(b)[4 * k..]
    decreases |b|
  {
    hide EncodeGroup, EncodeToString;
    EncodeUnfold(b);
    if k == 0 {
      assert Group(b, 0) == if |b| <= 3 then b else b[..3];
    } else {
      GroupStands(b[3..], k - 1);
      assert Group(b[3..], k - 1) == Group(b, k);
      assert EncodeToString(b)[4 * k..] == EncodeToString(b[3..])[4 * (k - 1)..];
    }
  }

  lemma SextetsSum(b0: int, b1: int, b2: int)
    requires 0 <= b0 < 256 && 0 <= b1 < 256 && 0 <= b2 < 256
    ensures ((b0 / 4 * 64 + (b0 % 4 * 16 + b1 / 16)) * 64 + (b1 % 16 * 4 + b2 / 64)) * 64 + b2 % 64
         == (b0 * 256 + b1) * 256 + b2
  {
  }

  lemma {:induction false} LettersRoundTrip(b: Bytes)
    requires IsBytes(b)
    ensures DecodeLetters(EncodeToString(b)) == Some(b)
  {
    hide EncodeGroup, DecodeGroup;
    if b != "" {
      if |b| <= 3 {
        GroupRoundTrip(b);
      } else {
        GroupRoundTrip(b[..3]);
        LettersRoundTrip(b[3..]);
        EncodedNotEmpty(b[3..]);
        var s := EncodeToString(b);
        assert s[..4] == EncodeGroup(b[..3]) && s[4..] == EncodeToString(b[3..]);
        assert b == b[..3] + b[3..];
      }
    }
  }

  lemma EncodedNotEmpty(b: Bytes)
    requires IsBytes(b) && b != ""
    ensures EncodeToString(b) != ""
  {
  }

  lemma {:induction false} NoBreaksToSkip(s: Bytes)
    requires CR !in s && LF !in s
    ensures WithoutBreaks(s) == s
  {
    if s != "" { NoBreaksToSkip(s[1..]); }
  }

  lemma {:induction false} EncodedHasNoBreaks(b: Bytes)
    requires IsBytes(b)
    ensures CR !in EncodeToString(b) && LF !in EncodeToString(b)
  {
    hide Letter;
    if |b| > 3 { EncodedHasNoBreaks(b[3..]); }
  }

  /** A header is read as these bytes exactly when it is their one encoding. */
  lemma {:induction false} ReadHeaderIff(header: Bytes, b: Bytes)
    requires IsBytes(b)
    ensures ReadHeader(header) == Some(b) <==> header == EncodeToString(b)
  {
    hide EncodeToString, DecodeLetters;
    LettersRoundTrip(b);
    EncodedHasNoBreaks(b);
    NoBreaksToSkip(EncodeToString(b));
  }
}
