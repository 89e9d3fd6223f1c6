/** Failures as JSON text and back: what the encoder does to ill-formed UTF-8, and what that costs. */
module ErrorWire {
  import opened ByteText
  import opened ErrorRender

  // ---- Replacing what is not UTF-8 ----

  /** U+FFFD. */
  const REPLACEMENT: Bytes := [0xEF as char, 0xBF as char, 0xBD as char]

  /** The text with each byte that starts no well-formed sequence replaced. */
  function ToValidUtf8(s: Bytes): Bytes
    decreases |s|
  {
    if s == "" then ""
    else if RuneLength(s) == 0 then REPLACEMENT + ToValidUtf8(s[1..])
    else s[..RuneLength(s)] + ToValidUtf8(s[RuneLength(s)..])
  }

  lemma RuneThenRest(rune: Bytes, rest: Bytes)
    requires rune != "" && RuneLength(rune) == |rune|
    ensures RuneLength(rune + rest) == |rune| && (rune + rest)[|rune|..] == rest
  {
  }

  lemma RuneAlone(s: Bytes)
    requires RuneLength(s) > 0
    ensures RuneLength(s[..RuneLength(s)]) == RuneLength(s)
  {
  }

  lemma {:induction false} ReplacedIsValid(s: Bytes)
    ensures Utf8Valid(ToValidUtf8(s))
    decreases |s|
  {
    if s != "" {
      hide RuneLength, REPLACEMENT;
      var n := RuneLength(s);
      var rest := s[if n == 0 then 1 else n..];
      var rune := if n == 0 then REPLACEMENT else s[..n];
      if n == 0 { ReplacementIsRune(); } else { RuneAlone(s); }
      ReplacedIsValid(rest);
      RuneThenRest(rune, ToValidUtf8(rest));
    }
  }

  lemma ReplacementIsRune()
    ensures |REPLACEMENT| == 3 == RuneLength(REPLACEMENT)
  {
  }

  /** Replacing changes nothing exactly when the text was valid. */
  lemma {:induction false} ReplacedSameIff(s: Bytes)
    ensures ToValidUtf8(s) == s <==> Utf8Valid(s)
  {
    ReplacedIsValid(s);
    if Utf8Valid(s) { ValidStays(s); }
  }

  lemma {:induction false} ValidStays(s: Bytes)
    requires Utf8Valid(s)
    ensures ToValidUtf8(s) == s
    decreases |s|
  {
    if s != "" {
      hide RuneLength;
      ValidStays(s[RuneLength(s)..]);
      assert s == s[..RuneLength(s)] + s[RuneLength(s)..];
    }
  }

  // ---- The JSON library ----

  type WireObject = map<Bytes, FieldValue>

  /**
   The library: the text of an object, the object of a text, which other values encode, and what each of those
   is read back as; none when it is nested deeper than the decoder goes.
   */
  datatype Library = Library(
    write: WireObject -> Option<Bytes>, read: Bytes -> Option<WireObject>,
    enc: Encoder, again: nat -> Option<FieldValue>)

  predicate ValidNames(m: WireObject) { forall k :: k in m ==> Utf8Valid(k) }

  /** Every value of the object is shallow enough to be read again. */
  predicate Readable(lib: Library, m: WireObject) { forall k :: k in m && m[k].Other? ==> lib.again(m[k].id).Some? }

  function ReadBack(lib: Library, v: FieldValue): FieldValue {
    match v
    case Text(s) => Text(ToValidUtf8(s))
    case Other(id) => if lib.again(id).Some? then lib.again(id).value else v
    case _ => v
  }

  function AllReadBack(lib: Library, m: WireObject): WireObject { map k | k in m :: ReadBack(lib, m[k]) }

  /**
   An object is written when every value encodes. With valid member names what was written is read member by
   member, if it is not too deep; and whatever is read has valid member names.
   */
  ghost predicate Faithful(lib: Library) {
    && (forall m :: lib.write(m).Some? <==> Encodable(lib.enc, m))
    && (forall m :: Encodable(lib.enc, m) && ValidNames(m) ==>
          lib.read(lib.write(m).value) == if Readable(lib, m) then Some(AllReadBack(lib, m)) else None)
    && (forall text :: lib.read(text).Some? ==> ValidNames(lib.read(text).value))
  }

  // ---- Sending a failure and reading it ----

  function MarshalJSON(lib: Library, e: Error): Option<Bytes> { lib.write(Members(e)) }

  function UnmarshalJSON(lib: Library, text: Bytes): Option<Error> {
    match lib.read(text)
    case None => None
    case Some(m) => Some(FromMembers(m))
  }

  /** The failure read from the text of another; none when there is no text or it cannot be read. */
  function Relayed(lib: Library, e: Error): Option<Error> {
    match MarshalJSON(lib, e)
    case None => None
    case Some(text) => UnmarshalJSON(lib, text)
  }

  /** The failure as it is read back when it is read at all. */
  function Mended(lib: Library, e: Error): Error {
    Error(ToValidUtf8(e.typeName), e.status, ToValidUtf8(e.title), ToValidUtf8(e.detail), ToValidUtf8(e.instance),
          e.retryable, false, AllReadBack(lib, e.fields - KNOWN_MEMBERS), None)
  }

  lemma LeadingNamesValid()
    ensures Utf8Valid("type") && Utf8Valid("status") && Utf8Valid("retryable")
  {
    hide Utf8Valid, RuneLength;
    PlainIsValid("type");
    PlainIsValid("status");
    PlainIsValid("retryable");
  }

  lemma TextNamesValid()
    ensures Utf8Valid("title") && Utf8Valid("detail") && Utf8Valid("instance")
  {
    hide Utf8Valid, RuneLength;
    PlainIsValid("title");
    PlainIsValid("detail");
    PlainIsValid("instance");
  }

  lemma KnownNamesValid()
    ensures forall k :: k in KNOWN_MEMBERS ==> Utf8Valid(k)
  {
    hide Utf8Valid, RuneLength;
    LeadingNamesValid();
    TextNamesValid();
  }

  lemma {:induction false} PlainIsValid(s: Bytes)
    requires Plain(s)
    ensures Utf8Valid(s)
    decreases |s|
  {
    if s != "" { PlainIsValid(s[1..]); }
  }

  /** The serialized object is that of the fields in whatever concerns names and other values. */
  lemma {:induction false} MembersAsFields(lib: Library, e: Error)
    ensures var m, f := Members(e), e.fields - KNOWN_MEMBERS;
            && (Encodable(lib.enc, m) <==> Encodable(lib.enc, f))
            && (ValidNames(m) <==> ValidNames(f)) && (Readable(lib, m) <==> Readable(lib, f))
  {
    hide Utf8Valid, EscapedLength;
    KnownNamesValid();
    MembersOutside(e);
    KnownAreNotOther(e);
    var m := Members(e);
    assert forall k :: k in m && k !in KNOWN_MEMBERS ==> k in m - KNOWN_MEMBERS && m[k] == (m - KNOWN_MEMBERS)[k];
    assert forall k :: k in m - KNOWN_MEMBERS ==> k in m && m[k] == (m - KNOWN_MEMBERS)[k];
  }

  predicate NoOtherKnown(m: WireObject) { forall k :: k in m && k in KNOWN_MEMBERS ==> !m[k].Other? }

  lemma LeadingNotOther(e: Error)
    ensures NoOtherKnown(Leading(e))
  {
  }

  lemma PresentNotOther(m: WireObject, name: Bytes, s: Bytes)
    requires NoOtherKnown(m)
    ensures NoOtherKnown(m + Present(name, s))
  {
    hide KNOWN_MEMBERS;
  }

  lemma KnownAreNotOther(e: Error)
    ensures NoOtherKnown(Members(e))
  {
    hide NoOtherKnown, Present, Leading, Members;
    LeadingThenTexts(e);
    LeadingNotOther(e);
    var t, d := Present("title", e.title), Present("detail", e.detail);
    PresentNotOther(Leading(e), "title", e.title);
    PresentNotOther(Leading(e) + t, "detail", e.detail);
    PresentNotOther(Leading(e) + t + d, "instance", e.instance);
  }

  lemma EmptyStaysEmpty(s: Bytes)
    ensures ToValidUtf8(s) == "" <==> s == ""
  {
    assert s != "" && RuneLength(s) > 0 ==> |s[..RuneLength(s)]| > 0;
  }

  lemma ReadBackOfUnion(lib: Library, a: WireObject, b: WireObject)
    ensures AllReadBack(lib, a + b) == AllReadBack(lib, a) + AllReadBack(lib, b)
  {
    hide ReadBack;
  }

  lemma ReadBackOfPresent(lib: Library, name: Bytes, s: Bytes)
    ensures AllReadBack(lib, Present(name, s)) == Present(name, ToValidUtf8(s))
  {
    hide ToValidUtf8;
    EmptyStaysEmpty(s);
  }

  lemma ReadBackOfLeading(lib: Library, e: Error)
    ensures AllReadBack(lib, Leading(e)) == Leading(Mended(lib, e))
  {
    hide ToValidUtf8;
    var f := e.fields - KNOWN_MEMBERS;
    assert AllReadBack(lib, f) - KNOWN_MEMBERS == AllReadBack(lib, f);
  }

  /** Reading the members back one by one gives the members of the mended failure. */
  lemma {:induction false} MembersOfMended(lib: Library, e: Error)
    ensures AllReadBack(lib, Members(e)) == Members(Mended(lib, e))
  {
    hide ToValidUtf8, Members, Leading, AllReadBack, Present;
    var t, d, i := Present("title", e.title), Present("detail", e.detail), Present("instance", e.instance);
    LeadingThenTexts(e);
    LeadingThenTexts(Mended(lib, e));
    ReadBackOfLeading(lib, e);
    ReadBackOfUnion(lib, Leading(e) + t + d, i);
    ReadBackOfUnion(lib, Leading(e) + t, d);
    ReadBackOfUnion(lib, Leading(e), t);
    ReadBackOfPresent(lib, "title", e.title);
    ReadBackOfPresent(lib, "detail", e.detail);
    ReadBackOfPresent(lib, "instance", e.instance);
  }

  /** With valid member names a failure that encodes and is not too deep is read back mended. */
  lemma {:induction false} RelayedIsMended(lib: Library, e: Error)
    requires Faithful(lib) && ValidNames(e.fields - KNOWN_MEMBERS)
    ensures var f := e.fields - KNOWN_MEMBERS;
            Relayed(lib, e) == if Encodable(lib.enc, f) && Readable(lib, f) then Some(Mended(lib, e)) else None
  {
    hide Utf8Valid, ToValidUtf8, Members, Encodable, Readable, FromMembers;
    var m := Members(e);
    MembersAsFields(lib, e);
    MembersOfMended(lib, e);
    FromMembersOfMembers(Mended(lib, e));
    assert Mended(lib, e).fields - KNOWN_MEMBERS == Mended(lib, e).fields;
    assert Encodable(lib.enc, m) && Readable(lib, m) ==> lib.read(lib.write(m).value) == Some(AllReadBack(lib, m));
  }

  /** The value encodes and is read back as itself. */
  predicate Unharmed(lib: Library, v: FieldValue) {
    match v
    case Text(s) => Utf8Valid(s)
    case Other(id) => lib.enc(id).Some? && lib.again(id) == Some(v)
    case _ => true
  }

  predicate FieldsUnharmed(lib: Library, f: WireObject) { forall k :: k in f ==> Utf8Valid(k) && Unharmed(lib, f[k]) }

  predicate TextsValid(e: Error) {
    Utf8Valid(e.typeName) && Utf8Valid(e.title) && Utf8Valid(e.detail) && Utf8Valid(e.instance)
  }

  /**
   A failure is read back as it was, less what is never serialized, exactly when every serialized text and member
   name is valid UTF-8 and every other value encodes and is read back as itself.
   */
  lemma {:induction false} RelayedIntactIff(lib: Library, e: Error)
    requires Faithful(lib)
    ensures Relayed(lib, e) == Some(Kept(e)) <==> TextsValid(e) && FieldsUnharmed(lib, e.fields - KNOWN_MEMBERS)
  {
    hide Utf8Valid, ToValidUtf8, Members, Faithful, Relayed, FromMembers;
    var f := e.fields - KNOWN_MEMBERS;
    if ValidNames(f) {
      RelayedIsMended(lib, e);
      ReplacedSameIff(e.typeName);
      ReplacedSameIff(e.title);
      ReplacedSameIff(e.detail);
      ReplacedSameIff(e.instance);
      FieldsIntactIff(lib, f);
    } else {
      NamesReadAreValid(lib, e);
    }
  }

  lemma {:induction false} FieldsIntactIff(lib: Library, f: WireObject)
    requires ValidNames(f)
    ensures Encodable(lib.enc, f) && Readable(lib, f) && AllReadBack(lib, f) == f <==> FieldsUnharmed(lib, f)
  {
    hide Utf8Valid, ToValidUtf8, EscapedLength;
    forall k | k in f
      ensures Unharmed(lib, f[k]) <==>
              && ValueLength(lib.enc, f[k]).Some? && (f[k].Other? ==> lib.again(f[k].id).Some?)
              && ReadBack(lib, f[k]) == f[k]
    {
      if f[k].Text? { ReplacedSameIff(f[k].s); }
    }
    assert AllReadBack(lib, f) == f <==> forall k :: k in f ==> ReadBack(lib, f[k]) == f[k];
  }

  lemma {:induction false} NamesReadAreValid(lib: Library, e: Error)
    requires Faithful(lib)
    ensures Relayed(lib, e).Some? ==> ValidNames(Relayed(lib, e).value.fields)
  {
    hide Utf8Valid, Members, Encodable, Readable, AllReadBack, TextOf;
  }

  /** A failure whose detail is the byte 255 comes back with three other bytes there. */
  lemma {:induction false} BrokenDetailIsReplaced(lib: Library)
    requires Faithful(lib)
    ensures var e := Error("", 0, "", [0xFF as char], "", false, false, map[], None);
            Relayed(lib, e) == Some(e.(detail := REPLACEMENT))
  {
    hide Faithful, Relayed;
    var e := Error("", 0, "", [0xFF as char], "", false, false, map[], None);
    assert e.fields - KNOWN_MEMBERS == map[];
    RelayedIsMended(lib, e);
    assert [0xFF as char][1..] == "" && ToValidUtf8("") == "";
    assert ToValidUtf8([0xFF as char]) == REPLACEMENT;
    assert AllReadBack(lib, map[]) == map[];
  }
}
