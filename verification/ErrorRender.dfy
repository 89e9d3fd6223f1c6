/** Failures in RFC 9457 form: rendering them against a catalogue, and bounding what goes on the wire. */
module ErrorRender {
  import opened ByteText
  import opened ByteOrder
  import opened MachineInts

  // ---- Failures and their serialized members ----

  /** A member's value; one of any other kind encodes as the library says, or not at all. */
  datatype FieldValue = Text(s: Bytes) | Whole(n: int) | Truth(b: bool) | Other(id: nat)

  datatype Error = Error(
    typeName: Bytes, status: int64, title: Bytes, detail: Bytes, instance: Bytes,
    retryable: bool, deny: bool, fields: map<Bytes, FieldValue>, cause: Option<Error>)

  const TYPE_UNKNOWN: Bytes := "about:blank"
  const CODE_UNDECLARED: Bytes := "platform.undeclared_type"
  const CODE_TOO_LARGE: Bytes := "platform.error_too_large"
  const TYPE_PREFIX: Bytes := "/errors/"
  const TYPE_TOO_LARGE: Bytes := TYPE_PREFIX + CODE_TOO_LARGE
  const FIELD_OFFENDING: Bytes := "offending_type"
  const OFFENDING_MAX := 200
  const DEFAULT_MAX := 16384

  const KNOWN_MEMBERS: set<Bytes> := {"type", "status", "title", "detail", "instance", "retryable"}

  function Present(name: Bytes, value: Bytes): map<Bytes, FieldValue> {
    if value == "" then map[] else map[name := Text(value)]
  }

  /** The members the failure serializes as; a field never overwrites one the format already names. */
  function Members(e: Error): map<Bytes, FieldValue> {
    (e.fields - KNOWN_MEMBERS)
    + map["type" := Text(e.typeName), "retryable" := Truth(e.retryable)]
    + (if e.status != 0 then map["status" := Whole(e.status as int)] else map[])
    + Present("title", e.title) + Present("detail", e.detail) + Present("instance", e.instance)
  }

  /** The part of a type after its last slash. */
  function LastSegment(s: Bytes): Bytes {
    var parts := Split(s, '/');
    parts[|parts| - 1]
  }

  function Code(typeName: Bytes): Bytes {
    if typeName == "" || typeName == TYPE_UNKNOWN then "" else LastSegment(typeName)
  }

  function TextOf(m: map<Bytes, FieldValue>, name: Bytes): Bytes {
    if name in m && m[name].Text? then m[name].s else ""
  }

  function StatusOf(m: map<Bytes, FieldValue>): int64 {
    if "status" in m && m["status"].Whole? && FitsInt64(m["status"].n) then m["status"].n as int64 else 0
  }

  /** The failure a decoded object stands for; a named member of the wrong form is ignored. */
  function FromMembers(m: map<Bytes, FieldValue>): Error {
    Error(TextOf(m, "type"), StatusOf(m),
          TextOf(m, "title"), TextOf(m, "detail"), TextOf(m, "instance"),
          "retryable" in m && m["retryable"] == Truth(true), false, m - KNOWN_MEMBERS, None)
  }

  /** What of a failure is serialized. */
  function Kept(e: Error): Error { e.(fields := e.fields - KNOWN_MEMBERS, deny := false, cause := None) }

  lemma KnownNamesApart()
    ensures var a, b, c, d, f, g: Bytes := "type", "status", "title", "detail", "instance", "retryable";
            a != b && a != c && a != d && a != f && a != g && b != c && b != d && b != f && b != g
            && c != d && c != f && c != g && d != f && d != g && f != g
  {
    assert "status"[0] != "detail"[0];
    assert |"type"| == 4 && |"status"| == 6 && |"title"| == 5 && |"detail"| == 6;
    assert |"instance"| == 8 && |"retryable"| == 9;
  }

  /** The members every failure has, and its status. */
  function Leading(e: Error): map<Bytes, FieldValue> {
    var m := (e.fields - KNOWN_MEMBERS)["type" := Text(e.typeName)]["retryable" := Truth(e.retryable)];
    if e.status != 0 then m["status" := Whole(e.status as int)] else m
  }

  lemma {:induction false} LeadingThenTexts(e: Error)
    ensures Members(e)
         == Leading(e) + Present("title", e.title) + Present("detail", e.detail) + Present("instance", e.instance)
  {
    hide Present;
    var f := e.fields - KNOWN_MEMBERS;
    var m := f["type" := Text(e.typeName)]["retryable" := Truth(e.retryable)];
    assert f + map["type" := Text(e.typeName), "retryable" := Truth(e.retryable)] == m;
    assert m + (if e.status != 0 then map["status" := Whole(e.status as int)] else map[]) == Leading(e);
  }

  lemma TextsAreNew(e: Error)
    ensures var m := Leading(e);
            && "title" !in m && "detail" !in m + Present("title", e.title)
            && "instance" !in m + Present("title", e.title) + Present("detail", e.detail)
  {
    KnownNamesApart();
  }

  lemma MinusKnown(m: map<Bytes, FieldValue>, n: map<Bytes, FieldValue>)
    requires n.Keys <= KNOWN_MEMBERS
    ensures m + n - KNOWN_MEMBERS == m - KNOWN_MEMBERS
  {
    hide KNOWN_MEMBERS;
  }

  lemma LeadingOutside(e: Error)
    ensures Leading(e) - KNOWN_MEMBERS == e.fields - KNOWN_MEMBERS
  {
  }

  /** Outside the named members there are the fields and nothing else. */
  lemma {:induction false} MembersOutside(e: Error)
    ensures Members(e) - KNOWN_MEMBERS == e.fields - KNOWN_MEMBERS
  {
    hide Members, Leading;
    LeadingThenTexts(e);
    LeadingOutside(e);
    var t, d, i := Present("title", e.title), Present("detail", e.detail), Present("instance", e.instance);
    MinusKnown(Leading(e) + t + d, i);
    MinusKnown(Leading(e) + t, d);
    MinusKnown(Leading(e), t);
  }

  lemma PresentText(m: map<Bytes, FieldValue>, name: Bytes, s: Bytes, other: Bytes)
    requires name !in m
    ensures TextOf(m + Present(name, s), name) == s
    ensures other != name ==> TextOf(m + Present(name, s), other) == TextOf(m, other)
  {
  }

  lemma {:induction false} MembersPresent(e: Error)
    ensures var m := Members(e);
            TextOf(m, "title") == e.title && TextOf(m, "detail") == e.detail && TextOf(m, "instance") == e.instance
  {
    hide Members, Leading, TextOf, Present;
    LeadingThenTexts(e);
    TextsAreNew(e);
    KnownNamesApart();
    var t, d := Present("title", e.title), Present("detail", e.detail);
    PresentText(Leading(e), "title", e.title, "");
    PresentText(Leading(e) + t, "detail", e.detail, "title");
    PresentText(Leading(e) + t + d, "instance", e.instance, "title");
    PresentText(Leading(e) + t + d, "instance", e.instance, "detail");
  }

  lemma MembersFixed(e: Error)
    ensures var m := Members(e);
            && TextOf(m, "type") == e.typeName
            && "retryable" in m && m["retryable"] == Truth(e.retryable)
            && ("status" in m <==> e.status != 0) && ("status" in m ==> m["status"] == Whole(e.status as int))
  {
    KnownNamesApart();
  }

  /** The object has this text under the name, or no text there and the value is empty. */
  predicate GivesText(m: map<Bytes, FieldValue>, name: Bytes, value: Bytes) {
    if value == "" then name in m ==> m[name] == Text("") || !m[name].Text? else name in m && m[name] == Text(value)
  }

  /** A field is serialized under its own name unless the format gives that name a meaning. */
  lemma {:induction false} FieldsAreSerialized(e: Error, name: Bytes)
    requires name != "type" && name != "status" && name != "title"
    requires name != "detail" && name != "instance" && name != "retryable"
    ensures name in Members(e) <==> name in e.fields
    ensures name in e.fields ==> Members(e)[name] == e.fields[name]
  {
    hide Members;
    MembersOutside(e);
    var m := Members(e) - KNOWN_MEMBERS;
    assert name !in KNOWN_MEMBERS;
    assert name in m <==> name in e.fields - KNOWN_MEMBERS;
    assert name in m ==> m[name] == Members(e)[name];
  }

  /** What a decoded object gives, whatever members it has: a missing one, or one of a wrong form, gives nothing. */
  lemma {:induction false} DecodedMembers(m: map<Bytes, FieldValue>)
    ensures var e := FromMembers(m);
            && GivesText(m, "type", e.typeName) && GivesText(m, "title", e.title)
            && GivesText(m, "detail", e.detail) && GivesText(m, "instance", e.instance)
            && (if e.status != 0 then "status" in m && m["status"] == Whole(e.status as int)
                else "status" in m ==> m["status"].Whole? && FitsInt64(m["status"].n) ==> m["status"].n == 0)
            && (e.retryable <==> "retryable" in m && m["retryable"] == Truth(true))
            && !e.deny && e.cause == None
    ensures forall k :: k in FromMembers(m).fields <==> k in m && k !in KNOWN_MEMBERS
    ensures forall k :: k in FromMembers(m).fields ==> FromMembers(m).fields[k] == m[k]
  {
    hide KNOWN_MEMBERS;
  }

  /** The members say all of that: no field overwrites a named member. */
  lemma {:induction false} FromMembersOfMembers(e: Error)
    ensures FromMembers(Members(e)) == Kept(e)
  {
    hide Members, TextOf;
    MembersOutside(e);
    MembersFixed(e);
    MembersPresent(e);
  }

  /** The code of a type is what follows its last slash; no type, and the unknown one, have none. */
  lemma {:induction false} CodeOfType(prefix: Bytes, code: Bytes)
    requires '/' !in code
    ensures Code(prefix + ['/'] + code) == code && Code("") == "" && Code("about:blank") == ""
    ensures code != "about:blank" ==> Code(code) == code
  {
    hide Split;
    var typeName := prefix + ['/'] + code;
    assert typeName[|prefix|] == '/';
    NoSlashInUnknown();
    LastOfSplit(prefix, code);
    SplitOfPart(code, '/');
  }

  lemma NoSlashInUnknown()
    ensures '/' !in TYPE_UNKNOWN && TYPE_UNKNOWN == "about:blank"
  {
  }

  lemma {:induction false} LastOfSplit(prefix: Bytes, code: Bytes)
    requires '/' !in code
    ensures LastSegment(prefix + ['/'] + code) == code
    decreases |prefix|
  {
    var s := prefix + ['/'] + code;
    if prefix == "" {
      assert s == "" + ['/'] + code;
      SplitAfterPart("", code, '/');
      SplitOfPart(code, '/');
    } else {
      LastOfSplit(prefix[1..], code);
      assert s[1..] == prefix[1..] + ['/'] + code;
      HasSlashSplits(s[1..]);
    }
  }

  lemma {:induction false} HasSlashSplits(s: Bytes)
    requires '/' in s
    ensures |Split(s, '/')| > 1
  {
    if s[0] != '/' {
      assert s == [s[0]] + s[1..];
      HasSlashSplits(s[1..]);
    }
  }

  // ---- The catalogue ----

  datatype TypeDef = TypeDef(status: int64, retryable: bool, deny: bool, titles: map<Bytes, Bytes>)

  type Catalogue = map<Bytes, TypeDef>

  predicate HasTitle(def: TypeDef, locale: Bytes) { locale in def.titles && def.titles[locale] != "" }

  ghost predicate FirstTitled(def: TypeDef, locale: Bytes) {
    HasTitle(def, locale) && forall other :: HasTitle(def, other) ==> NotAfter(locale, other)
  }

  lemma {:induction false} SomeLeast(s: set<Bytes>) returns (least: Bytes)
    requires s != {}
    ensures least in s && forall x :: x in s ==> NotAfter(least, x)
  {
    var x :| x in s;
    if s == {x} { return x; }
    var rest := SomeLeast(s - {x});
    LessTotal(x, rest);
    least := if Less(x, rest) then x else rest;
    forall y | y in s ensures NotAfter(least, y) {
      if y != x { NotAfterTransitive(least, rest, y); }
    }
  }

  lemma {:induction false} FirstTitledExists(def: TypeDef, locale: Bytes)
    requires HasTitle(def, locale)
    ensures exists first :: FirstTitled(def, first)
  {
    var titled := set l | l in def.titles && HasTitle(def, l);
    assert locale in titled;
    var least := SomeLeast(titled);
    assert FirstTitled(def, least);
  }

  /** The first candidate with a title, then the first titled language in code order, then nothing. */
  ghost function TitleFor(def: TypeDef, locales: seq<Bytes>): Bytes {
    if locales != [] && HasTitle(def, locales[0]) then def.titles[locales[0]]
    else if locales != [] then TitleFor(def, locales[1..])
    else if exists first :: FirstTitled(def, first) then
      var first :| FirstTitled(def, first);
      def.titles[first]
    else ""
  }

  /** A type that declares any title at all is never left without one. */
  lemma {:induction false} TitleForIff(def: TypeDef, locales: seq<Bytes>)
    ensures TitleFor(def, locales) != "" <==> exists l :: HasTitle(def, l)
  {
    if locales != [] { TitleForIff(def, locales[1..]); }
    if l :| HasTitle(def, l) { FirstTitledExists(def, l); }
  }

  predicate NoneTitled(def: TypeDef, locales: seq<Bytes>) {
    forall j :: 0 <= j < |locales| ==> !HasTitle(def, locales[j])
  }

  /** The first language asked for that has a title gives it; without one, the first titled language in code order. */
  lemma {:induction false} TitleForPicks(def: TypeDef, locales: seq<Bytes>)
    ensures forall i :: 0 <= i < |locales| && HasTitle(def, locales[i]) && NoneTitled(def, locales[..i]) ==>
              TitleFor(def, locales) == def.titles[locales[i]]
    ensures forall first :: FirstTitled(def, first) && NoneTitled(def, locales) ==>
              TitleFor(def, locales) == def.titles[first]
  {
    if locales != [] {
      TitleForPicks(def, locales[1..]);
      forall i | 0 <= i < |locales| && HasTitle(def, locales[i]) && NoneTitled(def, locales[..i])
        ensures TitleFor(def, locales) == def.titles[locales[i]]
      {
        if i > 0 {
          assert locales[..i][0] == locales[0] && locales[1..][i - 1] == locales[i];
          assert locales[1..][..i - 1] == locales[..i][1..];
        }
      }
      assert forall j :: 0 <= j < |locales| - 1 ==> locales[1..][j] == locales[j + 1];
    } else {
      forall first, other | FirstTitled(def, first) && FirstTitled(def, other) ensures first == other {
        FirstTitledUnique(def, first, other);
      }
    }
  }

  lemma FirstTitledUnique(def: TypeDef, a: Bytes, b: Bytes)
    requires FirstTitled(def, a) && FirstTitled(def, b)
    ensures a == b
  {
    if a != b {
      LessTransitive(a, b, a);
      LessIrreflexive(a);
    }
  }

  method ChooseTitle(def: TypeDef, locales: seq<Bytes>) returns (title: Bytes)
    ensures title == TitleFor(def, locales)
  {
    for i := 0 to |locales|
      invariant TitleFor(def, locales) == TitleFor(def, locales[i..])
    {
      assert locales[i..][0] == locales[i] && locales[i..][1..] == locales[i + 1..];
      if locales[i] in def.titles && def.titles[locales[i]] != "" { return def.titles[locales[i]]; }
    }
    assert locales[|locales|..] == [];
    var todo := def.titles.Keys;
    var first: Option<Bytes> := None;
    while todo != {}
      invariant todo <= def.titles.Keys
      invariant first == None ==> forall l :: HasTitle(def, l) ==> l in todo
      invariant first.Some? ==> HasTitle(def, first.value)
      invariant first.Some? ==> forall l :: HasTitle(def, l) && l !in todo ==> NotAfter(first.value, l)
      decreases |todo|
    {
      var code :| code in todo;
      todo := todo - {code};
      if def.titles[code] != "" {
        if first == None {
          first := Some(code);
        } else if Less(code, first.value) {
          forall l | HasTitle(def, l) && l !in todo ensures NotAfter(code, l) {
            if l != code { NotAfterTransitive(code, first.value, l); }
          }
          first := Some(code);
        } else {
          LessTotal(code, first.value);
        }
      }
    }
    if first == None { return ""; }
    assert FirstTitled(def, first.value);
    forall other | FirstTitled(def, other) ensures other == first.value { FirstTitledUnique(def, other, first.value); }
    title := def.titles[first.value];
  }

  // ---- Rendering ----

  datatype RenderContext = RenderContext(
    catalogue: Catalogue, locale: Bytes, defaultLocale: Bytes, instance: Bytes, maxBytes: int)

  /** The title of the declaration, or of the one undeclared types fall back to. */
  ghost function DeclaredTitle(typeName: Bytes, rc: RenderContext): Bytes {
    if Code(typeName) in rc.catalogue then TitleFor(rc.catalogue[Code(typeName)], [rc.locale, rc.defaultLocale])
    else if CODE_UNDECLARED in rc.catalogue then
      TitleFor(rc.catalogue[CODE_UNDECLARED], [rc.locale, rc.defaultLocale])
    else ""
  }

  ghost function RenderOnce(e: Error, rc: RenderContext): Error {
    var typeName := if e.typeName == "" then TYPE_UNKNOWN else e.typeName;
    var code, title := Code(e.typeName), DeclaredTitle(e.typeName, rc);
    if code in rc.catalogue then
      var def := rc.catalogue[code];
      Error(typeName, def.status, title, e.detail, rc.instance, def.retryable, def.deny, e.fields, e.cause)
    else
      Error(typeName, 500, title, "", rc.instance, false, e.deny, e.fields, e.cause)
  }

  function Truncated(s: Bytes): Bytes { if |s| > OFFENDING_MAX then s[..OFFENDING_MAX] else s }

  function TooLarge(e: Error): Error {
    Error(TYPE_TOO_LARGE, 500, "", "", "", false, false, map[FIELD_OFFENDING := Text(Truncated(e.typeName))], Some(e))
  }

  // ---- Encoded length ----

  /** Lengths of the encodings of other values; none for one that cannot be encoded. */
  type Encoder = nat -> Option<nat>

  /** Bytes a string's characters take inside a JSON string. */
  function EscapedLength(s: Bytes): nat
    decreases |s|
  {
    if s == "" then 0
    else
      var n := RuneLength(s);
      if n == 0 then 6 + EscapedLength(s[1..])
      else if n == 1 then EscapedByte(s[0]) + EscapedLength(s[1..])
      else (if IsLineSeparator(s) then 6 else n) + EscapedLength(s[n..])
  }

  function EscapedByte(c: char): nat {
    if c in "\"\\\n\r\t" || c as int == 8 || c as int == 12 then 2
    else if c as int < 0x20 || c in "<>&" then 6
    else 1
  }

  /** U+2028 or U+2029, which are written as escapes. */
  predicate IsLineSeparator(s: Bytes) {
    |s| >= 3 && s[0] as int == 0xE2 && s[1] as int == 0x80 && (s[2] as int == 0xA8 || s[2] as int == 0xA9)
  }

  /** Characters of a number's decimal form. */
  function Decimals(n: int): nat
    decreases if n < 0 then 1 - n else n
  {
    if n < 0 then 1 + Decimals(-n) else if n < 10 then 1 else 1 + Decimals(n / 10)
  }

  function ValueLength(enc: Encoder, v: FieldValue): Option<nat> {
    match v
    case Text(s) => Some(2 + EscapedLength(s))
    case Whole(n) => Some(Decimals(n))
    case Truth(b) => Some(if b then 4 else 5)
    case Other(id) => enc(id)
  }

  /** One member: its quoted name, a colon, its value, and a comma or the closing brace. */
  function MemberLength(name: Bytes, value: nat): nat { 2 + EscapedLength(name) + 1 + value + 1 }

  predicate Encodable(enc: Encoder, m: map<Bytes, FieldValue>) {
    forall k :: k in m ==> ValueLength(enc, m[k]).Some?
  }

  ghost function MembersLength(enc: Encoder, m: map<Bytes, FieldValue>): nat
    requires Encodable(enc, m)
    decreases |m|
  {
    if m == map[] then 0
    else
      var k :| k in m;
      MemberLength(k, ValueLength(enc, m[k]).value) + MembersLength(enc, m - {k})
  }

  /** The length of the whole object; an object with no members is two braces. */
  ghost function EncodedLength(enc: Encoder, m: map<Bytes, FieldValue>): nat
    requires Encodable(enc, m)
  {
    1 + if m == map[] then 1 else MembersLength(enc, m)
  }

  function Bound(maxBytes: int): nat { if maxBytes <= 0 then DEFAULT_MAX else maxBytes }

  ghost predicate Fits(enc: Encoder, e: Error, maxBytes: int) {
    Encodable(enc, Members(e)) && EncodedLength(enc, Members(e)) <= Bound(maxBytes)
  }

  ghost function Bounded(enc: Encoder, e: Error, maxBytes: int): Error {
    if Fits(enc, e, maxBytes) then e else TooLarge(e)
  }

  ghost function Render(enc: Encoder, e: Error, rc: RenderContext): Error {
    var out := RenderOnce(e, rc);
    if Fits(enc, out, rc.maxBytes) then out else RenderOnce(TooLarge(e), rc)
  }

  // ---- What rendering promises ----

  lemma {:induction false} RenderOnceTwice(e: Error, rc: RenderContext)
    ensures RenderOnce(RenderOnce(e, rc), rc) == RenderOnce(e, rc)
  {
    hide LastSegment, TitleFor;
  }

  /** The rendered replacement names the type it replaces. */
  lemma {:induction false} ReplacementNames(e: Error, rc: RenderContext)
    ensures var out := RenderOnce(TooLarge(e), rc);
            out.typeName == TYPE_TOO_LARGE
            && FIELD_OFFENDING in Members(out) && Members(out)[FIELD_OFFENDING] == Text(Truncated(e.typeName))
  {
    hide LastSegment, TitleFor, Truncated;
    DistinctNames();
  }

  lemma DistinctNames()
    ensures FIELD_OFFENDING !in KNOWN_MEMBERS
  {
    assert |FIELD_OFFENDING| == 14;
  }

  /**
   What of a failure within the bound reaches the wire. A declared type speaks for itself; an undeclared one
   keeps its name and fields, is an unretryable 500, and loses its detail.
   */
  lemma {:induction false} RenderedMembers(enc: Encoder, e: Error, rc: RenderContext)
    ensures Fits(enc, RenderOnce(e, rc), rc.maxBytes) ==> Render(enc, e, rc) == RenderOnce(e, rc)
    ensures var m, declared := Members(RenderOnce(e, rc)), Code(e.typeName) in rc.catalogue;
            var status := if declared then rc.catalogue[Code(e.typeName)].status else 500;
            && m - KNOWN_MEMBERS == e.fields - KNOWN_MEMBERS
            && TextOf(m, "type") == (if e.typeName == "" then "about:blank" else e.typeName)
            && TextOf(m, "title") == DeclaredTitle(e.typeName, rc)
            && TextOf(m, "instance") == rc.instance
            && TextOf(m, "detail") == (if declared then e.detail else "")
            && "retryable" in m && m["retryable"] == Truth(declared && rc.catalogue[Code(e.typeName)].retryable)
            && ("status" in m <==> status != 0) && ("status" in m ==> m["status"] == Whole(status as int))
  {
    hide Members, TextOf, Fits, TitleFor, Code;
    var out := RenderOnce(e, rc);
    MembersOutside(out);
    MembersFixed(out);
    MembersPresent(out);
  }

  /** What a producer put in status, title, instance, retryable, deny or cause never reaches the wire. */
  lemma {:induction false} SameWireInput(a: Error, b: Error, rc: RenderContext)
    requires a.typeName == b.typeName && a.detail == b.detail && a.fields == b.fields
    ensures Members(RenderOnce(a, rc)) == Members(RenderOnce(b, rc))
  {
    hide LastSegment, TitleFor, Members;
    var x, y := RenderOnce(a, rc), RenderOnce(b, rc);
    assert x.(deny := false, cause := None) == y.(deny := false, cause := None);
    NeverSerialized(x);
    NeverSerialized(y);
  }

  lemma NeverSerialized(e: Error)
    ensures Members(e) == Members(e.(deny := false, cause := None))
  {
  }

  lemma {:induction false} RenderIgnoresProducer(enc: Encoder, a: Error, b: Error, rc: RenderContext)
    requires a.typeName == b.typeName && a.detail == b.detail && a.fields == b.fields
    ensures Members(Render(enc, a, rc)) == Members(Render(enc, b, rc))
  {
    hide RenderOnce, Members;
    SameWireInput(a, b, rc);
    SameWireInput(TooLarge(a), TooLarge(b), rc);
  }

  /** The reader's language comes first, then the deployment's; a declared code speaks before the fallback. */
  lemma {:induction false} RenderedTitle(e: Error, rc: RenderContext)
    ensures var out, code := RenderOnce(e, rc), Code(e.typeName);
            && (code in rc.catalogue && HasTitle(rc.catalogue[code], rc.locale) ==>
                  out.title == rc.catalogue[code].titles[rc.locale])
            && (code in rc.catalogue && !HasTitle(rc.catalogue[code], rc.locale)
                && HasTitle(rc.catalogue[code], rc.defaultLocale) ==>
                  out.title == rc.catalogue[code].titles[rc.defaultLocale])
            && (code !in rc.catalogue && "platform.undeclared_type" in rc.catalogue
                && HasTitle(rc.catalogue["platform.undeclared_type"], rc.locale) ==>
                  out.title == rc.catalogue["platform.undeclared_type"].titles[rc.locale])
            && (code !in rc.catalogue && "platform.undeclared_type" in rc.catalogue
                && !HasTitle(rc.catalogue["platform.undeclared_type"], rc.locale)
                && HasTitle(rc.catalogue["platform.undeclared_type"], rc.defaultLocale) ==>
                  out.title == rc.catalogue["platform.undeclared_type"].titles[rc.defaultLocale])
            && (code !in rc.catalogue && "platform.undeclared_type" !in rc.catalogue ==> out.title == "")
  {
    hide Code, TitleFor;
    var code, locales := Code(e.typeName), [rc.locale, rc.defaultLocale];
    if code in rc.catalogue {
      TitleOfTwo(rc.catalogue[code], rc.locale, rc.defaultLocale);
    } else if CODE_UNDECLARED in rc.catalogue {
      TitleOfTwo(rc.catalogue[CODE_UNDECLARED], rc.locale, rc.defaultLocale);
    }
  }

  lemma {:induction false} TitleOfTwo(def: TypeDef, locale: Bytes, fallback: Bytes)
    ensures HasTitle(def, locale) ==> TitleFor(def, [locale, fallback]) == def.titles[locale]
    ensures !HasTitle(def, locale) && HasTitle(def, fallback) ==>
              TitleFor(def, [locale, fallback]) == def.titles[fallback]
  {
    hide TitleFor;
    var locales := [locale, fallback];
    TitleForPicks(def, locales);
    assert locales[0] == locale && locales[..0] == [] && locales[1] == fallback && locales[..1] == [locale];
  }

  /** Rendering keeps for this process what is never serialized: the cause, and who is to be denied. */
  lemma {:induction false} RenderKeepsLocal(e: Error, rc: RenderContext)
    ensures var out, code := RenderOnce(e, rc), Code(e.typeName);
            && out.cause == e.cause && out.fields == e.fields
            && out.deny == (if code in rc.catalogue then rc.catalogue[code].deny else e.deny)
  {
  }

  // ---- What bounding promises ----

  /** A failure within the bound is left alone; any other is replaced by one that names its type and keeps it. */
  lemma {:induction false} BoundedIs(enc: Encoder, e: Error, maxBytes: int)
    ensures Fits(enc, e, maxBytes) ==> Bounded(enc, e, maxBytes) == e
    ensures !Fits(enc, e, maxBytes) ==>
              var r := Bounded(enc, e, maxBytes);
              && r.typeName == "/errors/platform.error_too_large" && r.status == 500 && !r.retryable && !r.deny
              && r.title == r.detail == r.instance == "" && r.cause == Some(e)
              && r.fields.Keys == {"offending_type"} && r.fields["offending_type"].Text?
              && r.fields["offending_type"].s == e.typeName[..if |e.typeName| < 200 then |e.typeName| else 200]
  {
    hide Fits;
    assert |e.typeName| <= 200 ==> e.typeName[..|e.typeName|] == e.typeName;
    assert TYPE_TOO_LARGE == "/errors/platform.error_too_large" by { TooLargeSpelled(); }
  }

  /** What is rendered instead of a failure past the bound: the replacement, as its own declaration has it rendered. */
  lemma {:induction false} RenderReplaces(enc: Encoder, e: Error, rc: RenderContext)
    requires !Fits(enc, RenderOnce(e, rc), rc.maxBytes)
    ensures var r, declared := Render(enc, e, rc), "platform.error_too_large" in rc.catalogue;
            && r.typeName == "/errors/platform.error_too_large" && r.cause == Some(e)
            && r.detail == "" && r.instance == rc.instance
            && r.fields == map["offending_type" := Text(Truncated(e.typeName))]
            && r.status == (if declared then rc.catalogue["platform.error_too_large"].status else 500)
            && r.retryable == (declared && rc.catalogue["platform.error_too_large"].retryable)
            && r.deny == (declared && rc.catalogue["platform.error_too_large"].deny)
            && r.title == DeclaredTitle("/errors/platform.error_too_large", rc)
  {
    hide Fits, Truncated, DeclaredTitle, Code;
    TooLargeCode();
    TooLargeSpelled();
    assert TYPE_TOO_LARGE != "" by { TooLargeText(); }
  }

  lemma TooLargeSpelled()
    ensures TYPE_TOO_LARGE == "/errors/platform.error_too_large"
  {
  }

  lemma {:induction false} EscapesAtMostSixfold(s: Bytes)
    ensures EscapedLength(s) <= 6 * |s|
    decreases |s|
  {
    if s != "" {
      var n := RuneLength(s);
      EscapesAtMostSixfold(s[if n == 0 then 1 else n..]);
    }
  }

  lemma {:induction false} MembersLengthWithout(enc: Encoder, m: map<Bytes, FieldValue>, k: Bytes)
    requires Encodable(enc, m) && k in m
    ensures MembersLength(enc, m)
         == MemberLength(k, ValueLength(enc, m[k]).value) + MembersLength(enc, m - {k})
    decreases |m|
  {
    hide ValueLength, MemberLength;
    var picked :| picked in m && MembersLength(enc, m)
      == MemberLength(picked, ValueLength(enc, m[picked]).value) + MembersLength(enc, m - {picked});
    if picked != k {
      MembersLengthWithout(enc, m - {picked}, k);
      MembersLengthWithout(enc, m - {k}, picked);
      assert m - {picked} - {k} == m - {k} - {picked};
    }
  }

  /** Text that needs no escapes. */
  predicate Plain(s: Bytes) {
    forall i :: 0 <= i < |s| ==> 0x20 <= s[i] as int < 0x80 && s[i] !in "\"\\<>&"
  }

  lemma {:induction false} PlainLength(s: Bytes)
    requires Plain(s)
    ensures EscapedLength(s) == |s|
    decreases |s|
  {
    if s != "" { PlainLength(s[1..]); }
  }

  lemma NameLengths()
    ensures EscapedLength(FIELD_OFFENDING) == 14 && EscapedLength("type") == 4
    ensures EscapedLength("retryable") == 9 && EscapedLength("status") == 6
    ensures EscapedLength("title") == 5 && EscapedLength("detail") == 6 && EscapedLength("instance") == 8
  {
    hide EscapedLength, FIELD_OFFENDING;
    OffendingNameLength();
    LeadingNameLengths();
    TextNameLengths();
  }

  lemma OffendingNameLength()
    ensures EscapedLength(FIELD_OFFENDING) == 14
  {
    hide EscapedLength;
    PlainLength(FIELD_OFFENDING);
  }

  lemma LeadingNameLengths()
    ensures EscapedLength("type") == 4 && EscapedLength("retryable") == 9 && EscapedLength("status") == 6
  {
    hide EscapedLength;
    PlainLength("type");
    PlainLength("retryable");
    PlainLength("status");
  }

  lemma TextNameLengths()
    ensures EscapedLength("title") == 5 && EscapedLength("detail") == 6 && EscapedLength("instance") == 8
  {
    hide EscapedLength;
    PlainLength("title");
    PlainLength("detail");
    PlainLength("instance");
  }

  lemma TooLargeLength()
    ensures EscapedLength(TYPE_TOO_LARGE) == 32
  {
    hide EscapedLength;
    PlainLength(TYPE_TOO_LARGE);
  }

  lemma {:induction false} MembersLengthAdd(enc: Encoder, m: map<Bytes, FieldValue>, k: Bytes, v: FieldValue)
    requires Encodable(enc, m) && k !in m && ValueLength(enc, v).Some?
    ensures Encodable(enc, m[k := v])
    ensures MembersLength(enc, m[k := v]) == MemberLength(k, ValueLength(enc, v).value) + MembersLength(enc, m)
  {
    hide ValueLength, MemberLength, MembersLength;
    assert m[k := v] - {k} == m;
    MembersLengthWithout(enc, m[k := v], k);
  }

  /** What a text member takes: nothing when it is left out, else its name's length, six more and its text. */
  function TextTakes(name: Bytes, s: Bytes): nat {
    if s == "" then 0 else |name| + 6 + EscapedLength(s)
  }

  /** What the members the format names take. */
  function NamedLength(e: Error): nat {
    (10 + EscapedLength(e.typeName)) + (if e.retryable then 17 else 18)
    + (if e.status != 0 then 10 + Decimals(e.status as int) else 0)
    + TextTakes("title", e.title) + TextTakes("detail", e.detail) + TextTakes("instance", e.instance)
  }

  lemma {:induction false} PresentLength(enc: Encoder, m: map<Bytes, FieldValue>, name: Bytes, s: Bytes)
    requires Encodable(enc, m) && name !in m && EscapedLength(name) == |name|
    ensures Encodable(enc, m + Present(name, s))
    ensures MembersLength(enc, m + Present(name, s)) == TextTakes(name, s) + MembersLength(enc, m)
  {
    hide EscapedLength, MembersLength;
    if s == "" {
      assert m + Present(name, s) == m;
    } else {
      assert m + Present(name, s) == m[name := Text(s)];
      MembersLengthAdd(enc, m, name, Text(s));
    }
  }

  lemma {:induction false} LeadingLength(enc: Encoder, e: Error)
    requires Encodable(enc, e.fields - KNOWN_MEMBERS)
    ensures Encodable(enc, Leading(e))
    ensures MembersLength(enc, Leading(e)) == MembersLength(enc, e.fields - KNOWN_MEMBERS)
         + (10 + EscapedLength(e.typeName)) + (if e.retryable then 17 else 18)
         + (if e.status != 0 then 10 + Decimals(e.status as int) else 0)
  {
    hide EscapedLength, MembersLength, Decimals;
    KnownNamesApart();
    NameLengths();
    var m0 := e.fields - KNOWN_MEMBERS;
    MembersLengthAdd(enc, m0, "type", Text(e.typeName));
    var m1 := m0["type" := Text(e.typeName)];
    MembersLengthAdd(enc, m1, "retryable", Truth(e.retryable));
    if e.status != 0 { MembersLengthAdd(enc, m1["retryable" := Truth(e.retryable)], "status", Whole(e.status as int)); }
  }

  /** The exact length of what any failure serializes as. */
  lemma {:induction false} SerializedLength(enc: Encoder, e: Error)
    requires Encodable(enc, e.fields - KNOWN_MEMBERS)
    ensures Encodable(enc, Members(e))
    ensures EncodedLength(enc, Members(e)) == 1 + MembersLength(enc, e.fields - KNOWN_MEMBERS) + NamedLength(e)
  {
    hide EscapedLength, MembersLength, Members, Leading, Decimals, TextTakes;
    LeadingLength(enc, e);
    LeadingThenTexts(e);
    TextsAreNew(e);
    NameLengths();
    var m := Leading(e);
    PresentLength(enc, m, "title", e.title);
    PresentLength(enc, m + Present("title", e.title), "detail", e.detail);
    PresentLength(enc, m + Present("title", e.title) + Present("detail", e.detail), "instance", e.instance);
    MembersFixed(e);
  }

  lemma {:induction false} OffendingLength(enc: Encoder, t: Bytes)
    ensures var f := map[FIELD_OFFENDING := Text(t)];
            f - KNOWN_MEMBERS == f && Encodable(enc, f) && MembersLength(enc, f) == 20 + EscapedLength(t)
  {
    hide EscapedLength, MembersLength;
    var f: map<Bytes, FieldValue> := map[FIELD_OFFENDING := Text(t)];
    DistinctNames();
    NameLengths();
    assert f - KNOWN_MEMBERS == f && f == map[][FIELD_OFFENDING := Text(t)];
    MembersLengthAdd(enc, map[], FIELD_OFFENDING, Text(t));
    NoMembersLength(enc);
  }

  lemma NoMembersLength(enc: Encoder)
    ensures MembersLength(enc, map[]) == 0
  {
  }

  lemma DecimalsOf500()
    ensures Decimals(500) == 3
  {
    assert Decimals(500) == 1 + Decimals(50) && Decimals(50) == 2;
  }

  /** What the replacement's encoding takes besides the escaped offending type. */
  const REPLACEMENT_BASE := 94

  /** The replacement always encodes, to a length that depends on nothing but the offending type's text. */
  lemma {:induction false} ReplacementLength(enc: Encoder, e: Error)
    ensures Encodable(enc, Members(TooLarge(e)))
    ensures EncodedLength(enc, Members(TooLarge(e))) == REPLACEMENT_BASE + EscapedLength(Truncated(e.typeName))
  {
    hide EscapedLength, MembersLength, Members, EncodedLength, Decimals, Truncated;
    OffendingLength(enc, Truncated(e.typeName));
    SerializedLength(enc, TooLarge(e));
    TooLargeLength();
    DecimalsOf500();
  }

  /** When a failure is within the bound, by the exact length of its text; a bound of zero or less is 16384 bytes. */
  lemma {:induction false} FitsIff(enc: Encoder, e: Error, maxBytes: int)
    ensures var f := e.fields - KNOWN_MEMBERS;
            Fits(enc, e, maxBytes) <==>
              && Encodable(enc, f)
              && 1 + MembersLength(enc, f) + NamedLength(e) <= if maxBytes <= 0 then 16384 else maxBytes
  {
    hide Members, MembersLength, EncodedLength, NamedLength, ValueLength;
    MembersOutside(e);
    var f := e.fields - KNOWN_MEMBERS;
    if Encodable(enc, f) {
      SerializedLength(enc, e);
    } else {
      var k :| k in f && ValueLength(enc, f[k]).None?;
      assert k in Members(e) - KNOWN_MEMBERS && (Members(e) - KNOWN_MEMBERS)[k] == f[k];
    }
  }

  // ---- When the rendered replacement fits ----

  lemma JoinThree(a: Bytes, b: Bytes, c: Bytes)
    ensures Join([a, b, c], '/') == a + ['/'] + (b + ['/'] + c)
  {
    var parts := [a, b, c];
    assert parts[1..] == [b, c] && [b, c][1..] == [c];
    assert Join([b, c], '/') == b + ['/'] + c;
  }

  lemma NoSlashes()
    ensures '/' !in "errors" && '/' !in CODE_TOO_LARGE
  {
  }

  lemma TooLargeText()
    ensures "" + ['/'] + ("errors" + ['/'] + CODE_TOO_LARGE) == TYPE_TOO_LARGE
    ensures TYPE_TOO_LARGE != "" && TYPE_TOO_LARGE != TYPE_UNKNOWN
  {
    assert TYPE_PREFIX == ['/'] + "errors" + ['/'];
    assert TYPE_TOO_LARGE[0] == TYPE_PREFIX[0];
  }

  lemma TooLargeCode()
    ensures Code(TYPE_TOO_LARGE) == CODE_TOO_LARGE
  {
    hide Split, Join, CODE_TOO_LARGE, TYPE_TOO_LARGE, TYPE_UNKNOWN;
    var parts: seq<Bytes> := ["", "errors", CODE_TOO_LARGE];
    TooLargeText();
    NoSlashes();
    JoinThree("", "errors", CODE_TOO_LARGE);
    SplitOfJoin(parts, '/');
  }

  /** What the declaration of the replacement's type adds to it; without one it is an unretryable 500. */
  ghost function DeclarationTakes(rc: RenderContext): nat {
    var declared := CODE_TOO_LARGE in rc.catalogue;
    var status := if declared then rc.catalogue[CODE_TOO_LARGE].status else 500;
    (if declared && rc.catalogue[CODE_TOO_LARGE].retryable then 17 else 18)
    + (if status != 0 then 10 + Decimals(status as int) else 0)
    + TextTakes("title", DeclaredTitle(TYPE_TOO_LARGE, rc)) + TextTakes("instance", rc.instance)
  }

  /** The rendered replacement always encodes, to a length that the offending type and the context give. */
  lemma {:induction false} RenderedReplacementLength(enc: Encoder, e: Error, rc: RenderContext)
    ensures Encodable(enc, Members(RenderOnce(TooLarge(e), rc)))
    ensures EncodedLength(enc, Members(RenderOnce(TooLarge(e), rc)))
         == 63 + EscapedLength(Truncated(e.typeName)) + DeclarationTakes(rc)
  {
    hide EscapedLength, MembersLength, Members, EncodedLength, Decimals, Truncated, DeclaredTitle, Code;
    OffendingLength(enc, Truncated(e.typeName));
    SerializedLength(enc, RenderOnce(TooLarge(e), rc));
    TooLargeLength();
    TooLargeCode();
  }

  /** Rendering yields something within the bound exactly when the rendered failure or replacement is. */
  lemma {:induction false} RenderFitsIff(enc: Encoder, e: Error, rc: RenderContext)
    ensures Fits(enc, Render(enc, e, rc), rc.maxBytes)
            <==> Fits(enc, RenderOnce(e, rc), rc.maxBytes)
                 || 63 + EscapedLength(Truncated(e.typeName)) + DeclarationTakes(rc) <= Bound(rc.maxBytes)
  {
    hide EscapedLength, MembersLength, Members, EncodedLength, RenderOnce, DeclarationTakes;
    RenderedReplacementLength(enc, e, rc);
  }

  lemma {:induction false} DecimalsAtMost(n: int, digits: nat)
    requires 0 <= n < Power10(digits) && digits > 0
    ensures Decimals(n) <= digits
  {
    if n >= 10 { DecimalsAtMost(n / 10, digits - 1); }
  }

  /** The characters counted are as many as the number's digits. */
  lemma {:induction false} DecimalsExact(n: int)
    requires n > 0
    ensures Power10(Decimals(n) - 1) <= n < Power10(Decimals(n)) && Decimals(-n) == Decimals(n) + 1
    decreases n
  {
    if n >= 10 { DecimalsExact(n / 10); }
  }

  function Power10(digits: nat): nat { if digits == 0 then 1 else 10 * Power10(digits - 1) }

  lemma Power19()
    ensures Power10(19) == 10_000_000_000_000_000_000
  {
    assert Power10(4) == 10_000;
    assert Power10(8) == 100_000_000;
    assert Power10(12) == 1_000_000_000_000;
    assert Power10(16) == 10_000_000_000_000_000;
  }

  lemma {:induction false} StatusDecimals(status: int64)
    ensures Decimals(status as int) <= 20
  {
    hide Power10;
    Power19();
    DecimalsAtMost(if status < 0 then -(status as int) else status as int, 19);
  }

  /** From this bound up whatever is rendered fits: six bytes for each of title and instance, and 1336 more. */
  lemma {:induction false} RenderAlwaysFits(enc: Encoder, e: Error, rc: RenderContext)
    requires Bound(rc.maxBytes) >= 1336 + 6 * (|DeclaredTitle(TYPE_TOO_LARGE, rc)| + |rc.instance|)
    ensures Fits(enc, Render(enc, e, rc), rc.maxBytes)
  {
    hide EscapedLength, Decimals, Fits, Render, DeclaredTitle;
    RenderFitsIff(enc, e, rc);
    EscapesAtMostSixfold(Truncated(e.typeName));
    EscapesAtMostSixfold(DeclaredTitle(TYPE_TOO_LARGE, rc));
    EscapesAtMostSixfold(rc.instance);
    StatusDecimals(if CODE_TOO_LARGE in rc.catalogue then rc.catalogue[CODE_TOO_LARGE].status else 500);
  }

  /**
   Rendering what was rendered changes no serialized member, exactly unless even the replacement is over the
   bound: then the second replacement names the first, which differs unless the type was that one already.
   */
  lemma {:induction false} RenderTwiceIff(enc: Encoder, e: Error, rc: RenderContext)
    ensures Members(Render(enc, Render(enc, e, rc), rc)) == Members(Render(enc, e, rc))
            <==> || Fits(enc, RenderOnce(e, rc), rc.maxBytes)
                 || 63 + EscapedLength(Truncated(e.typeName)) + DeclarationTakes(rc) <= Bound(rc.maxBytes)
                 || Truncated(e.typeName) == TYPE_TOO_LARGE
  {
    hide RenderOnce, Fits, Members, EscapedLength, DeclarationTakes;
    RenderFitsIff(enc, e, rc);
    RenderOnceTwice(e, rc);
    RenderOnceTwice(TooLarge(e), rc);
    var r := Render(enc, e, rc);
    if !Fits(enc, r, rc.maxBytes) {
      ReplacementNames(e, rc);
      ReplacementNames(r, rc);
      assert Truncated(TYPE_TOO_LARGE) == TYPE_TOO_LARGE;
      if Truncated(e.typeName) == TYPE_TOO_LARGE { SameWireInput(TooLarge(e), TooLarge(r), rc); }
    }
  }

  lemma {:induction false} NothingFitsOneByte(enc: Encoder, e: Error)
    ensures !Fits(enc, e, 1)
  {
    hide Members, MembersLength, EscapedLength, TextTakes, Decimals;
    if Encodable(enc, Members(e)) {
      MembersOutside(e);
      SerializedLength(enc, e);
    }
  }

  /** Under a bound of one byte and without declarations, rendering twice forgets which type was too large. */
  lemma {:induction false} RenderTwiceCanDiffer(enc: Encoder)
    ensures var e := Error("/errors/x", 0, "", "", "", false, false, map[], None);
            var rc := RenderContext(map[], "", "", "", 1);
            var once := Members(Render(enc, e, rc));
            var twice := Members(Render(enc, Render(enc, e, rc), rc));
            && FIELD_OFFENDING in once && once[FIELD_OFFENDING] == Text("/errors/x")
            && FIELD_OFFENDING in twice && twice[FIELD_OFFENDING] == Text(TYPE_TOO_LARGE)
  {
    hide RenderOnce, Members, Fits;
    var e := Error("/errors/x", 0, "", "", "", false, false, map[], None);
    var rc := RenderContext(map[], "", "", "", 1);
    NothingFitsOneByte(enc, RenderOnce(e, rc));
    var once := RenderOnce(TooLarge(e), rc);
    NothingFitsOneByte(enc, RenderOnce(once, rc));
    ReplacementNames(e, rc);
    ReplacementNames(once, rc);
  }

  /**
   Bounding yields something within the bound exactly when the failure itself is or its replacement is; the
   replacement is within every bound from 1294 bytes up, the default included.
   */
  lemma {:induction false} BoundedFitsIff(enc: Encoder, e: Error, maxBytes: int)
    ensures var bound := Bound(maxBytes);
            && (Fits(enc, Bounded(enc, e, maxBytes), maxBytes)
                <==> Fits(enc, e, maxBytes) || REPLACEMENT_BASE + EscapedLength(Truncated(e.typeName)) <= bound)
            && (bound >= 1294 ==> Fits(enc, Bounded(enc, e, maxBytes), maxBytes))
  {
    hide EscapedLength, Members, MembersLength;
    ReplacementLength(enc, e);
    EscapesAtMostSixfold(Truncated(e.typeName));
  }
}
