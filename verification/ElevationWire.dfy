/** The elevation header: strict JSON in strict base64url. */
module ElevationWire {
  import opened ByteText
  import opened Base64Url
  import opened JsonBudget
  import opened Elevations

  /** The JSON library: text for a document, and the document of a text. */
  datatype JsonText = JsonText(write: Json -> Bytes, read: Bytes -> Option<Json>)

  /** Every string in the document is valid UTF-8, and it holds no numbers. */
  predicate Textual(v: Json) {
    match v
    case JsonNumber(_) => false
    case JsonString(s) => Utf8Valid(s)
    case JsonArray(items) => forall i :: 0 <= i < |items| ==> Textual(items[i])
    case JsonObject(members) =>
      forall i :: 0 <= i < |members| ==> Utf8Valid(members[i].key) && Textual(members[i].value)
    case _ => true
  }

  /** Printing such a document gives valid UTF-8 that parses back to it. */
  ghost predicate Faithful(text: JsonText) {
    forall v :: Textual(v) ==>
      IsBytes(text.write(v)) && Utf8Valid(text.write(v)) && text.read(text.write(v)) == Some(v)
  }

  // ---- Writing ----

  function GrantItems(grants: seq<Bytes>): seq<Json> {
    seq(|grants|, i requires 0 <= i < |grants| => JsonString(grants[i]))
  }

  /** The document of a selection: empty members are left out. */
  function Marshal(e: Elevation): Json {
    JsonObject((if e.system then [Member("system", JsonBool(true))] else [])
               + (if e.grants != [] then [Member("grants", JsonArray(GrantItems(e.grants)))] else []))
  }

  function Encode(text: JsonText, e: Elevation): Bytes
    requires IsBytes(text.write(Marshal(Normalize(e))))
  {
    EncodeToString(text.write(Marshal(Normalize(e))))
  }

  // ---- Reading ----

  predicate AllStrings(items: seq<Json>) { forall i :: 0 <= i < |items| ==> items[i].JsonString? }

  predicate AcceptableMember(m: Member) {
    (m.key == "system" && m.value.JsonBool?) || (m.key == "grants" && m.value.JsonArray? && AllStrings(m.value.items))
  }

  predicate NoRepeatedKeys(members: seq<Member>) {
    forall i, j :: 0 <= i < j < |members| ==> members[i].key != members[j].key
  }

  /** An object with nothing but these two members, each at most once, of the right types and without nulls. */
  predicate StrictDocument(v: Json) {
    v.JsonObject? && NoRepeatedKeys(v.members) && forall i :: 0 <= i < |v.members| ==> AcceptableMember(v.members[i])
  }

  function Texts(items: seq<Json>): seq<Bytes>
    requires AllStrings(items)
  {
    seq(|items|, i requires 0 <= i < |items| => items[i].text)
  }

  /** What the members select, before it is normalized. */
  function Selected(members: seq<Member>): Elevation
    requires forall i :: 0 <= i < |members| ==> AcceptableMember(members[i])
  {
    if members == [] then Elevation(false, [])
    else
      var before, last := Selected(members[..|members| - 1]), members[|members| - 1];
      assert AcceptableMember(last) && "system"[0] != "grants"[0];
      if last.key == "system" then before.(system := last.value.truth)
      else before.(grants := before.grants + Texts(last.value.items))
  }

  /** The document sends the system role. */
  predicate SendsSystem(v: Json) {
    v.JsonObject? && exists i :: 0 <= i < |v.members| && v.members[i] == Member("system", JsonBool(true))
  }

  /** The document sends this grant. */
  predicate SendsGrant(v: Json, g: Bytes) {
    && v.JsonObject?
    && exists i :: 0 <= i < |v.members| && v.members[i].key == "grants" && v.members[i].value.JsonArray?
                   && JsonString(g) in v.members[i].value.items
  }

  lemma {:induction false} SelectedSends(members: seq<Member>)
    requires NoRepeatedKeys(members) && forall i :: 0 <= i < |members| ==> AcceptableMember(members[i])
    ensures Selected(members).system <==> SendsSystem(JsonObject(members))
    ensures forall g :: g in Selected(members).grants <==> SendsGrant(JsonObject(members), g)
    decreases |members|
  {
    if members != [] {
      var init, last := members[..|members| - 1], members[|members| - 1];
      SelectedSends(init);
      SelectedLast(members);
      assert "system"[0] != "grants"[0];
      SendsLast(members);
      if last.key == "grants" {
        forall g ensures g in Texts(last.value.items) <==> JsonString(g) in last.value.items {
          TextsHold(last.value.items, g);
        }
      } else {
        assert forall i :: 0 <= i < |init| ==> init[i] == members[i] && init[i].key != last.key;
      }
    }
  }

  lemma SelectedLast(members: seq<Member>)
    requires members != [] && forall i :: 0 <= i < |members| ==> AcceptableMember(members[i])
    ensures var before, last := Selected(members[..|members| - 1]), members[|members| - 1];
            && (last.key == "system" ==> Selected(members) == Elevation(last.value.truth, before.grants))
            && (last.key == "grants" ==>
                  Selected(members) == Elevation(before.system, before.grants + Texts(last.value.items)))
  {
    assert "system"[0] != "grants"[0];
  }

  lemma SendsLast(members: seq<Member>)
    requires members != []
    ensures var init, last := members[..|members| - 1], members[|members| - 1];
            && (SendsSystem(JsonObject(members)) <==>
                  SendsSystem(JsonObject(init)) || last == Member("system", JsonBool(true)))
            && (forall g :: SendsGrant(JsonObject(members), g) <==>
                  || SendsGrant(JsonObject(init), g)
                  || (last.key == "grants" && last.value.JsonArray? && JsonString(g) in last.value.items))
  {
    var init := members[..|members| - 1];
    assert members == init + [members[|members| - 1]];
    forall g ensures SendsGrant(JsonObject(init), g) ==> SendsGrant(JsonObject(members), g) {
      if SendsGrant(JsonObject(init), g) {
        var i :| 0 <= i < |init| && init[i].key == "grants" && init[i].value.JsonArray?
                 && JsonString(g) in init[i].value.items;
        assert members[i] == init[i];
      }
    }
    if SendsSystem(JsonObject(init)) {
      var i :| 0 <= i < |init| && init[i] == Member("system", JsonBool(true));
      assert members[i] == init[i];
    }
  }

  lemma TextsHold(items: seq<Json>, g: Bytes)
    requires AllStrings(items)
    ensures g in Texts(items) <==> JsonString(g) in items
  {
    if g in Texts(items) {
      var i :| 0 <= i < |items| && Texts(items)[i] == g;
      assert items[i] == JsonString(g);
    }
    if JsonString(g) in items {
      var i :| 0 <= i < |items| && items[i] == JsonString(g);
      assert Texts(items)[i] == g;
    }
  }

  /** Reads the members one after the other, refusing the first that is repeated, null, mistyped or unknown. */
  method UnmarshalJSON(v: Json) returns (r: Option<Elevation>)
    ensures r.Some? <==> StrictDocument(v)
    ensures r.Some? ==> r.value == Normalize(Selected(v.members))
    ensures r.Some? ==> (r.value.system <==> SendsSystem(v))
    ensures r.Some? ==> Strict(r.value.grants) && forall g :: g in r.value.grants <==> SendsGrant(v, g)
  {
    if !v.JsonObject? { return None; }
    var seen: set<Bytes> := {};
    var result := Elevation(false, []);
    var members := v.members;
    for i := 0 to |members|
      invariant forall k :: k in seen <==> exists j :: 0 <= j < i && members[j].key == k
      invariant NoRepeatedKeys(members[..i]) && forall j :: 0 <= j < i ==> AcceptableMember(members[j])
      invariant result == Selected(members[..i])
    {
      var key, value := members[i].key, members[i].value;
      if key in seen {
        var j :| 0 <= j < i && members[j].key == key;
        return None;
      }
      seen := seen + {key};
      if value.JsonNull? { return None; }
      if key == "system" {
        if !value.JsonBool? { return None; }
        result := result.(system := value.truth);
      } else if key == "grants" {
        if !value.JsonArray? { return None; }
        var grants := ReadGrants(value.items);
        if grants == None { return None; }
        result := result.(grants := result.grants + grants.value);
      } else {
        return None;
      }
      assert members[..i + 1][..i] == members[..i];
    }
    assert members[..|members|] == members;
    r := Some(Normalize(result));
    NormalizedSends(members);
  }

  lemma {:induction false} NormalizedSends(members: seq<Member>)
    requires StrictDocument(JsonObject(members))
    ensures var e := Normalize(Selected(members));
            && Strict(e.grants) && (e.system <==> SendsSystem(JsonObject(members)))
            && forall g :: g in e.grants <==> SendsGrant(JsonObject(members), g)
  {
    hide SendsSystem, SendsGrant, Selected, Normalize, Strict;
    SelectedSends(members);
    var e := Selected(members);
    NormalizeIsCanonical(e);
    forall g ensures g in Normalize(e).grants <==> g in e.grants {
      assert g in GrantSet(Normalize(e).grants) <==> g in GrantSet(e.grants);
    }
  }

  method ReadGrants(items: seq<Json>) returns (r: Option<seq<Bytes>>)
    ensures r.Some? <==> AllStrings(items)
    ensures r.Some? ==> r.value == Texts(items)
  {
    var grants: seq<Bytes> := [];
    for i := 0 to |items|
      invariant AllStrings(items[..i]) && grants == Texts(items[..i])
    {
      if !items[i].JsonString? { return None; }
      grants := grants + [items[i].text];
    }
    assert items[..|items|] == items;
    r := Some(grants);
  }

  function Decode(text: JsonText, header: Bytes): Option<Elevation> {
    match ReadHeader(header)
    case None => None
    case Some(b) =>
      var v := text.read(b);
      if v.Some? && Utf8Valid(b) && StrictDocument(v.value) then Some(Normalize(Selected(v.value.members))) else None
  }

  // ---- What is accepted ----

  /** A document with these members, if any, in either order. */
  function Document(system: Option<bool>, grants: Option<seq<Bytes>>, systemFirst: bool): Json {
    var s := if system.Some? then [Member("system", JsonBool(system.value))] else [];
    var g := if grants.Some? then [Member("grants", JsonArray(GrantItems(grants.value)))] else [];
    JsonObject(if systemFirst then s + g else g + s)
  }

  /** The accepted documents are exactly these: each member at most once, in either order, and nothing else. */
  lemma {:induction false} StrictDocumentIff(v: Json)
    ensures StrictDocument(v) <==> exists system, grants, systemFirst :: v == Document(system, grants, systemFirst)
  {
    assert "system"[0] != "grants"[0];
    if StrictDocument(v) {
      var system, grants, systemFirst := SomeDocument(v);
    }
    forall system: Option<bool>, grants, systemFirst | v == Document(system, grants, systemFirst)
      ensures StrictDocument(v)
    {
      if grants.Some? { assert AllStrings(GrantItems(grants.value)); }
    }
  }

  lemma {:induction false} SomeDocument(v: Json)
      returns (system: Option<bool>, grants: Option<seq<Bytes>>, systemFirst: bool)
    requires StrictDocument(v)
    ensures v == Document(system, grants, systemFirst)
  {
    assert "system"[0] != "grants"[0];
    AtMostTwo(v.members);
    system, grants, systemFirst := None, None, true;
    if |v.members| > 0 {
      var m := v.members[0];
      assert AcceptableMember(m);
      if m.key == "system" { system := Some(m.value.truth); } else { grants := Some(Texts(m.value.items)); }
      if m.key == "grants" { ItemsOfTexts(m.value.items); }
      systemFirst := m.key == "system";
    }
    if |v.members| > 1 {
      var m := v.members[1];
      assert AcceptableMember(m) && m.key != v.members[0].key;
      if m.key == "system" { system := Some(m.value.truth); } else { grants := Some(Texts(m.value.items)); }
      if m.key == "grants" { ItemsOfTexts(m.value.items); }
      assert v.members == [v.members[0], v.members[1]];
    } else if |v.members| == 1 {
      assert v.members == [v.members[0]];
    }
  }

  lemma KeyOfAcceptable(m: Member)
    ensures AcceptableMember(m) ==> m.key in ["system", "grants"]
  {
  }

  function KeyAt(members: seq<Member>, i: nat): Bytes { if i < |members| then members[i].key else "" }

  lemma ThreeOfTwo(a: Bytes, b: Bytes, c: Bytes)
    ensures a in ["system", "grants"] && b in ["system", "grants"] && c in ["system", "grants"] ==>
              a == b || b == c || a == c
  {
  }

  lemma AtMostTwo(members: seq<Member>)
    requires NoRepeatedKeys(members) && forall i :: 0 <= i < |members| ==> AcceptableMember(members[i])
    ensures |members| <= 2
  {
    hide AcceptableMember;
    forall i | 0 <= i < |members| ensures members[i].key in ["system", "grants"] { KeyOfAcceptable(members[i]); }
    ThreeOfTwo(KeyAt(members, 0), KeyAt(members, 1), KeyAt(members, 2));
  }

  lemma ItemsOfTexts(items: seq<Json>)
    requires AllStrings(items)
    ensures GrantItems(Texts(items)) == items
  {
  }

  /** A selection is written with the system role only when it has it, and the grants only when there are any. */
  lemma {:induction false} MarshalSends(e: Elevation)
    ensures exists system, grants ::
              && Marshal(e) == Document(system, grants, true)
              && system == (if e.system then Some(true) else None)
              && grants == (if e.grants == [] then None else Some(e.grants))
  {
    var system := if e.system then Some(true) else None;
    var grants := if e.grants == [] then None else Some(e.grants);
    assert Marshal(e) == Document(system, grants, true);
  }

  /** What a header selects: exactly what the document it carries sends, with the grants in strict order. */
  lemma {:induction false} DecodedSends(text: JsonText, header: Bytes, e: Elevation)
    ensures Decode(text, header) == Some(e) <==>
            exists b, v ::
              && ReadHeader(header) == Some(b) && Utf8Valid(b) && text.read(b) == Some(v) && StrictDocument(v)
              && Strict(e.grants) && (e.system <==> SendsSystem(v))
              && forall g :: g in e.grants <==> SendsGrant(v, g)
  {
    hide SendsSystem, SendsGrant, Selected, Normalize, Strict, StrictDocument, ReadHeader, Utf8Valid;
    if Decode(text, header).Some? {
      var v := text.read(ReadHeader(header).value).value;
      StrictIsObject(v);
      NormalizedSends(v.members);
    }
    forall b, v |
      && ReadHeader(header) == Some(b) && Utf8Valid(b) && text.read(b) == Some(v) && StrictDocument(v)
      && Strict(e.grants) && (e.system <==> SendsSystem(v))
      && forall g :: g in e.grants <==> SendsGrant(v, g)
      ensures Decode(text, header) == Some(e)
    {
      StrictIsObject(v);
      NormalizedSends(v.members);
      var d := Decode(text, header).value;
      assert GrantSet(d.grants) == GrantSet(e.grants);
      StrictUnique(d.grants, e.grants);
    }
  }

  lemma StrictIsObject(v: Json)
    ensures StrictDocument(v) ==> v.JsonObject? && JsonObject(v.members) == v
  {
  }

  // ---- Round trip and canonical form ----

  predicate TextualGrants(e: Elevation) { forall i :: 0 <= i < |e.grants| ==> Utf8Valid(e.grants[i]) }

  lemma {:induction false} MarshalReadsBack(e: Elevation)
    ensures StrictDocument(Marshal(e)) && Selected(Marshal(e).members) == e
  {
    var items := GrantItems(e.grants);
    assert AllStrings(items) && Texts(items) == e.grants;
    var members := Marshal(e).members;
    var system, grants := Member("system", JsonBool(true)), Member("grants", JsonArray(items));
    if e.system && e.grants != [] {
      assert members == [system, grants];
      assert members[..1] == [system] && [system][..0] == members[..0];
      assert Selected([system]) == Elevation(true, []);
      assert [] + e.grants == e.grants;
    } else if e.system {
      assert members == [system] && members[..0] == [];
    } else if e.grants != [] {
      assert members == [grants] && members[..0] == [];
      assert [] + e.grants == e.grants;
    }
  }

  lemma {:induction false} MarshalTextual(e: Elevation)
    requires TextualGrants(e)
    ensures Textual(Marshal(e))
  {
    hide Utf8Valid;
    AsciiValid("system");
    AsciiValid("grants");
    assert Textual(JsonArray(GrantItems(e.grants)));
  }

  lemma {:induction false} AsciiValid(s: Bytes)
    requires forall i :: 0 <= i < |s| ==> s[i] as int < 0x80
    ensures Utf8Valid(s)
    decreases |s|
  {
    if s != "" { AsciiValid(s[1..]); }
  }

  lemma {:induction false} NormalizeTextual(e: Elevation)
    requires TextualGrants(e)
    ensures TextualGrants(Normalize(e))
  {
    NormalizeIsCanonical(e);
    forall i | 0 <= i < |Normalize(e).grants| ensures Utf8Valid(Normalize(e).grants[i]) {
      assert Normalize(e).grants[i] in GrantSet(e.grants);
    }
  }

  lemma NormalizeTwice(e: Elevation)
    ensures Normalize(Normalize(e)) == Normalize(e)
  {
    NormalizeIsCanonical(e);
    NormalizeIff(Normalize(e), e);
  }

  /** A header carries a selection through, normalized. */
  lemma {:induction false} DecodeOfEncode(text: JsonText, e: Elevation)
    requires Faithful(text) && TextualGrants(e)
    ensures IsBytes(text.write(Marshal(Normalize(e)))) && Decode(text, Encode(text, e)) == Some(Normalize(e))
  {
    hide Normalize, Marshal, StrictDocument, Utf8Valid, EncodeToString, ReadHeader, Textual;
    var n := Normalize(e);
    NormalizeTextual(e);
    MarshalTextual(n);
    MarshalReadsBack(n);
    NormalizeTwice(e);
    ReadHeaderIff(EncodeToString(text.write(Marshal(n))), text.write(Marshal(n)));
  }

  /** Two selections have the same header exactly when they select the same. */
  lemma {:induction false} SameHeaderIff(text: JsonText, a: Elevation, b: Elevation)
    requires Faithful(text) && TextualGrants(a) && TextualGrants(b)
    requires IsBytes(text.write(Marshal(Normalize(a)))) && IsBytes(text.write(Marshal(Normalize(b))))
    ensures Encode(text, a) == Encode(text, b) <==> a.system == b.system && GrantSet(a.grants) == GrantSet(b.grants)
  {
    hide Normalize, Marshal, Decode, EncodeToString;
    DecodeOfEncode(text, a);
    DecodeOfEncode(text, b);
    NormalizeIff(a, b);
  }

  /** Whatever is decoded is normalized, and its header is the one unpadded encoding of the bytes it carries. */
  lemma {:induction false} DecodedIsCanonical(text: JsonText, header: Bytes)
    requires Decode(text, header).Some?
    ensures Normalize(Decode(text, header).value) == Decode(text, header).value
    ensures exists b :: IsBytes(b) && header == EncodeToString(b)
  {
    hide Normalize, EncodeToString;
    var b := ReadHeader(header).value;
    ReadHeaderIff(header, b);
    NormalizeTwice(Selected(text.read(b).value.members));
  }
}
