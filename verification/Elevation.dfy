/**
 Selections of extra authority: their canonical form, the order they are compared by, how chains of derived
 contexts accumulate them, and how they travel in a header.
 */
module Elevations {
  import opened ByteText
  import opened ByteOrder

  datatype Elevation = Elevation(system: bool, grants: seq<Bytes>)

  function GrantSet(grants: seq<Bytes>): set<Bytes> { set g | g in grants }

  lemma GrantSetAppend(a: seq<Bytes>, b: seq<Bytes>)
    ensures GrantSet(a + b) == GrantSet(a) + GrantSet(b)
  {
  }

  lemma GrantSetEmpty(a: seq<Bytes>)
    ensures GrantSet(a) == {} <==> a == []
  {
    if a != [] { assert a[0] in GrantSet(a); }
  }

  // ---- Sorting and compacting ----

  /** Sorted, with repetitions. */
  predicate Ascending(s: seq<Bytes>) { forall i :: 0 < i < |s| ==> NotAfter(s[i - 1], s[i]) }

  /** Sorted, without repetitions. */
  predicate Strict(s: seq<Bytes>) { forall i :: 0 < i < |s| ==> Less(s[i - 1], s[i]) }

  function Insert(x: Bytes, s: seq<Bytes>): (r: seq<Bytes>)
    ensures multiset(r) == multiset(s) + multiset{x}
  {
    if s == [] then [x]
    else if NotAfter(x, s[0]) then [x] + s
    else
      assert s == [s[0]] + s[1..];
      [s[0]] + Insert(x, s[1..])
  }

  function Sort(s: seq<Bytes>): (r: seq<Bytes>)
    ensures multiset(r) == multiset(s)
  {
    if s == [] then []
    else
      assert s == [s[0]] + s[1..];
      Insert(s[0], Sort(s[1..]))
  }

  /** Each run of equal neighbours replaced by one of them. */
  function Compact(s: seq<Bytes>): seq<Bytes> {
    if |s| < 2 then s
    else if s[0] == s[1] then Compact(s[1..])
    else [s[0]] + Compact(s[1..])
  }

  lemma AscendingFrom(x: Bytes, s: seq<Bytes>)
    requires Ascending(s) && (s != [] ==> NotAfter(x, s[0]))
    ensures Ascending([x] + s)
  {
    hide NotAfter;
  }

  lemma AfterOrNot(x: Bytes, y: Bytes)
    ensures NotAfter(x, y) || NotAfter(y, x)
  {
    hide Less;
    LessTotal(x, y);
  }

  lemma {:induction false} InsertAscending(x: Bytes, s: seq<Bytes>)
    requires Ascending(s)
    ensures Insert(x, s) != [] && Insert(x, s)[0] in [x] + s && Ascending(Insert(x, s))
  {
    hide NotAfter, Ascending;
    if s == [] || NotAfter(x, s[0]) {
      assert Insert(x, s) == [x] + s;
      AscendingFrom(x, s);
    } else {
      AfterOrNot(x, s[0]);
      AscendingTail(s);
      InsertAscending(x, s[1..]);
      var tail := Insert(x, s[1..]);
      assert tail[0] == x || tail[0] in s;
      if tail[0] != x { AscendingHead(s, tail[0]); }
      AscendingFrom(s[0], tail);
    }
  }

  lemma AscendingTail(s: seq<Bytes>)
    requires s != [] && Ascending(s)
    ensures Ascending(s[1..])
  {
    hide NotAfter;
  }

  lemma {:induction false} AscendingHead(s: seq<Bytes>, x: Bytes)
    requires Ascending(s) && x in s
    ensures NotAfter(s[0], x)
  {
    if x != s[0] {
      assert s == [s[0]] + s[1..];
      AscendingHead(s[1..], x);
      NotAfterTransitive(s[0], s[1], x);
    }
  }

  lemma {:induction false} SortAscending(s: seq<Bytes>)
    ensures Ascending(Sort(s))
  {
    if s != [] {
      SortAscending(s[1..]);
      InsertAscending(s[0], Sort(s[1..]));
    }
  }

  lemma {:induction false} CompactStrict(s: seq<Bytes>)
    requires Ascending(s)
    ensures Strict(Compact(s)) && GrantSet(Compact(s)) == GrantSet(s)
    ensures s != [] ==> Compact(s) != [] && Compact(s)[0] == s[0]
  {
    if |s| >= 2 {
      CompactStrict(s[1..]);
      assert s == [s[0]] + s[1..];
      GrantSetAppend([s[0]], s[1..]);
      GrantSetAppend([s[0]], Compact(s[1..]));
      assert s[0] == s[1] ==> GrantSet([s[0]]) <= GrantSet(s[1..]);
      assert NotAfter(s[0], s[1]);
    }
  }

  function Normalize(e: Elevation): Elevation { e.(grants := Compact(Sort(e.grants))) }

  /** Normalizing sorts the grants and drops repetitions, and changes nothing else. */
  lemma {:induction false} NormalizeIsCanonical(e: Elevation)
    ensures var n := Normalize(e);
            Strict(n.grants) && GrantSet(n.grants) == GrantSet(e.grants) && n.system == e.system
  {
    SortAscending(e.grants);
    CompactStrict(Sort(e.grants));
    assert forall g :: g in Sort(e.grants) <==> g in multiset(Sort(e.grants));
    assert forall g :: g in e.grants <==> g in multiset(e.grants);
  }

  lemma {:induction false} StrictHead(s: seq<Bytes>, x: Bytes)
    requires Strict(s) && x in s && x != s[0]
    ensures Less(s[0], x)
  {
    assert s == [s[0]] + s[1..];
    if x != s[1] {
      StrictHead(s[1..], x);
      LessTransitive(s[0], s[1], x);
    }
  }

  /** A set of grants has one strictly ascending list. */
  lemma {:induction false} StrictUnique(a: seq<Bytes>, b: seq<Bytes>)
    requires Strict(a) && Strict(b) && GrantSet(a) == GrantSet(b)
    ensures a == b
    decreases |a|
  {
    GrantSetEmpty(a);
    GrantSetEmpty(b);
    if a != [] {
      StrictHeadsEqual(a, b);
      StrictTails(a, b);
      StrictUnique(a[1..], b[1..]);
      assert a == [a[0]] + a[1..] && b == [b[0]] + b[1..];
    }
  }

  lemma {:induction false} StrictHeadsEqual(a: seq<Bytes>, b: seq<Bytes>)
    requires Strict(a) && Strict(b) && GrantSet(a) == GrantSet(b) && a != [] && b != []
    ensures a[0] == b[0]
  {
    assert a[0] in GrantSet(b) && b[0] in GrantSet(a);
    if a[0] != b[0] {
      StrictHead(a, b[0]);
      StrictHead(b, a[0]);
      LessTransitive(a[0], b[0], a[0]);
      LessIrreflexive(a[0]);
    }
  }

  lemma {:induction false} StrictTails(a: seq<Bytes>, b: seq<Bytes>)
    requires Strict(a) && Strict(b) && GrantSet(a) == GrantSet(b) && a != [] && b != [] && a[0] == b[0]
    ensures Strict(a[1..]) && Strict(b[1..]) && GrantSet(a[1..]) == GrantSet(b[1..])
  {
    TailWithoutHead(a);
    TailWithoutHead(b);
  }

  lemma {:induction false} TailWithoutHead(a: seq<Bytes>)
    requires Strict(a) && a != []
    ensures Strict(a[1..]) && GrantSet(a[1..]) == GrantSet(a) - {a[0]}
  {
    assert a == [a[0]] + a[1..];
    forall g | g in a[1..] ensures g != a[0] {
      if g == a[0] {
        if g != a[1] { StrictHead(a[1..], g); LessTransitive(a[0], a[1], g); }
        LessIrreflexive(g);
      }
    }
  }

  /** Two selections normalize alike exactly when they select the same. */
  lemma {:induction false} NormalizeIff(a: Elevation, b: Elevation)
    ensures Normalize(a) == Normalize(b) <==> a.system == b.system && GrantSet(a.grants) == GrantSet(b.grants)
  {
    NormalizeIsCanonical(a);
    NormalizeIsCanonical(b);
    if GrantSet(a.grants) == GrantSet(b.grants) { StrictUnique(Normalize(a).grants, Normalize(b).grants); }
  }

  // ---- The order of selections ----

  method Contains(e: Elevation, parent: Elevation) returns (r: bool)
    ensures r == Covers(e, parent)
  {
    if parent.system && !e.system { return false; }
    for i := 0 to |parent.grants|
      invariant forall j :: 0 <= j < i ==> parent.grants[j] in e.grants
    {
      if parent.grants[i] !in e.grants {
        assert parent.grants[i] in GrantSet(parent.grants);
        return false;
      }
    }
    r := true;
  }

  /** Everything the parent selects, `e` selects. */
  predicate Covers(e: Elevation, parent: Elevation) {
    (parent.system ==> e.system) && GrantSet(parent.grants) <= GrantSet(e.grants)
  }

  function WithSystem(e: Elevation): Elevation { Normalize(e).(system := true) }

  function WithGrants(e: Elevation, grants: seq<Bytes>): Elevation {
    Normalize(e.(grants := e.grants + grants))
  }

  lemma {:induction false} CoversIsPartialOrder(a: Elevation, b: Elevation, c: Elevation)
    ensures Covers(a, a)
    ensures Covers(a, b) && Covers(b, c) ==> Covers(a, c)
    ensures Covers(a, b) && Covers(b, a) ==> Normalize(a) == Normalize(b)
  {
    NormalizeIff(a, b);
  }

  /** Adding grants or the system role gives the least selection that covers both what was there and what was asked. */
  lemma {:induction false} DerivingIsLeastUpperBound(e: Elevation, grants: seq<Bytes>, upper: Elevation)
    ensures var w := WithGrants(e, grants);
            Covers(w, e) && Covers(w, Elevation(false, grants))
            && (Covers(upper, e) && Covers(upper, Elevation(false, grants)) ==> Covers(upper, w))
    ensures var s := WithSystem(e);
            Covers(s, e) && s.system && (Covers(upper, e) && upper.system ==> Covers(upper, s))
  {
    NormalizeIsCanonical(e.(grants := e.grants + grants));
    NormalizeIsCanonical(e);
    assert GrantSet(e.grants + grants) == GrantSet(e.grants) + GrantSet(grants);
  }

  // ---- Clients and handler contexts derived from one another ----

  datatype Choice = ChooseSystem | ChooseGrants(grants: seq<Bytes>)

  datatype Client = Client(elevation: Elevation, selected: bool, selectionErr: bool)

  datatype Claims = Claims(permissions: seq<Bytes>)

  /** What of a handler's context depends on its selection. */
  datatype Context = Context(platform: Client, claims: Option<Claims>, permissions: seq<Bytes>, isSystem: bool)

  /** A derived client; none when the inherited selection could not be read and grants are asked for. */
  function DeriveClient(c: Client, choice: Choice): Option<Client> {
    match choice
    case ChooseSystem => Some(c.(elevation := WithSystem(c.elevation), selected := true))
    case ChooseGrants(grants) =>
      if c.selectionErr then None else Some(c.(elevation := WithGrants(c.elevation, grants), selected := true))
  }

  function Project(ctx: Context): Context {
    match ctx.claims
    case None => ctx
    case Some(claims) =>
      var e := Normalize(ctx.platform.elevation);
      var all := claims.permissions + e.grants + if e.system then ["*"] else [];
      ctx.(permissions := Normalize(Elevation(false, all)).grants, isSystem := e.system)
  }

  function Derive(ctx: Context, choice: Choice): Option<Context> {
    match DeriveClient(ctx.platform, choice)
    case None => None
    case Some(client) => Some(Project(ctx.(platform := client)))
  }

  function DeriveAll(ctx: Context, choices: seq<Choice>): Option<Context>
    decreases |choices|
  {
    if choices == [] then Some(ctx)
    else
      match Derive(ctx, choices[0])
      case None => None
      case Some(next) => DeriveAll(next, choices[1..])
  }

  function ChosenGrants(choices: seq<Choice>): set<Bytes> {
    if choices == [] then {}
    else (if choices[0].ChooseGrants? then GrantSet(choices[0].grants) else {}) + ChosenGrants(choices[1..])
  }

  predicate AnySystem(choices: seq<Choice>) { exists i :: 0 <= i < |choices| && choices[i].ChooseSystem? }

  predicate AnyGrants(choices: seq<Choice>) { exists i :: 0 <= i < |choices| && choices[i].ChooseGrants? }

  lemma {:induction false} ProjectedPermissions(ctx: Context)
    requires ctx.claims.Some?
    ensures var p, e := Project(ctx), ctx.platform.elevation;
            && Strict(p.permissions) && p.isSystem == e.system
            && GrantSet(p.permissions)
               == GrantSet(ctx.claims.value.permissions) + GrantSet(e.grants) + (if e.system then {"*"} else {})
  {
    hide Normalize, Strict;
    var own, e := ctx.claims.value.permissions, Normalize(ctx.platform.elevation);
    NormalizeIsCanonical(ctx.platform.elevation);
    var star: seq<Bytes> := if e.system then ["*"] else [];
    NormalizeIsCanonical(Elevation(false, own + e.grants + star));
    GrantSetAppend(own + e.grants, star);
    GrantSetAppend(own, e.grants);
  }

  lemma {:induction false} DeriveStep(ctx: Context, choice: Choice)
    requires Derive(ctx, choice).Some?
    ensures var d, e := Derive(ctx, choice).value, ctx.platform.elevation;
            && Strict(d.platform.elevation.grants) && d.claims == ctx.claims && d.platform.selected
            && d.platform.selectionErr == ctx.platform.selectionErr
            && d.platform.elevation.system == (e.system || choice.ChooseSystem?)
            && GrantSet(d.platform.elevation.grants)
               == GrantSet(e.grants) + (if choice.ChooseGrants? then GrantSet(choice.grants) else {})
            && (d.claims.Some? ==> Project(d) == d)
            && (d.claims == None ==> d.permissions == ctx.permissions && d.isSystem == ctx.isSystem)
  {
    var e := ctx.platform.elevation;
    NormalizeIsCanonical(e);
    if choice.ChooseGrants? {
      NormalizeIsCanonical(e.(grants := e.grants + choice.grants));
      assert GrantSet(e.grants + choice.grants) == GrantSet(e.grants) + GrantSet(choice.grants);
    }
  }

  /**
   What a chain of derivations ends with: the inherited selection joined with everything chosen. It fails
   exactly when grants are asked of a selection that could not be read.
   */
  lemma {:induction false} ChainSelects(ctx: Context, choices: seq<Choice>)
    ensures DeriveAll(ctx, choices) == None <==> ctx.platform.selectionErr && AnyGrants(choices)
    ensures DeriveAll(ctx, choices).Some? ==>
              var d, e := DeriveAll(ctx, choices).value, ctx.platform.elevation;
              && d.claims == ctx.claims && d.platform.selectionErr == ctx.platform.selectionErr
              && d.platform.elevation.system == (e.system || AnySystem(choices))
              && GrantSet(d.platform.elevation.grants) == GrantSet(e.grants) + ChosenGrants(choices)
              && (ctx.claims == None ==> d.permissions == ctx.permissions && d.isSystem == ctx.isSystem)
              && (choices != [] ==> d.platform.selected && Strict(d.platform.elevation.grants)
                                    && (d.claims.Some? ==> Project(d) == d))
    decreases |choices|
  {
    hide Project, Normalize, Strict, GrantSet;
    if choices != [] {
      var next := Derive(ctx, choices[0]);
      AnyChoice(choices);
      if next.Some? {
        DeriveStep(ctx, choices[0]);
        ChainSelects(next.value, choices[1..]);
      }
    }
  }

  lemma AnyChoice(choices: seq<Choice>)
    requires choices != []
    ensures AnySystem(choices) <==> choices[0].ChooseSystem? || AnySystem(choices[1..])
    ensures AnyGrants(choices) <==> choices[0].ChooseGrants? || AnyGrants(choices[1..])
  {
    if AnySystem(choices[1..]) {
      var i :| 0 <= i < |choices[1..]| && choices[1..][i].ChooseSystem?;
      assert choices[i + 1].ChooseSystem?;
    }
    if AnyGrants(choices[1..]) {
      var i :| 0 <= i < |choices[1..]| && choices[1..][i].ChooseGrants?;
      assert choices[i + 1].ChooseGrants?;
    }
  }

  /** The order and the grouping of choices do not matter: the same set of choices gives the same context. */
  lemma {:induction false} ChainDependsOnSetOnly(ctx: Context, a: seq<Choice>, b: seq<Choice>)
    requires a != [] && b != []
    requires ChosenGrants(a) == ChosenGrants(b) && AnySystem(a) == AnySystem(b)
    requires DeriveAll(ctx, a).Some? && DeriveAll(ctx, b).Some?
    ensures DeriveAll(ctx, a).value.platform == DeriveAll(ctx, b).value.platform
    ensures ctx.claims.Some? ==>
              DeriveAll(ctx, a).value.permissions == DeriveAll(ctx, b).value.permissions
              && DeriveAll(ctx, a).value.isSystem == DeriveAll(ctx, b).value.isSystem
  {
    hide DeriveAll, Normalize, Strict, GrantSet;
    ChainSelects(ctx, a);
    ChainSelects(ctx, b);
    var x, y := DeriveAll(ctx, a).value, DeriveAll(ctx, b).value;
    StrictUnique(x.platform.elevation.grants, y.platform.elevation.grants);
  }

  /** A derived context covers its ancestor's selection and has every permission of a projected ancestor. */
  lemma {:induction false} ChainKeepsAuthority(ctx: Context, choices: seq<Choice>)
    requires ctx.claims.Some? && Project(ctx) == ctx && DeriveAll(ctx, choices).Some?
    ensures var d := DeriveAll(ctx, choices).value;
            Covers(d.platform.elevation, ctx.platform.elevation)
            && GrantSet(ctx.permissions) <= GrantSet(d.permissions) && (ctx.isSystem ==> d.isSystem)
  {
    hide DeriveAll, Normalize, Strict, GrantSet, Project;
    ChainSelects(ctx, choices);
    ProjectedPermissions(ctx);
    if choices == [] {
      NoChoices(ctx);
    } else {
      ProjectedPermissions(DeriveAll(ctx, choices).value);
    }
  }

  lemma NoChoices(ctx: Context)
    ensures DeriveAll(ctx, []) == Some(ctx)
  {
  }
}
