/**
 The structural budget of a JSON document: what a document costs (a recursive measure of its value),
 and the token machine that charges for it without building the value.
 */
module JsonBudget {
  import opened ByteText

  // ---- Values, tokens and their cost ----

  datatype Json =
    | JsonNull
    | JsonBool(truth: bool)
    | JsonNumber(literal: Bytes)
    | JsonString(text: Bytes)
    | JsonArray(items: seq<Json>)
    | JsonObject(members: seq<Member>)

  datatype Member = Member(key: Bytes, value: Json)

  datatype Kind = ArrayKind | ObjectKind

  datatype Token =
    | Open(kind: Kind)
    | Close(kind: Kind)
    | StringToken(text: Bytes)
    | NumberToken(literal: Bytes)
    | BoolToken(truth: bool)
    | NullToken

  /** How the decoder stops once its tokens run out. */
  datatype Ending = EndOfInput | SyntaxError

  function Tokens(v: Json): seq<Token>
    decreases v, 0
  {
    match v
    case JsonArray(items) => [Open(ArrayKind)] + ItemTokens(items) + [Close(ArrayKind)]
    case JsonObject(members) => [Open(ObjectKind)] + MemberTokens(members) + [Close(ObjectKind)]
    case _ => [ScalarToken(v)]
  }

  function ScalarToken(v: Json): Token
    requires !v.JsonArray? && !v.JsonObject?
  {
    match v
    case JsonNull => NullToken
    case JsonBool(b) => BoolToken(b)
    case JsonNumber(n) => NumberToken(n)
    case JsonString(s) => StringToken(s)
  }

  function ItemTokens(items: seq<Json>): seq<Token>
    decreases items, 1
  {
    if items == [] then [] else Tokens(items[0]) + ItemTokens(items[1..])
  }

  function MemberTokens(members: seq<Member>): seq<Token>
    decreases members, 1
  {
    if members == [] then []
    else [StringToken(members[0].key)] + Tokens(members[0].value) + MemberTokens(members[1..])
  }

  /** Sizes of the runtime's representations, all of them multiples of the machine word. */
  datatype Sizes = Sizes(word: nat) {
    function Interface(): nat { 2 * word }
    function MapHeader(): nat { word }
    function SliceHeader(): nat { 3 * word }
    function StringHeader(): nat { 2 * word }
    function Entry(key: Bytes): nat { StringHeader() + Interface() + word + |key| }

    function Scalar(t: Token): nat {
      Interface() + match t
      case StringToken(s) => StringHeader() + |s|
      case NumberToken(_) => 8
      case BoolToken(_) => 1
      case _ => 0
    }

    function Header(kind: Kind): nat { if kind == ObjectKind then MapHeader() else SliceHeader() }
  }

  /** Where a value stands. */
  datatype Place = AtRoot | AsItem | AsMember

  function Cost(z: Sizes, v: Json, place: Place): nat
    decreases v, 0
  {
    match v
    case JsonArray(items) =>
      (if place == AtRoot then 0 else z.Interface()) + z.Header(ArrayKind) + ItemsCost(z, items)
    case JsonObject(members) =>
      (if place == AtRoot then 0 else z.Interface()) + z.Header(ObjectKind) + MembersCost(z, members)
    case _ => (if place == AsItem then 2 * z.Interface() else 0) + z.Scalar(ScalarToken(v))
  }

  function ItemsCost(z: Sizes, items: seq<Json>): nat
    decreases items, 1
  {
    if items == [] then 0 else Cost(z, items[0], AsItem) + ItemsCost(z, items[1..])
  }

  function MembersCost(z: Sizes, members: seq<Member>): nat
    decreases members, 1
  {
    if members == [] then 0
    else z.Entry(members[0].key) + Cost(z, members[0].value, AsMember) + MembersCost(z, members[1..])
  }

  /** What each kind of scalar costs, in bytes, with a machine word of `w` bytes; an array adds four words to it. */
  lemma ScalarCosts(w: nat, literal: Bytes, text: Bytes, truth: bool)
    ensures var z := Sizes(w);
            && Cost(z, JsonNull, AtRoot) == 2 * w && Cost(z, JsonBool(truth), AtRoot) == 2 * w + 1
            && Cost(z, JsonNumber(literal), AtRoot) == 2 * w + 8
            && Cost(z, JsonString(text), AtRoot) == 4 * w + |text|
            && Cost(z, JsonNull, AsMember) == 2 * w && Cost(z, JsonBool(truth), AsMember) == 2 * w + 1
            && Cost(z, JsonNumber(literal), AsMember) == 2 * w + 8
            && Cost(z, JsonString(text), AsMember) == 4 * w + |text|
            && Cost(z, JsonNull, AsItem) == 6 * w && Cost(z, JsonBool(truth), AsItem) == 6 * w + 1
            && Cost(z, JsonNumber(literal), AsItem) == 6 * w + 8
            && Cost(z, JsonString(text), AsItem) == 8 * w + |text|
  {
  }

  /** What containers cost besides what they hold: a header, and two words more inside another container. */
  lemma ContainerCosts(w: nat, items: seq<Json>, members: seq<Member>)
    ensures var z := Sizes(w);
            && Cost(z, JsonArray(items), AtRoot) == 3 * w + ItemsCost(z, items)
            && Cost(z, JsonArray(items), AsItem) == Cost(z, JsonArray(items), AsMember) == 5 * w + ItemsCost(z, items)
            && Cost(z, JsonObject(members), AtRoot) == w + MembersCost(z, members)
            && Cost(z, JsonObject(members), AsItem) == Cost(z, JsonObject(members), AsMember)
               == 3 * w + MembersCost(z, members)
            && (items != [] ==> ItemsCost(z, items) == Cost(z, items[0], AsItem) + ItemsCost(z, items[1..]))
            && (members != [] ==>
                  MembersCost(z, members)
                    == 5 * w + |members[0].key| + Cost(z, members[0].value, AsMember) + MembersCost(z, members[1..]))
            && ItemsCost(z, []) == MembersCost(z, []) == 0
  {
  }

  // ---- The machine ----

  datatype Refusal = OverLimit | InvalidJson

  datatype Result<+T> = Ok(value: T) | Err(refusal: Refusal)

  datatype Frame = Frame(kind: Kind, expectKey: bool)

  datatype Machine = Machine(stack: seq<Frame>, used: int, rootStarted: bool, rootComplete: bool)

  const INITIAL := Machine([], 0, false, false)

  predicate WantsKey(stack: seq<Frame>) {
    stack != [] && stack[|stack| - 1] == Frame(ObjectKind, true)
  }

  /** A value has been taken: an object around it now wants a key. */
  function Consumed(stack: seq<Frame>): seq<Frame> {
    if stack != [] && stack[|stack| - 1].kind == ObjectKind
    then stack[|stack| - 1 := Frame(ObjectKind, true)]
    else stack
  }

  function Charge(m: Machine, size: nat, limit: int): Result<Machine> {
    if m.used + size > limit then Err(OverLimit) else Ok(m.(used := m.used + size))
  }

  function Step(z: Sizes, limit: int, m: Machine, t: Token): Result<Machine> {
    var top := |m.stack| - 1;
    if t.Open? then
      if m.stack == [] && m.rootStarted then Err(InvalidJson)
      else
        var size := (if m.stack == [] then 0 else z.Interface()) + z.Header(t.kind);
        var stack := Consumed(m.stack) + [Frame(t.kind, t.kind == ObjectKind)];
        Charge(m.(stack := stack, rootStarted := m.rootStarted || m.stack == []), size, limit)
    else if t.Close? then
      if m.stack == [] || m.stack[top].kind != t.kind || (t.kind == ObjectKind && !m.stack[top].expectKey)
      then Err(InvalidJson)
      else Ok(m.(stack := m.stack[..top], rootComplete := m.rootComplete || top == 0))
    else if WantsKey(m.stack) then
      if t.StringToken? then
        Charge(m.(stack := m.stack[top := Frame(ObjectKind, false)]), z.Entry(t.text), limit)
      else Err(InvalidJson)
    else if m.stack == [] then
      if m.rootStarted then Err(InvalidJson)
      else Charge(m.(rootStarted := true, rootComplete := true), z.Scalar(t), limit)
    else
      var size := (if m.stack[top].kind == ArrayKind then 2 * z.Interface() else 0) + z.Scalar(t);
      Charge(m.(stack := Consumed(m.stack)), size, limit)
  }

  function Run(z: Sizes, limit: int, m: Machine, tokens: seq<Token>): Result<Machine>
    decreases |tokens|
  {
    if tokens == [] then Ok(m)
    else
      match Step(z, limit, m, tokens[0])
      case Err(e) => Err(e)
      case Ok(next) => Run(z, limit, next, tokens[1..])
  }

  function Judge(m: Machine, ending: Ending): Result<int> {
    if ending == EndOfInput && m.rootStarted && m.rootComplete && m.stack == [] then Ok(m.used) else Err(InvalidJson)
  }

  function Measure(z: Sizes, limit: int, tokens: seq<Token>, ending: Ending): Result<int> {
    match Run(z, limit, INITIAL, tokens)
    case Err(e) => Err(e)
    case Ok(m) => Judge(m, ending)
  }

  // ---- The machine charges what the value costs ----

  predicate Stands(m: Machine, place: Place) {
    match place
    case AtRoot => m.stack == [] && !m.rootStarted
    case AsItem => m.stack != [] && m.stack[|m.stack| - 1].kind == ArrayKind
    case AsMember => m.stack != [] && m.stack[|m.stack| - 1] == Frame(ObjectKind, false)
  }

  /** The machine once a value of this cost stands complete. */
  function Took(m: Machine, cost: nat): Machine {
    Machine(Consumed(m.stack), m.used + cost, true, m.rootComplete || m.stack == [])
  }

  function RunOrLimit(z: Sizes, limit: int, m: Machine, tokens: seq<Token>): Result<Machine> {
    if m.used > limit then Err(OverLimit) else Run(z, limit, m, tokens)
  }

  function RunFrom(z: Sizes, limit: int, stepped: Result<Machine>, rest: seq<Token>): Result<Machine> {
    if stepped.Err? then stepped else Run(z, limit, stepped.value, rest)
  }

  lemma RunFirst(z: Sizes, limit: int, m: Machine, t: Token, rest: seq<Token>)
    ensures Run(z, limit, m, [t] + rest)
         == RunFrom(z, limit, Step(z, limit, m, t), rest)
  {
    assert ([t] + rest)[1..] == rest;
  }

  lemma {:induction false} RunOfValue(z: Sizes, limit: int, m: Machine, v: Json, place: Place, rest: seq<Token>)
    requires Stands(m, place) && (m.stack != [] ==> m.rootStarted) && 0 <= m.used <= limit
    ensures Run(z, limit, m, Tokens(v) + rest) == RunOrLimit(z, limit, Took(m, Cost(z, v, place)), rest)
    decreases v, 1
  {
    hide Run, Step, RunOrLimit, Stands;
    match v
    case JsonArray(items) => RunOfContainer(z, limit, m, v, place, ArrayKind, ItemTokens(items), rest);
    case JsonObject(members) => RunOfContainer(z, limit, m, v, place, ObjectKind, MemberTokens(members), rest);
    case _ => RunOfScalar(z, limit, m, v, place, rest);
  }

  lemma ScalarStep(z: Sizes, limit: int, m: Machine, v: Json, place: Place)
    requires Stands(m, place) && (m.stack != [] ==> m.rootStarted) && !v.JsonArray? && !v.JsonObject?
    ensures var next := Took(m, Cost(z, v, place));
            Step(z, limit, m, ScalarToken(v)) == if next.used > limit then Err(OverLimit) else Ok(next)
  {
    var size := Cost(z, v, place);
    assert size == (if place == AsItem then 2 * z.Interface() else 0) + z.Scalar(ScalarToken(v));
  }

  lemma {:induction false} RunOfScalar(z: Sizes, limit: int, m: Machine, v: Json, place: Place, rest: seq<Token>)
    requires Stands(m, place) && (m.stack != [] ==> m.rootStarted) && 0 <= m.used <= limit
    requires !v.JsonArray? && !v.JsonObject?
    ensures Run(z, limit, m, Tokens(v) + rest) == RunOrLimit(z, limit, Took(m, Cost(z, v, place)), rest)
  {
    hide Run, Step, Cost, Stands, Took;
    ScalarStep(z, limit, m, v, place);
    RunFirst(z, limit, m, ScalarToken(v), rest);
    assert Tokens(v) == [ScalarToken(v)];
  }

  /** What entering a container charges, and the machine inside it. */
  function EntryCost(z: Sizes, kind: Kind, place: Place): nat {
    (if place == AtRoot then 0 else z.Interface()) + z.Header(kind)
  }

  function Entered(m: Machine, kind: Kind, cost: nat): Machine {
    Machine(Consumed(m.stack) + [Frame(kind, kind == ObjectKind)], m.used + cost, true, m.rootComplete)
  }

  lemma EnterStep(z: Sizes, limit: int, m: Machine, kind: Kind, place: Place)
    requires Stands(m, place) && (m.stack != [] ==> m.rootStarted)
    ensures var cost := EntryCost(z, kind, place);
            Step(z, limit, m, Open(kind))
              == if m.used + cost > limit then Err(OverLimit) else Ok(Entered(m, kind, cost))
  {
  }

  lemma LeaveStep(z: Sizes, limit: int, m: Machine, kind: Kind, entry: nat, inner: nat)
    requires m.stack != [] ==> m.rootStarted
    ensures var filled := Entered(m, kind, entry).(used := m.used + entry + inner);
            Step(z, limit, filled, Close(kind)) == Ok(Took(m, entry + inner))
  {
    var filled := Entered(m, kind, entry);
    assert filled.stack[..|filled.stack| - 1] == Consumed(m.stack);
  }

  lemma {:induction false} RunOfContainer(
      z: Sizes, limit: int, m: Machine, v: Json, place: Place, kind: Kind, inner: seq<Token>, rest: seq<Token>)
    requires Stands(m, place) && (m.stack != [] ==> m.rootStarted) && 0 <= m.used <= limit
    requires if kind == ArrayKind then v.JsonArray? && inner == ItemTokens(v.items)
             else v.JsonObject? && inner == MemberTokens(v.members)
    ensures Run(z, limit, m, Tokens(v) + rest) == RunOrLimit(z, limit, Took(m, Cost(z, v, place)), rest)
    decreases v, 0
  {
    hide Run, Step, Stands, ItemTokens, MemberTokens, ItemsCost, MembersCost;
    var tail := inner + ([Close(kind)] + rest);
    assert Tokens(v) + rest == [Open(kind)] + tail;
    RunFirst(z, limit, m, Open(kind), tail);
    EnterStep(z, limit, m, kind, place);
    var entry := EntryCost(z, kind, place);
    if m.used + entry <= limit {
      var next := Entered(m, kind, entry);
      if kind == ArrayKind {
        RunOfClose(z, limit, m, kind, entry, ItemsCost(z, v.items), rest);
        RunOfItems(z, limit, next, v.items, [Close(kind)] + rest);
      } else {
        RunOfClose(z, limit, m, kind, entry, MembersCost(z, v.members), rest);
        RunOfMembers(z, limit, next, v.members, [Close(kind)] + rest);
      }
    }
  }

  lemma {:induction false} RunOfClose(
      z: Sizes, limit: int, m: Machine, kind: Kind, entry: nat, inner: nat, rest: seq<Token>)
    requires m.stack != [] ==> m.rootStarted
    ensures Stands(Entered(m, ArrayKind, entry), AsItem) && WantsKey(Entered(m, ObjectKind, entry).stack)
    ensures Entered(m, kind, entry).rootStarted && Took(m, entry + inner).used == m.used + entry + inner
    ensures var filled := Entered(m, kind, entry).(used := m.used + entry + inner);
            RunOrLimit(z, limit, filled, [Close(kind)] + rest) == RunOrLimit(z, limit, Took(m, entry + inner), rest)
  {
    hide Run, Step;
    var filled := Entered(m, kind, entry).(used := m.used + entry + inner);
    RunFirst(z, limit, filled, Close(kind), rest);
    LeaveStep(z, limit, m, kind, entry, inner);
  }

  lemma {:induction false} RunOfItems(z: Sizes, limit: int, m: Machine, items: seq<Json>, rest: seq<Token>)
    requires Stands(m, AsItem) && m.rootStarted && 0 <= m.used <= limit
    ensures Run(z, limit, m, ItemTokens(items) + rest)
         == RunOrLimit(z, limit, m.(used := m.used + ItemsCost(z, items)), rest)
    decreases items, 1
  {
    hide Run;
    if items == [] {
      assert ItemTokens(items) + rest == rest;
    } else {
      var tail := ItemTokens(items[1..]) + rest;
      assert ItemTokens(items) + rest == Tokens(items[0]) + tail;
      RunOfValue(z, limit, m, items[0], AsItem, tail);
      var next := Took(m, Cost(z, items[0], AsItem));
      if next.used <= limit {
        assert next == m.(used := next.used);
        RunOfItems(z, limit, next, items[1..], rest);
      }
    }
  }

  /** The machine once a key of this cost has been taken. */
  function Keyed(m: Machine, cost: nat): Machine
    requires m.stack != []
  {
    m.(stack := m.stack[|m.stack| - 1 := Frame(ObjectKind, false)], used := m.used + cost)
  }

  lemma KeyStep(z: Sizes, limit: int, m: Machine, key: Bytes)
    requires WantsKey(m.stack)
    ensures var next := Keyed(m, z.Entry(key));
            Step(z, limit, m, StringToken(key)) == if next.used > limit then Err(OverLimit) else Ok(next)
    ensures Stands(Keyed(m, z.Entry(key)), AsMember)
  {
    hide Sizes.Entry;
  }

  lemma KeyedTook(m: Machine, key: nat, value: nat)
    requires WantsKey(m.stack) && m.rootStarted
    ensures Took(Keyed(m, key), value) == m.(used := m.used + key + value)
  {
    assert Consumed(Keyed(m, key).stack) == m.stack;
  }

  lemma {:induction false} RunOfMembers(z: Sizes, limit: int, m: Machine, members: seq<Member>, rest: seq<Token>)
    requires WantsKey(m.stack) && m.rootStarted && 0 <= m.used <= limit
    ensures Run(z, limit, m, MemberTokens(members) + rest)
         == RunOrLimit(z, limit, m.(used := m.used + MembersCost(z, members)), rest)
    decreases members, 1
  {
    hide Run, Step, Took, Stands, Sizes.Entry;
    if members == [] {
      assert MemberTokens(members) + rest == rest;
    } else {
      var key, v := members[0].key, members[0].value;
      var tail := MemberTokens(members[1..]) + rest;
      assert MemberTokens(members) + rest == [StringToken(key)] + (Tokens(v) + tail);
      RunFirst(z, limit, m, StringToken(key), Tokens(v) + tail);
      KeyStep(z, limit, m, key);
      KeyedTook(m, z.Entry(key), Cost(z, v, AsMember));
      if m.used + z.Entry(key) <= limit {
        RunOfValue(z, limit, Keyed(m, z.Entry(key)), v, AsMember, tail);
        var next := m.(used := m.used + z.Entry(key) + Cost(z, v, AsMember));
        if next.used <= limit { RunOfMembers(z, limit, next, members[1..], rest); }
      }
    }
  }

  /** Over the tokens of a value the machine returns its cost, or refuses exactly when that is over the limit. */
  lemma {:induction false} MeasureOfValue(z: Sizes, limit: nat, v: Json)
    ensures var cost := Cost(z, v, AtRoot);
            Measure(z, limit, Tokens(v), EndOfInput) == if cost <= limit then Ok(cost) else Err(OverLimit)
  {
    RunOfValue(z, limit, INITIAL, v, AtRoot, []);
    assert Tokens(v) + [] == Tokens(v);
  }

  // ---- Nothing else is accepted ----

  /** A container that is still open, with what it holds so far. */
  datatype Partial = OpenArray(items: seq<Json>) | OpenObject(members: seq<Member>, pending: Option<Bytes>)

  /** What the tokens so far have built. */
  datatype Document = Document(open: seq<Partial>, root: Option<Json>)

  function PartialTokens(p: Partial): seq<Token> {
    match p
    case OpenArray(items) => [Open(ArrayKind)] + ItemTokens(items)
    case OpenObject(members, None) => [Open(ObjectKind)] + MemberTokens(members)
    case OpenObject(members, Some(key)) => [Open(ObjectKind)] + MemberTokens(members) + [StringToken(key)]
  }

  function OpenTokens(open: seq<Partial>): seq<Token> {
    if open == [] then []
    else OpenTokens(open[..|open| - 1]) + PartialTokens(open[|open| - 1])
  }

  function Written(doc: Document): seq<Token> {
    OpenTokens(doc.open) + if doc.root.Some? then Tokens(doc.root.value) else []
  }

  /** The machine's frame stands for this open container; `top` when nothing is open inside it. */
  predicate FrameFor(f: Frame, p: Partial, top: bool) {
    match p
    case OpenArray(_) => f == Frame(ArrayKind, false)
    case OpenObject(_, pending) => f == Frame(ObjectKind, !top || pending.None?) && (!top ==> pending.Some?)
  }

  ghost predicate Mirrors(m: Machine, doc: Document) {
    && |m.stack| == |doc.open|
    && (forall i :: 0 <= i < |m.stack| ==> FrameFor(m.stack[i], doc.open[i], i == |m.stack| - 1))
    && m.rootStarted == (doc.root.Some? || doc.open != [])
    && m.rootComplete == doc.root.Some?
    && (doc.root.Some? ==> doc.open == [])
  }

  /** A finished value put where it belongs. */
  function PutValue(doc: Document, v: Json): Document {
    if doc.open == [] then Document([], Some(v))
    else
      doc.(open := doc.open[..|doc.open| - 1] + [Grown(doc.open[|doc.open| - 1], v)])
  }

  predicate CanPut(doc: Document) {
    if doc.open == [] then doc.root.None?
    else doc.open[|doc.open| - 1].OpenObject? ==> doc.open[|doc.open| - 1].pending.Some?
  }

  lemma {:induction false} ItemTokensSnoc(items: seq<Json>, v: Json)
    ensures ItemTokens(items + [v]) == ItemTokens(items) + Tokens(v)
    decreases |items|
  {
    hide Tokens;
    var all := items + [v];
    if items == [] {
      assert all[1..] == [];
    } else {
      ItemTokensSnoc(items[1..], v);
      assert all[1..] == items[1..] + [v];
    }
  }

  lemma {:induction false} MemberTokensSnoc(members: seq<Member>, member: Member)
    ensures MemberTokens(members + [member])
         == MemberTokens(members) + ([StringToken(member.key)] + Tokens(member.value))
    decreases |members|
  {
    hide Tokens;
    var all := members + [member];
    if members == [] {
      assert all[1..] == [];
    } else {
      MemberTokensSnoc(members[1..], member);
      assert all[1..] == members[1..] + [member];
    }
  }

  lemma {:induction false} OpenTokensSnoc(open: seq<Partial>, p: Partial)
    ensures OpenTokens(open + [p]) == OpenTokens(open) + PartialTokens(p)
  {
    assert (open + [p])[..|open|] == open;
  }

  /** The open container with one more value in it. */
  function Grown(p: Partial, v: Json): Partial {
    match p
    case OpenArray(items) => OpenArray(items + [v])
    case OpenObject(members, Some(key)) => OpenObject(members + [Member(key, v)], None)
    case OpenObject(_, None) => p
  }

  lemma {:induction false} PartialTokensGrow(p: Partial, v: Json)
    requires p.OpenObject? ==> p.pending.Some?
    ensures PartialTokens(Grown(p, v)) == PartialTokens(p) + Tokens(v)
  {
    hide Tokens, ItemTokens, MemberTokens;
    match p
    case OpenArray(items) => ItemTokensSnoc(items, v);
    case OpenObject(members, pending) => MemberTokensSnoc(members, Member(pending.value, v));
  }

  lemma {:induction false} WrittenPut(doc: Document, v: Json)
    requires CanPut(doc) && (doc.open != [] ==> doc.root == None)
    ensures Written(PutValue(doc, v)) == Written(doc) + Tokens(v)
  {
    hide Tokens, OpenTokens, PartialTokens, Grown;
    if doc.open == [] {
      NothingOpen();
    } else {
      var init, top := doc.open[..|doc.open| - 1], doc.open[|doc.open| - 1];
      assert doc.open == init + [top];
      assert PutValue(doc, v).open == init + [Grown(top, v)];
      OpenTokensSnoc(init, top);
      OpenTokensSnoc(init, Grown(top, v));
      PartialTokensGrow(top, v);
    }
  }

  lemma NothingOpen()
    ensures OpenTokens([]) == []
  {
  }

  function Scalar(t: Token): Json
    requires !t.Open? && !t.Close?
  {
    match t
    case StringToken(s) => JsonString(s)
    case NumberToken(n) => JsonNumber(n)
    case BoolToken(b) => JsonBool(b)
    case NullToken => JsonNull
  }

  function Finished(p: Partial): Json {
    match p
    case OpenArray(items) => JsonArray(items)
    case OpenObject(members, _) => JsonObject(members)
  }

  function Advance(doc: Document, t: Token): Document {
    var top := |doc.open| - 1;
    if t.Open? then
      doc.(open := doc.open + [if t.kind == ArrayKind then OpenArray([]) else OpenObject([], None)])
    else if t.Close? then
      if doc.open == [] then doc else PutValue(doc.(open := doc.open[..top]), Finished(doc.open[top]))
    else if t.StringToken? && doc.open != [] && doc.open[top].OpenObject? && doc.open[top].pending.None? then
      doc.(open := doc.open[top := OpenObject(doc.open[top].members, Some(t.text))])
    else PutValue(doc, Scalar(t))
  }

  /** The containers open after a token, and which of them then want a key. */
  function Nest(open: seq<Frame>, t: Token): seq<Frame> {
    if t.Open? then Consumed(open) + [Frame(t.kind, t.kind == ObjectKind)]
    else if t.Close? then if open == [] then [] else open[..|open| - 1]
    else if WantsKey(open) then open[|open| - 1 := Frame(ObjectKind, false)]
    else Consumed(open)
  }

  /**
   The decoder's own guarantee about the tokens it yields inside these containers, which the machine does not
   check: no container stands where an object wants a key.
   */
  predicate KeysAreNoContainers(open: seq<Frame>, tokens: seq<Token>)
    decreases |tokens|
  {
    tokens != [] ==> !(WantsKey(open) && tokens[0].Open?) && KeysAreNoContainers(Nest(open, tokens[0]), tokens[1..])
  }

  lemma StepNests(z: Sizes, limit: int, m: Machine, t: Token)
    ensures var next := Step(z, limit, m, t); next.Ok? ==> next.value.stack == Nest(m.stack, t)
  {
  }

  lemma {:induction false} AdvanceMirrors(z: Sizes, limit: int, m: Machine, doc: Document, t: Token)
    requires Mirrors(m, doc) && Step(z, limit, m, t).Ok? && !(WantsKey(m.stack) && t.Open?)
    ensures Mirrors(Step(z, limit, m, t).value, Advance(doc, t))
  {
    var next, grown := Step(z, limit, m, t).value, Advance(doc, t);
    var top := |m.stack| - 1;
    if top >= 0 { assert FrameFor(m.stack[top], doc.open[top], true); }
    if t.Close? && top > 0 { assert FrameFor(m.stack[top - 1], doc.open[top - 1], false); }
    forall i | 0 <= i < |next.stack|
      ensures |next.stack| == |grown.open| && FrameFor(next.stack[i], grown.open[i], i == |next.stack| - 1)
    {
      if i <= top { assert FrameFor(m.stack[i], doc.open[i], i == top); }
    }
  }

  /** A document that takes a closing delimiter: something is open, with no key pending, and inside a member. */
  ghost predicate CanClose(doc: Document) {
    && doc.open != [] && doc.root == None
    && var top := |doc.open| - 1;
       (doc.open[top].OpenObject? ==> doc.open[top].pending.None?) && CanPut(doc.(open := doc.open[..top]))
  }

  lemma {:induction false} CloseWritten(doc: Document)
    requires CanClose(doc)
    ensures var last := doc.open[|doc.open| - 1];
            Written(Advance(doc, Close(if last.OpenArray? then ArrayKind else ObjectKind)))
              == Written(doc) + [Close(if last.OpenArray? then ArrayKind else ObjectKind)]
  {
    hide Tokens, OpenTokens, PartialTokens, PutValue;
    var top := |doc.open| - 1;
    var init, last := doc.open[..top], doc.open[top];
    assert doc.open == init + [last];
    OpenTokensSnoc(init, last);
    FinishedTokens(last);
    WrittenPut(doc.(open := init), Finished(last));
  }

  lemma {:induction false} KeyWritten(doc: Document, key: Bytes)
    requires doc.root == None && doc.open != []
    requires doc.open[|doc.open| - 1].OpenObject? && doc.open[|doc.open| - 1].pending.None?
    ensures Written(Advance(doc, StringToken(key))) == Written(doc) + [StringToken(key)]
  {
    hide Tokens, OpenTokens, ItemTokens, MemberTokens;
    var top := |doc.open| - 1;
    var init, last := doc.open[..top], doc.open[top];
    var keyed := OpenObject(last.members, Some(key));
    assert doc.open == init + [last] && doc.open[top := keyed] == init + [keyed];
    OpenTokensSnoc(init, last);
    OpenTokensSnoc(init, keyed);
  }

  lemma {:induction false} MirrorsCanClose(z: Sizes, limit: int, m: Machine, doc: Document, t: Token)
    requires Mirrors(m, doc) && Step(z, limit, m, t).Ok? && t.Close?
    ensures CanClose(doc) && (t.kind == ArrayKind <==> doc.open[|doc.open| - 1].OpenArray?)
  {
    var top := |doc.open| - 1;
    if top >= 0 { assert FrameFor(m.stack[top], doc.open[top], true); }
    if top > 0 { assert FrameFor(m.stack[top - 1], doc.open[top - 1], false); }
  }

  lemma {:induction false} AdvanceWritten(z: Sizes, limit: int, m: Machine, doc: Document, t: Token)
    requires Mirrors(m, doc) && Step(z, limit, m, t).Ok? && !(WantsKey(m.stack) && t.Open?)
    ensures Written(Advance(doc, t)) == Written(doc) + [t]
  {
    hide Tokens, OpenTokens, ItemTokens, MemberTokens, Written, CanClose, PutValue;
    var top := |doc.open| - 1;
    if top >= 0 { assert FrameFor(m.stack[top], doc.open[top], true); }
    if t.Open? {
      OpenWritten(doc, t.kind);
    } else if t.Close? {
      MirrorsCanClose(z, limit, m, doc, t);
      CloseWritten(doc);
    } else if WantsKey(m.stack) {
      KeyWritten(doc, t.text);
    } else {
      WrittenPut(doc, Scalar(t));
      ScalarTokens(t);
    }
  }

  lemma {:induction false} OpenWritten(doc: Document, kind: Kind)
    requires doc.root == None
    ensures Written(Advance(doc, Open(kind))) == Written(doc) + [Open(kind)]
  {
    hide OpenTokens;
    NoTokens();
    OpenTokensSnoc(doc.open, if kind == ArrayKind then OpenArray([]) else OpenObject([], None));
  }

  lemma NoTokens()
    ensures ItemTokens([]) == [] && MemberTokens([]) == []
  {
  }

  lemma ScalarTokens(t: Token)
    requires !t.Open? && !t.Close?
    ensures Tokens(Scalar(t)) == [t]
  {
  }

  lemma FinishedTokens(p: Partial)
    requires p.OpenObject? ==> p.pending.None?
    ensures Tokens(Finished(p)) == PartialTokens(p) + [Close(if p.OpenArray? then ArrayKind else ObjectKind)]
  {
  }

  lemma {:induction false} RunBuilds(z: Sizes, limit: int, m: Machine, doc: Document, tokens: seq<Token>)
      returns (built: Document)
    requires Mirrors(m, doc) && Run(z, limit, m, tokens).Ok? && KeysAreNoContainers(m.stack, tokens)
    ensures Mirrors(Run(z, limit, m, tokens).value, built) && Written(built) == Written(doc) + tokens
    decreases |tokens|
  {
    hide Step, Advance, Written, Mirrors, Nest;
    if tokens == [] {
      built := doc;
      assert Written(doc) + tokens == Written(doc);
    } else {
      StepNests(z, limit, m, tokens[0]);
      AdvanceMirrors(z, limit, m, doc, tokens[0]);
      AdvanceWritten(z, limit, m, doc, tokens[0]);
      built := RunBuilds(z, limit, Step(z, limit, m, tokens[0]).value, Advance(doc, tokens[0]), tokens[1..]);
      assert Written(doc) + tokens == Written(doc) + [tokens[0]] + tokens[1..];
    }
  }

  lemma MeasuredEndsComplete(z: Sizes, limit: int, tokens: seq<Token>, ending: Ending, cost: int)
    requires Measure(z, limit, tokens, ending) == Ok(cost)
    ensures ending == EndOfInput && Run(z, limit, INITIAL, tokens).Ok?
    ensures var m := Run(z, limit, INITIAL, tokens).value; m.rootComplete && m.stack == [] && m.used == cost
    ensures Measure(z, limit, tokens, EndOfInput) == Ok(cost)
  {
    hide Run;
  }

  lemma {:induction false} MeasuredIsValue(z: Sizes, limit: int, tokens: seq<Token>) returns (v: Json)
    requires KeysAreNoContainers([], tokens) && Run(z, limit, INITIAL, tokens).Ok?
    requires var m := Run(z, limit, INITIAL, tokens).value; m.rootComplete && m.stack == []
    ensures tokens == Tokens(v)
  {
    hide Tokens, Run, KeysAreNoContainers, OpenTokens;
    var start := Document([], None);
    NothingOpen();
    var doc := RunBuilds(z, limit, INITIAL, start, tokens);
    assert Written(start) == [] && [] + tokens == tokens;
    v := doc.root.value;
    assert Written(doc) == Tokens(v);
  }

  /**
   A measurement succeeds exactly when the tokens are those of one complete value, the input ended there,
   and the value's cost is within the limit; the answer is that cost.
   */
  lemma {:induction false} MeasureIff(z: Sizes, limit: nat, tokens: seq<Token>, ending: Ending, cost: int)
    requires KeysAreNoContainers([], tokens)
    ensures Measure(z, limit, tokens, ending) == Ok(cost) <==>
            ending == EndOfInput
            && exists v :: tokens == Tokens(v) && cost == Cost(z, v, AtRoot) && cost <= limit
  {
    hide Tokens, Cost, Measure, Run, KeysAreNoContainers;
    if Measure(z, limit, tokens, ending) == Ok(cost) {
      MeasuredEndsComplete(z, limit, tokens, ending, cost);
      var v := MeasuredIsValue(z, limit, tokens);
      MeasureOfValue(z, limit, v);
    }
    if ending == EndOfInput {
      forall v | tokens == Tokens(v) && cost == Cost(z, v, AtRoot) && cost <= limit
        ensures Measure(z, limit, tokens, ending) == Ok(cost)
      {
        MeasureOfValue(z, limit, v);
      }
    }
  }

  // ---- Which refusal ----

  lemma StepAtHigher(z: Sizes, limit: int, higher: int, m: Machine, t: Token)
    requires limit <= higher
    ensures Step(z, limit, m, t) == Err(OverLimit) || Step(z, higher, m, t) == Step(z, limit, m, t)
  {
    hide Sizes.Scalar, Sizes.Entry, Sizes.Header, Consumed;
  }

  /** A higher limit changes nothing but a refusal for the limit's sake. */
  lemma {:induction false} RunAtHigher(z: Sizes, limit: int, higher: int, m: Machine, tokens: seq<Token>)
    requires limit <= higher
    ensures Run(z, limit, m, tokens) == Err(OverLimit) || Run(z, higher, m, tokens) == Run(z, limit, m, tokens)
    decreases |tokens|
  {
    if tokens != [] {
      hide Step;
      StepAtHigher(z, limit, higher, m, tokens[0]);
      var next := Step(z, limit, m, tokens[0]);
      if next.Ok? { RunAtHigher(z, limit, higher, next.value, tokens[1..]); }
    }
  }

  /** More than any token charges. */
  function MostCharged(z: Sizes, t: Token): nat {
    2 * z.Interface() + z.MapHeader() + z.SliceHeader()
    + (if t.StringToken? then z.Entry(t.text) else 0) + (if t.Open? then 0 else z.Scalar(t))
  }

  lemma StepWithinMost(z: Sizes, m: Machine, t: Token)
    ensures Step(z, m.used + MostCharged(z, t), m, t) != Err(OverLimit)
  {
    hide Consumed, Sizes.Scalar, Sizes.Entry;
  }

  lemma {:induction false} SomeEnoughLimit(z: Sizes, m: Machine, tokens: seq<Token>) returns (enough: int)
    ensures Run(z, enough, m, tokens) != Err(OverLimit)
    decreases |tokens|
  {
    if tokens == [] { return 0; }
    hide Step, MostCharged;
    var first := m.used + MostCharged(z, tokens[0]);
    StepWithinMost(z, m, tokens[0]);
    var next := Step(z, first, m, tokens[0]);
    if next.Err? { return first; }
    var rest := SomeEnoughLimit(z, next.value, tokens[1..]);
    enough := if first < rest then rest else first;
    StepAtHigher(z, first, enough, m, tokens[0]);
    RunAtHigher(z, rest, enough, next.value, tokens[1..]);
  }

  /** A refusal is for the limit's sake exactly when a higher limit would change the answer. */
  lemma {:induction false} OverLimitIff(z: Sizes, limit: int, tokens: seq<Token>, ending: Ending)
    ensures Measure(z, limit, tokens, ending) == Err(OverLimit) <==>
            exists higher :: higher > limit && Measure(z, higher, tokens, ending) != Measure(z, limit, tokens, ending)
  {
    hide Run;
    forall higher | higher > limit && Measure(z, higher, tokens, ending) != Measure(z, limit, tokens, ending)
      ensures Measure(z, limit, tokens, ending) == Err(OverLimit)
    {
      RunAtHigher(z, limit, higher, INITIAL, tokens);
    }
    if Measure(z, limit, tokens, ending) == Err(OverLimit) {
      var enough := SomeEnoughLimit(z, INITIAL, tokens);
      if enough <= limit {
        RunAtHigher(z, enough, limit, INITIAL, tokens);
      }
      assert Measure(z, enough, tokens, ending) != Measure(z, limit, tokens, ending);
    }
  }

  /** An object whose only member is an empty array, without a key. */
  const KEYLESS: seq<Token> := [Open(ObjectKind), Open(ArrayKind), Close(ArrayKind), Close(ObjectKind)]

  /** Without the decoder's guarantee the machine takes it. */
  lemma {:induction false} ContainerAsKeyIsTaken(z: Sizes)
    ensures Measure(z, 6 * z.word, KEYLESS, EndOfInput) == Ok(6 * z.word) && !KeysAreNoContainers([], KEYLESS)
  {
    hide Run, Step;
    KeylessBreaksGuarantee();
    var limit := 6 * z.word;
    var o, a, ca, co := Open(ObjectKind), Open(ArrayKind), Close(ArrayKind), Close(ObjectKind);
    KeylessSteps(z, o, a, ca, co);
    var m1, m2, m3, m4 := KeylessRun(z, 1), KeylessRun(z, 2), KeylessRun(z, 3), KeylessRun(z, 4);
    assert KEYLESS == [o] + ([a] + ([ca] + ([co] + [])));
    RunFirst(z, limit, INITIAL, o, [a] + ([ca] + ([co] + [])));
    RunFirst(z, limit, m1, a, [ca] + ([co] + []));
    RunFirst(z, limit, m2, ca, [co] + []);
    RunFirst(z, limit, m3, co, []);
    RunNothing(z, limit, m4);
  }

  /** The machine after each of those tokens. */
  function KeylessRun(z: Sizes, n: nat): Machine {
    var outer, inner := Frame(ObjectKind, true), Frame(ArrayKind, false);
    if n == 0 then INITIAL
    else if n == 1 then Machine([outer], z.word, true, false)
    else if n == 2 then Machine([outer, inner], 6 * z.word, true, false)
    else if n == 3 then Machine([outer], 6 * z.word, true, false)
    else Machine([], 6 * z.word, true, true)
  }

  lemma KeylessSteps(z: Sizes, o: Token, a: Token, ca: Token, co: Token)
    requires o == Open(ObjectKind) && a == Open(ArrayKind) && ca == Close(ArrayKind) && co == Close(ObjectKind)
    ensures var limit := 6 * z.word;
            && Step(z, limit, INITIAL, o) == Ok(KeylessRun(z, 1))
            && Step(z, limit, KeylessRun(z, 1), a) == Ok(KeylessRun(z, 2))
            && Step(z, limit, KeylessRun(z, 2), ca) == Ok(KeylessRun(z, 3))
            && Step(z, limit, KeylessRun(z, 3), co) == Ok(KeylessRun(z, 4))
  {
    var outer, inner := Frame(ObjectKind, true), Frame(ArrayKind, false);
    assert Consumed([]) + [outer] == [outer] && Consumed([outer]) + [inner] == [outer, inner];
    assert [outer, inner][..1] == [outer] && [outer][..0] == [];
  }

  lemma KeylessBreaksGuarantee()
    ensures !KeysAreNoContainers([], KEYLESS)
  {
    var outer := Frame(ObjectKind, true);
    assert Nest([], KEYLESS[0]) == [outer] && WantsKey([outer]) && KEYLESS[1..][0].Open?;
    assert !KeysAreNoContainers([outer], KEYLESS[1..]);
  }

  lemma RunNothing(z: Sizes, limit: int, m: Machine)
    ensures Run(z, limit, m, []) == Ok(m)
  {
  }

  /** What has been charged stays between zero and the limit at every token. */
  lemma {:induction false} ChargedWithinLimit(z: Sizes, limit: nat, m: Machine, tokens: seq<Token>)
    requires 0 <= m.used <= limit
    ensures var r := Run(z, limit, m, tokens);
            r.Ok? ==> m.used <= r.value.used <= limit
    decreases |tokens|
  {
    hide Step;
    if tokens != [] {
      ChargeWithinLimit(z, limit, m, tokens[0]);
      var next := Step(z, limit, m, tokens[0]);
      if next.Ok? { ChargedWithinLimit(z, limit, next.value, tokens[1..]); }
    }
  }

  lemma ChargeWithinLimit(z: Sizes, limit: nat, m: Machine, t: Token)
    requires 0 <= m.used <= limit
    ensures var next := Step(z, limit, m, t);
            next.Ok? ==> m.used <= next.value.used <= limit
  {
  }
}
