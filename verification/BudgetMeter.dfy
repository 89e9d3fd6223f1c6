/** The token machine as it runs: a stack and a running sum in 64-bit arithmetic, updated in place. */
module BudgetMeters {
  import opened ByteText
  import opened JsonBudget
  import opened MachineInts

  /** A string no longer than the runtime can hold. */
  predicate Holdable(t: Token) {
    t.StringToken? ==> |t.text| <= MAX_INT64 as int
  }

  class Meter {
    const word: uint64
    const limit: int64
    var stack: seq<Frame>
    var used: int64
    var rootStarted: bool
    var rootComplete: bool

    ghost predicate Valid()
      reads this
    {
      (word == 4 || word == 8) && 0 <= used <= limit
    }

    ghost function Layout(): Sizes { Sizes(word as nat) }

    ghost function Abs(): Machine
      reads this
    {
      Machine(stack, used as int, rootStarted, rootComplete)
    }

    constructor (word: uint64, limit: int64)
      requires (word == 4 || word == 8) && 0 <= limit
      ensures Valid() && Abs() == INITIAL && this.word == word && this.limit == limit
    {
      this.word, this.limit := word, limit;
      stack, used, rootStarted, rootComplete := [], 0, false, false;
    }

    /** Adds to the sum unless that would pass the limit; no intermediate result wraps. */
    method Charge(size: uint64) returns (ok: bool)
      requires Valid()
      modifies this`used
      ensures Valid()
      ensures ok == (old(used) as int + size as int <= limit as int)
      ensures used as int == old(used) as int + if ok then size as int else 0
    {
      if size > limit as uint64 || used > limit - size as int64 { return false; }
      used := used + size as int64;
      ok := true;
    }

    method ConsumeValue()
      modifies this`stack
      ensures stack == Consumed(old(stack))
    {
      if |stack| > 0 && stack[|stack| - 1].kind == ObjectKind {
        stack := stack[|stack| - 1 := stack[|stack| - 1].(expectKey := true)];
      }
    }

    method OpenContainer(kind: Kind) returns (refusal: Option<Refusal>)
      requires Valid()
      modifies this
      ensures Valid()
      ensures match Step(Layout(), limit as int, old(Abs()), Open(kind))
              case Err(e) => refusal == Some(e)
              case Ok(m) => refusal == None && Abs() == m
    {
      if |stack| == 0 {
        if rootStarted { return Some(InvalidJson); }
        rootStarted := true;
      } else {
        var ok := Charge(2 * word);
        if !ok { return Some(OverLimit); }
        ConsumeValue();
      }
      var ok := Charge(if kind == ObjectKind then word else 3 * word);
      if !ok { return Some(OverLimit); }
      stack := stack + [Frame(kind, kind == ObjectKind)];
      refusal := None;
    }

    method CloseContainer(kind: Kind) returns (refusal: Option<Refusal>)
      requires Valid()
      modifies this
      ensures Valid()
      ensures match Step(Layout(), limit as int, old(Abs()), Close(kind))
              case Err(e) => refusal == Some(e)
              case Ok(m) => refusal == None && Abs() == m
    {
      if |stack| == 0 || stack[|stack| - 1].kind != kind { return Some(InvalidJson); }
      if stack[|stack| - 1].kind == ObjectKind && !stack[|stack| - 1].expectKey { return Some(InvalidJson); }
      stack := stack[..|stack| - 1];
      if |stack| == 0 { rootComplete := true; }
      refusal := None;
    }

    method TakeKey(t: Token) returns (refusal: Option<Refusal>)
      requires Valid() && WantsKey(stack) && !t.Open? && !t.Close? && Holdable(t)
      modifies this
      ensures Valid()
      ensures match Step(Layout(), limit as int, old(Abs()), t)
              case Err(e) => refusal == Some(e)
              case Ok(m) => refusal == None && Abs() == m
    {
      if !t.StringToken? { return Some(InvalidJson); }
      var ok := Charge(2 * word + 2 * word + word + |t.text| as uint64);
      if !ok { return Some(OverLimit); }
      stack := stack[|stack| - 1 := stack[|stack| - 1].(expectKey := false)];
      refusal := None;
    }

    /** The size of a scalar token's own representation. */
    method ScalarSize(t: Token) returns (size: uint64)
      requires (word == 4 || word == 8) && !t.Open? && !t.Close? && Holdable(t)
      ensures size as int == Layout().Scalar(t)
    {
      size := 2 * word;
      match t {
        case StringToken(s) => size := size + (2 * word + |s| as uint64);
        case NumberToken(_) => size := size + 8;
        case BoolToken(_) => size := size + 1;
        case NullToken =>
      }
    }

    method TakeScalar(t: Token) returns (refusal: Option<Refusal>)
      requires Valid() && !t.Open? && !t.Close? && Holdable(t)
      modifies this
      ensures Valid()
      ensures match Step(Layout(), limit as int, old(Abs()), t)
              case Err(e) => refusal == Some(e)
              case Ok(m) => refusal == None && Abs() == m
    {
      hide Sizes.Scalar, Sizes.Entry;
      if |stack| > 0 && stack[|stack| - 1].kind == ObjectKind && stack[|stack| - 1].expectKey {
        refusal := TakeKey(t);
        return;
      }
      var ok: bool;
      var size := ScalarSize(t);
      if |stack| == 0 {
        if rootStarted { return Some(InvalidJson); }
        rootStarted, rootComplete := true, true;
      } else {
        if stack[|stack| - 1].kind == ArrayKind {
          ok := Charge(2 * word * 2);
          if !ok { return Some(OverLimit); }
        }
        ConsumeValue();
      }
      ok := Charge(size);
      refusal := if ok then None else Some(OverLimit);
    }
  }

  /** The decoder loop: every token it yields, then how it stopped. */
  method MeasureDecodedMemory(word: uint64, tokens: seq<Token>, ending: Ending, limit: int64)
      returns (r: Result<int64>)
    requires (word == 4 || word == 8) && 0 <= limit
    requires forall i :: 0 <= i < |tokens| ==> Holdable(tokens[i])
    ensures match Measure(Sizes(word as nat), limit as int, tokens, ending)
            case Ok(cost) => r.Ok? && r.value as int == cost
            case Err(e) => r == Err(e)
    ensures r.Ok? ==> 0 <= r.value <= limit
  {
    var meter := new Meter(word, limit);
    var i := 0;
    while i < |tokens|
      invariant 0 <= i <= |tokens| && fresh(meter)
      invariant meter.Valid() && meter.word == word && meter.limit == limit
      invariant Run(meter.Layout(), limit as int, INITIAL, tokens)
             == Run(meter.Layout(), limit as int, meter.Abs(), tokens[i..])
    {
      hide Step;
      var refusal;
      match tokens[i] {
        case Open(kind) => refusal := meter.OpenContainer(kind);
        case Close(kind) => refusal := meter.CloseContainer(kind);
        case StringToken(_) => refusal := meter.TakeScalar(tokens[i]);
        case NumberToken(_) => refusal := meter.TakeScalar(tokens[i]);
        case BoolToken(_) => refusal := meter.TakeScalar(tokens[i]);
        case NullToken => refusal := meter.TakeScalar(tokens[i]);
      }
      if refusal.Some? { return Err(refusal.value); }
      assert tokens[i..][1..] == tokens[i + 1..];
      i := i + 1;
    }
    if ending == SyntaxError { return Err(InvalidJson); }
    if !meter.rootStarted || !meter.rootComplete || |meter.stack| != 0 { return Err(InvalidJson); }
    r := Ok(meter.used);
  }

  /** The budget check: the raw input may not be longer than its decoded form is allowed to be. */
  method ValidateDecodedBudget(word: uint64, rawBytes: int64, tokens: seq<Token>, ending: Ending, limit: int64)
      returns (refusal: Option<Refusal>)
    requires (word == 4 || word == 8) && 0 <= rawBytes
    requires forall i :: 0 <= i < |tokens| ==> Holdable(tokens[i])
    requires KeysAreNoContainers([], tokens)
    ensures refusal == None <==>
            && rawBytes <= limit && 0 < limit && ending == EndOfInput
            && exists v :: tokens == Tokens(v) && Cost(Sizes(word as nat), v, AtRoot) <= limit as int
    ensures (limit <= 0 || rawBytes > limit) ==> refusal == Some(OverLimit)
    ensures 0 < limit && rawBytes <= limit ==>
              var z := Sizes(word as nat);
              (refusal == Some(OverLimit) <==>
                 exists higher :: higher > limit as int
                   && Measure(z, higher, tokens, ending) != Measure(z, limit as int, tokens, ending))
  {
    if limit <= 0 { return Some(OverLimit); }
    if rawBytes > limit { return Some(OverLimit); }
    var r := MeasureDecodedMemory(word, tokens, ending, limit);
    ghost var z := Sizes(word as nat);
    OverLimitIff(z, limit as int, tokens, ending);
    if r.Ok? {
      MeasureIff(z, limit as nat, tokens, ending, r.value as int);
    } else if ending == EndOfInput {
      forall v | tokens == Tokens(v) ensures Cost(z, v, AtRoot) > limit as int {
        MeasureIff(z, limit as nat, tokens, ending, Cost(z, v, AtRoot));
      }
    }
    refusal := if r.Ok? then None else Some(r.refusal);
  }
}
