/** What sweeping the parameter cache costs, and that nobody can tell it happens. */
module ParamsSweep {
  import opened ByteText
  import opened MachineInts
  import opened ParamsModel

  /** The cache's operations in the order they take its lock, each with its own clock reading. */
  datatype Op =
    | DoObserve(baseURL: Bytes, header: Header)
    | DoGet(key: Key, now: int)
    | DoPut(key: Key, header: Header, answer: Answer, now: int)

  function Perform(sweeping: bool, c: Cache, op: Op): Cache {
    match op
    case DoObserve(baseURL, h) => Observe(c, baseURL, h)
    case DoGet(_, _) => c
    case DoPut(key, h, answer, now) =>
      if sweeping then Put(c, key, h, answer, now) else PutOnly(c, key, h, answer, now)
  }

  /** What each get answered. */
  function Answers(sweeping: bool, c: Cache, ops: seq<Op>): seq<Option<Entry>>
    decreases |ops|
  {
    if ops == [] then []
    else
      (if ops[0].DoGet? then [Get(c, ops[0].key, ops[0].now)] else [])
      + Answers(sweeping, Perform(sweeping, c, ops[0]), ops[1..])
  }

  // ---- Every hit is a hit without sweeping ----

  /** The swept cache holds some of the entries of the one that never sweeps. */
  ghost predicate Thinned(swept: Cache, full: Cache) {
    && swept.versions == full.versions
    && forall key :: key in swept.entries ==> key in full.entries && swept.entries[key] == full.entries[key]
  }

  ghost predicate HitsAgree(swept: seq<Option<Entry>>, full: seq<Option<Entry>>) {
    |swept| == |full| && forall i :: 0 <= i < |swept| && swept[i].Some? ==> full[i] == swept[i]
  }

  lemma {:induction false} ThinnedStep(swept: Cache, full: Cache, op: Op)
    requires Thinned(swept, full)
    ensures Thinned(Perform(true, swept, op), Perform(false, full, op))
  {
    hide Expiry, Stored, Servable;
  }

  /** Whatever the clocks read, sweeping never makes a get answer something else. */
  lemma {:induction false} SweepingNeverAddsHits(swept: Cache, full: Cache, ops: seq<Op>)
    requires Thinned(swept, full)
    ensures HitsAgree(Answers(true, swept, ops), Answers(false, full, ops))
    decreases |ops|
  {
    if ops != [] {
      hide Perform;
      ThinnedStep(swept, full, ops[0]);
      SweepingNeverAddsHits(Perform(true, swept, ops[0]), Perform(false, full, ops[0]), ops[1..]);
    }
  }

  // ---- When no get reads earlier than a put before it, nothing differs ----

  predicate GetsFollowPuts(ops: seq<Op>) {
    forall i, j :: 0 <= i < j < |ops| && ops[i].DoPut? && ops[j].DoGet? ==> ops[i].now <= ops[j].now
  }

  predicate GetsReadFrom(ops: seq<Op>, clock: int) {
    forall i :: 0 <= i < |ops| && ops[i].DoGet? ==> clock <= ops[i].now
  }

  /** What was dropped can never be served again: it is outdated for good or has expired by now. */
  ghost predicate OnlyDeadDropped(swept: Cache, full: Cache, clock: int) {
    && Thinned(swept, full)
    && NoneNewer(full)
    && forall key :: key in full.entries && key !in swept.entries ==> Dead(full, key, full.entries[key], clock)
  }

  predicate Dead(c: Cache, key: Key, entry: Entry, clock: int) {
    entry.version < Version(c, key.baseURL) || entry.expires <= clock
  }

  /** The latest reading of any put so far. */
  function Clock(op: Op, clock: int): int {
    if op.DoPut? && clock < op.now then op.now else clock
  }

  lemma {:induction false} DeadStaysDead(swept: Cache, full: Cache, op: Op, clock: int)
    requires OnlyDeadDropped(swept, full, clock) && (op.DoGet? ==> clock <= op.now)
    ensures OnlyDeadDropped(Perform(true, swept, op), Perform(false, full, op), Clock(op, clock))
    ensures op.DoGet? ==> Get(swept, op.key, op.now) == Get(full, op.key, op.now)
  {
    ThinnedStep(swept, full, op);
    match op
    case DoObserve(_, _) =>
    case DoGet(_, _) =>
    case DoPut(key, h, answer, now) => DeadAfterPut(swept, full, key, h, answer, now, clock);
  }

  lemma {:induction false} DeadAfterPut(
      swept: Cache, full: Cache, key: Key, h: Header, answer: Answer, now: int, clock: int)
    requires OnlyDeadDropped(swept, full, clock)
    ensures NoneNewer(PutOnly(full, key, h, answer, now))
    ensures var swept', full' := Put(swept, key, h, answer, now), PutOnly(full, key, h, answer, now);
            var later := Clock(DoPut(key, h, answer, now), clock);
            forall k :: k in full'.entries && k !in swept'.entries ==> Dead(full', k, full'.entries[k], later)
  {
    hide Expiry, Put;
    var swept', full' := Put(swept, key, h, answer, now), PutOnly(full, key, h, answer, now);
    forall k | k in full'.entries && k !in swept'.entries
      ensures Dead(full', k, full'.entries[k], Clock(DoPut(key, h, answer, now), clock))
    {
      DroppedByPut(swept, key, h, answer, now, k);
    }
  }

  /** A put leaves an entry out only when it is dead, or was left out already. */
  lemma {:induction false} DroppedByPut(c: Cache, key: Key, h: Header, answer: Answer, now: int, k: Key)
    requires NoneNewer(c) && k !in Put(c, key, h, answer, now).entries
    ensures var kept := PutOnly(c, key, h, answer, now);
            k in kept.entries ==> Dead(c, k, kept.entries[k], now)
  {
    hide Expiry;
  }

  /**
   A cache that sweeps and one that never does answer every get alike, for ever, whatever the order of the puts'
   readings among themselves and of the gets'.
   */
  lemma {:induction false} SweepingIsUnobservable(swept: Cache, full: Cache, ops: seq<Op>, clock: int)
    requires OnlyDeadDropped(swept, full, clock) && GetsReadFrom(ops, clock) && GetsFollowPuts(ops)
    ensures Answers(true, swept, ops) == Answers(false, full, ops)
    decreases |ops|
  {
    if ops != [] {
      hide Perform, OnlyDeadDropped, Get;
      var op := ops[0];
      DeadStaysDead(swept, full, op, clock);
      ReadingsAfter(ops, clock);
      SweepingIsUnobservable(Perform(true, swept, op), Perform(false, full, op), ops[1..], Clock(op, clock));
    }
  }

  lemma ReadingsAfter(ops: seq<Op>, clock: int)
    requires ops != [] && GetsReadFrom(ops, clock) && GetsFollowPuts(ops)
    ensures GetsReadFrom(ops[1..], Clock(ops[0], clock)) && GetsFollowPuts(ops[1..])
  {
  }

  lemma {:induction false} SomeEarliestGet(ops: seq<Op>) returns (clock: int)
    ensures GetsReadFrom(ops, clock)
  {
    if ops == [] { return 0; }
    clock := SomeEarliestGet(ops[1..]);
    if ops[0].DoGet? && ops[0].now < clock { clock := ops[0].now; }
  }

  /** From the empty cache, whatever the first clock reading is. */
  lemma {:induction false} SweepingFromEmpty(ops: seq<Op>)
    requires GetsFollowPuts(ops)
    ensures Answers(true, EMPTY, ops) == Answers(false, EMPTY, ops)
  {
    var clock := SomeEarliestGet(ops);
    SweepingIsUnobservable(EMPTY, EMPTY, ops, clock);
  }

  // ---- A get that reads earlier than a put before it can miss ----

  lemma {:induction false} FourAnswers(sweeping: bool, o: Op, p: Op, q: Op, get: Op)
    requires o.DoObserve? && p.DoPut? && q.DoPut? && get.DoGet?
    ensures var c := Perform(sweeping, Perform(sweeping, Perform(sweeping, EMPTY, o), p), q);
            Answers(sweeping, EMPTY, [o, p, q, get]) == [Get(c, get.key, get.now)]
  {
    hide Perform, Get;
    assert [o, p, q, get][1..] == [p, q, get] && [p, q, get][1..] == [q, get] && [q, get][1..] == [get];
    var c1 := Perform(sweeping, EMPTY, o);
    var c2 := Perform(sweeping, c1, p);
    var c3 := Perform(sweeping, c2, q);
    assert Answers(sweeping, c3, [get]) == [Get(c3, get.key, get.now)] + [];
    assert Answers(sweeping, c2, [q, get]) == [] + Answers(sweeping, c3, [get]);
    assert Answers(sweeping, c1, [p, q, get]) == [] + Answers(sweeping, c2, [q, get]);
    assert Answers(sweeping, EMPTY, [o, p, q, get]) == [] + Answers(sweeping, c1, [p, q, get]);
  }

  const BRIEF := Header(Some(1), Some(1))

  /** The first answer expires as the second is put. */
  function TwoPuts(first: Key, second: Key, answer: Answer, put: int): seq<Op> {
    [DoObserve(first.baseURL, BRIEF), DoPut(first, BRIEF, answer, put - NANOS_PER_MILLI),
     DoPut(second, BRIEF, answer, put)]
  }

  /** The cache that has heard of version 1 and holds nothing. */
  function Heard(baseURL: Bytes): Cache { Cache(map[baseURL := 1], map[], 0) }

  lemma BriefExpiry(now: int)
    ensures Expiry(BRIEF.maxAge.value, now) == now + NANOS_PER_MILLI
  {
  }

  lemma HeardKeeps(key: Key, baseURL: Bytes, entries: map<Key, Entry>, sweepAt: int)
    requires key.baseURL == baseURL
    ensures Keeps(Heard(baseURL).(entries := entries, sweepAt := sweepAt), key, BRIEF)
    ensures Observe(EMPTY, baseURL, BRIEF) == Heard(baseURL)
  {
  }

  /** The second put sweeps away what a get that read the clock before it would still have been served. */
  lemma {:induction false} EarlierGetMisses(first: Key, second: Key, answer: Answer, put: int, get: int)
    requires first != second && first.baseURL == second.baseURL && get < put
    ensures var ops := TwoPuts(first, second, answer, put) + [DoGet(first, get)];
            Answers(true, EMPTY, ops) == [None]
            && Answers(false, EMPTY, ops) == [Some(Stored(answer, BRIEF, put - NANOS_PER_MILLI))]
  {
    hide Answers, Put, PutOnly, Get, Stored, Keeps, Observe;
    var early := put - NANOS_PER_MILLI;
    var o, p := DoObserve(first.baseURL, BRIEF), DoPut(first, BRIEF, answer, early);
    var q := DoPut(second, BRIEF, answer, put);
    FourAnswers(true, o, p, q, DoGet(first, get));
    FourAnswers(false, o, p, q, DoGet(first, get));
    assert TwoPuts(first, second, answer, put) + [DoGet(first, get)] == [o, p, q, DoGet(first, get)];
    HeardKeeps(first, first.baseURL, map[], 0);
    FirstStays(first, second, answer, put, get);
    SecondPutSweeps(first, second, answer, put, get);
  }

  lemma {:induction false} FirstStays(first: Key, second: Key, answer: Answer, put: int, get: int)
    requires first != second && first.baseURL == second.baseURL && get < put
    ensures var early := put - NANOS_PER_MILLI;
            var c := PutOnly(Heard(first.baseURL), first, BRIEF, answer, early);
            Get(PutOnly(c, second, BRIEF, answer, put), first, get) == Some(Stored(answer, BRIEF, early))
  {
    hide Expiry, Keeps;
    var early := put - NANOS_PER_MILLI;
    BriefExpiry(early);
    HeardKeeps(first, first.baseURL, map[], 0);
    HeardKeeps(second, first.baseURL, map[first := Stored(answer, BRIEF, early)], 0);
  }

  lemma {:induction false} FirstPutKeeps(first: Key, answer: Answer, early: int)
    ensures Put(Heard(first.baseURL), first, BRIEF, answer, early)
         == Heard(first.baseURL).(entries := map[first := Stored(answer, BRIEF, early)], sweepAt := 2)
  {
    hide Expiry, Keeps;
    BriefExpiry(early);
    HeardKeeps(first, first.baseURL, map[], 0);
    var kept := PutOnly(Heard(first.baseURL), first, BRIEF, answer, early);
    assert kept.entries == map[first := Stored(answer, BRIEF, early)];
    assert Swept(kept, early) == kept.entries;
  }

  lemma {:induction false} SecondPutSweeps(first: Key, second: Key, answer: Answer, put: int, get: int)
    requires first != second && first.baseURL == second.baseURL
    ensures var c := Put(Heard(first.baseURL), first, BRIEF, answer, put - NANOS_PER_MILLI);
            Get(Put(c, second, BRIEF, answer, put), first, get) == None
  {
    hide Expiry, Keeps;
    var early := put - NANOS_PER_MILLI;
    BriefExpiry(early);
    FirstPutKeeps(first, answer, early);
    var c := Heard(first.baseURL).(entries := map[first := Stored(answer, BRIEF, early)], sweepAt := 2);
    HeardKeeps(second, first.baseURL, c.entries, 2);
    assert c.entries.Keys + {second} == {first, second};
  }

  predicate ReadBy(op: Op, now: int) { op.DoPut? ==> op.now <= now }

  predicate PutsReadBy(ops: seq<Op>, now: int) { forall i :: 0 <= i < |ops| ==> ReadBy(ops[i], now) }

  /** After these operations a get of this key with this reading is answered as if nothing was ever swept. */
  predicate AnsweredAlike(ops: seq<Op>, key: Key, get: int) {
    Answers(true, EMPTY, ops + [DoGet(key, get)]) == Answers(false, EMPTY, ops + [DoGet(key, get)])
  }

  /** A get is safe from sweeping, whatever went before it, exactly when it reads no earlier than any put did. */
  lemma {:induction false} GetIsSafeIff(put: int, get: int)
    ensures (forall ops, key :: GetsFollowPuts(ops) && PutsReadBy(ops, put) ==> AnsweredAlike(ops, key, get))
            <==> put <= get
  {
    if put <= get {
      forall ops, key | GetsFollowPuts(ops) && PutsReadBy(ops, put) ensures AnsweredAlike(ops, key, get) {
        assert forall i :: 0 <= i < |ops| ==> ReadBy(ops[i], put);
        SweepingFromEmpty(ops + [DoGet(key, get)]);
      }
    } else {
      var first, second := Key("", "", "", "", ""), Key("", "", "", "", "c");
      var answer := Answer("", true, "");
      EarlierGetMisses(first, second, answer, put, get);
      var ops := TwoPuts(first, second, answer, put);
      assert GetsFollowPuts(ops) && PutsReadBy(ops, put) && !AnsweredAlike(ops, first, get);
    }
  }

  // ---- Which readings are safe ----

  /** Operations of one kind at one reading. */
  predicate SameReading(a: Op, b: Op) {
    match a
    case DoObserve(_, _) => b.DoObserve?
    case DoGet(_, now) => b.DoGet? && b.now == now
    case DoPut(_, _, _, now) => b.DoPut? && b.now == now
  }

  predicate SameReadings(a: seq<Op>, b: seq<Op>) {
    |a| == |b| && forall i :: 0 <= i < |a| ==> SameReading(a[i], b[i])
  }

  predicate SweepingIsSeen(ops: seq<Op>) { Answers(true, EMPTY, ops) != Answers(false, EMPTY, ops) }

  const ANY_KEY := Key("", "", "", "", "")
  const ANY_ANSWER := Answer("", true, "")
  const SILENT := Header(None, None)
  /** 2^58 milliseconds are a multiple of 2^64 nanoseconds: the answer expires as it is stored. */
  const WRAPPING := Header(Some(0), Some(0x400_0000_0000_0000))

  /** The operation on one key, with a response that brings nothing or, for a chosen put, wraps around. */
  function Muted(op: Op, chosen: bool): Op {
    match op
    case DoObserve(_, _) => DoObserve("", SILENT)
    case DoGet(_, now) => DoGet(ANY_KEY, now)
    case DoPut(_, _, _, now) => DoPut(ANY_KEY, if chosen then WRAPPING else SILENT, ANY_ANSWER, now)
  }

  function MutedBut(ops: seq<Op>, put: int): seq<Op> {
    seq(|ops|, i requires 0 <= i < |ops| => Muted(ops[i], i == put))
  }

  lemma MutedRest(ops: seq<Op>, put: int)
    requires ops != []
    ensures MutedBut(ops, put) != [] && MutedBut(ops, put)[0] == Muted(ops[0], put == 0)
    ensures MutedBut(ops, put)[1..] == MutedBut(ops[1..], put - 1)
  {
  }

  lemma WrappedExpiresAtOnce(now: int)
    ensures Expiry(WRAPPING.maxAge.value, now) == now
  {
    assert 0x400_0000_0000_0000 * NANOS_PER_MILLI == 15625 * 0x1_0000_0000_0000_0000;
  }

  lemma {:induction false} MutedStep(op: Op, chosen: bool)
    ensures Perform(true, EMPTY, Muted(op, chosen)) == EMPTY
    ensures !(chosen && op.DoPut?) ==> forall c :: Perform(false, c, Muted(op, chosen)) == c
  {
    hide Expiry;
    if op.DoPut? { WrappedExpiresAtOnce(op.now); }
  }

  lemma {:induction false} MutedSwept(ops: seq<Op>, put: int)
    ensures forall a :: a in Answers(true, EMPTY, MutedBut(ops, put)) ==> a == None
    decreases |ops|
  {
    if ops != [] {
      hide Perform, Muted;
      MutedRest(ops, put);
      MutedStep(ops[0], put == 0);
      MutedSwept(ops[1..], put - 1);
    }
  }

  /** Once the chosen put has stored its answer, a later get that reads before its expiry is served it. */
  lemma {:induction false} MutedUnswept(c: Cache, ops: seq<Op>, put: int, get: nat)
    requires get < |ops| && ops[get].DoGet? && put < get
    requires if put < 0 then Get(c, ANY_KEY, ops[get].now).Some?
             else c == EMPTY && ops[put].DoPut? && ops[get].now < ops[put].now
    ensures exists a :: a in Answers(false, c, MutedBut(ops, put)) && a.Some?
    decreases |ops|
  {
    hide Expiry, Perform, Muted, MutedBut, Answers;
    MutedRest(ops, put);
    AnswersUnfold(c, MutedBut(ops, put));
    if get == 0 {
      MutedGet(ops[0], put == 0);
    } else {
      var next := Perform(false, c, Muted(ops[0], put == 0));
      if put == 0 { ChosenStores(ops[0], ops[get].now); } else { MutedStep(ops[0], false); }
      MutedUnswept(next, ops[1..], put - 1, get - 1);
    }
  }

  lemma MutedGet(op: Op, chosen: bool)
    requires op.DoGet?
    ensures Muted(op, chosen) == DoGet(ANY_KEY, op.now)
  {
  }

  lemma AnswersUnfold(c: Cache, ops: seq<Op>)
    requires ops != []
    ensures var rest := Answers(false, Perform(false, c, ops[0]), ops[1..]);
            && (forall a :: a in rest ==> a in Answers(false, c, ops))
            && (ops[0].DoGet? ==> Get(c, ops[0].key, ops[0].now) in Answers(false, c, ops))
  {
  }

  lemma {:induction false} ChosenStores(op: Op, get: int)
    requires op.DoPut? && get < op.now
    ensures Get(Perform(false, EMPTY, Muted(op, true)), ANY_KEY, get).Some?
  {
    hide Expiry;
    WrappedExpiresAtOnce(op.now);
  }

  /**
   Readings are safe exactly when no get reads earlier than a put before it: then no run with these readings
   shows whether the cache sweeps, and otherwise one does.
   */
  lemma {:induction false} ReadingsAreSafeIff(ops: seq<Op>)
    ensures (forall run :: SameReadings(ops, run) ==> !SweepingIsSeen(run)) <==> GetsFollowPuts(ops)
  {
    hide Answers, Muted;
    if GetsFollowPuts(ops) {
      forall run | SameReadings(ops, run) ensures !SweepingIsSeen(run) {
        assert forall i :: 0 <= i < |ops| ==> SameReading(ops[i], run[i]);
        SweepingFromEmpty(run);
      }
    } else {
      var put, get :| 0 <= put < get < |ops| && ops[put].DoPut? && ops[get].DoGet? && ops[get].now < ops[put].now;
      MutedSwept(ops, put);
      MutedUnswept(EMPTY, ops, put, get);
      MutedReadings(ops, put);
      assert SweepingIsSeen(MutedBut(ops, put));
    }
  }

  lemma MutedReadings(ops: seq<Op>, put: int)
    ensures SameReadings(ops, MutedBut(ops, put))
  {
  }

  // ---- What was kept is served until it is superseded ----

  /** The operation replaces no answer for the key and brings no newer version from its platform. */
  predicate Spares(c: Cache, op: Op, key: Key) {
    match op
    case DoObserve(_, _) => Version(Perform(true, c, op), key.baseURL) == Version(c, key.baseURL)
    case DoGet(_, _) => true
    case DoPut(other, _, _, _) => other != key
  }

  predicate AllSpare(c: Cache, ops: seq<Op>, key: Key)
    decreases |ops|
  {
    ops == [] || (Spares(c, ops[0], key) && AllSpare(Perform(true, c, ops[0]), ops[1..], key))
  }

  lemma {:induction false} SparedEntryStays(c: Cache, op: Op, key: Key, now: int)
    requires Get(c, key, now).Some? && Spares(c, op, key) && ReadBy(op, now)
    ensures Get(Perform(true, c, op), key, now) == Get(c, key, now)
  {
    hide Expiry;
  }

  /**
   An answer once kept goes on being served, through any number of sweeps, until it expires, its key is put
   again, or a response brings a newer version.
   */
  lemma {:induction false} KeptUntilSuperseded(c: Cache, ops: seq<Op>, key: Key, now: int)
    requires Get(c, key, now).Some? && AllSpare(c, ops, key) && PutsReadBy(ops, now)
    ensures Get(FinalCache(c, ops), key, now) == Get(c, key, now)
    decreases |ops|
  {
    if ops != [] {
      hide Perform, Spares, Get;
      SparedEntryStays(c, ops[0], key, now);
      KeptUntilSuperseded(Perform(true, c, ops[0]), ops[1..], key, now);
    }
  }

  /**
   After a miss, a put's answer is served exactly when the response gave a positive maximum age and the version
   recorded for its platform, and that age, as 64 bits of nanoseconds hold it, has not passed.
   */
  lemma {:induction false} PutIsServedIff(c: Cache, key: Key, h: Header, answer: Answer, stored: int, now: int)
    requires Get(c, key, now) == None && stored <= now
    ensures var served := Get(Put(c, key, h, answer, stored), key, now);
            var recorded := if key.baseURL in c.versions then c.versions[key.baseURL] else 0;
            && (served.Some? <==>
                  && h.maxAge.Some? && h.maxAge.value as int > 0
                  && h.version.Some? && h.version.value as int == recorded
                  && now < stored + WrapInt64(h.maxAge.value as int * 1_000_000))
            && (served.Some? ==> served.value.answer == answer && served.value.version == recorded
                                 && served.value.expires == stored + WrapInt64(h.maxAge.value as int * 1_000_000))
  {
    hide Put, Expiry;
    KeptOrNot(c, key, h, answer, stored, now);
    if h.maxAge.Some? { ExpiryIs(h.maxAge.value, stored); }
  }

  lemma ExpiryIs(maxAge: int64, stored: int)
    ensures Expiry(maxAge, stored) == stored + WrapInt64(maxAge as int * 1_000_000)
  {
    hide WrapInt64;
  }

  lemma {:induction false} KeptOrNot(c: Cache, key: Key, h: Header, answer: Answer, stored: int, now: int)
    requires Get(c, key, now) == None && stored <= now
    ensures Get(Put(c, key, h, answer, stored), key, now)
         == if Keeps(c, key, h) && now < Expiry(h.maxAge.value, stored) then Some(Stored(answer, h, stored)) else None
  {
    hide Expiry;
  }

  // ---- What a put leaves ----

  /**
   A kept put replaces its key's entry and no other. When the entries then are as many as the mark, exactly those a
   get would serve are left and the mark is twice their number; otherwise nothing is dropped and the mark stays.
   */
  lemma {:induction false} PutLeaves(c: Cache, key: Key, h: Header, answer: Answer, now: int)
    requires Keeps(c, key, h)
    ensures var before, after := c.entries[key := Stored(answer, h, now)], Put(c, key, h, answer, now);
            && after.versions == c.versions
            && (|before| < c.sweepAt ==> after.entries == before && after.sweepAt == c.sweepAt)
            && (|before| >= c.sweepAt ==>
                  && after.sweepAt == 2 * |after.entries|
                  && forall k :: k in after.entries <==>
                       && k in before && now < before[k].expires
                       && before[k].version == if k.baseURL in c.versions then c.versions[k.baseURL] else 0)
            && forall k :: k in after.entries ==> k in before && after.entries[k] == before[k]
  {
    hide Expiry;
    SizeAfterKeep(c, key, Stored(answer, h, now));
  }

  // ---- What sweeping costs ----

  /** Entries looked at by the sweeps of a run, and puts the run kept. */
  datatype Bill = Bill(scanned: nat, kept: nat)

  function Charged(c: Cache, op: Op, bill: Bill): Bill {
    if !op.DoPut? then bill
    else
      var looked := |PutOnly(c, op.key, op.header, op.answer, op.now).entries|;
      Bill(
        bill.scanned + if SweepDue(c, op.key, op.header) then looked else 0,
        bill.kept + if Keeps(c, op.key, op.header) then 1 else 0)
  }

  function TotalBill(c: Cache, ops: seq<Op>, bill: Bill): Bill
    decreases |ops|
  {
    if ops == [] then bill else TotalBill(Perform(true, c, ops[0]), ops[1..], Charged(c, ops[0], bill))
  }

  function FinalCache(c: Cache, ops: seq<Op>): Cache
    decreases |ops|
  {
    if ops == [] then c else FinalCache(Perform(true, c, ops[0]), ops[1..])
  }

  /** The map is smaller than the next sweep's mark, and the scans so far are paid for with some left over. */
  predicate PaidFor(c: Cache, bill: Bill) {
    && (|c.entries| < c.sweepAt || c.sweepAt == |c.entries| == 0)
    && bill.scanned + 2 * |c.entries| - c.sweepAt <= 2 * bill.kept
    && c.sweepAt <= 2 * |c.entries|
  }

  /** What is billed: every entry there is whenever a put sweeps, and every put that is kept. */
  lemma {:induction false} ChargedCounts(c: Cache, op: Op, bill: Bill)
    ensures var after := Charged(c, op, bill);
            && (!op.DoPut? || !Keeps(c, op.key, op.header) ==> after == bill)
            && (op.DoPut? && Keeps(c, op.key, op.header) ==>
                  var size := |c.entries[op.key := Stored(op.answer, op.header, op.now)]|;
                  after == Bill(bill.scanned + if size >= c.sweepAt then size else 0, bill.kept + 1))
  {
    hide Expiry;
    if op.DoPut? && Keeps(c, op.key, op.header) {
      SizeAfterKeep(c, op.key, Stored(op.answer, op.header, op.now));
    }
  }

  lemma PaidForCovers(c: Cache, bill: Bill)
    requires PaidFor(c, bill)
    ensures bill.scanned <= 2 * bill.kept
  {
  }

  lemma SizeAfterKeep(c: Cache, key: Key, entry: Entry)
    ensures |c.entries[key := entry]| == |c.entries.Keys + {key}| <= |c.entries| + 1
    ensures |c.entries| <= |c.entries.Keys + {key}| && 1 <= |c.entries.Keys + {key}|
  {
    assert c.entries[key := entry].Keys == c.entries.Keys + {key};
    if key in c.entries { assert c.entries.Keys + {key} == c.entries.Keys; }
  }

  lemma {:induction false} PaidForStep(c: Cache, op: Op, bill: Bill)
    requires PaidFor(c, bill)
    ensures PaidFor(Perform(true, c, op), Charged(c, op, bill))
  {
    hide Expiry;
    if op.DoPut? && Keeps(c, op.key, op.header) {
      SizeAfterKeep(c, op.key, Stored(op.answer, op.header, op.now));
    }
  }

  lemma {:induction false} SweepCostIsAmortised(c: Cache, ops: seq<Op>, bill: Bill)
    requires PaidFor(c, bill)
    ensures var total := TotalBill(c, ops, bill);
            total.scanned <= 2 * total.kept && PaidFor(FinalCache(c, ops), total)
    decreases |ops|
  {
    if ops != [] {
      hide PaidFor, Perform, Charged;
      PaidForStep(c, ops[0], bill);
      SweepCostIsAmortised(Perform(true, c, ops[0]), ops[1..], Charged(c, ops[0], bill));
    }
  }

  lemma EmptyIsPaidFor()
    ensures PaidFor(EMPTY, Bill(0, 0))
  {
  }

  /** Over any run from the empty cache, sweeps look at no more than two entries for each put kept. */
  lemma {:induction false} SweepCostFromEmpty(ops: seq<Op>)
    ensures var total := TotalBill(EMPTY, ops, Bill(0, 0));
            total.scanned <= 2 * total.kept && PaidFor(FinalCache(EMPTY, ops), total)
  {
    EmptyIsPaidFor();
    SweepCostIsAmortised(EMPTY, ops, Bill(0, 0));
  }
}
