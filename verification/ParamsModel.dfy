/**
 The parameter cache as values: what each atomic step does to it, and what every interleaving of
 concurrent lookups therefore keeps.
 */
module ParamsModel {
  import opened ByteText
  import opened MachineInts

  /** Everything that changes an answer: the platform, the identity asking, its tenant and the code. */
  datatype Key = Key(baseURL: Bytes, token: Bytes, tenantID: Bytes, tenantCode: Bytes, code: Bytes)

  datatype Answer = Answer(value: Bytes, found: bool, source: Bytes)

  /** Instants are nanoseconds on one clock. */
  datatype Entry = Entry(answer: Answer, version: int, expires: int)

  /** The two parameter headers of a response, each absent when missing or no 64-bit decimal. */
  datatype Header = Header(version: Option<int64>, maxAge: Option<int64>)

  datatype Cache = Cache(versions: map<Bytes, int>, entries: map<Key, Entry>, sweepAt: int)

  const EMPTY := Cache(map[], map[], 0)

  const NANOS_PER_MILLI := 1_000_000

  function Version(c: Cache, baseURL: Bytes): int {
    if baseURL in c.versions then c.versions[baseURL] else 0
  }

  function Observe(c: Cache, baseURL: Bytes, h: Header): Cache {
    if h.version.Some? && h.version.value as int > Version(c, baseURL)
    then c.(versions := c.versions[baseURL := h.version.value as int])
    else c
  }

  predicate Servable(c: Cache, key: Key, entry: Entry, now: int) {
    entry.version == Version(c, key.baseURL) && now < entry.expires
  }

  function Get(c: Cache, key: Key, now: int): Option<Entry> {
    if key in c.entries && Servable(c, key, c.entries[key], now) then Some(c.entries[key]) else None
  }

  /** The expiry a maximum age gives: the product of two 64-bit durations, which may wrap around. */
  function Expiry(maxAge: int64, now: int): int {
    now + WrapInt64(maxAge as int * NANOS_PER_MILLI)
  }

  /** A read the platform allows to be kept and that is not stale on arrival. */
  predicate Keeps(c: Cache, key: Key, h: Header) {
    && h.maxAge.Some? && h.maxAge.value > 0
    && h.version.Some? && h.version.value as int == Version(c, key.baseURL)
  }

  function Stored(answer: Answer, h: Header, now: int): Entry
    requires h.maxAge.Some? && h.version.Some?
  {
    Entry(answer, h.version.value as int, Expiry(h.maxAge.value, now))
  }

  function Swept(c: Cache, now: int): map<Key, Entry> {
    map key | key in c.entries && Servable(c, key, c.entries[key], now) :: c.entries[key]
  }

  /** A put that never sweeps. */
  function PutOnly(c: Cache, key: Key, h: Header, answer: Answer, now: int): Cache {
    if Keeps(c, key, h) then c.(entries := c.entries[key := Stored(answer, h, now)]) else c
  }

  predicate SweepDue(c: Cache, key: Key, h: Header) {
    Keeps(c, key, h) && |c.entries.Keys + {key}| >= c.sweepAt
  }

  function Put(c: Cache, key: Key, h: Header, answer: Answer, now: int): Cache {
    var kept := PutOnly(c, key, h, answer, now);
    if SweepDue(c, key, h) then
      var left := Swept(kept, now);
      kept.(entries := left, sweepAt := 2 * |left|)
    else kept
  }

  // ---- Interleaved lookups ----

  /** Where one lookup is: before its get, waiting for its response, or about to store it. */
  datatype Phase = Idle | Asking(key: Key) | Holding(key: Key, header: Header, answer: Answer)

  datatype Event =
    | Hit(thread: nat, key: Key, now: int, entry: Entry)
    | Miss(thread: nat, key: Key, now: int)
    /** The response arrives and is observed before its body can be stored. */
    | Respond(thread: nat, header: Header, answer: Answer)
    /** The lookup fails, after observing a response or without one. */
    | Fail(thread: nat, observed: Option<Header>)
    | Store(thread: nat, now: int)
    /** Any other response from a platform. */
    | Foreign(baseURL: Bytes, header: Header)

  datatype System = System(cache: Cache, threads: map<nat, Phase>)

  const START := System(EMPTY, map[])

  function PhaseOf(s: System, thread: nat): Phase {
    if thread in s.threads then s.threads[thread] else Idle
  }

  predicate Enabled(s: System, e: Event) {
    match e
    case Hit(t, key, now, entry) => PhaseOf(s, t).Idle? && Get(s.cache, key, now) == Some(entry)
    case Miss(t, key, now) => PhaseOf(s, t).Idle? && Get(s.cache, key, now) == None
    case Respond(t, _, _) => PhaseOf(s, t).Asking?
    case Fail(t, _) => PhaseOf(s, t).Asking?
    case Store(t, _) => PhaseOf(s, t).Holding?
    case Foreign(_, _) => true
  }

  function Apply(s: System, e: Event): System
    requires Enabled(s, e)
  {
    match e
    case Hit(_, _, _, _) => s
    case Miss(t, key, _) => s.(threads := s.threads[t := Asking(key)])
    case Respond(t, h, answer) =>
      var key := PhaseOf(s, t).key;
      System(Observe(s.cache, key.baseURL, h), s.threads[t := Holding(key, h, answer)])
    case Fail(t, observed) =>
      var cache := if observed.Some? then Observe(s.cache, PhaseOf(s, t).key.baseURL, observed.value) else s.cache;
      System(cache, s.threads[t := Idle])
    case Store(t, now) =>
      var p := PhaseOf(s, t);
      System(Put(s.cache, p.key, p.header, p.answer, now), s.threads[t := Idle])
    case Foreign(baseURL, h) => s.(cache := Observe(s.cache, baseURL, h))
  }

  /** The state after these events, if each could happen when it did. */
  function Reach(events: seq<Event>): Option<System>
    decreases |events|
  {
    if events == [] then Some(START)
    else
      match Reach(events[..|events| - 1])
      case None => None
      case Some(s) => if Enabled(s, events[|events| - 1]) then Some(Apply(s, events[|events| - 1])) else None
  }

  predicate Possible(events: seq<Event>) { Reach(events).Some? }

  function After(events: seq<Event>): System
    requires Possible(events)
  {
    Reach(events).value
  }

  /** The version an event received from a platform, if it received one. */
  ghost function Received(s: System, e: Event, baseURL: Bytes): Option<int64> {
    match e
    case Respond(t, h, _) =>
      if PhaseOf(s, t).Asking? && PhaseOf(s, t).key.baseURL == baseURL then h.version else None
    case Fail(t, Some(h)) =>
      if PhaseOf(s, t).Asking? && PhaseOf(s, t).key.baseURL == baseURL then h.version else None
    case Foreign(url, h) => if url == baseURL then h.version else None
    case _ => None
  }

  /** The newest parameter version any response from this platform has carried; 0 before the first. */
  ghost function Newest(events: seq<Event>, baseURL: Bytes): int
    requires Possible(events)
    decreases |events|
  {
    if events == [] then 0
    else
      var before := events[..|events| - 1];
      var newest := Newest(before, baseURL);
      match Received(After(before), events[|events| - 1], baseURL)
      case Some(v) => if v as int > newest then v as int else newest
      case None => newest
  }

  lemma PossiblePrefix(events: seq<Event>, n: nat)
    requires Possible(events) && n <= |events|
    ensures Possible(events[..n])
    decreases |events|
  {
    if n == |events| {
      assert events[..n] == events;
    } else {
      var before := events[..|events| - 1];
      assert events[..n] == before[..n];
      PossiblePrefix(before, n);
    }
  }

  /** The thread asked for this key and this response answered it, before event `n`. */
  ghost predicate Answered(events: seq<Event>, n: nat, thread: nat, key: Key, h: Header, answer: Answer)
    requires Possible(events) && n <= |events|
  {
    exists i :: 0 <= i < n && AnsweredAt(events, i, thread, key, h, answer)
  }

  ghost predicate AnsweredAt(events: seq<Event>, i: nat, thread: nat, key: Key, h: Header, answer: Answer)
    requires Possible(events) && i < |events|
  {
    PossiblePrefix(events, i);
    events[i] == Respond(thread, h, answer) && PhaseOf(After(events[..i]), thread) == Asking(key)
  }

  /** Event `i` stored this entry under this key, from a response that answered a lookup of that key. */
  ghost predicate StoredAt(events: seq<Event>, i: nat, key: Key, entry: Entry)
    requires Possible(events) && i < |events|
  {
    exists thread, now, h, answer ::
      && events[i] == Store(thread, now)
      && Answered(events, i, thread, key, h, answer)
      && h.maxAge.Some? && h.maxAge.value > 0 && h.version.Some?
      && entry == Stored(answer, h, now)
  }

  // ---- What every reachable state keeps ----

  ghost predicate VersionsAreNewest(events: seq<Event>)
    requires Possible(events)
  {
    forall baseURL :: Version(After(events).cache, baseURL) == Newest(events, baseURL)
  }

  ghost predicate HoldersWereAnswered(events: seq<Event>)
    requires Possible(events)
  {
    var s := After(events);
    forall t :: PhaseOf(s, t).Holding? ==>
      var p := PhaseOf(s, t); Answered(events, |events|, t, p.key, p.header, p.answer)
  }

  ghost predicate EntriesWereStored(events: seq<Event>)
    requires Possible(events)
  {
    forall key :: key in After(events).cache.entries ==> WasStored(events, key, After(events).cache.entries[key])
  }

  ghost predicate WasStored(events: seq<Event>, key: Key, entry: Entry)
    requires Possible(events)
  {
    exists i :: 0 <= i < |events| && StoredAt(events, i, key, entry)
  }

  /** No entry is newer than the version recorded for its platform. */
  ghost predicate NoneNewer(c: Cache) {
    forall key :: key in c.entries ==> c.entries[key].version <= Version(c, key.baseURL)
  }

  lemma LastStep(events: seq<Event>, e: Event)
    requires Possible(events + [e])
    ensures Possible(events) && Enabled(After(events), e) && After(events + [e]) == Apply(After(events), e)
    ensures forall baseURL :: Newest(events + [e], baseURL)
              == match Received(After(events), e, baseURL)
                 case Some(v) => if v as int > Newest(events, baseURL) then v as int else Newest(events, baseURL)
                 case None => Newest(events, baseURL)
  {
    assert (events + [e])[..|events|] == events;
  }

  lemma {:induction false} VersionsStep(events: seq<Event>, e: Event)
    requires Possible(events) && Possible(events + [e]) && VersionsAreNewest(events)
    ensures VersionsAreNewest(events + [e])
  {
    hide Reach, Newest, Get, Keeps;
    LastStep(events, e);
  }

  lemma {:induction false} HoldersStep(events: seq<Event>, e: Event)
    requires Possible(events) && Possible(events + [e]) && HoldersWereAnswered(events)
    ensures HoldersWereAnswered(events + [e])
  {
    hide Reach, Newest, Observe, Put, Get, Answered;
    LastStep(events, e);
    var s, all := After(events + [e]), events + [e];
    forall t | PhaseOf(s, t).Holding?
      ensures var p := PhaseOf(s, t); Answered(all, |all|, t, p.key, p.header, p.answer)
    {
      var p := PhaseOf(s, t);
      if e.Respond? && e.thread == t {
        JustAnswered(events, e);
      } else {
        assert PhaseOf(After(events), t) == p;
        AnsweredLater(events, e, |events|, t, p.key, p.header, p.answer);
        AnsweredGrows(all, |events|, |all|, t, p.key, p.header, p.answer);
      }
    }
  }

  lemma {:induction false} JustAnswered(events: seq<Event>, e: Event)
    requires Possible(events) && Possible(events + [e]) && e.Respond? && PhaseOf(After(events), e.thread).Asking?
    ensures var key := PhaseOf(After(events), e.thread).key;
            Answered(events + [e], |events| + 1, e.thread, key, e.header, e.answer)
  {
    hide Reach;
    var all := events + [e];
    assert all[..|events|] == events;
    assert AnsweredAt(all, |events|, e.thread, PhaseOf(After(events), e.thread).key, e.header, e.answer);
  }

  lemma AnsweredGrows(events: seq<Event>, m: nat, n: nat, t: nat, key: Key, h: Header, answer: Answer)
    requires Possible(events) && m <= n <= |events| && Answered(events, m, t, key, h, answer)
    ensures Answered(events, n, t, key, h, answer)
  {
    hide Reach;
  }

  lemma {:induction false} EntriesStep(events: seq<Event>, e: Event)
    requires Possible(events) && Possible(events + [e]) && HoldersWereAnswered(events) && EntriesWereStored(events)
    ensures EntriesWereStored(events + [e])
  {
    hide Reach, Newest, Observe, Answered, StoredAt;
    LastStep(events, e);
    var s, next, all := After(events), After(events + [e]), events + [e];
    forall key | key in next.cache.entries
      ensures WasStored(all, key, next.cache.entries[key])
    {
      var entry := next.cache.entries[key];
      EntryOrigin(s, e, key);
      if key in s.cache.entries && s.cache.entries[key] == entry {
        var i :| 0 <= i < |events| && StoredAt(events, i, key, entry);
        StoredAtLater(events, e, i, key, entry);
      } else {
        JustStored(events, e);
      }
    }
  }

  /** An entry in the cache after an event was there before it, or the event stored it. */
  lemma {:induction false} EntryOrigin(s: System, e: Event, key: Key)
    requires Enabled(s, e) && key in Apply(s, e).cache.entries
    ensures var entry := Apply(s, e).cache.entries[key];
            || (key in s.cache.entries && s.cache.entries[key] == entry)
            || (e.Store? && PhaseOf(s, e.thread).key == key
                && var p := PhaseOf(s, e.thread);
                   Keeps(s.cache, key, p.header) && entry == Stored(p.answer, p.header, e.now))
  {
  }

  lemma {:induction false} JustStored(events: seq<Event>, e: Event)
    requires Possible(events) && Possible(events + [e]) && HoldersWereAnswered(events)
    requires e.Store? && PhaseOf(After(events), e.thread).Holding?
    requires var p := PhaseOf(After(events), e.thread); Keeps(After(events).cache, p.key, p.header)
    ensures var p := PhaseOf(After(events), e.thread);
            WasStored(events + [e], p.key, Stored(p.answer, p.header, e.now))
  {
    hide Reach, Answered;
    var p, all := PhaseOf(After(events), e.thread), events + [e];
    AnsweredLater(events, e, |events|, e.thread, p.key, p.header, p.answer);
    assert all[|events|] == Store(e.thread, e.now);
    assert StoredAt(all, |events|, p.key, Stored(p.answer, p.header, e.now));
  }

  lemma {:induction false} Sound(events: seq<Event>)
    requires Possible(events)
    ensures VersionsAreNewest(events) && HoldersWereAnswered(events) && EntriesWereStored(events)
    ensures NoneNewer(After(events).cache)
    decreases |events|
  {
    if events != [] {
      hide Reach, VersionsAreNewest, HoldersWereAnswered, EntriesWereStored;
      var before, e := events[..|events| - 1], events[|events| - 1];
      assert events == before + [e];
      LastStep(before, e);
      Sound(before);
      VersionsStep(before, e);
      HoldersStep(before, e);
      EntriesStep(before, e);
      NoneNewerStep(After(before), e);
    }
  }

  lemma {:induction false} NoneNewerStep(s: System, e: Event)
    requires Enabled(s, e) && NoneNewer(s.cache)
    ensures NoneNewer(Apply(s, e).cache)
  {
    forall key | key in Apply(s, e).cache.entries
      ensures Apply(s, e).cache.entries[key].version <= Version(Apply(s, e).cache, key.baseURL)
    {
      EntryOrigin(s, e, key);
    }
  }

  // ---- What a hit means ----

  /**
   Over every interleaving: a hit is an answer some lookup of the same key received and stored, at exactly
   the newest version received from that platform so far, and strictly before it expires.
   */
  lemma {:induction false} HitIsCurrent(events: seq<Event>, hit: Event)
    requires hit.Hit? && Possible(events + [hit])
    ensures Possible(events)
    ensures hit.entry.version == Newest(events, hit.key.baseURL) && hit.now < hit.entry.expires
    ensures WasStored(events, hit.key, hit.entry)
  {
    hide Reach, Newest, WasStored;
    LastStep(events, hit);
    Sound(events);
  }

  /** A platform's answers, which change only when its parameter version does. */
  type Platform = (Bytes, int, Key) -> Answer

  /** Every response that answered a lookup said what the platform says at the version it carried. */
  ghost predicate Honest(events: seq<Event>, platform: Platform)
    requires Possible(events)
  {
    forall i, t, key, h, answer ::
      0 <= i < |events| && AnsweredAt(events, i, t, key, h, answer) && h.version.Some?
      ==> answer == platform(key.baseURL, h.version.value as int, key)
  }

  /** Hence a hit is what the platform would answer at the newest version the process has heard of. */
  lemma {:induction false} HitIsFresh(events: seq<Event>, hit: Event, platform: Platform)
    requires hit.Hit? && Possible(events + [hit]) && Possible(events) && Honest(events, platform)
    ensures hit.entry.answer == platform(hit.key.baseURL, Newest(events, hit.key.baseURL), hit.key)
  {
    hide Reach, Newest;
    HitIsCurrent(events, hit);
    var i :| 0 <= i < |events| && StoredAt(events, i, hit.key, hit.entry);
  }

  /** A wrapped product only shortens the age the platform gave. */
  lemma ExpiryWithinAge(maxAge: int64, stored: int)
    requires maxAge > 0
    ensures Expiry(maxAge, stored) <= stored + maxAge as int * NANOS_PER_MILLI
  {
  }

  /** Event `i` stored this answer from a response to a lookup of this key, and its age had not passed at `now`. */
  ghost predicate WithinAge(events: seq<Event>, i: nat, key: Key, answer: Answer, now: int)
    requires Possible(events) && i < |events|
  {
    exists thread, stored, h ::
      && events[i] == Store(thread, stored)
      && Answered(events, i, thread, key, h, answer)
      && h.maxAge.Some? && now < stored + h.maxAge.value as int * NANOS_PER_MILLI
  }

  /** Over every interleaving: nothing is served past the age its own response was given with. */
  lemma {:induction false} NeverServedTooLong(events: seq<Event>, hit: Event)
    requires hit.Hit? && Possible(events + [hit])
    ensures Possible(events)
    ensures exists i :: 0 <= i < |events| && WithinAge(events, i, hit.key, hit.entry.answer, hit.now)
  {
    hide Reach, Newest, Expiry, Answered;
    HitIsCurrent(events, hit);
    var i :| 0 <= i < |events| && StoredAt(events, i, hit.key, hit.entry);
    var thread, stored, h, answer :|
      && events[i] == Store(thread, stored)
      && Answered(events, i, thread, hit.key, h, answer)
      && h.maxAge.Some? && h.maxAge.value > 0 && h.version.Some?
      && hit.entry == Stored(answer, h, stored);
    ExpiryWithinAge(h.maxAge.value, stored);
    assert WithinAge(events, i, hit.key, hit.entry.answer, hit.now);
  }

  /** The whole age is granted exactly when its nanoseconds fit in 64 bits. */
  lemma {:induction false} WholeAgeIff(maxAge: int64, stored: int)
    requires maxAge > 0
    ensures Expiry(maxAge, stored) == stored + maxAge as int * NANOS_PER_MILLI <==> maxAge <= 9_223_372_036_854
  {
  }

  lemma {:induction false} StoredAtLater(events: seq<Event>, e: Event, i: nat, key: Key, entry: Entry)
    requires Possible(events) && Possible(events + [e]) && i < |events| && StoredAt(events, i, key, entry)
    ensures StoredAt(events + [e], i, key, entry)
  {
    hide Reach, Stored;
    var thread, now, h, answer :|
      && events[i] == Store(thread, now)
      && Answered(events, i, thread, key, h, answer)
      && h.maxAge.Some? && h.maxAge.value > 0 && h.version.Some?
      && entry == Stored(answer, h, now);
    AnsweredLater(events, e, i, thread, key, h, answer);
    assert (events + [e])[i] == Store(thread, now);
  }

  lemma {:induction false} AnsweredLater(
      events: seq<Event>, e: Event, n: nat, t: nat, key: Key, h: Header, answer: Answer)
    requires Possible(events) && Possible(events + [e]) && n <= |events| && Answered(events, n, t, key, h, answer)
    ensures Answered(events + [e], n, t, key, h, answer)
  {
    hide Reach;
    var j :| 0 <= j < n && AnsweredAt(events, j, t, key, h, answer);
    PossiblePrefix(events, j);
    assert (events + [e])[..j] == events[..j];
    assert AnsweredAt(events + [e], j, t, key, h, answer);
  }
}
