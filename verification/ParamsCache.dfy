/** The shared cache itself: two maps and a mark, updated in place under one lock. */
module ParamsCaches {
  import opened ByteText
  import opened MachineInts
  import opened ParamsModel
  import opened ParamsSweep

  class ParamsCache {
    var versions: map<Bytes, int>
    var entries: map<Key, Entry>
    var sweepAt: int
    /** What sweeps have cost so far, and the puts they are charged to. */
    ghost var bill: Bill

    ghost function Abs(): Cache
      reads this
    {
      Cache(versions, entries, sweepAt)
    }

    constructor ()
      ensures Abs() == EMPTY && PaidFor(Abs(), bill) && bill == Bill(0, 0)
    {
      versions, entries, sweepAt, bill := map[], map[], 0, Bill(0, 0);
    }

    /** The newest version received from a platform; a missing one reads as zero. */
    method VersionOf(baseURL: Bytes) returns (version: int)
      ensures version == Version(Abs(), baseURL)
    {
      version := if baseURL in versions then versions[baseURL] else 0;
    }

    method ObserveResponse(baseURL: Bytes, h: Header)
      modifies this`versions
      ensures Abs() == Observe(old(Abs()), baseURL, h)
    {
      if h.version == None { return; }
      var known := VersionOf(baseURL);
      if h.version.value as int > known {
        versions := versions[baseURL := h.version.value as int];
      }
    }

    method GetEntry(key: Key, now: int) returns (found: Option<Entry>)
      ensures found == Get(Abs(), key, now)
    {
      if key !in entries { return None; }
      var entry := entries[key];
      var version := VersionOf(key.baseURL);
      if entry.version != version || !(now < entry.expires) { return None; }
      found := Some(entry);
    }

    method PutEntry(key: Key, h: Header, answer: Answer, now: int)
      requires PaidFor(Abs(), bill)
      modifies this
      ensures Abs() == Put(old(Abs()), key, h, answer, now)
      ensures bill == Charged(old(Abs()), DoPut(key, h, answer, now), old(bill)) && PaidFor(Abs(), bill)
      ensures bill.scanned <= 2 * bill.kept
    {
      hide PaidFor, Expiry;
      PaidForStep(Abs(), DoPut(key, h, answer, now), bill);
      PaidForCovers(Put(Abs(), key, h, answer, now), Charged(Abs(), DoPut(key, h, answer, now), bill));
      if h.maxAge == None || h.maxAge.value <= 0 { return; }
      if h.version == None { return; }
      var entry := Entry(answer, h.version.value as int, Expiry(h.maxAge.value, now));
      var version := VersionOf(key.baseURL);
      if h.version.value as int != version { return; }
      SizeAfterKeep(Abs(), key, entry);
      entries := entries[key := entry];
      bill := bill.(kept := bill.kept + 1);
      if |entries| >= sweepAt {
        DropUnservable(now);
        sweepAt := 2 * |entries|;
      }
    }

    /** Looks at every entry once and deletes those a get would refuse. */
    method DropUnservable(now: int)
      modifies this`entries, this`bill
      ensures entries == Swept(old(Abs()), now)
      ensures bill == old(bill).(scanned := old(bill).scanned + |old(entries)|)
    {
      var todo := entries.Keys;
      while todo != {}
        invariant todo <= old(entries).Keys && entries.Keys <= old(entries).Keys
        invariant forall k :: k in todo ==> k in entries
        invariant forall k :: k in entries ==> entries[k] == old(entries)[k]
        invariant forall k :: k in old(entries) && k !in todo ==>
                    (k in entries <==> Servable(old(Abs()), k, old(entries)[k], now))
        invariant bill == old(bill).(scanned := old(bill).scanned + |old(entries).Keys| - |todo|)
        decreases |todo|
      {
        var key :| key in todo;
        todo := todo - {key};
        bill := bill.(scanned := bill.scanned + 1);
        var version := VersionOf(key.baseURL);
        if entries[key].version != version || !(now < entries[key].expires) {
          entries := entries - {key};
        }
      }
    }
  }
}
