/** File-reference keys: backend, time partition, tenant and content digest, in one path-shaped text. */
module FileKeys {
  import opened ByteText
  import opened Calendar

  datatype Key = Key(backend: Bytes, partitionStart: int, partitionEnd: int, tenantID: Bytes, sha256: Bytes)

  const NANOS_PER_SECOND := 1_000_000_000

  predicate Alphanumeric(c: char) { 'a' <= c <= 'z' || 'A' <= c <= 'Z' || '0' <= c <= '9' }

  predicate ValidBackendName(s: Bytes) {
    s != "" && Alphanumeric(s[0]) && forall i :: 0 < i < |s| ==> Alphanumeric(s[i]) || s[i] == '_' || s[i] == '-'
  }

  predicate LowerHex(c: char) { '0' <= c <= '9' || 'a' <= c <= 'f' }

  /** The one form the identifier library prints. */
  predicate CanonicalUUID(s: Bytes) {
    |s| == 36 && forall i :: 0 <= i < 36 ==> if i in [8, 13, 18, 23] then s[i] == '-' else LowerHex(s[i])
  }

  predicate CanonicalDigest(s: Bytes) {
    |s| == 64 && forall i :: 0 <= i < 64 ==> LowerHex(s[i])
  }

  /** A backend name: letters, digits, underscores and hyphens, of which the last two may not come first. */
  lemma {:induction false} BackendNameIff(s: Bytes)
    ensures ValidBackendName(s) <==>
            |s| > 0 && s[0] != '_' && s[0] != '-' && forall i :: 0 <= i < |s| ==>
              var c := s[i] as int; 48 <= c <= 57 || 65 <= c <= 90 || 97 <= c <= 122 || c == 95 || c == 45
  {
    assert s != "" ==> (Alphanumeric(s[0]) <==>
        var c := s[0] as int; 48 <= c <= 57 || 65 <= c <= 90 || 97 <= c <= 122);
  }

  /** Eight, four, four, four and twelve lower-case hexadecimal digits with hyphens between; 64 for a digest. */
  lemma {:induction false} HexFormsIff(s: Bytes)
    ensures CanonicalUUID(s) <==>
            |s| == 36 && s[8] == s[13] == s[18] == s[23] == '-' && forall i :: 0 <= i < 36 ==>
              var c := s[i] as int; 48 <= c <= 57 || 97 <= c <= 102 || i == 8 || i == 13 || i == 18 || i == 23
    ensures CanonicalDigest(s) <==>
            |s| == 64 && forall i :: 0 <= i < 64 ==> var c := s[i] as int; 48 <= c <= 57 || 97 <= c <= 102
  {
  }

  // ---- Partitions ----

  /** The time library's reader: lenient, but it reads every instant as it is written. */
  type TimeReader = Bytes -> Option<int>

  ghost predicate ReadsWritten(read: TimeReader) {
    forall t :: Writable(t) ==> read(FormatTime(t)) == Some(t)
  }

  /** An instant whose text is exactly this one. */
  predicate WrittenAs(t: Option<int>, s: Bytes) { t.Some? && Writable(t.value) && FormatTime(t.value) == s }

  function ParsePartition(read: TimeReader, s: Bytes): Option<(int, int)> {
    var parts := Split(s, '_');
    if |parts| != 2 then None
    else
      var start, end := read(parts[0]), read(parts[1]);
      if WrittenAs(start, parts[0]) && WrittenAs(end, parts[1]) && end.value > start.value
      then Some((start.value, end.value))
      else None
  }

  predicate ValidPartition(start: int, end: int) { Writable(start) && Writable(end) && start < end }

  function PartitionText(start: int, end: int): Bytes
    requires ValidPartition(start, end)
  {
    FormatTime(start) + "_" + FormatTime(end)
  }

  lemma {:induction false} TimeBytes(t: int)
    requires Writable(t)
    ensures '_' !in FormatTime(t) && '/' !in FormatTime(t)
  {
    hide DateOf;
  }

  lemma {:induction false} PartitionIff(read: TimeReader, s: Bytes, start: int, end: int)
    requires ReadsWritten(read)
    ensures ParsePartition(read, s) == Some((start, end))
            <==> ValidPartition(start, end) && s == PartitionText(start, end)
  {
    hide FormatTime;
    var parts := Split(s, '_');
    JoinOfSplit(s, '_');
    if ParsePartition(read, s) == Some((start, end)) {
      assert parts == [parts[0], parts[1]] && parts[1..] == [parts[1]];
    }
    if ValidPartition(start, end) && s == PartitionText(start, end) {
      TimeBytes(start);
      TimeBytes(end);
      var texts := [FormatTime(start), FormatTime(end)];
      assert texts[1..] == [FormatTime(end)];
      SplitOfJoin(texts, '_');
    }
  }

  // ---- Keys ----

  predicate ValidKey(k: Key) {
    && ValidBackendName(k.backend) && ValidPartition(k.partitionStart, k.partitionEnd)
    && CanonicalUUID(k.tenantID) && CanonicalDigest(k.sha256)
  }

  function Parts(k: Key): seq<Bytes>
    requires ValidKey(k)
  {
    [k.backend, PartitionText(k.partitionStart, k.partitionEnd), k.sha256[..2], k.tenantID, k.sha256]
  }

  /** The text of a key, empty when its fields are not valid. */
  function KeyText(k: Key): Bytes { if ValidKey(k) then Join(Parts(k), '/') else "" }

  function ParseKey(read: TimeReader, s: Bytes): Option<Key> {
    var parts := Split(s, '/');
    if |parts| != 5 || !ValidBackendName(parts[0]) then None
    else
      var partition := ParsePartition(read, parts[1]);
      if partition.None? || !CanonicalUUID(parts[3]) || !CanonicalDigest(parts[4]) then None
      else if parts[2] != parts[4][..2] then None
      else Some(Key(parts[0], partition.value.0, partition.value.1, parts[3], parts[4]))
  }

  lemma {:induction false} PartsHaveNoSlash(k: Key)
    requires ValidKey(k)
    ensures forall p :: p in Parts(k) ==> '/' !in p
  {
    hide FormatTime;
    TimeBytes(k.partitionStart);
    TimeBytes(k.partitionEnd);
    forall i | 0 <= i < 36 ensures k.tenantID[i] != '/' {
      assert if i in [8, 13, 18, 23] then k.tenantID[i] == '-' else LowerHex(k.tenantID[i]);
    }
  }

  /** A text parses to a key exactly when the key is valid and this is its text: each undoes the other. */
  lemma {:induction false} ParseKeyIff(read: TimeReader, s: Bytes, k: Key)
    requires ReadsWritten(read)
    ensures ParseKey(read, s) == Some(k) <==> ValidKey(k) && s == KeyText(k)
  {
    hide ValidBackendName, CanonicalUUID, CanonicalDigest, PartitionText, ParsePartition, ValidPartition, Split, Join;
    var parts := Split(s, '/');
    JoinOfSplit(s, '/');
    if |parts| == 5 {
      PartitionIff(read, parts[1], k.partitionStart, k.partitionEnd);
      assert parts == [parts[0], parts[1], parts[2], parts[3], parts[4]];
    }
    DigestLength(k.sha256);
    if ValidKey(k) && s == KeyText(k) {
      PartsHaveNoSlash(k);
      SplitOfJoin(Parts(k), '/');
    }
  }

  /** How the text is laid out: five parts, the third the first two digits of the fifth. */
  lemma {:induction false} KeyLayout(k: Key)
    ensures !ValidKey(k) ==> KeyText(k) == ""
    ensures ValidKey(k) ==>
              KeyText(k) == k.backend + "/" + FormatTime(k.partitionStart) + "_" + FormatTime(k.partitionEnd)
                            + "/" + [k.sha256[0], k.sha256[1]] + "/" + k.tenantID + "/" + k.sha256
  {
    if ValidKey(k) {
      hide FormatTime, CanonicalUUID, ValidBackendName, CanonicalDigest;
      DigestLength(k.sha256);
      var p := Parts(k);
      assert p[1..][1..][1..][1..] == [k.sha256] && p[1..][1..][1..] == [k.tenantID, k.sha256];
      assert p[1..][1..] == [k.sha256[..2], k.tenantID, k.sha256];
      assert Join(p[1..][1..][1..], '/') == k.tenantID + ['/'] + k.sha256;
      assert Join(p[1..][1..], '/') == k.sha256[..2] + ['/'] + (k.tenantID + ['/'] + k.sha256);
      assert Join(p[1..], '/') == p[1] + ['/'] + (k.sha256[..2] + ['/'] + (k.tenantID + ['/'] + k.sha256));
      assert k.sha256[..2] == [k.sha256[0], k.sha256[1]];
    }
  }

  lemma DigestLength(s: Bytes)
    ensures CanonicalDigest(s) ==> |s| == 64
  {
  }

  /** A strict reader of this one form is such a library, so the assumption about it can be met. */
  lemma StrictReaderReadsWritten()
    ensures ReadsWritten(ParseTime)
  {
    forall t | Writable(t) ensures ParseTime(FormatTime(t)) == Some(t) { ParseOfFormat(t); }
  }

  // ---- Keys for new content ----

  /** Start of the window of this length, in nanoseconds, that holds an instant. */
  function WindowStart(at: int, duration: int): int
    requires duration > 0
  {
    at - at % duration
  }

  /** The hash library: a canonical digest for any content. */
  type Digest = Bytes -> Bytes

  function NewKey(
      digest: Digest, backend: Bytes, tenantID: Bytes, storedAt: int, duration: int, content: Bytes): Option<Key>
  {
    if !ValidBackendName(backend) then None
    else if duration < NANOS_PER_SECOND || duration % NANOS_PER_SECOND != 0 then None
    else if !CanonicalUUID(tenantID) then None
    else
      var start := WindowStart(storedAt, duration) / NANOS_PER_SECOND;
      var end := start + duration / NANOS_PER_SECOND;
      if start < 0 || end >= TIME_LIMIT then None
      else Some(Key(backend, start, end, tenantID, digest(content)))
  }

  lemma {:induction false} WindowIsWhole(at: int, duration: int)
    requires duration >= NANOS_PER_SECOND && duration % NANOS_PER_SECOND == 0
    ensures WindowStart(at, duration) == WindowStart(at, duration) / NANOS_PER_SECOND * NANOS_PER_SECOND
  {
    var seconds, windows := duration / NANOS_PER_SECOND, at / duration;
    assert duration == seconds * NANOS_PER_SECOND;
    assert WindowStart(at, duration) == windows * duration;
    assert windows * duration == (windows * seconds) * NANOS_PER_SECOND by {
      MulAssociates(windows, seconds, NANOS_PER_SECOND);
    }
  }

  lemma MulAssociates(a: int, b: int, c: int)
    ensures a * (b * c) == (a * b) * c
  {
  }

  /** A new key's window holds the stored instant, is exactly as long as asked, and its text parses back to it. */
  lemma {:induction false} NewKeyRoundTrip(
      read: TimeReader, digest: Digest, backend: Bytes, tenantID: Bytes, storedAt: int, duration: int, content: Bytes)
    requires ReadsWritten(read) && CanonicalDigest(digest(content))
    ensures var r := NewKey(digest, backend, tenantID, storedAt, duration, content);
            r.Some? ==>
              var k := r.value;
              && k.backend == backend && k.tenantID == tenantID && k.sha256 == digest(content)
              && ParseKey(read, KeyText(k)) == Some(k)
              && k.partitionStart * NANOS_PER_SECOND <= storedAt < k.partitionEnd * NANOS_PER_SECOND
              && (k.partitionEnd - k.partitionStart) * NANOS_PER_SECOND == duration
              && k.partitionStart * NANOS_PER_SECOND % duration == 0
  {
    hide ParseKey, KeyText, ValidBackendName, CanonicalUUID, CanonicalDigest;
    var r := NewKey(digest, backend, tenantID, storedAt, duration, content);
    if r.Some? {
      WindowIsWhole(storedAt, duration);
      ParseKeyIff(read, KeyText(r.value), r.value);
      WindowAligned(storedAt, duration);
    }
  }

  lemma WindowAligned(at: int, duration: int)
    requires duration > 0
    ensures WindowStart(at, duration) % duration == 0
  {
    MultipleHasNoRest(at / duration, duration);
  }

  lemma MultipleHasNoRest(a: int, d: int)
    requires d > 0
    ensures a * d % d == 0
  {
    var q, r := a * d / d, a * d % d;
    assert a * d == q * d + r;
    if a < q { AtLeastOneApart(a, q, d); }
    if q < a { AtLeastOneApart(q, a, d); }
  }

  /** Two windows of one length are the same or do not meet. */
  lemma {:induction false} WindowsAgreeOrApart(a: int, b: int, duration: int)
    requires duration > 0
    ensures var x, y := WindowStart(a, duration), WindowStart(b, duration);
            x == y || x + duration <= y || y + duration <= x
  {
    var p, q := a / duration, b / duration;
    assert WindowStart(a, duration) == p * duration && WindowStart(b, duration) == q * duration;
    if p < q { AtLeastOneApart(p, q, duration); }
    if q < p { AtLeastOneApart(q, p, duration); }
  }

  lemma NotNegative(k: int, d: int)
    requires k >= 0 && d >= 0
    ensures k * d >= 0
  {
  }

  lemma AtLeastOneApart(p: int, q: int, d: int)
    requires p < q && d > 0
    ensures p * d + d <= q * d
  {
    NotNegative(q - p - 1, d);
    assert (q - p - 1) * d == q * d - p * d - d;
  }

  /** Exactly when a key is made at all. */
  lemma {:induction false} NewKeyIff(
      digest: Digest, backend: Bytes, tenantID: Bytes, storedAt: int, duration: int, content: Bytes)
    ensures NewKey(digest, backend, tenantID, storedAt, duration, content).Some? <==>
            && ValidBackendName(backend) && CanonicalUUID(tenantID)
            && duration >= NANOS_PER_SECOND && duration % NANOS_PER_SECOND == 0
            && 0 <= WindowStart(storedAt, duration)
            && WindowStart(storedAt, duration) + duration < TIME_LIMIT * NANOS_PER_SECOND
  {
    if duration >= NANOS_PER_SECOND && duration % NANOS_PER_SECOND == 0 { WindowIsWhole(storedAt, duration); }
  }
}
