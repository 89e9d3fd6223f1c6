/** The order Go compares strings in: byte by byte, a proper prefix first. */
module ByteOrder {
  import opened ByteText

  predicate Less(a: Bytes, b: Bytes) {
    b != "" && (a == "" || a[0] < b[0] || (a[0] == b[0] && Less(a[1..], b[1..])))
  }

  /** Where the two first differ: there the first is smaller, or it ends. */
  predicate SmallerAt(a: Bytes, b: Bytes, n: nat) {
    n <= |a| && n < |b| && a[..n] == b[..n] && (n == |a| || a[n] < b[n])
  }

  lemma {:induction false} LessIff(a: Bytes, b: Bytes)
    ensures Less(a, b) <==> exists n: nat :: SmallerAt(a, b, n)
  {
    if a != "" && b != "" && a[0] == b[0] {
      LessIff(a[1..], b[1..]);
      assert a == [a[0]] + a[1..] && b == [b[0]] + b[1..];
      assert !SmallerAt(a, b, 0);
      forall n: nat | 0 < n && SmallerAt(a, b, n) ensures SmallerAt(a[1..], b[1..], n - 1) {
        assert a[1..][..n - 1] == a[..n][1..] && b[1..][..n - 1] == b[..n][1..];
      }
      forall n: nat | SmallerAt(a[1..], b[1..], n) ensures SmallerAt(a, b, n + 1) {
        assert a[..n + 1] == [a[0]] + a[1..][..n] && b[..n + 1] == [b[0]] + b[1..][..n];
      }
    } else {
      assert Less(a, b) ==> SmallerAt(a, b, 0);
      forall n: nat | SmallerAt(a, b, n) ensures n == 0 {
        if n > 0 { SamePrefixHead(a, b, n); }
      }
    }
  }

  lemma SamePrefixHead(a: Bytes, b: Bytes, n: nat)
    requires 0 < n <= |a| && n <= |b| && a[..n] == b[..n]
    ensures a[0] == b[0]
  {
    assert a[..n][0] == b[..n][0];
  }

  lemma {:induction false} LessTransitive(a: Bytes, b: Bytes, c: Bytes)
    requires Less(a, b) && Less(b, c)
    ensures Less(a, c)
  {
    if a != "" && a[0] == b[0] == c[0] { LessTransitive(a[1..], b[1..], c[1..]); }
  }

  lemma {:induction false} LessIrreflexive(a: Bytes)
    ensures !Less(a, a)
  {
    if a != "" { LessIrreflexive(a[1..]); }
  }

  lemma {:induction false} LessTotal(a: Bytes, b: Bytes)
    ensures Less(a, b) || a == b || Less(b, a)
  {
    if a != "" && b != "" && a[0] == b[0] {
      LessTotal(a[1..], b[1..]);
      assert a == [a[0]] + a[1..] && b == [b[0]] + b[1..];
    }
  }

  predicate NotAfter(a: Bytes, b: Bytes) { a == b || Less(a, b) }

  lemma NotAfterTransitive(a: Bytes, b: Bytes, c: Bytes)
    requires NotAfter(a, b) && NotAfter(b, c)
    ensures NotAfter(a, c)
  {
    if a != b && b != c { LessTransitive(a, b, c); }
  }
}
