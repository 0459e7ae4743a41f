/** Values shared by every component: optional values, results, and the
    exceptions the Java code raises or swallows. */
module Common {

  datatype Option<T> = None | Some(value: T)

  datatype Result<T> = Ok(value: T) | Err(error: Error)

  /** The exceptions that matter to the cluster code.
      - IndexOutOfBounds: `List.get` with a bad index (an unchecked exception).
      - CoordinationFailure: a `KeeperException` such as a lost connection, or an
        `InterruptedException`, raised by a call to the coordination service.
      - NoNode, NodeExists: the `KeeperException`s for a missing or an already
        present node.
      - NumberFormat: `new BigInteger(s)` on a string that is not an integer.
      - NullPointer: a method called on `null`, such as comparing a name that
        was never set.
      - Io: an `IOException` of the HTTP exchange, such as response headers
        sent a second time. */
  datatype Error = IndexOutOfBounds | CoordinationFailure | NoNode | NodeExists | NumberFormat | NullPointer | Io

  /** Concatenation is associative; stated over any element type so that the
      proofs that use it never see what the elements are. */
  lemma AppendAssociative<T>(a: seq<T>, b: seq<T>, c: seq<T>)
    ensures a + (b + c) == (a + b) + c
  {
  }

  /** A prefix of a prefix is a prefix of the whole. */
  lemma TakeOfTake<T>(s: seq<T>, m: nat, n: nat)
    requires m <= n <= |s|
    ensures s[..n][..m] == s[..m]
  {
  }

  /** Multisets that agree once the same element is added to both agree. */
  lemma AddCancels<T>(p: multiset<T>, q: multiset<T>, x: T)
    requires p + multiset{x} == q + multiset{x}
    ensures p == q
  {
    assert p == (p + multiset{x}) - multiset{x};
    assert q == (q + multiset{x}) - multiset{x};
  }

  /** Lists with the same elements have the same length. */
  lemma SameLength<T>(a: seq<T>, b: seq<T>)
    requires multiset(a) == multiset(b)
    ensures |a| == |b|
  {
    assert |a| == |multiset(a)| == |multiset(b)| == |b|;
  }

  /** Lists with the same elements and the same first element have tails
      with the same elements. */
  lemma SameTails<T>(a: seq<T>, b: seq<T>)
    requires multiset(a) == multiset(b) && |a| > 0 && |b| > 0 && a[0] == b[0]
    ensures multiset(a[1..]) == multiset(b[1..])
  {
    assert a == [a[0]] + a[1..] && b == [b[0]] + b[1..];
    assert multiset(a[1..]) + multiset{a[0]} == multiset(a);
    assert multiset(b[1..]) + multiset{b[0]} == multiset(b);
    AddCancels(multiset(a[1..]), multiset(b[1..]), a[0]);
  }

  /** Lists with the same first element and the same tail are equal. */
  lemma SameHeadSameTail<T>(a: seq<T>, b: seq<T>)
    requires |a| > 0 && |b| > 0 && a[0] == b[0] && a[1..] == b[1..]
    ensures a == b
  {
    assert a == [a[0]] + a[1..] && b == [b[0]] + b[1..];
  }
}
