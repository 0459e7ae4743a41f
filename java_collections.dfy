/** The `java.util` list operations the election code relies on:
    `Collections.sort` and `Collections.binarySearch` on lists of strings, and
    removal of an element. */
module JavaCollections {
  import opened Common
  import opened JavaStrings

  /** Every element is at most every later one, in `String.compareTo` order. */
  predicate Sorted(s: seq<string>)
  {
    forall i, j {:trigger LessEq(s[i], s[j])} :: 0 <= i < j < |s| ==> LessEq(s[i], s[j])
  }

  predicate Distinct<T(==)>(s: seq<T>)
  {
    forall i, j :: 0 <= i < j < |s| ==> s[i] != s[j]
  }

  /** In a sorted list without repeats, earlier elements are strictly smaller. */
  lemma SortedDistinctIncreasing(s: seq<string>, i: int, j: int)
    requires Sorted(s) && Distinct(s) && 0 <= i < j < |s|
    ensures Less(s[i], s[j])
  {
    assert LessEq(s[i], s[j]);
  }

  /** The first element of a sorted list is at most every element. */
  lemma SortedHeadIsLeast(s: seq<string>, x: string)
    requires Sorted(s) && x in s
    ensures LessEq(s[0], x)
  {
    var k :| 0 <= k < |s| && s[k] == x;
    if k > 0 {
      assert LessEq(s[0], s[k]);
    }
  }

  // ---------------------------------------------------------------------------
  // Collections.sort
  // ---------------------------------------------------------------------------

  function Insert(x: string, s: seq<string>): (r: seq<string>)
    requires Sorted(s)
    ensures Sorted(r) && multiset(r) == multiset(s) + multiset{x}
    decreases |s|
  {
    if |s| == 0 then [x]
    else if LessEq(x, s[0]) then
      InsertFront(x, s);
      [x] + s
    else
      var rest := Insert(x, s[1..]);
      LessTotal(x, s[0]);
      InsertBehind(x, s, rest);
      assert s == [s[0]] + s[1..];
      [s[0]] + rest
  }

  lemma InsertFront(x: string, s: seq<string>)
    requires Sorted(s) && |s| > 0 && LessEq(x, s[0])
    ensures Sorted([x] + s)
  {
    var r := [x] + s;
    forall i, j | 0 <= i < j < |r| ensures LessEq(r[i], r[j]) {
      if i == 0 && j > 1 {
        LessEqTransitive(x, s[0], s[j - 1]);
      }
    }
  }

  lemma InsertBehind(x: string, s: seq<string>, rest: seq<string>)
    requires Sorted(s) && |s| > 0 && Less(s[0], x)
    requires Sorted(rest) && multiset(rest) == multiset(s[1..]) + multiset{x}
    ensures Sorted([s[0]] + rest)
  {
    var r := [s[0]] + rest;
    forall i, j | 0 <= i < j < |r| ensures LessEq(r[i], r[j]) {
      if i == 0 {
        var y := rest[j - 1];
        assert y in multiset(rest);
        if y != x {
          assert y in multiset(s[1..]);
          var k :| 0 <= k < |s[1..]| && s[1..][k] == y;
          assert s[k + 1] == y;
        }
      }
    }
  }

  /** Insertion sort: a sorted rearrangement of the list. */
  function InsertionSort(s: seq<string>): (r: seq<string>)
    ensures Sorted(r) && multiset(r) == multiset(s)
    decreases |s|
  {
    if |s| == 0 then []
    else
      assert s == [s[0]] + s[1..];
      Insert(s[0], InsertionSort(s[1..]))
  }

  /** Two sorted lists holding the same elements, each as often, are equal:
      a list has exactly one sorted rearrangement. */
  lemma {:induction false} SortedUnique(a: seq<string>, b: seq<string>)
    requires Sorted(a) && Sorted(b) && multiset(a) == multiset(b)
    ensures a == b
    decreases |a|
  {
    SameLength(a, b);
    if |a| > 0 {
      SortedHeadsAgree(a, b);
      SameTails(a, b);
      SortedTail(a);
      SortedTail(b);
      SortedUnique(a[1..], b[1..]);
      SameHeadSameTail(a, b);
    }
  }

  /** Sorted lists with the same elements start with the same element. */
  lemma SortedHeadsAgree(a: seq<string>, b: seq<string>)
    requires Sorted(a) && Sorted(b) && multiset(a) == multiset(b) && |a| > 0 && |b| > 0
    ensures a[0] == b[0]
  {
    assert a[0] in multiset(b) && b[0] in multiset(a);
    SortedHeadIsLeast(b, a[0]);
    SortedHeadIsLeast(a, b[0]);
    if a[0] != b[0] {
      LessAsymmetric(a[0], b[0]);
    }
  }

  lemma SortedTail(s: seq<string>)
    requires Sorted(s) && |s| > 0
    ensures Sorted(s[1..])
  {
    forall i, j | 0 <= i < j < |s| - 1 ensures LessEq(s[1..][i], s[1..][j]) {
      assert s[1..][i] == s[i + 1] && s[1..][j] == s[j + 1];
    }
  }

  /** `Collections.sort(list)` on a list of strings: the one sorted
      rearrangement of the list, each element kept as often as before. */
  function Sort(s: seq<string>): (r: seq<string>)
    ensures Sorted(r) && multiset(r) == multiset(s)
  {
    var sorted := InsertionSort(s);
    assert forall a, b :: Sorted(a) && multiset(a) == multiset(s) && Sorted(b) && multiset(b) == multiset(s) ==> a == b by {
      forall a, b | Sorted(a) && multiset(a) == multiset(s) && Sorted(b) && multiset(b) == multiset(s)
        ensures a == b
      {
        SortedUnique(a, b);
      }
    }
    var r :| Sorted(r) && multiset(r) == multiset(s);
    r
  }

  /** Insertion sort computes `Collections.sort`. */
  lemma SortIsInsertionSort(s: seq<string>)
    ensures Sort(s) == InsertionSort(s)
  {
    SortedUnique(Sort(s), InsertionSort(s));
  }

  /** Sorting keeps exactly the elements it was given. */
  lemma SortSameElements(s: seq<string>, x: string)
    ensures x in Sort(s) <==> x in s
  {
    assert x in Sort(s) <==> x in multiset(Sort(s));
    assert x in s <==> x in multiset(s);
  }

  lemma {:induction false} InsertKeepsDistinct(x: string, s: seq<string>)
    requires Sorted(s) && Distinct(s) && x !in s
    ensures Distinct(Insert(x, s))
    decreases |s|
  {
    if |s| > 0 && !LessEq(x, s[0]) {
      var rest := Insert(x, s[1..]);
      InsertKeepsDistinct(x, s[1..]);
      assert s[0] !in multiset(rest) by {
        assert s[0] != x;
        assert s[0] !in s[1..];
      }
      var r := [s[0]] + rest;
      forall i, j | 0 <= i < j < |r| ensures r[i] != r[j] {
        if i == 0 {
          assert r[j] in multiset(rest);
        }
      }
    }
  }

  lemma {:induction false} InsertionSortKeepsDistinct(s: seq<string>)
    requires Distinct(s)
    ensures Distinct(InsertionSort(s))
    decreases |s|
  {
    if |s| > 0 {
      InsertionSortKeepsDistinct(s[1..]);
      assert s[0] !in multiset(InsertionSort(s[1..])) by {
        assert s[0] !in s[1..];
      }
      InsertKeepsDistinct(s[0], InsertionSort(s[1..]));
    }
  }

  /** Sorting a list without repeats gives a list without repeats. */
  lemma SortKeepsDistinct(s: seq<string>)
    requires Distinct(s)
    ensures Distinct(Sort(s))
  {
    InsertionSortKeepsDistinct(s);
    SortIsInsertionSort(s);
  }

  // ---------------------------------------------------------------------------
  // Collections.binarySearch
  // ---------------------------------------------------------------------------

  /** `ip` is where `key` would be inserted into the sorted list: everything
      before it is smaller, everything from it on is larger. */
  predicate InsertionPoint(list: seq<string>, key: string, ip: int)
  {
    0 <= ip <= |list| &&
    (forall i :: 0 <= i < ip ==> Less(list[i], key)) &&
    (forall i :: ip <= i < |list| ==> Less(key, list[i]))
  }

  /** `Collections.binarySearch(list, key)` on a sorted list: an index holding
      the key, or `-(insertion point) - 1` when the key is absent. */
  function BinarySearch(list: seq<string>, key: string): (r: int)
    requires Sorted(list)
    ensures 0 <= r ==> r < |list| && list[r] == key
    ensures r < 0 ==> key !in list && InsertionPoint(list, key, -(r + 1))
  {
    Search(list, key, 0, |list| - 1)
  }

  /** The loop of the JDK's indexed binary search between `low` and `high`
      inclusive; `(low + high) >>> 1` is `(low + high) / 2` for indices. */
  function Search(list: seq<string>, key: string, low: int, high: int): (r: int)
    requires Sorted(list)
    requires 0 <= low <= high + 1 <= |list|
    requires forall i :: 0 <= i < low ==> Less(list[i], key)
    requires forall i :: high < i < |list| ==> Less(key, list[i])
    ensures 0 <= r ==> low <= r <= high && list[r] == key
    ensures r < 0 ==> key !in list && InsertionPoint(list, key, -(r + 1))
    decreases high + 1 - low
  {
    if low > high then
      NotFound(list, key, low);
      -(low + 1)
    else
      var mid := (low + high) / 2;
      if Less(list[mid], key) then
        SmallerUpTo(list, key, mid);
        Search(list, key, mid + 1, high)
      else if Less(key, list[mid]) then
        LargerFrom(list, key, mid);
        Search(list, key, low, mid - 1)
      else
        LessTotal(list[mid], key);
        mid
  }

  lemma NotFound(list: seq<string>, key: string, ip: int)
    requires InsertionPoint(list, key, ip)
    ensures key !in list
  {
    LessIrreflexive(key);
  }

  lemma SmallerUpTo(list: seq<string>, key: string, mid: int)
    requires Sorted(list) && 0 <= mid < |list| && Less(list[mid], key)
    ensures forall i :: 0 <= i <= mid ==> Less(list[i], key)
  {
    forall i | 0 <= i < mid ensures Less(list[i], key) {
      assert LessEq(list[i], list[mid]);
      if list[i] != list[mid] {
        LessTransitive(list[i], list[mid], key);
      }
    }
  }

  lemma LargerFrom(list: seq<string>, key: string, mid: int)
    requires Sorted(list) && 0 <= mid < |list| && Less(key, list[mid])
    ensures forall i :: mid <= i < |list| ==> Less(key, list[i])
  {
    forall i | mid < i < |list| ensures Less(key, list[i]) {
      assert LessEq(list[mid], list[i]);
      if list[mid] != list[i] {
        LessTransitive(key, list[mid], list[i]);
      }
    }
  }

  /** In a list without repeats the search finds the one index of the key. */
  lemma BinarySearchFindsIndex(list: seq<string>, key: string, k: int)
    requires Sorted(list) && Distinct(list) && 0 <= k < |list| && list[k] == key
    ensures BinarySearch(list, key) == k
  {
  }

  // ---------------------------------------------------------------------------
  // Removing an element
  // ---------------------------------------------------------------------------

  /** The list with every occurrence of `x` removed, the rest in order. */
  function Without(s: seq<string>, x: string): (r: seq<string>)
    ensures forall y :: y in r <==> y in s && y != x
    ensures |r| <= |s|
    ensures Distinct(s) ==> Distinct(r)
    decreases |s|
  {
    if |s| == 0 then []
    else if s[0] == x then Without(s[1..], x)
    else
      var rest := Without(s[1..], x);
      assert s == [s[0]] + s[1..];
      assert Distinct(s) ==> Distinct([s[0]] + rest) by {
        if Distinct(s) {
          assert Distinct(s[1..]) && s[0] !in s[1..];
          var r := [s[0]] + rest;
          forall i, j | 0 <= i < j < |r| ensures r[i] != r[j] {
            if i == 0 {
              assert r[j] in rest;
            }
          }
        }
      }
      [s[0]] + rest
  }
}
