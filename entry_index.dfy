/**
  The in-memory index of known dates: a list kept newest first without
  duplicates, with the operations the diary applies to it (add then sort,
  remove the first occurrence) and the facts about order they preserve.
*/
module EntryIndex {
  import opened DateKey

  /** Sorted by Comparator.reverseOrder(): no element is before the one after it. */
  predicate Descending(s: seq<Date>) {
    forall i, j :: 0 <= i < j < |s| ==> !Before(s[i], s[j])
  }

  predicate Distinct(s: seq<Date>) {
    forall i, j :: 0 <= i < j < |s| ==> s[i] != s[j]
  }

  /** The index invariant: strictly descending, so most recent first and no date twice. */
  predicate NewestFirst(s: seq<Date>) {
    forall i, j :: 0 <= i < j < |s| ==> Before(s[j], s[i])
  }

  lemma NewestFirstIsDescendingAndDistinct(s: seq<Date>)
    ensures NewestFirst(s) <==> Descending(s) && Distinct(s)
  {
    forall a: Date, b: Date { BeforeIsStrictTotalOrder(a, b, a); }
  }

  /** a is obtained from b by deleting elements: it keeps b's relative order. */
  predicate Subsequence<T(==)>(a: seq<T>, b: seq<T>)
    decreases |b|
  {
    if a == [] then true
    else if b == [] then false
    else if a[0] == b[0] then Subsequence(a[1..], b[1..])
    else Subsequence(a, b[1..])
  }

  lemma {:induction false} SubsequenceReflexive<T>(s: seq<T>)
    ensures Subsequence(s, s)
    decreases |s|
  {
    if s != [] {
      SubsequenceReflexive(s[1..]);
    }
  }

  lemma {:induction false} SubsequenceMembers<T>(a: seq<T>, b: seq<T>)
    requires Subsequence(a, b)
    ensures forall x :: x in a ==> x in b
    decreases |b|
  {
    if a != [] && b != [] {
      if a[0] == b[0] {
        SubsequenceMembers(a[1..], b[1..]);
        assert forall x :: x in a ==> x == a[0] || x in a[1..];
      } else {
        SubsequenceMembers(a, b[1..]);
      }
    }
  }

  /** Prepending an element to the larger sequence keeps a subsequence one. */
  lemma {:induction false} SubsequencePrepend<T>(a: seq<T>, x: T, b: seq<T>)
    requires Subsequence(a, b)
    ensures Subsequence(a, [x] + b)
    decreases |b|, 1
  {
    assert ([x] + b)[1..] == b;
    if a != [] && a[0] == x {
      SubsequenceTail(a, b);
    }
  }

  /** Dropping the first element of the smaller sequence keeps a subsequence one. */
  lemma {:induction false} SubsequenceTail<T>(a: seq<T>, b: seq<T>)
    requires Subsequence(a, b) && a != []
    ensures Subsequence(a[1..], b)
    decreases |b|, 0
  {
    assert b == [b[0]] + b[1..];
    if a[0] == b[0] {
      SubsequencePrepend(a[1..], b[0], b[1..]);
    } else {
      SubsequenceTail(a, b[1..]);
      SubsequencePrepend(a[1..], b[0], b[1..]);
    }
  }

  /** Deleting elements from a newest-first list leaves it newest first. */
  lemma {:induction false} SubsequenceKeepsNewestFirst(a: seq<Date>, b: seq<Date>)
    requires Subsequence(a, b) && NewestFirst(b)
    ensures NewestFirst(a)
    decreases |b|
  {
    if a != [] && b != [] {
      if a[0] == b[0] {
        SubsequenceKeepsNewestFirst(a[1..], b[1..]);
        SubsequenceMembers(a[1..], b[1..]);
        forall i, j | 0 <= i < j < |a| ensures Before(a[j], a[i]) {
          if i > 0 {
            assert a[i] == a[1..][i - 1] && a[j] == a[1..][j - 1];
          } else {
            assert a[j] in a[1..];
            var k :| 0 <= k < |b[1..]| && b[1..][k] == a[j];
            assert b[k + 1] == a[j];
          }
        }
      } else {
        SubsequenceKeepsNewestFirst(a, b[1..]);
      }
    }
  }

  // ------------------------------------------------------------------ sorting

  lemma DescendingCons(x: Date, t: seq<Date>)
    requires Descending(t)
    requires forall k :: 0 <= k < |t| ==> !Before(x, t[k])
    ensures Descending([x] + t)
  {
    forall i, j | 0 <= i < j < |[x] + t| ensures !Before(([x] + t)[i], ([x] + t)[j]) {
      if i > 0 {
        assert ([x] + t)[i] == t[i - 1];
      }
    }
  }

  lemma DistinctCons(x: Date, t: seq<Date>)
    requires Distinct(t) && x !in t
    ensures Distinct([x] + t)
  {
    forall i, j | 0 <= i < j < |[x] + t| ensures ([x] + t)[i] != ([x] + t)[j] {
      if i > 0 {
        assert ([x] + t)[i] == t[i - 1];
      }
      assert ([x] + t)[j] == t[j - 1];
    }
  }

  /** d is not before the head, so it is not before anything in the list. */
  lemma NotBeforeAny(d: Date, s: seq<Date>)
    requires Descending(s) && s != [] && !Before(d, s[0])
    ensures forall k :: 0 <= k < |s| ==> !Before(d, s[k])
  {
    forall k | 0 <= k < |s| ensures !Before(d, s[k]) {
      if k > 0 {
        BeforeIsStrictTotalOrder(d, s[k], s[0]);
        BeforeIsStrictTotalOrder(s[0], s[k], d);
      }
    }
  }

  /** Inserts d in front of the first element that is before it. */
  function InsertDescending(d: Date, s: seq<Date>): (r: seq<Date>)
    requires Descending(s)
    ensures Descending(r)
    ensures multiset(r) == multiset(s) + multiset{d}
    ensures Distinct(s) && d !in s ==> Distinct(r)
  {
    if s == [] || !Before(d, s[0]) then
      InsertAtFront(d, s);
      [d] + s
    else
      var rest := InsertDescending(d, s[1..]);
      assert s == [s[0]] + s[1..];
      InsertBehind(d, s, rest);
      [s[0]] + rest
  }

  lemma InsertAtFront(d: Date, s: seq<Date>)
    requires Descending(s) && (s == [] || !Before(d, s[0]))
    ensures Descending([d] + s)
    ensures Distinct(s) && d !in s ==> Distinct([d] + s)
  {
    if s != [] {
      NotBeforeAny(d, s);
    }
    DescendingCons(d, s);
    if Distinct(s) && d !in s {
      DistinctCons(d, s);
    }
  }

  lemma InsertBehind(d: Date, s: seq<Date>, rest: seq<Date>)
    requires Descending(s) && s != [] && Before(d, s[0])
    requires Descending(rest) && multiset(rest) == multiset(s[1..]) + multiset{d}
    requires Distinct(s[1..]) && d !in s[1..] ==> Distinct(rest)
    ensures Descending([s[0]] + rest)
    ensures Distinct(s) && d !in s ==> Distinct([s[0]] + rest)
  {
    forall k | 0 <= k < |rest| ensures !Before(s[0], rest[k]) {
      assert rest[k] in multiset(rest);
      if rest[k] != d {
        assert rest[k] in multiset(s[1..]);
        var m :| 0 <= m < |s[1..]| && s[1..][m] == rest[k];
        assert s[m + 1] == rest[k];
      } else {
        BeforeIsStrictTotalOrder(d, s[0], d);
      }
    }
    DescendingCons(s[0], rest);
    if Distinct(s) && d !in s {
      assert Distinct(s[1..]) && s[0] !in s[1..];
      assert s[0] !in multiset(rest);
      DistinctCons(s[0], rest);
    }
  }

  /**
    entries.sort(Comparator.reverseOrder()) as a value: a descending
    permutation of its input (insertion sort stands in for the library's sort).
  */
  function SortDescending(s: seq<Date>): (r: seq<Date>)
    ensures Descending(r)
    ensures multiset(r) == multiset(s)
    ensures Distinct(s) ==> Distinct(r)
  {
    if s == [] then []
    else
      var init := s[..|s| - 1];
      assert s == init + [s[|s| - 1]];
      assert Distinct(s) ==> Distinct(init) && s[|s| - 1] !in init;
      assert s[|s| - 1] in SortDescending(init) ==> s[|s| - 1] in multiset(init);
      InsertDescending(s[|s| - 1], SortDescending(init))
  }

  /** Sorting a duplicate-free list yields the newest-first list of the same dates. */
  lemma SortedIndex(s: seq<Date>)
    requires Distinct(s)
    ensures NewestFirst(SortDescending(s))
    ensures forall x :: x in SortDescending(s) <==> x in s
  {
    var r := SortDescending(s);
    NewestFirstIsDescendingAndDistinct(r);
    assert forall x :: x in r <==> x in multiset(r);
  }

  lemma HeadIsMember(s: seq<Date>)
    requires s != []
    ensures s[0] in s
  {
  }

  /** A newest-first list is determined by the dates it holds. */
  lemma {:induction false} NewestFirstUnique(a: seq<Date>, b: seq<Date>)
    requires NewestFirst(a) && NewestFirst(b)
    requires forall x :: x in a <==> x in b
    ensures a == b
    decreases |a|
  {
    if a == [] {
      assert b == [] by {
        if b != [] {
          HeadIsMember(b);
          assert false;
        }
      }
    } else {
      assert a[0] in b;
      assert b != [] && b[0] in b;
      assert a[0] == b[0] by {
        BeforeIsStrictTotalOrder(a[0], b[0], a[0]);
      }
      forall x ensures x in a[1..] <==> x in b[1..] {
        if x in a[1..] {
          var k :| 0 <= k < |a[1..]| && a[1..][k] == x;
          assert a[k + 1] == x && x != a[0];
          assert x in b;
        }
        if x in b[1..] {
          var k :| 0 <= k < |b[1..]| && b[1..][k] == x;
          assert b[k + 1] == x && x != b[0];
          assert x in a;
        }
      }
      NewestFirstUnique(a[1..], b[1..]);
      assert a == [a[0]] + a[1..] && b == [b[0]] + b[1..];
    }
  }

  // ------------------------------------------------------------------ removal

  /** ObservableList.remove(Object): drops the first occurrence of d, if any. */
  function RemoveFirst(s: seq<Date>, d: Date): (r: seq<Date>)
    ensures d !in s ==> r == s
    ensures multiset(r) == multiset(s) - multiset{d}
    ensures Subsequence(r, s)
  {
    if s == [] then []
    else if s[0] == d then
      assert s == [s[0]] + s[1..];
      SubsequenceReflexive(s[1..]);
      SubsequencePrepend(s[1..], s[0], s[1..]);
      s[1..]
    else
      var rest := RemoveFirst(s[1..], d);
      assert s == [s[0]] + s[1..];
      assert ([s[0]] + rest)[1..] == rest;
      [s[0]] + rest
  }

  /** It is the first occurrence that goes: the elements before it and after it stay. */
  lemma {:induction false} RemoveFirstIsFirst(s: seq<Date>, d: Date, k: nat)
    requires k < |s| && s[k] == d && d !in s[..k]
    ensures RemoveFirst(s, d) == s[..k] + s[k + 1..]
  {
    if k > 0 {
      assert s[0] in s[..k];
      assert s[1..][..k - 1] == s[1..k];
      assert d !in s[1..][..k - 1];
      RemoveFirstIsFirst(s[1..], d, k - 1);
      assert s[..k] == [s[0]] + s[1..][..k - 1];
      assert s[k + 1..] == s[1..][k..];
    }
  }

  /** A duplicate-free list holds each date at most once. */
  lemma {:induction false} DistinctCount(s: seq<Date>, d: Date)
    requires Distinct(s)
    ensures multiset(s)[d] <= 1
  {
    if s != [] {
      assert s == [s[0]] + s[1..];
      assert Distinct(s[1..]);
      DistinctCount(s[1..], d);
      if s[0] == d {
        assert d !in s[1..];
      }
    }
  }

  /** Removing a date from the index keeps it newest first and removes it entirely. */
  lemma RemoveFromIndex(s: seq<Date>, d: Date)
    requires NewestFirst(s)
    ensures NewestFirst(RemoveFirst(s, d))
    ensures d !in RemoveFirst(s, d)
    ensures forall x :: x in RemoveFirst(s, d) <==> x in s && x != d
  {
    var r := RemoveFirst(s, d);
    SubsequenceKeepsNewestFirst(r, s);
    NewestFirstIsDescendingAndDistinct(s);
    DistinctCount(s, d);
    assert forall x :: x in r <==> x in multiset(r);
  }

  /** Adding a date that is absent and re-sorting yields the newest-first list with that date. */
  lemma InsertIntoIndex(s: seq<Date>, d: Date)
    requires NewestFirst(s) && d !in s
    ensures NewestFirst(SortDescending(s + [d]))
    ensures forall x :: x in SortDescending(s + [d]) <==> x in s || x == d
  {
    NewestFirstIsDescendingAndDistinct(s);
    assert Distinct(s + [d]) by {
      forall i, j | 0 <= i < j < |s + [d]| ensures (s + [d])[i] != (s + [d])[j] {
        if j == |s| { assert (s + [d])[i] == s[i]; }
      }
    }
    SortedIndex(s + [d]);
  }
}
