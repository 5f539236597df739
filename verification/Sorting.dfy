/** What the library sorts used by the layers return: for a strict total order there is only one answer. */
module Sorting {

  ghost predicate StrictTotal<T(!new)>(before: (T, T) -> bool, s: seq<T>) {
    && (forall a :: a in s ==> !before(a, a))
    && (forall a, b :: a in s && b in s && a != b ==> before(a, b) != before(b, a))
    && (forall a, b, c :: a in s && b in s && c in s && before(a, b) && before(b, c) ==> before(a, c))
  }

  predicate Ordered<T>(before: (T, T) -> bool, s: seq<T>) {
    forall i, j :: 0 <= i < j < |s| ==> before(s[i], s[j])
  }

  predicate Distinct<T(==)>(s: seq<T>) {
    forall i, j :: 0 <= i < j < |s| ==> s[i] != s[j]
  }

  function Insert<T>(before: (T, T) -> bool, x: T, s: seq<T>): (r: seq<T>)
    ensures |r| == |s| + 1
  {
    if s == [] then [x]
    else if before(x, s[0]) then [x] + s
    else [s[0]] + Insert(before, x, s[1..])
  }

  function Sort<T>(before: (T, T) -> bool, s: seq<T>): (r: seq<T>)
    ensures |r| == |s|
  {
    if s == [] then [] else Insert(before, s[0], Sort(before, s[1..]))
  }

  lemma {:induction false} InsertPermutes<T>(before: (T, T) -> bool, x: T, s: seq<T>)
    ensures multiset(Insert(before, x, s)) == multiset(s) + multiset{x}
  {
    if s != [] {
      assert s == [s[0]] + s[1..];
      InsertPermutes(before, x, s[1..]);
    }
  }

  lemma {:induction false} SortPermutes<T>(before: (T, T) -> bool, s: seq<T>)
    ensures multiset(Sort(before, s)) == multiset(s)
  {
    if s != [] {
      assert s == [s[0]] + s[1..];
      SortPermutes(before, s[1..]);
      InsertPermutes(before, s[0], Sort(before, s[1..]));
    }
  }

  lemma SameMembers<T>(a: seq<T>, b: seq<T>)
    requires multiset(a) == multiset(b)
    ensures |a| == |b|
    ensures forall x :: x in a <==> x in b
  {
    assert |multiset(a)| == |a|;
    assert forall x :: x in a <==> x in multiset(a);
    assert forall x :: x in b <==> x in multiset(b);
  }

  lemma InsertMembers<T>(before: (T, T) -> bool, x: T, s: seq<T>)
    ensures forall y :: y in Insert(before, x, s) <==> y == x || y in s
  {
    InsertPermutes(before, x, s);
    SameMembers(Insert(before, x, s), s + [x]);
  }

  /** Whoever is before the head is before everybody. */
  lemma BeforeAll<T(!new)>(before: (T, T) -> bool, x: T, s: seq<T>)
    requires s != [] && Ordered(before, s) && StrictTotal(before, [x] + s) && before(x, s[0])
    ensures Ordered(before, [x] + s)
  {
    var all := [x] + s;
    forall k | 0 <= k < |s|
      ensures before(x, s[k])
    {
      assert x in all && s[0] in all && s[k] in all;
      if k > 0 {
        assert before(s[0], s[k]);
      }
    }
  }

  /** An ordered list extended in front. */
  lemma ExtendFront<T(!new)>(before: (T, T) -> bool, x: T, r: seq<T>)
    requires Ordered(before, r) && forall y :: y in r ==> before(x, y)
    ensures Ordered(before, [x] + r)
  {
    forall k | 0 <= k < |r|
      ensures before(x, r[k])
    {
      assert r[k] in r;
    }
  }

  lemma {:induction false} InsertOrdered<T(!new)>(before: (T, T) -> bool, x: T, s: seq<T>)
    requires Ordered(before, s) && x !in s && StrictTotal(before, [x] + s)
    ensures Ordered(before, Insert(before, x, s))
  {
    if s != [] {
      assert x in [x] + s && s[0] in [x] + s;
      if before(x, s[0]) {
        BeforeAll(before, x, s);
      } else {
        StrictTotalSubset(before, [x] + s, [x] + s[1..]);
        InsertOrdered(before, x, s[1..]);
        InsertMembers(before, x, s[1..]);
        assert before(s[0], x);
        forall y | y in s[1..]
          ensures before(s[0], y)
        {
          HeadBeforeTail(before, s, y);
        }
        ExtendFront(before, s[0], Insert(before, x, s[1..]));
      }
    }
  }

  lemma StrictTotalSubset<T(!new)>(before: (T, T) -> bool, s: seq<T>, t: seq<T>)
    requires StrictTotal(before, s) && forall x :: x in t ==> x in s
    ensures StrictTotal(before, t)
  {}

  lemma {:induction false} SortOrdered<T(!new)>(before: (T, T) -> bool, s: seq<T>)
    requires StrictTotal(before, s) && Distinct(s)
    ensures Ordered(before, Sort(before, s))
  {
    if s != [] {
      var rest := Sort(before, s[1..]);
      StrictTotalSubset(before, s, s[1..]);
      SortOrdered(before, s[1..]);
      SortPermutes(before, s[1..]);
      SameMembers(rest, s[1..]);
      assert s[0] !in s[1..];
      StrictTotalSubset(before, s, [s[0]] + rest);
      InsertOrdered(before, s[0], rest);
    }
  }

  /** The head of an ordered arrangement is before everything else. */
  lemma HeadFirst<T(!new)>(before: (T, T) -> bool, a: seq<T>, x: T)
    requires Ordered(before, a) && x in a
    ensures x == a[0] || before(a[0], x)
  {
    var j :| 0 <= j < |a| && a[j] == x;
  }

  lemma HeadBeforeTail<T(!new)>(before: (T, T) -> bool, a: seq<T>, x: T)
    requires a != [] && Ordered(before, a) && x in a[1..]
    ensures before(a[0], x)
  {
    var j :| 0 <= j < |a| - 1 && a[1..][j] == x;
    assert before(a[0], a[j + 1]);
  }

  lemma TailMultiset<T>(a: seq<T>)
    requires a != []
    ensures multiset(a[1..]) == multiset(a) - multiset{a[0]}
    ensures a == [a[0]] + a[1..]
  {
    assert a == [a[0]] + a[1..];
  }

  ghost predicate Asymmetric<T(!new)>(before: (T, T) -> bool, s: seq<T>) {
    forall x, y :: x in s && y in s && before(x, y) ==> !before(y, x)
  }

  lemma TailMembers<T(!new)>(before: (T, T) -> bool, a: seq<T>)
    requires a != [] && Ordered(before, a) && Asymmetric(before, a)
    ensures forall x :: x in a[1..] <==> x in a && x != a[0]
  {
    assert a == [a[0]] + a[1..];
    forall x
      ensures x in a[1..] <==> x in a && x != a[0]
    {
      if x in a[1..] {
        NotAgain(before, a, x);
      }
    }
  }

  lemma NotAgain<T(!new)>(before: (T, T) -> bool, a: seq<T>, x: T)
    requires a != [] && Ordered(before, a) && Asymmetric(before, a) && x in a[1..]
    ensures x != a[0]
  {
    HeadBeforeTail(before, a, x);
    assert a[0] in a;
  }

  /** Any two ordered lists of the same elements are equal. */
  lemma {:induction false} OrderedUnique<T(!new)>(before: (T, T) -> bool, a: seq<T>, b: seq<T>)
    requires (forall x :: x in a <==> x in b) && Asymmetric(before, a)
    requires Ordered(before, a) && Ordered(before, b)
    ensures a == b
  {
    assert (a != [] ==> a[0] in b) && (b != [] ==> b[0] in a);
    if a != [] {
      HeadFirst(before, a, b[0]);
      HeadFirst(before, b, a[0]);
      TailMembers(before, a);
      TailMembers(before, b);
      OrderedUnique(before, a[1..], b[1..]);
    }
  }

  /** So whatever algorithm a library uses: an ordered arrangement is the sorted list. */
  lemma LibrarySort<T(!new)>(before: (T, T) -> bool, s: seq<T>, r: seq<T>)
    requires StrictTotal(before, s) && Distinct(s) && multiset(r) == multiset(s) && Ordered(before, r)
    ensures r == Sort(before, s)
  {
    SortOrdered(before, s);
    SortPermutes(before, s);
    SameMembers(r, s);
    SameMembers(Sort(before, s), s);
    OrderedUnique(before, r, Sort(before, s));
  }
}
