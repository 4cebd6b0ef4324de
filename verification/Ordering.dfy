/** Byte order on strings, and sorting by a total order, as Go's sort and slices packages give. */
module Ordering {

  ghost predicate TotalOrder<T(!new)>(leq: (T, T) -> bool) {
    && (forall x :: leq(x, x))
    && (forall x, y :: leq(x, y) || leq(y, x))
    && (forall x, y :: leq(x, y) && leq(y, x) ==> x == y)
    && (forall x, y, z :: leq(x, y) && leq(y, z) ==> leq(x, z))
  }

  ghost predicate Sorted<T(!new)>(s: seq<T>, leq: (T, T) -> bool) {
    forall i, j :: 0 <= i < j < |s| ==> leq(s[i], s[j])
  }

  function Insert<T(!new)>(x: T, s: seq<T>, leq: (T, T) -> bool): seq<T> {
    if s == [] then [x]
    else if leq(x, s[0]) then [x] + s
    else [s[0]] + Insert(x, s[1..], leq)
  }

  function Sort<T(!new)>(s: seq<T>, leq: (T, T) -> bool): seq<T> {
    if s == [] then [] else Insert(s[0], Sort(s[1..], leq), leq)
  }

  lemma {:induction false} InsertElements<T(!new)>(x: T, s: seq<T>, leq: (T, T) -> bool)
    ensures multiset(Insert(x, s, leq)) == multiset{x} + multiset(s)
  {
    if s != [] && !leq(x, s[0]) {
      InsertElements(x, s[1..], leq);
      assert s == [s[0]] + s[1..];
    }
  }

  /** The least element comes first. */
  lemma LeastFirst<T(!new)>(a: seq<T>, leq: (T, T) -> bool, x: T)
    requires TotalOrder(leq) && Sorted(a, leq) && x in a
    ensures leq(a[0], x)
  {
    var i :| 0 <= i < |a| && a[i] == x;
    assert i > 0 ==> leq(a[0], a[i]);
  }

  lemma InsertedOrThere<T(!new)>(x: T, s: seq<T>, leq: (T, T) -> bool, y: T)
    requires y in Insert(x, s, leq)
    ensures y == x || y in s
  {
    InsertElements(x, s, leq);
    assert y in multiset(Insert(x, s, leq));
  }

  lemma SortedCons<T(!new)>(x: T, s: seq<T>, leq: (T, T) -> bool)
    requires Sorted(s, leq) && forall y :: y in s ==> leq(x, y)
    ensures Sorted([x] + s, leq)
  {
  }

  lemma {:induction false} InsertKeeps<T(!new)>(x: T, s: seq<T>, leq: (T, T) -> bool)
    requires TotalOrder(leq) && Sorted(s, leq)
    ensures Sorted(Insert(x, s, leq), leq)
  {
    if s != [] {
      assert Sorted(s[1..], leq);
      if leq(x, s[0]) {
        forall y | y in s
          ensures leq(x, y)
        {
          LeastFirst(s, leq, y);
        }
        SortedCons(x, s, leq);
      } else {
        InsertKeeps(x, s[1..], leq);
        var r := Insert(x, s[1..], leq);
        forall y | y in r
          ensures leq(s[0], y)
        {
          InsertedOrThere(x, s[1..], leq, y);
          if y != x {
            LeastFirst(s, leq, y);
          }
        }
        SortedCons(s[0], r, leq);
      }
    }
  }

  /** Sorting permutes, and the result is in order. */
  lemma {:induction false} SortKeeps<T(!new)>(s: seq<T>, leq: (T, T) -> bool)
    requires TotalOrder(leq)
    ensures multiset(Sort(s, leq)) == multiset(s) && Sorted(Sort(s, leq), leq)
  {
    if s != [] {
      SortKeeps(s[1..], leq);
      InsertElements(s[0], Sort(s[1..], leq), leq);
      InsertKeeps(s[0], Sort(s[1..], leq), leq);
      assert s == [s[0]] + s[1..];
    }
  }

  lemma SameTail<T(!new)>(a: seq<T>, b: seq<T>)
    requires a != [] && b != [] && a[0] == b[0] && multiset(a) == multiset(b)
    ensures multiset(a[1..]) == multiset(b[1..])
  {
    assert a == [a[0]] + a[1..] && b == [b[0]] + b[1..];
    assert multiset(a[1..]) == multiset(a) - multiset{a[0]} == multiset(b[1..]);
  }

  /** A sorted sequence is determined by its elements. */
  lemma {:induction false} SortedIsUnique<T(!new)>(a: seq<T>, b: seq<T>, leq: (T, T) -> bool)
    requires TotalOrder(leq) && Sorted(a, leq) && Sorted(b, leq) && multiset(a) == multiset(b)
    ensures a == b
  {
    assert |a| == |multiset(a)| == |multiset(b)| == |b|;
    if a != [] {
      assert a[0] in multiset(b) && b[0] in multiset(a);
      LeastFirst(a, leq, b[0]);
      LeastFirst(b, leq, a[0]);
      assert a[0] == b[0];
      SameTail(a, b);
      assert Sorted(a[1..], leq) && Sorted(b[1..], leq);
      hide Sorted, TotalOrder;
      SortedIsUnique(a[1..], b[1..], leq);
      assert a == [a[0]] + a[1..] && b == [b[0]] + b[1..];
    }
  }

  /** The order of the input does not matter. */
  lemma SortIgnoresOrder<T(!new)>(a: seq<T>, b: seq<T>, leq: (T, T) -> bool)
    requires TotalOrder(leq)
    ensures multiset(a) == multiset(b) <==> Sort(a, leq) == Sort(b, leq)
  {
    SortKeeps(a, leq);
    SortKeeps(b, leq);
    if multiset(a) == multiset(b) {
      SortedIsUnique(Sort(a, leq), Sort(b, leq), leq);
    }
  }

  /* ----- strings ----- */

  predicate Leq(a: string, b: string) {
    a == "" || (b != "" && (a[0] < b[0] || (a[0] == b[0] && Leq(a[1..], b[1..]))))
  }

  lemma {:induction a} LeqTotal(a: string, b: string)
    ensures Leq(a, b) || Leq(b, a)
    ensures Leq(a, b) && Leq(b, a) ==> a == b
  {
    if a != "" && b != "" && a[0] == b[0] {
      LeqTotal(a[1..], b[1..]);
      assert a == [a[0]] + a[1..] && b == [b[0]] + b[1..];
    }
  }

  lemma {:induction false} LeqTransitive(a: string, b: string, c: string)
    requires Leq(a, b) && Leq(b, c)
    ensures Leq(a, c)
  {
    if a != "" && a[0] == b[0] && b[0] == c[0] {
      LeqTransitive(a[1..], b[1..], c[1..]);
    }
  }

  /** The order told by the first place where two strings differ. */
  lemma {:induction false} LeqMeans(a: string, b: string)
    ensures Leq(a, b) <==> a <= b || exists k :: 0 <= k < |a| && k < |b| && a[..k] == b[..k] && a[k] < b[k]
  {
    if a != "" && b != "" {
      if a[0] == b[0] {
        LeqMeans(a[1..], b[1..]);
        if k :| 0 <= k < |a[1..]| && k < |b[1..]| && a[1..][..k] == b[1..][..k] && a[1..][k] < b[1..][k] {
          assert a[..k + 1] == [a[0]] + a[1..][..k] && b[..k + 1] == [b[0]] + b[1..][..k];
          assert a[k + 1] < b[k + 1];
        }
        if k :| 0 <= k < |a| && k < |b| && a[..k] == b[..k] && a[k] < b[k] {
          assert 0 < k && a[1..][..k - 1] == a[..k][1..] && b[1..][..k - 1] == b[..k][1..];
          assert a[1..][k - 1] < b[1..][k - 1];
        }
      } else {
        assert a[..0] == b[..0];
      }
    }
  }

  lemma StringsAreOrdered()
    ensures TotalOrder(Leq)
  {
    forall a, b { LeqTotal(a, b); }
    forall a, b, c | Leq(a, b) && Leq(b, c) { LeqTransitive(a, b, c); }
  }
}
