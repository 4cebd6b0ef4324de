/** The canonical query string of AWS Signature Version 4 (internal/dnsprovider/sigv4/sigv4.go). */
module SigV4 {
  import opened Basics
  import opened Ordering
  import opened Percent
  import PathPolicy

  method AwsEscape(s: Text) returns (r: string)
    ensures r == Escape(s, false)
  {
    r := "";
    for i := 0 to |s|
      invariant r == Escape(s[..i], false)
    {
      r := r + EscapeByte(s[i], false);
      assert s[..i + 1][..i] == s[..i];
    }
    assert s[..|s|] == s;
  }

  /* ----- the canonical query ----- */

  datatype Pair = Pair(name: Text, value: Text)
  datatype Escaped = Escaped(name: string, value: string)

  function EscapePair(p: Pair): Escaped { Escaped(Escape(p.name, false), Escape(p.value, false)) }

  /** By name, then by value. */
  predicate PairLeq(a: Escaped, b: Escaped) {
    if a.name != b.name then Leq(a.name, b.name) else Leq(a.value, b.value)
  }

  lemma PairsAreOrdered()
    ensures TotalOrder(PairLeq)
  {
    forall a, b, c: Escaped
      ensures PairLeq(a, a) && (PairLeq(a, b) || PairLeq(b, a))
      ensures PairLeq(a, b) && PairLeq(b, a) ==> a == b
      ensures PairLeq(a, b) && PairLeq(b, c) ==> PairLeq(a, c)
    {
      LeqTotal(a.name, b.name);
      LeqTotal(a.value, b.value);
      LeqTotal(a.value, a.value);
      LeqTotal(b.name, c.name);
      if PairLeq(a, b) && PairLeq(b, c) {
        if a.name == b.name == c.name {
          LeqTransitive(a.value, b.value, c.value);
        } else if a.name != b.name && b.name != c.name {
          LeqTransitive(a.name, b.name, c.name);
        }
      }
    }
  }

  function EscapeAll(ps: seq<Pair>): (es: seq<Escaped>)
    ensures |es| == |ps| && forall i :: 0 <= i < |ps| ==> es[i] == EscapePair(ps[i])
  {
    seq(|ps|, i requires 0 <= i < |ps| => EscapePair(ps[i]))
  }

  function Part(e: Escaped): string { e.name + "=" + e.value }

  function Join(es: seq<Escaped>): string {
    if es == [] then "" else if |es| == 1 then Part(es[0]) else Part(es[0]) + "&" + Join(es[1..])
  }

  function Canonical(ps: seq<Pair>): string { Join(Sort(EscapeAll(ps), PairLeq)) }

  /* ----- the string determines the pairs ----- */

  ghost predicate IsPlain(e: Escaped) { '&' !in e.name && '=' !in e.name && '&' !in e.value && '=' !in e.value }

  /** Splits at the first c, which is there. */
  lemma FirstSplit(a: string, x: string, b: string, y: string, c: char)
    requires c !in a && c !in b && a + [c] + x == b + [c] + y
    ensures a == b && x == y
  {
    var s := a + [c] + x;
    assert s[|a|] == c && (b + [c] + y)[|b|] == c;
    assert forall i :: 0 <= i < |a| ==> s[i] == a[i];
    assert forall i :: 0 <= i < |b| ==> (b + [c] + y)[i] == b[i];
    assert |a| == |b|;
    assert a == s[..|a|] && b == (b + [c] + y)[..|b|];
    assert x == s[|a| + 1..] && y == (b + [c] + y)[|b| + 1..];
  }

  lemma PartDeterminesPair(a: Escaped, b: Escaped)
    requires IsPlain(a) && IsPlain(b) && Part(a) == Part(b)
    ensures a == b
  {
    FirstSplit(a.name, a.value, b.name, b.value, '=');
  }

  lemma JoinHasAmpersand(es: seq<Escaped>)
    requires 1 < |es|
    ensures '&' in Join(es)
  {
    assert Join(es)[|Part(es[0])|] == '&';
  }

  lemma {:induction false} JoinDeterminesPairs(a: seq<Escaped>, b: seq<Escaped>)
    requires (forall i :: 0 <= i < |a| ==> IsPlain(a[i])) && (forall i :: 0 <= i < |b| ==> IsPlain(b[i]))
    requires Join(a) == Join(b)
    ensures a == b
  {
    if a != [] && b != [] {
      var p, q := Part(a[0]), Part(b[0]);
      assert '&' !in p && '&' !in q;
      if |a| > 1 && |b| > 1 {
        FirstSplit(p, Join(a[1..]), q, Join(b[1..]), '&');
        JoinDeterminesPairs(a[1..], b[1..]);
        PartDeterminesPair(a[0], b[0]);
        assert a == [a[0]] + a[1..] && b == [b[0]] + b[1..];
      } else if |a| == 1 && |b| == 1 {
        PartDeterminesPair(a[0], b[0]);
      } else if |a| > 1 {
        JoinHasAmpersand(a);
      } else {
        JoinHasAmpersand(b);
      }
    } else {
      assert a != [] ==> |Join(a)| > 0;
      assert b != [] ==> |Join(b)| > 0;
    }
  }

  /* ----- escaping keeps count of each pair ----- */

  lemma EscapePairInjective(p: Pair, q: Pair)
    requires EscapePair(p) == EscapePair(q)
    ensures p == q
  {
    EscapeRoundTrip(p.name, false);
    EscapeRoundTrip(q.name, false);
    EscapeRoundTrip(p.value, false);
    EscapeRoundTrip(q.value, false);
  }

  lemma EscapeAllMore(ps: seq<Pair>, q: Pair)
    ensures EscapeAll(ps + [q]) == EscapeAll(ps) + [EscapePair(q)]
  {
  }

  lemma {:induction false} EscapeKeepsCount(ps: seq<Pair>, p: Pair)
    ensures multiset(EscapeAll(ps))[EscapePair(p)] == multiset(ps)[p]
  {
    hide EscapePair, EscapeAll;
    if ps == [] {
      EscapeNone();
    } else {
      var n := |ps| - 1;
      EscapeKeepsCount(ps[..n], p);
      assert ps == ps[..n] + [ps[n]];
      EscapeAllMore(ps[..n], ps[n]);
      if EscapePair(p) == EscapePair(ps[n]) {
        EscapePairInjective(p, ps[n]);
      }
    }
  }

  lemma EscapeNone()
    ensures EscapeAll([]) == []
  {
  }

  lemma SamePairsSameEscapes(a: seq<Pair>, b: seq<Pair>)
    ensures multiset(a) == multiset(b) <==> multiset(EscapeAll(a)) == multiset(EscapeAll(b))
  {
    if multiset(EscapeAll(a)) == multiset(EscapeAll(b)) {
      forall p
        ensures multiset(a)[p] == multiset(b)[p]
      {
        EscapeKeepsCount(a, p);
        EscapeKeepsCount(b, p);
      }
    }
    if multiset(a) == multiset(b) {
      forall e
        ensures multiset(EscapeAll(a))[e] == multiset(EscapeAll(b))[e]
      {
        if i :| 0 <= i < |a| && e == EscapePair(a[i]) {
          EscapeKeepsCount(a, a[i]);
          EscapeKeepsCount(b, a[i]);
        } else if i :| 0 <= i < |b| && e == EscapePair(b[i]) {
          EscapeKeepsCount(a, b[i]);
          EscapeKeepsCount(b, b[i]);
        } else {
          assert e !in EscapeAll(a) && e !in EscapeAll(b);
        }
      }
    }
  }

  /** Two queries have one canonical string exactly when they hold the same pairs, each as often. */
  lemma CanonicalIsInjective(a: seq<Pair>, b: seq<Pair>)
    ensures Canonical(a) == Canonical(b) <==> multiset(a) == multiset(b)
  {
    var ea, eb := EscapeAll(a), EscapeAll(b);
    PairsAreOrdered();
    SamePairsSameEscapes(a, b);
    SortIgnoresOrder(ea, eb, PairLeq);
    if Canonical(a) == Canonical(b) {
      SortedIsPlain(a);
      SortedIsPlain(b);
      JoinDeterminesPairs(Sort(ea, PairLeq), Sort(eb, PairLeq));
    }
  }

  lemma SortedIsPlain(ps: seq<Pair>)
    ensures forall i :: 0 <= i < |Sort(EscapeAll(ps), PairLeq)| ==> IsPlain(Sort(EscapeAll(ps), PairLeq)[i])
  {
    var es := EscapeAll(ps);
    var r := Sort(es, PairLeq);
    PairsAreOrdered();
    SortKeeps(es, PairLeq);
    forall i | 0 <= i < |r|
      ensures IsPlain(r[i])
    {
      assert r[i] in multiset(r);
      assert r[i] in es;
      var j :| 0 <= j < |es| && es[j] == r[i];
      EscapeIsPlain(ps[j].name, false);
      EscapeIsPlain(ps[j].value, false);
    }
  }

  /* ----- what the string says ----- */

  /** Escaped pairs joined come apart again at the '&'s. */
  lemma {:induction false} JoinSplits(es: seq<Escaped>)
    requires es != [] && forall i :: 0 <= i < |es| ==> IsPlain(es[i])
    ensures var parts := PathPolicy.Split(Join(es), '&');
            |parts| == |es| && forall i :: 0 <= i < |es| ==> parts[i] == es[i].name + "=" + es[i].value
  {
    PathPolicy.SplitWhole(Part(es[0]), '&');
    if 1 < |es| {
      JoinSplits(es[1..]);
      PathPolicy.SplitAt(Part(es[0]), '&', Join(es[1..]));
      assert Join(es) == Part(es[0]) + ['&'] + Join(es[1..]);
      hide PathPolicy.Split, Join;
      assert forall i :: 0 < i < |es| ==> es[i] == es[1..][i - 1];
    }
  }

  /** The pairs that escaped pairs come from. */
  lemma {:induction false} Unescaped(es: seq<Escaped>, ps: seq<Pair>) returns (qs: seq<Pair>)
    requires forall e :: e in es ==> e in EscapeAll(ps)
    ensures EscapeAll(qs) == es
  {
    if es == [] {
      qs := [];
    } else {
      var n := |es| - 1;
      assert es == es[..n] + [es[n]] && es[n] in es;
      var i :| 0 <= i < |ps| && EscapePair(ps[i]) == es[n];
      var rest := Unescaped(es[..n], ps);
      qs := rest + [ps[i]];
      EscapeAllMore(rest, ps[i]);
    }
  }

  /** The string is the query's pairs, each as often as the query holds it, in ascending order of
      their escaped names and then values, each `name=value`, with '&' between them. */
  lemma CanonicalReads(ps: seq<Pair>) returns (qs: seq<Pair>)
    ensures multiset(qs) == multiset(ps)
    ensures ps == [] ==> Canonical(ps) == ""
    ensures ps != [] ==>
              var parts := PathPolicy.Split(Canonical(ps), '&');
              && |parts| == |qs|
              && forall i :: 0 <= i < |qs| ==> parts[i] == Escape(qs[i].name, false) + "=" + Escape(qs[i].value, false)
    ensures forall i, j :: 0 <= i < j < |qs| ==>
              if qs[i].name != qs[j].name then Leq(Escape(qs[i].name, false), Escape(qs[j].name, false))
              else Leq(Escape(qs[i].value, false), Escape(qs[j].value, false))
  {
    hide Escape, Leq;
    var es := EscapeAll(ps);
    var sorted := Sort(es, PairLeq);
    PairsAreOrdered();
    SortKeeps(es, PairLeq);
    SortedIsPlain(ps);
    forall e | e in sorted
      ensures e in es
    {
      assert e in multiset(sorted);
    }
    qs := Unescaped(sorted, ps);
    SamePairsSameEscapes(qs, ps);
    SameLength(qs, ps);
    if ps != [] {
      JoinSplits(sorted);
    }
    forall i, j | 0 <= i < j < |qs|
      ensures if qs[i].name != qs[j].name then Leq(Escape(qs[i].name, false), Escape(qs[j].name, false))
              else Leq(Escape(qs[i].value, false), Escape(qs[j].value, false))
    {
      assert PairLeq(sorted[i], sorted[j]);
      EscapeRoundTrip(qs[i].name, false);
      EscapeRoundTrip(qs[j].name, false);
    }
  }

  lemma SameLength(a: seq<Pair>, b: seq<Pair>)
    requires multiset(a) == multiset(b)
    ensures |a| == |b|
  {
    assert |a| == |multiset(a)| == |multiset(b)| == |b|;
  }

  /* ----- canonicalQuery ----- */

  /** url.Values: the values of each name, in order. */
  type Query = map<Text, seq<Text>>

  /** How often the query holds a pair. */
  function Count(q: Query, p: Pair): nat { if p.name in q then multiset(q[p.name])[p.value] else 0 }

  /** Adds one name's pairs, escaped, to those gathered so far. */
  method AddPairs(name: Text, vs: seq<Text>, pairs: seq<Escaped>, ghost ps: seq<Pair>)
    returns (pairs': seq<Escaped>, ghost ps': seq<Pair>)
    requires pairs == EscapeAll(ps)
    ensures pairs' == EscapeAll(ps')
    ensures forall p: Pair :: multiset(ps')[p] == multiset(ps)[p] + if p.name == name then multiset(vs)[p.value] else 0
  {
    hide Escape;
    pairs', ps' := pairs, ps;
    for i := 0 to |vs|
      invariant pairs' == EscapeAll(ps')
      invariant forall p: Pair :: multiset(ps')[p] == multiset(ps)[p] + if p.name == name then multiset(vs[..i])[p.value] else 0
    {
      var k := AwsEscape(name);
      var v := AwsEscape(vs[i]);
      pairs' := pairs' + [Escaped(k, v)];
      ps' := ps' + [Pair(name, vs[i])];
      assert vs[..i + 1] == vs[..i] + [vs[i]];
    }
    assert vs[..|vs|] == vs;
  }

  /** ps holds exactly the query's pairs, in some order. */
  ghost predicate Lists(q: Query, ps: seq<Pair>) { forall p :: multiset(ps)[p] == Count(q, p) }

  /** The order in which a map yields its pairs does not show. */
  lemma AnyOrder(q: Query, ps: seq<Pair>, ps': seq<Pair>)
    requires Lists(q, ps)
    ensures Lists(q, ps') ==> Canonical(ps) == Canonical(ps')
  {
    if Lists(q, ps') {
      assert multiset(ps) == multiset(ps');
      CanonicalIsInjective(ps, ps');
    }
  }

  /** The string is that of the query's pairs in any order, and so does not depend on the order in
      which the map yields them. */
  method CanonicalQuery(q: Query) returns (r: string)
    ensures exists ps :: Lists(q, ps)
    ensures forall ps :: Lists(q, ps) ==> r == Canonical(ps)
  {
    hide Escape, Sort, Join;
    var pairs: seq<Escaped> := [];
    ghost var ps: seq<Pair> := [];
    var names := q.Keys;
    while names != {}
      invariant names <= q.Keys && pairs == EscapeAll(ps)
      invariant forall p: Pair :: multiset(ps)[p] == if p.name in names then 0 else Count(q, p)
      decreases names
    {
      var name :| name in names;
      pairs, ps := AddPairs(name, q[name], pairs, ps);
      names := names - {name};
    }
    r := Join(Sort(pairs, PairLeq));
    assert Lists(q, ps);
    forall ps' | Lists(q, ps')
      ensures r == Canonical(ps')
    {
      AnyOrder(q, ps, ps');
    }
  }

  /** Two queries get one string exactly when they hold every pair equally often. */
  method SameString(q: Query, q': Query) returns (same: bool)
    ensures same <==> forall p :: Count(q, p) == Count(q', p)
  {
    hide Canonical;
    var r := CanonicalQuery(q);
    var r' := CanonicalQuery(q');
    ghost var ps, ps' :| Lists(q, ps) && Lists(q', ps');
    CanonicalIsInjective(ps, ps');
    assert multiset(ps) == multiset(ps') <==> forall p :: multiset(ps)[p] == multiset(ps')[p];
    same := r == r';
  }
}
