/** The query a Proxy Delivery sends: the Agent Token's parameter is taken out and the Secret's
    put in (internal/agentapi/proxy.go).  A char stands for a byte. */
module Query {
  import opened Basics
  import opened Percent
  import opened PathPolicy

  /* ----- url.ParseQuery ----- */

  /** strings.Cut: the text before the first c, and the text after it. */
  function Before(s: string, c: char): string { if s == "" || s[0] == c then "" else [s[0]] + Before(s[1..], c) }

  function After(s: string, c: char): string {
    if s == "" then "" else if s[0] == c then s[1..] else After(s[1..], c)
  }

  lemma {:induction false} CutAt(a: string, b: string, c: char)
    requires c !in a
    ensures Before(a + [c] + b, c) == a && After(a + [c] + b, c) == b
  {
    var s := a + [c] + b;
    if a == "" {
      assert s[0] == c && s[1..] == b;
    } else {
      assert s[0] == a[0] && s[1..] == a[1..] + [c] + b;
      CutAt(a[1..], b, c);
      assert a == [a[0]] + a[1..];
    }
  }

  datatype Pair = Pair(key: string, value: string)

  /** What one segment of a query says: nothing if empty, if it holds ';', or if either half does not unescape. */
  function ParseSegment(seg: string): Option<Pair> {
    var k, v := Unescape(Before(seg, '='), true), Unescape(After(seg, '='), true);
    if seg == "" || ';' in seg || k.None? || v.None? then None else Some(Pair(k.value, v.value))
  }

  function AddParsed(ps: seq<Pair>, p: Option<Pair>): seq<Pair> { if p.Some? then ps + [p.value] else ps }

  function ParseAll(segs: seq<string>): seq<Pair> {
    if segs == [] then [] else AddParsed(ParseAll(segs[..|segs| - 1]), ParseSegment(segs[|segs| - 1]))
  }

  /** The pairs an Upstream reads from a query, in order. */
  function Parse(query: string): seq<Pair> { ParseAll(Split(query, '&')) }

  function Without(ps: seq<Pair>, name: string): seq<Pair> {
    if ps == [] then []
    else if ps[|ps| - 1].key != name then Without(ps[..|ps| - 1], name) + [ps[|ps| - 1]]
    else Without(ps[..|ps| - 1], name)
  }

  /** The values a query gives a parameter. */
  function Values(ps: seq<Pair>, name: string): seq<string> {
    if ps == [] then []
    else if ps[|ps| - 1].key == name then Values(ps[..|ps| - 1], name) + [ps[|ps| - 1].value]
    else Values(ps[..|ps| - 1], name)
  }

  /* ----- segments ----- */

  /** The key withoutParam compares: unescaped if it can be. */
  function Key(seg: string): string {
    var k := Before(seg, '=');
    if Unescape(k, true).Some? then Unescape(k, true).value else k
  }

  function Keep(segs: seq<string>, name: string): seq<string> {
    if segs == [] then []
    else if Key(segs[|segs| - 1]) != name then Keep(segs[..|segs| - 1], name) + [segs[|segs| - 1]]
    else Keep(segs[..|segs| - 1], name)
  }

  /** The segments that are not empty: what a query is made of, byte for byte. */
  function Solid(segs: seq<string>): seq<string> {
    if segs == [] then []
    else if segs[|segs| - 1] != "" then Solid(segs[..|segs| - 1]) + [segs[|segs| - 1]]
    else Solid(segs[..|segs| - 1])
  }

  function Segments(query: string): seq<string> { Solid(Split(query, '&')) }

  /** strings.Join with "&". */
  function Join(segs: seq<string>): string {
    if segs == [] then "" else if |segs| == 1 then segs[0]
    else Join(segs[..|segs| - 1]) + "&" + segs[|segs| - 1]
  }

  ghost predicate Whole(segs: seq<string>) { forall i :: 0 <= i < |segs| ==> '&' !in segs[i] }

  lemma {:induction false} SplitIsWhole(s: string)
    ensures Whole(Split(s, '&'))
  {
    if s != "" {
      SplitIsWhole(s[1..]);
    }
  }

  lemma GlueLast(p: seq<string>, b: string)
    requires p != []
    ensures Glue(p, ["", b]) == p + [b]
  {
    assert p[|p| - 1] + "" == p[|p| - 1];
    assert ["", b][1..] == [b] && p == p[..|p| - 1] + [p[|p| - 1]];
  }

  lemma SplitLast(a: string, b: string)
    requires '&' !in b
    ensures Split(a + "&" + b, '&') == Split(a, '&') + [b]
  {
    hide Glue;
    var t := "&" + b;
    SplitWhole(b, '&');
    assert t[0] == '&' && t[1..] == b;
    assert Split(t, '&') == ["", b];
    SplitConcat(a, t, '&');
    assert a + "&" + b == a + t;
    GlueLast(Split(a, '&'), b);
  }

  lemma {:induction false} SplitJoin(segs: seq<string>)
    requires segs != [] && Whole(segs)
    ensures Split(Join(segs), '&') == segs
  {
    var n := |segs| - 1;
    if n == 0 {
      SplitWhole(segs[0], '&');
    } else {
      SplitJoin(segs[..n]);
      SplitLast(Join(segs[..n]), segs[n]);
      assert segs == segs[..n] + [segs[n]];
    }
  }

  lemma {:induction false} JoinHead(c: char, segs: seq<string>)
    requires segs != []
    ensures Join([[c] + segs[0]] + segs[1..]) == [c] + Join(segs)
    ensures Join([""] + segs) == "&" + Join(segs)
  {
    var n := |segs| - 1;
    var x, y := [[c] + segs[0]] + segs[1..], [""] + segs;
    assert y[..n + 1] == [""] + segs[..n];
    if n > 0 {
      JoinHead(c, segs[..n]);
      assert x[..n] == [[c] + segs[..n][0]] + segs[..n][1..];
      assert [c] + (Join(segs[..n]) + "&" + segs[n]) == [c] + Join(segs[..n]) + "&" + segs[n];
    }
  }

  lemma {:induction false} JoinSplit(s: string)
    ensures Join(Split(s, '&')) == s
  {
    if s != "" {
      JoinSplit(s[1..]);
      JoinHead(s[0], Split(s[1..], '&'));
      assert s == [s[0]] + s[1..];
    }
  }

  lemma {:induction false} KeepIsWhole(segs: seq<string>, name: string)
    requires Whole(segs)
    ensures Whole(Keep(segs, name))
  {
    hide Key;
    if segs != [] {
      KeepIsWhole(segs[..|segs| - 1], name);
    }
  }

  lemma {:induction false} KeepAll(segs: seq<string>, name: string)
    requires forall i :: 0 <= i < |segs| ==> Key(segs[i]) != name
    ensures Keep(segs, name) == segs
  {
    hide Key;
    if segs != [] {
      KeepAll(segs[..|segs| - 1], name);
      assert segs == segs[..|segs| - 1] + [segs[|segs| - 1]];
    }
  }

  /* ----- one more element ----- */

  lemma ParseMore(segs: seq<string>, seg: string)
    ensures ParseAll(segs + [seg]) == AddParsed(ParseAll(segs), ParseSegment(seg))
  {
    assert (segs + [seg])[..|segs|] == segs;
  }

  lemma SolidMore(segs: seq<string>, seg: string)
    ensures Solid(segs + [seg]) == if seg != "" then Solid(segs) + [seg] else Solid(segs)
  {
    assert (segs + [seg])[..|segs|] == segs;
  }

  lemma KeepMore(segs: seq<string>, seg: string, name: string)
    ensures Keep(segs + [seg], name) == if Key(seg) != name then Keep(segs, name) + [seg] else Keep(segs, name)
  {
    assert (segs + [seg])[..|segs|] == segs;
  }

  lemma WithoutMore(ps: seq<Pair>, p: Pair, name: string)
    ensures Without(ps + [p], name) == if p.key != name then Without(ps, name) + [p] else Without(ps, name)
    ensures Values(ps + [p], name) == if p.key == name then Values(ps, name) + [p.value] else Values(ps, name)
  {
    assert (ps + [p])[..|ps|] == ps;
  }

  /** What a segment reads as goes by the key withoutParam compares. */
  lemma ParsedKey(seg: string)
    ensures ParseSegment(seg).Some? ==> ParseSegment(seg).value.key == Key(seg)
  {
  }

  /** Dropping segments by key and dropping parsed pairs by key are the same. */
  lemma {:induction false} KeepParses(segs: seq<string>, name: string)
    ensures ParseAll(Keep(segs, name)) == Without(ParseAll(segs), name)
  {
    hide ParseSegment, Key;
    if segs != [] {
      var a, seg := segs[..|segs| - 1], segs[|segs| - 1];
      KeepParses(a, name);
      ParseMore(Keep(a, name), seg);
      ParsedKey(seg);
      if ParseSegment(seg).Some? {
        WithoutMore(ParseAll(a), ParseSegment(seg).value, name);
      }
    }
  }

  /** Empty segments do not matter to what is dropped. */
  lemma {:induction false} KeepSolid(segs: seq<string>, name: string)
    ensures Solid(Keep(segs, name)) == Keep(Solid(segs), name)
  {
    hide Key;
    if segs != [] {
      var a, seg := segs[..|segs| - 1], segs[|segs| - 1];
      KeepSolid(a, name);
      SolidMore(Keep(a, name), seg);
      KeepMore(Solid(a), seg, name);
    }
  }

  lemma JoinReads(segs: seq<string>)
    requires Whole(segs)
    ensures Parse(Join(segs)) == ParseAll(segs) && Segments(Join(segs)) == Solid(segs)
  {
    if segs == [] {
      assert Split("", '&') == [""];
      assert [""] == [] + [""];
      ParseMore([], "");
      SolidMore([], "");
    } else {
      SplitJoin(segs);
    }
  }

  lemma {:induction false} NoValuesLeft(ps: seq<Pair>, name: string)
    ensures Values(Without(ps, name), name) == []
  {
    if ps != [] {
      var a, p := ps[..|ps| - 1], ps[|ps| - 1];
      NoValuesLeft(a, name);
      WithoutMore(Without(a, name), p, name);
    }
  }

  lemma {:induction false} WithoutCounts(ps: seq<Pair>, name: string, p: Pair)
    ensures multiset(Without(ps, name))[p] == if p.key == name then 0 else multiset(ps)[p]
  {
    if ps != [] {
      var n := |ps| - 1;
      WithoutCounts(ps[..n], name, p);
      assert ps == ps[..n] + [ps[n]];
    }
  }

  /** What a segment says, told by where its first '=' is. */
  lemma SegmentSays(key: string, value: string)
    requires '=' !in key
    ensures ';' !in key && ';' !in value && Unescape(key, true).Some? && Unescape(value, true).Some? ==>
              ParseSegment(key + "=" + value) == Some(Pair(Unescape(key, true).value, Unescape(value, true).value))
    ensures ';' in key || ';' in value || Unescape(key, true).None? || Unescape(value, true).None? ==>
              ParseSegment(key + "=" + value).None?
    ensures key != "" && ';' !in key && Unescape(key, true).Some? ==> ParseSegment(key) == Some(Pair(Unescape(key, true).value, ""))
  {
    assert key + "=" + value == key + ['='] + value;
    CutAt(key, value, '=');
    NoCut(key, '=');
    hide Before, After, Unescape;
    assert ';' in key + "=" + value <==> ';' in key || ';' in value;
    assert Unescape("", true) == Some("") by { NothingUnescapes(); }
  }

  lemma NothingUnescapes()
    ensures Unescape("", true) == Some("")
  {
  }

  lemma {:induction false} NoCut(s: string, c: char)
    requires c !in s
    ensures Before(s, c) == s && After(s, c) == ""
  {
    if s != "" {
      NoCut(s[1..], c);
      assert s == [s[0]] + s[1..];
    }
  }

  /** What the segments kept read as once joined. */
  lemma JoinKept(query: string, name: string)
    ensures var r := Join(Keep(Split(query, '&'), name));
            Parse(r) == Without(Parse(query), name) && Segments(r) == Keep(Segments(query), name)
  {
    hide Keep, Solid, ParseAll, Without, Split, Join, Whole;
    var segs := Split(query, '&');
    SplitIsWhole(query);
    KeepIsWhole(segs, name);
    KeepParses(segs, name);
    KeepSolid(segs, name);
    JoinReads(Keep(segs, name));
  }

  /** What is left reads as the query did without the parameter, and is made of the same bytes in the same order. */
  method WithoutParam(query: string, name: string) returns (r: string)
    ensures Parse(r) == Without(Parse(query), name)
    ensures Segments(r) == Keep(Segments(query), name)
    ensures (forall i :: 0 <= i < |Split(query, '&')| ==> Key(Split(query, '&')[i]) != name) ==> r == query
  {
    hide Keep, Solid, ParseAll, Without, Split, Join, Before, Unescape, Segments, Parse;
    var segs := Split(query, '&');
    var kept: seq<string> := [];
    assert segs[..0] == [];
    KeepAll([], name);
    for i := 0 to |segs|
      invariant kept == Keep(segs[..i], name)
    {
      assert segs[..i + 1] == segs[..i] + [segs[i]];
      KeepMore(segs[..i], segs[i], name);
      var key := Before(segs[i], '=');
      var k := Unescape(key, true);
      if k.Some? {
        key := k.value;
      }
      if key != name {
        kept := kept + [segs[i]];
      }
    }
    assert segs[..|segs|] == segs;
    JoinKept(query, name);
    JoinSplit(query);
    if forall i :: 0 <= i < |segs| ==> Key(segs[i]) != name {
      KeepAll(segs, name);
    }
    r := Join(kept);
  }

  /* ----- the whole rewrite ----- */

  /** A parameter name an Injection Template may give. */
  predicate QueryName(name: string) {
    1 <= |name| <= 64 && forall i :: 0 <= i < |name| ==> Unreserved(name[i])
  }

  lemma InjectedSegment(name: string, secret: Text)
    requires QueryName(name)
    ensures '&' !in name + "=" + Escape(secret, true)
    ensures ParseSegment(name + "=" + Escape(secret, true)) == Some(Pair(name, secret))
  {
    EscapeRoundTrip(secret, true);
    EscapeIsPlain(secret, true);
    UnreservedIsItself(name, true);
    assert Plain(name) by {
      assert forall i :: 0 <= i < |name| ==> Unreserved(name[i]);
    }
    CutAt(name, Escape(secret, true), '=');
    assert name + "=" + Escape(secret, true) == name + ['='] + Escape(secret, true);
  }

  /** Adding one segment at the end of a query. */
  lemma Added(q: string, seg: string)
    requires '&' !in seg && seg != ""
    ensures var r := (if q != "" then q + "&" else q) + seg;
            Parse(r) == AddParsed(Parse(q), ParseSegment(seg)) && Segments(r) == Segments(q) + [seg]
  {
    if q == "" {
      SplitWhole(seg, '&');
      assert q + seg == seg;
      assert Split(q, '&') == [""];
      ParseMore([], seg);
      ParseMore([], "");
      SolidMore([], seg);
      SolidMore([], "");
      assert [] + [seg] == [seg] && [] + [""] == [""];
    } else {
      SplitLast(q, seg);
      ParseMore(Split(q, '&'), seg);
      SolidMore(Split(q, '&'), seg);
    }
  }

  /** The query part of a Delivery: drop the parameter the Agent Token came in, if it came in one,
      then replace the template's parameter by the Secret. */
  method Rewrite(query: string, slot: string, name: string, secret: Text) returns (out: string)
    requires QueryName(name)
    ensures var rest := if slot != "" then Without(Parse(query), slot) else Parse(query);
            Parse(out) == Without(rest, name) + [Pair(name, secret)]
    ensures var rest := if slot != "" then Keep(Segments(query), slot) else Segments(query);
            Segments(out) == Keep(rest, name) + [name + "=" + Escape(secret, true)]
    ensures Values(Parse(out), name) == [secret]
    // Every other parameter is there as often as it was.
    ensures forall p :: multiset(Parse(out))[p] ==
              if p.key == name then (if p.value == secret then 1 else 0)
              else if slot != "" && p.key == slot then 0 else multiset(Parse(query))[p]
  {
    out := query;
    if slot != "" {
      out := WithoutParam(out, slot);
    }
    ghost var rest := Parse(out);
    out := WithoutParam(out, name);
    InjectedSegment(name, secret);
    var seg := name + "=" + Escape(secret, true);
    Added(out, seg);
    NoValuesLeft(rest, name);
    WithoutMore(Without(rest, name), Pair(name, secret), name);
    forall p
      ensures multiset(Without(rest, name) + [Pair(name, secret)])[p] ==
              if p.key == name then (if p.value == secret then 1 else 0)
              else if slot != "" && p.key == slot then 0 else multiset(Parse(query))[p]
    {
      WithoutCounts(rest, name, p);
      WithoutCounts(Parse(query), slot, p);
    }
    out := (if out != "" then out + "&" else out) + seg;
  }
}
