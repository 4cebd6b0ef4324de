/** Which paths a Policy lets a Proxy Delivery reach: the path forwarded
    (internal/agentapi/proxy.go), the prefixes a Policy names (internal/config/pathprefix.go),
    and the verdict (internal/access/access.go).

    A char stands for a byte.  What counts as valid UTF-8 is a parameter. */
module PathPolicy {

  import opened Basics
  import opened Percent

  /* ----- splitting ----- */

  /** strings.Split(s, c): the pieces between the c's, at least one. */
  function Split(s: string, c: char): (ps: seq<string>)
    ensures 0 < |ps|
  {
    if s == "" then [""]
    else if s[0] == c then [""] + Split(s[1..], c)
    else var ps := Split(s[1..], c); [[s[0]] + ps[0]] + ps[1..]
  }

  /** Text joined in the middle of a piece. */
  function Glue(a: seq<string>, b: seq<string>): seq<string>
    requires a != [] && b != []
  {
    a[..|a| - 1] + [a[|a| - 1] + b[0]] + b[1..]
  }

  lemma GlueCons(x: string, a: seq<string>, b: seq<string>)
    requires a != [] && b != []
    ensures Glue([x] + a, b) == [x] + Glue(a, b)
  {
    assert ([x] + a)[..|a|] == [x] + a[..|a| - 1];
  }

  lemma GlueHead(c: char, a: seq<string>, b: seq<string>)
    requires a != [] && b != []
    ensures Glue([[c] + a[0]] + a[1..], b) == [[c] + Glue(a, b)[0]] + Glue(a, b)[1..]
  {
    var x := [[c] + a[0]] + a[1..];
    if |a| == 1 {
      assert x[..0] == [] && a[..0] == [];
      assert [c] + (a[0] + b[0]) == [c] + a[0] + b[0];
    } else {
      assert x[..|x| - 1] == [[c] + a[0]] + a[1..|a| - 1];
      assert Glue(a, b)[1..] == a[1..|a| - 1] + [a[|a| - 1] + b[0]] + b[1..];
    }
  }

  lemma GlueEmpty(q: seq<string>)
    requires q != []
    ensures Glue([""], q) == q
  {
    assert "" + q[0] == q[0] && [q[0]] + q[1..] == q;
  }

  lemma SplitCons(x: char, s: string, c: char)
    ensures Split([x] + s, c) == if x == c then [""] + Split(s, c) else [[x] + Split(s, c)[0]] + Split(s, c)[1..]
  {
    assert ([x] + s)[1..] == s;
  }

  lemma {:induction false} SplitConcat(a: string, b: string, c: char)
    ensures Split(a + b, c) == Glue(Split(a, c), Split(b, c))
  {
    if a == "" {
      assert a + b == b;
      GlueEmpty(Split(b, c));
    } else {
      hide Glue, Split;
      SplitConcat(a[1..], b, c);
      assert a == [a[0]] + a[1..] && a + b == [a[0]] + (a[1..] + b);
      SplitCons(a[0], a[1..], c);
      SplitCons(a[0], a[1..] + b, c);
      GlueCons("", Split(a[1..], c), Split(b, c));
      GlueHead(a[0], Split(a[1..], c), Split(b, c));
    }
  }

  lemma {:induction false} SplitWhole(s: string, c: char)
    requires c !in s
    ensures Split(s, c) == [s]
  {
    if s != "" {
      SplitWhole(s[1..], c);
      assert s == [s[0]] + s[1..];
    }
  }

  /** The pieces on either side of a c. */
  lemma SplitAt(t: string, c: char, rest: string)
    ensures Split(t + [c] + rest, c) == Split(t, c) + Split(rest, c)
  {
    var below := [c] + rest;
    assert t + [c] + rest == t + below;
    SplitConcat(t, below, c);
    SplitCons(c, rest, c);
    hide Split;
    var a, b := Split(t, c), Split(rest, c);
    assert Glue(a, [""] + b) == a[..|a| - 1] + [a[|a| - 1] + ""] + b;
    assert a[|a| - 1] + "" == a[|a| - 1];
    assert a == a[..|a| - 1] + [a[|a| - 1]];
  }

  /** The pieces hold no c. */
  lemma {:induction false} SplitPieces(s: string, c: char)
    ensures forall piece :: piece in Split(s, c) ==> c !in piece
  {
    if s != "" {
      SplitPieces(s[1..], c);
      var ps := Split(s[1..], c);
      assert ps[0] in ps && forall piece :: piece in ps[1..] ==> piece in ps;
    }
  }

  /** A stretch without slashes, from an end of the path or a slash to the next, is one of its segments. */
  lemma SegmentIsSplit(u: string, raw: string, v: string)
    requires '/' !in raw && (u == "" || u[|u| - 1] == '/') && (v == "" || v[0] == '/')
    ensures raw in Split(u + raw + v, '/')
  {
    SplitMiddleAt(u, raw, v);
    EndsInSlash(u);
    assert Split(v, '/')[0] == "";
    hide Split;
    assert "" + (raw + "") == raw;
  }

  /** The piece in the middle, in its place. */
  lemma SplitMiddleAt(t: string, m: string, v: string)
    requires '/' !in m
    ensures var n := |Split(t, '/')| - 1;
            n < |Split(t + m + v, '/')| && Split(t + m + v, '/')[n] == Split(t, '/')[n] + (m + Split(v, '/')[0])
  {
    hide Split;
    SplitMiddle(t, m, v);
    var a, b := Split(t, '/'), Split(v, '/');
    var n := |a| - 1;
    assert (a[..n] + [a[n] + m + b[0]] + b[1..])[n] == a[n] + m + b[0];
    assert a[n] + m + b[0] == a[n] + (m + b[0]);
  }

  lemma EndsInSlash(u: string)
    requires u == "" || u[|u| - 1] == '/'
    ensures Split(u, '/')[|Split(u, '/')| - 1] == ""
  {
    if u != "" {
      var t := u[..|u| - 1];
      assert u == t + "/" && Split("/", '/') == ["", ""];
      SplitConcat(t, "/", '/');
    }
  }

  /* ----- dot segments ----- */

  /** The part of a name before its first ';'. */
  function BeforeSemicolon(s: string): string {
    if s == "" || s[0] == ';' then "" else [s[0]] + BeforeSemicolon(s[1..])
  }

  /** The non-empty parts of a segment between slashes and backslashes. */
  function Fields(s: string, word: string): seq<string>
    decreases |s|
  {
    if s == "" then (if word == "" then [] else [word])
    else if IsSeparator(s[0]) then (if word == "" then [] else [word]) + Fields(s[1..], "")
    else Fields(s[1..], word + [s[0]])
  }

  predicate IsDots(part: string) { BeforeSemicolon(part) == "." || BeforeSemicolon(part) == ".." }

  predicate AnyDots(parts: seq<string>) { exists i :: 0 <= i < |parts| && IsDots(parts[i]) }

  /** A decoded segment that some server could read as climbing. */
  predicate HasDots(seg: string) { AnyDots(Fields(seg, "")) }

  predicate IsSeparator(c: char) { c == '/' || c == '\\' }

  predicate NoSeparator(s: string) { forall i :: 0 <= i < |s| ==> !IsSeparator(s[i]) }

  /** One of the names "." and "..", between the ends of the text or separators; a ';' may follow it. */
  predicate DotsBetween(a: string, name: string, b: string) {
    && (name == "." || name == "..")
    && (a == "" || IsSeparator(a[|a| - 1]))
    && (b == "" || IsSeparator(b[0]) || b[0] == ';')
  }

  lemma AnyDotsConcat(x: seq<string>, y: seq<string>)
    ensures AnyDots(x + y) <==> AnyDots(x) || AnyDots(y)
  {
    if i :| 0 <= i < |x| && IsDots(x[i]) {
      assert IsDots((x + y)[i]);
    }
    if i :| 0 <= i < |y| && IsDots(y[i]) {
      assert IsDots((x + y)[|x| + i]);
    }
  }

  /** What comes before the first ';', and what comes after. */
  lemma {:induction false} SemicolonCuts(s: string) returns (b: string)
    ensures s == BeforeSemicolon(s) + b && (b == "" || b[0] == ';')
  {
    if s == "" || s[0] == ';' {
      b := s;
    } else {
      b := SemicolonCuts(s[1..]);
      assert s == [s[0]] + (BeforeSemicolon(s[1..]) + b);
    }
  }

  lemma {:induction false} CutAtSemicolon(name: string, b: string)
    requires ';' !in name && (b == "" || b[0] == ';')
    ensures BeforeSemicolon(name + b) == name
  {
    if name == "" {
      assert name + b == b;
    } else {
      CutAtSemicolon(name[1..], b);
      assert (name + b)[1..] == name[1..] + b;
    }
  }

  /** A part that is dots is one of the names, with parameters or without. */
  lemma DotsInPart(part: string) returns (name: string, b: string)
    requires IsDots(part)
    ensures part == name + b && (name == "." || name == "..") && (b == "" || b[0] == ';')
  {
    name := BeforeSemicolon(part);
    b := SemicolonCuts(part);
  }

  /** A word that ends here is a field; the fields after it are the others. */
  lemma FieldsStep(s: string, word: string)
    requires s == "" || IsSeparator(s[0])
    ensures AnyDots(Fields(s, word)) <==> IsDots(word) || (s != "" && AnyDots(Fields(s[1..], "")))
  {
    AnyDotsConcat(if word == "" then [] else [word], if s == "" then [] else Fields(s[1..], ""));
    assert AnyDots([word]) <==> IsDots([word][0]);
    assert BeforeSemicolon("") == "";
  }

  /** Dots among the fields stand between separators in the text. */
  lemma {:induction false} FindDots(s: string, word: string) returns (a: string, name: string, b: string)
    requires AnyDots(Fields(s, word))
    ensures word + s == a + name + b && DotsBetween(a, name, b)
    decreases |s|
  {
    hide AnyDots, IsDots;
    if s != "" && !IsSeparator(s[0]) {
      a, name, b := FindDots(s[1..], word + [s[0]]);
      assert word + [s[0]] + s[1..] == word + s;
    } else {
      FieldsStep(s, word);
      hide Fields;
      if IsDots(word) {
        var rest;
        name, rest := DotsInPart(word);
        a, b := "", rest + s;
        assert name + rest + s == "" + name + (rest + s);
      } else {
        var u;
        u, name, b := FindDots(s[1..], "");
        a := word + [s[0]] + u;
        assert word + s == word + [s[0]] + ("" + s[1..]) == a + name + b;
      }
    }
  }

  /** And the other way about; t is the text from the name on. */
  lemma {:induction false} DotsFound(s: string, word: string, a: string, t: string, name: string, b: string)
    requires NoSeparator(word) && word + s == a + t && t == name + b && DotsBetween(a, name, b)
    ensures AnyDots(Fields(s, word))
    decreases |s|
  {
    hide AnyDots, IsDots;
    if s != "" && !IsSeparator(s[0]) {
      assert word + [s[0]] + s[1..] == word + s;
      DotsFound(s[1..], word + [s[0]], a, t, name, b);
    } else {
      FieldsStep(s, word);
      hide Fields, NoSeparator;
      if |a| <= |word| {
        StartsTheWord(word, s, a, t);
        assert a + t == t;
        WordIsDots(word, s, name, b);
      } else {
        var u := PastTheWord(word, s, a, t);
        assert "" + s[1..] == s[1..];
        assert NoSeparator("") by { NothingSeparates(); }
        DotsFound(s[1..], "", u, t, name, b);
      }
    }
  }

  lemma NothingSeparates()
    ensures NoSeparator("")
  {
  }

  lemma StartsTheWord(word: string, s: string, a: string, t: string)
    requires NoSeparator(word) && word + s == a + t && |a| <= |word| && (a == "" || IsSeparator(a[|a| - 1]))
    ensures a == ""
  {
    assert forall i :: 0 <= i < |a| ==> a[i] == (a + t)[i] == word[i];
  }

  lemma PastTheWord(word: string, s: string, a: string, t: string) returns (u: string)
    requires word + s == a + t && |word| < |a| && IsSeparator(a[|a| - 1])
    ensures s != "" && s[1..] == u + t && (u == "" || IsSeparator(u[|u| - 1]))
  {
    u := a[|word| + 1..];
    assert s[1..] == (word + s)[|word| + 1..] == (a + t)[|word| + 1..] == u + t;
  }

  lemma WordIsDots(word: string, s: string, name: string, b: string)
    requires NoSeparator(word) && (s == "" || IsSeparator(s[0])) && word + s == name + b && DotsBetween("", name, b)
    ensures IsDots(word)
  {
    assert forall i :: 0 <= i < |name| ==> !IsSeparator((word + s)[i]);
    assert s != "" ==> IsSeparator((word + s)[|word|]);
    var rest := word[|name|..];
    assert word == (word + s)[..|word|] == name + rest;
    assert rest != "" ==> rest[0] == (word + s)[|name|] == (name + b)[|name|];
    CutAtSemicolon(name, rest);
  }

  /** So dots can be told without taking the text apart. */
  lemma NamesAreDots(a: string, name: string, b: string)
    requires DotsBetween(a, name, b)
    ensures HasDots(a + name + b)
  {
    NothingSeparates();
    hide DotsBetween, NoSeparator, AnyDots, Fields;
    assert "" + (a + name + b) == a + (name + b);
    DotsFound(a + name + b, "", a, name + b, name, b);
  }

  lemma DotsAreNames(seg: string) returns (a: string, name: string, b: string)
    requires HasDots(seg)
    ensures seg == a + name + b && DotsBetween(a, name, b)
  {
    hide DotsBetween, AnyDots, Fields;
    a, name, b := FindDots(seg, "");
    assert "" + seg == seg;
  }

  /* ----- decodePath ----- */

  type Utf8 = string -> bool

  function DecodeSegment(utf8: Utf8, raw: string): Option<string> {
    var seg := Unescape(raw, false);
    if seg.None? || !utf8(seg.value) || HasDots(seg.value) then None else seg
  }

  function DecodeAll(utf8: Utf8, raws: seq<string>): Option<seq<string>> {
    if raws == [] then Some([]) else
      var first, rest := DecodeSegment(utf8, raws[0]), DecodeAll(utf8, raws[1..]);
      if first.Some? && rest.Some? then Some([first.value] + rest.value) else None
  }

  function TrimSlash(s: string): string { if s != "" && s[0] == '/' then s[1..] else s }

  /** What an escaped path means, segment by segment, or None if some server could read it otherwise. */
  function Decode(utf8: Utf8, escaped: string): Option<seq<string>> {
    if TrimSlash(escaped) == "" then Some([]) else DecodeAll(utf8, Split(TrimSlash(escaped), '/'))
  }

  lemma {:induction false} DecodeAllFails(utf8: Utf8, raws: seq<string>)
    ensures DecodeAll(utf8, raws).None? <==> exists i :: 0 <= i < |raws| && DecodeSegment(utf8, raws[i]).None?
  {
    if raws != [] {
      DecodeAllFails(utf8, raws[1..]);
      assert forall i :: 0 < i < |raws| ==> raws[i] == raws[1..][i - 1];
      if i :| 0 <= i < |raws[1..]| && DecodeSegment(utf8, raws[1..][i]).None? {
        assert DecodeSegment(utf8, raws[i + 1]).None?;
      }
    }
  }

  lemma {:induction false} DecodeAllOf(utf8: Utf8, raws: seq<string>, segs: seq<string>)
    requires |raws| == |segs| && forall i :: 0 <= i < |raws| ==> DecodeSegment(utf8, raws[i]) == Some(segs[i])
    ensures DecodeAll(utf8, raws) == Some(segs)
  {
    if raws != [] {
      DecodeAllOf(utf8, raws[1..], segs[1..]);
      assert segs == [segs[0]] + segs[1..];
    }
  }

  /** A segment that decodes holds neither name. */
  lemma DecodedHoldsNoName(utf8: Utf8, raw: string, a: string, name: string, b: string)
    requires DecodeSegment(utf8, raw).Some? && DotsBetween(a, name, b)
    ensures Unescape(raw, false) != Some(a + name + b)
  {
    hide HasDots, Unescape, DotsBetween;
    NamesAreDots(a, name, b);
  }

  /** What is wrong with a segment that does not decode. */
  lemma RefusedHoldsName(utf8: Utf8, raw: string)
    requires DecodeSegment(utf8, raw).None?
    ensures var text := Unescape(raw, false);
            text.None? || !utf8(text.value) || exists a, name, b :: DotsBetween(a, name, b) && text.value == a + name + b
  {
    hide HasDots, Unescape, DotsBetween;
    if Unescape(raw, false).Some? && HasDots(Unescape(raw, false).value) {
      var a, name, b := DotsAreNames(Unescape(raw, false).value);
    }
  }

  lemma EmptySegment()
    ensures Split("", '/') == [""] && Unescape("", false) == Some("")
  {
  }

  /** Dot segments are told here by the text alone: a name "." or "..", at the start of a segment or
      after a slash or backslash, and before a slash, backslash or ';' or at its end. */
  method DecodePath(utf8: Utf8, escaped: string) returns (segments: Option<seq<string>>)
    ensures segments == Decode(utf8, escaped)
    ensures TrimSlash(escaped) == "" ==> segments == Some([])
    ensures segments.Some? && TrimSlash(escaped) != "" ==>
              var raws := Split(TrimSlash(escaped), '/');
              && |segments.value| == |raws|
              && forall i :: 0 <= i < |raws| ==> Unescape(raws[i], false) == Some(segments.value[i]) && utf8(segments.value[i])
    ensures segments.Some? ==>
              forall raw, a, name, b ::
                && raw in Split(TrimSlash(escaped), '/') && (name == "." || name == "..")
                && (a == "" || a[|a| - 1] == '/' || a[|a| - 1] == '\\')
                && (b == "" || b[0] == '/' || b[0] == '\\' || b[0] == ';') ==>
                  Unescape(raw, false) != Some(a + name + b)
    ensures segments.None? ==>
              exists raw :: raw in Split(TrimSlash(escaped), '/') &&
                var text := Unescape(raw, false);
                || text.None? || !utf8(text.value)
                || exists a, name, b :: && (name == "." || name == "..")
                                        && (a == "" || a[|a| - 1] == '/' || a[|a| - 1] == '\\')
                                        && (b == "" || b[0] == '/' || b[0] == '\\' || b[0] == ';')
                                        && text.value == a + name + b
  {
    hide HasDots, Unescape;
    var trimmed := TrimSlash(escaped);
    if trimmed == "" {
      EmptySegment();
      return Some([]);
    }
    var raws, out := Split(trimmed, '/'), [];
    for i := 0 to |raws|
      invariant |out| == i && forall k :: 0 <= k < i ==> DecodeSegment(utf8, raws[k]) == Some(out[k])
    {
      var seg := DecodeSegment(utf8, raws[i]);
      if seg.None? {
        DecodeAllFails(utf8, raws);
        RefusedHoldsName(utf8, raws[i]);
        assert raws[i] in raws;
        return None;
      }
      out := out + [seg.value];
    }
    DecodeAllOf(utf8, raws, out);
    forall raw, a, name, b | raw in raws && DotsBetween(a, name, b)
      ensures Unescape(raw, false) != Some(a + name + b)
    {
      DecodedHoldsNoName(utf8, raw, a, name, b);
    }
    return Some(out);
  }

  /* ----- forwardedPath ----- */

  /** What follows the n-th slash of s, if s has that many. */
  function After(s: string, n: nat): Option<string>
    decreases |s|
  {
    if n == 0 then Some(s)
    else if s == "" then None
    else After(s[1..], if s[0] == '/' then n - 1 else n)
  }

  /** Past a piece without slashes and the slash that ends it. */
  lemma {:induction false} AfterPiece(p: string, s: string, n: nat)
    requires '/' !in p
    ensures After(p + "/" + s, n + 1) == After(s, n)
  {
    var t := p + "/" + s;
    if p == "" {
      assert t[1..] == s;
    } else {
      AfterPiece(p[1..], s, n);
      assert t[1..] == p[1..] + "/" + s;
    }
  }

  /** What follows the fourth slash, told by the four pieces that the slashes end. */
  lemma AfterFour(p0: string, p1: string, p2: string, p3: string, rest: string)
    requires '/' !in p0 && '/' !in p1 && '/' !in p2 && '/' !in p3
    ensures After(p0 + "/" + (p1 + "/" + (p2 + "/" + (p3 + "/" + rest))), 4) == Some(rest)
  {
    assert After(rest, 0) == Some(rest);
    hide After;
    var s3 := p3 + "/" + rest;
    var s2 := p2 + "/" + s3;
    var s1 := p1 + "/" + s2;
    AfterPiece(p3, rest, 0);
    AfterPiece(p2, s3, 1);
    AfterPiece(p1, s2, 2);
    AfterPiece(p0, s1, 3);
  }

  /** Cuts off the first piece. */
  lemma {:induction false} FirstPiece(s: string, n: nat) returns (p: string, t: string)
    requires After(s, n + 1).Some?
    ensures '/' !in p && s == p + "/" + t && After(s, n + 1) == After(t, n)
  {
    if s[0] == '/' {
      p, t := "", s[1..];
    } else {
      p, t := FirstPiece(s[1..], n);
      p := [s[0]] + p;
    }
  }

  lemma FourPieces(s: string) returns (p0: string, p1: string, p2: string, p3: string)
    requires After(s, 4).Some?
    ensures '/' !in p0 && '/' !in p1 && '/' !in p2 && '/' !in p3
    ensures s == p0 + "/" + (p1 + "/" + (p2 + "/" + (p3 + "/" + After(s, 4).value)))
  {
    var s1, s2, s3, rest;
    p0, s1 := FirstPiece(s, 3);
    p1, s2 := FirstPiece(s1, 2);
    p2, s3 := FirstPiece(s2, 1);
    p3, rest := FirstPiece(s3, 0);
    assert After(rest, 0) == Some(rest);
  }

  /** A raw segment that does not unescape, or that has dots once it does. */
  predicate Climbs(raw: string) { Unescape(raw, false).None? || HasDots(Unescape(raw, false).value) }

  predicate AnyClimbs(raws: seq<string>) { exists i :: 0 <= i < |raws| && Climbs(raws[i]) }

  /** The rest of the path, still escaped, past the fourth slash; None if any of it could climb.  Dot
      segments are told as for DecodePath. */
  method ForwardedPath(escaped: string) returns (r: Option<string>, ghost p: seq<string>)
    ensures var rest := After(escaped, 4);
            r == if rest.None? then Some("")
                 else if AnyClimbs(Split(rest.value, '/')) then None
                 else Some("/" + rest.value)
    // The rest is what follows four pieces without slashes and a slash after each.
    ensures After(escaped, 4).Some? ==>
              && |p| == 4 && (forall k :: 0 <= k < 4 ==> '/' !in p[k])
              && escaped == p[0] + "/" + (p[1] + "/" + (p[2] + "/" + (p[3] + "/" + After(escaped, 4).value)))
    ensures r.Some? && r.value != "" ==>
              forall raw :: raw in Split(r.value[1..], '/') ==>
                && Unescape(raw, false).Some?
                && forall a, name, b ::
                     && (name == "." || name == "..")
                     && (a == "" || a[|a| - 1] == '/' || a[|a| - 1] == '\\')
                     && (b == "" || b[0] == '/' || b[0] == '\\' || b[0] == ';') ==>
                       Unescape(raw, false).value != a + name + b
    ensures r.None? ==>
              After(escaped, 4).Some? &&
              exists raw :: raw in Split(After(escaped, 4).value, '/') &&
                var text := Unescape(raw, false);
                || text.None?
                || exists a, name, b :: && (name == "." || name == "..")
                                        && (a == "" || a[|a| - 1] == '/' || a[|a| - 1] == '\\')
                                        && (b == "" || b[0] == '/' || b[0] == '\\' || b[0] == ';')
                                        && text.value == a + name + b
  {
    hide After, Split, Unescape, HasDots;
    var rest := After(escaped, 4);
    p := [];
    if rest.None? {
      return Some(""), p;
    }
    ghost var p0, p1, p2, p3 := FourPieces(escaped);
    p := [p0, p1, p2, p3];
    var raws := Split(rest.value, '/');
    for i := 0 to |raws|
      invariant forall k :: 0 <= k < i ==> !Climbs(raws[k])
    {
      if Climbs(raws[i]) {
        RefusedHoldsName(_ => true, raws[i]);
        assert raws[i] in raws;
        return None, p;
      }
    }
    assert ("/" + rest.value)[1..] == rest.value;
    forall raw, a, name, b | raw in raws && DotsBetween(a, name, b)
      ensures Unescape(raw, false) != Some(a + name + b)
    {
      DecodedHoldsNoName(_ => true, raw, a, name, b);
    }
    return Some("/" + rest.value), p;
  }

  /** A raw segment that unescapes to invalid UTF-8. */
  predicate IsBadText(utf8: Utf8, raw: string) { Unescape(raw, false).Some? && !utf8(Unescape(raw, false).value) }

  /** A path that is forwarded fails the Policy's own decoding only for invalid UTF-8. */
  lemma ForwardedDecodes(utf8: Utf8, rest: string)
    requires !AnyClimbs(Split(rest, '/'))
    ensures Decode(utf8, "/" + rest).None? <==>
            rest != "" && exists i :: 0 <= i < |Split(rest, '/')| && IsBadText(utf8, Split(rest, '/')[i])
    ensures Decode(utf8, "").Some?
  {
    hide HasDots, Unescape, Split;
    assert TrimSlash("/" + rest) == rest;
    var raws := Split(rest, '/');
    DecodeAllFails(utf8, raws);
    forall i | 0 <= i < |raws|
      ensures DecodeSegment(utf8, raws[i]).None? <==> IsBadText(utf8, raws[i])
    {
      assert !Climbs(raws[i]);
    }
  }

  /* ----- percent-encoding a byte changes no verdict ----- */

  /** In a segment, a literal byte and its escape decode alike. */
  lemma EscapedByteDecodesAlike(u: string, c: char, h: char, l: char, w: string)
    requires Unescape(u, false).Some? && c != '%' && FromHex(h, l) == Some(c)
    ensures Unescape(u + [c] + w, false) == Unescape(u + ['%', h, l] + w, false)
  {
    assert u + [c] + w == u + ([c] + w) && u + ['%', h, l] + w == u + (['%', h, l] + w);
    UnescapeConcat(u, [c] + w, false);
    UnescapeConcat(u, ['%', h, l] + w, false);
    assert ([c] + w)[1..] == w && (['%', h, l] + w)[3..] == w;
  }

  /** The segment that text put after u would continue. */
  function LastSegment(u: string): string { var ps := Split(TrimSlash(u), '/'); ps[|ps| - 1] }

  /** Percent-encoding any byte of a segment, with digits of either case, leaves the decoded path
      as it was. */
  lemma EncodingChangesNothing(utf8: Utf8, u: string, c: char, h: char, l: char, v: string)
    requires c != '/' && c != '%' && FromHex(h, l) == Some(c) && h != '/' && l != '/'
    requires Unescape(LastSegment(u), false).Some?
    ensures Decode(utf8, u + [c] + v) == Decode(utf8, u + ['%', h, l] + v)
  {
    hide Unescape, FromHex, Split, DecodeAll;
    var t, e := TrimSlash(u), ['%', h, l];
    assert TrimSlash(u + [c] + v) == t + [c] + v && TrimSlash(u + e + v) == t + e + v;
    var a, b := Split(t, '/'), Split(v, '/');
    var n := |a| - 1;
    EscapedByteDecodesAlike(a[n], c, h, l, b[0]);
    SplitMiddle(t, [c], v);
    SplitMiddle(t, e, v);
    OneSegmentApart(a, b, [c], e);
    DecodeAlike(utf8, Split(t + [c] + v, '/'), Split(t + e + v, '/'), n);
  }

  lemma OneSegmentApart(a: seq<string>, b: seq<string>, m: string, m': string)
    requires a != [] && b != []
    ensures var n := |a| - 1;
            var x, y := a[..n] + [a[n] + m + b[0]] + b[1..], a[..n] + [a[n] + m' + b[0]] + b[1..];
            |x| == |y| && n < |x| && x[n] == a[n] + m + b[0] && y[n] == a[n] + m' + b[0] && forall i :: 0 <= i < |x| && i != n ==> x[i] == y[i]
  {
  }

  lemma SplitMiddle(t: string, m: string, v: string)
    requires '/' !in m
    ensures var a, b := Split(t, '/'), Split(v, '/');
            Split(t + m + v, '/') == a[..|a| - 1] + [a[|a| - 1] + m + b[0]] + b[1..]
  {
    SplitConcat(t + m, v, '/');
    SplitConcat(t, m, '/');
    SplitWhole(m, '/');
    hide Split;
    var a := Split(t, '/');
    assert Split(t + m, '/') == a[..|a| - 1] + [a[|a| - 1] + m];
  }

  /** Segment lists that decode alike one by one decode alike. */
  lemma {:induction false} DecodeAlike(utf8: Utf8, x: seq<string>, y: seq<string>, n: nat)
    requires |x| == |y| && n < |x| && (forall i :: 0 <= i < |x| && i != n ==> x[i] == y[i]) && Unescape(x[n], false) == Unescape(y[n], false)
    ensures DecodeAll(utf8, x) == DecodeAll(utf8, y)
  {
    if n > 0 {
      DecodeAlike(utf8, x[1..], y[1..], n - 1);
    } else {
      assert x[1..] == y[1..];
    }
  }

  /* ----- the prefixes a Policy names ----- */

  datatype PathPrefix = PathPrefix(text: string, segments: seq<string>)

  predicate Pchar(c: char) {
    'a' <= c <= 'z' || 'A' <= c <= 'Z' || '0' <= c <= '9' ||
    c in {'.', '_', '~', '!', '$', '&', '\'', '(', ')', '*', '+', ',', '=', ':', '@', '-'}
  }

  /** pathSegmentPattern, but for the empty segment: path characters and escapes. */
  predicate AllPchars(s: string) {
    s == "" ||
    if s[0] == '%' then |s| >= 3 && FromHex(s[1], s[2]).Some? && AllPchars(s[3..])
    else Pchar(s[0]) && AllPchars(s[1..])
  }

  /** A decoded prefix segment that means only itself. */
  predicate IsPlainSegment(utf8: Utf8, seg: string) {
    && utf8(seg) && seg != "." && seg != ".."
    && forall i :: 0 <= i < |seg| ==> !IsControl(seg[i]) && seg[i] != '/' && seg[i] != '\\' && seg[i] != ';'
  }

  function ParseSegment(utf8: Utf8, raw: string): Option<string> {
    if raw == "" || !AllPchars(raw) then None else
      var seg := Unescape(raw, false);
      if seg.Some? && IsPlainSegment(utf8, seg.value) then seg else None
  }

  function TrimLastSlash(s: string): string { if s != "" && s[|s| - 1] == '/' then s[..|s| - 1] else s }

  ghost predicate AllParse(utf8: Utf8, raws: seq<string>) {
    forall i :: 0 <= i < |raws| ==> ParseSegment(utf8, raws[i]).Some?
  }

  method ParsePathPrefix(utf8: Utf8, s: string) returns (r: Option<PathPrefix>)
    ensures r.Some? ==>
              && s != "" && s[0] == '/' && r.value.text == (if s == "/" then s else TrimLastSlash(s))
              && ParsedFrom(utf8, r.value)
    // No segment of a prefix is a dot segment, or holds a control character, '/', '\\' or ';', even escaped.
    ensures r.Some? ==>
              forall seg :: seg in r.value.segments ==>
                && utf8(seg) && seg != "." && seg != ".."
                && forall k :: 0 <= k < |seg| ==>
                     0x20 <= seg[k] as int && seg[k] as int != 0x7f && seg[k] != '/' && seg[k] != '\\' && seg[k] != ';'
    ensures r.None? <==>
              s == "" || s[0] != '/' || (s != "/" && !AllParse(utf8, Split(TrimSlash(TrimLastSlash(s)), '/')))
  {
    if s == "" || s[0] != '/' {
      return None;
    }
    if s == "/" {
      return Some(PathPrefix(s, []));
    }
    var text := TrimLastSlash(s);
    var raws, out := Split(TrimSlash(text), '/'), [];
    assert text == "/" ==> raws[0] == "" && ParseSegment(utf8, raws[0]).None?;
    for i := 0 to |raws|
      invariant |out| == i && forall k :: 0 <= k < i ==> ParseSegment(utf8, raws[k]) == Some(out[k])
    {
      var seg := ParseSegment(utf8, raws[i]);
      if seg.None? {
        return None;
      }
      out := out + [seg.value];
    }
    return Some(PathPrefix(text, out));
  }

  /** What ParsePathPrefix leaves in a prefix it accepts. */
  ghost predicate ParsedFrom(utf8: Utf8, p: PathPrefix) {
    p.text != "" && p.text[0] == '/' &&
    if p.text == "/" then p.segments == [] else
      var raws := Split(TrimSlash(p.text), '/');
      |raws| == |p.segments| && forall i :: 0 <= i < |raws| ==> ParseSegment(utf8, raws[i]) == Some(p.segments[i])
  }

  predicate Matches(utf8: Utf8, p: PathPrefix, escapedPath: string) {
    var segments := Decode(utf8, escapedPath);
    segments.Some? && p.segments <= segments.value
  }

  /** A segment of letters, digits, '-', '_', '.' and '~' is accepted as it stands. */
  lemma UnreservedParses(utf8: Utf8, raw: string)
    requires raw != "" && raw != "." && raw != ".." && utf8(raw)
    requires forall i :: 0 <= i < |raw| ==>
               'A' <= raw[i] <= 'Z' || 'a' <= raw[i] <= 'z' || '0' <= raw[i] <= '9' || raw[i] in {'-', '_', '.', '~'}
    ensures ParseSegment(utf8, raw) == Some(raw)
  {
    UnreservedIsItself(raw, false);
    UnreservedArePchars(raw);
  }

  lemma {:induction false} UnreservedArePchars(s: string)
    requires forall i :: 0 <= i < |s| ==> Unreserved(s[i])
    ensures AllPchars(s)
  {
    if s != "" {
      UnreservedArePchars(s[1..]);
    }
  }

  lemma {:induction false} FieldsOfPlain(s: string, word: string)
    requires forall i :: 0 <= i < |s| ==> s[i] != '/' && s[i] != '\\'
    ensures Fields(s, word) == if word + s == "" then [] else [word + s]
    decreases |s|
  {
    if s != "" {
      FieldsOfPlain(s[1..], word + [s[0]]);
      assert word + [s[0]] + s[1..] == word + s;
    } else {
      assert word + s == word;
    }
  }

  lemma PlainHasNoDots(utf8: Utf8, seg: string)
    requires IsPlainSegment(utf8, seg)
    ensures !HasDots(seg)
  {
    FieldsOfPlain(seg, "");
    assert "" + seg == seg + "" == seg;
    CutAtSemicolon(seg, "");
  }

  lemma PrefixDecodes(utf8: Utf8, p: PathPrefix)
    requires ParsedFrom(utf8, p) && p.text != "/"
    ensures TrimSlash(p.text) != "" && DecodeAll(utf8, Split(TrimSlash(p.text), '/')) == Some(p.segments)
  {
    assert TrimSlash(p.text) == "" ==> Split(TrimSlash(p.text), '/')[0] == "";
    assert ParseSegment(utf8, "").None?;
    var raws := Split(TrimSlash(p.text), '/');
    forall i | 0 <= i < |raws|
      ensures DecodeSegment(utf8, raws[i]) == Some(p.segments[i])
    {
      PlainHasNoDots(utf8, p.segments[i]);
    }
    DecodeAllOf(utf8, raws, p.segments);
  }

  /** Every prefix matches its own text. */
  lemma PrefixMatchesItself(utf8: Utf8, p: PathPrefix)
    requires ParsedFrom(utf8, p)
    ensures Matches(utf8, p, p.text)
  {
    if p.text != "/" {
      PrefixDecodes(utf8, p);
    }
  }

  lemma {:induction false} DecodedAt(utf8: Utf8, raws: seq<string>, i: nat)
    requires DecodeAll(utf8, raws).Some? && i < |raws|
    ensures |DecodeAll(utf8, raws).value| == |raws| && Unescape(raws[i], false) == Some(DecodeAll(utf8, raws).value[i])
  {
    hide Unescape, HasDots;
    if i == 0 {
      if |raws| > 1 {
        DecodedAt(utf8, raws[1..], 0);
      }
    } else {
      DecodedAt(utf8, raws[1..], i - 1);
    }
  }

  /** A prefix matches a path that decodes exactly when it begins with its segments. */
  lemma MatchesByPieces(utf8: Utf8, p: PathPrefix, path: string)
    requires Decode(utf8, path).Some? && TrimSlash(path) != ""
    ensures Matches(utf8, p, path) <==>
              var raws := Split(TrimSlash(path), '/');
              |p.segments| <= |raws| && forall i :: 0 <= i < |p.segments| ==> Unescape(raws[i], false) == Some(p.segments[i])
  {
    hide Split, Unescape, DecodeAll;
    var raws := Split(TrimSlash(path), '/');
    DecodedAt(utf8, raws, 0);
    forall i | 0 <= i < |raws|
      ensures Unescape(raws[i], false) == Some(DecodeAll(utf8, raws).value[i])
    {
      DecodedAt(utf8, raws, i);
    }
  }

  lemma TrimmedFront(s: string, m: string, v: string)
    requires s != "" && s[0] == '/'
    ensures TrimSlash(s + m + v) == TrimSlash(s) + m + v && (s + m + v)[0] == '/'
  {
  }

  lemma PrefixUnescapes(utf8: Utf8, p: PathPrefix)
    requires ParsedFrom(utf8, p) && p.text != "/"
    ensures p.text != "" && p.text[0] == '/'
    ensures var raws := Split(TrimSlash(p.text), '/');
            |p.segments| == |raws| && forall i :: 0 <= i < |raws| ==> Unescape(raws[i], false) == Some(p.segments[i])
  {
  }

  /** And everything below it that decodes. */
  lemma PrefixMatchesBelow(utf8: Utf8, p: PathPrefix, rest: string)
    requires ParsedFrom(utf8, p) && p.text != "/"
    ensures Matches(utf8, p, p.text + "/" + rest) <==> Decode(utf8, p.text + "/" + rest).Some?
  {
    PrefixUnescapes(utf8, p);
    TrimmedFront(p.text, "/", rest);
    hide Split, DecodeAll, ParsedFrom, Unescape, TrimSlash;
    var t := TrimSlash(p.text);
    SplitAt(t, '/', rest);
    assert t + "/" + rest == t + ['/'] + rest;
    if Decode(utf8, p.text + "/" + rest).Some? {
      MatchesByPieces(utf8, p, p.text + "/" + rest);
    }
  }

  /** But nothing that goes on in its last segment: it matches by whole segments. */
  lemma PrefixMatchesWholeSegments(utf8: Utf8, p: PathPrefix, m: string, v: string)
    requires ParsedFrom(utf8, p) && p.text != "/" && m != "" && '/' !in m
    ensures !Matches(utf8, p, p.text + m + v)
  {
    PrefixUnescapes(utf8, p);
    TrimmedFront(p.text, m, v);
    hide Split, DecodeAll, ParsedFrom, Unescape, TrimSlash;
    var t, path := TrimSlash(p.text), p.text + m + v;
    var n := |Split(t, '/')| - 1;
    SplitMiddleAt(t, m, v);
    LongerDecodes(Split(t, '/')[n], m + Split(v, '/')[0]);
    if Decode(utf8, path).Some? {
      MatchesByPieces(utf8, p, path);
      assert Unescape(Split(TrimSlash(path), '/')[n], false) != Some(p.segments[n]);
    }
  }

  /** More text unescapes to more text, or not at all. */
  lemma LongerDecodes(a: string, b: string)
    requires Unescape(a, false).Some? && b != ""
    ensures Unescape(a + b, false) != Unescape(a, false)
  {
    UnescapeConcat(a, b, false);
  }
}
