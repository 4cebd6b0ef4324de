/** Percent-encoding of text, sections 2.1 to 2.3 of RFC 3986, and its form for query components,
    where a plus sign stands for a space.  A char stands for a byte. */
module Percent {
  import opened Basics

  /** A byte. */
  type Octet = c: char | c as int < 256
  type Text = seq<Octet>

  /* ----- hex digits ----- */

  function HexValue(c: char): Option<int> {
    if '0' <= c <= '9' then Some(c as int - 48)
    else if 'A' <= c <= 'F' then Some(c as int - 55)
    else if 'a' <= c <= 'f' then Some(c as int - 87)
    else None
  }

  /** The upper-case digit of a value. */
  function HexDigit(n: int): (c: char)
    requires 0 <= n < 16
    ensures HexValue(c) == Some(n) && Unreserved(c)
  {
    if n < 10 then (48 + n) as char else (55 + n) as char
  }

  /** The letters of either case are the same digits, and nothing else is one. */
  lemma HexDigits(c: char)
    ensures 'a' <= c <= 'f' ==> HexValue(c) == HexValue((c as int - 32) as char)
    ensures HexValue(c).Some? ==> exists n :: 0 <= n < 16 && (c == HexDigit(n) || ('a' <= c && (c as int - 32) as char == HexDigit(n)))
  {
    if HexValue(c).Some? {
      assert c == HexDigit(HexValue(c).value) || ('a' <= c && (c as int - 32) as char == HexDigit(HexValue(c).value));
    }
  }

  /** The byte a pair of hex digits stands for. */
  function FromHex(h: char, l: char): Option<char> {
    if HexValue(h).Some? && HexValue(l).Some? then Some((16 * HexValue(h).value + HexValue(l).value) as char) else None
  }

  lemma HexRoundTrip(c: Octet)
    ensures FromHex(HexDigit(c as int / 16), HexDigit(c as int % 16)) == Some(c)
  {
  }

  /* ----- escaping ----- */

  predicate Unreserved(c: char) {
    'A' <= c <= 'Z' || 'a' <= c <= 'z' || '0' <= c <= '9' || c == '-' || c == '_' || c == '.' || c == '~'
  }

  /** With `plus`, as url.QueryEscape has it. */
  function EscapeByte(c: Octet, plus: bool): string {
    if Unreserved(c) then [c]
    else if plus && c == ' ' then "+"
    else ['%', HexDigit(c as int / 16), HexDigit(c as int % 16)]
  }

  function Escape(s: Text, plus: bool): string {
    if s == [] then "" else Escape(s[..|s| - 1], plus) + EscapeByte(s[|s| - 1], plus)
  }

  /** Letters, digits, '-', '_', '.' and '~' stay; a space may become a plus sign; any other byte becomes
      a percent sign and two digits, capital if letters. */
  lemma EscapeOneByte(c: Octet, plus: bool)
    ensures var r := EscapeByte(c, plus);
            if 'A' <= c <= 'Z' || 'a' <= c <= 'z' || '0' <= c <= '9' || c in {'-', '_', '.', '~'} then r == [c]
            else if plus && c == ' ' then r == "+"
            else |r| == 3 && r[0] == '%' && FromHex(r[1], r[2]) == Some(c) && r[1] < 'a' && r[2] < 'a'
  {
    HexRoundTrip(c);
  }

  /** None of the delimiters of a query. */
  predicate Plain(t: string) { '&' !in t && '=' !in t && ';' !in t }

  lemma {:induction false} EscapeIsPlain(s: Text, plus: bool)
    ensures Plain(Escape(s, plus))
  {
    if s != [] {
      EscapeIsPlain(s[..|s| - 1], plus);
      assert Plain(EscapeByte(s[|s| - 1], plus));
    }
  }

  /* ----- unescaping ----- */

  /** url.PathUnescape, or, with `plus`, url.QueryUnescape. */
  function Unescape(s: string, plus: bool): Option<string> {
    if s == "" then Some("")
    else if s[0] == '%' then
      if |s| < 3 || FromHex(s[1], s[2]).None? then None
      else Then(FromHex(s[1], s[2]).value, Unescape(s[3..], plus))
    else Then(if plus && s[0] == '+' then ' ' else s[0], Unescape(s[1..], plus))
  }

  function Then(c: char, rest: Option<string>): Option<string> {
    if rest.Some? then Some([c] + rest.value) else None
  }

  function Append(a: string, rest: Option<string>): Option<string> {
    if rest.Some? then Some(a + rest.value) else None
  }

  lemma AppendThen(c: char, a: string, rest: Option<string>)
    ensures Append([c] + a, rest) == Then(c, Append(a, rest)) && Append("", rest) == rest
  {
    if rest.Some? {
      assert [c] + a + rest.value == [c] + (a + rest.value) && "" + rest.value == rest.value;
    }
  }

  lemma UnescapeStep(s: string, plus: bool, n: nat, t: string)
    requires s != "" && n == (if s[0] == '%' then 3 else 1) && n <= |s|
    ensures (s + t)[0] == s[0] && (s + t)[n..] == s[n..] + t
    ensures n == 3 ==> (s + t)[1] == s[1] && (s + t)[2] == s[2]
  {
  }

  /** Text that unescapes on its own does so in front of anything. */
  lemma {:induction false} UnescapeConcat(a: string, b: string, plus: bool)
    requires Unescape(a, plus).Some?
    ensures Unescape(a + b, plus) == Append(Unescape(a, plus).value, Unescape(b, plus))
    decreases |a|
  {
    hide Append, FromHex;
    if a == "" {
      assert a + b == b;
      AppendThen('a', "", Unescape(b, plus));
    } else if a[0] == '%' {
      UnescapeStep(a, plus, 3, b);
      UnescapeConcat(a[3..], b, plus);
      AppendThen(FromHex(a[1], a[2]).value, Unescape(a[3..], plus).value, Unescape(b, plus));
    } else {
      UnescapeStep(a, plus, 1, b);
      UnescapeConcat(a[1..], b, plus);
      AppendThen(if plus && a[0] == '+' then ' ' else a[0], Unescape(a[1..], plus).value, Unescape(b, plus));
    }
  }

  lemma UnescapeByte(c: Octet, plus: bool)
    ensures Unescape(EscapeByte(c, plus), plus) == Some([c])
  {
    HexRoundTrip(c);
    hide FromHex;
    var u := EscapeByte(c, plus);
    assert Then(c, Unescape("", plus)) == Some([c]) by {
      assert [c] + "" == [c];
    }
    if Unreserved(c) || (plus && c == ' ') {
      assert |u| == 1 && u[1..] == "";
    } else {
      assert u[1] == HexDigit(c as int / 16) && u[2] == HexDigit(c as int % 16) && u[3..] == "";
    }
  }

  /** Unescaping undoes escaping. */
  lemma {:induction false} EscapeRoundTrip(s: Text, plus: bool)
    ensures Unescape(Escape(s, plus), plus) == Some(s)
  {
    hide EscapeByte;
    if s != [] {
      var n := |s| - 1;
      EscapeRoundTrip(s[..n], plus);
      UnescapeByte(s[n], plus);
      hide Unescape;
      UnescapeConcat(Escape(s[..n], plus), EscapeByte(s[n], plus), plus);
      assert s == s[..n] + [s[n]];
    }
  }

  lemma {:induction false} UnreservedIsItself(s: string, plus: bool)
    requires forall i :: 0 <= i < |s| ==> Unreserved(s[i])
    ensures Unescape(s, plus) == Some(s)
  {
    if s != "" {
      UnreservedIsItself(s[1..], plus);
      assert s == [s[0]] + s[1..];
    }
  }
}
