/** The command line tc-exec hands to a shell, and the bounded output it collects
    (cmd/tc-exec/main.go). */
module Shell {

  import opened Basics

  /* ----- how a POSIX shell reads plain words ----- */

  /** A byte that means itself outside quotes. */
  predicate Plain(c: char) {
    'a' <= c <= 'z' || 'A' <= c <= 'Z' || '0' <= c <= '9' || c in {'-', '_', '.', '/', ',', ':', '@', '%', '+'}
  }

  function Begun(word: Option<string>): string { if word.Some? then word.value else "" }

  /** The words of s, given the word begun before it and whether a quote is open.  None when a quote
      is left open, or s holds anything unquoted that a shell would expand or act on. */
  function Scan(s: string, word: Option<string>, quoted: bool): Option<seq<string>>
    decreases |s|
  {
    if s == "" then
      if quoted then None else if word.Some? then Some([word.value]) else Some([])
    else if quoted then
      if s[0] == '\'' then Scan(s[1..], word, false) else Scan(s[1..], Some(Begun(word) + [s[0]]), true)
    else if s[0] == '\'' then Scan(s[1..], Some(Begun(word)), true)
    else if s[0] == '\\' then
      if |s| < 2 then None else Scan(s[2..], Some(Begun(word) + [s[1]]), false)
    else if s[0] == ' ' then
      var rest := Scan(s[1..], None, false);
      if word.Some? && rest.Some? then Some([word.value] + rest.value) else rest
    else if Plain(s[0]) then Scan(s[1..], Some(Begun(word) + [s[0]]), false)
    else None
  }

  function Words(s: string): Option<seq<string>> { Scan(s, None, false) }

  /* ----- shellQuote ----- */

  /** Every `'` becomes `'\''`. */
  function Escaped(s: string): string {
    if s == "" then "" else (if s[0] == '\'' then "'\\''" else [s[0]]) + Escaped(s[1..])
  }

  function ShellQuote(s: string): string { "'" + Escaped(s) + "'" }

  /** Inside quotes, one escaped character adds that character to the word. */
  lemma ScanEscapedChar(c: char, w: string, u: string)
    ensures Scan((if c == '\'' then "'\\''" else [c]) + u, Some(w), true) == Scan(u, Some(w + [c]), true)
  {
    var t := (if c == '\'' then "'\\''" else [c]) + u;
    if c == '\'' {
      assert t[0] == '\'' && t[1..] == "\\''" + u;
      var t1 := t[1..];
      assert t1[0] == '\\' && t1[1] == '\'' && t1[2..] == "'" + u;
      var t2 := t1[2..];
      assert t2[0] == '\'' && t2[1..] == u;
      assert Scan(t, Some(w), true) == Scan(t1, Some(w), false) == Scan(t2, Some(w + [c]), false);
    } else {
      assert t[0] == c && t[1..] == u;
    }
  }

  lemma {:induction false} ScanEscaped(s: string, w: string, rest: string)
    ensures Scan(Escaped(s) + "'" + rest, Some(w), true) == Scan(rest, Some(w + s), false)
  {
    var t := Escaped(s) + "'" + rest;
    if s == "" {
      assert t == "'" + rest && t[1..] == rest && w + s == w;
    } else {
      hide Scan;
      var u := Escaped(s[1..]) + "'" + rest;
      assert t == (if s[0] == '\'' then "'\\''" else [s[0]]) + u;
      ScanEscapedChar(s[0], w, u);
      ScanEscaped(s[1..], w + [s[0]], rest);
      assert w + s == w + [s[0]] + s[1..];
    }
  }

  /** A quoted string is read back as it was, joined to the word it continues. */
  lemma QuoteIsRead(s: string, word: Option<string>, rest: string)
    ensures Scan(ShellQuote(s) + rest, word, false) == Scan(rest, Some(Begun(word) + s), false)
  {
    var t := ShellQuote(s) + rest;
    assert t[0] == '\'' && t[1..] == Escaped(s) + "'" + rest;
    ScanEscaped(s, Begun(word), rest);
  }

  lemma {:induction false} PlainIsRead(w: string, word: Option<string>, rest: string)
    requires w != "" && forall i :: 0 <= i < |w| ==> Plain(w[i])
    ensures Scan(w + rest, word, false) == Scan(rest, Some(Begun(word) + w), false)
  {
    assert (w + rest)[0] == w[0] && (w + rest)[1..] == w[1..] + rest;
    if |w| == 1 {
      assert w == [w[0]] && w[1..] + rest == rest;
    } else {
      PlainIsRead(w[1..], Some(Begun(word) + [w[0]]), rest);
      assert Begun(word) + [w[0]] + w[1..] == Begun(word) + w;
    }
  }

  lemma SpaceEnds(w: string, rest: string)
    requires Words(rest).Some?
    ensures Scan(" " + rest, Some(w), false) == Some([w] + Words(rest).value)
  {
    assert (" " + rest)[1..] == rest;
  }

  lemma PlainWord(w: string, rest: string)
    requires w != "" && (forall i :: 0 <= i < |w| ==> Plain(w[i])) && Words(rest).Some?
    ensures Words(w + " " + rest) == Some([w] + Words(rest).value)
  {
    assert w + " " + rest == w + (" " + rest);
    PlainIsRead(w, None, " " + rest);
    assert "" + w == w;
    SpaceEnds(w, rest);
  }

  lemma QuotedWord(s: string, rest: string)
    requires Words(rest).Some?
    ensures Words(ShellQuote(s) + " " + rest) == Some([s] + Words(rest).value)
  {
    assert ShellQuote(s) + " " + rest == ShellQuote(s) + (" " + rest);
    QuoteIsRead(s, None, " " + rest);
    assert "" + s == s;
    SpaceEnds(s, rest);
  }

  lemma LastQuotedWord(s: string)
    ensures Words(ShellQuote(s)) == Some([s])
  {
    assert ShellQuote(s) + "" == ShellQuote(s);
    QuoteIsRead(s, None, "");
    assert "" + s == s;
  }

  /** The command hook writes, with `option` --config or --mailbox. */
  function DispatchCommand(exe: string, option: string, value: string, job: string): string {
    ShellQuote(exe) + " dispatch " + option + " " + ShellQuote(value) + " --job " + ShellQuote(job)
  }

  /** A shell reads the command as exactly the words meant, whatever bytes they hold. */
  lemma DispatchCommandWords(exe: string, option: string, value: string, job: string)
    requires option == "--config" || option == "--mailbox"
    ensures Words(DispatchCommand(exe, option, value, job)) == Some([exe, "dispatch", option, value, "--job", job])
  {
    hide Words, ShellQuote, Plain;
    LastWords(option, value, job);
    var rest := option + " " + (ShellQuote(value) + " " + ("--job" + " " + ShellQuote(job)));
    assert forall i :: 0 <= i < 8 ==> Plain("dispatch"[i]) by { PlainNames(); }
    PlainWord("dispatch", rest);
    QuotedWord(exe, "dispatch" + " " + rest);
    assert DispatchCommand(exe, option, value, job) == ShellQuote(exe) + " " + ("dispatch" + " " + rest);
    assert [exe] + (["dispatch"] + [option, value, "--job", job]) == [exe, "dispatch", option, value, "--job", job];
  }

  lemma PlainNames()
    ensures forall w, i :: w in {"dispatch", "--config", "--mailbox", "--job"} && 0 <= i < |w| ==> Plain(w[i])
  {
  }

  /** The words from the option on. */
  lemma LastWords(option: string, value: string, job: string)
    requires option == "--config" || option == "--mailbox"
    ensures Words(option + " " + (ShellQuote(value) + " " + ("--job" + " " + ShellQuote(job)))) == Some([option, value, "--job", job])
  {
    hide Words, ShellQuote, Plain;
    PlainNames();
    LastQuotedWord(job);
    PlainWord("--job", ShellQuote(job));
    QuotedWord(value, "--job" + " " + ShellQuote(job));
    PlainWord(option, ShellQuote(value) + " " + ("--job" + " " + ShellQuote(job)));
    assert [option] + ([value] + (["--job"] + [job])) == [option, value, "--job", job];
  }

  /* ----- boundedOutput ----- */

  const OUTPUT_LIMIT := 0x10_0000

  /** Keeps the first OUTPUT_LIMIT bytes written and says whether there were more. */
  class BoundedOutput {
    var buf: seq<int>
    var truncated: bool
    ghost var total: seq<int>

    ghost predicate Valid()
      reads this
    {
      && buf == total[..if |total| < OUTPUT_LIMIT then |total| else OUTPUT_LIMIT]
      && (truncated <==> |total| > OUTPUT_LIMIT)
    }

    constructor ()
      ensures Valid() && total == []
    {
      buf, truncated, total := [], false, [];
    }

    method Write(p: seq<int>) returns (n: nat)
      requires Valid()
      modifies this
      ensures Valid() && n == |p| && total == old(total) + p
    {
      var written := 0;
      var remaining := OUTPUT_LIMIT - |buf|;
      if remaining > 0 {
        if remaining > |p| {
          remaining := |p|;
        }
        buf := buf + p[..remaining];
        written := remaining;
      }
      if written < |p| {
        truncated := true;
      }
      total := total + p;
      return |p|;
    }
  }
}
