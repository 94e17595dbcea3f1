/**
  `bashQuoteString`: a string becomes one single-quoted Bash word. Inside
  single quotes Bash takes every character literally except the closing
  quote, so each `'` of the text is written as `'\''`: close the quotes,
  an escaped quote, reopen the quotes.

  `ReadWord` is the partner: how Bash reads back a word made of single-quoted
  segments and `\'` escapes, stopping at the first character that is
  neither (a space, `)`, `]`, a newline, the end of the text).
 */
module BashQuote {
  import opened Wrappers

  /** `strings.ReplaceAll(s, "'", "'\\''")`: the pattern is one character, so each character is replaced on its own. */
  function EscapeQuotes(s: string): string
  {
    if s == [] then []
    else (if s[0] == '\'' then "'\\''" else [s[0]]) + EscapeQuotes(s[1..])
  }

  function BashQuoteString(s: string): (r: string)
    ensures |r| >= 2 && r[0] == '\'' && r[|r| - 1] == '\''
  {
    "'" + EscapeQuotes(s) + "'"
  }

  /**
    Reads one word from the front of `t` and gives its value and the text after
    it, or None when a quoted segment is never closed. `quoted` says whether
    the reader is inside single quotes.
   */
  function ReadWordFrom(t: string, quoted: bool): (r: Option<(string, string)>)
    ensures r.Some? ==> |r.value.1| <= |t|
    decreases |t|
  {
    if quoted then
      if t == [] then None
      else if t[0] == '\'' then ReadWordFrom(t[1..], false)
      else
        match ReadWordFrom(t[1..], true)
        case None => None
        case Some((v, rest)) => Some(([t[0]] + v, rest))
    else if |t| > 0 && t[0] == '\'' then
      ReadWordFrom(t[1..], true)
    else if |t| >= 2 && t[0] == '\\' && t[1] == '\'' then
      match ReadWordFrom(t[2..], false)
      case None => None
      case Some((v, rest)) => Some(("'" + v, rest))
    else
      Some(("", t))
  }

  function ReadWord(t: string): (r: Option<(string, string)>)
    ensures r.Some? ==> |r.value.1| <= |t|
  {
    ReadWordFrom(t, false)
  }

  /** The word ends at `rest` when `rest` starts with neither a quote nor a backslash. */
  predicate EndsWord(rest: string)
  {
    rest == [] || (rest[0] != '\'' && rest[0] != '\\')
  }

  lemma {:induction false} ReadEscaped(s: string, rest: string)
    requires EndsWord(rest)
    ensures ReadWordFrom(EscapeQuotes(s) + "'" + rest, true) == Some((s, rest))
    decreases |s|
  {
    var t := EscapeQuotes(s) + "'" + rest;
    if s == [] {
      assert t == "'" + rest;
      assert t[1..] == rest;
    } else if s[0] == '\'' {
      var u := EscapeQuotes(s[1..]) + "'" + rest;
      assert t == "'\\''" + u;
      assert t[1..] == "\\''" + u;
      assert t[1..][2..] == "'" + u;
      assert ("'" + u)[1..] == u;
      ReadEscaped(s[1..], rest);
      assert ReadWordFrom("'" + u, false) == Some((s[1..], rest));
      assert ReadWordFrom(t[1..], false) == Some(("'" + s[1..], rest));
      assert s == "'" + s[1..];
    } else {
      var u := EscapeQuotes(s[1..]) + "'" + rest;
      assert t == [s[0]] + u;
      assert t[1..] == u;
      ReadEscaped(s[1..], rest);
      assert s == [s[0]] + s[1..];
    }
  }

  /** Quoting is undone by reading: Bash sees exactly `s`, whatever quotes it holds. */
  lemma ReadQuoted(s: string, rest: string)
    requires EndsWord(rest)
    ensures ReadWord(BashQuoteString(s) + rest) == Some((s, rest))
  {
    var t := BashQuoteString(s) + rest;
    assert t == "'" + (EscapeQuotes(s) + "'" + rest);
    assert t[1..] == EscapeQuotes(s) + "'" + rest;
    ReadEscaped(s, rest);
  }

  /** The value Bash gives to a whole text that is one word, if it is one. */
  function Unquote(t: string): Option<string>
  {
    match ReadWord(t)
    case Some((v, rest)) => if rest == [] then Some(v) else None
    case None => None
  }

  lemma UnquoteQuoted(s: string)
    ensures Unquote(BashQuoteString(s)) == Some(s)
  {
    ReadQuoted(s, []);
    assert BashQuoteString(s) + [] == BashQuoteString(s);
  }

  /** Quoting never produces a newline, space, `)`, `[` or `]` that the text did not already hold. */
  lemma {:induction false} EscapeAddsOnlyQuotes(s: string, c: char)
    requires c != '\'' && c != '\\'
    ensures c in EscapeQuotes(s) <==> c in s
    decreases |s|
  {
    if s != [] {
      EscapeAddsOnlyQuotes(s[1..], c);
      assert s == [s[0]] + s[1..];
    }
  }

}
