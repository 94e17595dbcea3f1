/**
  The two pieces of Go's formatting that reach the text of the `script`
  function's messages: `%q` of a string (`strconv.Quote`) and the way `fmt`
  treats a format string when no operands are left for its verbs.
 */
module GoFormat {

  function LowerHex(d: nat): char
    requires d < 16
  {
    "0123456789abcdef"[d]
  }

  /** Go's `strconv.IsPrint` on Latin-1 (code points up to 0xFF). */
  predicate IsPrintLatin1(c: char)
  {
    (' ' <= c <= '~') || ('\U{A1}' <= c <= '\U{FF}' && c != '\U{AD}')
  }

  /** How `%q` writes one character between its double quotes. */
  function QuoteChar(c: char): string
  {
    if c == '"' || c == '\\' then ['\\', c]
    else if c as int > 0xff || IsPrintLatin1(c) then [c]
    else if c as int == 0x07 then "\\a"
    else if c as int == 0x08 then "\\b"
    else if c as int == 0x0c then "\\f"
    else if c == '\n' then "\\n"
    else if c == '\r' then "\\r"
    else if c == '\t' then "\\t"
    else if c as int == 0x0b then "\\v"
    else if c as int < 0x20 || c as int == 0x7f then
      ['\\', 'x', LowerHex(c as int / 16), LowerHex(c as int % 16)]
    else
      ['\\', 'u', '0', '0', LowerHex(c as int / 16), LowerHex(c as int % 16)]
  }

  /** The characters of `s`, each written as `%q` writes it. */
  function QuoteChars(s: string): string
  {
    if s == [] then "" else QuoteChar(s[0]) + QuoteChars(s[1..])
  }

  /** `%q` applied to a string: the text between double quotes, escaped as a Go literal. */
  function GoQuote(s: string): (r: string)
    ensures |r| >= 2 && r[0] == '"' && r[|r| - 1] == '"'
  {
    "\"" + QuoteChars(s) + "\""
  }

  /** A character `%q` writes as itself. */
  predicate PlainChar(c: char)
  {
    ' ' <= c <= '~' && c != '"' && c != '\\'
  }

  lemma {:induction false} QuoteCharsPlain(s: string)
    requires forall i :: 0 <= i < |s| ==> PlainChar(s[i])
    ensures QuoteChars(s) == s
    decreases |s|
  {
    if s != [] {
      QuoteCharsPlain(s[1..]);
      assert s == [s[0]] + s[1..];
    }
  }

  /** On printable ASCII without `"` and `\`, `%q` only adds double quotes. */
  lemma GoQuotePlain(s: string)
    requires forall i :: 0 <= i < |s| ==> PlainChar(s[i])
    ensures GoQuote(s) == "\"" + s + "\""
  {
    QuoteCharsPlain(s);
  }

  /** Characters that may follow `%` but are not verbs: flags, width, precision, argument index. */
  predicate IsVerbModifier(c: char)
  {
    c == '#' || c == '0' || c == '+' || c == '-' || c == ' ' || ('1' <= c <= '9')
    || c == '.' || c == '*' || c == '['
  }

  /** Every `%` is the last character or is followed directly by a verb. */
  predicate BareVerbs(f: string)
    decreases |f|
  {
    if f == [] then true
    else if f[0] != '%' then BareVerbs(f[1..])
    else |f| == 1 || (!IsVerbModifier(f[1]) && BareVerbs(f[2..]))
  }

  /**
    What `fmt.Errorf(f)` (no operands) writes for the format `f`: `%%` is a
    percent sign, any other verb is reported as `%!c(MISSING)`, and a `%` at
    the very end as `%!(NOVERB)`.
   */
  function FormatWithoutOperands(f: string): string
    requires BareVerbs(f)
    decreases |f|
  {
    if f == [] then ""
    else if f[0] != '%' then [f[0]] + FormatWithoutOperands(f[1..])
    else if |f| == 1 then "%!(NOVERB)"
    else if f[1] == '%' then "%" + FormatWithoutOperands(f[2..])
    else "%!" + [f[1]] + "(MISSING)" + FormatWithoutOperands(f[2..])
  }

  /** Without a `%`, the format is written out unchanged. */
  lemma {:induction false} FormatWithoutPercent(f: string)
    requires '%' !in f
    ensures BareVerbs(f) && FormatWithoutOperands(f) == f
    decreases |f|
  {
    if f != [] {
      assert f[0] in f;
      assert '%' !in f[1..];
      FormatWithoutPercent(f[1..]);
      assert f == [f[0]] + f[1..];
    }
  }

  /** Text without `%` before the format is copied through unchanged. */
  lemma {:induction false} FormatPlainPrefix(p: string, f: string)
    requires '%' !in p && BareVerbs(f)
    ensures BareVerbs(p + f) && FormatWithoutOperands(p + f) == p + FormatWithoutOperands(f)
    decreases |p|
  {
    if p != [] {
      assert p[0] in p;
      assert (p + f)[0] == p[0];
      assert (p + f)[1..] == p[1..] + f;
      assert '%' !in p[1..];
      FormatPlainPrefix(p[1..], f);
      assert p == [p[0]] + p[1..];
    } else {
      assert p + f == f;
    }
  }

  /** A single verb with no operand left for it is reported in place; the rest is unchanged. */
  lemma FormatOneVerb(p: string, x: char, q: string)
    requires '%' !in p && '%' !in q && x != '%' && !IsVerbModifier(x)
    ensures BareVerbs(p + ['%', x] + q)
    ensures FormatWithoutOperands(p + ['%', x] + q) == p + "%!" + [x] + "(MISSING)" + q
  {
    FormatWithoutPercent(q);
    var f := ['%', x] + q;
    assert f[2..] == q;
    FormatPlainPrefix(p, f);
    assert p + ['%', x] + q == p + f;
  }

  lemma {:induction false} QuoteCharsPercent(s: string)
    ensures '%' in QuoteChars(s) <==> '%' in s
    decreases |s|
  {
    if s != [] {
      QuoteCharsPercent(s[1..]);
      assert s == [s[0]] + s[1..];
      QuoteCharPercent(s[0]);
    }
  }

  lemma QuoteCharPercent(c: char)
    ensures '%' in QuoteChar(c) <==> c == '%'
  {
  }

}
