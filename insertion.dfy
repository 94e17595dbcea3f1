/**
  Where the declarations go in the script. A script that starts with an
  interpreter line (`#!`) keeps that line first and gets the declarations
  right after it; any other script gets them in front.
 */
module Insertion {

  /** `strings.HasPrefix`. */
  predicate HasPrefix(s: string, p: string)
  {
    |p| <= |s| && s[..|p|] == p
  }

  /** `strings.Index` for a one-character pattern: the first position of `c`, or -1. */
  function IndexOf(s: string, c: char): (r: int)
    ensures r == -1 <==> c !in s
    ensures r != -1 ==> 0 <= r < |s| && s[r] == c && c !in s[..r]
    decreases |s|
  {
    if s == [] then -1
    else if s[0] == c then 0
    else
      var k := IndexOf(s[1..], c);
      if k == -1 then -1
      else
        assert s[..k + 1] == [s[0]] + s[1..][..k];
        k + 1
  }

  /** The script with the declarations spliced in. */
  function InsertDecls(source: string, decls: string): (r: string)
    ensures !HasPrefix(source, "#!") ==> r == decls + source
    ensures HasPrefix(source, "#!") && '\n' !in source ==> r == source + "\n" + decls
    ensures HasPrefix(source, "#!") && '\n' in source ==>
      exists p :: 0 < p <= |source| && source[p - 1] == '\n' && '\n' !in source[..p - 1]
                  && r == source[..p] + decls + source[p..]
  {
    if HasPrefix(source, "#!") then
      var newline := IndexOf(source, '\n');
      if newline < 0 then source + "\n" + decls
      else
        assert source[..newline + 1][..newline] == source[..newline];
        source[..newline + 1] + decls + source[newline + 1..]
    else decls + source
  }

  /** The interpreter line is still the first line, character for character. */
  lemma InterpreterLineKept(source: string, decls: string)
    requires HasPrefix(source, "#!")
    ensures HasPrefix(InsertDecls(source, decls), "#!")
    ensures var k := IndexOf(source, '\n');
      k >= 0 ==> HasPrefix(InsertDecls(source, decls), source[..k + 1])
  {
    var r := InsertDecls(source, decls);
    var k := IndexOf(source, '\n');
    if k >= 0 {
      assert r == source[..k + 1] + decls + source[k + 1..];
      assert r[..k + 1] == source[..k + 1];
      assert r[..2] == source[..k + 1][..2];
    } else {
      assert r[..2] == source[..2];
    }
  }

  /**
    The result is the script cut at one place, with a separator and the
    declarations put in there; the separator is a newline only for a lone
    interpreter line.
   */
  lemma DeclsRemovable(source: string, decls: string)
    ensures var r := InsertDecls(source, decls);
      exists p: nat, sep :: SplicedIn(r, source, decls, p, sep)
        && (sep == "\n" <==> HasPrefix(source, "#!") && '\n' !in source)
  {
    var r := InsertDecls(source, decls);
    if !HasPrefix(source, "#!") {
      assert r == source[..0] + "" + decls + source[0..];
      SplicedAt(source, decls, 0, "");
    } else if '\n' !in source {
      assert r == source[..|source|] + "\n" + decls + source[|source|..];
      SplicedAt(source, decls, |source|, "\n");
    } else {
      var p := IndexOf(source, '\n') + 1;
      assert r == source[..p] + "" + decls + source[p..];
      SplicedAt(source, decls, p, "");
    }
  }

  /**
    `r` is `source` cut at `p` with the separator `sep` (nothing or a newline)
    and then `decls` put in there: taking both out again gives `source`.
   */
  predicate SplicedIn(r: string, source: string, decls: string, p: nat, sep: string)
  {
    && (sep == "" || sep == "\n")
    && p + |sep| + |decls| <= |r|
    && r[p..p + |sep|] == sep
    && r[p + |sep|..p + |sep| + |decls|] == decls
    && r[..p] + r[p + |sep| + |decls|..] == source
  }

  lemma SplicedAt(source: string, decls: string, p: nat, sep: string)
    requires p <= |source| && (sep == "" || sep == "\n")
    ensures exists p': nat, sep' :: SplicedIn(source[..p] + sep + decls + source[p..], source, decls, p', sep') && sep' == sep
  {
    var r := source[..p] + sep + decls + source[p..];
    assert r[..p] == source[..p];
    assert r[p + |sep| + |decls|..] == source[p..];
    assert SplicedIn(r, source, decls, p, sep);
  }

  /** No declarations, no change: except that a lone interpreter line gets its newline. */
  lemma EmptyDecls(source: string)
    ensures InsertDecls(source, "") == if HasPrefix(source, "#!") && '\n' !in source then source + "\n" else source
  {
    if HasPrefix(source, "#!") && '\n' in source {
      var k := IndexOf(source, '\n');
      assert source[..k + 1] + "" + source[k + 1..] == source;
    } else {
      assert "" + source == source;
      assert source + "\n" + "" == source + "\n";
    }
  }

}
