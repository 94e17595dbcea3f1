/**
  How Bash reads the declarations back: the partner of the encoder. The
  reader takes the declaration lines one by one and builds what Bash then
  holds: for each name a string, an integer, an indexed array or an
  associative array. Reading the encoder's text gives back exactly the
  variables that were validated, except that Bash refuses an empty key in an
  associative array. The reader keeps every character (U+0000 too) and starts
  from an environment in which no name has a meaning of its own.
 */
module BashReading {
  import opened Wrappers
  import opened Values
  import opened VariableNames
  import opened BashQuote
  import opened Decimal
  import opened Ordering
  import opened Encoder
  import opened Validation

  /** What a Bash variable holds. */
  datatype BashValue =
    | Scalar(s: string)
    | Integer(i: int)
    | Indexed(items: seq<string>)
    | Assoc(entries: map<string, string>)

  function ItemValues(items: seq<Option<string>>): (r: seq<string>)
    requires NoNullItem(items)
    ensures |r| == |items| && forall i :: 0 <= i < |items| ==> r[i] == items[i].value
  {
    seq(|items|, i requires 0 <= i < |items| => items[i].value)
  }

  /** The entries of a map without nulls, as strings. */
  function EntryValues(m: map<string, Option<string>>): map<string, string>
    requires NoNullEntry(m)
  {
    map k | k in m :: m[k].value
  }

  /**
    The entries Bash keeps when it assigns them to an associative array: all
    but the one with the empty key, which Bash refuses as a bad subscript.
   */
  function HeldEntries(m: map<string, Option<string>>): map<string, string>
    requires NoNullEntry(m)
  {
    map k | k in m && k != "" :: m[k].value
  }

  /** Bash keeps every entry exactly when the map has no empty key. */
  lemma HeldEntriesWhole(m: map<string, Option<string>>)
    requires NoNullEntry(m)
    ensures HeldEntries(m) == EntryValues(m) <==> "" !in m
    ensures "" !in HeldEntries(m)
  {
    if "" in m {
      assert "" in EntryValues(m);
    }
  }

  /** What Bash holds, after reading its declaration, for a value the validator accepts. */
  function BashView(v: Value): BashValue
    requires Representable(v)
  {
    match v
    case Str(s) => Scalar(s)
    case Num(x) => Integer(x.Floor)
    case StrList(items) => Indexed(ItemValues(items))
    case StrMap(m) => Assoc(HeldEntries(m))
  }

  predicate AllRepresentable(vars: map<string, Value>)
  {
    forall n :: n in vars ==> IsIdentifier(n) && Representable(vars[n])
  }

  function VarsView(vars: map<string, Value>): map<string, BashValue>
    requires AllRepresentable(vars)
  {
    map n | n in vars :: BashView(vars[n])
  }

  /** The longest run of name characters at the front of `t`, and what follows it. */
  function SplitName(t: string): (r: (string, string))
    ensures r.0 + r.1 == t
    decreases |t|
  {
    if t != [] && IsSubsequentChar(t[0]) then
      var (n, rest) := SplitName(t[1..]);
      assert [t[0]] + n + rest == t;
      ([t[0]] + n, rest)
    else ("", t)
  }

  lemma {:induction false} SplitNameOf(n: string, rest: string)
    requires forall i :: 0 <= i < |n| ==> IsSubsequentChar(n[i])
    requires rest == [] || !IsSubsequentChar(rest[0])
    ensures SplitName(n + rest) == (n, rest)
    decreases |n|
  {
    if n == [] {
      assert n + rest == rest;
    } else {
      assert (n + rest)[0] == n[0];
      assert (n + rest)[1..] == n[1..] + rest;
      SplitNameOf(n[1..], rest);
      assert n == [n[0]] + n[1..];
    }
  }

  /** `NAME=`: an identifier and the equals sign; gives the name and the text after `=`. */
  function ReadNameEq(u: string): (r: Option<(string, string)>)
    ensures r.Some? ==> |r.value.1| < |u|
  {
    var (n, rest) := SplitName(u);
    if IsIdentifier(n) && rest != [] && rest[0] == '=' then Some((n, rest[1..])) else None
  }

  /** `w1 w2 ... wn)`: words separated by single spaces, up to the closing parenthesis. */
  function ReadList(t: string): (r: Option<(seq<string>, string)>)
    ensures r.Some? ==> |r.value.1| < |t|
    decreases |t|
  {
    if t != [] && t[0] == ')' then Some(([], t[1..]))
    else
      match ReadWord(t)
      case None => None
      case Some((w, rest)) =>
        if rest != [] && rest[0] == ')' then Some(([w], rest[1..]))
        else if rest != [] && rest[0] == ' ' then
          match ReadList(rest[1..])
          case None => None
          case Some((ws, after)) => Some(([w] + ws, after))
        else None
  }

  /** `[k1]=v1 [k2]=v2 ...)`: the pairs of an associative array, up to the closing parenthesis. */
  function ReadPairs(t: string): (r: Option<(seq<(string, string)>, string)>)
    ensures r.Some? ==> |r.value.1| < |t|
    decreases |t|
  {
    if t != [] && t[0] == ')' then Some(([], t[1..]))
    else if t == [] || t[0] != '[' then None
    else
      match ReadWord(t[1..])
      case None => None
      case Some((k, r1)) =>
        if |r1| < 2 || r1[0] != ']' || r1[1] != '=' then None
        else
          match ReadWord(r1[2..])
          case None => None
          case Some((v, r2)) =>
            if r2 != [] && r2[0] == ')' then Some(([(k, v)], r2[1..]))
            else if r2 != [] && r2[0] == ' ' then
              match ReadPairs(r2[1..])
              case None => None
              case Some((ps, after)) => Some(([(k, v)] + ps, after))
            else None
  }

  /**
    The associative array the pairs make, a later pair for the same key
    replacing an earlier one. A pair with the empty key is refused ("bad
    array subscript") and the others are still assigned.
   */
  function PairsMap(ps: seq<(string, string)>): map<string, string>
    decreases |ps|
  {
    if ps == [] then map[]
    else
      var (k, v) := ps[|ps| - 1];
      if k == "" then PairsMap(ps[..|ps| - 1]) else PairsMap(ps[..|ps| - 1])[k := v]
  }

  /** The value after `=`, read as the declaration's flag says: ` ` string, `i` integer, `a` array, `A` associative array. */
  function ReadValue(flag: char, u: string): (r: Option<(BashValue, string)>)
    ensures r.Some? ==> |r.value.1| <= |u|
  {
    if flag == ' ' then
      match ReadWord(u)
      case None => None
      case Some((s, rest)) => Some((Scalar(s), rest))
    else if flag == 'i' then
      match ReadInteger(u)
      case None => None
      case Some((i, rest)) => Some((Integer(i), rest))
    else if flag == 'a' then
      if u == [] || u[0] != '(' then None
      else
        match ReadList(u[1..])
        case None => None
        case Some((ws, rest)) => Some((Indexed(ws), rest))
    else if flag == 'A' then
      if u == [] || u[0] != '(' then None
      else
        match ReadPairs(u[1..])
        case None => None
        case Some((ps, rest)) => Some((Assoc(PairsMap(ps)), rest))
    else None
  }

  /** `NAME=value` and the end of the line, after the declaration's options. */
  function ReadAssignment(flag: char, u: string): (r: Option<(string, BashValue, string)>)
    ensures r.Some? ==> |r.value.2| < |u|
  {
    match ReadNameEq(u)
    case None => None
    case Some((n, v0)) =>
      match ReadValue(flag, v0)
      case None => None
      case Some((bv, rest)) =>
        if rest != [] && rest[0] == '\n' then Some((n, bv, rest[1..])) else None
  }

  const DeclareReadOnly: string := "declare -r"

  /** One read-only declaration line: `declare -r`, then a space or one more option letter and a space. */
  function ReadDeclaration(t: string): (r: Option<(string, BashValue, string)>)
    ensures r.Some? ==> |r.value.2| < |t|
  {
    if |t| < 12 || t[..10] != DeclareReadOnly then None
    else if t[10] == ' ' then ReadAssignment(' ', t[11..])
    else if t[11] == ' ' then ReadAssignment(t[10], t[12..])
    else None
  }

  /**
    The variables a text of declarations defines. A name declared twice keeps
    its first value: the second declaration of a read-only name fails.
   */
  function ReadDecls(t: string): Option<map<string, BashValue>>
    decreases |t|
  {
    if t == [] then Some(map[])
    else
      match ReadDeclaration(t)
      case None => None
      case Some((n, bv, rest)) =>
        match ReadDecls(rest)
        case None => None
        case Some(m) => Some(m[n := bv])
  }

  // Front-first views of the encoder's right-recursive definitions.

  lemma {:induction false} JoinCons(w: string, ws: seq<string>)
    ensures Join([w] + ws) == w + (if ws == [] then "" else " " + Join(ws))
    decreases |ws|
  {
    if ws == [] {
      JoinSnoc([], w);
      assert [w] + ws == [] + [w];
    } else {
      var init, last := ws[..|ws| - 1], ws[|ws| - 1];
      assert [w] + ws == ([w] + init) + [last];
      assert ws == init + [last];
      JoinSnoc([w] + init, last);
      JoinSnoc(init, last);
      JoinCons(w, init);
      if init == [] {
        assert Join([w] + ws) == (w + "") + " " + last;
      } else {
        assert Join([w] + ws) == (w + (" " + Join(init))) + " " + last;
      }
    }
  }

  lemma {:induction false} QuotedItemsCons(items: seq<Option<string>>)
    requires items != [] && NoNullItem(items)
    ensures QuotedItems(items) == [BashQuoteString(items[0].value)] + QuotedItems(items[1..])
    decreases |items|
  {
    if |items| > 1 {
      var init := items[..|items| - 1];
      assert init[1..] == items[1..][..|items| - 2];
      QuotedItemsCons(init);
    } else {
      assert items[1..] == [];
    }
  }

  lemma {:induction false} PairWordsCons(ks: seq<string>, m: map<string, Option<string>>)
    requires ks != [] && KeysOf(ks, m)
    ensures PairWords(ks, m) == [PairWord(ks[0], m[ks[0]].value)] + PairWords(ks[1..], m)
    decreases |ks|
  {
    if |ks| > 1 {
      var init := ks[..|ks| - 1];
      assert init[1..] == ks[1..][..|ks| - 2];
      PairWordsCons(init, m);
    } else {
      assert ks[1..] == [];
    }
  }

  // One step of each reader, stated on its own so that the inductions below stay small.

  lemma ReadListLast(t: string, w: string, rest: string)
    requires t != [] && t[0] != ')' && ReadWord(t) == Some((w, ")" + rest))
    ensures ReadList(t) == Some(([w], rest))
  {
    assert (")" + rest)[1..] == rest;
  }

  lemma ReadListMore(t: string, w: string, u: string, ws: seq<string>, rest: string)
    requires t != [] && t[0] != ')' && ReadWord(t) == Some((w, " " + u))
    requires ReadList(u) == Some((ws, rest))
    ensures ReadList(t) == Some(([w] + ws, rest))
  {
    assert (" " + u)[1..] == u;
  }

  /** Words closed by a parenthesis: the first word, then a space and the others or the parenthesis. */
  lemma JoinClose(w: string, ws: seq<string>, rest: string)
    ensures Join([w] + ws) + ")" + rest
         == if ws == [] then w + (")" + rest) else w + (" " + (Join(ws) + ")" + rest))
  {
    JoinCons(w, ws);
    if ws == [] {
      assert (w + "") + ")" + rest == w + (")" + rest);
    } else {
      assert (w + (" " + Join(ws))) + ")" + rest == w + (" " + (Join(ws) + ")" + rest));
    }
  }

  /** The text of a non-empty list: its first quoted element, then a space and the others or the parenthesis. */
  lemma ListTextCons(items: seq<Option<string>>, rest: string)
    requires items != [] && NoNullItem(items)
    ensures var q := BashQuoteString(items[0].value);
      var t := Join(QuotedItems(items)) + ")" + rest;
      if |items| == 1 then t == q + (")" + rest)
      else t == q + (" " + (Join(QuotedItems(items[1..])) + ")" + rest))
  {
    QuotedItemsCons(items);
    JoinClose(BashQuoteString(items[0].value), QuotedItems(items[1..]), rest);
  }

  lemma ItemValuesCons(items: seq<Option<string>>)
    requires items != [] && NoNullItem(items)
    ensures ItemValues(items) == [items[0].value] + ItemValues(items[1..])
  {
  }

  /** The quoted elements, read back, are the elements. */
  lemma {:induction false} ReadListOf(items: seq<Option<string>>, rest: string)
    requires NoNullItem(items)
    ensures ReadList(Join(QuotedItems(items)) + ")" + rest) == Some((ItemValues(items), rest))
    decreases |items|
  {
    if items == [] {
      assert QuotedItems(items) == [];
      assert Join(QuotedItems(items)) + ")" + rest == ")" + rest;
      assert ItemValues(items) == [];
    } else if |items| == 1 {
      ReadOneItem(items, rest);
    } else {
      ReadListOf(items[1..], rest);
      ReadMoreItems(items, rest);
    }
  }

  lemma ReadOneItem(items: seq<Option<string>>, rest: string)
    requires |items| == 1 && NoNullItem(items)
    ensures ReadList(Join(QuotedItems(items)) + ")" + rest) == Some((ItemValues(items), rest))
  {
    var s0 := items[0].value;
    ListTextCons(items, rest);
    ItemValuesCons(items);
    assert ItemValues(items) == [s0];
    ReadQuoted(s0, ")" + rest);
    ReadListLast(Join(QuotedItems(items)) + ")" + rest, s0, rest);
  }

  lemma ReadMoreItems(items: seq<Option<string>>, rest: string)
    requires |items| > 1 && NoNullItem(items)
    requires ReadList(Join(QuotedItems(items[1..])) + ")" + rest) == Some((ItemValues(items[1..]), rest))
    ensures ReadList(Join(QuotedItems(items)) + ")" + rest) == Some((ItemValues(items), rest))
  {
    var s0 := items[0].value;
    ListTextCons(items, rest);
    ItemValuesCons(items);
    var u := Join(QuotedItems(items[1..])) + ")" + rest;
    ReadQuoted(s0, " " + u);
    ReadListMore(Join(QuotedItems(items)) + ")" + rest, s0, u, ItemValues(items[1..]), rest);
  }

  /** The entries for the keys `ks`, in that order. */
  function EntryPairs(ks: seq<string>, m: map<string, Option<string>>): (r: seq<(string, string)>)
    requires KeysOf(ks, m)
    ensures |r| == |ks| && forall i :: 0 <= i < |ks| ==> r[i] == (ks[i], m[ks[i]].value)
  {
    seq(|ks|, i requires 0 <= i < |ks| => (ks[i], m[ks[i]].value))
  }

  /** One `[k]=v` pair: the key and value words, and the text after the value. */
  lemma ReadPairWord(k: string, v: string, after: string)
    requires EndsWord(after)
    ensures var t := PairWord(k, v) + after;
      t != [] && t[0] == '[' && ReadWord(t[1..]) == Some((k, "]=" + BashQuoteString(v) + after))
      && ReadWord(BashQuoteString(v) + after) == Some((v, after))
  {
    var r1 := "]=" + BashQuoteString(v) + after;
    assert PairWord(k, v) + after == "[" + (BashQuoteString(k) + r1);
    ReadQuoted(k, r1);
    ReadQuoted(v, after);
  }

  lemma ReadPairsLast(k: string, v: string, rest: string)
    ensures ReadPairs(PairWord(k, v) + (")" + rest)) == Some(([(k, v)], rest))
  {
    var t := PairWord(k, v) + (")" + rest);
    ReadPairWord(k, v, ")" + rest);
    var r1 := "]=" + BashQuoteString(v) + (")" + rest);
    assert r1[2..] == BashQuoteString(v) + (")" + rest);
    assert (")" + rest)[1..] == rest;
  }

  lemma ReadPairsMore(k: string, v: string, u: string, ps: seq<(string, string)>, rest: string)
    requires ReadPairs(u) == Some((ps, rest))
    ensures ReadPairs(PairWord(k, v) + (" " + u)) == Some(([(k, v)] + ps, rest))
  {
    ReadPairWord(k, v, " " + u);
    var r1 := "]=" + BashQuoteString(v) + (" " + u);
    assert r1[2..] == BashQuoteString(v) + (" " + u);
    assert (" " + u)[1..] == u;
  }

  /** The text of a non-empty sequence of pairs: its first pair, then a space and the others or the parenthesis. */
  lemma PairsTextCons(ks: seq<string>, m: map<string, Option<string>>, rest: string)
    requires ks != [] && KeysOf(ks, m)
    ensures var w := PairWord(ks[0], m[ks[0]].value);
      var t := Join(PairWords(ks, m)) + ")" + rest;
      if |ks| == 1 then t == w + (")" + rest)
      else t == w + (" " + (Join(PairWords(ks[1..], m)) + ")" + rest))
  {
    PairWordsCons(ks, m);
    JoinClose(PairWord(ks[0], m[ks[0]].value), PairWords(ks[1..], m), rest);
  }

  lemma EntryPairsCons(ks: seq<string>, m: map<string, Option<string>>)
    requires ks != [] && KeysOf(ks, m)
    ensures EntryPairs(ks, m) == [(ks[0], m[ks[0]].value)] + EntryPairs(ks[1..], m)
  {
  }

  /** The quoted pairs, read back, are the entries. */
  lemma {:induction false} ReadPairsOf(ks: seq<string>, m: map<string, Option<string>>, rest: string)
    requires KeysOf(ks, m)
    ensures ReadPairs(Join(PairWords(ks, m)) + ")" + rest) == Some((EntryPairs(ks, m), rest))
    decreases |ks|
  {
    if ks == [] {
      assert PairWords(ks, m) == [];
      assert Join(PairWords(ks, m)) + ")" + rest == ")" + rest;
    } else if |ks| == 1 {
      ReadOnePair(ks, m, rest);
    } else {
      ReadPairsOf(ks[1..], m, rest);
      ReadMorePairs(ks, m, rest);
    }
  }

  lemma ReadOnePair(ks: seq<string>, m: map<string, Option<string>>, rest: string)
    requires |ks| == 1 && KeysOf(ks, m)
    ensures ReadPairs(Join(PairWords(ks, m)) + ")" + rest) == Some((EntryPairs(ks, m), rest))
  {
    PairsTextCons(ks, m, rest);
    EntryPairsCons(ks, m);
    assert EntryPairs(ks, m) == [(ks[0], m[ks[0]].value)];
    ReadPairsLast(ks[0], m[ks[0]].value, rest);
  }

  lemma ReadMorePairs(ks: seq<string>, m: map<string, Option<string>>, rest: string)
    requires |ks| > 1 && KeysOf(ks, m)
    requires ReadPairs(Join(PairWords(ks[1..], m)) + ")" + rest) == Some((EntryPairs(ks[1..], m), rest))
    ensures ReadPairs(Join(PairWords(ks, m)) + ")" + rest) == Some((EntryPairs(ks, m), rest))
  {
    PairsTextCons(ks, m, rest);
    EntryPairsCons(ks, m);
    var u := Join(PairWords(ks[1..], m)) + ")" + rest;
    ReadPairsMore(ks[0], m[ks[0]].value, u, EntryPairs(ks[1..], m), rest);
  }

  /** Distinct keys make the map of their entries. */
  lemma {:induction false} PairsMapOf(ks: seq<string>, m: map<string, Option<string>>)
    requires KeysOf(ks, m)
    ensures PairsMap(EntryPairs(ks, m)) == map k | k in ks && k != "" :: m[k].value
    decreases |ks|
  {
    if ks != [] {
      var init := ks[..|ks| - 1];
      assert EntryPairs(ks, m)[..|ks| - 1] == EntryPairs(init, m);
      PairsMapOf(init, m);
    }
  }

  /** The map's text, read back, is the map. */
  lemma MapReadBack(m: map<string, Option<string>>, rest: string)
    requires NoNullEntry(m)
    ensures KeysOf(SortedKeys(m.Keys), m)
    ensures ReadPairs(Join(PairWords(SortedKeys(m.Keys), m)) + ")" + rest)
         == Some((EntryPairs(SortedKeys(m.Keys), m), rest))
    ensures PairsMap(EntryPairs(SortedKeys(m.Keys), m)) == HeldEntries(m)
  {
    var ks := SortedKeys(m.Keys);
    SortedKeysOf(m);
    ReadPairsOf(ks, m, rest);
    PairsMapOf(ks, m);
  }

  /** Each declaration head is `declare -r` and the option letters. */
  lemma HeadsSpelled()
    ensures StringHead == DeclareReadOnly + " "
    ensures IntegerHead == DeclareReadOnly + "i "
    ensures ListHead == DeclareReadOnly + "a "
    ensures MapHead == DeclareReadOnly + "A "
  {
  }

  /** Past the head, the name, the `=` and the value, the line ends. */
  lemma ReadDeclarationStep(f: string, name: string, v0: string, bv: BashValue, rest: string)
    requires f == " " || (|f| == 2 && f[0] != ' ' && f[1] == ' ')
    requires IsIdentifier(name) && ReadValue(f[0], v0) == Some((bv, "\n" + rest))
    ensures ReadDeclaration(DeclareReadOnly + f + (name + ("=" + v0))) == Some((name, bv, rest))
  {
    var u := name + ("=" + v0);
    var t := DeclareReadOnly + f + u;
    assert |DeclareReadOnly| == 10;
    assert t[..10] == DeclareReadOnly;
    assert t[10] == f[0];
    if |f| == 1 {
      assert t[11..] == u;
    } else {
      assert t[11] == ' ' && t[12..] == u;
    }
    IdentifierChars(name);
    SplitNameOf(name, "=" + v0);
    assert ("=" + v0)[1..] == v0;
    assert ("\n" + rest)[1..] == rest;
  }

  lemma ScalarLine(h: string, name: string, body: string, rest: string)
    ensures h + name + "=" + body + "\n" + rest == h + (name + ("=" + (body + ("\n" + rest))))
  {
  }

  lemma ParenLine(h: string, name: string, body: string, rest: string)
    ensures h + name + "=(" + body + ")\n" + rest == h + (name + ("=" + ("(" + (body + ")" + ("\n" + rest)))))
  {
    assert "=(" == "=" + "(" && ")\n" == ")" + "\n";
  }

  /** A string declaration, read back. */
  lemma ReadStringDecl(name: string, s: string, rest: string)
    requires IsIdentifier(name)
    ensures ReadDeclaration(Declaration(name, Str(s)) + rest) == Some((name, Scalar(s), rest))
  {
    HeadsSpelled();
    var v0 := BashQuoteString(s) + ("\n" + rest);
    ScalarLine(StringHead, name, BashQuoteString(s), rest);
    ReadQuoted(s, "\n" + rest);
    ReadDeclarationStep(" ", name, v0, Scalar(s), rest);
  }

  /** An integer declaration, read back. */
  lemma ReadIntegerDecl(name: string, x: real, rest: string)
    requires IsIdentifier(name) && IsWhole(x)
    ensures ReadDeclaration(Declaration(name, Num(x)) + rest) == Some((name, Integer(x.Floor), rest))
  {
    HeadsSpelled();
    var v0 := IntegerText(x.Floor) + ("\n" + rest);
    ScalarLine(IntegerHead, name, IntegerText(x.Floor), rest);
    ReadIntegerText(x.Floor, "\n" + rest);
    ReadDeclarationStep("i ", name, v0, Integer(x.Floor), rest);
  }

  /** `(` and the elements or the pairs, as the value. */
  lemma ReadParenthesised(body: string, rest: string)
    ensures ("(" + (body + ")" + ("\n" + rest)))[0] == '('
    ensures ("(" + (body + ")" + ("\n" + rest)))[1..] == body + ")" + ("\n" + rest)
  {
  }

  /** A declaration whose value is parenthesised, read back through its value. */
  lemma ReadParenDecl(f: string, name: string, body: string, bv: BashValue, rest: string)
    requires f == "a " || f == "A "
    requires IsIdentifier(name) && ReadValue(f[0], "(" + (body + ")" + ("\n" + rest))) == Some((bv, "\n" + rest))
    ensures ReadDeclaration(DeclareReadOnly + f + name + "=(" + body + ")\n" + rest) == Some((name, bv, rest))
  {
    ParenLine(DeclareReadOnly + f, name, body, rest);
    ReadDeclarationStep(f, name, "(" + (body + ")" + ("\n" + rest)), bv, rest);
  }

  /** The value of a list declaration, read back. */
  lemma ReadListValue(items: seq<Option<string>>, rest: string)
    requires NoNullItem(items)
    ensures ReadValue('a', "(" + (Join(QuotedItems(items)) + ")" + ("\n" + rest)))
         == Some((Indexed(ItemValues(items)), "\n" + rest))
  {
    ReadParenthesised(Join(QuotedItems(items)), rest);
    ReadListOf(items, "\n" + rest);
  }

  /** A list declaration, read back. */
  lemma ReadListDecl(name: string, items: seq<Option<string>>, rest: string)
    requires IsIdentifier(name) && NoNullItem(items)
    ensures ReadDeclaration(Declaration(name, StrList(items)) + rest)
         == Some((name, Indexed(ItemValues(items)), rest))
  {
    HeadsSpelled();
    ReadListValue(items, rest);
    ReadParenDecl("a ", name, Join(QuotedItems(items)), Indexed(ItemValues(items)), rest);
  }

  /** The value of a map declaration, read back. */
  lemma ReadMapValue(m: map<string, Option<string>>, rest: string)
    requires NoNullEntry(m)
    ensures KeysOf(SortedKeys(m.Keys), m)
    ensures ReadValue('A', "(" + (Join(PairWords(SortedKeys(m.Keys), m)) + ")" + ("\n" + rest)))
         == Some((Assoc(HeldEntries(m)), "\n" + rest))
  {
    MapReadBack(m, "\n" + rest);
    ReadParenthesised(Join(PairWords(SortedKeys(m.Keys), m)), rest);
  }

  /** A map declaration, read back. */
  lemma ReadMapDecl(name: string, m: map<string, Option<string>>, rest: string)
    requires IsIdentifier(name) && NoNullEntry(m)
    ensures ReadDeclaration(Declaration(name, StrMap(m)) + rest) == Some((name, Assoc(HeldEntries(m)), rest))
  {
    HeadsSpelled();
    ReadMapValue(m, rest);
    ReadParenDecl("A ", name, Join(PairWords(SortedKeys(m.Keys), m)), Assoc(HeldEntries(m)), rest);
  }

  /** Any declaration of a valid variable, read back, is that variable with its value. */
  lemma ReadDeclarationOf(name: string, v: Value, rest: string)
    requires IsIdentifier(name) && Representable(v)
    ensures ReadDeclaration(Declaration(name, v) + rest) == Some((name, BashView(v), rest))
  {
    match v
    case Str(s) => ReadStringDecl(name, s, rest);
    case Num(x) => ReadIntegerDecl(name, x, rest);
    case StrList(items) => ReadListDecl(name, items, rest);
    case StrMap(m) => ReadMapDecl(name, m, rest);
  }

  lemma ReadDeclsStep(t: string, n: string, bv: BashValue, rest: string, m: map<string, BashValue>)
    requires t != [] && ReadDeclaration(t) == Some((n, bv, rest)) && ReadDecls(rest) == Some(m)
    ensures ReadDecls(t) == Some(m[n := bv])
  {
  }

  lemma ViewsCons(n: string, tail: seq<string>, vars: map<string, Value>)
    requires n in vars && NamesOf(tail, vars) && AllRepresentable(vars)
    ensures (map k | k in tail :: BashView(vars[k]))[n := BashView(vars[n])]
         == map k | k in [n] + tail :: BashView(vars[k])
  {
  }

  /** The declarations of `names`, read back, define exactly those names with their values. */
  lemma {:induction false} ReadDeclarationsOf(names: seq<string>, vars: map<string, Value>)
    requires NamesOf(names, vars) && AllRepresentable(vars)
    ensures AllEncodable(vars)
    ensures ReadDecls(DeclarationsOf(names, vars)) == Some(map n | n in names :: BashView(vars[n]))
    decreases |names|
  {
    assert AllEncodable(vars);
    if names == [] {
      assert DeclarationsOf(names, vars) == [];
    } else {
      var n, tail := names[0], names[1..];
      assert NamesOf(tail, vars);
      assert [n] + tail == names;
      DeclarationsOfCons(n, tail, vars);
      ghost var d, ds := Declaration(n, vars[n]), DeclarationsOf(tail, vars);
      ReadDeclarationOf(n, vars[n], ds);
      ReadDeclarationsOf(tail, vars);
      ReadDeclsStep(d + ds, n, BashView(vars[n]), ds, map k | k in tail :: BashView(vars[k]));
      ViewsCons(n, tail, vars);
    }
  }

  /**
    The round trip: Bash, reading the declarations, holds exactly the
    validated variables, each string, number and list as it was and each map
    without its empty key, if it had one.
   */
  lemma DeclarationsRoundTrip(vars: map<string, Value>)
    requires AllRepresentable(vars)
    ensures AllEncodable(vars)
    ensures ReadDecls(Declarations(vars)) == Some(VarsView(vars))
  {
    var ks := SortedKeys(vars.Keys);
    SortedKeysNames(vars);
    ReadDeclarationsOf(ks, vars);
    assert (map n | n in ks :: BashView(vars[n])) == VarsView(vars);
  }

  /**
    A map with an empty key passes validation, but Bash does not hold that
    entry: the declared array misses it.
   */
  lemma EmptyKeyLost(vars: map<string, Value>, n: string)
    requires AllRepresentable(vars)
    requires n in vars && vars[n].StrMap? && "" in vars[n].entries
    ensures VarsError(vars).None?
    ensures AllEncodable(vars) && ReadDecls(Declarations(vars)) == Some(VarsView(vars))
    ensures VarsView(vars)[n].Assoc? && VarsView(vars)[n].entries != EntryValues(vars[n].entries)
  {
    ValidIff(vars);
    DeclarationsRoundTrip(vars);
    HeldEntriesWhole(vars[n].entries);
  }

  /** A value Bash holds whole: one the validator accepts and, for a map, one without an empty key. */
  predicate Holdable(v: Value)
  {
    Representable(v) && (v.StrMap? ==> "" !in v.entries)
  }

  /** With that check added, every accepted variable comes back whole: a map with all its entries. */
  lemma HoldableRoundTrip(vars: map<string, Value>)
    requires AllRepresentable(vars) && forall n :: n in vars ==> Holdable(vars[n])
    ensures AllEncodable(vars) && ReadDecls(Declarations(vars)) == Some(VarsView(vars))
    ensures forall n :: n in vars && vars[n].StrMap? ==> VarsView(vars)[n] == Assoc(EntryValues(vars[n].entries))
  {
    DeclarationsRoundTrip(vars);
    forall n | n in vars && vars[n].StrMap? ensures VarsView(vars)[n] == Assoc(EntryValues(vars[n].entries)) {
      HeldEntriesWhole(vars[n].entries);
    }
  }

}
