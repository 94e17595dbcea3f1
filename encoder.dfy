/**
  `variablesToBashDecls`: one read-only `declare` statement per variable, in
  ascending order of names.

    declare -r NAME='text'
    declare -ri NAME=123
    declare -ra NAME=('a' 'b')
    declare -rA NAME=(['k1']='v1' ['k2']='v2')

  `Declaration` and `Declarations` say what the text is; the method builds it
  the way the source does, appending to a buffer.
 */
module Encoder {
  import opened Wrappers
  import opened Values
  import opened Ordering
  import opened BashQuote
  import opened Decimal
  import opened GoFormat

  /** Words separated by single spaces (built from the left, as the loops build it). */
  function Join(ws: seq<string>): string
    decreases |ws|
  {
    if ws == [] then ""
    else Join(ws[..|ws| - 1]) + (if |ws| == 1 then "" else " ") + ws[|ws| - 1]
  }

  lemma JoinSnoc(ws: seq<string>, w: string)
    ensures Join(ws + [w]) == Join(ws) + (if ws == [] then "" else " ") + w
  {
    assert (ws + [w])[..|ws|] == ws;
  }

  /** The list elements, each quoted, in their original order. */
  function QuotedItems(items: seq<Option<string>>): (r: seq<string>)
    requires NoNullItem(items)
    ensures |r| == |items|
    decreases |items|
  {
    if items == [] then []
    else QuotedItems(items[..|items| - 1]) + [BashQuoteString(items[|items| - 1].value)]
  }

  /** `[key]=value`, both quoted. */
  function PairWord(k: string, v: string): string
  {
    "[" + BashQuoteString(k) + "]=" + BashQuoteString(v)
  }

  predicate KeysOf(ks: seq<string>, m: map<string, Option<string>>)
  {
    forall i :: 0 <= i < |ks| ==> ks[i] in m && m[ks[i]].Some?
  }

  /** The map entries for the keys `ks`, in the order of `ks`. */
  function PairWords(ks: seq<string>, m: map<string, Option<string>>): (r: seq<string>)
    requires KeysOf(ks, m)
    ensures |r| == |ks|
    decreases |ks|
  {
    if ks == [] then []
    else PairWords(ks[..|ks| - 1], m) + [PairWord(ks[|ks| - 1], m[ks[|ks| - 1]].value)]
  }

  lemma SortedKeysOf(m: map<string, Option<string>>)
    requires NoNullEntry(m)
    ensures KeysOf(SortedKeys(m.Keys), m)
  {
    var ks := SortedKeys(m.Keys);
    forall i | 0 <= i < |ks| ensures ks[i] in m {
      assert ks[i] in ks;
    }
  }

  // How each kind of declaration starts; every one makes its variable read-only.
  const StringHead: string := "declare -r "
  const IntegerHead: string := "declare -ri "
  const ListHead: string := "declare -ra "
  const MapHead: string := "declare -rA "
  /** The comment written in place of a value the encoder does not know. */
  const FallbackPrefix: string := "# ERROR: "

  /** The text written for one variable. */
  ghost function Declaration(name: string, v: Value): (r: string)
    requires Encodable(v)
    ensures |r| > 0 && r[|r| - 1] == '\n'
    ensures r[0] == '#' <==> v.Other?
  {
    match v
    case Str(s) => StringHead + name + "=" + BashQuoteString(s) + "\n"
    case Num(x) => IntegerHead + name + "=" + IntegerText(x.Floor) + "\n"
    case StrList(items) => ListHead + name + "=(" + Join(QuotedItems(items)) + ")\n"
    case StrMap(m) =>
      SortedKeysOf(m);
      MapHead + name + "=(" + Join(PairWords(SortedKeys(m.Keys), m)) + ")\n"
    case Other(_) => FallbackPrefix + "Don't know how to serialize " + GoQuote(name) + " for bash\n"
  }

  predicate AllEncodable(vars: map<string, Value>)
  {
    forall n :: n in vars ==> Encodable(vars[n])
  }

  predicate NamesOf(names: seq<string>, vars: map<string, Value>)
  {
    forall i :: 0 <= i < |names| ==> names[i] in vars
  }

  /** The declarations of `names`, one after another in the order of `names`. */
  ghost function DeclarationsOf(names: seq<string>, vars: map<string, Value>): string
    requires NamesOf(names, vars) && AllEncodable(vars)
    decreases |names|
  {
    if names == [] then ""
    else
      var last := names[|names| - 1];
      DeclarationsOf(names[..|names| - 1], vars) + Declaration(last, vars[last])
  }

  lemma SortedKeysNames(vars: map<string, Value>)
    ensures NamesOf(SortedKeys(vars.Keys), vars)
  {
    var ks := SortedKeys(vars.Keys);
    forall i | 0 <= i < |ks| ensures ks[i] in vars {
      assert ks[i] in ks;
    }
  }

  /** The whole declaration text: every variable, in ascending order of names. */
  ghost function Declarations(vars: map<string, Value>): string
    requires AllEncodable(vars)
  {
    SortedKeysNames(vars);
    DeclarationsOf(SortedKeys(vars.Keys), vars)
  }

  lemma AppendPiece(x: string, done: string, sep: string, w: string)
    ensures ((x + done) + sep) + w == x + (done + sep + w)
    ensures sep == "" ==> (x + done) + w == x + (done + sep + w)
  {
    assert done + "" == done;
  }

  /** The `cty.List(cty.String)` case: the quoted elements in order, separated by spaces. */
  method WriteList(buf0: string, name: string, l: seq<Option<string>>) returns (buf: string)
    requires NoNullItem(l)
    ensures buf == buf0 + Declaration(name, StrList(l))
  {
    var head := ListHead + name + "=(";
    buf := buf0 + head;
    for i := 0 to |l|
      invariant buf == (buf0 + head) + Join(QuotedItems(l[..i]))
    {
      var es := l[i].value;
      ghost var done := Join(QuotedItems(l[..i]));
      ghost var sep := if i == 0 then "" else " ";
      assert l[..i + 1][..i] == l[..i];
      JoinSnoc(QuotedItems(l[..i]), BashQuoteString(es));
      assert Join(QuotedItems(l[..i + 1])) == done + sep + BashQuoteString(es);
      AppendPiece(buf0 + head, done, sep, BashQuoteString(es));
      if i != 0 {
        buf := buf + " ";
      }
      buf := buf + BashQuoteString(es);
    }
    assert l[..|l|] == l;
    ghost var body := Join(QuotedItems(l));
    assert Declaration(name, StrList(l)) == head + body + ")\n";
    AppendPiece(buf0, head, body, ")\n");
    buf := buf + ")\n";
  }

  /** One more key extends the pair text by a separator and that key's pair. */
  lemma PairWordsStep(keys: seq<string>, m: map<string, Option<string>>, k: nat)
    requires KeysOf(keys, m) && k < |keys|
    ensures Join(PairWords(keys[..k + 1], m))
         == Join(PairWords(keys[..k], m)) + (if k == 0 then "" else " ") + PairWord(keys[k], m[keys[k]].value)
  {
    assert keys[..k + 1][..k] == keys[..k];
    JoinSnoc(PairWords(keys[..k], m), PairWord(keys[k], m[keys[k]].value));
  }

  /** The loop over the sorted keys of a map, with its separator counter `i`. */
  method WritePairs(buf0: string, keys: seq<string>, m: map<string, Option<string>>) returns (buf: string)
    requires KeysOf(keys, m)
    ensures buf == buf0 + Join(PairWords(keys, m))
  {
    buf := buf0;
    var i := 0;
    for k := 0 to |keys|
      invariant i == k
      invariant buf == buf0 + Join(PairWords(keys[..k], m))
    {
      var ek := keys[k];
      var es := m[ek].value;
      var pair := PairWord(ek, es);
      PairWordsStep(keys, m, k);
      AppendPiece(buf0, Join(PairWords(keys[..k], m)), if i == 0 then "" else " ", pair);
      if i != 0 {
        buf := buf + " ";
      }
      buf := buf + pair;
      i := i + 1;
    }
    assert keys[..|keys|] == keys;
  }

  /** The `cty.Map(cty.String)` case: `[key]=value` pairs in ascending order of keys. */
  method WriteMap(buf0: string, name: string, m: map<string, Option<string>>) returns (buf: string)
    requires NoNullEntry(m)
    ensures buf == buf0 + Declaration(name, StrMap(m))
  {
    var head := MapHead + name + "=(";
    var keys := SortedNames(m);
    SortedKeysOf(m);
    buf := WritePairs(buf0 + head, keys, m);
    ghost var body := Join(PairWords(keys, m));
    assert Declaration(name, StrMap(m)) == head + body + ")\n";
    AppendPiece(buf0, head, body, ")\n");
    buf := buf + ")\n";
  }

  /** One turn of the loop over the names: the `switch` on the value's type. */
  method WriteDeclaration(buf0: string, name: string, val: Value) returns (buf: string)
    requires Encodable(val)
    ensures buf == buf0 + Declaration(name, val)
  {
    match val {
      case Str(s) =>
        buf := buf0 + (StringHead + name + "=" + BashQuoteString(s) + "\n");
      case Num(x) =>
        buf := buf0 + (IntegerHead + name + "=" + IntegerText(x.Floor) + "\n");
      case StrList(l) =>
        buf := WriteList(buf0, name, l);
      case StrMap(m) =>
        buf := WriteMap(buf0, name, m);
      case Other(_) =>
        buf := buf0 + (FallbackPrefix + "Don't know how to serialize " + GoQuote(name) + " for bash\n");
    }
  }

  lemma DeclarationsOfPrefix(names: seq<string>, j: nat, vars: map<string, Value>)
    requires NamesOf(names, vars) && AllEncodable(vars) && j < |names|
    ensures NamesOf(names[..j], vars) && NamesOf(names[..j + 1], vars)
    ensures DeclarationsOf(names[..j + 1], vars)
         == DeclarationsOf(names[..j], vars) + Declaration(names[j], vars[names[j]])
  {
    assert names[..j + 1][..j] == names[..j];
  }

  /** `variablesToBashDecls`, building the text in a buffer. */
  method VariablesToBashDecls(vars: map<string, Value>) returns (out: string)
    requires AllEncodable(vars)
    ensures out == Declarations(vars)
  {
    if |vars| == 0 {
      assert vars.Keys == {};
      SortedKeysEmpty();
      return "";
    }

    var buf := "";
    var names := SortedNames(vars);
    SortedKeysNames(vars);

    for j := 0 to |names|
      invariant buf == DeclarationsOf(names[..j], vars)
    {
      var name := names[j];
      DeclarationsOfPrefix(names, j, vars);
      buf := WriteDeclaration(buf, name, vars[name]);
    }
    assert names[..|names|] == names;
    return buf;
  }

  /** No variables, no text at all: not even a newline. */
  lemma DeclarationsEmpty()
    ensures Declarations(map[]) == ""
  {
    var none: map<string, Value> := map[];
    assert none.Keys == {};
    SortedKeysEmpty();
  }

  /** A single variable: its declaration is the whole text. */
  lemma DeclarationsSingle(name: string, v: Value)
    requires Encodable(v)
    ensures Declarations(map[name := v]) == Declaration(name, v)
  {
    var vars := map[name := v];
    assert vars.Keys == {name};
    SortedKeysSingle(name);
    assert [name][..0] == [];
    assert DeclarationsOf([name], vars) == "" + Declaration(name, v);
  }

  /** The least name's declaration comes first, then those of the others. */
  lemma DeclarationsLeastFirst(vars: map<string, Value>, least: string)
    requires AllEncodable(vars)
    requires least in vars && forall n :: n in vars && n != least ==> Less(least, n)
    ensures Declarations(vars) == Declaration(least, vars[least]) + Declarations(vars - {least})
  {
    var rest := vars - {least};
    var ks := SortedKeys(vars.Keys);
    var rs := SortedKeys(rest.Keys);
    assert ks == [least] + rs by {
      assert StrictlyIncreasing([least] + rs) by {
        forall j | 0 <= j < |rs| ensures Less(least, rs[j]) {
          assert rs[j] in rs;
        }
      }
      AscendingUnique(ks, [least] + rs);
    }
    SortedKeysNames(rest);
    DeclarationsOfCons(least, rs, vars);
    DeclarationsOfRestrict(rs, vars, rest);
  }

  lemma {:induction false} DeclarationsOfCons(n: string, ns: seq<string>, vars: map<string, Value>)
    requires n in vars && NamesOf(ns, vars) && AllEncodable(vars)
    ensures NamesOf([n] + ns, vars)
    ensures DeclarationsOf([n] + ns, vars) == Declaration(n, vars[n]) + DeclarationsOf(ns, vars)
    decreases |ns|
  {
    var s := [n] + ns;
    assert NamesOf(s, vars);
    if ns == [] {
      assert s[..0] == [];
    } else {
      var init := ns[..|ns| - 1];
      var last := ns[|ns| - 1];
      assert s[..|ns|] == [n] + init;
      assert s[|ns|] == last;
      var dn, di, dl := Declaration(n, vars[n]), DeclarationsOf(init, vars), Declaration(last, vars[last]);
      assert DeclarationsOf(s, vars) == DeclarationsOf([n] + init, vars) + dl;
      DeclarationsOfCons(n, init, vars);
      assert DeclarationsOf(ns, vars) == di + dl;
      assert (dn + di) + dl == dn + (di + dl);
    }
  }

  lemma {:induction false} DeclarationsOfRestrict(ns: seq<string>, vars: map<string, Value>, sub: map<string, Value>)
    requires AllEncodable(vars) && NamesOf(ns, sub)
    requires forall k :: k in sub ==> k in vars && sub[k] == vars[k]
    ensures AllEncodable(sub) && NamesOf(ns, vars)
    ensures DeclarationsOf(ns, sub) == DeclarationsOf(ns, vars)
    decreases |ns|
  {
    if ns != [] {
      DeclarationsOfRestrict(ns[..|ns| - 1], vars, sub);
    }
  }

  /** An empty list or map is written as `()`. */
  lemma EmptyCollections(name: string)
    ensures Declaration(name, StrList([])) == ListHead + name + "=()\n"
    ensures Declaration(name, StrMap(map[])) == MapHead + name + "=()\n"
  {
    var none: map<string, Option<string>> := map[];
    assert none.Keys == {};
    SortedKeysEmpty();
  }

}
