/**
  The validation loop of the `script` function: the names are visited in
  ascending order, each name is checked before its value, and the first
  problem found is the error of the whole call.

  `EntryError`, `FirstError` and `VarsError` say what the outcome is;
  `Validate` finds it the way the source does, with early returns.
 */
module Validation {
  import opened Wrappers
  import opened Values
  import opened VariableNames
  import opened Ordering
  import opened GoFormat
  import opened Encoder

  /** The argument errors the `script` function reports (all of them for its second argument). */
  datatype VarError =
    | NotAnObject
    | EmptyName
    | InvalidName(name: string)
    | NotInt64(name: string)
    | NullElement(name: string)
    | UnsupportedType(name: string)

  // The fixed parts of the messages, each written in short pieces.
  const NotAnObjectText: string := "must be an object whose" + " attributes represent" + " the bash variables to declare"
  const EmptyNameText: string := "cannot use empty string" + " as a bash variable name"
  const InvalidNameHead: string := "cannot use "
  const InvalidNameTail: string := " as a bash variable name"
  const ValueHead: string := "invalid value for "
  /** The bounds are `math.MinInt64` and `math.MaxInt64` as `%d` writes them. */
  const RangeTail: string := ": must be a whole number" + " between -9223372036854775808" + " and 9223372036854775807"
  const NullTail: string := ": elements must not be null"
  const KindTail: string := ": Bash supports only strings," + " whole numbers," + " lists of strings," + " and maps of strings"

  /** The text of each error, with the offending name written by `%q`. */
  function Message(e: VarError): string
  {
    match e
    case NotAnObject => NotAnObjectText
    case EmptyName => EmptyNameText
    case InvalidName(n) => InvalidNameHead + GoQuote(n) + InvalidNameTail
    case NotInt64(n) => ValueHead + GoQuote(n) + RangeTail
    case NullElement(n) => ValueHead + GoQuote(n) + NullTail
    case UnsupportedType(n) => ValueHead + GoQuote(n) + KindTail
  }

  /** The problem with one variable, if any: its name first, then its value. */
  function EntryError(name: string, v: Value): (r: Option<VarError>)
    ensures r.None? <==> IsIdentifier(name) && Representable(v)
    ensures r.Some? && r.value != EmptyName ==> !r.value.NotAnObject? && r.value.name == name
    ensures r == Some(EmptyName) <==> name == ""
    ensures r.Some? && !r.value.EmptyName? && !r.value.InvalidName? ==> IsIdentifier(name)
  {
    if |name| == 0 then Some(EmptyName)
    else if !IsIdentifier(name) then Some(InvalidName(name))
    else
      match v
      case Str(_) => None
      case Num(x) => if FitsInt64(x) then None else Some(NotInt64(name))
      case StrList(items) => if NoNullItem(items) then None else Some(NullElement(name))
      case StrMap(entries) => if NoNullEntry(entries) then None else Some(NullElement(name))
      case Other(_) => Some(UnsupportedType(name))
  }

  /** The first problem among `names`, taken in the order given. */
  function FirstError(names: seq<string>, vars: map<string, Value>): Option<VarError>
    requires NamesOf(names, vars)
    decreases |names|
  {
    if names == [] then None
    else
      match EntryError(names[0], vars[names[0]])
      case Some(e) => Some(e)
      case None => FirstError(names[1..], vars)
  }

  /** The outcome of validating all of `vars`: the first problem in ascending order of names. */
  ghost function VarsError(vars: map<string, Value>): Option<VarError>
  {
    SortedKeysNames(vars);
    FirstError(SortedKeys(vars.Keys), vars)
  }

  lemma {:induction false} FirstErrorAppend(p: seq<string>, q: seq<string>, vars: map<string, Value>)
    requires NamesOf(p, vars) && NamesOf(q, vars)
    ensures NamesOf(p + q, vars)
    ensures FirstError(p + q, vars) == if FirstError(p, vars).Some? then FirstError(p, vars) else FirstError(q, vars)
    decreases |p|
  {
    assert NamesOf(p + q, vars) by {
      forall i | 0 <= i < |p + q| ensures (p + q)[i] in vars {
        if i < |p| { assert (p + q)[i] == p[i]; } else { assert (p + q)[i] == q[i - |p|]; }
      }
    }
    if p == [] {
      assert p + q == q;
    } else {
      assert (p + q)[0] == p[0];
      assert (p + q)[1..] == p[1..] + q;
      FirstErrorAppend(p[1..], q, vars);
    }
  }

  /** No error exactly when every entry is fine. */
  lemma {:induction false} FirstErrorNone(names: seq<string>, vars: map<string, Value>)
    requires NamesOf(names, vars)
    ensures FirstError(names, vars).None?
        <==> forall i :: 0 <= i < |names| ==> EntryError(names[i], vars[names[i]]).None?
    decreases |names|
  {
    if names != [] {
      FirstErrorNone(names[1..], vars);
      assert forall i :: 1 <= i < |names| ==> names[i] == names[1..][i - 1];
    }
  }

  /** An error is the error of some entry, and every entry before it is fine. */
  lemma {:induction false} FirstErrorAt(names: seq<string>, vars: map<string, Value>)
    requires NamesOf(names, vars) && FirstError(names, vars).Some?
    ensures exists i :: (0 <= i < |names| && EntryError(names[i], vars[names[i]]) == FirstError(names, vars)
        && forall j :: 0 <= j < i ==> EntryError(names[j], vars[names[j]]).None?)
    decreases |names|
  {
    if EntryError(names[0], vars[names[0]]).None? {
      FirstErrorAt(names[1..], vars);
      var i :| 0 <= i < |names[1..]| && EntryError(names[1..][i], vars[names[1..][i]]) == FirstError(names[1..], vars)
        && forall j :: 0 <= j < i ==> EntryError(names[1..][j], vars[names[1..][j]]).None?;
      assert forall j :: 1 <= j < i + 1 ==> names[j] == names[1..][j - 1];
      assert names[i + 1] == names[1..][i];
    } else {
      assert EntryError(names[0], vars[names[0]]) == FirstError(names, vars);
    }
  }

  /** The error found at position `i`, when every earlier entry is fine. */
  lemma FirstErrorFrom(names: seq<string>, i: nat, vars: map<string, Value>)
    requires NamesOf(names, vars) && i < |names|
    requires FirstError(names[..i], vars).None?
    ensures NamesOf(names[..i + 1], vars)
    ensures FirstError(names[..i + 1], vars) == EntryError(names[i], vars[names[i]])
    ensures EntryError(names[i], vars[names[i]]).Some? ==> FirstError(names, vars) == EntryError(names[i], vars[names[i]])
  {
    var p, q := names[..i], names[i..];
    assert names[..i + 1] == p + [names[i]];
    assert names == p + q;
    assert q == [names[i]] + q[1..];
    FirstErrorAppend(p, [names[i]], vars);
    FirstErrorAppend(p, q, vars);
  }

  /** Validation succeeds exactly when every name is an identifier and every value fits Bash. */
  lemma ValidIff(vars: map<string, Value>)
    ensures VarsError(vars).None? <==> forall n :: n in vars ==> IsIdentifier(n) && Representable(vars[n])
  {
    var ks := SortedKeys(vars.Keys);
    SortedKeysNames(vars);
    FirstErrorNone(ks, vars);
    if VarsError(vars).None? {
      forall n | n in vars ensures IsIdentifier(n) && Representable(vars[n]) {
        assert n in ks;
        var i :| 0 <= i < |ks| && ks[i] == n;
      }
    } else {
      var i :| 0 <= i < |ks| && EntryError(ks[i], vars[ks[i]]).Some?;
      assert ks[i] in vars && !(IsIdentifier(ks[i]) && Representable(vars[ks[i]]));
    }
  }

  /** A single variable: its own problem, if any, is the outcome. */
  lemma VarsErrorSingle(name: string, v: Value)
    ensures VarsError(map[name := v]) == EntryError(name, v)
  {
    var vars := map[name := v];
    assert vars.Keys == {name};
    SortedKeysSingle(name);
    assert [name][1..] == [];
    assert SortedKeys(vars.Keys) == [name];
    assert FirstError([name], vars) == EntryError(name, v);
  }

  /** A failed validation reports the smallest name that has a problem, and no smaller name has one. */
  lemma ErrorOfLeastInvalid(vars: map<string, Value>)
    requires VarsError(vars).Some?
    ensures exists n :: (n in vars && EntryError(n, vars[n]) == VarsError(vars)
        && forall m :: m in vars && Less(m, n) ==> EntryError(m, vars[m]).None?)
  {
    var ks := SortedKeys(vars.Keys);
    SortedKeysNames(vars);
    FirstErrorAt(ks, vars);
    var i :| 0 <= i < |ks| && EntryError(ks[i], vars[ks[i]]) == FirstError(ks, vars)
        && forall j :: 0 <= j < i ==> EntryError(ks[j], vars[ks[j]]).None?;
    forall m | m in vars && Less(m, ks[i]) ensures EntryError(m, vars[m]).None? {
      assert m in ks;
      var j :| 0 <= j < |ks| && ks[j] == m;
      if j >= i {
        if j > i { LessAsymmetric(m, ks[i]); } else { LessIrreflexive(m); }
      }
    }
  }

  /** Conversely, the smallest name with a problem decides the error. */
  lemma LeastInvalidDecides(vars: map<string, Value>, n: string)
    requires n in vars && EntryError(n, vars[n]).Some?
    requires forall m :: m in vars && Less(m, n) ==> EntryError(m, vars[m]).None?
    ensures VarsError(vars) == EntryError(n, vars[n])
  {
    var ks := SortedKeys(vars.Keys);
    SortedKeysNames(vars);
    assert n in ks;
    var i :| 0 <= i < |ks| && ks[i] == n;
    FirstErrorNone(ks[..i], vars);
    forall j | 0 <= j < i ensures EntryError(ks[..i][j], vars[ks[..i][j]]).None? {
      assert ks[..i][j] == ks[j] && Less(ks[j], ks[i]);
    }
    FirstErrorFrom(ks, i, vars);
  }

  /** After a successful validation the encoder can render every value, and never takes its `# ERROR` branch. */
  lemma ValidatedEncodable(vars: map<string, Value>)
    requires VarsError(vars).None?
    ensures AllEncodable(vars)
    ensures forall n :: n in vars ==> !vars[n].Other? && Declaration(n, vars[n])[0] != '#'
  {
    ValidIff(vars);
  }

  /** The `ElementIterator` loop over a list: is any element null? */
  method AnyNullItem(items: seq<Option<string>>) returns (found: bool)
    ensures found <==> !NoNullItem(items)
  {
    for i := 0 to |items|
      invariant forall j :: 0 <= j < i ==> items[j].Some?
    {
      if items[i].None? {
        return true;
      }
    }
    return false;
  }

  /** The `ElementIterator` loop over a map (in ascending order of keys): is any value null? */
  method AnyNullEntry(entries: map<string, Option<string>>) returns (found: bool)
    ensures found <==> !NoNullEntry(entries)
  {
    var keys := SortedNames(entries);
    for i := 0 to |keys|
      invariant forall j :: 0 <= j < i ==> keys[j] in entries && entries[keys[j]].Some?
    {
      assert keys[i] in keys;
      if entries[keys[i]].None? {
        return true;
      }
    }
    forall k | k in entries ensures entries[k].Some? {
      assert k in keys;
    }
    return false;
  }

  /** One turn of the validation loop: the name checks, then the `switch` on the value's type. */
  method CheckEntry(name: string, val: Value) returns (err: Option<VarError>)
    ensures err == EntryError(name, val)
  {
    if |name| == 0 {
      return Some(EmptyName);
    }
    var ok := ValidVariableName(name);
    if !ok {
      return Some(InvalidName(name));
    }
    match val {
      case Str(_) =>
        err := None;
      case Num(x) =>
        err := if FitsInt64(x) then None else Some(NotInt64(name));
      case StrList(items) =>
        var found := AnyNullItem(items);
        err := if found then Some(NullElement(name)) else None;
      case StrMap(entries) =>
        var found := AnyNullEntry(entries);
        err := if found then Some(NullElement(name)) else None;
      case Other(_) =>
        err := Some(UnsupportedType(name));
    }
  }

  /** The validation loop: the names in ascending order, stopping at the first problem. */
  method Validate(vars: map<string, Value>) returns (err: Option<VarError>)
    ensures err == VarsError(vars)
  {
    var names := SortedNames(vars);
    SortedKeysNames(vars);
    for i := 0 to |names|
      invariant NamesOf(names[..i], vars)
      invariant FirstError(names[..i], vars).None?
    {
      var name := names[i];
      FirstErrorFrom(names, i, vars);
      err := CheckEntry(name, vars[name]);
      if err.Some? {
        return err;
      }
    }
    assert names[..|names|] == names;
    return None;
  }

  /*
    The source hands each message, already formatted, to `NewArgErrorf` as its
    FORMAT string, so `fmt` reads the message a second time.
   */

  /** The message as the source produces it: the formatted text formatted once more, with no operands. */
  function ArgErrorAsWritten(e: VarError): string
    requires BareVerbs(Message(e))
  {
    FormatWithoutOperands(Message(e))
  }

  /** A plain name is shown verbatim, between double quotes, after "cannot use ". */
  lemma MessageShowsName(n: string)
    requires forall i :: 0 <= i < |n| ==> PlainChar(n[i])
    ensures var m := Message(InvalidName(n));
      m == InvalidNameHead + "\"" + n + "\"" + InvalidNameTail
      && m[..12] == "cannot use \"" && m[12..12 + |n|] == n && m[12 + |n|] == '"'
  {
    GoQuotePlain(n);
    var m := Message(InvalidName(n));
    assert m == InvalidNameHead + "\"" + n + "\"" + InvalidNameTail;
    InvalidNameHeadSpelled();
    QuotedBetween(InvalidNameHead, n, InvalidNameTail);
  }

  lemma InvalidNameHeadSpelled()
    ensures |InvalidNameHead| == 11 && InvalidNameHead + "\"" == "cannot use \""
  {
  }

  /** The text between the quotes of `head "n" tail` is `n`. */
  lemma QuotedBetween(head: string, n: string, tail: string)
    ensures var m := head + "\"" + n + "\"" + tail;
      m[..|head| + 1] == head + "\"" && m[|head| + 1..|head| + 1 + |n|] == n && m[|head| + 1 + |n|] == '"'
  {
    var m := head + "\"" + n + "\"" + tail;
    assert m == (head + "\"") + n + ("\"" + tail);
  }

  // None of the fixed parts of the messages holds a `%`.
  lemma NotAnObjectTextPlain() ensures '%' !in NotAnObjectText { }
  lemma EmptyNameTextPlain() ensures '%' !in EmptyNameText { }
  lemma InvalidNameTextPlain() ensures '%' !in InvalidNameHead && '%' !in InvalidNameTail { }
  lemma ValueHeadPlain() ensures '%' !in ValueHead { }
  lemma RangeTailPlain() ensures '%' !in RangeTail { }
  lemma NullTailPlain() ensures '%' !in NullTail { }
  lemma KindTailPlain() ensures '%' !in KindTail { }

  /** The invalid-name message around a name `pre%xpost`, as three parts. */
  lemma InvalidNameParts(pre: string, x: char, post: string)
    requires forall i :: 0 <= i < |pre| ==> PlainChar(pre[i])
    requires forall i :: 0 <= i < |post| ==> PlainChar(post[i])
    requires PlainChar(x)
    ensures Message(InvalidName(pre + ['%', x] + post))
         == (InvalidNameHead + "\"" + pre) + ['%', x] + (post + "\"" + InvalidNameTail)
  {
    var n := pre + ['%', x] + post;
    assert forall i :: 0 <= i < |n| ==> PlainChar(n[i]) by {
      forall i | 0 <= i < |n| ensures PlainChar(n[i]) {
        if i < |pre| { assert n[i] == pre[i]; }
        else if i >= |pre| + 2 { assert n[i] == post[i - |pre| - 2]; }
      }
    }
    GoQuotePlain(n);
    Regroup(InvalidNameHead, pre, ['%', x], post, InvalidNameTail);
  }

  lemma Regroup(h: string, pre: string, mid: string, post: string, t: string)
    ensures h + ("\"" + (pre + mid + post) + "\"") + t == (h + "\"" + pre) + mid + (post + "\"" + t)
  {
  }

  /**
    A name holding `%` followed by a verb letter is invalid, and the second
    formatting replaces that pair: `a%d` is reported as `"a%!d(MISSING)"`.
   */
  lemma PercentInNameReformatted(pre: string, x: char, post: string, v: Value)
    requires forall i :: 0 <= i < |pre| ==> PlainChar(pre[i]) && pre[i] != '%'
    requires forall i :: 0 <= i < |post| ==> PlainChar(post[i]) && post[i] != '%'
    requires PlainChar(x) && x != '%' && !IsVerbModifier(x)
    ensures var n := pre + ['%', x] + post;
      EntryError(n, v) == Some(InvalidName(n))
      && BareVerbs(Message(InvalidName(n)))
      && ArgErrorAsWritten(InvalidName(n))
         == InvalidNameHead + "\"" + pre + "%!" + [x] + "(MISSING)" + post + "\"" + InvalidNameTail
      && ArgErrorAsWritten(InvalidName(n)) != Message(InvalidName(n))
  {
    var n := pre + ['%', x] + post;
    assert n[|pre|] == '%';
    assert !IsIdentifier(n) by {
      assert !IsSubsequentChar(n[|pre|]);
    }
    InvalidNameParts(pre, x, post);
    InvalidNameTextPlain();
    var p := InvalidNameHead + "\"" + pre;
    var q := post + "\"" + InvalidNameTail;
    assert '%' !in pre && '%' !in post;
    FormatOneVerb(p, x, q);
    assert |ArgErrorAsWritten(InvalidName(n))| == |Message(InvalidName(n))| + 10;
  }

  /** No `%` in the message, no difference: the second formatting changes nothing. */
  lemma AsWrittenWithoutPercent(e: VarError)
    requires e.InvalidName? || e.NotInt64? || e.NullElement? || e.UnsupportedType? ==> '%' !in e.name
    ensures BareVerbs(Message(e)) && ArgErrorAsWritten(e) == Message(e)
  {
    NotAnObjectTextPlain();
    EmptyNameTextPlain();
    InvalidNameTextPlain();
    ValueHeadPlain();
    RangeTailPlain();
    NullTailPlain();
    KindTailPlain();
    if !e.NotAnObject? && !e.EmptyName? {
      QuoteCharsPercent(e.name);
    }
    assert '%' !in Message(e);
    FormatWithoutPercent(Message(e));
  }

  /** Only the invalid-name message can be altered: every other error names an identifier. */
  lemma OnlyInvalidNameAltered(vars: map<string, Value>)
    requires VarsError(vars).Some? && !VarsError(vars).value.InvalidName?
    ensures BareVerbs(Message(VarsError(vars).value))
    ensures ArgErrorAsWritten(VarsError(vars).value) == Message(VarsError(vars).value)
  {
    ErrorOfLeastInvalid(vars);
    var e := VarsError(vars).value;
    if !e.NotAnObject? && !e.EmptyName? {
      var n :| n in vars && EntryError(n, vars[n]) == VarsError(vars);
      assert IsIdentifier(e.name);
      IdentifierChars(e.name);
      assert forall i :: 0 <= i < |e.name| ==> e.name[i] != '%';
    }
    AsWrittenWithoutPercent(e);
  }

}
