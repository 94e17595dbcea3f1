/**
  The order in which names and map keys are emitted.

  Go's `sort.Strings` compares strings byte by byte; on UTF-8 text that is the
  same as comparing code points one by one, which is what `Less` does on
  Dafny's `char`s. `SortedKeys` is the one sorted sequence of a set of names,
  and `SortedNames` is the imperative "collect the keys of a map, then sort
  them" that both `variablesToBashDecls` and the validation loop perform.
 */
module Ordering {

  /** Lexicographic "strictly less than" on strings (a proper prefix is smaller). */
  predicate Less(a: string, b: string)
    decreases |a|
  {
    if |a| == 0 then |b| > 0
    else if |b| == 0 then false
    else a[0] < b[0] || (a[0] == b[0] && Less(a[1..], b[1..]))
  }

  lemma {:induction false} LessIrreflexive(a: string)
    ensures !Less(a, a)
    decreases |a|
  {
    if |a| > 0 {
      LessIrreflexive(a[1..]);
    }
  }

  lemma {:induction false} LessTransitive(a: string, b: string, c: string)
    requires Less(a, b) && Less(b, c)
    ensures Less(a, c)
    decreases |a|
  {
    if |a| > 0 && a[0] == b[0] && b[0] == c[0] {
      LessTransitive(a[1..], b[1..], c[1..]);
    }
  }

  lemma {:induction false} LessTotal(a: string, b: string)
    requires a != b
    ensures Less(a, b) || Less(b, a)
    decreases |a|
  {
    if |a| > 0 && |b| > 0 && a[0] == b[0] {
      assert a == [a[0]] + a[1..] && b == [b[0]] + b[1..];
      LessTotal(a[1..], b[1..]);
    }
  }

  lemma LessAsymmetric(a: string, b: string)
    requires Less(a, b)
    ensures !Less(b, a)
  {
    if Less(b, a) {
      LessTransitive(a, b, a);
      LessIrreflexive(a);
    }
  }

  /** Every element is smaller than every later one (so there are no duplicates). */
  predicate StrictlyIncreasing(s: seq<string>)
  {
    forall i, j :: 0 <= i < j < |s| ==> Less(s[i], s[j])
  }

  predicate NoDuplicates(s: seq<string>)
  {
    forall i, j :: 0 <= i < j < |s| ==> s[i] != s[j]
  }

  /** Places `x` in its position within the ascending sequence `s`. */
  function Insert(x: string, s: seq<string>): (r: seq<string>)
    requires StrictlyIncreasing(s) && x !in s
    ensures StrictlyIncreasing(r)
    ensures forall k :: k in r <==> k == x || k in s
    decreases |s|
  {
    if s == [] || Less(x, s[0]) then
      assert forall j :: 0 <= j < |s| ==> Less(x, s[j]) by {
        forall j | 0 <= j < |s| ensures Less(x, s[j]) {
          if j > 0 { LessTransitive(x, s[0], s[j]); }
        }
      }
      [x] + s
    else
      LessTotal(x, s[0]);
      var tail := Insert(x, s[1..]);
      assert forall j :: 0 <= j < |tail| ==> Less(s[0], tail[j]) by {
        forall j | 0 <= j < |tail| ensures Less(s[0], tail[j]) {
          assert tail[j] == x || tail[j] in s[1..];
        }
      }
      [s[0]] + tail
  }

  /** `r` holds the elements of `keys` in ascending order. */
  ghost predicate SortingOf(r: seq<string>, keys: set<string>)
  {
    StrictlyIncreasing(r) && forall k :: k in r <==> k in keys
  }

  lemma {:induction false} SortingExists(keys: set<string>)
    ensures exists r :: SortingOf(r, keys)
    decreases keys
  {
    if keys == {} {
      assert SortingOf([], keys);
    } else {
      var x :| x in keys;
      SortingExists(keys - {x});
      var r :| SortingOf(r, keys - {x});
      assert SortingOf(Insert(x, r), keys);
    }
  }

  /** The names of `keys` in ascending order: the order `sort.Strings` leaves them in. */
  ghost function SortedKeys(keys: set<string>): (r: seq<string>)
    ensures StrictlyIncreasing(r)
    ensures forall k :: k in r <==> k in keys
  {
    SortingExists(keys);
    var r :| SortingOf(r, keys);
    r
  }

  lemma SortedKeysEmpty()
    ensures SortedKeys({}) == []
  {
    AscendingUnique(SortedKeys({}), []);
  }

  lemma SortedKeysSingle(k: string)
    ensures SortedKeys({k}) == [k]
  {
    AscendingUnique(SortedKeys({k}), [k]);
  }

  /** Two ascending sequences with the same elements are the same sequence. */
  lemma {:induction false} AscendingUnique(a: seq<string>, b: seq<string>)
    requires StrictlyIncreasing(a) && StrictlyIncreasing(b)
    requires forall k :: k in a <==> k in b
    ensures a == b
    decreases |a|
  {
    if a == [] {
      assert forall i :: 0 <= i < |b| ==> b[i] in b;
      assert |b| == 0;
    } else {
      assert b != [] by { assert a[0] in b; }
      if a[0] != b[0] {
        assert a[0] in b && b[0] in a;
        var i :| 0 <= i < |a| && a[i] == b[0];
        var j :| 0 <= j < |b| && b[j] == a[0];
        assert Less(a[0], b[0]);
        assert Less(b[0], a[0]);
        LessAsymmetric(a[0], b[0]);
      }
      forall k ensures k in a[1..] <==> k in b[1..] {
        if k in a[1..] {
          var i :| 1 <= i < |a| && a[i] == k;
          LessIrreflexive(a[0]);
          assert k != a[0];
          assert k in b;
        }
        if k in b[1..] {
          var j :| 1 <= j < |b| && b[j] == k;
          LessIrreflexive(b[0]);
          assert k != b[0];
          assert k in a;
        }
      }
      AscendingUnique(a[1..], b[1..]);
      assert a == [a[0]] + a[1..] && b == [b[0]] + b[1..];
    }
  }

  /** `sort.Strings` on a slice of distinct names (the only slices it is given here). */
  method SortStrings(names: seq<string>) returns (sorted: seq<string>)
    requires NoDuplicates(names)
    ensures StrictlyIncreasing(sorted)
    ensures forall k :: k in sorted <==> k in names
  {
    sorted := [];
    for i := 0 to |names|
      invariant StrictlyIncreasing(sorted)
      invariant forall k :: k in sorted <==> k in names[..i]
    {
      assert names[i] !in names[..i];
      sorted := Insert(names[i], sorted);
      assert names[..i + 1] == names[..i] + [names[i]];
    }
    assert names[..|names|] == names;
  }

  /**
    Collects the keys of `m` in whatever order the map yields them, then sorts
    them: the result does not depend on that order.
   */
  method SortedNames<V>(m: map<string, V>) returns (names: seq<string>)
    ensures names == SortedKeys(m.Keys)
  {
    var collected: seq<string> := [];
    var rest := m.Keys;
    while rest != {}
      invariant forall k :: k in m <==> k in collected || k in rest
      invariant forall k :: k in collected ==> k !in rest
      invariant NoDuplicates(collected)
      decreases rest
    {
      var name :| name in rest;
      collected := collected + [name];
      rest := rest - {name};
    }
    names := SortStrings(collected);
    AscendingUnique(names, SortedKeys(m.Keys));
  }

}
