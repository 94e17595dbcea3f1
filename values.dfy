/**
  The values handed to the `script` function, as a closed union in place of
  cty's dynamically typed values. Numbers are exact rationals (cty numbers
  are arbitrary-precision); a list or map element may be null.
 */
module Values {
  import opened Wrappers

  /** The kinds of value Bash cannot represent; the validator rejects each of them. */
  datatype OtherKind = Bool | Tuple | Object | Set | ListOfNonString | MapOfNonString

  datatype Value =
    | Str(s: string)
    | Num(x: real)
    | StrList(items: seq<Option<string>>)
    | StrMap(entries: map<string, Option<string>>)
    | Other(kind: OtherKind)

  const MinInt64: int := -0x8000_0000_0000_0000
  const MaxInt64: int := 0x7fff_ffff_ffff_ffff

  predicate IsWhole(x: real)
  {
    x.Floor as real == x
  }

  /** `big.Float.Int64` reports `big.Exact`: the number is whole and fits in an int64. */
  predicate FitsInt64(x: real)
  {
    IsWhole(x) && MinInt64 as real <= x <= MaxInt64 as real
  }

  predicate NoNullItem(items: seq<Option<string>>)
  {
    forall i :: 0 <= i < |items| ==> items[i].Some?
  }

  predicate NoNullEntry(entries: map<string, Option<string>>)
  {
    forall k :: k in entries ==> entries[k].Some?
  }

  /**
    What the encoder can render without failing: numbers must be whole
    (`variablesToBashDecls` assumes fractions were rejected) and no list or
    map element may be null (`AsString` on a null element panics).
   */
  predicate Encodable(v: Value)
  {
    match v
    case Num(x) => IsWhole(x)
    case StrList(items) => NoNullItem(items)
    case StrMap(entries) => NoNullEntry(entries)
    case _ => true
  }

  /** The values Bash can hold: strings, int64 whole numbers, lists and maps of non-null strings. */
  predicate Representable(v: Value)
  {
    match v
    case Str(_) => true
    case Num(x) => FitsInt64(x)
    case StrList(items) => NoNullItem(items)
    case StrMap(entries) => NoNullEntry(entries)
    case Other(_) => false
  }

}
