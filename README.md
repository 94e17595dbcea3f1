# The `script` function of a Bash Terraform provider, in Dafny

The provider has one function, `script(script_src, variables)`. It takes a
Bash script and an object (or map) of variables. It returns the script with
one read-only `declare` statement per variable put in near the top:

    declare -r NAME='text'
    declare -ri NAME=123
    declare -ra NAME=('a' 'b')
    declare -rA NAME=(['k1']='v1' ['k2']='v2')

The declarations go in ascending order of names. A map's pairs go in
ascending order of keys. A script whose first line is an interpreter line
(`#!`) keeps that line first, and the declarations come right after it. Any
other script gets the declarations in front.

Before anything is encoded, the function checks its second argument:

- it must be object- or map-shaped;
- an argument that is not yet wholly known gives an unknown result with no error;
- every name must be a shell identifier;
- every value must be a string, a whole number that fits in an int64, or a
  list or map of non-null strings.

The first problem, in ascending order of names, is the error of the call.

The project has these modules:

| module | models |
|---|---|
| `Values` | the values handed to the function. A closed union replaces cty's dynamic values; numbers are exact rationals. |
| `VariableNames` | `validVariableName` and its two character classes |
| `Ordering` | `sort.Strings` on names, and the "collect the keys, then sort" idiom used three times in the source |
| `BashQuote` | `bashQuoteString`, plus a reader of single-quoted Bash words as its partner |
| `Decimal` | how a whole `big.Float` is written by `Text('f', -1)`, plus Bash's reading of an integer |
| `GoFormat` | `%q` of a string, and what `fmt` makes of a format string that has no operands |
| `Encoder` | `variablesToBashDecls`: a specification function (`Declarations`) and the buffer-building methods proved equal to it |
| `Validation` | the validation loop of the `Impl` closure, the error messages, and the double-formatting finding below |
| `Insertion` | where the declarations go in the script |
| `ScriptFunction` | the `Impl` closure as a whole |
| `BashReading` | how Bash reads the declarations back: the partner of the encoder. The round trip shows that a Bash that can hold any character then holds the validated variables, except for an empty map key, which Bash refuses (second finding below). U+0000 and names Bash gives a meaning of its own are outside this reader (see "Left out"). |

Imperative source code (loops that append to a `strings.Builder` or a
slice, loops with early returns) is modelled as methods with loops. Each
method is proved equal to a specification function. The properties are
lemmas about those functions.

## Model

| member | source | states |
|---|---|---|
| Values.FitsInt64 | internal/bash/script_function.go:59-60 | `bf.Int64()` is exact: the number is whole and between -2^63 and 2^63-1 |
| Values.Encodable | internal/bash/variables.go:42-77 | what the encoder can render without failing: whole numbers, and lists and maps without null elements |
| Values.Representable | internal/bash/script_function.go:53-73 | what validation lets through: any string, a number that fits in an int64, a list or map of non-null strings, and nothing else |
| VariableNames.ValidVariableName | internal/bash/variables.go:100-140 | true exactly when the name is non-empty, starts with a letter or `_`, and every later character is a letter, digit or `_` |
| VariableNames.IsInitialChar | internal/bash/variables.go:118-129 | `_`, `A`-`Z` and `a`-`z` may start a name |
| VariableNames.IsSubsequentChar | internal/bash/variables.go:131-140 | a starting character or `0`-`9` may follow |
| VariableNames.IdentifierChars | internal/bash/variables.go:131-140 | every character of a valid name is a letter, digit or `_` |
| Ordering.Less | internal/bash/variables.go:29 | the string order of `sort.Strings`: a proper prefix, or the first differing character is smaller |
| Ordering.LessIrreflexive | internal/bash/variables.go:29 | no name sorts before itself |
| Ordering.LessTransitive | internal/bash/variables.go:29 | the string order used by `sort.Strings` is transitive |
| Ordering.LessTotal | internal/bash/variables.go:29 | of two different names, one sorts before the other |
| Ordering.LessAsymmetric | internal/bash/variables.go:29 | two names never sort before each other |
| Ordering.Insert | internal/bash/variables.go:29 | inserting a new name into an ascending sequence keeps it ascending, and the result holds that name and the old ones |
| Ordering.SortingExists | internal/bash/variables.go:25-29 | every finite set of names has an ascending enumeration |
| Ordering.SortedKeys | internal/bash/variables.go:25-29 | the ascending, duplicate-free sequence holding exactly the given names |
| Ordering.SortedKeysEmpty | internal/bash/variables.go:20-22 | no names give the empty sequence |
| Ordering.SortedKeysSingle | internal/bash/variables.go:25-29 | one name gives the sequence of that name alone |
| Ordering.AscendingUnique | internal/bash/variables.go:29 | two ascending sequences with the same elements are equal, so the sorted order does not depend on the order in which the map is iterated |
| Ordering.SortStrings | internal/bash/variables.go:29 | `sort.Strings` on distinct names: the result is ascending and holds exactly the input names |
| Ordering.SortedNames | internal/bash/variables.go:25-29 | collecting a map's keys in any order and sorting them gives exactly `SortedKeys` of the key set |
| BashQuote.EscapeQuotes | internal/bash/variables.go:97 | `strings.ReplaceAll(s, "'", `'\''`)`: each `'` becomes `'\''`, every other character is copied |
| BashQuote.BashQuoteString | internal/bash/variables.go:96-98 | the quoted form begins and ends with a single quote |
| BashQuote.ReadEscaped | internal/bash/variables.go:97 | inside single quotes, Bash reads the escaped text up to the closing quote as the original text |
| BashQuote.ReadQuoted | internal/bash/variables.go:96-98 | Bash reads a quoted string, followed by any delimiter that is not a quote or a backslash, as exactly the original string, and stops at the delimiter |
| BashQuote.UnquoteQuoted | internal/bash/variables.go:96-98 | a quoted string on its own is a single Bash word whose value is the original string |
| BashQuote.EscapeAddsOnlyQuotes | internal/bash/variables.go:97 | escaping adds no character other than `'` and `\`, so a space, `)`, `]` or newline shows up in the quoted text only if the input had one |
| Decimal.NatText | internal/bash/variables.go:49 | a natural number's text is non-empty and starts with a digit |
| Decimal.IntegerText | internal/bash/variables.go:49 | a whole number's text is non-empty and starts with `-` exactly when the number is negative |
| Decimal.NatTextCanonical | internal/bash/variables.go:49 | a natural number's text is one or more digits, with no leading zero unless the text is `0` |
| Decimal.NatTextValue | internal/bash/variables.go:49 | the digits of a natural number, read from the left, give that number |
| Decimal.IntegerTextCanonical | internal/bash/variables.go:42-50 | a whole number is written as `-` (for negatives only) followed by canonical digits that give its magnitude; a negative number is never written `-0` |
| Decimal.NegativeText | internal/bash/variables.go:49 | a negative number's text is `-` followed by its magnitude's digits |
| Decimal.SplitDigitsOf | internal/bash/variables.go:49 | Bash's digit scanner stops exactly where the digits end |
| Decimal.ReadIntegerText | internal/bash/variables.go:42-50 | Bash reads the text of any whole number, followed by a non-digit, back as the same number |
| GoFormat.QuoteChar | internal/bash/variables.go:90 | how `%q` writes one character: `"` and `\` backslashed, printable ones as themselves, `\a` `\b` `\f` `\n` `\r` `\t` `\v`, other control characters as `\xHH`, the rest of Latin-1 as `\u00HH` |
| GoFormat.QuoteChars | internal/bash/variables.go:90 | each character of the string written as `QuoteChar` writes it, in order |
| GoFormat.GoQuote | internal/bash/variables.go:90 | `%q` output begins and ends with a double quote |
| GoFormat.QuoteCharsPlain | internal/bash/script_function.go:51 | `%q` copies printable ASCII other than `"` and `\` unchanged |
| GoFormat.GoQuotePlain | internal/bash/script_function.go:51 | `%q` of such a name is that name between double quotes |
| GoFormat.QuoteCharsPercent | internal/bash/script_function.go:51 | `%q` output holds a `%` exactly when its input does |
| GoFormat.QuoteCharPercent | internal/bash/script_function.go:51 | one character's `%q` form holds a `%` exactly when the character is `%` |
| GoFormat.FormatWithoutOperands | internal/bash/script_function.go:48-72 | what `fmt` writes for a format string with no operands: `%%` is a percent sign, any other verb `%!c(MISSING)`, a final `%` is `%!(NOVERB)`, other characters are copied |
| GoFormat.FormatWithoutPercent | internal/bash/script_function.go:48-72 | a message without `%`, used as a format string, comes out unchanged |
| GoFormat.FormatPlainPrefix | internal/bash/script_function.go:48-72 | text without `%` at the front of a format string is copied through unchanged |
| GoFormat.FormatOneVerb | internal/bash/script_function.go:51 | a single `%x` verb with no operand is written as `%!x(MISSING)`, and the text around it is unchanged |
| Encoder.PairWord | internal/bash/variables.go:81-84 | one map entry as the word `[` quoted key `]=` quoted value |
| Encoder.Join | internal/bash/variables.go:56-62 | the words separated by single spaces, as the `i != 0` loops write them |
| Encoder.JoinSnoc | internal/bash/variables.go:56-62 | adding a word appends a space (except before the first word) and then the word |
| Encoder.QuotedItems | internal/bash/variables.go:56-62 | there is one quoted word per list element |
| Encoder.PairWords | internal/bash/variables.go:75-86 | there is one `[key]=value` word per key |
| Encoder.SortedKeysOf | internal/bash/variables.go:69-73 | every sorted key of a map without nulls has a non-null value |
| Encoder.Declaration | internal/bash/variables.go:32-91 | each declaration ends with a newline; only a value of an unsupported kind gives a line that starts with `#` |
| Encoder.SortedKeysNames | internal/bash/variables.go:25-29 | every sorted name is a variable |
| Encoder.WriteList | internal/bash/variables.go:51-63 | appends the list's declaration to the buffer: the quoted elements in order, separated by single spaces, inside `(` `)` |
| Encoder.PairWordsStep | internal/bash/variables.go:75-86 | one more key extends the pair text by a separator and that key's `[key]=value` |
| Encoder.WritePairs | internal/bash/variables.go:74-86 | the separator-counter loop appends the `[key]=value` words of the keys in order, separated by single spaces |
| Encoder.WriteMap | internal/bash/variables.go:64-87 | appends the map's declaration to the buffer, with its pairs in ascending order of keys |
| Encoder.WriteDeclaration | internal/bash/variables.go:32-91 | appends exactly the declaration of one variable to the buffer, for each kind of value |
| Encoder.DeclarationsOf | internal/bash/variables.go:31-92 | the declarations of the given names, one after another in their order |
| Encoder.Declarations | internal/bash/variables.go:19-94 | the whole text: the declarations of all variables in ascending order of names |
| Encoder.DeclarationsOfPrefix | internal/bash/variables.go:31-92 | each turn of the loop adds one declaration after those before it |
| Encoder.VariablesToBashDecls | internal/bash/variables.go:19-94 | the returned text is the declarations of all variables in ascending order of names, with the early return for an empty map |
| Encoder.DeclarationsEmpty | internal/bash/variables.go:20-22 | no variables give the empty text |
| Encoder.DeclarationsSingle | internal/bash/variables.go:19-94 | a single variable gives exactly its declaration |
| Encoder.DeclarationsLeastFirst | internal/bash/variables.go:29-31 | the smallest name's declaration comes first, followed by the declarations of all the other variables |
| Encoder.DeclarationsOfCons | internal/bash/variables.go:31-92 | the declarations of a name followed by others are that name's declaration followed by theirs |
| Encoder.DeclarationsOfRestrict | internal/bash/variables.go:31-92 | the declarations of some names depend only on those names' values |
| Encoder.EmptyCollections | internal/bash/variables.go:51-87 | an empty list or map is written as `()` |
| Validation.Message | internal/bash/script_function.go:33-72 | the intended text of each error: the shape error, the empty name, the invalid name shown with `%q`, the range, the null element and the unsupported kind |
| Validation.ArgErrorAsWritten | internal/bash/script_function.go:48-72 | the text the source reports: the intended message read a second time as a `fmt` format string with no operands |
| Validation.EntryError | internal/bash/script_function.go:46-73 | an entry has no problem exactly when its name is an identifier and its value fits Bash; the empty-name error occurs exactly for the empty name; every other error carries the entry's name; a value error occurs only for a valid name |
| Validation.FirstError | internal/bash/script_function.go:45-74 | the problem of the first entry, in the given order, that has one |
| Validation.VarsError | internal/bash/script_function.go:38-74 | the outcome of validating all variables: the first problem in ascending order of names |
| Validation.FirstErrorAppend | internal/bash/script_function.go:45-74 | the first problem in two sequences of names joined together is the first of the first sequence, or else that of the second |
| Validation.FirstErrorNone | internal/bash/script_function.go:45-74 | a sequence of names has no problem exactly when every entry in it is fine |
| Validation.FirstErrorAt | internal/bash/script_function.go:45-74 | a reported problem belongs to some entry, and every entry before it is fine |
| Validation.FirstErrorFrom | internal/bash/script_function.go:45-74 | when the entries before position i are fine, a problem at position i is the one reported |
| Validation.VarsErrorSingle | internal/bash/script_function.go:45-74 | for one variable, the outcome is that variable's own problem, if it has one |
| Validation.ValidIff | internal/bash/script_function.go:38-74 | validation succeeds exactly when every name is an identifier and every value fits Bash |
| Validation.ErrorOfLeastInvalid | internal/bash/script_function.go:43-74 | a failed validation reports the problem of a variable that has one, and every smaller name is fine |
| Validation.LeastInvalidDecides | internal/bash/script_function.go:43-74 | conversely, the smallest name with a problem decides the reported error |
| Validation.ValidatedEncodable | internal/bash/script_function.go:53-73 | after a successful validation the encoder can render every value and never writes its `# ERROR` comment |
| Validation.AnyNullItem | internal/bash/script_function.go:63-69 | finds a null exactly when some list element is null |
| Validation.AnyNullEntry | internal/bash/script_function.go:63-69 | finds a null exactly when some map value is null |
| Validation.CheckEntry | internal/bash/script_function.go:46-73 | one turn of the loop: the empty-name check, then the identifier check, then the check on the value's kind, giving the entry's problem |
| Validation.Validate | internal/bash/script_function.go:38-74 | the loop over the sorted names stops at, and returns, the first problem in ascending order of names, or returns none |
| Validation.MessageShowsName | internal/bash/script_function.go:51 | for a plain ASCII name, the invalid-name message shows the name verbatim between double quotes after `cannot use ` |
| Validation.NotAnObjectTextPlain | internal/bash/script_function.go:33 | the shape error's text has no `%` |
| Validation.EmptyNameTextPlain | internal/bash/script_function.go:48 | the empty-name text has no `%` |
| Validation.InvalidNameTextPlain | internal/bash/script_function.go:51 | the fixed parts of the invalid-name message have no `%` |
| Validation.ValueHeadPlain | internal/bash/script_function.go:61 | the value errors' fixed head has no `%` |
| Validation.RangeTailPlain | internal/bash/script_function.go:61 | the range error's tail, with int64's bounds written out, has no `%` |
| Validation.NullTailPlain | internal/bash/script_function.go:67 | the null-element tail has no `%` |
| Validation.KindTailPlain | internal/bash/script_function.go:72 | the unsupported-kind tail has no `%` |
| Validation.InvalidNameParts | internal/bash/script_function.go:51 | the invalid-name message for a name with one `%x` splits into the text before the `%`, the `%x`, and the text after it |
| Validation.PercentInNameReformatted | internal/bash/script_function.go:50-52 | a name containing `%` followed by a verb letter is invalid, and the message the source produces for it differs from the intended one: `%x` becomes `%!x(MISSING)` |
| Validation.AsWrittenWithoutPercent | internal/bash/script_function.go:48-72 | an error whose name has no `%` gets the intended message |
| Validation.OnlyInvalidNameAltered | internal/bash/script_function.go:47-72 | every error of a validation except an invalid name gets exactly the intended message |
| Insertion.HasPrefix | internal/bash/script_function.go:78 | `strings.HasPrefix`: the script begins with the given text |
| Insertion.IndexOf | internal/bash/script_function.go:81 | `strings.Index` for a newline: -1 exactly when there is none, otherwise the position of the first one |
| Insertion.InsertDecls | internal/bash/script_function.go:76-90 | without `#!`, the declarations go first. A lone interpreter line gets a newline and then the declarations. Otherwise the declarations go right after the first newline. |
| Insertion.InterpreterLineKept | internal/bash/script_function.go:78-87 | a script starting with `#!` still starts with `#!`, and with its whole first line |
| Insertion.DeclsRemovable | internal/bash/script_function.go:77-90 | the result is the script cut at one place, with a separator and then the declarations put in there. The separator is a newline exactly for a lone interpreter line and nothing otherwise; taking both out gives back the script. |
| Insertion.EmptyDecls | internal/bash/script_function.go:76-90 | with no declarations the script is unchanged, except that a lone interpreter line gets a newline |
| ScriptFunction.ScriptResult | internal/bash/script_function.go:29-93 | the outcome of a call, decided in the source's order: shape error, unknown result, first validation problem, or the script with the declarations put in |
| ScriptFunction.Script | internal/bash/script_function.go:29-93 | the `Impl` closure: shape check, unknown check, validation, encoding and insertion, in the source's order |
| ScriptFunction.ShapeCheckedFirst | internal/bash/script_function.go:32-34 | inside `Impl`, an argument that is neither an object nor a map gives the shape error for the variables argument, even when it is unknown. The function framework answers a wholly unknown argument before `Impl` runs (see "Left out"). |
| ScriptFunction.UnknownDefers | internal/bash/script_function.go:35-37 | a well-shaped argument that is not wholly known gives an unknown result and no error |
| ScriptFunction.SucceedsIff | internal/bash/script_function.go:29-92 | a call gives text exactly when the argument is well shaped, wholly known, and every variable has an identifier name and a value Bash can hold |
| ScriptFunction.FailureNamesLeastInvalid | internal/bash/script_function.go:38-74 | a failing call reports, for argument 1, the message of a variable with a problem, and every smaller name is fine |
| ScriptFunction.SuccessText | internal/bash/script_function.go:76-92 | on success the text is the script with the declarations of all variables, in ascending order of names, put in |
| ScriptFunction.SingleVariable | internal/bash/script_function.go:76-92 | one good variable and a script without `#!` give that variable's declaration followed by the script |
| ScriptFunction.AsWrittenAgrees | internal/bash/script_function.go:32-72 | for every error without an invalid name, the message the source reports is the intended one, so the call's outcome stands as the source gives it |
| ScriptFunction.SingleInvalid | internal/bash/script_function.go:45-74 | one variable with a problem makes the call fail with that problem |
| ScriptFunction.NoVariables | internal/bash/script_function.go:76-92 | no variables leave the script unchanged, except that a lone interpreter line gets a newline |
| BashReading.ItemValues | internal/bash/variables.go:52-62 | the element values of a null-free list, in order |
| BashReading.SplitNameOf | internal/bash/variables.go:38 | Bash's name scanner stops exactly where the identifier ends |
| BashReading.JoinCons | internal/bash/variables.go:56-62 | the words joined by spaces are the first word, then a space and the rest |
| BashReading.QuotedItemsCons | internal/bash/variables.go:56-62 | the quoted elements are the first element quoted, followed by the others quoted |
| BashReading.PairWordsCons | internal/bash/variables.go:75-86 | the key-value words are the first key's word, followed by the others |
| BashReading.JoinClose | internal/bash/variables.go:56-63 | words closed by `)` start with the first word, followed by a space or the `)` |
| BashReading.ListTextCons | internal/bash/variables.go:56-63 | a non-empty list's text starts with the first quoted element, followed by a space or the `)` |
| BashReading.ReadListOf | internal/bash/variables.go:56-63 | Bash reads the quoted, space-separated elements up to `)` back as exactly the list's elements |
| BashReading.ReadPairWord | internal/bash/variables.go:81-84 | Bash's word reader takes one `[key]=value` word apart into that key and value, for every key including the empty one |
| BashReading.PairsTextCons | internal/bash/variables.go:75-87 | a non-empty pair text starts with the first pair, followed by a space or the `)` |
| BashReading.ReadPairsOf | internal/bash/variables.go:74-87 | Bash takes the `[key]=value` words up to `)` apart into exactly those keys with their values, in order |
| BashReading.PairsMapOf | internal/bash/variables.go:69-86 | assigning those pairs one after another builds the map restricted to the keys, without the empty key, whose assignment Bash refuses |
| BashReading.HeldEntries | internal/bash/variables.go:64-87 | what Bash holds for a map: every entry except one with the empty key |
| BashReading.HeldEntriesWhole | internal/bash/variables.go:64-87 | Bash holds the whole map exactly when it has no empty key, and never holds an empty key |
| BashReading.MapReadBack | internal/bash/variables.go:64-87 | the map's pair text, read back and assigned, gives the map's entries except an empty key |
| BashReading.ReadStringDecl | internal/bash/variables.go:35-41 | a string declaration, read back, defines that name as that string |
| BashReading.ReadIntegerDecl | internal/bash/variables.go:42-50 | an integer declaration, read back, defines that name as that integer |
| BashReading.ReadListDecl | internal/bash/variables.go:51-63 | a list declaration, read back, defines that name as an indexed array of exactly the elements |
| BashReading.ReadMapDecl | internal/bash/variables.go:64-87 | a map declaration, read back, defines that name as an associative array of the entries, except an empty key |
| BashReading.ReadDeclarationOf | internal/bash/variables.go:32-87 | any declaration of a validated variable, read back, is that name with its value as Bash holds it (a map without an empty key), and the text after the line |
| BashReading.ReadDeclarationsOf | internal/bash/variables.go:31-92 | the declarations of a sequence of names, read back, define exactly those names with their values as Bash holds them |
| BashReading.DeclarationsRoundTrip | internal/bash/variables.go:19-94 | reading all declarations of validated variables back gives exactly the variables: every name, and every value as Bash holds it, a map without an empty key |
| BashReading.EmptyKeyLost | internal/bash/script_function.go:63-69 | a map with an empty key passes validation and is declared, yet Bash then holds different entries than the map has |
| BashReading.HoldableRoundTrip | internal/bash/variables.go:64-87 | when no map has an empty key, every map comes back with exactly its entries |

## Left out

- `main.go` and `provider.go` (provider registration and serving) are not part of this model.
- The cty type system is replaced by the closed `Value` union. The function framework's own handling of null and wholly unknown arguments, which happens before `Impl` runs, is left out. So are `RefineResult` and the unknown value that accompanies each error.
- ScriptFunction.Script: an error outcome carries only the argument index and the message. The `cty.UnknownVal` returned beside it is not modelled. The message is the intended `Validation.Message`, not the text `function.NewArgErrorf` makes of it. The two differ only for an invalid name with `%` in it (first finding below); for every other error `ScriptFunction.AsWrittenAgrees` proves them equal.
- Null top-level values are not modelled: the `Value` union has none. A null bool, tuple, object or set keeps its type and reaches the unsupported-kind error, which `Other` already gives. A null string, number, list or map reaches `AsBigFloat`, `ElementIterator` or, in the encoder, `AsString`, and what those cty calls do with a null is not part of this model.
- Encoder.VariablesToBashDecls: requires whole numbers and non-null elements. The source assumes both (its comment on lines 44-45), and `AsString` panics on a null element. The `# ERROR` branch for an unsupported kind is modelled.
- Numbers are exact rationals, `Num(x: real)`. So the model has no infinities, and it does not model that `Int64()` reports an infinity as inexact, which the range error then rejects. Negative zero is not modelled either.
- Numbers are written as `big.Float.Text('f', -1)` writes them only for whole numbers. Fractions do not reach it after validation. `Text('f', -1)` gives the exact digits only at the precision cty works with; a `big.Float` of lower precision above 2^53 is outside the model.
- GoFormat.GoQuote: treats every code point above 0xFF as printable. `strconv.Quote` escapes the non-printable ones with `\u`/`\U`, and it hex-escapes invalid UTF-8. The model works on code points, not bytes, so neither case is modelled.
- Validation.ArgErrorAsWritten: requires every `%` in the message to be followed directly by a verb (or to end it). This is how `fmt` treats a format string with flags, width, precision or argument indexes, and those cases are not modelled.
- Ordering.SortStrings: requires distinct names. It is only given the keys of a map, which are distinct.
- The string order compares code points. This is the same as Go's byte order on valid UTF-8; invalid UTF-8 is not modelled.
- The newline search counts characters where `strings.Index` counts bytes. The newline is one byte, so the split is at the same place in the text.
- The name check treats each character as one rune. The `range` loop's decoding of invalid UTF-8 into U+FFFD is not modelled; U+FFFD is not a valid name character anyway.
- The range error writes `math.MinInt64` and `math.MaxInt64` as their decimal literals, which is how `%d` writes them.
- BashReading.DeclarationsRoundTrip: reads the declarations into an empty environment, as a Bash that gives no name a meaning of its own. Any name Bash itself makes read-only (`UID`, `EUID`, `PPID`, `SHELLOPTS`, `BASH_VERSINFO`) or dynamic (`RANDOM`, `SRANDOM`, `SECONDS`, `LINENO`, `EPOCHSECONDS`, `EPOCHREALTIME`, `BASHPID`, `GROUPS`, `FUNCNAME`, `BASH_ARGV0` and the like) is a valid identifier that passes validation, and in a real shell such a name does not hold the value `declare -r` gives it, or the declaration fails. These names are outside the model.
- BashReading.DeclarationsRoundTrip: the reader keeps every character, U+0000 included. Validation lets any string through, but Bash cannot hold U+0000: depending on how the script reaches Bash, the character is dropped or the text is cut off at it. So for a string, list element, map key or map value with U+0000, Bash does not hold what this round trip says. How the script is handed to Bash is outside the provider, and it is not modelled.
- BashReading.ReadDeclarationsOf: reads into an empty environment too, so Bash's own read-only and dynamic names are outside it, and it keeps U+0000, as under `DeclarationsRoundTrip` above.
- BashReading.ReadDeclarationOf: "as Bash holds it" means as a Bash that holds U+0000 and gives the name no meaning of its own, as under `DeclarationsRoundTrip` above.
- BashReading.ReadStringDecl: holds for a string with U+0000 only in a Bash that keeps that character; real Bash drops it or stops at it.
- BashReading.ReadListDecl: an element with U+0000 comes back as stated only in a Bash that keeps that character, as for `ReadStringDecl`.
- BashReading.ReadMapDecl: an entry whose key or value has U+0000 comes back as stated only in a Bash that keeps that character, as for `ReadStringDecl`.
- BashReading.HoldableRoundTrip: "exactly its entries" also supposes that no key or value has U+0000, as for `ReadStringDecl`.
- The `strings.Builder` buffer is a string value that each step extends. `fmt.Fprintf` into the buffer is modelled by appending its output.

## Findings

| source | as written | input that shows it | evidently intended | confidence | as-written member | corrected member |
|---|---|---|---|---|---|---|
| internal/bash/script_function.go:48-72 | The message built by `fmt.Sprintf` is passed to `function.NewArgErrorf` as its FORMAT string, with no operands, so `fmt` reads it a second time. | A variable named `a%d`. The message becomes `cannot use "a%!d(MISSING)" as a bash variable name`. | `cannot use "a%d" as a bash variable name`, with the name shown verbatim | not executed | Validation.PercentInNameReformatted | Validation.MessageShowsName |
| internal/bash/script_function.go:63-69 | The check on a map looks at its values only. A map with the key `""` passes, and the encoder writes `['']='v'`, which Bash refuses as a bad array subscript. | A variable `m` whose value is the map `{"" = "v"}`. Bash then holds `m` as an empty associative array. | an empty key is rejected during validation, so every accepted map is held whole | not executed | BashReading.EmptyKeyLost | BashReading.HoldableRoundTrip |

In the first finding, only the invalid-name message can be altered, because every other
message names an identifier, which cannot contain `%`
(`Validation.OnlyInvalidNameAltered`). The rest of the model uses the
intended text, `Validation.Message`.

For the empty key, the model keeps the source's validator as it is, and
the reader models Bash refusing that one assignment. So the round trip is
exact, and `BashReading.HoldableRoundTrip` shows that the missing check is
all it takes for every map to come back whole.
