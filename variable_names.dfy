/** Which strings may name a Bash variable. */
module VariableNames {

  /** A letter or an underscore. */
  predicate IsInitialChar(c: char)
  {
    c == '_' || ('A' <= c <= 'Z') || ('a' <= c <= 'z')
  }

  /** A letter, a digit or an underscore. */
  predicate IsSubsequentChar(c: char)
  {
    IsInitialChar(c) || ('0' <= c <= '9')
  }

  /** A shell identifier: `[A-Za-z_][A-Za-z0-9_]*`. */
  predicate IsIdentifier(s: string)
  {
    |s| > 0 && IsInitialChar(s[0]) && forall i :: 1 <= i < |s| ==> IsSubsequentChar(s[i])
  }

  /** `validVariableName`: checks each character in turn and stops at the first bad one. */
  method ValidVariableName(s: string) returns (ok: bool)
    ensures ok <==> IsIdentifier(s)
  {
    if |s| == 0 {
      return false;
    }
    for i := 0 to |s|
      invariant i > 0 ==> IsInitialChar(s[0])
      invariant forall j :: 1 <= j < i ==> IsSubsequentChar(s[j])
    {
      if i == 0 {
        if !IsInitialChar(s[i]) {
          return false;
        }
      } else {
        if !IsSubsequentChar(s[i]) {
          return false;
        }
      }
    }
    return true;
  }

  /** Every character of an identifier is a letter, a digit or an underscore. */
  lemma IdentifierChars(s: string)
    requires IsIdentifier(s)
    ensures forall i :: 0 <= i < |s| ==> IsSubsequentChar(s[i])
  {
  }

}
