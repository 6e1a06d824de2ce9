/**
  The two String operations the services depend on: the case-insensitive
  comparison of String.equalsIgnoreCase and the search of String.lastIndexOf.
  Case folding covers the ASCII letters only.
*/
module Text {

  function LowerChar(c: char): char {
    if 'A' <= c <= 'Z' then (c as int + 32) as char else c
  }

  function UpperChar(c: char): char {
    if 'a' <= c <= 'z' then (c as int - 32) as char else c
  }

  /** Two characters match when they are equal, or equal once upper-cased, or equal once lower-cased. */
  predicate CharEqualsIgnoreCase(c: char, d: char) {
    c == d || UpperChar(c) == UpperChar(d) || LowerChar(c) == LowerChar(d)
  }

  /** String.equalsIgnoreCase: same length and matching characters at every position. */
  predicate EqualsIgnoreCase(a: string, b: string) {
    |a| == |b| && forall i :: 0 <= i < |a| ==> CharEqualsIgnoreCase(a[i], b[i])
  }

  /** String.toLowerCase, used as the reference for case-insensitive equality. */
  function Lower(s: string): string {
    if s == [] then [] else [LowerChar(s[0])] + Lower(s[1..])
  }

  lemma {:induction false} LowerAt(s: string, i: int)
    requires 0 <= i < |s|
    ensures |Lower(s)| == |s| && Lower(s)[i] == LowerChar(s[i])
  {
    if i == 0 {
      LowerLength(s);
    } else {
      LowerAt(s[1..], i - 1);
      LowerLength(s);
    }
  }

  lemma {:induction false} LowerLength(s: string)
    ensures |Lower(s)| == |s|
  {
    if s != [] {
      LowerLength(s[1..]);
    }
  }

  lemma CharEqualsIgnoreCaseIffLower(c: char, d: char)
    ensures CharEqualsIgnoreCase(c, d) <==> LowerChar(c) == LowerChar(d)
  {
  }

  /** Case-insensitive equality is equality of the lower-cased strings. */
  lemma EqualsIgnoreCaseIffLowerEqual(a: string, b: string)
    ensures EqualsIgnoreCase(a, b) <==> Lower(a) == Lower(b)
  {
    LowerLength(a);
    LowerLength(b);
    if EqualsIgnoreCase(a, b) {
      forall i | 0 <= i < |a| ensures Lower(a)[i] == Lower(b)[i] {
        LowerAt(a, i);
        LowerAt(b, i);
        CharEqualsIgnoreCaseIffLower(a[i], b[i]);
      }
    }
    if Lower(a) == Lower(b) {
      forall i | 0 <= i < |a| ensures CharEqualsIgnoreCase(a[i], b[i]) {
        LowerAt(a, i);
        LowerAt(b, i);
        CharEqualsIgnoreCaseIffLower(a[i], b[i]);
      }
    }
  }

  /** equalsIgnoreCase is an equivalence relation. */
  lemma EqualsIgnoreCaseEquivalence(a: string, b: string, c: string)
    ensures EqualsIgnoreCase(a, a)
    ensures EqualsIgnoreCase(a, b) ==> EqualsIgnoreCase(b, a)
    ensures EqualsIgnoreCase(a, b) && EqualsIgnoreCase(b, c) ==> EqualsIgnoreCase(a, c)
  {
    EqualsIgnoreCaseIffLowerEqual(a, a);
    EqualsIgnoreCaseIffLowerEqual(a, b);
    EqualsIgnoreCaseIffLowerEqual(b, a);
    EqualsIgnoreCaseIffLowerEqual(b, c);
    EqualsIgnoreCaseIffLowerEqual(a, c);
  }

  /** String.lastIndexOf for one character: the last position holding c, or -1. */
  function LastIndexOf(s: string, c: char): (r: int)
    ensures -1 <= r < |s|
    ensures r == -1 <==> forall i :: 0 <= i < |s| ==> s[i] != c
    ensures 0 <= r ==> s[r] == c && forall j :: r < j < |s| ==> s[j] != c
  {
    if s == [] then -1
    else if s[|s| - 1] == c then |s| - 1
    else LastIndexOf(s[..|s| - 1], c)
  }
}
