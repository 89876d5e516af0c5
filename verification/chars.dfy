/** Character classes and the ASCII case folding that the validation rules,
    the vocabulary lookups and the e-mail normalisation are built on. */
module Chars {
  import opened Wrappers

  /** A Java `String` reference: `None` stands for `null`. */
  type NullableString = Option<string>

  predicate IsAsciiUpper(c: char) { 'A' <= c <= 'Z' }

  predicate IsAsciiLower(c: char) { 'a' <= c <= 'z' }

  predicate IsAsciiLetter(c: char) { IsAsciiUpper(c) || IsAsciiLower(c) }

  predicate IsAsciiDigit(c: char) { '0' <= c <= '9' }

  predicate AllDigits(s: string) {
    forall i :: 0 <= i < |s| ==> IsAsciiDigit(s[i])
  }

  /** Letters in the sense of the regular-expression class `\p{L}`, restricted
      to the Latin blocks: ASCII letters, the Latin-1 letters (including the
      ordinal indicators and the micro sign) and Latin Extended-A and -B. */
  predicate IsLetter(c: char) {
    || IsAsciiLetter(c)
    || c == '\U{AA}' || c == '\U{B5}' || c == '\U{BA}'
    || ('\U{C0}' <= c <= '\U{24F}' && c != '\U{D7}' && c != '\U{F7}')
  }

  /** `Character.toLowerCase`, folding ASCII letters only. */
  function ToLower(c: char): char {
    if IsAsciiUpper(c) then (c as int + 32) as char else c
  }

  /** `String.toLowerCase`, folding ASCII letters only. */
  function ToLowerString(s: string): (r: string)
    ensures |r| == |s|
    ensures forall i :: 0 <= i < |s| ==> r[i] == ToLower(s[i])
  {
    if |s| == 0 then [] else [ToLower(s[0])] + ToLowerString(s[1..])
  }

  /** `String.equalsIgnoreCase`: `false` for a `null` argument, otherwise
      equal lengths and every pair of characters equal after folding. */
  predicate EqualsIgnoreCase(a: string, b: NullableString) {
    && b.Some?
    && |a| == |b.value|
    && forall i :: 0 <= i < |a| ==> ToLower(a[i]) == ToLower(b.value[i])
  }

  /** Folding is a projection: it never yields an upper-case letter and
      folding twice is folding once. */
  lemma ToLowerStringProperties(s: string)
    ensures forall i :: 0 <= i < |s| ==> !IsAsciiUpper(ToLowerString(s)[i])
    ensures ToLowerString(ToLowerString(s)) == ToLowerString(s)
  {
  }

  lemma ToLowerConcat(a: string, b: string)
    ensures ToLowerString(a + b) == ToLowerString(a) + ToLowerString(b)
  {
  }

  /** Comparing ignoring case is comparing the folded strings; in particular
      it is an equivalence relation. */
  lemma EqualsIgnoreCaseIff(a: string, b: string)
    ensures EqualsIgnoreCase(a, Some(b)) <==> ToLowerString(a) == ToLowerString(b)
  {
    if ToLowerString(a) == ToLowerString(b) {
      assert |a| == |b|;
      forall i | 0 <= i < |a|
        ensures ToLower(a[i]) == ToLower(b[i])
      {
        assert ToLowerString(a)[i] == ToLowerString(b)[i];
      }
    }
  }

  /** Two strings equal to a third ignoring case are equal to each other ignoring case. */
  lemma EqualsIgnoreCaseTransitive(a: string, b: string, key: NullableString)
    requires EqualsIgnoreCase(a, key) && EqualsIgnoreCase(b, key)
    ensures EqualsIgnoreCase(a, Some(b))
  {
  }

  // ---- String.trim ----

  /** Drops the leading characters `<= U+0020`. */
  function TrimStart(s: string): (r: string)
    ensures |r| <= |s| && r == s[|s| - |r|..]
    ensures forall i :: 0 <= i < |s| - |r| ==> s[i] <= ' '
    ensures |r| > 0 ==> r[0] > ' '
  {
    if |s| > 0 && s[0] <= ' ' then TrimStart(s[1..]) else s
  }

  /** Drops the trailing characters `<= U+0020`. */
  function TrimEnd(s: string): (r: string)
    ensures |r| <= |s| && r == s[..|r|]
    ensures forall i :: |r| <= i < |s| ==> s[i] <= ' '
    ensures |r| > 0 ==> r[|r| - 1] > ' '
  {
    if |s| > 0 && s[|s| - 1] <= ' ' then TrimEnd(s[..|s| - 1]) else s
  }

  /** The number of leading characters `<= U+0020`. */
  function LeadingBlanks(s: string): (n: nat)
    ensures n <= |s|
  {
    |s| - |TrimStart(s)|
  }

  /** `String.trim`: the longest infix of `s` that neither starts nor ends
      with a character `<= U+0020`. It starts after the leading blanks, and
      everything dropped on either side is `<= U+0020`. */
  function Trim(s: string): (r: string)
    ensures |r| > 0 ==> r[0] > ' ' && r[|r| - 1] > ' '
    ensures |r| == 0 ==> forall i :: 0 <= i < |s| ==> s[i] <= ' '
    ensures TrimmedTo(s, LeadingBlanks(s), LeadingBlanks(s) + |r|)
    ensures r == s[LeadingBlanks(s)..LeadingBlanks(s) + |r|]
  {
    TrimEnd(TrimStart(s))
  }

  /** `s[i..j]` is `s` with only characters `<= U+0020` dropped at either end. */
  predicate TrimmedTo(s: string, i: int, j: int) {
    && 0 <= i <= j <= |s|
    && (forall k :: 0 <= k < i ==> s[k] <= ' ')
    && (forall k :: j <= k < |s| ==> s[k] <= ' ')
  }

  /** A string that starts and ends with a character above U+0020 is its own trim. */
  lemma TrimNoop(s: string)
    requires |s| > 0 && s[0] > ' ' && s[|s| - 1] > ' '
    ensures Trim(s) == s
  {
  }
}
