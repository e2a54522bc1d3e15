/**
 Character classes and the ASCII case mapping used by the job-posting text
 normaliser. Only the 26 ASCII letters change case; every other character
 is left as it is (the model does not follow Python's full-Unicode `lower`).
 */
module Ascii {

  /** `a` .. `z` */
  predicate IsLower(c: char) {
    'a' <= c <= 'z'
  }

  /** `A` .. `Z` */
  predicate IsUpper(c: char) {
    'A' <= c <= 'Z'
  }

  /** An ASCII letter of either case. */
  predicate IsLetter(c: char) {
    IsLower(c) || IsUpper(c)
  }

  /** A non-empty word made of lower-case ASCII letters only. */
  predicate IsLowerWord(w: string) {
    |w| > 0 && forall i :: 0 <= i < |w| ==> IsLower(w[i])
  }

  /**
   The characters that Python's `str.isspace` accepts, which are the
   separators of an argument-less `str.split`: the ASCII blank, the control
   characters TAB .. CR and FS .. US, and the Unicode space and line/paragraph
   separators.
   */
  predicate IsWhitespace(c: char) {
    || c == ' '
    || '\t' <= c <= '\r'
    || '\U{1C}' <= c <= '\U{1F}'
    || c == '\U{85}'
    || c == '\U{A0}'
    || c == '\U{1680}'
    || '\U{2000}' <= c <= '\U{200A}'
    || c == '\U{2028}'
    || c == '\U{2029}'
    || c == '\U{202F}'
    || c == '\U{205F}'
    || c == '\U{3000}'
  }

  /** `x` and `y` are the same letter, `x` upper-case and `y` lower-case. */
  predicate UpperOf(x: char, y: char) {
    IsUpper(x) && IsLower(y) && x as int - 'A' as int == y as int - 'a' as int
  }

  /** ASCII lower-casing of one character. */
  function LowerChar(c: char): (r: char)
    ensures IsLetter(c) <==> IsLower(r)
    ensures IsUpper(c) ==> UpperOf(c, r)
    ensures !IsUpper(c) ==> r == c
    ensures IsWhitespace(r) <==> IsWhitespace(c)
  {
    if IsUpper(c) then (c as int - 'A' as int + 'a' as int) as char else c
  }

  /** ASCII lower-casing of a string, character by character. */
  function Lower(s: string): (r: string)
    ensures |r| == |s|
    ensures forall i :: 0 <= i < |s| ==> r[i] == LowerChar(s[i])
  {
    seq(|s|, i requires 0 <= i < |s| => LowerChar(s[i]))
  }

  /** `a` and `b` differ at most in the case of their letters. */
  predicate SameUpToCase(a: string, b: string) {
    && |a| == |b|
    && forall i :: 0 <= i < |a| ==> a[i] == b[i] || UpperOf(a[i], b[i]) || UpperOf(b[i], a[i])
  }

  /** Lower-casing is a homomorphism on concatenation. */
  lemma LowerAppend(a: string, b: string)
    ensures Lower(a + b) == Lower(a) + Lower(b)
  {
    assert forall i :: 0 <= i < |a + b| ==> Lower(a + b)[i] == (Lower(a) + Lower(b))[i];
  }

  /** Lower-casing leaves strings without upper-case letters unchanged. */
  lemma LowerNoUpper(s: string)
    requires forall i :: 0 <= i < |s| ==> !IsUpper(s[i])
    ensures Lower(s) == s
  {
  }

  /** Lower-casing twice is lower-casing once. */
  lemma LowerIdempotent(s: string)
    ensures Lower(Lower(s)) == Lower(s)
  {
    LowerNoUpper(Lower(s));
  }

  /** Two strings lower-case to the same string exactly when they differ only in letter case. */
  lemma LowerEqualIff(a: string, b: string)
    ensures Lower(a) == Lower(b) <==> SameUpToCase(a, b)
  {
    if Lower(a) == Lower(b) {
      forall i | 0 <= i < |a|
        ensures a[i] == b[i] || UpperOf(a[i], b[i]) || UpperOf(b[i], a[i])
      {
        assert LowerChar(a[i]) == Lower(a)[i] == Lower(b)[i] == LowerChar(b[i]);
      }
    }
    if SameUpToCase(a, b) {
      forall i | 0 <= i < |a|
        ensures Lower(a)[i] == Lower(b)[i]
      {
        if UpperOf(a[i], b[i]) {
          assert LowerChar(a[i]) == b[i];
        }
      }
    }
  }
}
