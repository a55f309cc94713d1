/** ASCII character classes and PHP's byte-wise case mapping. */
module Ascii {

  predicate IsUpper(c: char) { 'A' <= c <= 'Z' }

  predicate IsLower(c: char) { 'a' <= c <= 'z' }

  predicate IsLetter(c: char) { IsUpper(c) || IsLower(c) }

  predicate IsDigit(c: char) { '0' <= c <= '9' }

  /** strtolower / lcfirst on one byte: only A-Z change. */
  function LowerChar(c: char): (d: char)
    ensures !IsUpper(d)
    ensures IsUpper(c) ==> IsLower(d) && d as int == c as int + 32
    ensures !IsUpper(c) ==> d == c
  {
    if IsUpper(c) then (c as int + 32) as char else c
  }

  /** Equality of two strings when ASCII letters are compared without regard to case
      (PCRE's caseless matching outside UTF mode). */
  predicate SameIgnoringCase(a: string, b: string) {
    |a| == |b| && forall i :: 0 <= i < |a| ==> LowerChar(a[i]) == LowerChar(b[i])
  }

  /** Only a character and its other-case letter share a lower-case form. */
  lemma LowerCharSame(c: char, d: char)
    requires LowerChar(c) == LowerChar(d)
    ensures c == d || (IsLetter(c) && IsLetter(d))
  {
  }

  /** Strings that differ beyond case after position k differ beyond case as a whole. */
  lemma SuffixDiffers(a: string, b: string, k: nat)
    requires k <= |a| && k <= |b|
    requires !SameIgnoringCase(a[k..], b[k..])
    ensures !SameIgnoringCase(a, b)
  {
    if |a| == |b| {
      var i :| 0 <= i < |a| - k && LowerChar(a[k..][i]) != LowerChar(b[k..][i]);
      assert LowerChar(a[k + i]) != LowerChar(b[k + i]);
    }
  }
}
