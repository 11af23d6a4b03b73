/**
 * The parts of Python's `str` that the services rely on: `isspace`, `strip()`
 * (used on chat messages and model replies) and `lower()` (used for the
 * case-insensitive loan-type lookup).
 */
module Text {

  /** Python's `str.isspace` for a single character. */
  predicate IsSpace(c: char)
  {
    || c == ' '
    || '\t' <= c <= '\r'
    || '\U{1C}' <= c <= '\U{1F}'
    || c == '\U{85}' || c == '\U{A0}' || c == '\U{1680}'
    || '\U{2000}' <= c <= '\U{200A}'
    || c == '\U{2028}' || c == '\U{2029}' || c == '\U{202F}' || c == '\U{205F}' || c == '\U{3000}'
  }

  /** Every character of `s` is whitespace (the empty string included). */
  predicate IsBlank(s: string)
  {
    forall i :: 0 <= i < |s| ==> IsSpace(s[i])
  }

  /** The length of the whitespace run that starts `s`. */
  function LeadingSpaces(s: string): (n: nat)
    ensures n <= |s|
    ensures forall i :: 0 <= i < n ==> IsSpace(s[i])
    ensures n < |s| ==> !IsSpace(s[n])
  {
    if |s| > 0 && IsSpace(s[0]) then 1 + LeadingSpaces(s[1..]) else 0
  }

  /** The length of the whitespace run that ends `s`. */
  function TrailingSpaces(s: string): (n: nat)
    ensures n <= |s|
    ensures forall i :: |s| - n <= i < |s| ==> IsSpace(s[i])
    ensures n < |s| ==> !IsSpace(s[|s| - 1 - n])
  {
    if |s| > 0 && IsSpace(s[|s| - 1]) then 1 + TrailingSpaces(s[..|s| - 1]) else 0
  }

  /** Python's `s.strip()`: `s` without its leading and trailing whitespace. */
  function Strip(s: string): (r: string)
    ensures |r| <= |s|
    ensures r == [] <==> IsBlank(s)
    ensures r != [] ==> !IsSpace(r[0]) && !IsSpace(r[|r| - 1])
  {
    var lead := LeadingSpaces(s);
    if lead == |s| then
      []
    else
      var trail := TrailingSpaces(s);
      assert !IsSpace(s[lead]);
      s[lead..|s| - trail]
  }

  /** `strip` keeps one contiguous piece of `s` and removes only whitespace around it. */
  lemma StripKeepsMiddle(s: string)
    ensures var lead := LeadingSpaces(s);
      && lead + |Strip(s)| <= |s|
      && Strip(s) == s[lead..lead + |Strip(s)|]
      && IsBlank(s[..lead])
      && IsBlank(s[lead + |Strip(s)|..])
  {
    var lead, r := LeadingSpaces(s), Strip(s);
    if r != [] {
      assert lead + |r| == |s| - TrailingSpaces(s);
    }
  }

  /** Stripping twice removes nothing more than stripping once. */
  lemma {:induction false} StripIdempotent(s: string)
    ensures Strip(Strip(s)) == Strip(s)
  {
    var r := Strip(s);
    if r != [] {
      assert LeadingSpaces(r) == 0;
      assert TrailingSpaces(r) == 0;
      assert r[0..|r|] == r;
    }
  }

  /** Python's `str.lower` on one character, for the ASCII letters. */
  function LowerChar(c: char): (d: char)
    ensures !('A' <= d <= 'Z')
    ensures 'A' <= c <= 'Z' ==> d as int == c as int + 32
    ensures !('A' <= c <= 'Z') ==> d == c
  {
    if 'A' <= c <= 'Z' then (c as int + 32) as char else c
  }

  /** Python's `s.lower()`: every upper-case letter replaced by its lower-case form. */
  function Lower(s: string): (r: string)
    ensures |r| == |s|
    ensures forall i :: 0 <= i < |s| ==> r[i] == LowerChar(s[i])
  {
    if s == [] then [] else [LowerChar(s[0])] + Lower(s[1..])
  }

  /** Lower-casing an already lower-cased string changes nothing. */
  lemma LowerIdempotent(s: string)
    ensures Lower(Lower(s)) == Lower(s)
  {
    var r := Lower(s);
    assert forall i :: 0 <= i < |r| ==> LowerChar(r[i]) == r[i];
  }

  /** The comparison `a.lower() == b.lower()`. */
  predicate EqualIgnoringCase(a: string, b: string)
  {
    Lower(a) == Lower(b)
  }

  /**
   * Two strings that differ only in the case of their letters compare equal:
   * at each position the characters are the same, or one is an upper-case
   * ASCII letter and the other its lower-case form.
   */
  lemma {:induction false} CaseVariantsCompareEqual(a: string, b: string)
    requires |a| == |b|
    requires forall i :: 0 <= i < |a| ==>
      || a[i] == b[i]
      || ('A' <= a[i] <= 'Z' && b[i] as int == a[i] as int + 32)
      || ('A' <= b[i] <= 'Z' && a[i] as int == b[i] as int + 32)
    ensures EqualIgnoringCase(a, b)
  {
    assert forall i :: 0 <= i < |a| ==> Lower(a)[i] == Lower(b)[i];
  }
}
