/**
 * Character classes and `str.strip()`, as the form handlers use them to clean
 * the submitted fields.
 */
module Text {

  /** Python's `str.isspace()`: the characters `str.strip()` removes. */
  predicate IsSpace(c: char) {
    || c == ' '
    || ('\t' <= c <= '\r')                    // tab, line feed, vertical tab, form feed, carriage return
    || ('\U{1C}' <= c <= '\U{1F}')            // file, group, record and unit separators
    || c == '\U{85}' || c == '\U{A0}' || c == '\U{1680}'
    || ('\U{2000}' <= c <= '\U{200A}')
    || c == '\U{2028}' || c == '\U{2029}' || c == '\U{202F}' || c == '\U{205F}' || c == '\U{3000}'
  }

  /** An ASCII decimal digit. */
  predicate IsDigit(c: char) {
    '0' <= c <= '9'
  }

  function DigitValue(c: char): (v: nat)
    requires IsDigit(c)
    ensures v < 10
  {
    (c as int) - ('0' as int)
  }

  function DigitChar(v: nat): (c: char)
    requires v < 10
    ensures IsDigit(c) && DigitValue(c) == v
  {
    (('0' as int) + v) as char
  }

  /** The number of whitespace characters at the front of `s`. */
  function LeadingSpace(s: string): (n: nat)
    ensures n <= |s|
    ensures forall i :: 0 <= i < n ==> IsSpace(s[i])
    ensures n < |s| ==> !IsSpace(s[n])
  {
    if s == [] || !IsSpace(s[0]) then 0 else 1 + LeadingSpace(s[1..])
  }

  /** The number of whitespace characters at the back of `s`. */
  function TrailingSpace(s: string): (n: nat)
    ensures n <= |s|
    ensures forall i :: |s| - n <= i < |s| ==> IsSpace(s[i])
    ensures n < |s| ==> !IsSpace(s[|s| - n - 1])
  {
    if s == [] || !IsSpace(s[|s| - 1]) then 0 else 1 + TrailingSpace(s[..|s| - 1])
  }

  /** `s[lo..hi]` is `s` with its leading and trailing whitespace removed. */
  ghost predicate StrippedAt(s: string, lo: int, hi: int) {
    && 0 <= lo <= hi <= |s|
    && (forall i :: 0 <= i < lo ==> IsSpace(s[i]))
    && (forall i :: hi <= i < |s| ==> IsSpace(s[i]))
    && (lo < hi ==> !IsSpace(s[lo]) && !IsSpace(s[hi - 1]))
  }

  /** Python's `str.strip()` with no argument: `r` starts at the first non-whitespace character. */
  function Strip(s: string): (r: string)
    ensures LeadingSpace(s) + |r| <= |s|
    ensures StrippedAt(s, LeadingSpace(s), LeadingSpace(s) + |r|)
    ensures r == s[LeadingSpace(s)..LeadingSpace(s) + |r|]
  {
    var lo := LeadingSpace(s);
    var hi := |s| - TrailingSpace(s);
    if hi <= lo then [] else s[lo..hi]
  }

  /** A non-empty stripped range is determined by the string. */
  lemma StrippedAtNonEmpty(s: string, lo: int, hi: int, lo': int, hi': int)
    requires StrippedAt(s, lo, hi) && StrippedAt(s, lo', hi')
    ensures lo < hi ==> lo == lo' && hi == hi'
  {
    if lo < hi {
      assert !IsSpace(s[lo]) && !IsSpace(s[hi - 1]);
      assert lo' <= lo < hi';
      assert !IsSpace(s[lo']) && !IsSpace(s[hi' - 1]);
    }
  }

  /** At most one stripped range exists. */
  lemma StrippedAtUnique(s: string, lo: int, hi: int, lo': int, hi': int)
    requires StrippedAt(s, lo, hi) && StrippedAt(s, lo', hi')
    ensures s[lo..hi] == s[lo'..hi']
  {
    StrippedAtNonEmpty(s, lo, hi, lo', hi');
    StrippedAtNonEmpty(s, lo', hi', lo, hi);
  }

  /** The stripped text is empty exactly when the whole input is whitespace. */
  lemma StripEmpty(s: string)
    ensures Strip(s) == [] <==> forall i :: 0 <= i < |s| ==> IsSpace(s[i])
  {
    var lo := LeadingSpace(s);
    if Strip(s) != [] {
      assert !IsSpace(s[lo]);
    }
  }

  /** A value with no whitespace at either end is left as it is. */
  lemma StripKeeps(s: string)
    requires s == [] || (!IsSpace(s[0]) && !IsSpace(s[|s| - 1]))
    ensures Strip(s) == s
  {
    StrippedAtUnique(s, LeadingSpace(s), LeadingSpace(s) + |Strip(s)|, 0, |s|);
    assert s[0..|s|] == s;
  }

  /** Stripping twice is stripping once. */
  lemma StripIdempotent(s: string)
    ensures Strip(Strip(s)) == Strip(s)
  {
    var t := Strip(s);
    var lo := LeadingSpace(s);
    if t != [] {
      assert t[0] == s[lo] && t[|t| - 1] == s[lo + |t| - 1];
    }
    StrippedAtUnique(t, LeadingSpace(t), LeadingSpace(t) + |Strip(t)|, 0, |t|);
    assert t[0..|t|] == t;
  }
}
