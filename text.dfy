/**
 * Characters and strings as the Organization model sees them: the ASCII
 * classes its regular expressions use, Rails' notion of a blank value,
 * Ruby's String#strip, and case-insensitive substring search.
 */
module Text {
  import opened Wrappers

  predicate IsDigit(c: char) { '0' <= c <= '9' }
  predicate IsUpper(c: char) { 'A' <= c <= 'Z' }
  predicate IsLower(c: char) { 'a' <= c <= 'z' }
  predicate IsLetter(c: char) { IsUpper(c) || IsLower(c) }

  /** The regex class \w: the characters on the inside of a word boundary \b. */
  predicate IsWordChar(c: char) { IsLetter(c) || IsDigit(c) || c == '_' }

  predicate AllDigits(s: string) { forall i :: 0 <= i < |s| ==> IsDigit(s[i]) }
  predicate AllLetters(s: string) { forall i :: 0 <= i < |s| ==> IsLetter(s[i]) }

  // ---------------------------------------------------------------- blank?

  /** The POSIX class [[:space:]] on a Unicode string: the White_Space property. */
  predicate IsUnicodeSpace(c: char) {
    ('\t' <= c <= '\r') || c == ' ' || c == '\U{0085}' || c == '\U{00A0}' || c == '\U{1680}'
    || ('\U{2000}' <= c <= '\U{200A}') || c == '\U{2028}' || c == '\U{2029}'
    || c == '\U{202F}' || c == '\U{205F}' || c == '\U{3000}'
  }

  /** Rails' blank? on a string attribute: nil, empty, or whitespace only. */
  predicate IsBlank(s: Option<string>) {
    match s
    case None => true
    case Some(t) => forall i :: 0 <= i < |t| ==> IsUnicodeSpace(t[i])
  }

  predicate IsBlankString(t: string) { IsBlank(Some(t)) }

  // ---------------------------------------------------------------- strip

  /** The characters String#strip removes: NUL and ASCII whitespace. */
  predicate IsStripChar(c: char) { c == '\0' || ('\t' <= c <= '\r') || c == ' ' }

  predicate AllStripChars(s: string) { forall i :: 0 <= i < |s| ==> IsStripChar(s[i]) }

  /** The length of the run of strip characters at the start of s. */
  function LeadingLength(s: string): (k: nat)
    ensures k <= |s| && AllStripChars(s[..k])
    ensures k < |s| ==> !IsStripChar(s[k])
  {
    if |s| > 0 && IsStripChar(s[0]) then
      var k := 1 + LeadingLength(s[1..]);
      assert s[..k] == [s[0]] + s[1..][..k - 1];
      k
    else 0
  }

  /** Where the run of strip characters at the end of s begins. */
  function TrailingStart(s: string): (k: nat)
    ensures k <= |s| && AllStripChars(s[k..])
    ensures k > 0 ==> !IsStripChar(s[k - 1])
  {
    if |s| > 0 && IsStripChar(s[|s| - 1]) then
      var k := TrailingStart(s[..|s| - 1]);
      assert s[k..] == s[..|s| - 1][k..] + [s[|s| - 1]];
      k
    else |s|
  }

  /**
   * String#strip: the infix of s left once the runs of strip characters at
   * both ends are removed.
   */
  function Strip(s: string): (r: string)
    ensures exists i, j :: 0 <= i <= j <= |s| && r == s[i..j]
                           && AllStripChars(s[..i]) && AllStripChars(s[j..])
    ensures r == [] || (!IsStripChar(r[0]) && !IsStripChar(r[|r| - 1]))
  {
    var i := LeadingLength(s);
    var t := s[i..];
    var j := TrailingStart(t);
    assert t[..j] == s[i..i + j];
    assert t[j..] == s[i + j..];
    t[..j]
  }

  /** A string that neither starts nor ends with a strip character is its own strip. */
  lemma StripStripped(s: string)
    requires s == [] || (!IsStripChar(s[0]) && !IsStripChar(s[|s| - 1]))
    ensures Strip(s) == s
  {
    if |s| > 0 {
      assert LeadingLength(s) == 0;
      assert TrailingStart(s) == |s|;
    }
  }

  lemma StripIdempotent(s: string)
    ensures Strip(Strip(s)) == Strip(s)
  {
    StripStripped(Strip(s));
  }

  // ---------------------------------------------------------------- case folding

  /** The case folding of a case-insensitive (/i) match, on ASCII letters. */
  function Fold(c: char): (d: char)
    ensures !IsUpper(d)
    ensures IsLetter(d) <==> IsLetter(c)
    ensures IsUpper(c) ==> d as int - 'a' as int == c as int - 'A' as int
    ensures !IsUpper(c) ==> d == c
  {
    if IsUpper(c) then (c as int + 32) as char else c
  }

  /** s with every upper-case letter replaced by its lower-case letter. */
  function Lower(s: string): (r: string)
    ensures |r| == |s|
    ensures forall i :: 0 <= i < |r| ==> !IsUpper(r[i])
    ensures forall i :: 0 <= i < |r| ==> Fold(r[i]) == Fold(s[i])
    ensures forall i :: 0 <= i < |s| && !IsUpper(s[i]) ==> r[i] == s[i]
  {
    seq(|s|, i requires 0 <= i < |s| => Fold(s[i]))
  }

  lemma FoldIdempotent(c: char)
    ensures Fold(Fold(c)) == Fold(c)
  {
  }

  /** Lower-casing twice is lower-casing once. */
  lemma LowerIdempotent(s: string)
    ensures Lower(Lower(s)) == Lower(s)
  {
  }

  /** A string with no upper-case letter is its own lower-case form. */
  lemma LowerOfLowerCase(s: string)
    requires forall i :: 0 <= i < |s| ==> !IsUpper(s[i])
    ensures Lower(s) == s
  {
  }

  // ---------------------------------------------------------------- substring search

  /** The unanchored regex /q/i, q free of metacharacters, matches s at position i. */
  predicate MatchesAtIgnoringCase(s: string, q: string, i: nat) {
    i + |q| <= |s| && forall k :: 0 <= k < |q| ==> Fold(s[i + k]) == Fold(q[k])
  }

  /** The unanchored regex /q/i, q free of metacharacters, matches somewhere in s. */
  predicate ContainsIgnoringCase(s: string, q: string) {
    exists i: nat :: i <= |s| && MatchesAtIgnoringCase(s, q, i)
  }

  /** sub occurs in s at position i. */
  predicate OccursAt(s: string, sub: string, i: nat) {
    i + |sub| <= |s| && s[i..i + |sub|] == sub
  }

  predicate Contains(s: string, sub: string) {
    exists i: nat :: i <= |s| && OccursAt(s, sub, i)
  }

  /** Case-insensitive search is ordinary substring search on the folded strings. */
  lemma ContainsIgnoringCaseIsFoldedSearch(s: string, q: string)
    ensures ContainsIgnoringCase(s, q) <==> Contains(Lower(s), Lower(q))
  {
    var ls, lq := Lower(s), Lower(q);
    forall i: nat | i + |q| <= |s|
      ensures MatchesAtIgnoringCase(s, q, i) <==> OccursAt(ls, lq, i)
    {
      if MatchesAtIgnoringCase(s, q, i) {
        assert forall k :: 0 <= k < |q| ==> ls[i..i + |q|][k] == lq[k];
      }
      if ls[i..i + |q|] == lq {
        forall k | 0 <= k < |q| ensures Fold(s[i + k]) == Fold(q[k]) {
          assert ls[i..i + |q|][k] == lq[k];
        }
      }
    }
  }

  /** The case of the query never matters. */
  lemma ContainsIgnoringCaseOfLower(s: string, q: string)
    ensures ContainsIgnoringCase(s, Lower(q)) <==> ContainsIgnoringCase(s, q)
  {
    var lq := Lower(q);
    forall i: nat | i <= |s|
      ensures MatchesAtIgnoringCase(s, lq, i) <==> MatchesAtIgnoringCase(s, q, i)
    {
      forall k | 0 <= k < |q| ensures Fold(lq[k]) == Fold(q[k]) {
        FoldIdempotent(q[k]);
      }
    }
  }

  /** The empty query matches every string, the empty one included. */
  lemma ContainsEmpty(s: string)
    ensures ContainsIgnoringCase(s, [])
  {
    assert MatchesAtIgnoringCase(s, [], 0);
  }
}
