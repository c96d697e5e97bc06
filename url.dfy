/**
 * The URL format that every entry of an organization's urls must have:
 *
 *     (?:(?:http|https):\/\/)?([-a-zA-Z0-9.]{2,256}\.[a-z]{2,4})\b(?:\/[-a-zA-Z0-9@:%_\+.~#?&\/\/=]*)?
 *
 * with the /i flag and no anchors. MatchesUrlPattern reads the pattern
 * literally, as a split of some substring into scheme, host, '.', top-level
 * domain and path; IsUrl looks at each '.' of the string, and is proved to
 * decide the pattern. The proof shows that the optional scheme, the optional
 * path and the 256-character cap on the host never decide acceptance.
 */
module UrlFormat {
  import opened Text

  /** The class [-a-zA-Z0-9.]. */
  predicate IsHostChar(c: char) { c == '-' || IsLetter(c) || IsDigit(c) || c == '.' }

  /** The class [-a-zA-Z0-9@:%_\+.~#?&\/\/=]. */
  predicate IsPathChar(c: char) {
    c == '-' || IsLetter(c) || IsDigit(c) || c == '@' || c == ':' || c == '%' || c == '_'
    || c == '+' || c == '.' || c == '~' || c == '#' || c == '?' || c == '&' || c == '/' || c == '='
  }

  predicate AllHostChars(x: string) { forall i :: 0 <= i < |x| ==> IsHostChar(x[i]) }

  /** (?:(?:http|https):\/\/)? under /i. */
  predicate IsScheme(x: string) { x == [] || Lower(x) == "http://" || Lower(x) == "https://" }

  /** (?:\/[...]*)? */
  predicate IsPath(x: string) { x == [] || (x[0] == '/' && forall i :: 1 <= i < |x| ==> IsPathChar(x[i])) }

  /** \b after a letter: the end of the string or a character outside \w. */
  predicate AtWordBoundary(rest: string) { rest == [] || !IsWordChar(rest[0]) }

  predicate IsUrlSplit(s: string, before: string, scheme: string, host: string, tld: string, path: string, after: string) {
    s == before + (scheme + (host + ("." + (tld + (path + after)))))
    && IsScheme(scheme)
    && 2 <= |host| <= 256 && AllHostChars(host)
    && 2 <= |tld| <= 4 && AllLetters(tld)
    && AtWordBoundary(path + after)
    && IsPath(path)
  }

  ghost predicate MatchesUrlPattern(s: string) {
    exists before, scheme, host, tld, path, after :: IsUrlSplit(s, before, scheme, host, tld, path, after)
  }

  // ---------------------------------------------------------------- recogniser

  /** The number of letters in the run that starts at index i. */
  function LetterRun(s: string, i: nat): (n: nat)
    requires i <= |s|
    ensures i + n <= |s| && AllLetters(s[i..i + n])
    ensures i + n == |s| || !IsLetter(s[i + n])
    decreases |s| - i
  {
    if i < |s| && IsLetter(s[i]) then
      var n := 1 + LetterRun(s, i + 1);
      assert s[i..i + n] == [s[i]] + s[i + 1..i + n];
      n
    else 0
  }

  /**
   * The '.' at index m ends a host of two characters or more and starts a
   * run of two to four letters that ends at a word boundary.
   */
  predicate UrlDotAt(s: string, m: nat) {
    2 <= m < |s| && s[m] == '.' && IsHostChar(s[m - 2]) && IsHostChar(s[m - 1])
    && var n := LetterRun(s, m + 1);
       2 <= n <= 4 && (m + 1 + n == |s| || !IsWordChar(s[m + 1 + n]))
  }

  predicate IsUrl(s: string) {
    exists m: nat :: m < |s| && UrlDotAt(s, m)
  }

  /** Cutting the suffix s[i..] at j. */
  lemma CutAt(s: string, i: nat, j: nat)
    requires i <= j <= |s|
    ensures s[i..] == s[i..j] + s[j..]
  {
    var u := s[i..];
    assert u[..j - i] == s[i..j] && u[j - i..] == s[j..];
    assert u == u[..j - i] + u[j - i..];
  }

  /** s cut around the '.' at m and after the n letters that follow it. */
  lemma CutAroundDot(s: string, m: nat, n: nat)
    requires 2 <= m && m + 1 + n <= |s| && s[m] == '.'
    ensures s == s[..m - 2] + (s[m - 2..m] + ("." + (s[m + 1..m + 1 + n] + s[m + 1 + n..])))
  {
    assert s == s[..m - 2] + s[m - 2..];
    CutAt(s, m - 2, m);
    CutAt(s, m, m + 1);
    assert s[m..m + 1] == ".";
    CutAt(s, m + 1, m + 1 + n);
  }

  /** A split with neither scheme nor path. */
  lemma BareSplit(s: string, before: string, host: string, tld: string, after: string)
    requires s == before + (host + ("." + (tld + after)))
    requires 2 <= |host| <= 256 && AllHostChars(host)
    requires 2 <= |tld| <= 4 && AllLetters(tld) && AtWordBoundary(after)
    ensures MatchesUrlPattern(s)
  {
    assert [] + after == after;
    assert [] + (host + ("." + (tld + ([] + after)))) == host + ("." + (tld + after));
    assert IsUrlSplit(s, before, [], host, tld, [], after);
  }

  /** The two characters before the dot, as a host. */
  lemma HostBefore(s: string, m: nat)
    requires 2 <= m <= |s| && IsHostChar(s[m - 2]) && IsHostChar(s[m - 1])
    ensures AllHostChars(s[m - 2..m])
  {
    var host := s[m - 2..m];
    assert host[0] == s[m - 2] && host[1] == s[m - 1];
  }

  lemma RecogniserSound(s: string, m: nat)
    requires UrlDotAt(s, m)
    ensures MatchesUrlPattern(s)
  {
    var n := LetterRun(s, m + 1);
    CutAroundDot(s, m, n);
    HostBefore(s, m);
    var after := s[m + 1 + n..];
    assert after != [] ==> after[0] == s[m + 1 + n];
    BareSplit(s, s[..m - 2], s[m - 2..m], s[m + 1..m + 1 + n], after);
  }

  /** A run of letters followed by a non-letter is read with exactly its length. */
  lemma {:induction false} LetterRunOf(s: string, i: nat, tld: string, rest: string)
    requires i <= |s| && s[i..] == tld + rest && AllLetters(tld)
    requires rest == [] || !IsLetter(rest[0])
    ensures LetterRun(s, i) == |tld|
    decreases |tld|
  {
    if tld == [] {
      assert s[i..] == rest;
    } else {
      assert s[i] == tld[0];
      assert s[i + 1..] == tld[1..] + rest;
      LetterRunOf(s, i + 1, tld[1..], rest);
    }
  }

  lemma DropPrefix(p: string, q: string)
    ensures (p + q)[|p|..] == q
  {
  }

  /** Where the '.' after a host sits, and what surrounds it. */
  lemma DotPosition(s: string, p1: string, p2: string, host: string, post: string)
    requires s == p1 + (p2 + (host + ("." + post))) && |host| >= 2 && AllHostChars(host)
    ensures var m := |p1| + |p2| + |host|;
      2 <= m < |s| && IsHostChar(s[m - 2]) && IsHostChar(s[m - 1]) && s[m] == '.' && s[m + 1..] == post
  {
    var dotted := "." + post;
    var hosted := host + dotted;
    var m := |p1| + |p2| + |host|;
    DropPrefix(p1, p2 + hosted);
    DropPrefix(p2, hosted);
    assert s[|p1| + |p2|..] == hosted;
    assert s[m - 2] == hosted[|host| - 2] && s[m - 1] == hosted[|host| - 1];
    DropPrefix(host, dotted);
    assert s[m..] == dotted;
  }

  /** What follows a run read from s[i..] == tld + rest is what starts rest. */
  lemma BoundaryAfter(s: string, i: nat, tld: string, rest: string)
    requires i <= |s| && s[i..] == tld + rest && AtWordBoundary(rest)
    ensures i + |tld| == |s| || !IsWordChar(s[i + |tld|])
  {
    if i + |tld| < |s| {
      assert s[i + |tld|] == s[i..][|tld|];
    }
  }

  /** A dot between host characters, followed by 2 to 4 letters and a word boundary. */
  lemma DotOf(s: string, m: nat, tld: string, rest: string)
    requires 2 <= m < |s| && IsHostChar(s[m - 2]) && IsHostChar(s[m - 1]) && s[m] == '.'
    requires s[m + 1..] == tld + rest && 2 <= |tld| <= 4 && AllLetters(tld) && AtWordBoundary(rest)
    ensures UrlDotAt(s, m)
  {
    LetterRunOf(s, m + 1, tld, rest);
    BoundaryAfter(s, m + 1, tld, rest);
  }

  lemma RecogniserComplete(s: string, before: string, scheme: string, host: string, tld: string, path: string, after: string)
    requires IsUrlSplit(s, before, scheme, host, tld, path, after)
    ensures IsUrl(s)
  {
    DotPosition(s, before, scheme, host, tld + (path + after));
    DotOf(s, |before| + |scheme| + |host|, tld, path + after);
  }

  /** IsUrl decides exactly the unanchored pattern. */
  lemma RecogniserCorrect(s: string)
    ensures IsUrl(s) <==> MatchesUrlPattern(s)
  {
    if IsUrl(s) {
      var m: nat :| m < |s| && UrlDotAt(s, m);
      RecogniserSound(s, m);
    }
    if MatchesUrlPattern(s) {
      var before, scheme, host, tld, path, after :| IsUrlSplit(s, before, scheme, host, tld, path, after);
      RecogniserComplete(s, before, scheme, host, tld, path, after);
    }
  }

  // ---------------------------------------------------------------- examples

  lemma UrlExampleWithSchemeAndPath()
    ensures MatchesUrlPattern("http://smc.org/x")
  {
    var s := "http://smc.org/x";
    assert Lower("http://") == "http://";
    assert s == "" + ("http://" + ("smc" + ("." + ("org" + ("/x" + "")))));
    assert IsUrlSplit(s, "", "http://", "smc", "org", "/x", "");
  }

  lemma UrlExampleLongTopLevelDomain()
    ensures !IsUrl("ab.museum")
  {
    var s := "ab.museum";
    assert LetterRun(s, 9) == 0;
    assert LetterRun(s, 8) == 1;
    assert LetterRun(s, 7) == 2;
    assert LetterRun(s, 6) == 3;
    assert LetterRun(s, 5) == 4;
    assert LetterRun(s, 4) == 5;
    assert LetterRun(s, 3) == 6;
    forall m: nat | m < |s| ensures !UrlDotAt(s, m) {
      if m != 2 {
        assert s[m] != '.';
      }
    }
  }
}
