/**
 * The email format that every entry of an organization's emails must have:
 *
 *     /.+@.+\..+/i
 *
 * The pattern is not anchored, and '.' is any character but a newline, so a
 * string is accepted when some line of it holds a character, an '@', at
 * least one character, a '.', and one more character. MatchesEmailPattern
 * reads the pattern literally; IsEmail is a six-state automaton run over the
 * string once, proved to decide it.
 */
module EmailFormat {

  /** Every character is one that '.' matches: no newline. */
  predicate IsLine(t: string) { forall i :: 0 <= i < |t| ==> t[i] != '\n' }

  predicate IsEmailSplit(s: string, before: string, local: string, domain: string, tld: string, after: string) {
    s == before + local + "@" + domain + "." + tld + after
    && |local| > 0 && IsLine(local)
    && |domain| > 0 && IsLine(domain)
    && |tld| > 0 && IsLine(tld)
  }

  /** Some substring of s is local part, '@', domain, '.', top-level part, each part non-empty. */
  ghost predicate MatchesEmailPattern(s: string) {
    exists before, local, domain, tld, after :: IsEmailSplit(s, before, local, domain, tld, after)
  }

  /** The shortest match: one character, '@' at index at, a line, '.' at index dot, one character. */
  predicate EmailAt(s: string, at: nat, dot: nat) {
    1 <= at && at + 2 <= dot && dot + 2 <= |s|
    && s[at - 1] != '\n' && s[at] == '@' && IsLine(s[at + 1..dot]) && s[dot] == '.' && s[dot + 1] != '\n'
  }

  ghost predicate HasEmailAt(s: string) {
    exists at: nat, dot: nat :: EmailAt(s, at, dot)
  }

  lemma PatternIsShortestMatch(s: string)
    ensures MatchesEmailPattern(s) <==> HasEmailAt(s)
  {
    if MatchesEmailPattern(s) {
      var before, local, domain, tld, after :| IsEmailSplit(s, before, local, domain, tld, after);
      var at := |before| + |local|;
      var dot := at + 1 + |domain|;
      assert s[at - 1] == local[|local| - 1];
      assert s[at + 1..dot] == domain;
      assert s[dot + 1] == tld[0];
      assert EmailAt(s, at, dot);
    }
    if HasEmailAt(s) {
      var at: nat, dot: nat :| EmailAt(s, at, dot);
      var before, local, domain, tld, after := s[..at - 1], [s[at - 1]], s[at + 1..dot], [s[dot + 1]], s[dot + 2..];
      assert s == before + local + "@" + domain + "." + tld + after;
      assert IsEmailSplit(s, before, local, domain, tld, after);
    }
  }

  // ---------------------------------------------------------------- the automaton

  /**
   * States: 0 nothing, 1 after a character, 2 after "x@", 3 inside the
   * domain, 4 just after a '.' in the domain, 5 accepted (final).
   */
  function Step(q: nat, c: char): nat {
    if q == 5 then 5
    else if c == '\n' then 0
    else if q == 0 then 1
    else if q == 1 then (if c == '@' then 2 else 1)
    else if q == 2 then 3
    else if q == 3 then (if c == '.' then 4 else 3)
    else 5
  }

  function Run(q: nat, s: string): nat
    decreases s
  {
    if s == [] then q else Run(Step(q, s[0]), s[1..])
  }

  predicate IsEmail(s: string) { Run(0, s) == 5 }

  // ---------------------------------------------------------------- what each state means

  /** An '@' at index at, preceded by a character, followed by a line up to the end of p. */
  ghost predicate Open(p: string, at: nat) {
    1 <= at < |p| && p[at - 1] != '\n' && p[at] == '@' && IsLine(p[at + 1..])
  }

  ghost predicate SeenChar(p: string) { |p| > 0 && p[|p| - 1] != '\n' }
  ghost predicate SeenAt(p: string) { exists at: nat :: Open(p, at) }
  ghost predicate SeenDomain(p: string) { exists at: nat :: Open(p, at) && at + 1 < |p| }
  ghost predicate SeenDot(p: string) {
    |p| > 0 && p[|p| - 1] == '.' && exists at: nat :: Open(p, at) && at + 2 < |p|
  }

  /** The state the automaton is in after reading p. */
  ghost function Level(p: string): nat {
    if HasEmailAt(p) then 5
    else if SeenDot(p) then 4
    else if SeenDomain(p) then 3
    else if SeenAt(p) then 2
    else if SeenChar(p) then 1
    else 0
  }

  lemma SeenAtSeenChar(p: string)
    requires SeenAt(p)
    ensures SeenChar(p)
  {
    var at: nat :| Open(p, at);
    if at + 1 < |p| {
      assert p[|p| - 1] == p[at + 1..][|p| - 1 - (at + 1)];
    }
  }

  lemma OpenExtend(p: string, c: char, at: nat)
    requires c != '\n' && at < |p|
    ensures Open(p + [c], at) <==> Open(p, at)
  {
    var p' := p + [c];
    if 1 <= at {
      assert p'[at + 1..] == p[at + 1..] + [c];
      if IsLine(p[at + 1..]) {
        assert IsLine(p'[at + 1..]);
      }
      var line, line' := p[at + 1..], p'[at + 1..];
      if IsLine(line') {
        forall i | 0 <= i < |line| ensures line[i] != '\n' {
          assert line[i] == line'[i];
        }
      }
    }
  }

  lemma OpenLast(p: string, c: char)
    ensures Open(p + [c], |p|) <==> c == '@' && SeenChar(p)
  {
    var p' := p + [c];
    assert p'[|p| + 1..] == [];
  }

  lemma OpenNewline(p: string, at: nat)
    ensures !Open(p + ['\n'], at)
  {
    var p' := p + ['\n'];
    if 1 <= at < |p| {
      assert p'[at + 1..][|p| - (at + 1)] == '\n';
    }
  }

  lemma MatchExtend(p: string, c: char)
    ensures HasEmailAt(p + [c]) <==> HasEmailAt(p) || (c != '\n' && SeenDot(p))
  {
    var p' := p + [c];
    if HasEmailAt(p) {
      var at: nat, dot: nat :| EmailAt(p, at, dot);
      assert p'[at + 1..dot] == p[at + 1..dot];
      assert EmailAt(p', at, dot);
    }
    if c != '\n' && SeenDot(p) {
      var at: nat :| Open(p, at) && at + 2 < |p|;
      var dot := |p| - 1;
      assert p'[at + 1..dot] == p[at + 1..][..dot - (at + 1)];
      assert EmailAt(p', at, dot);
    }
    if HasEmailAt(p') {
      var at: nat, dot: nat :| EmailAt(p', at, dot);
      if dot + 2 <= |p| {
        assert p'[at + 1..dot] == p[at + 1..dot];
        assert EmailAt(p, at, dot);
      } else {
        assert p[at + 1..] == p'[at + 1..dot] + ['.'];
        assert Open(p, at);
        assert SeenDot(p);
      }
    }
  }

  lemma LevelStepNewline(p: string)
    ensures Level(p + ['\n']) == Step(Level(p), '\n')
  {
    var p' := p + ['\n'];
    MatchExtend(p, '\n');
    forall at: nat ensures !Open(p', at) {
      OpenNewline(p, at);
    }
  }

  lemma SeenAtExtend(p: string, c: char)
    requires c != '\n'
    ensures SeenAt(p + [c]) <==> SeenAt(p) || (c == '@' && SeenChar(p))
  {
    var p' := p + [c];
    OpenLast(p, c);
    if SeenAt(p) {
      var at: nat :| Open(p, at);
      OpenExtend(p, c, at);
    }
    if SeenAt(p') {
      var at: nat :| Open(p', at);
      if at < |p| {
        OpenExtend(p, c, at);
      }
    }
  }

  lemma SeenDomainExtend(p: string, c: char)
    requires c != '\n'
    ensures SeenDomain(p + [c]) <==> SeenAt(p)
  {
    var p' := p + [c];
    if SeenAt(p) {
      var at: nat :| Open(p, at);
      OpenExtend(p, c, at);
      assert Open(p', at) && at + 1 < |p'|;
    }
    if SeenDomain(p') {
      var at: nat :| Open(p', at) && at + 1 < |p'|;
      OpenExtend(p, c, at);
    }
  }

  lemma SeenDotExtend(p: string, c: char)
    requires c != '\n'
    ensures SeenDot(p + [c]) <==> c == '.' && SeenDomain(p)
  {
    var p' := p + [c];
    if c == '.' && SeenDomain(p) {
      var at: nat :| Open(p, at) && at + 1 < |p|;
      OpenExtend(p, c, at);
      assert Open(p', at) && at + 2 < |p'|;
    }
    if SeenDot(p') {
      var at: nat :| Open(p', at) && at + 2 < |p'|;
      OpenExtend(p, c, at);
      assert Open(p, at) && at + 1 < |p|;
    }
  }

  lemma LevelStepChar(p: string, c: char)
    requires c != '\n'
    ensures Level(p + [c]) == Step(Level(p), c)
  {
    var p' := p + [c];
    MatchExtend(p, c);
    SeenAtExtend(p, c);
    SeenDomainExtend(p, c);
    SeenDotExtend(p, c);
    if SeenAt(p) {
      SeenAtSeenChar(p);
    }
    assert SeenChar(p');
  }

  lemma LevelStep(p: string, c: char)
    ensures Level(p + [c]) == Step(Level(p), c)
  {
    if c == '\n' {
      LevelStepNewline(p);
    } else {
      LevelStepChar(p, c);
    }
  }

  lemma {:induction false} RunTracksLevel(p: string, rest: string)
    ensures Run(Level(p), rest) == Level(p + rest)
    decreases |rest|
  {
    if rest == [] {
      assert p + rest == p;
    } else {
      LevelStep(p, rest[0]);
      RunTracksLevel(p + [rest[0]], rest[1..]);
      assert p + [rest[0]] + rest[1..] == p + rest;
    }
  }

  /** The automaton accepts exactly the strings the pattern matches. */
  lemma RecogniserCorrect(s: string)
    ensures IsEmail(s) <==> MatchesEmailPattern(s)
  {
    assert Level([]) == 0;
    RunTracksLevel([], s);
    assert [] + s == s;
    PatternIsShortestMatch(s);
  }

  // ---------------------------------------------------------------- examples

  lemma EmailExampleAccepted()
    ensures MatchesEmailPattern("a@b.com")
  {
    assert IsEmailSplit("a@b.com", "", "a", "b", "c", "om");
  }

  lemma EmailExampleRejected()
    ensures !MatchesEmailPattern("not-an-email")
  {
    var s := "not-an-email";
    assert forall i :: 0 <= i < |s| ==> s[i] != '@';
    PatternIsShortestMatch(s);
  }
}
