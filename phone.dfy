/**
 * The US phone format that each entry of an organization's phones must have
 * unless it is blank:
 *
 *     \A(\((\d{3})\)|\d{3})[ |\.|\-]?(\d{3})[ |\.|\-]?(\d{4})\z
 *
 * MatchesPhonePattern reads the pattern literally, as a split of the string
 * into its five parts; IsPhone is a left-to-right recogniser that decides it.
 */
module PhoneFormat {
  import opened Text

  /** The class [ |\.|\-]: a space, '|', '.' or '-' (inside a class '|' is literal). */
  predicate IsSeparator(c: char) { c == ' ' || c == '|' || c == '.' || c == '-' }

  /** \d{n} */
  predicate IsDigits(s: string, n: nat) { |s| == n && AllDigits(s) }

  /** (\((\d{3})\)|\d{3}) */
  predicate IsAreaCode(a: string) {
    IsDigits(a, 3) || (|a| == 5 && a[0] == '(' && IsDigits(a[1..4], 3) && a[4] == ')')
  }

  /** [ |\.|\-]? */
  predicate IsOptionalSeparator(p: string) { p == [] || (|p| == 1 && IsSeparator(p[0])) }

  predicate IsPhoneSplit(s: string, area: string, sep1: string, exchange: string, sep2: string, line: string) {
    s == area + (sep1 + (exchange + (sep2 + line)))
    && IsAreaCode(area) && IsOptionalSeparator(sep1) && IsDigits(exchange, 3)
    && IsOptionalSeparator(sep2) && IsDigits(line, 4)
  }

  /** The anchored pattern: the whole string is area code, separator, 3 digits, separator, 4 digits. */
  ghost predicate MatchesPhonePattern(s: string) {
    exists area, sep1, exchange, sep2, line :: IsPhoneSplit(s, area, sep1, exchange, sep2, line)
  }

  // ---------------------------------------------------------------- recogniser

  predicate DigitsAt(s: string, i: nat, n: nat) { i + n <= |s| && IsDigits(s[i..i + n], n) }

  /** The length of the area code that starts s, or 0 when s does not start with one. */
  function AreaCodeLength(s: string): (n: nat)
    ensures n <= |s|
    ensures n > 0 ==> IsAreaCode(s[..n])
  {
    if |s| >= 5 && s[0] == '(' && DigitsAt(s, 1, 3) && s[4] == ')' then
      assert s[..5][1..4] == s[1..4];
      5
    else if DigitsAt(s, 0, 3) then 3
    else 0
  }

  /** The length of the optional separator that starts t, read greedily as `?` does. */
  function SeparatorLength(t: string): (n: nat)
    ensures n <= |t| && IsOptionalSeparator(t[..n])
    ensures n == 0 ==> |t| == 0 || !IsSeparator(t[0])
  {
    if |t| > 0 && IsSeparator(t[0]) then 1 else 0
  }

  /** After the exchange: an optional separator, then exactly 4 digits. */
  predicate IsLineTail(t: string) {
    var c := SeparatorLength(t);
    IsDigits(t[c..], 4)
  }

  /** After the area code: an optional separator, 3 digits, then a line tail. */
  predicate IsPhoneTail(t: string) {
    var u := t[SeparatorLength(t)..];
    |u| >= 3 && IsDigits(u[..3], 3) && IsLineTail(u[3..])
  }

  /** Reads the area code, then the rest of the number. */
  predicate IsPhone(s: string) {
    var a := AreaCodeLength(s);
    a > 0 && IsPhoneTail(s[a..])
  }

  // A separator is never a digit, so an optional separator followed by a
  // digit is read with exactly its own length.
  lemma SeparatorLengthOf(sep: string, next: string)
    requires IsOptionalSeparator(sep) && |next| > 0 && IsDigit(next[0])
    ensures SeparatorLength(sep + next) == |sep|
    ensures (sep + next)[|sep|..] == next
  {
    assert (sep + next)[|sep|] == next[0];
  }

  lemma SplitAt(u: string, k: nat)
    requires k <= |u|
    ensures u == u[..k] + u[k..]
  {
  }

  lemma LineTailSound(t: string) returns (sep2: string, line: string)
    requires IsLineTail(t)
    ensures t == sep2 + line && IsOptionalSeparator(sep2) && IsDigits(line, 4)
  {
    var c := SeparatorLength(t);
    sep2, line := t[..c], t[c..];
  }

  lemma PhoneTailSound(t: string) returns (sep1: string, exchange: string, sep2: string, line: string)
    requires IsPhoneTail(t)
    ensures t == sep1 + (exchange + (sep2 + line))
    ensures IsOptionalSeparator(sep1) && IsDigits(exchange, 3)
    ensures IsOptionalSeparator(sep2) && IsDigits(line, 4)
  {
    var b := SeparatorLength(t);
    var u := t[b..];
    sep1, exchange := t[..b], u[..3];
    sep2, line := LineTailSound(u[3..]);
    SplitAt(u, 3);
    SplitAt(t, b);
  }

  lemma RecogniserSound(s: string)
    requires IsPhone(s)
    ensures MatchesPhonePattern(s)
  {
    var a := AreaCodeLength(s);
    var sep1, exchange, sep2, line := PhoneTailSound(s[a..]);
    SplitAt(s, a);
    assert IsPhoneSplit(s, s[..a], sep1, exchange, sep2, line);
  }

  lemma AreaCodeLengthOf(area: string, rest: string)
    requires IsAreaCode(area)
    ensures AreaCodeLength(area + rest) == |area|
    ensures (area + rest)[|area|..] == rest
  {
    var s := area + rest;
    if |area| == 5 {
      assert s[1..4] == area[1..4];
    } else {
      assert s[..3] == area;
      assert IsDigit(s[0]);
    }
  }

  lemma LineTailComplete(sep2: string, line: string)
    requires IsOptionalSeparator(sep2) && IsDigits(line, 4)
    ensures IsLineTail(sep2 + line)
  {
    SeparatorLengthOf(sep2, line);
  }

  lemma PhoneTailComplete(sep1: string, exchange: string, sep2: string, line: string)
    requires IsOptionalSeparator(sep1) && IsDigits(exchange, 3)
    requires IsOptionalSeparator(sep2) && IsDigits(line, 4)
    ensures IsPhoneTail(sep1 + (exchange + (sep2 + line)))
  {
    var u := exchange + (sep2 + line);
    SeparatorLengthOf(sep1, u);
    assert u[..3] == exchange && u[3..] == sep2 + line;
    LineTailComplete(sep2, line);
  }

  lemma RecogniserComplete(s: string, area: string, sep1: string, exchange: string, sep2: string, line: string)
    requires IsPhoneSplit(s, area, sep1, exchange, sep2, line)
    ensures IsPhone(s)
  {
    var rest := sep1 + (exchange + (sep2 + line));
    assert s == area + rest;
    AreaCodeLengthOf(area, rest);
    PhoneTailComplete(sep1, exchange, sep2, line);
  }

  /** The recogniser decides exactly the anchored pattern. */
  lemma RecogniserCorrect(s: string)
    ensures IsPhone(s) <==> MatchesPhonePattern(s)
  {
    if IsPhone(s) {
      RecogniserSound(s);
    }
    if MatchesPhonePattern(s) {
      var area, sep1, exchange, sep2, line :| IsPhoneSplit(s, area, sep1, exchange, sep2, line);
      RecogniserComplete(s, area, sep1, exchange, sep2, line);
    }
  }

  // ---------------------------------------------------------------- shape of an accepted number

  function DigitCount(s: string): nat {
    if s == [] then 0 else (if IsDigit(s[0]) then 1 else 0) + DigitCount(s[1..])
  }

  lemma {:induction false} DigitCountConcat(a: string, b: string)
    ensures DigitCount(a + b) == DigitCount(a) + DigitCount(b)
  {
    if a == [] {
      assert a + b == b;
    } else {
      assert (a + b)[1..] == a[1..] + b;
      DigitCountConcat(a[1..], b);
    }
  }

  lemma {:induction false} DigitCountOfDigits(s: string)
    requires AllDigits(s)
    ensures DigitCount(s) == |s|
  {
    if s != [] {
      DigitCountOfDigits(s[1..]);
    }
  }

  lemma AreaCodeDigits(area: string)
    requires IsAreaCode(area)
    ensures DigitCount(area) == 3
  {
    if IsDigits(area, 3) {
      DigitCountOfDigits(area);
    } else {
      assert area == [area[0]] + area[1..4] + [area[4]];
      DigitCountConcat([area[0]] + area[1..4], [area[4]]);
      DigitCountConcat([area[0]], area[1..4]);
      DigitCountOfDigits(area[1..4]);
    }
  }

  /**
   * Every accepted phone number holds exactly ten decimal digits, and it is
   * 10 characters long (bare) to 14 (parenthesised, two separators).
   */
  lemma PhoneShape(s: string)
    requires MatchesPhonePattern(s)
    ensures DigitCount(s) == 10
    ensures 10 <= |s| <= 14
  {
    var area, sep1, exchange, sep2, line :| IsPhoneSplit(s, area, sep1, exchange, sep2, line);
    DigitCountConcat(area, sep1 + (exchange + (sep2 + line)));
    DigitCountConcat(sep1, exchange + (sep2 + line));
    DigitCountConcat(exchange, sep2 + line);
    DigitCountConcat(sep2, line);
    AreaCodeDigits(area);
    DigitCountOfDigits(exchange);
    DigitCountOfDigits(line);
  }

  lemma PhoneExampleParenthesised()
    ensures IsPhone("(650) 555-1234")
  {
    assert "(650)"[1..4] == "650";
    assert IsPhoneSplit("(650) 555-1234", "(650)", " ", "555", "-", "1234");
    RecogniserComplete("(650) 555-1234", "(650)", " ", "555", "-", "1234");
  }

  lemma PhoneExampleBars()
    ensures IsPhone("650|555|1234")
  {
    assert IsPhoneSplit("650|555|1234", "650", "|", "555", "|", "1234");
    RecogniserComplete("650|555|1234", "650", "|", "555", "|", "1234");
  }

  lemma PhoneExampleBare()
    ensures IsPhone("6505551234")
  {
    assert IsPhoneSplit("6505551234", "650", "", "555", "", "1234");
    RecogniserComplete("6505551234", "650", "", "555", "", "1234");
  }

  /** Too few digits. */
  lemma PhoneExampleTooShort()
    ensures !IsPhone("555-12")
  {
    assert "555-12"[..3] == "555";
    assert AreaCodeLength("555-12") == 3;
    assert "555-12"[3..] == "-12";
  }

  /** An unclosed parenthesis. */
  lemma PhoneExampleUnclosed()
    ensures !IsPhone("(650555-1234")
  {
    var s := "(650555-1234";
    assert s[4] == '5';
    assert s[..3][0] == '(';
    assert AreaCodeLength(s) == 0;
  }

  /** Two separators in a row. */
  lemma PhoneExampleDoubleSeparator()
    ensures !IsPhone("650  555-1234")
  {
    var s := "650  555-1234";
    assert s[..3] == "650";
    assert AreaCodeLength(s) == 3;
    assert s[3..] == "  555-1234";
    assert "  555-1234"[1..4][0] == ' ';
  }
}
