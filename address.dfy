/**
 * The one-line address "street, city, state zipcode" that an organization
 * hands to the geocoder, and a parser that recovers its parts.
 */
module Addresses {
  import opened Wrappers

  /** The four parts of an address as they are interpolated. */
  datatype AddressParts = AddressParts(street: string, city: string, state: string, zipcode: string)

  function FormatAddress(p: AddressParts): string {
    p.street + ", " + p.city + ", " + p.state + " " + p.zipcode
  }

  predicate NoChar(s: string, c: char) { forall i :: 0 <= i < |s| ==> s[i] != c }

  /** The first index of c in s, or |s| when c does not occur. */
  function IndexOf(s: string, c: char): (k: nat)
    ensures k <= |s| && NoChar(s[..k], c) && (k < |s| ==> s[k] == c)
  {
    if s == [] || s[0] == c then 0
    else
      var k := 1 + IndexOf(s[1..], c);
      assert s[..k] == [s[0]] + s[1..][..k - 1];
      k
  }

  lemma {:induction false} IndexOfFirst(x: string, c: char, y: string)
    requires NoChar(x, c)
    ensures IndexOf(x + [c] + y, c) == |x|
  {
    if x != [] {
      assert (x + [c] + y)[1..] == x[1..] + [c] + y;
      IndexOfFirst(x[1..], c, y);
    }
  }

  /** Splits s at the first c, which is dropped, when c is followed by a space. */
  function CutBefore(s: string, c: char): Option<(string, string)> {
    var i := IndexOf(s, c);
    if i + 1 < |s| && s[i + 1] == ' ' then Some((s[..i], s[i + 2..])) else None
  }

  lemma CutBeforeJoin(s: string, c: char)
    requires CutBefore(s, c).Some?
    ensures s == CutBefore(s, c).value.0 + [c, ' '] + CutBefore(s, c).value.1
  {
    var i := IndexOf(s, c);
    assert s == s[..i] + [s[i], s[i + 1]] + s[i + 2..];
  }

  lemma CutBeforeFirst(x: string, c: char, y: string)
    requires NoChar(x, c)
    ensures CutBefore(x + [c, ' '] + y, c) == Some((x, y))
  {
    var s := x + [c, ' '] + y;
    assert s == x + [c] + ([' '] + y);
    IndexOfFirst(x, c, [' '] + y);
    assert s[..|x|] == x;
    assert s[|x| + 2..] == y;
  }

  /** Splits s at its first space, which is dropped. */
  function CutSpace(s: string): Option<(string, string)> {
    var i := IndexOf(s, ' ');
    if i < |s| then Some((s[..i], s[i + 1..])) else None
  }

  lemma CutSpaceJoin(s: string)
    requires CutSpace(s).Some?
    ensures s == CutSpace(s).value.0 + [' '] + CutSpace(s).value.1
  {
    var i := IndexOf(s, ' ');
    assert s == s[..i] + [s[i]] + s[i + 1..];
  }

  lemma CutSpaceFirst(x: string, y: string)
    requires NoChar(x, ' ')
    ensures CutSpace(x + [' '] + y) == Some((x, y))
  {
    var s := x + [' '] + y;
    IndexOfFirst(x, ' ', y);
    assert s[..|x|] == x;
    assert s[|x| + 1..] == y;
  }

  /**
   * Splits an address back at its first ", ", the first ", " after that,
   * and the first space after that.
   */
  function ParseAddress(a: string): Option<AddressParts> {
    var c1 := CutBefore(a, ',');
    if c1.None? then None
    else
      var c2 := CutBefore(c1.value.1, ',');
      if c2.None? then None
      else
        var c3 := CutSpace(c2.value.1);
        if c3.None? then None
        else Some(AddressParts(c1.value.0, c2.value.0, c3.value.0, c3.value.1))
  }

  lemma FormatAddressNested(p: AddressParts)
    ensures FormatAddress(p) == p.street + [',', ' '] + (p.city + [',', ' '] + (p.state + [' '] + p.zipcode))
  {
  }

  /** Whatever ParseAddress reads, formatting it again gives back the same string. */
  lemma ParseThenFormat(a: string)
    requires ParseAddress(a).Some?
    ensures FormatAddress(ParseAddress(a).value) == a
  {
    var c1 := CutBefore(a, ',').value;
    var c2 := CutBefore(c1.1, ',').value;
    var c3 := CutSpace(c2.1).value;
    var p := AddressParts(c1.0, c2.0, c3.0, c3.1);
    assert ParseAddress(a) == Some(p);
    CutBeforeJoin(a, ',');
    CutBeforeJoin(c1.1, ',');
    CutSpaceJoin(c2.1);
    FormatAddressNested(p);
  }

  /**
   * The address determines its parts when the street and the city hold no
   * comma and the state no space.
   */
  lemma FormatThenParse(p: AddressParts)
    requires NoChar(p.street, ',') && NoChar(p.city, ',') && NoChar(p.state, ' ')
    ensures ParseAddress(FormatAddress(p)) == Some(p)
  {
    var rest' := p.state + [' '] + p.zipcode;
    var rest := p.city + [',', ' '] + rest';
    assert FormatAddress(p) == p.street + [',', ' '] + rest;
    CutBeforeFirst(p.street, ',', rest);
    CutBeforeFirst(p.city, ',', rest');
    CutSpaceFirst(p.state, p.zipcode);
  }
}
