/**
 * The Organization record of the social-service directory: its fields, the
 * validations run before it is stored, the one-line address handed to the
 * geocoder, and the category and language scopes.
 */
module Organizations {
  import opened Wrappers
  import opened Text
  import PhoneFormat
  import EmailFormat
  import UrlFormat
  import opened Addresses

  /**
   * One organization. A String field that is absent is None (Ruby's nil);
   * an Array field that is absent is the empty sequence. Coordinates are
   * the [latitude, longitude] pair the geocoder fills in.
   */
  datatype Organization = Organization(
    accessibilityOptions: seq<string>,
    agency: Option<string>,
    askFor: seq<string>,
    city: Option<string>,
    coordinates: seq<real>,
    description: Option<string>,
    eligibilityRequirements: Option<string>,
    emails: seq<string>,
    faxes: seq<string>,
    fees: Option<string>,
    fundingSources: seq<string>,
    howToApply: Option<string>,
    keywords: seq<string>,
    languagesSpoken: seq<string>,
    leaders: seq<string>,
    marketMatch: Option<bool>,
    name: Option<string>,
    paymentsAccepted: seq<string>,
    phones: seq<string>,
    productsSold: seq<string>,
    serviceAreas: seq<string>,
    serviceHours: Option<string>,
    serviceWait: Option<string>,
    servicesProvided: Option<string>,
    state: Option<string>,
    streetAddress: Option<string>,
    targetGroup: Option<string>,
    transportationAvailability: Option<string>,
    ttys: seq<string>,
    urls: seq<string>,
    zipcode: Option<string>)

  /** A record with every field absent. */
  const Empty: Organization :=
    Organization([], None, [], None, [], None, None, [], [], None, [], None, [], [], [], None,
                 None, [], [], [], [], None, None, None, None, None, None, None, [], [], None)

  // ================================================================ validation

  /** The collection fields whose entries are validated one by one. */
  datatype EntryField = Phones | Emails | Urls

  /** One failed validation; EntryInvalid carries the index of the offending entry. */
  datatype ValidationError = NameBlank | ZipcodeInvalid | EntryInvalid(field: EntryField, index: nat)

  function Entries(o: Organization, f: EntryField): seq<string> {
    match f
    case Phones => o.phones
    case Emails => o.emails
    case Urls => o.urls
  }

  /** A phone entry passes when it is blank (allow_blank) or is a US phone number. */
  predicate PhoneEntryOk(s: string) { IsBlankString(s) || PhoneFormat.IsPhone(s) }

  /** The check each entry of a field must pass; emails and urls have no allow_blank. */
  predicate EntryOk(f: EntryField, s: string) {
    match f
    case Phones => PhoneEntryOk(s)
    case Emails => EmailFormat.IsEmail(s)
    case Urls => UrlFormat.IsUrl(s)
  }

  /** The field-level policy, with each format read as its regular expression. */
  ghost predicate IsValid(o: Organization, isUsZip: string -> bool) {
    && !IsBlank(o.name)
    && (IsBlank(o.zipcode) || isUsZip(o.zipcode.value))
    && (forall i :: 0 <= i < |o.phones| ==>
          IsBlankString(o.phones[i]) || PhoneFormat.MatchesPhonePattern(o.phones[i]))
    && (forall i :: 0 <= i < |o.emails| ==> EmailFormat.MatchesEmailPattern(o.emails[i]))
    && (forall i :: 0 <= i < |o.urls| ==> UrlFormat.MatchesUrlPattern(o.urls[i]))
  }

  predicate AllEntriesOk(o: Organization, f: EntryField) {
    forall i :: 0 <= i < |Entries(o, f)| ==> EntryOk(f, Entries(o, f)[i])
  }

  /** The checks the validations make, with each format decided by its recogniser. */
  predicate Passes(o: Organization, isUsZip: string -> bool) {
    && !IsBlank(o.name)
    && (IsBlank(o.zipcode) || isUsZip(o.zipcode.value))
    && AllEntriesOk(o, Phones) && AllEntriesOk(o, Emails) && AllEntriesOk(o, Urls)
  }

  /** The indices from i on of the entries that fail the check of f, in increasing order. */
  function Failures(xs: seq<string>, f: EntryField, i: nat): (r: seq<nat>)
    requires i <= |xs|
    ensures forall j: nat :: j in r <==> i <= j < |xs| && !EntryOk(f, xs[j])
    ensures r == [] <==> forall j :: i <= j < |xs| ==> EntryOk(f, xs[j])
    ensures forall k :: 0 <= k < |r| ==> i <= r[k]
    ensures forall k, l :: 0 <= k < l < |r| ==> r[k] < r[l]
    decreases |xs| - i
  {
    if i == |xs| then []
    else if EntryOk(f, xs[i]) then Failures(xs, f, i + 1)
    else [i] + Failures(xs, f, i + 1)
  }

  function Tagged(f: EntryField, ix: seq<nat>): (r: seq<ValidationError>)
    ensures |r| == |ix|
    ensures forall e :: e in r ==> e.EntryInvalid? && e.field == f
    ensures forall i: nat :: EntryInvalid(f, i) in r <==> i in ix
  {
    var r := seq(|ix|, k requires 0 <= k < |ix| => EntryInvalid(f, ix[k]));
    forall i: nat | i in ix ensures EntryInvalid(f, i) in r {
      var k :| 0 <= k < |ix| && ix[k] == i;
      assert r[k] == EntryInvalid(f, i);
    }
    r
  }

  function EntryErrors(o: Organization, f: EntryField): (r: seq<ValidationError>)
    ensures r == [] <==> AllEntriesOk(o, f)
    ensures forall e :: e in r ==> e.EntryInvalid? && e.field == f
    ensures forall i: nat :: EntryInvalid(f, i) in r <==> i < |Entries(o, f)| && !EntryOk(f, Entries(o, f)[i])
  {
    Tagged(f, Failures(Entries(o, f), f, 0))
  }

  /** The errors of the two single-valued checks, name presence and zipcode format. */
  function FieldErrors(o: Organization, isUsZip: string -> bool): (r: seq<ValidationError>)
    ensures NameBlank in r <==> IsBlank(o.name)
    ensures ZipcodeInvalid in r <==> !IsBlank(o.zipcode) && !isUsZip(o.zipcode.value)
    ensures forall e :: e in r ==> !e.EntryInvalid?
    ensures r == [] <==> !IsBlank(o.name) && (IsBlank(o.zipcode) || isUsZip(o.zipcode.value))
  {
    (if IsBlank(o.name) then [NameBlank] else [])
    + (if !IsBlank(o.zipcode) && !isUsZip(o.zipcode.value) then [ZipcodeInvalid] else [])
  }

  /**
   * Every failed validation, in declaration order: name, zipcode, phones,
   * emails, urls. No check stops the others. isUsZip is the us_zip format of
   * the formatting library, which this model leaves as a parameter.
   */
  function Errors(o: Organization, isUsZip: string -> bool): seq<ValidationError> {
    FieldErrors(o, isUsZip) + (EntryErrors(o, Phones) + EntryErrors(o, Emails) + EntryErrors(o, Urls))
  }

  lemma EntryErrorsAreEntries(o: Organization)
    ensures forall e :: e in EntryErrors(o, Phones) + EntryErrors(o, Emails) + EntryErrors(o, Urls) ==> e.EntryInvalid?
  {
  }

  /** A blank name is reported, whatever else fails. */
  lemma NameBlankReported(o: Organization, isUsZip: string -> bool)
    ensures NameBlank in Errors(o, isUsZip) <==> IsBlank(o.name)
  {
    EntryErrorsAreEntries(o);
  }

  /** A zipcode is reported exactly when it is non-blank and not a ZIP code. */
  lemma ZipcodeInvalidReported(o: Organization, isUsZip: string -> bool)
    ensures ZipcodeInvalid in Errors(o, isUsZip) <==> !IsBlank(o.zipcode) && !isUsZip(o.zipcode.value)
  {
    EntryErrorsAreEntries(o);
  }

  /** Each failing entry of phones, emails and urls is reported with its index, and no other. */
  lemma EntryInvalidReported(o: Organization, isUsZip: string -> bool, f: EntryField, i: nat)
    ensures EntryInvalid(f, i) in Errors(o, isUsZip) <==> i < |Entries(o, f)| && !EntryOk(f, Entries(o, f)[i])
  {
    var e := EntryInvalid(f, i);
    assert e !in FieldErrors(o, isUsZip);
    assert e in Errors(o, isUsZip) <==> e in EntryErrors(o, Phones) || e in EntryErrors(o, Emails) || e in EntryErrors(o, Urls);
  }

  /** No error at all exactly when every check passes. */
  lemma ErrorsEmptyIffPasses(o: Organization, isUsZip: string -> bool)
    ensures Errors(o, isUsZip) == [] <==> Passes(o, isUsZip)
  {
  }

  lemma PhonesPassIffValid(o: Organization)
    ensures AllEntriesOk(o, Phones)
        <==> forall i :: 0 <= i < |o.phones| ==>
               IsBlankString(o.phones[i]) || PhoneFormat.MatchesPhonePattern(o.phones[i])
  {
    assert Entries(o, Phones) == o.phones;
    forall i | 0 <= i < |o.phones|
      ensures PhoneEntryOk(o.phones[i]) <==> IsBlankString(o.phones[i]) || PhoneFormat.MatchesPhonePattern(o.phones[i])
    {
      PhoneFormat.RecogniserCorrect(o.phones[i]);
    }
  }

  lemma EmailsPassIffValid(o: Organization)
    ensures AllEntriesOk(o, Emails) <==> forall i :: 0 <= i < |o.emails| ==> EmailFormat.MatchesEmailPattern(o.emails[i])
  {
    assert Entries(o, Emails) == o.emails;
    forall i | 0 <= i < |o.emails|
      ensures EmailFormat.IsEmail(o.emails[i]) <==> EmailFormat.MatchesEmailPattern(o.emails[i])
    {
      EmailFormat.RecogniserCorrect(o.emails[i]);
    }
  }

  lemma UrlsPassIffValid(o: Organization)
    ensures AllEntriesOk(o, Urls) <==> forall i :: 0 <= i < |o.urls| ==> UrlFormat.MatchesUrlPattern(o.urls[i])
  {
    assert Entries(o, Urls) == o.urls;
    forall i | 0 <= i < |o.urls|
      ensures UrlFormat.IsUrl(o.urls[i]) <==> UrlFormat.MatchesUrlPattern(o.urls[i])
    {
      UrlFormat.RecogniserCorrect(o.urls[i]);
    }
  }

  /** A record is saved exactly when it has no errors, which is exactly the field policy. */
  lemma ErrorsEmptyIffValid(o: Organization, isUsZip: string -> bool)
    ensures Errors(o, isUsZip) == [] <==> IsValid(o, isUsZip)
  {
    ErrorsEmptyIffPasses(o, isUsZip);
    PhonesPassIffValid(o);
    EmailsPassIffValid(o);
    UrlsPassIffValid(o);
  }

  /** A blank phone entry is never reported, whatever the other entries hold. */
  lemma BlankPhoneNeverReported(o: Organization, isUsZip: string -> bool, i: nat)
    requires i < |o.phones| && IsBlankString(o.phones[i])
    ensures EntryInvalid(Phones, i) !in Errors(o, isUsZip)
  {
    EntryInvalidReported(o, isUsZip, Phones, i);
  }

  /**
   * The checks are independent: a record with a blank name and a bad email
   * is invalid, and both failures are reported.
   */
  lemma BlankNameAndBadEmailBothReported(o: Organization, isUsZip: string -> bool, i: nat)
    requires IsBlank(o.name)
    requires i < |o.emails| && !EmailFormat.MatchesEmailPattern(o.emails[i])
    ensures !IsValid(o, isUsZip)
    ensures NameBlank in Errors(o, isUsZip) && EntryInvalid(Emails, i) in Errors(o, isUsZip)
  {
    NameBlankReported(o, isUsZip);
    EmailFormat.RecogniserCorrect(o.emails[i]);
    EntryInvalidReported(o, isUsZip, Emails, i);
  }

  /** Likewise a blank name and a zipcode that is not a ZIP code are both reported. */
  lemma BlankNameAndBadZipcodeBothReported(o: Organization, isUsZip: string -> bool)
    requires IsBlank(o.name) && !IsBlank(o.zipcode) && !isUsZip(o.zipcode.value)
    ensures !IsValid(o, isUsZip)
    ensures NameBlank in Errors(o, isUsZip) && ZipcodeInvalid in Errors(o, isUsZip)
  {
    NameBlankReported(o, isUsZip);
    ZipcodeInvalidReported(o, isUsZip);
  }

  /**
   * An assumed stand-in for the us_zip format: five digits, optionally
   * followed by '-' and four digits. The formatting library's own pattern is
   * not part of this model; this predicate only serves the examples below.
   */
  predicate AssumedUsZip(z: string) {
    (|z| == 5 && AllDigits(z)) || (|z| == 10 && AllDigits(z[..5]) && z[5] == '-' && AllDigits(z[6..]))
  }

  /** The zipcode check with the assumed format: a record holding only the zipcode z. */
  lemma ZipcodeExample(z: string)
    ensures ZipcodeInvalid in Errors(Empty.(zipcode := Some(z)), AssumedUsZip)
        <==> !IsBlankString(z) && !AssumedUsZip(z)
  {
    ZipcodeInvalidReported(Empty.(zipcode := Some(z)), AssumedUsZip);
  }

  lemma ZipcodeExamples()
    ensures AssumedUsZip("94063") && AssumedUsZip("94063-1234")
    ensures !IsBlankString("9406") && !AssumedUsZip("9406")
    ensures IsBlankString(" ")
  {
    var z := "94063-1234";
    assert z[..5] == "94063" && z[6..] == "1234";
    assert !IsUnicodeSpace("9406"[0]);
  }

  /** A blank zipcode, nil or whitespace, never produces an error whatever the zip format. */
  lemma BlankZipcodeNeverInvalid(o: Organization, isUsZip: string -> bool)
    requires IsBlank(o.zipcode)
    ensures Errors(o, isUsZip) == Errors(o.(zipcode := None), isUsZip)
    ensures IsValid(o, isUsZip) <==> IsValid(o.(zipcode := None), isUsZip)
  {
    assert Entries(o, Phones) == Entries(o.(zipcode := None), Phones);
    assert Entries(o, Emails) == Entries(o.(zipcode := None), Emails);
    assert Entries(o, Urls) == Entries(o.(zipcode := None), Urls);
  }

  // ================================================================ address

  /** Ruby string interpolation: nil reads as the empty string. */
  function Interpolated(x: Option<string>): string {
    match x
    case None => ""
    case Some(t) => t
  }

  function Parts(o: Organization): AddressParts {
    AddressParts(Interpolated(o.streetAddress), Interpolated(o.city), Interpolated(o.state), Interpolated(o.zipcode))
  }

  /**
   * The one-line address "street, city, state zipcode" given to the geocoder.
   * It is defined for every record, blank fields included.
   */
  function Address(o: Organization): (r: string)
    ensures |r| == |Parts(o).street| + |Parts(o).city| + |Parts(o).state| + |Parts(o).zipcode| + 5
    ensures r[..|Parts(o).street|] == Parts(o).street
    ensures r[|r| - |Parts(o).zipcode|..] == Parts(o).zipcode
  {
    var p := Parts(o);
    var r := FormatAddress(p);
    assert r == p.street + (", " + p.city + ", " + p.state + " " + p.zipcode);
    r
  }

  lemma AddressRoundTrip(o: Organization)
    requires NoChar(Parts(o).street, ',') && NoChar(Parts(o).city, ',') && NoChar(Parts(o).state, ' ')
    ensures ParseAddress(Address(o)) == Some(Parts(o))
  {
    FormatThenParse(Parts(o));
  }

  lemma AddressExamples()
    ensures Address(Empty) == ", ,  "
    ensures Address(Empty.(streetAddress := Some("1 Main St"), city := Some("Redwood City"),
                           state := Some("CA"), zipcode := Some("94063")))
            == "1 Main St, Redwood City, CA 94063"
  {
  }

  // ================================================================ scopes

  /** The collection fields the two scopes search. */
  datatype ListField = Keywords | LanguagesSpoken

  function Values(o: Organization, f: ListField): seq<string> {
    match f
    case Keywords => o.keywords
    case LanguagesSpoken => o.languagesSpoken
  }

  /** The characters with a meaning of their own in a regular expression. */
  predicate IsRegexMeta(c: char) {
    c == '\\' || c == '^' || c == '$' || c == '.' || c == '|' || c == '?' || c == '*'
    || c == '+' || c == '(' || c == ')' || c == '[' || c == ']' || c == '{' || c == '}'
  }

  /** A query that reads as itself when interpolated into a regular expression. */
  predicate IsPlainQuery(q: string) { forall i :: 0 <= i < |q| ==> !IsRegexMeta(q[i]) }

  /** The query /needle/i matches some entry: the store's regex match on an array field. */
  predicate Matches(o: Organization, f: ListField, needle: string) {
    exists k :: 0 <= k < |Values(o, f)| && ContainsIgnoringCase(Values(o, f)[k], needle)
  }

  /** r is s with some elements dropped, the rest in their order. */
  predicate IsSubsequence<T(==)>(r: seq<T>, s: seq<T>)
    decreases |s|
  {
    if r == [] then true
    else if s == [] then false
    else (r[0] == s[0] && IsSubsequence(r[1..], s[1..])) || IsSubsequence(r, s[1..])
  }

  /** The records, in store order, whose field f matches needle. */
  function Select(orgs: seq<Organization>, f: ListField, needle: string): (r: seq<Organization>)
    ensures IsSubsequence(r, orgs)
    ensures forall o :: o in r <==> o in orgs && Matches(o, f, needle)
    ensures forall o :: multiset(r)[o] == if Matches(o, f, needle) then multiset(orgs)[o] else 0
  {
    if orgs == [] then []
    else
      assert orgs == [orgs[0]] + orgs[1..];
      if Matches(orgs[0], f, needle) then [orgs[0]] + Select(orgs[1..], f, needle)
      else Select(orgs[1..], f, needle)
  }

  /** find_by_category: records having a keyword that contains the stripped query, any case. */
  function FindByCategory(orgs: seq<Organization>, category: string): (r: seq<Organization>)
    requires IsPlainQuery(category)
    ensures IsSubsequence(r, orgs)
    ensures forall o :: o in r <==>
              o in orgs && exists k :: 0 <= k < |o.keywords| && ContainsIgnoringCase(o.keywords[k], Strip(category))
    ensures forall o :: multiset(r)[o] ==
              if exists k :: 0 <= k < |o.keywords| && ContainsIgnoringCase(o.keywords[k], Strip(category))
              then multiset(orgs)[o] else 0
  {
    var needle := Strip(category);
    forall o ensures Matches(o, Keywords, needle) <==>
                     exists k :: 0 <= k < |o.keywords| && ContainsIgnoringCase(o.keywords[k], needle) {
      assert Values(o, Keywords) == o.keywords;
    }
    Select(orgs, Keywords, needle)
  }

  /** find_by_language: the same search over languages_spoken. */
  function FindByLanguage(orgs: seq<Organization>, language: string): (r: seq<Organization>)
    requires IsPlainQuery(language)
    ensures IsSubsequence(r, orgs)
    ensures forall o :: o in r <==>
              o in orgs && exists k :: 0 <= k < |o.languagesSpoken| && ContainsIgnoringCase(o.languagesSpoken[k], Strip(language))
    ensures forall o :: multiset(r)[o] ==
              if exists k :: 0 <= k < |o.languagesSpoken| && ContainsIgnoringCase(o.languagesSpoken[k], Strip(language))
              then multiset(orgs)[o] else 0
  {
    var needle := Strip(language);
    forall o ensures Matches(o, LanguagesSpoken, needle) <==>
                     exists k :: 0 <= k < |o.languagesSpoken| && ContainsIgnoringCase(o.languagesSpoken[k], needle) {
      assert Values(o, LanguagesSpoken) == o.languagesSpoken;
    }
    Select(orgs, LanguagesSpoken, needle)
  }

  /** Selecting from two runs of records is selecting from each. */
  lemma {:induction false} SelectAppend(a: seq<Organization>, b: seq<Organization>, f: ListField, needle: string)
    ensures Select(a + b, f, needle) == Select(a, f, needle) + Select(b, f, needle)
  {
    if a == [] {
      assert a + b == b;
    } else {
      assert (a + b)[1..] == a[1..] + b;
      SelectAppend(a[1..], b, f, needle);
    }
  }

  /** Running a scope again on its own result changes nothing. */
  lemma {:induction false} SelectIdempotent(orgs: seq<Organization>, f: ListField, needle: string)
    ensures Select(Select(orgs, f, needle), f, needle) == Select(orgs, f, needle)
  {
    if orgs != [] {
      SelectIdempotent(orgs[1..], f, needle);
    }
  }

  /** The case of the query never changes the result. */
  lemma {:induction false} SelectIgnoresCase(orgs: seq<Organization>, f: ListField, needle: string)
    ensures Select(orgs, f, Lower(needle)) == Select(orgs, f, needle)
  {
    if orgs != [] {
      var vs := Values(orgs[0], f);
      forall k | 0 <= k < |vs|
        ensures ContainsIgnoringCase(vs[k], Lower(needle)) <==> ContainsIgnoringCase(vs[k], needle)
      {
        ContainsIgnoringCaseOfLower(vs[k], needle);
      }
      SelectIgnoresCase(orgs[1..], f, needle);
    }
  }

  /** Whitespace around the query never changes the result. */
  lemma CategoryIgnoresSurroundingSpace(orgs: seq<Organization>, category: string)
    requires IsPlainQuery(category)
    ensures IsPlainQuery(Strip(category))
    ensures FindByCategory(orgs, Strip(category)) == FindByCategory(orgs, category)
  {
    StripIdempotent(category);
  }

  /** A blank query keeps exactly the records that have at least one value in the field. */
  lemma {:induction false} SelectEmptyNeedle(orgs: seq<Organization>, f: ListField)
    ensures forall o :: o in Select(orgs, f, []) <==> o in orgs && |Values(o, f)| > 0
  {
    forall o | o in orgs && |Values(o, f)| > 0 ensures Matches(o, f, []) {
      ContainsEmpty(Values(o, f)[0]);
    }
  }
}
