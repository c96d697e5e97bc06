# Organization record of a social-service directory, in Dafny

This project models the `Organization` document of a directory API for
social-service organizations. It covers four things:

- the record itself, with its 31 fields;
- the validations that run before a record is stored: `name` presence, the
  zipcode format with `allow_blank`, and the per-entry formats of `phones`,
  `emails` and `urls`;
- the one-line `address` handed to the geocoder;
- the two query scopes `find_by_category` and `find_by_language`.

The source file is declarative, so the model is made of datatypes,
functions, predicates and lemmas. It has no classes and no loops.

Each format (phone, email, URL) is given twice:

- a ghost predicate that reads the regular expression literally, as an
  existential over a decomposition of the string into the pattern's parts;
- an executable recogniser, proved equal to it.

For the email format the recogniser is a six-state automaton, and the proof
gives each state its meaning in terms of the prefix read so far. The record's
`Errors` list is proved empty exactly when the field policy `IsValid` holds.
`IsValid` is stated with the literal pattern predicates.

Files:

- `wrappers.dfy`: `Option`.
- `text.dfy`: Ruby's `blank?` and `strip`, ASCII case folding, case-insensitive
  substring search.
- `phone.dfy`, `email.dfy`, `url.dfy`: the three formats.
- `address.dfy`: address formatting and a parser that inverts it.
- `organization.dfy`: the record, the validation errors, `address` and the
  scopes.

Two facts about the code that are easy to miss:

- The phone separator class `[ |\.|\-]` holds four characters: space, `|`,
  `.` and `-`. The `|` inside the brackets is a literal, so `650|555|1234` is
  a valid phone number.
- The scopes return the matching records in the order of the input, each as
  many times as it occurs there. A field's entries are a sequence, not a set.

## Model

| member | source | states |
|---|---|---|
| Organizations.IsValid | app/models/organization.rb:46-64 | the field policy as read from the source: a non-blank name; a blank zipcode or one that is a ZIP code; every phone blank or matching the anchored phone pattern; every email and every url matching its pattern |
| PhoneFormat.MatchesPhonePattern | app/models/organization.rb:54 | the anchored pattern read literally: the whole string is a 3-digit area code, bare or in parentheses, an optional separator from space, bar, '.' and '-', 3 digits, an optional separator, 4 digits |
| PhoneFormat.IsPhone | app/models/organization.rb:54 | the recogniser: reads the area code, then an optional separator, 3 digits, an optional separator and exactly 4 digits to the end |
| EmailFormat.MatchesEmailPattern | app/models/organization.rb:59 | the unanchored pattern read literally: some infix is a non-empty run of non-newlines, '@', a non-empty run, '.', a non-empty run |
| EmailFormat.IsEmail | app/models/organization.rb:59 | the recogniser: a six-state automaton over the string that ends in its accepting state |
| UrlFormat.MatchesUrlPattern | app/models/organization.rb:63 | the unanchored pattern read literally: an optional http or https scheme in any case, 2 to 256 host characters, '.', 2 to 4 letters, a word boundary, an optional path |
| UrlFormat.IsUrl | app/models/organization.rb:63 | the recogniser: some '.' has two host characters before it and a run of 2 to 4 letters after it that ends at a word boundary |
| Addresses.FormatAddress | app/models/organization.rb:75 | the interpolation street ", " city ", " state " " zipcode |
| Organizations.Matches | app/models/organization.rb:70-71 | the store's regex match on an array field: some entry of the field contains the needle, ignoring case |
| Organizations.Failures | app/models/organization.rb:53-64 | the indices from i on whose entry fails the field's check, exactly those, in strictly increasing order; empty iff every entry passes |
| Organizations.Tagged | app/models/organization.rb:53-64 | one EntryInvalid error per failing index, tagged with the field, and no other |
| Organizations.EntryErrors | app/models/organization.rb:53-64 | the errors of one collection field: empty iff every entry passes, and an error for index i iff entry i exists and fails |
| Organizations.FieldErrors | app/models/organization.rb:46-51 | NameBlank is reported iff the name is blank; ZipcodeInvalid iff the zipcode is non-blank and not a ZIP code; no entry errors; empty iff both checks pass |
| Organizations.NameBlankReported | app/models/organization.rb:46 | a blank name (nil, empty or whitespace) is reported whatever the other fields hold |
| Organizations.ZipcodeInvalidReported | app/models/organization.rb:49-51 | the zipcode error appears iff the zipcode is non-blank and fails us_zip (allow_blank) |
| Organizations.EntryInvalidReported | app/models/organization.rb:53-64 | entry i of phones, emails or urls is reported iff it exists and fails that field's format |
| Organizations.BlankPhoneNeverReported | app/models/organization.rb:55 | a blank phone entry never produces an error (allow_blank) |
| Organizations.BlankNameAndBadEmailBothReported | app/models/organization.rb:46-60 | no check stops the others: a blank name and a bad email make the record invalid and are both reported |
| Organizations.BlankNameAndBadZipcodeBothReported | app/models/organization.rb:46-51 | a blank name and a bad zipcode are both reported |
| Organizations.ErrorsEmptyIffPasses | app/models/organization.rb:46-64 | no errors iff the name, the zipcode and every entry pass their recognisers |
| Organizations.PhonesPassIffValid | app/models/organization.rb:53-56 | the phones pass iff every entry is blank or matches the anchored phone pattern |
| Organizations.EmailsPassIffValid | app/models/organization.rb:58-60 | the emails pass iff every entry matches the email pattern |
| Organizations.UrlsPassIffValid | app/models/organization.rb:62-64 | the urls pass iff every entry matches the URL pattern |
| Organizations.ErrorsEmptyIffValid | app/models/organization.rb:46-64 | a record has no validation errors iff it satisfies the field policy written with the literal patterns |
| Organizations.BlankZipcodeNeverInvalid | app/models/organization.rb:49-51 | a blank zipcode gives the same errors and the same validity as no zipcode at all |
| Organizations.ZipcodeExample | app/models/organization.rb:49-51 | with the assumed ZIP format, a record holding only zipcode z is reported iff z is non-blank and not a ZIP code |
| Organizations.ZipcodeExamples | app/models/organization.rb:49-51 | under the assumed ZIP format, "94063" and "94063-1234" pass, "9406" is a non-blank non-ZIP, and " " is blank |
| Organizations.Address | app/models/organization.rb:74-76 | the address starts with the street, ends with the zipcode, and is as long as the four parts plus 5; nil fields read as "" |
| Organizations.AddressRoundTrip | app/models/organization.rb:74-76 | when street and city hold no comma and state no space, parsing the address gives back its four parts |
| Organizations.AddressExamples | app/models/organization.rb:74-76 | an empty record gives ", ,  "; the documented example gives "1 Main St, Redwood City, CA 94063" |
| Addresses.IndexOf | app/models/organization.rb:75 | part of the parser that inverts line 75, which the source does not have: the first index of a character, or the length when it is absent |
| Addresses.CutBeforeJoin | app/models/organization.rb:75 | part of the parser that inverts line 75, which the source does not have: a successful cut at a separator puts the string back together around ", " |
| Addresses.CutBeforeFirst | app/models/organization.rb:75 | part of the parser that inverts line 75, which the source does not have: a cut finds the separator that follows a part free of its character |
| Addresses.CutSpaceJoin | app/models/organization.rb:75 | part of the parser that inverts line 75, which the source does not have: a successful cut at the first space puts the string back together |
| Addresses.CutSpaceFirst | app/models/organization.rb:75 | part of the parser that inverts line 75, which the source does not have: the cut at the first space of "state zipcode" recovers both parts when state has no space |
| Addresses.ParseThenFormat | app/models/organization.rb:75 | part of the parser that inverts line 75, which the source does not have: whatever the parser accepts, formatting its result gives the same string: the parser is a left inverse |
| Addresses.FormatThenParse | app/models/organization.rb:75 | formatting then parsing gives back the parts, when street and city hold no comma and state no space |
| Organizations.Select | app/models/organization.rb:70-71 | the result is a subsequence of the input, in store order, holding exactly the records whose field has a value containing the needle, ignoring case, each as many times as in the input |
| Organizations.FindByCategory | app/models/organization.rb:70 | exactly the records, in order and with their multiplicity, having a keyword that contains the stripped query ignoring case; a subsequence of the input |
| Organizations.FindByLanguage | app/models/organization.rb:71 | exactly the records, in order and with their multiplicity, having a spoken language that contains the stripped query ignoring case; a subsequence of the input |
| Organizations.SelectAppend | app/models/organization.rb:70-71 | a scope over two runs of records is the scope over each, concatenated |
| Organizations.SelectIdempotent | app/models/organization.rb:70-71 | running a scope again on its own result changes nothing |
| Organizations.SelectIgnoresCase | app/models/organization.rb:70-71 | lower-casing the query never changes the result (/i) |
| Organizations.CategoryIgnoresSurroundingSpace | app/models/organization.rb:70 | surrounding whitespace on the category never changes the result (strip) |
| Organizations.SelectEmptyNeedle | app/models/organization.rb:70-71 | the empty needle (a query that strips to empty) keeps exactly the records with at least one value in the field |
| Text.LeadingLength | app/models/organization.rb:70-71 | the leading run of whitespace and NUL, and it is maximal |
| Text.TrailingStart | app/models/organization.rb:70-71 | where the trailing run of whitespace and NUL begins, and it is maximal |
| Text.Strip | app/models/organization.rb:70-71 | the result is an infix of s with only strip characters cut off at both ends, and it neither starts nor ends with one |
| Text.StripStripped | app/models/organization.rb:70-71 | a string with no strip character at either end is its own strip |
| Text.StripIdempotent | app/models/organization.rb:70-71 | stripping twice is stripping once |
| Text.Fold | app/models/organization.rb:63 | the folded character is never upper case and is a letter iff the original is; an upper-case letter becomes the lower-case letter at the same place in the alphabet; no other character changes |
| Text.Lower | app/models/organization.rb:70-71 | keeps the length, leaves no upper-case letter, keeps every character equal to the original ignoring case, and changes no character that is not upper case |
| Text.LowerIdempotent | app/models/organization.rb:70-71 | lower-casing twice is lower-casing once |
| Text.LowerOfLowerCase | app/models/organization.rb:70-71 | a string with no upper-case letter is its own lower-case form |
| Text.FoldIdempotent | app/models/organization.rb:70-71 | folding twice is folding once |
| Text.ContainsIgnoringCaseIsFoldedSearch | app/models/organization.rb:70-71 | a case-insensitive match somewhere in s is an ordinary substring match of the folded query in the folded s |
| Text.ContainsIgnoringCaseOfLower | app/models/organization.rb:70-71 | a case-insensitive search is unchanged by lower-casing the query |
| Text.ContainsEmpty | app/models/organization.rb:70-71 | the empty query matches every string |
| PhoneFormat.AreaCodeLength | app/models/organization.rb:54 | the length of the area code at the start, bare or parenthesised, or 0 when there is none |
| PhoneFormat.SeparatorLength | app/models/organization.rb:54 | the prefix it reads is an optional separator from the class, and it reads none only when the string does not start with one: the greedy reading of `?` |
| PhoneFormat.RecogniserSound | app/models/organization.rb:54 | every string the recogniser accepts splits as the anchored pattern |
| PhoneFormat.RecogniserComplete | app/models/organization.rb:54 | every string that splits as the anchored pattern is accepted |
| PhoneFormat.RecogniserCorrect | app/models/organization.rb:54 | the recogniser accepts exactly the strings the anchored phone pattern matches |
| PhoneFormat.PhoneTailSound | app/models/organization.rb:54 | what follows the area code splits as separator, 3 digits, separator, 4 digits |
| PhoneFormat.PhoneTailComplete | app/models/organization.rb:54 | every separator, 3 digits, separator, 4 digits is read as a phone tail |
| PhoneFormat.AreaCodeLengthOf | app/models/organization.rb:54 | an area code followed by anything is read with exactly its own length |
| PhoneFormat.DigitCountConcat | app/models/organization.rb:54 | digit counts add over concatenation |
| PhoneFormat.AreaCodeDigits | app/models/organization.rb:54 | an area code holds 3 digits, with or without parentheses |
| PhoneFormat.PhoneShape | app/models/organization.rb:54 | every accepted phone number holds exactly 10 digits and is 10 to 14 characters long |
| PhoneFormat.PhoneExampleParenthesised | app/models/organization.rb:54 | "(650) 555-1234" is accepted |
| PhoneFormat.PhoneExampleBars | app/models/organization.rb:54 | "650" bar "555" bar "1234" is accepted: the vertical bar is a literal in the class |
| PhoneFormat.PhoneExampleBare | app/models/organization.rb:54 | "6505551234" is accepted |
| PhoneFormat.PhoneExampleTooShort | app/models/organization.rb:54 | "555-12" is rejected |
| PhoneFormat.PhoneExampleUnclosed | app/models/organization.rb:54 | "(650555-1234" is rejected |
| PhoneFormat.PhoneExampleDoubleSeparator | app/models/organization.rb:54 | "650  555-1234" (two separators in a row) is rejected |
| EmailFormat.PatternIsShortestMatch | app/models/organization.rb:59 | the pattern matches iff some '@' has a non-newline before it, then a line holding a '.' that is followed by one more non-newline |
| EmailFormat.MatchExtend | app/models/organization.rb:59 | appending a character completes a match iff there was one already, or the prefix ended in a '.' of an open domain and the character is no newline |
| EmailFormat.OpenExtend | app/models/organization.rb:59 | a non-newline keeps an '@' open, and closes none |
| EmailFormat.SeenAtExtend | app/models/organization.rb:59 | after a non-newline, an open '@' exists iff one did before or this is an '@' after a character |
| EmailFormat.SeenDomainExtend | app/models/organization.rb:59 | after a non-newline, a domain character has been read iff an '@' was open |
| EmailFormat.SeenDotExtend | app/models/organization.rb:59 | after a non-newline, the automaton is just past a domain '.' iff the character is '.' and a domain was read |
| EmailFormat.LevelStepNewline | app/models/organization.rb:59 | a newline sends every state but the accepting one back to the start |
| EmailFormat.LevelStepChar | app/models/organization.rb:59 | one automaton step computes the meaning of the longer prefix from that of the shorter |
| EmailFormat.LevelStep | app/models/organization.rb:59 | one automaton step computes the meaning of the longer prefix from that of the shorter, for every character |
| EmailFormat.RunTracksLevel | app/models/organization.rb:59 | running the automaton over a suffix reaches the state that means the whole string |
| EmailFormat.RecogniserCorrect | app/models/organization.rb:58-60 | the automaton accepts exactly the strings the unanchored email pattern matches |
| EmailFormat.EmailExampleAccepted | app/models/organization.rb:59 | "a@b.com" matches |
| EmailFormat.EmailExampleRejected | app/models/organization.rb:59 | "not-an-email" does not match |
| UrlFormat.LetterRun | app/models/organization.rb:63 | the maximal run of letters starting at i |
| UrlFormat.RecogniserSound | app/models/organization.rb:63 | a qualifying '.' gives a match of the pattern with no scheme and no path |
| UrlFormat.RecogniserComplete | app/models/organization.rb:63 | every match of the pattern has a qualifying '.' |
| UrlFormat.RecogniserCorrect | app/models/organization.rb:62-64 | the recogniser accepts exactly the strings the unanchored URL pattern matches somewhere |
| UrlFormat.LetterRunOf | app/models/organization.rb:63 | a run of letters followed by a non-letter is read with exactly its length |
| UrlFormat.DotOf | app/models/organization.rb:63 | a '.' between host characters, then 2 to 4 letters at a word boundary, qualifies |
| UrlFormat.BoundaryAfter | app/models/organization.rb:63 | the character that follows the top-level domain is not a word character (\b) |
| UrlFormat.UrlExampleWithSchemeAndPath | app/models/organization.rb:63 | "http://smc.org/x" matches |
| UrlFormat.UrlExampleLongTopLevelDomain | app/models/organization.rb:63 | "ab.museum" is rejected: \b forbids a top-level part of more than four letters |

## Left out

- Persistence, timestamps and the store's own per-field validation loop (app/models/organization.rb:3-4). The record is a value; saving is not modelled.
- `search_in` full-text indexing and RocketPants caching: both are behaviour of libraries whose code is not part of this model.
- `normalize_attributes` (lines 9-12): the normalisation rule lives in a library that is not part of this model. Validation is modelled on the values as they reach it.
- Geocoding, `geocoded_by`, `find_near` and `SMC_BOUNDS`: a network call and a proximity query over floating-point coordinates. The geocode hook is commented out in the source. `coordinates` is kept as a field of reals only.
- The `us_zip` format belongs to the formatting library, which is not part of this model. Validation takes it as the parameter `isUsZip`. `AssumedUsZip` (five digits, optionally `-` and four digits) is an assumption used only by the zipcode examples.
- The `hash:` and `array:` validators for phones, emails and urls come from libraries that are not part of this model. Each entry is modelled as a string checked by the field's format, and an absent array as the empty sequence.
- Organizations.Errors: it has no contract of its own. Its properties are the lemmas NameBlankReported, ZipcodeInvalidReported, EntryInvalidReported, ErrorsEmptyIffPasses and ErrorsEmptyIffValid.
- Error messages (the `message:` strings) are not modelled. Each error is identified by its kind, field and index.
- Text.Fold: it folds ASCII letters only. The /i of the formats (lines 59 and 63) is evaluated by Ruby and the /i of the scopes (lines 70-71) by the document store's query engine; both also fold non-ASCII letters, which this model does not do.
- UrlFormat.IsUrl: `\b` is modelled with ASCII word characters only.
- Text.IsBlank: it reads `blank?` as "every character has the Unicode White_Space property".
- Text.Strip: it removes the characters Ruby 2.6 and later strip, which are NUL and ASCII whitespace. Older Rubies keep a leading NUL.
- FindByCategory: requires a query without regular-expression metacharacters. The source interpolates the query into a regex unescaped, and this model does not include a regex engine.
- FindByLanguage: requires a query without regular-expression metacharacters, for the same reason.
- The category representer is a declarative JSON property list with no logic of its own.
