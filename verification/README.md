# Schema Snap core in Dafny

A model of the pure logic behind Schema Snap, a tool that turns a flat business form
into a Schema.org `LocalBusiness` JSON-LD document, together with proofs about it.

- **JSON-LD engine** (`JsonLd`, `OpeningHours`, `DocValidation`): `generate` and its
  builders for the postal address, the coordinates and the opening hours; the greedy
  grouping of consecutive days with equal hours; the generator's text sanitizer; the
  placeholder document; `validate` with its errors and warnings; and the weighted
  completeness score.
- **Field validators** (`Validators`): `required`, e-mail shape, phone digit count
  and formatting, postal-code patterns, `HH:MM` times, time ranges, maximum length,
  HTML escaping and URL normalisation. Each regular expression is restated as an
  explicit predicate over strings.
- **Geocoder helpers** (`Geocoder`): the address string built from the form,
  cache-key normalisation, parsing of Nominatim address components, the accuracy
  estimate, the fixed-window rate limiter and coordinate validation. The rate limiter
  is a pure state transition, and the clock reading `now` is a parameter.
- **Preview statistics** (`Preview`): `countProperties` over a JSON tree, the
  threshold classes of the statistics panel, the completeness-score class, the status
  line, and the `hasData` test that decides between the document and the placeholder.
- **Cross-component facts** (`Consistency`): how the generator, the document validator,
  the field validators and the geocoder judge the same input.

## Modelling choices

- A form is a record of `Option` fields. `None` means the key is absent, and
  `Some("")` means it is present but falsy. JavaScript truthiness of a string field
  is `Truthy(v)`, which holds when `v` is `Some(s)` with `s != ""`. `extraKeys` counts
  keys the engine never reads. They still count in `Object.keys`, so such a form is
  not "empty".
- `parseFloat` is a parameter of type `string -> Option<real>`, where `None` stands
  for `NaN`. Coordinates are mathematical reals.
- Opening hours are a map from day key to `(open, close)`. The engine reads it
  through a seven-slot Monday-to-Sunday sequence. `OpeningHours.GroupsFrom` is a
  functional reference for the grouping. `OpeningHours.GroupConsecutiveDays` is the
  loop of the source, with its `processed` set and the `dayTimes` signature map, and
  it is proved equal to the reference.
- Strings are sequences of `char`, and a `char` is a Unicode scalar value (a code
  point). JavaScript counts and compares UTF-16 code units, so the model does so
  explicitly: `Text.Utf16Length` counts two units for a character above U+FFFF, and
  string order compares first code units through `Text.LeadUnit`. The whitespace set
  is the one JavaScript's `\s` and `trim` use. Case mapping covers ASCII only.
- JavaScript's `<` and `>=` on strings are modelled as `Text.LexLess`, a lexicographic
  order on UTF-16 code units, proved irreflexive, transitive and total.
- `Number(...)` in `timeRange` is modelled on the strings a time field can hold.
  Surrounding whitespace is ignored, `""` gives 0, a digit run gives its value, and
  anything else gives NaN.
- The completeness score is `Math.round(earned / 120 * 100)`. Earned points are
  always a multiple of 5 up to 120, so it equals `(5 * earned + 3) / 6` in integer
  division. The lemma `DocValidation.RoundHalfUp` proves this identity over the reals.

The model follows the code as written, including where it behaves differently from
what a reader might expect:

- The generator's `sanitizeText` trims before deleting control characters, so it is
  not idempotent.
- The generator's `sanitizeText` deletes tab, line feed, vertical tab, form feed and
  carriage return, because they fall in the control range, before it collapses
  whitespace. A line break between two words is therefore removed rather than turned
  into a space: `"a\nb"` gives `"ab"`.
- `postalCode` has no `GB` pattern, so `GB` falls back to the US pattern.
- `validate` compares opening times as strings, so `"9:00"` is not before `"10:00"`.
- The HTML `sanitizeText` does not escape `&`.
- `normalizeAddress` removes symbols after collapsing whitespace, so it is not
  idempotent.
- Three test expectations disagree with the code. Removing control characters from
  `"Business\u0000Name"` gives `"BusinessName"`. The phone error message is
  capitalised. A document with only the required fields scores 50. The model states
  what the code does.

## Model

| member | source | states |
|---|---|---|
| Text.Trim | src/utils/validators.js:10 | `trim()` removes exactly the leading and trailing JavaScript whitespace: the result is a slice of the input, every removed character is whitespace, and the result neither starts nor ends with whitespace |
| Text.TrimEmptyIff | src/utils/validators.js:10-12 | a value trims to the empty string exactly when it holds no non-whitespace character |
| Text.TrimIdempotent | src/utils/validators.js:10 | trimming twice is trimming once |
| Text.Contains | src/utils/geocoder.js:131-133 | `includes` holds exactly when the pattern occurs at some index |
| Text.TrimAround | src/utils/jsonld-generator.js:222 | trimming text whose inner edges are not whitespace trims the outer parts alone and keeps the middle whole |
| Text.AstralSortsBelowReplacement | src/utils/jsonld-generator.js:308 | strings compare by UTF-16 code units, so U+1F600 sorts below U+FFFD although its code point is larger |
| Text.Utf16Length | src/utils/validators.js:178 | the UTF-16 length of a string is between its number of characters and twice that |
| Text.Utf16LengthOfBmp | src/utils/validators.js:178 | a string of characters up to U+FFFF has one code unit per character |
| Text.LexLessTotal | src/utils/jsonld-generator.js:308 | the string order used by `>=` compares any two different strings one way or the other |
| Text.LexLessTransitive | src/utils/jsonld-generator.js:308 | the string order is transitive |
| Text.LexLessIrreflexive | src/utils/jsonld-generator.js:308 | no string is below itself, so equal opening and closing times count as out of order |
| Text.NatToString | src/utils/validators.js:179 | the decimal rendering of a number in a template literal is a digit string without a leading zero whose value is the number |
| Text.LowerOfUpper | src/utils/geocoder.js:169 | lower-casing forgets whether the text was upper-cased first |
| OpeningHours.SlotsOf | src/utils/jsonld-generator.js:171-178 | slot `j` is filled exactly when the map has the key of the `j`-th weekday, and then holds its hours |
| OpeningHours.RunEnd | src/utils/jsonld-generator.js:196-207 | the run from a day extends over days with the same signature and stops at the first day that differs or at the end of the week |
| OpeningHours.GroupsFrom | src/utils/jsonld-generator.js:183-210 | the grouping from a given day has at most as many groups as days remain |
| OpeningHours.GroupingMaximalRuns | src/utils/jsonld-generator.js:183-209 | there are at most seven groups, and each is a maximal run of adjacent listed days with equal signature that carries the seed day's times |
| OpeningHours.GroupingCovers | src/utils/jsonld-generator.js:183-194 | a day is in some group exactly when the map lists it |
| OpeningHours.GroupingDisjoint | src/utils/jsonld-generator.js:186-204 | no day is in two groups |
| OpeningHours.GroupingDayOrder | src/utils/jsonld-generator.js:172-209 | groups follow one another in Monday-to-Sunday order, and so do the days inside a group |
| OpeningHours.GroupingPartitionsDays | src/utils/jsonld-generator.js:169-213 | the groups partition the listed days into maximal equal-signature runs in weekday order, at most seven of them |
| OpeningHours.SignatureInjective | src/utils/jsonld-generator.js:177-200 | for times without `-`, equal `open-close` signatures mean equal hours, and the converse |
| OpeningHours.SignatureCollision | src/utils/jsonld-generator.js:177 | times containing `-` can give different hours the same signature |
| OpeningHours.NonDayKeysIgnored | src/utils/jsonld-generator.js:171-183 | adding a key that is not one of the seven day keys does not change the grouping |
| OpeningHours.DayTimes | src/utils/jsonld-generator.js:174-178 | the signature map has the same keys as the hours map and maps each to `open-close` |
| OpeningHours.DaysBetween | src/utils/jsonld-generator.js:196-207 | the set holds exactly the weekdays whose index lies in the range |
| OpeningHours.ExtendGroup | src/utils/jsonld-generator.js:192-207 | the inner loop stops at the end of the seed's run, collects exactly the days of that run, and marks exactly the days after the seed as processed |
| OpeningHours.GroupConsecutiveDays | src/utils/jsonld-generator.js:169-213 | the loop with its processed set returns the functional grouping of the hours map |
| OpeningHours.BuildOpeningHours | src/utils/jsonld-generator.js:123-164 | all-day opening gives one spec for all seven days from `00:00` to `23:59` and ignores the map; no map gives no spec; otherwise there is one spec per group with the group's times, and the day is a scalar exactly when the group has one day |
| OpeningHours.SpecsPartitionDays | src/utils/jsonld-generator.js:140-163 | the compiled specs name each listed day in exactly one entry and no unlisted day, with at most seven entries |
| OpeningHours.ThreeEqualDaysMerge | src/utils/jsonld-generator.js:183-209 | three consecutive days with the same hours compile to one spec listing them |
| OpeningHours.GapKeepsGroupsApart | src/utils/jsonld-generator.js:196-207 | two days with the same hours separated by a day with other hours stay in separate specs |
| OpeningHours.NoWrapAround | src/utils/jsonld-generator.js:183-209 | Sunday and Monday with the same hours are not merged across the week boundary |
| JsonLd.RemoveControl | src/utils/jsonld-generator.js:223 | deleting control characters leaves none of U+0000-U+001F or U+007F-U+009F and never lengthens the text |
| JsonLd.CollapseSpacesShape | src/utils/jsonld-generator.js:224 | after whitespace collapsing every whitespace character is U+0020, no two are adjacent, and the text starts with whitespace exactly when its input did |
| JsonLd.CollapseKeepsNoControl | src/utils/jsonld-generator.js:223-224 | collapsing whitespace introduces no control character |
| JsonLd.SanitizeText | src/utils/jsonld-generator.js:218-225 | falsy input gives `''`; otherwise the visible characters are kept in order, no control character remains, every whitespace run is a single U+0020, and the text never grows |
| JsonLd.VisibleOfTrim | src/utils/jsonld-generator.js:222 | trimming keeps every visible character |
| JsonLd.VisibleOfRemoveControl | src/utils/jsonld-generator.js:223 | deleting control characters keeps every visible character |
| JsonLd.VisibleOfCollapse | src/utils/jsonld-generator.js:224 | collapsing whitespace keeps every visible character |
| JsonLd.CollapseAppend | src/utils/jsonld-generator.js:224 | collapsing whitespace works piecewise on the two sides of a cut made after a non-whitespace character |
| JsonLd.CollapseNoSpace | src/utils/jsonld-generator.js:224 | text without whitespace is left unchanged by collapsing |
| JsonLd.CollapseJoinsRun | src/utils/jsonld-generator.js:224 | a maximal whitespace run between two pieces becomes exactly one U+0020, and each piece is collapsed on its own |
| JsonLd.SanitizeJoinsWords | src/utils/jsonld-generator.js:218-224 | between two visible characters the sanitizer treats each side on its own and leaves one U+0020 for the whitespace between them, or nothing when all of it is control characters |
| JsonLd.SanitizeKeepsWord | src/utils/jsonld-generator.js:218-224 | a word of visible characters is its own sanitized form |
| JsonLd.SanitizeTwoWords | src/utils/jsonld-generator.js:218-224 | two visible words around one whitespace character keep a single U+0020 between them, or run together when that character is a control character such as a line feed |
| JsonLd.SanitizeNotIdempotent | src/utils/jsonld-generator.js:221-224 | a control character, a space and a visible character give a space and that character, which sanitizes further to the character alone, so sanitizing is not idempotent |
| JsonLd.SanitizeDeletesControls | src/utils/jsonld-generator.js:223 | control characters between visible characters are deleted without leaving a space |
| JsonLd.KeyCountZeroIff | src/utils/jsonld-generator.js:10 | a form has no key exactly when it is the empty form |
| JsonLd.CopyIfTruthy | src/utils/jsonld-generator.js:31-50 | a raw field is copied exactly when it is truthy, unchanged |
| JsonLd.SanitizeIfTruthy | src/utils/jsonld-generator.js:20-46 | a text field is set exactly when its source is truthy, to the sanitized source |
| JsonLd.BuildAddress | src/utils/jsonld-generator.js:70-96 | each of the five address fields is present exactly when its source is truthy; street, city and state are sanitized, and postal code and country are passed through raw |
| JsonLd.AddressNonEmptyIff | src/utils/jsonld-generator.js:25-28 | the address has more keys than `@type` exactly when one of the five source fields is truthy |
| JsonLd.BuildGeoCoordinates | src/utils/jsonld-generator.js:101-118 | coordinates are built exactly when latitude and longitude are both truthy and both parse, and then hold the parsed values |
| JsonLd.Assemble | src/utils/jsonld-generator.js:14-64 | `@context` is fixed, `@type` is the business type or `LocalBusiness`, each optional key is present exactly when its source is truthy with the sanitized or raw value, `geo` is the built coordinates, and the hours are present exactly when the compiled list is non-empty |
| JsonLd.Generate | src/utils/jsonld-generator.js:9-65 | an absent or empty form gives the placeholder document; any other form gives the assembled document |
| JsonLd.EmptyFormGivesPlaceholder | src/utils/jsonld-generator.js:230-245 | the empty form produces the placeholder named `Your Business Name` |
| JsonLd.UnknownKeyGivesSkeleton | src/utils/jsonld-generator.js:10-17 | a form whose only key is one the engine does not read is not empty, and gives a document with only `@context` and `@type` |
| JsonLd.ExampleHoursGiveFourSpecs | src/utils/jsonld-generator.js:375-401 | the example form's hours compile to four specs: Monday to Thursday together, then Friday, Saturday and Sunday alone |
| JsonLd.ExampleGroups | src/utils/jsonld-generator.js:391-399 | the example's seven days group into four runs with the times of their seed days |
| DocValidation.AddressFieldErrors | src/utils/jsonld-generator.js:281-288 | an address-field error is reported exactly for each checked field that is not truthy |
| DocValidation.GeoErrors | src/utils/jsonld-generator.js:291-299 | a latitude or longitude error is reported exactly when that coordinate is not a number within its inclusive bound |
| DocValidation.HoursErrors | src/utils/jsonld-generator.js:302-312 | a spec gets a missing-times error exactly when a time is empty, and an order error exactly when both are set and opening does not come first in string order |
| DocValidation.NameMissing | src/utils/jsonld-generator.js:255 | the name is missing exactly when it is absent or blank after trimming |
| DocValidation.Warnings | src/utils/jsonld-generator.js:267-278 | warnings name exactly the missing URL, opening hours and coordinates |
| DocValidation.Validate | src/utils/jsonld-generator.js:250-319 | the errors are exactly the checks that fail, each once, in the order the checks run; the document is valid exactly when there is no error, which is exactly the validity predicate; warnings are exactly the missing recommended keys, in source order |
| DocValidation.CheckOrderDetermined | src/utils/jsonld-generator.js:250-314 | two error lists in checking order with the same members are equal |
| DocValidation.ValidateErrorsDetermined | src/utils/jsonld-generator.js:250-314 | any list of exactly the failing checks, in checking order, is the error list `validate` returns |
| DocValidation.ValidIffNothingFails | src/utils/jsonld-generator.js:250-319 | the validity predicate holds exactly when no individual check fails |
| DocValidation.MissingStreetGivesTwoErrors | src/utils/jsonld-generator.js:259-288 | an address without a street gives both the street-address error and the address-field error |
| DocValidation.CountryNeverChecked | src/utils/jsonld-generator.js:282 | changing the address country never changes the validation result |
| DocValidation.RecommendedFieldsOnlyWarn | src/utils/jsonld-generator.js:267-278 | dropping the URL, hours and coordinates adds warnings and no error |
| DocValidation.DroppingRecommendedKeepsValid | src/utils/jsonld-generator.js:267-278 | a valid document stays valid without its URL, hours and coordinates |
| DocValidation.DroppingRecommendedWarns | src/utils/jsonld-generator.js:267-278 | without URL, hours and coordinates all three warnings appear |
| DocValidation.DroppingRecommendedAddsNoError | src/utils/jsonld-generator.js:267-278 | dropping URL, hours and coordinates adds no error |
| DocValidation.CoordinateBoundsInclusive | src/utils/jsonld-generator.js:293-298 | latitude 90 and longitude -180 are accepted, latitude -90.5 is rejected, and a non-number longitude is rejected |
| DocValidation.PlaceholderIsValid | src/utils/jsonld-generator.js:230-319 | the placeholder document is valid and draws all three warnings |
| DocValidation.AllWarnings | src/utils/jsonld-generator.js:267-278 | a document without URL, coordinates and hours gets the three warnings in source order |
| DocValidation.UnpaddedHoursFlagged | src/utils/jsonld-generator.js:308 | `9:00` to `10:00` is reported as out of order, while `09:00` to `10:00` is not |
| DocValidation.PhoneMessageCapitalised | src/utils/jsonld-generator.js:264 | the phone error message contains `Phone` and not `phone` |
| DocValidation.AddressPoints | src/utils/jsonld-generator.js:416-420 | address points are a multiple of 5 up to 20, five per truthy checked field |
| DocValidation.EarnedPoints | src/utils/jsonld-generator.js:410-432 | earned points are a multiple of 5 up to the maximum of 120 |
| DocValidation.CompletenessScore | src/utils/jsonld-generator.js:406-435 | the score is at most 100 and is the earned share of 120, as a percentage rounded half up |
| DocValidation.RoundHalfUp | src/utils/jsonld-generator.js:434 | for earned points `e`, `(5e + 3) / 6` is `e / 120 * 100` rounded half up |
| DocValidation.MinimalDocumentScoresFifty | src/utils/jsonld-generator.js:406-435 | name, phone and a complete address alone score 50 |
| DocValidation.FullDocumentScoresHundred | src/utils/jsonld-generator.js:406-435 | a document with every required and recommended field scores 100 |
| DocValidation.PlaceholderScoresFifty | src/utils/jsonld-generator.js:406-435 | the placeholder scores 50 |
| DocValidation.EarnedPointsAddRecommended | src/utils/jsonld-generator.js:427-432 | adding one absent recommended field earns exactly 10 more points |
| DocValidation.AddingRecommendedFieldRaisesScore | src/utils/jsonld-generator.js:427-434 | adding an absent recommended field strictly raises the score |
| DocValidation.AddressPointsFill | src/utils/jsonld-generator.js:418-420 | filling an empty checked address field adds exactly 5 address points |
| DocValidation.FillingAddressFieldRaisesScore | src/utils/jsonld-generator.js:416-434 | filling an empty checked address field strictly raises the score |
| DocValidation.GeneratedName | src/utils/jsonld-generator.js:20-22 | a generated document has a valid name exactly when the sanitized business name is not blank |
| DocValidation.BuiltAddressComplete | src/utils/jsonld-generator.js:282-287 | a built address has all four checked fields exactly when the sanitized street, city and state are non-empty and the postal code is truthy |
| DocValidation.GeneratedDocumentValidity | src/utils/jsonld-generator.js:250-319 | a document generated from a non-empty form is valid exactly when the sanitized name is not blank, the sanitized street, city and state are non-empty, postal code and phone are truthy, parsed coordinates are in range, and every compiled spec opens before it closes |
| Validators.Required | src/utils/validators.js:9-15 | valid exactly when the trimmed value is non-empty; the message is always `This field is required` |
| Validators.IndexOf | src/utils/validators.js:203-204 | the index of the first occurrence of the character, or -1 exactly when it does not occur |
| Validators.EmailMatchesIff | src/utils/validators.js:23 | the scanning matcher accepts exactly the strings with whitespace-free, `@`-free local and domain parts and a dot neither first nor last in the domain |
| Validators.Email | src/utils/validators.js:20-28 | the empty value is accepted; otherwise valid exactly when the string splits as the e-mail pattern demands |
| Validators.DigitsOf | src/utils/validators.js:79 | `replace(/\D/g, '')` leaves only digits and never lengthens the text |
| Validators.DigitsOfAppend | src/utils/validators.js:58 | stripping non-digits from a concatenation strips each part |
| Validators.FormatPhoneNumber | src/utils/validators.js:78-92 | ten digits give `(ddd) ddd-dddd`, more than ten give `+` and the digits, fewer leave the value as it is; the digits are kept in every case |
| Validators.FormatPhoneNumberIdempotent | src/utils/validators.js:78-92 | formatting a formatted number changes nothing |
| Validators.Phone | src/utils/validators.js:54-73 | the empty value is accepted; otherwise valid exactly when it has 7 to 15 digits, and then normalised by the formatter |
| Validators.PatternFor | src/utils/validators.js:156-163 | `CA` and `UK` select their own patterns, and every other key falls back to the US one |
| Validators.OutwardMatchesIff | src/utils/validators.js:159 | the matcher for the outward part of a UK postcode accepts exactly the strings of the regular expression's shape |
| Validators.UkMatchesIff | src/utils/validators.js:159 | the UK matcher accepts exactly the strings that split as the UK regular expression demands |
| Validators.PostalCode | src/utils/validators.js:153-169 | the empty value is accepted; otherwise the trimmed value is matched against the UK, Canadian or US pattern chosen by the key |
| Validators.GbFallsBackToUs | src/utils/validators.js:156-163 | `SW1A 1AA` is accepted under `UK` but rejected under `GB`, while `12345` is accepted under `GB` |
| Validators.ZipAcceptedUnderGb | src/utils/validators.js:157-163 | every five-digit ZIP code is accepted under `GB` |
| Validators.PostalCodeIgnoresSurroundingSpace | src/utils/validators.js:166 | a value and its trim get the same verdict |
| Validators.MaxLength | src/utils/validators.js:174-181 | the empty value is accepted; otherwise valid exactly when the number of UTF-16 code units is at most the maximum, with the maximum in the message |
| Validators.MaxLengthMonotone | src/utils/validators.js:174-181 | a value within a limit is within every larger limit, and always within its own length |
| Validators.MaxLengthCountsCodeUnits | src/utils/validators.js:174-181 | for characters up to U+FFFF the limit counts characters, while one character above U+FFFF already exceeds the limit 1 |
| Validators.TimeMatchesIff | src/utils/validators.js:189 | the time matcher accepts exactly a one- or two-digit hour from 0 to 23, a colon and a two-digit minute from 00 to 59 |
| Validators.Time | src/utils/validators.js:186-195 | the empty value is accepted; otherwise valid exactly when it has the `H:MM` or `HH:MM` shape with an hour up to 23 |
| Validators.SplitJoin | src/utils/validators.js:203-204 | no piece of `split` holds the separator, and joining the pieces with it gives back the string |
| Validators.ToNumberIsTrimmedNumber | src/utils/validators.js:203-204 | reading a digit string directly agrees with `Number`'s trim-then-parse |
| Validators.TimeRange | src/utils/validators.js:200-213 | accepted when either side is empty; otherwise valid only when both minute counts are numbers, with the fixed message |
| Validators.MinutesOfClock | src/utils/validators.js:203-207 | a well-formed time yields its minutes since midnight |
| Validators.TimeRangeOnClockTimes | src/utils/validators.js:200-213 | for two well-formed times, valid exactly when opening is earlier in minutes |
| Validators.MissingColonFailsRange | src/utils/validators.js:203-210 | a time without a colon makes the minute count NaN and the range invalid |
| Validators.ReplaceCharAppend | src/utils/validators.js:223-227 | a global replacement of one character distributes over concatenation |
| Validators.EscapeChainIsEscape | src/utils/validators.js:221-227 | the five chained replacements equal one per-character escape |
| Validators.Escape | src/utils/validators.js:223-227 | the escaped text contains none of `< > " ' /` |
| Validators.SanitizeHtml | src/utils/validators.js:218-228 | falsy input gives `''`; otherwise the trimmed value is escaped, and the result contains none of `< > " ' /` |
| Validators.EscapeEnds | src/utils/validators.js:221-227 | escaping a trimmed non-empty text leaves it trimmed |
| Validators.SanitizeHtmlIdempotent | src/utils/validators.js:218-228 | sanitizing sanitized text changes nothing |
| Validators.UnescapeEscape | src/utils/validators.js:223-227 | for text without `&`, decoding the five entities recovers the original, so escaping loses nothing |
| Validators.SanitizeHtmlFixed | src/utils/validators.js:218-228 | trimmed text without the five characters is left as it is |
| Validators.AmpersandNotEscaped | src/utils/validators.js:223-227 | `<` and the literal text `&lt;` sanitize to the same output, because `&` is not escaped |
| Validators.NormalizeUrl | src/utils/validators.js:233-242 | the empty value gives `''`; otherwise the result is the trimmed value, prefixed with `https://` unless it already starts with `http://` or `https://`, so it always has a scheme |
| Validators.NormalizeUrlIdempotent | src/utils/validators.js:233-242 | normalising a normalised URL changes nothing |
| Geocoder.TruthyValues | src/utils/geocoder.js:179-185 | there is one part per truthy field, in field order: the truthy field at index `i` is the part at the position given by the number of truthy fields before it; no part is empty, and there are none exactly when no field is truthy |
| Geocoder.BuildAddressString | src/utils/geocoder.js:178-188 | the address string is empty exactly when none of the five fields is truthy |
| Geocoder.JoinCommaRoundTrip | src/utils/geocoder.js:187 | splitting the `', '`-joined parts at the commas gives back the parts when none is empty and none holds a comma |
| Geocoder.AddressStringRoundTrip | src/utils/geocoder.js:178-188 | when no part holds a comma, the address string splits back into the collected parts, which are the truthy fields in the order street, city, state, postal code, country |
| Geocoder.AddressStringAllFive | src/utils/geocoder.js:178-188 | with all five fields truthy the address string is street, city, state, postal code and country joined by `", "` |
| Geocoder.KeepWordAndSpaceShape | src/utils/geocoder.js:172 | symbol removal keeps only word characters and whitespace, and adds no upper-case letter or non-U+0020 whitespace |
| Geocoder.NormalizeAddress | src/utils/geocoder.js:167-173 | the cache key is no longer than the address and uses only `a-z`, digits, `_` and U+0020 |
| Geocoder.NormalizeAddressIgnoresCase | src/utils/geocoder.js:169 | an address and its upper-cased form give the same key |
| Geocoder.NormalizeAddressFixed | src/utils/geocoder.js:167-173 | a key that is trimmed, lower-case, symbol-free and singly spaced is its own normalisation |
| Geocoder.NormalizeAddressNotIdempotent | src/utils/geocoder.js:171-172 | `a - b` normalises to `a  b`, which normalises further to `a b`, so normalising is not idempotent |
| Geocoder.FirstTruthy | src/utils/geocoder.js:113-118 | the value is the first truthy entry along the fallback chain, or `''` when none is truthy |
| Geocoder.FirstTruthyUnique | src/utils/geocoder.js:113-118 | a fallback chain has exactly one such value |
| Geocoder.ParseComponents | src/utils/geocoder.js:109-121 | no address gives `{}`; otherwise each component is the first truthy value of its chain, and the country code is the upper-cased code or `''` |
| Geocoder.EstimateAccuracy | src/utils/geocoder.js:126-138 | `high` exactly when the type contains `house` or the OSM type is `node`; otherwise `medium` exactly when it contains `street` or `road`; otherwise `low` |
| Geocoder.Admit | src/utils/geocoder.js:150-161 | an expired window restarts at zero for one more second; the call is admitted exactly when the count is below the limit, and only an admitted call raises the count |
| Geocoder.CheckRateLimit | src/utils/geocoder.js:143-162 | an unknown provider is always admitted and nothing changes; otherwise only that provider's window takes one step |
| Geocoder.WindowAdmitsAtMostLimit | src/utils/geocoder.js:150-161 | within one window at most `limit` calls in all are admitted |
| Geocoder.AtMostLimitPerWindow | src/utils/geocoder.js:150-161 | a call that opens a window and the calls in the following second are admitted at most `limit` times together |
| Geocoder.NominatimOnePerSecond | src/utils/geocoder.js:13-162 | with the configured limits a first Nominatim call is admitted, a second in the same second is refused, and one a second later is admitted |
| Geocoder.AxisErrors | src/utils/geocoder.js:253-263 | an axis yields no error when its value is a number within the inclusive bound, the not-a-number error when unparsable, and the range error otherwise |
| Geocoder.ValidateCoordinates | src/utils/geocoder.js:247-270 | valid exactly when there is no error, exactly when coordinates are returned, and exactly when both parse within inclusive bounds; each axis adds at most one error, latitude first |
| Preview.CountProperties | src/components/PreviewPane.js:305-320 | a value that is not an object or array counts 0 |
| Preview.CountArrayConcat | src/components/PreviewPane.js:309-315 | the count of an array is the sum of the counts of its parts |
| Preview.CountObjectConcat | src/components/PreviewPane.js:309-315 | the count of an object is the sum of the counts of its parts |
| Preview.ArrayElementCounts | src/components/PreviewPane.js:309-315 | each array element adds 1 plus its own count |
| Preview.AtKeyIgnored | src/components/PreviewPane.js:310 | a key starting with `@` is neither counted nor descended into |
| Preview.PlainKeyCounts | src/components/PreviewPane.js:310-314 | any other key adds 1 plus the count of its value, and exactly 1 for a scalar value |
| Preview.AddressCount | src/components/PreviewPane.js:305-320 | a postal address counts one per field besides `@type` |
| Preview.GeoCount | src/components/PreviewPane.js:305-320 | coordinates count 2 |
| Preview.SpecCount | src/components/PreviewPane.js:305-320 | a spec counts 3, plus one per day when its day is a list |
| Preview.DocumentPropertyCount | src/components/PreviewPane.js:305-320 | the count of a document is its keys besides `@context` and `@type`, plus its address fields, 2 for coordinates, and the hours' count |
| Preview.PropertyCountAtLeastKeys | src/components/PreviewPane.js:305-320 | a document counts at least its keys besides `@context` and `@type` |
| Preview.CharCountClass | src/components/PreviewPane.js:325-329 | above 10000 is a warning, above 5000 medium, otherwise good |
| Preview.SizeClass | src/components/PreviewPane.js:334-338 | above 50000 bytes is a warning, above 20000 medium, otherwise good |
| Preview.PropertyCountClass | src/components/PreviewPane.js:343-347 | below 5 is a warning, below 10 medium, otherwise good |
| Preview.StatClassesMonotone | src/components/PreviewPane.js:325-347 | larger text and files never get a milder class, and more properties never get a worse one |
| Preview.ClassOfScore | src/components/PreviewPane.js:256-264 | 80 and above is high, 60 to 79 medium, below 60 low |
| Preview.CompletenessView | src/components/PreviewPane.js:246-270 | a missing document or one with at most two keys shows `0%`; otherwise the score, at most 100, with its class |
| Preview.StatusOf | src/components/PreviewPane.js:215-241 | a missing document or one with at most two keys shows the waiting line; otherwise valid exactly when the document validates, else the length of the validator's error list, which is positive; the warning count is the number of missing recommended fields |
| Preview.StatusCountsFailingChecks | src/components/PreviewPane.js:226-236 | an invalid document's error count is the number of failing checks |
| Preview.ScoreClassMonotone | src/components/PreviewPane.js:256-264 | a higher score never gets a lower class |
| Preview.MinimalValidDocumentShowsLow | src/components/PreviewPane.js:254-264 | a document with only the required fields shows 50 with the low class |
| Preview.UpdatePreview | src/components/PreviewPane.js:130-170 | the document is shown exactly when the form has data; without data the pane shows waiting, `0%` and a count of 0; with data it shows the generated document's status, score and property count |
| Preview.HasDataMeansMoreThanTwoKeys | src/components/PreviewPane.js:135-136 | a form with data always gives a document of more than two keys, so the pane never shows waiting or `0%` next to a document |
| Consistency.CoordinatesAgree | src/utils/jsonld-generator.js:101-118 | the generator attaches coordinates that pass the document check exactly when the geocoder's coordinate check accepts the same latitude and longitude |
| Consistency.UnparsableCoordinateOnlyGeocoderReports | src/utils/geocoder.js:253-254 | an unparsable latitude silently drops `geo` from the document, while the geocoder's check reports it |
| Consistency.UnpaddedRangeJudgedDifferently | src/utils/validators.js:200-213 | the field validator accepts `9:00` to `10:00`, while the document check rejects the same hours |

## Left out

- DOM, rendering and browser APIs: the form, export controls and the application
  shell; the pane's highlighting, timers and clipboard; and the `FieldValidator` and
  `FormValidator` classes, which are bound to DOM elements and events.
- The network, async calls and the cache: `geocode`, the provider calls, reverse
  geocoding, the connectivity test and the geocoder's cache and singleton.
- Floating point: `calculateDistance`, `toRadians` and both `formatBytes` functions.
  Coordinates are reals, and `parseFloat` is a parameter.
- `Validators.latitude` and `Validators.longitude`: their `toFixed(6)` rounding is
  floating-point formatting.
- `Validators.url`: it depends on the WHATWG `URL` parser.
- `format`, `minify` and `toHtmlScript`: they are `JSON.stringify` and string
  concatenation around it. For the same reason the character and byte counts the
  pane classifies are parameters of the classifiers and are not computed from a
  document.
- `getSupportedBusinessTypes` and the form's static tables: they are data.
- `Object.prototype` keys and non-string form values. A form holds strings, the
  all-day boolean and the hours map.
- Non-ASCII case mapping: `toLowerCase` and `toUpperCase` are modelled on ASCII letters
  only.
- Geocoder.NormalizeAddress: the character-class guarantee is stated for every input,
  but `\w` and `\s` are modelled as ASCII word characters and JavaScript whitespace;
  the non-idempotence lemma is stated for lower-case letters around the symbol.
- JsonLd.SanitizeNotIdempotent: stated for any control character that is not
  whitespace, followed by a space and any visible character, rather than for all
  inputs that break idempotence.
- Validators.TimeRange: its general contract states only the necessary condition
  (both minute counts are numbers). The exact verdict is stated for well-formed
  times by `Validators.TimeRangeOnClockTimes`. `Number` is modelled only for the
  strings a time field holds: it gives NaN for signs, decimals and exponents.
- Preview.CountProperties: its own contract covers scalars only. Arrays, `@` keys and
  plain keys are covered by the lemmas listed with it.
- Test expectations that disagree with the code: the generator test expecting
  `"Business Name"`, the one expecting a lower-case `phone` in the error, and the
  one expecting at least 60 for a required-only document.
