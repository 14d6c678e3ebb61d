/**
 * The form's field validators and normalisers: each takes the raw field text and
 * reports whether it is acceptable, with the message the form shows and, for some,
 * a normalised value.
 */
module Validators {
  import opened Wrappers
  import opened Text

  /** `{ isValid, message, normalizedValue? }`. */
  datatype FieldResult = FieldResult(isValid: bool, message: string, normalized: Option<string>)

  const Accepted: FieldResult := FieldResult(true, "", None)

  // ------------------------------------------------------------------ required

  /** `required`: valid exactly when the value has a non-whitespace character; the
      message is the same either way. */
  function Required(value: string): (r: FieldResult)
    ensures r.isValid <==> NonBlank(value)
    ensures r.message == "This field is required" && r.normalized.None?
  {
    TrimEmptyIff(value);
    FieldResult(|Trim(value)| > 0, "This field is required", None)
  }

  // --------------------------------------------------------------------- email

  /** Position of the first `c` in `s`, or -1. */
  function IndexOf(s: string, c: char): (r: int)
    ensures -1 <= r < |s|
    ensures r == -1 <==> forall k :: 0 <= k < |s| ==> s[k] != c
    ensures r >= 0 ==> s[r] == c && forall k :: 0 <= k < r ==> s[k] != c
  {
    if s == [] then -1
    else if s[0] == c then 0
    else
      var r := IndexOf(s[1..], c);
      if r == -1 then -1 else r + 1
  }

  /** Whether some position in `[lo, hi)` holds a dot. */
  function DotIn(s: string, lo: nat, hi: nat): (b: bool)
    requires hi <= |s|
    ensures b <==> exists j :: lo <= j < hi && s[j] == '.'
    decreases hi - lo
  {
    if lo >= hi then false else s[lo] == '.' || DotIn(s, lo + 1, hi)
  }

  /** The address splits as `u@v.w` with `u`, `v`, `w` non-empty, the `@` at `a` and
      the dot at `j`, and no whitespace and no other `@` anywhere: the language of
      `/^[^\s@]+@[^\s@]+\.[^\s@]+$/`. */
  predicate EmailSplit(s: string, a: int, j: int) {
    0 < a && a + 1 < j && j + 1 < |s| && s[a] == '@' && s[j] == '.'
    && forall k :: 0 <= k < |s| ==> !IsSpace(s[k]) && (s[k] == '@' ==> k == a)
  }

  /** A left-to-right matcher for the email pattern. */
  predicate EmailMatches(s: string) {
    var a := IndexOf(s, '@');
    NoSpace(s) && a >= 1 && IndexOf(s[a + 1..], '@') == -1 && a + 2 < |s| && DotIn(s, a + 2, |s| - 1)
  }

  lemma EmailMatchesIff(s: string)
    ensures EmailMatches(s) <==> exists a, j :: EmailSplit(s, a, j)
  {
    var a := IndexOf(s, '@');
    if EmailMatches(s) {
      var j :| a + 2 <= j < |s| - 1 && s[j] == '.';
      assert EmailSplit(s, a, j);
    }
    if exists a', j :: EmailSplit(s, a', j) {
      var a', j :| EmailSplit(s, a', j);
      assert a == a';
      assert s[j] == '.';
      var t := s[a + 1..];
      forall k | 0 <= k < |t| ensures t[k] != '@' {
        assert t[k] == s[a + 1 + k];
      }
    }
  }

  /** `email`: the empty value is accepted; otherwise valid exactly when the value is
      in the language of the email pattern. */
  function Email(value: string): (r: FieldResult)
    ensures value == "" ==> r == Accepted
    ensures value != "" ==> r.message == "Please enter a valid email address" && r.normalized.None?
    ensures value != "" ==> (r.isValid <==> exists a, j :: EmailSplit(value, a, j))
  {
    if value == "" then Accepted
    else
      EmailMatchesIff(value);
      FieldResult(EmailMatches(value), "Please enter a valid email address", None)
  }

  // --------------------------------------------------------------------- phone

  /** `value.replace(/\D/g, '')`: the ASCII digits of `s`, in order. */
  function DigitsOf(s: string): (d: string)
    ensures AllDigits(d) && |d| <= |s|
  {
    if s == [] then [] else (if IsDigit(s[0]) then [s[0]] else []) + DigitsOf(s[1..])
  }

  lemma {:induction false} DigitsOfAppend(a: string, b: string)
    ensures DigitsOf(a + b) == DigitsOf(a) + DigitsOf(b)
  {
    if a == [] {
      assert a + b == b;
    } else {
      assert (a + b)[0] == a[0];
      assert (a + b)[1..] == a[1..] + b;
      DigitsOfAppend(a[1..], b);
    }
  }

  lemma {:induction false} DigitsOfDigits(s: string)
    requires AllDigits(s)
    ensures DigitsOf(s) == s
  {
    if s != [] {
      DigitsOfDigits(s[1..]);
    }
  }

  lemma {:induction false} DigitsOfNone(s: string)
    requires forall i :: 0 <= i < |s| ==> !IsDigit(s[i])
    ensures DigitsOf(s) == []
  {
    if s != [] {
      DigitsOfNone(s[1..]);
    }
  }

  /** `formatPhoneNumber`: ten digits become `(ddd) ddd-dddd`, more than ten become `+`
      and the digits, fewer than ten leave the value as it is. The digits are kept
      in every case. */
  function FormatPhoneNumber(value: string): (r: string)
    ensures var d := DigitsOf(value);
      && (|d| == 10 ==> r == "(" + d[..3] + ") " + d[3..6] + "-" + d[6..])
      && (|d| > 10 ==> r == "+" + d)
      && (|d| < 10 ==> r == value)
    ensures DigitsOf(r) == DigitsOf(value)
  {
    var d := DigitsOf(value);
    if |d| == 10 then
      var r := "(" + d[..3] + ") " + d[3..6] + "-" + d[6..];
      TenDigitLayout(d);
      r
    else if |d| > 10 then
      PlusLayout(d);
      "+" + d
    else value
  }

  lemma PlusLayout(d: string)
    requires AllDigits(d)
    ensures DigitsOf("+" + d) == d
  {
    DigitsOfAppend("+", d);
    DigitsOfNone("+");
    DigitsOfDigits(d);
  }

  lemma TenDigitLayout(d: string)
    requires |d| == 10 && AllDigits(d)
    ensures DigitsOf("(" + d[..3] + ") " + d[3..6] + "-" + d[6..]) == d
  {
    var a, b, c := d[..3], d[3..6], d[6..];
    DigitsOfNone("(");
    DigitsOfNone(") ");
    DigitsOfNone("-");
    DigitsOfDigits(a);
    DigitsOfDigits(b);
    DigitsOfDigits(c);
    DigitsOfAppend("(" + a + ") " + b + "-", c);
    DigitsOfAppend("(" + a + ") " + b, "-");
    DigitsOfAppend("(" + a + ") ", b);
    DigitsOfAppend("(" + a, ") ");
    DigitsOfAppend("(", a);
    assert a + b + c == d;
  }

  /** Formatting an already formatted number changes nothing. */
  lemma FormatPhoneNumberIdempotent(value: string)
    ensures FormatPhoneNumber(FormatPhoneNumber(value)) == FormatPhoneNumber(value)
  {
  }

  /** `phone`: the empty value is accepted; otherwise valid exactly when it holds 7 to 15
      digits, and a valid value is normalised by `FormatPhoneNumber`. */
  function Phone(value: string): (r: FieldResult)
    ensures value == "" ==> r == Accepted
    ensures value != "" ==> (r.isValid <==> 7 <= |DigitsOf(value)| <= 15)
    ensures value != "" && r.isValid ==> r.message == "" && r.normalized == Some(FormatPhoneNumber(value))
    ensures !r.isValid ==> r.message == "Please enter a valid phone number" && r.normalized.None?
  {
    if value == "" then Accepted
    else
      var d := DigitsOf(value);
      if |d| < 7 || |d| > 15 then FieldResult(false, "Please enter a valid phone number", None)
      else FieldResult(true, "", Some(FormatPhoneNumber(value)))
  }

  // --------------------------------------------------------------- postal code

  datatype PostalPattern = UsPattern | CaPattern | UkPattern

  /** `patterns[country] || patterns.US`: only the keys `US`, `CA` and `UK` have a
      pattern; every other key, `GB` included, falls back to the US one. */
  function PatternFor(country: string): (p: PostalPattern)
    ensures p == CaPattern <==> country == "CA"
    ensures p == UkPattern <==> country == "UK"
  {
    if country == "CA" then CaPattern else if country == "UK" then UkPattern else UsPattern
  }

  /** `/^\d{5}(-\d{4})?$/` */
  predicate UsPostal(t: string) {
    (|t| == 5 && AllDigits(t))
    || (|t| == 10 && AllDigits(t[..5]) && t[5] == '-' && AllDigits(t[6..]))
  }

  /** `/^[A-Za-z]\d[A-Za-z] ?\d[A-Za-z]\d$/`: six characters, or seven with a space
      in the middle. */
  predicate CaPostal(t: string) {
    (|t| == 6 || (|t| == 7 && t[3] == ' '))
    && var u := if |t| == 7 then t[..3] + t[4..] else t;
       IsLetter(u[0]) && IsDigit(u[1]) && IsLetter(u[2]) && IsDigit(u[3]) && IsLetter(u[4]) && IsDigit(u[5])
  }

  predicate IsUpperOrDigit(c: char) { IsUpper(c) || IsDigit(c) }

  /** `[A-Z]{1,2}\d[A-Z\d]?` restated by its choices: `letters` upper-case letters,
      a digit, then `extra` upper-case letters or digits. */
  predicate OutwardAs(o: string, letters: int, extra: int) {
    1 <= letters <= 2 && 0 <= extra <= 1 && |o| == letters + 1 + extra
    && (forall i :: 0 <= i < letters ==> IsUpper(o[i]))
    && IsDigit(o[letters])
    && (extra == 1 ==> IsUpperOrDigit(o[letters + 1]))
  }

  /** `\d[A-Z]{2}` */
  predicate Inward(w: string) {
    |w| == 3 && IsDigit(w[0]) && IsUpper(w[1]) && IsUpper(w[2])
  }

  /** The UK pattern `/^[A-Z]{1,2}\d[A-Z\d]? ?\d[A-Z]{2}$/` as the language it
      denotes: an outward code, an optional space, an inward code. */
  predicate UkSplit(t: string, letters: int, extra: int, space: int) {
    1 <= letters <= 2 && 0 <= extra <= 1 && 0 <= space <= 1 && letters + 1 + extra + space + 3 == |t|
    && OutwardAs(t[..letters + 1 + extra], letters, extra)
    && (space == 1 ==> t[letters + 1 + extra] == ' ')
    && Inward(t[|t| - 3..])
  }

  /** A deterministic matcher for the UK pattern: read the inward code from the end,
      drop one separating space, then check the outward code by its length. */
  predicate OutwardMatches(o: string) {
    (|o| == 2 && IsUpper(o[0]) && IsDigit(o[1]))
    || (|o| == 3 && IsUpper(o[0]) && ((IsUpper(o[1]) && IsDigit(o[2])) || (IsDigit(o[1]) && IsUpperOrDigit(o[2]))))
    || (|o| == 4 && IsUpper(o[0]) && IsUpper(o[1]) && IsDigit(o[2]) && IsUpperOrDigit(o[3]))
  }

  predicate UkMatches(t: string) {
    |t| >= 5 && Inward(t[|t| - 3..])
    && var r := t[..|t| - 3];
       var o := if r[|r| - 1] == ' ' then r[..|r| - 1] else r;
       OutwardMatches(o)
  }

  lemma OutwardMatchesIff(o: string)
    ensures OutwardMatches(o) <==> exists l, x :: OutwardAs(o, l, x)
  {
    if OutwardMatches(o) {
      if |o| == 2 {
        assert OutwardAs(o, 1, 0);
      } else if |o| == 3 && IsUpper(o[1]) && IsDigit(o[2]) {
        assert OutwardAs(o, 2, 0);
      } else if |o| == 3 {
        assert OutwardAs(o, 1, 1);
      } else {
        assert OutwardAs(o, 2, 1);
      }
    }
    if exists l, x :: OutwardAs(o, l, x) {
      var l, x :| OutwardAs(o, l, x);
      assert IsUpper(o[0]);
      if l == 2 {
        assert IsUpper(o[1]);
      }
    }
  }

  lemma UkMatchesIff(t: string)
    ensures UkMatches(t) <==> exists l, x, sp :: UkSplit(t, l, x, sp)
  {
    if UkMatches(t) {
      var r := t[..|t| - 3];
      var sp := if r[|r| - 1] == ' ' then 1 else 0;
      var o := r[..|r| - sp];
      OutwardMatchesIff(o);
      var l, x :| OutwardAs(o, l, x);
      assert t[..l + 1 + x] == o;
      assert UkSplit(t, l, x, sp);
    }
    if exists l, x, sp :: UkSplit(t, l, x, sp) {
      var l, x, sp :| UkSplit(t, l, x, sp);
      var r := t[..|t| - 3];
      var o := t[..l + 1 + x];
      assert r[|r| - 1] == ' ' <==> sp == 1 by {
        if sp == 0 {
          assert r[|r| - 1] == o[l + x];
          assert IsDigit(o[l + x]) || IsUpperOrDigit(o[l + x]);
        }
      }
      assert (if r[|r| - 1] == ' ' then r[..|r| - 1] else r) == o;
      OutwardMatchesIff(o);
    }
  }

  function Matches(p: PostalPattern, t: string): bool {
    match p
    case UsPattern => UsPostal(t)
    case CaPattern => CaPostal(t)
    case UkPattern => UkMatches(t)
  }

  /** `postalCode`: the empty value is accepted; otherwise the trimmed value is matched
      against the pattern for `country`. */
  function PostalCode(value: string, country: string): (r: FieldResult)
    ensures value == "" ==> r == Accepted
    ensures value != "" ==> r.message == "Please enter a valid postal code" && r.normalized.None?
    ensures value != "" && country == "UK" ==>
      (r.isValid <==> exists l, x, sp :: UkSplit(Trim(value), l, x, sp))
    ensures value != "" && country == "CA" ==> (r.isValid <==> CaPostal(Trim(value)))
    ensures value != "" && country != "CA" && country != "UK" ==> (r.isValid <==> UsPostal(Trim(value)))
  {
    if value == "" then Accepted
    else
      UkMatchesIff(Trim(value));
      FieldResult(Matches(PatternFor(country), Trim(value)), "Please enter a valid postal code", None)
  }

  /** A `GB` key, the one the form supplies for the United Kingdom, is checked with the
      US pattern, so a well-formed UK postcode is rejected under it. */
  lemma GbFallsBackToUs()
    ensures PostalCode("SW1A 1AA", "UK").isValid
    ensures !PostalCode("SW1A 1AA", "GB").isValid
    ensures PostalCode("12345", "GB").isValid
  {
    assert PostalCode("12345", "GB").isValid by {
      assert AllDigits("12345");
      ZipAcceptedUnderGb("12345");
    }
    UkPostcodeAcceptedUnderUk();
    UkPostcodeRejectedUnderGb();
  }

  lemma UkPostcodeAcceptedUnderUk()
    ensures PostalCode("SW1A 1AA", "UK").isValid
  {
    SampleUkPostcodeTrimmed();
    SampleUkPostcodeSplits();
  }

  lemma UkPostcodeRejectedUnderGb()
    ensures !PostalCode("SW1A 1AA", "GB").isValid
  {
    SampleUkPostcodeTrimmed();
  }

  /** Every five-digit ZIP code passes under `GB`. */
  lemma ZipAcceptedUnderGb(zip: string)
    requires |zip| == 5 && AllDigits(zip)
    ensures PostalCode(zip, "GB").isValid
  {
    assert "GB"[1] != "CA"[1] && "GB"[1] != "UK"[1];
    assert !IsSpace(zip[0]) && !IsSpace(zip[4]);
    TrimOfTrimmed(zip);
  }

  lemma SampleUkPostcodeTrimmed()
    ensures Trim("SW1A 1AA") == "SW1A 1AA"
  {
    var t := "SW1A 1AA";
    assert !IsSpace(t[0]) && !IsSpace(t[7]);
    TrimOfTrimmed(t);
  }

  lemma SampleUkPostcodeSplits()
    ensures UkSplit("SW1A 1AA", 2, 1, 1)
  {
    var t := "SW1A 1AA";
    assert t[..4] == "SW1A";
    assert OutwardAs("SW1A", 2, 1);
    assert t[5..] == "1AA";
  }

  /** Surrounding whitespace never changes the verdict. */
  lemma PostalCodeIgnoresSurroundingSpace(value: string, country: string)
    requires Trim(value) != ""
    ensures PostalCode(Trim(value), country).isValid == PostalCode(value, country).isValid
  {
    TrimIdempotent(value);
  }

  // ---------------------------------------------------------------- max length

  /** `maxLength`: the empty value is accepted; otherwise valid exactly when the value
      has at most `max` UTF-16 code units, the unit JavaScript's `length` counts. */
  function MaxLength(value: string, max: int): (r: FieldResult)
    ensures value == "" ==> r == Accepted
    ensures value != "" ==> (r.isValid <==> Utf16Length(value) <= max)
    ensures value != "" ==> r.message == "Maximum " + IntToString(max) + " characters allowed"
  {
    if value == "" then Accepted
    else FieldResult(Utf16Length(value) <= max, "Maximum " + IntToString(max) + " characters allowed", None)
  }

  /** A value within a limit is within every larger limit, and a value of `n` code units
      is within the limit `n`. */
  lemma MaxLengthMonotone(value: string, max: int, larger: int)
    requires max <= larger
    ensures MaxLength(value, max).isValid ==> MaxLength(value, larger).isValid
    ensures MaxLength(value, Utf16Length(value)).isValid
  {
  }

  /** Text of characters up to U+FFFF is measured by its number of characters; one
      character above U+FFFF already takes two code units, so it exceeds the limit 1. */
  lemma MaxLengthCountsCodeUnits(value: string, max: int)
    requires value != [] && forall i :: 0 <= i < |value| ==> value[i] as int <= 0xFFFF
    ensures MaxLength(value, max).isValid <==> |value| <= max
    ensures !MaxLength("\U{1F600}", 1).isValid
  {
    Utf16LengthOfBmp(value);
    assert Utf16Length("\U{1F600}") == 2 by {
      assert "\U{1F600}"[1..] == [];
    }
  }

  // ---------------------------------------------------------------------- time

  /** A left-to-right matcher for `/^([0-1]?[0-9]|2[0-3]):[0-5][0-9]$/`. */
  predicate TimeMatches(v: string) {
    (|v| == 4 && IsDigit(v[0]) && v[1] == ':' && '0' <= v[2] <= '5' && IsDigit(v[3]))
    || (|v| == 5
        && (('0' <= v[0] <= '1' && IsDigit(v[1])) || (v[0] == '2' && '0' <= v[1] <= '3'))
        && v[2] == ':' && '0' <= v[3] <= '5' && IsDigit(v[4]))
  }

  /** `v` reads as a clock time with `h` hour digits: hours 0-23 in one or two digits,
      a colon, minutes 00-59 in two digits. */
  predicate ClockAs(v: string, h: int) {
    1 <= h <= 2 && |v| == h + 3 && AllDigits(v[..h]) && v[h] == ':' && AllDigits(v[h + 1..])
    && DecimalValue(v[..h]) <= 23 && DecimalValue(v[h + 1..]) <= 59
  }

  lemma DecimalOne(s: string)
    requires |s| == 1 && AllDigits(s)
    ensures DecimalValue(s) == DigitValue(s[0])
  {
    assert s[..0] == [];
  }

  lemma DecimalTwo(s: string)
    requires |s| == 2 && AllDigits(s)
    ensures DecimalValue(s) == 10 * DigitValue(s[0]) + DigitValue(s[1])
  {
    DecimalOne(s[..1]);
  }

  lemma TimeMatchesIff(v: string)
    ensures TimeMatches(v) <==> exists h :: ClockAs(v, h)
  {
    if |v| == 4 || |v| == 5 {
      var h := |v| - 3;
      if AllDigits(v[..h]) && AllDigits(v[h + 1..]) {
        DecimalTwo(v[h + 1..]);
        if h == 1 {
          DecimalOne(v[..1]);
        } else {
          DecimalTwo(v[..2]);
        }
      }
      if TimeMatches(v) {
        assert ClockAs(v, h);
      }
    }
  }

  /** `time`: the empty value is accepted; otherwise valid exactly when it reads as a
      clock time. */
  function Time(value: string): (r: FieldResult)
    ensures value == "" ==> r == Accepted
    ensures value != "" ==> r.message == "Please enter time in HH:MM format" && r.normalized.None?
    ensures value != "" ==> (r.isValid <==> exists h :: ClockAs(value, h))
  {
    if value == "" then Accepted
    else
      TimeMatchesIff(value);
      FieldResult(TimeMatches(value), "Please enter time in HH:MM format", None)
  }

  // ---------------------------------------------------------------- time range

  /** Glues `parts` back together with `c` between neighbours. */
  function Join(parts: seq<string>, c: char): string
    requires |parts| >= 1
  {
    if |parts| == 1 then parts[0] else parts[0] + [c] + Join(parts[1..], c)
  }

  /** `String.prototype.split` on one character: the pieces between occurrences of `c`. */
  function Split(s: string, c: char): (parts: seq<string>)
    ensures |parts| >= 1
    decreases |s|
  {
    var i := IndexOf(s, c);
    if i == -1 then [s] else [s[..i]] + Split(s[i + 1..], c)
  }

  /** No piece of a split holds the separator, and joining the pieces with it gives
      back the original string. */
  lemma {:induction false} SplitJoin(s: string, c: char)
    ensures var parts := Split(s, c);
      && (forall i, k :: 0 <= i < |parts| && 0 <= k < |parts[i]| ==> parts[i][k] != c)
      && Join(parts, c) == s
    decreases |s|
  {
    var i := IndexOf(s, c);
    if i != -1 {
      SplitJoin(s[i + 1..], c);
      SplitJoinStep(s, c, i);
    }
  }

  lemma SplitJoinStep(s: string, c: char, i: int)
    requires 0 <= i < |s| && i == IndexOf(s, c)
    requires var rest := Split(s[i + 1..], c);
      && (forall j, k :: 0 <= j < |rest| && 0 <= k < |rest[j]| ==> rest[j][k] != c)
      && Join(rest, c) == s[i + 1..]
    ensures var parts := Split(s, c);
      && (forall j, k :: 0 <= j < |parts| && 0 <= k < |parts[j]| ==> parts[j][k] != c)
      && Join(parts, c) == s
  {
    var rest := Split(s[i + 1..], c);
    var p := s[..i];
    assert s == p + [c] + s[i + 1..] by {
      SliceAround(s, i);
    }
    SplitUnfold(s, c);
    BeforeIndexOf(s, c, i);
    PiecesCons(p, rest, c);
    JoinCons(p, rest, c);
  }

  lemma SliceAround(s: string, i: int)
    requires 0 <= i < |s|
    ensures s == s[..i] + [s[i]] + s[i + 1..]
  {
  }

  lemma SplitUnfold(s: string, c: char)
    ensures IndexOf(s, c) != -1 ==>
      Split(s, c) == [s[..IndexOf(s, c)]] + Split(s[IndexOf(s, c) + 1..], c)
  {
  }

  /** The text before the first occurrence of `c` does not hold `c`. */
  lemma BeforeIndexOf(s: string, c: char, i: int)
    requires 0 <= i < |s| && i == IndexOf(s, c)
    ensures forall k :: 0 <= k < |s[..i]| ==> s[..i][k] != c
  {
    forall k | 0 <= k < i ensures s[..i][k] != c {
      assert s[..i][k] == s[k];
    }
  }

  lemma PiecesCons(p: string, rest: seq<string>, c: char)
    requires forall k :: 0 <= k < |p| ==> p[k] != c
    requires forall j, k :: 0 <= j < |rest| && 0 <= k < |rest[j]| ==> rest[j][k] != c
    ensures var parts := [p] + rest;
      forall j, k :: 0 <= j < |parts| && 0 <= k < |parts[j]| ==> parts[j][k] != c
  {
    var parts := [p] + rest;
    forall j, k | 0 <= j < |parts| && 0 <= k < |parts[j]| ensures parts[j][k] != c {
      if j > 0 {
        assert parts[j] == rest[j - 1];
      }
    }
  }

  lemma JoinCons(p: string, rest: seq<string>, c: char)
    requires |rest| >= 1
    ensures Join([p] + rest, c) == p + [c] + Join(rest, c)
  {
    assert ([p] + rest)[1..] == rest;
  }

  /** A JavaScript number restricted to what clock strings produce: an integer or NaN. */
  datatype JsNumber = Finite(value: int) | NaN

  /** `Number(s)` on the strings a time field holds: surrounding whitespace is ignored,
      the empty string is 0, a run of ASCII digits is its decimal value, and anything
      else is NaN. */
  function TrimmedNumber(s: string): JsNumber {
    var t := Trim(s);
    if t == "" then Finite(0)
    else if AllDigits(t) then Finite(DecimalValue(t))
    else NaN
  }

  /** `Number(s)`, reading a plain digit string directly. */
  function ToNumber(s: string): JsNumber {
    if s != [] && AllDigits(s) then Finite(DecimalValue(s)) else TrimmedNumber(s)
  }

  /** Reading a digit string directly agrees with trimming it first. */
  lemma ToNumberIsTrimmedNumber(s: string)
    ensures ToNumber(s) == TrimmedNumber(s)
  {
    if s != [] && AllDigits(s) {
      assert IsDigit(s[0]) && IsDigit(s[|s| - 1]);
      TrimOfTrimmed(s);
    }
  }

  /** A digit string is read as its decimal value. */
  lemma ToNumberOfDigits(s: string)
    requires AllDigits(s) && s != []
    ensures ToNumber(s) == Finite(DecimalValue(s))
  {
  }

  /** `Number(parts[i])`, where a missing part is `undefined` and so NaN. */
  function PartNumber(parts: seq<string>, i: nat): JsNumber {
    if i < |parts| then ToNumber(parts[i]) else NaN
  }

  /** `hour * 60 + minute` from the numbers of the first two pieces; NaN spreads. */
  function PartsMinutes(parts: seq<string>): JsNumber {
    var hour := PartNumber(parts, 0);
    var minute := PartNumber(parts, 1);
    if hour.Finite? && minute.Finite? then Finite(hour.value * 60 + minute.value) else NaN
  }

  /** The minute count of a time after `split(':').map(Number)`. */
  function MinutesOf(t: string): JsNumber {
    PartsMinutes(Split(t, ':'))
  }

  /** `timeRange`: accepted when either side is empty; otherwise valid exactly when
      both sides have a numeric minute count and opening comes first. */
  function TimeRange(openTime: string, closeTime: string): (r: FieldResult)
    ensures openTime == "" || closeTime == "" ==> r == Accepted
    ensures openTime != "" && closeTime != "" ==>
      r.message == "Opening time must be before closing time" && r.normalized.None?
    ensures openTime != "" && closeTime != "" && r.isValid ==>
      MinutesOf(openTime).Finite? && MinutesOf(closeTime).Finite?
  {
    if openTime == "" || closeTime == "" then Accepted
    else
      var o, c := MinutesOf(openTime), MinutesOf(closeTime);
      FieldResult(o.Finite? && c.Finite? && o.value < c.value, "Opening time must be before closing time", None)
  }

  /** Minutes since midnight of a clock time with `h` hour digits. */
  function ClockMinutes(v: string, h: int): nat
    requires ClockAs(v, h)
  {
    60 * DecimalValue(v[..h]) + DecimalValue(v[h + 1..])
  }

  lemma SplitWithout(s: string, c: char)
    requires forall k :: 0 <= k < |s| ==> s[k] != c
    ensures Split(s, c) == [s]
  {
  }

  lemma SplitAtFirst(s: string, c: char, i: int)
    requires 0 <= i < |s| && s[i] == c && forall k :: 0 <= k < i ==> s[k] != c
    ensures Split(s, c) == [s[..i]] + Split(s[i + 1..], c)
  {
  }

  lemma SplitClock(v: string, h: int)
    requires ClockAs(v, h)
    ensures Split(v, ':') == [v[..h], v[h + 1..]]
  {
    var hours, mins := v[..h], v[h + 1..];
    assert forall k :: 0 <= k < h ==> v[k] == hours[k];
    SplitAtFirst(v, ':', h);
    SplitWithout(mins, ':');
  }

  lemma MinutesOfClock(v: string, h: int)
    requires ClockAs(v, h)
    ensures MinutesOf(v) == Finite(ClockMinutes(v, h))
  {
    var hours, mins := v[..h], v[h + 1..];
    SplitClock(v, h);
    assert MinutesOf(v) == PartsMinutes([hours, mins]);
    DigitPartsMinutes(hours, mins);
    assert ClockMinutes(v, h) == 60 * DecimalValue(hours) + DecimalValue(mins);
  }

  lemma DigitPartsMinutes(hours: string, mins: string)
    requires AllDigits(hours) && hours != [] && AllDigits(mins) && mins != []
    ensures PartsMinutes([hours, mins]) == Finite(60 * DecimalValue(hours) + DecimalValue(mins))
  {
    ToNumberOfDigits(hours);
    ToNumberOfDigits(mins);
    PartsMinutesOfNumbers([hours, mins], DecimalValue(hours), DecimalValue(mins));
  }

  lemma PartsMinutesOfNumbers(parts: seq<string>, h: int, m: int)
    requires |parts| >= 2 && ToNumber(parts[0]) == Finite(h) && ToNumber(parts[1]) == Finite(m)
    ensures PartsMinutes(parts) == Finite(60 * h + m)
  {
  }

  /** On two well-formed clock times, the range is valid exactly when the opening time
      is earlier in the day. */
  lemma TimeRangeOnClockTimes(a: string, ha: int, b: string, hb: int)
    requires ClockAs(a, ha) && ClockAs(b, hb)
    ensures TimeRange(a, b).isValid <==> ClockMinutes(a, ha) < ClockMinutes(b, hb)
  {
    MinutesOfClock(a, ha);
    MinutesOfClock(b, hb);
  }

  /** A value without a colon has no minute part, reads as NaN, and fails the range. */
  lemma MissingColonFailsRange()
    ensures !TimeRange("9", "17:00").isValid
  {
    SplitWithout("9", ':');
    assert PartNumber(["9"], 1) == NaN;
  }
  // ------------------------------------------------------------- HTML escaping

  /** `s.replace(/c/g, t)`: every `c` in `s` replaced by `t`. */
  function ReplaceChar(s: string, c: char, t: string): string {
    if s == [] then [] else (if s[0] == c then t else [s[0]]) + ReplaceChar(s[1..], c, t)
  }

  lemma {:induction false} ReplaceCharAppend(a: string, b: string, c: char, t: string)
    ensures ReplaceChar(a + b, c, t) == ReplaceChar(a, c, t) + ReplaceChar(b, c, t)
  {
    if a == [] {
      assert a + b == b;
    } else {
      assert (a + b)[0] == a[0];
      assert (a + b)[1..] == a[1..] + b;
      ReplaceCharAppend(a[1..], b, c, t);
    }
  }

  lemma {:induction false} ReplaceCharAbsent(s: string, c: char, t: string)
    requires forall k :: 0 <= k < |s| ==> s[k] != c
    ensures ReplaceChar(s, c, t) == s
  {
    if s != [] {
      ReplaceCharAbsent(s[1..], c, t);
    }
  }

  /** The five replacements in the order the sanitiser applies them. */
  function EscapeChain(s: string): string {
    var s1 := ReplaceChar(s, '<', "&lt;");
    var s2 := ReplaceChar(s1, '>', "&gt;");
    var s3 := ReplaceChar(s2, '"', "&quot;");
    var s4 := ReplaceChar(s3, '\'', "&#x27;");
    ReplaceChar(s4, '/', "&#x2F;")
  }

  predicate IsEscaped(c: char) {
    c == '<' || c == '>' || c == '"' || c == '\'' || c == '/'
  }

  /** The entity each escaped character becomes; every other character stays. */
  function EscapeChar(c: char): string {
    match c
    case '<' => "&lt;"
    case '>' => "&gt;"
    case '"' => "&quot;"
    case '\'' => "&#x27;"
    case '/' => "&#x2F;"
    case _ => [c]
  }

  /** A one-pass escaping: each character replaced by its entity. */
  function Escape(s: string): (r: string)
    ensures forall k :: 0 <= k < |r| ==> !IsEscaped(r[k])
  {
    if s == [] then [] else EscapeChar(s[0]) + Escape(s[1..])
  }

  lemma EscapeChainAppend(a: string, b: string)
    ensures EscapeChain(a + b) == EscapeChain(a) + EscapeChain(b)
  {
    var a1, b1 := ReplaceChar(a, '<', "&lt;"), ReplaceChar(b, '<', "&lt;");
    ReplaceCharAppend(a, b, '<', "&lt;");
    var a2, b2 := ReplaceChar(a1, '>', "&gt;"), ReplaceChar(b1, '>', "&gt;");
    ReplaceCharAppend(a1, b1, '>', "&gt;");
    var a3, b3 := ReplaceChar(a2, '"', "&quot;"), ReplaceChar(b2, '"', "&quot;");
    ReplaceCharAppend(a2, b2, '"', "&quot;");
    var a4, b4 := ReplaceChar(a3, '\'', "&#x27;"), ReplaceChar(b3, '\'', "&#x27;");
    ReplaceCharAppend(a3, b3, '\'', "&#x27;");
    ReplaceCharAppend(a4, b4, '/', "&#x2F;");
  }

  /** Passing an entity through the later replacements leaves it as it is. */
  lemma EntityUntouched(e: string)
    requires forall k :: 0 <= k < |e| ==> !IsEscaped(e[k])
    ensures ReplaceChar(e, '>', "&gt;") == e
    ensures ReplaceChar(e, '"', "&quot;") == e
    ensures ReplaceChar(e, '\'', "&#x27;") == e
    ensures ReplaceChar(e, '/', "&#x2F;") == e
  {
    ReplaceCharAbsent(e, '>', "&gt;");
    ReplaceCharAbsent(e, '"', "&quot;");
    ReplaceCharAbsent(e, '\'', "&#x27;");
    ReplaceCharAbsent(e, '/', "&#x2F;");
  }

  lemma ReplaceOne(c: char, d: char, t: string)
    ensures ReplaceChar([c], d, t) == if c == d then t else [c]
  {
    assert [c][1..] == [];
  }

  lemma EscapeChainChar(c: char)
    ensures EscapeChain([c]) == EscapeChar(c)
  {
    ReplaceOne(c, '<', "&lt;");
    if c == '<' {
      EntityUntouched("&lt;");
    } else {
      ReplaceOne(c, '>', "&gt;");
      if c == '>' {
        EntityUntouched("&gt;");
      } else {
        ReplaceOne(c, '"', "&quot;");
        if c == '"' {
          EntityUntouched("&quot;");
        } else {
          ReplaceOne(c, '\'', "&#x27;");
          if c == '\'' {
            EntityUntouched("&#x27;");
          } else {
            ReplaceOne(c, '/', "&#x2F;");
          }
        }
      }
    }
  }

  /** The chain of global replacements is the one-pass escaping: no replacement text
      contains a character a later step replaces. */
  lemma {:induction false} EscapeChainIsEscape(s: string)
    ensures EscapeChain(s) == Escape(s)
  {
    if s != [] {
      assert s == [s[0]] + s[1..];
      EscapeChainAppend([s[0]], s[1..]);
      EscapeChainChar(s[0]);
      EscapeChainIsEscape(s[1..]);
    }
  }

  /** `sanitizeText`: the empty value gives the empty string; otherwise the trimmed
      value with `<`, `>`, `"`, `'` and `/` replaced by their HTML entities. */
  function SanitizeHtml(value: string): (r: string)
    ensures value == "" ==> r == ""
    ensures value != "" ==> r == Escape(Trim(value))
    ensures forall k :: 0 <= k < |r| ==> !IsEscaped(r[k])
  {
    if value == "" then ""
    else
      EscapeChainIsEscape(Trim(value));
      EscapeChain(Trim(value))
  }

  lemma {:induction false} EscapeUnchanged(s: string)
    requires forall k :: 0 <= k < |s| ==> !IsEscaped(s[k])
    ensures Escape(s) == s
  {
    if s != [] {
      EscapeUnchanged(s[1..]);
    }
  }

  lemma {:induction false} EscapeAppend(a: string, b: string)
    ensures Escape(a + b) == Escape(a) + Escape(b)
  {
    if a == [] {
      assert a + b == b;
    } else {
      assert (a + b)[0] == a[0];
      assert (a + b)[1..] == a[1..] + b;
      EscapeAppend(a[1..], b);
    }
  }

  /** The escaping of a string starts and ends with a non-space when the string does:
      an entity starts with `&` and ends with `;`. */
  lemma EscapeEnds(s: string)
    requires s != [] && !IsSpace(s[0]) && !IsSpace(s[|s| - 1])
    ensures var r := Escape(s); r != [] && !IsSpace(r[0]) && !IsSpace(r[|r| - 1])
  {
    var n := |s|;
    var first, last := EscapeChar(s[0]), EscapeChar(s[n - 1]);
    assert first != [] && !IsSpace(first[0]);
    assert last != [] && !IsSpace(last[|last| - 1]);
    assert s == s[..n - 1] + [s[n - 1]];
    EscapeAppend(s[..n - 1], [s[n - 1]]);
    assert Escape([s[n - 1]]) == last + Escape([]);
  }

  /** Sanitising sanitised text changes nothing. */
  lemma SanitizeHtmlIdempotent(value: string)
    ensures SanitizeHtml(SanitizeHtml(value)) == SanitizeHtml(value)
  {
    var r := SanitizeHtml(value);
    if r != "" {
      var t := Trim(value);
      EscapeEnds(t);
      TrimOfTrimmed(r);
      EscapeUnchanged(r);
    }
  }

  /** Replaces each entity the escaping produces by the character it stands for. */
  function Unescape(s: string): string {
    if s == [] then []
    else if s[0] != '&' then [s[0]] + Unescape(s[1..])
    else if StartsWith(s, "&lt;") then "<" + Unescape(s[4..])
    else if StartsWith(s, "&gt;") then ">" + Unescape(s[4..])
    else if StartsWith(s, "&quot;") then "\"" + Unescape(s[6..])
    else if StartsWith(s, "&#x27;") then "'" + Unescape(s[6..])
    else if StartsWith(s, "&#x2F;") then "/" + Unescape(s[6..])
    else [s[0]] + Unescape(s[1..])
  }

  lemma UnescapeLt(rest: string)
    ensures Unescape("&lt;" + rest) == "<" + Unescape(rest)
  {
    var s := "&lt;" + rest;
    assert s[..4] == "&lt;" && s[4..] == rest;
  }

  lemma UnescapeGt(rest: string)
    ensures Unescape("&gt;" + rest) == ">" + Unescape(rest)
  {
    var s := "&gt;" + rest;
    assert s[1] == 'g' && s[..4] == "&gt;" && s[4..] == rest;
  }

  lemma UnescapeQuot(rest: string)
    ensures Unescape("&quot;" + rest) == "\"" + Unescape(rest)
  {
    var s := "&quot;" + rest;
    assert s[1] == 'q' && s[..6] == "&quot;" && s[6..] == rest;
  }

  lemma UnescapeApostrophe(rest: string)
    ensures Unescape("&#x27;" + rest) == "'" + Unescape(rest)
  {
    var s := "&#x27;" + rest;
    assert s[1] == '#' && s[4] == '7' && s[..6] == "&#x27;" && s[6..] == rest;
  }

  lemma UnescapeSlash(rest: string)
    ensures Unescape("&#x2F;" + rest) == "/" + Unescape(rest)
  {
    var s := "&#x2F;" + rest;
    assert s[1] == '#' && s[4] == 'F' && s[..6] == "&#x2F;" && s[6..] == rest;
  }

  lemma UnescapeStep(c: char, rest: string)
    requires c != '&'
    ensures Unescape(EscapeChar(c) + rest) == [c] + Unescape(rest)
  {
    if c == '<' {
      UnescapeLt(rest);
    } else if c == '>' {
      UnescapeGt(rest);
    } else if c == '"' {
      UnescapeQuot(rest);
    } else if c == '\'' {
      UnescapeApostrophe(rest);
    } else if c == '/' {
      UnescapeSlash(rest);
    } else {
      var s := [c] + rest;
      assert EscapeChar(c) == [c];
      assert s[0] == c && s[1..] == rest;
    }
  }

  /** Text without `&` is recovered from its escaping. */
  lemma {:induction false} UnescapeEscape(s: string)
    requires forall k :: 0 <= k < |s| ==> s[k] != '&'
    ensures Unescape(Escape(s)) == s
  {
    if s != [] {
      UnescapeStep(s[0], Escape(s[1..]));
      UnescapeEscape(s[1..]);
    }
  }

  lemma SanitizeHtmlOne(c: char)
    requires !IsSpace(c)
    ensures SanitizeHtml([c]) == EscapeChar(c)
  {
    TrimOfTrimmed([c]);
    EscapeSingle(c);
  }

  lemma EscapeSingle(c: char)
    ensures Escape([c]) == EscapeChar(c)
  {
    var s := [c];
    assert s[1..] == [];
    assert Escape(s[1..]) == [];
  }

  /** Text that is already trimmed and holds nothing to escape is sanitised to itself. */
  lemma SanitizeHtmlFixed(e: string)
    requires e != [] && !IsSpace(e[0]) && !IsSpace(e[|e| - 1])
    requires forall k :: 0 <= k < |e| ==> !IsEscaped(e[k])
    ensures SanitizeHtml(e) == e
  {
    TrimOfTrimmed(e);
    EscapeUnchanged(e);
  }

  lemma SanitizeLessThan()
    ensures SanitizeHtml("<") == "&lt;"
  {
    assert EscapeChar('<') == "&lt;";
    SanitizeHtmlOne('<');
  }

  lemma SanitizeLtEntity()
    ensures SanitizeHtml("&lt;") == "&lt;"
  {
    SanitizeHtmlFixed("&lt;");
  }

  /** `&` itself is not escaped, so a raw `<` and a typed-in `&lt;` sanitise alike. */
  lemma AmpersandNotEscaped()
    ensures SanitizeHtml("<") == SanitizeHtml("&lt;")
  {
    SanitizeLessThan();
    SanitizeLtEntity();
  }

  // ------------------------------------------------------------------------ url

  /** `normalizeUrl`: the empty value gives the empty string; otherwise the trimmed
      value, prefixed with `https://` unless it already starts with `http://` or
      `https://`. */
  function NormalizeUrl(value: string): (r: string)
    ensures value == "" ==> r == ""
    ensures value != "" ==> StartsWith(r, "http://") || StartsWith(r, "https://")
    ensures value != "" ==> r == Trim(value) || r == "https://" + Trim(value)
    ensures value != "" && (StartsWith(Trim(value), "http://") || StartsWith(Trim(value), "https://"))
      ==> r == Trim(value)
  {
    if value == "" then ""
    else
      var t := Trim(value);
      if !StartsWith(t, "http://") && !StartsWith(t, "https://") then
        var r := "https://" + t;
        assert r[..8] == "https://";
        r
      else t
  }

  /** Normalising a normalised address changes nothing. */
  lemma NormalizeUrlIdempotent(value: string)
    ensures NormalizeUrl(NormalizeUrl(value)) == NormalizeUrl(value)
  {
    var r := NormalizeUrl(value);
    if r != "" {
      var t := Trim(value);
      assert r[0] == 'h' by {
        if StartsWith(r, "http://") {
          assert r[0] == r[..7][0];
        } else {
          assert r[0] == r[..8][0];
        }
      }
      assert !IsSpace(r[|r| - 1]) by {
        if r != t {
          if t == [] {
            assert r == "https://";
          } else {
            assert r[|r| - 1] == t[|t| - 1];
          }
        }
      }
      TrimOfTrimmed(r);
    }
  }
}
