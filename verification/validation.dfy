/**
 * Validation of a generated LocalBusiness document and its completeness score.
 */
module DocValidation {
  import opened Wrappers
  import opened Text
  import opened OpeningHours
  import opened JsonLd

  // ---------------------------------------------------------------- findings

  /** The four address fields the validator and the score look at, in checking order. */
  datatype AddressField = StreetAddress | AddressLocality | AddressRegion | PostalCode

  const AddressFields: seq<AddressField> := [StreetAddress, AddressLocality, AddressRegion, PostalCode]

  function FieldValue(a: PostalAddress, field: AddressField): Option<string> {
    match field
    case StreetAddress => a.streetAddress
    case AddressLocality => a.addressLocality
    case AddressRegion => a.addressRegion
    case PostalCode => a.postalCode
  }

  function FieldName(field: AddressField): string {
    match field
    case StreetAddress => "streetAddress"
    case AddressLocality => "addressLocality"
    case AddressRegion => "addressRegion"
    case PostalCode => "postalCode"
  }

  /** A validation error; `index` is the 0-based position of an opening-hours entry. */
  datatype ValidationError =
    | NameRequired
    | StreetAddressRequired
    | PhoneRequired
    | AddressFieldRequired(field: AddressField)
    | InvalidLatitude
    | InvalidLongitude
    | HoursMissingTimes(index: nat)
    | HoursOutOfOrder(index: nat)

  datatype Warning = UrlRecommended | HoursRecommended | GeoRecommended

  /** The text the validator reports; entries are numbered from 1. */
  function ErrorMessage(e: ValidationError): string {
    match e
    case NameRequired => "Business name is required"
    case StreetAddressRequired => "Street address is required"
    case PhoneRequired => "Phone number is required"
    case AddressFieldRequired(field) => "Address " + FieldName(field) + " is required"
    case InvalidLatitude => "Invalid latitude coordinate"
    case InvalidLongitude => "Invalid longitude coordinate"
    case HoursMissingTimes(i) =>
      "Opening hours specification " + NatToString(i + 1) + " missing opens/closes times"
    case HoursOutOfOrder(i) =>
      "Opening hours specification " + NatToString(i + 1) + ": opening time must be before closing time"
  }

  function WarningMessage(w: Warning): string {
    match w
    case UrlRecommended => "Website URL is recommended for better SEO"
    case HoursRecommended => "Opening hours help customers find you"
    case GeoRecommended => "Geographic coordinates improve local search"
  }

  datatype ValidationResult = ValidationResult(isValid: bool, errors: seq<ValidationError>, warnings: seq<Warning>)

  // ------------------------------------------------------------ the checks

  /** A coordinate of type number inside `[-bound, bound]`. */
  predicate InRange(c: Option<real>, bound: real) {
    c.Some? && -bound <= c.value <= bound
  }

  predicate MissingTimes(s: Spec) {
    s.opens == "" || s.closes == ""
  }

  /** Both times present and `opens >= closes` in string order. */
  predicate OutOfOrder(s: Spec) {
    s.opens != "" && s.closes != "" && !LexLess(s.opens, s.closes)
  }

  function AddressFieldErrors(a: PostalAddress, fields: seq<AddressField>): (es: seq<ValidationError>)
    ensures forall e :: e in es ==> e.AddressFieldRequired?
    ensures forall f :: AddressFieldRequired(f) in es <==> f in fields && !Truthy(FieldValue(a, f))
    ensures FieldsAscending(fields) ==> InCheckOrder(es)
  {
    if fields == [] then []
    else
      var h := if Truthy(FieldValue(a, fields[0])) then [] else [AddressFieldRequired(fields[0])];
      var rest := AddressFieldErrors(a, fields[1..]);
      assert FieldsAscending(fields) ==> InCheckOrder(h + rest) by {
        if FieldsAscending(fields) {
          assert FieldsAscending(fields[1..]) by {
            forall i, j | 0 <= i < j < |fields| - 1
              ensures FieldIndex(fields[1..][i]) < FieldIndex(fields[1..][j])
            {
              assert fields[1..][i] == fields[i + 1] && fields[1..][j] == fields[j + 1];
            }
          }
          forall e, e' | e in h && e' in rest ensures Rank(e) < Rank(e') {
            var k :| 0 <= k < |fields[1..]| && fields[1..][k] == e'.field;
            assert fields[k + 1] == e'.field;
          }
          InCheckOrderAppend(h, rest);
        }
      }
      h + rest
  }

  function GeoErrors(g: Geo): (es: seq<ValidationError>)
    ensures InCheckOrder(es)
    ensures InvalidLatitude in es <==> !InRange(g.latitude, 90.0)
    ensures InvalidLongitude in es <==> !InRange(g.longitude, 180.0)
    ensures forall e :: e in es ==> e == InvalidLatitude || e == InvalidLongitude
  {
    (if InRange(g.latitude, 90.0) then [] else [InvalidLatitude])
    + (if InRange(g.longitude, 180.0) then [] else [InvalidLongitude])
  }

  /** The errors of the opening-hours entry at position `k`: missing times, then order. */
  function EntryErrors(s: Spec, k: nat): (h: seq<ValidationError>)
    ensures forall e :: e in h <==> (e == HoursMissingTimes(k) && MissingTimes(s))
                                    || (e == HoursOutOfOrder(k) && OutOfOrder(s))
    ensures InCheckOrder(h) && forall e :: e in h ==> 9 + 2 * k <= Rank(e) <= 10 + 2 * k
  {
    (if MissingTimes(s) then [HoursMissingTimes(k)] else [])
    + (if OutOfOrder(s) then [HoursOutOfOrder(k)] else [])
  }

  /** The errors of the opening-hours entries from position `from` on. */
  function HoursErrors(specs: seq<Spec>, from: nat): (es: seq<ValidationError>)
    requires from <= |specs|
    ensures forall e :: e in es ==> e.HoursMissingTimes? || e.HoursOutOfOrder?
    ensures forall k: nat :: HoursMissingTimes(k) in es <==> from <= k < |specs| && MissingTimes(specs[k])
    ensures forall k: nat :: HoursOutOfOrder(k) in es <==> from <= k < |specs| && OutOfOrder(specs[k])
    ensures InCheckOrder(es) && forall e :: e in es ==> Rank(e) >= 9 + 2 * from
    decreases |specs| - from
  {
    if from == |specs| then []
    else
      var h := EntryErrors(specs[from], from);
      var rest := HoursErrors(specs, from + 1);
      HoursStepMembers(specs, from, h, rest);
      InCheckOrderAppend(h, rest);
      h + rest
  }

  lemma HoursStepMembers(specs: seq<Spec>, from: nat, h: seq<ValidationError>, rest: seq<ValidationError>)
    requires from < |specs|
    requires forall e :: e in h <==> (e == HoursMissingTimes(from) && MissingTimes(specs[from]))
                                     || (e == HoursOutOfOrder(from) && OutOfOrder(specs[from]))
    requires forall e :: e in rest ==> e.HoursMissingTimes? || e.HoursOutOfOrder?
    requires forall k: nat :: HoursMissingTimes(k) in rest <==> from + 1 <= k < |specs| && MissingTimes(specs[k])
    requires forall k: nat :: HoursOutOfOrder(k) in rest <==> from + 1 <= k < |specs| && OutOfOrder(specs[k])
    ensures forall e :: e in h + rest ==> e.HoursMissingTimes? || e.HoursOutOfOrder?
    ensures forall k: nat :: HoursMissingTimes(k) in h + rest <==> from <= k < |specs| && MissingTimes(specs[k])
    ensures forall k: nat :: HoursOutOfOrder(k) in h + rest <==> from <= k < |specs| && OutOfOrder(specs[k])
  {
    forall k: nat ensures HoursMissingTimes(k) in h + rest <==> from <= k < |specs| && MissingTimes(specs[k]) {
      if k == from {
        assert HoursMissingTimes(k) !in rest;
      }
    }
    forall k: nat ensures HoursOutOfOrder(k) in h + rest <==> from <= k < |specs| && OutOfOrder(specs[k]) {
      if k == from {
        assert HoursOutOfOrder(k) !in rest;
      }
    }
  }

  /** What a document must satisfy to be valid, stated field by field. */
  predicate ValidDoc(d: Document) {
    NameOk(d) && AddressOk(d) && Truthy(d.telephone) && GeoOk(d) && HoursOk(d)
  }

  predicate NameOk(d: Document) {
    d.name.Some? && NonBlank(d.name.value)
  }

  predicate AddressOk(d: Document) {
    d.address.Some? && forall f :: Truthy(FieldValue(d.address.value, f))
  }

  predicate GeoOk(d: Document) {
    d.geo.Some? ==> InRange(d.geo.value.latitude, 90.0) && InRange(d.geo.value.longitude, 180.0)
  }

  predicate SpecsInOrder(specs: seq<Spec>) {
    forall k :: 0 <= k < |specs| ==> specs[k].opens != "" && specs[k].closes != ""
                                     && LexLess(specs[k].opens, specs[k].closes)
  }

  predicate HoursOk(d: Document) {
    d.openingHoursSpecification.Some? ==> SpecsInOrder(d.openingHoursSpecification.value)
  }

  /** When the validator reports error `e` for document `d`, stated per error. */
  predicate Fails(d: Document, e: ValidationError) {
    match e
    case NameRequired => d.name.None? || !NonBlank(d.name.value)
    case StreetAddressRequired => d.address.None? || !Truthy(d.address.value.streetAddress)
    case PhoneRequired => !Truthy(d.telephone)
    case AddressFieldRequired(f) => d.address.Some? && !Truthy(FieldValue(d.address.value, f))
    case InvalidLatitude => d.geo.Some? && !InRange(d.geo.value.latitude, 90.0)
    case InvalidLongitude => d.geo.Some? && !InRange(d.geo.value.longitude, 180.0)
    case HoursMissingTimes(k) =>
      d.openingHoursSpecification.Some? && k < |d.openingHoursSpecification.value|
      && MissingTimes(d.openingHoursSpecification.value[k])
    case HoursOutOfOrder(k) =>
      d.openingHoursSpecification.Some? && k < |d.openingHoursSpecification.value|
      && OutOfOrder(d.openingHoursSpecification.value[k])
  }

  /** Which of the four check blocks reports an error. */
  function Block(e: ValidationError): nat {
    match e
    case NameRequired | StreetAddressRequired | PhoneRequired => 0
    case AddressFieldRequired(_) => 1
    case InvalidLatitude | InvalidLongitude => 2
    case HoursMissingTimes(_) | HoursOutOfOrder(_) => 3
  }

  function FieldIndex(field: AddressField): nat {
    match field
    case StreetAddress => 0
    case AddressLocality => 1
    case AddressRegion => 2
    case PostalCode => 3
  }

  /** The place of an error in the order `validate` checks things: name, street and
      phone; the four address fields; latitude, then longitude; then each opening-hours
      entry in turn, missing times before order. Every check has its own place. */
  function Rank(e: ValidationError): nat {
    match e
    case NameRequired => 0
    case StreetAddressRequired => 1
    case PhoneRequired => 2
    case AddressFieldRequired(f) => 3 + FieldIndex(f)
    case InvalidLatitude => 7
    case InvalidLongitude => 8
    case HoursMissingTimes(k) => 9 + 2 * k
    case HoursOutOfOrder(k) => 10 + 2 * k
  }

  /** The errors appear in checking order, each at most once. */
  predicate InCheckOrder(es: seq<ValidationError>) {
    forall i, j :: 0 <= i < j < |es| ==> Rank(es[i]) < Rank(es[j])
  }

  predicate FieldsAscending(fields: seq<AddressField>) {
    forall i, j :: 0 <= i < j < |fields| ==> FieldIndex(fields[i]) < FieldIndex(fields[j])
  }

  /** Two lists in checking order, the first wholly before the second, stay in order. */
  lemma InCheckOrderAppend(x: seq<ValidationError>, y: seq<ValidationError>)
    requires InCheckOrder(x) && InCheckOrder(y)
    requires forall e, e' :: e in x && e' in y ==> Rank(e) < Rank(e')
    ensures InCheckOrder(x + y)
  {
    forall i, j | 0 <= i < j < |x + y| ensures Rank((x + y)[i]) < Rank((x + y)[j]) {
      if j < |x| {
      } else if i >= |x| {
        assert (x + y)[i] == y[i - |x|] && (x + y)[j] == y[j - |x|];
      } else {
        assert (x + y)[i] in x && (x + y)[j] in y;
      }
    }
  }

  /** `!name || name.trim() === ''`. */
  function NameMissing(d: Document): (b: bool)
    ensures b <==> d.name.None? || !NonBlank(d.name.value)
  {
    if d.name.None? then true
    else
      TrimEmptyIff(d.name.value);
      d.name.value == "" || Trim(d.name.value) == ""
  }

  /** The three checks on required top-level keys, in order. */
  function RequiredErrors(d: Document): (es: seq<ValidationError>)
    ensures forall e :: e in es <==> Block(e) == 0 && Fails(d, e)
    ensures InCheckOrder(es)
  {
    var a: seq<ValidationError> := if NameMissing(d) then [NameRequired] else [];
    var b: seq<ValidationError> := if d.address.None? || !Truthy(d.address.value.streetAddress) then [StreetAddressRequired] else [];
    var c: seq<ValidationError> := if !Truthy(d.telephone) then [PhoneRequired] else [];
    assert forall e :: e in a + b + c <==> Block(e) == 0 && Fails(d, e) by {
      forall e
        ensures e in a + b + c <==> Block(e) == 0 && Fails(d, e)
      {
        assert e in a + b + c <==> e in a || e in b || e in c;
        if e.NameRequired? {
        } else if e.StreetAddressRequired? {
        } else if e.PhoneRequired? {
        } else {
          assert Block(e) != 0;
        }
      }
    }
    RequiredInOrder(a, b, c);
    a + b + c
  }

  lemma RequiredInOrder(a: seq<ValidationError>, b: seq<ValidationError>, c: seq<ValidationError>)
    requires a == [] || a == [NameRequired]
    requires b == [] || b == [StreetAddressRequired]
    requires c == [] || c == [PhoneRequired]
    ensures InCheckOrder(a + b + c)
  {
    InCheckOrderAppend(a, b);
    InCheckOrderAppend(a + b, c);
  }

  function DocAddressErrors(d: Document): (es: seq<ValidationError>)
    ensures forall e :: e in es <==> Block(e) == 1 && Fails(d, e)
    ensures InCheckOrder(es)
  {
    if d.address.Some? then AddressFieldErrors(d.address.value, AddressFields) else []
  }

  function DocGeoErrors(d: Document): (es: seq<ValidationError>)
    ensures forall e :: e in es <==> Block(e) == 2 && Fails(d, e)
    ensures InCheckOrder(es)
  {
    if d.geo.Some? then GeoErrors(d.geo.value) else []
  }

  function DocHoursErrors(d: Document): (es: seq<ValidationError>)
    ensures forall e :: e in es <==> Block(e) == 3 && Fails(d, e)
    ensures InCheckOrder(es)
  {
    if d.openingHoursSpecification.Some? then HoursErrors(d.openingHoursSpecification.value, 0) else []
  }

  /** The place of a warning in the order `validate` checks things. */
  function WarningRank(w: Warning): nat {
    match w
    case UrlRecommended => 0
    case HoursRecommended => 1
    case GeoRecommended => 2
  }

  predicate WarningsInOrder(ws: seq<Warning>) {
    forall i, j :: 0 <= i < j < |ws| ==> WarningRank(ws[i]) < WarningRank(ws[j])
  }

  function Warnings(d: Document): (ws: seq<Warning>)
    ensures WarningsInOrder(ws)
    ensures UrlRecommended in ws <==> !Truthy(d.url)
    ensures HoursRecommended in ws <==> d.openingHoursSpecification.None?
    ensures GeoRecommended in ws <==> d.geo.None?
  {
    (if !Truthy(d.url) then [UrlRecommended] else [])
    + (if d.openingHoursSpecification.None? then [HoursRecommended] else [])
    + (if d.geo.None? then [GeoRecommended] else [])
  }

  /** `validate`: exactly the errors whose condition holds, each once and in the order
      the checks run; the three recommendation warnings, likewise; and `isValid` exactly
      when there is no error, which is exactly when the document meets `ValidDoc`. */
  function Validate(d: Document): (r: ValidationResult)
    ensures r.isValid <==> r.errors == []
    ensures r.isValid <==> ValidDoc(d)
    ensures forall e :: e in r.errors <==> Fails(d, e)
    ensures InCheckOrder(r.errors)
    ensures UrlRecommended in r.warnings <==> !Truthy(d.url)
    ensures HoursRecommended in r.warnings <==> d.openingHoursSpecification.None?
    ensures GeoRecommended in r.warnings <==> d.geo.None?
    ensures WarningsInOrder(r.warnings)
  {
    var errors := AllErrors(d);
    AllErrorsFail(d);
    ErrorsInCheckOrder(d);
    ValidIffNoErrors(d);
    ValidationResult(errors == [], errors, Warnings(d))
  }

  /** The four check blocks, in the order `validate` runs them. */
  function AllErrors(d: Document): seq<ValidationError> {
    RequiredErrors(d) + DocAddressErrors(d) + DocGeoErrors(d) + DocHoursErrors(d)
  }

  lemma AllErrorsFail(d: Document)
    ensures forall e :: e in AllErrors(d) <==> Fails(d, e)
  {
  }

  lemma ValidIffNoErrors(d: Document)
    ensures AllErrors(d) == [] <==> ValidDoc(d)
  {
    AllErrorsFail(d);
    ValidIffNothingFails(d);
    EmptyIffNoMembers(AllErrors(d));
  }

  /** Different errors have different places in the checking order. */
  lemma RankInjective(e: ValidationError, e': ValidationError)
    requires Rank(e) == Rank(e')
    ensures e == e'
  {
    if e.AddressFieldRequired? {
      assert e'.AddressFieldRequired?;
    } else if e.HoursMissingTimes? || e.HoursOutOfOrder? {
      assert (e.HoursMissingTimes? <==> e'.HoursMissingTimes?) && (e.HoursOutOfOrder? <==> e'.HoursOutOfOrder?);
    }
  }

  /** A list in checking order is fixed by its members. */
  lemma {:induction false} CheckOrderDetermined(x: seq<ValidationError>, y: seq<ValidationError>)
    requires InCheckOrder(x) && InCheckOrder(y)
    requires forall e :: e in x <==> e in y
    ensures x == y
    decreases |x|
  {
    EmptyIffNoMembers(y);
    if x != [] {
      assert x[0] in y;
      SameFirst(x, y);
      InCheckOrderTail(x);
      InCheckOrderTail(y);
      CheckOrderDetermined(x[1..], y[1..]);
      assert x == [x[0]] + x[1..] && y == [y[0]] + y[1..];
    }
  }

  /** Two non-empty lists in checking order with the same members start alike. */
  lemma SameFirst(x: seq<ValidationError>, y: seq<ValidationError>)
    requires x != [] && y != [] && InCheckOrder(x) && InCheckOrder(y)
    requires forall e :: e in x <==> e in y
    ensures x[0] == y[0]
  {
    assert x[0] in y;
    assert y[0] in x;
    var i :| 0 <= i < |x| && x[i] == y[0];
    var j :| 0 <= j < |y| && y[j] == x[0];
    assert Rank(x[0]) <= Rank(x[i]) && Rank(y[0]) <= Rank(y[j]);
    RankInjective(x[0], y[0]);
  }

  lemma EmptyIffNoMembers<T>(y: seq<T>)
    ensures y == [] <==> forall e :: e !in y
  {
    if y != [] {
      assert y[0] in y;
    }
  }

  /** The tail of a list in checking order is in checking order and holds exactly the
      other members. */
  lemma InCheckOrderTail(x: seq<ValidationError>)
    requires x != [] && InCheckOrder(x)
    ensures InCheckOrder(x[1..])
    ensures forall e :: e in x[1..] <==> e in x && e != x[0]
  {
    TailMembers(x);
    assert forall i, j :: 0 <= i < j < |x| - 1 ==> x[1..][i] == x[i + 1] && x[1..][j] == x[j + 1];
  }

  lemma TailMembers(x: seq<ValidationError>)
    requires x != [] && InCheckOrder(x)
    ensures forall e :: e in x[1..] <==> e in x && e != x[0]
  {
    assert x == [x[0]] + x[1..];
    forall e | e in x[1..] ensures e != x[0] {
      var k :| 0 <= k < |x[1..]| && x[1..][k] == e;
      assert x[k + 1] == e;
    }
  }

  /** The errors `validate` returns are the only list holding exactly the failing checks
      in checking order: membership and order fix the list, and with it its length. */
  lemma ValidateErrorsDetermined(d: Document, es: seq<ValidationError>)
    requires InCheckOrder(es) && forall e :: e in es <==> Fails(d, e)
    ensures Validate(d).errors == es
  {
    CheckOrderDetermined(Validate(d).errors, es);
  }

  /** An error of an earlier check block comes before every error of a later one. */
  lemma BlockOrdersRank(e: ValidationError, e': ValidationError)
    requires Block(e) < Block(e')
    ensures Rank(e) < Rank(e')
  {
  }

  lemma ErrorsInCheckOrder(d: Document)
    ensures InCheckOrder(AllErrors(d))
  {
    var a, b, c, h := RequiredErrors(d), DocAddressErrors(d), DocGeoErrors(d), DocHoursErrors(d);
    forall e, e' | e in a && e' in b ensures Rank(e) < Rank(e') {
      BlockOrdersRank(e, e');
    }
    InCheckOrderAppend(a, b);
    forall e, e' | e in a + b && e' in c ensures Rank(e) < Rank(e') {
      BlockOrdersRank(e, e');
    }
    InCheckOrderAppend(a + b, c);
    forall e, e' | e in a + b + c && e' in h ensures Rank(e) < Rank(e') {
      BlockOrdersRank(e, e');
    }
    InCheckOrderAppend(a + b + c, h);
    assert AllErrors(d) == a + b + c + h;
  }

  lemma ValidIffNothingFails(d: Document)
    ensures ValidDoc(d) <==> forall e :: !Fails(d, e)
  {
    if ValidDoc(d) {
      forall e ensures !Fails(d, e) {
        if e.AddressFieldRequired? {
          assert Truthy(FieldValue(d.address.value, e.field));
        } else if e == StreetAddressRequired {
          assert Truthy(FieldValue(d.address.value, StreetAddress));
        } else if (e.HoursMissingTimes? || e.HoursOutOfOrder?) && d.openingHoursSpecification.Some? {
          var specs := d.openingHoursSpecification.value;
          if e.index < |specs| {
            assert specs[e.index].opens != "" && LexLess(specs[e.index].opens, specs[e.index].closes);
          }
        }
      }
    }
    if forall e :: !Fails(d, e) {
      assert !Fails(d, NameRequired) && !Fails(d, StreetAddressRequired) && !Fails(d, PhoneRequired);
      forall f ensures Truthy(FieldValue(d.address.value, f)) {
        assert !Fails(d, AddressFieldRequired(f));
      }
      assert !Fails(d, InvalidLatitude) && !Fails(d, InvalidLongitude);
      if d.openingHoursSpecification.Some? {
        var specs := d.openingHoursSpecification.value;
        forall k | 0 <= k < |specs|
          ensures specs[k].opens != "" && specs[k].closes != "" && LexLess(specs[k].opens, specs[k].closes)
        {
          assert !Fails(d, HoursMissingTimes(k)) && !Fails(d, HoursOutOfOrder(k));
        }
      }
    }
  }

  // ------------------------------------------------------- validation facts

  lemma TwoDistinctMembers<T>(s: seq<T>, x: T, y: T)
    requires x in s && y in s && x != y
    ensures |s| >= 2
  {
  }

  /** A document whose address lacks a street gets both the top-level street error and
      the address-field error. */
  lemma MissingStreetGivesTwoErrors(d: Document)
    requires d.address.Some? && !Truthy(d.address.value.streetAddress)
    ensures StreetAddressRequired in Validate(d).errors
    ensures AddressFieldRequired(StreetAddress) in Validate(d).errors
    ensures |Validate(d).errors| >= 2
  {
    var es := Validate(d).errors;
    assert Fails(d, StreetAddressRequired) && Fails(d, AddressFieldRequired(StreetAddress));
    TwoDistinctMembers(es, StreetAddressRequired, AddressFieldRequired(StreetAddress));
  }

  lemma {:induction false} AddressFieldErrorsIgnoreCountry(a: PostalAddress, c: Option<string>, fields: seq<AddressField>)
    ensures AddressFieldErrors(a.(addressCountry := c), fields) == AddressFieldErrors(a, fields)
  {
    if fields != [] {
      var a' := a.(addressCountry := c);
      assert FieldValue(a', fields[0]) == FieldValue(a, fields[0]);
      AddressFieldErrorsIgnoreCountry(a, c, fields[1..]);
      assert AddressFieldErrors(a', fields)
             == (if Truthy(FieldValue(a', fields[0])) then [] else [AddressFieldRequired(fields[0])])
                + AddressFieldErrors(a', fields[1..]);
    }
  }

  /** `addressCountry` is never checked: changing it changes nothing in the result. */
  lemma CountryNeverChecked(d: Document, c: Option<string>)
    requires d.address.Some?
    ensures Validate(d.(address := Some(d.address.value.(addressCountry := c)))) == Validate(d)
  {
    var d' := d.(address := Some(d.address.value.(addressCountry := c)));
    assert RequiredErrors(d') == RequiredErrors(d);
    assert DocAddressErrors(d') == DocAddressErrors(d) by {
      AddressFieldErrorsIgnoreCountry(d.address.value, c, AddressFields);
    }
    assert DocGeoErrors(d') == DocGeoErrors(d);
    assert DocHoursErrors(d') == DocHoursErrors(d);
    assert Warnings(d') == Warnings(d);
  }

  /** Missing url, opening hours and geo are reported as warnings only: dropping them
      adds no error, keeps a valid document valid, and produces all three warnings. */
  lemma RecommendedFieldsOnlyWarn(d: Document)
    ensures var d' := d.(url := None, openingHoursSpecification := None, geo := None);
      && (forall e :: e in Validate(d').errors ==> e in Validate(d).errors)
      && (Validate(d).isValid ==> Validate(d').isValid)
      && Validate(d').warnings == [UrlRecommended, HoursRecommended, GeoRecommended]
  {
    DroppingRecommendedAddsNoError(d);
    DroppingRecommendedKeepsValid(d);
    DroppingRecommendedWarns(d);
  }

  lemma DroppingRecommendedKeepsValid(d: Document)
    ensures Validate(d).isValid ==> Validate(d.(url := None, openingHoursSpecification := None, geo := None)).isValid
  {
    var d' := d.(url := None, openingHoursSpecification := None, geo := None);
    if ValidDoc(d) {
      assert NameOk(d') && AddressOk(d') && GeoOk(d') && HoursOk(d');
    }
  }

  lemma DroppingRecommendedWarns(d: Document)
    ensures Validate(d.(url := None, openingHoursSpecification := None, geo := None)).warnings
            == [UrlRecommended, HoursRecommended, GeoRecommended]
  {
    var d' := d.(url := None, openingHoursSpecification := None, geo := None);
    assert Warnings(d') == [UrlRecommended, HoursRecommended, GeoRecommended];
  }

  lemma DroppingRecommendedAddsNoError(d: Document)
    ensures var d' := d.(url := None, openingHoursSpecification := None, geo := None);
      forall e :: e in Validate(d').errors ==> e in Validate(d).errors
  {
    var d' := d.(url := None, openingHoursSpecification := None, geo := None);
    forall e | e in Validate(d').errors ensures e in Validate(d).errors {
      assert Fails(d', e);
    }
  }

  /** Coordinate bounds are inclusive and only the offending axis is reported. */
  lemma CoordinateBoundsInclusive(d: Document)
    requires d.geo == Some(Geo(Some(90.0), Some(-180.0)))
    ensures InvalidLatitude !in Validate(d).errors && InvalidLongitude !in Validate(d).errors
    ensures InvalidLatitude in Validate(d.(geo := Some(Geo(Some(-90.5), Some(180.0))))).errors
    ensures InvalidLongitude !in Validate(d.(geo := Some(Geo(Some(-90.5), Some(180.0))))).errors
    ensures InvalidLongitude in Validate(d.(geo := Some(Geo(Some(0.0), None)))).errors
  {
    assert !Fails(d, InvalidLatitude) && !Fails(d, InvalidLongitude);
  }

  lemma PlaceholderMeetsValidDoc()
    ensures ValidDoc(EmptySchema)
  {
    var name := "Your Business Name";
    assert !IsSpace(name[0]);
    var a := EmptySchema.address.value;
    forall f ensures Truthy(FieldValue(a, f)) {
    }
  }

  /** The placeholder document passes validation with all three warnings. */
  lemma PlaceholderIsValid()
    ensures Validate(EmptySchema).isValid
    ensures Validate(EmptySchema).warnings == [UrlRecommended, HoursRecommended, GeoRecommended]
  {
    PlaceholderMeetsValidDoc();
    PlaceholderWarnings();
  }

  lemma PlaceholderWarnings()
    ensures Validate(EmptySchema).warnings == [UrlRecommended, HoursRecommended, GeoRecommended]
  {
    AllWarnings(EmptySchema);
  }

  lemma AllWarnings(d: Document)
    requires !Truthy(d.url) && d.geo.None? && d.openingHoursSpecification.None?
    ensures Validate(d).warnings == [UrlRecommended, HoursRecommended, GeoRecommended]
  {
  }

  /** An entry is flagged by comparing its times as strings, so one that opens at "9:00"
      and closes at "10:00" is reported as opening after it closes, while zero-padded
      times compare as the clock does. */
  lemma UnpaddedHoursFlagged(d: Document)
    requires d.openingHoursSpecification == Some([Spec(OneDay(Monday), "9:00", "10:00")])
    ensures HoursOutOfOrder(0) in Validate(d).errors
    ensures !Validate(d).isValid
    ensures var d' := d.(openingHoursSpecification := Some([Spec(OneDay(Monday), "09:00", "10:00")]));
      HoursOutOfOrder(0) !in Validate(d').errors
  {
    assert !LexLess("9:00", "10:00");
    assert LexLess("09:00", "10:00");
    var d' := d.(openingHoursSpecification := Some([Spec(OneDay(Monday), "09:00", "10:00")]));
    assert !Fails(d', HoursOutOfOrder(0));
    assert Fails(d, HoursOutOfOrder(0));
  }

  lemma AbsentFirstCharNoOccurrence(s: string, t: string)
    requires t != [] && forall j :: 0 <= j < |s| ==> s[j] != t[0]
    ensures !Contains(s, t)
  {
    forall i | 0 <= i && i + |t| <= |s| ensures !OccursAt(s, t, i) {
      assert s[i..i + |t|][0] == s[i] != t[0];
    }
  }

  /** The phone error starts with a capital letter, so it does not contain "phone". */
  lemma PhoneMessageCapitalised()
    ensures Contains(ErrorMessage(PhoneRequired), "Phone")
    ensures !Contains(ErrorMessage(PhoneRequired), "phone")
  {
    var m := ErrorMessage(PhoneRequired);
    assert OccursAt(m, "Phone", 0);
    assert forall j :: 0 <= j < |m| ==> m[j] != 'p';
    AbsentFirstCharNoOccurrence(m, "phone");
  }

  // ------------------------------------------------------------------ score

  const MaxPoints: nat := 120

  function Flag(b: bool, points: nat): (r: nat)
    ensures r == 0 || r == points
    ensures r <= points
  {
    if b then points else 0
  }

  /** The number of truthy fields among street, locality, region and postal code. */
  function AddressUnits(a: PostalAddress): (n: nat)
    ensures n <= 4
  {
    Flag(Truthy(a.streetAddress), 1) + Flag(Truthy(a.addressLocality), 1)
    + Flag(Truthy(a.addressRegion), 1) + Flag(Truthy(a.postalCode), 1)
  }

  /** Five points per truthy field among street, locality, region and postal code. */
  function AddressPoints(a: PostalAddress): (p: nat)
    ensures p % 5 == 0 && p <= 20
  {
    5 * AddressUnits(a)
  }

  /** Points earned out of 120: 20 per required key (the address pro-rated) and 10 per
      recommended key. */
  function EarnedPoints(d: Document): (p: nat)
    ensures p % 5 == 0 && p <= MaxPoints
  {
    var required := Flag(Truthy(d.name), 4) + (if d.address.Some? then AddressUnits(d.address.value) else 0)
                    + Flag(Truthy(d.telephone), 4);
    var recommended := Flag(Truthy(d.url), 2) + Flag(Truthy(d.email), 2) + Flag(Truthy(d.description), 2)
                       + Flag(d.geo.Some?, 2) + Flag(d.openingHoursSpecification.Some?, 2)
                       + Flag(Truthy(d.priceRange), 2);
    5 * (required + recommended)
  }

  /** `Math.round(earned / 120 * 100)`, in integers. The result is the integer `r` with
      `r <= earned*100/120 + 1/2 < r + 1`, and lies in 0..100. */
  function CompletenessScore(d: Document): (r: nat)
    ensures r <= 100
    ensures var x := (EarnedPoints(d) as real) / (MaxPoints as real) * 100.0;
      (r as real) <= x + 0.5 < (r as real) + 1.0
  {
    var e := EarnedPoints(d);
    var r := (5 * e + 3) / 6;
    RoundHalfUp(e, r);
    r
  }

  lemma RoundHalfUp(e: nat, r: int)
    requires r == (5 * e + 3) / 6
    ensures var x := (e as real) / 120.0 * 100.0; (r as real) <= x + 0.5 < (r as real) + 1.0
  {
    assert 6 * r <= 5 * e + 3 < 6 * r + 6;
    var x := (e as real) / 120.0 * 100.0;
    assert x == (5 * e) as real / 6.0;
    assert (6 * r) as real <= (5 * e + 3) as real < (6 * r + 6) as real;
  }

  /** A document with all required keys complete and nothing else scores 50. */
  lemma MinimalDocumentScoresFifty(d: Document)
    requires Truthy(d.name) && Truthy(d.telephone)
    requires d.address.Some? && AddressPoints(d.address.value) == 20
    requires !Truthy(d.url) && !Truthy(d.email) && !Truthy(d.description) && !Truthy(d.priceRange)
    requires d.geo.None? && d.openingHoursSpecification.None?
    ensures CompletenessScore(d) == 50
  {
  }

  /** Every key counted by the score is present and truthy: the score is 100. */
  lemma FullDocumentScoresHundred(d: Document)
    requires Truthy(d.name) && Truthy(d.telephone)
    requires d.address.Some? && forall f :: Truthy(FieldValue(d.address.value, f))
    requires Truthy(d.url) && Truthy(d.email) && Truthy(d.description) && Truthy(d.priceRange)
    requires d.geo.Some? && d.openingHoursSpecification.Some?
    ensures CompletenessScore(d) == 100
  {
    var a := d.address.value;
    assert Truthy(FieldValue(a, StreetAddress)) && Truthy(FieldValue(a, AddressLocality))
        && Truthy(FieldValue(a, AddressRegion)) && Truthy(FieldValue(a, PostalCode));
  }

  /** The placeholder has exactly the required keys, complete, so it scores 50. */
  lemma PlaceholderScoresFifty()
    ensures CompletenessScore(EmptySchema) == 50
  {
    MinimalDocumentScoresFifty(EmptySchema);
  }

  /** `d'` is `d` with one recommended key that was absent or falsy now set. */
  predicate AddsRecommendedField(d: Document, d': Document) {
    || (d' == d.(url := d'.url) && !Truthy(d.url) && Truthy(d'.url))
    || (d' == d.(email := d'.email) && !Truthy(d.email) && Truthy(d'.email))
    || (d' == d.(description := d'.description) && !Truthy(d.description) && Truthy(d'.description))
    || (d' == d.(priceRange := d'.priceRange) && !Truthy(d.priceRange) && Truthy(d'.priceRange))
    || (d' == d.(geo := d'.geo) && d.geo.None? && d'.geo.Some?)
    || (d' == d.(openingHoursSpecification := d'.openingHoursSpecification)
        && d.openingHoursSpecification.None? && d'.openingHoursSpecification.Some?)
  }

  lemma EarnedPointsAddRecommended(d: Document, d': Document)
    requires AddsRecommendedField(d, d')
    ensures EarnedPoints(d') == EarnedPoints(d) + 10
  {
  }

  /** Adding any recommended key that was missing strictly raises the score. */
  lemma AddingRecommendedFieldRaisesScore(d: Document, d': Document)
    requires AddsRecommendedField(d, d')
    ensures CompletenessScore(d') > CompletenessScore(d)
  {
    EarnedPointsAddRecommended(d, d');
  }

  /** The address with one of its four checked fields replaced. */
  function WithField(a: PostalAddress, f: AddressField, v: Option<string>): (a': PostalAddress)
    ensures FieldValue(a', f) == v
    ensures forall g :: g != f ==> FieldValue(a', g) == FieldValue(a, g)
    ensures a'.addressCountry == a.addressCountry
  {
    match f
    case StreetAddress => a.(streetAddress := v)
    case AddressLocality => a.(addressLocality := v)
    case AddressRegion => a.(addressRegion := v)
    case PostalCode => a.(postalCode := v)
  }

  lemma AddressPointsFill(a: PostalAddress, f: AddressField, v: Option<string>)
    requires !Truthy(FieldValue(a, f)) && Truthy(v)
    ensures AddressPoints(WithField(a, f, v)) == AddressPoints(a) + 5
  {
  }

  /** Address points are pro-rated: filling one missing address field adds 5 earned
      points and strictly raises the score. */
  lemma FillingAddressFieldRaisesScore(d: Document, f: AddressField, v: Option<string>)
    requires d.address.Some? && !Truthy(FieldValue(d.address.value, f)) && Truthy(v)
    ensures var d' := d.(address := Some(WithField(d.address.value, f, v)));
      EarnedPoints(d') == EarnedPoints(d) + 5 && CompletenessScore(d') > CompletenessScore(d)
  {
    AddressPointsFill(d.address.value, f, v);
  }

  // ------------------------------------------------------ generated documents

  lemma GeneratedName(f: FormData, d: Document)
    requires d.name.Some? <==> Truthy(f.businessName)
    requires d.name.Some? ==> d.name.value == SanitizeText(f.businessName)
    ensures NameOk(d) <==> NonBlank(SanitizeText(f.businessName))
  {
    if !Truthy(f.businessName) {
      assert SanitizeText(f.businessName) == "";
    }
  }

  lemma SanitizedFieldTruthy(v: Option<string>)
    ensures Truthy(SanitizeIfTruthy(v)) <==> SanitizeText(v) != ""
  {
  }

  lemma AddressCompleteIff(a: PostalAddress)
    ensures (forall fld :: Truthy(FieldValue(a, fld))) <==>
      Truthy(a.streetAddress) && Truthy(a.addressLocality) && Truthy(a.addressRegion) && Truthy(a.postalCode)
  {
    if Truthy(a.streetAddress) && Truthy(a.addressLocality) && Truthy(a.addressRegion) && Truthy(a.postalCode) {
      forall fld ensures Truthy(FieldValue(a, fld)) {
      }
    } else {
      assert !Truthy(FieldValue(a, StreetAddress)) || !Truthy(FieldValue(a, AddressLocality))
          || !Truthy(FieldValue(a, AddressRegion)) || !Truthy(FieldValue(a, PostalCode));
    }
  }

  lemma BuiltAddressComplete(f: FormData)
    ensures (forall fld :: Truthy(FieldValue(BuildAddress(f), fld))) <==>
      (SanitizeText(f.streetAddress) != "" && SanitizeText(f.city) != "" && SanitizeText(f.state) != ""
       && Truthy(f.postalCode))
  {
    var a := BuildAddress(f);
    assert a.streetAddress == SanitizeIfTruthy(f.streetAddress);
    assert a.addressLocality == SanitizeIfTruthy(f.city);
    assert a.addressRegion == SanitizeIfTruthy(f.state);
    SanitizedFieldTruthy(f.streetAddress);
    SanitizedFieldTruthy(f.city);
    SanitizedFieldTruthy(f.state);
    AddressCompleteIff(a);
  }

  lemma GeneratedAddress(f: FormData, d: Document)
    requires d.address.Some? ==> d.address.value == BuildAddress(f)
    requires d.address.Some? <==> (Truthy(f.streetAddress) || Truthy(f.city) || Truthy(f.state)
                                   || Truthy(f.postalCode) || Truthy(f.country))
    ensures AddressOk(d) <==>
      (SanitizeText(f.streetAddress) != "" && SanitizeText(f.city) != "" && SanitizeText(f.state) != ""
       && Truthy(f.postalCode))
  {
    BuiltAddressComplete(f);
  }

  /** When a document generated from a non-empty form passes validation, in terms of
      the form: the sanitized name is not blank, the sanitized street, city and state
      are non-empty, postal code and phone are truthy, parsed coordinates are in range,
      and every compiled opening-hours entry opens before it closes. */
  lemma GeneratedDocumentValidity(f: FormData, parseFloat: string -> Option<real>)
    requires f != EmptyForm
    ensures var d := Generate(Some(f), parseFloat);
      var geo := BuildGeoCoordinates(f, parseFloat);
      Validate(d).isValid <==>
        && NonBlank(SanitizeText(f.businessName))
        && SanitizeText(f.streetAddress) != "" && SanitizeText(f.city) != "" && SanitizeText(f.state) != ""
        && Truthy(f.postalCode) && Truthy(f.phone)
        && (geo.Some? ==> InRange(geo.value.latitude, 90.0) && InRange(geo.value.longitude, 180.0))
        && SpecsInOrder(FormOpeningHours(f))
  {
    var d := Generate(Some(f), parseFloat);
    GeneratedName(f, d);
    GeneratedAddress(f, d);
    assert HoursOk(d) <==> SpecsInOrder(FormOpeningHours(f));
    assert Validate(d).isValid <==> ValidDoc(d);
  }
}
