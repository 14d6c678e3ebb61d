/**
 * The preview pane's view of a document: the property count of a JSON tree, the
 * classes shown next to the size and count statistics, the completeness-score class,
 * the validation status line, and whether the pane shows the document or its
 * placeholder.
 */
module Preview {
  import opened Wrappers
  import opened Text
  import opened OpeningHours
  import opened JsonLd
  import DocValidation

  // ----------------------------------------------------------------- JSON tree

  /** A JSON value; an object keeps its keys in insertion order. */
  datatype Json =
    | JNull
    | JBool(b: bool)
    | JNumber(n: real)
    | JString(s: string)
    | JArray(items: seq<Json>)
    | JObject(fields: seq<(string, Json)>)

  predicate IsScalar(j: Json) {
    !j.JArray? && !j.JObject?
  }

  // ------------------------------------------------------------ property count

  /** `countProperties`: every own key not starting with `@` counts once, and a key
      whose value is an object or array adds that value's own count; array elements
      are keyed by their indices. Anything else counts 0. */
  function CountProperties(j: Json): (n: nat)
    ensures IsScalar(j) ==> n == 0
    decreases j, 1
  {
    match j
    case JArray(items) => CountItems(j, 0)
    case JObject(fields) => CountFields(j, 0)
    case _ => 0
  }

  /** The count contributed by the elements of array `j` from index `from` on. */
  function CountItems(j: Json, from: nat): nat
    requires j.JArray? && from <= |j.items|
    decreases j, 0, |j.items| - from
  {
    if from == |j.items| then 0
    else 1 + CountProperties(j.items[from]) + CountItems(j, from + 1)
  }

  /** The count contributed by the fields of object `j` from position `from` on. */
  function CountFields(j: Json, from: nat): nat
    requires j.JObject? && from <= |j.fields|
    decreases j, 0, |j.fields| - from
  {
    if from == |j.fields| then 0
    else
      var (key, value) := j.fields[from];
      (if StartsWith(key, "@") then 0 else 1 + CountProperties(value)) + CountFields(j, from + 1)
  }

  /** Elements past `from` decide the count: two arrays with the same remaining
      elements count alike. */
  lemma {:induction false} CountItemsShift(j: Json, from: nat, k: Json, from': nat)
    requires j.JArray? && from <= |j.items| && k.JArray? && from' <= |k.items|
    requires j.items[from..] == k.items[from'..]
    ensures CountItems(j, from) == CountItems(k, from')
    decreases |j.items| - from
  {
    if from < |j.items| {
      assert j.items[from] == j.items[from..][0] == k.items[from'];
      assert j.items[from + 1..] == j.items[from..][1..];
      assert k.items[from' + 1..] == k.items[from'..][1..];
      CountItemsShift(j, from + 1, k, from' + 1);
    }
  }

  lemma {:induction false} CountFieldsShift(j: Json, from: nat, k: Json, from': nat)
    requires j.JObject? && from <= |j.fields| && k.JObject? && from' <= |k.fields|
    requires j.fields[from..] == k.fields[from'..]
    ensures CountFields(j, from) == CountFields(k, from')
    decreases |j.fields| - from
  {
    if from < |j.fields| {
      assert j.fields[from] == j.fields[from..][0] == k.fields[from'];
      assert j.fields[from + 1..] == j.fields[from..][1..];
      assert k.fields[from' + 1..] == k.fields[from'..][1..];
      CountFieldsShift(j, from + 1, k, from' + 1);
    }
  }

  lemma {:induction false} CountItemsConcatFrom(a: seq<Json>, b: seq<Json>, from: nat)
    requires from <= |a|
    ensures CountItems(JArray(a + b), from) == CountItems(JArray(a), from) + CountItems(JArray(b), 0)
    decreases |a| - from
  {
    if from == |a| {
      assert (a + b)[from..] == b[0..];
      CountItemsShift(JArray(a + b), from, JArray(b), 0);
    } else {
      assert (a + b)[from] == a[from];
      CountItemsConcatFrom(a, b, from + 1);
    }
  }

  lemma {:induction false} CountFieldsConcatFrom(a: seq<(string, Json)>, b: seq<(string, Json)>, from: nat)
    requires from <= |a|
    ensures CountFields(JObject(a + b), from) == CountFields(JObject(a), from) + CountFields(JObject(b), 0)
    decreases |a| - from
  {
    if from == |a| {
      assert (a + b)[from..] == b[0..];
      CountFieldsShift(JObject(a + b), from, JObject(b), 0);
    } else {
      assert (a + b)[from] == a[from];
      CountFieldsConcatFrom(a, b, from + 1);
    }
  }

  /** The count of an array is additive over concatenation. */
  lemma CountArrayConcat(a: seq<Json>, b: seq<Json>)
    ensures CountProperties(JArray(a + b)) == CountProperties(JArray(a)) + CountProperties(JArray(b))
  {
    CountItemsConcatFrom(a, b, 0);
  }

  /** The count of an object is additive over concatenation of its key lists. */
  lemma CountObjectConcat(a: seq<(string, Json)>, b: seq<(string, Json)>)
    ensures CountProperties(JObject(a + b)) == CountProperties(JObject(a)) + CountProperties(JObject(b))
  {
    CountFieldsConcatFrom(a, b, 0);
  }

  /** Each array element adds one for its index key plus its own count. */
  lemma ArrayElementCounts(items: seq<Json>, x: Json)
    ensures CountProperties(JArray(items + [x])) == CountProperties(JArray(items)) + 1 + CountProperties(x)
  {
    CountArrayConcat(items, [x]);
    var one := JArray([x]);
    assert CountItems(one, 1) == 0;
    assert CountProperties(one) == CountItems(one, 0);
  }

  lemma SingleField(key: string, value: Json)
    ensures CountProperties(JObject([(key, value)]))
            == if StartsWith(key, "@") then 0 else 1 + CountProperties(value)
  {
    var one := JObject([(key, value)]);
    assert CountFields(one, 1) == 0;
    assert CountProperties(one) == CountFields(one, 0);
  }

  /** A key starting with `@` is neither counted nor descended into, whatever it holds. */
  lemma AtKeyIgnored(fields: seq<(string, Json)>, key: string, value: Json)
    requires StartsWith(key, "@")
    ensures CountProperties(JObject(fields + [(key, value)])) == CountProperties(JObject(fields))
  {
    CountObjectConcat(fields, [(key, value)]);
    SingleField(key, value);
  }

  /** Any other key adds one plus the count of its value; a scalar value adds exactly one. */
  lemma PlainKeyCounts(fields: seq<(string, Json)>, key: string, value: Json)
    requires !StartsWith(key, "@")
    ensures CountProperties(JObject(fields + [(key, value)])) == CountProperties(JObject(fields)) + 1 + CountProperties(value)
    ensures IsScalar(value) ==> CountProperties(JObject(fields + [(key, value)])) == CountProperties(JObject(fields)) + 1
  {
    CountObjectConcat(fields, [(key, value)]);
    SingleField(key, value);
  }

  // ---------------------------------------------------- the document as JSON

  /** `obj[key] = value` on an object that does not hold `key` yet, when there is a value. */
  function SetIf(fields: seq<(string, Json)>, key: string, value: Option<Json>): seq<(string, Json)> {
    if value.Some? then fields + [(key, value.value)] else fields
  }

  function Str(v: Option<string>): Option<Json> {
    if v.Some? then Some(JString(v.value)) else None
  }

  /** A coordinate; one that is not a number is written as `null`. */
  function Number(v: Option<real>): Json {
    if v.Some? then JNumber(v.value) else JNull
  }

  function AddressJson(a: PostalAddress): Json {
    var fs := [("@type", JString("PostalAddress"))];
    var fs := SetIf(fs, "streetAddress", Str(a.streetAddress));
    var fs := SetIf(fs, "addressLocality", Str(a.addressLocality));
    var fs := SetIf(fs, "addressRegion", Str(a.addressRegion));
    var fs := SetIf(fs, "postalCode", Str(a.postalCode));
    JObject(SetIf(fs, "addressCountry", Str(a.addressCountry)))
  }

  function GeoJson(g: Geo): Json {
    JObject([("@type", JString("GeoCoordinates")), ("latitude", Number(g.latitude)),
             ("longitude", Number(g.longitude))])
  }

  /** `dayOfWeek`: one day name, or the array of day names. */
  function DayOfWeekJson(dow: DayOfWeek): Json {
    match dow
    case OneDay(d) => JString(Label(d))
    case Days(ds) => JArray(seq(|ds|, i requires 0 <= i < |ds| => JString(Label(ds[i]))))
  }

  function SpecJson(s: Spec): Json {
    JObject([("@type", JString("OpeningHoursSpecification")), ("dayOfWeek", DayOfWeekJson(s.dayOfWeek)),
             ("opens", JString(s.opens)), ("closes", JString(s.closes))])
  }

  function SpecsJson(specs: seq<Spec>): Json {
    JArray(seq(|specs|, i requires 0 <= i < |specs| => SpecJson(specs[i])))
  }

  function AddressValue(d: Document): Option<Json> {
    if d.address.Some? then Some(AddressJson(d.address.value)) else None
  }

  function GeoValue(d: Document): Option<Json> {
    if d.geo.Some? then Some(GeoJson(d.geo.value)) else None
  }

  function HoursValue(d: Document): Option<Json> {
    if d.openingHoursSpecification.Some? then Some(SpecsJson(d.openingHoursSpecification.value)) else None
  }

  /** The first keys the generator sets: `@context`, `@type`, `name`, `address`, `telephone`, `url`. */
  function HeadFields(d: Document): seq<(string, Json)> {
    var fs := [("@context", JString(d.context)), ("@type", JString(d.typ))];
    var fs := SetIf(fs, "name", Str(d.name));
    var fs := SetIf(fs, "address", AddressValue(d));
    var fs := SetIf(fs, "telephone", Str(d.telephone));
    SetIf(fs, "url", Str(d.url))
  }

  /** The remaining keys, appended to `fs`: `email`, `description`, `priceRange`, `geo`,
      `openingHoursSpecification`. */
  function TailFields(fs: seq<(string, Json)>, d: Document): seq<(string, Json)> {
    var fs := SetIf(fs, "email", Str(d.email));
    var fs := SetIf(fs, "description", Str(d.description));
    var fs := SetIf(fs, "priceRange", Str(d.priceRange));
    var fs := SetIf(fs, "geo", GeoValue(d));
    SetIf(fs, "openingHoursSpecification", HoursValue(d))
  }

  /** The document as the object the generator builds, keys in insertion order. */
  function ToJson(d: Document): Json {
    JObject(TailFields(HeadFields(d), d))
  }

  lemma SetIfCount(fs: seq<(string, Json)>, key: string, value: Option<Json>)
    requires key != [] && key[0] != '@'
    ensures CountProperties(JObject(SetIf(fs, key, value)))
            == CountProperties(JObject(fs)) + (if value.Some? then 1 + CountProperties(value.value) else 0)
  {
    assert !StartsWith(key, "@") by {
      assert key[..1][0] == key[0];
    }
    if value.Some? {
      PlainKeyCounts(fs, key, value.value);
    }
  }

  lemma TypeOnly(typ: string)
    ensures CountProperties(JObject([("@type", JString(typ))])) == 0
  {
    SingleField("@type", JString(typ));
  }

  /** The address object counts its keys except `@type`. */
  lemma AddressCount(a: PostalAddress)
    ensures CountProperties(AddressJson(a)) == AddressKeyCount(a) - 1
  {
    var fs0 := [("@type", JString("PostalAddress"))];
    TypeOnly("PostalAddress");
    var fs1 := SetIf(fs0, "streetAddress", Str(a.streetAddress));
    SetIfCount(fs0, "streetAddress", Str(a.streetAddress));
    var fs2 := SetIf(fs1, "addressLocality", Str(a.addressLocality));
    SetIfCount(fs1, "addressLocality", Str(a.addressLocality));
    var fs3 := SetIf(fs2, "addressRegion", Str(a.addressRegion));
    SetIfCount(fs2, "addressRegion", Str(a.addressRegion));
    var fs4 := SetIf(fs3, "postalCode", Str(a.postalCode));
    SetIfCount(fs3, "postalCode", Str(a.postalCode));
    SetIfCount(fs4, "addressCountry", Str(a.addressCountry));
  }

  /** The coordinates object counts its two coordinates. */
  lemma GeoCount(g: Geo)
    ensures CountProperties(GeoJson(g)) == 2
  {
    var fs0 := [("@type", JString("GeoCoordinates"))];
    TypeOnly("GeoCoordinates");
    SetIfCount(fs0, "latitude", Some(Number(g.latitude)));
    SetIfCount(fs0 + [("latitude", Number(g.latitude))], "longitude", Some(Number(g.longitude)));
    assert GeoJson(g).fields == fs0 + [("latitude", Number(g.latitude))] + [("longitude", Number(g.longitude))];
  }

  /** An array of scalars counts its elements. */
  lemma {:induction false} ScalarItems(j: Json, from: nat)
    requires j.JArray? && from <= |j.items|
    requires forall i :: 0 <= i < |j.items| ==> IsScalar(j.items[i])
    ensures CountItems(j, from) == |j.items| - from
    decreases |j.items| - from
  {
    if from < |j.items| {
      ScalarItems(j, from + 1);
    }
  }

  /** The number of day names listed in an array, or 0 for a single day name. */
  function ListedDays(dow: DayOfWeek): nat {
    if dow.Days? then |dow.days| else 0
  }

  lemma SpecCount(sp: Spec)
    ensures CountProperties(SpecJson(sp)) == 3 + ListedDays(sp.dayOfWeek)
  {
    var dow := DayOfWeekJson(sp.dayOfWeek);
    assert CountProperties(dow) == ListedDays(sp.dayOfWeek) by {
      if sp.dayOfWeek.Days? {
        ScalarItems(dow, 0);
      }
    }
    var fs0 := [("@type", JString("OpeningHoursSpecification"))];
    TypeOnly("OpeningHoursSpecification");
    var fs1 := fs0 + [("dayOfWeek", dow)];
    SetIfCount(fs0, "dayOfWeek", Some(dow));
    var fs2 := fs1 + [("opens", JString(sp.opens))];
    SetIfCount(fs1, "opens", Some(JString(sp.opens)));
    SetIfCount(fs2, "closes", Some(JString(sp.closes)));
    assert SpecJson(sp).fields == fs2 + [("closes", JString(sp.closes))];
  }

  /** What the opening-hours array adds: per entry its index key, `dayOfWeek`, `opens`,
      `closes`, and each day name listed in an array. */
  function HoursPropertyCount(specs: seq<Spec>): nat {
    if specs == [] then 0
    else HoursPropertyCount(specs[..|specs| - 1]) + 4 + ListedDays(specs[|specs| - 1].dayOfWeek)
  }

  lemma {:induction false} HoursCount(specs: seq<Spec>)
    ensures CountProperties(SpecsJson(specs)) == HoursPropertyCount(specs)
  {
    if specs != [] {
      var n := |specs|;
      var init := specs[..n - 1];
      HoursCount(init);
      assert SpecsJson(specs).items == SpecsJson(init).items + [SpecJson(specs[n - 1])];
      ArrayElementCounts(SpecsJson(init).items, SpecJson(specs[n - 1]));
      SpecCount(specs[n - 1]);
    }
  }

  /** The count an optional value adds under a plain key. */
  function Added(v: Option<Json>): nat {
    if v.Some? then 1 + CountProperties(v.value) else 0
  }

  /** A string value adds exactly its key. */
  lemma StrAdded(v: Option<string>)
    ensures Added(Str(v)) == Present(v)
  {
  }

  lemma HeadCount(d: Document)
    ensures CountProperties(JObject(HeadFields(d)))
            == Added(Str(d.name)) + Added(AddressValue(d)) + Added(Str(d.telephone)) + Added(Str(d.url))
  {
    var fs0 := [("@context", JString(d.context)), ("@type", JString(d.typ))];
    assert CountProperties(JObject(fs0)) == 0 by {
      assert fs0 == [("@context", JString(d.context))] + [("@type", JString(d.typ))];
      SingleField("@context", JString(d.context));
      AtKeyIgnored([("@context", JString(d.context))], "@type", JString(d.typ));
    }
    var fs1 := SetIf(fs0, "name", Str(d.name));
    SetIfCount(fs0, "name", Str(d.name));
    var fs2 := SetIf(fs1, "address", AddressValue(d));
    SetIfCount(fs1, "address", AddressValue(d));
    var fs3 := SetIf(fs2, "telephone", Str(d.telephone));
    SetIfCount(fs2, "telephone", Str(d.telephone));
    SetIfCount(fs3, "url", Str(d.url));
  }

  lemma TailCount(fs: seq<(string, Json)>, d: Document)
    ensures CountProperties(JObject(TailFields(fs, d))) == CountProperties(JObject(fs))
            + Added(Str(d.email)) + Added(Str(d.description)) + Added(Str(d.priceRange))
            + Added(GeoValue(d)) + Added(HoursValue(d))
  {
    var fs1 := SetIf(fs, "email", Str(d.email));
    SetIfCount(fs, "email", Str(d.email));
    var fs2 := SetIf(fs1, "description", Str(d.description));
    SetIfCount(fs1, "description", Str(d.description));
    var fs3 := SetIf(fs2, "priceRange", Str(d.priceRange));
    SetIfCount(fs2, "priceRange", Str(d.priceRange));
    var fs4 := SetIf(fs3, "geo", GeoValue(d));
    SetIfCount(fs3, "geo", GeoValue(d));
    SetIfCount(fs4, "openingHoursSpecification", HoursValue(d));
  }

  /** The property count of a document: one per key except `@context` and `@type`, plus
      the address keys except its `@type`, the two coordinates, and what the
      opening-hours array adds. */
  lemma DocumentPropertyCount(d: Document)
    ensures CountProperties(ToJson(d)) ==
      (DocKeyCount(d) - 2)
      + (if d.address.Some? then AddressKeyCount(d.address.value) - 1 else 0)
      + (if d.geo.Some? then 2 else 0)
      + (if d.openingHoursSpecification.Some? then HoursPropertyCount(d.openingHoursSpecification.value) else 0)
  {
    HeadCount(d);
    TailCount(HeadFields(d), d);
    StrAdded(d.name);
    StrAdded(d.telephone);
    StrAdded(d.url);
    StrAdded(d.email);
    StrAdded(d.description);
    StrAdded(d.priceRange);
    assert Added(AddressValue(d))
        == Present(d.address) + (if d.address.Some? then AddressKeyCount(d.address.value) - 1 else 0) by {
      if d.address.Some? {
        AddressCount(d.address.value);
      }
    }
    assert Added(GeoValue(d)) == Present(d.geo) + (if d.geo.Some? then 2 else 0) by {
      if d.geo.Some? {
        GeoCount(d.geo.value);
      }
    }
    assert Added(HoursValue(d)) == Present(d.openingHoursSpecification)
        + (if d.openingHoursSpecification.Some? then HoursPropertyCount(d.openingHoursSpecification.value) else 0) by {
      if d.openingHoursSpecification.Some? {
        HoursCount(d.openingHoursSpecification.value);
      }
    }
  }

  /** Every key of the document but `@context` and `@type` is counted. */
  lemma PropertyCountAtLeastKeys(d: Document)
    ensures CountProperties(ToJson(d)) >= DocKeyCount(d) - 2
  {
    DocumentPropertyCount(d);
  }

  // --------------------------------------------------------------- stat classes

  datatype StatClass = StatGood | StatMedium | StatWarning

  /** How alarming a class is: good 0, medium 1, warning 2. */
  function Severity(c: StatClass): nat {
    match c
    case StatGood => 0
    case StatMedium => 1
    case StatWarning => 2
  }

  /** `getCharCountClass`: warning above 10000 characters, medium above 5000. */
  function CharCountClass(count: int): (c: StatClass)
    ensures c == StatWarning <==> count > 10000
    ensures c == StatMedium <==> 5000 < count <= 10000
    ensures c == StatGood <==> count <= 5000
  {
    if count > 10000 then StatWarning else if count > 5000 then StatMedium else StatGood
  }

  /** `getSizeClass`: warning above 50000 bytes, medium above 20000. */
  function SizeClass(bytes: int): (c: StatClass)
    ensures c == StatWarning <==> bytes > 50000
    ensures c == StatMedium <==> 20000 < bytes <= 50000
    ensures c == StatGood <==> bytes <= 20000
  {
    if bytes > 50000 then StatWarning else if bytes > 20000 then StatMedium else StatGood
  }

  /** `getPropertyCountClass`: warning below 5 properties, medium below 10. */
  function PropertyCountClass(count: int): (c: StatClass)
    ensures c == StatWarning <==> count < 5
    ensures c == StatMedium <==> 5 <= count < 10
    ensures c == StatGood <==> count >= 10
  {
    if count < 5 then StatWarning else if count < 10 then StatMedium else StatGood
  }

  /** More text is never less alarming; more properties never more. */
  lemma StatClassesMonotone(a: int, b: int)
    requires a <= b
    ensures Severity(CharCountClass(a)) <= Severity(CharCountClass(b))
    ensures Severity(SizeClass(a)) <= Severity(SizeClass(b))
    ensures Severity(PropertyCountClass(a)) >= Severity(PropertyCountClass(b))
  {
  }

  // ------------------------------------------------------------ score and status

  datatype ScoreClass = ScoreLow | ScoreMedium | ScoreHigh

  /** The class of a completeness score: high from 80, medium from 60, low below. */
  function ClassOfScore(score: int): (c: ScoreClass)
    ensures c == ScoreHigh <==> score >= 80
    ensures c == ScoreMedium <==> 60 <= score < 80
    ensures c == ScoreLow <==> score < 60
  {
    if score >= 80 then ScoreHigh else if score >= 60 then ScoreMedium else ScoreLow
  }

  function ScoreLevel(c: ScoreClass): nat {
    match c
    case ScoreLow => 0
    case ScoreMedium => 1
    case ScoreHigh => 2
  }

  /** A higher score never gets a lower class. */
  lemma ScoreClassMonotone(a: int, b: int)
    requires a <= b
    ensures ScoreLevel(ClassOfScore(a)) <= ScoreLevel(ClassOfScore(b))
  {
  }

  /** The completeness line: `0%` while there is no data, else the score and its class. */
  datatype ScoreView = ZeroPercent | Scored(score: nat, cls: ScoreClass)

  /** The status line: waiting for data, or the verdict with the error and warning counts. */
  datatype StatusView = Waiting | ValidStatus(warnings: nat) | InvalidStatus(errors: nat, warnings: nat)

  /** A document with at most two keys, or none at all (`{}`), is treated as no data. */
  predicate NoData(doc: Option<Document>) {
    doc.None? || DocKeyCount(doc.value) <= 2
  }

  /** `updateCompletenessScore`: no data shows `0%`; otherwise the score and its class. */
  function CompletenessView(doc: Option<Document>): (v: ScoreView)
    ensures v == ZeroPercent <==> NoData(doc)
    ensures v.Scored? ==> v.score == DocValidation.CompletenessScore(doc.value) && v.score <= 100
    ensures v.Scored? ==> (v.cls == ScoreHigh <==> v.score >= 80) && (v.cls == ScoreLow <==> v.score < 60)
  {
    if NoData(doc) then ZeroPercent
    else
      var score := DocValidation.CompletenessScore(doc.value);
      Scored(score, ClassOfScore(score))
  }

  /** How many of the recommended URL, opening hours and coordinates are missing. */
  function RecommendedMissing(d: Document): nat {
    (if !Truthy(d.url) then 1 else 0)
    + (if d.openingHoursSpecification.None? then 1 else 0)
    + (if d.geo.None? then 1 else 0)
  }

  /** `updateStatus`: no data shows the waiting line; otherwise the validator's verdict.
      An invalid document shows the length of the validator's error list — one entry
      per failing check — and either verdict shows one warning per missing recommended
      field. */
  function StatusOf(doc: Option<Document>): (v: StatusView)
    ensures v == Waiting <==> NoData(doc)
    ensures v.ValidStatus? <==> !NoData(doc) && DocValidation.ValidDoc(doc.value)
    ensures v.InvalidStatus? ==> v.errors == |DocValidation.Validate(doc.value).errors| && v.errors > 0
    ensures v.ValidStatus? ==> v.warnings == RecommendedMissing(doc.value)
    ensures v.InvalidStatus? ==> v.warnings == RecommendedMissing(doc.value)
  {
    if NoData(doc) then Waiting
    else
      var r := DocValidation.Validate(doc.value);
      WarningCount(doc.value);
      if r.isValid then ValidStatus(|r.warnings|) else InvalidStatus(|r.errors|, |r.warnings|)
  }

  lemma WarningCount(d: Document)
    ensures |DocValidation.Validate(d).warnings| == RecommendedMissing(d)
  {
    assert DocValidation.Validate(d).warnings == DocValidation.Warnings(d);
  }

  /** The error count shown is the number of failing checks: any list of exactly the
      failing checks in checking order has that length. */
  lemma StatusCountsFailingChecks(d: Document, es: seq<DocValidation.ValidationError>)
    requires !NoData(Some(d)) && es != []
    requires DocValidation.InCheckOrder(es) && forall e :: e in es <==> DocValidation.Fails(d, e)
    ensures StatusOf(Some(d)) == InvalidStatus(|es|, RecommendedMissing(d))
  {
    DocValidation.ValidateErrorsDetermined(d, es);
  }

  /** A document the validator accepts but with none of the recommended fields scores 50,
      which is shown as low. */
  lemma MinimalValidDocumentShowsLow(d: Document)
    requires Truthy(d.name) && Truthy(d.telephone)
    requires d.address.Some? && DocValidation.AddressPoints(d.address.value) == 20
    requires !Truthy(d.url) && !Truthy(d.email) && !Truthy(d.description) && !Truthy(d.priceRange)
    requires d.geo.None? && d.openingHoursSpecification.None?
    ensures CompletenessView(Some(d)) == Scored(50, ScoreLow)
  {
    DocValidation.MinimalDocumentScoresFifty(d);
  }

  // ---------------------------------------------------------------- the pane

  /** `hasData`: the form has some key, and a business name, phone or street address. */
  predicate HasData(f: FormData) {
    KeyCount(f) > 0 && (Truthy(f.businessName) || Truthy(f.phone) || Truthy(f.streetAddress))
  }

  /** What the pane shows: the placeholder or the document, the status line, the
      completeness line and the property count. */
  datatype PaneView = PaneView(showsDocument: bool, status: StatusView, score: ScoreView, propertyCount: nat)

  /** `updatePreview`: without data the placeholder is shown with the `{}` statistics;
      otherwise the generated document with its status, score and property count. */
  function UpdatePreview(f: FormData, parseFloat: string -> Option<real>): (v: PaneView)
    ensures v.showsDocument <==> HasData(f)
    ensures !HasData(f) ==> v == PaneView(false, Waiting, ZeroPercent, 0)
    ensures HasData(f) ==>
      var d := Generate(Some(f), parseFloat);
      v.propertyCount == CountProperties(ToJson(d)) && v.status == StatusOf(Some(d)) && v.score == CompletenessView(Some(d))
  {
    if !HasData(f) then
      assert CountProperties(JObject([])) == 0 by {
        assert CountFields(JObject([]), 0) == 0;
      }
      PaneView(false, StatusOf(None), CompletenessView(None), CountProperties(JObject([])))
    else
      var d := Generate(Some(f), parseFloat);
      PaneView(true, StatusOf(Some(d)), CompletenessView(Some(d)), CountProperties(ToJson(d)))
  }

  /** A form with data always yields a document of more than two keys, so the pane never
      shows the waiting line or `0%` next to a document. */
  lemma HasDataMeansMoreThanTwoKeys(f: FormData, parseFloat: string -> Option<real>)
    requires HasData(f)
    ensures DocKeyCount(Generate(Some(f), parseFloat)) > 2
    ensures var v := UpdatePreview(f, parseFloat); v.status != Waiting && v.score.Scored?
  {
    assert f != EmptyForm by {
      KeyCountZeroIff(f);
    }
    var d := Generate(Some(f), parseFloat);
    assert d.name.Some? || d.telephone.Some? || d.address.Some?;
    assert !NoData(Some(d));
  }
}
