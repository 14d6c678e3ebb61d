/**
 * How the independent checks of the application relate to each other: the geocoder's
 * coordinate validation against the generator's `geo` key and the document validator,
 * and the form's time-range check against the validator's opening-hours check.
 */
module Consistency {
  import opened Wrappers
  import opened OpeningHours
  import opened JsonLd
  import DocValidation
  import Validators
  import Geocoder

  /** For a filled-in form with both coordinate fields set, the geocoder accepts the
      coordinates exactly when the generated document has a `geo` key that the document
      validator accepts. */
  lemma CoordinatesAgree(f: FormData, parseFloat: string -> Option<real>)
    requires f != EmptyForm && Truthy(f.latitude) && Truthy(f.longitude)
    ensures var d := Generate(Some(f), parseFloat);
      Geocoder.ValidateCoordinates(f.latitude.value, f.longitude.value, parseFloat).isValid
      <==> d.geo.Some? && DocValidation.GeoOk(d)
  {
  }

  /** A coordinate that does not parse is dropped by the generator, so the document
      validator has nothing to object to while the geocoder reports it. */
  lemma UnparsableCoordinateOnlyGeocoderReports(f: FormData, parseFloat: string -> Option<real>)
    requires f != EmptyForm && Truthy(f.latitude) && Truthy(f.longitude)
    requires parseFloat(f.latitude.value).None?
    ensures var d := Generate(Some(f), parseFloat);
      d.geo.None? && DocValidation.GeoOk(d)
    ensures var c := Geocoder.ValidateCoordinates(f.latitude.value, f.longitude.value, parseFloat);
      !c.isValid && Geocoder.LatitudeNaN in c.errors
  {
  }

  /** The form's time-range check compares minutes, so "9:00" to "10:00" is in order. */
  lemma UnpaddedRangeAccepted()
    ensures Validators.TimeRange("9:00", "10:00").isValid
  {
    assert "9:00"[..1] == "9" && "9:00"[2..] == "00";
    assert "10:00"[..2] == "10" && "10:00"[3..] == "00";
    Validators.DecimalOne("9");
    Validators.DecimalTwo("10");
    Validators.DecimalTwo("00");
    assert Validators.ClockAs("9:00", 1);
    assert Validators.ClockAs("10:00", 2);
    Validators.TimeRangeOnClockTimes("9:00", 1, "10:00", 2);
  }

  /** An hour without a leading zero: the form's time-range check accepts "9:00" to
      "10:00", and the document validator reports the same entry as opening after it
      closes. */
  lemma UnpaddedRangeJudgedDifferently(d: Document)
    requires d.openingHoursSpecification == Some([Spec(OneDay(Monday), "9:00", "10:00")])
    ensures Validators.TimeRange("9:00", "10:00").isValid
    ensures !DocValidation.Validate(d).isValid
  {
    UnpaddedRangeAccepted();
    DocValidation.UnpaddedHoursFlagged(d);
  }
}
