/** myapp/forms.py: the year check `ClimaSearchForm.clean_año` of the search
    form, with the current year passed in instead of read from the clock. */
module Forms {
  import opened Common

  /** The lowest year the check lets through. */
  const FirstYear := 1950

  const MissingYearMessage := "El año es obligatorio."

  /** The text of the range error before the current year. */
  const RangePrefix := "Por favor, ingrese un año válido entre 1900 y "

  /** The range error for a given current year. */
  function RangeMessage(currentYear: nat): string
  {
    RangePrefix + NatToString(currentYear) + "."
  }

  /** `clean_año`: a missing year and a year outside 1950..current are
      rejected with their messages; any other year is returned. */
  function CleanYear(year: Option<int>, currentYear: nat): (r: Result<int, string>)
    ensures r.Success? <==> year.Some? && FirstYear <= year.value <= currentYear
    ensures r.Success? ==> r.value == year.value
    ensures year.None? ==> r == Failure(MissingYearMessage)
    ensures year.Some? && r.Failure? ==> r.error == RangeMessage(currentYear)
  {
    if year.None? then Failure(MissingYearMessage)
    else if year.value < FirstYear || year.value > currentYear then Failure(RangeMessage(currentYear))
    else Success(year.value)
  }

  /** The range error quotes 1900 as the lowest year and ends with the
      current year, which reads back from the message. */
  lemma RangeMessageNamesBounds(currentYear: nat)
    ensures var msg := RangeMessage(currentYear);
      && msg[|RangePrefix| - 7..|RangePrefix| - 3] == "1900"
      && msg[|msg| - 1] == '.'
      && IsDigits(msg[|RangePrefix|..|msg| - 1])
      && ParseNat(msg[|RangePrefix|..|msg| - 1]) == currentYear
  {
    var msg := RangeMessage(currentYear);
    assert msg[|RangePrefix|..|msg| - 1] == NatToString(currentYear);
    ParseNatToString(currentYear);
  }

  /** The message promises 1900 as the lowest year, but the years 1900..1949
      are rejected with that very message. */
  lemma QuotedLowerBoundIsRejected(currentYear: nat)
    ensures CleanYear(Some(1900), currentYear) == Failure(RangeMessage(currentYear))
    ensures forall y :: 1900 <= y < FirstYear ==> CleanYear(Some(y), currentYear).Failure?
  {
  }
}
