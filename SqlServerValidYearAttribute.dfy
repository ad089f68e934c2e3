/** `Movies.Driver.SqlServer.Attributes.ValidYearAttribute`: the relational
    driver's own copy of the year validator, with the same text. */
module SqlServerAttributes {
  import opened Wrappers
  import opened NumberParsing
  import DataAttributes

  /** `ValidYearAttribute.IsValid(value)` of the SQL Server driver. */
  predicate ValidYearIsValid(value: Option<string>, currentYear: int)
    ensures ValidYearIsValid(value, currentYear) ==> value.Some? && MinInt16 < currentYear
  {
    match TryParseInt16(value)
    case None => false
    case Some(year) => year < currentYear
  }

  /** Both validators give the same verdict on every input. */
  lemma AgreesWithDataAttribute(value: Option<string>, currentYear: int)
    ensures ValidYearIsValid(value, currentYear) == DataAttributes.ValidYearIsValid(value, currentYear)
  {
  }

  /** `null`, unparsable text and text outside the 16-bit range are invalid;
      a 16-bit year is valid exactly when it is before the current year. */
  lemma AcceptsExactlyEarlierYears(n: int, currentYear: int)
    ensures ValidYearIsValid(Some(Format(n)), currentYear) <==> MinInt16 <= n <= MaxInt16 && n < currentYear
    ensures !ValidYearIsValid(None, currentYear)
  {
    TryParseInt16Format(n);
  }
}
