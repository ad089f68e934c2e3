/** `Movies.Data.Attributes.ValidYearAttribute`: the validation attribute on
    `Movie.Year`. The text must parse as a 16-bit integer below the current
    year; `DateTime.Now.Year` is the parameter `currentYear`. */
module DataAttributes {
  import opened Wrappers
  import opened NumberParsing

  /** `ValidYearAttribute.IsValid(value)`. */
  predicate ValidYearIsValid(value: Option<string>, currentYear: int)
    ensures ValidYearIsValid(value, currentYear) ==> value.Some? && MinInt16 < currentYear
  {
    match TryParseInt16(value)
    case None => false
    case Some(year) => year < currentYear
  }

  /** `null`, and text that is not an integer in the `NumberStyles.Integer`
      form (a foreign character, a misplaced sign, white space between
      digits, no digit at all), are invalid in every year. */
  lemma RejectsUnparsable(value: Option<string>, currentYear: int)
    requires value.None? || !IsIntegerText(value.value)
    ensures !ValidYearIsValid(value, currentYear)
  {
    if value.Some? {
      ParsesExactlyIntegerText(value.value);
    }
  }

  /** The decimal text of a number outside the 16-bit range is invalid,
      whatever the current year. */
  lemma RejectsOutOfRange(n: int, currentYear: int)
    requires n < MinInt16 || MaxInt16 < n
    ensures !ValidYearIsValid(Some(Format(n)), currentYear)
  {
    TryParseInt16Format(n);
  }

  /** "40000" is one such text: it does not fit a `short`. */
  lemma Rejects40000(currentYear: int)
    ensures !ValidYearIsValid(Some("40000"), currentYear)
  {
    FormatOf40000();
    RejectsOutOfRange(40000, currentYear);
  }

  /** `Format` writes 40000 as the text "40000". */
  lemma FormatOf40000()
    ensures Format(40000) == "40000"
  {
    assert DecimalDigits(4) == "4";
    assert DecimalDigits(40) == "40";
    assert DecimalDigits(400) == "400";
    assert DecimalDigits(4000) == "4000";
  }

  /** For a 16-bit year, validity is exactly "strictly before the current
      year": the current year itself is rejected, and there is no lower
      bound, so 0 and negative years are accepted. */
  lemma AcceptsExactlyEarlierYears(year: int, currentYear: int)
    requires MinInt16 <= year <= MaxInt16
    ensures ValidYearIsValid(Some(Format(year)), currentYear) <==> year < currentYear
  {
    TryParseInt16Format(year);
  }

  /** The current year is never valid. */
  lemma RejectsCurrentYear(currentYear: int)
    requires MinInt16 <= currentYear <= MaxInt16
    ensures !ValidYearIsValid(Some(Format(currentYear)), currentYear)
  {
    AcceptsExactlyEarlierYears(currentYear, currentYear);
  }

  /** "0" and "-1" are valid years: nothing bounds a year from below. */
  lemma AcceptsZeroAndNegative(currentYear: int)
    requires currentYear > 0
    ensures ValidYearIsValid(Some("0"), currentYear)
    ensures ValidYearIsValid(Some("-1"), currentYear)
  {
    assert Format(0) == "0";
    assert Format(-1) == "-1";
    AcceptsExactlyEarlierYears(0, currentYear);
    AcceptsExactlyEarlierYears(-1, currentYear);
  }

  /** Validity is downward closed: any text that parses to an earlier year
      than a valid one is valid too. */
  lemma DownwardClosed(valid: Option<string>, earlier: Option<string>, currentYear: int)
    requires ValidYearIsValid(valid, currentYear)
    requires TryParseInt16(earlier).Some?
    requires TryParseInt16(earlier).value <= TryParseInt16(valid).value
    ensures ValidYearIsValid(earlier, currentYear)
  {
  }
}
