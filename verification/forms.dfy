/** The librarian's renewal form and its date validator. */
module Forms {
  import opened Results
  import opened Calendar

  /** How far ahead a librarian may renew a loan: `timedelta(weeks=4)`. */
  const RenewalWindow: nat := Weeks(4)

  /** Why a renewal date is refused. The first two are the form's own
      validation errors; `DateOverflow` is the OverflowError raised when
      today + 4 weeks is past the last representable date. */
  datatype RenewalError = RenewalInPast | RenewalTooFarAhead | DateOverflow

  const ValidationPrefix: string := "Invalid date - "

  /** The text of each refusal. The form's two validation errors share the
      prefix "Invalid date - "; the overflow text is Python's own. */
  function Message(e: RenewalError): (r: string)
    ensures e != DateOverflow <==> |r| > |ValidationPrefix| && r[..|ValidationPrefix|] == ValidationPrefix
  {
    match e
    case RenewalInPast => "Invalid date - renewal in past"
    case RenewalTooFarAhead => "Invalid date - renewal more than 4 weeks ahead"
    case DateOverflow =>
      assert "date value out of range"[0] != ValidationPrefix[0];
      "date value out of range"
  }

  /** Different refusals have different texts, so the text names the reason. */
  lemma MessageIdentifiesReason(e1: RenewalError, e2: RenewalError)
    ensures Message(e1) == Message(e2) ==> e1 == e2
  {
  }

  /** The closed window of dates a librarian may renew to, as promised by the
      field's help text: from today up to and including today + 4 weeks. */
  predicate InRenewalWindow(data: Date, today: Date)
  {
    today <= data <= today + RenewalWindow
  }

  /** `RenewBookForm.clean_renewal_date`: the past check runs first, then
      the upper bound is computed and compared; an accepted date is returned
      unchanged. */
  function CleanRenewalDate(data: Date, today: Date): (r: Result<Date, RenewalError>)
    ensures r.Ok? ==> r.value == data
    ensures r.Ok? <==> InRenewalWindow(data, today) && today + RenewalWindow <= MaxOrdinal
    ensures r == Err(RenewalInPast) <==> data < today
    ensures r == Err(RenewalTooFarAhead) <==> today + RenewalWindow < data
    ensures r == Err(DateOverflow) <==> today <= data && MaxOrdinal < today + RenewalWindow
  {
    if data < today then
      Err(RenewalInPast)
    else
      match AddDays(today, RenewalWindow)
      case None => Err(DateOverflow)
      case Some(limit) => if data > limit then Err(RenewalTooFarAhead) else Ok(data)
  }

  /** The submitted `renewal_date` field as `forms.DateField` sees it:
      absent or empty, present but not a date in any accepted input format,
      or a parsed date. */
  datatype Submission = Missing | Unparseable | Entered(date: Date)

  /** Why a bound renewal form is not valid: the field's own "required" or
      "invalid" error, or the cleaning method's refusal. */
  datatype FormError = FieldRequired | FieldInvalid | Rejected(reason: RenewalError)

  /** `RenewBookForm(data).is_valid()` followed by reading
      `cleaned_data['renewal_date']`. Only a parsed date reaches the cleaning
      method. */
  function ValidateRenewForm(submitted: Submission, today: Date): (r: Result<Date, FormError>)
    ensures submitted == Missing ==> r == Err(FieldRequired)
    ensures submitted == Unparseable ==> r == Err(FieldInvalid)
    ensures r.Ok? <==> submitted.Entered? && CleanRenewalDate(submitted.date, today).Ok?
    ensures r.Ok? ==> r.value == submitted.date
    ensures submitted.Entered? && r.Err? ==> r == Err(Rejected(CleanRenewalDate(submitted.date, today).error))
  {
    match submitted
    case Missing => Err(FieldRequired)
    case Unparseable => Err(FieldInvalid)
    case Entered(data) =>
      match CleanRenewalDate(data, today)
      case Ok(d) => Ok(d)
      case Err(e) => Err(Rejected(e))
  }

  /** A date before today and a date beyond today + 4 weeks are refused for
      different reasons, and no date is refused for both. */
  lemma RefusalReasonsDisjoint(data: Date, today: Date)
    ensures CleanRenewalDate(data, today) == Err(RenewalInPast) ==> !(today + RenewalWindow < data)
    ensures CleanRenewalDate(data, today) == Err(RenewalTooFarAhead) ==> today <= data
    ensures Message(RenewalInPast) != Message(RenewalTooFarAhead)
  {
  }

  /** Cleaning is idempotent: an accepted date, cleaned again on the same
      day, is accepted again with the same value. */
  lemma CleanIdempotent(data: Date, today: Date)
    requires CleanRenewalDate(data, today).Ok?
    ensures CleanRenewalDate(CleanRenewalDate(data, today).value, today) == CleanRenewalDate(data, today)
  {
  }
}
