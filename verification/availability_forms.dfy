/** The availability form's cross-field check (availability/forms.py):
    the end time must be later than the start time. */
module AvailabilityForms {
  import opened Base

  datatype FieldError = FieldError(field: string, message: string)

  /** The form's `cleaned_data`; an absent key is `None`. */
  datatype CleanedData = CleanedData(date: Option<Day>, startTime: Option<Time>, endTime: Option<Time>)

  /** Cleaned data together with the errors collected so far. */
  datatype FormState = FormState(cleaned: CleanedData, errors: seq<FieldError>)

  const END_FIELD: string := "end_time"
  const END_BEFORE_START: string := "結束時間必須晚於開始時間。"

  predicate Misordered(d: CleanedData) {
    d.startTime.Some? && d.endTime.Some? && d.startTime.value >= d.endTime.value
  }

  /** `WorkAvailabilityForm.clean`, given the state the parent `clean` left.
      When both times are present and the start is not before the end, one
      error is added on `end_time`; Django's `add_error` also drops that field
      from the cleaned data. Otherwise the parent's result comes back as it was. */
  function Clean(parent: FormState): (r: FormState)
    ensures Misordered(parent.cleaned) ==>
              r.errors == parent.errors + [FieldError(END_FIELD, END_BEFORE_START)]
              && r.cleaned == parent.cleaned.(endTime := None)
    ensures !Misordered(parent.cleaned) ==> r == parent
  {
    var d := parent.cleaned;
    if d.startTime.Some? && d.endTime.Some? && d.startTime.value >= d.endTime.value then
      FormState(d.(endTime := None), parent.errors + [FieldError("end_time", END_BEFORE_START)])
    else
      parent
  }

  /** The check adds an error exactly for two present times in the wrong order
      or equal; a missing time skips the check. */
  lemma CleanRejectsExactly(parent: FormState)
    ensures |Clean(parent).errors| > |parent.errors|
        <==> parent.cleaned.startTime.Some? && parent.cleaned.endTime.Some?
             && parent.cleaned.startTime.value >= parent.cleaned.endTime.value
    ensures parent.cleaned.startTime.Some? && parent.cleaned.startTime == parent.cleaned.endTime
            ==> Clean(parent).errors[|parent.errors|].field == END_FIELD
  {
  }

  /** Cleaning a cleaned form adds nothing more: the offending field is gone. */
  lemma CleanIdempotent(parent: FormState)
    ensures Clean(Clean(parent)) == Clean(parent)
  {
  }
}
