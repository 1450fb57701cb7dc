/** The date-range rule shared by the admin and public event searches
    (Validator.validateStartAndEndDates). Instants are integer seconds; a bound
    that is absent or blank in the request is `None`. */
module Validator {
  import opened Errors

  /** A range with both bounds present must end strictly after it starts;
      a range with a missing bound is not checked at all. */
  function ValidateStartAndEndDates(start: Option<int>, end: Option<int>): (r: Outcome)
    ensures start.None? || end.None? ==> r == Pass
    ensures start.Some? && end.Some? ==> (r == Pass <==> start.value < end.value)
    ensures r.Fail? ==> r.error == Validation
  {
    if start.None? || end.None? then Pass
    else if !(end.value > start.value) then Fail(Validation)
    else Pass
  }
}
