/** Form validation (`validateForm`): every required field whose trimmed value is
    empty is marked with the error class, every other one is cleared, and the form
    is valid when no field was marked. The form's required fields are given as
    their values, index-aligned with their error marks. */
module Forms {
  import opened Text

  /** A required field is missing when its value trims to nothing. */
  predicate Missing(value: string) {
    Trim(value) == ""
  }

  /** Validate the fields with the given values, setting `error[i]` for each. */
  method ValidateForm(values: seq<string>, error: array<bool>) returns (isValid: bool)
    requires error.Length == |values|
    modifies error
    ensures isValid <==> forall i :: 0 <= i < |values| ==> !Missing(values[i])
    ensures forall i :: 0 <= i < |values| ==> error[i] == Missing(values[i])
  {
    isValid := true;
    var i := 0;
    while i < |values|
      invariant 0 <= i <= |values|
      invariant forall k :: 0 <= k < i ==> error[k] == Missing(values[k])
      invariant isValid <==> forall k :: 0 <= k < i ==> !Missing(values[k])
    {
      var missing := Missing(values[i]);
      if missing {
        error[i] := true;
        isValid := false;
      } else {
        error[i] := false;
      }
      i := i + 1;
    }
  }
}
