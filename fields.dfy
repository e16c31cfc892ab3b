/** Pass/fail outcome of a check, in place of the script's thrown exception. */
module Outcomes {
  datatype Outcome<E> = Pass | Fail(error: E)

  datatype Result<T, E> = Success(value: T) | Failure(error: E)
}

/**
 * The fixed field list and the required-field check (`validateRequiredFields`).
 * The script spells the list out twice, once as the required fields and once
 * as the group fields; the two are identical and are one constant here.
 */
module Fields {
  import opened Outcomes
  import PhpStrings

  /** The seven product attributes, in the order that defines validation,
      the group key and the output columns. */
  const GroupFields: seq<string> := [
    "brand_name",
    "model_name",
    "colour_name",
    "gb_spec_name",
    "network_name",
    "grade_name",
    "condition_name"
  ]

  predicate NoDuplicates<T(==)>(s: seq<T>) {
    forall i, j :: 0 <= i < j < |s| ==> s[i] != s[j]
  }

  /** The seven names are pairwise distinct. */
  lemma GroupFieldsDistinct()
    ensures NoDuplicates(GroupFields)
  {
    assert GroupFields[0][0] == 'b' && GroupFields[1][0] == 'm' && GroupFields[2][0] == 'c'
      && GroupFields[3][0] == 'g' && GroupFields[4][0] == 'n' && GroupFields[5][0] == 'g'
      && GroupFields[6][0] == 'c';
    assert |GroupFields[2]| == 11 && |GroupFields[3]| == 12 && |GroupFields[5]| == 10
      && |GroupFields[6]| == 14;
  }

  /** `a` is `b` with some items left out, the rest in their order. */
  predicate IsSubsequence<T(==)>(a: seq<T>, b: seq<T>)
    decreases |b|
  {
    if a == [] then true
    else if b == [] then false
    else if a[0] == b[0] then IsSubsequence(a[1..], b[1..])
    else IsSubsequence(a, b[1..])
  }

  /** `array_diff(required, header)`: the required names the header lacks,
      kept in required order. */
  function Missing(required: seq<string>, header: seq<string>): (m: seq<string>)
    ensures forall f :: f in m <==> f in required && f !in header
    ensures IsSubsequence(m, required)
    ensures NoDuplicates(required) ==> NoDuplicates(m)
  {
    if required == [] then []
    else
      var rest := Missing(required[1..], header);
      if required[0] in header then rest else [required[0]] + rest
  }

  datatype ValidationError = MissingFields(names: seq<string>)

  /** `validateRequiredFields`: fails exactly when some required name is
      absent from the header and then names every absent one, in order. */
  function ValidateRequiredFields(header: seq<string>, required: seq<string>): (r: Outcome<ValidationError>)
    ensures r.Fail? <==> exists f :: f in required && f !in header
    ensures r.Fail? ==> forall f :: f in r.error.names <==> f in required && f !in header
    ensures r.Fail? ==> IsSubsequence(r.error.names, required)
  {
    var missing := Missing(required, header);
    if missing != [] then
      assert missing[0] in missing;
      Fail(MissingFields(missing))
    else Pass
  }

  /** The text of the exception the check throws. */
  function ErrorMessage(e: ValidationError): string {
    "Missing required fields: " + PhpStrings.Join(", ", e.names)
  }

  /** Any header that holds the six other fields but not `grade_name` is
      rejected with a message that names exactly that field. */
  lemma MissingGradeName(header: seq<string>)
    requires "grade_name" !in header
    requires forall f :: f in GroupFields && f != "grade_name" ==> f in header
    ensures ValidateRequiredFields(header, GroupFields) == Fail(MissingFields(["grade_name"]))
  {
    GroupFieldsDistinct();
    assert GroupFields[5] == "grade_name";
    assert GroupFields[6] in header && Missing(GroupFields[7..], header) == [];
    assert Missing(GroupFields[6..], header) == [] by {
      assert GroupFields[6..][1..] == GroupFields[7..];
    }
    assert Missing(GroupFields[5..], header) == ["grade_name"] by {
      assert GroupFields[5..][1..] == GroupFields[6..];
    }
    var k := 5;
    while k > 0
      invariant 0 <= k <= 5
      invariant Missing(GroupFields[k..], header) == ["grade_name"]
    {
      assert GroupFields[k - 1..][1..] == GroupFields[k..];
      assert GroupFields[k - 1] != GroupFields[5];
      assert GroupFields[k - 1] in header;
      k := k - 1;
    }
    assert GroupFields[0..] == GroupFields;
  }

  /** The message for that failure. */
  lemma MissingGradeNameMessage()
    ensures ErrorMessage(MissingFields(["grade_name"])) == "Missing required fields: grade_name"
  {
    assert PhpStrings.Join(", ", ["grade_name"]) == "grade_name";
  }

  /** The full field list passes, whatever else the header holds and in
      whatever order. */
  lemma {:induction false} SupersetPasses(header: seq<string>)
    requires forall f :: f in GroupFields ==> f in header
    ensures ValidateRequiredFields(header, GroupFields) == Pass
  {
  }
}
