/**
 * The operator parse of the earlier top-level snapshot (filter/op/operator.go),
 * where an operator is a string constant rather than an enumeration.
 */
module LegacyOperators {
  import opened Common
  import opened Ascii
  import Operators

  type Operator = string

  const Equals: Operator := "=="
  const Like: Operator := "like"
  const LessThan: Operator := "<"
  const GreaterThan: Operator := ">"
  const Unknown: Operator := "Unknown"

  datatype ParseError = UnrecognizedOperator(text: string)

  /** Parse (filter/op/operator.go:31-44). */
  function Parse(text: string): (r: (Operator, Option<ParseError>))
    ensures r.1.Some? <==> r.0 == Unknown
    ensures r.1.Some? ==> r.1.value == UnrecognizedOperator(text)
    ensures r.0 in [Equals, Like, LessThan, GreaterThan, Unknown]
  {
    var lower := ToLower(text);
    if lower == "" then (Equals, None)
    else if lower == "like" then (Like, None)
    else if lower == "lt" then (LessThan, None)
    else if lower == "gt" then (GreaterThan, None)
    else (Unknown, Some(UnrecognizedOperator(text)))
  }

  /**
   * The snapshot and the current registry recognise the same aliases, and the
   * snapshot's constant is the symbol of the operator the registry picks.
   */
  lemma ParseAgrees(text: string)
    ensures Parse(text).1.Some? <==> Operators.Parse(text).1.Some?
    ensures Parse(text).1.None? ==> Parse(text).0 == Operators.Parse(text).0.Symbol()
  {
  }

  /** No alias means equality; `like` is recognised in any case; `lt` and `gt` name the orderings. */
  lemma ParseExamples()
    ensures Parse("") == (Equals, None)
    ensures Parse("LIKE") == (Like, None) && Parse("Like") == (Like, None)
    ensures Parse("lt") == (LessThan, None) && Parse("gt") == (GreaterThan, None)
    ensures Parse("eq") == (Unknown, Some(UnrecognizedOperator("eq")))
  {
    assert ToLower("LIKE") == "like";
    assert ToLower("Like") == "like";
    assert ToLower("lt") == "lt";
    assert ToLower("gt") == "gt";
    assert ToLower("eq") == "eq";
  }
}
