/**
 * The operator registry of the filter engine (src/filter/op/operator.go): the
 * closed set of operators, their aliases, which value types each accepts, and
 * how each compares an incoming value with a rule's base value.
 */
module Operators {
  import opened Common
  import opened Ascii
  import SemVer

  datatype Operator = Equals | Like | LessThan | GreaterThan | Unknown
  {
    function Name(): string
    {
      match this
      case Equals => "Equals"
      case Like => "Like"
      case LessThan => "LessThan"
      case GreaterThan => "GreaterThan"
      case Unknown => ""
    }

    function Symbol(): string
    {
      match this
      case Equals => "=="
      case Like => "like"
      case LessThan => "<"
      case GreaterThan => ">"
      case Unknown => ""
    }

    function OpText(): string
    {
      match this
      case Equals => "eq"
      case Like => "like"
      case LessThan => "lt"
      case GreaterThan => "gt"
      case Unknown => ""
    }
  }

  /**
   * The runtime type of a value. Every type outside string, int, uint and
   * semver.Version is an OtherKind told apart by its type name.
   */
  datatype Kind = StringKind | IntKind | UintKind | VersionKind | OtherKind(typeName: string)

  /**
   * A Go `interface{}` value as the filter engine sees it. Opaque stands for a
   * value of any other comparable type (a struct, a bool, ...), compared by its
   * type name and its contents.
   */
  datatype Value =
    | Str(s: string)
    /** Go's int on a 64-bit platform; the sized int kinds are not modelled. */
    | Int(i: int64)
    | Uint(u: uint64)
    | Ver(v: SemVer.Version)
    | Opaque(typeName: string, payload: string)

  function KindOf(v: Value): Kind
  {
    match v
    case Str(_) => StringKind
    case Int(_) => IntKind
    case Uint(_) => UintKind
    case Ver(_) => VersionKind
    case Opaque(t, _) => OtherKind(t)
  }

  datatype OpError =
    | UnrecognizedOperator(text: string)
    | TypeMismatch(expected: Kind, actual: Kind)
    | UnsupportedType(op: Operator, kind: Kind)
    | UnknownOperator(op: Operator)
    /** A runtime panic of the source: a failed type assertion. */
    | Panicked

  /** isNumberType restricted to the 64-bit integer kinds of the model. */
  predicate IsNumberType(v: Value) { v.Int? || v.Uint? }

  /** isStringType. */
  predicate IsStringType(v: Value) { v.Str? }

  /** isValueComparerType: semver.Version is the one type with LessThan and GreaterThan. */
  predicate IsValueComparerType(v: Value) { v.Ver? }

  /** The alias each recognised operator is written with in a rule key. */
  function Alias(op: Operator): string
    requires op != Unknown
  {
    match op
    case Equals => ""
    case Like => "like"
    case LessThan => "lt"
    case GreaterThan => "gt"
  }

  /** Parse (src/filter/op/operator.go:75-88): the lower-cased alias picks the operator. */
  function Parse(text: string): (r: (Operator, Option<OpError>))
    ensures r.1.Some? <==> r.0 == Unknown
    ensures r.1.Some? ==> r.1.value == UnrecognizedOperator(text)
    ensures r.0 != Unknown ==> Alias(r.0) == ToLower(text)
    ensures forall op :: op != Unknown && ToLower(text) == Alias(op) ==> r == (op, None)
  {
    var lower := ToLower(text);
    if lower == "" then (Equals, None)
    else if lower == "like" then (Like, None)
    else if lower == "lt" then (LessThan, None)
    else if lower == "gt" then (GreaterThan, None)
    else (Unknown, Some(UnrecognizedOperator(text)))
  }

  /** IsValidType (src/filter/op/operator.go:95-110). */
  predicate IsValidType(op: Operator, v: Value)
  {
    match op
    case Equals => true
    case Like => IsStringType(v)
    case LessThan => IsNumberType(v) || IsValueComparerType(v)
    case GreaterThan => IsNumberType(v) || IsValueComparerType(v)
    case Unknown => false
  }

  /**
   * Evaluate (src/filter/op/operator.go:118-157): the types must agree and suit
   * the operator; then Equals compares, Like searches for the base inside the
   * incoming text, and LessThan / GreaterThan compare ints natively and Versions
   * through their own ordering. A uint reaches the int type assertion and panics.
   */
  function Evaluate(op: Operator, incoming: Value, base: Value): (r: (bool, Option<OpError>))
    ensures r.1.Some? ==> !r.0
  {
    if KindOf(incoming) != KindOf(base) then
      (false, Some(TypeMismatch(KindOf(base), KindOf(incoming))))
    else if !IsValidType(op, incoming) then
      (false, Some(UnsupportedType(op, KindOf(incoming))))
    else
      match op
      case Equals => (incoming == base, None)
      case Like => (Contains(incoming.s, base.s), None)
      case LessThan =>
        (match (incoming, base)
         case (Int(x), Int(y)) => (x < y, None)
         case (Ver(x), Ver(y)) => (SemVer.LessThan(x, y), None)
         case _ => (false, Some(Panicked)))
      case GreaterThan =>
        (match (incoming, base)
         case (Int(x), Int(y)) => (x > y, None)
         case (Ver(x), Ver(y)) => (SemVer.GreaterThan(x, y), None)
         case _ => (false, Some(Panicked)))
      case Unknown => (false, Some(UnknownOperator(op)))
  }

  // ---------------------------------------------------------------------------
  // Parse

  /** Parse is the inverse of Alias on the four recognised operators. */
  lemma ParseAlias(op: Operator)
    requires op != Unknown
    ensures Parse(Alias(op)) == (op, None)
  {
    assert ToLower("like") == "like";
    assert ToLower("lt") == "lt";
    assert ToLower("gt") == "gt";
  }

  /** The aliases of the source's tests, in any case; "eq" is not an alias although it is Equals' OpText. */
  lemma ParseExamples()
    ensures Parse("") == (Equals, None)
    ensures Parse("like").0 == Like && Parse("Like").0 == Like && Parse("LIKE").0 == Like
    ensures Parse("lt").0 == LessThan && Parse("gt").0 == GreaterThan
    ensures Parse("eq") == (Unknown, Some(UnrecognizedOperator("eq"))) && Equals.OpText() == "eq"
    ensures Parse("other") == (Unknown, Some(UnrecognizedOperator("other")))
  {
    assert ToLower("Like") == "like";
    assert ToLower("LIKE") == "like";
    ParseAlias(Like);
    ParseAlias(LessThan);
    ParseAlias(GreaterThan);
  }

  // ---------------------------------------------------------------------------
  // Evaluate

  /** The test cases of IsValidType in the source: which kinds each operator accepts. */
  lemma IsValidTypeTable(v: Value)
    ensures IsValidType(Equals, v)
    ensures IsValidType(Like, v) <==> KindOf(v) == StringKind
    ensures IsValidType(LessThan, v) <==> KindOf(v) in {IntKind, UintKind, VersionKind}
    ensures IsValidType(GreaterThan, v) <==> KindOf(v) in {IntKind, UintKind, VersionKind}
    ensures !IsValidType(Unknown, v)
  {
  }

  /** Whether a value is accepted depends on its type alone. */
  lemma IsValidTypeByKind(op: Operator, a: Value, b: Value)
    requires KindOf(a) == KindOf(b)
    ensures IsValidType(op, a) == IsValidType(op, b)
  {
  }

  /**
   * Evaluate reports no error exactly when both values have one type, the
   * operator accepts that type, and the comparison is not an ordering on uints.
   */
  lemma EvaluateSucceeds(op: Operator, incoming: Value, base: Value)
    ensures Evaluate(op, incoming, base).1.None? <==>
      KindOf(incoming) == KindOf(base) && IsValidType(op, base)
      && !(base.Uint? && (op == LessThan || op == GreaterThan))
  {
    if KindOf(incoming) == KindOf(base) {
      IsValidTypeByKind(op, incoming, base);
    }
  }

  /** Values of different types never match, whatever the operator. */
  lemma EvaluateTypeMismatch(op: Operator, incoming: Value, base: Value)
    requires KindOf(incoming) != KindOf(base)
    ensures Evaluate(op, incoming, base) == (false, Some(TypeMismatch(KindOf(base), KindOf(incoming))))
  {
  }

  /** The Unknown operator always fails with a type error; its own "Unknown operator" branch is never reached. */
  lemma EvaluateUnknown(incoming: Value, base: Value)
    ensures Evaluate(Unknown, incoming, base).1.Some?
    ensures Evaluate(Unknown, incoming, base).1.value.TypeMismatch?
         || Evaluate(Unknown, incoming, base).1.value.UnsupportedType?
  {
  }

  /** Equals is structural equality of values of one type. */
  lemma EvaluateEquals(incoming: Value, base: Value)
    requires KindOf(incoming) == KindOf(base)
    ensures Evaluate(Equals, incoming, base) == (incoming == base, None)
  {
  }

  /** Like holds when the base text occurs somewhere inside the incoming text. */
  lemma EvaluateLike(incoming: string, base: string)
    ensures Evaluate(Like, Str(incoming), Str(base)) == (HasWindow(incoming, base), None)
  {
    ContainsIsWindow(incoming, base);
  }

  lemma LikeExamples()
    ensures Evaluate(Like, Str("abcde"), Str("abc")) == (true, None)
    ensures Evaluate(Like, Str("abc"), Str("abcde")) == (false, None)
    ensures Evaluate(Like, Int(1), Int(2)) == (false, Some(UnsupportedType(Like, IntKind)))
  {
    assert "abc" <= "abcde";
    assert !("abcde" <= "abc");
    assert !Contains("bc", "abcde");
  }

  /** Equality on text is case-sensitive; containment finds an inner window. */
  lemma TextExamples()
    ensures Evaluate(Equals, Str("Tom"), Str("Tom")) == (true, None)
    ensures Evaluate(Equals, Str("Tom"), Str("tom")) == (false, None)
    ensures Evaluate(Like, Str("Green"), Str("ree")) == (true, None)
  {
    assert "Tom" != "tom";
    assert "ree" <= "Green"[1..];
  }

  /** On ints the ordering operators are the strict integer comparisons. */
  lemma EvaluateIntOrder(x: int64, y: int64)
    ensures Evaluate(LessThan, Int(x), Int(y)) == (x < y, None)
    ensures Evaluate(GreaterThan, Int(x), Int(y)) == (x > y, None)
  {
  }

  /** On Versions the ordering operators delegate to the Version's own LessThan and GreaterThan. */
  lemma EvaluateVersionOrder(x: SemVer.Version, y: SemVer.Version)
    ensures Evaluate(LessThan, Ver(x), Ver(y)) == (SemVer.LessThan(x, y), None)
    ensures Evaluate(GreaterThan, Ver(x), Ver(y)) == (SemVer.GreaterThan(x, y), None)
  {
  }

  /** Major first: 1.1.0 is greater than 0.2.0. */
  lemma VersionOrderExample()
    ensures Evaluate(GreaterThan, Ver(SemVer.Version(1, 1, 0)), Ver(SemVer.Version(0, 2, 0))) == (true, None)
  {
  }

  /** GreaterThan with its arguments swapped is LessThan, for every pair of values. */
  lemma GreaterThanIsConverse(a: Value, b: Value)
    ensures Evaluate(GreaterThan, a, b).0 == Evaluate(LessThan, b, a).0
  {
    if a.Ver? && b.Ver? {
      SemVer.LessThanIsConverse(b.v, a.v);
    }
  }
}
