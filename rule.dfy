/**
 * One filter rule (src/filter/rule.go): a key `name` or `name[alias]` with a
 * value text, resolved against a schema of named, typed fields.
 */
module Rules {
  import opened Common
  import opened Ascii
  import opened Decimal
  import SemVer
  import opened Operators

  // ---------------------------------------------------------------------------
  // Data model

  /** A rule: the field name as written in the key, the operator, and the coerced base value. */
  datatype Rule = Rule(fieldName: string, op: Operator, value: Value)

  /** One declared field of a record type. */
  datatype Field = Field(name: string, kind: Kind)

  /** The fields of a record type, in declaration order (what reflection sees of a struct type). */
  type Schema = seq<Field>

  /** One field of a record instance and its current value. */
  datatype FieldValue = FieldValue(name: string, value: Value)

  /** A record instance (what reflection sees of a struct value). */
  type Record = seq<FieldValue>

  /** Why text could not be coerced into a field's type (parseText). */
  datatype CoerceError =
    | InvalidInteger(numError: NumError)
    | InvalidFieldValue(versionError: SemVer.VersionError)
    | UnableToParse(text: string, typeName: string)

  datatype RuleError =
    | MalformedKey(key: string)
    | OperatorError(opError: OpError)
    | FieldNotFound(name: string)
    | CoerceFailed(coerceError: CoerceError)
    | OperatorTypeMismatch(op: Operator, kind: Kind)
    | EvaluateFailed(rule: Rule, cause: OpError)
    /** A runtime panic of the source: ParseRule given text without '='. */
    | MissingValue(text: string)
    /** A runtime panic of the source: Match on a record that lacks the rule's field. */
    | FieldMissingOnRecord(name: string)

  // ---------------------------------------------------------------------------
  // Key recogniser

  /** The regular language `[a-zA-Z0-9.]+`. */
  predicate IsPlainName(s: string)
  {
    s != [] && forall i :: 0 <= i < |s| ==> IsNameChar(s[i])
  }

  /** The regular language `[a-zA-Z]*`. */
  predicate IsAliasText(s: string)
  {
    forall i :: 0 <= i < |s| ==> IsLetter(s[i])
  }

  /** The regular language `[a-zA-Z0-9.]+\[[a-zA-Z]*\]`, with its two groups. */
  predicate IsBracketedKey(text: string, name: string, alias: string)
  {
    IsPlainName(name) && IsAliasText(alias) && text == name + "[" + alias + "]"
  }

  datatype KeyShape = Plain | Bracketed(name: string, alias: string) | Malformed

  /** A hand-written recogniser for the two key shapes. */
  function Recognise(text: string): KeyShape
  {
    var i := IndexOf(text, '[');
    if i == |text| then
      if IsPlainName(text) then Plain else Malformed
    else
      var name, rest := text[..i], text[i + 1..];
      if IsPlainName(name) && rest != [] && rest[|rest| - 1] == ']' && IsAliasText(rest[..|rest| - 1])
      then Bracketed(name, rest[..|rest| - 1])
      else Malformed
  }

  /** A name of name characters holds no bracket, so a key splits at the bracket after it. */
  lemma SplitAtBracket(text: string, name: string, tail: string)
    requires IsPlainName(name) && text == name + "[" + tail
    ensures IndexOf(text, '[') == |name|
    ensures text[..|name|] == name && text[|name| + 1..] == tail
  {
    assert text[|name|] == '[';
    forall j | 0 <= j < |name| ensures text[j] != '[' {
      assert text[j] == name[j] && IsNameChar(name[j]);
    }
    IndexOfAt(text, '[', |name|);
  }

  /** A plain name holds no bracket. */
  lemma PlainHasNoBracket(text: string)
    requires IsPlainName(text)
    ensures IndexOf(text, '[') == |text|
  {
    forall j | 0 <= j < |text| ensures text[j] != '[' {
      assert IsNameChar(text[j]);
    }
    IndexOfAt(text, '[', |text|);
  }

  /** text = name + "[" + alias + "]" splits into name and alias + "]". */
  lemma BracketedKeyParts(text: string, name: string, alias: string)
    requires IsPlainName(name) && text == name + "[" + alias + "]"
    ensures IndexOf(text, '[') == |name|
    ensures text[..|name|] == name && text[|name| + 1..] == alias + "]"
  {
    Associative(name + "[", alias, "]");
    SplitAtBracket(text, name, alias + "]");
  }

  /** The recogniser on a key of the form name + "[" + alias + "]". */
  lemma RecogniseBracket(text: string, name: string, alias: string)
    requires IsPlainName(name) && text == name + "[" + alias + "]"
    ensures Recognise(text) == if IsAliasText(alias) then Bracketed(name, alias) else Malformed
  {
    BracketedKeyParts(text, name, alias);
    var rest := alias + "]";
    assert rest[|rest| - 1] == ']' && rest[..|rest| - 1] == alias;
  }

  /** The recogniser accepts exactly the two regular languages, and finds the groups. */
  lemma RecogniseCorrect(text: string)
    ensures Recognise(text) == Plain <==> IsPlainName(text)
    ensures Recognise(text).Bracketed? ==>
      IsBracketedKey(text, Recognise(text).name, Recognise(text).alias)
    ensures forall name, alias :: IsBracketedKey(text, name, alias) ==> Recognise(text) == Bracketed(name, alias)
  {
    if IsPlainName(text) {
      PlainHasNoBracket(text);
    }
    var i := IndexOf(text, '[');
    IndexOfFirst(text, '[');
    if i < |text| && Recognise(text).Bracketed? {
      var name, rest := text[..i], text[i + 1..];
      var alias := rest[..|rest| - 1];
      assert rest == alias + "]";
      assert text == name + "[" + rest;
      Associative(name + "[", alias, "]");
    }
    forall name, alias | IsBracketedKey(text, name, alias)
      ensures Recognise(text) == Bracketed(name, alias)
    {
      RecogniseBracket(text, name, alias);
    }
  }

  /** getNameAndOp (src/filter/rule.go:109-128). */
  function GetNameAndOp(text: string): (r: (string, Operator, Option<RuleError>))
    ensures r.2.None? ==> r.1 != Unknown
  {
    match Recognise(text)
    case Plain => (text, Equals, None)
    case Bracketed(name, alias) =>
      var (op, err) := Operators.Parse(alias);
      (name, op, if err.Some? then Some(OperatorError(err.value)) else None)
    case Malformed => ("", Unknown, Some(MalformedKey(text)))
  }

  /** A plain key names a field with the Equals operator. */
  lemma GetNameAndOpPlain(text: string)
    requires IsPlainName(text)
    ensures GetNameAndOp(text) == (text, Equals, None)
  {
    RecogniseCorrect(text);
  }

  /** A bracketed key yields its name and whatever Parse makes of the alias, error included. */
  lemma GetNameAndOpBracketed(name: string, alias: string)
    requires IsPlainName(name) && IsAliasText(alias)
    ensures var r := GetNameAndOp(name + "[" + alias + "]");
      r.0 == name && r.1 == Operators.Parse(alias).0
      && (r.2.Some? <==> Operators.Parse(alias).1.Some?)
      && (r.2.Some? ==> r.2.value == OperatorError(UnrecognizedOperator(alias)))
  {
    RecogniseBracket(name + "[" + alias + "]", name, alias);
  }

  /** Every key of neither shape is malformed, with an empty name and the Unknown operator. */
  lemma GetNameAndOpMalformed(text: string)
    requires !IsPlainName(text)
    requires forall name, alias :: !IsBracketedKey(text, name, alias)
    ensures GetNameAndOp(text) == ("", Unknown, Some(MalformedKey(text)))
  {
    RecogniseCorrect(text);
  }

  /** An empty bracket is the Equals operator. */
  lemma EmptyBracketIsEquals()
    ensures GetNameAndOp("param[]") == ("param", Equals, None)
  {
    assert IsPlainName("param");
    assert "param[]" == "param" + "[" + "" + "]";
    GetNameAndOpBracketed("param", "");
  }

  /** A recognised alias yields its operator. */
  lemma BracketedLike()
    ensures GetNameAndOp("param[like]") == ("param", Like, None)
  {
    assert IsPlainName("param") && IsAliasText("like");
    assert "param[like]" == "param" + "[" + "like" + "]";
    GetNameAndOpBracketed("param", "like");
    Operators.ParseAlias(Like);
  }

  /** An unrecognised alias still yields the name, with Unknown and the operator error. */
  lemma BracketedUnrecognised()
    ensures GetNameAndOp("param[dummy]") == ("param", Unknown, Some(OperatorError(UnrecognizedOperator("dummy"))))
  {
    assert IsPlainName("param") && IsAliasText("dummy");
    assert "param[dummy]" == "param" + "[" + "dummy" + "]";
    GetNameAndOpBracketed("param", "dummy");
  }

  /** An unclosed bracket is malformed. */
  lemma MalformedUnclosed()
    ensures GetNameAndOp("param[") == ("", Unknown, Some(MalformedKey("param[")))
  {
    assert IsPlainName("param");
    assert "param[" == "param" + "[" + "";
    SplitAtBracket("param[", "param", "");
  }

  /** Every character of a bracketed key is a name character, a letter or a bracket. */
  lemma BracketedKeyChars(text: string, name: string, alias: string)
    requires IsBracketedKey(text, name, alias)
    ensures forall j :: 0 <= j < |text| ==> IsNameChar(text[j]) || text[j] == '[' || text[j] == ']'
  {
    forall j | 0 <= j < |text| ensures IsNameChar(text[j]) || text[j] == '[' || text[j] == ']' {
      if j < |name| {
        assert text[j] == name[j];
      } else if |name| < j < |text| - 1 {
        assert text[j] == alias[j - |name| - 1];
      }
    }
  }

  /** A key holding a character outside names, aliases and brackets is malformed. */
  lemma MalformedByCharacter(text: string, i: nat)
    requires i < |text| && !IsNameChar(text[i]) && text[i] != '[' && text[i] != ']'
    ensures GetNameAndOp(text) == ("", Unknown, Some(MalformedKey(text)))
  {
    forall name, alias ensures !IsBracketedKey(text, name, alias) {
      if IsBracketedKey(text, name, alias) {
        BracketedKeyChars(text, name, alias);
      }
    }
    GetNameAndOpMalformed(text);
  }

  lemma MalformedCharacter()
    ensures GetNameAndOp("illegal/keyformat") == ("", Unknown, Some(MalformedKey("illegal/keyformat")))
  {
    MalformedByCharacter("illegal/keyformat", 7);
  }

  /** An alias holding a digit is malformed, not an unrecognised operator. */
  lemma MalformedAlias()
    ensures GetNameAndOp("param[l1]") == ("", Unknown, Some(MalformedKey("param[l1]")))
  {
    assert IsPlainName("param");
    assert "param[l1]" == "param" + "[" + "l1" + "]";
    assert !IsAliasText("l1") by {
      assert !IsLetter("l1"[1]);
    }
    RecogniseBracket("param[l1]", "param", "l1");
  }

  // ---------------------------------------------------------------------------
  // Field lookup

  function Names(schema: Schema): (names: seq<string>)
    ensures |names| == |schema| && forall i :: 0 <= i < |schema| ==> names[i] == schema[i].name
  {
    seq(|schema|, i requires 0 <= i < |schema| => schema[i].name)
  }

  /** The struct type of a record: its field names, each with the kind of the value it holds. */
  function TypeOf(record: Record): Schema
  {
    seq(|record|, i requires 0 <= i < |record| => Field(record[i].name, KindOf(record[i].value)))
  }

  /** The first index at or after `from` whose name equals `name` up to case. */
  function FirstFold(names: seq<string>, name: string, from: nat): (r: nat)
    requires from <= |names|
    ensures from <= r <= |names|
    ensures r < |names| ==> EqualFold(names[r], name)
    ensures forall j :: from <= j < r ==> !EqualFold(names[j], name)
    decreases |names| - from
  {
    if from == |names| then from
    else if EqualFold(names[from], name) then from
    else FirstFold(names, name, from + 1)
  }

  /**
   * getFieldByName (src/filter/rule.go:136-141), reflect's FieldByNameFunc with
   * strings.EqualFold on a flat struct: the one field whose name matches up to
   * case; when several match they cancel out and nothing is found.
   */
  function FieldByName(names: seq<string>, name: string): (r: Option<nat>)
    ensures r.Some? ==> r.value < |names| && EqualFold(names[r.value], name)
    ensures r.Some? ==> forall j :: 0 <= j < |names| && j != r.value ==> !EqualFold(names[j], name)
    ensures r.None? ==> forall i :: 0 <= i < |names| && EqualFold(names[i], name) ==>
      exists j :: 0 <= j < |names| && j != i && EqualFold(names[j], name)
  {
    var first := FirstFold(names, name, 0);
    if first == |names| then None
    else if FirstFold(names, name, first + 1) < |names| then None
    else Some(first)
  }

  /** With case-insensitively distinct names, a field is found exactly when one matches. */
  lemma FieldByNameUnique(names: seq<string>, name: string)
    requires forall i, j :: 0 <= i < j < |names| ==> !EqualFold(names[i], names[j])
    ensures FieldByName(names, name).Some? <==> exists i :: 0 <= i < |names| && EqualFold(names[i], name)
  {
    var first := FirstFold(names, name, 0);
    if first < |names| {
      forall j | first < j < |names| ensures !EqualFold(names[j], name) {
        assert !EqualFold(names[first], names[j]);
      }
    }
  }

  // ---------------------------------------------------------------------------
  // Coercion

  /** parseText (src/filter/rule.go:144-175): text into a value of the field's type. */
  function ParseText(text: string, kind: Kind): (r: Result<Value, CoerceError>)
    ensures r.Ok? ==> KindOf(r.value) == kind
  {
    match kind
    case StringKind => Ok(Str(text))
    case IntKind => IntText(text)
    case UintKind => UintText(text)
    case VersionKind => VersionText(text)
    case OtherKind(t) => Err(UnableToParse(text, t))
  }

  /** The Int case of parseText: strconv.ParseInt(text, 10, 64). */
  function IntText(text: string): (r: Result<Value, CoerceError>)
    ensures r.Ok? ==> r.value.Int?
  {
    var n := ParseInt(text);
    if n.Ok? then Ok(Int(n.value)) else Err(InvalidInteger(n.error))
  }

  /** The Uint case of parseText: strconv.ParseUint(text, 10, 64). */
  function UintText(text: string): (r: Result<Value, CoerceError>)
    ensures r.Ok? ==> r.value.Uint?
  {
    var n := ParseUint(text);
    if n.Ok? then Ok(Uint(n.value)) else Err(InvalidInteger(n.error))
  }

  /** The Version case of parseText: the field's own text unmarshaller. */
  function VersionText(text: string): (r: Result<Value, CoerceError>)
    ensures r.Ok? ==> r.value.Ver?
  {
    var v := SemVer.ParseVersion(text);
    if v.Ok? then Ok(Ver(v.value)) else Err(InvalidFieldValue(v.error))
  }

  /** The text form of a value that parseText can read. */
  function FormatValue(v: Value): string
  {
    match v
    case Str(s) => s
    case Int(n) => FormatInt(n)
    case Uint(n) => FormatNat(n)
    case Ver(x) => SemVer.String(x)
    case Opaque(_, p) => p
  }

  /** parseText reads back the text form of every value of a type it can parse. */
  lemma ParseTextFormat(v: Value)
    requires !v.Opaque?
    ensures ParseText(FormatValue(v), KindOf(v)) == Ok(v)
  {
    match v
    case Str(_) =>
    case Int(n) => ParseIntFormat(n);
    case Uint(n) => ParseUintFormat(n);
    case Ver(x) => SemVer.ParseString(x);
  }

  /** The coercion failures: malformed or out-of-range numbers, bad versions, and types with no parser. */
  lemma ParseTextFailures(text: string, t: string)
    ensures ParseText(text, IntKind).Err? <==> !IntLiteral(text)
    ensures ParseText(text, UintKind).Err? <==> !(text != [] && AllDigits(text) && DigitsValue(text) <= MAX_UINT64)
    ensures ParseText(text, VersionKind).Err? <==> SemVer.ParseVersion(text).Err?
    ensures ParseText(text, OtherKind(t)) == Err(UnableToParse(text, t))
  {
    ParseIntCorrect(text);
    ParseUintCorrect(text);
  }

  // ---------------------------------------------------------------------------
  // Construction

  /** The properties every rule built against `schema` has. */
  ghost predicate ValidRule(rule: Rule, schema: Schema)
  {
    rule.op != Unknown
    && IsValidType(rule.op, rule.value)
    && var f := FieldByName(Names(schema), rule.fieldName);
       f.Some? && KindOf(rule.value) == schema[f.value].kind
  }

  /** NewRule (src/filter/rule.go:42-67). */
  function NewRule(key: string, text: string, schema: Schema): (r: Result<Rule, RuleError>)
    ensures r.Ok? ==> ValidRule(r.value, schema)
    ensures r.Ok? ==> r.value.fieldName == GetNameAndOp(key).0 && r.value.op == GetNameAndOp(key).1
    ensures GetNameAndOp(key).2.Some? ==> r == Err(GetNameAndOp(key).2.value)
  {
    var (name, op, err) := GetNameAndOp(key);
    if err.Some? then Err(err.value)
    else match FieldByName(Names(schema), name)
      case None => Err(FieldNotFound(name))
      case Some(i) =>
        match ParseText(text, schema[i].kind)
        case Err(e) => Err(CoerceFailed(e))
        case Ok(v) =>
          if !IsValidType(op, v) then Err(OperatorTypeMismatch(op, KindOf(v)))
          else Ok(Rule(name, op, v))
  }

  /** NewRule's success path, step by step: the key, the field, the value, the operator check. */
  lemma NewRuleBuilds(key: string, text: string, schema: Schema, name: string, op: Operator, i: nat, v: Value)
    requires GetNameAndOp(key) == (name, op, None)
    requires FieldByName(Names(schema), name) == Some(i)
    requires ParseText(text, schema[i].kind) == Ok(v) && IsValidType(op, v)
    ensures NewRule(key, text, schema) == Ok(Rule(name, op, v))
  {
  }

  /** NewRule's unknown-field path. */
  lemma NewRuleMissesField(key: string, text: string, schema: Schema, name: string, op: Operator)
    requires GetNameAndOp(key) == (name, op, None)
    requires FieldByName(Names(schema), name) == None
    ensures NewRule(key, text, schema) == Err(FieldNotFound(name))
  {
  }

  /** The key a rule is written with: the bare name for Equals, otherwise the name and the alias. */
  function KeyOf(rule: Rule): string
    requires rule.op != Unknown
  {
    if rule.op == Equals then rule.fieldName else rule.fieldName + "[" + Alias(rule.op) + "]"
  }

  /** Every valid rule with a plain name is rebuilt from its key and its value's text. */
  lemma NewRuleRoundTrip(rule: Rule, schema: Schema)
    requires ValidRule(rule, schema) && IsPlainName(rule.fieldName) && !rule.value.Opaque?
    ensures NewRule(KeyOf(rule), FormatValue(rule.value), schema) == Ok(rule)
  {
    if rule.op == Equals {
      GetNameAndOpPlain(rule.fieldName);
    } else {
      var alias := Alias(rule.op);
      assert IsAliasText(alias);
      GetNameAndOpBracketed(rule.fieldName, alias);
      Operators.ParseAlias(rule.op);
    }
    ParseTextFormat(rule.value);
  }

  /** A name that no field (or more than one field) matches fails the construction. */
  lemma NewRuleUnknownField(key: string, text: string, schema: Schema)
    requires GetNameAndOp(key).2.None?
    requires FieldByName(Names(schema), GetNameAndOp(key).0).None?
    ensures NewRule(key, text, schema) == Err(FieldNotFound(GetNameAndOp(key).0))
  {
  }

  /** A coerced value the operator does not accept fails the construction. */
  lemma NewRuleRejectsType(key: string, text: string, schema: Schema)
    requires GetNameAndOp(key).2.None?
    requires var f := FieldByName(Names(schema), GetNameAndOp(key).0);
      f.Some? && ParseText(text, schema[f.value].kind).Ok?
      && !IsValidType(GetNameAndOp(key).1, ParseText(text, schema[f.value].kind).value)
    ensures NewRule(key, text, schema).Err? && NewRule(key, text, schema).error.OperatorTypeMismatch?
  {
  }

  /** ParseRule (src/filter/rule.go:76-79): the key ends at the first '='; the value may hold more. */
  function ParseRule(text: string, schema: Schema): Result<Rule, RuleError>
  {
    var parts := SplitN(text, '=', 2);
    if |parts| < 2 then Err(MissingValue(text))
    else NewRule(parts[0], parts[1], schema)
  }

  lemma ParseRuleSplit(key: string, value: string, schema: Schema)
    requires '=' !in key
    ensures ParseRule(key + "=" + value, schema) == NewRule(key, value, schema)
  {
    var text := key + "=" + value;
    assert text[|key|] == '=';
    forall j | 0 <= j < |key| ensures text[j] != '=' { assert text[j] == key[j]; }
    IndexOfAt(text, '=', |key|);
    assert text[..|key|] == key && text[|key| + 1..] == value;
  }

  // ---------------------------------------------------------------------------
  // Evaluation

  /** Rule.Evaluate (src/filter/rule.go:88-94): the operator's verdict, with any error wrapped. */
  function Evaluate(rule: Rule, v: Value): (r: (bool, Option<RuleError>))
    ensures r.1.Some? ==> !r.0 && r.1.value.EvaluateFailed? && r.1.value.rule == rule
    ensures r.1.None? ==> r.0 == Operators.Evaluate(rule.op, v, rule.value).0
  {
    var (ok, err) := Operators.Evaluate(rule.op, v, rule.value);
    if err.Some? then (false, Some(EvaluateFailed(rule, err.value))) else (ok, None)
  }

  /** Rule.Match (src/filter/rule.go:82-85): the record's field of the rule's name, evaluated. */
  function Match(rule: Rule, record: Record): (r: (bool, Option<RuleError>))
    ensures r.1.Some? ==> !r.0
  {
    match FieldByName(Names(TypeOf(record)), rule.fieldName)
    case None => (false, Some(FieldMissingOnRecord(rule.fieldName)))
    case Some(i) => Evaluate(rule, record[i].value)
  }

  /** A record is an instance of a schema: the same fields, each holding a value of its kind. */
  ghost predicate Conforms(record: Record, schema: Schema)
  {
    TypeOf(record) == schema
  }

  /**
   * The construction-time checks make the evaluation-time ones redundant: a rule
   * built against a schema never fails on a record of that schema, except for
   * the ordering operators on uint fields, where the source panics.
   */
  lemma MatchConforming(rule: Rule, record: Record, schema: Schema)
    requires ValidRule(rule, schema) && Conforms(record, schema)
    ensures Match(rule, record).1.Some? <==>
      rule.value.Uint? && (rule.op == LessThan || rule.op == GreaterThan)
  {
    var i := FieldByName(Names(schema), rule.fieldName).value;
    Operators.EvaluateSucceeds(rule.op, record[i].value, rule.value);
  }
}
