/**
 * App metadata and how it is matched against rules (src/app/meta.go).
 */
module Apps {
  import opened Common
  import opened Ascii
  import opened Operators
  import opened Rules

  datatype Maintainer = Maintainer(name: string, email: string)

  /** The metadata of one app; the version is kept as the text it was given in. */
  datatype Meta = Meta(
    title: string,
    version: string,
    maintainers: seq<Maintainer>,
    company: string,
    website: string,
    source: string,
    license: string,
    description: string)

  datatype MatchError =
    | RuleFailed(cause: RuleError)
    | UnsupportedRuleForField(fieldName: string)

  /** A match verdict and the error that cut it short, if any. */
  type Outcome = (bool, Option<MatchError>)

  /** Rule.Evaluate on one string field of the metadata. */
  function EvaluateOn(rule: Rule, s: string): (r: Outcome)
    ensures r.1.Some? ==> !r.0 && r.1.value.RuleFailed?
    ensures r.1.None? <==> Operators.Evaluate(rule.op, Str(s), rule.value).1.None?
    ensures r.1.None? ==> r.0 == Operators.Evaluate(rule.op, Str(s), rule.value).0
  {
    var (ok, err) := Rules.Evaluate(rule, Str(s));
    if err.Some? then (false, Some(RuleFailed(err.value))) else (ok, None)
  }

  /** The maintainer.name case of MatchRule: the first maintainer that matches or errs decides. */
  function MatchMaintainers(ms: seq<Maintainer>, rule: Rule): (r: Outcome)
    ensures r.1.Some? ==> !r.0
  {
    if ms == [] then (false, None)
    else
      var first := EvaluateOn(rule, ms[0].name);
      if first.1.Some? then first
      else if first.0 then (true, None)
      else MatchMaintainers(ms[1..], rule)
  }

  /** The fields MatchRule knows. */
  datatype Searchable = TitleField | VersionField | MaintainerNameField | CompanyField | DescriptionField

  /** The switch of MatchRule on the lower-cased field name. */
  function FieldNamed(field: string): Option<Searchable>
  {
    if field == "title" then Some(TitleField)
    else if field == "version" then Some(VersionField)
    else if field == "maintainer.name" then Some(MaintainerNameField)
    else if field == "company" then Some(CompanyField)
    else if field == "description" then Some(DescriptionField)
    else None
  }

  /** The text of one of the single-valued fields. */
  function TextOf(m: Meta, f: Searchable): string
    requires f != MaintainerNameField
  {
    match f
    case TitleField => m.title
    case VersionField => m.version
    case CompanyField => m.company
    case DescriptionField => m.description
  }

  /** Meta.MatchRule (src/app/meta.go:42-71): dispatch on the lower-cased field name. */
  function MatchRule(m: Meta, rule: Rule): (r: Outcome)
    ensures r.1.Some? ==> !r.0
  {
    match FieldNamed(ToLower(rule.fieldName))
    case None => (false, Some(UnsupportedRuleForField(rule.fieldName)))
    case Some(f) =>
      if f == MaintainerNameField then MatchMaintainers(m.maintainers, rule)
      else EvaluateOn(rule, TextOf(m, f))
  }

  /** Meta.MatchRuleSet (src/app/meta.go:76-88): a conjunction that stops at the first rule that fails or errs. */
  function MatchRuleSet(m: Meta, rules: seq<Rule>): (r: Outcome)
    ensures r.1.Some? ==> !r.0
  {
    if rules == [] then (true, None)
    else
      var first := MatchRule(m, rules[0]);
      if first.1.Some? then first
      else if !first.0 then (false, None)
      else MatchRuleSet(m, rules[1..])
  }

  /** The field names MatchRule knows, lower-cased. */
  predicate Supported(field: string)
  {
    field in ["title", "version", "maintainer.name", "company", "description"]
  }

  /** The switch recognises exactly the supported names. */
  lemma FieldNamedSupported(field: string)
    ensures FieldNamed(field).Some? <==> Supported(field)
  {
  }

  /** The schema a rule set for Meta is built against: its fields and their Go types. */
  const MetaSchema: Schema := [
    Field("Title", StringKind),
    Field("Version", StringKind),
    Field("Maintainers", OtherKind("[]app.Maintainer")),
    Field("Company", StringKind),
    Field("Website", StringKind),
    Field("Source", StringKind),
    Field("License", StringKind),
    Field("Description", StringKind)
  ]

  // ---------------------------------------------------------------------------
  // MatchRule

  /** Field names are matched without regard to case: only the verdict and whether it failed depend on the rule's field name's lower-case form. */
  lemma MatchRuleIgnoresCase(m: Meta, a: Rule, b: Rule)
    requires ToLower(a.fieldName) == ToLower(b.fieldName) && a.op == b.op && a.value == b.value
    ensures MatchRule(m, a).0 == MatchRule(m, b).0
    ensures MatchRule(m, a).1.Some? == MatchRule(m, b).1.Some?
  {
    if ToLower(a.fieldName) == "maintainer.name" {
      MaintainersIgnoreField(m.maintainers, a, b);
    }
  }

  lemma {:induction false} MaintainersIgnoreField(ms: seq<Maintainer>, a: Rule, b: Rule)
    requires a.op == b.op && a.value == b.value
    ensures MatchMaintainers(ms, a).0 == MatchMaintainers(ms, b).0
    ensures MatchMaintainers(ms, a).1.Some? == MatchMaintainers(ms, b).1.Some?
  {
    if ms != [] {
      MaintainersIgnoreField(ms[1..], a, b);
    }
  }

  /** A field name MatchRule does not know gives false and names the field in the error. */
  lemma MatchRuleUnsupported(m: Meta, rule: Rule)
    requires !Supported(ToLower(rule.fieldName))
    ensures MatchRule(m, rule) == (false, Some(UnsupportedRuleForField(rule.fieldName)))
  {
    FieldNamedSupported(ToLower(rule.fieldName));
  }

  /** Equality and containment on a supported string field, end to end. */
  lemma MatchTitleEquals(m: Meta, rule: Rule, t: string)
    requires rule == Rule("Title", Equals, Str(t))
    ensures MatchRule(m, rule) == (m.title == t, None)
  {
    var field := ToLower(rule.fieldName);
    assert field == "title" by {
      assert field[0] == 't' && field[1..] == "itle";
    }
    assert FieldNamed("title") == Some(TitleField);
  }

  lemma MatchCompanyLike(m: Meta, rule: Rule, s: string)
    requires rule == Rule("company", Like, Str(s))
    ensures MatchRule(m, rule) == (Contains(m.company, s), None)
  {
    LowerUnchanged(rule.fieldName);
    CompanyNamed();
  }

  lemma CompanyNamed()
    ensures FieldNamed("company") == Some(CompanyField)
  {
    assert "company"[0] != "version"[0];
  }

  /** website, source and license are fields of Meta that MatchRule does not support. */
  lemma WebsiteUnsupported(m: Meta, rule: Rule)
    requires rule.fieldName == "Website"
    ensures MatchRule(m, rule) == (false, Some(UnsupportedRuleForField("Website")))
  {
    var field := ToLower(rule.fieldName);
    assert field == "website" by {
      assert field[0] == 'w' && field[1..] == "ebsite";
    }
    NotNamed("website");
  }

  lemma LicenseUnsupported(m: Meta, rule: Rule)
    requires rule.fieldName == "license"
    ensures MatchRule(m, rule) == (false, Some(UnsupportedRuleForField("license")))
  {
    LowerUnchanged(rule.fieldName);
    NotNamed("license");
  }

  /** A name starting with a letter no supported name starts with is not supported. */
  lemma NotNamed(field: string)
    requires field != [] && field[0] !in "tvmcd"
    ensures FieldNamed(field) == None
  {
    assert field[0] != "title"[0] && field[0] != "version"[0] && field[0] != "maintainer.name"[0];
    assert field[0] != "company"[0] && field[0] != "description"[0];
  }

  // ---------------------------------------------------------------------------
  // The maintainer.name search

  /** No maintainers never match. */
  lemma NoMaintainers(rule: Rule)
    ensures MatchMaintainers([], rule) == (false, None)
  {
  }

  /** The k-th maintainer matches cleanly and every earlier one neither matches nor errs. */
  predicate FirstMatchAt(ms: seq<Maintainer>, rule: Rule, k: int)
  {
    && 0 <= k < |ms|
    && EvaluateOn(rule, ms[k].name) == (true, None)
    && (forall j :: 0 <= j < k ==> EvaluateOn(rule, ms[j].name) == (false, None))
  }

  /** The search is true exactly when some maintainer matches and every earlier one neither matches nor errs. */
  lemma MatchMaintainersTrue(ms: seq<Maintainer>, rule: Rule)
    ensures MatchMaintainers(ms, rule).0 <==> exists k :: FirstMatchAt(ms, rule, k)
  {
    if MatchMaintainers(ms, rule).0 {
      MatchedHasWitness(ms, rule);
    }
    if exists k :: FirstMatchAt(ms, rule, k) {
      var k :| FirstMatchAt(ms, rule, k);
      WitnessMatches(ms, rule, k);
    }
  }

  lemma {:induction false} MatchedHasWitness(ms: seq<Maintainer>, rule: Rule)
    requires MatchMaintainers(ms, rule).0
    ensures exists k :: FirstMatchAt(ms, rule, k)
  {
    if EvaluateOn(rule, ms[0].name) == (true, None) {
      assert FirstMatchAt(ms, rule, 0);
    } else {
      var rest := ms[1..];
      MatchedHasWitness(rest, rule);
      var k :| FirstMatchAt(rest, rule, k);
      assert rest[k] == ms[k + 1];
      assert forall j :: 0 < j <= k ==> rest[j - 1] == ms[j];
      assert FirstMatchAt(ms, rule, k + 1);
    }
  }

  lemma {:induction false} WitnessMatches(ms: seq<Maintainer>, rule: Rule, k: int)
    requires FirstMatchAt(ms, rule, k)
    ensures MatchMaintainers(ms, rule).0
    decreases k
  {
    if k > 0 {
      var rest := ms[1..];
      assert rest[k - 1] == ms[k];
      assert forall j :: 0 <= j < k - 1 ==> rest[j] == ms[j + 1];
      assert FirstMatchAt(rest, rule, k - 1);
      WitnessMatches(rest, rule, k - 1);
    }
  }

  /** The search fails with the error of the first maintainer that errs, if no earlier one matched. */
  lemma {:induction false} MatchMaintainersError(ms: seq<Maintainer>, rule: Rule)
    requires MatchMaintainers(ms, rule).1.Some?
    ensures exists k ::
      && 0 <= k < |ms|
      && EvaluateOn(rule, ms[k].name) == MatchMaintainers(ms, rule)
      && (forall j :: 0 <= j < k ==> EvaluateOn(rule, ms[j].name) == (false, None))
  {
    var first := EvaluateOn(rule, ms[0].name);
    if first.1.None? && !first.0 {
      MatchMaintainersError(ms[1..], rule);
      var k' :| 0 <= k' < |ms| - 1
        && EvaluateOn(rule, ms[1..][k'].name) == MatchMaintainers(ms[1..], rule)
        && (forall j :: 0 <= j < k' ==> EvaluateOn(rule, ms[1..][j].name) == (false, None));
      assert ms[1..][k'] == ms[k' + 1];
      assert forall j :: 1 <= j <= k' ==> ms[j] == ms[1..][j - 1];
    }
  }

  /** When no maintainer's evaluation can err, the search is true exactly when some maintainer matches. */
  lemma {:induction false} MatchMaintainersAny(ms: seq<Maintainer>, rule: Rule)
    requires forall j :: 0 <= j < |ms| ==> EvaluateOn(rule, ms[j].name).1.None?
    ensures MatchMaintainers(ms, rule).1.None?
    ensures MatchMaintainers(ms, rule).0 <==> exists k :: 0 <= k < |ms| && EvaluateOn(rule, ms[k].name).0
  {
    if ms != [] {
      assert forall j :: 0 <= j < |ms| - 1 ==> ms[1..][j] == ms[j + 1];
      MatchMaintainersAny(ms[1..], rule);
      if !EvaluateOn(rule, ms[0].name).0 {
        if exists k :: 0 <= k < |ms| && EvaluateOn(rule, ms[k].name).0 {
          var k :| 0 <= k < |ms| && EvaluateOn(rule, ms[k].name).0;
          assert ms[1..][k - 1] == ms[k];
        }
      }
    }
  }

  // ---------------------------------------------------------------------------
  // MatchRuleSet

  /** The empty rule set matches every app. */
  lemma EmptyRuleSet(m: Meta)
    ensures MatchRuleSet(m, []) == (true, None)
  {
  }

  /**
   * Splitting a rule set: the second part is evaluated only when the first
   * matches without error, which is the short circuit.
   */
  lemma {:induction false} MatchRuleSetAppend(m: Meta, r1: seq<Rule>, r2: seq<Rule>)
    ensures MatchRuleSet(m, r1 + r2) ==
      if MatchRuleSet(m, r1) == (true, None) then MatchRuleSet(m, r2) else MatchRuleSet(m, r1)
  {
    if r1 != [] {
      assert (r1 + r2)[0] == r1[0];
      assert (r1 + r2)[1..] == r1[1..] + r2;
      MatchRuleSetAppend(m, r1[1..], r2);
    } else {
      assert r1 + r2 == r2;
    }
  }

  /** A rule set matches exactly when every rule matches without error. */
  lemma {:induction false} MatchRuleSetAll(m: Meta, rules: seq<Rule>)
    ensures MatchRuleSet(m, rules).0 <==> forall i :: 0 <= i < |rules| ==> MatchRule(m, rules[i]) == (true, None)
  {
    if rules != [] {
      MatchRuleSetAll(m, rules[1..]);
      assert forall i :: 1 <= i < |rules| ==> rules[i] == rules[1..][i - 1];
    }
  }

  /** A rule set that does not match reports the outcome of its first rule that fails or errs. */
  lemma {:induction false} MatchRuleSetFirstFailure(m: Meta, rules: seq<Rule>)
    requires !MatchRuleSet(m, rules).0
    ensures exists k ::
      && 0 <= k < |rules|
      && MatchRule(m, rules[k]) == MatchRuleSet(m, rules)
      && (forall j :: 0 <= j < k ==> MatchRule(m, rules[j]) == (true, None))
  {
    var first := MatchRule(m, rules[0]);
    if first == (true, None) {
      MatchRuleSetFirstFailure(m, rules[1..]);
      var k' :| 0 <= k' < |rules| - 1
        && MatchRule(m, rules[1..][k']) == MatchRuleSet(m, rules[1..])
        && (forall j :: 0 <= j < k' ==> MatchRule(m, rules[1..][j]) == (true, None));
      assert rules[1..][k'] == rules[k' + 1];
      assert forall j :: 1 <= j <= k' ==> rules[j] == rules[1..][j - 1];
    }
  }

  // ---------------------------------------------------------------------------
  // Searching by maintainer name

  /**
   * The schema of Meta with the search path maintainer.name added. MatchRule
   * answers rules on that path, but the struct has no field of that name, so
   * a rule for it can only be built against this schema.
   */
  const SearchSchema: Schema := MetaSchema + [Field("maintainer.name", StringKind)]

  /** The query key for a substring search on maintainer names parses as intended. */
  lemma MaintainerKey()
    ensures GetNameAndOp("maintainer.name[like]") == ("maintainer.name", Like, None)
  {
    var name := "maintainer.name";
    assert IsPlainName(name) by {
      assert forall i :: 0 <= i < |name| ==> IsNameChar(name[i]);
    }
    assert IsAliasText("like");
    assert "maintainer.name[like]" == name + "[" + "like" + "]";
    GetNameAndOpBracketed(name, "like");
    Operators.ParseAlias(Like);
  }

  /** Names of other lengths never fold to the one looked up. */
  lemma FieldByNameByLength(names: seq<string>, name: string, k: nat)
    requires k <= |names|
    requires k < |names| ==> EqualFold(names[k], name)
    requires forall i :: 0 <= i < |names| && i != k ==> |names[i]| != |name|
    ensures FieldByName(names, name) == if k < |names| then Some(k) else None
  {
    assert forall i :: 0 <= i < |names| && i != k ==> |ToLower(names[i])| != |ToLower(name)|;
  }

  /** Meta has no field whose name folds to maintainer.name: none has its length. */
  lemma MetaSchemaLacksMaintainerName()
    ensures FieldByName(Names(MetaSchema), "maintainer.name") == None
  {
    assert forall i :: 0 <= i < |MetaSchema| ==> |MetaSchema[i].name| < 12;
    FieldByNameByLength(Names(MetaSchema), "maintainer.name", |MetaSchema|);
  }

  /** In SearchSchema the added path is the one field whose name folds to maintainer.name. */
  lemma SearchSchemaHasMaintainerName()
    ensures FieldByName(Names(SearchSchema), "maintainer.name") == Some(8)
  {
    var name := "maintainer.name";
    assert |SearchSchema| == 9;
    assert SearchSchema[8].name == name;
    assert forall i :: 0 <= i < 8 ==> |SearchSchema[i].name| < 12;
    FieldByNameByLength(Names(SearchSchema), name, 8);
  }

  /** Against Meta's own fields, the maintainer-name search cannot be built, whatever the value. */
  lemma MaintainerQueryRejected(v: string)
    ensures NewRule("maintainer.name[like]", v, MetaSchema) == Err(FieldNotFound("maintainer.name"))
  {
    MaintainerKey();
    MetaSchemaLacksMaintainerName();
    NewRuleMissesField("maintainer.name[like]", v, MetaSchema, "maintainer.name", Like);
  }

  /** Against SearchSchema the same key builds a string rule, whatever the value. */
  lemma MaintainerQueryAccepted(v: string)
    ensures NewRule("maintainer.name[like]", v, SearchSchema) == Ok(Rule("maintainer.name", Like, Str(v)))
  {
    MaintainerKey();
    SearchSchemaHasMaintainerName();
    assert SearchSchema[8].kind == StringKind;
    NewRuleBuilds("maintainer.name[like]", v, SearchSchema, "maintainer.name", Like, 8, Str(v));
  }

  /** A substring rule on maintainer.name matches exactly the apps with a maintainer whose name contains its value. */
  lemma MaintainerQueryMatches(m: Meta, rule: Rule)
    requires rule.fieldName == "maintainer.name" && rule.op == Like && rule.value.Str?
    ensures MatchRule(m, rule) ==
      (exists k :: 0 <= k < |m.maintainers| && Contains(m.maintainers[k].name, rule.value.s), None)
  {
    var ms := m.maintainers;
    MaintainerCase(m, rule);
    forall j | 0 <= j < |ms|
      ensures EvaluateOn(rule, ms[j].name) == (Contains(ms[j].name, rule.value.s), None)
    {
      EvaluateLike(rule, ms[j].name);
    }
    MatchMaintainersAny(ms, rule);
  }

  lemma MaintainerCase(m: Meta, rule: Rule)
    requires rule.fieldName == "maintainer.name"
    ensures MatchRule(m, rule) == MatchMaintainers(m.maintainers, rule)
  {
    LowerMaintainerName();
    MaintainerNameNamed();
  }

  lemma MaintainerNameNamed()
    ensures FieldNamed("maintainer.name") == Some(MaintainerNameField)
  {
  }

  lemma EvaluateLike(rule: Rule, s: string)
    requires rule.op == Like && rule.value.Str?
    ensures EvaluateOn(rule, s) == (Contains(s, rule.value.s), None)
  {
  }

  lemma LowerMaintainerName()
    ensures ToLower("maintainer.name") == "maintainer.name"
  {
    var s := "maintainer.name";
    assert forall i :: 0 <= i < |s| ==> !IsUpper(s[i]);
    LowerUnchanged(s);
  }

  lemma LowerUnchanged(s: string)
    requires forall i :: 0 <= i < |s| ==> !IsUpper(s[i])
    ensures ToLower(s) == s
  {
  }
}
