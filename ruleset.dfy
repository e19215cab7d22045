/**
 * RuleSet (src/filter/ruleset.go): the rules built from a query's key/values
 * multimap, kept in the order they were added.
 */
module RuleSets {
  import opened Common
  import opened Rules
  import opened Collecting

  /**
   * The query parameters in the order the map is iterated. Go leaves that order
   * unspecified; every claim below holds for whichever order the sequence lists.
   */
  type Params = seq<(string, seq<string>)>

  datatype BuildError =
    | DuplicateKey(key: string, values: seq<string>)
    | RuleFailed(cause: RuleError)
    /** A runtime panic of the source: `value[0]` on a key with no values. */
    | NoValue(key: string)

  /** A rule set the caller extends in place. */
  class RuleSet {
    var rules: seq<Rule>

    constructor ()
      ensures rules == []
    {
      rules := [];
    }

    /** AddRule (src/filter/ruleset.go:34-36). */
    method AddRule(rule: Rule)
      modifies this
      ensures rules == old(rules) + [rule]
    {
      rules := rules + [rule];
    }
  }

  /** What one iteration of CreateRuleSet's loop makes of one key and its values. */
  function Entry(key: string, values: seq<string>, schema: Schema): Result<Rule, BuildError>
  {
    if |values| > 1 then Err(DuplicateKey(key, values))
    else if |values| == 0 then Err(NoValue(key))
    else
      var rule := NewRule(key, values[0], schema);
      if rule.Err? then Err(RuleFailed(rule.error)) else Ok(rule.value)
  }

  /** What each entry makes, in order. */
  function Steps(params: Params, schema: Schema): (r: seq<Result<Rule, BuildError>>)
    ensures |r| == |params|
    ensures forall i :: 0 <= i < |params| ==> r[i] == Entry(params[i].0, params[i].1, schema)
  {
    seq(|params|, i requires 0 <= i < |params| => Entry(params[i].0, params[i].1, schema))
  }

  /** The outcome of CreateRuleSet. */
  function BuildRules(params: Params, schema: Schema): Result<seq<Rule>, BuildError>
  {
    Collect(Steps(params, schema))
  }

  /** CreateRuleSet (src/filter/ruleset.go:17-31), with the schema NewRule needs passed in. */
  method CreateRuleSet(params: Params, schema: Schema) returns (rs: RuleSet?, err: Option<BuildError>)
    ensures BuildRules(params, schema).Ok? ==>
      err.None? && rs != null && fresh(rs) && rs.rules == BuildRules(params, schema).value
    ensures BuildRules(params, schema).Err? ==>
      rs == null && err == Some(BuildRules(params, schema).error)
  {
    ghost var steps := Steps(params, schema);
    var flt := new RuleSet();
    for i := 0 to |params|
      invariant Collect(steps[..i]) == Ok(flt.rules)
    {
      var (key, values) := params[i];
      CollectStep(steps, i);
      if steps[i].Err? {
        CollectPrefixError(steps, i + 1);
      }
      if |values| > 1 {
        return null, Some(DuplicateKey(key, values));
      }
      if |values| == 0 {
        return null, Some(NoValue(key));
      }
      var rule := NewRule(key, values[0], schema);
      if rule.Err? {
        return null, Some(RuleFailed(rule.error));
      }
      flt.AddRule(rule.value);
    }
    assert steps[..|params|] == steps;
    return flt, None;
  }

  // ---------------------------------------------------------------------------
  // Properties of the build

  /**
   * A build succeeds exactly when every key has one value that makes a rule;
   * it then holds one rule per key, in order: the rule that key's value makes.
   */
  lemma BuildRulesOk(params: Params, schema: Schema)
    ensures BuildRules(params, schema).Ok? <==>
      forall i :: 0 <= i < |params| ==>
        |params[i].1| == 1 && NewRule(params[i].0, params[i].1[0], schema).Ok?
    ensures BuildRules(params, schema).Ok? ==>
      var rules := BuildRules(params, schema).value;
      |rules| == |params|
      && forall i :: 0 <= i < |params| ==> NewRule(params[i].0, params[i].1[0], schema) == Ok(rules[i])
  {
    CollectOk(Steps(params, schema));
  }

  /** A failed build returns the error of the first entry that fails. */
  lemma BuildRulesFirstError(params: Params, schema: Schema)
    requires BuildRules(params, schema).Err?
    ensures exists k ::
      && 0 <= k < |params|
      && Entry(params[k].0, params[k].1, schema) == Err(BuildRules(params, schema).error)
      && (forall j :: 0 <= j < k ==> Entry(params[j].0, params[j].1, schema).Ok?)
  {
    CollectFirstError(Steps(params, schema));
  }

  /** Every rule of a successful build satisfies the rule invariant. */
  lemma BuildRulesValid(params: Params, schema: Schema)
    requires BuildRules(params, schema).Ok?
    ensures forall r :: r in BuildRules(params, schema).value ==> ValidRule(r, schema)
  {
    BuildRulesOk(params, schema);
  }

  /** A key given more than once fails the whole build, unless an earlier key already failed. */
  lemma BuildRulesDuplicate(params: Params, schema: Schema, k: nat)
    requires k < |params| && |params[k].1| > 1
    requires forall j :: 0 <= j < k ==> Entry(params[j].0, params[j].1, schema).Ok?
    ensures BuildRules(params, schema) == Err(DuplicateKey(params[k].0, params[k].1))
  {
    CollectFailsAt(Steps(params, schema), k);
  }
}
