/**
 * The filter of the earlier top-level snapshot (filter/filter.go): a list of
 * rules built from query parameters and matched as a conjunction. The rule
 * type and its construction and matching are not part of this model; they
 * come in as a type parameter and two functions.
 */
module LegacyFilters {
  import opened Common
  import opened Collecting

  /** The query parameters in the order the map is iterated. */
  type Params = seq<(string, seq<string>)>

  datatype CreateError<E> =
    | DuplicateKey(key: string, values: seq<string>)
    | RuleFailed(cause: E)
    /** A runtime panic of the source: `value[0]` on a key with no values. */
    | NoValue(key: string)

  class Filter<R> {
    var rules: seq<R>

    constructor ()
      ensures rules == []
    {
      rules := [];
    }

    /** addRule (filter/filter.go:33-35). */
    method AddRule(rule: R)
      modifies this
      ensures rules == old(rules) + [rule]
    {
      rules := rules + [rule];
    }

    /** Filter.Match (filter/filter.go:39-52). */
    function Match<O, E>(obj: O, matchRule: (R, O) -> (bool, Option<E>)): (r: (bool, Option<E>))
      reads this
      ensures r.1.Some? ==> !r.0
    {
      MatchAll(rules, obj, matchRule)
    }
  }

  /** What one iteration of Create's loop makes of one key and its values. */
  function Entry<R, E>(key: string, values: seq<string>, newRule: (string, string) -> Result<R, E>): Result<R, CreateError<E>>
  {
    if |values| > 1 then Err(DuplicateKey(key, values))
    else if |values| == 0 then Err(NoValue(key))
    else
      var rule := newRule(key, values[0]);
      if rule.Err? then Err(RuleFailed(rule.error)) else Ok(rule.value)
  }

  function Steps<R, E>(params: Params, newRule: (string, string) -> Result<R, E>): (r: seq<Result<R, CreateError<E>>>)
    ensures |r| == |params|
    ensures forall i :: 0 <= i < |params| ==> r[i] == Entry(params[i].0, params[i].1, newRule)
  {
    seq(|params|, i requires 0 <= i < |params| => Entry(params[i].0, params[i].1, newRule))
  }

  /** Create (filter/filter.go:16-30), with the rule constructor passed in. */
  method Create<R, E>(params: Params, newRule: (string, string) -> Result<R, E>)
    returns (flt: Filter?<R>, err: Option<CreateError<E>>)
    ensures Collect(Steps(params, newRule)).Ok? ==>
      err.None? && flt != null && fresh(flt) && flt.rules == Collect(Steps(params, newRule)).value
    ensures Collect(Steps(params, newRule)).Err? ==>
      flt == null && err == Some(Collect(Steps(params, newRule)).error)
  {
    ghost var steps := Steps(params, newRule);
    var f := new Filter();
    for i := 0 to |params|
      invariant Collect(steps[..i]) == Ok(f.rules)
    {
      var (key, values) := params[i];
      CollectStep(steps, i);
      if steps[i].Err? {
        CollectPrefixError(steps, i + 1);
      }
      if |values| > 1 {
        return null, Some(DuplicateKey(key, values));
      }
      if |values| == 0 {
        return null, Some(NoValue(key));
      }
      var rule := newRule(key, values[0]);
      if rule.Err? {
        return null, Some(RuleFailed(rule.error));
      }
      f.AddRule(rule.value);
    }
    assert steps[..|params|] == steps;
    return f, None;
  }

  /** The conjunction Match computes: the first rule that fails or errs decides. */
  function MatchAll<R, O, E>(rules: seq<R>, obj: O, matchRule: (R, O) -> (bool, Option<E>)): (r: (bool, Option<E>))
    ensures r.1.Some? ==> !r.0
  {
    if rules == [] then (true, None)
    else
      var first := matchRule(rules[0], obj);
      if first.1.Some? then (false, first.1)
      else if !first.0 then (false, None)
      else MatchAll(rules[1..], obj, matchRule)
  }

  // ---------------------------------------------------------------------------
  // Properties of Create

  /**
   * Create succeeds exactly when every key has one value that makes a rule;
   * the filter then holds one rule per key, in order.
   */
  lemma CreateOk<R, E>(params: Params, newRule: (string, string) -> Result<R, E>)
    ensures Collect(Steps(params, newRule)).Ok? <==>
      forall i :: 0 <= i < |params| ==> |params[i].1| == 1 && newRule(params[i].0, params[i].1[0]).Ok?
    ensures Collect(Steps(params, newRule)).Ok? ==>
      var rules := Collect(Steps(params, newRule)).value;
      |rules| == |params|
      && forall i :: 0 <= i < |params| ==> newRule(params[i].0, params[i].1[0]) == Ok(rules[i])
  {
    CollectOk(Steps(params, newRule));
  }

  /** A key given more than once fails Create, unless an earlier key already failed. */
  lemma CreateDuplicate<R, E>(params: Params, newRule: (string, string) -> Result<R, E>, k: nat)
    requires k < |params| && |params[k].1| > 1
    requires forall j :: 0 <= j < k ==> Entry(params[j].0, params[j].1, newRule).Ok?
    ensures Collect(Steps(params, newRule)) == Err(DuplicateKey(params[k].0, params[k].1))
  {
    CollectFailsAt(Steps(params, newRule), k);
  }

  /** A failed Create reports the first rule error, from the first key whose rule fails. */
  lemma CreateFirstError<R, E>(params: Params, newRule: (string, string) -> Result<R, E>)
    requires Collect(Steps(params, newRule)).Err?
    ensures exists k ::
      && 0 <= k < |params|
      && Entry(params[k].0, params[k].1, newRule) == Err(Collect(Steps(params, newRule)).error)
      && (forall j :: 0 <= j < k ==> Entry(params[j].0, params[j].1, newRule).Ok?)
  {
    CollectFirstError(Steps(params, newRule));
  }

  // ---------------------------------------------------------------------------
  // Properties of Match

  /** The empty filter matches everything. */
  lemma MatchAllEmpty<R, O, E>(obj: O, matchRule: (R, O) -> (bool, Option<E>))
    ensures MatchAll([], obj, matchRule) == (true, None)
  {
  }

  /** Splitting the rules: the second part is looked at only when the first matches without error. */
  lemma {:induction false} MatchAllAppend<R, O, E>(r1: seq<R>, r2: seq<R>, obj: O, matchRule: (R, O) -> (bool, Option<E>))
    ensures MatchAll(r1 + r2, obj, matchRule) ==
      if MatchAll(r1, obj, matchRule) == (true, None) then MatchAll(r2, obj, matchRule) else MatchAll(r1, obj, matchRule)
  {
    if r1 != [] {
      assert (r1 + r2)[0] == r1[0];
      assert (r1 + r2)[1..] == r1[1..] + r2;
      MatchAllAppend(r1[1..], r2, obj, matchRule);
    } else {
      assert r1 + r2 == r2;
    }
  }

  /** The filter matches exactly when every rule matches without error. */
  lemma {:induction false} MatchAllTrue<R, O, E>(rules: seq<R>, obj: O, matchRule: (R, O) -> (bool, Option<E>))
    ensures MatchAll(rules, obj, matchRule).0 <==>
      forall i :: 0 <= i < |rules| ==> matchRule(rules[i], obj) == (true, None)
  {
    if rules != [] {
      MatchAllTrue(rules[1..], obj, matchRule);
      assert forall i :: 1 <= i < |rules| ==> rules[i] == rules[1..][i - 1];
    }
  }

  /** A filter that does not match reports the first rule that fails, or its error. */
  lemma {:induction false} MatchAllFirstFailure<R, O, E>(rules: seq<R>, obj: O, matchRule: (R, O) -> (bool, Option<E>))
    requires !MatchAll(rules, obj, matchRule).0
    ensures exists k ::
      && 0 <= k < |rules|
      && matchRule(rules[k], obj) != (true, None)
      && MatchAll(rules, obj, matchRule) == (false, matchRule(rules[k], obj).1)
      && (forall j :: 0 <= j < k ==> matchRule(rules[j], obj) == (true, None))
  {
    var first := matchRule(rules[0], obj);
    if first == (true, None) {
      MatchAllFirstFailure(rules[1..], obj, matchRule);
      var k' :| 0 <= k' < |rules| - 1
        && matchRule(rules[1..][k'], obj) != (true, None)
        && MatchAll(rules[1..], obj, matchRule) == (false, matchRule(rules[1..][k'], obj).1)
        && (forall j :: 0 <= j < k' ==> matchRule(rules[1..][j], obj) == (true, None));
      assert rules[1..][k'] == rules[k' + 1];
      assert forall j :: 1 <= j <= k' ==> rules[j] == rules[1..][j - 1];
    }
  }
}
