/**
 * Running a sequence of steps that each yield a value or an error, stopping at
 * the first error: the shape of every build loop that returns early on failure.
 */
module Collecting {
  import opened Common

  /** The values of all steps, in order, or the error of the first step that fails. */
  function Collect<T, E>(steps: seq<Result<T, E>>): Result<seq<T>, E>
  {
    if steps == [] then Ok([])
    else
      var n := |steps| - 1;
      var prefix := Collect(steps[..n]);
      if prefix.Err? then prefix
      else if steps[n].Err? then Err(steps[n].error)
      else Ok(prefix.value + [steps[n].value])
  }

  /** One more step extends the outcome of a prefix by that step. */
  lemma CollectStep<T, E>(steps: seq<Result<T, E>>, i: nat)
    requires i < |steps|
    ensures var prefix := Collect(steps[..i]);
      Collect(steps[..i + 1]) ==
        if prefix.Err? then prefix
        else if steps[i].Err? then Err(steps[i].error)
        else Ok(prefix.value + [steps[i].value])
  {
    assert steps[..i + 1][..i] == steps[..i];
  }

  /** Once a prefix fails, the whole outcome is that failure. */
  lemma {:induction false} CollectPrefixError<T, E>(steps: seq<Result<T, E>>, i: nat)
    requires i <= |steps| && Collect(steps[..i]).Err?
    ensures Collect(steps) == Collect(steps[..i])
    decreases |steps| - i
  {
    if i == |steps| {
      assert steps[..i] == steps;
    } else {
      CollectStep(steps, i);
      CollectPrefixError(steps, i + 1);
    }
  }

  /** The outcome succeeds exactly when every step does, and then holds every step's value in order. */
  lemma {:induction false} CollectOk<T, E>(steps: seq<Result<T, E>>)
    ensures Collect(steps).Ok? <==> forall i :: 0 <= i < |steps| ==> steps[i].Ok?
    ensures Collect(steps).Ok? ==>
      |Collect(steps).value| == |steps|
      && forall i :: 0 <= i < |steps| ==> steps[i] == Ok(Collect(steps).value[i])
    decreases |steps|
  {
    if steps != [] {
      var init := steps[..|steps| - 1];
      CollectOk(init);
      assert forall i :: 0 <= i < |init| ==> init[i] == steps[i];
    }
  }

  /** A failed outcome is the error of the first failing step. */
  lemma {:induction false} CollectFirstError<T, E>(steps: seq<Result<T, E>>)
    requires Collect(steps).Err?
    ensures exists k ::
      && 0 <= k < |steps|
      && steps[k] == Err(Collect(steps).error)
      && (forall j :: 0 <= j < k ==> steps[j].Ok?)
    decreases |steps|
  {
    var init := steps[..|steps| - 1];
    assert forall i :: 0 <= i < |init| ==> init[i] == steps[i];
    if Collect(init).Err? {
      CollectFirstError(init);
    } else {
      CollectOk(init);
    }
  }

  /** A step that fails after steps that all succeed decides the outcome. */
  lemma CollectFailsAt<T, E>(steps: seq<Result<T, E>>, k: nat)
    requires k < |steps| && steps[k].Err?
    requires forall j :: 0 <= j < k ==> steps[j].Ok?
    ensures Collect(steps) == Err(steps[k].error)
  {
    var init := steps[..k];
    assert forall j :: 0 <= j < |init| ==> init[j] == steps[j];
    CollectOk(init);
    CollectStep(steps, k);
    CollectPrefixError(steps, k + 1);
  }
}
