/**
 * The app store (src/app/store.go): an append-only list of app metadata with
 * lookups by title and version and a listing filtered by a rule set.
 */
module AppStore {
  import opened Common
  import opened Rules
  import opened RuleSets
  import opened Apps
  import opened Ascii

  datatype StoreError =
    | AlreadyExists(title: string, version: string)
    | SearchFailed(cause: MatchError)

  /** Whether an app has the given title and version. */
  predicate HasIdentity(app: Meta, title: string, version: string)
  {
    app.title == title && app.version == version
  }

  /** Whether some stored app has the given title and version. */
  predicate Stored(apps: seq<Meta>, title: string, version: string)
  {
    exists i :: 0 <= i < |apps| && HasIdentity(apps[i], title, version)
  }

  /** No two stored apps share a title and a version. */
  predicate UniqueIdentities(apps: seq<Meta>)
  {
    forall i, j :: 0 <= i < j < |apps| ==> !HasIdentity(apps[j], apps[i].title, apps[i].version)
  }

  /** The elements of s that satisfy p, in order. */
  function Select(s: seq<Meta>, p: Meta -> bool): seq<Meta>
  {
    if s == [] then []
    else
      var n := |s| - 1;
      Select(s[..n], p) + if p(s[n]) then [s[n]] else []
  }

  /** How an app fares against a rule set. */
  function RuleSetOutcome(rules: seq<Rule>): Meta -> Outcome
  {
    (a: Meta) => MatchRuleSet(a, rules)
  }

  /** Whether an app's outcome is a match. */
  function Matched<E>(outcome: Meta -> (bool, Option<E>)): Meta -> bool
  {
    (a: Meta) => outcome(a).0
  }

  /** The apps an error-free listing returns. */
  function Matching<E>(apps: seq<Meta>, outcome: Meta -> (bool, Option<E>)): seq<Meta>
  {
    Select(apps, Matched(outcome))
  }

  /** What a listing loop returns: the matches so far, and the first match error. */
  function Listing<E>(apps: seq<Meta>, outcome: Meta -> (bool, Option<E>)): (seq<Meta>, Option<E>)
  {
    if apps == [] then ([], None)
    else
      var n := |apps| - 1;
      var prefix := Listing(apps[..n], outcome);
      if prefix.1.Some? then prefix
      else
        var here := outcome(apps[n]);
        if here.1.Some? then (prefix.0, here.1)
        else if here.0 then (prefix.0 + [apps[n]], None)
        else prefix
  }

  class Store {
    var apps: seq<Meta>

    /** The invariant Add keeps. */
    ghost predicate Valid()
      reads this
    {
      UniqueIdentities(apps)
    }

    constructor ()
      ensures apps == [] && Valid()
    {
      apps := [];
    }

    /** Store.Add (src/app/store.go:22-32), as one atomic step. */
    method Add(app: Meta) returns (err: Option<StoreError>)
      modifies this
      ensures old(Stored(apps, app.title, app.version)) ==>
        err == Some(AlreadyExists(app.title, app.version)) && apps == old(apps)
      ensures !old(Stored(apps, app.title, app.version)) ==> err.None? && apps == old(apps) + [app]
      ensures old(Valid()) ==> Valid()
    {
      var existing := GetByTitleAndVersion(app.title, app.version);
      if existing.Some? {
        return Some(AlreadyExists(app.title, app.version));
      }
      if Valid() {
        AddKeepsUnique(apps, app);
      }
      apps := apps + [app];
      return None;
    }

    /** Store.GetByTitle (src/app/store.go:37-41): the most recently added app with that title. */
    method GetByTitle(title: string) returns (r: Option<Meta>)
      ensures r.None? <==> forall i :: 0 <= i < |apps| ==> apps[i].title != title
      ensures r.Some? ==> exists i ::
        && 0 <= i < |apps|
        && apps[i] == r.value
        && r.value.title == title
        && (forall j :: i < j < |apps| ==> apps[j].title != title)
    {
      r := LastOrNil((a: Meta) => a.title == title);
    }

    /** Store.GetByTitleAndVersion (src/app/store.go:45-51). */
    method GetByTitleAndVersion(title: string, version: string) returns (r: Option<Meta>)
      ensures r.None? <==> !Stored(apps, title, version)
      ensures r.Some? ==> r.value in apps && HasIdentity(r.value, title, version)
      ensures Valid() && r.Some? ==> forall a :: a in apps && HasIdentity(a, title, version) ==> a == r.value
    {
      r := LastOrNil((a: Meta) => HasIdentity(a, title, version));
    }

    /** Store.List (src/app/store.go:57-71): the first match error comes back wrapped. */
    method List(ruleSet: RuleSet) returns (result: seq<Meta>, err: Option<StoreError>)
      ensures result == Listing(apps, RuleSetOutcome(ruleSet.rules)).0
      ensures err.Some? <==> Listing(apps, RuleSetOutcome(ruleSet.rules)).1.Some?
      ensures err.Some? ==> err.value == SearchFailed(Listing(apps, RuleSetOutcome(ruleSet.rules)).1.value)
    {
      var outcome := RuleSetOutcome(ruleSet.rules);
      result := [];
      for i := 0 to |apps|
        invariant Listing(apps[..i], outcome) == (result, None)
      {
        assert apps[..i + 1][..i] == apps[..i];
        var app := apps[i];
        var (matched, e) := MatchRuleSet(app, ruleSet.rules);
        if e.Some? {
          ListingPrefixError(apps, i + 1, outcome);
          return result, Some(SearchFailed(e.value));
        }
        if matched {
          result := result + [app];
        }
      }
      assert apps[..|apps|] == apps;
      return result, None;
    }

    /** Store.filter (src/app/store.go:75-84). */
    method Filter(matches: Meta -> bool) returns (result: seq<Meta>)
      ensures result == Select(apps, matches)
    {
      result := [];
      for i := 0 to |apps|
        invariant result == Select(apps[..i], matches)
      {
        assert apps[..i + 1][..i] == apps[..i];
        if matches(apps[i]) {
          result := result + [apps[i]];
        }
      }
      assert apps[..|apps|] == apps;
    }

    /** Store.firstOrNil (src/app/store.go:88-96): the earliest match. */
    method FirstOrNil(matches: Meta -> bool) returns (r: Option<Meta>)
      ensures r.None? <==> forall i :: 0 <= i < |apps| ==> !matches(apps[i])
      ensures r.Some? ==> exists i ::
        && 0 <= i < |apps|
        && apps[i] == r.value
        && matches(r.value)
        && (forall j :: 0 <= j < i ==> !matches(apps[j]))
    {
      for i := 0 to |apps|
        invariant forall j :: 0 <= j < i ==> !matches(apps[j])
      {
        if matches(apps[i]) {
          return Some(apps[i]);
        }
      }
      return None;
    }

    /** Store.lastOrNil (src/app/store.go:100-109): the latest match, found walking backwards. */
    method LastOrNil(matches: Meta -> bool) returns (r: Option<Meta>)
      ensures r.None? <==> forall i :: 0 <= i < |apps| ==> !matches(apps[i])
      ensures r.Some? ==> exists i ::
        && 0 <= i < |apps|
        && apps[i] == r.value
        && matches(r.value)
        && (forall j :: i < j < |apps| ==> !matches(apps[j]))
    {
      var i := |apps| - 1;
      while i >= 0
        invariant -1 <= i < |apps|
        invariant forall j :: i < j < |apps| ==> !matches(apps[j])
      {
        if matches(apps[i]) {
          return Some(apps[i]);
        }
        i := i - 1;
      }
      return None;
    }
  }

  // ---------------------------------------------------------------------------
  // Uniqueness

  /** Appending an app whose title and version are new keeps identities unique. */
  lemma AddKeepsUnique(apps: seq<Meta>, app: Meta)
    requires UniqueIdentities(apps) && !Stored(apps, app.title, app.version)
    ensures UniqueIdentities(apps + [app])
  {
    var s := apps + [app];
    forall i, j | 0 <= i < j < |s|
      ensures !HasIdentity(s[j], s[i].title, s[i].version)
    {
      if j == |apps| {
        assert s[i] == apps[i];
        assert !HasIdentity(apps[i], app.title, app.version);
      }
    }
  }

  // ---------------------------------------------------------------------------
  // Select

  /** Select keeps exactly the elements that satisfy p. */
  lemma {:induction false} SelectMembers(s: seq<Meta>, p: Meta -> bool, x: Meta)
    ensures x in Select(s, p) <==> x in s && p(x)
  {
    if s != [] {
      var n := |s| - 1;
      SelectMembers(s[..n], p, x);
      assert s == s[..n] + [s[n]];
    }
  }

  /** Select preserves order: it distributes over concatenation. */
  lemma {:induction false} SelectAppend(a: seq<Meta>, b: seq<Meta>, p: Meta -> bool)
    ensures Select(a + b, p) == Select(a, p) + Select(b, p)
    decreases |b|
  {
    if b == [] {
      assert a + b == a;
    } else {
      var n := |b| - 1;
      assert (a + b)[..|a + b| - 1] == a + b[..n];
      SelectAppend(a, b[..n], p);
    }
  }

  /** Select keeps everything when everything satisfies p. */
  lemma {:induction false} SelectAll(s: seq<Meta>, p: Meta -> bool)
    requires forall i :: 0 <= i < |s| ==> p(s[i])
    ensures Select(s, p) == s
  {
    if s != [] {
      var n := |s| - 1;
      SelectAll(s[..n], p);
      assert s == s[..n] + [s[n]];
    }
  }

  // ---------------------------------------------------------------------------
  // Listing

  /** One more app extends the listing of a prefix. */
  lemma ListingStep<E>(apps: seq<Meta>, i: nat, outcome: Meta -> (bool, Option<E>))
    requires i < |apps|
    ensures var prefix := Listing(apps[..i], outcome);
      var here := outcome(apps[i]);
      Listing(apps[..i + 1], outcome) ==
        if prefix.1.Some? then prefix
        else if here.1.Some? then (prefix.0, here.1)
        else if here.0 then (prefix.0 + [apps[i]], None)
        else prefix
  {
    assert apps[..i + 1][..i] == apps[..i];
  }

  /** Once a prefix fails, the whole listing is that failure. */
  lemma {:induction false} ListingPrefixError<E>(apps: seq<Meta>, i: nat, outcome: Meta -> (bool, Option<E>))
    requires i <= |apps| && Listing(apps[..i], outcome).1.Some?
    ensures Listing(apps, outcome) == Listing(apps[..i], outcome)
    decreases |apps| - i
  {
    if i == |apps| {
      assert apps[..i] == apps;
    } else {
      ListingStep(apps, i, outcome);
      ListingPrefixError(apps, i + 1, outcome);
    }
  }

  /** A listing without error is exactly the matching apps, in insertion order. */
  lemma {:induction false} ListingMatches<E>(apps: seq<Meta>, outcome: Meta -> (bool, Option<E>))
    ensures Listing(apps, outcome).1.None? <==> forall i :: 0 <= i < |apps| ==> outcome(apps[i]).1.None?
    ensures Listing(apps, outcome).1.None? ==> Listing(apps, outcome).0 == Matching(apps, outcome)
  {
    if apps != [] {
      var n := |apps| - 1;
      ListingMatches(apps[..n], outcome);
      assert forall i :: 0 <= i < n ==> apps[..n][i] == apps[i];
    }
  }

  /** A failed listing returns the matches before the first app whose match errs, and that error. */
  lemma {:induction false} ListingFirstError<E>(apps: seq<Meta>, outcome: Meta -> (bool, Option<E>))
    requires Listing(apps, outcome).1.Some?
    ensures exists k ::
      && 0 <= k < |apps|
      && outcome(apps[k]).1.Some?
      && (forall j :: 0 <= j < k ==> outcome(apps[j]).1.None?)
      && Listing(apps, outcome) == (Matching(apps[..k], outcome), outcome(apps[k]).1)
  {
    var n := |apps| - 1;
    var init := apps[..n];
    assert forall i :: 0 <= i < n ==> init[i] == apps[i];
    if Listing(init, outcome).1.Some? {
      ListingFirstError(init, outcome);
      var k :| 0 <= k < n
        && outcome(init[k]).1.Some?
        && (forall j :: 0 <= j < k ==> outcome(init[j]).1.None?)
        && Listing(init, outcome) == (Matching(init[..k], outcome), outcome(init[k]).1);
      assert init[..k] == apps[..k];
    } else {
      ListingMatches(init, outcome);
    }
  }

  /** An empty rule set lists every stored app. */
  lemma ListingEmptyRuleSet(apps: seq<Meta>)
    ensures Listing(apps, RuleSetOutcome([])) == (apps, None)
  {
    ListingMatches(apps, RuleSetOutcome([]));
    SelectAll(apps, Matched(RuleSetOutcome([])));
  }

  /** A listing where no app matches and none errs is empty and error-free. */
  lemma {:induction false} ListingNoneMatch<E>(apps: seq<Meta>, outcome: Meta -> (bool, Option<E>))
    requires forall j :: 0 <= j < |apps| ==> outcome(apps[j]) == (false, None)
    ensures Listing(apps, outcome) == ([], None)
  {
    if apps != [] {
      var n := |apps| - 1;
      assert forall j :: 0 <= j < n ==> apps[..n][j] == apps[j];
      ListingNoneMatch(apps[..n], outcome);
    }
  }

  /** A rule on a field MatchRule does not know decides every app that gets past the rules before it. */
  lemma UnsupportedRuleDecides(a: Meta, rules: seq<Rule>, k: nat)
    requires k < |rules| && !Supported(ToLower(rules[k].fieldName))
    ensures MatchRuleSet(a, rules) ==
      if MatchRuleSet(a, rules[..k]) == (true, None) then (false, Some(UnsupportedRuleForField(rules[k].fieldName)))
      else MatchRuleSet(a, rules[..k])
  {
    assert rules == rules[..k] + rules[k..];
    MatchRuleSetAppend(a, rules[..k], rules[k..]);
    assert rules[k..][0] == rules[k];
    MatchRuleUnsupported(a, rules[k]);
  }

  /**
   * A rule set with a rule on a field MatchRule does not know fails the listing
   * at the first app that matches every rule before it cleanly; the apps before
   * that one fail those rules, so nothing is listed.
   */
  lemma ListingUnsupportedField(apps: seq<Meta>, rules: seq<Rule>, k: nat, i: nat)
    requires i < |apps| && k < |rules| && !Supported(ToLower(rules[k].fieldName))
    requires MatchRuleSet(apps[i], rules[..k]) == (true, None)
    requires forall j :: 0 <= j < i ==> MatchRuleSet(apps[j], rules[..k]) == (false, None)
    ensures Listing(apps, RuleSetOutcome(rules)) == ([], Some(UnsupportedRuleForField(rules[k].fieldName)))
  {
    var outcome := RuleSetOutcome(rules);
    forall j | 0 <= j <= i ensures outcome(apps[j]) ==
      if j == i then (false, Some(UnsupportedRuleForField(rules[k].fieldName))) else (false, None)
    {
      UnsupportedRuleDecides(apps[j], rules, k);
    }
    assert forall j :: 0 <= j < i ==> apps[..i][j] == apps[j];
    ListingNoneMatch(apps[..i], outcome);
    ListingStep(apps, i, outcome);
    ListingPrefixError(apps, i + 1, outcome);
  }

  // ---------------------------------------------------------------------------
  // A store session

  /**
   * Adding App1 0.0.1 twice fails the second time; then adding App1 0.0.2
   * succeeds, and listing with an empty rule set returns both, in the order added.
   */
  method Session() returns (second: Option<StoreError>, listed: seq<Meta>, err: Option<StoreError>)
    ensures second == Some(AlreadyExists("App1", "0.0.1"))
    ensures listed == [App("App1", "0.0.1"), App("App1", "0.0.2")] && err.None?
  {
    var store := new Store();
    var first := store.Add(App("App1", "0.0.1"));
    assert HasIdentity(store.apps[0], "App1", "0.0.1");
    second := store.Add(App("App1", "0.0.1"));
    assert store.apps == [App("App1", "0.0.1")];
    assert !Stored(store.apps, "App1", "0.0.2") by {
      assert "0.0.1"[4] != "0.0.2"[4];
    }
    var third := store.Add(App("App1", "0.0.2"));
    assert store.apps == [App("App1", "0.0.1"), App("App1", "0.0.2")];
    var empty := new RuleSet();
    listed, err := store.List(empty);
    ListingEmptyRuleSet(store.apps);
  }

  /** An app with the given identity and no other data. */
  function App(title: string, version: string): Meta
  {
    Meta(title, version, [], "", "", "", "", "")
  }
}
