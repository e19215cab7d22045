/**
 * The store of the earlier top-level snapshot (app/store.go): no uniqueness
 * check, and a listing filtered by a Filter. Its app metadata has the same
 * fields as Apps.Meta.
 */
module LegacyAppStore {
  import opened Common
  import opened Apps
  import AppStore
  import opened LegacyFilters

  datatype SearchError<E> = SearchFailed(cause: E)

  /** How an app fares against a filter's rules. */
  function FilterOutcome<R, E>(rules: seq<R>, matchRule: (R, Meta) -> (bool, Option<E>)): Meta -> (bool, Option<E>)
  {
    (a: Meta) => MatchAll(rules, a, matchRule)
  }

  class Store {
    var apps: seq<Meta>

    constructor ()
      ensures apps == []
    {
      apps := [];
    }

    /** Store.Add (app/store.go:14-16): always appends. */
    method Add(app: Meta)
      modifies this
      ensures apps == old(apps) + [app]
    {
      apps := apps + [app];
    }

    /** Store.List (app/store.go:18-32): the first match error comes back wrapped. */
    method List<R, E>(flt: Filter<R>, matchRule: (R, Meta) -> (bool, Option<E>))
      returns (result: seq<Meta>, err: Option<SearchError<E>>)
      ensures result == AppStore.Listing(apps, FilterOutcome(flt.rules, matchRule)).0
      ensures err.Some? <==> AppStore.Listing(apps, FilterOutcome(flt.rules, matchRule)).1.Some?
      ensures err.Some? ==> err.value == SearchFailed(AppStore.Listing(apps, FilterOutcome(flt.rules, matchRule)).1.value)
    {
      var outcome := FilterOutcome(flt.rules, matchRule);
      result := [];
      for i := 0 to |apps|
        invariant AppStore.Listing(apps[..i], outcome) == (result, None)
      {
        assert apps[..i + 1][..i] == apps[..i];
        var app := apps[i];
        var (matched, e) := flt.Match(app, matchRule);
        if e.Some? {
          AppStore.ListingPrefixError(apps, i + 1, outcome);
          return result, Some(SearchFailed(e.value));
        }
        if matched {
          result := result + [app];
        }
      }
      assert apps[..|apps|] == apps;
      return result, None;
    }
  }

  /** An empty filter lists every stored app. */
  lemma ListingEmptyFilter<R, E>(apps: seq<Meta>, matchRule: (R, Meta) -> (bool, Option<E>))
    ensures AppStore.Listing(apps, FilterOutcome([], matchRule)) == (apps, None)
  {
    AppStore.ListingMatches(apps, FilterOutcome([], matchRule));
    AppStore.SelectAll(apps, AppStore.Matched(FilterOutcome([], matchRule)));
  }
}
