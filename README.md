# App store query filter — a Dafny model

This project models the query-filter engine of a small app-metadata store. It also proves properties of that model.

The store holds app metadata: title, version, maintainers, company, and so on. It lists the apps that satisfy a rule set, where a rule set is built from a query string such as `title[like]=App&version=1.0.0`.

- Each query key is parsed into a field name and an operator: `name`, or `name[alias]` with the aliases `like`, `lt`, `gt` and the empty alias.
- The field is looked up case-insensitively in the record's schema.
- The query value is coerced to the field's type: a string, a Go `int` or `uint`/`uint64` (64-bit platform), or a semantic version.
- The operator is checked against that type.
- At match time the operator compares a record's value with the rule's value:
  - equality;
  - substring containment;
  - integer or version ordering.
- A rule set matches when all of its rules match, in order. The first failure or error decides.

The model covers the current tree (`src/…`) and an earlier top-level snapshot with the same design (`filter/…`, `app/store.go`):

| file | module | what it holds |
|---|---|---|
| common.dfy | `Common` | `Option`, `Result`, 64-bit integer ranges |
| ascii.dfy | `Ascii` | character classes, ASCII lower-casing, `EqualFold`, `strings.Contains`, `strings.SplitN` |
| decimal.dfy | `Decimal` | `strconv.ParseUint`/`ParseInt` for base 10 and 64 bits, and decimal rendering |
| semver.dfy | `SemVer` | the version type: parse, render, compare, `UnmarshalText` |
| operator.dfy | `Operators` | the operator registry: parse, type validity, evaluation |
| rule.dfy | `Rules` | key parsing, schema lookup, value coercion, rule construction and evaluation |
| collect.dfy | `Collecting` | a step sequence that stops at its first error, shared by both rule-set builders |
| ruleset.dfy | `RuleSets` | the `RuleSet` class, `AddRule`, `CreateRuleSet` |
| meta.dfy | `Apps` | app metadata, `MatchRule`, `MatchRuleSet` |
| store.dfy | `AppStore` | the `Store` class with `Add`, the lookups, `List`, `filter`, and the first/last searches |
| legacy_operator.dfy | `LegacyOperators` | the snapshot's string-constant operator parse |
| legacy_filter.dfy | `LegacyFilters` | the snapshot's `Filter` class: `Create`, `addRule`, `Match` |
| legacy_store.dfy | `LegacyAppStore` | the snapshot's store: `Add` without a uniqueness check, and `List` |

## How Go behaviour is modelled

- **Go values.** A Go `interface{}` value becomes the datatype `Operators.Value`. Its cases are string, Go `int` on a 64-bit platform, Go `uint` or `uint64`, `SemVer.Version`, and an opaque value of any other type. "Same runtime type" is equality of `Operators.KindOf`.
- **Results with errors.** A Go `(bool, error)` result is a pair `(bool, Option<error kind>)`. A `(T, error)` result is a `Result`.
- **Error kinds.** Error messages are not modelled. Each error is a constructor that carries the data its message names.
- **Schemas.** A struct type is a `Rules.Schema`: a list of field names with their kinds. A struct value is a `Rules.Record`.
  - `reflect.FieldByNameFunc` on a flat struct finds a field only when exactly one field name folds to the one asked for.
  - `Rules.FieldByName` models exactly that rule.
- **Map iteration.** A Go map range in `CreateRuleSet` and `Create` becomes a sequence of (key, values) pairs. Every claim holds for whatever order that sequence lists. No order is singled out.
- **Panics.** Three runtime panics of the source become error outcomes, so the model can state when they happen:
  - a failed type assertion in `Evaluate` on a `uint` field with `lt`/`gt` gives `Operators.OpError.Panicked`;
  - `value[0]` on an empty value list gives `RuleSets.BuildError.NoValue` and `LegacyFilters.CreateError.NoValue`;
  - `keyAndValue[1]` in `ParseRule` without `=` gives `Rules.RuleError.MissingValue`.

  A further runtime panic: the source's `Rule.Match` on an invalid `reflect.Value` gives `FieldMissingOnRecord`.
- **Wrapped errors.** Where Go wraps an error in a new message, the model wraps it in a constructor. Where Go passes an error up unchanged across a type boundary, the model also wraps it; the wrappers are `RuleFailed` and `Rules.RuleError.OperatorError`, which carries `op.Parse`'s error. `SearchFailed` models the new message `List` builds around the error of `MatchRuleSet`.
- **The older snapshot's rules.** Its rule type, its two-argument `NewRule` and its `Rule.Match` are not part of this model. They enter as a type parameter and two function parameters.

Behaviour of the code worth noting:

- **Version errors.** `"1.2.3.4"` is not a section-count error. `SplitN` with limit 3 leaves `"3.4"` as the patch section, which fails on its `.` character (`SemVer.ParseRejectsFourParts`).
- **Ordering on numbers.** `lt`/`gt` compare `int` natively but panic on `uint`, which passes the validity check. The model returns `Panicked` there (`Operators.EvaluateSucceeds`).
- **Unknown field in a listing.** A rule on an unknown field, reaching `List`, is reported by `MatchRule` as an unsupported field. The listing fails at the first app whose earlier rules all match cleanly, with an empty partial result (`AppStore.ListingUnsupportedField`).
- **The `Unknown` operator.** It never reaches `Evaluate`'s "Unknown operator" branch, because the validity check rejects it first (`Operators.EvaluateUnknown`).

## Model

| member | source | states |
|---|---|---|
| Ascii.ContainsIsWindow | src/filter/op/operator.go:136-137 | `strings.Contains(s, sub)` holds exactly when some window of `s` equals `sub` |
| Decimal.ParseUintCorrect | src/filter/rule.go:157-161 | base-10 uint parse succeeds exactly on a non-empty all-digit text of value at most 2^64-1 and returns that value; an all-digit text it rejects is out of range |
| Decimal.ScanUintCorrect | src/filter/rule.go:157-161 | the left-to-right digit scan accepts exactly the all-digit texts that fit and yields their value; on digits its only failure is a range error |
| Decimal.FormatNatCanonical | src/semver/version.go:96-98 | `%d` renders a number as canonical digits (no leading zero) denoting it |
| Decimal.CanonicalFormat | src/semver/version.go:132-134 | a canonical digit text is the rendering of its own value |
| Decimal.ParseUintFormat | src/filter/rule.go:157-161 | parsing the rendering of any uint64 returns it |
| Decimal.ParseIntCorrect | src/filter/rule.go:149-155 | base-10 int parse succeeds exactly when the text after one optional `+` or `-` is non-empty, all digits and of value at most 2^63-1 (2^63 after `-`), and returns the signed value; an all-digit body it rejects is out of range |
| Decimal.ParseIntExamples | src/filter/rule.go:149-155 | `+5`, `007` and `-0` are accepted, as 5, 7 and 0 |
| Decimal.ParseIntJustOutOfRange | src/filter/rule.go:149-155 | 2^63 written in decimal is a range error |
| Decimal.ParseIntFormat | src/filter/rule.go:149-155 | parsing the rendering of any int64, sign included, returns it |
| Decimal.ParseIntRejectsSignOnly | src/filter/rule.go:149-155 | a lone sign or a doubled sign is a syntax error |
| SemVer.ContainsOnlyDigits | src/semver/version.go:126-130 | `containsOnly(s, "0123456789")` holds exactly when every character is a digit |
| SemVer.Parse | src/semver/version.go:28-54 | the section loop returns the version `ParseVersion` defines, or `Empty` with its error |
| SemVer.ParseSectionFormat | src/semver/version.go:136-150 | every uint64's rendering is a valid section denoting it |
| SemVer.ParseSectionCanonical | src/semver/version.go:136-150 | an accepted section is canonical digits and is the rendering of its value |
| SemVer.ParseString | src/semver/version.go:28-54 | round trip: parsing `String(v)` gives `v` back, for every version |
| SemVer.ParseIsCanonical | src/semver/version.go:28-54 | converse round trip: an accepted text is exactly the rendering of the version it parses to |
| SemVer.SplitDotted | src/semver/version.go:35 | `SplitN` with limit 3 splits at the first two dots, leaving the rest as the third part |
| SemVer.SplitNJoin | src/semver/version.go:35 | three parts of `SplitN` joined by dots give back the text |
| SemVer.ParseRejectsShape | src/semver/version.go:29-38 | `""` fails as empty and `"0.1"` fails as not major.minor.patch |
| SemVer.ParseRejectsSign | src/semver/version.go:137-139 | `"-1.0.1"` fails on an invalid character in section `-1` |
| SemVer.ParseRejectsLeadingZero | src/semver/version.go:140-142 | `"01.0.1"` fails on leading zeroes in section `01` |
| SemVer.ParseRejectsFourParts | src/semver/version.go:35-46 | `"1.2.3.4"` fails on an invalid character in the third part `3.4` |
| SemVer.ParseSectionNonDigit | src/semver/version.go:137-139 | any section with a non-digit character fails as an invalid character |
| SemVer.ParseRejectsEmptySection | src/semver/version.go:144-147 | `"1..2"` fails with the empty middle section's syntax error from ParseUint |
| SemVer.CompareToRank | src/semver/version.go:100-124 | `compareTo` orders versions exactly as the number major·2^128 + minor·2^64 + patch |
| SemVer.CompareToEqual | src/semver/version.go:100-124 | `compareTo` is 0 exactly on equal versions |
| SemVer.Trichotomy | src/semver/version.go:57-64 | exactly one of less, greater, equal holds |
| SemVer.LessThanIsConverse | src/semver/version.go:57-64 | `a.LessThan(b)` equals `b.GreaterThan(a)` |
| SemVer.LessThanTransitive | src/semver/version.go:57-59 | `LessThan` is transitive |
| SemVer.MutableVersion.UnmarshalText | src/semver/version.go:78-88 | on a parse error the receiver is unchanged and the error is Parse's; on success the receiver holds the parsed version |
| Operators.Parse | src/filter/op/operator.go:75-88 | it fails exactly when it yields Unknown, with an unrecognised-operator error naming the text; any other result is the operator whose alias is the lower-cased text; and every text whose lower-cased form is an operator's alias (`LT`, `Gt`, `lIkE`) parses to that operator without error |
| Operators.ParseAlias | src/filter/op/operator.go:75-88 | parsing each operator's alias gives that operator without error |
| Operators.ParseExamples | src/filter/op/operator.go:75-88 | `""` is Equals; `like` is Like in any case; `lt` and `gt` are the orderings; `eq` and `other` are unrecognised |
| Operators.IsValidTypeTable | src/filter/op/operator.go:95-110 | Equals takes every type, Like only strings, lt/gt ints, uints and versions, Unknown nothing |
| Operators.IsValidTypeByKind | src/filter/op/operator.go:95-110 | validity depends on the value's type alone |
| Operators.Evaluate | src/filter/op/operator.go:118-157 | an evaluation that errs is false |
| Operators.EvaluateSucceeds | src/filter/op/operator.go:118-157 | evaluation is error-free exactly when both values share a type, that type suits the operator, and it is not a uint under lt/gt |
| Operators.EvaluateTypeMismatch | src/filter/op/operator.go:120-122 | values of different types fail with a type mismatch naming expected and actual kinds |
| Operators.EvaluateUnknown | src/filter/op/operator.go:118-157 | the Unknown operator always fails, and always on a type check |
| Operators.EvaluateEquals | src/filter/op/operator.go:133-134 | on values of one type Equals is structural equality |
| Operators.EvaluateLike | src/filter/op/operator.go:135-136 | on strings Like holds exactly when the base text occurs in the incoming text |
| Operators.LikeExamples | src/filter/op/operator.go:127-136 | `"abcde"` contains `"abc"`; not vice versa; Like on ints fails with unsupported type |
| Operators.TextExamples | src/filter/op/operator.go:133-136 | equality is case-sensitive (`Tom` ≠ `tom`); `Green` contains `ree` |
| Operators.EvaluateIntOrder | src/filter/op/operator.go:137-154 | on ints lt/gt are the strict integer comparisons |
| Operators.EvaluateVersionOrder | src/filter/op/operator.go:137-154 | on versions lt/gt are the version's own LessThan/GreaterThan |
| Operators.VersionOrderExample | src/filter/op/operator.go:146-151 | version 1.1.0 is greater than 0.2.0 |
| Operators.GreaterThanIsConverse | src/filter/op/operator.go:137-154 | `gt(a, b)` has the verdict of `lt(b, a)` |
| Rules.BracketedKeyParts | src/filter/rule.go:29-30 | a bracketed key's first `[` ends its name, and the rest is alias + `]` |
| Rules.RecogniseCorrect | src/filter/rule.go:29-30 | the key recogniser answers plain exactly for `[a-zA-Z0-9.]+`, bracketed exactly for name`[`alias`]` with the two parts |
| Rules.RecogniseBracket | src/filter/rule.go:30 | a key that is a plain name, `[`, a text and `]` is recognised as bracketed with those two groups when the text is letters only, and as malformed otherwise |
| Rules.GetNameAndOp | src/filter/rule.go:109-128 | an error-free result never carries Unknown |
| Rules.GetNameAndOpPlain | src/filter/rule.go:111-112 | a plain key is its own field name with Equals |
| Rules.GetNameAndOpBracketed | src/filter/rule.go:113-124 | a bracketed key yields its name and the parse of its alias, failing exactly when the alias is unrecognised |
| Rules.GetNameAndOpMalformed | src/filter/rule.go:125-127 | a key of neither shape is malformed |
| Rules.EmptyBracketIsEquals | src/filter/rule.go:113-124 | `param[]` is `param` with Equals |
| Rules.BracketedLike | src/filter/rule.go:113-124 | `param[like]` is `param` with Like |
| Rules.BracketedUnrecognised | src/filter/rule.go:117-119 | `param[dummy]` gives the name with Unknown and the operator error |
| Rules.MalformedUnclosed | src/filter/rule.go:125-127 | `param[` is malformed |
| Rules.BracketedKeyChars | src/filter/rule.go:29-30 | a bracketed key uses only name characters and brackets |
| Rules.MalformedByCharacter | src/filter/rule.go:109-128 | a key with any character outside `[A-Za-z0-9.[]]` is malformed |
| Rules.MalformedCharacter | src/filter/rule.go:109-128 | `illegal/keyformat` is malformed |
| Rules.MalformedAlias | src/filter/rule.go:109-128 | `param[l1]` is malformed, since aliases are letters only |
| Rules.FirstFold | src/filter/rule.go:136-141 | the first index from `from` whose name folds to the one asked for, or the end |
| Rules.FieldByName | src/filter/rule.go:136-141 | a found field is the one and only name that folds to the one asked for; not found means no match or several |
| Rules.FieldByNameUnique | src/filter/rule.go:136-141 | with case-distinct names, a field is found exactly when one folds to the name |
| Rules.ParseText | src/filter/rule.go:144-175 | a coerced value has the field's kind |
| Rules.ParseTextFormat | src/filter/rule.go:144-175 | round trip: coercing a value's text form back at its kind gives the value |
| Rules.ParseTextFailures | src/filter/rule.go:144-175 | int coercion fails exactly on texts that are not an optionally signed decimal in the int64 range; uint coercion fails exactly on texts that are not a non-empty digit string of value below 2^64; version coercion fails exactly when the version parse fails; other types always fail as unparseable |
| Rules.NewRule | src/filter/rule.go:42-67 | a built rule satisfies the rule invariant: known operator, the field exists, the value has the field's kind and suits the operator; its name and operator come from the key; key errors come back unchanged |
| Rules.NewRuleRoundTrip | src/filter/rule.go:42-67 | every valid rule is rebuilt by NewRule from its own key and value text |
| Rules.NewRuleUnknownField | src/filter/rule.go:49-52 | a name no field folds to fails as field not found |
| Rules.NewRuleRejectsType | src/filter/rule.go:59-61 | a coerced value unsuited to the operator fails with an operator type mismatch |
| Rules.ParseRuleSplit | src/filter/rule.go:76-79 | `key=value` with `=`-free key is NewRule on key and value, the value keeping any later `=` |
| Rules.Evaluate | src/filter/rule.go:88-94 | an error is the operator's error wrapped with the rule, with false; otherwise the operator's verdict |
| Rules.Match | src/filter/rule.go:82-85 | a match that errs is false |
| Rules.MatchConforming | src/filter/rule.go:82-94 | a valid rule on a record of its schema errs exactly when it orders a uint |
| Collecting.CollectOk | src/filter/ruleset.go:19-30 | the run succeeds exactly when every step does, with every step's value in order |
| Collecting.CollectFirstError | src/filter/ruleset.go:19-30 | a failed run returns the error of its first failing step |
| Collecting.CollectPrefixError | src/filter/ruleset.go:25-27 | once a prefix fails, the whole run fails with that error |
| Collecting.CollectFailsAt | src/filter/ruleset.go:19-30 | a step that fails after steps that all succeeded decides the run: its error is the result |
| RuleSets.RuleSet.AddRule | src/filter/ruleset.go:34-36 | appends the rule, earlier rules unchanged |
| RuleSets.CreateRuleSet | src/filter/ruleset.go:17-31 | the loop returns a fresh rule set holding exactly the rules `BuildRules` defines, or no set and its first error |
| RuleSets.BuildRulesOk | src/filter/ruleset.go:17-31 | a build succeeds exactly when every key has one value that NewRule accepts; it then holds one rule per key, in order, each NewRule's |
| RuleSets.BuildRulesFirstError | src/filter/ruleset.go:17-31 | a failed build returns the error of the first key that fails |
| RuleSets.BuildRulesValid | src/filter/ruleset.go:17-31 | every rule of a built set satisfies the rule invariant |
| RuleSets.BuildRulesDuplicate | src/filter/ruleset.go:20-22 | a key with several values fails the build with that key and values, unless an earlier key failed |
| Apps.EvaluateOn | src/app/meta.go:47 | on one string field, errors exactly when the operator errs and otherwise gives its verdict |
| Apps.MatchRule | src/app/meta.go:42-71 | a match that errs is false |
| Apps.MatchRuleIgnoresCase | src/app/meta.go:45 | field names that agree up to case give the same verdict and fail alike |
| Apps.MatchRuleUnsupported | src/app/meta.go:68-69 | a field name outside title, version, maintainer.name, company, description gives false and names the field |
| Apps.FieldNamedSupported | src/app/meta.go:45-69 | the switch has a case for a lower-cased field name exactly when it is one of the five supported names |
| Apps.WebsiteUnsupported | src/app/meta.go:68-69 | `Website` is unsupported |
| Apps.LicenseUnsupported | src/app/meta.go:68-69 | `license` is unsupported |
| Apps.MatchTitleEquals | src/app/meta.go:46-47 | `Title` with Equals compares the title exactly |
| Apps.MatchCompanyLike | src/app/meta.go:64-65 | `company` with Like is substring search on the company |
| Apps.NoMaintainers | src/app/meta.go:62-63 | no maintainers never match |
| Apps.MatchMaintainersTrue | src/app/meta.go:50-63 | true exactly when some maintainer matches and every earlier one neither matches nor errs |
| Apps.MatchMaintainersError | src/app/meta.go:52-55 | an error is the first maintainer's error, after maintainers that did not match |
| Apps.MatchMaintainersAny | src/app/meta.go:50-63 | when no maintainer can err, true exactly when some maintainer matches |
| Apps.MatchRuleSet | src/app/meta.go:76-88 | a rule set that errs is false |
| Apps.EmptyRuleSet | src/app/meta.go:76-88 | the empty rule set matches |
| Apps.MatchRuleSetAppend | src/app/meta.go:77-84 | `R1 ++ R2` is `R1`'s outcome unless `R1` matches cleanly, and then `R2`'s: later rules are not looked at |
| Apps.MatchRuleSetAll | src/app/meta.go:76-88 | true exactly when every rule matches without error |
| Apps.MatchRuleSetFirstFailure | src/app/meta.go:78-84 | a non-match is the outcome of the first rule that fails or errs |
| Apps.MaintainerKey | src/filter/rule.go:109-128 | `maintainer.name[like]` parses to that name and Like |
| Apps.FieldByNameByLength | src/filter/rule.go:136-141 | lookup finds the one name of the right length that folds to the name, or nothing |
| Apps.MetaSchemaLacksMaintainerName | src/app/meta.go:17-26 | no field of Meta folds to `maintainer.name` |
| Apps.SearchSchemaHasMaintainerName | src/app/meta.go:50 | the search schema resolves `maintainer.name` to its added path |
| Apps.MaintainerQueryRejected | src/filter/rule.go:49-52 | against Meta a `maintainer.name[like]` rule cannot be built, for any value |
| Apps.MaintainerQueryAccepted | src/app/meta.go:50-63 | against the search schema it builds the Like rule on the value |
| Apps.MaintainerQueryMatches | src/app/meta.go:50-63 | that rule matches exactly the apps with a maintainer whose name contains the value, without error |
| Apps.MaintainerCase | src/app/meta.go:50 | `maintainer.name` dispatches to the maintainer search |
| AppStore.Store.Add | src/app/store.go:22-32 | a stored title+version fails with that identity and changes nothing; otherwise it appends; uniqueness is kept |
| AppStore.Store.GetByTitle | src/app/store.go:37-41 | none exactly when no app has the title; else the latest-added app with it |
| AppStore.Store.GetByTitleAndVersion | src/app/store.go:45-51 | none exactly when no app has that identity; else a stored app with it, the only one in a valid store |
| AppStore.Store.List | src/app/store.go:57-71 | the loop returns what `Listing` defines for the rule set, its error wrapped as a search failure |
| AppStore.Store.Filter | src/app/store.go:75-84 | returns `Select` of the stored apps |
| AppStore.Store.FirstOrNil | src/app/store.go:88-96 | none exactly when nothing matches; else the earliest match |
| AppStore.Store.LastOrNil | src/app/store.go:100-109 | none exactly when nothing matches; else the latest match |
| AppStore.AddKeepsUnique | src/app/store.go:22-31 | appending a new identity keeps identities unique |
| AppStore.SelectMembers | src/app/store.go:75-84 | `filter` keeps exactly the elements that satisfy the predicate |
| AppStore.SelectAppend | src/app/store.go:75-84 | `filter` distributes over concatenation, so keeps order |
| AppStore.SelectAll | src/app/store.go:75-84 | `filter` with an always-true predicate keeps everything |
| AppStore.ListingPrefixError | src/app/store.go:60-63 | once an app's match errs, the listing stops there |
| AppStore.ListingMatches | src/app/store.go:57-71 | no error exactly when no app's match errs; the result is then exactly the matching apps in insertion order |
| AppStore.ListingFirstError | src/app/store.go:60-63 | a failed listing returns the matches before the first erring app, and that app's error |
| AppStore.ListingEmptyRuleSet | src/app/store.go:53-56 | an empty rule set lists every app |
| AppStore.ListingUnsupportedField | src/app/store.go:57-71 | a rule set with a rule on an unsupported field fails the listing at the first app that matches the rules before it cleanly, with nothing listed |
| AppStore.UnsupportedRuleDecides | src/app/meta.go:68-69 | an unsupported rule gives every app that passes the earlier rules cleanly a false verdict with that field's error; other apps keep the earlier rules' outcome |
| AppStore.ListingNoneMatch | src/app/store.go:57-71 | when no app matches and none errs, the listing is empty and error-free |
| AppStore.Session | src/app/store.go:22-71 | adding App1 0.0.1 twice fails the second time; with 0.0.2 added, an empty rule set lists both, in order |
| LegacyOperators.Parse | filter/op/operator.go:31-44 | fails exactly when it yields `"Unknown"`, with the unrecognised text; the result is one of the five constants |
| LegacyOperators.ParseAgrees | filter/op/operator.go:31-44 | the snapshot recognises the same aliases as the current registry, and its constant is the symbol of the same operator |
| LegacyOperators.ParseExamples | filter/op/operator.go:31-44 | `""` is `"=="`; `LIKE`, `Like` are `"like"`; `lt`, `gt` are `"<"`, `">"`; `eq` is unrecognised |
| LegacyFilters.Filter.AddRule | filter/filter.go:33-35 | appends the rule, earlier rules unchanged |
| LegacyFilters.Filter.Match | filter/filter.go:39-52 | a match that errs is false |
| LegacyFilters.Create | filter/filter.go:16-30 | returns a fresh filter of exactly the rules of the first-error run, or no filter and its first error |
| LegacyFilters.CreateOk | filter/filter.go:16-30 | success exactly when every key has one value the rule constructor accepts; one rule per key, in order |
| LegacyFilters.CreateDuplicate | filter/filter.go:19-21 | a multi-valued key fails Create, unless an earlier key failed |
| LegacyFilters.CreateFirstError | filter/filter.go:23-26 | a failed Create returns the first failing key's error |
| LegacyFilters.MatchAll | filter/filter.go:39-52 | a conjunction that errs is false |
| LegacyFilters.MatchAllEmpty | filter/filter.go:39-52 | the empty filter matches |
| LegacyFilters.MatchAllAppend | filter/filter.go:40-49 | splitting the rules: the second part is looked at only after the first matches cleanly |
| LegacyFilters.MatchAllTrue | filter/filter.go:39-52 | true exactly when every rule matches without error |
| LegacyFilters.MatchAllFirstFailure | filter/filter.go:40-49 | a non-match is the outcome of the first rule that fails or errs |
| LegacyAppStore.Store.Add | app/store.go:14-16 | always appends |
| LegacyAppStore.Store.List | app/store.go:18-32 | the loop returns what `Listing` defines for the filter, its error wrapped |
| LegacyAppStore.ListingEmptyFilter | app/store.go:18-32 | an empty filter lists every app |

## Findings

| source | as written | input that shows it | evidently intended | confidence | as-written member | corrected member |
|---|---|---|---|---|---|---|
| src/app/meta.go:50-63 | `MatchRule` answers rules on `maintainer.name`. But the listing builds rules against `Meta` (src/server.go:64-66), and no field of `Meta` folds to that name, so rule construction fails (src/filter/rule.go:49-52). | query `maintainer.name[like]=x` for any `x`: NewRule fails with field not found `maintainer.name` | the key grammar allows `.` in names; such a query should build a Like rule and list the apps with a maintainer whose name contains `x` | medium; not executed | Apps.MaintainerQueryRejected | Apps.MaintainerQueryAccepted, with Apps.MaintainerQueryMatches over Apps.SearchSchema |

`Apps.SearchSchema` is `Meta`'s schema plus the search path `maintainer.name` as a string field. It is the schema that listing queries are meant to be built against.

## Left out

- The HTTP layer (`server.go`, `src/server.go`) is left out: it is routing, status codes and JSON plumbing.
- The YAML and JSON hooks are left out: they are thin calls into libraries that are not part of this model. This covers `Meta.Parse` in both trees, `Version.UnmarshalYAML` and `Version.MarshalJSON`.
- The field-validation tags on `Meta` and `Maintainer` are left out: an external validator library interprets them.
- `modifyLock` is left out because it is concurrency. `AppStore.Store.Add` is one atomic step, so the check-then-append race the source leaves open does not arise in the model.
- Error message text, `Rule.String`, `RuleSet.String`, `Filter.String` and `Meta.String` are left out: errors are modelled as a datatype of kinds.
- Rules.FieldByName: models a flat struct. Embedded structs and their promoted fields are not modelled.
- Rules.ParseText: only `int` (64-bit platform), `uint` and `uint64` fields are modelled. The silent truncation of `SetInt`/`SetUint` into narrower fields is not captured.
- Operators.IsNumberType: covers only Go `int` (64-bit platform) and `uint`/`uint64`. Float kinds are not modelled.
- Fields of kind `int8`, `int16`, `int32` and `int64` are not modelled. `lt`/`gt` assert `.(int)` (src/filter/op/operator.go:140, :148), so on them Go panics just as it does on `uint`; `Operators.Value.Int` is Go `int` only.
- Operators.Evaluate: the unreachable "should never fall into this branch" panics are left out.
  - The Go panic of `==` on uncomparable types is not modelled: opaque values are compared structurally.
  - The ordered-value capability is modelled only for `semver.Version`.
- Ascii.ToLower: folds ASCII letters only. `strings.ToLower` and `strings.EqualFold` also fold other Unicode letters.
- `[]byte` arguments (`UnmarshalText`, the regular-expression match) are modelled as strings.
- Apps.MatchRuleIgnoresCase: states that the verdict and whether an error occurs agree, not the error values. The error carries the rule itself, whose field name differs.
- RuleSets.CreateRuleSet: takes its parameters as a sequence in map-iteration order. Go leaves that order unspecified, and no claim singles one out.
- Rule.getField's lookup on a record of another schema is the source's `Rule.Match` path. It is modelled as `Rules.Match`, but `Meta.MatchRule` replaces it in the store.
- `Meta.Version` is a string, as in `meta.go`. Some call sites treat it as a `semver.Version`; the store only needs equality on it.
- The older snapshot's `Meta` has the same fields as `Apps.Meta` and is modelled by it.
