/**
 * The `Major.Minor.Patch` subset of semantic versions (src/semver/version.go):
 * a strict parser, the `%d.%d.%d` rendering and the lexicographic ordering that
 * lets versions take part in the LessThan and GreaterThan operators.
 */
module SemVer {
  import opened Common
  import opened Ascii
  import opened Decimal

  datatype Version = Version(major: uint64, minor: uint64, patch: uint64)

  /** The zero Version, returned by Parse on every failure. */
  const Empty: Version := Version(0, 0, 0)

  /** Why one dot-separated section was refused. */
  datatype SectionError =
    | InvalidCharacter(text: string)
    | LeadingZeroes(text: string)
    | NumberError(text: string, cause: NumError)

  /** Why a version text was refused. */
  datatype VersionError =
    | EmptyString
    | NotMajorMinorPatch(text: string)
    | BadSection(text: string, cause: SectionError)

  // ---------------------------------------------------------------------------
  // Text helpers

  /** containsOnly (src/semver/version.go:126-130): no character outside the allowed set. */
  predicate ContainsOnly(s: string, allowed: string)
  {
    forall i :: 0 <= i < |s| ==> s[i] in allowed
  }

  /** hasLeadingZeroes (src/semver/version.go:132-134). */
  predicate HasLeadingZeroes(s: string)
  {
    |s| > 1 && s[0] == '0'
  }

  const DIGITS: string := "0123456789"

  lemma DigitInDigits(c: char)
    ensures c in DIGITS <==> IsDigit(c)
  {
  }

  lemma ContainsOnlyDigits(s: string)
    ensures ContainsOnly(s, DIGITS) <==> AllDigits(s)
  {
    forall i | 0 <= i < |s| ensures s[i] in DIGITS <==> IsDigit(s[i]) {
      DigitInDigits(s[i]);
    }
  }

  // ---------------------------------------------------------------------------
  // Parsing

  /** parseSection (src/semver/version.go:136-150). */
  function ParseSection(text: string): Result<uint64, SectionError>
  {
    if !ContainsOnly(text, DIGITS) then Err(InvalidCharacter(text))
    else if HasLeadingZeroes(text) then Err(LeadingZeroes(text))
    else match ParseUint(text)
      case Err(e) => Err(NumberError(text, e))
      case Ok(n) => Ok(n)
  }

  /** The meaning of Parse (src/semver/version.go:28-54), which the method below implements. */
  function ParseVersion(s: string): Result<Version, VersionError>
  {
    if |s| == 0 then Err(EmptyString)
    else
      var parts := SplitN(s, '.', 3);
      if |parts| != 3 then Err(NotMajorMinorPatch(s))
      else
        var a, b, c := ParseSection(parts[0]), ParseSection(parts[1]), ParseSection(parts[2]);
        if a.Err? then Err(BadSection(s, a.error))
        else if b.Err? then Err(BadSection(s, b.error))
        else if c.Err? then Err(BadSection(s, c.error))
        else Ok(Version(a.value, b.value, c.value))
  }

  /**
   * Parse: splits into three parts and fills the three sections in a loop; on
   * any failure the zero Version comes back beside the error.
   */
  method Parse(s: string) returns (v: Version, err: Option<VersionError>)
    ensures err.None? <==> ParseVersion(s).Ok?
    ensures err.None? ==> v == ParseVersion(s).value
    ensures err.Some? ==> v == Empty && err.value == ParseVersion(s).error
  {
    if |s| == 0 {
      return Empty, Some(EmptyString);
    }
    var parts := SplitN(s, '.', 3);
    if |parts| != 3 {
      return Empty, Some(NotMajorMinorPatch(s));
    }
    var sections := new uint64[3];
    for i := 0 to 3
      invariant forall j :: 0 <= j < i ==> ParseSection(parts[j]) == Ok(sections[j])
    {
      var r := ParseSection(parts[i]);
      if r.Err? {
        return Empty, Some(BadSection(s, r.error));
      }
      sections[i] := r.value;
    }
    v := Version(sections[0], sections[1], sections[2]);
    err := None;
  }

  // ---------------------------------------------------------------------------
  // Rendering

  /** String (src/semver/version.go:96-98): `%d.%d.%d`. */
  function String(v: Version): string
  {
    FormatNat(v.major) + "." + FormatNat(v.minor) + "." + FormatNat(v.patch)
  }

  /** A canonical, in-range section parses back to the number it denotes. */
  lemma ParseSectionFormat(n: uint64)
    ensures ParseSection(FormatNat(n)) == Ok(n)
  {
    FormatNatCanonical(n);
    ContainsOnlyDigits(FormatNat(n));
    ParseUintFormat(n);
  }

  /** The first two dots split; whatever follows the second dot stays one part. */
  lemma {:induction false} SplitDotted(a: string, b: string, c: string)
    requires '.' !in a && '.' !in b
    ensures SplitN(a + "." + b + "." + c, '.', 3) == [a, b, c]
  {
    var s := a + "." + b + "." + c;
    assert s[|a|] == '.';
    forall i | 0 <= i < |a| ensures s[i] != '.' { assert s[i] == a[i]; }
    IndexOfAt(s, '.', |a|);
    var t := s[|a| + 1..];
    assert t == b + "." + c;
    assert t[|b|] == '.';
    forall i | 0 <= i < |b| ensures t[i] != '.' { assert t[i] == b[i]; }
    IndexOfAt(t, '.', |b|);
    assert t[..|b|] == b && t[|b| + 1..] == c;
    assert s[..|a|] == a;
  }

  lemma SplitPair(a: string, b: string)
    requires '.' !in a && '.' !in b
    ensures SplitN(a + "." + b, '.', 3) == [a, b]
  {
    var s := a + "." + b;
    assert s[|a|] == '.';
    forall i | 0 <= i < |a| ensures s[i] != '.' { assert s[i] == a[i]; }
    IndexOfAt(s, '.', |a|);
    assert s[..|a|] == a && s[|a| + 1..] == b;
    IndexOfAt(b, '.', |b|);
  }

  /** Round trip: Parse reads back every Version that String writes. */
  lemma ParseString(v: Version)
    ensures ParseVersion(String(v)) == Ok(v)
  {
    FormatNatHasNoChar(v.major, '.');
    FormatNatHasNoChar(v.minor, '.');
    FormatNatHasNoChar(v.patch, '.');
    SplitDotted(FormatNat(v.major), FormatNat(v.minor), FormatNat(v.patch));
    ParseSectionFormat(v.major);
    ParseSectionFormat(v.minor);
    ParseSectionFormat(v.patch);
  }

  lemma ParseSectionCanonical(text: string)
    requires ParseSection(text).Ok?
    ensures Canonical(text) && FormatNat(ParseSection(text).value) == text
  {
    ContainsOnlyDigits(text);
    ParseUintCorrect(text);
    CanonicalFormat(text);
  }

  /** SplitN with room for more parts splits a text at its first dot, if it has one. */
  lemma SplitNStep(s: string, n: nat)
    requires n > 1 && |SplitN(s, '.', n)| > 1
    ensures IndexOf(s, '.') < |s|
    ensures SplitN(s, '.', n) == [s[..IndexOf(s, '.')]] + SplitN(s[IndexOf(s, '.') + 1..], '.', n - 1)
  {
  }

  /** A text is the join of the two sides of any of its dots. */
  lemma JoinAt(s: string, i: nat)
    requires i < |s| && s[i] == '.'
    ensures s == s[..i] + "." + s[i + 1..]
  {
    assert s == s[..i] + [s[i]] + s[i + 1..];
  }

  lemma {:induction false} SplitNJoin(s: string)
    requires |SplitN(s, '.', 3)| == 3
    ensures var p := SplitN(s, '.', 3); s == p[0] + "." + p[1] + "." + p[2]
  {
    var p := SplitN(s, '.', 3);
    SplitNStep(s, 3);
    var i := IndexOf(s, '.');
    IndexOfFirst(s, '.');
    var t := s[i + 1..];
    var q := SplitN(t, '.', 2);
    assert |q| == 2;
    SplitNStep(t, 2);
    var j := IndexOf(t, '.');
    IndexOfFirst(t, '.');
    var a, b, c := s[..i], t[..j], t[j + 1..];
    assert SplitN(c, '.', 1) == [c];
    assert q == [b, c];
    assert p[0] == a && p[1] == b && p[2] == c;
    JoinAt(s, i);
    JoinAt(t, j);
    assert s == a + "." + (b + "." + c);
    Associative(a + ".", b + ".", c);
    Associative(a + ".", b, ".");
  }

  /** Only the text String writes is accepted: Parse's inputs are exactly the rendered Versions. */
  lemma ParseIsCanonical(s: string)
    requires ParseVersion(s).Ok?
    ensures String(ParseVersion(s).value) == s
  {
    var p := SplitN(s, '.', 3);
    SplitNJoin(s);
    ParseSectionCanonical(p[0]);
    ParseSectionCanonical(p[1]);
    ParseSectionCanonical(p[2]);
  }

  /** The empty text and a text with fewer than three parts are refused as a whole. */
  lemma ParseRejectsShape()
    ensures ParseVersion("") == Err(EmptyString)
    ensures ParseVersion("0.1") == Err(NotMajorMinorPatch("0.1"))
  {
    assert "0.1" == "0" + "." + "1";
    SplitPair("0", "1");
  }

  /** A sign is not a digit: "-1.0.1" fails on its first section. */
  lemma ParseRejectsSign()
    ensures ParseVersion("-1.0.1") == Err(BadSection("-1.0.1", InvalidCharacter("-1")))
  {
    assert "-1.0.1" == "-1" + "." + "0" + "." + "1";
    SplitDotted("-1", "0", "1");
    ParseSectionNonDigit("-1", 0);
    SmallSections();
  }

  /** "01.0.1" fails on the leading zero of its first section. */
  lemma ParseRejectsLeadingZero()
    ensures ParseVersion("01.0.1") == Err(BadSection("01.0.1", LeadingZeroes("01")))
  {
    assert "01.0.1" == "01" + "." + "0" + "." + "1";
    SplitDotted("01", "0", "1");
    ContainsOnlyDigits("01");
  }

  /** Only two dots are split on: the third part of "1.2.3.4" is "3.4", which holds a non-digit. */
  lemma ParseRejectsFourParts()
    ensures ParseVersion("1.2.3.4") == Err(BadSection("1.2.3.4", InvalidCharacter("3.4")))
  {
    SplitFourParts();
    SmallSections();
    ParseSectionNonDigit("3.4", 1);
  }

  lemma SplitFourParts()
    ensures SplitN("1.2.3.4", '.', 3) == ["1", "2", "3.4"]
  {
    assert "1.2.3.4" == "1" + "." + "2" + "." + "3.4";
    SplitDotted("1", "2", "3.4");
  }

  lemma SmallSections()
    ensures ParseSection("0") == Ok(0) && ParseSection("1") == Ok(1) && ParseSection("2") == Ok(2)
  {
    assert FormatNat(0) == "0" && FormatNat(1) == "1" && FormatNat(2) == "2";
    ParseSectionFormat(0);
    ParseSectionFormat(1);
    ParseSectionFormat(2);
  }

  /** A section holding any non-digit is refused for its characters. */
  lemma ParseSectionNonDigit(text: string, i: nat)
    requires i < |text| && !IsDigit(text[i])
    ensures ParseSection(text) == Err(InvalidCharacter(text))
  {
    ContainsOnlyDigits(text);
  }

  /** An empty section passes the character checks and is refused by ParseUint. */
  lemma ParseRejectsEmptySection()
    ensures ParseVersion("1..2") == Err(BadSection("1..2", NumberError("", ErrSyntax)))
  {
    assert "1..2" == "1" + "." + "" + "." + "2";
    SplitDotted("1", "", "2");
    SmallSections();
    EmptySection();
  }

  lemma EmptySection()
    ensures ParseSection("") == Err(NumberError("", ErrSyntax))
  {
    ContainsOnlyDigits("");
  }

  // ---------------------------------------------------------------------------
  // Ordering

  /** compareTo (src/semver/version.go:100-124). */
  function CompareTo(a: Version, b: Version): int
  {
    if a.major < b.major then -1
    else if a.major > b.major then 1
    else if a.minor < b.minor then -1
    else if a.minor > b.minor then 1
    else if a.patch < b.patch then -1
    else if a.patch > b.patch then 1
    else 0
  }

  /** LessThan (src/semver/version.go:57-59). */
  predicate LessThan(a: Version, b: Version)
  {
    CompareTo(a, b) < 0
  }

  /** GreaterThan (src/semver/version.go:62-64). */
  predicate GreaterThan(a: Version, b: Version)
  {
    CompareTo(a, b) > 0
  }

  const WORD: nat := 0x1_0000_0000_0000_0000

  /** An independent reading of the ordering: a Version as one 192-bit number. */
  function Rank(v: Version): nat
  {
    (v.major * WORD + v.minor) * WORD + v.patch
  }

  lemma Distribute(a: nat, k: nat, base: nat)
    ensures (a + k) * base == a * base + k * base
  {
  }

  lemma AtLeastOnce(k: nat, base: nat)
    requires k >= 1
    ensures k * base >= base
  {
    Distribute(1, k - 1, base);
  }

  /** A higher digit in the place above outweighs any lower digit. */
  lemma Outweighs(hi: nat, lo: nat, hi': nat, lo': nat, base: nat)
    requires lo < base && hi < hi'
    ensures hi * base + lo < hi' * base + lo'
  {
    Distribute(hi, hi' - hi, base);
    AtLeastOnce(hi' - hi, base);
  }

  lemma PlaceValue(hi: nat, lo: nat, hi': nat, lo': nat, base: nat)
    requires lo < base && lo' < base
    ensures hi * base + lo < hi' * base + lo' <==> hi < hi' || (hi == hi' && lo < lo')
    ensures hi * base + lo == hi' * base + lo' <==> hi == hi' && lo == lo'
  {
    if hi < hi' {
      Outweighs(hi, lo, hi', lo', base);
    } else if hi > hi' {
      Outweighs(hi', lo', hi, lo, base);
    }
  }

  /** compareTo is the sign of the difference of the ranks. */
  lemma CompareToRank(a: Version, b: Version)
    ensures CompareTo(a, b) < 0 <==> Rank(a) < Rank(b)
    ensures CompareTo(a, b) == 0 <==> Rank(a) == Rank(b)
    ensures CompareTo(a, b) > 0 <==> Rank(a) > Rank(b)
  {
    assert a.minor < WORD && b.minor < WORD && a.patch < WORD && b.patch < WORD;
    PlaceValue(a.major, a.minor, b.major, b.minor, WORD);
    PlaceValue(a.major * WORD + a.minor, a.patch, b.major * WORD + b.minor, b.patch, WORD);
  }

  /** Two versions compare equal exactly when they are the same version. */
  lemma CompareToEqual(a: Version, b: Version)
    ensures CompareTo(a, b) == 0 <==> a == b
  {
  }

  /** Exactly one of a < b, a > b, a == b. */
  lemma Trichotomy(a: Version, b: Version)
    ensures (LessThan(a, b) && !GreaterThan(a, b) && a != b)
         || (!LessThan(a, b) && GreaterThan(a, b) && a != b)
         || (!LessThan(a, b) && !GreaterThan(a, b) && a == b)
  {
  }

  /** a.LessThan(b) and b.GreaterThan(a) always agree. */
  lemma LessThanIsConverse(a: Version, b: Version)
    ensures LessThan(a, b) == GreaterThan(b, a)
  {
    CompareToRank(a, b);
    CompareToRank(b, a);
  }

  lemma LessThanTransitive(a: Version, b: Version, c: Version)
    requires LessThan(a, b) && LessThan(b, c)
    ensures LessThan(a, c)
  {
    CompareToRank(a, b);
    CompareToRank(b, c);
    CompareToRank(a, c);
  }

  // ---------------------------------------------------------------------------
  // The pointer receiver of UnmarshalText

  /** A `*Version` whose fields UnmarshalText overwrites in place. */
  class MutableVersion {
    var major: uint64
    var minor: uint64
    var patch: uint64

    function Value(): Version
      reads this
    {
      Version(major, minor, patch)
    }

    constructor ()
      ensures Value() == Empty
    {
      major, minor, patch := 0, 0, 0;
    }

    /** UnmarshalText (src/semver/version.go:78-88). */
    method UnmarshalText(text: string) returns (err: Option<VersionError>)
      modifies this
      ensures err.Some? ==> ParseVersion(text).Err? && err.value == ParseVersion(text).error
      ensures err.Some? ==> Value() == old(Value())
      ensures err.None? ==> ParseVersion(text).Ok? && Value() == ParseVersion(text).value
    {
      var version, e := Parse(text);
      if e.Some? {
        return e;
      }
      major := version.major;
      minor := version.minor;
      patch := version.patch;
      return None;
    }
  }
}
