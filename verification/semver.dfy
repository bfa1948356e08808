/**
 `V2VersionBumper.bump_version`: a version string `X.Y.Z` read as three integers and its
 major, minor or patch successor written back with f-string formatting.
 */
module SemVer {
  import opened Wrappers
  import opened Text
  import Decimal
  import VersionPattern

  datatype Version = Version(major: nat, minor: nat, patch: nat)

  datatype BumpError =
    | MalformedVersion(version: string)   // the ValueError raised by unpacking `map(int, ...)`
    | InvalidBumpType(bumpType: string)   // "Invalid bump type: ..."

  /** `major, minor, patch = map(int, version.split('.'))`: exactly three parts, each a
      plain decimal numeral. */
  function ParseVersion(s: string): (r: Option<Version>)
    ensures r.Some? <==> (var parts := Split(s, '.');
                          |parts| == 3 && IsNumeral(parts[0]) && IsNumeral(parts[1]) && IsNumeral(parts[2]))
  {
    var parts := Split(s, '.');
    if |parts| == 3 && IsNumeral(parts[0]) && IsNumeral(parts[1]) && IsNumeral(parts[2]) then
      Some(Version(Decimal.ParseDecimal(parts[0]), Decimal.ParseDecimal(parts[1]),
                   Decimal.ParseDecimal(parts[2])))
    else None
  }

  /** `f"{major}.{minor}.{patch}"`. */
  function FormatVersion(v: Version): string {
    Decimal.Format(v.major) + "." + Decimal.Format(v.minor) + "." + Decimal.Format(v.patch)
  }

  /** Every part of the text is a numeral without superfluous leading zeros. */
  predicate IsCanonicalVersion(s: string) {
    var parts := Split(s, '.');
    |parts| == 3 && forall k :: 0 <= k < 3 ==> Decimal.IsCanonical(parts[k])
  }

  /** Formatting writes three canonical numerals, and parsing reads the version back. */
  lemma ParseFormat(v: Version)
    ensures ParseVersion(FormatVersion(v)) == Some(v)
    ensures IsCanonicalVersion(FormatVersion(v))
  {
    var a, b, c := Decimal.Format(v.major), Decimal.Format(v.minor), Decimal.Format(v.patch);
    NumeralHasNoDot(a);
    NumeralHasNoDot(b);
    NumeralHasNoDot(c);
    ThreeParts(a, b, c);
    Decimal.ParseFormat(v.major);
    Decimal.ParseFormat(v.minor);
    Decimal.ParseFormat(v.patch);
  }

  lemma NumeralHasNoDot(s: string)
    requires AllDigits(s)
    ensures '.' !in s
  {
  }

  /** Parsing a canonical version text and formatting the result gives the text back. */
  lemma FormatParse(s: string)
    requires IsCanonicalVersion(s)
    ensures ParseVersion(s).Some? && FormatVersion(ParseVersion(s).value) == s
  {
    var parts := Split(s, '.');
    assert Decimal.IsCanonical(parts[0]) && Decimal.IsCanonical(parts[1]) && Decimal.IsCanonical(parts[2]);
    Decimal.FormatParse(parts[0]);
    Decimal.FormatParse(parts[1]);
    Decimal.FormatParse(parts[2]);
    assert Join(parts[2..], '.') == parts[2];
    assert Join(parts[1..], '.') == parts[1] + "." + parts[2];
  }

  /** `bump_version(version, bump_type)`. The version is parsed before the bump type is
      looked at, so a malformed version wins over an unknown bump type. */
  function Bump(version: string, bumpType: string): (r: Result<string, BumpError>)
    ensures ParseVersion(version).None? <==> r == Err(MalformedVersion(version))
    ensures ParseVersion(version).Some? && bumpType !in {"major", "minor", "patch"}
            <==> r == Err(InvalidBumpType(bumpType))
    ensures r.Ok? <==> ParseVersion(version).Some? && bumpType in {"major", "minor", "patch"}
    ensures r.Ok? ==> IsCanonicalVersion(r.value)
    ensures r.Ok? && bumpType == "major" ==>
              var v := ParseVersion(version).value;
              ParseVersion(r.value) == Some(Version(v.major + 1, 0, 0))
    ensures r.Ok? && bumpType == "minor" ==>
              var v := ParseVersion(version).value;
              ParseVersion(r.value) == Some(Version(v.major, v.minor + 1, 0))
    ensures r.Ok? && bumpType == "patch" ==>
              var v := ParseVersion(version).value;
              ParseVersion(r.value) == Some(Version(v.major, v.minor, v.patch + 1))
  {
    match ParseVersion(version)
    case None => Err(MalformedVersion(version))
    case Some(v) =>
      if bumpType == "major" then Succeed(Version(v.major + 1, 0, 0))
      else if bumpType == "minor" then Succeed(Version(v.major, v.minor + 1, 0))
      else if bumpType == "patch" then Succeed(Version(v.major, v.minor, v.patch + 1))
      else Err(InvalidBumpType(bumpType))
  }

  function Succeed(v: Version): (r: Result<string, BumpError>)
    ensures r.Ok? && ParseVersion(r.value) == Some(v) && IsCanonicalVersion(r.value)
  {
    ParseFormat(v);
    Ok(FormatVersion(v))
  }

  /** Leading zeros do not survive a bump: "01.02.03" patched is "1.2.4". */
  lemma BumpDropsLeadingZeros()
    ensures Bump("01.02.03", "patch") == Ok("1.2.4")
  {
    ParseZeroPadded();
    FormatSmall();
  }

  lemma ParseZeroPadded()
    ensures ParseVersion("01.02.03") == Some(Version(1, 2, 3))
  {
    assert "01.02.03" == "01" + "." + "02" + "." + "03";
    ParseParts("01", "02", "03");
    assert Decimal.ParseDecimal("01") == 1 by { LeadingZeroValue('1'); }
    assert Decimal.ParseDecimal("02") == 2 by { LeadingZeroValue('2'); }
    assert Decimal.ParseDecimal("03") == 3 by { LeadingZeroValue('3'); }
  }

  /** Three numerals joined by dots parse to their three values. */
  lemma ParseParts(a: string, b: string, c: string)
    requires IsNumeral(a) && IsNumeral(b) && IsNumeral(c)
    ensures ParseVersion(a + "." + b + "." + c)
            == Some(Version(Decimal.ParseDecimal(a), Decimal.ParseDecimal(b), Decimal.ParseDecimal(c)))
  {
    NumeralHasNoDot(a);
    NumeralHasNoDot(b);
    NumeralHasNoDot(c);
    ThreeParts(a, b, c);
  }

  lemma FormatSmall()
    ensures FormatVersion(Version(1, 2, 4)) == "1.2.4"
  {
    assert Decimal.Format(1) == "1" && Decimal.Format(2) == "2" && Decimal.Format(4) == "4";
  }

  lemma ThreeParts(a: string, b: string, c: string)
    requires '.' !in a && '.' !in b && '.' !in c
    ensures Split(a + "." + b + "." + c, '.') == [a, b, c]
  {
    SplitAfterPiece(a, '.', b + "." + c);
    SplitAfterPiece(b, '.', c);
    SplitWhole(c, '.');
    assert a + "." + b + "." + c == a + ['.'] + (b + ['.'] + c);
  }

  lemma LeadingZeroValue(c: char)
    requires IsDigit(c)
    ensures Decimal.ParseDecimal(['0', c]) == Decimal.DigitValue(c)
  {
    assert ['0', c][..1] == ['0'];
    assert ['0'][..0] == [];
  }

  // ---------------------------------------------------------------------------
  // The regex's idea of a version and the parser's idea of a version coincide.

  /** Walking the number automaton from inside part `p` accepts the rest of a version
      exactly when the remaining text splits on '.' into the parts still missing. */
  lemma {:induction false} WalkSplit(p: nat, d: bool, x: string)
    requires p <= 2
    ensures VersionPattern.Walk(VersionPattern.Number(p, d), x) == Some(VersionPattern.Number(2, true))
            <==> (var parts := Split(x, '.');
                  && |parts| == 3 - p
                  && AllDigits(parts[0]) && (d || |parts[0]| > 0)
                  && forall k :: 1 <= k < |parts| ==> IsNumeral(parts[k]))
    decreases |x|
  {
    if |x| > 0 {
      var rest := Split(x[1..], '.');
      var c := x[0];
      if IsDigit(c) {
        WalkSplit(p, true, x[1..]);
        var parts := Split(x, '.');
        assert parts[0] == [c] + rest[0];
        assert forall k :: 1 <= k < |parts| ==> parts[k] == rest[k];
        AllDigitsCons(c, rest[0]);
      } else if c == '.' {
        var parts := Split(x, '.');
        assert parts == [""] + rest;
        if d && p < 2 {
          WalkSplit(p + 1, false, x[1..]);
          assert forall k :: 1 <= k < |parts| ==> parts[k] == rest[k - 1];
        }
      } else {
        var parts := Split(x, '.');
        assert parts[0][0] == c;
      }
    }
  }

  lemma AllDigitsCons(c: char, s: string)
    requires IsDigit(c)
    ensures AllDigits([c] + s) <==> AllDigits(s)
  {
    assert forall i :: 0 <= i < |s| ==> ([c] + s)[i + 1] == s[i];
  }

  /** A text is matched in full by `[0-9]+\.[0-9]+\.[0-9]+` exactly when `bump_version`
      can parse it. */
  lemma VersionTextParses(s: string)
    ensures VersionPattern.IsVersionText(s) <==> ParseVersion(s).Some?
  {
    WalkSplit(0, false, s);
  }
}
