/** The part of Semantic Versioning 2.0.0 the version stamper relies on:
    plain `X.Y.Z` versions (item 2), pre-release versions (item 9) and
    precedence (item 11). Build metadata (item 10) is not modelled. */
module Semver {
  import opened Wrappers
  import opened Text

  /** The three numbers of a normal version `MAJOR.MINOR.PATCH`. */
  datatype Core = Core(major: nat, minor: nat, patch: nat)

  /** A version: its core and its dot-separated pre-release identifiers
      (none for a normal version). */
  datatype Version = Version(core: Core, prerelease: seq<string>)

  /** `X.Y.Z` in decimal. */
  function FormatCore(c: Core): string {
    NatToString(c.major) + "." + NatToString(c.minor) + "." + NatToString(c.patch)
  }

  /** Reads a plain `X.Y.Z` with three canonical numerals (item 2). */
  function ParseCore(s: string): Option<Core> {
    var parts := Split(s, '.');
    if |parts| == 3 && IsCanonicalNumeral(parts[0]) && IsCanonicalNumeral(parts[1]) && IsCanonicalNumeral(parts[2])
    then Some(Core(DigitsValue(parts[0]), DigitsValue(parts[1]), DigitsValue(parts[2])))
    else None
  }

  /** Three numerals joined with dots split back into those numerals. */
  lemma SplitDotted(a: string, b: string, c: string)
    requires '.' !in a && '.' !in b && '.' !in c
    ensures Split(a + "." + b + "." + c, '.') == [a, b, c]
  {
    SplitAround(a, '.', b);
    SplitAround(a + "." + b, '.', c);
    SplitWithoutSeparator(a, '.');
    SplitWithoutSeparator(b, '.');
    SplitWithoutSeparator(c, '.');
  }

  /** A numeral holds neither a dot nor a hyphen. */
  lemma NumeralHasNoSeparator(s: string)
    requires AllDigits(s)
    ensures '.' !in s && '-' !in s
  {
    forall i | 0 <= i < |s| ensures s[i] != '.' && s[i] != '-' {
    }
  }

  /** A core of single-digit numbers formats as five characters. */
  lemma FormatDigitsCore(c: Core)
    requires c.major < 10 && c.minor < 10 && c.patch < 10
    ensures FormatCore(c) == [DigitChar(c.major), '.', DigitChar(c.minor), '.', DigitChar(c.patch)]
  {
  }

  /** Formatting a core and reading it back gives the same core. */
  lemma FormatCoreParses(c: Core)
    ensures ParseCore(FormatCore(c)) == Some(c)
  {
    NumeralHasNoSeparator(NatToString(c.major));
    NumeralHasNoSeparator(NatToString(c.minor));
    NumeralHasNoSeparator(NatToString(c.patch));
    SplitDotted(NatToString(c.major), NatToString(c.minor), NatToString(c.patch));
    DigitsValueOfNatToString(c.major);
    DigitsValueOfNatToString(c.minor);
    DigitsValueOfNatToString(c.patch);
  }

  /** A plain version is exactly the formatting of the core it reads as:
      `ParseCore` accepts nothing that `FormatCore` would write otherwise. */
  lemma ParseCoreFormats(s: string)
    requires ParseCore(s).Some?
    ensures FormatCore(ParseCore(s).value) == s
  {
    var parts := Split(s, '.');
    JoinSplit(s, '.');
    NatToStringOfDigitsValue(parts[0]);
    NatToStringOfDigitsValue(parts[1]);
    NatToStringOfDigitsValue(parts[2]);
    assert parts[1..][1..] == parts[2..] == [parts[2]];
    assert Join(parts[1..], '.') == parts[1] + "." + parts[2];
    assert Join(parts, '.') == parts[0] + "." + (parts[1] + "." + parts[2]);
  }

  /** A formatted core contains no hyphen. */
  lemma FormatCoreHasNoHyphen(c: Core)
    ensures '-' !in FormatCore(c)
  {
    NumeralHasNoSeparator(NatToString(c.major));
    NumeralHasNoSeparator(NatToString(c.minor));
    NumeralHasNoSeparator(NatToString(c.patch));
  }

  // ---------------------------------------------------------------------
  // Pre-release syntax (item 9)
  // ---------------------------------------------------------------------

  predicate IsIdentifierChar(c: char) {
    ('a' <= c <= 'z') || ('A' <= c <= 'Z') || IsDigit(c) || c == '-'
  }

  /** A pre-release identifier: non-empty, ASCII alphanumerics and hyphens,
      and no leading zero when it is numeric. */
  predicate IsPrereleaseIdentifier(s: string) {
    && |s| >= 1
    && (forall i :: 0 <= i < |s| ==> IsIdentifierChar(s[i]))
    && (AllDigits(s) ==> IsCanonicalNumeral(s))
  }

  /** The text after the `-` of a pre-release version: dot-separated
      identifiers. */
  predicate IsPrereleaseText(s: string) {
    forall id :: id in Split(s, '.') ==> IsPrereleaseIdentifier(id)
  }

  /** Reads `X.Y.Z` or `X.Y.Z-<pre-release>`; the first hyphen ends the
      core. */
  function ParseVersion(s: string): Option<Version> {
    match IndexOf(s, "-")
    case None =>
      (match ParseCore(s)
       case None => None
       case Some(c) => Some(Version(c, [])))
    case Some(i) =>
      (match ParseCore(s[..i])
       case None => None
       case Some(c) =>
         if IsPrereleaseText(s[i + 1..]) then Some(Version(c, Split(s[i + 1..], '.'))) else None)
  }

  /** A formatted core, a hyphen and valid pre-release text read back as
      that core and the identifiers of the text. */
  lemma ParseVersionOfPrerelease(c: Core, pre: string)
    requires IsPrereleaseText(pre)
    ensures ParseVersion(FormatCore(c) + "-" + pre) == Some(Version(c, Split(pre, '.')))
  {
    var s := FormatCore(c) + "-" + pre;
    var k := |FormatCore(c)|;
    FormatCoreHasNoHyphen(c);
    IndexOfHyphenAfter(FormatCore(c), pre);
    assert s[..k] == FormatCore(c) && s[k + 1..] == pre;
    FormatCoreParses(c);
  }

  /** A plain version reads as a version without pre-release identifiers. */
  lemma ParseVersionOfPlain(s: string)
    requires ParseCore(s).Some?
    ensures ParseVersion(s) == Some(Version(ParseCore(s).value, []))
  {
    ParseCoreFormats(s);
    FormatCoreHasNoHyphen(ParseCore(s).value);
    forall j: nat ensures !OccursAt(s, "-", j) {
      if j + 1 <= |s| { assert s[j..j + 1] == [s[j]]; }
    }
  }

  /** The first hyphen of `x + "-" + y` is the one after `x` when `x` has
      none. */
  lemma IndexOfHyphenAfter(x: string, y: string)
    requires '-' !in x
    ensures IndexOf(x + "-" + y, "-") == Some(|x|)
  {
    var s := x + "-" + y;
    assert OccursAt(s, "-", |x|) by { assert s[|x|..|x| + 1] == "-"; }
    forall j: nat | j < |x| ensures !OccursAt(s, "-", j) {
      assert s[j..j + 1] == [x[j]];
    }
  }

  // ---------------------------------------------------------------------
  // Precedence (item 11)
  // ---------------------------------------------------------------------

  /** Item 11.2: cores compare numerically, major, then minor, then patch. */
  predicate CoreLess(a: Core, b: Core) {
    || a.major < b.major
    || (a.major == b.major && a.minor < b.minor)
    || (a.major == b.major && a.minor == b.minor && a.patch < b.patch)
  }

  /** Strings compared character by character in code-point order, a proper
      prefix first. */
  predicate LexicallyLess(x: string, y: string) {
    if x == [] then y != []
    else if y == [] then false
    else if x[0] != y[0] then x[0] < y[0]
    else LexicallyLess(x[1..], y[1..])
  }

  /** Item 11.4.1-3: numeric identifiers compare numerically and precede
      alphanumeric ones, which compare lexically. */
  predicate IdentifierLess(x: string, y: string) {
    if AllDigits(x) && AllDigits(y) then DigitsValue(x) < DigitsValue(y)
    else if AllDigits(x) then true
    else if AllDigits(y) then false
    else LexicallyLess(x, y)
  }

  /** Item 11.4: pre-release fields compare identifier by identifier; a
      shorter list whose identifiers all match precedes a longer one. */
  predicate PrereleaseLess(a: seq<string>, b: seq<string>) {
    if a == [] then b != []
    else if b == [] then false
    else if a[0] != b[0] then IdentifierLess(a[0], b[0])
    else PrereleaseLess(a[1..], b[1..])
  }

  /** Item 11: `a` has lower precedence than `b`. With equal cores a
      pre-release version precedes the normal version (item 11.3). */
  predicate Precedes(a: Version, b: Version) {
    || CoreLess(a.core, b.core)
    || (a.core == b.core && a.prerelease != [] && b.prerelease == [])
    || (a.core == b.core && a.prerelease != [] && b.prerelease != [] && PrereleaseLess(a.prerelease, b.prerelease))
  }
}
