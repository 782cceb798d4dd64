/** The `snapshotProject` command (lib/snapshotProject.js): stamps
    package.json with a snapshot version built from the current version, a
    build number and, for pre-release snapshots, a tag. */
module SnapshotProject {
  import opened Wrappers
  import opened Text
  import opened Semver
  import opened Documents

  /** The command's options object; only `--patch` is consulted. */
  datatype Options = Options(patch: bool)

  /** The one error the command raises itself. */
  datatype StampError = MissingTag   // 'A tag is necessary for prerelease snapshots!'

  /** The tag with everything up to its last '/' removed, as npm rejects
      versions containing a slash: the result has no '/', and it is the
      whole tag or exactly the part after the last '/'. */
  function NormalizeTag(tag: string): (r: string)
    ensures '/' !in r
    ensures |r| <= |tag| && tag[|tag| - |r|..] == r
    ensures '/' in tag ==> |r| < |tag| && tag[|tag| - |r| - 1] == '/'
    ensures '/' !in tag ==> r == tag
  {
    if '/' in tag then LastPieceIsSuffix(tag, '/'); Last(Split(tag, '/')) else tag
  }

  /** The tag is cut right after a '/' that no later '/' follows. */
  lemma NormalizeTagAfterLastSlash(tag: string, i: nat)
    requires i < |tag| && tag[i] == '/' && '/' !in tag[i + 1..]
    ensures NormalizeTag(tag) == tag[i + 1..]
  {
    var r := NormalizeTag(tag);
    forall k | |tag| - |r| <= k < |tag| ensures tag[k] != '/' {
      assert tag[k] == r[k - (|tag| - |r|)];
    }
    forall k | i + 1 <= k < |tag| ensures tag[k] != '/' {
      assert tag[k] == tag[i + 1..][k - i - 1];
    }
  }

  /** Patch snapshot: `major.minor.buildNumber`. */
  function PatchVersion(current: Core, buildNumber: nat): string {
    FormatCore(Core(current.major, current.minor, buildNumber))
  }

  /** Pre-release snapshot: the next patch version followed by
      `-tag.buildNumber`. */
  function PrereleaseVersion(current: Core, tag: string, buildNumber: nat): string {
    FormatCore(Core(current.major, current.minor, current.patch + 1)) + "-" + tag + "." + NatToString(buildNumber)
  }

  /** The version the command computes from the current version: patch mode
      when `cmd.patch` is set, pre-release mode otherwise, which fails when
      the tag is missing or empty. */
  function NewVersion(current: Core, buildNumber: nat, tag: Option<string>, cmd: Option<Options>): (r: Result<string, StampError>)
    ensures r.Err? <==> !(cmd.Some? && cmd.value.patch) && (tag.None? || tag.value == "")
  {
    if cmd.Some? && cmd.value.patch then Ok(PatchVersion(current, buildNumber))
    else if tag.None? || tag.value == "" then Err(MissingTag)
    else Ok(PrereleaseVersion(current, NormalizeTag(tag.value), buildNumber))
  }

  /** Patch mode reads back as `major.minor.buildNumber`: major and minor
      are kept, the build number replaces the patch, and the tag plays no
      part. */
  lemma PatchModeVersion(current: Core, buildNumber: nat, tag: Option<string>, cmd: Options)
    requires cmd.patch
    ensures NewVersion(current, buildNumber, tag, Some(cmd)).Ok?
    ensures ParseVersion(NewVersion(current, buildNumber, tag, Some(cmd)).value)
            == Some(Version(Core(current.major, current.minor, buildNumber), []))
    ensures NewVersion(current, buildNumber, tag, Some(cmd)) == NewVersion(current, buildNumber, None, Some(cmd))
  {
    var c := Core(current.major, current.minor, buildNumber);
    FormatCoreParses(c);
    ParseVersionOfPlain(FormatCore(c));
  }

  /** Items 6 and 11: a patch snapshot outranks the current version
      exactly when the build number exceeds the current patch number, and is
      outranked by it exactly when the build number is smaller; so it may
      or may not have higher precedence. */
  lemma PatchModePrecedence(current: Core, buildNumber: nat, cmd: Options)
    requires cmd.patch
    ensures var r := NewVersion(current, buildNumber, None, Some(cmd));
            && r.Ok? && ParseVersion(r.value).Some?
            && (Precedes(Version(current, []), ParseVersion(r.value).value) <==> current.patch < buildNumber)
            && (Precedes(ParseVersion(r.value).value, Version(current, [])) <==> buildNumber < current.patch)
  {
    PatchModeVersion(current, buildNumber, None, cmd);
  }

  /** The text of a pre-release snapshot splits at its first hyphen into the
      next patch version and `tag.buildNumber`. */
  lemma PrereleaseVersionShape(current: Core, tag: string, buildNumber: nat)
    ensures var s := PrereleaseVersion(current, tag, buildNumber);
            var core := FormatCore(Core(current.major, current.minor, current.patch + 1));
            && IndexOf(s, "-") == Some(|core|)
            && s[..|core|] == core
            && s[|core| + 1..] == tag + "." + NatToString(buildNumber)
  {
    var core := FormatCore(Core(current.major, current.minor, current.patch + 1));
    FormatCoreHasNoHyphen(Core(current.major, current.minor, current.patch + 1));
    IndexOfHyphenAfter(core, tag + "." + NatToString(buildNumber));
    assert PrereleaseVersion(current, tag, buildNumber) == core + "-" + (tag + "." + NatToString(buildNumber));
  }

  /** A canonical numeral is a valid pre-release identifier. */
  lemma NumeralIsIdentifier(s: string)
    requires IsCanonicalNumeral(s)
    ensures IsPrereleaseIdentifier(s)
  {
  }

  /** Item 9: when the tag is made of valid pre-release identifiers, the
      pre-release snapshot is a valid pre-release version whose core is the
      next patch version and whose identifiers are the tag's followed by the
      build number. */
  lemma PrereleaseVersionParses(current: Core, tag: string, buildNumber: nat)
    requires IsPrereleaseText(tag)
    ensures ParseVersion(PrereleaseVersion(current, tag, buildNumber))
            == Some(Version(Core(current.major, current.minor, current.patch + 1),
                            Split(tag, '.') + [NatToString(buildNumber)]))
  {
    var next := Core(current.major, current.minor, current.patch + 1);
    var n := NatToString(buildNumber);
    assert PrereleaseVersion(current, tag, buildNumber) == FormatCore(next) + "-" + (tag + "." + n);
    PrereleaseSplit(tag, n);
    ParseVersionOfPrerelease(next, tag + "." + n);
  }

  /** Appending a build number to a valid tag gives valid pre-release text
      whose identifiers are the tag's followed by the number. */
  lemma PrereleaseSplit(tag: string, n: string)
    requires IsPrereleaseText(tag) && IsCanonicalNumeral(n)
    ensures Split(tag + "." + n, '.') == Split(tag, '.') + [n]
    ensures IsPrereleaseText(tag + "." + n)
  {
    SplitAround(tag, '.', n);
    NumeralHasNoSeparator(n);
    SplitWithoutSeparator(n, '.');
    NumeralIsIdentifier(n);
  }

  /** Item 11: a pre-release snapshot of a valid tag has strictly higher
      precedence than the current version, and keeps its major and minor
      numbers. */
  lemma PrereleaseOutranksCurrent(current: string, buildNumber: nat, tag: string, cmd: Option<Options>)
    requires ParseCore(current).Some?
    requires !(cmd.Some? && cmd.value.patch) && tag != ""
    requires IsPrereleaseText(NormalizeTag(tag))
    ensures ParseVersion(current) == Some(Version(ParseCore(current).value, []))
    ensures var r := NewVersion(ParseCore(current).value, buildNumber, Some(tag), cmd);
            && r.Ok? && ParseVersion(r.value).Some?
            && ParseVersion(r.value).value.core.major == ParseCore(current).value.major
            && ParseVersion(r.value).value.core.minor == ParseCore(current).value.minor
            && Precedes(ParseVersion(current).value, ParseVersion(r.value).value)
  {
    ParseVersionOfPlain(current);
    PrereleaseVersionParses(ParseCore(current).value, NormalizeTag(tag), buildNumber);
  }

  /** The tests' example of a pre-release snapshot: 1.2.3 with build
      number 4 and tag `alpha` becomes 1.2.4-alpha.4. */
  lemma PrereleaseExample()
    ensures NewVersion(Core(1, 2, 3), 4, Some("alpha"), None) == Ok("1.2.4-alpha.4")
  {
    assert NormalizeTag("alpha") == "alpha" by {
      assert forall k | 0 <= k < 5 :: "alpha"[k] != '/';
    }
    assert NatToString(4) == "4";
    FormatDigitsCore(Core(1, 2, 4));
    assert "1.2.4" + "-" + "alpha" + "." + "4" == "1.2.4-alpha.4";
  }

  /** The tests' example of a tag with slashes: `my/feature/alpha` acts as
      `alpha`, so 0.0.0 becomes 0.0.1-alpha.4. */
  lemma SlashedTagExample(tag: string)
    requires tag == "my/feature/alpha"
    ensures NewVersion(Core(0, 0, 0), 4, Some(tag), Some(Options(false))) == Ok("0.0.1-alpha.4")
  {
    assert tag[11..] == "alpha";
    NormalizeTagAfterLastSlash(tag, 10);
    assert NatToString(4) == "4";
    FormatDigitsCore(Core(0, 0, 1));
    assert PrereleaseVersion(Core(0, 0, 0), "alpha", 4) == "0.0.1-alpha.4";
  }

  /** The tests' example of a patch snapshot: 1.2.3 with build number 4
      becomes 1.2.4 whatever the tag. */
  lemma PatchExample()
    ensures NewVersion(Core(1, 2, 3), 4, Some("alpha"), Some(Options(true))) == Ok("1.2.4")
  {
    assert NatToString(4) == "4";
    FormatDigitsCore(Core(1, 2, 4));
  }

  /** The code does not check the tag again once normalised: a tag ending in
      '/' leaves an empty pre-release identifier, which item 9 forbids. */
  lemma TrailingSlashLeavesEmptyIdentifier(tag: string)
    requires tag == "release/"
    ensures NormalizeTag(tag) == ""
    ensures NewVersion(Core(1, 2, 3), 4, Some(tag), None) == Ok("1.2.4-.4")
    ensures !IsPrereleaseText(NormalizeTag(tag))
  {
    NormalizeTagAfterLastSlash(tag, 7);
    assert NormalizeTag(tag) == [];
    assert NatToString(4) == "4";
    FormatDigitsCore(Core(1, 2, 4));
    assert PrereleaseVersion(Core(1, 2, 3), [], 4) == "1.2.4-.4";
    assert Split([], '.') == [[]];
    assert !IsPrereleaseIdentifier([]);
  }

  /** The in-memory package.json of one run and what is written to disk. */
  class Stamper {
    var manifest: Manifest
    var writes: seq<Manifest>   // package.json contents written, in order

    constructor (manifest: Manifest)
      ensures this.manifest == manifest && writes == []
    {
      this.manifest := manifest;
      writes := [];
    }

    /** `action(buildNumber, tag, cmd)`: on success only the manifest's
        version changes and the whole document is written once; a missing
        tag fails before anything is changed or written. */
    method Action(buildNumber: nat, tag: Option<string>, cmd: Option<Options>) returns (r: Result<string, StampError>)
      requires ParseCore(manifest.version).Some?
      modifies this
      ensures r == NewVersion(ParseCore(old(manifest.version)).value, buildNumber, tag, cmd)
      ensures r.Err? ==> manifest == old(manifest) && writes == old(writes)
      ensures r.Ok? ==> manifest == old(manifest).(version := r.value) && writes == old(writes) + [manifest]
    {
      var current := ParseCore(manifest.version).value;
      var newVersion;
      if cmd.Some? && cmd.value.patch {
        newVersion := PatchVersion(current, buildNumber);
      } else {
        if tag.None? || tag.value == "" {
          return Err(MissingTag);
        }
        var t := tag.value;
        if '/' in t {
          t := Last(Split(t, '/'));
        }
        assert t == NormalizeTag(tag.value);
        newVersion := PrereleaseVersion(current, t, buildNumber);
      }
      manifest := manifest.(version := newVersion);
      writes := writes + [manifest];
      r := Ok(newVersion);
    }
  }
}
