# Snapshot installer and version stamper, modelled in Dafny

This project models the two commands of a small npm release helper.

- **installSnapshots** (`lib/installSnapshots.js`) reads a list of dependency
  names. For each name it asks the registry, with `npm show <name>
  dist-tags.<tag>`, which version is published under a dist-tag. It pins
  every name that has such a version in package.json, writes package.json
  when anything was pinned, and runs `npm install`. Next it runs
  `npm shrinkwrap`. Then, in npm-shrinkwrap.json, it carries the same pins
  into the nested `dependencies` map of every pinned top-level entry: the
  nested entry's `version` is replaced, and the first occurrence of the old
  version in its `from` and `resolved` is replaced. When some pinned entry
  had a nested map, it writes the lockfile and runs `npm install` again.
- **snapshotProject** (`lib/snapshotProject.js`) stamps package.json with a
  snapshot version. In patch mode the version becomes
  `major.minor.buildNumber`. In pre-release mode it becomes
  `major.minor.(patch+1)-tag.buildNumber`. A tag containing `/` is cut to
  the part after its last `/`, and a missing or empty tag is an error.

Files:

- `wrappers.dfy`: `Option` and `Result`.
- `text.dfy` (module `Text`): the JavaScript string operations the commands
  use. These are `trim`, `indexOf`, `replace` with a string pattern
  (including the `$` patterns of its replacement text), `split` on one
  character, and decimal numerals.
- `documents.dfy` (module `Documents`): package.json, npm-shrinkwrap.json
  and the log of effects (`npm` runs and file writes) in the order they
  happen.
- `semver.dfy` (module `Semver`): the part of Semantic Versioning 2.0.0 the
  stamper's comments rely on. This covers plain `X.Y.Z` versions (item 2),
  pre-release syntax (item 9) and precedence (item 11).
- `snapshot_project.dfy` (module `SnapshotProject`): the version
  computation as functions, and the class `Stamper`, whose `Action` updates
  the in-memory manifest and records the write.
- `install_snapshots.dfy` (module `InstallSnapshots`): the class
  `Installer`. It holds the in-memory manifest, the lockfile and the effect
  log. Its methods follow the source's loops. Each method is proved against
  a specification function (`PinnedBy`, `PinAll`, `Queries`,
  `RewriteHolders`, `RewriteNested`), and the lemmas state what those
  functions guarantee.

The registry is a parameter `npm: seq<string> -> QueryResult`. It gives the
answer to each `npm show` argument vector as an optional error text and the
standard output. Every child process and every file write is an `Effect`
appended to the log. The lockfile that `npm shrinkwrap` produces is a
parameter of `Installer.Action`.

Two details of the lockfile rewrite matter for its outcome:

- The flag at line 78 is set as soon as a pinned top-level entry has a
  nested `dependencies` map, even when nothing in that map matches a pin
  (`RewriteHoldersChanged`). The lockfile write and the second
  `npm install` follow that flag.
- Holders are the outer loop (line 73) and pins the inner one (line 79).
  `RewriteHolders` and `RewriteNested` follow that order.

## Model

| member | source | states |
|---|---|---|
| Text.Trim | lib/installSnapshots.js:26-31 | `String.prototype.trim`: the text between the first and the last non-whitespace character |
| Text.SkipLeading | lib/installSnapshots.js:26-31 | the index of the first non-whitespace character at or after `i`; everything skipped is whitespace |
| Text.SkipTrailing | lib/installSnapshots.js:26-31 | where a range ends once its trailing whitespace is dropped; everything dropped is whitespace |
| Text.TrimEmptyIffBlank | lib/installSnapshots.js:26-28 | `trim()` gives the empty string exactly when the text is all ECMAScript whitespace |
| Text.TrimIsInfix | lib/installSnapshots.js:31 | a non-empty `trim()` result is the part of the text from its first to its last non-whitespace character, and only whitespace is cut off |
| Text.IndexOfFrom | lib/snapshotProject.js:22 | `indexOf` returns the first position at or after `from` where the pattern occurs, or none when it never occurs there |
| Text.Substitution | lib/installSnapshots.js:84-85 | the replacement text `replace` inserts for a string pattern, expanding `$$`, `$&`, `` $` `` and `$'` |
| Text.ReplaceFirst | lib/installSnapshots.js:84-85 | `replace` with a string pattern: the first occurrence is replaced by the expanded replacement text; without an occurrence the text is returned as it is |
| Text.SubstitutionPlain | lib/installSnapshots.js:84-85 | a replacement text without `$` is inserted literally by `replace` |
| Text.ReplaceFirstCharacterized | lib/installSnapshots.js:84-85 | for a replacement text without `$` (a published version never contains one), `replace` with a string pattern changes exactly the first occurrence and keeps the rest; without an occurrence the text is unchanged |
| Text.ReplaceFirstSplice | lib/installSnapshots.js:84-85 | if the pattern first occurs right after `a` in `a + p + b`, the result is `a + rep + b` |
| Text.NoEarlierOccurrence | lib/installSnapshots.js:84-85 | when the first two characters of the pattern never meet in the text before a chosen copy of it, no earlier occurrence exists |
| Text.Split | lib/snapshotProject.js:25 | `split` returns at least one piece, and no piece contains the separator |
| Text.JoinSplit | lib/snapshotProject.js:25 | joining the pieces with the separator gives back the original text |
| Text.SplitWithoutSeparator | lib/snapshotProject.js:25 | text without the separator splits into itself alone |
| Text.SplitAround | lib/snapshotProject.js:25 | splitting `x + d + y` gives the pieces of `x` followed by the pieces of `y` |
| Text.LastPieceIsSuffix | lib/snapshotProject.js:25-26 | the last piece is a suffix of the text, preceded by the separator when the text contains one |
| Text.NatToString | lib/snapshotProject.js:16 | the decimal numeral of a number is a canonical numeral: digits only, no leading zero |
| Text.DigitsValueOfNatToString | lib/snapshotProject.js:16 | reading back the numeral of `n` gives `n` |
| Text.NatToStringOfDigitsValue | lib/snapshotProject.js:16 | a canonical numeral is the numeral of its own value |
| Semver.ParseVersion | lib/snapshotProject.js:29 | reads `X.Y.Z` or `X.Y.Z-<pre-release>`, the first hyphen ending the core, as item 9 defines them |
| Semver.Precedes | lib/snapshotProject.js:30 | precedence as item 11 defines it: cores numerically, then a pre-release before the normal version, then identifier by identifier |
| Semver.FormatCoreParses | lib/snapshotProject.js:16 | formatting `major.minor.patch` and reading it back gives the same three numbers |
| Semver.ParseCoreFormats | lib/snapshotProject.js:16 | a plain version that reads as a core is exactly that core's formatting |
| Semver.ParseVersionOfPlain | lib/snapshotProject.js:30 | a plain `X.Y.Z` reads as a version without pre-release identifiers |
| Semver.ParseVersionOfPrerelease | lib/snapshotProject.js:29-34 | a formatted core, a hyphen and valid pre-release text read as that core and the text's identifiers |
| SnapshotProject.PatchVersion | lib/snapshotProject.js:16 | the patch snapshot `major.minor.buildNumber` |
| SnapshotProject.PrereleaseVersion | lib/snapshotProject.js:34 | the pre-release snapshot `major.minor.(patch+1)-tag.buildNumber` |
| SnapshotProject.NormalizeTag | lib/snapshotProject.js:22-27 | the normalised tag has no `/`, is a suffix of the tag, follows a `/` when the tag has one, and is the tag itself otherwise |
| SnapshotProject.NormalizeTagAfterLastSlash | lib/snapshotProject.js:25-26 | the tag is cut right after its last `/` |
| SnapshotProject.NewVersion | lib/snapshotProject.js:10-21 | the command fails exactly when patch mode is off and the tag is missing or empty |
| SnapshotProject.PatchModeVersion | lib/snapshotProject.js:10-17 | patch mode always succeeds; its result reads back as `major.minor.buildNumber` with no pre-release part; the tag plays no part |
| SnapshotProject.PatchModePrecedence | lib/snapshotProject.js:11-15 | a patch snapshot outranks the current version exactly when the build number exceeds the patch, and is outranked exactly when it is smaller |
| SnapshotProject.PrereleaseVersionShape | lib/snapshotProject.js:34 | the pre-release snapshot's first hyphen ends the next patch version, and `tag.buildNumber` follows it |
| SnapshotProject.PrereleaseVersionParses | lib/snapshotProject.js:29-34 | for a valid tag, the snapshot is a valid pre-release version: core `major.minor.(patch+1)`, identifiers those of the tag followed by the build number |
| SnapshotProject.PrereleaseSplit | lib/snapshotProject.js:34 | appending `.buildNumber` to valid pre-release text appends one valid identifier |
| SnapshotProject.PrereleaseOutranksCurrent | lib/snapshotProject.js:29-34 | for a plain current version and a valid tag, the snapshot has strictly higher precedence and the same major and minor numbers |
| SnapshotProject.PrereleaseExample | spec/snapshotProject.spec.js:36-46 | 1.2.3 with build number 4 and tag `alpha` gives 1.2.4-alpha.4 |
| SnapshotProject.SlashedTagExample | spec/snapshotProject.spec.js:72-76 | 0.0.0 with build number 4 and tag `my/feature/alpha` gives 0.0.1-alpha.4 |
| SnapshotProject.PatchExample | spec/snapshotProject.spec.js:112-116 | in patch mode 1.2.3 with build number 4 gives 1.2.4 and the tag is ignored |
| SnapshotProject.TrailingSlashLeavesEmptyIdentifier | lib/snapshotProject.js:22-34 | a tag ending in `/` normalises to the empty string, which still yields a version (`1.2.4-.4`) with an empty identifier that item 9 forbids |
| SnapshotProject.Stamper.constructor | lib/snapshotProject.js:8 | the stamper starts from the loaded manifest, with nothing written |
| SnapshotProject.Stamper.Action | lib/snapshotProject.js:7-45 | the result is `NewVersion` of the current version; on failure nothing changes and nothing is written; on success only `version` changes and the whole manifest is written once |
| InstallSnapshots.Lookup | lib/installSnapshots.js:26-31 | the three outcomes of a query: a non-blank error, else blank output, else the trimmed output as the version |
| InstallSnapshots.LookupPublishedIff | lib/installSnapshots.js:26-31 | a query yields a version exactly when its error is absent or blank and its output is not blank |
| InstallSnapshots.LookupVersionIsTrimmedOutput | lib/installSnapshots.js:31 | the version is the query output without surrounding whitespace: non-empty, with whitespace only outside it |
| InstallSnapshots.Pin | lib/installSnapshots.js:25-38 | one step of the query loop: a published version appends `{name, version}` to `modified`, any other outcome leaves it |
| InstallSnapshots.PinnedBy | lib/installSnapshots.js:24-38 | `modified` after querying the names in order |
| InstallSnapshots.Queries | lib/installSnapshots.js:25 | the `npm show` runs issued for the names, in order |
| InstallSnapshots.PinAll | lib/installSnapshots.js:33 | the manifest's dependencies after each record of `modified` overwrote its name's constraint |
| InstallSnapshots.Names | lib/installSnapshots.js:34-37 | the names of the `modified` records, position by position |
| InstallSnapshots.QueriesInOrder | lib/installSnapshots.js:24-25 | one `npm show <name> dist-tags.<tag>` per name, in input order, with the tag unmodified |
| InstallSnapshots.PinnedByIff | lib/installSnapshots.js:24-38 | a name is in `modified` exactly when it was queried and its query published a version; each record carries that version |
| InstallSnapshots.PinnedByAppend | lib/installSnapshots.js:24-39 | names are handled one at a time in order: the records for `a + b` are those for `a` followed by those for `b` |
| InstallSnapshots.PinAllPins | lib/installSnapshots.js:33 | every name whose query published a version maps to that version in the manifest, whatever its constraint before |
| InstallSnapshots.ModifiedMatchesManifest | lib/installSnapshots.js:31-37 | every `modified` record's version is its name's new constraint in the manifest |
| InstallSnapshots.PinAllKeepsOthers | lib/installSnapshots.js:24-39 | every other name keeps its constraint or stays absent |
| InstallSnapshots.Retargeted | lib/installSnapshots.js:82-85 | a rewritten entry carries the new version and keeps its own children, its other fields, and whether it has `from` and `resolved` |
| InstallSnapshots.RetargetSplicesVersion | lib/installSnapshots.js:82-85 | when the old version first occurs after `a` in `from` and after `c` in `resolved`, the new version takes exactly those places |
| InstallSnapshots.RewriteEntry | lib/installSnapshots.js:82-85 | one matched nested entry: retargeted when it has `from` and `resolved`, an error otherwise |
| InstallSnapshots.RewriteKey | lib/installSnapshots.js:80-87 | the walk over a nested map's keys for one pin: the entry named like the pin, if any, is rewritten |
| InstallSnapshots.RewriteNested | lib/installSnapshots.js:79-88 | one holder's nested map rewritten for every pin in order, stopping at the first error |
| InstallSnapshots.RewriteHolder | lib/installSnapshots.js:75-89 | one holder: a missing top-level entry is an error; a nested map is rewritten and sets the flag |
| InstallSnapshots.RewriteHolders | lib/installSnapshots.js:73-90 | every holder in order, stopping at the first error |
| InstallSnapshots.LockfileExample | spec/installSnapshots.spec.js:235-267 | the nested `dep1` entry at 1.1.0 pinned to 1.1.1-alpha.1 gets `dep1@>=1.1.1-alpha.1 <2.0.0` and `http://my.npm.repo/dep1/-/dep1-1.1.1-alpha.1.tgz` |
| InstallSnapshots.RewriteHoldersErrorSticks | lib/installSnapshots.js:73-90 | once a holder fails, the whole pass fails with that error |
| InstallSnapshots.RewriteNestedErrorSticks | lib/installSnapshots.js:79-88 | once a pin's rewrite fails, the holder's rewrite fails with that error |
| InstallSnapshots.PinFor | lib/installSnapshots.js:80-81 | a nested key is matched exactly when some pin has that name |
| InstallSnapshots.RewriteNestedCharacterized | lib/installSnapshots.js:79-88 | a holder's nested rewrite succeeds exactly when every matched entry has `from` and `resolved`; then matched entries carry their pin's version, and unmatched ones are untouched |
| InstallSnapshots.RewriteNestedIsRetargeted | lib/installSnapshots.js:79-88 | with distinct pins, the nested rewrite equals retargeting every matched entry at once |
| InstallSnapshots.RewriteTransitives | lib/installSnapshots.js:79-88 | the source's loop over pins and nested keys computes `RewriteNested`, including its failure |
| InstallSnapshots.RewriteHoldersFrame | lib/installSnapshots.js:73-90 | after a successful pass, only the nested maps of pinned holders change, only one level deep, and every other top-level entry is untouched |
| InstallSnapshots.RewriteHoldersChanged | lib/installSnapshots.js:71-78 | the flag is set exactly when some pinned holder has a nested map, whether or not anything in it was rewritten |
| InstallSnapshots.RewriteHoldersSucceedsIff | lib/installSnapshots.js:73-90 | the pass succeeds exactly when every pinned name has a top-level entry and every matched nested entry has `from` and `resolved` |
| InstallSnapshots.RewriteHoldersIsRetargeted | lib/installSnapshots.js:73-90 | with distinct names, a successful pass equals retargeting the nested maps of all pinned holders at once |
| InstallSnapshots.Installer.constructor | lib/installSnapshots.js:19 | the installer starts from the loaded documents with no effects |
| InstallSnapshots.Installer.UpdateChildDependencies | lib/installSnapshots.js:18-58 | the queries in order; `modified` is `PinnedBy`; the manifest gets `PinAll` of it and nothing else; package.json is written only if `modified` is non-empty, and always before `npm install`, which always runs |
| InstallSnapshots.Installer.UpdateTransitiveDependencies | lib/installSnapshots.js:68-104 | the lockfile becomes `RewriteHolders`; a failure has no effects; otherwise the lockfile is written and `npm install` runs exactly when the flag is set |
| InstallSnapshots.Installer.Action | lib/installSnapshots.js:7-16 | pinning, then `npm shrinkwrap`, then the lockfile rewrite over the regenerated lockfile with the same `modified` list |

## Left out

- Child processes (`spawn`, `spawnSync`), their `close` events and the promise chain are not modelled as such. Each run is an `Npm` effect in the log, in the order the source starts them, and the registry's answers are the `npm` parameter.
- The exit status of `npm install` and `npm shrinkwrap` is not modelled, because the source never reads it.
- A rejected promise from `updateChildDependencies` cannot arise in the model. The source only throws there on a file-system failure, and file I/O is not modelled.
- File reading through `require`, its module cache, and `JSON.stringify(…, null, 2)` pretty-printing are left out. A write is the whole in-memory document appended to the log.
- Console output, `chalk` colouring and the `description` help strings are left out, because they carry no behaviour.
- index.js is not part of this model; it only wires the two commands to the command line.
- `generateShrinkwrap` appears only as the `Npm(["shrinkwrap"], false)` effect. The lockfile it produces is the `shrinkwrapped` parameter of `Installer.Action`.
- The query's error is modelled as the text of its `toString()`, and its output as text. A missing `stdout` would make the source throw, and is not modelled.
- A manifest without `dependencies` or a lockfile without top-level `dependencies` would make the source throw on first use. Both are modelled as always present.
- InstallSnapshots.Installer.UpdateTransitiveDependencies: on a thrown error, the source may already have changed earlier entries in memory. The model states only that nothing is written and nothing is run. The in-memory document is discarded in that case.
- SnapshotProject.Stamper.Action: requires the current version to be a plain `X.Y.Z`. The `semver` library is not part of this model, so its behaviour on pre-release, build-metadata or invalid versions is not captured (for example `semver.inc` returning `null`).
- SnapshotProject.Stamper.Action: the build number is a natural number. The source inserts whatever text the command line gives it, verbatim.
- Build metadata (Semantic Versioning item 10) is not modelled, because neither command produces it.
- The textual replacement in `from` and `resolved` can hit an earlier, unrelated occurrence of the old version. `Text.ReplaceFirstCharacterized` states which occurrence is replaced, for every replacement text without `$`, which a published version never contains.
- Numbers are unbounded. `semver.major` and `semver.minor` return JavaScript numbers, so the source is exact only up to 2^53 - 1, while `Semver.ParseCore` accepts numerals of any length. `Documents.Json` holds numbers as integers, so a carried field such as `1.5` is not representable; such fields are never read by either command.
