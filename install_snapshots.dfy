/** The `installSnapshots` command (lib/installSnapshots.js): pins the
    listed dependencies of package.json to the versions published under a
    dist-tag, and carries the same pins into the one level of transitive
    entries of npm-shrinkwrap.json. */
module InstallSnapshots {
  import opened Wrappers
  import opened Text
  import opened Documents

  // ---------------------------------------------------------------------
  // Dist-tag queries (lines 24-38)
  // ---------------------------------------------------------------------

  /** What `spawnSync` returns for one query: an optional error and the
      standard output. */
  datatype QueryResult = QueryResult(error: Option<string>, stdout: string)

  /** The three outcomes of a query. */
  datatype TagLookup = LookupFailed(message: string) | NoVersion | Published(version: string)

  /** A dependency pinned this run, as pushed onto `modified`. */
  datatype ModifiedDependency = ModifiedDependency(name: string, version: string)

  /** The arguments of `npm show <name> dist-tags.<tag>`; the tag is passed
      as it is, slashes included. */
  function ShowArgs(name: string, tag: string): seq<string> {
    ["show", name, "dist-tags." + tag]
  }

  /** Classifies a query result: a non-blank error wins, then blank output
      means no version, otherwise the trimmed output is the version. */
  function Lookup(q: QueryResult): TagLookup {
    if q.error.Some? && Trim(q.error.value) != [] then LookupFailed(Trim(q.error.value))
    else if Trim(q.stdout) == [] then NoVersion
    else Published(Trim(q.stdout))
  }

  /** A query publishes a version exactly when its error is absent or blank
      and its output is not blank. */
  lemma LookupPublishedIff(q: QueryResult)
    ensures Lookup(q).Published? <==> (q.error.None? || Blank(q.error.value)) && !Blank(q.stdout)
  {
    if q.error.Some? {
      TrimEmptyIffBlank(q.error.value);
    }
    TrimEmptyIffBlank(q.stdout);
  }

  /** A published version is the query's output without its surrounding
      whitespace: non-empty, starting and ending with non-whitespace, and
      what is cut off on either side is whitespace. */
  lemma LookupVersionIsTrimmedOutput(q: QueryResult)
    requires Lookup(q).Published?
    ensures var v := Lookup(q).version;
            var k := SkipLeading(q.stdout, 0);
            && v != [] && !IsWhitespace(v[0]) && !IsWhitespace(v[|v| - 1])
            && k + |v| <= |q.stdout| && v == q.stdout[k..k + |v|]
            && (forall i :: 0 <= i < k ==> IsWhitespace(q.stdout[i]))
            && (forall i :: k + |v| <= i < |q.stdout| ==> IsWhitespace(q.stdout[i]))
  {
    TrimIsInfix(q.stdout);
  }

  /** The names of a list of pinned dependencies, in order. */
  function Names(mods: seq<ModifiedDependency>): (r: seq<string>)
    ensures |r| == |mods| && forall i :: 0 <= i < |mods| ==> r[i] == mods[i].name
  {
    if mods == [] then [] else Names(mods[..|mods| - 1]) + [Last(mods).name]
  }

  /** The `modified` list after querying `names` in order: one record per
      name whose query published a version. */
  function PinnedBy(names: seq<string>, tag: string, npm: seq<string> -> QueryResult): seq<ModifiedDependency> {
    if names == [] then [] else Pin(PinnedBy(names[..|names| - 1], tag, npm), Last(names), tag, npm)
  }

  /** One step of the query loop: a published version appends a record. */
  function Pin(pinned: seq<ModifiedDependency>, name: string, tag: string, npm: seq<string> -> QueryResult): seq<ModifiedDependency> {
    match Lookup(npm(ShowArgs(name, tag)))
    case Published(v) => pinned + [ModifiedDependency(name, v)]
    case _ => pinned
  }

  /** The queries issued for `names`, in order: one `npm show` per name. */
  function Queries(names: seq<string>, tag: string): seq<Effect> {
    if names == [] then [] else Queries(names[..|names| - 1], tag) + [Npm(ShowArgs(Last(names), tag), true)]
  }

  /** Each name is queried exactly once, in input order, with the tag
      passed as it is. */
  lemma {:induction false} QueriesInOrder(names: seq<string>, tag: string)
    ensures |Queries(names, tag)| == |names|
    ensures forall i :: 0 <= i < |names| ==> Queries(names, tag)[i] == Npm(["show", names[i], "dist-tags." + tag], true)
  {
    if names != [] {
      QueriesInOrder(names[..|names| - 1], tag);
    }
  }

  /** The manifest's dependencies after each pin overwrote its constraint. */
  function PinAll(deps: map<string, string>, mods: seq<ModifiedDependency>): map<string, string> {
    if mods == [] then deps else PinAll(deps, mods[..|mods| - 1])[Last(mods).name := Last(mods).version]
  }

  /** A name is pinned exactly when it is one of the queried names and its
      query published a version; every record carries that version. */
  lemma {:induction false} PinnedByIff(names: seq<string>, tag: string, npm: seq<string> -> QueryResult)
    ensures forall n :: n in Names(PinnedBy(names, tag, npm)) <==> n in names && Lookup(npm(ShowArgs(n, tag))).Published?
    ensures forall m :: m in PinnedBy(names, tag, npm) ==> Lookup(npm(ShowArgs(m.name, tag))) == Published(m.version)
  {
    if names != [] {
      var init := names[..|names| - 1];
      PinnedByIff(init, tag, npm);
      assert names == init + [Last(names)];
      var pinned := PinnedBy(init, tag, npm);
      match Lookup(npm(ShowArgs(Last(names), tag)))
      case Published(v) =>
        var m := ModifiedDependency(Last(names), v);
        assert (pinned + [m])[..|pinned|] == pinned;
        assert Names(pinned + [m]) == Names(pinned) + [Last(names)];
      case _ =>
    }
  }

  /** Names are handled one at a time in input order: querying `a` then `b`
      pins what querying `a` pins followed by what querying `b` pins. */
  lemma {:induction false} PinnedByAppend(a: seq<string>, b: seq<string>, tag: string, npm: seq<string> -> QueryResult)
    ensures PinnedBy(a + b, tag, npm) == PinnedBy(a, tag, npm) + PinnedBy(b, tag, npm)
    decreases |b|
  {
    if b == [] {
      assert a + b == a;
    } else {
      var init := b[..|b| - 1];
      var x := Last(b);
      PinnedByAppend(a, init, tag, npm);
      assert (a + b)[..|a + b| - 1] == a + init;
      assert Last(a + b) == x;
      var p, q := PinnedBy(a, tag, npm), PinnedBy(init, tag, npm);
      assert PinnedBy(a + b, tag, npm) == Pin(p + q, x, tag, npm);
      assert PinnedBy(b, tag, npm) == Pin(q, x, tag, npm);
      match Lookup(npm(ShowArgs(x, tag)))
      case Published(v) =>
        assert (p + q) + [ModifiedDependency(x, v)] == p + (q + [ModifiedDependency(x, v)]);
      case _ =>
    }
  }

  /** The query for `name` published a version under `tag`. */
  predicate Publishes(name: string, tag: string, npm: seq<string> -> QueryResult) {
    Lookup(npm(ShowArgs(name, tag))).Published?
  }

  /** One query's effect on the manifest's dependencies. */
  lemma PinAllStep(deps: map<string, string>, names: seq<string>, tag: string, npm: seq<string> -> QueryResult)
    requires names != []
    ensures var x := Last(names);
            var before := PinAll(deps, PinnedBy(names[..|names| - 1], tag, npm));
            PinAll(deps, PinnedBy(names, tag, npm))
              == if Publishes(x, tag, npm) then before[x := Lookup(npm(ShowArgs(x, tag))).version] else before
  {
    var pinned := PinnedBy(names[..|names| - 1], tag, npm);
    var x := Last(names);
    if Publishes(x, tag, npm) {
      PinAllAppend(deps, pinned, ModifiedDependency(x, Lookup(npm(ShowArgs(x, tag))).version));
    }
  }

  /** After pinning, each name whose query published a version maps to
      that version, whatever constraint it had before. */
  lemma {:induction false} PinAllPins(deps: map<string, string>, names: seq<string>, tag: string, npm: seq<string> -> QueryResult)
    ensures var after := PinAll(deps, PinnedBy(names, tag, npm));
            forall n :: n in names && Publishes(n, tag, npm) ==>
              n in after && after[n] == Lookup(npm(ShowArgs(n, tag))).version
  {
    if names != [] {
      var init := names[..|names| - 1];
      var x := Last(names);
      assert names == init + [x];
      PinAllPins(deps, init, tag, npm);
      PinAllStep(deps, names, tag, npm);
      var after := PinAll(deps, PinnedBy(names, tag, npm));
      forall n | n in names && Publishes(n, tag, npm)
        ensures n in after && after[n] == Lookup(npm(ShowArgs(n, tag))).version
      {
        if n != x { assert n in init; }
      }
    }
  }

  /** Each record of `modified` carries the version its name now has in
      the manifest. */
  lemma ModifiedMatchesManifest(deps: map<string, string>, names: seq<string>, tag: string, npm: seq<string> -> QueryResult)
    ensures var after := PinAll(deps, PinnedBy(names, tag, npm));
            forall m :: m in PinnedBy(names, tag, npm) ==> m.name in after && after[m.name] == m.version
  {
    PinnedByIff(names, tag, npm);
    PinAllPins(deps, names, tag, npm);
    forall m | m in PinnedBy(names, tag, npm) ensures m.name in names {
      assert m.name in Names(PinnedBy(names, tag, npm)) by {
        var i :| 0 <= i < |PinnedBy(names, tag, npm)| && PinnedBy(names, tag, npm)[i] == m;
        assert Names(PinnedBy(names, tag, npm))[i] == m.name;
      }
    }
  }

  /** Pinning leaves every other name as it was: its constraint kept, or
      still absent. */
  lemma {:induction false} PinAllKeepsOthers(deps: map<string, string>, names: seq<string>, tag: string, npm: seq<string> -> QueryResult)
    ensures var after := PinAll(deps, PinnedBy(names, tag, npm));
            forall n :: !(n in names && Publishes(n, tag, npm)) ==>
              (n in after <==> n in deps) && (n in deps ==> after[n] == deps[n])
  {
    if names != [] {
      var init := names[..|names| - 1];
      assert names == init + [Last(names)];
      PinAllKeepsOthers(deps, init, tag, npm);
      PinAllStep(deps, names, tag, npm);
    }
  }

  // ---------------------------------------------------------------------
  // Lockfile rewriting (lines 68-104)
  // ---------------------------------------------------------------------

  /** Why `updateTransitiveDependencies` throws: a pinned name with no
      top-level lockfile entry (line 75), or a matched nested entry without
      `from` or `resolved` (lines 84-85). */
  datatype LockError = MissingEntry(name: string) | MissingProvenance(name: string)

  /** What `updateTransitiveDependencies` ends with. */
  datatype TransitiveOutcome = Unchanged | Rewritten | Failed(error: LockError)

  /** The old version as the `replace` calls receive it: a missing version
      is converted to the text "undefined". */
  function VersionText(v: Option<string>): string {
    match v
    case Some(s) => s
    case None => "undefined"
  }

  /** An entry moved to `version`: the version replaced, and the first
      occurrence of the old version in `from` and `resolved` replaced.
      Deeper dependencies and all other fields are kept. */
  function Retargeted(e: LockEntry, version: string): (r: LockEntry)
    ensures r.version == Some(version)
    ensures r.dependencies == e.dependencies && r.otherFields == e.otherFields
    ensures r.from.Some? == e.from.Some? && r.resolved.Some? == e.resolved.Some?
  {
    var previous := VersionText(e.version);
    e.(version := Some(version),
       from := if e.from.Some? then Some(ReplaceFirst(e.from.value, previous, version)) else None,
       resolved := if e.resolved.Some? then Some(ReplaceFirst(e.resolved.value, previous, version)) else None)
  }

  /** The entry carries the fields the rewrite reads. */
  predicate HasProvenance(e: LockEntry) {
    e.from.Some? && e.resolved.Some?
  }

  /** Lines 82-85 on one nested entry: fails when `from` or `resolved` is
      missing. */
  function RewriteEntry(e: LockEntry, pin: ModifiedDependency): Result<LockEntry, LockError> {
    if HasProvenance(e) then Ok(Retargeted(e, pin.version)) else Err(MissingProvenance(pin.name))
  }

  /** Lines 80-87 for one pin: the nested entry named like the pin, if any,
      is rewritten. */
  function RewriteKey(nested: map<string, LockEntry>, pin: ModifiedDependency): Result<map<string, LockEntry>, LockError> {
    if pin.name !in nested then Ok(nested)
    else
      match RewriteEntry(nested[pin.name], pin)
      case Err(e) => Err(e)
      case Ok(entry) => Ok(nested[pin.name := entry])
  }

  /** Lines 79-88: one holder's nested map rewritten for every pin in
      order. */
  function RewriteNested(nested: map<string, LockEntry>, pins: seq<ModifiedDependency>): Result<map<string, LockEntry>, LockError> {
    if pins == [] then Ok(nested)
    else
      match RewriteNested(nested, pins[..|pins| - 1])
      case Err(e) => Err(e)
      case Ok(m) => RewriteKey(m, Last(pins))
  }

  /** The top-level entries and the "changed" flag after some holders. */
  datatype Pass = Pass(deps: map<string, LockEntry>, changed: bool)

  /** Lines 75-89 for one holder: a missing top-level entry throws; an entry
      with a nested map sets the flag, whether or not anything in it is
      rewritten. */
  function RewriteHolder(p: Pass, holder: string, pins: seq<ModifiedDependency>): Result<Pass, LockError> {
    if holder !in p.deps then Err(MissingEntry(holder))
    else
      match p.deps[holder].dependencies
      case None => Ok(p)
      case Some(nested) =>
        match RewriteNested(nested, pins)
        case Err(e) => Err(e)
        case Ok(m) => Ok(Pass(p.deps[holder := p.deps[holder].(dependencies := Some(m))], true))
  }

  /** Lines 73-90: every holder in order, stopping at the first error. */
  function RewriteHolders(deps: map<string, LockEntry>, holders: seq<ModifiedDependency>, pins: seq<ModifiedDependency>): Result<Pass, LockError> {
    if holders == [] then Ok(Pass(deps, false))
    else
      match RewriteHolders(deps, holders[..|holders| - 1], pins)
      case Err(e) => Err(e)
      case Ok(p) => RewriteHolder(p, Last(holders).name, pins)
  }

  /** Once a prefix of the holders fails, the whole pass fails the same
      way. */
  lemma {:induction false} RewriteHoldersErrorSticks(deps: map<string, LockEntry>, holders: seq<ModifiedDependency>, pins: seq<ModifiedDependency>, i: nat, e: LockError)
    requires i <= |holders| && RewriteHolders(deps, holders[..i], pins) == Err(e)
    ensures RewriteHolders(deps, holders, pins) == Err(e)
    decreases |holders| - i
  {
    if i < |holders| {
      assert holders[..i + 1][..i] == holders[..i];
      RewriteHoldersErrorSticks(deps, holders, pins, i + 1, e);
    } else {
      assert holders[..i] == holders;
    }
  }

  /** Once a prefix of the pins fails, the whole nested rewrite fails the
      same way. */
  lemma {:induction false} RewriteNestedErrorSticks(nested: map<string, LockEntry>, pins: seq<ModifiedDependency>, i: nat, e: LockError)
    requires i <= |pins| && RewriteNested(nested, pins[..i]) == Err(e)
    ensures RewriteNested(nested, pins) == Err(e)
    decreases |pins| - i
  {
    if i < |pins| {
      assert pins[..i + 1][..i] == pins[..i];
      RewriteNestedErrorSticks(nested, pins, i + 1, e);
    } else {
      assert pins[..i] == pins;
    }
  }

  /** The version the last pin named `name` carries, if any pin is named so. */
  function PinFor(name: string, pins: seq<ModifiedDependency>): (r: Option<string>)
    ensures r.Some? <==> name in Names(pins)
  {
    if pins == [] then None
    else if Last(pins).name == name then Some(Last(pins).version)
    else
      assert Names(pins) == Names(pins[..|pins| - 1]) + [Last(pins).name];
      PinFor(name, pins[..|pins| - 1])
  }

  /** Every nested entry some pin names carries `from` and `resolved`. */
  predicate Rewritable(nested: map<string, LockEntry>, pins: seq<ModifiedDependency>) {
    forall n :: n in nested && PinFor(n, pins).Some? ==> HasProvenance(nested[n])
  }

  /** How a nested map may differ after the rewrite: same names; an entry
      some pin names carries that pin's version, `from` and `resolved`, and
      its own children and other fields unchanged; every other entry is
      untouched. */
  predicate RetargetFrame(before: map<string, LockEntry>, after: map<string, LockEntry>, pins: seq<ModifiedDependency>) {
    && after.Keys == before.Keys
    && forall n :: n in before ==>
         if PinFor(n, pins).Some? then
           && after[n].version == PinFor(n, pins)
           && HasProvenance(after[n])
           && after[n].dependencies == before[n].dependencies
           && after[n].otherFields == before[n].otherFields
         else after[n] == before[n]
  }

  /** One holder's nested rewrite succeeds exactly when every entry a pin
      names has `from` and `resolved`, and then it stays within
      `RetargetFrame`. */
  lemma {:induction false} RewriteNestedCharacterized(nested: map<string, LockEntry>, pins: seq<ModifiedDependency>)
    ensures RewriteNested(nested, pins).Ok? <==> Rewritable(nested, pins)
    ensures RewriteNested(nested, pins).Ok? ==> RetargetFrame(nested, RewriteNested(nested, pins).value, pins)
  {
    if pins != [] {
      var init := pins[..|pins| - 1];
      var pin := Last(pins);
      RewriteNestedCharacterized(nested, init);
      match RewriteNested(nested, init)
      case Err(_) =>
        var n :| n in nested && PinFor(n, init).Some? && !HasProvenance(nested[n]);
        assert PinFor(n, pins).Some?;
      case Ok(m0) =>
        if pin.name in nested {
          var e0 := m0[pin.name];
          assert HasProvenance(e0) <==> HasProvenance(nested[pin.name]);
          if HasProvenance(e0) {
            var m := m0[pin.name := Retargeted(e0, pin.version)];
            assert RewriteNested(nested, pins) == Ok(m);
            forall n | n in nested && PinFor(n, pins).Some? ensures HasProvenance(nested[n]) {
              if n != pin.name { assert PinFor(n, init).Some?; }
            }
          } else {
            assert PinFor(pin.name, pins).Some?;
          }
        } else {
          assert RewriteNested(nested, pins) == Ok(m0);
          forall n | n in nested && PinFor(n, pins).Some? ensures HasProvenance(nested[n]) {
            assert PinFor(n, init).Some?;
          }
        }
    }
  }

  /** The nested map every pin moved to its version at once, an
      independent statement of lines 79-88 when no name is pinned twice. */
  function RetargetedNested(nested: map<string, LockEntry>, pins: seq<ModifiedDependency>): map<string, LockEntry> {
    map n | n in nested :: if PinFor(n, pins).Some? then Retargeted(nested[n], PinFor(n, pins).value) else nested[n]
  }

  /** The names are pairwise different. */
  predicate Distinct(names: seq<string>) {
    forall i, j :: 0 <= i < j < |names| ==> names[i] != names[j]
  }

  /** When no name is pinned twice, a successful nested rewrite is exactly
      `RetargetedNested`. */
  lemma {:induction false} RewriteNestedIsRetargeted(nested: map<string, LockEntry>, pins: seq<ModifiedDependency>)
    requires Distinct(Names(pins)) && RewriteNested(nested, pins).Ok?
    ensures RewriteNested(nested, pins).value == RetargetedNested(nested, pins)
  {
    if pins != [] {
      var init := pins[..|pins| - 1];
      var pin := Last(pins);
      DistinctPrefix(pins);
      RewriteNestedIsRetargeted(nested, init);
      RetargetedNestedStep(nested, pins);
      if pin.name in nested {
        assert RewriteNested(nested, init).value[pin.name] == nested[pin.name];
      }
    }
  }

  /** Without its last element a list of distinct names stays distinct, and
      does not hold the last name. */
  lemma DistinctPrefix(mods: seq<ModifiedDependency>)
    requires mods != [] && Distinct(Names(mods))
    ensures Distinct(Names(mods[..|mods| - 1])) && Last(mods).name !in Names(mods[..|mods| - 1])
  {
    var init := mods[..|mods| - 1];
    var ns, ni := Names(mods), Names(init);
    forall i | 0 <= i < |ni| ensures ni[i] == ns[i] {
      assert init[i] == mods[i];
    }
    forall i, j | 0 <= i < j < |ni| ensures ni[i] != ni[j] {
      assert ni[i] == ns[i] && ni[j] == ns[j];
    }
    forall i | 0 <= i < |ni| ensures ni[i] != Last(mods).name {
      assert ns[|ns| - 1] == Last(mods).name && ni[i] == ns[i];
    }
  }

  /** One more pin, not named before, retargets at most the one entry it
      names. */
  lemma RetargetedNestedStep(nested: map<string, LockEntry>, pins: seq<ModifiedDependency>)
    requires pins != [] && Last(pins).name !in Names(pins[..|pins| - 1])
    ensures var init := pins[..|pins| - 1];
            var pin := Last(pins);
            RetargetedNested(nested, pins)
              == if pin.name in nested
                 then RetargetedNested(nested, init)[pin.name := Retargeted(nested[pin.name], pin.version)]
                 else RetargetedNested(nested, init)
  {
    var init := pins[..|pins| - 1];
    var pin := Last(pins);
    forall n | n in nested && n != pin.name ensures PinFor(n, pins) == PinFor(n, init) {
    }
    assert PinFor(pin.name, pins) == Some(pin.version);
  }

  /** The holder has a top-level entry with a nested map. */
  predicate HasNested(deps: map<string, LockEntry>, name: string) {
    name in deps && deps[name].dependencies.Some?
  }

  /** How the top-level entries may differ after the pass: same names; a
      holder with a nested map keeps every field but that map, which stays
      within `RetargetFrame`; every other entry is untouched. */
  predicate PassFrame(before: map<string, LockEntry>, after: map<string, LockEntry>, holders: seq<string>, pins: seq<ModifiedDependency>) {
    && after.Keys == before.Keys
    && forall k :: k in before ==>
         if k in holders && before[k].dependencies.Some? then
           && after[k].dependencies.Some?
           && after[k] == before[k].(dependencies := after[k].dependencies)
           && RetargetFrame(before[k].dependencies.value, after[k].dependencies.value, pins)
         else after[k] == before[k]
  }

  /** After a successful pass the entries stay within `PassFrame`. */
  lemma {:induction false} RewriteHoldersFrame(deps: map<string, LockEntry>, holders: seq<ModifiedDependency>, pins: seq<ModifiedDependency>)
    requires RewriteHolders(deps, holders, pins).Ok?
    ensures PassFrame(deps, RewriteHolders(deps, holders, pins).value.deps, Names(holders), pins)
  {
    if holders != [] {
      var init := holders[..|holders| - 1];
      var h := Last(holders).name;
      assert Names(holders) == Names(init) + [h];
      RewriteHoldersFrame(deps, init, pins);
      var p0 := RewriteHolders(deps, init, pins).value;
      if HasNested(deps, h) {
        var nested := p0.deps[h].dependencies.value;
        RewriteNestedCharacterized(nested, pins);
        PassFrameStep(deps, p0.deps, Names(init), h, pins, RewriteNested(nested, pins).value);
      }
    }
  }

  /** Rewriting the nested map of one more holder stays within the frame
      of the longer holder list. */
  lemma PassFrameStep(deps: map<string, LockEntry>, mid: map<string, LockEntry>, names: seq<string>, h: string, pins: seq<ModifiedDependency>, m: map<string, LockEntry>)
    requires PassFrame(deps, mid, names, pins) && HasNested(deps, h)
    requires RetargetFrame(mid[h].dependencies.value, m, pins)
    ensures PassFrame(deps, mid[h := mid[h].(dependencies := Some(m))], names + [h], pins)
  {
    var after := mid[h := mid[h].(dependencies := Some(m))];
    forall k | k in deps
      ensures if k in names + [h] && deps[k].dependencies.Some? then
                && after[k].dependencies.Some?
                && after[k] == deps[k].(dependencies := after[k].dependencies)
                && RetargetFrame(deps[k].dependencies.value, after[k].dependencies.value, pins)
              else after[k] == deps[k]
    {
      if k == h && h in names {
        RetargetFrameTrans(deps[h].dependencies.value, mid[h].dependencies.value, m, pins);
      }
    }
  }

  /** Two rewrites in a row stay within the frame of one. */
  lemma RetargetFrameTrans(a: map<string, LockEntry>, b: map<string, LockEntry>, c: map<string, LockEntry>, pins: seq<ModifiedDependency>)
    requires RetargetFrame(a, b, pins) && RetargetFrame(b, c, pins)
    ensures RetargetFrame(a, c, pins)
  {
  }

  /** After a successful pass the flag is set exactly when some holder has
      a nested map, whether or not any entry in it was rewritten. */
  lemma {:induction false} RewriteHoldersChanged(deps: map<string, LockEntry>, holders: seq<ModifiedDependency>, pins: seq<ModifiedDependency>)
    requires RewriteHolders(deps, holders, pins).Ok?
    ensures RewriteHolders(deps, holders, pins).value.changed <==> exists h :: h in Names(holders) && HasNested(deps, h)
  {
    if holders != [] {
      var init := holders[..|holders| - 1];
      var h := Last(holders).name;
      assert Names(holders) == Names(init) + [h];
      RewriteHoldersChanged(deps, init, pins);
      RewriteHoldersFrame(deps, init, pins);
      var p0 := RewriteHolders(deps, init, pins).value;
      if HasNested(deps, h) {
        assert p0.deps[h].dependencies.Some?;
        assert RewriteHolders(deps, holders, pins).value.changed;
      } else {
        assert p0.deps[h] == deps[h];
        assert RewriteHolders(deps, holders, pins).value == p0;
      }
    }
  }

  /** A pass succeeds exactly when every holder has a top-level entry and,
      in the nested map of each holder that has one, every entry a pin
      names carries `from` and `resolved`. */
  lemma {:induction false} RewriteHoldersSucceedsIff(deps: map<string, LockEntry>, holders: seq<ModifiedDependency>, pins: seq<ModifiedDependency>)
    ensures RewriteHolders(deps, holders, pins).Ok? <==>
              && (forall h :: h in Names(holders) ==> h in deps)
              && (forall h :: h in Names(holders) && HasNested(deps, h) ==> Rewritable(deps[h].dependencies.value, pins))
  {
    if holders != [] {
      var init := holders[..|holders| - 1];
      var h := Last(holders).name;
      assert Names(holders) == Names(init) + [h];
      RewriteHoldersSucceedsIff(deps, init, pins);
      if RewriteHolders(deps, init, pins).Ok? {
        RewriteHoldersFrame(deps, init, pins);
        var p0 := RewriteHolders(deps, init, pins).value;
        if HasNested(deps, h) {
          var nested := p0.deps[h].dependencies.value;
          RewriteNestedCharacterized(nested, pins);
          if h in Names(init) {
            assert Rewritable(nested, pins);
          } else {
            assert nested == deps[h].dependencies.value;
          }
        }
      }
    }
  }

  /** The top-level entries with every holder's nested map moved to the
      pinned versions at once. */
  function RetargetedLock(deps: map<string, LockEntry>, holders: seq<string>, pins: seq<ModifiedDependency>): map<string, LockEntry> {
    map k | k in deps ::
      if k in holders && deps[k].dependencies.Some?
      then deps[k].(dependencies := Some(RetargetedNested(deps[k].dependencies.value, pins)))
      else deps[k]
  }

  /** When no name appears twice, a successful pass is exactly
      `RetargetedLock`. */
  lemma {:induction false} RewriteHoldersIsRetargeted(deps: map<string, LockEntry>, holders: seq<ModifiedDependency>, pins: seq<ModifiedDependency>)
    requires Distinct(Names(holders)) && Distinct(Names(pins)) && RewriteHolders(deps, holders, pins).Ok?
    ensures RewriteHolders(deps, holders, pins).value.deps == RetargetedLock(deps, Names(holders), pins)
  {
    if holders != [] {
      var init := holders[..|holders| - 1];
      var h := Last(holders).name;
      assert Names(holders) == Names(init) + [h];
      DistinctPrefix(holders);
      RewriteHoldersIsRetargeted(deps, init, pins);
      RetargetedLockStep(deps, Names(init), h, pins);
      if deps[h].dependencies.Some? {
        RewriteNestedIsRetargeted(deps[h].dependencies.value, pins);
      }
    }
  }

  /** One more holder, not listed before, retargets at most its own nested
      map. */
  lemma RetargetedLockStep(deps: map<string, LockEntry>, names: seq<string>, h: string, pins: seq<ModifiedDependency>)
    requires h !in names && h in deps
    ensures RetargetedLock(deps, names, pins)[h] == deps[h]
    ensures RetargetedLock(deps, names + [h], pins)
            == if deps[h].dependencies.Some?
               then RetargetedLock(deps, names, pins)[h := deps[h].(dependencies := Some(RetargetedNested(deps[h].dependencies.value, pins)))]
               else RetargetedLock(deps, names, pins)
  {
  }

  /** One more name extends the queries and the pins by that name's step. */
  lemma QueryStep(names: seq<string>, i: nat, tag: string, npm: seq<string> -> QueryResult)
    requires i < |names|
    ensures PinnedBy(names[..i + 1], tag, npm) == Pin(PinnedBy(names[..i], tag, npm), names[i], tag, npm)
    ensures Queries(names[..i + 1], tag) == Queries(names[..i], tag) + [Npm(ShowArgs(names[i], tag), true)]
  {
    assert names[..i + 1][..i] == names[..i];
  }

  /** One more pin overwrites that name's constraint. */
  lemma PinAllAppend(deps: map<string, string>, mods: seq<ModifiedDependency>, m: ModifiedDependency)
    ensures PinAll(deps, mods + [m]) == PinAll(deps, mods)[m.name := m.version]
  {
    assert (mods + [m])[..|mods|] == mods;
  }

  /** Lines 79-88 as the source runs them: for each pin in order, a walk
      over the nested map's keys that rewrites the entry named like the
      pin. */
  method RewriteTransitives(transitives: map<string, LockEntry>, pins: seq<ModifiedDependency>)
    returns (r: Result<map<string, LockEntry>, LockError>)
    ensures r == RewriteNested(transitives, pins)
  {
    var current := transitives;
    var j := 0;
    while j < |pins|
      invariant 0 <= j <= |pins|
      invariant RewriteNested(transitives, pins[..j]) == Ok(current)
    {
      var pin := pins[j];
      assert pins[..j + 1][..j] == pins[..j];
      var before := current;
      var keys := current.Keys;
      while keys != {}
        invariant keys <= before.Keys && current.Keys == before.Keys
        invariant pin.name in keys ==> current == before
        invariant pin.name !in keys ==> RewriteKey(before, pin) == Ok(current)
        decreases |keys|
      {
        var key :| key in keys;
        if key == pin.name {
          var rewritten := RewriteEntry(current[key], pin);
          if rewritten.Err? {
            RewriteNestedErrorSticks(transitives, pins, j + 1, rewritten.error);
            return Err(rewritten.error);
          }
          current := current[key := rewritten.value];
        }
        keys := keys - {key};
      }
      j := j + 1;
    }
    assert pins[..j] == pins;
    r := Ok(current);
  }

  /** The state of one run: package.json and npm-shrinkwrap.json as loaded
      in memory, and the effects issued so far. */
  class Installer {
    var manifest: Manifest
    var lockfile: Lockfile
    var effects: seq<Effect>

    constructor (manifest: Manifest, lockfile: Lockfile)
      ensures this.manifest == manifest && this.lockfile == lockfile && effects == []
    {
      this.manifest := manifest;
      this.lockfile := lockfile;
      effects := [];
    }

    /** Lines 18-58: queries each name, pins the published ones in the
        manifest, writes package.json when anything was pinned, and always
        runs `npm install`. `npm` stands for the registry's answers. */
    method UpdateChildDependencies(names: seq<string>, tag: string, npm: seq<string> -> QueryResult)
      returns (modified: seq<ModifiedDependency>)
      modifies this
      ensures modified == PinnedBy(names, tag, npm)
      ensures manifest == old(manifest).(dependencies := PinAll(old(manifest.dependencies), modified))
      ensures lockfile == old(lockfile)
      ensures effects == old(effects) + Queries(names, tag)
                         + (if modified != [] then [WriteManifest(manifest)] else [])
                         + [Npm(["install"], false)]
    {
      modified := [];
      var i := 0;
      while i < |names|
        invariant 0 <= i <= |names|
        invariant modified == PinnedBy(names[..i], tag, npm)
        invariant manifest == old(manifest).(dependencies := PinAll(old(manifest.dependencies), modified))
        invariant lockfile == old(lockfile)
        invariant effects == old(effects) + Queries(names[..i], tag)
      {
        var name := names[i];
        QueryStep(names, i, tag, npm);
        var query := npm(ShowArgs(name, tag));
        effects := effects + [Npm(ShowArgs(name, tag), true)];
        if query.error.Some? && Trim(query.error.value) != [] {
          // the error is reported; the dependency is left as it is
        } else if Trim(query.stdout) == [] {
          // no version under this tag; the dependency is left as it is
        } else {
          var version := Trim(query.stdout);
          var m := ModifiedDependency(name, version);
          PinAllAppend(old(manifest.dependencies), modified, m);
          manifest := manifest.(dependencies := manifest.dependencies[name := version]);
          modified := modified + [m];
        }
        i := i + 1;
      }
      assert names[..i] == names;
      if |modified| > 0 {
        effects := effects + [WriteManifest(manifest)];
      }
      effects := effects + [Npm(["install"], false)];
    }

    /** Lines 68-104: rewrites the nested entries of every pinned holder,
        and writes npm-shrinkwrap.json and runs `npm install` exactly when
        some holder had a nested map. A failure leaves no effect. */
    method UpdateTransitiveDependencies(modified: seq<ModifiedDependency>) returns (outcome: TransitiveOutcome)
      modifies this
      ensures manifest == old(manifest) && lockfile.otherFields == old(lockfile.otherFields)
      ensures match RewriteHolders(old(lockfile.dependencies), modified, modified)
              case Err(e) => outcome == Failed(e) && effects == old(effects)
              case Ok(p) =>
                && lockfile.dependencies == p.deps
                && outcome == (if p.changed then Rewritten else Unchanged)
                && effects == old(effects) + (if p.changed then [WriteLockfile(lockfile), Npm(["install"], true)] else [])
    {
      var transitivesUpdated := false;
      var i := 0;
      while i < |modified|
        invariant 0 <= i <= |modified|
        invariant RewriteHolders(old(lockfile.dependencies), modified[..i], modified) == Ok(Pass(lockfile.dependencies, transitivesUpdated))
        invariant manifest == old(manifest) && lockfile.otherFields == old(lockfile.otherFields)
        invariant effects == old(effects)
      {
        var holder := modified[i].name;
        assert modified[..i + 1][..i] == modified[..i];
        if holder !in lockfile.dependencies {
          RewriteHoldersErrorSticks(old(lockfile.dependencies), modified, modified, i + 1, MissingEntry(holder));
          return Failed(MissingEntry(holder));
        }
        var entry := lockfile.dependencies[holder];
        if entry.dependencies.Some? {
          transitivesUpdated := true;
          var rewritten := RewriteTransitives(entry.dependencies.value, modified);
          if rewritten.Err? {
            RewriteHoldersErrorSticks(old(lockfile.dependencies), modified, modified, i + 1, rewritten.error);
            return Failed(rewritten.error);
          }
          lockfile := lockfile.(dependencies := lockfile.dependencies[holder := entry.(dependencies := Some(rewritten.value))]);
        }
        i := i + 1;
      }
      assert modified[..i] == modified;
      if transitivesUpdated {
        effects := effects + [WriteLockfile(lockfile), Npm(["install"], true)];
        outcome := Rewritten;
      } else {
        outcome := Unchanged;
      }
    }

    /** Lines 7-16: the three steps in order. `npm shrinkwrap` regenerates
        the lockfile, which is then read back as `shrinkwrapped`. */
    method Action(names: seq<string>, tag: string, npm: seq<string> -> QueryResult, shrinkwrapped: Lockfile)
      returns (outcome: TransitiveOutcome)
      modifies this
      ensures var modified := PinnedBy(names, tag, npm);
              var pinned := old(manifest).(dependencies := PinAll(old(manifest.dependencies), modified));
              var installed := old(effects) + Queries(names, tag)
                               + (if modified != [] then [WriteManifest(pinned)] else [])
                               + [Npm(["install"], false), Npm(["shrinkwrap"], false)];
              && manifest == pinned
              && match RewriteHolders(shrinkwrapped.dependencies, modified, modified)
                 case Err(e) => outcome == Failed(e) && effects == installed
                 case Ok(p) =>
                   && lockfile == shrinkwrapped.(dependencies := p.deps)
                   && outcome == (if p.changed then Rewritten else Unchanged)
                   && effects == installed + (if p.changed then [WriteLockfile(lockfile), Npm(["install"], true)] else [])
    {
      ghost var before := effects;
      var modified := UpdateChildDependencies(names, tag, npm);
      effects := effects + [Npm(["shrinkwrap"], false)];
      assert effects == before + Queries(names, tag)
                        + (if modified != [] then [WriteManifest(manifest)] else [])
                        + [Npm(["install"], false), Npm(["shrinkwrap"], false)];
      lockfile := shrinkwrapped;
      outcome := UpdateTransitiveDependencies(modified);
    }
  }

  /** When the old version first appears in `from` right after `a`, and
      in `resolved` right after `c`, the rewrite puts the new version in
      exactly those places (a version holds no `$`, so the replacement text
      is taken literally). */
  lemma RetargetSplicesVersion(e: LockEntry, version: string, a: string, b: string, c: string, d: string)
    requires '$' !in version && e.version.Some?
    requires e.from == Some(a + e.version.value + b)
    requires e.resolved == Some(c + e.version.value + d)
    requires forall j: nat :: j < |a| ==> !OccursAt(a + e.version.value + b, e.version.value, j)
    requires forall j: nat :: j < |c| ==> !OccursAt(c + e.version.value + d, e.version.value, j)
    ensures Retargeted(e, version).from == Some(a + version + b)
    ensures Retargeted(e, version).resolved == Some(c + version + d)
  {
    ReplaceFirstSplice(a, e.version.value, b, version);
    ReplaceFirstSplice(c, e.version.value, d, version);
  }

  /** The strings of the lockfile fixture, cut at the old version: `from`
      holds "1.1.0" first right after "dep1@>=". */
  lemma FixtureFrom()
    ensures "dep1@>=1.1.0 <2.0.0" == "dep1@>=" + "1.1.0" + " <2.0.0"
    ensures "dep1@>=1.1.1-alpha.1 <2.0.0" == "dep1@>=" + "1.1.1-alpha.1" + " <2.0.0"
    ensures NoPair("dep1@>=" + "1", '1', '.')
  {
    NoPairOf("dep1@>=" + "1", '1', '.');
  }

  /** `resolved` of the fixture, cut at the old and at the new version. */
  lemma FixtureResolved()
    ensures "http://my.npm.repo/dep1/-/dep1-1.1.0.tgz" == "http://my.npm.repo/dep1/-/dep1-" + "1.1.0" + ".tgz"
    ensures "http://my.npm.repo/dep1/-/dep1-1.1.1-alpha.1.tgz" == "http://my.npm.repo/dep1/-/dep1-" + "1.1.1-alpha.1" + ".tgz"
  {
  }

  /** In `resolved` of the fixture, "1.1.0" occurs first right after the
      package path: no "1." meets before it. */
  lemma FixtureResolvedPrefix()
    ensures NoPair("http://my.npm.repo/dep1/-/dep1-" + "1", '1', '.')
  {
    var c1, c2, c3, c4 := "http://my", ".npm", ".repo", "/dep1/-/dep1-1";
    NoPairOf(c1, '1', '.');
    NoPairOf(c2, '1', '.');
    NoPairOf(c3, '1', '.');
    NoPairOf(c4, '1', '.');
    NoPairJoin(c1, c2, '1', '.');
    NoPairJoin(c1 + c2, c3, '1', '.');
    NoPairJoin(c1 + c2 + c3, c4, '1', '.');
    assert "http://my.npm.repo/dep1/-/dep1-" + "1" == c1 + c2 + c3 + c4;
  }

  /** The tests' lockfile example: the nested `dep1` entry at 1.1.0 pinned
      to 1.1.1-alpha.1 gets the new version in `version`, `from` and
      `resolved`. */
  lemma LockfileExample(e: LockEntry)
    requires e.version == Some("1.1.0")
    requires e.from == Some("dep1@>=1.1.0 <2.0.0")
    requires e.resolved == Some("http://my.npm.repo/dep1/-/dep1-1.1.0.tgz")
    ensures var r := Retargeted(e, "1.1.1-alpha.1");
            && r.version == Some("1.1.1-alpha.1")
            && r.from == Some("dep1@>=1.1.1-alpha.1 <2.0.0")
            && r.resolved == Some("http://my.npm.repo/dep1/-/dep1-1.1.1-alpha.1.tgz")
  {
    var a, b := "dep1@>=", " <2.0.0";
    var c, d := "http://my.npm.repo/dep1/-/dep1-", ".tgz";
    FixtureFrom();
    FixtureResolved();
    FixtureResolvedPrefix();
    NoEarlierOccurrence(a, "1.1.0", b);
    NoEarlierOccurrence(c, "1.1.0", d);
    RetargetSplicesVersion(e, "1.1.1-alpha.1", a, b, c, d);
  }
}
