/** A whole run of the mirroring, told on the local directory as a value: what it leaves alone, that
    it mirrors every listing without clashing names, and that it does so for no other. */
module DirectoryRun {
  import opened Collections
  import opened Transfer
  import opened DirectoryPlan

  // ----- a run as a function -----

  /** The names directly in source that are not listed. */
  ghost function Unlisted(plan: Plan, local: Local, source: Path): set<Name> {
    set p | p in local && source < p && !KeepsName(plan, Child(source, p)) :: p[|source|]
  }

  function WithDirectory(local: Local, source: Path): Local {
    if IsDirectory(local, source) then local else local[source := LocalDir]
  }

  /** The directory is there, and what is not listed is gone. */
  ghost function Prepared(plan: Plan, local: Local, source: Path): Local {
    var start := WithDirectory(local, source);
    WithoutNames(start, source, Unlisted(plan, start, source))
  }

  /** The listed file f, brought up to date. */
  ghost function StepOf(plan: Plan, local: Local, f: Path): Result<Local, SyncError>
    requires Consistent(plan) && f in plan.listing && plan.listing[f].FileInfo?
  {
    assert ListedRightly(plan, f);
    FileStep(local, f, plan.md5, plan.listing[f], plan.depot[f].content)
  }

  ghost function Run(plan: Plan, local: Local, source: Path): Result<Local, SyncError>
    requires Consistent(plan)
    decreases ListedBelow(plan, source), 2, 0
  {
    RunEntries(plan, Prepared(plan, local, source), source, plan.order(source), 0)
  }

  /** The items from place k on. */
  ghost function RunEntries(plan: Plan, local: Local, source: Path, names: seq<Name>, k: nat): Result<Local, SyncError>
    requires Consistent(plan) && k <= |names|
    decreases ListedBelow(plan, source), 1, |names| - k
  {
    if k == |names| then Ok(local)
    else
      match RunEntry(plan, local, source, names[k])
      case Err(error) => Err(error)
      case Ok(next) => RunEntries(plan, next, source, names, k + 1)
  }

  ghost function RunEntry(plan: Plan, local: Local, source: Path, n: Name): Result<Local, SyncError>
    requires Consistent(plan)
    decreases ListedBelow(plan, source), 0, 0
  {
    var c := source + [n];
    if c == ContentPath(plan) || c !in plan.listing then Ok(local)
    else
      match plan.listing[c]
      case LinkInfo(_) => Ok(local)
      case FileInfo(_, _) => StepOf(plan, local, c)
      case DirInfo =>
        ListedBelowShrinks(plan, source, c);
        Run(plan, local, c)
  }

  // ----- what a run leaves alone -----

  ghost predicate ReadyFor(local: Local, source: Path) {
    Tree(local) && (source == [] || InDirectory(local, source))
  }

  /** From before to after, nothing has been added or changed except at and below the paths of names
      in source, and nothing has been removed outside source. */
  ghost predicate Confined(before: Local, after: Local, source: Path, names: set<Name>) {
    && Tree(after) && IsDirectory(after, source)
    && (forall p :: !(source <= p) ==> Same(before, after, p))
    && (forall p :: source < p && p[|source|] !in names && p in after ==> Same(before, after, p))
  }

  lemma ConfinedTwice(before: Local, mid: Local, after: Local, source: Path, first: set<Name>, second: set<Name>)
    requires Confined(before, mid, source, first) && Confined(mid, after, source, second)
    ensures Confined(before, after, source, first + second)
  {
    forall p | !(source <= p) ensures Same(before, after, p) {
      assert Same(before, mid, p) && Same(mid, after, p);
    }
    forall p | source < p && p[|source|] !in first + second && p in after ensures Same(before, after, p) {
      assert Same(mid, after, p) && Same(before, mid, p);
    }
  }

  /** The cleanup has removed the unlisted names and no other. */
  lemma UnlistedNames(plan: Plan, start: Local, source: Path, gone: set<Name>)
    requires Tree(start)
    requires forall n :: n in gone ==> !KeepsName(plan, source + [n]) && source + [n] in start
    requires forall n :: source + [n] in start && !KeepsName(plan, source + [n]) ==> n in gone
    ensures gone == Unlisted(plan, start, source)
  {
    forall n | n in Unlisted(plan, start, source) ensures n in gone {
      var p :| p in start && source < p && !KeepsName(plan, Child(source, p)) && p[|source|] == n;
      var c := Child(source, p);
      assert c == source + [n];
      ChildFacts(source, p);
      if p != c { AncestorsAreDirs(start, c, p); }
    }
    forall n | n in gone ensures n in Unlisted(plan, start, source) {
      var p := source + [n];
      assert source < p && Child(source, p) == p && p[|source|] == n;
    }
  }

  lemma PreparedFacts(plan: Plan, local: Local, source: Path)
    requires ReadyFor(local, source)
    ensures Progress(plan, local, Prepared(plan, local, source), source, {})
    ensures
      forall p :: source < p && p in Prepared(plan, local, source) ==> Same(local, Prepared(plan, local, source), p)
  {
    hide Progress, KeepsName;
    var start := WithDirectory(local, source);
    if !IsDirectory(local, source) { DirectoryMade(local, source); }
    var gone := Unlisted(plan, start, source);
    forall n ensures n in gone ==> !KeepsName(plan, source + [n]) {
      if n in gone {
        var p :| p in start && source < p && !KeepsName(plan, Child(source, p)) && p[|source|] == n;
        assert Child(source, p) == source + [n];
      }
    }
    forall n | source + [n] in start && !KeepsName(plan, source + [n]) ensures n in gone {
      var p := source + [n];
      assert source < p && Child(source, p) == p && p[|source|] == n;
    }
    CleanupDone(plan, start, source, gone);
    FromBefore(plan, local, start, Prepared(plan, local, source), source);
  }

  lemma PreparedIsTree(plan: Plan, local: Local, source: Path)
    requires ReadyFor(local, source)
    ensures Tree(Prepared(plan, local, source)) && IsDirectory(Prepared(plan, local, source), source)
  {
    PreparedFacts(plan, local, source);
  }

  lemma NothingConfined(local: Local, source: Path, n: Name)
    requires Tree(local) && IsDirectory(local, source)
    ensures Confined(local, local, source, {n})
  {
  }

  lemma FileConfined(plan: Plan, local: Local, source: Path, n: Name)
    requires Consistent(plan) && Tree(local) && IsDirectory(local, source)
    requires source + [n] in plan.listing && plan.listing[source + [n]].FileInfo?
    ensures var r := StepOf(plan, local, source + [n]); r.Ok? ==> Confined(local, r.value, source, {n})
  {
    var c := source + [n];
    var r := StepOf(plan, local, c);
    assert ListedRightly(plan, c) && Parent(c) == source;
    hide Fetched, UpToDate;
    if r.Ok? && r.value != local {
      FileTree(plan, local, c, plan.listing[c], plan.depot[c].content);
      PartsAreOthers(c);
      forall p ensures !(source <= p) ==> Same(local, r.value, p)
               ensures source < p && p[|source|] != n && p in r.value ==> Same(local, r.value, p)
      {
        assert source < EndPartOf(c) && source < StartPartOf(c) && source < c;
        assert c <= p ==> p[|source|] == n;
      }
    }
  }

  /** A successful run for source leaves a directory there, and changes nothing outside. */
  lemma {:induction false} RunConfined(plan: Plan, local: Local, source: Path)
    requires Consistent(plan) && ReadyFor(local, source)
    ensures
      var r := Run(plan, local, source);
      r.Ok? ==> && Tree(r.value) && IsDirectory(r.value, source)
                && forall p :: !(source <= p) ==> Same(local, r.value, p)
    decreases ListedBelow(plan, source), 2, 0
  {
    var start, names := Prepared(plan, local, source), plan.order(source);
    PreparedFacts(plan, local, source);
    EntriesConfined(plan, start, source, names, 0);
    var r := Run(plan, local, source);
    if r.Ok? {
      forall p | !(source <= p) ensures Same(local, r.value, p) {
        assert Same(local, start, p) && Same(start, r.value, p);
      }
    }
  }

  lemma {:induction false} EntriesConfined(plan: Plan, local: Local, source: Path, names: seq<Name>, k: nat)
    requires Consistent(plan) && Tree(local) && IsDirectory(local, source) && k <= |names|
    ensures
      var r := RunEntries(plan, local, source, names, k);
      r.Ok? ==> Confined(local, r.value, source, Elements(names[k..]))
    decreases ListedBelow(plan, source), 1, |names| - k
  {
    if k == |names| {
    } else {
      EntryConfined(plan, local, source, names[k]);
      var entry := RunEntry(plan, local, source, names[k]);
      if entry.Ok? {
        EntriesConfined(plan, entry.value, source, names, k + 1);
        var r := RunEntries(plan, entry.value, source, names, k + 1);
        if r.Ok? {
          ConfinedTwice(local, entry.value, r.value, source, {names[k]}, Elements(names[k + 1..]));
          assert Elements(names[k..]) == {names[k]} + Elements(names[k + 1..]);
        }
      }
    }
  }

  lemma {:induction false} EntryConfined(plan: Plan, local: Local, source: Path, n: Name)
    requires Consistent(plan) && Tree(local) && IsDirectory(local, source)
    ensures var r := RunEntry(plan, local, source, n); r.Ok? ==> Confined(local, r.value, source, {n})
    decreases ListedBelow(plan, source), 0, 0
  {
    hide Consistent, Tree, StepOf;
    var c := source + [n];
    if c == ContentPath(plan) || c !in plan.listing || plan.listing[c].LinkInfo? {
      NothingConfined(local, source, n);
    } else if plan.listing[c].FileInfo? {
      FileConfined(plan, local, source, n);
    } else {
      assert Parent(c) == source;
      ListedBelowShrinks(plan, source, c);
      RunConfined(plan, local, c);
      if Run(plan, local, c).Ok? { ChildConfined(local, Run(plan, local, c).value, source, n); }
    }
  }

  /** What changes nothing outside a child of source is confined to this child. */
  lemma ChildConfined(local: Local, after: Local, source: Path, n: Name)
    requires IsDirectory(local, source) && Tree(after)
    requires forall p :: !(source + [n] <= p) ==> Same(local, after, p)
    ensures Confined(local, after, source, {n})
  {
    var c := source + [n];
    hide Tree;
    assert Same(local, after, source);
    forall p | source < p && p[|source|] != n ensures Same(local, after, p) {
      assert !(c <= p);
    }
    forall p | !(source <= p) ensures Same(local, after, p) {
      assert !(c <= p);
    }
  }

  // ----- listings without clashing names are mirrored -----

  /** From any local tree, a run ends with everything below source as listed. */
  lemma {:induction false} RunMirrors(plan: Plan, local: Local, source: Path)
    requires Consistent(plan) && Enumerates(plan.depot, plan.order) && NoClash(plan)
    requires Visited(plan, source) && ReadyFor(local, source)
    ensures Run(plan, local, source).Ok? && Mirrored(plan, local, Run(plan, local, source).value, source)
    decreases ListedBelow(plan, source), 2, 0
  {
    hide Progress, Mirrored, Visited, Consistent, NoClash, Tree;
    PreparedFacts(plan, local, source);
    assert FirstNames(plan.order(source), 0) == {};
    EntriesMirror(plan, local, Prepared(plan, local, source), source, 0);
  }

  lemma {:induction false} EntriesMirror(plan: Plan, old_: Local, local: Local, source: Path, k: nat)
    requires Consistent(plan) && Enumerates(plan.depot, plan.order) && NoClash(plan) && Visited(plan, source)
    requires k <= |plan.order(source)| && Progress(plan, old_, local, source, FirstNames(plan.order(source), k))
    ensures
      var r := RunEntries(plan, local, source, plan.order(source), k);
      r.Ok? && Mirrored(plan, old_, r.value, source)
    decreases ListedBelow(plan, source), 1, |plan.order(source)| - k
  {
    hide Progress, Mirrored, Visited, Consistent, NoClash, Tree;
    var names := plan.order(source);
    if k == |names| {
      assert forall n :: n in names ==> n in FirstNames(names, k);
      AllChildrenDone(plan, old_, local, source, FirstNames(names, k));
    } else {
      EntryMirrors(plan, old_, local, source, FirstNames(names, k), names[k]);
      assert FirstNames(names, k + 1) == FirstNames(names, k) + {names[k]};
      EntriesMirror(plan, old_, RunEntry(plan, local, source, names[k]).value, source, k + 1);
    }
  }

  lemma {:induction false} EntryMirrors(plan: Plan, old_: Local, local: Local, source: Path, done: set<Name>, n: Name)
    requires Consistent(plan) && Enumerates(plan.depot, plan.order) && NoClash(plan) && Visited(plan, source)
    requires Progress(plan, old_, local, source, done) && n !in done && source + [n] in plan.depot
    ensures
      var r := RunEntry(plan, local, source, n);
      r.Ok? && Progress(plan, old_, r.value, source, done + {n})
    decreases ListedBelow(plan, source), 0, 0
  {
    var c := source + [n];
    assert source < c && Parent(c) == source;
    if c == ContentPath(plan) || c !in plan.listing || plan.listing[c].LinkInfo? {
      ItemPassedOver(plan, old_, local, source, done, n);
    } else if plan.listing[c].FileInfo? {
      assert ListedRightly(plan, c);
      PartsAreGone(plan, old_, local, source, done, c);
      FetchedIsUpToDate(plan.md5, plan.listing[c], EntryAt(local, c), plan.depot[c].content);
      FileDone(plan, old_, local, source, done, n);
    } else {
      ChildVisited(plan, source, c);
      ListedBelowShrinks(plan, source, c);
      RunMirrors(plan, local, c);
      DirectoryDone(plan, old_, local, Run(plan, local, c).value, source, done, n);
    }
  }

  // ----- a second run -----

  /** Where everything is as listed, a run changes nothing. */
  lemma {:induction false} RunInSync(plan: Plan, local: Local, source: Path)
    requires Consistent(plan) && Visited(plan, source) && InSync(plan, local, source)
    ensures Run(plan, local, source) == Ok(local)
    decreases ListedBelow(plan, source), 2, 0
  {
    PreparedInSync(plan, local, source);
    EntriesInSync(plan, local, source, plan.order(source), 0);
  }

  lemma PreparedInSync(plan: Plan, local: Local, source: Path)
    requires Consistent(plan) && Visited(plan, source) && InSync(plan, local, source)
    ensures Prepared(plan, local, source) == local
  {
    forall p | p in local && source < p ensures KeepsName(plan, Child(source, p)) {
      ChildFacts(source, p);
      SkippedBelow(plan, source, p);
      assert Settled(plan, local, local, p);
      if p in plan.listing && p != Child(source, p) { AncestorsAreListed(plan, Child(source, p), p); }
    }
    assert Unlisted(plan, local, source) == {};
  }

  lemma {:induction false} EntriesInSync(plan: Plan, local: Local, source: Path, names: seq<Name>, k: nat)
    requires Consistent(plan) && Visited(plan, source) && InSync(plan, local, source) && k <= |names|
    ensures RunEntries(plan, local, source, names, k) == Ok(local)
    decreases ListedBelow(plan, source), 1, |names| - k
  {
    hide InSync, Visited, Consistent;
    if k == |names| {
    } else {
      EntryInSync(plan, local, source, names[k]);
      EntriesInSync(plan, local, source, names, k + 1);
    }
  }

  lemma {:induction false} EntryInSync(plan: Plan, local: Local, source: Path, n: Name)
    requires Consistent(plan) && Visited(plan, source) && InSync(plan, local, source)
    ensures RunEntry(plan, local, source, n) == Ok(local)
    decreases ListedBelow(plan, source), 0, 0
  {
    var c := source + [n];
    assert Parent(c) == source;
    if c == ContentPath(plan) || c !in plan.listing || plan.listing[c].LinkInfo? {
    } else if plan.listing[c].FileInfo? {
      FileInSync(plan, local, source, n);
    } else {
      ChildInSync(plan, local, source, n);
      ChildVisited(plan, source, c);
      ListedBelowShrinks(plan, source, c);
      RunInSync(plan, local, c);
    }
  }

  // ----- one step, and the names of partial files -----

  /** Bringing a file up to date succeeds and leaves everything beside it alone exactly when it was up
      to date, or what is put together has the listed checksum and nothing bears its name with the
      suffix of a partial file. */
  lemma NeighboursKept(local: Local, path: Path, md5: seq<Byte> -> Id, info: Info, remote: seq<Byte>)
    requires path != [] && info.FileInfo?
    ensures
      var r := FileStep(local, path, md5, info, remote);
      (r.Ok? && forall p :: !(path <= p) ==> Same(local, r.value, p)) <==>
      || IsCurrent(local, path, md5, info)
      || (&& md5(Fetched(md5, info, EntryAt(local, path), remote).0) == info.md5sum
          && EndPartOf(path) !in local && StartPartOf(path) !in local)
  {
    hide Fetched, UpToDate;
    PartsAreOthers(path);
    var r := FileStep(local, path, md5, info, remote);
    if r.Ok? && r.value != local {
      assert EndPartOf(path) !in r.value && StartPartOf(path) !in r.value;
      assert Same(local, r.value, EndPartOf(path)) <==> EndPartOf(path) !in local;
      assert Same(local, r.value, StartPartOf(path)) <==> StartPartOf(path) !in local;
    }
  }

  /** The cleanup of this directory has been done. */
  ghost predicate Tidy(plan: Plan, local: Local, source: Path) {
    forall n :: source + [n] in local ==> KeepsName(plan, source + [n])
  }

  /** The step succeeds, and everything else that is as listed stays so. */
  ghost predicate StepIsSafe(plan: Plan, local: Local, f: Path)
    requires Consistent(plan) && Fetchable(plan, f)
  {
    var r := StepOf(plan, local, f);
    r.Ok? && forall p :: !(f <= p) && Settled(plan, local, local, p) ==> Settled(plan, local, r.value, p)
  }

  ghost predicate StepsAreSafe(plan: Plan)
    requires Consistent(plan)
  {
    forall local, f :: Fetchable(plan, f) && Tree(local) && (f != [] ==> Tidy(plan, local, Parent(f))) ==>
      StepIsSafe(plan, local, f)
  }

  /** Exactly for the listings without clashing names each step, in every cleaned up directory,
      succeeds and destroys nothing: otherwise a listed directory stops the run with an error, or a
      listed file, or what stands for a listed link, is lost. */
  lemma StepsAreSafeExactly(plan: Plan)
    requires Consistent(plan)
    ensures NoClash(plan) <==> StepsAreSafe(plan)
  {
    hide Tidy, Tree, StepIsSafe;
    if NoClash(plan) {
      forall local, f | Fetchable(plan, f) && Tree(local) && (f != [] ==> Tidy(plan, local, Parent(f)))
        ensures StepIsSafe(plan, local, f)
      {
        NoClashKeeps(plan, local, f);
      }
    }
    if StepsAreSafe(plan) {
      forall f | Fetchable(plan, f)
        ensures f != [] && EndPartOf(f) !in plan.listing && StartPartOf(f) !in plan.listing
      {
        assert ListedRightly(plan, f);
        if EndPartOf(f) in plan.listing { ClashIsUnsafe(plan, f, EndPartOf(f)); }
        if StartPartOf(f) in plan.listing { ClashIsUnsafe(plan, f, StartPartOf(f)); }
      }
    }
  }

  lemma NoClashKeeps(plan: Plan, local: Local, f: Path)
    requires Consistent(plan) && NoClash(plan) && Fetchable(plan, f) && (f != [] ==> Tidy(plan, local, Parent(f)))
    ensures StepIsSafe(plan, local, f)
  {
    assert ListedRightly(plan, f);
    PartsAreOthers(f);
    PartUnlisted(plan, local, f, EndPartOf(f));
    PartUnlisted(plan, local, f, StartPartOf(f));
    FetchedIsUpToDate(plan.md5, plan.listing[f], EntryAt(local, f), plan.depot[f].content);
    hide Fetched, UpToDate;
    var r := StepOf(plan, local, f);
    forall p | !(f <= p) && Settled(plan, local, local, p) ensures Settled(plan, local, r.value, p) {
      assert Same(local, r.value, p);
    }
  }

  lemma PartUnlisted(plan: Plan, local: Local, f: Path, part: Path)
    requires f != [] && Tidy(plan, local, Parent(f)) && part in {EndPartOf(f), StartPartOf(f)} && part !in plan.listing
    ensures part !in local
  {
    assert part == Parent(f) + [part[|f| - 1]];
    assert part[|f| - 1] != Plain(plan.contentFile);
  }

  ghost function Prefixes(p: Path): set<Path> {
    set i | 0 <= i <= |p| :: p[..i]
  }

  /** The directories above p, and p itself. */
  ghost function Lone(p: Path, entry: LocalEntry): Local {
    map q | q in Prefixes(p) :: if q == p then entry else LocalDir
  }

  lemma LoneIsTree(p: Path, entry: LocalEntry)
    ensures Tree(Lone(p, entry)) && p in Lone(p, entry) && Lone(p, entry)[p] == entry
    ensures forall q :: q in Lone(p, entry) ==> q <= p
  {
    var local := Lone(p, entry);
    assert p[..|p|] == p;
    forall q | q in local && q != [] ensures InDirectory(local, q) {
      var i :| 0 <= i <= |p| && q == p[..i];
      assert Parent(q) == p[..i - 1] && |Parent(q)| < |p|;
    }
  }

  /** An entry at part that counts as listed; in the place of a link any file does. */
  ghost function AsListed(plan: Plan, part: Path): LocalEntry
    requires part in plan.listing && ListedRightly(plan, part)
  {
    match plan.listing[part]
    case DirInfo => LocalDir
    case FileInfo(_, _) => LocalFile(plan.depot[part].content)
    case LinkInfo(_) => LocalFile([])
  }

  lemma ClashIsUnsafe(plan: Plan, f: Path, part: Path)
    requires Consistent(plan) && Fetchable(plan, f) && f != []
    requires part in {EndPartOf(f), StartPartOf(f)} && part in plan.listing
    ensures !StepsAreSafe(plan)
  {
    hide Lone, Tree, Settled, Skipped, StepIsSafe;
    assert ListedRightly(plan, part);
    PartsAreOthers(f);
    var entry := AsListed(plan, part);
    var local := Lone(part, entry);
    LoneIsTree(part, entry);
    forall n | Parent(f) + [n] in local ensures KeepsName(plan, Parent(f) + [n]) {
      assert Parent(f) + [n] == part;
    }
    assert Tidy(plan, local, Parent(f));
    SettledAsListed(plan, local, part);
    LosesPart(plan, local, f, part);
  }

  lemma SettledAsListed(plan: Plan, local: Local, part: Path)
    requires part in plan.listing && ListedRightly(plan, part)
    requires part in local && local[part] == AsListed(plan, part)
    ensures Settled(plan, local, local, part)
  {
  }

  /** A directory at part stops the step; a file there is lost. */
  lemma LosesPart(plan: Plan, local: Local, f: Path, part: Path)
    requires Consistent(plan) && Fetchable(plan, f) && f != [] && f !in local
    requires part in {EndPartOf(f), StartPartOf(f)} && part in plan.listing
    requires part in local && Settled(plan, local, local, part)
    ensures IsDirectory(local, part) ==> StepOf(plan, local, f) == Err(PartIsDirectory)
    ensures !IsDirectory(local, part) && StepOf(plan, local, f).Ok? ==> part !in StepOf(plan, local, f).value
    ensures !StepIsSafe(plan, local, f)
  {
    hide Fetched, UpToDate, Consistent;
    PartsAreOthers(f);
  }

  // ----- no other listing is mirrored from everywhere -----

  /** The names that follow f's in its directory do not include part's. */
  ghost predicate PartShownFirst(plan: Plan, f: Path, part: Path)
    requires f != [] && |part| == |f|
  {
    var names := plan.order(Parent(f));
    forall i, j :: 0 <= i < j < |names| && names[i] == f[|f| - 1] ==> names[j] != part[|f| - 1]
  }

  /** f is to be fetched, and part is the name of one of its partial files. */
  ghost predicate Clashes(plan: Plan, f: Path, part: Path) {
    Fetchable(plan, f) && f != [] && part in {EndPartOf(f), StartPartOf(f)} && part in plan.listing
  }

  /** The step on the way to f. */
  lemma WayTo(plan: Plan, source: Path, f: Path)
    requires Consistent(plan) && Enumerates(plan.depot, plan.order) && Fetchable(plan, f) && source < f
    ensures
      var c := source + [f[|source|]];
      && c <= f && c != ContentPath(plan) && c in plan.listing && c in plan.depot && f[|source|] in plan.order(source)
      && (c == f || (c < f && plan.listing[c].DirInfo?))
  {
    var c := Child(source, f);
    ChildFacts(source, f);
    assert c == source + [f[|source|]];
    assert SkipsFrom(plan, ContentPath(plan));
    if c != f { AncestorsAreListed(plan, c, f); }
    assert ListedRightly(plan, c);
  }

  /** A run that starts without f fetches f, and so leaves nothing at part, unless it fails. */
  lemma {:induction false} RunLoses(plan: Plan, local: Local, source: Path, f: Path, part: Path)
    requires Consistent(plan) && Enumerates(plan.depot, plan.order)
    requires Clashes(plan, f, part) && PartShownFirst(plan, f, part)
    requires ReadyFor(local, source) && source < f && f !in local
    ensures var r := Run(plan, local, source); r.Ok? ==> part !in r.value
    decreases ListedBelow(plan, source), 2, 0
  {
    var names := plan.order(source);
    WayTo(plan, source, f);
    var j :| 0 <= j < |names| && names[j] == f[|source|];
    NotBehind(plan, source, f, part, j);
    PreparedFacts(plan, local, source);
    EntriesLose(plan, Prepared(plan, local, source), source, 0, j, f, part);
  }

  lemma NotBehind(plan: Plan, source: Path, f: Path, part: Path, j: nat)
    requires Enumerates(plan.depot, plan.order) && Clashes(plan, f, part) && PartShownFirst(plan, f, part) && source < f
    requires j < |plan.order(source)| && plan.order(source)[j] == f[|source|]
    ensures source < part && part[|source|] !in plan.order(source)[j + 1..]
  {
    var names := plan.order(source);
    assert Distinct(names);
    if |source| == |f| - 1 {
      assert source == Parent(f);
    } else {
      assert part[|source|] == f[|source|];
    }
  }

  lemma {:induction false} EntriesLose(plan: Plan, local: Local, source: Path, k: nat, j: nat, f: Path, part: Path)
    requires Consistent(plan) && Enumerates(plan.depot, plan.order)
    requires Clashes(plan, f, part) && PartShownFirst(plan, f, part)
    requires Tree(local) && IsDirectory(local, source) && source < f && f !in local
    requires k <= j < |plan.order(source)| && plan.order(source)[j] == f[|source|]
    requires source < part && part[|source|] !in plan.order(source)[j + 1..]
    ensures var r := RunEntries(plan, local, source, plan.order(source), k); r.Ok? ==> part !in r.value
    decreases ListedBelow(plan, source), 1, |plan.order(source)| - k
  {
    hide Consistent, Clashes, PartShownFirst, Tree;
    var names := plan.order(source);
    EntryConfined(plan, local, source, names[k]);
    var entry := RunEntry(plan, local, source, names[k]);
    if entry.Ok? {
      if k < j {
        assert Distinct(names) && names[k] != names[j];
        assert f !in entry.value;
        EntriesLose(plan, entry.value, source, k + 1, j, f, part);
      } else {
        EntryLoses(plan, local, source, f, part);
        EntriesConfined(plan, entry.value, source, names, k + 1);
      }
    }
  }

  lemma {:induction false} EntryLoses(plan: Plan, local: Local, source: Path, f: Path, part: Path)
    requires Consistent(plan) && Enumerates(plan.depot, plan.order)
    requires Clashes(plan, f, part) && PartShownFirst(plan, f, part)
    requires Tree(local) && IsDirectory(local, source) && source < f && f !in local
    ensures var r := RunEntry(plan, local, source, f[|source|]); r.Ok? ==> part !in r.value
    decreases ListedBelow(plan, source), 0, 0
  {
    WayTo(plan, source, f);
    var c := source + [f[|source|]];
    if c == f {
      hide Fetched, UpToDate;
      PartsAreOthers(f);
    } else {
      assert Parent(c) == source;
      ListedBelowShrinks(plan, source, c);
      RunLoses(plan, local, c, f, part);
    }
  }

  // ----- exactly the listings without clashing names are mirrored -----

  ghost function Reordered(plan: Plan, order: Path -> seq<Name>): (r: Plan)
    requires Consistent(plan)
    ensures Consistent(r)
  {
    var r := plan.(order := order);
    assert forall p :: p in r.listing ==> ListedRightly(plan, p) && ListedRightly(r, p);
    r
  }

  ghost predicate MirrorsFrom(plan: Plan, local: Local)
    requires Consistent(plan)
  {
    var r := Run(plan, local, []);
    r.Ok? && Mirrored(plan, local, r.value, [])
  }

  /** In whatever order the depot shows its items, a run mirrors it from every local tree. */
  ghost predicate AlwaysMirrors(plan: Plan)
    requires Consistent(plan)
  {
    forall order, local :: Enumerates(plan.depot, order) && Tree(local) ==> MirrorsFrom(Reordered(plan, order), local)
  }

  /** Mirroring works, in every order and from every local tree, exactly for the listings in which no
      file to be fetched has a listed neighbour that bears its name with the suffix of a partial file. */
  lemma NoClashExactly(plan: Plan)
    requires Consistent(plan) && Enumerates(plan.depot, plan.order)
    ensures NoClash(plan) <==> AlwaysMirrors(plan)
  {
    hide Tree, MirrorsFrom, Fetchable;
    if NoClash(plan) {
      forall order, local | Enumerates(plan.depot, order) && Tree(local)
        ensures MirrorsFrom(Reordered(plan, order), local)
      {
        AnyOrderMirrors(plan, order, local);
      }
    }
    if AlwaysMirrors(plan) {
      forall f | Fetchable(plan, f)
        ensures f != [] && EndPartOf(f) !in plan.listing && StartPartOf(f) !in plan.listing
      {
        FetchableIsListed(plan, f);
        if EndPartOf(f) in plan.listing { ClashIsNotMirrored(plan, f, EndPartOf(f)); }
        if StartPartOf(f) in plan.listing { ClashIsNotMirrored(plan, f, StartPartOf(f)); }
      }
    }
  }

  lemma FetchableIsListed(plan: Plan, f: Path)
    requires Consistent(plan) && Fetchable(plan, f)
    ensures f != []
  {
    assert ListedRightly(plan, f);
  }

  lemma SameSkips(plan: Plan, order: Path -> seq<Name>, p: Path)
    requires Consistent(plan)
    ensures Skipped(Reordered(plan, order), p) <==> Skipped(plan, p)
  {
    var r := Reordered(plan, order);
    forall q: Path ensures SkipsFrom(r, q) <==> SkipsFrom(plan, q) {
    }
  }

  lemma AnyOrderMirrors(plan: Plan, order: Path -> seq<Name>, local: Local)
    requires Consistent(plan) && NoClash(plan) && Enumerates(plan.depot, order) && Tree(local)
    ensures MirrorsFrom(Reordered(plan, order), local)
  {
    var r := Reordered(plan, order);
    forall p | Fetchable(r, p) ensures p != [] && EndPartOf(p) !in r.listing && StartPartOf(p) !in r.listing {
      SameSkips(plan, order, p);
      assert Fetchable(plan, p);
    }
    RootVisited(r);
    RunMirrors(r, local, []);
  }

  /** The order with one name of one directory moved to the front. */
  ghost function ShownFirst(order: Path -> seq<Name>, source: Path, n: Name): Path -> seq<Name> {
    p => if p == source then MovedToFront(order(p), n) else order(p)
  }

  ghost function MovedToFront(names: seq<Name>, n: Name): seq<Name> {
    if n in names then
      var k :| 0 <= k < |names| && names[k] == n;
      [n] + Dropped(names, k)
    else names
  }

  lemma MovedToFrontFacts(names: seq<Name>, n: Name)
    requires Distinct(names)
    ensures Distinct(MovedToFront(names, n)) && forall m :: m in MovedToFront(names, n) <==> m in names
    ensures forall j :: 0 < j < |MovedToFront(names, n)| ==> MovedToFront(names, n)[j] != n
  {
  }

  /** From a local tree without f, and with a file at part, no run mirrors the depot when it shows part
      first. */
  lemma ClashIsNotMirrored(plan: Plan, f: Path, part: Path)
    requires Consistent(plan) && Enumerates(plan.depot, plan.order) && Clashes(plan, f, part)
    ensures !AlwaysMirrors(plan)
  {
    PartsAreOthers(f);
    var source, n := Parent(f), part[|f| - 1];
    var order := ShownFirst(plan.order, source, n);
    forall p ensures Distinct(order(p)) && forall m :: m in order(p) <==> p + [m] in plan.depot {
      MovedToFrontFacts(plan.order(p), n);
    }
    var local := Lone(part, LocalFile([]));
    LoneIsTree(part, LocalFile([]));
    var r := Reordered(plan, order);
    SameSkips(plan, order, f);
    MovedToFrontFacts(plan.order(source), n);
    ProperPrefix([], f);
    RunLoses(r, local, [], f, part);
    ProperPrefix([], part);
    var after := Run(r, local, []);
    assert after.Ok? && Mirrored(r, local, after.value, []) ==> Settled(r, local, after.value, part);
    assert !MirrorsFrom(r, local);
  }
}
