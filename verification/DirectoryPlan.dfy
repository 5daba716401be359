/** What mirroring a product directory is to achieve, told on the local directory as a value: the
    effect of bringing one file up to date, and what holds of every path in the end. */
module DirectoryPlan {
  import opened Collections
  import opened Transfer

  /** File names, as far as their suffixes matter: EndPart(n) is n followed by .opsi_sync_endpart,
      StartPart(n) is n followed by .opsi_sync_startpart. */
  datatype Name = Plain(id: Id) | EndPart(of: Name) | StartPart(of: Name)

  /** Names from the product directory downwards. */
  type Path = seq<Name>

  datatype LocalEntry = LocalDir | LocalFile(content: seq<Byte>)

  datatype DepotEntry = DepotDir | DepotFile(content: seq<Byte>)

  /** A line of the content listing. */
  datatype Info = DirInfo | FileInfo(size: int, md5sum: Id) | LinkInfo(target: Id)

  /** PartIsDirectory: a partial file cannot be removed, since a directory bears its name. */
  datatype SyncError = Md5Mismatch | PartIsDirectory

  type Local = map<Path, LocalEntry>

  // ----- one file -----

  function EndPartOf(path: Path): Path
    requires path != []
  {
    path[..|path| - 1] + [EndPart(path[|path| - 1])]
  }

  function StartPartOf(path: Path): Path
    requires path != []
  {
    path[..|path| - 1] + [StartPart(path[|path| - 1])]
  }

  lemma PartsAreOthers(path: Path)
    requires path != []
    ensures EndPartOf(path) != path && StartPartOf(path) != path && EndPartOf(path) != StartPartOf(path)
    ensures !(path <= EndPartOf(path)) && !(path <= StartPartOf(path))
  {
    var n := |path| - 1;
    assert EndPartOf(path)[n] == EndPart(path[n]) && StartPartOf(path)[n] == StartPart(path[n]);
    SuffixDiffers(path[n]);
  }

  lemma {:induction false} SuffixDiffers(n: Name)
    ensures EndPart(n) != n && StartPart(n) != n
  {
    match n
    case Plain(_) =>
    case EndPart(m) => SuffixDiffers(m);
    case StartPart(m) => SuffixDiffers(m);
  }

  /** The file has the listed size and checksum. */
  predicate UpToDate(md5: seq<Byte> -> Id, info: Info, content: seq<Byte>) {
    info.FileInfo? && |content| == info.size && md5(content) == info.md5sum
  }

  /** What is there after a file has been brought up to date from what was there, and how many bytes
      that took. */
  ghost function Fetched(md5: seq<Byte> -> Id, info: Info, old_: Option<LocalEntry>, remote: seq<Byte>)
    : (seq<Byte>, nat)
    requires info.FileInfo?
  {
    if old_.Some? && old_.value.LocalFile? then
      var local := old_.value.content;
      if UpToDate(md5, info, local) then (local, 0)
      else if |local| < info.size then
        var rest := Range(remote, |local|, -1);
        if md5(local + rest) == info.md5sum then (local + rest, |rest|)
        else
          var start := Range(remote, -1, |local| - 1);
          if md5(start + rest) == info.md5sum then (start + rest, |rest| + |start|)
          else (remote, |rest| + |start| + |remote|)
      else (remote, |remote|)
    else (remote, |remote|)
  }

  /** The listing is right about the file: then it ends up with the listed size and checksum, at the
      cost of at most the size of the file. */
  lemma FetchedIsUpToDate(md5: seq<Byte> -> Id, info: Info, old_: Option<LocalEntry>, remote: seq<Byte>)
    requires info.FileInfo? && |remote| == info.size && md5(remote) == info.md5sum
    ensures
      var (content, bytes) := Fetched(md5, info, old_, remote);
      UpToDate(md5, info, content) && bytes <= info.size
  {
    if old_.Some? && old_.value.LocalFile? && |old_.value.content| < info.size {
      var local := old_.value.content;
      PartsMakeWhole(remote, |local|);
      if |local| == 0 { assert local + Range(remote, 0, -1) == remote; }
    }
  }

  /** A correct beginning is kept, and only the rest is fetched. */
  lemma ResumesCorrectBeginning(md5: seq<Byte> -> Id, info: Info, local: seq<Byte>, remote: seq<Byte>)
    requires info.FileInfo? && |remote| == info.size && md5(remote) == info.md5sum && local < remote
    ensures Fetched(md5, info, Some(LocalFile(local)), remote) == (remote, |remote| - |local|)
  {
    ResumeMakesWhole(remote, local);
  }

  /** What the treatment of one file does to the local directory as a whole: unless the file was up
      to date, partial files beside it are gone afterwards. */
  ghost function WithFile(local: Local, path: Path, md5: seq<Byte> -> Id, info: Info, remote: seq<Byte>): Local
    requires path != [] && info.FileInfo?
  {
    if IsCurrent(local, path, md5, info) then local
    else
      var content := Fetched(md5, info, EntryAt(local, path), remote).0;
      WithoutTree(local, path)[path := LocalFile(content)] - {EndPartOf(path), StartPartOf(path)}
  }

  function WithoutTree(local: Local, path: Path): Local {
    map p | p in local && !(path <= p) :: local[p]
  }

  /** What a product directory is to look like: the depot, the order in which it shows the items of a
      directory, its content listing, the name of the file that holds the listing itself (downloaded
      separately), and the checksum in use. */
  datatype Plan = Plan(
    depot: map<Path, DepotEntry>,
    order: Path -> seq<Name>,
    listing: map<Path, Info>,
    contentFile: Id,
    md5: seq<Byte> -> Id)

  /** The file is there, with the listed size and checksum. */
  predicate IsCurrent(local: Local, path: Path, md5: seq<Byte> -> Id, info: Info) {
    path in local && local[path].LocalFile? && UpToDate(md5, info, local[path].content)
  }

  /** A directory bears the name of one of the partial files. */
  predicate PartBlocked(local: Local, path: Path)
    requires path != []
  {
    IsDirectory(local, EndPartOf(path)) || IsDirectory(local, StartPartOf(path))
  }

  /** How the treatment of one file ends. */
  ghost function FileStep(local: Local, path: Path, md5: seq<Byte> -> Id, info: Info, remote: seq<Byte>)
    : Result<Local, SyncError>
    requires path != [] && info.FileInfo?
  {
    if IsCurrent(local, path, md5, info) then Ok(local)
    else if PartBlocked(local, path) then Err(PartIsDirectory)
    else if md5(Fetched(md5, info, EntryAt(local, path), remote).0) != info.md5sum then Err(Md5Mismatch)
    else Ok(WithFile(local, path, md5, info, remote))
  }

  predicate IsDirectory(local: Local, p: Path) {
    p in local && local[p].LocalDir?
  }

  /** A directory counts like a missing file, and a file that is up to date is kept. */
  lemma FetchedCases(md5: seq<Byte> -> Id, info: Info, old_: Option<LocalEntry>, remote: seq<Byte>)
    requires info.FileInfo?
    ensures old_.Some? && old_.value.LocalDir? ==> Fetched(md5, info, old_, remote) == Fetched(md5, info, None, remote)
    ensures old_.Some? && old_.value.LocalFile? && UpToDate(md5, info, old_.value.content) ==>
              Fetched(md5, info, old_, remote) == (old_.value.content, 0)
  {
  }

  /** Entries below path exist only if path is a directory. */
  ghost predicate OnlyBelowDirs(local: Local, path: Path) {
    forall p :: p in local && path < p ==> path in local && local[path].LocalDir?
  }

  lemma ProperPrefix(a: Path, b: Path)
    requires a <= b && a != b
    ensures a < b
  {
    assert b[..|b|] == b;
  }

  /** The local directory with everything at and below path replaced by one entry, and the partial
      files gone. */
  lemma OneEntryReplaced(start: Local, before: Local, local: Local, path: Path, entry: LocalEntry)
    requires path != [] && OnlyBelowDirs(start, path)
    requires before == start || before == WithoutTree(start, path)
    requires path in start && start[path].LocalDir? ==> before == WithoutTree(start, path)
    requires local - {path, EndPartOf(path), StartPartOf(path)} == before - {path, EndPartOf(path), StartPartOf(path)}
    requires path in local && local[path] == entry && EndPartOf(path) !in local && StartPartOf(path) !in local
    ensures local == WithoutTree(start, path)[path := entry] - {EndPartOf(path), StartPartOf(path)}
  {
    PartsAreOthers(path);
    var goal := WithoutTree(start, path)[path := entry] - {EndPartOf(path), StartPartOf(path)};
    var own := {path, EndPartOf(path), StartPartOf(path)};
    forall p ensures p in local <==> p in goal
    {
      if p !in own {
        assert p in local <==> p in local - own;
        assert p in before <==> p in before - own;
        if p in start && path <= p { ProperPrefix(path, p); }
      }
    }
    forall p | p in local && p in goal ensures local[p] == goal[p] {
      if p !in own {
        assert (local - own)[p] == (before - own)[p];
      }
    }
  }

  /** From before to local, nothing has changed but what is at and below path and its partial files;
      a partial file that is a directory has not been touched either. */
  ghost predicate Unharmed(before: Local, local: Local, path: Path)
    requires path != []
  {
    forall p :: !(path <= p) && (p in {EndPartOf(path), StartPartOf(path)} ==> IsDirectory(before, p)) ==>
      Same(before, local, p)
  }

  lemma StillUnharmed(start: Local, before: Local, local: Local, path: Path)
    requires path != [] && (before == start || before == WithoutTree(start, path))
    requires local - {path, EndPartOf(path), StartPartOf(path)} == before - {path, EndPartOf(path), StartPartOf(path)}
    requires IsDirectory(before, EndPartOf(path)) ==> IsDirectory(local, EndPartOf(path))
    requires IsDirectory(before, StartPartOf(path)) ==> IsDirectory(local, StartPartOf(path))
    ensures Unharmed(start, local, path)
  {
    PartsAreOthers(path);
    var own := {path, EndPartOf(path), StartPartOf(path)};
    forall p | !(path <= p) && (p in {EndPartOf(path), StartPartOf(path)} ==> IsDirectory(start, p))
      ensures Same(start, local, p)
    {
      if p !in own {
        assert EntryAt(local - own, p) == EntryAt(before - own, p);
        assert EntryAt(local, p) == EntryAt(local - own, p);
        assert EntryAt(before, p) == EntryAt(before - own, p);
      }
    }
  }

  function EntryAt(local: Local, path: Path): Option<LocalEntry> {
    if path in local then Some(local[path]) else None
  }

  // ----- what is asked of the depot, its listing and the local directory -----

  function Parent(p: Path): Path
    requires p != []
  {
    p[..|p| - 1]
  }

  /** Everything but the root lies in a directory. */
  ghost predicate Tree(local: Local) {
    forall p :: p in local && p != [] ==> InDirectory(local, p)
  }

  ghost predicate InDirectory(local: Local, p: Path)
    requires p != []
  {
    Parent(p) in local && local[Parent(p)].LocalDir?
  }

  function ContentPath(plan: Plan): Path {
    [Plain(plan.contentFile)]
  }

  /** The listing is closed under parents, and the depot has what it lists. */
  ghost predicate Consistent(plan: Plan) {
    forall p :: p in plan.listing ==> ListedRightly(plan, p)
  }

  /** Every item of a depot directory is shown, each once. */
  ghost predicate Enumerates(depot: map<Path, DepotEntry>, order: Path -> seq<Name>) {
    forall source :: Distinct(order(source)) && forall n :: n in order(source) <==> source + [n] in depot
  }

  ghost predicate ListedRightly(plan: Plan, p: Path)
    requires p in plan.listing
  {
    && p != [] && (Parent(p) == [] || (Parent(p) in plan.listing && plan.listing[Parent(p)].DirInfo?))
    && match plan.listing[p]
       case DirInfo => p in plan.depot && plan.depot[p].DepotDir?
       case FileInfo(size, md5sum) =>
         && p in plan.depot && plan.depot[p].DepotFile?
         && |plan.depot[p].content| == size && plan.md5(plan.depot[p].content) == md5sum
       case LinkInfo(_) => true
  }

  /** A listed file that is brought up to date in a run. */
  ghost predicate Fetchable(plan: Plan, p: Path) {
    p in plan.listing && plan.listing[p].FileInfo? && !Skipped(plan, p)
  }

  /** No such file has a listed neighbour whose name is its own with the suffix of a partial file. */
  ghost predicate NoClash(plan: Plan) {
    forall p :: Fetchable(plan, p) ==> p != [] && EndPartOf(p) !in plan.listing && StartPartOf(p) !in plan.listing
  }

  /** At or below the listing file itself, or a link. */
  ghost predicate Skipped(plan: Plan, p: Path) {
    exists q :: q <= p && SkipsFrom(plan, q)
  }

  ghost predicate SkipsFrom(plan: Plan, q: Path) {
    q == ContentPath(plan) || (q in plan.listing && plan.listing[q].LinkInfo?)
  }

  ghost predicate Same(old_: Local, local: Local, p: Path) {
    EntryAt(local, p) == EntryAt(old_, p)
  }

  /** What p is to look like in the end: as before if skipped, else as listed. */
  ghost predicate Settled(plan: Plan, old_: Local, local: Local, p: Path) {
    if Skipped(plan, p) then Same(old_, local, p)
    else if p !in plan.listing then p !in local
    else p in local && match plan.listing[p]
                       case DirInfo => local[p].LocalDir?
                       case FileInfo(_, _) =>
                         local[p].LocalFile? && UpToDate(plan.md5, plan.listing[p], local[p].content)
                       case LinkInfo(_) => true
  }

  /** The child of source on the way to p. */
  function Child(source: Path, p: Path): Path
    requires source < p
  {
    p[..|source| + 1]
  }

  ghost predicate KeepsName(plan: Plan, c: Path) {
    c == ContentPath(plan) || c in plan.listing
  }

  /** After the cleanup: what is below an unlisted name is gone, the rest is as before. */
  ghost predicate Cleaned(plan: Plan, old_: Local, local: Local, source: Path, p: Path)
    requires source < p
  {
    if KeepsName(plan, Child(source, p)) then Same(old_, local, p) else p !in local
  }

  // ----- lemmas about paths -----

  lemma ChildFacts(source: Path, p: Path)
    requires source < p
    ensures source < Child(source, p) <= p && Parent(Child(source, p)) == source
    ensures p == Child(source, p) || Child(source, p) < p
  {
    var c := Child(source, p);
    assert c[..|source|] == source;
    if p != c { ProperPrefix(c, p); }
  }

  lemma ParentFacts(source: Path, p: Path)
    requires source < p
    ensures source == Parent(p) || source < Parent(p)
  {
    assert p[..|p| - 1][..|source|] == source;
    if source != Parent(p) { ProperPrefix(source, Parent(p)); }
  }

  lemma {:induction false} AncestorsAreDirs(local: Local, source: Path, p: Path)
    requires Tree(local) && p in local && source < p
    ensures source in local && local[source].LocalDir?
    decreases |p|
  {
    ParentFacts(source, p);
    assert InDirectory(local, p);
    if source == Parent(p) {
    } else {
      AncestorsAreDirs(local, source, Parent(p));
    }
  }

  lemma TreeOnlyBelowDirs(local: Local, path: Path)
    requires Tree(local)
    ensures OnlyBelowDirs(local, path)
  {
    forall p | p in local && path < p ensures path in local && local[path].LocalDir? {
      AncestorsAreDirs(local, path, p);
    }
  }

  /** What lies above something listed is listed as a directory. */
  lemma {:induction false} AncestorsAreListed(plan: Plan, source: Path, p: Path)
    requires Consistent(plan) && p in plan.listing && source < p && source != []
    ensures source in plan.listing && plan.listing[source].DirInfo?
    decreases |p|
  {
    ParentFacts(source, p);
    assert ListedRightly(plan, p);
    if source == Parent(p) {
    } else {
      AncestorsAreListed(plan, source, Parent(p));
    }
  }

  /** Below a directory that is not skipped, a path is skipped from its child or from further down. */
  lemma SkippedBelow(plan: Plan, source: Path, p: Path)
    requires Consistent(plan) && source < p && !Skipped(plan, source)
    ensures Skipped(plan, p) ==> KeepsName(plan, Child(source, p))
    ensures SkipsFrom(plan, Child(source, p)) ==> Skipped(plan, p)
    ensures Skipped(plan, p) && !SkipsFrom(plan, Child(source, p)) ==>
              Child(source, p) in plan.listing && plan.listing[Child(source, p)].DirInfo?
  {
    ChildFacts(source, p);
    var c := Child(source, p);
    if Skipped(plan, p) {
      var q :| q <= p && SkipsFrom(plan, q);
      assert |q| <= |source| ==> q <= source;
      if |q| > |source| {
        assert c == q[..|c|];
        if q != c {
          ProperPrefix(c, q);
          assert q != ContentPath(plan);
          AncestorsAreListed(plan, c, q);
        }
      }
    }
  }

  // ----- the steps -----

  /** A listed directory whose parents are not skipped. */
  ghost predicate Visited(plan: Plan, source: Path) {
    !Skipped(plan, source) && (source == [] || (source in plan.listing && plan.listing[source].DirInfo?))
  }

  lemma RootVisited(plan: Plan)
    requires Consistent(plan)
    ensures Visited(plan, [])
  {
    forall q: Path | q in plan.listing ensures q != [] {
      assert ListedRightly(plan, q);
    }
    forall q: Path | q <= [] ensures !SkipsFrom(plan, q) {
      assert q == [];
    }
  }

  lemma ChildVisited(plan: Plan, source: Path, c: Path)
    requires Consistent(plan) && Visited(plan, source) && source < c && Parent(c) == source
    requires c in plan.listing && plan.listing[c].DirInfo? && c != ContentPath(plan)
    ensures Visited(plan, c)
  {
    assert Child(source, c) == c;
    forall q | q <= c ensures !SkipsFrom(plan, q) {
      if q != c {
        ProperPrefix(q, c);
        assert q == c[..|q|] && q <= source;
      }
    }
  }

  /** The whole of what has been done below source, once the children in done are through: these are
      settled, the others as the cleanup left them. */
  ghost predicate Progress(plan: Plan, old_: Local, local: Local, source: Path, done: set<Name>) {
    && Tree(local) && source in local && local[source].LocalDir?
    && (forall p :: !(source <= p) ==> Same(old_, local, p))
    && (forall p :: source < p ==> ProgressAt(plan, old_, local, source, done, p))
  }

  ghost predicate ProgressAt(plan: Plan, old_: Local, local: Local, source: Path, done: set<Name>, p: Path)
    requires source < p
  {
    if p[|source|] in done then Settled(plan, old_, local, p) else Cleaned(plan, old_, local, source, p)
  }

  /** Everything below source is as it should be, and so is source. */
  ghost predicate Mirrored(plan: Plan, old_: Local, local: Local, source: Path) {
    && Tree(local) && source in local && local[source].LocalDir?
    && (forall p :: !(source <= p) ==> Same(old_, local, p))
    && (forall p :: source < p ==> Settled(plan, old_, local, p))
  }

  /** A name of the listing that the depot does not show can only be a link: nothing is left to do. */
  lemma AllChildrenDone(plan: Plan, old_: Local, local: Local, source: Path, done: set<Name>)
    requires Consistent(plan) && Visited(plan, source) && Progress(plan, old_, local, source, done)
    requires forall n :: n !in done ==> source + [n] !in plan.depot
    ensures Mirrored(plan, old_, local, source)
  {
    forall p | source < p ensures Settled(plan, old_, local, p) {
      assert ProgressAt(plan, old_, local, source, done, p);
      var n, c := p[|source|], Child(source, p);
      ChildFacts(source, p);
      if n !in done {
        assert c == source + [n];
        if c in plan.listing { assert ListedRightly(plan, c); }
        UnshownChild(plan, old_, local, source, p);
      }
    }
  }

  lemma UnshownChild(plan: Plan, old_: Local, local: Local, source: Path, p: Path)
    requires Consistent(plan) && Visited(plan, source) && source < p && Cleaned(plan, old_, local, source, p)
    requires Child(source, p) in plan.listing && Child(source, p) != ContentPath(plan) ==>
              plan.listing[Child(source, p)].LinkInfo?
    ensures Settled(plan, old_, local, p)
  {
    var c := Child(source, p);
    SkippedBelow(plan, source, p);
    ChildFacts(source, p);
    if !KeepsName(plan, c) && p in plan.listing {
      if p != c { AncestorsAreListed(plan, c, p); }
    }
  }

  /** A child that is passed over is settled as the cleanup left it. */
  lemma ItemPassedOver(plan: Plan, old_: Local, local: Local, source: Path, done: set<Name>, n: Name)
    requires Consistent(plan) && Visited(plan, source) && Progress(plan, old_, local, source, done)
    requires
      var c := source + [n];
      c == ContentPath(plan) || c !in plan.listing || plan.listing[c].LinkInfo?
    ensures Progress(plan, old_, local, source, done + {n})
  {
    forall p | source < p ensures ProgressAt(plan, old_, local, source, done + {n}, p) {
      assert ProgressAt(plan, old_, local, source, done, p);
      if p[|source|] == n && n !in done {
        assert Child(source, p) == source + [n];
        UnshownChild(plan, old_, local, source, p);
      }
    }
  }

  /** A directory has been mirrored by a call of its own. */
  lemma DirectoryDone(plan: Plan, old_: Local, before: Local, local: Local, source: Path, done: set<Name>, n: Name)
    requires Consistent(plan) && Visited(plan, source) && Progress(plan, old_, before, source, done) && n !in done
    requires
      var c := source + [n];
      c != ContentPath(plan) && c in plan.listing && plan.listing[c].DirInfo? && Mirrored(plan, before, local, c)
    ensures Progress(plan, old_, local, source, done + {n})
  {
    var c := source + [n];
    forall p | !(source <= p) ensures Same(old_, local, p) {
      assert !(c <= p) && Same(old_, before, p) && Same(before, local, p);
    }
    assert Same(before, local, source);
    forall p | source < p ensures ProgressAt(plan, old_, local, source, done + {n}, p) {
      assert ProgressAt(plan, old_, before, source, done, p);
      ChildFacts(source, p);
      if p[|source|] == n {
        assert Child(source, p) == c;
        if p == c {
          SkippedBelow(plan, source, p);
          ChildVisited(plan, source, c);
        } else {
          assert Settled(plan, before, local, p) && Same(old_, before, p);
        }
      } else {
        assert !(c <= p) && Same(before, local, p);
      }
    }
  }

  lemma FileVisited(plan: Plan, source: Path, c: Path, p: Path)
    requires Consistent(plan) && Visited(plan, source) && source < c && Parent(c) == source && c <= p
    requires c in plan.listing && plan.listing[c].FileInfo? && c != ContentPath(plan)
    ensures !Skipped(plan, p) && (p != c ==> p !in plan.listing)
  {
    assert source < p && Child(source, p) == c by { assert c == p[..|c|]; }
    SkippedBelow(plan, source, p);
    if p != c {
      ProperPrefix(c, p);
      if p in plan.listing { AncestorsAreListed(plan, c, p); }
    }
  }

  /** The partial files of a listed file are names the cleanup has removed. */
  lemma PartsAreGone(plan: Plan, old_: Local, local: Local, source: Path, done: set<Name>, c: Path)
    requires Consistent(plan) && NoClash(plan) && Visited(plan, source) && Progress(plan, old_, local, source, done)
    requires source < c && Parent(c) == source && c in plan.listing && plan.listing[c].FileInfo? &&
              c != ContentPath(plan)
    ensures EndPartOf(c) !in local && StartPartOf(c) !in local
  {
    FileVisited(plan, source, c, c);
    assert Fetchable(plan, c);
    PartGone(plan, old_, local, source, done, EndPartOf(c));
    PartGone(plan, old_, local, source, done, StartPartOf(c));
  }

  lemma PartGone(plan: Plan, old_: Local, local: Local, source: Path, done: set<Name>, part: Path)
    requires Consistent(plan) && Visited(plan, source) && Progress(plan, old_, local, source, done)
    requires source < part && Parent(part) == source && !KeepsName(plan, part)
    ensures part !in local
  {
    assert Child(source, part) == part;
    SkippedBelow(plan, source, part);
    assert ProgressAt(plan, old_, local, source, done, part);
  }

  /** A file has been brought up to date. */
  lemma FileDone(plan: Plan, old_: Local, before: Local, source: Path, done: set<Name>, n: Name)
    requires Consistent(plan) && NoClash(plan) && Visited(plan, source)
    requires Progress(plan, old_, before, source, done) && n !in done
    requires
      var c := source + [n];
      && c != ContentPath(plan) && c in plan.listing && plan.listing[c].FileInfo?
      && c in plan.depot && plan.depot[c].DepotFile?
    ensures
      var c := source + [n];
      Progress(plan, old_, WithFile(before, c, plan.md5, plan.listing[c], plan.depot[c].content), source, done + {n})
  {
    var c := source + [n];
    assert source < c && Parent(c) == source;
    var info, remote := plan.listing[c], plan.depot[c].content;
    var local := WithFile(before, c, plan.md5, info, remote);
    assert ListedRightly(plan, c);
    PartsAreGone(plan, old_, before, source, done, c);
    FileEffect(before, c, plan.md5, info, remote);
    FileTree(plan, before, c, info, remote);
    hide WithFile;
    assert Same(before, local, source);
    forall p | !(source <= p) ensures Same(old_, local, p) {
      assert !(c <= p) && Same(old_, before, p) && Same(before, local, p);
    }
    forall p | source < p ensures ProgressAt(plan, old_, local, source, done + {n}, p) {
      assert ProgressAt(plan, old_, before, source, done, p);
      ChildFacts(source, p);
      if c <= p {
        FileVisited(plan, source, c, p);
        assert p[|source|] == n;
        if p != c { ProperPrefix(c, p); }
      } else {
        assert Child(source, p) != c && p[|source|] != n;
        assert Same(before, local, p);
      }
    }
  }

  /** What changes is the file itself, and all below it. */
  lemma FileEffect(before: Local, c: Path, md5: seq<Byte> -> Id, info: Info, remote: seq<Byte>)
    requires c != [] && info.FileInfo? && |remote| == info.size && md5(remote) == info.md5sum
    requires EndPartOf(c) !in before && StartPartOf(c) !in before
    ensures
      var local := WithFile(before, c, md5, info, remote);
      && c in local && local[c].LocalFile? && UpToDate(md5, info, local[c].content)
      && forall p :: !(c <= p) ==> Same(before, local, p)
  {
    FetchedIsUpToDate(md5, info, EntryAt(before, c), remote);
    PartsAreOthers(c);
    hide Fetched, UpToDate;
  }

  lemma FileTree(plan: Plan, before: Local, c: Path, info: Info, remote: seq<Byte>)
    requires Tree(before) && c != [] && InDirectory(before, c) && info.FileInfo? && !PartBlocked(before, c)
    ensures Tree(WithFile(before, c, plan.md5, info, remote))
    ensures forall p :: c < p ==> p !in WithFile(before, c, plan.md5, info, remote)
  {
    hide Fetched, UpToDate;
    var local := WithFile(before, c, plan.md5, info, remote);
    PartsAreOthers(c);
    TreeOnlyBelowDirs(before, c);
    forall p | p in local && p != [] ensures InDirectory(local, p) {
      if p != c {
        assert p in before && InDirectory(before, p);
        assert !(c <= p) || local == before;
        assert c <= Parent(p) ==> c <= p;
      } else {
        assert !(c <= Parent(c));
      }
    }
  }

  // ----- the cleanup -----

  /** The local directory without what is at and below the names in gone. */
  ghost function WithoutNames(local: Local, source: Path, gone: set<Name>): Local {
    map p | p in local && !(source < p && p[|source|] in gone) :: local[p]
  }

  lemma OneNameLess(local: Local, source: Path, gone: set<Name>, n: Name)
    ensures WithoutTree(WithoutNames(local, source, gone), source + [n]) == WithoutNames(local, source, gone + {n})
  {
    var c := source + [n];
    forall p: Path ensures c <= p <==> source < p && p[|source|] == n {
      if source < p {
        assert p[..|c|] == source + [p[|source|]];
      }
    }
  }

  lemma FileIsTree(local: Local, path: Path)
    requires OnlyBelowDirs(local, path) && path in local && local[path].LocalFile?
    ensures local - {path} == WithoutTree(local, path)
  {
    forall p | p in local && path <= p ensures p == path {
      if p != path { ProperPrefix(path, p); }
    }
  }

  /** Exactly the unlisted names are gone. */
  lemma CleanupDone(plan: Plan, start: Local, source: Path, gone: set<Name>)
    requires Tree(start) && source in start && start[source].LocalDir?
    requires forall n :: n in gone ==> !KeepsName(plan, source + [n])
    requires forall n :: source + [n] in start && !KeepsName(plan, source + [n]) ==> n in gone
    ensures Progress(plan, start, WithoutNames(start, source, gone), source, {})
  {
    var local := WithoutNames(start, source, gone);
    forall p | p in local && p != [] ensures InDirectory(local, p) {
      assert InDirectory(start, p);
      if source < Parent(p) {
        assert source < p && p[|source|] == Parent(p)[|source|];
      }
    }
    forall p | source < p ensures ProgressAt(plan, start, local, source, {}, p) {
      ChildFacts(source, p);
      var c := Child(source, p);
      assert c == source + [p[|source|]];
      if p in start && !KeepsName(plan, c) {
        if p != c { AncestorsAreDirs(start, c, p); }
      }
    }
  }

  /** What source itself was before does not matter. */
  lemma FromBefore(plan: Plan, old_: Local, start: Local, local: Local, source: Path)
    requires Progress(plan, start, local, source, {})
    requires forall p :: p != source ==> Same(old_, start, p)
    ensures Progress(plan, old_, local, source, {})
  {
    forall p | !(source <= p) ensures Same(old_, local, p) {
      assert Same(start, local, p) && Same(old_, start, p);
    }
    forall p | source < p ensures ProgressAt(plan, old_, local, source, {}, p) {
      assert ProgressAt(plan, start, local, source, {}, p) && Same(old_, start, p);
    }
  }

  /** Making the directory changes nothing but source. */
  lemma DirectoryMade(old_: Local, source: Path)
    requires Tree(old_) && (source == [] || InDirectory(old_, source))
    requires source in old_ ==> old_[source].LocalFile?
    ensures Tree(old_[source := LocalDir])
  {
    var local := old_[source := LocalDir];
    forall p | p in local && p != [] ensures InDirectory(local, p) {
      if p == source {
        assert Parent(p) != p;
      } else {
        assert InDirectory(old_, p);
      }
    }
  }

  ghost function FirstNames(names: seq<Name>, n: nat): set<Name>
    requires n <= |names|
  {
    set j | 0 <= j < n :: names[j]
  }

  /** The listed paths below source: the measure of the recursion. */
  ghost function ListedBelow(plan: Plan, source: Path): set<Path> {
    set p | p in plan.listing && source < p
  }

  lemma ListedBelowShrinks(plan: Plan, source: Path, c: Path)
    requires source < c && c in plan.listing
    ensures ListedBelow(plan, c) < ListedBelow(plan, source)
  {
    forall p | p in ListedBelow(plan, c) ensures p in ListedBelow(plan, source) {
      assert p[..|source|] == c[..|source|];
      assert source == c[..|source|];
      assert |source| < |c| < |p|;
    }
    assert c in ListedBelow(plan, source) && c !in ListedBelow(plan, c);
  }

  // ----- a second run -----

  /** The directory and all below it are as listed. */
  ghost predicate InSync(plan: Plan, local: Local, source: Path) {
    source in local && local[source].LocalDir? && forall p :: source < p ==> Settled(plan, local, local, p)
  }

  lemma MirroredIsInSync(plan: Plan, old_: Local, local: Local, source: Path)
    requires Mirrored(plan, old_, local, source)
    ensures InSync(plan, local, source)
  {
    forall p | source < p ensures Settled(plan, local, local, p) {
      assert Settled(plan, old_, local, p);
    }
  }

  lemma ChildInSync(plan: Plan, local: Local, source: Path, n: Name)
    requires Consistent(plan) && Visited(plan, source) && InSync(plan, local, source)
    requires source + [n] in plan.listing && plan.listing[source + [n]].DirInfo? && source + [n] != ContentPath(plan)
    ensures InSync(plan, local, source + [n])
  {
    var c := source + [n];
    assert Parent(c) == source;
    ChildVisited(plan, source, c);
    assert c <= c;
    assert Settled(plan, local, local, c);
  }

  lemma FileInSync(plan: Plan, local: Local, source: Path, n: Name)
    requires Consistent(plan) && Visited(plan, source) && InSync(plan, local, source)
    requires source + [n] in plan.listing && plan.listing[source + [n]].FileInfo? && source + [n] != ContentPath(plan)
    ensures IsCurrent(local, source + [n], plan.md5, plan.listing[source + [n]])
  {
    var c := source + [n];
    assert Parent(c) == source && source < c;
    FileVisited(plan, source, c, c);
    assert Settled(plan, local, local, c);
  }

  // ----- the whole product -----

  /** The local directory once the listing has been fetched. */
  function WithListing(plan: Plan, local: Local, listingFile: seq<Byte>): Local {
    local[[] := LocalDir][ContentPath(plan) := LocalFile(listingFile)]
  }

  lemma ListingAdded(plan: Plan, local: Local, listingFile: seq<Byte>)
    requires Tree(local) && ([] in local ==> local[[]].LocalDir?)
    requires ContentPath(plan) in local ==> local[ContentPath(plan)].LocalFile?
    ensures Tree(WithListing(plan, local, listingFile))
    ensures [] in local ==> local[[] := LocalDir] == local
  {
    var added := WithListing(plan, local, listingFile);
    assert Parent(ContentPath(plan)) == [];
    forall p | p in added && p != [] ensures InDirectory(added, p) {
      if p != ContentPath(plan) { assert InDirectory(local, p); }
    }
  }

  /** Without links, a mirrored product directory holds the listed paths and the listing, and nothing
      else; every listed file has the listed size and checksum. */
  lemma MirroredExactly(plan: Plan, start: Local, local: Local)
    requires Consistent(plan) && Tree(start) && Mirrored(plan, start, local, [])
    requires ContentPath(plan) in start && start[ContentPath(plan)].LocalFile? && ContentPath(plan) !in plan.listing
    requires forall p :: p in plan.listing ==> !plan.listing[p].LinkInfo?
    ensures local.Keys == {[], ContentPath(plan)} + plan.listing.Keys
    ensures local[ContentPath(plan)] == start[ContentPath(plan)]
    ensures forall p :: p in plan.listing && plan.listing[p].FileInfo? ==>
              && local[p].LocalFile? && |local[p].content| == plan.listing[p].size
              && plan.md5(local[p].content) == plan.listing[p].md5sum
    ensures forall p :: p in plan.listing && plan.listing[p].DirInfo? ==> local[p].LocalDir?
  {
    var content := ContentPath(plan);
    forall p | p != [] ensures p in local <==> p == content || p in plan.listing
                       ensures p == content ==> Same(start, local, p)
                       ensures p in plan.listing ==> !Skipped(plan, p) && Settled(plan, start, local, p)
    {
      ProperPrefix([], p);
      assert Settled(plan, start, local, p);
      assert SkipsFrom(plan, content) && (Skipped(plan, p) <==> content <= p);
      if content <= p && p != content {
        ProperPrefix(content, p);
        if p in start { AncestorsAreDirs(start, content, p); }
        if p in plan.listing { AncestorsAreListed(plan, content, p); }
      }
    }
    forall q | q in plan.listing ensures q != [] {
      assert ListedRightly(plan, q);
    }
  }

  /** If moreover no two contents have the same checksum, every listed file equals the depot's. */
  lemma MirroredEqualsDepot(plan: Plan, start: Local, local: Local, p: Path)
    requires Consistent(plan) && Tree(start) && Mirrored(plan, start, local, [])
    requires ContentPath(plan) in start && start[ContentPath(plan)].LocalFile? && ContentPath(plan) !in plan.listing
    requires forall q :: q in plan.listing ==> !plan.listing[q].LinkInfo?
    requires forall a, b :: plan.md5(a) == plan.md5(b) ==> a == b
    requires p in plan.listing && plan.listing[p].FileInfo?
    ensures p in plan.depot && plan.depot[p].DepotFile? && p in local && local[p] == LocalFile(plan.depot[p].content)
  {
    hide Mirrored, Tree;
    MirroredExactly(plan, start, local);
    assert ListedRightly(plan, p);
    assert plan.md5(local[p].content) == plan.md5(plan.depot[p].content);
  }
}
