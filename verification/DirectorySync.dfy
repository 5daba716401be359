/** Mirroring a product directory of a depot, as its content listing describes it. */
module DirectorySync {
  import opened Collections
  import opened Transfer
  import opened DirectoryPlan
  import opened DirectoryRun

  class Synchronizer {
    const plan: Plan
    const repository: Repository
    var local: Local
    ghost var fetched: nat  // bytes downloaded so far

    constructor (plan: Plan, local: Local)
      ensures this.plan == plan && this.local == local && fetched == 0
      ensures repository.Valid() && fresh(repository) && fresh(repository.limiter)
    {
      this.plan := plan;
      this.local := local;
      this.fetched := 0;
      this.repository := new Repository();
    }

    method Remove(path: Path)
      requires path in local && local[path].LocalFile?
      modifies `local
      ensures local == old(local) - {path}
    {
      local := local - {path};
    }

    method RemoveTree(path: Path)
      modifies `local
      ensures local == WithoutTree(old(local), path)
    {
      local := WithoutTree(local, path);
    }

    method DownloadTo(remote: seq<Byte>, path: Path, start: int, end: int)
      requires repository.Valid()
      modifies `local, `fetched, repository, repository.limiter
      ensures repository.Valid()
      ensures local == old(local)[path := LocalFile(Range(remote, start, end))]
      ensures fetched == old(fetched) + |Range(remote, start, end)|
    {
      var content := repository.Download(remote, start, end);
      local := local[path := LocalFile(content)];
      fetched := fetched + |content|;
    }

    predicate IsFile(path: Path)
      reads this
    {
      path in local && local[path].LocalFile?
    }

    /** The local directory agrees with before except at path and its partial files; these are
        directories only where they were. */
    ghost predicate SameElsewhere(before: Local, path: Path)
      requires path != []
      reads this
    {
      var own := {path, EndPartOf(path), StartPartOf(path)};
      && local - own == before - own
      && (IsDirectory(local, EndPartOf(path)) <==> IsDirectory(before, EndPartOf(path)))
      && (IsDirectory(local, StartPartOf(path)) <==> IsDirectory(before, StartPartOf(path)))
    }

    /** Appends the missing end. */
    method AppendEnd(path: Path, remote: seq<Byte>, ghost before: Local)
      requires repository.Valid() && path != [] && IsFile(path) && SameElsewhere(before, path)
      requires !IsDirectory(local, EndPartOf(path))
      modifies `local, `fetched, repository, repository.limiter
      ensures repository.Valid() && IsFile(path) && IsFile(EndPartOf(path)) && SameElsewhere(before, path)
      ensures
        var begin := old(local)[path].content;
        var rest := Range(remote, |begin|, -1);
        && local[path].content == begin + rest && local[EndPartOf(path)].content == rest
        && fetched == old(fetched) + |rest|
    {
      var endPart := EndPartOf(path);
      PartsAreOthers(path);
      var localSize := |local[path].content|;
      if endPart in local {
        Remove(endPart);
      }
      DownloadTo(remote, endPart, localSize, -1);
      local := local[path := LocalFile(local[path].content + local[endPart].content)];
    }

    /** Fetches the beginning too and puts both parts together. */
    method ReplaceStart(path: Path, remote: seq<Byte>, localSize: nat, ghost before: Local)
      requires repository.Valid() && path != [] && IsFile(path) && IsFile(EndPartOf(path)) &&
                SameElsewhere(before, path)
      requires !IsDirectory(local, StartPartOf(path))
      modifies `local, `fetched, repository, repository.limiter
      ensures repository.Valid() && IsFile(path) && SameElsewhere(before, path)
      ensures
        var start := Range(remote, -1, localSize - 1);
        && local[path].content == start + old(local)[EndPartOf(path)].content
        && fetched == old(fetched) + |start|
    {
      var endPart, startPart := EndPartOf(path), StartPartOf(path);
      PartsAreOthers(path);
      if startPart in local {
        Remove(startPart);
      }
      DownloadTo(remote, startPart, -1, localSize - 1);
      local := local[startPart := LocalFile(local[startPart].content + local[endPart].content)];
      Remove(path);
      local := local[path := local[startPart]] - {startPart};
    }

    /** Completes a file that is too short: first by its missing end, then, should that not do, by
        its beginning too. Failing to remove an old partial file is caught, and nothing composed. */
    method Complete(path: Path, info: Info, remote: seq<Byte>, ghost before: Local) returns (composed: bool)
      requires repository.Valid() && path != [] && info.FileInfo? && IsFile(path) && SameElsewhere(before, path)
      requires |local[path].content| < info.size && !UpToDate(plan.md5, info, local[path].content)
      modifies `local, `fetched, repository, repository.limiter
      ensures repository.Valid() && IsFile(path) && SameElsewhere(before, path)
      ensures
        var (content, bytes) := Fetched(plan.md5, info, Some(old(local)[path]), remote);
        !PartBlocked(before, path) ==>
          && fetched == old(fetched) + bytes - (if composed then 0 else |remote|)
          && if composed then local[path].content == content && plan.md5(content) == info.md5sum else content == remote
    {
      var localSize := |local[path].content|;
      PartsAreOthers(path);
      if IsDirectory(local, EndPartOf(path)) {
        return false;
      }
      AppendEnd(path, remote, before);
      composed := true;
      if plan.md5(local[path].content) != info.md5sum {
        if IsDirectory(local, StartPartOf(path)) {
          return false;
        }
        ReplaceStart(path, remote, localSize, before);
        composed := plan.md5(local[path].content) == info.md5sum;
      }
    }

    /** Removes a partial file, unless it is a directory. */
    method RemovePart(path: Path, part: Path, ghost before: Local) returns (removed: bool)
      requires path != [] && SameElsewhere(before, path) && part in {EndPartOf(path), StartPartOf(path)}
      modifies `local
      ensures removed <==> !IsDirectory(before, part)
      ensures SameElsewhere(before, path) && local == if removed then old(local) - {part} else old(local)
    {
      PartsAreOthers(path);
      if IsDirectory(local, part) {
        return false;
      }
      if part in local {
        Remove(part);
      }
      removed := true;
    }

    /** Gets hold of a file that is missing or not up to date. */
    method Obtain(path: Path, info: Info, remote: seq<Byte>) returns (r: Result<(), SyncError>)
      requires repository.Valid() && path != [] && info.FileInfo? && SameElsewhere(local, path)
      requires path in local ==> IsFile(path) && !UpToDate(plan.md5, info, local[path].content)
      modifies `local, `fetched, repository, repository.limiter
      ensures repository.Valid() && SameElsewhere(old(local), path)
      ensures PartBlocked(old(local), path) ==> r == Err(PartIsDirectory)
      ensures !PartBlocked(old(local), path) ==> EndPartOf(path) !in local && StartPartOf(path) !in local
      ensures
        var (content, bytes) := Fetched(plan.md5, info, EntryAt(old(local), path), remote);
        !PartBlocked(old(local), path) ==>
          && EntryAt(local, path) == Some(LocalFile(content)) && fetched == old(fetched) + bytes
          && r == if plan.md5(content) == info.md5sum then Ok(()) else Err(Md5Mismatch)
    {
      PartsAreOthers(path);
      ghost var before := local;
      var composed := false;
      if path in local && |local[path].content| < info.size {
        composed := Complete(path, info, remote, before);
      }
      assert !(path in before && |before[path].content| < info.size) ==>
        Fetched(plan.md5, info, EntryAt(before, path), remote) == (remote, |remote|);
      assert Range(remote, -1, -1) == remote;
      hide Fetched;
      var removed := RemovePart(path, EndPartOf(path), before);
      if removed {
        removed := RemovePart(path, StartPartOf(path), before);
      }
      if !removed {
        return Err(PartIsDirectory);
      }
      if !composed {
        if path in local {
          Remove(path);
        }
        DownloadTo(remote, path, -1, -1);
      }
      r := if plan.md5(local[path].content) == info.md5sum then Ok(()) else Err(Md5Mismatch);
    }

    /** Brings one file up to date; if that fails because a directory bears the name of a partial
        file, nothing but the file and the other partial file has been touched. */
    method SyncFile(path: Path, info: Info, remote: seq<Byte>) returns (r: Result<(), SyncError>)
      requires repository.Valid() && path != [] && info.FileInfo? && OnlyBelowDirs(local, path)
      modifies `local, `fetched, repository, repository.limiter
      ensures repository.Valid()
      ensures
        var step := FileStep(old(local), path, plan.md5, info, remote);
        && r == (if step.Ok? then Ok(()) else Err(step.error))
        && (step.Ok? ==> local == step.value)
        && (step == Err(Md5Mismatch) ==> local == WithFile(old(local), path, plan.md5, info, remote))
        && (step == Err(PartIsDirectory) ==> Unharmed(old(local), local, path))
        && (step != Err(PartIsDirectory) ==>
              fetched == old(fetched) + Fetched(plan.md5, info, EntryAt(old(local), path), remote).1)
    {
      PartsAreOthers(path);
      FetchedCases(plan.md5, info, EntryAt(local, path), remote);
      if path in local && local[path].LocalDir? {
        RemoveTree(path);
      }
      if path in local {
        if |local[path].content| == info.size && plan.md5(local[path].content) == info.md5sum {
          return Ok(());
        }
      }
      ghost var before := local;
      r := Obtain(path, info, remote);
      hide Fetched;
      if PartBlocked(before, path) {
        StillUnharmed(old(local), before, local, path);
      } else {
        OneEntryReplaced(old(local), before, local, path, local[path]);
      }
    }

    // ----- directories -----

    /** The names of what lies directly in source, each once, in any order. */
    method ListDir(source: Path) returns (names: seq<Name>)
      ensures forall n :: n in names <==> source + [n] in local
      ensures Distinct(names)
    {
      var rest := set p | p in local && source < p && |p| == |source| + 1;
      names := [];
      while rest != {}
        invariant forall p :: p in rest ==> source < p && |p| == |source| + 1
        invariant forall n :: source + [n] in local <==> n in names || source + [n] in rest
        invariant forall n :: n in names ==> source + [n] !in rest
        invariant Distinct(names)
      {
        var p :| p in rest;
        var n := p[|source|];
        assert p == source + [n];
        names := names + [n];
        rest := rest - {p};
        forall m ensures source + [m] == p <==> m == n {
          assert (source + [m])[|source|] == m;
        }
      }
      assert forall n :: source + [n] in local <==> n in names;
    }

    /** Removes what the listing does not have. */
    method Cleanup(source: Path)
      requires Tree(local) && IsDirectory(local, source)
      modifies `local
      ensures local == WithoutNames(old(local), source, Unlisted(plan, old(local), source))
    {
      ghost var start := local;
      ghost var gone: set<Name> := {};
      var names := ListDir(source);
      assert WithoutNames(start, source, gone) == start;
      for i := 0 to |names|
        invariant forall n :: n in gone ==> !KeepsName(plan, source + [n]) && source + [n] in start
        invariant forall j :: 0 <= j < i && !KeepsName(plan, source + [names[j]]) ==> names[j] in gone
        invariant forall j :: i <= j < |names| ==> names[j] !in gone
        invariant local == WithoutNames(start, source, gone)
      {
        var c := source + [names[i]];
        if c != ContentPath(plan) && c !in plan.listing {
          OneNameLess(start, source, gone, names[i]);
          TreeOnlyBelowDirs(start, c);
          assert c[|source|] == names[i];
          assert c in start && c in local;
          if local[c].LocalDir? {
            RemoveTree(c);
          } else {
            FileIsTree(local, c);
            Remove(c);
          }
          gone := gone + {names[i]};
        }
      }
      UnlistedNames(plan, start, source, gone);
    }

    method MakeDirectory(source: Path)
      modifies `local
      ensures local == WithDirectory(old(local), source)
    {
      if !IsDirectory(local, source) {
        if source in local {
          Remove(source);
        }
        local := local[source := LocalDir];
        assert local == old(local)[source := LocalDir];
      }
    }

    /** The directory is there, and what is not listed is gone. */
    method Prepare(source: Path)
      requires ReadyFor(local, source)
      modifies `local
      ensures local == Prepared(plan, old(local), source)
    {
      if !IsDirectory(local, source) { DirectoryMade(local, source); }
      MakeDirectory(source);
      Cleanup(source);
    }

    /** Makes the local directory source look as listed, taking the items in the order in which the
        depot shows them. Without clashing names it ends with everything as listed; where everything
        is as listed already, nothing is touched and nothing downloaded. */
    method SynchronizeDirectories(source: Path) returns (r: Result<(), SyncError>)
      requires repository.Valid() && Consistent(plan) && Enumerates(plan.depot, plan.order)
      requires Visited(plan, source) && ReadyFor(local, source)
      modifies `local, `fetched, repository, repository.limiter
      ensures repository.Valid()
      ensures EndsLike(r, Run(plan, old(local), source))
      ensures NoClash(plan) ==> r.Ok? && Mirrored(plan, old(local), local, source)
      ensures InSync(plan, old(local), source) ==> r.Ok? && local == old(local) && fetched == old(fetched)
      decreases ListedBelow(plan, source), 1
    {
      hide Progress, Settled, InSync, Mirrored, Consistent, NoClash, Visited, Tree, Prepared;
      ghost var start := local;
      PreparedFacts(plan, start, source);
      if InSync(plan, start, source) { PreparedInSync(plan, start, source); }
      if NoClash(plan) { RunMirrors(plan, start, source); }
      Prepare(source);
      PreparedIsTree(plan, start, source);
      ghost var run := RunEntries(plan, local, source, plan.order(source), 0);
      var names := plan.order(source);
      for k := 0 to |names|
        invariant repository.Valid() && Tree(local) && IsDirectory(local, source)
        invariant RunEntries(plan, local, source, names, k) == run
        invariant InSync(plan, start, source) ==> local == start && fetched == old(fetched)
      {
        EntryConfined(plan, local, source, names[k]);
        r := SynchronizeEntry(source, names[k]);
        if r.Err? {
          return;
        }
      }
      r := Ok(());
    }

    /** The run's result, and on success the directory it leaves. */
    ghost predicate EndsLike(r: Result<(), SyncError>, run: Result<Local, SyncError>)
      reads this
    {
      match run
      case Ok(end) => r.Ok? && local == end
      case Err(error) => r == Err(error)
    }

    /** One item of the depot's directory. */
    method SynchronizeEntry(source: Path, n: Name) returns (r: Result<(), SyncError>)
      requires repository.Valid() && Consistent(plan) && Enumerates(plan.depot, plan.order) && Visited(plan, source)
      requires Tree(local) && IsDirectory(local, source)
      modifies `local, `fetched, repository, repository.limiter
      ensures repository.Valid()
      ensures EndsLike(r, RunEntry(plan, old(local), source, n))
      ensures InSync(plan, old(local), source) ==> r.Ok? && local == old(local) && fetched == old(fetched)
      decreases ListedBelow(plan, source), 0
    {
      hide Settled, InSync, Tree, Visited, Fetched, WithFile, UpToDate, Skipped, NoClash, Mirrored, Unharmed;
      var c := source + [n];
      if c == ContentPath(plan) || c !in plan.listing {
        return Ok(());
      }
      ghost var inSync := InSync(plan, local, source);
      assert Parent(c) == source;
      match plan.listing[c]
      case DirInfo =>
        if inSync { ChildInSync(plan, local, source, n); }
        ChildVisited(plan, source, c);
        ListedBelowShrinks(plan, source, c);
        r := SynchronizeDirectories(c);
      case LinkInfo(_) =>
        r := Ok(());
      case FileInfo(_, _) =>
        assert ListedRightly(plan, c);
        var remote := plan.depot[c].content;
        if inSync { FileInSync(plan, local, source, n); }
        TreeOnlyBelowDirs(local, c);
        FetchedCases(plan.md5, plan.listing[c], EntryAt(local, c), remote);
        r := SyncFile(c, plan.listing[c], remote);
    }

    /** Mirrors the whole product: fetches the listing, then what it lists. A second run fetches
        nothing but the listing; after a failed one the listing is gone. */
    method Synchronize(listingFile: seq<Byte>) returns (r: Result<(), SyncError>)
      requires repository.Valid() && Consistent(plan) && Enumerates(plan.depot, plan.order) && Tree(local)
      requires [] in local ==> local[[]].LocalDir?
      requires ContentPath(plan) in local ==> local[ContentPath(plan)].LocalFile?
      modifies `local, `fetched, repository, repository.limiter
      ensures repository.Valid()
      ensures EndsLike(r, Run(plan, WithListing(plan, old(local), listingFile), []))
      ensures r.Err? ==> !IsFile(ContentPath(plan))
      ensures NoClash(plan) ==> r.Ok? && Mirrored(plan, WithListing(plan, old(local), listingFile), local, [])
      ensures InSync(plan, old(local), []) && old(local) == WithListing(plan, old(local), listingFile) ==>
                r.Ok? && local == old(local) && fetched == old(fetched) + |listingFile|
    {
      hide Mirrored, InSync, Consistent, NoClash;
      ghost var before := local;
      ListingAdded(plan, local, listingFile);
      if [] !in local {
        local := local[[] := LocalDir];
      }
      assert Range(listingFile, -1, -1) == listingFile;
      DownloadTo(listingFile, ContentPath(plan), -1, -1);
      assert local == WithListing(plan, before, listingFile);
      RootVisited(plan);
      r := SynchronizeDirectories([]);
      if r.Err? && IsFile(ContentPath(plan)) {
        Remove(ContentPath(plan));
      }
    }
  }
}
