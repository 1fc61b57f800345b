/**
  * The onboarding graph: routing by event type, the deletion reconciliation of an update, the
  * fan-out to per-file and per-package summaries with their error containment, and the nodes that
  * save summaries to the knowledge store. The language model and the file reads are parameters.
  */
module Onboard {
  import opened Wrappers
  import opened Text
  import opened Records
  import opened Store
  import opened GraphState
  import opened Grouping
  import opened CodeFence
  import opened Headings
  import opened OnboardFanOut

  // ---------------------------------------------------------------------------------------------
  // decide_onboarding_or_update
  // ---------------------------------------------------------------------------------------------

  const GetFilepathsNode: string := "get_filepaths"
  const HandleUpdateNode: string := "handle_update"

  /**
    * `decide_onboarding_or_update`: an onboarding event goes to `get_filepaths`, an update to
    * `handle_update`, and any other tag raises ValueError (a missing event raises too).
    */
  function DecideOnboardingOrUpdate(s: OnboardState): (r: Result<seq<string>, string>)
    ensures r.Ok? <==> s.event.Some? && (s.event.value.eventType == RepoOnboard || s.event.value.eventType == RepoUpdate)
    ensures r.Ok? ==> |r.value| == 1
    ensures r.Ok? ==> (r.value[0] == GetFilepathsNode <==> s.event.value.eventType == RepoOnboard)
    ensures r.Ok? ==> (r.value[0] == HandleUpdateNode <==> s.event.value.eventType == RepoUpdate)
  {
    if s.event.None? then Err("event is None")
    else if s.event.value.eventType == RepoOnboard then Ok([GetFilepathsNode])
    else if s.event.value.eventType == RepoUpdate then Ok([HandleUpdateNode])
    else Err("Invalid event type: " + s.event.value.eventType)
  }

  // ---------------------------------------------------------------------------------------------
  // handle_update
  // ---------------------------------------------------------------------------------------------

  /** Every package of the repository owns at least one of its files. */
  ghost predicate OrphanFree(pkgs: seq<PackageRecord>, files: seq<FileRecord>, repoId: int)
  {
    forall p :: p in pkgs && p.repoId == repoId ==>
      exists f :: f in files && f.repoId == repoId && f.packageId == p.packageId
  }

  /** `a` is the row `b` with at most its last-modified time changed. */
  predicate SameButTime(a: PackageRecord, b: PackageRecord)
  {
    a.(lastModifiedAt := b.lastModifiedAt) == b
  }

  /** Orphan-freedom survives a change of last-modified times. */
  lemma OrphanFreeButTime(pkgs: seq<PackageRecord>, before: seq<PackageRecord>, files: seq<FileRecord>, repoId: int)
    requires OrphanFree(before, files, repoId)
    requires |pkgs| == |before| && forall k :: 0 <= k < |pkgs| ==> SameButTime(pkgs[k], before[k])
    ensures OrphanFree(pkgs, files, repoId)
  {
    forall p | p in pkgs && p.repoId == repoId
      ensures exists f :: f in files && f.repoId == repoId && f.packageId == p.packageId
    {
      var k :| 0 <= k < |pkgs| && pkgs[k] == p;
      assert before[k] in before && before[k].packageId == p.packageId;
    }
  }

  /**
    * `after` is `before` with the rows of repository `repoId` whose id is in `ids` bumped past `t`;
    * those rows change only their last-modified time, and every other row is unchanged.
    */
  ghost predicate Bumped(after: seq<PackageRecord>, before: seq<PackageRecord>, repoId: int, ids: set<int>, t: int)
  {
    && |after| == |before|
    && forall k :: 0 <= k < |after| ==>
         if before[k].repoId == repoId && before[k].packageId in ids
         then SameButTime(after[k], before[k]) && after[k].lastModifiedAt > t
         else after[k] == before[k]
  }

  /** Touching one more package of the repository extends the bumped ids by it. */
  lemma BumpedStep(rows: seq<PackageRecord>, before: seq<PackageRecord>, repoId: int, done: set<int>, pid: int, t: int, now: Timestamp)
    requires Bumped(rows, before, repoId, done, t) && now > t
    ensures Bumped(TouchPackage(rows, repoId, pid, now), before, repoId, done + {pid}, t)
  {
    var after := TouchPackage(rows, repoId, pid, now);
    forall k | 0 <= k < |after|
      ensures if before[k].repoId == repoId && before[k].packageId in done + {pid}
              then SameButTime(after[k], before[k]) && after[k].lastModifiedAt > t
              else after[k] == before[k]
    {
      assert rows[k].repoId == before[k].repoId && rows[k].packageId == before[k].packageId;
    }
  }

  /** A bumped table differs from the old one in times only, and the bumped rows are later than `t`. */
  lemma BumpedMembers(pkgs: seq<PackageRecord>, before: seq<PackageRecord>, repoId: int, ids: set<int>, t: int)
    requires Bumped(pkgs, before, repoId, ids, t)
    ensures forall k :: 0 <= k < |pkgs| ==> SameButTime(pkgs[k], before[k])
    ensures forall p :: p in pkgs && p.repoId == repoId && p.packageId in ids ==> p.lastModifiedAt > t
  {
    forall p | p in pkgs && p.repoId == repoId && p.packageId in ids
      ensures p.lastModifiedAt > t
    {
      var k :| 0 <= k < |pkgs| && pkgs[k] == p;
    }
  }

  /**
    * The loop of `handle_update` that bumps each impacted package: exactly the repository's rows
    * with an impacted id get a later time, and nothing else in the store changes.
    */
  method BumpPackages(store: KnowledgeStore, repoId: int, ids: set<int>)
    requires store.Valid()
    modifies store
    ensures store.Valid()
    ensures store.files == old(store.files) && store.repos == old(store.repos)
    ensures Bumped(store.packages, old(store.packages), repoId, ids, old(store.clock))
    ensures store.clock >= old(store.clock)
  {
    var remaining: set<int> := ids;
    while remaining != {}
      invariant store.Valid()
      invariant remaining <= ids
      invariant store.files == old(store.files) && store.repos == old(store.repos)
      invariant Bumped(store.packages, old(store.packages), repoId, ids - remaining, old(store.clock))
      invariant store.clock >= old(store.clock)
      decreases remaining
    {
      NonEmptyHasMember(remaining);
      var pid :| pid in remaining;
      BumpedStep(store.packages, old(store.packages), repoId, ids - remaining, pid, old(store.clock), store.clock + 1);
      store.UpdatePackageLastModified(repoId, pid);
      assert ids - (remaining - {pid}) == (ids - remaining) + {pid};
      remaining := remaining - {pid};
    }
    assert ids - remaining == ids;
  }

  /**
    * The deletion branch of `handle_update`: packages owning a deleted path are noted, the file
    * rows deleted, the repository's packages left without files pruned, and the noted packages
    * that survive bumped. Other repositories' packages and the repository rows stay as they were.
    */
  method ReconcileDeletions(store: KnowledgeStore, id: int, deleted: seq<string>) returns (impacted: set<int>)
    requires store.Valid() && deleted != []
    modifies store
    ensures store.Valid()
    ensures store.files == RemoveFiles(old(store.files), id, deleted) && store.repos == old(store.repos)
    ensures impacted == old(store.GetPackageIdsForFiles(id, deleted)) * store.GetValidPackageIds(id)
    ensures Bumped(store.packages, PruneOrphans(old(store.packages), id, store.GetValidPackageIds(id)), id, impacted, old(store.clock))
    ensures OrphanFree(store.packages, store.files, id)
    ensures store.clock >= old(store.clock)
  {
    var touched := store.GetPackageIdsForFiles(id, deleted);
    store.DeleteFiles(id, deleted);
    var valid := store.GetValidPackageIds(id);
    ghost var unpruned := store.packages;
    store.DeleteOrphanPackages(id, valid);
    PruneWithSurvivorsLeavesNoOrphans(unpruned, store.files, id);
    impacted := touched * valid;
    ghost var pruned := store.packages;
    BumpPackages(store, id, impacted);
    BumpedMembers(store.packages, pruned, id, impacted, old(store.clock));
    OrphanFreeButTime(store.packages, pruned, store.files, id);
  }

  /**
    * `handle_update`. For an unknown repository it writes an empty `filepaths` list and leaves the
    * store alone. Otherwise, when paths were deleted, it reconciles the deletions; in every case it
    * bumps the repository's row and passes the modified paths on.
    */
  method HandleUpdate(store: KnowledgeStore, s: OnboardState) returns (u: OnboardUpdate)
    requires store.Valid() && s.event.Some?
    modifies store
    ensures store.Valid()
    ensures old(store.GetRepo(s.repo.url, Some(s.repo.srcFolder), Some(s.repo.branch))).None? ==>
      && u == NoUpdate.(filepaths := Append([]))
      && store.repos == old(store.repos) && store.packages == old(store.packages)
      && store.files == old(store.files) && store.clock == old(store.clock)
    ensures old(store.GetRepo(s.repo.url, Some(s.repo.srcFolder), Some(s.repo.branch))).Some? ==>
      var id := old(store.GetRepo(s.repo.url, Some(s.repo.srcFolder), Some(s.repo.branch))).value.repoId;
      var deleted := s.event.value.metaData.deleted;
      var touched := old(store.GetPackageIdsForFiles(id, deleted));
      var impacted := touched * store.GetValidPackageIds(id);
      && store.files == RemoveFiles(old(store.files), id, deleted)
      && store.repos == TouchRepo(old(store.repos), id, store.clock)
      && (deleted == [] ==> store.packages == old(store.packages))
      && (deleted != [] ==>
            Bumped(store.packages, PruneOrphans(old(store.packages), id, store.GetValidPackageIds(id)), id, impacted, old(store.clock)))
      && u == NoUpdate.(repoId := Put(id), filepaths := Append(s.event.value.metaData.modified),
                        packagesImpacted := Put(ImpactedSet(impacted)))
      && (deleted != [] ==> OrphanFree(store.packages, store.files, id))
      && store.clock > old(store.clock)
  {
    var found := store.GetRepo(s.repo.url, Some(s.repo.srcFolder), Some(s.repo.branch));
    if found.None? {
      return NoUpdate.(filepaths := Append([]));
    }
    var id := found.value.repoId;
    var deleted := s.event.value.metaData.deleted;
    ghost var touched := store.GetPackageIdsForFiles(id, deleted);
    var impacted: set<int> := {};
    if deleted != [] {
      impacted := ReconcileDeletions(store, id, deleted);
    } else {
      RemoveNoFiles(store.files, id);
    }
    assert impacted == touched * store.GetValidPackageIds(id);
    store.UpdateRepoLastModified(id);
    assert impacted == touched * store.GetValidPackageIds(id);
    u := NoUpdate.(repoId := Put(id), filepaths := Append(s.event.value.metaData.modified),
                   packagesImpacted := Put(ImpactedSet(impacted)));
  }
}
