/**
  * The nodes of the onboarding graph that write summaries to the knowledge store
  * (`save_file_summaries`, `save_package_summaries`) and the final `cleanup`.
  */
module OnboardSave {
  import opened Wrappers
  import opened Text
  import opened Records
  import opened Store
  import opened GraphState
  import opened Grouping

  // ---------------------------------------------------------------------------------------------
  // save_file_summaries
  // ---------------------------------------------------------------------------------------------

  /** A package row with that id exists under that (repository, name) key. */
  ghost predicate PackageRowFor(pkgs: seq<PackageRecord>, packageId: int, repoId: int, name: string)
  {
    exists p :: p in pkgs && p.packageId == packageId && PackageMatches(p, repoId, name)
  }

  /** A repository row with that id exists under that (url, source path, branch) key. */
  ghost predicate RepoRowFor(repos: seq<RepoRecord>, repoId: int, r: Repo)
  {
    exists x :: x in repos && x.repoId == repoId && RepoMatches(x, r.url, Some(r.srcFolder), Some(r.branch))
  }

  /** Bumping a repository's time keeps every key, so key uniqueness survives it. */
  lemma TouchRepoKeepsKeys(rows: seq<RepoRecord>, repoId: int, now: Timestamp)
    requires RepoKeysUnique(rows)
    ensures RepoKeysUnique(TouchRepo(rows, repoId, now))
  {
    var r := TouchRepo(rows, repoId, now);
    assert forall k :: 0 <= k < |r| ==> (r[k].url, r[k].srcPath, r[k].branch) == (rows[k].url, rows[k].srcPath, rows[k].branch);
  }

  /** The first step of `save_file_summaries`: the repository's row is looked up and bumped, or inserted. */
  method EnsureRepo(store: KnowledgeStore, r: Repo) returns (id: int)
    requires store.Valid()
    modifies store
    ensures store.Valid()
    ensures old(store.GetRepo(r.url, Some(r.srcFolder), Some(r.branch))).Some? ==>
      id == old(store.GetRepo(r.url, Some(r.srcFolder), Some(r.branch))).value.repoId
    ensures old(store.GetRepo(r.url, Some(r.srcFolder), Some(r.branch))).None? ==>
      id == old(store.nextRepoId) && forall x :: x in old(store.repos) ==> x.repoId != id
    ensures old(store.GetRepo(r.url, Some(r.srcFolder), Some(r.branch))).Some? ==>
      store.repos == TouchRepo(old(store.repos), id, store.clock)
    ensures old(store.GetRepo(r.url, Some(r.srcFolder), Some(r.branch))).None? ==>
      store.repos == old(store.repos) + [RepoRecord(id, r.url, r.srcFolder, r.branch, store.clock, store.clock)]
    ensures RepoRowFor(store.repos, id, r)
    ensures RepoKeysUnique(old(store.repos)) ==> RepoKeysUnique(store.repos)
    ensures store.packages == old(store.packages) && store.files == old(store.files)
    ensures store.clock == old(store.clock) + 1
  {
    var found := store.GetRepo(r.url, Some(r.srcFolder), Some(r.branch));
    if found.None? {
      id := store.InsertRepo(r.url, r.srcFolder, r.branch);
      assert RepoRecord(id, r.url, r.srcFolder, r.branch, store.clock, store.clock) in store.repos;
    } else {
      id := found.value.repoId;
      ghost var before := store.repos;
      store.UpdateRepoLastModified(id);
      if RepoKeysUnique(before) {
        TouchRepoKeepsKeys(before, id, store.clock);
      }
      TouchRepoKeepsRow(before, id, store.clock, found.value);
    }
  }

  /** A bumped repository row stays in the table under its key. */
  lemma TouchRepoKeepsRow(rows: seq<RepoRecord>, repoId: int, now: Timestamp, x: RepoRecord)
    requires x in rows && x.repoId == repoId
    ensures x.(lastModifiedAt := now) in TouchRepo(rows, repoId, now)
  {
    var k :| 0 <= k < |rows| && rows[k] == x;
    assert TouchRepo(rows, repoId, now)[k] == x.(lastModifiedAt := now);
  }

  /** The package step of `save_file_summaries`: the package's row is looked up, or inserted with no summary. */
  method EnsurePackage(store: KnowledgeStore, repoId: int, name: string) returns (pid: int)
    requires store.Valid()
    modifies store
    ensures store.Valid()
    ensures old(store.GetPackage(repoId, name)).Some? ==>
      pid == old(store.GetPackage(repoId, name)).value.packageId && store.packages == old(store.packages)
    ensures old(store.GetPackage(repoId, name)).None? ==>
      pid == old(store.nextPackageId) && store.packages == old(store.packages) + [PackageRecord(pid, repoId, name, None, store.clock, store.clock)]
    ensures old(store.GetPackage(repoId, name)).None? ==>
      (forall p :: p in old(store.packages) ==> p.packageId != pid) && store.clock == old(store.clock) + 1
    ensures PackageRowFor(store.packages, pid, repoId, name)
    ensures forall p :: p in old(store.packages) ==> p in store.packages
    ensures PackageKeysUnique(old(store.packages)) ==> PackageKeysUnique(store.packages)
    ensures store.repos == old(store.repos) && store.files == old(store.files)
    ensures store.clock >= old(store.clock)
  {
    var found := store.GetPackage(repoId, name);
    if found.None? {
      pid := store.InsertPackage(repoId, name);
      assert store.packages[|store.packages| - 1].packageId == pid;
    } else {
      pid := found.value.packageId;
    }
  }

  /**
    * Row `k` is one the node appended: a row of the repository for one of `names`, with a fresh id,
    * no summary, and equal creation and modification times later than `t`, whose key no earlier
    * row holds.
    */
  ghost predicate NewPackageRow(rows: seq<PackageRecord>, k: int, repoId: int, names: seq<string>, t: int)
    requires 0 <= k < |rows|
  {
    && rows[k].repoId == repoId && rows[k].packageName in names && rows[k].summary.None?
    && rows[k].createdAt == rows[k].lastModifiedAt > t
    && forall j :: 0 <= j < k ==> rows[j].packageId != rows[k].packageId && !PackageMatches(rows[j], repoId, rows[k].packageName)
  }

  /**
    * The package table after rows were ensured for `names`: the old rows first and unchanged, then
    * only new rows for names that had none.
    */
  ghost predicate PackagesEnsured(before: seq<PackageRecord>, after: seq<PackageRecord>, repoId: int, names: seq<string>, t: int)
  {
    && |before| <= |after| && after[..|before|] == before
    && forall k :: |before| <= k < |after| ==> NewPackageRow(after, k, repoId, names, t)
  }

  /** Ensuring one more name keeps the table in that shape, whether the row was found or appended. */
  lemma PackagesEnsuredStep(base: seq<PackageRecord>, mid: seq<PackageRecord>, after: seq<PackageRecord>, repoId: int,
                            names: seq<string>, name: string, t: int)
    requires PackagesEnsured(base, mid, repoId, names, t)
    requires after == mid || (
      && |after| == |mid| + 1 && after[..|mid|] == mid
      && after[|mid|].repoId == repoId && after[|mid|].packageName == name && after[|mid|].summary.None?
      && after[|mid|].createdAt == after[|mid|].lastModifiedAt > t
      && forall p :: p in mid ==> p.packageId != after[|mid|].packageId && !PackageMatches(p, repoId, name))
    ensures PackagesEnsured(base, after, repoId, names + [name], t)
  {
    forall k | |base| <= k < |after|
      ensures NewPackageRow(after, k, repoId, names + [name], t)
    {
      if k < |mid| {
        assert after[..k] == mid[..k];
        assert NewPackageRow(mid, k, repoId, names, t);
      } else {
        forall j | 0 <= j < k
          ensures after[j].packageId != after[k].packageId && !PackageMatches(after[j], repoId, after[k].packageName)
        {
          assert after[j] == mid[j];
        }
      }
    }
    assert after[..|base|] == base by {
      assert after[..|mid|][..|base|] == mid[..|base|];
    }
  }

  /** Every old row survives, and any other row is a row of the repository for one of the names. */
  lemma PackagesEnsuredFrame(before: seq<PackageRecord>, after: seq<PackageRecord>, repoId: int, names: seq<string>, t: int)
    requires PackagesEnsured(before, after, repoId, names, t)
    ensures forall p :: p in before ==> p in after
    ensures forall p :: p in after && (p.repoId != repoId || p.packageName !in names) ==> p in before
  {
    forall p | p in before
      ensures p in after
    {
      var k :| 0 <= k < |before| && before[k] == p;
      assert after[k] == after[..|before|][k];
    }
    forall k | |before| <= k < |after|
      ensures after[k].repoId == repoId && after[k].packageName in names
    {
      assert NewPackageRow(after, k, repoId, names, t);
    }
    forall p | p in after && (p.repoId != repoId || p.packageName !in names)
      ensures p in before
    {
      var k :| 0 <= k < |after| && after[k] == p;
      assert k < |before|;
      assert after[k] == after[..|before|][k];
    }
  }

  /** Rows newer than `t2` are newer than any earlier `t1`. */
  lemma PackagesEnsuredEarlier(before: seq<PackageRecord>, after: seq<PackageRecord>, repoId: int, names: seq<string>,
                               t1: int, t2: int)
    requires PackagesEnsured(before, after, repoId, names, t2) && t1 <= t2
    ensures PackagesEnsured(before, after, repoId, names, t1)
  {
    forall k | |before| <= k < |after|
      ensures NewPackageRow(after, k, repoId, names, t1)
    {
      assert NewPackageRow(after, k, repoId, names, t2);
    }
  }

  /** The summary of the last entry for that path, if any: a path listed twice keeps the later summary. */
  function LastFileSummary(sums: seq<FileSummary>, path: string): Option<string>
    decreases |sums|
  {
    if sums == [] then None
    else if sums[|sums| - 1].filepath == path then Some(sums[|sums| - 1].summary)
    else LastFileSummary(sums[..|sums| - 1], path)
  }

  /** There is no summary exactly when no entry names the path; otherwise it is that of the last entry naming it. */
  lemma {:induction false} LastFileSummarySpec(sums: seq<FileSummary>, path: string)
    ensures LastFileSummary(sums, path).None? <==> forall k :: 0 <= k < |sums| ==> sums[k].filepath != path
    ensures LastFileSummary(sums, path).Some? ==>
      exists k :: 0 <= k < |sums| && sums[k] == FileSummary(path, LastFileSummary(sums, path).value)
        && forall j :: k < j < |sums| ==> sums[j].filepath != path
    decreases |sums|
  {
    if sums != [] && sums[|sums| - 1].filepath != path {
      var init := sums[..|sums| - 1];
      LastFileSummarySpec(init, path);
      assert forall k :: 0 <= k < |init| ==> init[k] == sums[k];
      if LastFileSummary(init, path).Some? {
        var k :| 0 <= k < |init| && init[k] == FileSummary(path, LastFileSummary(init, path).value)
          && forall j :: k < j < |init| ==> init[j].filepath != path;
        assert sums[k] == init[k];
      }
    } else if sums != [] {
      assert sums[|sums| - 1] == FileSummary(path, LastFileSummary(sums, path).value);
    }
  }

  /** One more entry: its path now has its summary, every other path keeps what it had. */
  lemma LastFileStep(sums: seq<FileSummary>, j: nat)
    requires j < |sums|
    ensures forall q ::
      LastFileSummary(sums[..j + 1], q) == (if q == sums[j].filepath then Some(sums[j].summary) else LastFileSummary(sums[..j], q))
  {
    var next := sums[..j + 1];
    assert next[..|next| - 1] == sums[..j] && next[|next| - 1] == sums[j];
    forall q
      ensures LastFileSummary(next, q) == (if q == sums[j].filepath then Some(sums[j].summary) else LastFileSummary(sums[..j], q))
    {
    }
  }

  /** The paths of a list, as a set. */
  function Elements(paths: seq<string>): set<string>
  {
    set p | p in paths
  }

  /** A path the save writes: one of the covered paths that has a summary among `sums`. */
  predicate Saved(path: string, covered: set<string>, sums: seq<FileSummary>)
  {
    path in covered && LastFileSummary(sums, path).Some?
  }

  /**
    * The file table `after` is `before` with the summaries `sums` of the covered paths upserted
    * for repository `repoId`, in order. A row of a saved path keeps its id, package and creation
    * time and changes only its summary and time; every other row is unchanged; each appended row
    * is a saved path that had no row before; and each saved path ends up with a row holding the
    * summary of its last entry.
    */
  ghost predicate Upserted(before: seq<FileRecord>, after: seq<FileRecord>, repoId: int, covered: set<string>, sums: seq<FileSummary>)
  {
    && |before| <= |after|
    && (forall k :: 0 <= k < |before| ==>
          if before[k].repoId == repoId && Saved(before[k].filePath, covered, sums)
          then after[k] == before[k].(summary := after[k].summary, lastModifiedAt := after[k].lastModifiedAt)
          else after[k] == before[k])
    && (forall k :: |before| <= k < |after| ==>
          after[k].repoId == repoId && Saved(after[k].filePath, covered, sums) && !HasFile(before, repoId, after[k].filePath))
    && (forall p :: Saved(p, covered, sums) ==>
          exists k :: 0 <= k < |after| && FileKeyOf(after[k]) == (repoId, p) && Some(after[k].summary) == LastFileSummary(sums, p))
  }

  /** Every row appended after `before` carries the package id `pid`. */
  ghost predicate NewRowsUnder(before: seq<FileRecord>, after: seq<FileRecord>, pid: int)
  {
    forall k :: |before| <= k < |after| ==> after[k].packageId == pid
  }

  /** An entry whose path is covered is upserted: the table then reflects one more entry. */
  lemma UpsertStep(base: seq<FileRecord>, rows: seq<FileRecord>, repoId: int, pid: int, covered: set<string>,
                   sums: seq<FileSummary>, j: nat, now: Timestamp, freshId: int)
    requires j < |sums| && sums[j].filepath in covered
    requires Upserted(base, rows, repoId, covered, sums[..j]) && NewRowsUnder(base, rows, pid)
    ensures var after := UpsertFile(rows, repoId, pid, sums[j].filepath, sums[j].summary, now, freshId);
      Upserted(base, after, repoId, covered, sums[..j + 1]) && NewRowsUnder(base, after, pid)
  {
    var path := sums[j].filepath;
    var after := UpsertFile(rows, repoId, pid, path, sums[j].summary, now, freshId);
    LastFileStep(sums, j);
    if HasFile(rows, repoId, path) {
      UpsertExisting(base, rows, after, repoId, pid, covered, sums, j, now, freshId);
    } else {
      UpsertNew(base, rows, after, repoId, pid, covered, sums, j, now, freshId);
    }
  }

  /** The update branch of an upsert keeps the table's shape and rewrites the one row of the path. */
  lemma UpsertExisting(base: seq<FileRecord>, rows: seq<FileRecord>, after: seq<FileRecord>, repoId: int, pid: int,
                       covered: set<string>, sums: seq<FileSummary>, j: nat, now: Timestamp, freshId: int)
    requires j < |sums| && sums[j].filepath in covered
    requires Upserted(base, rows, repoId, covered, sums[..j]) && NewRowsUnder(base, rows, pid)
    requires HasFile(rows, repoId, sums[j].filepath)
    requires after == UpsertFile(rows, repoId, pid, sums[j].filepath, sums[j].summary, now, freshId)
    requires forall q ::
      LastFileSummary(sums[..j + 1], q) == (if q == sums[j].filepath then Some(sums[j].summary) else LastFileSummary(sums[..j], q))
    ensures Upserted(base, after, repoId, covered, sums[..j + 1]) && NewRowsUnder(base, after, pid)
  {
    var path := sums[j].filepath;
    var prev, next := sums[..j], sums[..j + 1];
    assert |after| == |rows|;
    assert forall k :: 0 <= k < |after| ==>
      after[k] == (if FileKeyOf(rows[k]) == (repoId, path) then rows[k].(summary := sums[j].summary, lastModifiedAt := now) else rows[k]);
    forall k | 0 <= k < |base|
      ensures if base[k].repoId == repoId && Saved(base[k].filePath, covered, next)
              then after[k] == base[k].(summary := after[k].summary, lastModifiedAt := after[k].lastModifiedAt)
              else after[k] == base[k]
    {
      if base[k].filePath != path {
        assert Saved(base[k].filePath, covered, next) == Saved(base[k].filePath, covered, prev);
      }
    }
    forall k | |base| <= k < |after|
      ensures after[k].repoId == repoId && Saved(after[k].filePath, covered, next) && !HasFile(base, repoId, after[k].filePath)
    {
      assert FileKeyOf(after[k]) == FileKeyOf(rows[k]);
      assert LastFileSummary(prev, rows[k].filePath).Some?;
    }
    forall p | Saved(p, covered, next)
      ensures exists k :: 0 <= k < |after| && FileKeyOf(after[k]) == (repoId, p) && Some(after[k].summary) == LastFileSummary(next, p)
    {
      if p == path {
        var k :| 0 <= k < |rows| && FileKeyOf(rows[k]) == (repoId, path);
        assert FileKeyOf(after[k]) == (repoId, p) && Some(after[k].summary) == LastFileSummary(next, p);
      } else {
        assert Saved(p, covered, prev);
        var k :| 0 <= k < |rows| && FileKeyOf(rows[k]) == (repoId, p) && Some(rows[k].summary) == LastFileSummary(prev, p);
        assert after[k] == rows[k];
      }
    }
  }

  /** The insert branch of an upsert appends one row, under `pid`, for a path with no row yet. */
  lemma UpsertNew(base: seq<FileRecord>, rows: seq<FileRecord>, after: seq<FileRecord>, repoId: int, pid: int,
                  covered: set<string>, sums: seq<FileSummary>, j: nat, now: Timestamp, freshId: int)
    requires j < |sums| && sums[j].filepath in covered
    requires Upserted(base, rows, repoId, covered, sums[..j]) && NewRowsUnder(base, rows, pid)
    requires !HasFile(rows, repoId, sums[j].filepath)
    requires after == UpsertFile(rows, repoId, pid, sums[j].filepath, sums[j].summary, now, freshId)
    requires forall q ::
      LastFileSummary(sums[..j + 1], q) == (if q == sums[j].filepath then Some(sums[j].summary) else LastFileSummary(sums[..j], q))
    ensures Upserted(base, after, repoId, covered, sums[..j + 1]) && NewRowsUnder(base, after, pid)
  {
    var path := sums[j].filepath;
    var prev, next := sums[..j], sums[..j + 1];
    var row := FileRecord(freshId, repoId, pid, path, sums[j].summary, now, now);
    assert after == rows + [row];
    UpsertedKeepsKeys(base, rows, repoId, covered, prev);
    forall k | 0 <= k < |base|
      ensures if base[k].repoId == repoId && Saved(base[k].filePath, covered, next)
              then after[k] == base[k].(summary := after[k].summary, lastModifiedAt := after[k].lastModifiedAt)
              else after[k] == base[k]
    {
      assert FileKeyOf(after[k]) == FileKeyOf(rows[k]);
    }
    forall p | Saved(p, covered, next)
      ensures exists k :: 0 <= k < |after| && FileKeyOf(after[k]) == (repoId, p) && Some(after[k].summary) == LastFileSummary(next, p)
    {
      if p == path {
        assert FileKeyOf(after[|rows|]) == (repoId, p);
      } else {
        assert Saved(p, covered, prev);
        var k :| 0 <= k < |rows| && FileKeyOf(rows[k]) == (repoId, p) && Some(rows[k].summary) == LastFileSummary(prev, p);
        assert after[k] == rows[k];
      }
    }
  }

  /** A save keeps the key of every row it started from, so a path stored before is stored after. */
  lemma UpsertedKeepsKeys(before: seq<FileRecord>, after: seq<FileRecord>, repoId: int, covered: set<string>, sums: seq<FileSummary>)
    requires Upserted(before, after, repoId, covered, sums)
    ensures forall k :: 0 <= k < |before| ==> FileKeyOf(after[k]) == FileKeyOf(before[k])
    ensures forall q :: HasFile(before, repoId, q) ==> HasFile(after, repoId, q)
  {
    assert forall k :: 0 <= k < |before| ==> FileKeyOf(after[k]) == FileKeyOf(before[k]);
    forall q | HasFile(before, repoId, q)
      ensures HasFile(after, repoId, q)
    {
      var k :| 0 <= k < |before| && FileKeyOf(before[k]) == (repoId, q);
      assert FileKeyOf(after[k]) == (repoId, q);
    }
  }

  /** An entry whose path is not covered is skipped, and the table already reflects one more entry. */
  lemma SkipStep(base: seq<FileRecord>, rows: seq<FileRecord>, repoId: int, covered: set<string>, sums: seq<FileSummary>, j: nat)
    requires j < |sums| && sums[j].filepath !in covered
    requires Upserted(base, rows, repoId, covered, sums[..j])
    ensures Upserted(base, rows, repoId, covered, sums[..j + 1])
  {
    LastFileStep(sums, j);
    var prev, next := sums[..j], sums[..j + 1];
    assert forall p :: Saved(p, covered, next) <==> Saved(p, covered, prev);
    assert forall p :: Saved(p, covered, next) ==> LastFileSummary(next, p) == LastFileSummary(prev, p);
  }

  /** Two saves in a row are one save of both covered sets. */
  lemma UpsertedTransitive(a: seq<FileRecord>, b: seq<FileRecord>, c: seq<FileRecord>, repoId: int,
                           c1: set<string>, c2: set<string>, sums: seq<FileSummary>)
    requires Upserted(a, b, repoId, c1, sums) && Upserted(b, c, repoId, c2, sums)
    ensures Upserted(a, c, repoId, c1 + c2, sums)
  {
    UpsertedKeepsKeys(a, b, repoId, c1, sums);
    forall k | |a| <= k < |c|
      ensures c[k].repoId == repoId && Saved(c[k].filePath, c1 + c2, sums) && !HasFile(a, repoId, c[k].filePath)
    {
      if k < |b| {
        assert FileKeyOf(c[k]) == FileKeyOf(b[k]);
      }
    }
    forall p | Saved(p, c1 + c2, sums)
      ensures exists k :: 0 <= k < |c| && FileKeyOf(c[k]) == (repoId, p) && Some(c[k].summary) == LastFileSummary(sums, p)
    {
      if !Saved(p, c2, sums) {
        assert Saved(p, c1, sums);
        var k :| 0 <= k < |b| && FileKeyOf(b[k]) == (repoId, p) && Some(b[k].summary) == LastFileSummary(sums, p);
        assert c[k] == b[k];
      }
    }
  }

  /**
    * The inner loop of `save_file_summaries`: each summary whose path is in the group is upserted
    * in order, so each such path ends with the summary of its last entry; a path new to the
    * repository gets a row under the group's package, while an existing row keeps its package.
    */
  method SaveGroupFiles(store: KnowledgeStore, repoId: int, pid: int, group: seq<string>, sums: seq<FileSummary>)
    requires store.Valid()
    modifies store
    ensures store.Valid()
    ensures Upserted(old(store.files), store.files, repoId, Elements(group), sums)
    ensures NewRowsUnder(old(store.files), store.files, pid)
    ensures store.repos == old(store.repos) && store.packages == old(store.packages)
    ensures store.clock >= old(store.clock)
  {
    ghost var covered := Elements(group);
    ghost var base := store.files;
    var j := 0;
    while j < |sums|
      invariant 0 <= j <= |sums|
      invariant store.Valid()
      invariant Upserted(base, store.files, repoId, covered, sums[..j])
      invariant NewRowsUnder(base, store.files, pid)
      invariant store.repos == old(store.repos) && store.packages == old(store.packages)
      invariant store.clock >= old(store.clock)
    {
      SaveFileAt(store, repoId, pid, group, sums, j, base);
      j := j + 1;
    }
    assert sums[..j] == sums;
  }

  /** One pass of the inner loop: the summary at `j` is upserted when its path is in the group. */
  method SaveFileAt(store: KnowledgeStore, repoId: int, pid: int, group: seq<string>, sums: seq<FileSummary>, j: nat,
                    ghost base: seq<FileRecord>)
    requires j < |sums| && store.Valid()
    requires Upserted(base, store.files, repoId, Elements(group), sums[..j]) && NewRowsUnder(base, store.files, pid)
    modifies store
    ensures store.Valid()
    ensures Upserted(base, store.files, repoId, Elements(group), sums[..j + 1]) && NewRowsUnder(base, store.files, pid)
    ensures store.repos == old(store.repos) && store.packages == old(store.packages)
    ensures store.clock >= old(store.clock)
  {
    var fsum := sums[j];
    ghost var rows := store.files;
    if fsum.filepath in group {
      ghost var now, freshId := store.clock + 1, store.nextFileId;
      store.InsertOrUpdateFile(repoId, pid, fsum.filepath, fsum.summary);
      UpsertStep(base, rows, repoId, pid, Elements(group), sums, j, now, freshId);
    } else {
      SkipStep(base, rows, repoId, Elements(group), sums, j);
    }
  }

  /** A path of the input lies in the group of one of the keys. */
  lemma PathInItsGroup(paths: seq<string>, src: string, path: string)
    requires path in paths
    ensures exists k :: 0 <= k < |FirstPackages(paths, src)| && path in Members(paths, src, FirstPackages(paths, src)[k])
  {
    var pkg := PackageOf(path, src);
    var i :| 0 <= i < |paths| && paths[i] == path;
    var pkgs := PackagesOf(paths, src);
    assert pkgs[i] == pkg;
    FirstOccurrencesSpec(pkgs);
    var keys := FirstPackages(paths, src);
    assert pkg in keys;
    MembersSpec(paths, src, pkg);
    assert path in Members(paths, src, pkg);
    var k :| 0 <= k < |keys| && keys[k] == pkg;
  }

  /** Each id names a package row of the repository under the name at the same position. */
  ghost predicate RowsFor(pkgs: seq<PackageRecord>, ids: seq<int>, repoId: int, names: seq<string>)
  {
    |ids| == |names| && forall k :: 0 <= k < |ids| ==> PackageRowFor(pkgs, ids[k], repoId, names[k])
  }

  /** Rows found before an insertion are still found after it, and one more found row extends the list. */
  lemma RowsForStep(before: seq<PackageRecord>, after: seq<PackageRecord>, ids: seq<int>, repoId: int, names: seq<string>,
                    pid: int, name: string)
    requires RowsFor(before, ids, repoId, names)
    requires forall p :: p in before ==> p in after
    requires PackageRowFor(after, pid, repoId, name)
    ensures RowsFor(after, ids + [pid], repoId, names + [name])
  {
    forall k | 0 <= k < |ids|
      ensures PackageRowFor(after, ids[k], repoId, names[k])
    {
      var p :| p in before && p.packageId == ids[k] && PackageMatches(p, repoId, names[k]);
      assert p in after;
    }
  }

  /** The paths of the groups of the given keys. */
  function Covered(keys: seq<string>, groups: map<string, seq<string>>): set<string>
    requires forall k :: 0 <= k < |keys| ==> keys[k] in groups
    decreases |keys|
  {
    if keys == [] then {}
    else Covered(keys[..|keys| - 1], groups) + Elements(groups[keys[|keys| - 1]])
  }

  /** A path is covered exactly when it lies in the group of one of the keys. */
  lemma {:induction false} CoveredSpec(keys: seq<string>, groups: map<string, seq<string>>)
    requires forall k :: 0 <= k < |keys| ==> keys[k] in groups
    ensures forall p :: p in Covered(keys, groups) <==> exists g :: 0 <= g < |keys| && p in groups[keys[g]]
    decreases |keys|
  {
    if keys != [] {
      var init := keys[..|keys| - 1];
      CoveredSpec(init, groups);
      forall p | p in Covered(keys, groups)
        ensures exists g :: 0 <= g < |keys| && p in groups[keys[g]]
      {
        if p in Covered(init, groups) {
          var g :| 0 <= g < |init| && p in groups[init[g]];
          assert keys[g] == init[g];
        }
      }
      forall p | exists g :: 0 <= g < |keys| && p in groups[keys[g]]
        ensures p in Covered(keys, groups)
      {
        var g :| 0 <= g < |keys| && p in groups[keys[g]];
        if g < |init| {
          assert init[g] == keys[g];
        }
      }
    }
  }

  /** The row's path is in some key's group, and the row lies under the package id found for that key. */
  ghost predicate InGroup(row: FileRecord, keys: seq<string>, groups: map<string, seq<string>>, ids: seq<int>)
  {
    exists g :: 0 <= g < |ids| && g < |keys| && keys[g] in groups && row.filePath in groups[keys[g]] && row.packageId == ids[g]
  }

  /** Every row appended after `before` is a path of some key's group, under the package id found for that key. */
  ghost predicate NewRowsGrouped(before: seq<FileRecord>, after: seq<FileRecord>, keys: seq<string>,
                                 groups: map<string, seq<string>>, ids: seq<int>)
  {
    forall k :: |before| <= k < |after| ==> InGroup(after[k], keys, groups, ids)
  }

  /** The rows one more group appends are placed under that group's package id. */
  lemma NewRowsGroupedStep(base: seq<FileRecord>, mid: seq<FileRecord>, after: seq<FileRecord>, repoId: int, keys: seq<string>,
                           groups: map<string, seq<string>>, ids: seq<int>, pid: int, sums: seq<FileSummary>)
    requires |ids| < |keys| && keys[|ids|] in groups && |base| <= |mid|
    requires NewRowsGrouped(base, mid, keys, groups, ids)
    requires Upserted(mid, after, repoId, Elements(groups[keys[|ids|]]), sums) && NewRowsUnder(mid, after, pid)
    ensures NewRowsGrouped(base, after, keys, groups, ids + [pid])
  {
    var ids' := ids + [pid];
    forall k | |base| <= k < |after|
      ensures InGroup(after[k], keys, groups, ids')
    {
      if k < |mid| {
        assert InGroup(mid[k], keys, groups, ids);
        var g :| 0 <= g < |ids| && g < |keys| && keys[g] in groups && mid[k].filePath in groups[keys[g]] && mid[k].packageId == ids[g];
        assert after[k].filePath == mid[k].filePath && after[k].packageId == mid[k].packageId;
        assert ids'[g] == ids[g];
      } else {
        assert after[k].filePath in groups[keys[|ids|]] && ids'[|ids|] == pid;
      }
    }
  }

  /**
    * The package loop of `save_file_summaries`: one package row per key, found or created, its id
    * appended in key order, and the summaries of the key's paths upserted, a new row going under
    * that key's package.
    */
  method SavePackages(store: KnowledgeStore, repoId: int, keys: seq<string>, groups: map<string, seq<string>>,
                      sums: seq<FileSummary>) returns (ids: seq<int>)
    requires store.Valid()
    requires forall k :: 0 <= k < |keys| ==> keys[k] in groups
    modifies store
    ensures store.Valid()
    ensures RowsFor(store.packages, ids, repoId, keys)
    ensures Upserted(old(store.files), store.files, repoId, Covered(keys, groups), sums)
    ensures NewRowsGrouped(old(store.files), store.files, keys, groups, ids)
    ensures PackagesEnsured(old(store.packages), store.packages, repoId, keys, old(store.clock))
    ensures PackageKeysUnique(old(store.packages)) ==> PackageKeysUnique(store.packages)
    ensures store.repos == old(store.repos)
    ensures store.clock >= old(store.clock)
  {
    ids := [];
    var i := 0;
    while i < |keys|
      invariant 0 <= i <= |keys|
      invariant store.Valid()
      invariant RowsFor(store.packages, ids, repoId, keys[..i])
      invariant Upserted(old(store.files), store.files, repoId, Covered(keys[..i], groups), sums)
      invariant NewRowsGrouped(old(store.files), store.files, keys, groups, ids)
      invariant PackagesEnsured(old(store.packages), store.packages, repoId, keys[..i], old(store.clock))
      invariant PackageKeysUnique(old(store.packages)) ==> PackageKeysUnique(store.packages)
      invariant store.repos == old(store.repos)
      invariant store.clock >= old(store.clock)
    {
      var pid := SaveGroup(store, repoId, keys, groups, sums, i, ids, old(store.files), old(store.packages), old(store.clock));
      ids := ids + [pid];
      i := i + 1;
    }
    assert keys[..i] == keys;
  }

  /** The package step of one pass of the outer loop: the row of key `i` is found or appended. */
  method EnsureKeyPackage(store: KnowledgeStore, repoId: int, keys: seq<string>, i: nat, ids: seq<int>,
                          ghost basePkgs: seq<PackageRecord>, ghost t: int) returns (pid: int)
    requires i < |keys| && store.Valid()
    requires RowsFor(store.packages, ids, repoId, keys[..i])
    requires PackageKeysUnique(basePkgs) ==> PackageKeysUnique(store.packages)
    requires PackagesEnsured(basePkgs, store.packages, repoId, keys[..i], t) && store.clock >= t
    modifies store
    ensures store.Valid()
    ensures PackagesEnsured(basePkgs, store.packages, repoId, keys[..i + 1], t)
    ensures RowsFor(store.packages, ids + [pid], repoId, keys[..i + 1])
    ensures PackageKeysUnique(basePkgs) ==> PackageKeysUnique(store.packages)
    ensures store.repos == old(store.repos) && store.files == old(store.files)
    ensures store.clock >= old(store.clock)
  {
    ghost var pkgsBefore := store.packages;
    pid := EnsurePackage(store, repoId, keys[i]);
    RowsForStep(pkgsBefore, store.packages, ids, repoId, keys[..i], pid, keys[i]);
    if store.packages != pkgsBefore {
      assert store.packages[..|pkgsBefore|] == pkgsBefore;
    }
    PackagesEnsuredStep(basePkgs, pkgsBefore, store.packages, repoId, keys[..i], keys[i], t);
    assert keys[..i] + [keys[i]] == keys[..i + 1];
  }

  /** One pass of the outer loop: the package row of key `i` is found or made and its group saved. */
  method SaveGroup(store: KnowledgeStore, repoId: int, keys: seq<string>, groups: map<string, seq<string>>,
                   sums: seq<FileSummary>, i: nat, ids: seq<int>, ghost base: seq<FileRecord>,
                   ghost basePkgs: seq<PackageRecord>, ghost t: int) returns (pid: int)
    requires i < |keys| && store.Valid()
    requires forall k :: 0 <= k < |keys| ==> keys[k] in groups
    requires RowsFor(store.packages, ids, repoId, keys[..i])
    requires Upserted(base, store.files, repoId, Covered(keys[..i], groups), sums)
    requires NewRowsGrouped(base, store.files, keys, groups, ids)
    requires PackageKeysUnique(basePkgs) ==> PackageKeysUnique(store.packages)
    requires PackagesEnsured(basePkgs, store.packages, repoId, keys[..i], t) && store.clock >= t
    modifies store
    ensures store.Valid()
    ensures PackagesEnsured(basePkgs, store.packages, repoId, keys[..i + 1], t)
    ensures RowsFor(store.packages, ids + [pid], repoId, keys[..i + 1])
    ensures Upserted(base, store.files, repoId, Covered(keys[..i + 1], groups), sums)
    ensures NewRowsGrouped(base, store.files, keys, groups, ids + [pid])
    ensures PackageKeysUnique(basePkgs) ==> PackageKeysUnique(store.packages)
    ensures store.repos == old(store.repos)
    ensures store.clock >= old(store.clock)
  {
    pid := EnsureKeyPackage(store, repoId, keys, i, ids, basePkgs, t);
    ghost var filesBefore := store.files;
    SaveGroupFiles(store, repoId, pid, groups[keys[i]], sums);
    UpsertedTransitive(base, filesBefore, store.files, repoId, Covered(keys[..i], groups), Elements(groups[keys[i]]), sums);
    assert keys[..i + 1][..i] == keys[..i];
    assert Covered(keys[..i + 1], groups) == Covered(keys[..i], groups) + Elements(groups[keys[i]]);
    NewRowsGroupedStep(base, filesBefore, store.files, repoId, keys, groups, ids, pid, sums);
  }

  /** The groups of all keys together hold exactly the input paths. */
  lemma GroupsCoverPaths(paths: seq<string>, src: string, keys: seq<string>, groups: map<string, seq<string>>)
    requires keys == FirstPackages(paths, src)
    requires forall pkg :: pkg in groups <==> pkg in keys
    requires forall pkg :: pkg in groups ==> groups[pkg] == Members(paths, src, pkg)
    ensures Covered(keys, groups) == Elements(paths)
  {
    CoveredSpec(keys, groups);
    forall p
      ensures p in Covered(keys, groups) <==> p in paths
    {
      if p in paths {
        PathInItsGroup(paths, src, p);
        var g :| 0 <= g < |keys| && p in Members(paths, src, keys[g]);
        assert p in groups[keys[g]];
      }
      if p in Covered(keys, groups) {
        var g :| 0 <= g < |keys| && p in groups[keys[g]];
        MembersSpec(paths, src, keys[g]);
      }
    }
  }

  /** A row appended under a group's package id names the package its path belongs to. */
  lemma NewRowsUnderTheirPackage(before: seq<FileRecord>, after: seq<FileRecord>, pkgs: seq<PackageRecord>, repoId: int,
                                 paths: seq<string>, src: string, keys: seq<string>, groups: map<string, seq<string>>, ids: seq<int>)
    requires forall pkg :: pkg in groups ==> groups[pkg] == Members(paths, src, pkg)
    requires RowsFor(pkgs, ids, repoId, keys)
    requires NewRowsGrouped(before, after, keys, groups, ids)
    ensures forall k :: |before| <= k < |after| ==>
      PackageRowFor(pkgs, after[k].packageId, repoId, PackageOf(after[k].filePath, src))
  {
    forall k | |before| <= k < |after|
      ensures PackageRowFor(pkgs, after[k].packageId, repoId, PackageOf(after[k].filePath, src))
    {
      assert InGroup(after[k], keys, groups, ids);
      var g :| 0 <= g < |ids| && g < |keys| && keys[g] in groups && after[k].filePath in groups[keys[g]]
        && after[k].packageId == ids[g];
      MembersSpec(paths, src, keys[g]);
      assert PackageOf(after[k].filePath, src) == keys[g];
    }
  }

  /**
    * `save_file_summaries`. The repository is bumped or inserted; the paths are grouped by
    * top-level package; each group gets a package row (even when none of its paths has a summary,
    * so a package without files can arise); and each summary of a grouped path is upserted, so
    * every listed path with a summary ends with the summary of its last entry, a path new to the
    * repository gets a row under its top-level package, and an existing row keeps its package.
    * The update writes the repository id, replaces `packages_impacted` with one id per group in
    * key order, and clears `filepaths` and `file_summaries`.
    */
  method SaveFileSummaries(store: KnowledgeStore, s: OnboardState) returns (u: OnboardUpdate)
    requires store.Valid()
    modifies store
    ensures store.Valid()
    ensures u.repoId.Put? && u.packagesImpacted.Put? && u.packagesImpacted.value.ImpactedList?
    ensures u == NoUpdate.(repoId := u.repoId, packagesImpacted := u.packagesImpacted, filepaths := Reset, fileSummaries := Reset)
    ensures old(store.GetRepo(s.repo.url, Some(s.repo.srcFolder), Some(s.repo.branch))).Some? ==>
      u.repoId.value == old(store.GetRepo(s.repo.url, Some(s.repo.srcFolder), Some(s.repo.branch))).value.repoId
    ensures old(store.GetRepo(s.repo.url, Some(s.repo.srcFolder), Some(s.repo.branch))).None? ==>
      u.repoId.value == old(store.nextRepoId)
    ensures old(store.GetRepo(s.repo.url, Some(s.repo.srcFolder), Some(s.repo.branch))).Some? ==>
      store.repos == TouchRepo(old(store.repos), u.repoId.value, old(store.clock) + 1)
    ensures old(store.GetRepo(s.repo.url, Some(s.repo.srcFolder), Some(s.repo.branch))).None? ==>
      store.repos == old(store.repos)
        + [RepoRecord(u.repoId.value, s.repo.url, s.repo.srcFolder, s.repo.branch, old(store.clock) + 1, old(store.clock) + 1)]
    ensures RepoRowFor(store.repos, u.repoId.value, s.repo)
    ensures PackagesEnsured(old(store.packages), store.packages, u.repoId.value, FirstPackages(s.filepaths, s.repo.srcFolder),
                            old(store.clock))
    ensures RowsFor(store.packages, u.packagesImpacted.value.order, u.repoId.value, FirstPackages(s.filepaths, s.repo.srcFolder))
    ensures Upserted(old(store.files), store.files, u.repoId.value, Elements(s.filepaths), s.fileSummaries)
    ensures forall k :: |old(store.files)| <= k < |store.files| ==>
      PackageRowFor(store.packages, store.files[k].packageId, u.repoId.value, PackageOf(store.files[k].filePath, s.repo.srcFolder))
    ensures RepoKeysUnique(old(store.repos)) ==> RepoKeysUnique(store.repos)
    ensures PackageKeysUnique(old(store.packages)) ==> PackageKeysUnique(store.packages)
  {
    var id := EnsureRepo(store, s.repo);
    ghost var filesBefore := store.files;
    var keys, groups := GroupByTopLevelPackages(s.filepaths, s.repo.srcFolder);
    ghost var mid := store.clock;
    var ids := SavePackages(store, id, keys, groups, s.fileSummaries);
    PackagesEnsuredEarlier(old(store.packages), store.packages, id, keys, old(store.clock), mid);
    GroupsCoverPaths(s.filepaths, s.repo.srcFolder, keys, groups);
    NewRowsUnderTheirPackage(filesBefore, store.files, store.packages, id, s.filepaths, s.repo.srcFolder, keys, groups, ids);
    u := NoUpdate.(repoId := Put(id), packagesImpacted := Put(ImpactedList(ids)), filepaths := Reset, fileSummaries := Reset);
  }

  // ---------------------------------------------------------------------------------------------
  // save_package_summaries
  // ---------------------------------------------------------------------------------------------

  /** The summary the last entry for that package id carries, if any. */
  function LastSummary(ps: seq<PackageSummary>, packageId: int): Option<string>
    decreases |ps|
  {
    if ps == [] then None
    else if ps[|ps| - 1].packageId == packageId then Some(ps[|ps| - 1].summary)
    else LastSummary(ps[..|ps| - 1], packageId)
  }

  /** There is no summary exactly when no entry names the id. */
  lemma {:induction false} LastSummaryAbsent(ps: seq<PackageSummary>, packageId: int)
    ensures LastSummary(ps, packageId).None? <==> forall k :: 0 <= k < |ps| ==> ps[k].packageId != packageId
    decreases |ps|
  {
    if ps != [] && ps[|ps| - 1].packageId != packageId {
      var init := ps[..|ps| - 1];
      LastSummaryAbsent(init, packageId);
      assert forall k :: 0 <= k < |init| ==> init[k] == ps[k];
    }
  }

  /** A summary is that of an entry naming the id after which no entry names it. */
  lemma {:induction false} LastSummaryIsLast(ps: seq<PackageSummary>, packageId: int)
    requires LastSummary(ps, packageId).Some?
    ensures exists k ::
      && 0 <= k < |ps| && ps[k] == PackageSummary(packageId, LastSummary(ps, packageId).value)
      && forall j :: k < j < |ps| ==> ps[j].packageId != packageId
    decreases |ps|
  {
    var n := |ps| - 1;
    if ps[n].packageId == packageId {
      assert ps[n] == PackageSummary(packageId, LastSummary(ps, packageId).value);
    } else {
      var init := ps[..n];
      LastSummaryIsLast(init, packageId);
      var k :| 0 <= k < |init| && init[k] == PackageSummary(packageId, LastSummary(init, packageId).value) &&
        forall j :: k < j < |init| ==> init[j].packageId != packageId;
      assert ps[k] == init[k];
      assert forall j :: k < j < n ==> ps[j] == init[j];
    }
  }

  /**
    * Row `a` is row `b` after the summaries `ps` of repository `repoId` are written in order: a
    * row of that repository named by some entry carries the last such entry's summary and a time
    * later than `t`, and nothing else of it changes; any other row is unchanged.
    */
  predicate SummarisedRow(a: PackageRecord, b: PackageRecord, repoId: int, ps: seq<PackageSummary>, t: int)
  {
    var last := LastSummary(ps, b.packageId);
    if b.repoId == repoId && last.Some?
    then a == b.(summary := last, lastModifiedAt := a.lastModifiedAt) && a.lastModifiedAt > t
    else a == b
  }

  /** Writing entry `i` turns rows summarised by the first `i` entries into rows summarised by `i + 1`. */
  lemma SummarisedStep(rows: seq<PackageRecord>, before: seq<PackageRecord>, repoId: int, ps: seq<PackageSummary>, i: nat,
                       now: Timestamp, t: int)
    requires i < |ps| && |rows| == |before| && now > t
    requires forall k :: 0 <= k < |rows| ==> SummarisedRow(rows[k], before[k], repoId, ps[..i], t)
    ensures var after := SetPackageSummary(rows, repoId, ps[i].packageId, ps[i].summary, now);
      forall k :: 0 <= k < |after| ==> SummarisedRow(after[k], before[k], repoId, ps[..i + 1], t)
  {
    LastSummaryStep(ps, i);
    var after := SetPackageSummary(rows, repoId, ps[i].packageId, ps[i].summary, now);
    forall k | 0 <= k < |after|
      ensures SummarisedRow(after[k], before[k], repoId, ps[..i + 1], t)
    {
      assert SummarisedRow(rows[k], before[k], repoId, ps[..i], t);
      assert rows[k].repoId == before[k].repoId && rows[k].packageId == before[k].packageId;
    }
  }

  /**
    * `save_package_summaries`: each summary is written to its package row of the run's repository,
    * in order, so a package summarised twice keeps the later one; rows of other packages or other
    * repositories are unchanged. The update clears `packages_impacted` (to the marker "delete",
    * since that field has no reducer) and `package_summaries`.
    */
  method SavePackageSummaries(store: KnowledgeStore, s: OnboardState) returns (u: OnboardUpdate)
    requires store.Valid()
    modifies store
    ensures store.Valid()
    ensures u == NoUpdate.(packagesImpacted := Put(DeleteText), packageSummaries := Reset)
    ensures |store.packages| == |old(store.packages)|
    ensures forall k :: 0 <= k < |store.packages| ==>
      SummarisedRow(store.packages[k], old(store.packages)[k], s.repoId, s.packageSummaries, old(store.clock))
    ensures store.repos == old(store.repos) && store.files == old(store.files)
  {
    var ps := s.packageSummaries;
    var i := 0;
    while i < |ps|
      invariant 0 <= i <= |ps|
      invariant store.Valid()
      invariant |store.packages| == |old(store.packages)|
      invariant forall k :: 0 <= k < |store.packages| ==>
        SummarisedRow(store.packages[k], old(store.packages)[k], s.repoId, ps[..i], old(store.clock))
      invariant store.repos == old(store.repos) && store.files == old(store.files)
      invariant store.clock >= old(store.clock)
    {
      SummarisedStep(store.packages, old(store.packages), s.repoId, ps, i, store.clock + 1, old(store.clock));
      store.UpdatePackageSummary(s.repoId, ps[i].packageId, ps[i].summary);
      i := i + 1;
    }
    assert ps[..i] == ps;
    u := NoUpdate.(packagesImpacted := Put(DeleteText), packageSummaries := Reset);
  }

  /** One more entry: its id now has its summary, every other id keeps what it had. */
  lemma LastSummaryStep(ps: seq<PackageSummary>, i: nat)
    requires i < |ps|
    ensures LastSummary(ps[..i + 1], ps[i].packageId) == Some(ps[i].summary)
    ensures forall id :: id != ps[i].packageId ==> LastSummary(ps[..i + 1], id) == LastSummary(ps[..i], id)
  {
    assert ps[..i + 1][..i] == ps[..i];
  }

  // ---------------------------------------------------------------------------------------------
  // cleanup
  // ---------------------------------------------------------------------------------------------

  /** What `cleanup` does: the clone directory it removes, if any, and its update. */
  datatype CleanupAction = CleanupAction(removeDir: Option<string>, update: OnboardUpdate)

  /**
    * `cleanup`: a clone directory is removed when one is set (non-empty) and the repository is
    * not a local `file://` one; the update clears `repo_dir` and `event`.
    */
  function Cleanup(s: OnboardState): (a: CleanupAction)
    ensures a.removeDir.Some? <==> s.repoDir.Some? && s.repoDir.value != "" && !IsPrefix("file://", s.repo.url)
    ensures a.removeDir.Some? ==> a.removeDir == s.repoDir
    ensures a.update == NoUpdate.(repoDir := Put(None), event := Put(None))
  {
    var remove := if s.repoDir.Some? && s.repoDir.value != "" && !IsPrefix("file://", s.repo.url) then s.repoDir else None;
    CleanupAction(remove, NoUpdate.(repoDir := Put(None), event := Put(None)))
  }

  /** After `cleanup` the state has no event and no clone directory, and every other field is as before. */
  lemma CleanupClearsOnlyEventAndDir(s: OnboardState)
    ensures ApplyUpdate(s, Cleanup(s).update) == s.(event := None, repoDir := None)
  {
  }
}
