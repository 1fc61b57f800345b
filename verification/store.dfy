/**
  * The knowledge store: three tables (repositories, packages, files) held as row sequences in
  * insertion order, with auto-increment id counters and a clock.
  *
  * The schema declares no UNIQUE constraint. The only uniqueness the store itself maintains is
  * one file row per (repository id, path), through the select-then-branch of
  * `InsertOrUpdateFile`; uniqueness of repository and package keys depends on callers looking a
  * key up before inserting it (`RepoKeysUnique`, `PackageKeysUnique`).
  */
module Store {
  import opened Wrappers
  import opened Records

  // ---------------------------------------------------------------------------------------
  // Row-sequence helpers
  // ---------------------------------------------------------------------------------------

  /** The index of the first row satisfying `p` (what `fetchone()` returns after a SELECT). */
  function FindFirst<T>(rows: seq<T>, p: T -> bool): (r: Option<nat>)
    ensures r.Some? ==> r.value < |rows| && p(rows[r.value])
    ensures r.Some? ==> forall j :: 0 <= j < r.value ==> !p(rows[j])
    ensures r.None? <==> forall j :: 0 <= j < |rows| ==> !p(rows[j])
  {
    if rows == [] then None
    else if p(rows[0]) then Some(0)
    else match FindFirst(rows[1..], p)
      case None => None
      case Some(i) => Some(i + 1)
  }

  /** The rows a DELETE leaves behind: those satisfying `keep`, in their original order. */
  function Filter<T(!new)>(rows: seq<T>, keep: T -> bool): (r: seq<T>)
    ensures |r| <= |rows|
    ensures forall x :: x in r <==> x in rows && keep(x)
  {
    if rows == [] then []
    else (if keep(rows[0]) then [rows[0]] else []) + Filter(rows[1..], keep)
  }

  /** No two rows share a key. */
  ghost predicate DistinctBy<T, K>(rows: seq<T>, key: T -> K)
  {
    forall i, j :: 0 <= i < j < |rows| ==> key(rows[i]) != key(rows[j])
  }

  lemma {:induction false} FilterKeepsDistinct<T(!new), K>(rows: seq<T>, keep: T -> bool, key: T -> K)
    requires DistinctBy(rows, key)
    ensures DistinctBy(Filter(rows, keep), key)
  {
    if rows != [] {
      FilterKeepsDistinct(rows[1..], keep, key);
      var tail := Filter(rows[1..], keep);
      forall j | 0 <= j < |tail|
        ensures key(rows[0]) != key(tail[j])
      {
        assert tail[j] in rows[1..];
        var k :| 0 <= k < |rows[1..]| && rows[1..][k] == tail[j];
        assert rows[k + 1] == tail[j];
      }
    }
  }

  /** Deleting the same rows twice leaves what deleting them once left. */
  lemma {:induction false} FilterIdempotent<T(!new)>(rows: seq<T>, keep: T -> bool)
    ensures Filter(Filter(rows, keep), keep) == Filter(rows, keep)
  {
    if rows != [] {
      FilterIdempotent(rows[1..], keep);
      var t := Filter(rows[1..], keep);
      if keep(rows[0]) {
        assert Filter(rows, keep) == [rows[0]] + t;
        assert ([rows[0]] + t)[1..] == t;
        assert Filter([rows[0]] + t, keep) == [rows[0]] + Filter(t, keep);
      } else {
        assert Filter(rows, keep) == [] + t == t;
      }
    }
  }

  // ---------------------------------------------------------------------------------------
  // Repositories
  // ---------------------------------------------------------------------------------------

  /** The WHERE clause of `get_repo`: url always, source path and branch only when given. */
  predicate RepoMatches(r: RepoRecord, url: string, srcPath: Option<string>, branch: Option<string>)
  {
    && r.url == url
    && (srcPath.Some? ==> r.srcPath == srcPath.value)
    && (branch.Some? ==> r.branch == branch.value)
  }

  function TouchRepo(rows: seq<RepoRecord>, repoId: int, now: Timestamp): seq<RepoRecord>
  {
    seq(|rows|, k requires 0 <= k < |rows| =>
      if rows[k].repoId == repoId then rows[k].(lastModifiedAt := now) else rows[k])
  }

  /** At most one repository row per (url, source path, branch). */
  ghost predicate RepoKeysUnique(rows: seq<RepoRecord>)
  {
    forall i, j :: 0 <= i < j < |rows| ==>
      (rows[i].url, rows[i].srcPath, rows[i].branch) != (rows[j].url, rows[j].srcPath, rows[j].branch)
  }

  // ---------------------------------------------------------------------------------------
  // Packages
  // ---------------------------------------------------------------------------------------

  predicate PackageMatches(p: PackageRecord, repoId: int, name: string)
  {
    p.repoId == repoId && p.packageName == name
  }

  function TouchPackage(rows: seq<PackageRecord>, repoId: int, packageId: int, now: Timestamp): seq<PackageRecord>
  {
    seq(|rows|, k requires 0 <= k < |rows| =>
      if rows[k].repoId == repoId && rows[k].packageId == packageId
      then rows[k].(lastModifiedAt := now) else rows[k])
  }

  function SetPackageSummary(rows: seq<PackageRecord>, repoId: int, packageId: int, summary: string, now: Timestamp)
    : seq<PackageRecord>
  {
    seq(|rows|, k requires 0 <= k < |rows| =>
      if rows[k].repoId == repoId && rows[k].packageId == packageId
      then rows[k].(summary := Some(summary), lastModifiedAt := now) else rows[k])
  }

  /** `DELETE FROM packages WHERE repo_id = ? AND package_id NOT IN (valid)`. */
  function PruneUnlisted(rows: seq<PackageRecord>, repoId: int, valid: set<int>): seq<PackageRecord>
  {
    Filter(rows, (p: PackageRecord) => p.repoId != repoId || p.packageId in valid)
  }

  /** `DELETE FROM packages WHERE repo_id = ?`. */
  function PruneRepo(rows: seq<PackageRecord>, repoId: int): seq<PackageRecord>
  {
    Filter(rows, (p: PackageRecord) => p.repoId != repoId)
  }

  /** What `delete_orphan_packages` leaves: its two branches, chosen by whether `valid` is empty. */
  function PruneOrphans(rows: seq<PackageRecord>, repoId: int, valid: set<int>): (r: seq<PackageRecord>)
    ensures forall p :: p in r <==> p in rows && (p.repoId != repoId || p.packageId in valid)
    ensures forall p :: p in rows && p.repoId != repoId ==> p in r
  {
    if valid != {} then PruneUnlisted(rows, repoId, valid) else PruneRepo(rows, repoId)
  }

  /** At most one package row per (repository id, package name). */
  ghost predicate PackageKeysUnique(rows: seq<PackageRecord>)
  {
    forall i, j :: 0 <= i < j < |rows| ==>
      (rows[i].repoId, rows[i].packageName) != (rows[j].repoId, rows[j].packageName)
  }

  // ---------------------------------------------------------------------------------------
  // Files
  // ---------------------------------------------------------------------------------------

  /** `DELETE FROM files WHERE repo_id = ? AND file_path IN (paths)`. */
  function RemoveFiles(rows: seq<FileRecord>, repoId: int, paths: seq<string>): (r: seq<FileRecord>)
    ensures forall f :: f in r <==> f in rows && !(f.repoId == repoId && f.filePath in paths)
  {
    Filter(rows, (f: FileRecord) => !(f.repoId == repoId && f.filePath in paths))
  }

  predicate HasFile(rows: seq<FileRecord>, repoId: int, path: string)
  {
    exists k :: 0 <= k < |rows| && FileKeyOf(rows[k]) == (repoId, path)
  }

  /**
    * What `insert_or_update_file` does to the file rows: when a row with the key exists, only its
    * summary and last-modified time change (its package id is kept); otherwise one row is appended.
    */
  function UpsertFile(rows: seq<FileRecord>, repoId: int, packageId: int, path: string, summary: string,
                      now: Timestamp, freshId: int): seq<FileRecord>
  {
    if HasFile(rows, repoId, path) then
      seq(|rows|, k requires 0 <= k < |rows| =>
        if FileKeyOf(rows[k]) == (repoId, path) then rows[k].(summary := summary, lastModifiedAt := now)
        else rows[k])
    else
      rows + [FileRecord(freshId, repoId, packageId, path, summary, now, now)]
  }

  /** `UPDATE files SET summary = ?, last_modified_at = ? WHERE file_id = ?`. */
  function RewriteFile(rows: seq<FileRecord>, fileId: int, summary: string, now: Timestamp): seq<FileRecord>
  {
    seq(|rows|, k requires 0 <= k < |rows| =>
      if rows[k].fileId == fileId then rows[k].(summary := summary, lastModifiedAt := now) else rows[k])
  }

  /** `SELECT DISTINCT package_id FROM files WHERE repo_id = ? AND file_path IN (paths)`. */
  function OwningPackages(rows: seq<FileRecord>, repoId: int, paths: seq<string>): set<int>
  {
    set f | f in rows && f.repoId == repoId && f.filePath in paths :: f.packageId
  }

  /** `SELECT DISTINCT package_id FROM files WHERE repo_id = ?`. */
  function PackagesWithFiles(rows: seq<FileRecord>, repoId: int): set<int>
  {
    set f | f in rows && f.repoId == repoId :: f.packageId
  }

  /** `SELECT file_path, summary FROM files WHERE repo_id = ? AND package_id = ?`, in row order. */
  function InPackage(repoId: int, packageId: int): FileRecord -> bool
  {
    (f: FileRecord) => f.repoId == repoId && f.packageId == packageId
  }

  function SummariesOf(rows: seq<FileRecord>, repoId: int, packageId: int): seq<(string, string)>
  {
    var sel := Filter(rows, InPackage(repoId, packageId));
    seq(|sel|, k requires 0 <= k < |sel| => (sel[k].filePath, sel[k].summary))
  }

  /** `entry` is the (path, summary) of one of the package's rows. */
  ghost predicate IsPackageEntry(rows: seq<FileRecord>, repoId: int, packageId: int, entry: (string, string))
  {
    exists f :: f in rows && f.repoId == repoId && f.packageId == packageId && entry == (f.filePath, f.summary)
  }

  /** The summaries listed are exactly those of the package's rows. */
  lemma SummariesOfSpec(rows: seq<FileRecord>, repoId: int, packageId: int)
    ensures forall k :: 0 <= k < |SummariesOf(rows, repoId, packageId)| ==>
      IsPackageEntry(rows, repoId, packageId, SummariesOf(rows, repoId, packageId)[k])
    ensures forall f :: f in rows && f.repoId == repoId && f.packageId == packageId ==>
      (f.filePath, f.summary) in SummariesOf(rows, repoId, packageId)
  {
    var sel := Filter(rows, InPackage(repoId, packageId));
    var r := SummariesOf(rows, repoId, packageId);
    forall k | 0 <= k < |r|
      ensures IsPackageEntry(rows, repoId, packageId, r[k])
    {
      var f := sel[k];
      assert f in sel;
      assert f in rows && f.repoId == repoId && f.packageId == packageId;
      assert r[k] == (f.filePath, f.summary);
    }
    forall f | f in rows && f.repoId == repoId && f.packageId == packageId
      ensures (f.filePath, f.summary) in r
    {
      assert f in sel;
      var k :| 0 <= k < |sel| && sel[k] == f;
      assert r[k] == (f.filePath, f.summary);
    }
  }

  // ---------------------------------------------------------------------------------------
  // Properties of the table operations
  // ---------------------------------------------------------------------------------------

  /**
    * Orphan pruning driven by `PackagesWithFiles`: afterwards every package of the repository owns
    * a file, every package that owns a file survives, and other repositories' packages are untouched.
    */
  lemma PruneWithSurvivorsLeavesNoOrphans(pkgs: seq<PackageRecord>, files: seq<FileRecord>, repoId: int)
    ensures forall p :: p in PruneOrphans(pkgs, repoId, PackagesWithFiles(files, repoId)) && p.repoId == repoId ==>
      exists f :: f in files && f.repoId == repoId && f.packageId == p.packageId
    ensures forall p, f :: p in pkgs && f in files && f.repoId == repoId && f.packageId == p.packageId ==>
      p in PruneOrphans(pkgs, repoId, PackagesWithFiles(files, repoId))
    ensures forall p :: p in pkgs && p.repoId != repoId ==> p in PruneOrphans(pkgs, repoId, PackagesWithFiles(files, repoId))
  {
  }

  /** Deleting a list of paths twice leaves what deleting them once left. */
  lemma RemoveFilesIdempotent(rows: seq<FileRecord>, repoId: int, paths: seq<string>)
    ensures RemoveFiles(RemoveFiles(rows, repoId, paths), repoId, paths) == RemoveFiles(rows, repoId, paths)
  {
    FilterIdempotent(rows, (f: FileRecord) => !(f.repoId == repoId && f.filePath in paths));
  }

  /** An empty path list deletes nothing, so `delete_files` skipping the query changes nothing. */
  lemma {:induction false} RemoveNoFiles(rows: seq<FileRecord>, repoId: int)
    ensures RemoveFiles(rows, repoId, []) == rows
  {
    if rows != [] {
      RemoveNoFiles(rows[1..], repoId);
      assert [rows[0]] + rows[1..] == rows;
    }
  }

  /**
    * `insert_or_update_file` either updates the one existing row of the key or inserts one new
    * row, never both, and leaves exactly one row with that key.
    */
  lemma UpsertFileKeepsOneRowPerPath(rows: seq<FileRecord>, repoId: int, packageId: int, path: string,
                                     summary: string, now: Timestamp, freshId: int)
    requires DistinctBy(rows, FileKeyOf)
    ensures var r := UpsertFile(rows, repoId, packageId, path, summary, now, freshId);
      && DistinctBy(r, FileKeyOf)
      && |r| == (if HasFile(rows, repoId, path) then |rows| else |rows| + 1)
      && (exists k :: 0 <= k < |r| && FileKeyOf(r[k]) == (repoId, path) && r[k].summary == summary)
      && (forall k :: 0 <= k < |rows| && FileKeyOf(rows[k]) != (repoId, path) ==> r[k] == rows[k])
  {
    var r := UpsertFile(rows, repoId, packageId, path, summary, now, freshId);
    if HasFile(rows, repoId, path) {
      var k :| 0 <= k < |rows| && FileKeyOf(rows[k]) == (repoId, path);
      assert FileKeyOf(r[k]) == (repoId, path) && r[k].summary == summary;
      assert forall i :: 0 <= i < |r| ==> FileKeyOf(r[i]) == FileKeyOf(rows[i]);
    } else {
      assert FileKeyOf(r[|rows|]) == (repoId, path);
    }
  }

  /** With file ids and keys both unique, a row shares its id with exactly the rows that share its key. */
  lemma SameIdIffSameKey(rows: seq<FileRecord>, k: nat)
    requires k < |rows|
    requires DistinctBy(rows, FileIdOf) && DistinctBy(rows, FileKeyOf)
    ensures forall i :: 0 <= i < |rows| ==> (rows[i].fileId == rows[k].fileId <==> FileKeyOf(rows[i]) == FileKeyOf(rows[k]))
  {
    forall i | 0 <= i < |rows|
      ensures rows[i].fileId == rows[k].fileId <==> FileKeyOf(rows[i]) == FileKeyOf(rows[k])
    {
      if i < k {
        assert FileIdOf(rows[i]) != FileIdOf(rows[k]) && FileKeyOf(rows[i]) != FileKeyOf(rows[k]);
      } else if k < i {
        assert FileIdOf(rows[k]) != FileIdOf(rows[i]) && FileKeyOf(rows[k]) != FileKeyOf(rows[i]);
      }
    }
  }

  /** Rewriting a row changes no id, no key, and stamps it with a time no earlier than its creation. */
  lemma RewriteKeepsIdsAndKeys(rows: seq<FileRecord>, fileId: int, summary: string, now: Timestamp)
    requires forall f :: f in rows ==> f.createdAt <= f.lastModifiedAt <= now
    ensures var r := RewriteFile(rows, fileId, summary, now);
      && |r| == |rows|
      && (forall i :: 0 <= i < |r| ==> FileIdOf(r[i]) == FileIdOf(rows[i]) && FileKeyOf(r[i]) == FileKeyOf(rows[i]))
      && (forall f :: f in r ==> f.createdAt <= f.lastModifiedAt <= now)
      && (forall f :: f in r ==> exists g :: g in rows && g.fileId == f.fileId)
  {
    var r := RewriteFile(rows, fileId, summary, now);
    forall f | f in r
      ensures f.createdAt <= f.lastModifiedAt <= now
      ensures exists g :: g in rows && g.fileId == f.fileId
    {
      var i :| 0 <= i < |r| && r[i] == f;
      assert rows[i] in rows;
    }
  }

  /**
    * With file ids and (repository, path) keys both unique, rewriting the row found by key through
    * its id is the update branch of `UpsertFile`, and it keeps ids, keys and timestamp order.
    */
  lemma RewriteByIdIsUpsert(rows: seq<FileRecord>, k: nat, packageId: int, summary: string,
                            now: Timestamp, freshId: int)
    requires k < |rows|
    requires DistinctBy(rows, FileIdOf) && DistinctBy(rows, FileKeyOf)
    requires forall f :: f in rows ==> f.createdAt <= f.lastModifiedAt <= now
    ensures var r := RewriteFile(rows, rows[k].fileId, summary, now);
      && r == UpsertFile(rows, rows[k].repoId, packageId, rows[k].filePath, summary, now, freshId)
      && DistinctBy(r, FileIdOf) && DistinctBy(r, FileKeyOf)
      && (forall f :: f in r ==> f.createdAt <= f.lastModifiedAt <= now)
      && (forall f :: f in r ==> exists g :: g in rows && g.fileId == f.fileId)
  {
    SameIdIffSameKey(rows, k);
    RewriteKeepsIdsAndKeys(rows, rows[k].fileId, summary, now);
    assert HasFile(rows, rows[k].repoId, rows[k].filePath);
  }

  // ---------------------------------------------------------------------------------------
  // The store object
  // ---------------------------------------------------------------------------------------

  ghost predicate RepoRowsOk(rows: seq<RepoRecord>, next: int, clock: Timestamp)
  {
    forall r :: r in rows ==> 1 <= r.repoId < next && r.createdAt <= r.lastModifiedAt <= clock
  }

  ghost predicate PackageRowsOk(rows: seq<PackageRecord>, next: int, clock: Timestamp)
  {
    forall p :: p in rows ==> 1 <= p.packageId < next && p.createdAt <= p.lastModifiedAt <= clock
  }

  ghost predicate FileRowsOk(rows: seq<FileRecord>, next: int, clock: Timestamp)
  {
    forall f :: f in rows ==> 1 <= f.fileId < next && f.createdAt <= f.lastModifiedAt <= clock
  }

  /**
    * An SQLite-backed store, with the three tables as row sequences. Each `datetime.utcnow()`
    * reading advances `clock` by one; each INSERT takes the next value of its table's counter.
    */
  class KnowledgeStore {
    var repos: seq<RepoRecord>
    var packages: seq<PackageRecord>
    var files: seq<FileRecord>
    var nextRepoId: int
    var nextPackageId: int
    var nextFileId: int
    var clock: Timestamp

    /** Ids are below their counters and distinct, timestamps are ordered, and (repo, path) is unique. */
    ghost predicate Valid()
      reads this
    {
      && 1 <= nextRepoId && 1 <= nextPackageId && 1 <= nextFileId
      && RepoRowsOk(repos, nextRepoId, clock)
      && PackageRowsOk(packages, nextPackageId, clock)
      && FileRowsOk(files, nextFileId, clock)
      && DistinctBy(repos, RepoIdOf)
      && DistinctBy(packages, PackageIdOf)
      && DistinctBy(files, FileIdOf)
      && DistinctBy(files, FileKeyOf)
    }

    /** `create_tables` on a new database: three empty tables. */
    constructor ()
      ensures Valid()
      ensures repos == [] && packages == [] && files == []
    {
      repos, packages, files := [], [], [];
      nextRepoId, nextPackageId, nextFileId := 1, 1, 1;
      clock := 0;
    }

    /** `datetime.utcnow()`. */
    method Now() returns (now: Timestamp)
      modifies this`clock
      ensures clock == old(clock) + 1 && now == clock
    {
      clock := clock + 1;
      now := clock;
    }

    // ----- Repository operations -----

    /** `get_repo`: the first repository row matching the url and whichever of source path and branch is given. */
    function GetRepo(url: string, srcPath: Option<string>, branch: Option<string>): (r: Option<RepoRecord>)
      reads this
      ensures r.Some? ==> r.value in repos && RepoMatches(r.value, url, srcPath, branch)
      ensures r.Some? ==>
        exists k :: 0 <= k < |repos| && repos[k] == r.value &&
          (forall j :: 0 <= j < k ==> !RepoMatches(repos[j], url, srcPath, branch))
      ensures r.None? <==> forall x :: x in repos ==> !RepoMatches(x, url, srcPath, branch)
    {
      match FindFirst(repos, (x: RepoRecord) => RepoMatches(x, url, srcPath, branch))
      case None => None
      case Some(k) => Some(repos[k])
    }

    /** `insert_repo`: appends a row with a fresh id whose creation and modification times coincide. */
    method InsertRepo(url: string, srcPath: string, branch: string) returns (id: int)
      requires Valid()
      modifies this
      ensures Valid()
      ensures id == old(nextRepoId) && forall x :: x in old(repos) ==> x.repoId != id
      ensures repos == old(repos) + [RepoRecord(id, url, srcPath, branch, clock, clock)]
      ensures clock == old(clock) + 1 && nextRepoId == id + 1
      ensures packages == old(packages) && files == old(files)
      ensures nextPackageId == old(nextPackageId) && nextFileId == old(nextFileId)
      ensures RepoKeysUnique(old(repos)) && old(GetRepo(url, Some(srcPath), Some(branch))).None?
        ==> RepoKeysUnique(repos)
    {
      var now := Now();
      id := nextRepoId;
      var row := RepoRecord(id, url, srcPath, branch, now, now);
      ghost var before := repos;
      repos := repos + [row];
      nextRepoId := nextRepoId + 1;
      forall x | x in repos
        ensures 1 <= x.repoId < nextRepoId && x.createdAt <= x.lastModifiedAt <= clock
      {
        if x != row { assert x in before; }
      }
    }

    /** `update_repo_last_modified`: only that repository's last-modified time changes. */
    method UpdateRepoLastModified(repoId: int)
      requires Valid()
      modifies this
      ensures Valid()
      ensures repos == TouchRepo(old(repos), repoId, clock) && clock == old(clock) + 1
      ensures packages == old(packages) && files == old(files)
      ensures nextRepoId == old(nextRepoId) && nextPackageId == old(nextPackageId) && nextFileId == old(nextFileId)
    {
      var now := Now();
      repos := TouchRepo(repos, repoId, now);
      assert forall k :: 0 <= k < |repos| ==> RepoIdOf(repos[k]) == RepoIdOf(old(repos)[k]);
    }

    // ----- Package operations -----

    /** `get_package`: the first package row of that repository with that name. */
    function GetPackage(repoId: int, name: string): (r: Option<PackageRecord>)
      reads this
      ensures r.Some? ==> r.value in packages && PackageMatches(r.value, repoId, name)
      ensures r.Some? ==>
        exists k :: 0 <= k < |packages| && packages[k] == r.value &&
          (forall j :: 0 <= j < k ==> !PackageMatches(packages[j], repoId, name))
      ensures r.None? <==> forall p :: p in packages ==> !PackageMatches(p, repoId, name)
    {
      match FindFirst(packages, (p: PackageRecord) => PackageMatches(p, repoId, name))
      case None => None
      case Some(k) => Some(packages[k])
    }

    /** `insert_package`: appends a row with a fresh id and no summary. */
    method InsertPackage(repoId: int, name: string) returns (id: int)
      requires Valid()
      modifies this
      ensures Valid()
      ensures id == old(nextPackageId) && forall p :: p in old(packages) ==> p.packageId != id
      ensures packages == old(packages) + [PackageRecord(id, repoId, name, None, clock, clock)]
      ensures clock == old(clock) + 1 && nextPackageId == id + 1
      ensures repos == old(repos) && files == old(files)
      ensures nextRepoId == old(nextRepoId) && nextFileId == old(nextFileId)
      ensures PackageKeysUnique(old(packages)) && old(GetPackage(repoId, name)).None? ==> PackageKeysUnique(packages)
    {
      var now := Now();
      id := nextPackageId;
      var row := PackageRecord(id, repoId, name, None, now, now);
      ghost var before := packages;
      packages := packages + [row];
      nextPackageId := nextPackageId + 1;
      forall p | p in packages
        ensures 1 <= p.packageId < nextPackageId && p.createdAt <= p.lastModifiedAt <= clock
      {
        if p != row { assert p in before; }
      }
    }

    /** `update_package_last_modified`: only that (repository, package) row's last-modified time changes. */
    method UpdatePackageLastModified(repoId: int, packageId: int)
      requires Valid()
      modifies this
      ensures Valid()
      ensures packages == TouchPackage(old(packages), repoId, packageId, clock) && clock == old(clock) + 1
      ensures repos == old(repos) && files == old(files)
      ensures nextRepoId == old(nextRepoId) && nextPackageId == old(nextPackageId) && nextFileId == old(nextFileId)
    {
      var now := Now();
      packages := TouchPackage(packages, repoId, packageId, now);
      assert forall k :: 0 <= k < |packages| ==> PackageIdOf(packages[k]) == PackageIdOf(old(packages)[k]);
    }

    /** `update_package_summary`: sets the summary and bumps the time of that (repository, package) row only. */
    method UpdatePackageSummary(repoId: int, packageId: int, summary: string)
      requires Valid()
      modifies this
      ensures Valid()
      ensures packages == SetPackageSummary(old(packages), repoId, packageId, summary, clock)
      ensures clock == old(clock) + 1
      ensures repos == old(repos) && files == old(files)
      ensures nextRepoId == old(nextRepoId) && nextPackageId == old(nextPackageId) && nextFileId == old(nextFileId)
    {
      var now := Now();
      packages := SetPackageSummary(packages, repoId, packageId, summary, now);
      assert forall k :: 0 <= k < |packages| ==> PackageIdOf(packages[k]) == PackageIdOf(old(packages)[k]);
    }

    /**
      * `delete_orphan_packages`: removes that repository's packages not listed in `valid` (all of
      * them when `valid` is empty); other repositories' packages stay.
      */
    method DeleteOrphanPackages(repoId: int, valid: set<int>)
      requires Valid()
      modifies this
      ensures Valid()
      ensures packages == PruneOrphans(old(packages), repoId, valid)
      ensures repos == old(repos) && files == old(files) && clock == old(clock)
      ensures nextRepoId == old(nextRepoId) && nextPackageId == old(nextPackageId) && nextFileId == old(nextFileId)
    {
      if valid != {} {
        FilterKeepsDistinct(packages, (p: PackageRecord) => p.repoId != repoId || p.packageId in valid, PackageIdOf);
        packages := PruneUnlisted(packages, repoId, valid);
      } else {
        FilterKeepsDistinct(packages, (p: PackageRecord) => p.repoId != repoId, PackageIdOf);
        packages := PruneRepo(packages, repoId);
      }
    }

    // ----- File operations -----

    /**
      * `insert_or_update_file`: when a row with (repository, path) exists, only its summary and
      * last-modified time change and its package id is kept; otherwise one row is appended.
      */
    method InsertOrUpdateFile(repoId: int, packageId: int, path: string, summary: string)
      requires Valid()
      modifies this
      ensures Valid()
      ensures files == UpsertFile(old(files), repoId, packageId, path, summary, clock, old(nextFileId))
      ensures clock == old(clock) + 1
      ensures repos == old(repos) && packages == old(packages)
      ensures nextRepoId == old(nextRepoId) && nextPackageId == old(nextPackageId)
    {
      var now := Now();
      var found := FindFirst(files, (f: FileRecord) => FileKeyOf(f) == (repoId, path));
      if found.Some? {
        RewriteByIdIsUpsert(files, found.value, packageId, summary, now, nextFileId);
        ghost var before := files;
        files := RewriteFile(files, files[found.value].fileId, summary, now);
        forall f | f in files
          ensures 1 <= f.fileId < nextFileId
        {
          var g :| g in before && g.fileId == f.fileId;
        }
      } else {
        var row := FileRecord(nextFileId, repoId, packageId, path, summary, now, now);
        ghost var before := files;
        files := files + [row];
        nextFileId := nextFileId + 1;
        forall f | f in files
          ensures 1 <= f.fileId < nextFileId && f.createdAt <= f.lastModifiedAt <= clock
        {
          if f != row { assert f in before; }
        }
      }
    }

    /** `delete_files`: removes exactly that repository's rows whose path is listed; an empty list is a no-op. */
    method DeleteFiles(repoId: int, paths: seq<string>)
      requires Valid()
      modifies this
      ensures Valid()
      ensures files == RemoveFiles(old(files), repoId, paths)
      ensures paths == [] ==> files == old(files)
      ensures repos == old(repos) && packages == old(packages) && clock == old(clock)
      ensures nextRepoId == old(nextRepoId) && nextPackageId == old(nextPackageId) && nextFileId == old(nextFileId)
    {
      if paths != [] {
        var keep := (f: FileRecord) => !(f.repoId == repoId && f.filePath in paths);
        FilterKeepsDistinct(files, keep, FileIdOf);
        FilterKeepsDistinct(files, keep, FileKeyOf);
        files := RemoveFiles(files, repoId, paths);
      } else {
        RemoveNoFiles(files, repoId);
      }
    }

    /** `get_file_summaries_for_package`: (path, summary) of each file of that package, in row order. */
    function GetFileSummariesForPackage(repoId: int, packageId: int): seq<(string, string)>
      reads this
    {
      SummariesOf(files, repoId, packageId)
    }

    // ----- Additional fetch methods -----

    /** `get_all_repos`: every repository row once, in no promised order; each is found by its id. */
    function GetAllRepos(): (r: seq<RepoRecord>)
      reads this
      ensures multiset(r) == multiset(repos)
      ensures forall x :: x in r ==> FetchRepoData(x.repoId).Some?
    {
      repos
    }

    /** `fetch_repo_data`: the first repository row with that id. */
    function FetchRepoData(repoId: int): (r: Option<RepoRecord>)
      reads this
      ensures r.Some? ==> r.value in repos && r.value.repoId == repoId
      ensures r.None? <==> forall x :: x in repos ==> x.repoId != repoId
    {
      match FindFirst(repos, (x: RepoRecord) => x.repoId == repoId)
      case None => None
      case Some(k) => Some(repos[k])
    }

    /** `fetch_package_data`: that repository's package rows, in row order. */
    function FetchPackageData(repoId: int): (r: seq<PackageRecord>)
      reads this
      ensures forall p :: p in r <==> p in packages && p.repoId == repoId
    {
      Filter(packages, (p: PackageRecord) => p.repoId == repoId)
    }

    /** `fetch_file_data`: the file rows of that package id, whatever their repository. */
    function FetchFileData(packageId: int): (r: seq<FileRecord>)
      reads this
      ensures forall f :: f in r <==> f in files && f.packageId == packageId
    {
      Filter(files, (f: FileRecord) => f.packageId == packageId)
    }

    // ----- Helpers for update handling -----

    /** `get_package_ids_for_files`: the distinct package ids of that repository's files with the listed paths. */
    function GetPackageIdsForFiles(repoId: int, paths: seq<string>): (r: set<int>)
      reads this
      ensures forall id :: id in r <==> exists f :: f in files && f.repoId == repoId && f.filePath in paths && f.packageId == id
      ensures paths == [] ==> r == {}
    {
      if paths == [] then {} else OwningPackages(files, repoId, paths)
    }

    /** `get_valid_package_ids`: the package ids referenced by at least one file row of that repository. */
    function GetValidPackageIds(repoId: int): (r: set<int>)
      reads this
      ensures forall id :: id in r <==> exists f :: f in files && f.repoId == repoId && f.packageId == id
    {
      PackagesWithFiles(files, repoId)
    }
  }
}
