/**
  * The three record types of the knowledge store (`RepoRecord`, `PackageRecord`, `FileRecord`),
  * one per table row.
  */
module Records {
  import opened Wrappers

  /** A reading of the store's clock; the store keeps it increasing (see `Store.KnowledgeStore`). */
  type Timestamp = nat

  /** A row of the `repositories` table, keyed by (url, source path, branch) by convention only. */
  datatype RepoRecord = RepoRecord(
    repoId: int,
    url: string,
    srcPath: string,
    branch: string,
    createdAt: Timestamp,
    lastModifiedAt: Timestamp)

  /** A row of the `packages` table; the summary is absent until the first package summary is saved. */
  datatype PackageRecord = PackageRecord(
    packageId: int,
    repoId: int,
    packageName: string,
    summary: Option<string>,
    createdAt: Timestamp,
    lastModifiedAt: Timestamp)

  /** A row of the `files` table, unique per (repository id, path). */
  datatype FileRecord = FileRecord(
    fileId: int,
    repoId: int,
    packageId: int,
    filePath: string,
    summary: string,
    createdAt: Timestamp,
    lastModifiedAt: Timestamp)

  function RepoIdOf(r: RepoRecord): int { r.repoId }
  function PackageIdOf(p: PackageRecord): int { p.packageId }
  function FileIdOf(f: FileRecord): int { f.fileId }
  function FileKeyOf(f: FileRecord): (int, string) { (f.repoId, f.filePath) }
}
