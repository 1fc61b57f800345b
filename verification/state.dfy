/**
  * The graph states: the events that start a run, the per-unit work items and results, and
  * `OnboardState` with its channel wiring. Channels annotated with `add_or_delete` are reduced;
  * every other field is overwritten by the last node that writes it.
  */
module GraphState {
  import opened Wrappers
  import opened Reducer

  const RepoOnboard: string := "repo-onboard"
  const RepoUpdate: string := "repo-update"

  datatype EventMetadata = EventMetadata(modified: seq<string>, deleted: seq<string>)

  /** The event tag is kept as text: the routing functions reject tags other than the two above. */
  datatype Event = Event(eventType: string, metaData: EventMetadata)

  /** `Event()` with its defaults: an onboarding event with no modified or deleted paths. */
  function DefaultEvent(): (e: Event)
    ensures e.eventType == RepoOnboard
    ensures e.metaData.modified == [] && e.metaData.deleted == []
  {
    Event(RepoOnboard, EventMetadata([], []))
  }

  datatype Repo = Repo(url: string, srcFolder: string, branch: string, commitHash: Option<string>)

  /** `Repo()` with its defaults; the commit hash defaults to None. */
  function DefaultRepo(): (r: Repo)
    ensures r.branch == "main" && r.commitHash.None?
    ensures r.url == "https://github.com/praneetdhoolia/langgraph-se-agent" && r.srcFolder == "src/se_agent"
  {
    Repo("https://github.com/praneetdhoolia/langgraph-se-agent", "src/se_agent", "main", None)
  }

  datatype Package = Package(packageId: int, name: string, filepaths: seq<string>, summary: Option<string>)
  datatype FileSummary = FileSummary(filepath: string, summary: string)
  datatype FileSummaryError = FileSummaryError(filepath: string, error: string)
  datatype PackageSummary = PackageSummary(packageId: int, summary: string)
  datatype PackageSummaryError = PackageSummaryError(packageId: int, packageName: string, error: string)
  datatype FileContent = FileContent(filepath: string, content: string)

  /** The work item of one fanned-out file branch; `repoDir` is None unless the sender sets it. */
  datatype FilepathState = FilepathState(filepath: string, repo: Repo, event: Option<Event>, repoDir: Option<string>)

  /** The work item of one fanned-out package branch. */
  datatype PackageState = PackageState(packageId: int, repoId: int)

  /**
    * The value of `packages_impacted`: a set (from `handle_update`), a list (from
    * `save_file_summaries`), or the literal text "delete" that `save_package_summaries` writes,
    * which this field keeps verbatim because it has no reducer.
    */
  datatype Impacted = ImpactedSet(ids: set<int>) | ImpactedList(order: seq<int>) | DeleteText

  /** `bool(state.packages_impacted)`. */
  predicate IsTruthy(i: Impacted)
  {
    match i
    case ImpactedSet(ids) => ids != {}
    case ImpactedList(order) => order != []
    case DeleteText => true
  }

  datatype OnboardState = OnboardState(
    repo: Repo,
    event: Option<Event>,
    repoId: int,
    repoDir: Option<string>,
    filepaths: seq<string>,
    fileSummaries: seq<FileSummary>,
    fileSummaryErrors: seq<FileSummaryError>,
    packagesImpacted: Impacted,
    packageSummaries: seq<PackageSummary>,
    packageSummaryErrors: seq<PackageSummaryError>)

  /** The state a run starts from: the input repository and event, everything else at its default. */
  function InitialOnboardState(repo: Repo, event: Event): (s: OnboardState)
    ensures s.repo == repo && s.event == Some(event) && s.repoId == 0 && s.repoDir.None?
    ensures s.filepaths == [] && s.fileSummaries == [] && s.fileSummaryErrors == []
    ensures s.packagesImpacted == ImpactedSet({}) && s.packageSummaries == [] && s.packageSummaryErrors == []
  {
    OnboardState(repo, Some(event), 0, None, [], [], [], ImpactedSet({}), [], [])
  }

  /** A node's write to a plain field: absent, or a value that replaces the old one. */
  datatype Write<T> = Keep | Put(value: T)

  /**
    * A node's write to a reduced list channel. In this graph these channels only ever receive
    * lists or the marker "delete".
    */
  datatype ListWrite<T> = Unwritten | Append(items: seq<T>) | Reset

  datatype OnboardUpdate = OnboardUpdate(
    event: Write<Option<Event>>,
    repoId: Write<int>,
    repoDir: Write<Option<string>>,
    filepaths: ListWrite<string>,
    fileSummaries: ListWrite<FileSummary>,
    fileSummaryErrors: ListWrite<FileSummaryError>,
    packagesImpacted: Write<Impacted>,
    packageSummaries: ListWrite<PackageSummary>,
    packageSummaryErrors: ListWrite<PackageSummaryError>)

  /** The update of a node that writes nothing. */
  const NoUpdate: OnboardUpdate :=
    OnboardUpdate(Keep, Keep, Keep, Unwritten, Unwritten, Unwritten, Keep, Unwritten, Unwritten)

  function Overwrite<T>(old_: T, w: Write<T>): T
  {
    if w.Put? then w.value else old_
  }

  function AsIncoming<T>(w: ListWrite<T>): Incoming<T>
  {
    match w
    case Unwritten => NoValue
    case Append(items) => SeqOf(items)
    case Reset => Delete
  }

  /**
    * A list channel after one write: exactly what `add_or_delete` returns for it, which for a list
    * is never a type error and never turns the list into a set.
    */
  function ApplyListWrite<T(!new)>(existing: seq<T>, w: ListWrite<T>): (r: seq<T>)
    ensures AddOrDelete(Some(ListOf(existing)), AsIncoming(w)) == Ok(ListOf(r))
    ensures w.Unwritten? ==> r == existing
  {
    match w
    case Unwritten => existing
    case Append(items) =>
      var r := existing + items;
      assert var out := AddOrDelete(Some(ListOf(existing)), SeqOf(items)).value.items;
        out == out[..|existing|] + out[|existing|..];
      assert items == [] ==> r == existing;
      r
    case Reset => []
  }

  /** The state after a node's update: reduced channels go through the reducer, plain fields are replaced. */
  function ApplyUpdate(s: OnboardState, u: OnboardUpdate): OnboardState
  {
    OnboardState(
      s.repo,
      Overwrite(s.event, u.event),
      Overwrite(s.repoId, u.repoId),
      Overwrite(s.repoDir, u.repoDir),
      ApplyListWrite(s.filepaths, u.filepaths),
      ApplyListWrite(s.fileSummaries, u.fileSummaries),
      ApplyListWrite(s.fileSummaryErrors, u.fileSummaryErrors),
      Overwrite(s.packagesImpacted, u.packagesImpacted),
      ApplyListWrite(s.packageSummaries, u.packageSummaries),
      ApplyListWrite(s.packageSummaryErrors, u.packageSummaryErrors))
  }

  /** The updates of fanned-out branches applied one after another, in order. */
  function ApplyAll(s: OnboardState, us: seq<OnboardUpdate>): OnboardState
    decreases |us|
  {
    if us == [] then s else ApplyAll(ApplyUpdate(s, us[0]), us[1..])
  }

  /**
    * `packages_impacted` has no reducer: when an update run has both deletions and modifications,
    * the set written by `handle_update` is replaced by the list written by `save_file_summaries`,
    * whereas the reduced `file_summaries` channel keeps everything appended before it.
    */
  lemma ImpactedIsLastWriterWins(s: OnboardState, fromDeletions: set<int>, fromGroups: seq<int>,
                                 summaries: seq<FileSummary>)
    ensures var s1 := ApplyUpdate(s, NoUpdate.(packagesImpacted := Put(ImpactedSet(fromDeletions))));
      var s2 := ApplyUpdate(s1, NoUpdate.(fileSummaries := Append(summaries)));
      var s3 := ApplyUpdate(s2, NoUpdate.(packagesImpacted := Put(ImpactedList(fromGroups))));
      && s3.packagesImpacted == ImpactedList(fromGroups)
      && s3.fileSummaries == s.fileSummaries + summaries
      && (forall id :: id in fromDeletions && id !in fromGroups ==> id !in s3.packagesImpacted.order)
  {
  }

  /** Branch updates that only append file summaries leave the concatenation of their summaries, in order. */
  lemma {:induction false} FanInAppends(s: OnboardState, us: seq<OnboardUpdate>, outs: seq<seq<FileSummary>>)
    requires |us| == |outs|
    requires forall k :: 0 <= k < |us| ==> us[k] == NoUpdate.(fileSummaries := Append(outs[k]))
    ensures ApplyAll(s, us).fileSummaries == s.fileSummaries + Concat(outs)
    ensures ApplyAll(s, us).packagesImpacted == s.packagesImpacted && ApplyAll(s, us).filepaths == s.filepaths
    decreases |us|
  {
    if us != [] {
      var s1 := ApplyUpdate(s, us[0]);
      FanInAppends(s1, us[1..], outs[1..]);
      assert s.fileSummaries + outs[0] + Concat(outs[1..]) == s.fileSummaries + (outs[0] + Concat(outs[1..]));
    } else {
      assert s.fileSummaries + Concat(outs) == s.fileSummaries;
    }
  }

  function Concat<T>(xss: seq<seq<T>>): seq<T>
    decreases |xss|
  {
    if xss == [] then [] else xss[0] + Concat(xss[1..])
  }
}
