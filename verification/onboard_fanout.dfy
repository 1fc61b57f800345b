/**
  * The fan-out half of the onboarding graph: the conditional edges that send one work item per file
  * or per package, the two per-unit summary nodes with their error containment, and the fan-in of
  * the per-file results through the `add_or_delete` channels. A fan-out runs its branches one after
  * another here, in dispatch order.
  */
module OnboardFanOut {
  import opened Wrappers
  import opened Text
  import opened Records
  import opened Store
  import opened GraphState
  import opened CodeFence
  import opened Headings

  // ---------------------------------------------------------------------------------------------
  // continue_to_save_package_summaries / continue_to_save_file_summaries
  // ---------------------------------------------------------------------------------------------

  /** A non-empty set has a member (the step that lets a loop or a recursion pick one). */
  lemma NonEmptyHasMember(s: set<int>)
    requires s != {}
    ensures exists x :: x in s
  {
    if forall x :: x !in s {
      assert false;
    }
  }

  /** A set whose only other members are missing is a singleton. */
  lemma OnlyMember(ids: set<int>, y: int)
    requires y in ids && ids - {y} == {}
    ensures forall x :: x in ids ==> x == y
  {
    forall x | x in ids
      ensures x == y
    {
      assert x !in ids - {y};
    }
  }

  /** The smaller of `y` and the least of the other members is the least member. */
  lemma LeastStep(ids: set<int>, y: int, m: int)
    requires y in ids && m in ids - {y} && forall x :: x in ids - {y} ==> m <= x
    ensures forall x :: x in ids ==> (if y < m then y else m) <= x
  {
    forall x | x in ids
      ensures (if y < m then y else m) <= x
    {
      if x != y {
        assert x in ids - {y};
      }
    }
  }

  /** The least member of a non-empty set of ids. */
  lemma {:induction false} Least(ids: set<int>) returns (m: int)
    requires ids != {}
    ensures m in ids && forall x :: x in ids ==> m <= x
    decreases |ids|
  {
    NonEmptyHasMember(ids);
    var y :| y in ids;
    if ids - {y} == {} {
      OnlyMember(ids, y);
      m := y;
    } else {
      var m' := Least(ids - {y});
      LeastStep(ids, y, m');
      m := if y < m' then y else m';
    }
  }

  /** Some element of a non-empty set of ids is below or equal to all the others. */
  lemma HasLeast(ids: set<int>)
    requires ids != {}
    ensures exists m :: m in ids && forall x :: x in ids ==> m <= x
  {
    var m := Least(ids);
  }

  /**
    * The ids of a set, smallest first. A set's iteration order is not fixed by the language the
    * graph is written in; the model fixes it to ascending order.
    */
  function Ascending(ids: set<int>): seq<int>
    decreases |ids|
  {
    if ids == {} then []
    else
      HasLeast(ids);
      var m :| m in ids && forall x :: x in ids ==> m <= x;
      [m] + Ascending(ids - {m})
  }

  /** The ascending listing holds each member of the set exactly once, in increasing order. */
  lemma {:induction false} AscendingSpec(ids: set<int>)
    ensures |Ascending(ids)| == |ids|
    ensures forall x :: x in Ascending(ids) <==> x in ids
    ensures forall i, j :: 0 <= i < j < |Ascending(ids)| ==> Ascending(ids)[i] < Ascending(ids)[j]
    decreases |ids|
  {
    if ids != {} {
      HasLeast(ids);
      var m :| m in ids && forall x :: x in ids ==> m <= x;
      var rest := Ascending(ids - {m});
      assert Ascending(ids) == [m] + rest;
      AscendingSpec(ids - {m});
      AscendingCons(ids, m, rest);
    }
  }

  /** Putting the least member in front of an ascending listing of the others lists the whole set. */
  lemma AscendingCons(ids: set<int>, m: int, rest: seq<int>)
    requires m in ids && forall x :: x in ids ==> m <= x
    requires |rest| == |ids - {m}|
    requires forall x :: x in rest <==> x in ids - {m}
    requires forall i, j :: 0 <= i < j < |rest| ==> rest[i] < rest[j]
    ensures |[m] + rest| == |ids|
    ensures forall x :: x in [m] + rest <==> x in ids
    ensures forall i, j :: 0 <= i < j < |[m] + rest| ==> ([m] + rest)[i] < ([m] + rest)[j]
  {
    var r := [m] + rest;
    forall i, j | 0 <= i < j < |r|
      ensures r[i] < r[j]
    {
      if i == 0 {
        assert r[j] == rest[j - 1] && rest[j - 1] in ids - {m};
      } else {
        assert r[i] == rest[i - 1] && r[j] == rest[j - 1];
      }
    }
  }

  /** The order in which a `for` loop visits the impacted ids: a list's own order, a set's members ascending. */
  function DispatchOrder(impacted: Impacted): (order: seq<int>)
    requires !impacted.DeleteText?
    ensures impacted.ImpactedList? ==> order == impacted.order
    ensures impacted.ImpactedSet? ==>
      && |order| == |impacted.ids|
      && (forall x :: x in order <==> x in impacted.ids)
      && (forall i, j :: 0 <= i < j < |order| ==> order[i] < order[j])
  {
    if impacted.ImpactedList? then impacted.order
    else
      AscendingSpec(impacted.ids);
      Ascending(impacted.ids)
  }

  /** A fan-out: the `Send`s of a conditional edge, to the per-file or the per-package node. */
  datatype Dispatch = FileSummaryTasks(files: seq<FilepathState>) | PackageSummaryTasks(packages: seq<PackageState>)

  /**
    * `continue_to_save_package_summaries`: one work item per impacted package id, each carrying
    * the run's repository id; a list is sent in its order, a set once per member. The marker
    * "delete" is only written after the last fan-out, so the edge never sees it.
    */
  function ContinueToSavePackageSummaries(s: OnboardState): (r: seq<PackageState>)
    requires !s.packagesImpacted.DeleteText?
    ensures forall k :: 0 <= k < |r| ==> r[k].repoId == s.repoId
    ensures s.packagesImpacted.ImpactedList? ==>
      |r| == |s.packagesImpacted.order| && forall k :: 0 <= k < |r| ==> r[k].packageId == s.packagesImpacted.order[k]
    ensures s.packagesImpacted.ImpactedSet? ==>
      && |r| == |s.packagesImpacted.ids|
      && (forall id :: id in s.packagesImpacted.ids <==> exists k :: 0 <= k < |r| && r[k].packageId == id)
      && (forall i, j :: 0 <= i < j < |r| ==> r[i].packageId != r[j].packageId)
  {
    var order := DispatchOrder(s.packagesImpacted);
    var r := seq(|order|, k requires 0 <= k < |order| => PackageState(order[k], s.repoId));
    assert forall k :: 0 <= k < |r| ==> r[k].packageId == order[k];
    r
  }

  /**
    * `continue_to_save_file_summaries`: an update that only deleted paths (no paths left, some
    * packages impacted) goes straight to the package summaries; otherwise one work item per path,
    * in order, each carrying the run's repository, event and clone directory.
    */
  function ContinueToSaveFileSummaries(s: OnboardState): (d: Dispatch)
    requires !s.packagesImpacted.DeleteText?
    ensures d.PackageSummaryTasks? <==> s.filepaths == [] && IsTruthy(s.packagesImpacted)
    ensures d.PackageSummaryTasks? ==> d.packages == ContinueToSavePackageSummaries(s)
    ensures d.FileSummaryTasks? ==> |d.files| == |s.filepaths|
    ensures d.FileSummaryTasks? ==> forall k :: 0 <= k < |d.files| ==>
      d.files[k] == FilepathState(s.filepaths[k], s.repo, s.event, s.repoDir)
  {
    if s.filepaths == [] && IsTruthy(s.packagesImpacted) then
      PackageSummaryTasks(ContinueToSavePackageSummaries(s))
    else
      FileSummaryTasks(seq(|s.filepaths|, k requires 0 <= k < |s.filepaths| =>
        FilepathState(s.filepaths[k], s.repo, s.event, s.repoDir)))
  }

  /** An update run with deletions only dispatches exactly its impacted packages, smallest id first. */
  lemma DeletionsOnlyGoToPackages(s: OnboardState, ids: set<int>)
    requires s.filepaths == [] && s.packagesImpacted == ImpactedSet(ids) && ids != {}
    ensures var d := ContinueToSaveFileSummaries(s);
      && d.PackageSummaryTasks?
      && |d.packages| == |ids|
      && (forall k :: 0 <= k < |d.packages| ==> d.packages[k].packageId in ids && d.packages[k].repoId == s.repoId)
      && (forall i, j :: 0 <= i < j < |d.packages| ==> d.packages[i].packageId < d.packages[j].packageId)
  {
    var d := ContinueToSaveFileSummaries(s);
    var order := DispatchOrder(s.packagesImpacted);
    assert d.packages == seq(|order|, k requires 0 <= k < |order| => PackageState(order[k], s.repoId));
  }

  // ---------------------------------------------------------------------------------------------
  // generate_file_summary
  // ---------------------------------------------------------------------------------------------

  /** Where a file's text comes from: the GitHub contents API for an update, the local clone otherwise. */
  datatype ContentSource =
    | GithubSource(url: string, filepath: string, branch: string, commitHash: Option<string>)
    | LocalSource(repoDir: Option<string>, filepath: string)

  /** The source chosen for a work item by its event's type. */
  function SourceOf(fs: FilepathState): (src: ContentSource)
    requires fs.event.Some?
    ensures src.GithubSource? <==> fs.event.value.eventType == RepoUpdate
    ensures src.GithubSource? ==> src == GithubSource(fs.repo.url, fs.filepath, fs.repo.branch, fs.repo.commitHash)
    ensures src.LocalSource? ==> src == LocalSource(fs.repoDir, fs.filepath)
  {
    if fs.event.value.eventType == RepoUpdate then
      GithubSource(fs.repo.url, fs.filepath, fs.repo.branch, fs.repo.commitHash)
    else
      LocalSource(fs.repoDir, fs.filepath)
  }

  /** `filepath.split(".")[-1]`: the text after the last dot, or the whole path without one. */
  function FileType(path: string): string
  {
    AfterLast(path, '.')
  }

  /** The type has no dot: it is the whole path when the path has none, else what follows some dot. */
  lemma FileTypeSpec(path: string)
    ensures '.' !in FileType(path)
    ensures '.' !in path ==> FileType(path) == path
    ensures '.' in path ==> exists k :: 0 <= k < |path| && path[k] == '.' && FileType(path) == path[k + 1..]
  {
    var t := FileType(path);
    AfterLastSpec(path, '.');
    if '.' in path {
      assert path[|path| - |t| - 1] == '.' && path[|path| - |t|..] == t;
    }
  }

  /** The `try` block did not finish: the read raised, or the file has text and the model call raised. */
  predicate Raised(fetched: Result<Option<string>, string>, reply: Result<string, string>)
  {
    fetched.Err? || (fetched.value.Some? && !IsBlank(fetched.value.value) && reply.Err?)
  }

  /** The file is missing or blank, so no summary is asked for. */
  predicate Skipped(fetched: Result<Option<string>, string>)
  {
    fetched.Ok? && (fetched.value.None? || IsBlank(fetched.value.value))
  }

  /**
    * The body of `generate_file_summary` once the text has been read (`fetched`, or the exception
    * raised by the read) and the model has replied (`reply`, or the exception it raised; consulted
    * only when the file has text).
    */
  function SummaryOutcome(path: string, fetched: Result<Option<string>, string>, reply: Result<string, string>): (u: OnboardUpdate)
    ensures u.fileSummaries.Append? && (u.fileSummaryErrors.Append? || u.fileSummaryErrors.Unwritten?)
    ensures u == NoUpdate.(fileSummaries := u.fileSummaries, fileSummaryErrors := u.fileSummaryErrors)
    ensures Skipped(fetched) ==> u.fileSummaries.items == [] && u.fileSummaryErrors.Unwritten?
    ensures Raised(fetched, reply) ==>
      && u.fileSummaries.items == [FileSummary(path, "")]
      && u.fileSummaryErrors == Append([FileSummaryError(path, if fetched.Err? then fetched.error else reply.error)])
    ensures !Skipped(fetched) && !Raised(fetched, reply) ==>
      u.fileSummaries.items == [FileSummary(path, ExtractCodeBlockContent(reply.value))] && u.fileSummaryErrors.Unwritten?
  {
    match fetched
    case Err(msg) => FileFailure(path, msg)
    case Ok(content) =>
      if content.None? || IsBlank(content.value) then NoUpdate.(fileSummaries := Append([]))
      else
        match reply
        case Err(msg) => FileFailure(path, msg)
        case Ok(text) => NoUpdate.(fileSummaries := Append([FileSummary(path, ExtractCodeBlockContent(text))]))
  }

  /**
    * Per-unit error containment: a file yields at most one summary, always of its own path, and
    * an error record exactly when something raised, in which case the summary is empty.
    */
  lemma OneErrorPerFailure(path: string, fetched: Result<Option<string>, string>, reply: Result<string, string>)
    ensures var u := SummaryOutcome(path, fetched, reply);
      && |u.fileSummaries.items| <= 1
      && (forall x :: x in u.fileSummaries.items ==> x.filepath == path)
      && (u.fileSummaryErrors.Append? <==> Raised(fetched, reply))
      && (u.fileSummaryErrors.Append? ==>
            u.fileSummaries.items == [FileSummary(path, "")] && |u.fileSummaryErrors.items| == 1
            && u.fileSummaryErrors.items[0].filepath == path)
  {
  }

  /** The model's reply for a work item, asked for with (path, file type, content) when there is content. */
  function ReplyFor(fs: FilepathState, fetched: Result<Option<string>, string>,
                    summarise: (string, string, string) -> Result<string, string>): Result<string, string>
  {
    if fetched.Ok? && fetched.value.Some? then summarise(fs.filepath, FileType(fs.filepath), fetched.value.value)
    else Err("")
  }

  /**
    * `generate_file_summary`. `fetch` reads the text from the source the event chooses (None when
    * the file does not exist, Err for an exception) and `summarise` is the language-model call.
    */
  function GenerateFileSummary(fs: FilepathState, fetch: ContentSource -> Result<Option<string>, string>,
                               summarise: (string, string, string) -> Result<string, string>): (u: OnboardUpdate)
    requires fs.event.Some?
    ensures u.fileSummaries.Append? && (u.fileSummaryErrors.Append? || u.fileSummaryErrors.Unwritten?)
    ensures u == NoUpdate.(fileSummaries := u.fileSummaries, fileSummaryErrors := u.fileSummaryErrors)
    ensures |u.fileSummaries.items| <= 1 && forall x :: x in u.fileSummaries.items ==> x.filepath == fs.filepath
    ensures u.fileSummaryErrors.Append? ==>
      u.fileSummaries.items == [FileSummary(fs.filepath, "")] && |u.fileSummaryErrors.items| == 1
      && u.fileSummaryErrors.items[0].filepath == fs.filepath
    ensures var fetched := fetch(SourceOf(fs));
      u == SummaryOutcome(fs.filepath, fetched, ReplyFor(fs, fetched, summarise))
  {
    var fetched := fetch(SourceOf(fs));
    var reply := ReplyFor(fs, fetched, summarise);
    OneErrorPerFailure(fs.filepath, fetched, reply);
    SummaryOutcome(fs.filepath, fetched, reply)
  }

  /** The `except` branch: an empty summary and the error, both for the one path. */
  function FileFailure(path: string, msg: string): OnboardUpdate
  {
    NoUpdate.(fileSummaries := Append([FileSummary(path, "")]), fileSummaryErrors := Append([FileSummaryError(path, msg)]))
  }

  /**
    * The file fan-out and its fan-in: each work item's update goes through the reducer in dispatch
    * order. Afterwards every new summary belongs to one of the dispatched paths, at most one per
    * item, every new error comes with an empty summary for its path, and no other channel changed.
    */
  method RunFileSummaries(s: OnboardState, tasks: seq<FilepathState>, fetch: ContentSource -> Result<Option<string>, string>,
                          summarise: (string, string, string) -> Result<string, string>) returns (t: OnboardState)
    requires forall k :: 0 <= k < |tasks| ==> tasks[k].event.Some?
    ensures |t.fileSummaries| >= |s.fileSummaries| && t.fileSummaries[..|s.fileSummaries|] == s.fileSummaries
    ensures |t.fileSummaryErrors| >= |s.fileSummaryErrors| && t.fileSummaryErrors[..|s.fileSummaryErrors|] == s.fileSummaryErrors
    ensures |t.fileSummaries| - |s.fileSummaries| <= |tasks|
    ensures |t.fileSummaryErrors| - |s.fileSummaryErrors| <= |t.fileSummaries| - |s.fileSummaries|
    ensures forall x :: x in t.fileSummaries[|s.fileSummaries|..] ==> exists k :: 0 <= k < |tasks| && tasks[k].filepath == x.filepath
    ensures forall e :: e in t.fileSummaryErrors[|s.fileSummaryErrors|..] ==> FileSummary(e.filepath, "") in t.fileSummaries[|s.fileSummaries|..]
    ensures t.fileSummaries == s.fileSummaries + FileOutcomes(tasks, fetch, summarise)
    ensures t.fileSummaryErrors == s.fileSummaryErrors + FileErrorOutcomes(tasks, fetch, summarise)
    ensures t == s.(fileSummaries := t.fileSummaries, fileSummaryErrors := t.fileSummaryErrors)
  {
    t := s;
    ghost var newS: seq<FileSummary> := [];
    ghost var newE: seq<FileSummaryError> := [];
    var i := 0;
    while i < |tasks|
      invariant 0 <= i <= |tasks|
      invariant t.fileSummaries == s.fileSummaries + newS && t.fileSummaryErrors == s.fileSummaryErrors + newE
      invariant |newS| <= i && |newE| <= |newS|
      invariant Traced(tasks, i, newS, newE)
      invariant newS == FileOutcomes(tasks[..i], fetch, summarise) && newE == FileErrorOutcomes(tasks[..i], fetch, summarise)
      invariant t == s.(fileSummaries := t.fileSummaries, fileSummaryErrors := t.fileSummaryErrors)
    {
      assert tasks[..i + 1][..i] == tasks[..i];
      var u := GenerateFileSummary(tasks[i], fetch, summarise);
      var before := t;
      t := ApplyUpdate(t, u);
      FanInStep(s, before, t, u, newS, newE);
      var errs := ErrorsOf(u);
      TracedStep(tasks, i, newS, newE, u.fileSummaries.items, errs);
      newS := newS + u.fileSummaries.items;
      newE := newE + errs;
      i := i + 1;
    }
    assert t.fileSummaries[|s.fileSummaries|..] == newS;
    assert t.fileSummaryErrors[|s.fileSummaryErrors|..] == newE;
    assert tasks[..i] == tasks;
  }

  /** The summaries the file branches return, concatenated in dispatch order. */
  function FileOutcomes(tasks: seq<FilepathState>, fetch: ContentSource -> Result<Option<string>, string>,
                        summarise: (string, string, string) -> Result<string, string>): seq<FileSummary>
    requires forall k :: 0 <= k < |tasks| ==> tasks[k].event.Some?
    decreases |tasks|
  {
    if tasks == [] then []
    else
      FileOutcomes(tasks[..|tasks| - 1], fetch, summarise)
        + GenerateFileSummary(tasks[|tasks| - 1], fetch, summarise).fileSummaries.items
  }

  /** The errors the file branches return, concatenated in dispatch order. */
  function FileErrorOutcomes(tasks: seq<FilepathState>, fetch: ContentSource -> Result<Option<string>, string>,
                             summarise: (string, string, string) -> Result<string, string>): seq<FileSummaryError>
    requires forall k :: 0 <= k < |tasks| ==> tasks[k].event.Some?
    decreases |tasks|
  {
    if tasks == [] then []
    else
      FileErrorOutcomes(tasks[..|tasks| - 1], fetch, summarise)
        + ErrorsOf(GenerateFileSummary(tasks[|tasks| - 1], fetch, summarise))
  }

  /**
    * What the first `i` branches appended: summaries of dispatched paths only, and an empty
    * summary of the same path beside every error.
    */
  ghost predicate Traced(tasks: seq<FilepathState>, i: nat, newS: seq<FileSummary>, newE: seq<FileSummaryError>)
    requires i <= |tasks|
  {
    && (forall x :: x in newS ==> exists k :: 0 <= k < i && tasks[k].filepath == x.filepath)
    && (forall e :: e in newE ==> FileSummary(e.filepath, "") in newS)
  }

  /** One more branch keeps the appended outputs traced to their work items. */
  lemma TracedStep(tasks: seq<FilepathState>, i: nat, newS: seq<FileSummary>, newE: seq<FileSummaryError>,
                   items: seq<FileSummary>, errs: seq<FileSummaryError>)
    requires i < |tasks| && Traced(tasks, i, newS, newE)
    requires forall x :: x in items ==> x.filepath == tasks[i].filepath
    requires errs != [] ==> items == [FileSummary(tasks[i].filepath, "")] && |errs| == 1 && errs[0].filepath == tasks[i].filepath
    ensures Traced(tasks, i + 1, newS + items, newE + errs)
  {
    forall x | x in newS + items
      ensures exists k :: 0 <= k < i + 1 && tasks[k].filepath == x.filepath
    {
      if x in items {
        assert tasks[i].filepath == x.filepath;
      } else {
        var k :| 0 <= k < i && tasks[k].filepath == x.filepath;
      }
    }
    forall e | e in newE + errs
      ensures FileSummary(e.filepath, "") in newS + items
    {
      if e in errs {
        assert e == errs[0];
      }
    }
  }

  /** The errors a branch's update appends. */
  function ErrorsOf(u: OnboardUpdate): seq<FileSummaryError>
  {
    if u.fileSummaryErrors.Append? then u.fileSummaryErrors.items else []
  }

  /** One branch's update appends its summary and error to what the earlier branches left. */
  lemma FanInStep(s: OnboardState, before: OnboardState, after: OnboardState, u: OnboardUpdate,
                  newS: seq<FileSummary>, newE: seq<FileSummaryError>)
    requires u == NoUpdate.(fileSummaries := u.fileSummaries, fileSummaryErrors := u.fileSummaryErrors)
    requires u.fileSummaries.Append? && (u.fileSummaryErrors.Append? || u.fileSummaryErrors.Unwritten?)
    requires before.fileSummaries == s.fileSummaries + newS && before.fileSummaryErrors == s.fileSummaryErrors + newE
    requires after == ApplyUpdate(before, u)
    ensures after.fileSummaries == s.fileSummaries + (newS + u.fileSummaries.items)
    ensures after.fileSummaryErrors == s.fileSummaryErrors + (newE + ErrorsOf(u))
    ensures after == before.(fileSummaries := after.fileSummaries, fileSummaryErrors := after.fileSummaryErrors)
  {
    assert s.fileSummaries + newS + u.fileSummaries.items == s.fileSummaries + (newS + u.fileSummaries.items);
    assert s.fileSummaryErrors + newE + ErrorsOf(u) == s.fileSummaryErrors + (newE + ErrorsOf(u));
  }

  // ---------------------------------------------------------------------------------------------
  // generate_package_summary
  // ---------------------------------------------------------------------------------------------

  /** `next((name for pkg in packages if pkg.package_id == id), "")`: the first row's name, or "". */
  function PackageNameOf(rows: seq<PackageRecord>, packageId: int): (name: string)
    ensures (forall k :: 0 <= k < |rows| ==> rows[k].packageId != packageId) ==> name == ""
    ensures forall k :: 0 <= k < |rows| && rows[k].packageId == packageId && (forall j :: 0 <= j < k ==> rows[j].packageId != packageId) ==>
      name == rows[k].packageName
  {
    if rows == [] then ""
    else if rows[0].packageId == packageId then rows[0].packageName
    else
      assert forall k :: 1 <= k < |rows| ==> rows[k] == rows[1..][k - 1];
      PackageNameOf(rows[1..], packageId)
  }

  /** One file's part of the package corpus: a level-one heading with its path, then its summary one level down. */
  function FileBlock(path: string, summary: string): string
  {
    "# " + path + "\n" + Shift(summary, 1)
  }

  /** The corpus the package summary is asked for: the file blocks separated by blank lines. */
  function PackageCorpus(entries: seq<(string, string)>): string
  {
    Join("\n\n", seq(|entries|, k requires 0 <= k < |entries| => FileBlock(entries[k].0, entries[k].1)))
  }

  /** A summary without headings goes into the corpus verbatim under its path. */
  lemma PlainSummaryBlock(path: string, summary: string)
    requires NoHeadingStart(summary)
    ensures FileBlock(path, summary) == "# " + path + "\n" + summary
  {
    NoHeadings(summary, 1);
  }

  /** A one-line heading of a file summary sits one level below the file's own heading. */
  lemma HeadingSummaryBlock(path: string, n: nat, title: string)
    requires n > 0 && '\n' !in title && (title == [] || !IsSpace(title[0]))
    ensures FileBlock(path, Hashes(n) + " " + title) == "# " + path + "\n" + HashesOf(n + 1) + " " + title
  {
    HeadingLine(n, " ", title, 1);
  }

  /** Two files make two blocks with a blank line between them. */
  lemma TwoFileCorpus(a: (string, string), b: (string, string))
    ensures PackageCorpus([a, b]) == FileBlock(a.0, a.1) + "\n\n" + FileBlock(b.0, b.1)
  {
    var blocks := seq(2, k requires 0 <= k < 2 => FileBlock([a, b][k].0, [a, b][k].1));
    assert blocks == [FileBlock(a.0, a.1), FileBlock(b.0, b.1)];
    assert blocks[1..] == [FileBlock(b.0, b.1)];
    assert Join("\n\n", blocks[1..]) == FileBlock(b.0, b.1);
  }

  /**
    * The body of `generate_package_summary` once the model has replied: one summary for the
    * package, unwrapped from its fence, or on an exception an empty summary and one error that
    * names the package.
    */
  function PackageOutcome(packageId: int, name: string, reply: Result<string, string>): (u: OnboardUpdate)
    ensures u == NoUpdate.(packageSummaries := u.packageSummaries, packageSummaryErrors := u.packageSummaryErrors)
    ensures reply.Ok? ==>
      u.packageSummaries == Append([PackageSummary(packageId, ExtractCodeBlockContent(reply.value))]) && u.packageSummaryErrors.Unwritten?
    ensures reply.Err? ==>
      && u.packageSummaries == Append([PackageSummary(packageId, "")])
      && u.packageSummaryErrors == Append([PackageSummaryError(packageId, name, reply.error)])
  {
    match reply
    case Ok(text) => NoUpdate.(packageSummaries := Append([PackageSummary(packageId, ExtractCodeBlockContent(text))]))
    case Err(msg) =>
      NoUpdate.(packageSummaries := Append([PackageSummary(packageId, "")]),
                packageSummaryErrors := Append([PackageSummaryError(packageId, name, msg)]))
  }

  /**
    * `generate_package_summary`: the package's (path, summary) rows become the corpus, its name is
    * looked up among the repository's packages, and `summarise` is the model call on (name, corpus).
    */
  function GeneratePackageSummary(store: KnowledgeStore, ps: PackageState, summarise: (string, string) -> Result<string, string>)
    : (u: OnboardUpdate)
    reads store
    ensures u == NoUpdate.(packageSummaries := u.packageSummaries, packageSummaryErrors := u.packageSummaryErrors)
    ensures u.packageSummaries.Append? && |u.packageSummaries.items| == 1 && u.packageSummaries.items[0].packageId == ps.packageId
    ensures u.packageSummaryErrors.Append? || u.packageSummaryErrors.Unwritten?
    ensures u.packageSummaryErrors.Append? ==>
      && u.packageSummaries.items[0].summary == ""
      && |u.packageSummaryErrors.items| == 1 && u.packageSummaryErrors.items[0].packageId == ps.packageId
      && u.packageSummaryErrors.items[0].packageName == PackageNameOf(store.FetchPackageData(ps.repoId), ps.packageId)
    ensures var name := PackageNameOf(store.FetchPackageData(ps.repoId), ps.packageId);
      u == PackageOutcome(ps.packageId, name, summarise(name, PackageCorpus(store.GetFileSummariesForPackage(ps.repoId, ps.packageId))))
  {
    var entries := store.GetFileSummariesForPackage(ps.repoId, ps.packageId);
    var name := PackageNameOf(store.FetchPackageData(ps.repoId), ps.packageId);
    PackageOutcome(ps.packageId, name, summarise(name, PackageCorpus(entries)))
  }

  /** The package errors a branch's update appends. */
  function PackageErrorsOf(u: OnboardUpdate): seq<PackageSummaryError>
  {
    if u.packageSummaryErrors.Append? then u.packageSummaryErrors.items else []
  }

  /**
    * The package fan-out and its fan-in: exactly one new summary per work item, in dispatch order,
    * at most one error per item, each beside an empty summary of its package, and no other channel
    * changed.
    */
  method RunPackageSummaries(store: KnowledgeStore, s: OnboardState, tasks: seq<PackageState>,
                             summarise: (string, string) -> Result<string, string>) returns (t: OnboardState)
    ensures |t.packageSummaries| == |s.packageSummaries| + |tasks| && t.packageSummaries[..|s.packageSummaries|] == s.packageSummaries
    ensures forall k :: 0 <= k < |tasks| ==> t.packageSummaries[|s.packageSummaries| + k].packageId == tasks[k].packageId
    ensures |t.packageSummaryErrors| >= |s.packageSummaryErrors| && t.packageSummaryErrors[..|s.packageSummaryErrors|] == s.packageSummaryErrors
    ensures |t.packageSummaryErrors| - |s.packageSummaryErrors| <= |tasks|
    ensures forall e :: e in t.packageSummaryErrors[|s.packageSummaryErrors|..] ==>
      PackageSummary(e.packageId, "") in t.packageSummaries[|s.packageSummaries|..]
    ensures t.packageSummaries == s.packageSummaries + PackageOutcomes(store, tasks, summarise)
    ensures t.packageSummaryErrors == s.packageSummaryErrors + PackageErrorOutcomes(store, tasks, summarise)
    ensures t == s.(packageSummaries := t.packageSummaries, packageSummaryErrors := t.packageSummaryErrors)
  {
    t := s;
    ghost var newP: seq<PackageSummary> := [];
    ghost var newE: seq<PackageSummaryError> := [];
    var i := 0;
    while i < |tasks|
      invariant 0 <= i <= |tasks|
      invariant t.packageSummaries == s.packageSummaries + newP && t.packageSummaryErrors == s.packageSummaryErrors + newE
      invariant |newP| == i && |newE| <= i
      invariant forall k :: 0 <= k < i ==> newP[k].packageId == tasks[k].packageId
      invariant forall e :: e in newE ==> PackageSummary(e.packageId, "") in newP
      invariant newP == PackageOutcomes(store, tasks[..i], summarise) && newE == PackageErrorOutcomes(store, tasks[..i], summarise)
      invariant t == s.(packageSummaries := t.packageSummaries, packageSummaryErrors := t.packageSummaryErrors)
    {
      assert tasks[..i + 1][..i] == tasks[..i];
      var u := GeneratePackageSummary(store, tasks[i], summarise);
      var before := t;
      t := ApplyUpdate(t, u);
      PackageFanInStep(s, before, t, u, newP, newE);
      PackageTracedStep(tasks, i, newP, newE, u.packageSummaries.items[0], PackageErrorsOf(u));
      newP := newP + u.packageSummaries.items;
      newE := newE + PackageErrorsOf(u);
      i := i + 1;
    }
    assert t.packageSummaries[|s.packageSummaries|..] == newP;
    assert t.packageSummaryErrors[|s.packageSummaryErrors|..] == newE;
    assert tasks[..i] == tasks;
  }

  /** The summaries the package branches return, concatenated in dispatch order. */
  function PackageOutcomes(store: KnowledgeStore, tasks: seq<PackageState>, summarise: (string, string) -> Result<string, string>)
    : seq<PackageSummary>
    reads store
    decreases |tasks|
  {
    if tasks == [] then []
    else
      PackageOutcomes(store, tasks[..|tasks| - 1], summarise)
        + GeneratePackageSummary(store, tasks[|tasks| - 1], summarise).packageSummaries.items
  }

  /** The errors the package branches return, concatenated in dispatch order. */
  function PackageErrorOutcomes(store: KnowledgeStore, tasks: seq<PackageState>, summarise: (string, string) -> Result<string, string>)
    : seq<PackageSummaryError>
    reads store
    decreases |tasks|
  {
    if tasks == [] then []
    else
      PackageErrorOutcomes(store, tasks[..|tasks| - 1], summarise)
        + PackageErrorsOf(GeneratePackageSummary(store, tasks[|tasks| - 1], summarise))
  }

  /** One package branch's update appends its summary and error to what the earlier branches left. */
  lemma PackageFanInStep(s: OnboardState, before: OnboardState, after: OnboardState, u: OnboardUpdate,
                         newP: seq<PackageSummary>, newE: seq<PackageSummaryError>)
    requires u == NoUpdate.(packageSummaries := u.packageSummaries, packageSummaryErrors := u.packageSummaryErrors)
    requires u.packageSummaries.Append? && (u.packageSummaryErrors.Append? || u.packageSummaryErrors.Unwritten?)
    requires before.packageSummaries == s.packageSummaries + newP && before.packageSummaryErrors == s.packageSummaryErrors + newE
    requires after == ApplyUpdate(before, u)
    ensures after.packageSummaries == s.packageSummaries + (newP + u.packageSummaries.items)
    ensures after.packageSummaryErrors == s.packageSummaryErrors + (newE + PackageErrorsOf(u))
    ensures after == before.(packageSummaries := after.packageSummaries, packageSummaryErrors := after.packageSummaryErrors)
  {
    assert s.packageSummaries + newP + u.packageSummaries.items == s.packageSummaries + (newP + u.packageSummaries.items);
    assert s.packageSummaryErrors + newE + PackageErrorsOf(u) == s.packageSummaryErrors + (newE + PackageErrorsOf(u));
  }

  /** One more package branch keeps every summary at its item's position and every error beside an empty summary. */
  lemma PackageTracedStep(tasks: seq<PackageState>, i: nat, newP: seq<PackageSummary>, newE: seq<PackageSummaryError>,
                          item: PackageSummary, errs: seq<PackageSummaryError>)
    requires i < |tasks| && |newP| == i
    requires forall k :: 0 <= k < i ==> newP[k].packageId == tasks[k].packageId
    requires forall e :: e in newE ==> PackageSummary(e.packageId, "") in newP
    requires item.packageId == tasks[i].packageId
    requires errs != [] ==> item.summary == "" && |errs| == 1 && errs[0].packageId == item.packageId
    ensures forall k :: 0 <= k < i + 1 ==> (newP + [item])[k].packageId == tasks[k].packageId
    ensures forall e :: e in newE + errs ==> PackageSummary(e.packageId, "") in newP + [item]
  {
    forall e | e in newE + errs
      ensures PackageSummary(e.packageId, "") in newP + [item]
    {
      if e in errs {
        assert e == errs[0];
        assert item == PackageSummary(e.packageId, "");
      }
    }
  }
}
