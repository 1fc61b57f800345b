/**
  * The assistance graph: the package index and the package corpus the language model ranks, the
  * file corpus of the selected packages, one content fetch per suggested file, and the code files
  * handed to the model for a solution. The store is read only; the model and the readers are
  * parameters.
  */
module Assist {
  import opened Wrappers
  import opened Text
  import opened Records
  import opened Store
  import opened GraphState
  import opened AssistState
  import opened CodeFence
  import opened OnboardFanOut

  // ---------------------------------------------------------------------------------------------
  // localize_packages
  // ---------------------------------------------------------------------------------------------

  /** The name-to-package dictionary built row by row: a later row with the same name overwrites. */
  function PackageIndex(rows: seq<PackageRecord>): map<string, Package>
    decreases |rows|
  {
    if rows == [] then map[]
    else
      var last := rows[|rows| - 1];
      PackageIndex(rows[..|rows| - 1])[last.packageName := Package(last.packageId, last.packageName, [], None)]
  }

  /** The index has a key for exactly the names that occur. */
  lemma {:induction false} PackageIndexKeys(rows: seq<PackageRecord>)
    ensures forall name :: name in PackageIndex(rows) <==> exists k :: 0 <= k < |rows| && rows[k].packageName == name
    decreases |rows|
  {
    if rows != [] {
      var init := rows[..|rows| - 1];
      PackageIndexKeys(init);
      assert forall k :: 0 <= k < |init| ==> init[k] == rows[k];
    }
  }

  /** Each name maps to the package of the last row with that name. */
  lemma {:induction false} PackageIndexLastWins(rows: seq<PackageRecord>, name: string)
    requires name in PackageIndex(rows)
    ensures exists k ::
      && 0 <= k < |rows| && rows[k].packageName == name
      && PackageIndex(rows)[name] == Package(rows[k].packageId, name, [], None)
      && forall j :: k < j < |rows| ==> rows[j].packageName != name
    decreases |rows|
  {
    var n := |rows| - 1;
    if rows[n].packageName != name {
      var init := rows[..n];
      PackageIndexLastWins(init, name);
      var k :| && 0 <= k < |init| && init[k].packageName == name
        && PackageIndex(init)[name] == Package(init[k].packageId, name, [], None)
        && forall j :: k < j < |init| ==> init[j].packageName != name;
      assert rows[k] == init[k];
      assert forall j :: k < j < n ==> rows[j] == init[j];
    }
  }

  /** `pkg.summary if pkg.summary else ""` for every row, in row order. */
  function CorpusSummaries(rows: seq<PackageRecord>): (r: seq<string>)
    ensures |r| == |rows|
    ensures forall k :: 0 <= k < |rows| ==> r[k] == rows[k].summary.GetOr("")
  {
    seq(|rows|, k requires 0 <= k < |rows| => rows[k].summary.GetOr(""))
  }

  /** The loop of `localize_packages` that fills the index and the list of package summaries. */
  method IndexPackages(rows: seq<PackageRecord>) returns (index: map<string, Package>, summaries: seq<string>)
    ensures index == PackageIndex(rows)
    ensures summaries == CorpusSummaries(rows)
  {
    index := map[];
    summaries := [];
    var i := 0;
    while i < |rows|
      invariant 0 <= i <= |rows|
      invariant index == PackageIndex(rows[..i])
      invariant summaries == CorpusSummaries(rows[..i])
    {
      var pkg := rows[i];
      assert rows[..i + 1][..i] == rows[..i];
      index := index[pkg.packageName := Package(pkg.packageId, pkg.packageName, [], None)];
      summaries := summaries + [if pkg.summary.Some? then pkg.summary.value else ""];
      i := i + 1;
    }
    assert rows[..i] == rows;
  }

  /**
    * `localize_packages`: a repository that is not in the store raises; otherwise the index and
    * the corpus come from the repository's package rows, and the model's ranking of the corpus is
    * written with the repository id and the index. A failing model call propagates.
    */
  method LocalizePackages(store: KnowledgeStore, s: AssistState,
                          rank: (seq<Message>, string) -> Result<seq<PackageSuggestion>, string>)
    returns (r: Result<AssistUpdate, string>)
    ensures store.GetRepo(s.repo.url, Some(s.repo.srcFolder), Some(s.repo.branch)).None? ==>
      r == Err("Repository not onboarded.")
    ensures store.GetRepo(s.repo.url, Some(s.repo.srcFolder), Some(s.repo.branch)).Some? ==>
      var id := store.GetRepo(s.repo.url, Some(s.repo.srcFolder), Some(s.repo.branch)).value.repoId;
      var rows := store.FetchPackageData(id);
      var answer := rank(s.messages, Join("\n\n", CorpusSummaries(rows)));
      && (answer.Err? ==> r == Err(answer.error))
      && (answer.Ok? ==> r == Ok(NoAssistUpdate.(repoId := Put(StoreRepoId(id)),
                                                packageNameIndex := Put(Some(PackageIndex(rows))),
                                                packageSuggestions := Put(answer.value))))
  {
    var found := store.GetRepo(s.repo.url, Some(s.repo.srcFolder), Some(s.repo.branch));
    if found.None? {
      return Err("Repository not onboarded.");
    }
    var id := found.value.repoId;
    var index, summaries := IndexPackages(store.FetchPackageData(id));
    var answer := rank(s.messages, Join("\n\n", summaries));
    if answer.Err? {
      return Err(answer.error);
    }
    r := Ok(NoAssistUpdate.(repoId := Put(StoreRepoId(id)), packageNameIndex := Put(Some(index)),
                            packageSuggestions := Put(answer.value)));
  }

  // ---------------------------------------------------------------------------------------------
  // localize_files
  // ---------------------------------------------------------------------------------------------

  /**
    * The package ids of the suggestions, looked up by name in suggestion order; the first name
    * missing from the index raises KeyError, carried here as the name.
    */
  function SelectedIds(index: map<string, Package>, suggestions: seq<PackageSuggestion>): (r: Result<seq<int>, string>)
    ensures r.Ok? <==> forall k :: 0 <= k < |suggestions| ==> suggestions[k].packageName in index
    ensures r.Ok? ==> |r.value| == |suggestions|
    ensures r.Ok? ==> forall k :: 0 <= k < |suggestions| ==> r.value[k] == index[suggestions[k].packageName].packageId
    ensures r.Err? ==> exists k ::
      && 0 <= k < |suggestions| && r.error == suggestions[k].packageName && r.error !in index
      && forall j :: 0 <= j < k ==> suggestions[j].packageName in index
    decreases |suggestions|
  {
    if suggestions == [] then Ok([])
    else if suggestions[0].packageName !in index then Err(suggestions[0].packageName)
    else
      match SelectedIds(index, suggestions[1..])
      case Err(name) => Err(name)
      case Ok(rest) => Ok([index[suggestions[0].packageName].packageId] + rest)
  }

  /** The corpus entries of one package's files: for each, its raw summary, then its block. */
  function PackageEntries(entries: seq<(string, string)>): seq<string>
    decreases |entries|
  {
    if entries == [] then []
    else
      var last := entries[|entries| - 1];
      PackageEntries(entries[..|entries| - 1]) + [last.1, FileBlock(last.0, last.1)]
  }

  /** The corpus entries of the selected packages, package after package. */
  function SelectedEntries(files: seq<FileRecord>, repoId: int, ids: seq<int>): seq<string>
    decreases |ids|
  {
    if ids == [] then []
    else SelectedEntries(files, repoId, ids[..|ids| - 1]) + PackageEntries(SummariesOf(files, repoId, ids[|ids| - 1]))
  }

  /** Each file contributes two entries in place: its summary, then "# path" over the shifted summary. */
  lemma {:induction false} PackageEntriesLayout(entries: seq<(string, string)>)
    ensures |PackageEntries(entries)| == 2 * |entries|
    ensures forall k :: 0 <= k < |entries| ==>
      PackageEntries(entries)[2 * k] == entries[k].1 && PackageEntries(entries)[2 * k + 1] == FileBlock(entries[k].0, entries[k].1)
    decreases |entries|
  {
    if entries != [] {
      var init := entries[..|entries| - 1];
      PackageEntriesLayout(init);
      assert forall k :: 0 <= k < |init| ==> init[k] == entries[k];
    }
  }

  /** An entry of the selected files: a summary or a block of a file of the repository in a selected package. */
  ghost predicate IsSelectedEntry(files: seq<FileRecord>, repoId: int, ids: seq<int>, e: string)
  {
    exists f :: f in files && f.repoId == repoId && f.packageId in ids && (e == f.summary || e == FileBlock(f.filePath, f.summary))
  }

  /** An entry of one package's corpus is the summary or the block of one of its file rows. */
  lemma PackageEntryOfRow(files: seq<FileRecord>, repoId: int, ids: seq<int>, packageId: int, i: int)
    requires packageId in ids
    requires 0 <= i < |PackageEntries(SummariesOf(files, repoId, packageId))|
    ensures IsSelectedEntry(files, repoId, ids, PackageEntries(SummariesOf(files, repoId, packageId))[i])
  {
    var es := SummariesOf(files, repoId, packageId);
    SummariesOfSpec(files, repoId, packageId);
    PackageEntriesLayout(es);
    var k := i / 2;
    assert IsPackageEntry(files, repoId, packageId, es[k]);
    var f :| f in files && f.repoId == repoId && f.packageId == packageId && es[k] == (f.filePath, f.summary);
    assert i == 2 * k || i == 2 * k + 1;
  }

  /** The entries of one package are those of its file rows. */
  lemma PackageEntriesOfRows(files: seq<FileRecord>, repoId: int, ids: seq<int>, packageId: int)
    requires packageId in ids
    ensures forall e :: e in PackageEntries(SummariesOf(files, repoId, packageId)) ==> IsSelectedEntry(files, repoId, ids, e)
    ensures forall f :: f in files && f.repoId == repoId && f.packageId == packageId ==>
      FileBlock(f.filePath, f.summary) in PackageEntries(SummariesOf(files, repoId, packageId))
  {
    var es := SummariesOf(files, repoId, packageId);
    var pe := PackageEntries(es);
    forall e | e in pe
      ensures IsSelectedEntry(files, repoId, ids, e)
    {
      var i :| 0 <= i < |pe| && pe[i] == e;
      PackageEntryOfRow(files, repoId, ids, packageId, i);
    }
    SummariesOfSpec(files, repoId, packageId);
    PackageEntriesLayout(es);
    forall f | f in files && f.repoId == repoId && f.packageId == packageId
      ensures FileBlock(f.filePath, f.summary) in pe
    {
      var k :| 0 <= k < |es| && es[k] == (f.filePath, f.summary);
      assert pe[2 * k + 1] == FileBlock(f.filePath, f.summary);
    }
  }

  /**
    * The file corpus holds only entries of files of the selected packages, and every file of a
    * selected package contributes its block.
    */
  lemma {:induction false} SelectedEntriesSpec(files: seq<FileRecord>, repoId: int, ids: seq<int>)
    ensures forall e :: e in SelectedEntries(files, repoId, ids) ==> IsSelectedEntry(files, repoId, ids, e)
    ensures forall f :: f in files && f.repoId == repoId && f.packageId in ids ==>
      FileBlock(f.filePath, f.summary) in SelectedEntries(files, repoId, ids)
    decreases |ids|
  {
    if ids != [] {
      var init := ids[..|ids| - 1];
      var last := ids[|ids| - 1];
      SelectedEntriesSpec(files, repoId, init);
      PackageEntriesOfRows(files, repoId, ids, last);
      var all := SelectedEntries(files, repoId, ids);
      assert all == SelectedEntries(files, repoId, init) + PackageEntries(SummariesOf(files, repoId, last));
      forall e | e in SelectedEntries(files, repoId, init)
        ensures IsSelectedEntry(files, repoId, ids, e)
      {
        var f :| f in files && f.repoId == repoId && f.packageId in init && (e == f.summary || e == FileBlock(f.filePath, f.summary));
        assert f.packageId in ids;
      }
      forall f | f in files && f.repoId == repoId && f.packageId in ids
        ensures FileBlock(f.filePath, f.summary) in all
      {
        if f.packageId != last {
          assert f.packageId in init;
        }
      }
    }
  }

  /** The nested loop of `localize_files` that collects the corpus entries of the selected packages. */
  method CollectFileEntries(store: KnowledgeStore, repoId: int, ids: seq<int>) returns (entries: seq<string>)
    ensures entries == SelectedEntries(store.files, repoId, ids)
  {
    entries := [];
    var i := 0;
    while i < |ids|
      invariant 0 <= i <= |ids|
      invariant entries == SelectedEntries(store.files, repoId, ids[..i])
    {
      var summaries := store.GetFileSummariesForPackage(repoId, ids[i]);
      ghost var before := entries;
      var j := 0;
      while j < |summaries|
        invariant 0 <= j <= |summaries|
        invariant entries == before + PackageEntries(summaries[..j])
      {
        var entry := summaries[j];
        assert summaries[..j + 1][..j] == summaries[..j];
        entries := entries + [entry.1, FileBlock(entry.0, entry.1)];
        j := j + 1;
      }
      assert summaries[..j] == summaries;
      assert ids[..i + 1][..i] == ids[..i];
      i := i + 1;
    }
    assert ids[..i] == ids;
  }

  /**
    * `localize_files`: the ids of the suggested packages (a missing name raises KeyError, a cleared
    * index raises too, though only when some package is suggested: with none the comprehension
    * never reads the index), the corpus of their files, and the model's file suggestions for it.
    */
  method LocalizeFiles(store: KnowledgeStore, s: AssistState,
                       rank: (seq<Message>, string) -> Result<seq<FileSuggestion>, string>)
    returns (r: Result<AssistUpdate, string>)
    requires s.repoId.StoreRepoId?
    ensures s.packageNameIndex.None? && s.packageSuggestions != [] ==> r == Err("'NoneType' object is not subscriptable")
    ensures s.packageNameIndex.None? && s.packageSuggestions == [] ==>
      var answer := rank(s.messages, "");
      && (answer.Err? ==> r == Err(answer.error))
      && (answer.Ok? ==> r == Ok(NoAssistUpdate.(fileSuggestions := Put(Some(answer.value)))))
    ensures s.packageNameIndex.Some? && SelectedIds(s.packageNameIndex.value, s.packageSuggestions).Err? ==>
      r == Err(SelectedIds(s.packageNameIndex.value, s.packageSuggestions).error)
    ensures s.packageNameIndex.Some? && SelectedIds(s.packageNameIndex.value, s.packageSuggestions).Ok? ==>
      var ids := SelectedIds(s.packageNameIndex.value, s.packageSuggestions).value;
      var answer := rank(s.messages, Join("\n\n", SelectedEntries(store.files, s.repoId.id, ids)));
      && (answer.Err? ==> r == Err(answer.error))
      && (answer.Ok? ==> r == Ok(NoAssistUpdate.(fileSuggestions := Put(Some(answer.value)))))
  {
    var ids: seq<int>;
    if s.packageSuggestions == [] {
      ids := [];
    } else if s.packageNameIndex.None? {
      return Err("'NoneType' object is not subscriptable");
    } else {
      var selected := SelectedIds(s.packageNameIndex.value, s.packageSuggestions);
      if selected.Err? {
        return Err(selected.error);
      }
      ids := selected.value;
    }
    var entries := CollectFileEntries(store, s.repoId.id, ids);
    var answer := rank(s.messages, Join("\n\n", entries));
    if answer.Err? {
      return Err(answer.error);
    }
    r := Ok(NoAssistUpdate.(fileSuggestions := Put(Some(answer.value))));
  }

  // ---------------------------------------------------------------------------------------------
  // continue_to_suggest_solution and fetch_file_content
  // ---------------------------------------------------------------------------------------------

  /**
    * `continue_to_suggest_solution` (and `continue_to_fetch_files` of the vector graph): one fetch
    * per suggested file, in suggestion order, carrying the repository and the defaults of the
    * work item. Cleared suggestions raise.
    */
  function FetchTasks(s: AssistState): (r: Result<seq<FilepathState>, string>)
    ensures r.Ok? <==> s.fileSuggestions.Some?
    ensures r.Ok? ==> |r.value| == |s.fileSuggestions.value|
    ensures r.Ok? ==> forall k :: 0 <= k < |r.value| ==>
      r.value[k].filepath == s.fileSuggestions.value[k].filepath && r.value[k].repo == s.repo &&
      r.value[k].event == Some(DefaultEvent()) && r.value[k].repoDir.None?
  {
    match s.fileSuggestions
    case None => Err("'NoneType' object has no attribute 'files'")
    case Some(files) =>
      Ok(seq(|files|, k requires 0 <= k < |files| => FilepathState(files[k].filepath, s.repo, Some(DefaultEvent()), None)))
  }

  /** The local directory of a `file://` repository: the work item's directory if set, else the url with "file://" removed. */
  function LocalRepoDir(fs: FilepathState): string
  {
    if fs.repoDir.Some? && fs.repoDir.value != "" then fs.repoDir.value else RemoveAll(fs.repo.url, "file://")
  }

  /** Removing a pattern that does not occur changes nothing. */
  lemma {:induction false} RemoveAllAbsent(s: string, pat: string)
    requires pat != [] && !Contains(s, pat)
    ensures RemoveAll(s, pat) == s
    decreases |s|
  {
    if s != [] {
      assert !IsPrefix(pat, s);
      RemoveAllAbsent(s[1..], pat);
    }
  }

  /** A `file://` url whose path does not mention "file://" again names that path as the directory. */
  lemma LocalRepoDirOfUrl(fs: FilepathState, path: string)
    requires fs.repo.url == "file://" + path && !Contains(path, "file://")
    requires fs.repoDir.None?
    ensures LocalRepoDir(fs) == path
  {
    assert IsPrefix("file://", fs.repo.url);
    assert fs.repo.url[|"file://"|..] == path;
    RemoveAllAbsent(path, "file://");
  }

  /** The source `fetch_file_content` reads: local for a `file://` repository, GitHub otherwise. */
  function FetchSource(fs: FilepathState): (src: ContentSource)
    ensures src.LocalSource? <==> IsPrefix("file://", fs.repo.url)
    ensures src.LocalSource? ==> src == LocalSource(Some(LocalRepoDir(fs)), fs.filepath)
    ensures src.GithubSource? ==> src == GithubSource(fs.repo.url, fs.filepath, fs.repo.branch, fs.repo.commitHash)
  {
    if IsPrefix("file://", fs.repo.url) then LocalSource(Some(LocalRepoDir(fs)), fs.filepath)
    else GithubSource(fs.repo.url, fs.filepath, fs.repo.branch, fs.repo.commitHash)
  }

  /** `fetch_file_content`: one content for the work item's path; a failing read propagates. */
  function FetchFileContent(fs: FilepathState, read: ContentSource -> Result<string, string>): (r: Result<AssistUpdate, string>)
    ensures r.Ok? <==> read(FetchSource(fs)).Ok?
    ensures r.Ok? ==> r.value == NoAssistUpdate.(fileContents := Append([FileContent(fs.filepath, read(FetchSource(fs)).value)]))
  {
    match read(FetchSource(fs))
    case Err(e) => Err(e)
    case Ok(content) => Ok(NoAssistUpdate.(fileContents := Append([FileContent(fs.filepath, content)])))
  }

  /** The fetched contents of the tasks, in task order. */
  ghost predicate FetchedInOrder(added: seq<FileContent>, tasks: seq<FilepathState>, read: ContentSource -> Result<string, string>)
  {
    && |added| == |tasks|
    && forall k :: 0 <= k < |tasks| ==>
      read(FetchSource(tasks[k])).Ok? && added[k] == FileContent(tasks[k].filepath, read(FetchSource(tasks[k])).value)
  }

  /**
    * The fan-out of `fetch_file_content` run one task after another: when every read succeeds,
    * `file_contents` gains exactly one entry per task, in task order; the first failing read aborts.
    */
  method RunFetches(s: AssistState, tasks: seq<FilepathState>, read: ContentSource -> Result<string, string>)
    returns (r: Result<AssistState, string>)
    ensures r.Ok? <==> forall k :: 0 <= k < |tasks| ==> read(FetchSource(tasks[k])).Ok?
    ensures r.Ok? ==> r.value == s.(fileContents := r.value.fileContents)
    ensures r.Ok? ==> |r.value.fileContents| >= |s.fileContents| && r.value.fileContents[..|s.fileContents|] == s.fileContents
    ensures r.Ok? ==> FetchedInOrder(r.value.fileContents[|s.fileContents|..], tasks, read)
  {
    var t := s;
    ghost var added: seq<FileContent> := [];
    var i := 0;
    while i < |tasks|
      invariant 0 <= i <= |tasks|
      invariant t == s.(fileContents := s.fileContents + added)
      invariant FetchedInOrder(added, tasks[..i], read)
    {
      var u := FetchFileContent(tasks[i], read);
      if u.Err? {
        return Err(u.error);
      }
      var c := FileContent(tasks[i].filepath, read(FetchSource(tasks[i])).value);
      t := ApplyAssistUpdate(t, u.value);
      assert t.fileContents == (s.fileContents + added) + [c];
      added := added + [c];
      assert tasks[..i + 1][..i] == tasks[..i];
      i := i + 1;
    }
    assert tasks[..i] == tasks;
    assert t.fileContents[|s.fileContents|..] == added;
    r := Ok(t);
  }

  // ---------------------------------------------------------------------------------------------
  // suggest_solution and cleanup
  // ---------------------------------------------------------------------------------------------

  /** The content of the first fetched file with that path. */
  function FirstContent(contents: seq<FileContent>, path: string): Option<string>
    decreases |contents|
  {
    if contents == [] then None
    else if contents[0].filepath == path then Some(contents[0].content)
    else FirstContent(contents[1..], path)
  }

  /** No content exactly when no file with that path was fetched; otherwise the first one's. */
  lemma {:induction false} FirstContentSpec(contents: seq<FileContent>, path: string)
    ensures FirstContent(contents, path).None? <==> forall k :: 0 <= k < |contents| ==> contents[k].filepath != path
    ensures FirstContent(contents, path).Some? ==> exists k ::
      && 0 <= k < |contents| && contents[k] == FileContent(path, FirstContent(contents, path).value)
      && forall j :: 0 <= j < k ==> contents[j].filepath != path
    decreases |contents|
  {
    if contents != [] && contents[0].filepath != path {
      FirstContentSpec(contents[1..], path);
      assert forall k :: 0 < k < |contents| ==> contents[k] == contents[1..][k - 1];
      if FirstContent(contents, path).Some? {
        var k :| && 0 <= k < |contents[1..]| && contents[1..][k] == FileContent(path, FirstContent(contents, path).value)
          && forall j :: 0 <= j < k ==> contents[1..][j].filepath != path;
        assert contents[k + 1] == contents[1..][k];
      }
    }
  }

  /** The fenced part of a code file: the extension as the tag, then the content. */
  function FencedCode(extn: string, content: string): string
  {
    Render(Fence(extn, false, content, false, false))
  }

  /** One code file as the model sees it: path, rationale, then the content fenced and tagged with the extension. */
  function CodeFile(filepath: string, rationale: string, extn: string, content: string): string
  {
    "filepath: " + filepath + "\nrationale: " + rationale + "\n" + FencedCode(extn, content)
  }

  /** The fence is laid out as three ticks, the extension, a newline, the content, a newline and three ticks. */
  lemma FencedCodeText(extn: string, content: string)
    ensures FencedCode(extn, content) == "```" + extn + "\n" + content + "\n```"
  {
  }

  /** A code file's fence hands back the content it was given, when the extension is a word and the content does not end in "\r". */
  lemma FencedCodeHoldsContent(extn: string, content: string)
    requires forall k :: 0 <= k < |extn| ==> IsWordChar(extn[k])
    requires content == [] || content[|content| - 1] != '\r'
    ensures ParseFence(FencedCode(extn, content)) == Some(Fence(extn, false, content, false, false))
    ensures ExtractCodeBlockContent(FencedCode(extn, content)) == content
  {
    ParseRender(Fence(extn, false, content, false, false));
  }

  /** `f"{content}"` of an optional content: the text, or "None". */
  function ContentText(c: Option<string>): string
  {
    if c.Some? then c.value else "None"
  }

  /** The code file of one suggestion in the assist graph. */
  function AssistCodeFile(sugg: FileSuggestion, contents: seq<FileContent>): string
  {
    CodeFile(sugg.filepath, sugg.rationale, FileType(sugg.filepath), ContentText(FirstContent(contents, sugg.filepath)))
  }

  /** The code files of the suggestions, in suggestion order. */
  function AssistCodeFileList(suggestions: seq<FileSuggestion>, contents: seq<FileContent>): seq<string>
    decreases |suggestions|
  {
    if suggestions == [] then []
    else
      AssistCodeFileList(suggestions[..|suggestions| - 1], contents)
      + [AssistCodeFile(suggestions[|suggestions| - 1], contents)]
  }

  /** One code file per suggestion, in place: the k-th is the code file of the k-th suggestion. */
  lemma {:induction false} AssistCodeFileListSpec(suggestions: seq<FileSuggestion>, contents: seq<FileContent>)
    ensures |AssistCodeFileList(suggestions, contents)| == |suggestions|
    ensures forall k :: 0 <= k < |suggestions| ==> AssistCodeFileList(suggestions, contents)[k] == AssistCodeFile(suggestions[k], contents)
    decreases |suggestions|
  {
    if suggestions != [] {
      var init := suggestions[..|suggestions| - 1];
      AssistCodeFileListSpec(init, contents);
      assert forall k :: 0 <= k < |init| ==> init[k] == suggestions[k];
    }
  }

  /**
    * The loop of `suggest_solution`: one code file per suggestion, in suggestion order, with the
    * first fetched content of its path or the text "None".
    */
  method AssistCodeFiles(suggestions: seq<FileSuggestion>, contents: seq<FileContent>) returns (files: seq<string>)
    ensures files == AssistCodeFileList(suggestions, contents)
  {
    files := [];
    var i := 0;
    while i < |suggestions|
      invariant 0 <= i <= |suggestions|
      invariant files == AssistCodeFileList(suggestions[..i], contents)
    {
      var filepath := suggestions[i].filepath;
      var content := FirstContent(contents, filepath);
      files := files + [CodeFile(filepath, suggestions[i].rationale, FileType(filepath), ContentText(content))];
      assert suggestions[..i + 1][..i] == suggestions[..i];
      i := i + 1;
    }
    assert suggestions[..i] == suggestions;
  }

  /** The code-files text of the prompt: the code files of the suggestions separated by blank lines. */
  function AssistCodeFilesText(suggestions: seq<FileSuggestion>, contents: seq<FileContent>): string
  {
    Join("\n\n", AssistCodeFileList(suggestions, contents))
  }

  /**
    * `suggest_solution`: the model's reply to the conversation and the code files, appended to
    * the messages. A failing model call propagates; cleared suggestions raise.
    */
  method SuggestSolution(s: AssistState, respond: (seq<Message>, string) -> Result<Message, string>)
    returns (r: Result<AssistUpdate, string>)
    ensures s.fileSuggestions.None? ==> r.Err?
    ensures s.fileSuggestions.Some? ==>
      var reply := respond(s.messages, AssistCodeFilesText(s.fileSuggestions.value, s.fileContents));
      && (reply.Err? ==> r == Err(reply.error))
      && (reply.Ok? ==> r == Ok(NoAssistUpdate.(messages := [reply.value])))
  {
    if s.fileSuggestions.None? {
      return Err("'NoneType' object has no attribute 'files'");
    }
    var codeFiles := AssistCodeFiles(s.fileSuggestions.value, s.fileContents);
    var reply := respond(s.messages, Join("\n\n", codeFiles));
    if reply.Err? {
      return Err(reply.error);
    }
    r := Ok(NoAssistUpdate.(messages := [reply.value]));
  }

  /** `cleanup`: the package index is cleared and `file_contents` reset. */
  function Cleanup(s: AssistState): (u: AssistUpdate)
    ensures ApplyAssistUpdate(s, u) == s.(packageNameIndex := None, fileContents := [])
  {
    NoAssistUpdate.(packageNameIndex := Put(None), fileContents := Reset)
  }
}
