/**
  * The vector assistance graph: the user's query is taken from the conversation, files are found
  * by similarity search (widened with a model-refined query when too few come back), fetched with
  * existence checks for local repositories, and handed to the model as fenced code files. The
  * vector store, the model and the file system are parameters.
  */
module VectorAssist {
  import opened Wrappers
  import opened Text
  import opened GraphState
  import opened AssistState
  import opened OnboardFanOut
  import opened Assist

  // ---------------------------------------------------------------------------------------------
  // find_relevant_files: the user query
  // ---------------------------------------------------------------------------------------------

  const NoQuery: string := "No user query found in messages"

  /** `d.get(key, default)` on a dictionary message. */
  function Lookup(fields: map<string, string>, key: string, default: string): string
  {
    if key in fields then fields[key] else default
  }

  /**
    * The query a message carries when it is the user's: a message object whose role is "user" or
    * whose type is "human" (in any case), or a dictionary whose "role" entry is "user".
    */
  function UserQuery(m: Message): Option<string>
  {
    match m
    case MessageObject(role, msgType, content) =>
      if role.Some? && Lower(role.value) == "user" then Some(content)
      else if msgType.Some? && Lower(msgType.value) == "human" then Some(content)
      else None
    case MessageDict(fields) =>
      if Lower(Lookup(fields, "role", "")) == "user" then Some(Lookup(fields, "content", "")) else None
  }

  /** The query of the last user message of the conversation, if there is one. */
  function LastUserQuery(ms: seq<Message>): Option<string>
    decreases |ms|
  {
    if ms == [] then None
    else if UserQuery(ms[|ms| - 1]).Some? then UserQuery(ms[|ms| - 1])
    else LastUserQuery(ms[..|ms| - 1])
  }

  /** None exactly when no message is the user's; otherwise the query of a user message with none after it. */
  lemma {:induction false} LastUserQuerySpec(ms: seq<Message>)
    ensures LastUserQuery(ms).None? <==> forall k :: 0 <= k < |ms| ==> UserQuery(ms[k]).None?
    ensures LastUserQuery(ms).Some? ==> exists k ::
      && 0 <= k < |ms| && UserQuery(ms[k]) == LastUserQuery(ms)
      && forall j :: k < j < |ms| ==> UserQuery(ms[j]).None?
    decreases |ms|
  {
    if ms != [] && UserQuery(ms[|ms| - 1]).None? {
      var init := ms[..|ms| - 1];
      LastUserQuerySpec(init);
      assert forall k :: 0 <= k < |init| ==> init[k] == ms[k];
    }
  }

  /** The query `find_relevant_files` searches with: the last user message's, unless missing or empty. */
  function QueryOf(ms: seq<Message>): Result<string, string>
  {
    var q := LastUserQuery(ms);
    if q.Some? && q.value != "" then Ok(q.value) else Err(NoQuery)
  }

  /**
    * The backward scan for the query: the first user message met from the end decides; an empty
    * query there, or no user message at all, raises.
    */
  method ExtractUserQuery(ms: seq<Message>) returns (r: Result<string, string>)
    ensures r == QueryOf(ms)
    ensures r.Ok? ==> r.value != "" && exists k ::
      && 0 <= k < |ms| && UserQuery(ms[k]) == Some(r.value)
      && forall j :: k < j < |ms| ==> UserQuery(ms[j]).None?
    ensures r.Err? ==> r.error == NoQuery
  {
    var i := |ms|;
    assert ms[..i] == ms;
    while i > 0 && UserQuery(ms[i - 1]).None?
      invariant 0 <= i <= |ms|
      invariant LastUserQuery(ms) == LastUserQuery(ms[..i])
    {
      assert ms[..i][..i - 1] == ms[..i - 1];
      i := i - 1;
    }
    LastUserQuerySpec(ms);
    if i == 0 {
      return Err(NoQuery);
    }
    var query := UserQuery(ms[i - 1]).value;
    if query == "" {
      return Err(NoQuery);
    }
    r := Ok(query);
  }

  // ---------------------------------------------------------------------------------------------
  // find_relevant_files: search, widening and suggestions
  // ---------------------------------------------------------------------------------------------

  /** A search hit: the file path and its similarity score as the rationale prints it. */
  datatype SearchResult = SearchResult(filepath: string, score: string)

  /** How many hits each search asks the vector store for. */
  const SearchLimit: int := 5

  /** Fewer hits than this trigger the widened search. */
  const MinResults: int := 3

  function Paths(rs: seq<SearchResult>): set<string>
  {
    set r | r in rs :: r.filepath
  }

  /** No two hits share a file path. */
  predicate DistinctPaths(rs: seq<SearchResult>)
  {
    forall i, j :: 0 <= i < j < |rs| ==> rs[i].filepath != rs[j].filepath
  }

  /** The hits of `xs` whose path is neither in `seen` nor taken by an earlier hit of `xs`, in order. */
  function Unseen(seen: set<string>, xs: seq<SearchResult>): seq<SearchResult>
    decreases |xs|
  {
    if xs == [] then []
    else if xs[0].filepath in seen then Unseen(seen, xs[1..])
    else [xs[0]] + Unseen(seen + {xs[0].filepath}, xs[1..])
  }

  /** The added hits come from `xs`, avoid `seen`, and have distinct paths. */
  lemma {:induction false} UnseenSound(seen: set<string>, xs: seq<SearchResult>)
    ensures forall y :: y in Unseen(seen, xs) ==> y in xs && y.filepath !in seen
    ensures DistinctPaths(Unseen(seen, xs))
    decreases |xs|
  {
    if xs != [] {
      if xs[0].filepath in seen {
        UnseenSound(seen, xs[1..]);
      } else {
        var seen' := seen + {xs[0].filepath};
        var rest := Unseen(seen', xs[1..]);
        UnseenSound(seen', xs[1..]);
        var u := [xs[0]] + rest;
        forall i, j | 0 <= i < j < |u|
          ensures u[i].filepath != u[j].filepath
        {
          if i == 0 {
            assert u[j] == rest[j - 1];
          } else {
            assert u[i] == rest[i - 1] && u[j] == rest[j - 1];
          }
        }
      }
    }
  }

  /** Every path of `xs` is in `seen` or among the added hits. */
  lemma {:induction false} UnseenComplete(seen: set<string>, xs: seq<SearchResult>)
    ensures Paths(xs) <= seen + Paths(Unseen(seen, xs))
    decreases |xs|
  {
    if xs != [] {
      var x := xs[0];
      var seen' := if x.filepath in seen then seen else seen + {x.filepath};
      var rest := Unseen(seen', xs[1..]);
      UnseenComplete(seen', xs[1..]);
      assert Unseen(seen, xs) == if x.filepath in seen then rest else [x] + rest;
      assert Paths(rest) <= Paths(Unseen(seen, xs));
      assert x.filepath in seen + Paths(Unseen(seen, xs));
      forall p | p in Paths(xs)
        ensures p in seen + Paths(Unseen(seen, xs))
      {
        var y :| y in xs && y.filepath == p;
        if y != x {
          assert y in xs[1..];
          assert p in Paths(xs[1..]);
        }
      }
    }
  }

  /**
    * The merge loop of `find_relevant_files`: each additional hit whose path is not yet present is
    * appended, and its path marked as present.
    */
  method MergeResults(results: seq<SearchResult>, additional: seq<SearchResult>) returns (merged: seq<SearchResult>)
    ensures merged == results + Unseen(Paths(results), additional)
  {
    merged := results;
    var existing := Paths(results);
    for i := 0 to |additional|
      invariant existing == Paths(merged)
      invariant merged + Unseen(existing, additional[i..]) == results + Unseen(Paths(results), additional)
    {
      var x := additional[i];
      assert additional[i..][1..] == additional[i + 1..];
      if x.filepath !in existing {
        assert merged + Unseen(existing, additional[i..]) == (merged + [x]) + Unseen(existing + {x.filepath}, additional[i + 1..]);
        merged := merged + [x];
        existing := existing + {x.filepath};
      }
    }
    assert additional[|additional|..] == [];
  }

  /**
    * The merged hits keep the first search's hits in front, add only hits of the widened search,
    * cover every path of both, and keep paths distinct when the first search's are.
    */
  lemma MergedResults(results: seq<SearchResult>, additional: seq<SearchResult>)
    ensures var merged := results + Unseen(Paths(results), additional);
      && merged[..|results|] == results
      && (forall y :: y in merged[|results|..] ==> y in additional && y.filepath !in Paths(results))
      && Paths(merged) == Paths(results) + Paths(additional)
      && (DistinctPaths(results) ==> DistinctPaths(merged))
  {
    var added := Unseen(Paths(results), additional);
    var merged := results + added;
    UnseenSound(Paths(results), additional);
    UnseenComplete(Paths(results), additional);
    assert merged[|results|..] == added;
    forall p | p in Paths(merged)
      ensures p in Paths(results) + Paths(additional)
    {
      var y :| y in merged && y.filepath == p;
      if y !in results {
        assert y in added;
      }
    }
    forall p | p in Paths(results) + Paths(additional)
      ensures p in Paths(merged)
    {
      if p in Paths(results) {
        var y :| y in results && y.filepath == p;
        assert y in merged;
      } else {
        var y :| y in added && y.filepath == p;
        assert y in merged;
      }
    }
    if DistinctPaths(results) {
      forall i, j | 0 <= i < j < |merged|
        ensures merged[i].filepath != merged[j].filepath
      {
        if j < |results| {
        } else if i < |results| {
          assert merged[j] in added;
          assert merged[i] in results;
        } else {
          assert merged[i] == added[i - |results|] && merged[j] == added[j - |results|];
        }
      }
    }
  }

  /** The rationale of a hit, citing its score. */
  function Rationale(score: string): string
  {
    "Similarity score: " + score + ". Contains code relevant to the query."
  }

  /** The suggestions of the hits, in hit order. */
  function RankedSuggestions(rs: seq<SearchResult>): seq<FileSuggestion>
    decreases |rs|
  {
    if rs == [] then []
    else RankedSuggestions(rs[..|rs| - 1]) + [FileSuggestion(rs[|rs| - 1].filepath, Rationale(rs[|rs| - 1].score))]
  }

  /** One suggestion per hit, in place, for the hit's path with a rationale citing its score. */
  lemma {:induction false} RankedSuggestionsSpec(rs: seq<SearchResult>)
    ensures |RankedSuggestions(rs)| == |rs|
    ensures forall k :: 0 <= k < |rs| ==>
      RankedSuggestions(rs)[k] == FileSuggestion(rs[k].filepath, Rationale(rs[k].score))
    decreases |rs|
  {
    if rs != [] {
      var init := rs[..|rs| - 1];
      RankedSuggestionsSpec(init);
      assert forall k :: 0 <= k < |init| ==> init[k] == rs[k];
    }
  }

  /** The suggestion loop of `find_relevant_files`. */
  method SuggestionsFor(rs: seq<SearchResult>) returns (sugg: seq<FileSuggestion>)
    ensures sugg == RankedSuggestions(rs)
  {
    sugg := [];
    for i := 0 to |rs|
      invariant sugg == RankedSuggestions(rs[..i])
    {
      sugg := sugg + [FileSuggestion(rs[i].filepath, Rationale(rs[i].score))];
      assert rs[..i + 1][..i] == rs[..i];
    }
    assert rs[..|rs|] == rs;
  }

  /** The update of `find_relevant_files`: the commit hash as the repository key, and the suggestions. */
  function Found(hash: Option<string>, sugg: seq<FileSuggestion>): AssistUpdate
  {
    NoAssistUpdate.(repoId := Put(CommitKey(hash)), fileSuggestions := Put(Some(sugg)))
  }

  /**
    * `find_relevant_files`. The query's hits become the suggestions when there are at least three;
    * otherwise the model refines the query, and the hits of the refined query whose paths are new
    * are appended first. A missing query or a failing model call raises.
    */
  method FindRelevantFiles(s: AssistState, search: (Option<string>, string, int) -> seq<SearchResult>,
                           refine: string -> Result<string, string>) returns (r: Result<AssistUpdate, string>)
    ensures QueryOf(s.messages).Err? ==> r == Err(NoQuery)
    ensures QueryOf(s.messages).Ok? ==>
      var hash := s.repo.commitHash;
      var q := QueryOf(s.messages).value;
      var first := search(hash, q, SearchLimit);
      && (|first| >= MinResults ==> r == Ok(Found(hash, RankedSuggestions(first))))
      && (|first| < MinResults && refine(q).Err? ==> r == Err(refine(q).error))
      && (|first| < MinResults && refine(q).Ok? ==>
            r == Ok(Found(hash, RankedSuggestions(first + Unseen(Paths(first), search(hash, refine(q).value, SearchLimit))))))
  {
    var hash := s.repo.commitHash;
    var query := ExtractUserQuery(s.messages);
    if query.Err? {
      return Err(query.error);
    }
    var results := search(hash, query.value, SearchLimit);
    if |results| < MinResults {
      var generic := refine(query.value);
      if generic.Err? {
        return Err(generic.error);
      }
      var additional := search(hash, generic.value, SearchLimit);
      results := MergeResults(results, additional);
    }
    var sugg := SuggestionsFor(results);
    r := Ok(Found(hash, sugg));
  }

  // ---------------------------------------------------------------------------------------------
  // fetch_file_content
  // ---------------------------------------------------------------------------------------------

  /** `os.path.join(a, b)`: an absolute `b` replaces `a`; otherwise one "/" separates them unless `a` is empty or ends with one. */
  function JoinPath(a: string, b: string): (r: string)
    ensures |b| <= |r| && r[|r| - |b|..] == b
    ensures b != [] && b[0] == '/' ==> r == b
    ensures (b == [] || b[0] != '/') ==> IsPrefix(a, r)
  {
    if b != [] && b[0] == '/' then b
    else if a == [] || a[|a| - 1] == '/' then a + b
    else a + "/" + b
  }

  /**
    * `fetch_file_content` of the vector graph: for a `file://` repository the directory and then
    * the file must exist, or FileNotFoundError is raised; past those checks it reads exactly as
    * the assist graph's `fetch_file_content` does.
    */
  function VectorFetchFileContent(fs: FilepathState, dirExists: string -> bool, fileExists: string -> bool,
                                  read: ContentSource -> Result<string, string>): (r: Result<AssistUpdate, string>)
    ensures !IsPrefix("file://", fs.repo.url) ==> r == FetchFileContent(fs, read)
    ensures IsPrefix("file://", fs.repo.url) && !dirExists(LocalRepoDir(fs)) ==>
      r == Err("Local repository directory not found: " + LocalRepoDir(fs))
    ensures IsPrefix("file://", fs.repo.url) && dirExists(LocalRepoDir(fs)) && !fileExists(JoinPath(LocalRepoDir(fs), fs.filepath)) ==>
      r == Err("File not found: " + JoinPath(LocalRepoDir(fs), fs.filepath))
    ensures IsPrefix("file://", fs.repo.url) && dirExists(LocalRepoDir(fs)) && fileExists(JoinPath(LocalRepoDir(fs), fs.filepath)) ==>
      r == FetchFileContent(fs, read)
  {
    if IsPrefix("file://", fs.repo.url) then
      var dir := LocalRepoDir(fs);
      if !dirExists(dir) then Err("Local repository directory not found: " + dir)
      else
        var path := JoinPath(dir, fs.filepath);
        if !fileExists(path) then Err("File not found: " + path)
        else
          match read(LocalSource(Some(dir), fs.filepath))
          case Err(e) => Err(e)
          case Ok(content) => Ok(NoAssistUpdate.(fileContents := Append([FileContent(fs.filepath, content)])))
    else
      match read(GithubSource(fs.repo.url, fs.filepath, fs.repo.branch, fs.repo.commitHash))
      case Err(e) => Err(e)
      case Ok(content) => Ok(NoAssistUpdate.(fileContents := Append([FileContent(fs.filepath, content)])))
  }

  // ---------------------------------------------------------------------------------------------
  // suggest_solution and cleanup
  // ---------------------------------------------------------------------------------------------

  /** The fence tag: the text after the last dot, or nothing for a path without a dot. */
  function VectorExtension(path: string): (e: string)
    ensures '.' !in path ==> e == []
    ensures '.' in path ==> e == FileType(path)
  {
    if '.' in path then FileType(path) else []
  }

  /** `if content:` — a content was fetched for the path and it is not empty. */
  predicate HasContent(contents: seq<FileContent>, path: string)
  {
    FirstContent(contents, path).Some? && FirstContent(contents, path).value != ""
  }

  /** The code file of one suggestion in the vector graph, with its first fetched content. */
  function VectorCodeFile(sugg: FileSuggestion, contents: seq<FileContent>): string
  {
    CodeFile(sugg.filepath, sugg.rationale, VectorExtension(sugg.filepath), FirstContent(contents, sugg.filepath).GetOr(""))
  }

  /** The code files of the suggestions that have content, in suggestion order. */
  function VectorCodeFileList(suggestions: seq<FileSuggestion>, contents: seq<FileContent>): seq<string>
    decreases |suggestions|
  {
    if suggestions == [] then []
    else
      var last := suggestions[|suggestions| - 1];
      VectorCodeFileList(suggestions[..|suggestions| - 1], contents)
      + (if HasContent(contents, last.filepath) then [VectorCodeFile(last, contents)] else [])
  }

  /**
    * Exactly the suggestions with content contribute: each of them gives its code file, and every
    * code file is that of such a suggestion.
    */
  lemma {:induction false} VectorCodeFileListSpec(suggestions: seq<FileSuggestion>, contents: seq<FileContent>)
    ensures |VectorCodeFileList(suggestions, contents)| <= |suggestions|
    ensures forall k :: 0 <= k < |suggestions| && HasContent(contents, suggestions[k].filepath) ==>
      VectorCodeFile(suggestions[k], contents) in VectorCodeFileList(suggestions, contents)
    ensures forall x :: x in VectorCodeFileList(suggestions, contents) ==> exists k ::
      0 <= k < |suggestions| && HasContent(contents, suggestions[k].filepath) && x == VectorCodeFile(suggestions[k], contents)
    decreases |suggestions|
  {
    if suggestions != [] {
      var init := suggestions[..|suggestions| - 1];
      VectorCodeFileListSpec(init, contents);
      assert forall k :: 0 <= k < |init| ==> init[k] == suggestions[k];
    }
  }

  /**
    * When every suggested path has a dot and non-empty fetched content, the vector graph's code
    * files are exactly the assist graph's.
    */
  lemma {:induction false} VectorCodeFilesMatchAssist(suggestions: seq<FileSuggestion>, contents: seq<FileContent>)
    requires forall k :: 0 <= k < |suggestions| ==> '.' in suggestions[k].filepath && HasContent(contents, suggestions[k].filepath)
    ensures VectorCodeFileList(suggestions, contents) == AssistCodeFileList(suggestions, contents)
    decreases |suggestions|
  {
    if suggestions != [] {
      var init := suggestions[..|suggestions| - 1];
      assert forall k :: 0 <= k < |init| ==> init[k] == suggestions[k];
      VectorCodeFilesMatchAssist(init, contents);
      var last := suggestions[|suggestions| - 1];
      assert VectorCodeFile(last, contents) == AssistCodeFile(last, contents);
    }
  }

  /** The loop of `suggest_solution` in the vector graph: suggestions without content are skipped. */
  method VectorCodeFiles(suggestions: seq<FileSuggestion>, contents: seq<FileContent>) returns (files: seq<string>)
    ensures files == VectorCodeFileList(suggestions, contents)
  {
    files := [];
    for i := 0 to |suggestions|
      invariant files == VectorCodeFileList(suggestions[..i], contents)
    {
      var filepath := suggestions[i].filepath;
      var content := FirstContent(contents, filepath);
      if content.Some? && content.value != "" {
        files := files + [CodeFile(filepath, suggestions[i].rationale, VectorExtension(filepath), content.value)];
      }
      assert suggestions[..i + 1][..i] == suggestions[..i];
    }
    assert suggestions[..|suggestions|] == suggestions;
  }

  /**
    * `suggest_solution` of the vector graph: the model's reply to the conversation and the code
    * files with content, appended to the messages. A failing model call propagates; cleared
    * suggestions raise.
    */
  method VectorSuggestSolution(s: AssistState, respond: (seq<Message>, string) -> Result<Message, string>)
    returns (r: Result<AssistUpdate, string>)
    ensures s.fileSuggestions.None? ==> r.Err?
    ensures s.fileSuggestions.Some? ==>
      var reply := respond(s.messages, Join("\n\n", VectorCodeFileList(s.fileSuggestions.value, s.fileContents)));
      && (reply.Err? ==> r == Err(reply.error))
      && (reply.Ok? ==> r == Ok(NoAssistUpdate.(messages := [reply.value])))
  {
    if s.fileSuggestions.None? {
      return Err("'NoneType' object has no attribute 'files'");
    }
    var codeFiles := VectorCodeFiles(s.fileSuggestions.value, s.fileContents);
    var reply := respond(s.messages, Join("\n\n", codeFiles));
    if reply.Err? {
      return Err(reply.error);
    }
    r := Ok(NoAssistUpdate.(messages := [reply.value]));
  }

  /** `cleanup` of the vector graph: `file_contents` is reset and the suggestions cleared. */
  function VectorCleanup(s: AssistState): (u: AssistUpdate)
    ensures ApplyAssistUpdate(s, u) == s.(fileContents := [], fileSuggestions := None)
  {
    NoAssistUpdate.(fileContents := Reset, fileSuggestions := Put(None))
  }
}
