/**
  * The vector onboarding graph: an update drops the embeddings of deleted files and passes the
  * modified paths on; all paths then go to one embedding task, which embeds each file's text and
  * reports one result per path. The vector store is an outside collaborator: the model returns the
  * calls made to it, and whether a store call raises is a parameter.
  */
module VectorOnboard {
  import opened Wrappers
  import opened Text
  import opened Store
  import opened GraphState
  import opened OnboardFanOut

  // ---------------------------------------------------------------------------------------------
  // handle_update
  // ---------------------------------------------------------------------------------------------

  /** A call of `delete_vector_embeddings`: the repository's store id and the deleted paths. */
  datatype EmbeddingDeletion = EmbeddingDeletion(repoId: int, filepaths: seq<string>)

  /** What `handle_update` does: the state update, and the embedding deletion it requests, if any. */
  datatype UpdateStep = UpdateStep(update: OnboardUpdate, deletion: Option<EmbeddingDeletion>)

  /**
    * `handle_update` of the vector graph. An unknown repository gives an empty `filepaths` list
    * and nothing else; a known one has the embeddings of its deleted paths dropped, when there are
    * any, and passes on its id and the modified paths.
    */
  function VectorHandleUpdate(store: KnowledgeStore, s: OnboardState): (r: UpdateStep)
    reads store
    requires s.event.Some?
    ensures store.GetRepo(s.repo.url, Some(s.repo.srcFolder), Some(s.repo.branch)).None? ==>
      r.deletion.None? && r.update == NoUpdate.(filepaths := Append([]))
    ensures store.GetRepo(s.repo.url, Some(s.repo.srcFolder), Some(s.repo.branch)).Some? ==>
      var id := store.GetRepo(s.repo.url, Some(s.repo.srcFolder), Some(s.repo.branch)).value.repoId;
      && r.update == NoUpdate.(repoId := Put(id), filepaths := Append(s.event.value.metaData.modified))
      && (r.deletion.Some? <==> s.event.value.metaData.deleted != [])
      && (r.deletion.Some? ==> r.deletion.value == EmbeddingDeletion(id, s.event.value.metaData.deleted))
  {
    var found := store.GetRepo(s.repo.url, Some(s.repo.srcFolder), Some(s.repo.branch));
    if found.None? then UpdateStep(NoUpdate.(filepaths := Append([])), None)
    else
      var id := found.value.repoId;
      var deleted := s.event.value.metaData.deleted;
      UpdateStep(NoUpdate.(repoId := Put(id), filepaths := Append(s.event.value.metaData.modified)),
                 if deleted != [] then Some(EmbeddingDeletion(id, deleted)) else None)
  }

  /** Applied to the state, the update of a known repository leaves exactly the modified paths queued after those already there. */
  lemma HandleUpdateQueuesModified(store: KnowledgeStore, s: OnboardState)
    requires s.event.Some?
    requires store.GetRepo(s.repo.url, Some(s.repo.srcFolder), Some(s.repo.branch)).Some?
    ensures var t := ApplyUpdate(s, VectorHandleUpdate(store, s).update);
      && t.filepaths == s.filepaths + s.event.value.metaData.modified
      && t.repoId == store.GetRepo(s.repo.url, Some(s.repo.srcFolder), Some(s.repo.branch)).value.repoId
      && t == s.(filepaths := t.filepaths, repoId := t.repoId)
  {
  }

  // ---------------------------------------------------------------------------------------------
  // continue_to_embed_files
  // ---------------------------------------------------------------------------------------------

  /** The single embedding work item: all paths, with the clone directory, repository and event. */
  datatype EmbedTask = EmbedTask(filepaths: seq<string>, repoDir: Option<string>, repo: Repo, event: Option<Event>)

  /** `continue_to_embed_files`: nothing when there are no paths, else one task carrying them all. */
  function ContinueToEmbedFiles(s: OnboardState): (r: seq<EmbedTask>)
    ensures r == [] <==> s.filepaths == []
    ensures |r| <= 1
    ensures r != [] ==> r[0] == EmbedTask(s.filepaths, s.repoDir, s.repo, s.event)
  {
    if s.filepaths == [] then [] else [EmbedTask(s.filepaths, s.repoDir, s.repo, s.event)]
  }

  // ---------------------------------------------------------------------------------------------
  // create_vector_embedding
  // ---------------------------------------------------------------------------------------------

  /** One entry of the results list: success, the path, and the error text on failure. */
  datatype EmbedResult = EmbedResult(success: bool, filepath: string, error: Option<string>)

  /** A call of `store_code_embedding`: the commit hash as the repository key, the path and its text. */
  datatype EmbeddingCall = EmbeddingCall(repoKey: Option<string>, filepath: string, content: string)

  const EmptyContent: string := "Empty file content"

  /** Where one path of the task is read from: GitHub for an update, the clone otherwise. */
  function EmbedSource(t: EmbedTask, path: string): ContentSource
    requires t.event.Some?
  {
    SourceOf(FilepathState(path, t.repo, t.event, t.repoDir))
  }

  /**
    * The `try` block for one path: the result and the store call made, if any. A read that raises
    * or a store call that raises gives a failed result carrying the message; no or blank text gives
    * "Empty file content" without a store call; otherwise the text is stored under the commit hash.
    */
  function EmbedOne(t: EmbedTask, path: string, read: ContentSource -> Result<Option<string>, string>,
                    storeFails: EmbeddingCall -> Option<string>): (r: (EmbedResult, Option<EmbeddingCall>))
    requires t.event.Some?
    ensures r.0.filepath == path
    ensures r.0.success <==> r.1.Some? && storeFails(r.1.value).None?
    ensures r.0.success <==> r.0.error.None?
    ensures r.1.Some? <==> read(EmbedSource(t, path)).Ok? && read(EmbedSource(t, path)).value.Some? && !IsBlank(read(EmbedSource(t, path)).value.value)
    ensures r.1.Some? ==> r.1.value == EmbeddingCall(t.repo.commitHash, path, read(EmbedSource(t, path)).value.value)
    ensures read(EmbedSource(t, path)).Err? ==> r.0.error == Some(read(EmbedSource(t, path)).error)
    ensures read(EmbedSource(t, path)).Ok? && r.1.None? ==> r.0.error == Some(EmptyContent)
    ensures r.1.Some? && !r.0.success ==> r.0.error == storeFails(r.1.value)
  {
    match read(EmbedSource(t, path))
    case Err(e) => (EmbedResult(false, path, Some(e)), None)
    case Ok(content) =>
      if content.None? || IsBlank(content.value) then (EmbedResult(false, path, Some(EmptyContent)), None)
      else
        var call := EmbeddingCall(t.repo.commitHash, path, content.value);
        match storeFails(call)
        case Some(e) => (EmbedResult(false, path, Some(e)), Some(call))
        case None => (EmbedResult(true, path, None), Some(call))
  }

  /** The store calls of the paths, in path order. */
  function EmbedCalls(t: EmbedTask, paths: seq<string>, read: ContentSource -> Result<Option<string>, string>,
                      storeFails: EmbeddingCall -> Option<string>): seq<EmbeddingCall>
    requires t.event.Some?
    decreases |paths|
  {
    if paths == [] then []
    else
      var last := EmbedOne(t, paths[|paths| - 1], read, storeFails).1;
      EmbedCalls(t, paths[..|paths| - 1], read, storeFails) + (if last.Some? then [last.value] else [])
  }

  /**
    * The embedding store is called only with non-blank text of a task path, and it is called for
    * every path whose read gives non-blank text.
    */
  lemma {:induction false} EmbedCallsSpec(t: EmbedTask, paths: seq<string>, read: ContentSource -> Result<Option<string>, string>,
                                          storeFails: EmbeddingCall -> Option<string>)
    requires t.event.Some?
    ensures |EmbedCalls(t, paths, read, storeFails)| <= |paths|
    ensures forall c :: c in EmbedCalls(t, paths, read, storeFails) ==>
      c.filepath in paths && !IsBlank(c.content) && c.repoKey == t.repo.commitHash
    ensures forall k :: 0 <= k < |paths| && EmbedOne(t, paths[k], read, storeFails).1.Some? ==>
      EmbedOne(t, paths[k], read, storeFails).1.value in EmbedCalls(t, paths, read, storeFails)
    decreases |paths|
  {
    if paths != [] {
      var init := paths[..|paths| - 1];
      EmbedCallsSpec(t, init, read, storeFails);
      assert forall k :: 0 <= k < |init| ==> init[k] == paths[k];
    }
  }

  /**
    * The per-path loop of `create_vector_embedding`: one result per path, in path order, a failing
    * path not stopping the others.
    */
  method CreateVectorEmbedding(t: EmbedTask, read: ContentSource -> Result<Option<string>, string>,
                               storeFails: EmbeddingCall -> Option<string>)
    returns (results: seq<EmbedResult>, calls: seq<EmbeddingCall>)
    requires t.event.Some?
    ensures |results| == |t.filepaths|
    ensures forall k :: 0 <= k < |results| ==> results[k] == EmbedOne(t, t.filepaths[k], read, storeFails).0
    ensures calls == EmbedCalls(t, t.filepaths, read, storeFails)
  {
    results := [];
    calls := [];
    for i := 0 to |t.filepaths|
      invariant |results| == i
      invariant forall k :: 0 <= k < i ==> results[k] == EmbedOne(t, t.filepaths[k], read, storeFails).0
      invariant calls == EmbedCalls(t, t.filepaths[..i], read, storeFails)
    {
      var path := t.filepaths[i];
      var step := EmbedOne(t, path, read, storeFails);
      results := results + [step.0];
      if step.1.Some? {
        calls := calls + [step.1.value];
      }
      assert t.filepaths[..i + 1][..i] == t.filepaths[..i];
    }
    assert t.filepaths[..|t.filepaths|] == t.filepaths;
  }

  /** Every path's result succeeds exactly when its text was non-blank and the store call did not raise. */
  lemma EmbedResultsSpec(t: EmbedTask, read: ContentSource -> Result<Option<string>, string>,
                         storeFails: EmbeddingCall -> Option<string>, results: seq<EmbedResult>)
    requires t.event.Some?
    requires |results| == |t.filepaths|
    requires forall k :: 0 <= k < |results| ==> results[k] == EmbedOne(t, t.filepaths[k], read, storeFails).0
    ensures forall k :: 0 <= k < |results| ==> results[k].filepath == t.filepaths[k]
    ensures forall k :: 0 <= k < |results| ==>
      var got := read(EmbedSource(t, t.filepaths[k]));
      (results[k].success <==>
        got.Ok? && got.value.Some? && !IsBlank(got.value.value)
        && storeFails(EmbeddingCall(t.repo.commitHash, t.filepaths[k], got.value.value)).None?)
  {
  }
}
