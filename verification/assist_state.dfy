/**
  * The state of the two assistance graphs: the conversation, the repository, the suggestions the
  * language model makes and the file contents fetched for them, with the channel wiring.
  */
module AssistState {
  import opened Wrappers
  import opened GraphState

  /**
    * A conversation message as the graphs inspect it: a message object, which may carry a `role`
    * and a `type` attribute, or a plain dictionary.
    */
  datatype Message =
    | MessageObject(role: Option<string>, msgType: Option<string>, content: string)
    | MessageDict(fields: map<string, string>)

  datatype PackageSuggestion = PackageSuggestion(packageName: string, rationale: string)
  datatype FileSuggestion = FileSuggestion(filepath: string, rationale: string)

  /**
    * What `repo_id` holds: the store's repository id (written by the assist graph) or the
    * repository's commit hash, possibly None (written by the vector assist graph).
    */
  datatype RepoKey = StoreRepoId(id: int) | CommitKey(hash: Option<string>)

  datatype AssistState = AssistState(
    messages: seq<Message>,
    repo: Repo,
    repoId: RepoKey,
    packageSuggestions: seq<PackageSuggestion>,
    packageNameIndex: Option<map<string, Package>>,
    fileSuggestions: Option<seq<FileSuggestion>>,
    fileContents: seq<FileContent>)

  /** The state a run starts from: the conversation and the repository, everything else at its default. */
  function InitialAssistState(messages: seq<Message>, repo: Repo): (s: AssistState)
    ensures s.messages == messages && s.repo == repo && s.repoId == StoreRepoId(0)
    ensures s.packageSuggestions == [] && s.packageNameIndex == Some(map[])
    ensures s.fileSuggestions == Some([]) && s.fileContents == []
  {
    AssistState(messages, repo, StoreRepoId(0), [], Some(map[]), Some([]), [])
  }

  /** A node's writes; `messages` are appended, `file_contents` is reduced, the rest is replaced. */
  datatype AssistUpdate = AssistUpdate(
    messages: seq<Message>,
    repoId: Write<RepoKey>,
    packageSuggestions: Write<seq<PackageSuggestion>>,
    packageNameIndex: Write<Option<map<string, Package>>>,
    fileSuggestions: Write<Option<seq<FileSuggestion>>>,
    fileContents: ListWrite<FileContent>)

  const NoAssistUpdate: AssistUpdate := AssistUpdate([], Keep, Keep, Keep, Keep, Unwritten)

  function ApplyAssistUpdate(s: AssistState, u: AssistUpdate): AssistState
  {
    AssistState(
      s.messages + u.messages,
      s.repo,
      Overwrite(s.repoId, u.repoId),
      Overwrite(s.packageSuggestions, u.packageSuggestions),
      Overwrite(s.packageNameIndex, u.packageNameIndex),
      Overwrite(s.fileSuggestions, u.fileSuggestions),
      ApplyListWrite(s.fileContents, u.fileContents))
  }
}
