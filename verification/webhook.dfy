/**
  * The HTTP integration: the `/onboard` endpoint validates its request and starts an onboarding
  * run; the `/webhook` endpoint answers newly opened issues that mention the agent by running the
  * agent and posting its reply as a comment. JSON bodies are typed records; the agent runtime, the
  * GitHub comment call and the token from the environment are parameters.
  */
module Webhook {
  import opened Wrappers
  import opened Text
  import opened Records
  import opened Store
  import opened GraphState
  import opened AssistState

  /** The handle that summons the agent. */
  const AgentUserId: string := "heurisdev"

  /** A looked-up JSON value: a missing key, an explicit null, or a string. */
  datatype Field = Absent | Null | Str(text: string)

  /** `f"{d.get(key, default)}"`: the default for a missing key, "None" for a null. */
  function FieldText(f: Field, default: string): string
  {
    match f
    case Absent => default
    case Null => "None"
    case Str(t) => t
  }

  /** What an endpoint answers: an error with its status code, an ignored event, or a result. */
  datatype Reply<R> =
    | ErrorReply(code: int, error: string)
    | IgnoredReply(reason: string)
    | OnboardedReply(result: R)
    | ProcessedReply(result: R)

  function StatusCode<R>(r: Reply<R>): int
  {
    if r.ErrorReply? then r.code else 200
  }

  // ---------------------------------------------------------------------------------------------
  // /onboard
  // ---------------------------------------------------------------------------------------------

  /** The JSON body of `/onboard`: each field present or not. */
  datatype OnboardRequest = OnboardRequest(repoUrl: Option<string>, srcFolder: Option<string>, branch: Option<string>)

  /** The event every onboarding request starts: "repo-onboard" with empty metadata. */
  const OnboardEvent: Event := Event(RepoOnboard, EventMetadata([], []))

  /**
    * `onboard`: a missing `repo_url` or `src_folder` (checked in that order) is a 400 naming the
    * key; the branch defaults to "main"; a failing run is a 500 with its message.
    */
  function OnboardEndpoint<R>(req: OnboardRequest, update: (Repo, Event) -> Result<R, string>): (r: Reply<R>)
    ensures StatusCode(r) == 400 <==> req.repoUrl.None? || req.srcFolder.None?
    ensures req.repoUrl.None? ==> r == ErrorReply(400, "Missing required field: 'repo_url'")
    ensures req.repoUrl.Some? && req.srcFolder.None? ==> r == ErrorReply(400, "Missing required field: 'src_folder'")
    ensures req.repoUrl.Some? && req.srcFolder.Some? ==>
      var run := update(Repo(req.repoUrl.value, req.srcFolder.value, req.branch.GetOr("main"), None), OnboardEvent);
      && (run.Ok? ==> r == OnboardedReply(run.value))
      && (run.Err? ==> r == ErrorReply(500, run.error))
  {
    if req.repoUrl.None? then ErrorReply(400, "Missing required field: 'repo_url'")
    else if req.srcFolder.None? then ErrorReply(400, "Missing required field: 'src_folder'")
    else
      var repo := Repo(req.repoUrl.value, req.srcFolder.value, req.branch.GetOr("main"), None);
      match update(repo, OnboardEvent)
      case Ok(result) => OnboardedReply(result)
      case Err(e) => ErrorReply(500, e)
  }

  // ---------------------------------------------------------------------------------------------
  // Mentions and the agent's answer
  // ---------------------------------------------------------------------------------------------

  /** `should_process_event`: the lower-cased text contains the agent's handle; empty text never does. */
  predicate ShouldProcessEvent(text: string)
  {
    text != [] && Contains(Lower(text), AgentUserId)
  }

  /** The test is an occurrence of the handle in the lower-cased text, so "HeurisDev" counts as a mention. */
  lemma ShouldProcessEventIffOccurs(text: string)
    ensures ShouldProcessEvent(text) <==> Occurs(Lower(text), AgentUserId)
    ensures ShouldProcessEvent(text) <==> ShouldProcessEvent(Lower(text))
  {
    ContainsOccurs(Lower(text), AgentUserId);
    LowerIdempotent(text);
  }

  /** Lower-casing works character by character, so it distributes over concatenation. */
  lemma LowerConcat(a: string, b: string)
    ensures Lower(a + b) == Lower(a) + Lower(b)
  {
  }

  /** An occurrence in a part is an occurrence in the whole. */
  lemma OccursInConcat(a: string, b: string, sub: string)
    requires Occurs(a, sub) || Occurs(b, sub)
    ensures Occurs(a + b, sub)
  {
    if Occurs(a, sub) {
      var i :| OccursAt(a, sub, i);
      assert (a + b)[i..i + |sub|] == a[i..i + |sub|];
      assert OccursAt(a + b, sub, i);
    } else {
      var i :| OccursAt(b, sub, i);
      assert (a + b)[|a| + i..|a| + i + |sub|] == b[i..i + |sub|];
      assert OccursAt(a + b, sub, |a| + i);
    }
  }

  /** The issue text: the title and the body on the next line, "None" standing for a null one. */
  function IssueText(title: Field, body: Field): string
  {
    FieldText(title, "") + "\n" + FieldText(body, "")
  }

  /** Mentioning the agent in the title or in the body is enough for the issue text to mention it. */
  lemma MentionInTitleOrBody(title: Field, body: Field)
    requires ShouldProcessEvent(FieldText(title, "")) || ShouldProcessEvent(FieldText(body, ""))
    ensures ShouldProcessEvent(IssueText(title, body))
  {
    var t := FieldText(title, "");
    var b := FieldText(body, "");
    ShouldProcessEventIffOccurs(t);
    ShouldProcessEventIffOccurs(b);
    LowerConcat(t + "\n", b);
    LowerConcat(t, "\n");
    if Occurs(Lower(t), AgentUserId) {
      OccursInConcat(Lower(t), Lower("\n"), AgentUserId);
      OccursInConcat(Lower(t) + Lower("\n"), Lower(b), AgentUserId);
    } else {
      OccursInConcat(Lower(t) + Lower("\n"), Lower(b), AgentUserId);
    }
    assert IssueText(title, body) == t + "\n" + b;
    ShouldProcessEventIffOccurs(IssueText(title, body));
  }

  /** The agent run's result: the messages of the final state as dictionaries (none when the key is missing). */
  datatype AgentResult = AgentResult(messages: seq<map<string, string>>)

  /** `extract_agent_response`: the content of the last message when its type is "ai", else None. */
  function ExtractAgentResponse(result: AgentResult): (r: Option<string>)
    ensures result.messages == [] ==> r.None?
    ensures result.messages != [] ==>
      var last := result.messages[|result.messages| - 1];
      && (r.Some? <==> "type" in last && last["type"] == "ai" && "content" in last)
      && (r.Some? ==> r.value == last["content"])
  {
    if result.messages == [] then None
    else
      var last := result.messages[|result.messages| - 1];
      if "type" in last && last["type"] == "ai" && "content" in last then Some(last["content"]) else None
  }

  /** An earlier AI message does not count when a later message follows it. */
  lemma OnlyLastMessageCounts(earlier: seq<map<string, string>>, last: map<string, string>)
    requires "type" !in last || last["type"] != "ai"
    ensures ExtractAgentResponse(AgentResult(earlier + [last])).None?
  {
  }

  // ---------------------------------------------------------------------------------------------
  // /webhook
  // ---------------------------------------------------------------------------------------------

  /** The `issue` entry of a webhook body: missing, null, or an object. */
  datatype IssueField = NoIssue | NullIssue | IssueObject(title: Field, body: Field, number: Field)

  /** The `repository` entry of a webhook body: missing, null, or an object with its `html_url`. */
  datatype RepositoryField = NoRepository | NullRepository | RepositoryObject(htmlUrl: Field)

  datatype Payload = Payload(action: Field, issue: IssueField, repository: RepositoryField)

  /** A comment posted on an issue. */
  datatype Comment = Comment(repoUrl: string, issueNumber: Field, body: string, token: string)

  const NoneAttribute: string := "'NoneType' object has no attribute 'get'"

  /**
    * `get_repo_info`: the repository's `html_url` must be a non-empty string, and some onboarded
    * repository must have that url (any source folder, any branch); its folder and branch are used.
    */
  function GetRepoInfo(store: KnowledgeStore, p: Payload): (r: Result<Repo, string>)
    reads store
    ensures r.Ok? <==> p.repository.RepositoryObject? && p.repository.htmlUrl.Str? && p.repository.htmlUrl.text != ""
                       && store.GetRepo(p.repository.htmlUrl.text, None, None).Some?
    ensures r.Ok? ==>
      var rec := store.GetRepo(p.repository.htmlUrl.text, None, None).value;
      r.value == Repo(rec.url, rec.srcPath, rec.branch, None) && rec.url == p.repository.htmlUrl.text
    ensures p.repository.RepositoryObject? && !(p.repository.htmlUrl.Str? && p.repository.htmlUrl.text != "") ==>
      r == Err("Repository URL not found in webhook data.")
  {
    match p.repository
    case NullRepository => Err(NoneAttribute)
    case NoRepository => Err("Repository URL not found in webhook data.")
    case RepositoryObject(htmlUrl) =>
      if !(htmlUrl.Str? && htmlUrl.text != "") then Err("Repository URL not found in webhook data.")
      else
        match store.GetRepo(htmlUrl.text, None, None)
        case None => Err("Repository " + htmlUrl.text + " not onboarded.")
        case Some(rec) => Ok(Repo(htmlUrl.text, rec.srcPath, rec.branch, None))
  }

  /** The response is posted only when it is a non-empty text. */
  predicate Truthy(response: Option<string>)
  {
    response.Some? && response.value != ""
  }

  /**
    * `apply_agent_and_respond`: run the agent on the messages and, when its answer is a non-empty
    * text, post it as a comment. A failing run or comment call raises; the result is passed back.
    */
  function ApplyAgentAndRespond(messages: seq<Message>, repo: Repo, issueNumber: Field, token: string,
                                apply: (seq<Message>, Repo) -> Result<AgentResult, string>,
                                post: Comment -> Option<string>): (r: Result<(AgentResult, Option<Comment>), string>)
    ensures apply(messages, repo).Err? ==> r == Err(apply(messages, repo).error)
    ensures apply(messages, repo).Ok? ==>
      var response := ExtractAgentResponse(apply(messages, repo).value);
      var comment := Comment(repo.url, issueNumber, response.GetOr(""), token);
      && (!Truthy(response) ==> r == Ok((apply(messages, repo).value, None)))
      && (Truthy(response) && post(comment).Some? ==> r == Err(post(comment).value))
      && (Truthy(response) && post(comment).None? ==> r == Ok((apply(messages, repo).value, Some(comment))))
  {
    match apply(messages, repo)
    case Err(e) => Err(e)
    case Ok(result) =>
      var response := ExtractAgentResponse(result);
      if !Truthy(response) then Ok((result, None))
      else
        var comment := Comment(repo.url, issueNumber, response.value, token);
        match post(comment)
        case Some(e) => Err(e)
        case None => Ok((result, Some(comment)))
  }

  /**
    * `handle_issue_event`: resolve the repository, ignore an issue that does not mention the agent,
    * then run the agent on one user message holding the issue text. Every failure is a 500 with
    * its message; a missing or empty token is one of them. The second result is the comment posted.
    */
  function HandleIssueEvent(store: KnowledgeStore, p: Payload, token: Option<string>,
                            apply: (seq<Message>, Repo) -> Result<AgentResult, string>,
                            post: Comment -> Option<string>): (r: (Reply<AgentResult>, Option<Comment>))
    reads store
    ensures r.1.Some? ==> r.0.ProcessedReply?
    ensures GetRepoInfo(store, p).Err? ==> r == (ErrorReply(500, GetRepoInfo(store, p).error), None)
    ensures GetRepoInfo(store, p).Ok? && !p.issue.IssueObject? ==> r == (ErrorReply(500, NoneAttribute), None)
    ensures GetRepoInfo(store, p).Ok? && p.issue.IssueObject? ==>
      var text := IssueText(p.issue.title, p.issue.body);
      && (!ShouldProcessEvent(text) ==> r == (IgnoredReply("Agent not mentioned"), None))
      && (ShouldProcessEvent(text) && (token.None? || token.value == "") ==> r == (ErrorReply(500, "GITHUB_TOKEN not set"), None))
      && (ShouldProcessEvent(text) && token.Some? && token.value != "" ==>
            var run := ApplyAgentAndRespond([MessageDict(map["role" := "user", "content" := text])], GetRepoInfo(store, p).value,
                                            p.issue.number, token.value, apply, post);
            && (run.Err? ==> r == (ErrorReply(500, run.error), None))
            && (run.Ok? ==> r == (ProcessedReply(run.value.0), run.value.1)))
  {
    match GetRepoInfo(store, p)
    case Err(e) => (ErrorReply(500, e), None)
    case Ok(repo) =>
      if !p.issue.IssueObject? then (ErrorReply(500, NoneAttribute), None)
      else
        var text := IssueText(p.issue.title, p.issue.body);
        if !ShouldProcessEvent(text) then (IgnoredReply("Agent not mentioned"), None)
        else if token.None? || token.value == "" then (ErrorReply(500, "GITHUB_TOKEN not set"), None)
        else
          var messages := [MessageDict(map["role" := "user", "content" := text])];
          match ApplyAgentAndRespond(messages, repo, p.issue.number, token.value, apply, post)
          case Err(e) => (ErrorReply(500, e), None)
          case Ok((result, comment)) => (ProcessedReply(result), comment)
  }

  /**
    * `webhook`: a body without "issue" is ignored as unsupported; an issue event whose action is
    * not "opened" is ignored naming the action; an opened issue is handled.
    */
  function WebhookEndpoint(store: KnowledgeStore, p: Payload, token: Option<string>,
                           apply: (seq<Message>, Repo) -> Result<AgentResult, string>,
                           post: Comment -> Option<string>): (r: (Reply<AgentResult>, Option<Comment>))
    reads store
    ensures p.issue.NoIssue? ==> r == (IgnoredReply("Event type not supported"), None)
    ensures !p.issue.NoIssue? && p.action != Str("opened") ==>
      r == (IgnoredReply("Action '" + FieldText(p.action, "None") + "' not supported"), None)
    ensures !p.issue.NoIssue? && p.action == Str("opened") ==> r == HandleIssueEvent(store, p, token, apply, post)
  {
    if p.issue.NoIssue? then (IgnoredReply("Event type not supported"), None)
    else if p.action != Str("opened") then (IgnoredReply("Action '" + FieldText(p.action, "None") + "' not supported"), None)
    else HandleIssueEvent(store, p, token, apply, post)
  }

  /**
    * A comment is posted only for a newly opened issue of an onboarded repository that mentions
    * the agent, and it carries the agent's last message, which is an AI message with non-empty text.
    */
  lemma CommentOnlyForMentions(store: KnowledgeStore, p: Payload, token: Option<string>,
                               apply: (seq<Message>, Repo) -> Result<AgentResult, string>,
                               post: Comment -> Option<string>)
    requires WebhookEndpoint(store, p, token, apply, post).1.Some?
    ensures p.issue.IssueObject? && p.action == Str("opened")
    ensures ShouldProcessEvent(IssueText(p.issue.title, p.issue.body))
    ensures GetRepoInfo(store, p).Ok? && token.Some? && token.value != ""
    ensures var c := WebhookEndpoint(store, p, token, apply, post).1.value;
      var messages := [MessageDict(map["role" := "user", "content" := IssueText(p.issue.title, p.issue.body)])];
      var run := apply(messages, GetRepoInfo(store, p).value);
      && run.Ok? && ExtractAgentResponse(run.value) == Some(c.body) && c.body != ""
      && c.repoUrl == GetRepoInfo(store, p).value.url && c.token == token.value && c.issueNumber == p.issue.number
  {
  }
}
