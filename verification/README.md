# SE agent knowledge index and assistance graphs in Dafny

This project models the core of an SE (software-engineering) agent. The agent keeps a knowledge
index of a code repository and answers questions and pull requests about it. The model covers:

- **The knowledge store** (`Store.KnowledgeStore`). It holds three tables: repositories,
  packages and files. Each table is a row sequence with an auto-increment id counter, and an
  abstract clock stands in for `datetime.utcnow()`. The class invariant `Valid` states that ids
  are fresh and distinct, that `created_at <= last_modified_at <= clock`, and that there is at
  most one file row per (repository, path).
- **The onboarding graph.** It covers:
  - routing by event type;
  - the deletion reconciliation of `handle_update`: touched packages, file deletion, survivors,
    orphan pruning, then timestamp bumps;
  - the `Send` fan-outs, run as sequential loops whose updates go through the state reducer;
  - per-unit error containment in the summary generators;
  - the save nodes over the store;
  - `cleanup`.
- **The state reducer** `add_or_delete` and the channel wiring of the onboarding state. This
  includes the fact that `packages_impacted` has no reducer and is last-writer-wins.
- **Pure helpers:**
  - grouping of paths by top-level package;
  - the fenced-code-block extractor, with its round trip;
  - the Markdown heading shifter;
  - the model-name split;
  - the context-limit test;
  - GitHub URL splitting (RFC 3986 section 3; `urlparse`'s cleaning and `;params` cut), API endpoint choice, auth
    headers and ref selection.
- **The assistance graphs.**
  - The classic graph covers the package index and corpus, package-id resolution and file
    corpus, one fetch per suggestion, and code-file assembly.
  - The vector graph covers last-user-message query extraction, the deduplicating merge of
    search hits, the file checks for local reads, and code-file assembly that skips missing
    content.
- **The vector onboarding graph.** It covers embedding deletion on update, the single embedding
  task, and one result per path with errors contained per path.
- **The pull-request review graph.** It covers the file filter, fenced blocks and the one retry
  on a context-limit error.
- **The GitHub webhook.** It covers `onboard` field validation, dispatch, mention detection,
  repository lookup, response extraction and when a comment is posted.

The language models, GitHub, the local file system, the vector store and the environment are
parameters: functions from a request to a `Result`. What they answer is left open; what the code
does with each answer is modelled.

### Where the code and its documentation disagree (the model follows the code)

- The package of a file directly in the source folder is `"base"`.
- `packages_impacted` is declared as a set, but it has no reducer. In an update run with both
  deletions and modifications, `save_file_summaries` writes a list that replaces the set written
  by `handle_update` (`GraphState.ImpactedIsLastWriterWins`).
- The package-ranking corpus joins the package summaries with blank lines. It carries no package
  names.
- `save_file_summaries` creates a package row for every group, even when no file of the group has
  a summary. A package without files can therefore arise.
- The `StoreInterface` documentation gives `get_repo` three required arguments. The SQLite store
  treats source path and branch as optional filters, and the webhook calls it with the url alone.
- The vector `handle_update` deletes embeddings under the store's integer repository id, while
  `create_vector_embedding` stores them under the commit hash. The model records both keys
  (`VectorOnboard.EmbeddingDeletion`, `VectorOnboard.EmbeddingCall`). Whether the vector store
  treats them alike is not part of this model.

## Model

| member | source | states |
|---|---|---|
| Store.KnowledgeStore.constructor | src/se_agent/store/sqlite_store.py:8-58 | a new store has three empty tables and satisfies the invariant |
| Store.KnowledgeStore.Now | src/se_agent/store/sqlite_store.py:107 | each clock reading is strictly later than the previous one |
| Store.KnowledgeStore.GetRepo | src/se_agent/store/sqlite_store.py:79-104 | the result is the first row matching the url and whichever of source path and branch is given; None iff no row matches (the interface contract at store_interface.py:51-57) |
| Store.KnowledgeStore.GetAllRepos | src/se_agent/store/sqlite_store.py:60-77 | every repository row once, in no promised order; each is found again by its id |
| Store.KnowledgeStore.InsertRepo | src/se_agent/store/sqlite_store.py:106-114 | the returned id is fresh; exactly one row is appended, with created = last modified; other tables unchanged; key uniqueness kept when the key was absent; the id is returned as store_interface.py:59-67 promises |
| Store.KnowledgeStore.UpdateRepoLastModified | src/se_agent/store/sqlite_store.py:116-126 | only that repository's last-modified time changes |
| Store.KnowledgeStore.GetPackage | src/se_agent/store/sqlite_store.py:128-144 | the first package row of that repository and name (no earlier row matches); None iff none |
| Store.KnowledgeStore.InsertPackage | src/se_agent/store/sqlite_store.py:146-154 | a fresh id; one row appended with a null summary; package-key uniqueness kept when the key was absent |
| Store.KnowledgeStore.UpdatePackageLastModified | src/se_agent/store/sqlite_store.py:156-164 | only that (repository, package) row's time changes |
| Store.KnowledgeStore.UpdatePackageSummary | src/se_agent/store/sqlite_store.py:166-174 | the summary is set and the time bumped for that (repository, package) row only |
| Store.KnowledgeStore.DeleteOrphanPackages | src/se_agent/store/sqlite_store.py:176-190 | an empty valid set removes all of the repository's packages; otherwise exactly its unlisted packages go; other repositories untouched |
| Store.KnowledgeStore.InsertOrUpdateFile | src/se_agent/store/sqlite_store.py:192-214 | an existing (repository, path) row keeps its id and package and gets the new summary and time; otherwise one row is appended; the invariant (one row per key) holds afterwards |
| Store.KnowledgeStore.DeleteFiles | src/se_agent/store/sqlite_store.py:216-222 | removes exactly the repository's rows whose path is listed; an empty list is a no-op |
| Store.KnowledgeStore.FetchRepoData | src/se_agent/store/sqlite_store.py:235-251 | the first row with that id, None iff none |
| Store.KnowledgeStore.FetchPackageData | src/se_agent/store/sqlite_store.py:253-270 | exactly that repository's package rows |
| Store.KnowledgeStore.FetchFileData | src/se_agent/store/sqlite_store.py:272-291 | exactly the file rows of that package id, whatever their repository |
| Store.KnowledgeStore.GetPackageIdsForFiles | src/se_agent/store/sqlite_store.py:293-308 | exactly the package ids of the repository's files with listed paths; empty for an empty list |
| Store.KnowledgeStore.GetValidPackageIds | src/se_agent/store/sqlite_store.py:310-321 | exactly the package ids referenced by a file row of the repository (the packages with at least one file, store_interface.py:170-177) |
| Store.FindFirst | src/se_agent/store/sqlite_store.py:92-93 | `fetchone()`: the least index satisfying the condition, None iff none does |
| Store.Filter | src/se_agent/store/sqlite_store.py:187 | a DELETE keeps exactly the rows not matched |
| Store.FilterKeepsDistinct | src/se_agent/store/sqlite_store.py:176-190 | deleting rows keeps keys distinct |
| Store.FilterIdempotent | src/se_agent/store/sqlite_store.py:216-222 | deleting twice is deleting once |
| Store.PruneOrphans | src/se_agent/store/sqlite_store.py:176-190 | exactly the packages of other repositories or with a listed id survive |
| Store.PruneWithSurvivorsLeavesNoOrphans | src/se_agent/store/store_interface.py:106-112 | pruning by the ids that still own files leaves every package of the repository owning a file, keeps every package that owns one, and keeps other repositories' packages |
| Store.RemoveFiles | src/se_agent/store/sqlite_store.py:220 | exactly the rows of that repository with a listed path are gone |
| Store.RemoveFilesIdempotent | src/se_agent/store/sqlite_store.py:216-222 | deleting the same paths twice is deleting them once |
| Store.RemoveNoFiles | src/se_agent/store/sqlite_store.py:218 | an empty list deletes nothing, so skipping the query is sound |
| Store.SummariesOfSpec | src/se_agent/store/store_interface.py:129-135 | `get_file_summaries_for_package` lists exactly the (path, summary) pairs of that package's rows |
| Store.UpsertFileKeepsOneRowPerPath | src/se_agent/store/store_interface.py:115-120 | insert or update, never both; exactly one row with the key afterwards |
| Store.SameIdIffSameKey | src/se_agent/store/sqlite_store.py:203-208 | with unique ids and keys, updating by id touches exactly the row of the key |
| Store.RewriteKeepsIdsAndKeys | src/se_agent/store/sqlite_store.py:204-208 | an update by id changes no id or key and keeps created <= last modified |
| Store.RewriteByIdIsUpsert | src/se_agent/store/sqlite_store.py:196-208 | selecting the id by key and updating by id is the update branch of the upsert |
| Reducer.AddOrDelete | src/se_agent/state.py:24-56 | "delete" resets to [] for a list, else set(); None starts a list for a sequence, else a set; a falsy write keeps the value; list+sequence concatenates in order; set+set is the union; every other mix is a TypeError (both directions) |
| Reducer.AccumulateSequences | src/se_agent/state.py:51-52 | reducing fan-out writes into a list concatenates them in arrival order and never raises |
| Reducer.DeleteAfterAnything | src/se_agent/state.py:42-43 | "delete" after any appends leaves an empty list |
| GraphState.DefaultEvent | src/se_agent/state.py:96-112 | the default event is an onboarding with empty modified and deleted lists |
| GraphState.DefaultRepo | src/se_agent/state.py:115-135 | the default repository fields, with no commit hash |
| GraphState.InitialOnboardState | src/se_agent/state.py:216-253 | a run starts from the input repository and event with every other channel at its default |
| GraphState.ApplyListWrite | src/se_agent/state.py:237-253 | a reduced list channel after a write is what `add_or_delete` returns, never a TypeError, never a set |
| GraphState.ImpactedIsLastWriterWins | src/se_agent/state.py:246 | `packages_impacted` ends with the save node's list, not the union with the update's set |
| GraphState.FanInAppends | src/se_agent/state.py:240 | branch updates appending file summaries leave their concatenation, in order |
| Grouping.RelativePathRejoins | src/se_agent/utils/utils_misc.py:52 | folder + "/" + relative part gives the path back |
| Grouping.FirstSegmentIsSplitHead | src/se_agent/utils/utils_misc.py:55 | the package is `split('/')[0]` of the relative path |
| Grouping.PackageOfSpec | src/se_agent/utils/utils_misc.py:52-57 | a nested path's package is its first directory below the folder; any other is "base" |
| Grouping.PackageOfIsNamed | src/se_agent/utils/utils_misc.py:54-55 | a package below a normal source path has a non-empty name |
| Grouping.PackagesOf | src/se_agent/utils/utils_misc.py:51-57 | one package per path, in position |
| Grouping.GroupByTopLevelPackages | src/se_agent/utils/utils_misc.py:37-64 | the loop builds the dictionary: keys in insertion order, groups as the specification function gives them |
| Grouping.DictionaryIsGrouped | src/se_agent/utils/utils_misc.py:59-62 | keys are the packages in first-occurrence order and each group holds that package's paths |
| Grouping.KeysAreFirstOccurrences | src/se_agent/utils/utils_misc.py:59-60 | keys are exactly the packages that occur, each once, in first-occurrence order |
| Grouping.FirstOccurrencesSpec | src/se_agent/utils/utils_misc.py:59-60 | first occurrences hold each element that occurs, once |
| Grouping.FirstOccurrencesOrdered | src/se_agent/utils/utils_misc.py:59-60 | first occurrences appear in the order they first occur |
| Grouping.FirstIndex | src/se_agent/utils/utils_misc.py:59-60 | the index of the first occurrence |
| Grouping.GroupsAreNonEmpty | src/se_agent/utils/utils_misc.py:59-62 | every group is non-empty |
| Grouping.MembersSpec | src/se_agent/utils/utils_misc.py:62 | a group holds exactly the input paths of its package, in input order |
| Grouping.MembersOfAbsentPackage | src/se_agent/utils/utils_misc.py:59-62 | a package no path belongs to has no group |
| Grouping.GroupsPartitionPaths | src/se_agent/utils/utils_misc.py:50-62 | the groups together are a permutation of the input (the copy at utils.py:97-111 is the same loop) |
| Grouping.RegroupedGrows | src/se_agent/utils/utils_misc.py:62 | one more path adds it once to the concatenated groups |
| Grouping.RegroupedAppendKey | src/se_agent/utils/utils_misc.py:60 | a new key with an empty group adds nothing |
| Grouping.DictionaryStep | src/se_agent/utils/utils_misc.py:59-62 | one loop step of the dictionary |
| Grouping.GroupStep | src/se_agent/utils/utils_misc.py:59-62 | one more path: its key added if new, the path appended to its group |
| Grouping.KeysStep | src/se_agent/utils/utils_misc.py:59-60 | one more path adds its package to the keys unless present |
| Grouping.MembersStep | src/se_agent/utils/utils_misc.py:62 | one more path joins its own group only |
| CodeFence.ExtractCodeBlockContent | src/se_agent/utils/utils_misc.py:66-83 | the inner text when the whole input is one fenced block, else the input unchanged (the copy at utils.py:77-85 is the same) |
| CodeFence.ParseSound | src/se_agent/utils/utils_misc.py:75 | a match is the rendering of a well-formed block |
| CodeFence.ParseRender | src/se_agent/utils/utils_misc.py:75 | every well-formed block is parsed back as itself |
| CodeFence.ExtractUnwraps | src/se_agent/utils/utils_misc.py:75-83 | extracting from "```\n"+s+"\n```" gives s when s does not end in "\r" |
| CodeFence.WordEnd | src/se_agent/utils/utils_misc.py:75 | the greedy `\w+` stops at the first non-word character |
| CodeFence.FirstClose | src/se_agent/utils/utils_misc.py:75 | the lazy `(.*?)` stops at the first closing fence |
| CodeFence.FirstCloseIsFirst | src/se_agent/utils/utils_misc.py:75 | no closing fence begins before the one found |
| CodeFence.OpeningEnd | src/se_agent/utils/utils_misc.py:75 | the opening line is three ticks, an optional word tag and "\r?\n" |
| CodeFence.FindCuts | src/se_agent/utils/utils_misc.py:75 | the cuts of a whole-input match |
| CodeFence.CarriageReturnCloses | src/se_agent/utils/utils_misc.py:75 | a "\r" before the closing fence belongs to the fence |
| CodeFence.NoEarlierClose | src/se_agent/utils/utils_misc.py:75 | no closing fence starts inside the content of a well-formed block |
| Headings.HeadingLine | src/se_agent/utils/utils_misc.py:97-108 | a heading line gets exactly `increment` more '#' and one space; its text is kept |
| Headings.PlainLine | src/se_agent/utils/utils_misc.py:108 | a line not starting with '#' is kept |
| Headings.NoHeadings | src/se_agent/utils/utils_misc.py:85-108 | text where no line starts with '#' is unchanged |
| Headings.LineByLine | src/se_agent/utils/utils_misc.py:108 | the text is shifted one line at a time, except after a bare '#' line |
| Headings.BareHeadingJoinsNextLine | src/se_agent/utils/utils_misc.py:105 | `\s+` after a bare '#' line eats the newline and takes the next line as heading text |
| Headings.FirstLineOf | src/se_agent/utils/utils_misc.py:108 | a line that is not bare is read alike whatever follows its newline |
| Headings.HashesOf | src/se_agent/utils/utils_misc.py:100 | `'#' * n` is empty for n <= 0 |
| Headings.LineStop | src/se_agent/utils/utils_misc.py:104-106 | where the first match or line ends |
| ChatModel.SplitModelName | src/se_agent/utils/utils_misc.py:29-33 | split at the first '/'; with none, provider "" and the whole name as model (the copy at utils.py:59-63 is the same) |
| ChatModel.SplitModelNameRoundTrip | src/se_agent/utils/utils_misc.py:29-30 | a slash-free provider and any model come back from "provider/model" |
| ChatModel.ContextLimitErrorIffMentioned | src/se_agent/utils/utils_misc.py:110-115 | true iff the lower-cased message contains one of the three phrases |
| ChatModel.ContextLimitErrorIgnoresCase | src/se_agent/utils/utils_misc.py:111 | a message and its lower-cased form are classified alike |
| GitApi.SplitGithubUrl | src/se_agent/utils/utils_git_api.py:7-28 | ValueError iff the stripped, parsed path has fewer than two segments; else ("scheme://netloc", first, second) (the copy at utils.py:11-21 is the same) |
| GitApi.SplitGithubUrlRoundTrip | src/se_agent/utils/utils_git_api.py:19-28 | a repository URL, with optional further segments, splits back into base, owner and repository |
| GitApi.ParseUrlOfParts | src/se_agent/utils/utils_git_api.py:19 | `urlparse` of scheme "://" host path gives the scheme, the host and the path less its `;params` for a scheme that uses them |
| GitApi.SplitUrlOfParts | src/se_agent/utils/utils_git_api.py:19 | `urlsplit` of scheme "://" host path gives those three (RFC 3986 section 3) |
| GitApi.ParseUrlIgnoresLeadingBlanks | src/se_agent/utils/utils_git_api.py:19 | C0 controls and spaces in front of a URL do not change how it is read |
| GitApi.LStripC0 | src/se_agent/utils/utils_git_api.py:19 | what is dropped is a run of C0 controls and spaces; what is kept is a suffix that does not start with one |
| GitApi.RemoveUnsafe | src/se_agent/utils/utils_git_api.py:19 | no tab, CR or LF is left, nothing is added, and text without them is kept |
| GitApi.SplitParams | src/se_agent/utils/utils_git_api.py:19 | a prefix of the path; what is cut starts with ';' and holds no '/'; every ';' kept has a '/' after it |
| GitApi.SplitParamsCutsLastSegment | src/se_agent/utils/utils_git_api.py:19 | `;params` after the last segment are cut, and a path without ';' is kept |
| GitApi.SplitGithubUrlDropsParams | src/se_agent/utils/utils_git_api.py:19-28 | for an http(s)-like scheme, "base/owner/repo;params" still splits into base, owner and repository |
| GitApi.SplitRepoPath | src/se_agent/utils/utils_git_api.py:20 | owner and repository are the first two parts of the stripped path |
| GitApi.CreateAuthHeaders | src/se_agent/utils/utils_git_api.py:30-42 | no header for a missing or empty token, else exactly "Authorization: token t" |
| GitApi.GetGithubApiEndpoint | src/se_agent/utils/utils_git_api.py:44-59 | the public API for github.com, else base + "/api/v3" |
| GitApi.PublicApiIffPublicBase | src/se_agent/utils/utils_git_api.py:53-57 | the public API is chosen iff the base is "https://github.com" |
| GitApi.ApiEndpointInjective | src/se_agent/utils/utils_git_api.py:53-57 | different servers get different endpoints |
| GitApi.Ref | src/se_agent/utils/utils_git_api.py:136 | the commit hash when given, else the branch |
| GitApi.ContentsUrl | src/se_agent/utils/utils_git_api.py:138-141 | the contents URL holds api, owner, repository, path and ref in that layout |
| GitApi.ContentRequest | src/se_agent/utils/utils_git_api.py:131-141 | the request sent, or the ValueError of an invalid URL |
| GitApi.GetFileContentFromGithub | src/se_agent/utils/utils_git_api.py:131-148 | a non-200 answer gives "" rather than an exception; an invalid URL raises |
| OnboardFanOut.AscendingSpec | src/se_agent/onboard_graph.py:311 | iterating a set visits each member once, in increasing order |
| OnboardFanOut.DispatchOrder | src/se_agent/onboard_graph.py:311 | a list is visited in order, a set ascending |
| OnboardFanOut.ContinueToSavePackageSummaries | src/se_agent/onboard_graph.py:296-312 | one work item per impacted id, each with the run's repository id |
| OnboardFanOut.ContinueToSaveFileSummaries | src/se_agent/onboard_graph.py:148-174 | no paths and some impacted packages: straight to package summaries; else one item per path, in order |
| OnboardFanOut.DeletionsOnlyGoToPackages | src/se_agent/onboard_graph.py:164-165 | a deletions-only update dispatches exactly its impacted packages |
| OnboardFanOut.SourceOf | src/se_agent/onboard_graph.py:200-212 | an update reads from GitHub at the commit; an onboarding reads the clone |
| OnboardFanOut.FileTypeSpec | src/se_agent/onboard_graph.py:196 | `split('.')[-1]`: no dot in it; the whole path without a dot, else what follows a dot |
| OnboardFanOut.SummaryOutcome | src/se_agent/onboard_graph.py:214-240 | blank text gives nothing; a reply gives its unwrapped summary; an exception gives an empty summary and one error |
| OnboardFanOut.OneErrorPerFailure | src/se_agent/onboard_graph.py:232-240 | at most one summary, of the item's own path; an error exactly when something raised, and then the summary is empty |
| OnboardFanOut.GenerateFileSummary | src/se_agent/onboard_graph.py:177-240 | the update is the outcome of the text fetched from the source the event chooses and of the model's reply to it; every failure contained |
| OnboardFanOut.RunFileSummaries | src/se_agent/onboard_graph.py:168-174 | run in dispatch order through the reducer: the summaries and errors channels gain exactly the outcomes of the items in order, at most one of each per item; other channels unchanged |
| OnboardFanOut.PackageNameOf | src/se_agent/onboard_graph.py:334 | the first matching row's name, or "" |
| OnboardFanOut.PlainSummaryBlock | src/se_agent/onboard_graph.py:338 | a heading-free summary sits verbatim under "# path" |
| OnboardFanOut.HeadingSummaryBlock | src/se_agent/onboard_graph.py:338 | a summary heading is shifted one level below the file heading |
| OnboardFanOut.TwoFileCorpus | src/se_agent/onboard_graph.py:347 | file blocks are separated by a blank line |
| OnboardFanOut.PackageOutcome | src/se_agent/onboard_graph.py:351-371 | one summary for the package; on an exception an empty one and one error naming the package |
| OnboardFanOut.GeneratePackageSummary | src/se_agent/onboard_graph.py:315-371 | the update is the outcome of the model's reply to the package's name and the corpus of its file rows; failures contained |
| OnboardFanOut.RunPackageSummaries | src/se_agent/onboard_graph.py:306-312 | the channels gain exactly the outcomes of the items in order: one summary per item, at most one error per item beside an empty summary |
| Onboard.DecideOnboardingOrUpdate | src/se_agent/onboard_graph.py:35-55 | "repo-onboard" gives ["get_filepaths"], "repo-update" ["handle_update"], anything else raises (vector_onboard_graph.py:40-47 routes the same way) |
| Onboard.OrphanFreeButTime | src/se_agent/onboard_graph.py:136-137 | bumping times keeps the repository orphan-free |
| Onboard.BumpPackages | src/se_agent/onboard_graph.py:136-137 | each package row of the repository whose id is listed keeps every field but its time, which becomes newer than the old clock; every other row is unchanged |
| Onboard.ReconcileDeletions | src/se_agent/onboard_graph.py:129-137 | the file table is the old one without the deleted paths; the package table is the orphan-pruned one with exactly the impacted rows' times bumped; impacted = owners of deleted paths ∩ packages still owning files; orphan-free; repositories unchanged |
| Onboard.HandleUpdate | src/se_agent/onboard_graph.py:97-145 | unknown repository: `{"filepaths": []}` and no store change; known: the repository row bumped to the new time and every other repository row unchanged, the packages unchanged without deletions and otherwise pruned with the impacted rows bumped, and the modified list passed on |
| OnboardSave.EnsureRepo | src/se_agent/onboard_graph.py:261-271 | found: the repository table is the old one with that row's time bumped; not found: one row (url, source path, branch, now, now) appended under the next id; key uniqueness kept |
| OnboardSave.EnsurePackage | src/se_agent/onboard_graph.py:277-281 | the package row is found or inserted with no summary; key uniqueness kept |
| OnboardSave.PackagesEnsuredStep | src/se_agent/onboard_graph.py:277-281 | a found row leaves the table as it is, and an appended row is fresh, of the repository, without summary and for a key no earlier row holds |
| OnboardSave.PackagesEnsuredFrame | src/se_agent/onboard_graph.py:273-281 | no old package row is lost, and every other row is the repository's row for one of the keys |
| OnboardSave.SaveGroupFiles | src/se_agent/onboard_graph.py:284-286 | each path of the group with a summary has a row holding the summary of its last entry; an existing row keeps its id and package, a new row is appended under the group's package id; rows not written, repositories and packages unchanged |
| OnboardSave.SavePackages | src/se_agent/onboard_graph.py:273-286 | one package row per key, ids in key order; the package table is the old one followed only by fresh rows (repository, key, no summary, new time) for keys that had none; every grouped path with a summary ends with its last summary; new file rows lie under their group's id; file rows not written and repositories unchanged |
| OnboardSave.SaveFileSummaries | src/se_agent/onboard_graph.py:242-293 | the repository table is the old one with the row bumped, or with one row appended when none matched; one package id per group in key order (a package may own no file), the package table the old one followed only by fresh rows for missing keys; every listed path with a summary ends with its last summary, a new row under its top-level package, an existing row keeping its package; other file rows unchanged; `filepaths` and `file_summaries` reset |
| OnboardSave.PathInItsGroup | src/se_agent/onboard_graph.py:273-276 | every input path lies in some key's group |
| OnboardSave.LastFileSummarySpec | src/se_agent/onboard_graph.py:284-286 | a path gets no summary iff no entry names it; otherwise that of its last entry |
| OnboardSave.UpsertStep | src/se_agent/onboard_graph.py:286 | one more upsert extends the saved state by one entry: an existing row rewritten in place, a new row appended |
| OnboardSave.UpsertedTransitive | src/se_agent/onboard_graph.py:277-286 | saving one group after another saves the union of both groups |
| OnboardSave.CoveredSpec | src/se_agent/onboard_graph.py:273-276 | the paths covered by the keys are exactly those of their groups |
| OnboardSave.GroupsCoverPaths | src/se_agent/onboard_graph.py:273-276 | the groups of all keys together hold exactly the input paths |
| OnboardSave.NewRowsUnderTheirPackage | src/se_agent/onboard_graph.py:277-286 | a file row added by the node lies under the package row of its own top-level package |
| OnboardSave.SavePackageSummaries | src/se_agent/onboard_graph.py:374-394 | each package row of the repository named by an entry holds the last such entry's summary and a newer time, the rest of the row unchanged; every other row unchanged; channels reset |
| OnboardSave.LastSummaryAbsent | src/se_agent/onboard_graph.py:388-389 | no summary written exactly when no entry names the id |
| OnboardSave.LastSummaryIsLast | src/se_agent/onboard_graph.py:388-389 | the summary kept is that of the last entry naming the id |
| OnboardSave.Cleanup | src/se_agent/onboard_graph.py:397-413 | the clone is removed iff a directory is set and the url is not file://; `repo_dir` and `event` cleared (vector_onboard_graph.py:242-248 is the same) |
| OnboardSave.CleanupClearsOnlyEventAndDir | src/se_agent/onboard_graph.py:410-413 | afterwards no event and no directory; every other field as before |
| AssistState.InitialAssistState | src/se_agent/state.py:303-331 | an assistance run starts from the conversation and repository with every other field at its default |
| Assist.PackageIndexKeys | src/se_agent/assist_graph.py:66-70 | the index has a key for exactly the names that occur |
| Assist.PackageIndexLastWins | src/se_agent/assist_graph.py:67 | a duplicated name maps to the last row's package |
| Assist.CorpusSummaries | src/se_agent/assist_graph.py:71 | one entry per row, "" for a missing summary |
| Assist.IndexPackages | src/se_agent/assist_graph.py:65-71 | the loop builds the index and the summaries list |
| Assist.LocalizePackages | src/se_agent/assist_graph.py:58-93 | an unknown repository raises; else the index, corpus and ranking with the repository id |
| Assist.SelectedIds | src/se_agent/assist_graph.py:116-119 | ids in suggestion order; the first name missing from the index raises KeyError |
| Assist.PackageEntriesLayout | src/se_agent/assist_graph.py:124-126 | each file gives its raw summary, then "# path\n" and the shifted summary |
| Assist.PackageEntryOfRow | src/se_agent/assist_graph.py:124-126 | each entry comes from one of the package's file rows |
| Assist.PackageEntriesOfRows | src/se_agent/assist_graph.py:123-126 | a package's entries are those of its file rows |
| Assist.SelectedEntriesSpec | src/se_agent/assist_graph.py:122-126 | the corpus holds only files of selected packages, and every such file contributes |
| Assist.CollectFileEntries | src/se_agent/assist_graph.py:122-126 | the nested loop builds the corpus entries |
| Assist.LocalizeFiles | src/se_agent/assist_graph.py:96-144 | package ids resolved in suggestion order (KeyError on the first missing name; a cleared index raises only when some package is suggested, and with none the model gets an empty corpus), the corpus of their files, the model's suggestions or its exception |
| Assist.FetchTasks | src/se_agent/assist_graph.py:147-163 | one fetch per suggested file, in suggestion order (the vector graph's `continue_to_fetch_files`, vector_assist_graph.py:116-132, is the same) |
| Assist.LocalRepoDirOfUrl | src/se_agent/assist_graph.py:180 | without a directory, the url minus "file://" is the directory |
| Assist.RemoveAllAbsent | src/se_agent/assist_graph.py:180 | removing an absent pattern changes nothing |
| Assist.FetchSource | src/se_agent/assist_graph.py:178-189 | file:// repositories read locally, others from GitHub |
| Assist.FetchFileContent | src/se_agent/assist_graph.py:166-195 | one content for the item's path; a failing read propagates |
| Assist.RunFetches | src/se_agent/assist_graph.py:157-163 | `file_contents` gains one entry per task, in order, or the first failure aborts |
| Assist.FirstContentSpec | src/se_agent/assist_graph.py:219-223 | none iff no fetched file has the path; otherwise the first one's |
| Assist.FencedCodeText | src/se_agent/assist_graph.py:224 | the fence layout: ticks, extension, newline, content, newline, ticks |
| Assist.FencedCodeHoldsContent | src/se_agent/assist_graph.py:224 | the fence gives its content back to the extractor |
| Assist.AssistCodeFileListSpec | src/se_agent/assist_graph.py:215-224 | one code file per suggestion, in place, with its first content or "None" |
| Assist.AssistCodeFiles | src/se_agent/assist_graph.py:214-224 | the loop builds exactly that list |
| Assist.SuggestSolution | src/se_agent/assist_graph.py:198-239 | the reply to the conversation and code files is appended; model failures propagate |
| Assist.Cleanup | src/se_agent/assist_graph.py:242-257 | the index cleared and `file_contents` reset |
| VectorAssist.LastUserQuerySpec | src/se_agent/vector_assist_graph.py:58-71 | none iff no message is a user's; else the query of a user message with none after it |
| VectorAssist.ExtractUserQuery | src/se_agent/vector_assist_graph.py:57-74 | the first user message from the end decides; no user message or an empty query raises "No user query found in messages" |
| VectorAssist.UnseenSound | src/se_agent/vector_assist_graph.py:94-98 | added hits come from the second search, have unseen paths, and are distinct |
| VectorAssist.UnseenComplete | src/se_agent/vector_assist_graph.py:94-98 | every path of the second search is seen or added |
| VectorAssist.MergeResults | src/se_agent/vector_assist_graph.py:93-98 | the loop appends exactly the unseen hits |
| VectorAssist.MergedResults | src/se_agent/vector_assist_graph.py:93-98 | originals first and in order; only new-path hits added; all paths covered; no duplicate paths |
| VectorAssist.RankedSuggestionsSpec | src/se_agent/vector_assist_graph.py:101-108 | one suggestion per hit, in order, with its path and score |
| VectorAssist.SuggestionsFor | src/se_agent/vector_assist_graph.py:101-108 | the loop builds exactly those suggestions |
| VectorAssist.FindRelevantFiles | src/se_agent/vector_assist_graph.py:57-113 | the second search runs only below three hits; merged hits become the suggestions |
| VectorAssist.JoinPath | src/se_agent/vector_assist_graph.py:154 | posix join: an absolute part replaces, else one "/" between |
| VectorAssist.VectorFetchFileContent | src/se_agent/vector_assist_graph.py:135-172 | a missing directory or file raises FileNotFoundError with its message; otherwise reads as the classic graph |
| VectorAssist.VectorExtension | src/se_agent/vector_assist_graph.py:195 | "" without a dot, else the text after the last dot |
| VectorAssist.VectorCodeFileListSpec | src/se_agent/vector_assist_graph.py:192-204 | exactly the suggestions with content contribute, in order |
| VectorAssist.VectorCodeFilesMatchAssist | src/se_agent/vector_assist_graph.py:195-204 | with dotted paths and content throughout, the same code files as the classic graph |
| VectorAssist.VectorCodeFiles | src/se_agent/vector_assist_graph.py:191-204 | the loop builds exactly that list |
| VectorAssist.VectorSuggestSolution | src/se_agent/vector_assist_graph.py:175-219 | the reply to the conversation and code files is appended |
| VectorAssist.VectorCleanup | src/se_agent/vector_assist_graph.py:222-235 | `file_contents` reset and suggestions cleared, nothing else |
| VectorOnboard.VectorHandleUpdate | src/se_agent/vector_onboard_graph.py:112-126 | unknown repository: `{"filepaths": []}`; else embeddings deleted iff paths were deleted, id and modified paths passed on |
| VectorOnboard.HandleUpdateQueuesModified | src/se_agent/vector_onboard_graph.py:123-126 | the modified paths are queued after those present, the id recorded, nothing else changed |
| VectorOnboard.ContinueToEmbedFiles | src/se_agent/vector_onboard_graph.py:140-154 | no dispatch iff no paths; else one task carrying them all |
| VectorOnboard.EmbedOne | src/se_agent/vector_onboard_graph.py:198-227 | one result for the path; blank text gives "Empty file content" with no store call; an exception gives its message |
| VectorOnboard.EmbedCallsSpec | src/se_agent/vector_onboard_graph.py:213-222 | the store is called only with non-blank text, under the commit hash, for every such path |
| VectorOnboard.CreateVectorEmbedding | src/se_agent/vector_onboard_graph.py:194-229 | exactly one result per path, in order; a failing path does not stop the others |
| VectorOnboard.EmbedResultsSpec | src/se_agent/vector_onboard_graph.py:213-227 | a result succeeds iff the text was non-blank and the store did not raise |
| ReviewPr.ReviewBlocksSpec | src/se_agent/review_pr_graph.py:26-35 | all reviewed files readable iff blocks result; only reviewed files give blocks, each gives its own |
| ReviewPr.ReviewBlocksErrStays | src/se_agent/review_pr_graph.py:28-33 | the first failing read aborts the loop |
| ReviewPr.CollectReviewBlocks | src/se_agent/review_pr_graph.py:24-35 | the loop builds exactly those blocks |
| ReviewPr.ReviewBlockHoldsContent | src/se_agent/review_pr_graph.py:34-35 | a block gives its content back to the extractor |
| ReviewPr.CodeFilesText | src/se_agent/review_pr_graph.py:37 | the header, then the blocks joined by blank lines |
| ReviewPr.AnswerWithRetry | src/se_agent/review_pr_graph.py:51-66 | a second call iff the first raised a context-limit error, then with empty code; other errors raised |
| ReviewPr.ReviewPullRequest | src/se_agent/review_pr_graph.py:24-69 | a read failure raises before the model; else the answer after the retry is appended |
| Webhook.OnboardEndpoint | src/se_agent/integration/github_webhook.py:35-59 | 400 naming the first missing field; branch defaults to "main"; an onboarding event with empty metadata; 500 on failure |
| Webhook.ShouldProcessEventIffOccurs | src/se_agent/integration/github_webhook.py:121-128 | false for empty text; else true iff "heurisdev" occurs in the lower-cased text |
| Webhook.MentionInTitleOrBody | src/se_agent/integration/github_webhook.py:86-90 | a mention in the title or the body is a mention in the issue text |
| Webhook.ExtractAgentResponse | src/se_agent/integration/github_webhook.py:136-146 | the last message's content iff its type is "ai"; None for an empty list |
| Webhook.OnlyLastMessageCounts | src/se_agent/integration/github_webhook.py:142-145 | an earlier AI message does not count |
| Webhook.GetRepoInfo | src/se_agent/integration/github_webhook.py:101-113 | raises without an `html_url` or when no repository has that url; else its folder and branch |
| Webhook.ApplyAgentAndRespond | src/se_agent/integration/github_webhook.py:148-160 | a comment is posted iff the extracted response is non-empty |
| Webhook.HandleIssueEvent | src/se_agent/integration/github_webhook.py:82-119 | ignored when the agent is not mentioned; a missing token or any failure is a 500 |
| Webhook.WebhookEndpoint | src/se_agent/integration/github_webhook.py:61-80 | no issue: unsupported; action not "opened": ignored naming it; else handled |
| Webhook.CommentOnlyForMentions | src/se_agent/integration/github_webhook.py:71-160 | a comment is posted only for an opened issue of an onboarded repository mentioning the agent, carrying the last AI message |
| Text.ContainsOccurs | src/se_agent/integration/github_webhook.py:128 | the substring test finds exactly the occurrences |
| Text.LowerIdempotent | src/se_agent/utils/utils_misc.py:111 | lower-casing twice is lower-casing once |
| Text.JoinSplit | src/se_agent/utils/utils_git_api.py:20 | joining the split parts gives the text back |
| Text.SplitParts | src/se_agent/utils/utils_git_api.py:20 | no part holds the separator; several parts iff it occurs |
| Text.AfterLastSpec | src/se_agent/assist_graph.py:218 | the text after the last separator is a separator-free suffix |
| Text.RemoveAll | src/se_agent/assist_graph.py:180 | `replace(pat, "")` removes the occurrences left to right |

## Left out

- The language models, prompt templates and structured output are parameters returning a reply or an exception.
- GitHub and the network (`requests`, base64 decoding, the pull request's diff and file list) are parameters; `get_all_files` is not part of this model.
- The file system and git (`utils_git_local.py`: clone, directory walk, file reads, `rmtree`) are parameters. `get_filepaths` of both onboarding graphs is not modelled, and neither is the media-extension filter.
- The vector store (`get_vector_store`, embeddings, similarity search and its scores) is an outside collaborator: searches are parameters, and calls to it are returned as records.
- The LangGraph scheduler, `Send` concurrency and interleavings: each fan-out runs as a sequential loop in dispatch order.
- Flask routing, HTTP plumbing, logging, the LangGraph runtime client and `post_issue_comment` are outside the model; replies are a datatype with their status codes.
- SQLite engine details (connections, commits, row factories) are outside the model. Rows keep insertion order, and a SELECT is read in that order.
- Timestamps are an abstract clock that each reading advances by one, not ISO-8601 text.
- `StoreInterface` has no separate abstract type. Its documented contracts are stated on `Store.KnowledgeStore`.
- Python set iteration order is modelled as ascending ids; CPython's actual order is not.
- Grouping.GroupByTopLevelPackages: `os.path.relpath` is modelled only for paths under the source folder with "/" separators; other paths are kept whole.
- Text.Lower: only ASCII letters are case-folded, and `\w` is ASCII only.
- OnboardFanOut.SourceOf: requires an event, which every work item of a run carries; the default `Event()` of a work item is not modelled.
- Assist.LocalizeFiles: requires the repository key to be the store id, as the classic graph sets it; the vector graph's commit-hash key is not used there.
- VectorAssist.FindRelevantFiles: scores are kept as text; the `:.2f` float formatting is not modelled.
- `add_messages` is modelled as appending; its merge of messages by id is not.
- A message whose `role` attribute is None, and JSON values that are not strings, are not modelled.
- Exception texts produced by Python itself (`str(e)` of a KeyError, of a failed request) are parameters.
- VectorOnboardState and PRState are used by the code but not defined in it. The vector onboarding graph is modelled on the onboarding state; the review graph takes its fields as parameters.
- `review_pr_graph.py` imports `get_pr_diff` and `get_pr_files` from `utils_git_api.py`, which does not define them; the review graph takes the file list as a parameter, and the diff only reaches the prompt, whose model call is a parameter.
- GitApi.SplitGithubUrl: the ValueErrors `urlsplit` raises for a host are not modelled: an unbalanced '[' or ']', a bracketed host that is not an IPv6 or IPvFuture address (CPython 3.12's `_check_bracketed_host`: "https://[abc]/o/r" raises there, while the model splits it), and a host whose NFKC form gains separators. Apart from these host checks, `urlparse` is modelled as in CPython 3.12.
- OnboardFanOut.GeneratePackageSummary: store reads do not raise in the model, so an error always carries the looked-up name; the fallback to "" when the store raises before the lookup is not reached.
- Prompt texts and configuration are not part of this model.
