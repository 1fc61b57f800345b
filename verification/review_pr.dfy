/**
  * The pull-request review graph: the added, modified or renamed files of the pull request under
  * the source folder are read at the pull request's head and fenced; the model reviews them, and a
  * context-limit error makes it retry once without the code. GitHub reads and the model are
  * parameters.
  */
module ReviewPr {
  import opened Wrappers
  import opened Text
  import opened ChatModel
  import opened CodeFence
  import opened AssistState
  import opened OnboardFanOut
  import opened Assist

  /** One entry of the pull request's file list. */
  datatype PrFile = PrFile(filename: string, status: string)

  /** A file is reviewed when it was added, modified or renamed and its name starts with the source folder. */
  predicate Reviewed(f: PrFile, srcFolder: string)
  {
    (f.status == "added" || f.status == "modified" || f.status == "renamed") && IsPrefix(srcFolder, f.filename)
  }

  /** The ref a reviewed file is read at: the pull request's head. */
  function HeadRef(prNumber: nat): string
  {
    "refs/pull/" + NatToString(prNumber) + "/head"
  }

  /** The read of one reviewed file: the GitHub contents API at the head ref, with no commit hash. */
  function ReviewSource(repoUrl: string, prNumber: nat, f: PrFile): ContentSource
  {
    GithubSource(repoUrl, f.filename, HeadRef(prNumber), None)
  }

  /** The block of one file: its content fenced with the text after the name's last '.' as the tag. */
  function ReviewBlock(filename: string, content: string): string
  {
    FencedCode(FileType(filename), content)
  }

  /**
    * The blocks of the reviewed files in list order, or the first failing read's error (reads
    * happen in list order, so an earlier failure wins).
    */
  function ReviewBlocks(files: seq<PrFile>, srcFolder: string, repoUrl: string, prNumber: nat,
                        read: ContentSource -> Result<string, string>): Result<seq<string>, string>
    decreases |files|
  {
    if files == [] then Ok([])
    else
      var last := files[|files| - 1];
      match ReviewBlocks(files[..|files| - 1], srcFolder, repoUrl, prNumber, read)
      case Err(e) => Err(e)
      case Ok(blocks) =>
        if !Reviewed(last, srcFolder) then Ok(blocks)
        else
          match read(ReviewSource(repoUrl, prNumber, last))
          case Err(e) => Err(e)
          case Ok(content) => Ok(blocks + [ReviewBlock(last.filename, content)])
  }

  /** A reviewed file whose read succeeds. */
  predicate ReadOk(f: PrFile, srcFolder: string, repoUrl: string, prNumber: nat, read: ContentSource -> Result<string, string>)
  {
    Reviewed(f, srcFolder) && read(ReviewSource(repoUrl, prNumber, f)).Ok?
  }

  /**
    * The blocks are there exactly when every reviewed file could be read; then each block is that
    * of a reviewed file, every reviewed file has its block, and files not reviewed give none.
    */
  lemma {:induction false} ReviewBlocksSpec(files: seq<PrFile>, srcFolder: string, repoUrl: string, prNumber: nat,
                                            read: ContentSource -> Result<string, string>)
    ensures var r := ReviewBlocks(files, srcFolder, repoUrl, prNumber, read);
      r.Ok? <==> forall k :: 0 <= k < |files| && Reviewed(files[k], srcFolder) ==> ReadOk(files[k], srcFolder, repoUrl, prNumber, read)
    ensures var r := ReviewBlocks(files, srcFolder, repoUrl, prNumber, read);
      r.Ok? ==> |r.value| <= |files|
    ensures var r := ReviewBlocks(files, srcFolder, repoUrl, prNumber, read);
      r.Ok? ==> forall b :: b in r.value ==> exists k ::
        0 <= k < |files| && ReadOk(files[k], srcFolder, repoUrl, prNumber, read) &&
        b == ReviewBlock(files[k].filename, read(ReviewSource(repoUrl, prNumber, files[k])).value)
    ensures var r := ReviewBlocks(files, srcFolder, repoUrl, prNumber, read);
      r.Ok? ==> forall k :: 0 <= k < |files| && Reviewed(files[k], srcFolder) ==>
        ReviewBlock(files[k].filename, read(ReviewSource(repoUrl, prNumber, files[k])).value) in r.value
    decreases |files|
  {
    if files != [] {
      var init := files[..|files| - 1];
      ReviewBlocksSpec(init, srcFolder, repoUrl, prNumber, read);
      assert forall k :: 0 <= k < |init| ==> init[k] == files[k];
    }
  }

  /** The file loop of `review_pull_request`; a failing read raises out of it. */
  method CollectReviewBlocks(files: seq<PrFile>, srcFolder: string, repoUrl: string, prNumber: nat,
                             read: ContentSource -> Result<string, string>) returns (r: Result<seq<string>, string>)
    ensures r == ReviewBlocks(files, srcFolder, repoUrl, prNumber, read)
  {
    var blocks: seq<string> := [];
    for i := 0 to |files|
      invariant ReviewBlocks(files[..i], srcFolder, repoUrl, prNumber, read) == Ok(blocks)
    {
      assert files[..i + 1][..i] == files[..i];
      if Reviewed(files[i], srcFolder) {
        var content := read(GithubSource(repoUrl, files[i].filename, HeadRef(prNumber), None));
        if content.Err? {
          ReviewBlocksErrStays(files, i + 1, srcFolder, repoUrl, prNumber, read);
          return Err(content.error);
        }
        blocks := blocks + [FencedCode(FileType(files[i].filename), content.value)];
      }
    }
    assert files[..|files|] == files;
    r := Ok(blocks);
  }

  /** Once a prefix of the list fails, the whole list fails with the same error. */
  lemma {:induction false} ReviewBlocksErrStays(files: seq<PrFile>, n: nat, srcFolder: string, repoUrl: string, prNumber: nat,
                                                read: ContentSource -> Result<string, string>)
    requires n <= |files| && ReviewBlocks(files[..n], srcFolder, repoUrl, prNumber, read).Err?
    ensures ReviewBlocks(files, srcFolder, repoUrl, prNumber, read) == ReviewBlocks(files[..n], srcFolder, repoUrl, prNumber, read)
    decreases |files| - n
  {
    if n < |files| {
      var m := |files| - 1;
      assert files[..m][..n] == files[..n];
      ReviewBlocksErrStays(files[..m], n, srcFolder, repoUrl, prNumber, read);
    } else {
      assert files[..n] == files;
    }
  }

  /** The text before the blocks in the code-files prompt variable. */
  const CodeFilesHeader: string := "\n\n## Code for relevant files\n\n"

  /** The code-files text: the header, then the blocks separated by blank lines. */
  function CodeFilesText(blocks: seq<string>): (t: string)
    ensures IsPrefix(CodeFilesHeader, t) && t[|CodeFilesHeader|..] == Join("\n\n", blocks)
  {
    CodeFilesHeader + Join("\n\n", blocks)
  }

  /**
    * The model call with its one retry: the review with the code first; on a context-limit error
    * the review again with empty code, whose outcome stands; any other error is raised. The
    * second result is the code-files text of each call made.
    */
  function AnswerWithRetry(codeFiles: string, respond: string -> Result<Message, string>): (r: (Result<Message, string>, seq<string>))
    ensures 1 <= |r.1| <= 2 && r.1[0] == codeFiles
    ensures |r.1| == 2 <==> respond(codeFiles).Err? && IsContextLimitError(respond(codeFiles).error)
    ensures |r.1| == 2 ==> r.1[1] == "" && r.0 == respond("")
    ensures |r.1| == 1 ==> r.0 == respond(codeFiles)
  {
    match respond(codeFiles)
    case Ok(m) => (Ok(m), [codeFiles])
    case Err(e) =>
      if IsContextLimitError(e) then (respond(""), [codeFiles, ""])
      else (Err(e), [codeFiles])
  }

  /**
    * `review_pull_request`: collect the blocks, then ask the model with the retry; the reply is the
    * message appended. A failing read raises before the model is asked.
    */
  method ReviewPullRequest(files: seq<PrFile>, srcFolder: string, repoUrl: string, prNumber: nat,
                           read: ContentSource -> Result<string, string>, respond: string -> Result<Message, string>)
    returns (r: Result<seq<Message>, string>, prompts: seq<string>)
    ensures ReviewBlocks(files, srcFolder, repoUrl, prNumber, read).Err? ==>
      r == Err(ReviewBlocks(files, srcFolder, repoUrl, prNumber, read).error) && prompts == []
    ensures ReviewBlocks(files, srcFolder, repoUrl, prNumber, read).Ok? ==>
      var answer := AnswerWithRetry(CodeFilesText(ReviewBlocks(files, srcFolder, repoUrl, prNumber, read).value), respond);
      && prompts == answer.1
      && (answer.0.Ok? ==> r == Ok([answer.0.value]))
      && (answer.0.Err? ==> r == Err(answer.0.error))
  {
    var blocks := CollectReviewBlocks(files, srcFolder, repoUrl, prNumber, read);
    if blocks.Err? {
      return Err(blocks.error), [];
    }
    var answer := AnswerWithRetry(CodeFilesHeader + Join("\n\n", blocks.value), respond);
    prompts := answer.1;
    if answer.0.Err? {
      return Err(answer.0.error), prompts;
    }
    r := Ok([answer.0.value]);
  }

  /** A block gives back the file's content to the fence parser when the tag is a word and the content does not end in "\r". */
  lemma ReviewBlockHoldsContent(filename: string, content: string)
    requires forall k :: 0 <= k < |FileType(filename)| ==> IsWordChar(FileType(filename)[k])
    requires content == [] || content[|content| - 1] != '\r'
    ensures ReviewBlock(filename, content) == "```" + FileType(filename) + "\n" + content + "\n```"
    ensures ExtractCodeBlockContent(ReviewBlock(filename, content)) == content
  {
    FencedCodeText(FileType(filename), content);
    FencedCodeHoldsContent(FileType(filename), content);
  }
}
