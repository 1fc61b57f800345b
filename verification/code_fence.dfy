/**
  * `extract_code_block_content`: when the whole input is one fenced code block (three backticks,
  * an optional word tag, a newline, the content, a newline, three backticks, and at most one final
  * newline), the content; otherwise the input unchanged. The newlines may be "\r\n".
  *
  * The pattern is matched from the start of the input with `.` matching newlines, and its lazy
  * content group ends at the first position from which the rest of the input is a closing fence.
  */
module CodeFence {
  import opened Wrappers
  import opened Text

  const Ticks: string := "```"

  /** A fenced block as the pattern sees it: the tag, the content and the shape of its line ends. */
  datatype Fence = Fence(tag: string, crOpen: bool, content: string, crClose: bool, trailingNewline: bool)

  function Newline(cr: bool): string
  {
    if cr then "\r\n" else "\n"
  }

  /** The closing line end, the closing ticks and the optional final newline. */
  function Closing(cr: bool, trailingNewline: bool): string
  {
    match (cr, trailingNewline)
    case (false, false) => "\n```"
    case (false, true) => "\n```\n"
    case (true, false) => "\r\n```"
    case (true, true) => "\r\n```\n"
  }

  /** The text of a fenced block. */
  function Render(f: Fence): string
  {
    Ticks + (f.tag + (Newline(f.crOpen) + (f.content + Closing(f.crClose, f.trailingNewline))))
  }

  /**
    * The blocks the pattern reads back as themselves: a word tag, and no "\r" ending content
    * that a plain "\n" closes (the lazy group would stop before that "\r").
    */
  predicate WellFormed(f: Fence)
  {
    && (forall k :: 0 <= k < |f.tag| ==> IsWordChar(f.tag[k]))
    && (!f.crClose && f.content != [] ==> f.content[|f.content| - 1] != '\r')
  }

  // ---------------------------------------------------------------------------------------------
  // The matcher
  // ---------------------------------------------------------------------------------------------

  /** Where the longest run of word characters from `i` ends (the greedy `\w+`). */
  function WordEnd(s: string, i: nat): (e: nat)
    requires i <= |s|
    ensures i <= e <= |s|
    decreases |s| - i
  {
    if i < |s| && IsWordChar(s[i]) then WordEnd(s, i + 1) else i
  }

  /** The shape of the closing fence that begins at `j` and runs to the end, if one does. */
  function CloseAt(s: string, j: nat): Option<(bool, bool)>
    requires j <= |s|
  {
    var cr := j < |s| && s[j] == '\r';
    var n := if cr then j + 1 else j;
    if n + 4 <= |s| && s[n] == '\n' && s[n + 1] == '`' && s[n + 2] == '`' && s[n + 3] == '`' then
      if n + 4 == |s| then Some((cr, false))
      else if n + 5 == |s| && s[n + 4] == '\n' then Some((cr, true))
      else None
    else None
  }

  /** The first position at or after `start` where a closing fence begins (the lazy `(.*?)`). */
  function FirstClose(s: string, start: nat): (r: Option<nat>)
    ensures r.Some? ==> start <= r.value <= |s| && CloseAt(s, r.value).Some?
    decreases |s| - start
  {
    if start > |s| then None
    else if CloseAt(s, start).Some? then Some(start)
    else FirstClose(s, start + 1)
  }

  /** The opening line, "```" then the greedy word tag then "\r?\n": where the tag ends and the content starts. */
  function OpeningEnd(s: string): (r: Option<(nat, nat)>)
    ensures r.Some? ==> 3 <= r.value.0 < r.value.1 <= |s|
  {
    if !(3 <= |s| && s[0] == '`' && s[1] == '`' && s[2] == '`') then None
    else
      var p := WordEnd(s, 3);
      var crOpen := p < |s| && s[p] == '\r';
      var q := if crOpen then p + 1 else p;
      if q >= |s| || s[q] != '\n' then None
      else Some((p, q + 1))
  }

  /** Where the pattern cuts the input: after the tag, after the opening line end, before the closing fence. */
  datatype Cuts = Cuts(tagEnd: nat, start: nat, close: nat)

  /** The cuts of a whole-input match: the opening line, then the first closing fence. */
  function FindCuts(s: string): (r: Option<Cuts>)
    ensures r.Some? ==> 3 <= r.value.tagEnd <= r.value.start <= r.value.close <= |s|
    ensures r.Some? ==> CloseAt(s, r.value.close).Some?
  {
    match OpeningEnd(s)
    case None => None
    case Some((p, start)) =>
      match FirstClose(s, start)
      case None => None
      case Some(j) => Some(Cuts(p, start, j))
  }

  /** The block the cuts delimit; the opening line end is "\r\n" exactly when it is two characters long. */
  function FenceAt(s: string, c: Cuts): Fence
    requires 3 <= c.tagEnd <= c.start <= c.close <= |s| && CloseAt(s, c.close).Some?
  {
    var kind := CloseAt(s, c.close).value;
    Fence(s[3..c.tagEnd], c.start == c.tagEnd + 2, s[c.start..c.close], kind.0, kind.1)
  }

  /** The match of the pattern against the whole input, as a fence, or None when it does not match. */
  function ParseFence(s: string): Option<Fence>
  {
    match FindCuts(s)
    case None => None
    case Some(c) => Some(FenceAt(s, c))
  }

  /** `extract_code_block_content`. */
  function ExtractCodeBlockContent(s: string): (r: string)
    // a whole-input fence yields its content, read back through the block's own text
    ensures ParseFence(s).Some? ==> s == Render(ParseFence(s).value) && r == ParseFence(s).value.content
    // anything else comes back unchanged
    ensures ParseFence(s).None? ==> r == s
  {
    ParseSound(s);
    match ParseFence(s)
    case Some(f) => f.content
    case None => s
  }

  // ---------------------------------------------------------------------------------------------
  // Facts about the matcher's steps
  // ---------------------------------------------------------------------------------------------

  /** Everything the word run takes is a word character. */
  lemma {:induction false} WordEndIsWords(s: string, i: nat)
    requires i <= |s|
    ensures forall k :: i <= k < WordEnd(s, i) ==> IsWordChar(s[k])
    decreases |s| - i
  {
    if i < |s| && IsWordChar(s[i]) {
      WordEndIsWords(s, i + 1);
    }
  }

  /** A run of word characters followed by a non-word character (or the end) is what the word run takes. */
  lemma {:induction false} WordEndOfWords(s: string, i: nat, e: nat)
    requires i <= e <= |s|
    requires forall k :: i <= k < e ==> IsWordChar(s[k])
    requires e == |s| || !IsWordChar(s[e])
    ensures WordEnd(s, i) == e
    decreases e - i
  {
    if i < e {
      WordEndOfWords(s, i + 1, e);
    }
  }

  /** What is recognised as a closing fence is one. */
  lemma CloseAtIsClosing(s: string, j: nat)
    requires j <= |s|
    ensures CloseAt(s, j).Some? ==> s[j..] == Closing(CloseAt(s, j).value.0, CloseAt(s, j).value.1)
  {
  }

  /** Each closing shape is recognised as itself. */
  lemma CloseAtClosing(s: string, j: nat, cr: bool, nl: bool)
    requires j <= |s| && s[j..] == Closing(cr, nl)
    ensures CloseAt(s, j) == Some((cr, nl))
  {
  }

  /** No closing fence begins before the one found: the content group is as short as it can be. */
  lemma {:induction false} FirstCloseIsFirst(s: string, start: nat)
    ensures FirstClose(s, start).Some? ==> forall k :: start <= k < FirstClose(s, start).value ==> CloseAt(s, k).None?
    ensures FirstClose(s, start).None? ==> forall k :: start <= k <= |s| ==> CloseAt(s, k).None?
    decreases |s| - start
  {
    if start <= |s| && CloseAt(s, start).None? {
      FirstCloseIsFirst(s, start + 1);
    }
  }

  /** The first closing fence is the one with none before it. */
  lemma {:induction false} FirstCloseIs(s: string, start: nat, j: nat)
    requires start <= j <= |s| && CloseAt(s, j).Some?
    requires forall k :: start <= k < j ==> CloseAt(s, k).None?
    ensures FirstClose(s, start) == Some(j)
    decreases j - start
  {
    if start < j {
      FirstCloseIs(s, start + 1, j);
    }
  }

  // ---------------------------------------------------------------------------------------------
  // Soundness: a match is the text of a well-formed block
  // ---------------------------------------------------------------------------------------------

  /** What the cuts of a match guarantee about the pieces between them. */
  lemma CutsSound(s: string)
    requires FindCuts(s).Some?
    ensures var c := FindCuts(s).value;
      && s[..3] == Ticks
      && (forall k :: 3 <= k < c.tagEnd ==> IsWordChar(s[k]))
      && s[c.tagEnd..c.start] == Newline(c.start == c.tagEnd + 2)
      && (forall k :: c.start <= k < c.close ==> CloseAt(s, k).None?)
  {
    var c := FindCuts(s).value;
    WordEndIsWords(s, 3);
    FirstCloseIsFirst(s, c.start);
    OpeningLineEnd(s, c.tagEnd, c.start == c.tagEnd + 2);
  }

  /** The line end that opens the content, as the parser reads it at `p`. */
  lemma OpeningLineEnd(s: string, p: nat, cr: bool)
    requires p + |Newline(cr)| <= |s|
    requires cr ==> s[p] == '\r' && s[p + 1] == '\n'
    requires !cr ==> s[p] == '\n'
    ensures s[p..p + |Newline(cr)|] == Newline(cr)
  {
  }

  /** A text cut into the five pieces of a block is that block's text. */
  lemma Assemble(s: string, f: Fence, p: nat, start: nat, j: nat)
    requires 3 <= p <= start <= j <= |s|
    requires s[..3] == Ticks && s[3..p] == f.tag && s[p..start] == Newline(f.crOpen)
    requires s[start..j] == f.content && s[j..] == Closing(f.crClose, f.trailingNewline)
    ensures Render(f) == s
  {
    assert s[start..] == s[start..j] + s[j..];
    assert s[p..] == s[p..start] + s[start..];
    assert s[3..] == s[3..p] + s[p..];
    assert s == s[..3] + s[3..];
  }

  /** A "\r" just before a bare closing fence makes a closing fence one position earlier. */
  lemma CarriageReturnCloses(s: string, j: nat, nl: bool)
    requires 0 < j <= |s| && s[j..] == Closing(false, nl) && s[j - 1] == '\r'
    ensures CloseAt(s, j - 1).Some?
  {
    assert s[j - 1..] == [s[j - 1]] + s[j..];
    CloseAtClosing(s, j - 1, true, nl);
  }

  /** Pieces with those guarantees make up the input. */
  lemma FenceAtRenders(s: string, c: Cuts)
    requires 3 <= c.tagEnd <= c.start <= c.close <= |s| && CloseAt(s, c.close).Some?
    requires s[..3] == Ticks
    requires s[c.tagEnd..c.start] == Newline(c.start == c.tagEnd + 2)
    ensures Render(FenceAt(s, c)) == s
  {
    CloseAtIsClosing(s, c.close);
    Assemble(s, FenceAt(s, c), c.tagEnd, c.start, c.close);
  }

  /** Pieces with those guarantees make a well-formed block. */
  lemma FenceAtWellFormed(s: string, c: Cuts)
    requires 3 <= c.tagEnd <= c.start <= c.close <= |s| && CloseAt(s, c.close).Some?
    requires forall k :: 3 <= k < c.tagEnd ==> IsWordChar(s[k])
    requires forall k :: c.start <= k < c.close ==> CloseAt(s, k).None?
    ensures WellFormed(FenceAt(s, c))
  {
    var f := FenceAt(s, c);
    assert forall k :: 0 <= k < |f.tag| ==> f.tag[k] == s[3 + k];
    if !f.crClose && f.content != [] && f.content[|f.content| - 1] == '\r' {
      CloseAtIsClosing(s, c.close);
      CarriageReturnCloses(s, c.close, f.trailingNewline);
    }
  }

  /** A successful match is the text of a well-formed block. */
  lemma ParseSound(s: string)
    ensures ParseFence(s).Some? ==> Render(ParseFence(s).value) == s && WellFormed(ParseFence(s).value)
  {
    if FindCuts(s).Some? {
      CutsSound(s);
      FenceAtRenders(s, FindCuts(s).value);
      FenceAtWellFormed(s, FindCuts(s).value);
    }
  }

  // ---------------------------------------------------------------------------------------------
  // Completeness: a well-formed block is read back as itself
  // ---------------------------------------------------------------------------------------------

  /** `s` is made of the pieces of `f`, in order. */
  ghost predicate HasPieces(s: string, f: Fence)
  {
    var p := 3 + |f.tag|;
    var start := p + |Newline(f.crOpen)|;
    var j := start + |f.content|;
    && |s| == j + |Closing(f.crClose, f.trailingNewline)|
    && s[..3] == Ticks && s[3..p] == f.tag && s[p..start] == Newline(f.crOpen)
    && s[start..j] == f.content && s[j..] == Closing(f.crClose, f.trailingNewline)
  }

  /** Cutting a text in two at `j`. */
  lemma Pieces(s: string, i: nat, j: nat)
    requires i <= j <= |s|
    ensures s[i..] == s[i..j] + s[j..]
  {
  }

  /** A block's text is made of its pieces. */
  lemma RenderPieces(f: Fence)
    ensures HasPieces(Render(f), f)
  {
    var s := Render(f);
    var p := 3 + |f.tag|;
    var start := p + |Newline(f.crOpen)|;
    var c := Closing(f.crClose, f.trailingNewline);
    assert s[3..] == f.tag + (Newline(f.crOpen) + (f.content + c));
    assert s[p..] == Newline(f.crOpen) + (f.content + c);
    assert s[start..] == f.content + c;
  }

  /**
    * No closing fence begins inside the content of a well-formed block: a longer closing shape
    * would end in "\n" where the block ends in a tick, or would need the "\r" that a well-formed
    * block does not leave before a bare "\n".
    */
  lemma NoEarlierClose(content: string, cr: bool, nl: bool, k: nat)
    requires !cr && content != [] ==> content[|content| - 1] != '\r'
    requires k < |content|
    ensures CloseAt(content + Closing(cr, nl), k).None?
  {
    var c := Closing(cr, nl);
    var s := content + c;
    var t := s[k..];
    assert t == content[k..] + c by {
      assert |t| == |content[k..] + c|;
      forall i | 0 <= i < |t| ensures t[i] == (content[k..] + c)[i] {
      }
    }
    assert t[|t| - 1] == c[|c| - 1];
    if |t| == |c| + 1 {
      assert t[1..] == c;
      assert t[0] == content[|content| - 1];
    }
  }

  /** In a text made of a well-formed block's pieces, no closing fence starts inside the content. */
  lemma ContentHasNoClose(s: string, start: nat, content: string, cr: bool, nl: bool)
    requires start + |content| <= |s|
    requires s[start..start + |content|] == content && s[start + |content|..] == Closing(cr, nl)
    requires !cr && content != [] ==> content[|content| - 1] != '\r'
    ensures forall k :: start <= k < start + |content| ==> CloseAt(s, k).None?
  {
    var c := Closing(cr, nl);
    assert s[start..] == content + c by {
      Pieces(s, start, start + |content|);
    }
    forall k | start <= k < start + |content|
      ensures CloseAt(s, k).None?
    {
      NoEarlierClose(content, cr, nl, k - start);
      assert s[k..] == (content + c)[k - start..];
    }
  }

  /** What the parser reads in a text made of a well-formed block's pieces. */
  lemma ReadsOfPieces(s: string, f: Fence)
    requires HasPieces(s, f) && WellFormed(f)
    ensures var p := 3 + |f.tag|;
      && s[0] == '`' && s[1] == '`' && s[2] == '`'
      && p + |Newline(f.crOpen)| <= |s|
      && (forall k :: 3 <= k < p ==> IsWordChar(s[k]))
      && (s[p] == '\r') == f.crOpen
      && s[p + |Newline(f.crOpen)| - 1] == '\n'
  {
    var p := 3 + |f.tag|;
    assert s[..3][0] == '`' && s[..3][1] == '`' && s[..3][2] == '`';
    var start := p + |Newline(f.crOpen)|;
    assert forall k :: 3 <= k < p ==> s[k] == s[3..p][k - 3];
    assert s[p..start][0] == s[p];
    assert s[p..start][|Newline(f.crOpen)| - 1] == s[start - 1];
  }

  /** The opening line the parser reads, given the characters it looks at. */
  lemma OpeningEndFrom(s: string, p: nat, crOpen: bool)
    requires 3 <= |s| && s[0] == '`' && s[1] == '`' && s[2] == '`'
    requires 3 <= p <= |s| && WordEnd(s, 3) == p
    requires (p < |s| && s[p] == '\r') == crOpen
    requires var q := if crOpen then p + 1 else p; q < |s| && s[q] == '\n'
    ensures OpeningEnd(s) == Some((p, if crOpen then p + 2 else p + 1))
  {
  }

  /** In such a text the opening line ends where the block's does. */
  lemma OpeningOfPieces(s: string, f: Fence)
    requires HasPieces(s, f) && WellFormed(f)
    ensures var p := 3 + |f.tag|; OpeningEnd(s) == Some((p, p + |Newline(f.crOpen)|))
  {
    var p := 3 + |f.tag|;
    ReadsOfPieces(s, f);
    WordEndOfWords(s, 3, p);
    OpeningEndFrom(s, p, f.crOpen);
  }

  /** In such a text the lazy search stops at the closing fence after the content. */
  lemma FirstCloseOfPieces(s: string, start: nat, content: string, cr: bool, nl: bool)
    requires start + |content| <= |s|
    requires s[start..start + |content|] == content && s[start + |content|..] == Closing(cr, nl)
    requires !cr && content != [] ==> content[|content| - 1] != '\r'
    ensures FirstClose(s, start) == Some(start + |content|)
  {
    var j := start + |content|;
    ContentHasNoClose(s, start, content, cr, nl);
    CloseAtClosing(s, j, cr, nl);
    FirstCloseIs(s, start, j);
  }

  /** Cutting such a text at the block's boundaries gives the block back. */
  lemma FenceAtOfPieces(s: string, f: Fence)
    requires var p := 3 + |f.tag|; var start := p + |Newline(f.crOpen)|; var j := start + |f.content|;
      && j <= |s| && s[3..p] == f.tag && s[start..j] == f.content && s[j..] == Closing(f.crClose, f.trailingNewline)
    ensures var p := 3 + |f.tag|; var start := p + |Newline(f.crOpen)|; var c := Cuts(p, start, start + |f.content|);
      && c.close <= |s| && CloseAt(s, c.close).Some? && FenceAt(s, c) == f
  {
    var j := 3 + |f.tag| + |Newline(f.crOpen)| + |f.content|;
    CloseAtClosing(s, j, f.crClose, f.trailingNewline);
  }

  /** The parser's cuts, given its opening line and the closing fence it finds after it. */
  lemma FindCutsOfParts(s: string, p: nat, start: nat, j: nat)
    requires OpeningEnd(s) == Some((p, start)) && FirstClose(s, start) == Some(j)
    ensures FindCuts(s) == Some(Cuts(p, start, j))
  {
  }

  /** The cuts the parser finds in a text made of a well-formed block's pieces. */
  lemma FindCutsOfPieces(s: string, f: Fence)
    requires HasPieces(s, f) && WellFormed(f)
    ensures var p := 3 + |f.tag|; var start := p + |Newline(f.crOpen)|;
      FindCuts(s) == Some(Cuts(p, start, start + |f.content|))
  {
    var p := 3 + |f.tag|;
    var start := p + |Newline(f.crOpen)|;
    OpeningOfPieces(s, f);
    FirstCloseOfPieces(s, start, f.content, f.crClose, f.trailingNewline);
    FindCutsOfParts(s, p, start, start + |f.content|);
  }

  /** A text made of a well-formed block's pieces is read back as that block. */
  lemma ParsePieces(s: string, f: Fence)
    requires HasPieces(s, f) && WellFormed(f)
    ensures ParseFence(s) == Some(f)
  {
    FindCutsOfPieces(s, f);
    FenceAtOfPieces(s, f);
  }

  /** Every well-formed block is read back as itself. */
  lemma ParseRender(f: Fence)
    requires WellFormed(f)
    ensures ParseFence(Render(f)) == Some(f)
  {
    RenderPieces(f);
    ParsePieces(Render(f), f);
  }

  /** Extraction undoes wrapping in a bare fence, for content that does not end in "\r". */
  lemma ExtractUnwraps(content: string)
    requires content == [] || content[|content| - 1] != '\r'
    ensures ExtractCodeBlockContent("```\n" + content + "\n```") == content
  {
    var f := Fence("", false, content, false, false);
    assert Render(f) == "```\n" + content + "\n```";
    ParseRender(f);
  }
}
