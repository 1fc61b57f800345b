/**
  * `shift_markdown_headings`: every line that starts with one or more '#' followed by whitespace
  * becomes `increment` more '#', one space and the rest of its text.
  *
  * The pattern is `^(#+)\s+(.*)$` with `^` and `$` at line boundaries. Its whitespace run is
  * greedy and `\s` includes the newline, so after a line made only of '#' and whitespace the run
  * goes on into the following lines, and their first text becomes the heading text.
  */
module Headings {
  import opened Text

  /** Where the run of '#' from `i` ends (the greedy `#+`). */
  function HashEnd(s: string, i: nat): (e: nat)
    requires i <= |s|
    ensures i <= e <= |s| && (e < |s| ==> s[e] != '#')
    decreases |s| - i
  {
    if i < |s| && s[i] == '#' then HashEnd(s, i + 1) else i
  }

  /** Where the run of whitespace from `i` ends (the greedy `\s+`). */
  function SpaceEnd(s: string, i: nat): (e: nat)
    requires i <= |s|
    ensures i <= e <= |s| && (e < |s| ==> !IsSpace(s[e]))
    decreases |s| - i
  {
    if i < |s| && IsSpace(s[i]) then SpaceEnd(s, i + 1) else i
  }

  /** Where the line containing `i` ends (the greedy `.*`, which stops at a newline). */
  function LineEnd(s: string, i: nat): (e: nat)
    requires i <= |s|
    ensures i <= e <= |s| && (e < |s| ==> s[e] == '\n')
    decreases |s| - i
  {
    if i < |s| && s[i] != '\n' then LineEnd(s, i + 1) else i
  }

  /** `'#' * n`. */
  function Hashes(n: nat): (r: string)
    ensures |r| == n && forall k :: 0 <= k < n ==> r[k] == '#'
  {
    if n == 0 then [] else "#" + Hashes(n - 1)
  }

  /** `'#' * n` for any integer: Python repeats a string a negative number of times as "". */
  function HashesOf(n: int): (r: string)
    ensures |r| == if n <= 0 then 0 else n
  {
    if n <= 0 then "" else Hashes(n)
  }

  /** The line starting `s` matches the pattern: one or more '#' and then a whitespace character. */
  predicate IsHeading(s: string)
  {
    var h := HashEnd(s, 0);
    0 < h < |s| && IsSpace(s[h])
  }

  /**
    * Where the first match or line of `s` ends: for a heading, the end of the line on which the
    * whitespace run after the '#' stops; otherwise the end of the first line.
    */
  function LineStop(s: string): (e: nat)
    ensures e <= |s|
  {
    if IsHeading(s) then
      var h := HashEnd(s, 0);
      LineEnd(s, SpaceEnd(s, h))
    else LineEnd(s, 0)
  }

  /** How the pattern reads the first line of a text: a heading with its '#' count and text, or a plain line. */
  datatype Piece = Heading(hashes: nat, text: string) | Plain(line: string)

  /** The first match or line of `s`, up to `LineStop(s)`. */
  function FirstPiece(s: string): Piece
  {
    if IsHeading(s) then
      var h := HashEnd(s, 0);
      Heading(h, s[SpaceEnd(s, h)..LineStop(s)])
    else Plain(s[..LineStop(s)])
  }

  /** The replacer's text for a heading (`increment` more '#', one space, the text); a plain line is kept. */
  function Emit(p: Piece, increment: int): string
  {
    match p
    case Heading(n, t) => HashesOf(n + increment) + " " + t
    case Plain(t) => t
  }

  /**
    * `re.sub` of the pattern over `s`, which starts a line: the first match or line is replaced,
    * and the search goes on after the newline that ends it.
    */
  function Shift(s: string, increment: int): string
    decreases |s|
  {
    if s == [] then []
    else
      var e := LineStop(s);
      Emit(FirstPiece(s), increment) + (if e < |s| then "\n" + Shift(s[e + 1..], increment) else [])
  }

  /** One or more '#' and nothing but whitespace after them: a line whose match runs into the next line. */
  predicate BareHeading(line: string)
  {
    var h := HashEnd(line, 0);
    0 < h && IsBlank(line[h..])
  }

  // ---------------------------------------------------------------------------------------------
  // Facts about runs
  // ---------------------------------------------------------------------------------------------

  lemma {:induction false} HashEndAll(s: string, i: nat)
    requires i <= |s|
    ensures forall k :: i <= k < HashEnd(s, i) ==> s[k] == '#'
    decreases |s| - i
  {
    if i < |s| && s[i] == '#' {
      HashEndAll(s, i + 1);
    }
  }

  lemma {:induction false} HashEndIs(s: string, i: nat, j: nat)
    requires i <= j <= |s| && (j < |s| ==> s[j] != '#')
    requires forall k :: i <= k < j ==> s[k] == '#'
    ensures HashEnd(s, i) == j
    decreases j - i
  {
    if i < j {
      HashEndIs(s, i + 1, j);
    }
  }

  lemma {:induction false} SpaceEndAll(s: string, i: nat)
    requires i <= |s|
    ensures forall k :: i <= k < SpaceEnd(s, i) ==> IsSpace(s[k])
    decreases |s| - i
  {
    if i < |s| && IsSpace(s[i]) {
      SpaceEndAll(s, i + 1);
    }
  }

  lemma {:induction false} SpaceEndIs(s: string, i: nat, j: nat)
    requires i <= j <= |s| && (j < |s| ==> !IsSpace(s[j]))
    requires forall k :: i <= k < j ==> IsSpace(s[k])
    ensures SpaceEnd(s, i) == j
    decreases j - i
  {
    if i < j {
      SpaceEndIs(s, i + 1, j);
    }
  }

  lemma {:induction false} LineEndAll(s: string, i: nat)
    requires i <= |s|
    ensures forall k :: i <= k < LineEnd(s, i) ==> s[k] != '\n'
    decreases |s| - i
  {
    if i < |s| && s[i] != '\n' {
      LineEndAll(s, i + 1);
    }
  }

  lemma {:induction false} LineEndIs(s: string, i: nat, j: nat)
    requires i <= j <= |s| && (j < |s| ==> s[j] == '\n')
    requires forall k :: i <= k < j ==> s[k] != '\n'
    ensures LineEnd(s, i) == j
    decreases j - i
  {
    if i < j {
      LineEndIs(s, i + 1, j);
    }
  }

  /** A '#' run that stops inside `a`, or at its end before a character other than '#', is the same in `a + r`. */
  lemma {:induction false} HashEndPrefix(a: string, r: string, i: nat)
    requires i <= |a| && (HashEnd(a, i) < |a| || r == [] || r[0] != '#')
    ensures HashEnd(a + r, i) == HashEnd(a, i)
    decreases |a| - i
  {
    if i < |a| {
      assert (a + r)[i] == a[i];
      if a[i] == '#' {
        HashEndPrefix(a, r, i + 1);
      }
    } else if r != [] {
      assert (a + r)[i] == r[0];
    }
  }

  /** A whitespace run that stops inside `a` is the same in `a + r`. */
  lemma {:induction false} SpaceEndPrefix(a: string, r: string, i: nat)
    requires i <= |a| && SpaceEnd(a, i) < |a|
    ensures SpaceEnd(a + r, i) == SpaceEnd(a, i)
    decreases |a| - i
  {
    assert (a + r)[i] == a[i];
    if IsSpace(a[i]) {
      SpaceEndPrefix(a, r, i + 1);
    }
  }

  /** A line of `a` that ends inside `a`, or at its end before a newline, ends at the same place in `a + r`. */
  lemma {:induction false} LineEndPrefix(a: string, r: string, i: nat)
    requires i <= |a| && (LineEnd(a, i) < |a| || (r != [] && r[0] == '\n'))
    ensures LineEnd(a + r, i) == LineEnd(a, i)
    decreases |a| - i
  {
    if i < |a| {
      assert (a + r)[i] == a[i];
      if a[i] != '\n' {
        LineEndPrefix(a, r, i + 1);
      }
    } else {
      assert (a + r)[i] == r[0];
    }
  }

  // ---------------------------------------------------------------------------------------------
  // Properties
  // ---------------------------------------------------------------------------------------------

  /**
    * A heading line (one or more '#', whitespace, then text that holds no newline and does not
    * start with whitespace) gets `increment` more '#' and exactly one space; the text is kept.
    */
  lemma HeadingLine(n: nat, ws: string, t: string, increment: int)
    requires n > 0 && ws != [] && IsBlank(ws)
    requires '\n' !in t && (t == [] || !IsSpace(t[0]))
    ensures Shift(Hashes(n) + ws + t, increment) == HashesOf(n + increment) + " " + t
  {
    var s := Hashes(n) + ws + t;
    var w := n + |ws|;
    assert s[n] == ws[0];
    HashEndIs(s, 0, n);
    forall k | n <= k < w
      ensures IsSpace(s[k])
    {
      assert s[k] == ws[k - n];
    }
    assert w < |s| ==> s[w] == t[0];
    SpaceEndIs(s, n, w);
    forall k | w <= k < |s|
      ensures s[k] != '\n'
    {
      assert s[k] == t[k - w];
    }
    LineEndIs(s, w, |s|);
    assert IsHeading(s) && LineStop(s) == |s|;
    assert s[w..] == t;
  }

  /** A line that does not start with '#' is kept as it is. */
  lemma PlainLine(line: string, increment: int)
    requires '\n' !in line && (line == [] || line[0] != '#')
    ensures Shift(line, increment) == line
  {
    if line != [] {
      LineEndIs(line, 0, |line|);
      assert LineStop(line) == |line|;
    }
  }

  /** In a line that is not bare, the whitespace after the '#' run stops before the line's end. */
  lemma NotBareStopsInside(a: string, h: nat)
    requires h == HashEnd(a, 0) && 0 < h < |a| && !BareHeading(a)
    ensures SpaceEnd(a, h) < |a|
  {
    SpaceEndAll(a, h);
  }

  /** The heading case of `FirstLineOf`: the '#' run, the whitespace run and the line end are those of `a`. */
  lemma FirstHeadingLineOf(a: string, r: string, increment: int, h: nat)
    requires '\n' !in a && !BareHeading(a) && r != [] && r[0] == '\n'
    requires h == HashEnd(a, 0) && 0 < h < |a| && IsSpace(a[h])
    ensures LineStop(a + r) == LineStop(a) == |a|
    ensures FirstPiece(a + r) == FirstPiece(a)
  {
    var s := a + r;
    HashEndPrefix(a, r, 0);
    assert s[h] == a[h];
    NotBareStopsInside(a, h);
    var w := SpaceEnd(a, h);
    SpaceEndPrefix(a, r, h);
    LineEndIs(a, w, |a|);
    LineEndPrefix(a, r, w);
    assert s[w..|a|] == a[w..|a|];
  }

  /** The plain-line case of `FirstLineOf`: the first line is `a` in both texts. */
  lemma FirstPlainLineOf(a: string, r: string, increment: int)
    requires '\n' !in a && !BareHeading(a) && !IsHeading(a) && r != [] && r[0] == '\n'
    ensures LineStop(a + r) == LineStop(a) == |a|
    ensures FirstPiece(a + r) == FirstPiece(a)
  {
    var s := a + r;
    HashEndPrefix(a, r, 0);
    LineEndIs(a, 0, |a|);
    LineEndPrefix(a, r, 0);
    assert s[..|a|] == a[..|a|];
  }

  /** A line that is not bare is read the same way when a newline and more text follow it. */
  lemma FirstLineOf(a: string, r: string, increment: int)
    requires '\n' !in a && !BareHeading(a) && r != [] && r[0] == '\n'
    ensures LineStop(a + r) == LineStop(a) == |a|
    ensures FirstPiece(a + r) == FirstPiece(a)
  {
    if IsHeading(a) {
      FirstHeadingLineOf(a, r, increment, HashEnd(a, 0));
    } else {
      FirstPlainLineOf(a, r, increment);
    }
  }

  /**
    * Line by line: the text is shifted one line at a time, except after a line made only of '#'
    * and whitespace (see `BareHeadingJoinsNextLine`).
    */
  lemma LineByLine(a: string, b: string, increment: int)
    requires '\n' !in a && !BareHeading(a)
    ensures Shift(a + "\n" + b, increment) == Shift(a, increment) + "\n" + Shift(b, increment)
  {
    var r := "\n" + b;
    var s := a + r;
    assert a + "\n" + b == s;
    FirstLineOf(a, r, increment);
    assert s[|a| + 1..] == b;
    assert Shift(s, increment) == Emit(FirstPiece(a), increment) + ("\n" + Shift(b, increment));
    assert a != [] ==> Shift(a, increment) == Emit(FirstPiece(a), increment) + [];
  }

  /** No line of `s` starts with '#'. */
  predicate NoHeadingStart(s: string)
  {
    && (s == [] || s[0] != '#')
    && forall k :: 0 <= k < |s| - 1 && s[k] == '\n' ==> s[k + 1] != '#'
  }

  /** After the first newline, no line starts with '#' either. */
  lemma NoHeadingStartRest(s: string, e: nat)
    requires NoHeadingStart(s) && e < |s| && s[e] == '\n'
    ensures NoHeadingStart(s[e + 1..])
  {
    var rest := s[e + 1..];
    forall k | 0 <= k < |rest| - 1 && rest[k] == '\n'
      ensures rest[k + 1] != '#'
    {
      assert s[e + 1 + k] == '\n';
    }
  }

  /** The first line of a text that does not start with '#': no newline in it, and not bare. */
  lemma PlainFirstLine(s: string, e: nat)
    requires s != [] && s[0] != '#' && e == LineEnd(s, 0)
    ensures '\n' !in s[..e] && !BareHeading(s[..e]) && (s[..e] == [] || s[..e][0] != '#')
  {
    LineEndAll(s, 0);
    HashEndIs(s[..e], 0, 0);
  }

  /** A plain first line followed by kept text is kept. */
  lemma PlainLineThenKept(a: string, rest: string, increment: int)
    requires '\n' !in a && !BareHeading(a) && (a == [] || a[0] != '#')
    requires Shift(rest, increment) == rest
    ensures Shift(a + "\n" + rest, increment) == a + "\n" + rest
  {
    PlainLine(a, increment);
    LineByLine(a, rest, increment);
  }

  /** Text in which no line starts with '#' is kept as it is. */
  lemma {:induction false} NoHeadings(s: string, increment: int)
    requires NoHeadingStart(s)
    ensures Shift(s, increment) == s
    decreases |s|
  {
    if s != [] {
      var e := LineEnd(s, 0);
      var a := s[..e];
      PlainFirstLine(s, e);
      if e < |s| {
        var rest := s[e + 1..];
        NoHeadingStartRest(s, e);
        NoHeadings(rest, increment);
        PlainLineThenKept(a, rest, increment);
        assert s == a + "\n" + rest;
      } else {
        PlainLine(a, increment);
        assert s == a;
      }
    }
  }

  /** A bare "#" line takes the next line's text as its heading text: the newline is eaten. */
  lemma BareHeadingJoinsNextLine()
    ensures Shift("#\nfoo", 1) == "## foo"
  {
    var s := "#\nfoo";
    HashEndIs(s, 0, 1);
    SpaceEndIs(s, 1, 2);
    LineEndIs(s, 2, 5);
    assert IsHeading(s) && LineStop(s) == 5;
    assert s[2..5] == "foo";
  }
}
