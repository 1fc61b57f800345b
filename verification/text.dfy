/**
  * The few Python string operations the modelled code relies on (`in`, `split`, `strip`,
  * `lower`, `replace`, `"".join`), written out over `seq<char>`.
  */
module Text {

  /** `str.isspace()` for one character; Python's `\s` in a `str` pattern is the same class. */
  predicate IsSpace(c: char)
  {
    c == ' ' || c == '\t' || c == '\n' || c == '\r' || c == '\U{B}' || c == '\U{C}'
    || ('\U{1C}' <= c <= '\U{1F}') || c == '\U{85}' || c == '\U{A0}' || c == '\U{1680}'
    || ('\U{2000}' <= c <= '\U{200A}') || c == '\U{2028}' || c == '\U{2029}'
    || c == '\U{202F}' || c == '\U{205F}' || c == '\U{3000}'
  }

  /** The ASCII part of Python's `\w` class: letters, digits and the underscore. */
  predicate IsWordChar(c: char)
  {
    ('a' <= c <= 'z') || ('A' <= c <= 'Z') || ('0' <= c <= '9') || c == '_'
  }

  /** `s.strip() == ""`: the text is empty or made only of whitespace. */
  predicate IsBlank(s: string)
  {
    forall k :: 0 <= k < |s| ==> IsSpace(s[k])
  }

  function LowerChar(c: char): char
  {
    if 'A' <= c <= 'Z' then (c as int + 32) as char else c
  }

  /** `s.lower()` on the ASCII letters. */
  function Lower(s: string): (r: string)
    ensures |r| == |s|
    ensures forall k :: 0 <= k < |s| ==> r[k] == LowerChar(s[k])
  {
    seq(|s|, k requires 0 <= k < |s| => LowerChar(s[k]))
  }

  predicate IsPrefix(p: string, s: string)
  {
    |p| <= |s| && s[..|p|] == p
  }

  /** `sub in s`. */
  predicate Contains(s: string, sub: string)
    decreases |s|
  {
    IsPrefix(sub, s) || (s != [] && Contains(s[1..], sub))
  }

  /** `sub` occurs in `s` at position `i`. */
  predicate OccursAt(s: string, sub: string, i: int)
  {
    0 <= i && i + |sub| <= |s| && s[i..i + |sub|] == sub
  }

  /** `sub` occurs in `s` at some position: the meaning of Python's `sub in s`. */
  ghost predicate Occurs(s: string, sub: string)
  {
    exists i :: OccursAt(s, sub, i)
  }

  lemma SliceOfTail(s: string, i: nat, n: nat)
    requires s != [] && i + n <= |s| - 1
    ensures s[1..][i..i + n] == s[i + 1..i + 1 + n]
  {
  }

  /** The left-to-right search `Contains` finds exactly the occurrences. */
  lemma {:induction false} ContainsOccurs(s: string, sub: string)
    ensures Contains(s, sub) <==> Occurs(s, sub)
    decreases |s|
  {
    if IsPrefix(sub, s) {
      assert OccursAt(s, sub, 0);
    } else if s != [] {
      ContainsOccurs(s[1..], sub);
      if Occurs(s[1..], sub) {
        var i :| OccursAt(s[1..], sub, i);
        SliceOfTail(s, i, |sub|);
        assert OccursAt(s, sub, i + 1);
      }
      if Occurs(s, sub) {
        var i :| OccursAt(s, sub, i);
        assert i != 0;
        SliceOfTail(s, i - 1, |sub|);
        assert OccursAt(s[1..], sub, i - 1);
      }
    }
  }

  /** Lower-casing twice is lower-casing once. */
  lemma LowerIdempotent(s: string)
    ensures Lower(Lower(s)) == Lower(s)
  {
  }

  /** `s.find(c)` for a character known to occur. */
  function IndexOf(s: string, c: char): (i: nat)
    requires c in s
    ensures i < |s| && s[i] == c && c !in s[..i]
  {
    if s[0] == c then 0 else 1 + IndexOf(s[1..], c)
  }

  /** `s.split(sep)` for a one-character separator, read one character at a time. */
  function Split(s: string, sep: char): (parts: seq<string>)
    ensures |parts| >= 1
    decreases |s|
  {
    if s == [] then [[]]
    else
      var rest := Split(s[1..], sep);
      if s[0] == sep then [[]] + rest else [[s[0]] + rest[0]] + rest[1..]
  }

  /** `sep.join(parts)`. */
  function Join(sep: string, parts: seq<string>): string
  {
    if parts == [] then ""
    else if |parts| == 1 then parts[0]
    else parts[0] + sep + Join(sep, parts[1..])
  }

  /** Prefixing the first part prefixes the joined text. */
  lemma JoinConsHead(sep: string, c: char, parts: seq<string>)
    requires |parts| >= 1
    ensures Join(sep, [[c] + parts[0]] + parts[1..]) == [c] + Join(sep, parts)
  {
    var ps := [[c] + parts[0]] + parts[1..];
    assert ps[0] == [c] + parts[0] && ps[1..] == parts[1..];
    if |parts| > 1 {
      assert [c] + parts[0] + sep + Join(sep, parts[1..]) == [c] + (parts[0] + sep + Join(sep, parts[1..]));
    }
  }

  /** Joining the parts with the separator gives the text back. */
  lemma {:induction false} JoinSplit(s: string, sep: char)
    ensures Join([sep], Split(s, sep)) == s
    decreases |s|
  {
    if s != [] {
      var rest := Split(s[1..], sep);
      JoinSplit(s[1..], sep);
      if s[0] == sep {
        var ps: seq<string> := [[]] + rest;
        assert ps[0] == [] && ps[1..] == rest;
        assert Join([sep], ps) == [] + [sep] + Join([sep], rest);
        assert s == [sep] + s[1..];
      } else {
        JoinConsHead([sep], s[0], rest);
        assert s == [s[0]] + s[1..];
      }
    }
  }

  /** A first part without the separator is split off whole. */
  lemma {:induction false} SplitAfterSep(a: string, b: string, sep: char)
    requires sep !in a
    ensures Split(a + [sep] + b, sep) == [a] + Split(b, sep)
    decreases |a|
  {
    var s := a + [sep] + b;
    if a == [] {
      assert s == [sep] + b && s[1..] == b;
    } else {
      assert s[0] == a[0] && s[1..] == a[1..] + [sep] + b;
      SplitAfterSep(a[1..], b, sep);
      assert [a[0]] + a[1..] == a;
    }
  }

  /** A text without the separator, followed by nothing or by the separator, is the first part. */
  lemma {:induction false} SplitHead(a: string, t: string, sep: char)
    requires sep !in a && (t == [] || t[0] == sep)
    ensures Split(a + t, sep)[0] == a
    decreases |a|
  {
    if a != [] {
      var s := a + t;
      assert s[0] == a[0] && s[1..] == a[1..] + t;
      SplitHead(a[1..], t, sep);
      assert [a[0]] + a[1..] == a;
    } else {
      assert a + t == t;
    }
  }

  /** No part contains the separator, and there is more than one part exactly when it occurs. */
  lemma {:induction false} SplitParts(s: string, sep: char)
    ensures var parts := Split(s, sep);
      && (forall k :: 0 <= k < |parts| ==> sep !in parts[k])
      && (sep !in s <==> |parts| == 1)
    decreases |s|
  {
    if s != [] {
      SplitParts(s[1..], sep);
      var parts, rest := Split(s, sep), Split(s[1..], sep);
      assert sep in s <==> s[0] == sep || sep in s[1..] by {
        assert s == [s[0]] + s[1..];
      }
      if s[0] == sep {
        assert parts == [[]] + rest;
        forall k | 0 <= k < |parts|
          ensures sep !in parts[k]
        {
          if k > 0 {
            assert parts[k] == rest[k - 1];
          }
        }
      } else {
        assert parts == [[s[0]] + rest[0]] + rest[1..];
        forall k | 0 <= k < |parts|
          ensures sep !in parts[k]
        {
          if k > 0 {
            assert parts[k] == rest[k];
          } else {
            assert sep !in rest[0];
          }
        }
      }
    }
  }

  /** `s.split(c)[-1]`: the text after the last `c`, or all of `s` when `c` does not occur. */
  function AfterLast(s: string, c: char): string
    decreases |s|
  {
    if s == [] then []
    else if s[|s| - 1] == c then []
    else AfterLast(s[..|s| - 1], c) + [s[|s| - 1]]
  }

  /** The text after the last `c` is a suffix free of `c`; it is all of `s` when `s` has no `c`, else a `c` precedes it. */
  lemma {:induction false} AfterLastSpec(s: string, c: char)
    ensures c !in AfterLast(s, c)
    ensures |AfterLast(s, c)| <= |s| && s[|s| - |AfterLast(s, c)|..] == AfterLast(s, c)
    ensures c !in s ==> AfterLast(s, c) == s
    ensures c in s ==> |AfterLast(s, c)| < |s| && s[|s| - |AfterLast(s, c)| - 1] == c
    decreases |s|
  {
    if s != [] && s[|s| - 1] != c {
      AfterLastSpec(s[..|s| - 1], c);
      assert s[..|s| - 1] + [s[|s| - 1]] == s;
    }
  }

  /** `s.lstrip(c)`. */
  function TrimLeft(s: string, c: char): (r: string)
    ensures |r| <= |s| && s[|s| - |r|..] == r
    ensures r == [] || r[0] != c
    ensures forall k :: 0 <= k < |s| - |r| ==> s[k] == c
  {
    if s != [] && s[0] == c then TrimLeft(s[1..], c) else s
  }

  /** `s.rstrip(c)`. */
  function TrimRight(s: string, c: char): (r: string)
    ensures |r| <= |s| && s[..|r|] == r
    ensures r == [] || r[|r| - 1] != c
    ensures forall k :: |r| <= k < |s| ==> s[k] == c
  {
    if s != [] && s[|s| - 1] == c then TrimRight(s[..|s| - 1], c) else s
  }

  /** `s.strip(c)`. */
  function Strip(s: string, c: char): string
  {
    TrimRight(TrimLeft(s, c), c)
  }

  /** `s.replace(pat, "")`: every non-overlapping occurrence of `pat` removed, left to right. */
  function RemoveAll(s: string, pat: string): (r: string)
    requires pat != []
    ensures |r| <= |s|
    decreases |s|
  {
    if s == [] then []
    else if IsPrefix(pat, s) then RemoveAll(s[|pat|..], pat)
    else [s[0]] + RemoveAll(s[1..], pat)
  }

  /** `str(n)` for a natural number. */
  function NatToString(n: nat): (r: string)
    ensures r != []
    ensures forall k :: 0 <= k < |r| ==> '0' <= r[k] <= '9'
  {
    if n < 10 then ['0' + n as char]
    else NatToString(n / 10) + ['0' + (n % 10) as char]
  }
}
