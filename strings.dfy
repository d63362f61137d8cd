/** The .NET string and text-stream operations the codec relies on:
    char.IsWhiteSpace, the Trim family, IndexOf/LastIndexOf, string.Split on
    one separator, StringBuilder, TextWriter and TextReader.ReadLine. */
module Strings {
  import opened RegTypes

  /** Environment.NewLine, fixed to one line feed. */
  const NewLine: string := "\n"

  /** char.IsWhiteSpace: the Unicode space separators, the line and
      paragraph separators, U+0009..U+000D, U+0085 and U+00A0. */
  predicate IsWhiteSpace(c: char)
  {
    || c == ' ' || ('\t' <= c <= '\r') || c == '\U{85}' || c == '\U{A0}'
    || c == '\U{1680}' || ('\U{2000}' <= c <= '\U{200A}') || c == '\U{2028}'
    || c == '\U{2029}' || c == '\U{202F}' || c == '\U{205F}' || c == '\U{3000}'
  }

  /** A character outside the Basic Multilingual Plane. .NET stores it as
      two UTF-16 code units, a high and a low surrogate, so slicing a span
      one unit into it leaves the lone low surrogate at the front: a unit
      that is not white space and that no ASCII text begins with. */
  predicate IsSupplementary(c: char)
  {
    c >= '\U{10000}'
  }

  /** string.IsNullOrWhiteSpace, and ReadOnlySpan.IsWhiteSpace (true when empty). */
  predicate IsBlank(s: string)
  {
    forall i :: 0 <= i < |s| ==> IsWhiteSpace(s[i])
  }

  function TrimStart(s: string): (r: string)
    ensures |r| <= |s| && r == s[|s| - |r|..]
    ensures forall i :: 0 <= i < |s| - |r| ==> IsWhiteSpace(s[i])
    ensures r != [] ==> !IsWhiteSpace(r[0])
    ensures r == [] <==> IsBlank(s)
  {
    if s != [] && IsWhiteSpace(s[0]) then
      var t := s[1..];
      var r := TrimStart(t);
      assert t[|t| - |r|..] == s[|s| - |r|..];
      assert forall i :: 1 <= i < |s| ==> s[i] == t[i - 1];
      r
    else s
  }

  function TrimEnd(s: string): (r: string)
    ensures |r| <= |s| && r == s[..|r|]
    ensures forall i :: |r| <= i < |s| ==> IsWhiteSpace(s[i])
    ensures r != [] ==> !IsWhiteSpace(r[|r| - 1])
    ensures r == [] <==> IsBlank(s)
  {
    if s != [] && IsWhiteSpace(s[|s| - 1]) then
      var t := s[..|s| - 1];
      var r := TrimEnd(t);
      assert t[..|r|] == s[..|r|];
      assert forall i :: 0 <= i < |t| ==> s[i] == t[i];
      r
    else s
  }

  function Trim(s: string): (r: string)
    ensures r == [] <==> IsBlank(s)
    ensures r != [] ==> !IsWhiteSpace(r[0]) && !IsWhiteSpace(r[|r| - 1])
  {
    TrimStart(TrimEnd(s))
  }

  lemma AppendAssoc(a: string, b: string, c: string)
    ensures (a + b) + c == a + (b + c)
  {
  }

  /** Strings written one after the other. */
  function Concat(ss: seq<string>): string
  {
    if |ss| == 0 then "" else Concat(ss[..|ss| - 1]) + ss[|ss| - 1]
  }

  lemma ConcatOne(s: string)
    ensures Concat([s]) == s
  {
    assert [s][..0] == [];
  }

  lemma {:induction false} ConcatAppend(a: seq<string>, b: seq<string>)
    ensures Concat(a + b) == Concat(a) + Concat(b)
    decreases |b|
  {
    if |b| == 0 {
      assert a + b == a;
    } else {
      var n := |b|;
      assert (a + b)[..|a + b| - 1] == a + b[..n - 1];
      assert (a + b)[|a + b| - 1] == b[n - 1];
      ConcatAppend(a, b[..n - 1]);
      AppendAssoc(Concat(a), Concat(b[..n - 1]), b[n - 1]);
    }
  }

  /** Trimming changes nothing when neither end is white space. */
  lemma TrimUnchanged(s: string)
    requires s != [] && !IsWhiteSpace(s[0]) && !IsWhiteSpace(s[|s| - 1])
    ensures Trim(s) == s
  {
    assert TrimEnd(s) == s;
    assert TrimStart(s) == s;
  }

  /** The first index of c in s, or -1. */
  function IndexOf(s: string, c: char): (r: int)
    ensures r == -1 <==> c !in s
    ensures r != -1 ==> 0 <= r < |s| && s[r] == c && c !in s[..r]
  {
    if s == [] then -1
    else if s[0] == c then 0
    else var k := IndexOf(s[1..], c); if k == -1 then -1 else k + 1
  }

  /** The last index of c in s, or -1. */
  function LastIndexOf(s: string, c: char): (r: int)
    ensures r == -1 <==> c !in s
    ensures r != -1 ==> 0 <= r < |s| && s[r] == c && c !in s[r + 1..]
  {
    if s == [] then -1
    else if s[|s| - 1] == c then |s| - 1
    else LastIndexOf(s[..|s| - 1], c)
  }

  /** string.Split(sep) without options: every occurrence separates, so the
      result has one more element than s has separators. */
  function Split(s: string, sep: char): (r: seq<string>)
    ensures |r| >= 1
    ensures forall i :: 0 <= i < |r| ==> sep !in r[i]
    decreases |s|
  {
    var k := IndexOf(s, sep);
    if k == -1 then [s] else [s[..k]] + Split(s[k + 1..], sep)
  }

  /** IndexOf is determined by its contract. */
  lemma {:induction false} IndexOfAt(s: string, c: char, k: nat)
    requires k < |s| && s[k] == c && c !in s[..k]
    ensures IndexOf(s, c) == k
  {
    if k > 0 {
      assert s[0] == s[..k][0];
      assert s[1..][..k - 1] == s[1..k];
      assert c !in s[1..][..k - 1] by {
        forall i | 0 <= i < k - 1 ensures s[1..][i] != c { assert s[1..][i] == s[..k][i + 1]; }
      }
      IndexOfAt(s[1..], c, k - 1);
    }
  }

  lemma SplitFirst(s: string, sep: char)
    requires sep in s
    ensures Split(s, sep) == [s[..IndexOf(s, sep)]] + Split(s[IndexOf(s, sep) + 1..], sep)
  {
  }

  lemma SplitNone(s: string, sep: char)
    requires sep !in s
    ensures Split(s, sep) == [s]
  {
  }

  /** Splitting text whose last separator precedes a separator-free tail. */
  lemma {:induction false} SplitSnoc(s: string, sep: char, t: string)
    requires sep !in t
    ensures Split(s + [sep] + t, sep) == Split(s, sep) + [t]
    decreases |s|
  {
    var u := s + [sep] + t;
    var k := IndexOf(s, sep);
    if k == -1 {
      assert u[..|s|] == s;
      IndexOfAt(u, sep, |s|);
      assert u[|s| + 1..] == t;
      SplitFirst(u, sep);
      SplitNone(t, sep);
      SplitNone(s, sep);
    } else {
      var rest := s[k + 1..];
      assert u[..k] == s[..k];
      IndexOfAt(u, sep, k);
      assert u[k + 1..] == rest + [sep] + t;
      calc {
        Split(u, sep);
        { SplitFirst(u, sep); }
        [s[..k]] + Split(rest + [sep] + t, sep);
        { SplitSnoc(rest, sep, t); }
        [s[..k]] + (Split(rest, sep) + [t]);
        ([s[..k]] + Split(rest, sep)) + [t];
        { SplitFirst(s, sep); }
        Split(s, sep) + [t];
      }
    }
  }

  /** The lines a TextReader's ReadLine calls return for this text: lines end
      at "\r\n", "\r" or "\n", and a last line without a terminator counts
      only when it is not empty. */
  function ReadLines(text: string): seq<string>
    decreases |text|
  {
    if text == [] then []
    else
      var k := LineBreakAt(text);
      if k == |text| then [text]
      else if text[k] == '\r' && k + 1 < |text| && text[k + 1] == '\n' then [text[..k]] + ReadLines(text[k + 2..])
      else [text[..k]] + ReadLines(text[k + 1..])
  }

  /** The index of the first '\r' or '\n' in text, or |text|. */
  function LineBreakAt(text: string): (k: nat)
    ensures k <= |text|
    ensures forall i :: 0 <= i < k ==> text[i] != '\r' && text[i] != '\n'
    ensures k < |text| ==> text[k] == '\r' || text[k] == '\n'
  {
    if text == [] || text[0] == '\r' || text[0] == '\n' then 0 else 1 + LineBreakAt(text[1..])
  }

  predicate IsSingleLine(s: string)
  {
    '\r' !in s && '\n' !in s
  }

  /** Lines written one after the other, each followed by NewLine. */
  function JoinLines(lines: seq<string>): string
  {
    if lines == [] then "" else lines[0] + NewLine + JoinLines(lines[1..])
  }

  lemma {:induction false} JoinLinesAppend(a: seq<string>, b: seq<string>)
    ensures JoinLines(a + b) == JoinLines(a) + JoinLines(b)
  {
    if a != [] {
      assert (a + b)[1..] == a[1..] + b;
      JoinLinesAppend(a[1..], b);
    } else {
      assert a + b == b;
    }
  }

  /** Reading back what was written line by line gives the same lines. */
  lemma {:induction false} ReadLinesJoinLines(lines: seq<string>)
    requires forall i :: 0 <= i < |lines| ==> IsSingleLine(lines[i])
    ensures ReadLines(JoinLines(lines)) == lines
  {
    if lines != [] {
      var text := JoinLines(lines);
      var l := lines[0];
      assert text == l + "\n" + JoinLines(lines[1..]);
      LineBreakAtPrefix(l, JoinLines(lines[1..]));
      assert text[..|l|] == l;
      assert text[|l| + 1..] == JoinLines(lines[1..]);
      ReadLinesJoinLines(lines[1..]);
    }
  }

  lemma {:induction false} LineBreakAtPrefix(l: string, rest: string)
    requires IsSingleLine(l)
    ensures LineBreakAt(l + "\n" + rest) == |l|
    decreases |l|
  {
    if l != [] {
      assert (l + "\n" + rest)[1..] == l[1..] + "\n" + rest;
      LineBreakAtPrefix(l[1..], rest);
    }
  }

  /** System.Text.StringBuilder. */
  class StringBuilder {
    var Content: string

    constructor()
      ensures Content == ""
    {
      Content := "";
    }

    method Append(s: string)
      modifies this
      ensures Content == old(Content) + s
    {
      Content := Content + s;
    }

    method AppendLine(s: string)
      modifies this
      ensures Content == old(Content) + s + NewLine
    {
      Content := Content + s + NewLine;
    }

    method Clear()
      modifies this
      ensures Content == ""
    {
      Content := "";
    }
  }

  /** A TextWriter that keeps everything written to it. */
  class TextWriter {
    var Written: string

    constructor()
      ensures Written == ""
    {
      Written := "";
    }

    method Write(s: string)
      modifies this
      ensures Written == old(Written) + s
    {
      Written := Written + s;
    }

    method WriteLine(s: string)
      modifies this
      ensures Written == old(Written) + s + NewLine
    {
      Written := Written + s + NewLine;
    }
  }

  /** A StringReader: the lines ReadLine has still to return. */
  class TextReader {
    var Remaining: seq<string>

    constructor(text: string)
      ensures Remaining == ReadLines(text)
    {
      Remaining := ReadLines(text);
    }

    /** ReadLine: the next line, or null (Nothing) at the end of the text. */
    method ReadLine() returns (line: Option<string>)
      modifies this
      ensures old(Remaining) == [] ==> line == Nothing && Remaining == []
      ensures old(Remaining) != [] ==> line == Some(old(Remaining)[0]) && Remaining == old(Remaining)[1..]
    {
      if Remaining == [] {
        return Nothing;
      }
      line := Some(Remaining[0]);
      Remaining := Remaining[1..];
    }
  }
}
