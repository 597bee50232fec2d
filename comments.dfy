/** The comment stripping `main` applies to a LEF file's lines before they
    reach `LEF_File.new`: every line holding a `#` loses its comment, and an
    entry for it is collected for the `<file>_comments` listing. */
module Comments {
  import opened Text

  /** The index of the first `#` in `s`, or `|s|` when there is none. */
  function HashAt(s: string): (h: nat)
    ensures h <= |s|
    ensures h < |s| ==> s[h] == '#'
    ensures forall k | 0 <= k < h :: s[k] != '#'
    ensures h == |s| <==> '#' !in s
  {
    if s == [] || s[0] == '#' then 0
    else
      var h := HashAt(s[1..]);
      assert forall k | 1 <= k < h + 1 :: s[k] == s[1..][k - 1];
      h + 1
  }

  /** The index of the first newline at or after `i`, or `|s|`: where `.*`
      stops, since `.` does not match a newline. */
  function LineEnd(s: string, i: nat): (e: nat)
    requires i <= |s|
    ensures i <= e <= |s|
    ensures e < |s| ==> s[e] == '\n'
    ensures forall k | i <= k < e :: s[k] != '\n'
    decreases |s| - i
  {
    if i == |s| || s[i] == '\n' then i else LineEnd(s, i + 1)
  }

  /** `line.gsub` with the pattern `\s*\#.*` and an empty replacement. The
      leftmost match starts at the white space run just before the first `#`
      and ends at the next newline; `gsub` then carries on after it. */
  function StripComment(s: string): (r: string)
    ensures '#' !in r
    ensures |r| <= |s|
    ensures '#' !in s ==> r == s
    decreases |s|
  {
    var h := HashAt(s);
    if h == |s| then s
    else
      var e := LineEnd(s, h);
      assert forall k | 0 <= k < |TrimRight(s[..h])| :: TrimRight(s[..h])[k] == s[k];
      TrimRight(s[..h]) + StripComment(s[e..])
  }

  /** A line as `readlines` gives it holds a newline only as its last character. */
  predicate OneLine(s: string) {
    forall k | 0 <= k < |s| - 1 :: s[k] != '\n'
  }

  /** On one line, a comment takes the rest of the line: what is left is the
      text before the first `#` without its trailing white space, followed by
      the line's newline if it had one. */
  lemma StripCommentOfLine(s: string)
    requires OneLine(s) && '#' in s
    ensures StripComment(s) == TrimRight(s[..HashAt(s)]) + (if s[|s| - 1] == '\n' then "\n" else "")
  {
    var h := HashAt(s);
    var e := LineEnd(s, h);
    if s[|s| - 1] == '\n' {
      assert h < |s| - 1;
      assert e == |s| - 1;
      assert s[e..] == "\n";
    } else {
      assert e == |s|;
      assert s[e..] == "";
    }
  }

  /** A line whose first non-blank character is `#` reaches the parser blank,
      so `get_current_line` passes over it. */
  lemma CommentLineBecomesBlank(s: string)
    requires OneLine(s) && '#' in s
    requires IsBlank(s[..HashAt(s)])
    ensures IsBlank(StripComment(s))
  {
    StripCommentOfLine(s);
    TrimRightOfBlank(s[..HashAt(s)]);
  }

  /** White space alone trims to nothing. */
  lemma {:induction false} TrimRightOfBlank(s: string)
    requires IsBlank(s)
    ensures TrimRight(s) == []
  {
    if s != [] {
      TrimRightOfBlank(s[..|s| - 1]);
    }
  }

  /** A line whose text before the first `#` is not blank keeps that text. */
  lemma CodeBeforeCommentKept(s: string)
    requires OneLine(s) && '#' in s
    requires !IsBlank(s[..HashAt(s)])
    ensures !IsBlank(StripComment(s))
    ensures StartsWith(s, TrimRight(s[..HashAt(s)]))
  {
    StripCommentOfLine(s);
    var h := HashAt(s);
    var t := TrimRight(s[..h]);
    var k :| 0 <= k < h && !IsSpace(s[..h][k]);
    assert k < |t|;
    assert StripComment(s)[|t| - 1] == t[|t| - 1];
    assert s[..|t|] == s[..h][..|t|];
  }

  /** The lines after stripping: as many as before, so line numbers keep
      their meaning; none holds a `#`; a line without one is untouched. */
  function StripComments(lines: seq<string>): (r: seq<string>)
    ensures |r| == |lines|
    ensures forall i | 0 <= i < |r| :: '#' !in r[i]
    ensures forall i | 0 <= i < |r| :: '#' !in lines[i] ==> r[i] == lines[i]
  {
    seq(|lines|, i requires 0 <= i < |lines| => StripComment(lines[i]))
  }

  /** The entry collected for line `i`: its one-based number and its text
      without the newline. */
  function CommentEntry(i: nat, line: string): string {
    "Line " + NatToString(i + 1) + ": " + Chomp(line) + "\n"
  }

  /** The entries collected for the first `n` lines, in line order. The
      `_comments` file is written exactly when this is not empty for the
      whole file. */
  function CommentLog(lines: seq<string>, n: nat): (r: seq<string>)
    requires n <= |lines|
    ensures r == [] <==> forall k | 0 <= k < n :: '#' !in lines[k]
    ensures |r| <= n
  {
    if n == 0 then []
    else if '#' in lines[n - 1] then CommentLog(lines, n - 1) + [CommentEntry(n - 1, lines[n - 1])]
    else CommentLog(lines, n - 1)
  }

  /** Every line holding a `#` has its entry in the listing. */
  lemma {:induction false} CommentLogComplete(lines: seq<string>, n: nat, k: nat)
    requires k < n <= |lines| && '#' in lines[k]
    ensures CommentEntry(k, lines[k]) in CommentLog(lines, n)
  {
    if k < n - 1 {
      CommentLogComplete(lines, n - 1, k);
    }
  }

  /** Every entry of the listing is that of a line holding a `#`. */
  lemma {:induction false} CommentLogSound(lines: seq<string>, n: nat, x: string)
    requires n <= |lines|
    requires x in CommentLog(lines, n)
    ensures exists k | 0 <= k < n :: '#' in lines[k] && x == CommentEntry(k, lines[k])
  {
    if '#' in lines[n - 1] && x == CommentEntry(n - 1, lines[n - 1]) {
    } else {
      CommentLogSound(lines, n - 1, x);
    }
  }

  /** One turn of the loop: line `index` is rewritten when it holds a `#`,
      and its entry is collected. */
  method StripCommentAt(lines: array<string>, index: nat, comments: seq<string>) returns (comments': seq<string>)
    requires index < lines.Length
    modifies lines
    ensures lines[index] == StripComment(old(lines[index]))
    ensures forall k | 0 <= k < lines.Length && k != index :: lines[k] == old(lines[k])
    ensures comments' == comments + (if '#' in old(lines[index]) then [CommentEntry(index, old(lines[index]))] else [])
  {
    comments' := comments;
    var line := lines[index];
    if '#' in line {
      comments' := comments + [CommentEntry(index, line)];
      lines[index] := StripComment(line);
    }
  }

  /** The loop of `main` over the lines read: each line holding a `#` is
      replaced in place by its stripped form, and its entry is collected. */
  method StripCommentLines(lines: array<string>) returns (comments: seq<string>)
    modifies lines
    ensures lines[..] == StripComments(old(lines[..]))
    ensures comments == CommentLog(old(lines[..]), lines.Length)
  {
    ghost var original := lines[..];
    comments := [];
    var index := 0;
    while index < lines.Length
      invariant 0 <= index <= lines.Length
      invariant forall k {:trigger lines[k]} | index <= k < lines.Length :: lines[k] == original[k]
      invariant forall k {:trigger lines[k]} | 0 <= k < index :: lines[k] == StripComment(original[k])
      invariant comments == CommentLog(original, index)
    {
      assert lines[index] == original[index];
      comments := StripCommentAt(lines, index, comments);
      index := index + 1;
    }
    assert forall k | 0 <= k < lines.Length :: lines[..][k] == StripComments(original)[k];
  }
}
