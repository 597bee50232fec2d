/** Character classes, tokenising and the string operations of Ruby's String
    class that the LEF tool relies on (`split`, `strip`, `upcase`, `<=>`,
    `chomp`, `to_s`), written over `seq<char>`.  Every element of a line
    array is one line: a newline can only be its last character. */
module Text {
  import opened Wrappers

  /** Ruby's `\s`: space, tab, line feed, vertical tab, form feed, carriage return. */
  predicate IsSpace(c: char) {
    c == ' ' || (9 <= c as int <= 13)
  }

  /** Ruby's `\w`: ASCII letters, digits and the underscore. */
  predicate IsWordChar(c: char) {
    ('a' <= c <= 'z') || ('A' <= c <= 'Z') || ('0' <= c <= '9') || c == '_'
  }

  predicate IsDigit(c: char) {
    '0' <= c <= '9'
  }

  predicate AllDigits(s: string) {
    forall i | 0 <= i < |s| :: IsDigit(s[i])
  }

  /** `/\A\s*\Z/`: nothing but whitespace (the empty string included). */
  predicate IsBlank(s: string) {
    forall i | 0 <= i < |s| :: IsSpace(s[i])
  }

  predicate NoSpace(s: string) {
    forall i | 0 <= i < |s| :: !IsSpace(s[i])
  }

  /** The number of whitespace characters `s` starts with. */
  function LeadingSpaces(s: string): (k: nat)
    ensures k <= |s| && (k == |s| || !IsSpace(s[k]))
    ensures forall i | 0 <= i < k :: IsSpace(s[i])
  {
    if s == [] || !IsSpace(s[0]) then 0
    else
      var k := LeadingSpaces(s[1..]);
      assert forall i | 1 <= i < k + 1 :: s[i] == s[1..][i - 1];
      k + 1
  }

  /** Ruby's `lstrip`: the suffix left after dropping leading whitespace. */
  function TrimLeft(s: string): (r: string)
    ensures |r| <= |s| && r == s[|s| - |r|..]
    ensures r == [] || !IsSpace(r[0])
    ensures IsBlank(s[..|s| - |r|])
  {
    var k := LeadingSpaces(s);
    assert forall i | 0 <= i < k :: s[..k][i] == s[i];
    s[k..]
  }

  /** A string that does not start with white space is its own `lstrip`. */
  lemma TrimLeftUnspaced(s: string)
    requires s == [] || !IsSpace(s[0])
    ensures TrimLeft(s) == s
  {
    assert LeadingSpaces(s) == 0;
    assert s[0..] == s;
  }

  /** Ruby's `rstrip`: the prefix left after dropping trailing whitespace. */
  function TrimRight(s: string): (r: string)
    ensures |r| <= |s| && r == s[..|r|]
    ensures r == [] || !IsSpace(r[|r| - 1])
    ensures IsBlank(s[|r|..])
  {
    if s == [] || !IsSpace(s[|s| - 1]) then s else TrimRight(s[..|s| - 1])
  }

  /** Ruby's `strip`. */
  function Strip(s: string): string {
    TrimRight(TrimLeft(s))
  }

  /** Length of the run of non-space characters that starts `s`. */
  function RunLength(s: string): (n: nat)
    ensures n <= |s|
    ensures forall i | 0 <= i < n :: !IsSpace(s[i])
    ensures n == |s| || IsSpace(s[n])
  {
    if s == [] || IsSpace(s[0]) then 0 else 1 + RunLength(s[1..])
  }

  /** Ruby's `split()` (and `split(' ')`): the maximal runs of non-space characters. */
  function Tokens(s: string): (ts: seq<string>)
    ensures forall k | 0 <= k < |ts| :: ts[k] != [] && NoSpace(ts[k])
    decreases |s|
  {
    if s == [] then []
    else if IsSpace(s[0]) then Tokens(s[1..])
    else
      var n := RunLength(s);
      [s[..n]] + Tokens(s[n..])
  }

  /** `s.split()[i]`, `None` standing for Ruby's nil. */
  function TokenAt(s: string, i: nat): Option<string> {
    var ts := Tokens(s);
    if i < |ts| then Some(ts[i]) else None
  }

  /** `s.split()[i]` compared with a string: a missing token compares like the empty one
      because nil equals no string. */
  function TokenOrEmpty(s: string, i: nat): string {
    match TokenAt(s, i)
    case Some(t) => t
    case None => ""
  }

  lemma {:induction false} RunLengthOfWord(w: string, r: string)
    requires NoSpace(w)
    requires r == [] || IsSpace(r[0])
    ensures RunLength(w + r) == |w|
    decreases |w|
  {
    if w == [] {
      assert w + r == r;
    } else {
      assert (w + r)[1..] == w[1..] + r;
      RunLengthOfWord(w[1..], r);
    }
  }

  /** A word followed by whitespace (or nothing) is the first token. */
  lemma TokensOfWord(w: string, r: string)
    requires w != [] && NoSpace(w)
    requires r == [] || IsSpace(r[0])
    ensures Tokens(w + r) == [w] + Tokens(r)
  {
    RunLengthOfWord(w, r);
    var s := w + r;
    assert s[..|w|] == w;
    assert s[|w|..] == r;
  }

  /** Leading whitespace never changes the tokens. */
  lemma {:induction false} TokensAfterSpaces(ws: string, x: string)
    requires IsBlank(ws)
    ensures Tokens(ws + x) == Tokens(x)
    decreases |ws|
  {
    if ws == [] {
      assert ws + x == x;
    } else {
      assert (ws + x)[1..] == ws[1..] + x;
      TokensAfterSpaces(ws[1..], x);
    }
  }

  function UpperChar(c: char): char {
    if 'a' <= c <= 'z' then (c as int - 32) as char else c
  }

  /** Ruby's `upcase`, on ASCII letters: every lower-case ASCII letter
      becomes its capital and every other character is kept. */
  function Upper(s: string): (r: string)
    ensures |r| == |s|
    ensures forall i | 0 <= i < |s| :: r[i] == UpperChar(s[i])
    ensures forall i | 0 <= i < |s| :: !('a' <= r[i] <= 'z')
    ensures forall i | 0 <= i < |s| :: !('a' <= s[i] <= 'z') ==> r[i] == s[i]
  {
    seq(|s|, i requires 0 <= i < |s| => UpperChar(s[i]))
  }

  /** Ruby's `String#<=>`: code-point lexicographic order, a proper prefix first. */
  function Compare(a: string, b: string): (r: int)
    ensures -1 <= r <= 1
    ensures r == 0 <==> a == b
  {
    if a == [] && b == [] then 0
    else if a == [] then -1
    else if b == [] then 1
    else if a[0] < b[0] then -1
    else if a[0] > b[0] then 1
    else
      assert a == [a[0]] + a[1..] && b == [b[0]] + b[1..];
      Compare(a[1..], b[1..])
  }

  lemma {:induction false} CompareAntisymmetric(a: string, b: string)
    ensures Compare(b, a) == -Compare(a, b)
  {
    if a != [] && b != [] && a[0] == b[0] {
      CompareAntisymmetric(a[1..], b[1..]);
    }
  }

  lemma {:induction false} CompareTransitive(a: string, b: string, c: string)
    requires Compare(a, b) < 0 && Compare(b, c) < 0
    ensures Compare(a, c) < 0
  {
    if a != [] && b != [] && c != [] && a[0] == b[0] && b[0] == c[0] {
      CompareTransitive(a[1..], b[1..], c[1..]);
    }
  }

  /** Ruby's `s.start_with?(p)`, also the regular expression `^p` on one line. */
  predicate StartsWith(s: string, p: string) {
    |p| <= |s| && s[..|p|] == p
  }

  /** The regular expression `/p/` for a literal `p`: `p` occurs somewhere in `s`. */
  predicate Contains(s: string, p: string)
    decreases |s|
  {
    StartsWith(s, p) || (s != [] && Contains(s[1..], p))
  }

  lemma {:induction false} ContainsAt(s: string, p: string, i: nat)
    requires i + |p| <= |s| && s[i..i + |p|] == p
    ensures Contains(s, p)
    decreases i
  {
    if i > 0 {
      assert s[1..][i - 1..i - 1 + |p|] == s[i..i + |p|];
      ContainsAt(s[1..], p, i - 1);
    }
  }

  /** All pieces of `s` between occurrences of `sep`, left to right (Ruby's
      `split` with a literal separator, before trailing empty pieces are dropped). */
  function SplitAll(s: string, sep: string): (ps: seq<string>)
    requires sep != []
    ensures |ps| >= 1
    ensures StartsWith(s, ps[0])
    ensures forall i | 0 <= i < |ps| :: !Contains(ps[i], sep)
    decreases |s|
  {
    if StartsWith(s, sep) then
      var rest := SplitAll(s[|sep|..], sep);
      assert !Contains("", sep);
      [""] + rest
    else if s == [] then [""]
    else
      var rest := SplitAll(s[1..], sep);
      var first := [s[0]] + rest[0];
      assert first[1..] == rest[0];
      assert !StartsWith(first, sep);
      assert s[..|first|] == first;
      [first] + rest[1..]
  }

  /** A text without the separator character splits into itself. */
  lemma {:induction false} SplitAllNoChar(b: string, c: char)
    requires c !in b
    ensures SplitAll(b, [c]) == [b]
    decreases |b|
  {
    if b != [] {
      assert c !in b[1..] by {
        forall k | 0 <= k < |b[1..]| ensures b[1..][k] != c {
          assert b[1..][k] == b[k + 1];
        }
      }
      SplitAllNoChar(b[1..], c);
      assert [b[0]] + b[1..] == b;
    }
  }

  /** Splitting on one character cuts at its first occurrence. */
  lemma {:induction false} SplitAllAtChar(a: string, c: char, b: string)
    requires c !in a
    ensures SplitAll(a + [c] + b, [c]) == [a] + SplitAll(b, [c])
    decreases |a|
  {
    var s := a + [c] + b;
    if a == [] {
      assert s == [c] + b && s[1..] == b;
    } else {
      assert s[0] == a[0] && !StartsWith(s, [c]);
      assert s[1..] == a[1..] + [c] + b;
      assert c !in a[1..] by {
        forall k | 0 <= k < |a[1..]| ensures a[1..][k] != c {
          assert a[1..][k] == a[k + 1];
        }
      }
      SplitAllAtChar(a[1..], c, b);
      assert [s[0]] + a[1..] == a;
    }
  }

  /** Pieces of `s` between characters of `seps` (Ruby's `split(/\(|\)/)` for `{'(', ')'}`). */
  function SplitChars(s: string, seps: set<char>): (ps: seq<string>)
    ensures |ps| >= 1
    ensures forall i, j | 0 <= i < |ps| && 0 <= j < |ps[i]| :: ps[i][j] !in seps
  {
    if s == [] then [""]
    else if s[0] in seps then [""] + SplitChars(s[1..], seps)
    else
      var rest := SplitChars(s[1..], seps);
      [[s[0]] + rest[0]] + rest[1..]
  }

  /** Splitting on characters cuts at the first separator. */
  lemma {:induction false} SplitCharsAt(a: string, c: char, b: string, seps: set<char>)
    requires c in seps && forall k | 0 <= k < |a| :: a[k] !in seps
    ensures SplitChars(a + [c] + b, seps) == [a] + SplitChars(b, seps)
    decreases |a|
  {
    var s := a + [c] + b;
    if a == [] {
      assert s == [c] + b && s[1..] == b;
    } else {
      assert s[0] == a[0] && s[1..] == a[1..] + [c] + b;
      assert forall k | 0 <= k < |a[1..]| :: a[1..][k] == a[k + 1];
      SplitCharsAt(a[1..], c, b, seps);
      assert [s[0]] + a[1..] == a;
    }
  }

  /** The characters of `s` that are not in `seps`, in order. */
  function Without(s: string, seps: set<char>): string {
    if s == [] then [] else (if s[0] in seps then [] else [s[0]]) + Without(s[1..], seps)
  }

  /** The pieces one after another. */
  function Concat(ps: seq<string>): string {
    if ps == [] then [] else ps[0] + Concat(ps[1..])
  }

  /** Splitting on characters loses only the separators: the pieces spell
      out the text without them, and there is one more piece than there were
      separators. */
  lemma {:induction false} SplitCharsParts(s: string, seps: set<char>)
    ensures Concat(SplitChars(s, seps)) == Without(s, seps)
    ensures |SplitChars(s, seps)| == 1 + |s| - |Without(s, seps)|
  {
    if s != [] {
      var rest := SplitChars(s[1..], seps);
      var ps := SplitChars(s, seps);
      SplitCharsParts(s[1..], seps);
      if s[0] in seps {
        assert ps == [""] + rest;
        assert ps[1..] == rest;
        assert Without(s, seps) == Without(s[1..], seps);
      } else {
        assert ps == [[s[0]] + rest[0]] + rest[1..];
        assert ps[1..] == rest[1..];
        var tail := Concat(rest[1..]);
        assert Concat(rest) == rest[0] + tail;
        assert Concat(ps) == ([s[0]] + rest[0]) + tail;
        assert ([s[0]] + rest[0]) + tail == [s[0]] + (rest[0] + tail);
        assert Without(s, seps) == [s[0]] + Without(s[1..], seps);
      }
    }
  }

  function Join(ps: seq<string>, sep: string): string {
    if ps == [] then "" else if |ps| == 1 then ps[0] else ps[0] + sep + Join(ps[1..], sep)
  }

  /** A leading empty piece joins as a leading separator. */
  lemma JoinEmptyFirst(rest: seq<string>, sep: string)
    requires |rest| >= 1
    ensures Join([""] + rest, sep) == sep + Join(rest, sep)
  {
    var ps := [""] + rest;
    assert ps[0] == "" && ps[1..] == rest;
    assert "" + sep == sep;
  }

  /** A character glued to the first piece comes first in the joined text. */
  lemma JoinGlued(c: char, rest: seq<string>, sep: string)
    requires |rest| >= 1
    ensures Join([[c] + rest[0]] + rest[1..], sep) == [c] + Join(rest, sep)
  {
    var ps := [[c] + rest[0]] + rest[1..];
    if |rest| == 1 {
      assert ps == [[c] + rest[0]];
    } else {
      assert ps[0] == [c] + rest[0] && ps[1..] == rest[1..];
      var tail := Join(rest[1..], sep);
      assert Join(ps, sep) == [c] + rest[0] + sep + tail;
      assert Join(rest, sep) == rest[0] + sep + tail;
      assert [c] + rest[0] + sep + tail == [c] + (rest[0] + sep + tail);
    }
  }

  /** Splitting on a separator loses nothing: joining the pieces back gives the line. */
  lemma {:induction false} SplitAllJoin(s: string, sep: string)
    requires sep != []
    ensures Join(SplitAll(s, sep), sep) == s
    decreases |s|
  {
    if StartsWith(s, sep) {
      var after := s[|sep|..];
      SplitAllJoin(after, sep);
      JoinEmptyFirst(SplitAll(after, sep), sep);
      assert s == s[..|sep|] + after;
    } else if s != [] {
      SplitAllJoin(s[1..], sep);
      JoinGlued(s[0], SplitAll(s[1..], sep), sep);
      assert s == [s[0]] + s[1..];
    }
  }

  /** Ruby's `split` drops the empty pieces at the end of the result. */
  function DropTrailingEmpty(ps: seq<string>): (r: seq<string>)
    ensures |r| <= |ps| && r == ps[..|r|]
    ensures r == [] || r[|r| - 1] != []
    ensures forall i | |r| <= i < |ps| :: ps[i] == []
  {
    if ps != [] && ps[|ps| - 1] == [] then DropTrailingEmpty(ps[..|ps| - 1]) else ps
  }

  /** `s.split(sep)[i]` for a literal separator. */
  function SplitPiece(s: string, sep: string, i: nat): Option<string>
    requires sep != []
  {
    var ps := DropTrailingEmpty(SplitAll(s, sep));
    if i < |ps| then Some(ps[i]) else None
  }

  /** `s.split(/\(|\)/)[i]`. */
  function ParenPiece(s: string, i: nat): Option<string> {
    var ps := DropTrailingEmpty(SplitChars(s, {'(', ')'}));
    if i < |ps| then Some(ps[i]) else None
  }

  /** Ruby's `chomp`: one trailing "\r\n", "\n" or "\r" removed. */
  function Chomp(s: string): string {
    if |s| >= 2 && s[|s| - 2..] == "\r\n" then s[..|s| - 2]
    else if |s| >= 1 && (s[|s| - 1] == '\n' || s[|s| - 1] == '\r') then s[..|s| - 1]
    else s
  }

  function DigitChar(d: nat): char
    requires d < 10
  {
    "0123456789"[d]
  }

  /** Ruby's `Integer#to_s`. */
  function NatToString(n: nat): (s: string)
    ensures s != [] && AllDigits(s)
  {
    if n < 10 then [DigitChar(n)] else NatToString(n / 10) + [DigitChar(n % 10)]
  }

  /** The number a string of decimal digits denotes. */
  function DigitsValue(s: string): nat
    requires AllDigits(s)
  {
    if s == [] then 0 else DigitsValue(s[..|s| - 1]) * 10 + (s[|s| - 1] as int - '0' as int)
  }

  /** `to_s` and reading the digits back are inverse. */
  lemma {:induction false} NatToStringValue(n: nat)
    ensures DigitsValue(NatToString(n)) == n
  {
    if n >= 10 {
      NatToStringValue(n / 10);
      var s := NatToString(n / 10) + [DigitChar(n % 10)];
      assert s[..|s| - 1] == NatToString(n / 10);
    }
  }

  /** The digits that start `s`. */
  function LeadingDigits(s: string): (d: string)
    ensures AllDigits(d) && |d| <= |s| && d == s[..|d|]
    ensures |d| == |s| || !IsDigit(s[|d|])
  {
    if s == [] || !IsDigit(s[0]) then []
    else
      var rest := LeadingDigits(s[1..]);
      assert s[1..][..|rest|] == s[1..|rest| + 1];
      [s[0]] + rest
  }

  lemma {:induction false} LeadingDigitsOf(d: string, r: string)
    requires AllDigits(d)
    requires r == [] || !IsDigit(r[0])
    ensures LeadingDigits(d + r) == d
    decreases |d|
  {
    if d == [] {
      assert d + r == r;
    } else {
      assert (d + r)[1..] == d[1..] + r;
      LeadingDigitsOf(d[1..], r);
    }
  }
}
