/** Geometry blocks of a LEF macro: a `LAYER` with its coordinate lines, and
    an obstruction (`OBS`) or pin port (`PORT`), which is a collection of
    layers.  Start predicates, the coordinate rewrite, the orderings used by
    `sort!` and `print`, and the printed form. */
module Geometry {
  import opened Wrappers
  import opened Text
  import opened Numbers
  import opened Ordering
  import opened Hashes

  /** A `LAYER` statement: its line as read, the text after `"LAYER "`, and
      its rewritten coordinate lines. */
  datatype Layer = Layer(startLine: string, name: string, coordinates: seq<string>)

  /** An `OBS` or `PORT` block: its first line, its layers by name, and the
      line that ended it. */
  datatype LayerCollection = LayerCollection(startLine: string, layers: Hash<string, Layer>, endLine: string)

  /** `Layer.start_line?`: `/^\s*LAYER/`. */
  predicate IsLayerStart(line: string) {
    StartsWith(TrimLeft(line), "LAYER")
  }

  /** `LayerCollection.start_line?`: `/^\s*(OBS)|(PORT)/`, which by the
      precedence of `|` reads "starts with OBS, or contains PORT anywhere". */
  predicate IsCollectionStart(line: string) {
    StartsWith(TrimLeft(line), "OBS") || Contains(line, "PORT")
  }

  /** `/(LAYER)|(END)/`: the line that ends a list of coordinates. */
  predicate EndsCoordinates(line: string) {
    Contains(line, "LAYER") || Contains(line, "END")
  }

  /** The layer order the tool selects by default (`"s40"`). */
  const S40Order: seq<string> := ["LP_HVTP", "LP_HVTN", "CONT", "ME1", "VI1", "ME2", "VI2", "ME3"]

  /** `recognized_layer?`: the first word of the layer name is in the active
      layer order. */
  predicate Recognized(vocab: seq<string>, name: string) {
    TokenAt(name, 0).Some? && TokenAt(name, 0).value in vocab
  }

  // ---------------------------------------------------------------------
  // Coordinate lines

  /** Index of the first word character, `|s|` when there is none. */
  function FirstWordIndex(s: string): (n: nat)
    ensures n <= |s|
    ensures forall k | 0 <= k < n :: !IsWordChar(s[k])
    ensures n < |s| ==> IsWordChar(s[n])
  {
    if s == [] || IsWordChar(s[0]) then 0 else 1 + FirstWordIndex(s[1..])
  }

  /** `line.split(/\w/)[0]`: the text before the first word character (the
      whole line when it has none); nil when the line is made of word
      characters only, because then every piece is empty and Ruby drops them. */
  function BeforeFirstWord(line: string): Option<string> {
    if forall k | 0 <= k < |line| :: IsWordChar(line[k]) then None
    else Some(line[..FirstWordIndex(line)])
  }

  /** The four coordinate fields, each preceded by a space. */
  function Fields(fs: seq<string>): string {
    if fs == [] then "" else " " + NormalizeField(fs[0]) + Fields(fs[1..])
  }

  /** The rewrite of one coordinate line (after its semicolon repair): the text
      before the first word character, the first token, the next four tokens
      each through `NormalizeField`, and `" ;\n"`; tokens after the fourth
      field are dropped.  `None` where the tool fails on nil: fewer than five
      tokens, or a line of word characters only. */
  function NormalizeCoordinate(line: string): (r: Option<string>)
    ensures r.None? <==> |Tokens(line)| < 5 || forall k | 0 <= k < |line| :: IsWordChar(line[k])
  {
    var ps := Tokens(line);
    match BeforeFirstWord(line)
    case None => None
    case Some(prefix) =>
      if |ps| < 5 then None else Some(prefix + ps[0] + Fields(ps[1..5]) + " ;\n")
  }

  /** The line's first non-blank character is a word character, as in every
      LEF geometry statement (`RECT`, `POLYGON`, `PATH`, ...). */
  predicate WordLed(line: string) {
    TrimLeft(line) != [] && IsWordChar(TrimLeft(line)[0])
  }

  function MapNormalize(fs: seq<string>): (r: seq<string>)
    ensures |r| == |fs|
    ensures forall k | 0 <= k < |fs| :: r[k] == NormalizeField(fs[k])
  {
    if fs == [] then [] else [NormalizeField(fs[0])] + MapNormalize(fs[1..])
  }

  /** One coordinate field: a field with a point and four digits is kept as
      written; any other field becomes the same number with exactly three
      fractional digits; either way it stays one token and rewriting it again
      changes nothing. */
  lemma NormalizeFieldMeaning(t: string)
    ensures HasLongFraction(t) ==> NormalizeField(t) == t
    ensures !HasLongFraction(t) ==>
      ToF(NormalizeField(t)) == ToF(t) && |NumericPrefix(NormalizeField(t)).fracDigits| == 3
    ensures t != [] && NoSpace(t) ==> NormalizeField(t) != [] && NoSpace(NormalizeField(t))
    ensures NormalizeField(NormalizeField(t)) == NormalizeField(t)
  {
    if !HasLongFraction(t) {
      Fixed3Meaning(t);
      FractionAtMostThree(t);
      assert Render(NumericPrefix(t))[|Render(NumericPrefix(t))| - 4] == '.';
    }
  }

  lemma SpaceLedTokens(r: string)
    requires |r| >= 1 && IsSpace(r[0])
    ensures Tokens(r) == Tokens(r[1..])
  {
  }

  /** `" ;\n"` is the single token `;`. */
  lemma SemicolonEndTokens()
    ensures Tokens(" ;\n") == [";"]
  {
    SpaceLedTokens(" ;\n");
    assert (" ;\n")[1..] == ";" + "\n";
    TokensOfWord(";", "\n");
    assert Tokens("\n") == Tokens("");
  }

  /** A space, a word and a space-led rest tokenise as the word followed by
      the tokens of the rest. */
  lemma SpacedWordTokens(f: string, rest: string)
    requires f != [] && NoSpace(f)
    requires rest != [] && IsSpace(rest[0])
    ensures Tokens(" " + (f + rest)) == [f] + Tokens(rest)
  {
    SpaceLedTokens(" " + (f + rest));
    assert (" " + (f + rest))[1..] == f + rest;
    TokensOfWord(f, rest);
  }

  /** The text after the first word of a rewritten line starts with a space. */
  lemma FieldsTailSpaceLed(fs: seq<string>)
    ensures var rest := Fields(fs) + " ;\n"; rest != [] && IsSpace(rest[0])
  {
    if fs == [] {
      assert Fields(fs) + " ;\n" == " ;\n";
    }
  }

  lemma FieldsCons(fs: seq<string>)
    requires fs != []
    ensures Fields(fs) + " ;\n" == " " + (NormalizeField(fs[0]) + (Fields(fs[1..]) + " ;\n"))
  {
    ConcatAssoc(" ", NormalizeField(fs[0]), Fields(fs[1..]), " ;\n");
  }

  /** A rewritten field is still one token. */
  lemma NormalizeFieldWord(t: string)
    requires t != [] && NoSpace(t)
    ensures NormalizeField(t) != [] && NoSpace(NormalizeField(t))
  {
    NormalizeFieldMeaning(t);
  }

  lemma {:induction false} FieldsTokens(fs: seq<string>)
    requires forall k | 0 <= k < |fs| :: fs[k] != [] && NoSpace(fs[k])
    ensures Tokens(Fields(fs) + " ;\n") == MapNormalize(fs) + [";"]
  {
    if fs == [] {
      assert Fields(fs) + " ;\n" == " ;\n";
      SemicolonEndTokens();
    } else {
      FieldsTokens(fs[1..]);
      FieldsTokensCons(fs);
    }
  }

  lemma FieldsTokensCons(fs: seq<string>)
    requires fs != [] && fs[0] != [] && NoSpace(fs[0])
    requires Tokens(Fields(fs[1..]) + " ;\n") == MapNormalize(fs[1..]) + [";"]
    ensures Tokens(Fields(fs) + " ;\n") == MapNormalize(fs) + [";"]
  {
    var f := NormalizeField(fs[0]);
    var rest := Fields(fs[1..]) + " ;\n";
    NormalizeFieldWord(fs[0]);
    FieldsCons(fs);
    FieldsTailSpaceLed(fs[1..]);
    SpacedWordTokens(f, rest);
    var tail := MapNormalize(fs[1..]);
    calc {
      Tokens(Fields(fs) + " ;\n");
      Tokens(" " + (f + rest));
      [f] + Tokens(rest);
      [f] + (tail + [";"]);
      { assert [f] + (tail + [";"]) == ([f] + tail) + [";"]; }
      ([f] + tail) + [";"];
      MapNormalize(fs) + [";"];
    }
  }

  lemma {:induction false} FieldsStable(fs: seq<string>)
    ensures Fields(MapNormalize(fs)) == Fields(fs)
  {
    if fs != [] {
      NormalizeFieldMeaning(fs[0]);
      FieldsStable(fs[1..]);
      assert MapNormalize(fs)[1..] == MapNormalize(fs[1..]);
    }
  }

  /** A line with two tokens has a character that is no word character. */
  lemma TwoTokensHaveSpace(line: string)
    requires |Tokens(line)| >= 2
    ensures exists k | 0 <= k < |line| :: !IsWordChar(line[k])
  {
    if IsSpace(line[0]) {
      assert !IsWordChar(line[0]);
    } else {
      var n := RunLength(line);
      assert IsSpace(line[n]);
    }
  }

  lemma FirstWordOfWordLed(line: string)
    requires WordLed(line)
    ensures FirstWordIndex(line) == |line| - |TrimLeft(line)|
  {
  }

  /** On a word-led line of two or more tokens, the text before the first
      word character is the indentation. */
  lemma IndentBeforeFirstWord(line: string)
    requires WordLed(line) && |Tokens(line)| >= 2
    ensures BeforeFirstWord(line) == Some(line[..|line| - |TrimLeft(line)|])
  {
    TwoTokensHaveSpace(line);
    FirstWordOfWordLed(line);
  }

  /** A word-led line has the tokens of its unindented text, and its first
      token starts with a word character. */
  lemma FirstTokenWordLed(line: string)
    requires WordLed(line)
    ensures Tokens(line) == Tokens(TrimLeft(line))
    ensures Tokens(line) != [] && IsWordChar(Tokens(line)[0][0])
  {
    var t := TrimLeft(line);
    var n := |line| - |t|;
    assert line == line[..n] + t;
    TokensAfterSpaces(line[..n], t);
    assert Tokens(t)[0] == t[..RunLength(t)];
  }

  /** Indentation, a word and the rewritten fields tokenise as the word, the
      normalised fields and `;`. */
  lemma CoordinateTokens(ws: string, w: string, fs: seq<string>)
    requires IsBlank(ws) && w != [] && NoSpace(w)
    requires forall k | 0 <= k < |fs| :: fs[k] != [] && NoSpace(fs[k])
    ensures Tokens(ws + w + Fields(fs) + " ;\n") == [w] + MapNormalize(fs) + [";"]
  {
    var tail := Fields(fs) + " ;\n";
    ConcatAssoc(ws, w, Fields(fs), " ;\n");
    TokensAfterSpaces(ws, w + tail);
    FieldsTailSpaceLed(fs);
    TokensOfWord(w, tail);
    FieldsTokens(fs);
    SeqAssoc([w], MapNormalize(fs), [";"]);
  }

  lemma SeqAssoc(a: seq<string>, b: seq<string>, c: seq<string>)
    ensures a + (b + c) == a + b + c
  {
  }

  /** The rewrite of a coordinate line (`RECT`, `POLYGON`, ... after any
      indentation) with at least five tokens: the original indentation, the
      first token, the next four tokens each through `NormalizeField`, and
      `" ;\n"`.  Its tokens are exactly the first token, the four normalised
      fields and `;`: later tokens are dropped. */
  lemma NormalizeCoordinateShape(line: string)
    requires WordLed(line) && |Tokens(line)| >= 5
    ensures var ws := line[..|line| - |TrimLeft(line)|];
      var ps := Tokens(line);
      NormalizeCoordinate(line) == Some(ws + ps[0] + Fields(ps[1..5]) + " ;\n")
    ensures var c := NormalizeCoordinate(line).value;
      var ps := Tokens(line);
      && Tokens(c) == [ps[0]] + MapNormalize(ps[1..5]) + [";"]
      && c[|c| - 3..] == " ;\n"
  {
    var ws := line[..|line| - |TrimLeft(line)|];
    var ps := Tokens(line);
    var fs := ps[1..5];
    IndentBeforeFirstWord(line);
    var c := ws + ps[0] + Fields(fs) + " ;\n";
    assert NormalizeCoordinate(line) == Some(c);
    FieldTokens(ps);
    CoordinateTokens(ws, ps[0], fs);
    assert c[|c| - 3..] == " ;\n";
  }

  /** The four fields after the first token are tokens themselves. */
  lemma FieldTokens(ps: seq<string>)
    requires |ps| >= 5 && forall k | 0 <= k < |ps| :: ps[k] != [] && NoSpace(ps[k])
    ensures forall k | 0 <= k < |ps[1..5]| :: ps[1..5][k] != [] && NoSpace(ps[1..5][k])
  {
    forall k | 0 <= k < 4 ensures ps[1..5][k] != [] && NoSpace(ps[1..5][k]) {
      assert ps[1..5][k] == ps[k + 1];
    }
  }

  /** A rewritten line is itself a word-led coordinate line, indented as
      before, whose own rewrite normalises the already normalised fields. */
  lemma RewriteOfRewritten(ws: string, w: string, fs: seq<string>)
    requires IsBlank(ws) && w != [] && NoSpace(w) && IsWordChar(w[0])
    requires |fs| == 4 && forall k | 0 <= k < |fs| :: fs[k] != [] && NoSpace(fs[k])
    ensures NormalizeCoordinate(ws + w + Fields(fs) + " ;\n") == Some(ws + w + Fields(MapNormalize(fs)) + " ;\n")
  {
    var c := ws + w + Fields(fs) + " ;\n";
    var tail := Fields(fs) + " ;\n";
    assert TrimLeft(c) == w + tail by {
      ConcatAssoc(ws, w, Fields(fs), " ;\n");
      TrimLeftAfterBlank(ws, w + tail);
    }
    CoordinateTokens(ws, w, fs);
    var qs := Tokens(c);
    assert qs[0] == w && qs[1..5] == MapNormalize(fs);
    NormalizeCoordinateShape(c);
    assert c[..|c| - |TrimLeft(c)|] == ws;
  }

  /** Rewriting a rewritten coordinate line changes nothing. */
  lemma NormalizeCoordinateIdempotent(line: string, c: string)
    requires WordLed(line) && |Tokens(line)| >= 5
    requires NormalizeCoordinate(line) == Some(c)
    ensures NormalizeCoordinate(c) == Some(c)
  {
    var ws := line[..|line| - |TrimLeft(line)|];
    var ps := Tokens(line);
    var w := ps[0];
    var fs := ps[1..5];
    NormalizeCoordinateShape(line);
    assert c == ws + w + Fields(fs) + " ;\n";
    FirstTokenWordLed(line);
    assert IsBlank(ws) && w != [] && NoSpace(w) && IsWordChar(w[0]);
    FieldTokens(ps);
    RewriteOfRewritten(ws, w, fs);
    FieldsStable(fs);
  }

  lemma ConcatAssoc(a: string, b: string, c: string, d: string)
    ensures a + b + c + d == a + (b + (c + d))
  {
  }

  lemma TrimLeftAfterBlank(ws: string, x: string)
    requires IsBlank(ws)
    requires x != [] && !IsSpace(x[0])
    ensures TrimLeft(ws + x) == x
  {
    var s := ws + x;
    var r := TrimLeft(s);
    assert r == s[|ws|..];
  }

  // ---------------------------------------------------------------------
  // Orderings

  /** Ruby's `Float#<=>` on two numbers read by `to_f`. */
  function CompareReal(a: real, b: real): (r: int)
    ensures r == 0 <==> a == b
    ensures r < 0 <==> a < b
    ensures r > 0 <==> a > b
  {
    if a < b then -1 else if a > b then 1 else 0
  }

  /** The value `zip` pairs with the `i`-th field of the other line: the
      field read by `to_f`, or `nil.to_f`, which is 0, past its end. */
  function FieldValue(fs: seq<string>, i: nat): real {
    if i < |fs| then ToF(fs[i]) else 0.0
  }

  /** The `zip` loop of `coordSort`: walk the tokens of the first line beside
      those of the second and let the first numerically different pair decide. */
  function ZipCompare(xs: seq<string>, ys: seq<string>): (r: int)
    ensures -1 <= r <= 1
  {
    if xs == [] then 0
    else if ToF(xs[0]) != FieldValue(ys, 0) then CompareReal(ToF(xs[0]), FieldValue(ys, 0))
    else ZipCompare(xs[1..], if ys == [] then [] else ys[1..])
  }

  /** `Layer.coordSort`: the first words in string order, then the fields as
      numbers. */
  function CoordSort(a: string, b: string): (r: int)
    ensures -1 <= r <= 1
  {
    if TokenOrEmpty(a, 0) != TokenOrEmpty(b, 0) then Compare(TokenOrEmpty(a, 0), TokenOrEmpty(b, 0))
    else ZipCompare(Tokens(a), Tokens(b))
  }

  /** The first `k` fields of `xs` equal their partners in `ys`. */
  ghost predicate AgreeUpTo(xs: seq<string>, ys: seq<string>, k: nat)
    requires k <= |xs|
  {
    forall i | 0 <= i < k :: ToF(xs[i]) == FieldValue(ys, i)
  }

  /** The partners of the tail of `xs` are those of `ys` after its first. */
  function RestOf(ys: seq<string>): (r: seq<string>)
    ensures forall i: nat :: FieldValue(r, i) == FieldValue(ys, i + 1)
  {
    if ys == [] then [] else ys[1..]
  }

  lemma AgreeShift(xs: seq<string>, ys: seq<string>, k: nat)
    requires k < |xs|
    ensures AgreeUpTo(xs, ys, k + 1) <==> ToF(xs[0]) == FieldValue(ys, 0) && AgreeUpTo(xs[1..], RestOf(ys), k)
  {
    if ToF(xs[0]) == FieldValue(ys, 0) && AgreeUpTo(xs[1..], RestOf(ys), k) {
      AgreeFromTail(xs, ys, k);
    }
    if AgreeUpTo(xs, ys, k + 1) {
      AgreeOfTail(xs, ys, k);
    }
  }

  lemma AgreeFromTail(xs: seq<string>, ys: seq<string>, k: nat)
    requires k < |xs|
    requires ToF(xs[0]) == FieldValue(ys, 0) && AgreeUpTo(xs[1..], RestOf(ys), k)
    ensures AgreeUpTo(xs, ys, k + 1)
  {
    var ys' := RestOf(ys);
    forall i | 0 < i < k + 1 ensures ToF(xs[i]) == FieldValue(ys, i) {
      assert ToF(xs[1..][i - 1]) == FieldValue(ys', i - 1);
      assert xs[1..][i - 1] == xs[i];
      assert FieldValue(ys', i - 1) == FieldValue(ys, i);
    }
  }

  lemma AgreeOfTail(xs: seq<string>, ys: seq<string>, k: nat)
    requires k < |xs|
    requires AgreeUpTo(xs, ys, k + 1)
    ensures AgreeUpTo(xs[1..], RestOf(ys), k)
  {
    var ys' := RestOf(ys);
    forall i | 0 <= i < k ensures ToF(xs[1..][i]) == FieldValue(ys', i) {
      assert ToF(xs[i + 1]) == FieldValue(ys, i + 1);
      assert xs[1..][i] == xs[i + 1];
      assert FieldValue(ys', i) == FieldValue(ys, i + 1);
    }
  }

  /** The first field pair whose numbers differ decides the zip comparison;
      it is 0 exactly when every field of the first line equals its partner. */
  lemma {:induction false} ZipCompareFirstDifference(xs: seq<string>, ys: seq<string>)
    ensures ZipCompare(xs, ys) == 0 <==> AgreeUpTo(xs, ys, |xs|)
    ensures ZipCompare(xs, ys) != 0 ==> exists k | 0 <= k < |xs| ::
      && AgreeUpTo(xs, ys, k)
      && ZipCompare(xs, ys) == CompareReal(ToF(xs[k]), FieldValue(ys, k))
  {
    if xs != [] {
      var ys' := RestOf(ys);
      AgreeShift(xs, ys, |xs| - 1);
      if ToF(xs[0]) == FieldValue(ys, 0) {
        assert ZipCompare(xs, ys) == ZipCompare(xs[1..], ys');
        ZipCompareFirstDifference(xs[1..], ys');
        if ZipCompare(xs, ys) != 0 {
          var k :| 0 <= k < |xs[1..]| && AgreeUpTo(xs[1..], ys', k)
            && ZipCompare(xs[1..], ys') == CompareReal(ToF(xs[1..][k]), FieldValue(ys', k));
          AgreeShift(xs, ys, k);
          assert xs[1..][k] == xs[k + 1];
        }
      } else {
        assert ZipCompare(xs, ys) != 0;
        assert AgreeUpTo(xs, ys, 0);
      }
    }
  }

  /** Between lines with the same number of tokens, `coordSort` is
      antisymmetric. */
  lemma {:induction false} ZipCompareAntisymmetric(xs: seq<string>, ys: seq<string>)
    requires |xs| == |ys|
    ensures ZipCompare(ys, xs) == -ZipCompare(xs, ys)
  {
    if xs != [] && ToF(xs[0]) == ToF(ys[0]) {
      ZipCompareAntisymmetric(xs[1..], ys[1..]);
    }
  }

  lemma CoordSortAntisymmetric(a: string, b: string)
    requires |Tokens(a)| == |Tokens(b)|
    ensures CoordSort(b, a) == -CoordSort(a, b)
  {
    CompareAntisymmetric(TokenOrEmpty(a, 0), TokenOrEmpty(b, 0));
    ZipCompareAntisymmetric(Tokens(a), Tokens(b));
  }

  /** Between lines with the same number of tokens, the zip walk is
      transitive. */
  lemma {:induction false} ZipCompareTransitive(xs: seq<string>, ys: seq<string>, zs: seq<string>)
    requires |xs| == |ys| == |zs|
    ensures ZipCompare(xs, ys) <= 0 && ZipCompare(ys, zs) <= 0 ==> ZipCompare(xs, zs) <= 0
  {
    if xs != [] && ToF(xs[0]) == ToF(ys[0]) && ToF(ys[0]) == ToF(zs[0]) {
      ZipCompareTransitive(xs[1..], ys[1..], zs[1..]);
    }
  }

  lemma CoordSortTransitive(a: string, b: string, c: string)
    requires |Tokens(a)| == |Tokens(b)| == |Tokens(c)|
    ensures CoordSort(a, b) <= 0 && CoordSort(b, c) <= 0 ==> CoordSort(a, c) <= 0
  {
    var ta, tb, tc := TokenOrEmpty(a, 0), TokenOrEmpty(b, 0), TokenOrEmpty(c, 0);
    CompareAntisymmetric(ta, tb);
    if Compare(ta, tb) < 0 && Compare(tb, tc) < 0 {
      CompareTransitive(ta, tb, tc);
    }
    ZipCompareTransitive(Tokens(a), Tokens(b), Tokens(c));
  }

  /** Lines of `n` tokens; every coordinate line the parser writes has six
      (the first word, four fields and `;`). */
  function WidthIs(n: nat): string -> bool {
    (line: string) => |Tokens(line)| == n
  }

  /** On lines of one width, `coordSort` is a signed preorder. */
  lemma CoordSortSignedPreorder(n: nat)
    ensures SignedPreorderOn(CoordSort, WidthIs(n))
  {
    forall a: string, b: string | WidthIs(n)(a) && WidthIs(n)(b)
      ensures CoordSort(b, a) == -CoordSort(a, b)
    {
      CoordSortAntisymmetric(a, b);
    }
    forall a: string, b: string, c: string | WidthIs(n)(a) && WidthIs(n)(b) && WidthIs(n)(c)
      ensures CoordSort(a, b) <= 0 && CoordSort(b, c) <= 0 ==> CoordSort(a, c) <= 0
    {
      CoordSortTransitive(a, b, c);
    }
  }

  /** Sorting coordinate lines of one width by `coordSort` leaves them in
      `coordSort` order. */
  lemma CoordinatesSorted(coords: seq<string>)
    ensures forall n: nat :: AllAdmitted(WidthIs(n), coords) ==> Sorted(CoordSort, SortBy(CoordSort, coords))
  {
    forall n: nat | AllAdmitted(WidthIs(n), coords)
      ensures Sorted(CoordSort, SortBy(CoordSort, coords))
    {
      CoordSortSignedPreorder(n);
      SignedPreorderIsTotal(CoordSort, WidthIs(n));
      SortBySortedOn(CoordSort, WidthIs(n), coords);
    }
  }

  /** The per-line loop of `Layer.compare_to` over two coordinate lists of the
      same length: the first non-zero `coordSort`. */
  function CoordinatesCompare(xs: seq<string>, ys: seq<string>): (r: int)
    requires |xs| == |ys|
    ensures -1 <= r <= 1
  {
    if xs == [] then 0
    else if CoordSort(xs[0], ys[0]) != 0 then CoordSort(xs[0], ys[0])
    else CoordinatesCompare(xs[1..], ys[1..])
  }

  /** `Layer.compare_to`: fewer coordinate lines first, then line by line. */
  function LayerCompare(x: Layer, y: Layer): (r: int)
    ensures -1 <= r <= 1
    ensures |x.coordinates| < |y.coordinates| ==> r < 0
    ensures |x.coordinates| > |y.coordinates| ==> r > 0
  {
    if |x.coordinates| != |y.coordinates| then CompareInt(|x.coordinates|, |y.coordinates|)
    else CoordinatesCompare(x.coordinates, y.coordinates)
  }

  /** The first `k` line pairs compare equal under `coordSort`. */
  ghost predicate TiedUpTo(xs: seq<string>, ys: seq<string>, k: nat)
    requires k <= |xs| == |ys|
  {
    forall i | 0 <= i < k :: CoordSort(xs[i], ys[i]) == 0
  }

  lemma TiedShift(xs: seq<string>, ys: seq<string>, k: nat)
    requires k < |xs| == |ys|
    ensures TiedUpTo(xs, ys, k + 1) <==> CoordSort(xs[0], ys[0]) == 0 && TiedUpTo(xs[1..], ys[1..], k)
  {
    if CoordSort(xs[0], ys[0]) == 0 && TiedUpTo(xs[1..], ys[1..], k) {
      TiedExtend(xs, ys, k);
    }
    if TiedUpTo(xs, ys, k + 1) {
      TiedTail(xs, ys, k);
    }
  }

  lemma TiedExtend(xs: seq<string>, ys: seq<string>, k: nat)
    requires k < |xs| == |ys|
    requires CoordSort(xs[0], ys[0]) == 0 && TiedUpTo(xs[1..], ys[1..], k)
    ensures TiedUpTo(xs, ys, k + 1)
  {
    forall i | 0 < i < k + 1 ensures CoordSort(xs[i], ys[i]) == 0 {
      assert xs[1..][i - 1] == xs[i] && ys[1..][i - 1] == ys[i];
    }
  }

  lemma TiedTail(xs: seq<string>, ys: seq<string>, k: nat)
    requires k < |xs| == |ys|
    requires TiedUpTo(xs, ys, k + 1)
    ensures TiedUpTo(xs[1..], ys[1..], k)
  {
    forall i | 0 <= i < k ensures CoordSort(xs[1..][i], ys[1..][i]) == 0 {
      assert xs[1..][i] == xs[i + 1] && ys[1..][i] == ys[i + 1];
    }
  }

  /** Between layers with the same number of coordinate lines, the first pair
      of lines that `coordSort` tells apart decides; the layers compare equal
      exactly when no pair is told apart. */
  lemma {:induction false} CoordinatesCompareFirstDifference(xs: seq<string>, ys: seq<string>)
    requires |xs| == |ys|
    ensures CoordinatesCompare(xs, ys) == 0 <==> TiedUpTo(xs, ys, |xs|)
    ensures CoordinatesCompare(xs, ys) != 0 ==> exists k | 0 <= k < |xs| ::
      && TiedUpTo(xs, ys, k)
      && CoordinatesCompare(xs, ys) == CoordSort(xs[k], ys[k])
  {
    if xs != [] {
      TiedShift(xs, ys, |xs| - 1);
      if CoordSort(xs[0], ys[0]) == 0 {
        assert CoordinatesCompare(xs, ys) == CoordinatesCompare(xs[1..], ys[1..]);
        CoordinatesCompareFirstDifference(xs[1..], ys[1..]);
        if CoordinatesCompare(xs, ys) != 0 {
          var k :| 0 <= k < |xs[1..]| && TiedUpTo(xs[1..], ys[1..], k)
            && CoordinatesCompare(xs[1..], ys[1..]) == CoordSort(xs[1..][k], ys[1..][k]);
          TiedShift(xs, ys, k);
          assert xs[1..][k] == xs[k + 1] && ys[1..][k] == ys[k + 1];
        }
      } else {
        assert CoordinatesCompare(xs, ys) != 0;
        assert TiedUpTo(xs, ys, 0);
      }
    }
  }

  /** The per-line loop is the lexicographic walk under `coordSort`. */
  lemma {:induction false} CoordinatesCompareIsLex(xs: seq<string>, ys: seq<string>)
    requires |xs| == |ys|
    ensures CoordinatesCompare(xs, ys) == LexCompare(CoordSort, xs, ys)
  {
    if xs != [] {
      CoordinatesCompareIsLex(xs[1..], ys[1..]);
    }
  }

  /** Layers whose coordinate lines all have `n` tokens. */
  function LayerWidthIs(n: nat): Layer -> bool {
    (l: Layer) => AllAdmitted(WidthIs(n), l.coordinates)
  }

  /** On layers of one width, `Layer.compare_to` is a signed preorder. */
  lemma LayerCompareSignedPreorder(n: nat)
    ensures SignedPreorderOn(LayerCompare, LayerWidthIs(n))
  {
    CoordSortSignedPreorder(n);
    forall x: Layer, y: Layer | LayerWidthIs(n)(x) && LayerWidthIs(n)(y)
      ensures LayerCompare(y, x) == -LayerCompare(x, y)
    {
      if |x.coordinates| == |y.coordinates| {
        CoordinatesCompareIsLex(x.coordinates, y.coordinates);
        CoordinatesCompareIsLex(y.coordinates, x.coordinates);
        LexFlip(CoordSort, WidthIs(n), x.coordinates, y.coordinates);
      }
    }
    forall x: Layer, y: Layer, z: Layer | LayerWidthIs(n)(x) && LayerWidthIs(n)(y) && LayerWidthIs(n)(z)
      ensures LayerCompare(x, y) <= 0 && LayerCompare(y, z) <= 0 ==> LayerCompare(x, z) <= 0
    {
      if |x.coordinates| == |y.coordinates| == |z.coordinates| {
        CoordinatesCompareIsLex(x.coordinates, y.coordinates);
        CoordinatesCompareIsLex(y.coordinates, z.coordinates);
        CoordinatesCompareIsLex(x.coordinates, z.coordinates);
        LexTransitive(CoordSort, WidthIs(n), x.coordinates, y.coordinates, z.coordinates);
      }
    }
  }

  /** The key walk of `LayerCollection.compare_to` over the two sorted layer
      name lists: at the first differing name, string order; when one list
      runs out first, the collection with more layers sorts first. */
  function KeyListCompare(xs: seq<string>, ys: seq<string>): (r: int)
    ensures -1 <= r <= 1
  {
    if xs == [] then (if ys == [] then 0 else 1)
    else if ys == [] then -1
    else if xs[0] != ys[0] then Compare(xs[0], ys[0])
    else KeyListCompare(xs[1..], ys[1..])
  }

  /** The key walk is 0 only on identical lists, and swapping the lists
      negates it. */
  lemma {:induction false} KeyListCompareZero(xs: seq<string>, ys: seq<string>)
    ensures KeyListCompare(xs, ys) == 0 <==> xs == ys
    ensures KeyListCompare(ys, xs) == -KeyListCompare(xs, ys)
  {
    if xs != [] && ys != [] {
      if xs[0] == ys[0] {
        KeyListCompareZero(xs[1..], ys[1..]);
        assert xs == [xs[0]] + xs[1..] && ys == [ys[0]] + ys[1..];
      } else {
        CompareAntisymmetric(xs[0], ys[0]);
      }
    }
  }

  /** A proper prefix sorts after the longer list. */
  lemma {:induction false} KeyListComparePrefix(xs: seq<string>, ys: seq<string>)
    requires |xs| < |ys| && xs == ys[..|xs|]
    ensures KeyListCompare(xs, ys) == 1
    ensures KeyListCompare(ys, xs) == -1
  {
    if xs != [] {
      assert xs[0] == ys[0];
      assert xs[1..] == ys[1..][..|xs| - 1];
      KeyListComparePrefix(xs[1..], ys[1..]);
    }
  }

  /** Otherwise the first differing name decides, in string order. */
  lemma {:induction false} KeyListCompareFirstDifference(xs: seq<string>, ys: seq<string>, k: nat)
    requires k < |xs| && k < |ys| && xs[..k] == ys[..k] && xs[k] != ys[k]
    ensures KeyListCompare(xs, ys) == Compare(xs[k], ys[k])
  {
    if k > 0 {
      assert xs[0] == xs[..k][0] == ys[..k][0] == ys[0];
      assert xs[1..][..k - 1] == xs[..k][1..] == ys[..k][1..] == ys[1..][..k - 1];
      KeyListCompareFirstDifference(xs[1..], ys[1..], k - 1);
    }
  }

  /** The key walk is transitive. */
  lemma {:induction false} KeyListCompareTransitive(xs: seq<string>, ys: seq<string>, zs: seq<string>)
    ensures KeyListCompare(xs, ys) <= 0 && KeyListCompare(ys, zs) <= 0 ==> KeyListCompare(xs, zs) <= 0
  {
    if xs != [] && ys != [] && zs != [] {
      CompareAntisymmetric(xs[0], ys[0]);
      CompareAntisymmetric(xs[0], zs[0]);
      if Compare(xs[0], ys[0]) < 0 && Compare(ys[0], zs[0]) < 0 {
        CompareTransitive(xs[0], ys[0], zs[0]);
      }
      KeyListCompareTransitive(xs[1..], ys[1..], zs[1..]);
    }
  }

  /** The layer loop of `LayerCollection.compare_to` for two collections with
      the same names: the first layer, in name order, that `Layer.compare_to`
      tells apart decides. */
  function LayersCompare(keys: seq<string>, x: LayerCollection, y: LayerCollection): (r: int)
    ensures -1 <= r <= 1
  {
    if keys == [] then 0
    else
      var c := match (Lookup(x.layers, keys[0]), Lookup(y.layers, keys[0]))
        case (Some(lx), Some(ly)) => LayerCompare(lx, ly)
        case _ => 0;
      if c != 0 then c else LayersCompare(keys[1..], x, y)
  }

  /** `h.keys().sort()`: the keys of a table in string order. */
  function SortedKeys<V>(h: Hash<string, V>): (names: seq<string>)
    ensures multiset(names) == multiset(KeysOf(h))
    ensures Sorted(Compare, names)
  {
    StringOrderStrictTotal();
    SortByPermutes(Compare, KeysOf(h));
    SortBySorted(Compare, KeysOf(h));
    SortBy(Compare, KeysOf(h))
  }

  /** `@layers.keys().sort()`. */
  function SortedNames(c: LayerCollection): (names: seq<string>)
    ensures multiset(names) == multiset(KeysOf(c.layers))
    ensures Sorted(Compare, names)
  {
    SortedKeys(c.layers)
  }

  /** `LayerCollection.compare_to`. */
  function CollectionCompare(x: LayerCollection, y: LayerCollection): (r: int)
    ensures -1 <= r <= 1
  {
    var k := KeyListCompare(SortedNames(x), SortedNames(y));
    if k != 0 then k else LayersCompare(SortedNames(x), x, y)
  }

  /** Port order: when the sorted layer names differ, they alone decide (a
      proper prefix sorts after the longer list, otherwise the first
      differing name in string order); with the same names, the first layer
      in name order that `Layer.compare_to` tells apart decides, and the ports
      compare equal when none is. */
  lemma CollectionCompareMeaning(x: LayerCollection, y: LayerCollection)
    ensures var xs, ys := SortedNames(x), SortedNames(y);
      && (|xs| < |ys| && xs == ys[..|xs|] ==> CollectionCompare(x, y) == 1)
      && (|ys| < |xs| && ys == xs[..|ys|] ==> CollectionCompare(x, y) == -1)
      && (forall k | 0 <= k < |xs| && k < |ys| && xs[..k] == ys[..k] && xs[k] != ys[k] ::
            CollectionCompare(x, y) == Compare(xs[k], ys[k]))
      && (xs == ys ==> CollectionCompare(x, y) == LayersCompare(xs, x, y))
  {
    var xs, ys := SortedNames(x), SortedNames(y);
    KeyListCompareZero(xs, ys);
    if |xs| < |ys| && xs == ys[..|xs|] {
      KeyListComparePrefix(xs, ys);
    }
    if |ys| < |xs| && ys == xs[..|ys|] {
      KeyListComparePrefix(ys, xs);
    }
    forall k | 0 <= k < |xs| && k < |ys| && xs[..k] == ys[..k] && xs[k] != ys[k]
      ensures CollectionCompare(x, y) == Compare(xs[k], ys[k])
    {
      KeyListCompareFirstDifference(xs, ys, k);
    }
  }

  /** The layer pairs named by the first `k` keys compare equal. */
  ghost predicate LayersTiedUpTo(keys: seq<string>, x: LayerCollection, y: LayerCollection, k: nat)
    requires k <= |keys|
    requires forall i | 0 <= i < |keys| :: keys[i] in KeysOf(x.layers) && keys[i] in KeysOf(y.layers)
  {
    forall i | 0 <= i < k :: LayerCompare(Lookup(x.layers, keys[i]).value, Lookup(y.layers, keys[i]).value) == 0
  }

  /** With the same names, the layer loop is 0 exactly when every layer pair
      compares equal, and otherwise the first pair in name order that does
      not compare equal decides. */
  lemma {:induction false} LayersCompareFirstDifference(keys: seq<string>, x: LayerCollection, y: LayerCollection)
    requires forall i | 0 <= i < |keys| :: keys[i] in KeysOf(x.layers) && keys[i] in KeysOf(y.layers)
    ensures LayersCompare(keys, x, y) == 0 <==> forall i | 0 <= i < |keys| ::
      LayerCompare(Lookup(x.layers, keys[i]).value, Lookup(y.layers, keys[i]).value) == 0
    ensures LayersCompare(keys, x, y) != 0 ==> exists k | 0 <= k < |keys| ::
      && LayersTiedUpTo(keys, x, y, k)
      && LayersCompare(keys, x, y) == LayerCompare(Lookup(x.layers, keys[k]).value, Lookup(y.layers, keys[k]).value)
  {
    if keys != [] {
      LayersCompareFirstDifference(keys[1..], x, y);
      var c := LayerCompare(Lookup(x.layers, keys[0]).value, Lookup(y.layers, keys[0]).value);
      var n := |keys| - 1;
      if c == 0 {
        assert LayersCompare(keys, x, y) == LayersCompare(keys[1..], x, y);
        if LayersTiedUpTo(keys[1..], x, y, n) {
          LayersTiedExtend(keys, x, y, n);
        }
        if LayersTiedUpTo(keys, x, y, n + 1) {
          LayersTiedTail(keys, x, y, n);
        }
        if LayersCompare(keys, x, y) != 0 {
          var k :| 0 <= k < |keys[1..]| && LayersTiedUpTo(keys[1..], x, y, k) && LayersCompare(keys[1..], x, y) ==
            LayerCompare(Lookup(x.layers, keys[1..][k]).value, Lookup(y.layers, keys[1..][k]).value);
          LayersTiedExtend(keys, x, y, k);
          assert keys[1..][k] == keys[k + 1];
        }
      } else {
        assert LayersCompare(keys, x, y) == c;
        assert LayersTiedUpTo(keys, x, y, 0);
      }
    }
  }

  lemma LayersTiedExtend(keys: seq<string>, x: LayerCollection, y: LayerCollection, k: nat)
    requires k < |keys|
    requires forall i | 0 <= i < |keys| :: keys[i] in KeysOf(x.layers) && keys[i] in KeysOf(y.layers)
    requires LayerCompare(Lookup(x.layers, keys[0]).value, Lookup(y.layers, keys[0]).value) == 0
    requires LayersTiedUpTo(keys[1..], x, y, k)
    ensures LayersTiedUpTo(keys, x, y, k + 1)
  {
    forall i | 0 <= i < k + 1
      ensures LayerCompare(Lookup(x.layers, keys[i]).value, Lookup(y.layers, keys[i]).value) == 0
    {
      if i > 0 {
        assert keys[i] == keys[1..][i - 1];
      }
    }
  }

  lemma LayersTiedTail(keys: seq<string>, x: LayerCollection, y: LayerCollection, k: nat)
    requires k < |keys|
    requires forall i | 0 <= i < |keys| :: keys[i] in KeysOf(x.layers) && keys[i] in KeysOf(y.layers)
    requires LayersTiedUpTo(keys, x, y, k + 1)
    ensures LayersTiedUpTo(keys[1..], x, y, k)
  {
    forall i | 0 <= i < k
      ensures LayerCompare(Lookup(x.layers, keys[1..][i]).value, Lookup(y.layers, keys[1..][i]).value) == 0
    {
      assert keys[1..][i] == keys[i + 1];
    }
  }


  /** The layers of `c` named by `keys`, in that order. */
  function LayersAt(keys: seq<string>, c: LayerCollection): (ls: seq<Layer>)
    requires forall i | 0 <= i < |keys| :: keys[i] in KeysOf(c.layers)
    ensures |ls| == |keys|
  {
    if keys == [] then [] else [Lookup(c.layers, keys[0]).value] + LayersAt(keys[1..], c)
  }

  /** The layer loop is the lexicographic walk under `Layer.compare_to` over
      the layers the names pick out. */
  lemma {:induction false} LayersCompareIsLex(keys: seq<string>, x: LayerCollection, y: LayerCollection)
    requires forall i | 0 <= i < |keys| :: keys[i] in KeysOf(x.layers) && keys[i] in KeysOf(y.layers)
    ensures LayersCompare(keys, x, y) == LexCompare(LayerCompare, LayersAt(keys, x), LayersAt(keys, y))
  {
    if keys != [] {
      LayersCompareIsLex(keys[1..], x, y);
      assert LayersAt(keys, x)[1..] == LayersAt(keys[1..], x);
      assert LayersAt(keys, y)[1..] == LayersAt(keys[1..], y);
    }
  }

  /** Blocks whose every coordinate line has `n` tokens. */
  function CollectionWidthIs(n: nat): LayerCollection -> bool {
    (c: LayerCollection) => AllAdmitted(LayerWidthIs(n), ValuesOf(c.layers))
  }

  lemma {:induction false} LayersAtWidth(n: nat, keys: seq<string>, c: LayerCollection)
    requires CollectionWidthIs(n)(c)
    requires forall i | 0 <= i < |keys| :: keys[i] in KeysOf(c.layers)
    ensures AllAdmitted(LayerWidthIs(n), LayersAt(keys, c))
  {
    if keys != [] {
      LayersAtWidth(n, keys[1..], c);
      LookupInValues(c.layers, keys[0]);
      var ls := LayersAt(keys, c);
      forall i | 0 <= i < |ls| ensures LayerWidthIs(n)(ls[i]) {
        if i > 0 {
          assert ls[i] == LayersAt(keys[1..], c)[i - 1];
        }
      }
    }
  }

  /** Two blocks with the same layer names compare as their layers do, name
      by name. */
  lemma SameNamesCompare(n: nat, x: LayerCollection, y: LayerCollection)
    requires CollectionWidthIs(n)(x) && CollectionWidthIs(n)(y)
    requires SortedNames(x) == SortedNames(y)
    ensures var ks := SortedNames(x);
      && (forall i | 0 <= i < |ks| :: ks[i] in KeysOf(x.layers) && ks[i] in KeysOf(y.layers))
      && CollectionCompare(x, y) == LexCompare(LayerCompare, LayersAt(ks, x), LayersAt(ks, y))
      && AllAdmitted(LayerWidthIs(n), LayersAt(ks, x))
      && AllAdmitted(LayerWidthIs(n), LayersAt(ks, y))
  {
    var ks := SortedNames(x);
    KeyListCompareZero(ks, ks);
    assert forall i | 0 <= i < |ks| :: ks[i] in multiset(KeysOf(x.layers)) && ks[i] in multiset(KeysOf(y.layers));
    LayersCompareIsLex(ks, x, y);
    LayersAtWidth(n, ks, x);
    LayersAtWidth(n, ks, y);
  }

  lemma CollectionCompareFlip(n: nat, x: LayerCollection, y: LayerCollection)
    requires CollectionWidthIs(n)(x) && CollectionWidthIs(n)(y)
    ensures CollectionCompare(y, x) == -CollectionCompare(x, y)
  {
    var xs, ys := SortedNames(x), SortedNames(y);
    KeyListCompareZero(xs, ys);
    if xs == ys {
      SameNamesCompare(n, x, y);
      SameNamesCompare(n, y, x);
      LayerCompareSignedPreorder(n);
      LexFlip(LayerCompare, LayerWidthIs(n), LayersAt(xs, x), LayersAt(xs, y));
    }
  }

  lemma CollectionCompareTransitive(n: nat, x: LayerCollection, y: LayerCollection, z: LayerCollection)
    requires CollectionWidthIs(n)(x) && CollectionWidthIs(n)(y) && CollectionWidthIs(n)(z)
    ensures CollectionCompare(x, y) <= 0 && CollectionCompare(y, z) <= 0 ==> CollectionCompare(x, z) <= 0
  {
    var xs, ys, zs := SortedNames(x), SortedNames(y), SortedNames(z);
    KeyListCompareZero(xs, ys);
    KeyListCompareZero(ys, zs);
    KeyListCompareZero(xs, zs);
    KeyListCompareTransitive(xs, ys, zs);
    if xs == ys && ys == zs {
      SameNamesCompare(n, x, y);
      SameNamesCompare(n, y, z);
      SameNamesCompare(n, x, z);
      LayerCompareSignedPreorder(n);
      LexTransitive(LayerCompare, LayerWidthIs(n), LayersAt(xs, x), LayersAt(xs, y), LayersAt(xs, z));
    }
  }

  /** On blocks of one width, `LayerCollection.compare_to` is a signed
      preorder. */
  lemma CollectionCompareSignedPreorder(n: nat)
    ensures SignedPreorderOn(CollectionCompare, CollectionWidthIs(n))
  {
    forall x: LayerCollection, y: LayerCollection | CollectionWidthIs(n)(x) && CollectionWidthIs(n)(y)
      ensures CollectionCompare(y, x) == -CollectionCompare(x, y)
    {
      CollectionCompareFlip(n, x, y);
    }
    forall x: LayerCollection, y: LayerCollection, z: LayerCollection
      | CollectionWidthIs(n)(x) && CollectionWidthIs(n)(y) && CollectionWidthIs(n)(z)
      ensures CollectionCompare(x, y) <= 0 && CollectionCompare(y, z) <= 0 ==> CollectionCompare(x, z) <= 0
    {
      CollectionCompareTransitive(n, x, y, z);
    }
  }

  /** Sorting blocks of one width by `compare_to` leaves them in that order. */
  lemma CollectionsSorted(cs: seq<LayerCollection>)
    ensures forall n: nat :: AllAdmitted(CollectionWidthIs(n), cs) ==> Sorted(CollectionCompare, SortBy(CollectionCompare, cs))
  {
    forall n: nat | AllAdmitted(CollectionWidthIs(n), cs)
      ensures Sorted(CollectionCompare, SortBy(CollectionCompare, cs))
    {
      CollectionCompareSignedPreorder(n);
      SignedPreorderIsTotal(CollectionCompare, CollectionWidthIs(n));
      SortBySortedOn(CollectionCompare, CollectionWidthIs(n), cs);
    }
  }

  // ---------------------------------------------------------------------
  // Sorting and printing

  /** `Layer.sort!`: the coordinate lines re-ordered by `coordSort`; when the
      lines have one width, as the parser writes them, they end up in
      `coordSort` order. */
  function SortLayer(l: Layer): (r: Layer)
    ensures r.startLine == l.startLine && r.name == l.name
    ensures multiset(r.coordinates) == multiset(l.coordinates)
    ensures forall n: nat :: LayerWidthIs(n)(l) ==> Sorted(CoordSort, r.coordinates)
  {
    SortByPermutes(CoordSort, l.coordinates);
    CoordinatesSorted(l.coordinates);
    l.(coordinates := SortBy(CoordSort, l.coordinates))
  }

  /** `LayerCollection.sort!`: every layer sorts its own coordinates; the
      layer table keeps its names and their order. */
  function SortCollection(c: LayerCollection): (r: LayerCollection)
    ensures r.startLine == c.startLine && r.endLine == c.endLine
    ensures KeysOf(r.layers) == KeysOf(c.layers)
  {
    c.(layers := MapValues(c.layers, SortLayer))
  }

  /** `Layer.print`: the LAYER line as read, then the coordinate lines. */
  function PrintLayer(l: Layer): (out: seq<string>)
    ensures |out| == 1 + |l.coordinates| && out[0] == l.startLine && out[1..] == l.coordinates
  {
    [l.startLine] + l.coordinates
  }

  /** The word `layer_name_sort` ranks a layer name by. */
  function LayerKey(name: string): Option<string> {
    TokenAt(name, 0)
  }

  /** The active layer order as a list of keys to rank by. */
  function Somes(vocab: seq<string>): (r: seq<Option<string>>)
    ensures |r| == |vocab|
    ensures forall i | 0 <= i < |vocab| :: r[i] == Some(vocab[i])
  {
    seq(|vocab|, i requires 0 <= i < |vocab| => Some(vocab[i]))
  }

  /** The order `print` writes layers in: the names sorted by
      `layer_name_sort`, that is by the position of their first word in the
      active layer order, unlisted names last, ties by the whole name. */
  function LayerOrder(vocab: seq<string>, c: LayerCollection): (names: seq<string>)
    ensures multiset(names) == multiset(KeysOf(c.layers))
    ensures Sorted((a, b) => RankedCompare(Somes(vocab), LayerKey, a, b), names)
  {
    var cmp := (a, b) => RankedCompare(Somes(vocab), LayerKey, a, b);
    RankedCompareStrictTotal(Somes(vocab), LayerKey);
    SortByPermutes(cmp, KeysOf(c.layers));
    SortBySorted(cmp, KeysOf(c.layers));
    SortBy(cmp, KeysOf(c.layers))
  }

  /** In print order, a layer whose first word is in the layer order comes
      before one whose first word is not, and listed layers follow the order. */
  lemma LayerOrderRanks(vocab: seq<string>, c: LayerCollection, i: nat, j: nat)
    requires i <= j < |LayerOrder(vocab, c)|
    ensures var names := LayerOrder(vocab, c);
      && Rank(Somes(vocab), LayerKey(names[i])) <= Rank(Somes(vocab), LayerKey(names[j]))
      && (!Recognized(vocab, names[i]) ==> !Recognized(vocab, names[j]))
  {
    var names := LayerOrder(vocab, c);
    RankedSortedRanks(Somes(vocab), LayerKey, names, i, j);
    SomesMembership(vocab, LayerKey(names[i]));
    SomesMembership(vocab, LayerKey(names[j]));
  }

  lemma SomesMembership(vocab: seq<string>, k: Option<string>)
    ensures k in Somes(vocab) <==> k.Some? && k.value in vocab
  {
    if k.Some? && k.value in vocab {
      var i :| 0 <= i < |vocab| && vocab[i] == k.value;
      assert Somes(vocab)[i] == k;
    }
  }

  /** `LayerCollection.print`: the OBS/PORT line, the layers in
      `layer_name_sort` order, and the line that ended the block. */
  function PrintCollection(vocab: seq<string>, c: LayerCollection): (out: seq<string>)
    ensures |out| >= 2 && out[0] == c.startLine && out[|out| - 1] == c.endLine
  {
    [c.startLine] + LookupAll(LayerOrder(vocab, c), c.layers, PrintLayer) + [c.endLine]
  }

  /** Sorting a block only re-orders lines: what `print` writes afterwards is
      a permutation of what it wrote before. */
  lemma SortCollectionPrintsSameLines(vocab: seq<string>, c: LayerCollection)
    ensures multiset(PrintCollection(vocab, SortCollection(c))) == multiset(PrintCollection(vocab, c))
  {
    var names := LayerOrder(vocab, c);
    assert LayerOrder(vocab, SortCollection(c)) == names;
    LookupAllMapValues(names, c.layers, SortLayer, PrintLayer);
  }
}
