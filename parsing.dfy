/** What each LEF parser computes, as functions of the line array, the layer
    order and the state it starts from: the entity it builds, where it leaves
    the cursor, and what it adds to the `errors` hash and the frequency
    tables.  The loops are written as tail recursion over an accumulator, in
    the order the tool performs their steps, so that the imperative parsers
    can be proved equal to them loop by loop. */
module Parsing {
  import opened Wrappers
  import opened Text
  import opened Findings
  import opened Hashes
  import opened Lines
  import opened Geometry
  import opened Macros

  /** A parsed entity and the state the parser leaves behind. */
  datatype Parsed<T> = Parsed(value: T, st: St)

  /** The `"Line <n>: "` prefix of a finding about line `i` (0-based). */
  function LineTag(i: nat): string {
    "Line " + NatToString(i + 1) + ": "
  }

  /** The innermost parser that reports findings of category `c`: 0 for
      every line read (the semicolon repair), 1 for `Layer.new`, 2 for a pin's property lines, 3 for
      the end of `Pin.new`, 4 for a cell's property lines, 5 for the end of
      `Cell.new`, 6 for the missing `END LIBRARY`, 7 for the missing
      PROPERTYDEFINITIONS, 8 for everything else. */
  function Depth(c: Category): (d: nat)
    ensures d <= 8
  {
    match c
    case LineEndingSemicolons => 0
    case UnknownLayer => 1
    case UnknownPinProperty => 2
    case MissingDirection | MissingUse => 3
    case UnknownCellProperty | StrangeOrigin | StrangeForeign => 4
    case MissingOrigin | MissingClass | MissingSymmetry | MissingSite | MissingSize | MangledCellEnd | MissingCellEnd => 5
    case MissingEndLibraryToken => 6
    case MissingPropertyDefinitions => 7
    case _ => 8
  }

  /** Only categories reported at depth `depth` or inside it change. */
  predicate Within(before: Log, after: Log, depth: nat) {
    forall c {:trigger Get(after, c)} | Depth(c) > depth :: Get(after, c) == Get(before, c)
  }

  /** A category reported outside `depth` keeps its findings. */
  lemma Kept(before: Log, after: Log, depth: nat, c: Category)
    requires Within(before, after, depth) && depth < Depth(c)
    ensures Get(after, c) == Get(before, c)
  {
  }

  /** The depths of the categories the parsers report. */
  lemma Depths()
    ensures Depth(LineEndingSemicolons) == 0 && Depth(UnknownLayer) == 1 && Depth(UnknownPinProperty) == 2
    ensures Depth(MissingDirection) == 3 && Depth(MissingUse) == 3
    ensures Depth(UnknownCellProperty) == 4 && Depth(StrangeOrigin) == 4 && Depth(StrangeForeign) == 4
    ensures Depth(MissingOrigin) == 5 && Depth(MissingClass) == 5 && Depth(MissingSymmetry) == 5
    ensures Depth(MissingSite) == 5 && Depth(MissingSize) == 5 && Depth(MangledCellEnd) == 5 && Depth(MissingCellEnd) == 5
    ensures Depth(MissingEndLibraryToken) == 6 && Depth(MissingPropertyDefinitions) == 7
    ensures Depth(StrangeClass) == 8 && Depth(StrangeSymmetry) == 8 && Depth(StrangeSite) == 8
    ensures Depth(StrangeDirection) == 8 && Depth(StrangeUse) == 8
  {
  }

  /** A category reported at another depth keeps its findings. */
  lemma KeptBesides(before: Log, after: Log, depth: nat, c: Category)
    requires OnlyAt(before, after, depth) && Depth(c) != depth
    ensures Get(after, c) == Get(before, c)
  {
  }

  /** Only categories reported exactly at depth `depth` change. */
  predicate OnlyAt(before: Log, after: Log, depth: nat) {
    forall c {:trigger Get(after, c)} | Depth(c) != depth :: Get(after, c) == Get(before, c)
  }

  /** The property names declared by a list of property lines. */
  function Names(props: seq<string>): set<string> {
    if props == [] then {} else Names(props[..|props| - 1]) + {PropertyName(props[|props| - 1])}
  }

  lemma {:induction false} NamesMembership(props: seq<string>, w: string)
    ensures w in Names(props) <==> exists k | 0 <= k < |props| :: PropertyName(props[k]) == w
  {
    if props != [] {
      var init := props[..|props| - 1];
      NamesMembership(init, w);
      if w in Names(init) {
        var k :| 0 <= k < |init| && PropertyName(init[k]) == w;
        assert props[k] == init[k];
      }
      if exists k | 0 <= k < |props| :: PropertyName(props[k]) == w {
        var k :| 0 <= k < |props| && PropertyName(props[k]) == w;
        if k < |init| {
          assert init[k] == props[k];
        }
      }
    }
  }

  lemma NamesAppend(props: seq<string>, f: string)
    ensures Names(props + [f]) == Names(props) + {PropertyName(f)}
  {
    assert (props + [f])[..|props|] == props;
  }

  // ---------------------------------------------------------------------
  // Layer (a LAYER statement and its coordinate lines)

  /** The coordinate loop from line `j`: until a line mentions LAYER or END,
      each line is noted for its semicolon, repaired and rewritten.  Returns
      the rewritten lines, the index of the line that ended the list (not
      consumed) and the log. */
  function Coordinates(lines: seq<string>, j: nat, log: Log, acc: seq<string>): (r: Result<(seq<string>, nat, Log), Fault>)
    requires j <= |lines|
    ensures r.Success? ==> j <= r.value.1 < |lines| && EndsCoordinates(lines[r.value.1])
    ensures r.Success? ==> Within(log, r.value.2, 0)
    decreases |lines| - j
  {
    if j == |lines| then Failure(EndOfInput)
    else if EndsCoordinates(lines[j]) then Success((acc, j, log))
    else
      match NormalizeCoordinate(Fixed(lines[j]))
      case None => Failure(MissingField(j))
      case Some(c) => Coordinates(lines, Next(lines, j), NoteSemicolon(log, j, lines[j]), acc + [c])
  }

  /** `Layer.new`: the LAYER line (kept as read, even when it needs the
      semicolon repair), its name, the unknown-layer check and the
      coordinates.  The cursor is left on the line that ended the list. */
  function LayerSpec(lines: seq<string>, vocab: seq<string>, st: St): (r: Result<Parsed<Layer>, Fault>)
    requires st.index <= |lines|
    ensures r.Success? ==> st.index < r.value.st.index < |lines|
    ensures r.Success? ==> r.value.st.tables == st.tables && Within(st.log, r.value.st.log, 1)
  {
    var i := SkipBlank(lines, st.index);
    match LayerName(lines, i)
    case Failure(e) => Failure(e)
    case Success(name) => LayerFrom(lines, vocab, i, name, st)
  }

  /** The LAYER statement at line `i` and the name it declares. */
  function LayerName(lines: seq<string>, i: nat): (r: Result<string, Fault>)
    requires i <= |lines|
    ensures r.Success? ==> i < |lines| && IsLayerStart(lines[i])
  {
    if i == |lines| then Failure(EndOfInput)
    else if !IsLayerStart(lines[i]) then Failure(NotAtStart("LAYER", i))
    else
      match SplitPiece(lines[i], "LAYER ", 1)
      case None => Failure(MissingField(i))
      case Some(name) => Success(name)
  }

  /** The rest of `Layer.new` once the LAYER statement at line `i` is read:
      an unknown name is reported with the line, then the coordinates. */
  function LayerFrom(lines: seq<string>, vocab: seq<string>, i: nat, name: string, st: St): (r: Result<Parsed<Layer>, Fault>)
    requires i < |lines|
    ensures r.Success? ==> i < r.value.st.index < |lines|
    ensures r.Success? ==> r.value.st.tables == st.tables && Within(st.log, r.value.st.log, 1)
    ensures r.Success? ==> r.value.value.startLine == lines[i] && r.value.value.name == name
    ensures r.Success? ==>
      Get(r.value.st.log, UnknownLayer) == Get(st.log, UnknownLayer) + (if Recognized(vocab, name) then [] else [LineTag(i) + lines[i]])
  {
    Depths();
    var log1 := if Recognized(vocab, name) then st.log else Push(st.log, UnknownLayer, LineTag(i) + lines[i]);
    match Coordinates(lines, Next(lines, i), NoteSemicolon(log1, i, lines[i]), [])
    case Failure(e) => Failure(e)
    case Success((coords, j, log2)) => Success(Parsed(Layer(lines[i], name, coords), St(j, log2, st.tables)))
  }

  // ---------------------------------------------------------------------
  // LayerCollection (OBS or PORT)

  /** The layer loop of `LayerCollection.new` from the line at the cursor:
      while it starts a LAYER, parse the layer and file it under its name;
      the first other line is the end line and is consumed. */
  function CollectionLayers(lines: seq<string>, vocab: seq<string>, startLine: string, st: St, layers: Hash<string, Layer>)
    : (r: Result<Parsed<LayerCollection>, Fault>)
    requires st.index <= |lines|
    ensures r.Success? ==> st.index < r.value.st.index <= |lines|
    ensures r.Success? ==> r.value.st.tables == st.tables && Within(st.log, r.value.st.log, 1)
    decreases |lines| - st.index
  {
    var j := st.index;
    if j == |lines| then Failure(EndOfInput)
    else if !IsLayerStart(lines[j]) then
      Success(Parsed(LayerCollection(startLine, layers, lines[j]), St(Next(lines, j), st.log, st.tables)))
    else
      match LayerSpec(lines, vocab, st)
      case Failure(e) => Failure(e)
      case Success(p) =>
        CollectionLayers(lines, vocab, startLine, St(SkipBlank(lines, p.st.index), p.st.log, p.st.tables),
          Put(layers, p.value.name, p.value))
  }

  /** `LayerCollection.new`. */
  function CollectionSpec(lines: seq<string>, vocab: seq<string>, st: St): (r: Result<Parsed<LayerCollection>, Fault>)
    requires st.index <= |lines|
    ensures r.Success? ==> st.index < r.value.st.index <= |lines|
    ensures r.Success? ==> r.value.st.tables == st.tables && Within(st.log, r.value.st.log, 1)
  {
    var i := SkipBlank(lines, st.index);
    if i == |lines| then Failure(EndOfInput)
    else if !IsCollectionStart(lines[i]) then Failure(NotAtStart("OBS/PORT", i))
    else CollectionLayers(lines, vocab, lines[i], St(Next(lines, i), st.log, st.tables), [])
  }

  // ---------------------------------------------------------------------
  // Pin

  /** What `Pin.new` has gathered so far; `seen` holds the names of the
      property lines read (the tool keeps two flags for DIRECTION and USE). */
  datatype PinBody = PinBody(properties: seq<string>, keywordProperties: seq<string>, ports: seq<LayerCollection>, seen: set<string>)

  /** `/^\s*END <name>/`: the line that ends pin `name` (a prefix check). */
  predicate IsPinEnd(name: string, line: string) {
    StartsWith(TrimLeft(line), "END " + name)
  }

  /** One property line `f` of pin `name` in cell `cell`, already repaired:
      a `PROPERTY` line is kept apart; any other line is kept, reported when
      its name is not a known pin property, and a DIRECTION or USE value is
      registered in its frequency table. */
  function PinProperty(cell: string, name: string, j: nat, f: string, log: Log, tables: Tables, body: PinBody)
    : (r: Result<(Log, Tables, PinBody), Fault>)
    ensures r.Success? ==> OnlyAt(log, r.value.0, 2)
    ensures r.Success? && body.seen == Names(body.properties) ==> r.value.2.seen == Names(r.value.2.properties)
    ensures r.Success? ==> r.value.2.ports == body.ports
  {
    Depths();
    if StartsWith(TrimLeft(f), "PROPERTY") then
      Success((log, tables, body.(keywordProperties := body.keywordProperties + [f])))
    else
      var toks := Tokens(f);
      if toks == [] then Failure(MissingField(j))
      else
        var key := Upper(toks[0]);
        var log1 := if key in PinPropertyOrder then log else Push(log, UnknownPinProperty, LineTag(j) + Strip(f) + "\n");
        NamesAppend(body.properties, f);
        var body1 := body.(properties := body.properties + [f], seen := body.seen + {key});
        if key != "DIRECTION" && key != "USE" then Success((log1, tables, body1))
        else if |toks| < 2 then Failure(MissingField(j))
        else
          var table := if key == "DIRECTION" then Directions else Uses;
          var message := LineTag(j) + "Cell " + cell + ", pin " + name + " - " + toks[1] + "\n";
          Success((log1, RegisterIn(tables, table, toks[1], message), body1))
  }

  /** The body loop of `Pin.new` from the line at the cursor, up to the line
      that ends the pin, which is left at the cursor. */
  function PinLoop(lines: seq<string>, vocab: seq<string>, cell: string, name: string, st: St, body: PinBody)
    : (r: Result<(PinBody, St), Fault>)
    requires st.index <= |lines|
    ensures r.Success? ==> st.index <= r.value.1.index < |lines| && IsPinEnd(name, lines[r.value.1.index])
    ensures r.Success? ==> Within(st.log, r.value.1.log, 2)
    ensures r.Success? && body.seen == Names(body.properties) ==> r.value.0.seen == Names(r.value.0.properties)
    decreases |lines| - st.index
  {
    var j := st.index;
    if j == |lines| then Failure(EndOfInput)
    else if IsPinEnd(name, lines[j]) then Success((body, st))
    else if IsCollectionStart(lines[j]) then
      match CollectionSpec(lines, vocab, st)
      case Failure(e) => Failure(e)
      case Success(p) =>
        PinLoop(lines, vocab, cell, name, St(SkipBlank(lines, p.st.index), p.st.log, p.st.tables),
          body.(ports := body.ports + [p.value]))
    else
      match PinProperty(cell, name, j, Fixed(lines[j]), NoteSemicolon(st.log, j, lines[j]), st.tables, body)
      case Failure(e) => Failure(e)
      case Success((log, tables, body')) =>
        PinLoop(lines, vocab, cell, name, St(SkipBlank(lines, Next(lines, j)), log, tables), body')
  }

  /** `Pin.new` for a pin of cell `cell`. */
  function PinSpec(lines: seq<string>, vocab: seq<string>, cell: string, st: St): (r: Result<Parsed<Pin>, Fault>)
    requires st.index <= |lines|
    ensures r.Success? ==> st.index < r.value.st.index <= |lines|
    ensures r.Success? ==> Within(st.log, r.value.st.log, 3)
    ensures r.Success? ==> SkipBlank(lines, st.index) < |lines| && r.value.value.startLine == lines[SkipBlank(lines, st.index)]
  {
    var i := SkipBlank(lines, st.index);
    match PinName(lines, i)
    case Failure(e) => Failure(e)
    case Success(name) => PinFrom(lines, vocab, cell, i, name, st)
  }

  /** The PIN statement at line `i` and the name it declares. */
  function PinName(lines: seq<string>, i: nat): (r: Result<string, Fault>)
    requires i <= |lines|
    ensures r.Success? ==> i < |lines| && IsPinStart(lines[i])
  {
    if i == |lines| then Failure(EndOfInput)
    else if !IsPinStart(lines[i]) then Failure(NotAtStart("PIN", i))
    else
      match SplitPiece(lines[i], "PIN ", 1)
      case None => Failure(MissingField(i))
      case Some(piece) => Success(Chomp(piece))
  }

  /** The rest of `Pin.new` once the PIN statement at line `i` is read. */
  function PinFrom(lines: seq<string>, vocab: seq<string>, cell: string, i: nat, name: string, st: St): (r: Result<Parsed<Pin>, Fault>)
    requires i < |lines|
    ensures r.Success? ==> i < r.value.st.index <= |lines| && r.value.value.startLine == lines[i]
    ensures r.Success? ==> Within(st.log, r.value.st.log, 3)
  {
    match PinLoop(lines, vocab, cell, name, St(Next(lines, i), st.log, st.tables), PinBody([], [], [], {}))
    case Failure(e) => Failure(e)
    case Success((body, s)) => Success(PinEnd(lines, cell, i, name, body, s))
  }

  /** The end of `Pin.new`, from the line `s.index` that ended the pin: the
      DIRECTION and USE checks, then the end line is kept and consumed. */
  function PinEnd(lines: seq<string>, cell: string, i: nat, name: string, body: PinBody, s: St): (r: Parsed<Pin>)
    requires i < |lines| && s.index < |lines|
    requires body.seen == Names(body.properties)
    ensures r.st.index == Next(lines, s.index) && r.st.tables == s.tables
    ensures r.value == Pin(lines[i], name, body.properties, body.keywordProperties, body.ports, lines[s.index])
    ensures OnlyAt(s.log, r.st.log, 3)
    ensures Get(r.st.log, MissingDirection) == Get(s.log, MissingDirection)
      + (if "DIRECTION" in Names(body.properties) then [] else [LineTag(i) + "Cell " + cell + ", pin " + name + "\n"])
    ensures Get(r.st.log, MissingUse) == Get(s.log, MissingUse)
      + (if "USE" in Names(body.properties) then [] else [LineTag(i) + "Cell " + cell + ", pin " + name + "\n"])
  {
    Depths();
    var message := LineTag(i) + "Cell " + cell + ", pin " + name + "\n";
    var log := s.log[MissingDirection := Get(s.log, MissingDirection) + Unless("DIRECTION" in body.seen, message)]
                    [MissingUse := Get(s.log, MissingUse) + Unless("USE" in body.seen, message)];
    Parsed(Pin(lines[i], name, body.properties, body.keywordProperties, body.ports, lines[s.index]),
      St(Next(lines, s.index), log, s.tables))
  }

  // ---------------------------------------------------------------------
  // Cell (MACRO)

  /** What `Cell.new` has gathered so far; `seen` holds the names of the
      property lines read (the tool keeps five flags). */
  datatype CellBody = CellBody(
    properties: seq<string>,
    keywordProperties: seq<string>,
    pins: Hash<string, Pin>,
    obstruction: Option<LayerCollection>,
    seen: set<string>)

  /** The frequency table a cell property registers its value in. */
  function TableOf(key: string): Option<Table> {
    if key == "CLASS" then Some(Classes)
    else if key == "SYMMETRY" then Some(Symmetries)
    else if key == "SITE" then Some(Sites)
    else None
  }

  /** A placement (ORIGIN, or the offset of FOREIGN) other than `0 0`. */
  predicate OffOrigin(f: string, first: nat) {
    TokenOrEmpty(f, first) != "0" || TokenOrEmpty(f, first + 1) != "0"
  }

  /** One property line `f` of cell `name`, already repaired. */
  function CellProperty(name: string, j: nat, f: string, log: Log, tables: Tables, body: CellBody)
    : (r: Result<(Log, Tables, CellBody), Fault>)
    ensures r.Success? ==> OnlyAt(log, r.value.0, 4)
    ensures r.Success? && body.seen == Names(body.properties) ==> r.value.2.seen == Names(r.value.2.properties)
    ensures r.Success? ==> r.value.2.pins == body.pins && r.value.2.obstruction == body.obstruction
  {
    Depths();
    var toks := Tokens(f);
    if toks == [] then Failure(MissingField(j))
    else
      var key := Upper(toks[0]);
      if key == "PROPERTY" then Success((log, tables, body.(keywordProperties := body.keywordProperties + [f])))
      else
        var log1 :=
          if key == "ORIGIN" && OffOrigin(f, 1) then Push(log, StrangeOrigin, LineTag(j) + name + "\n")
          else if key == "FOREIGN" && OffOrigin(f, 2) then Push(log, StrangeForeign, LineTag(j) + name + "\n")
          else log;
        var log2 := if key in CellPropertyOrder then log1 else Push(log1, UnknownCellProperty, LineTag(j) + Strip(f) + "\n");
        NamesAppend(body.properties, f);
        var body1 := body.(properties := body.properties + [f], seen := body.seen + {key});
        match TableOf(key)
        case None => Success((log2, tables, body1))
        case Some(t) =>
          if |toks| < 2 then Failure(MissingField(j))
          else Success((log2, RegisterIn(tables, t, toks[1], LineTag(j) + name + " - " + toks[1] + "\n"), body1))
  }

  /** A line that ends the body of a cell: `END ...` at the start of the
      line, or the next MACRO. */
  predicate EndsCell(line: string) {
    StartsWith(line, "END") || IsCellStart(line)
  }

  /** `Layer.start_line?` accepts `LAYER` after any indentation. */
  lemma LayerStartShape(ws: string, rest: string)
    requires IsBlank(ws)
    ensures IsLayerStart(ws + "LAYER" + rest)
  {
    TrimLeftAfterBlank(ws, "LAYER" + rest);
    assert ws + "LAYER" + rest == ws + ("LAYER" + rest);
    assert ("LAYER" + rest)[..5] == "LAYER";
  }

  /** `LayerCollection.start_line?` accepts `OBS` after any indentation, and
      `PORT` anywhere in a line: the alternation `(OBS)|(PORT)` anchors only
      `OBS`. */
  lemma CollectionStartShapes(ws: string, pre: string, rest: string)
    requires IsBlank(ws)
    ensures IsCollectionStart(ws + "OBS" + rest)
    ensures IsCollectionStart(pre + "PORT" + rest)
  {
    TrimLeftAfterBlank(ws, "OBS" + rest);
    assert ws + "OBS" + rest == ws + ("OBS" + rest);
    assert ("OBS" + rest)[..3] == "OBS";
    assert (pre + "PORT" + rest)[|pre|..|pre| + 4] == "PORT";
    ContainsAt(pre + "PORT" + rest, "PORT", |pre|);
  }

  /** `Pin.start_line?` accepts `PIN` and white space after any indentation. */
  lemma PinStartShape(ws: string, rest: string)
    requires IsBlank(ws) && rest != [] && IsSpace(rest[0])
    ensures IsPinStart(ws + "PIN" + rest)
  {
    TrimLeftAfterBlank(ws, "PIN" + rest);
    assert ws + "PIN" + rest == ws + ("PIN" + rest);
    assert ("PIN" + rest)[..3] == "PIN" && ("PIN" + rest)[3] == rest[0];
  }

  /** The end of pin `name` is `END <name>` after any indentation, and any
      text may follow the name. */
  lemma PinEndShape(ws: string, name: string, rest: string)
    requires IsBlank(ws)
    ensures IsPinEnd(name, ws + "END " + name + rest)
  {
    TrimLeftAfterBlank(ws, "END " + name + rest);
    assert ws + "END " + name + rest == ws + ("END " + name + rest);
    assert ("END " + name + rest)[..|"END " + name|] == "END " + name;
  }

  /** A cell ends at `END` in the first column; an indented `END` does not
      end it. */
  lemma CellEndShapes(ws: string, rest: string)
    requires IsBlank(ws)
    ensures EndsCell("END" + rest)
    ensures ws != [] ==> !EndsCell(ws + "END" + rest)
  {
    assert ("END" + rest)[..3] == "END";
    if ws != [] {
      assert (ws + "END" + rest)[0] == ws[0];
    }
  }

  /** The body loop of `Cell.new` from the line at the cursor, up to the line
      that ends the body, which is left at the cursor. */
  function CellLoop(lines: seq<string>, vocab: seq<string>, name: string, st: St, body: CellBody)
    : (r: Result<(CellBody, St), Fault>)
    requires st.index <= |lines|
    ensures r.Success? ==> st.index <= r.value.1.index < |lines| && EndsCell(lines[r.value.1.index])
    ensures r.Success? ==> Within(st.log, r.value.1.log, 4)
    ensures r.Success? && body.seen == Names(body.properties) ==> r.value.0.seen == Names(r.value.0.properties)
    decreases |lines| - st.index
  {
    var j := st.index;
    if j == |lines| then Failure(EndOfInput)
    else if EndsCell(lines[j]) then Success((body, st))
    else if IsPinStart(lines[j]) then
      match PinSpec(lines, vocab, name, st)
      case Failure(e) => Failure(e)
      case Success(p) =>
        CellLoop(lines, vocab, name, St(SkipBlank(lines, p.st.index), p.st.log, p.st.tables),
          body.(pins := Put(body.pins, p.value.name, p.value)))
    else if IsCollectionStart(lines[j]) then
      match CollectionSpec(lines, vocab, st)
      case Failure(e) => Failure(e)
      case Success(p) =>
        CellLoop(lines, vocab, name, St(SkipBlank(lines, p.st.index), p.st.log, p.st.tables),
          body.(obstruction := Some(p.value)))
    else
      match CellProperty(name, j, Fixed(lines[j]), NoteSemicolon(st.log, j, lines[j]), st.tables, body)
      case Failure(e) => Failure(e)
      case Success((log, tables, body')) =>
        CellLoop(lines, vocab, name, St(SkipBlank(lines, Next(lines, j)), log, tables), body')
  }

  /** The finding a check for a required property adds: `message`, unless
      the property was `present`. */
  function Unless(present: bool, message: string): (r: seq<string>)
    ensures r == [] <==> present
  {
    if present then [] else [message]
  }

  /** The five checks after the body of a cell: each required property whose
      name was not seen gets `message`, in the tool's order. */
  function RequiredFindings(log: Log, seen: set<string>, message: string): (r: Log)
    ensures Get(r, MissingOrigin) == Get(log, MissingOrigin) + (if "ORIGIN" in seen then [] else [message])
    ensures Get(r, MissingClass) == Get(log, MissingClass) + (if "CLASS" in seen then [] else [message])
    ensures Get(r, MissingSymmetry) == Get(log, MissingSymmetry) + (if "SYMMETRY" in seen then [] else [message])
    ensures Get(r, MissingSite) == Get(log, MissingSite) + (if "SITE" in seen then [] else [message])
    ensures Get(r, MissingSize) == Get(log, MissingSize) + (if "SIZE" in seen then [] else [message])
    ensures OnlyAt(log, r, 5)
  {
    Depths();
    log[MissingOrigin := Get(log, MissingOrigin) + Unless("ORIGIN" in seen, message)]
       [MissingClass := Get(log, MissingClass) + Unless("CLASS" in seen, message)]
       [MissingSymmetry := Get(log, MissingSymmetry) + Unless("SYMMETRY" in seen, message)]
       [MissingSite := Get(log, MissingSite) + Unless("SITE" in seen, message)]
       [MissingSize := Get(log, MissingSize) + Unless("SIZE" in seen, message)]
  }

  /** `Cell.new`: the MACRO line and name, the body, the five required
      properties, and the end of the cell.  An `END` line is consumed and
      reported when it does not start with `END <name>`; when the next MACRO
      came first, that is reported and nothing is consumed. */
  function CellSpec(lines: seq<string>, vocab: seq<string>, st: St): (r: Result<Parsed<Cell>, Fault>)
    requires st.index <= |lines|
    ensures r.Success? ==> st.index < r.value.st.index <= |lines|
    ensures r.Success? ==> Within(st.log, r.value.st.log, 5)
  {
    var i := SkipBlank(lines, st.index);
    match CellName(lines, i)
    case Failure(e) => Failure(e)
    case Success(name) => CellFrom(lines, vocab, i, name, st)
  }

  /** The MACRO statement at line `i` and the name it declares. */
  function CellName(lines: seq<string>, i: nat): (r: Result<string, Fault>)
    requires i <= |lines|
    ensures r.Success? ==> i < |lines| && IsCellStart(lines[i]) && Some(r.value) == TokenAt(lines[i], 1)
  {
    if i == |lines| then Failure(EndOfInput)
    else if !IsCellStart(lines[i]) then Failure(NotAtStart("MACRO", i))
    else
      match TokenAt(lines[i], 1)
      case None => Failure(MissingField(i))
      case Some(name) => Success(name)
  }

  /** The rest of `Cell.new` once the MACRO statement at line `i` is read. */
  function CellFrom(lines: seq<string>, vocab: seq<string>, i: nat, name: string, st: St): (r: Result<Parsed<Cell>, Fault>)
    requires i < |lines|
    ensures r.Success? ==> i < r.value.st.index <= |lines|
    ensures r.Success? ==> Within(st.log, r.value.st.log, 5)
  {
    match CellLoop(lines, vocab, name, St(Next(lines, i), st.log, st.tables), CellBody([], [], [], None, {}))
    case Failure(e) => Failure(e)
    case Success((body, s)) => Success(CellEnd(lines, lines[i], name, i, body, s))
  }

  /** The end of `Cell.new`, from the line `s.index` that ended the body:
      an `END` line is kept and consumed, and reported when it does not
      start with `END <name>`; otherwise (the next MACRO) the end is reported
      missing and the cursor stays.  The five required-property findings
      come first. */
  function CellEnd(lines: seq<string>, startLine: string, name: string, i: nat, body: CellBody, s: St): (r: Parsed<Cell>)
    requires s.index < |lines|
    ensures r.value == Cell(startLine, name, body.properties, body.keywordProperties, body.pins, body.obstruction, r.value.endLine)
    ensures r.st.tables == s.tables && OnlyAt(s.log, r.st.log, 5)
    ensures r.st.log == RequiredFindings(s.log, body.seen, LineTag(i) + name + "\n")
              [MangledCellEnd := Get(s.log, MangledCellEnd) + MangledFinding(lines[s.index], name, s.index)]
              [MissingCellEnd := Get(s.log, MissingCellEnd) + (if r.value.endLine.None? then [LineTag(s.index) + name + "\n"] else [])]
    ensures StartsWith(lines[s.index], "END") ==> r.value.endLine == Some(lines[s.index]) && r.st.index == Next(lines, s.index)
    ensures !StartsWith(lines[s.index], "END") ==> r.value.endLine.None? && r.st.index == s.index
  {
    Depths();
    var j := s.index;
    var log1 := RequiredFindings(s.log, body.seen, LineTag(i) + name + "\n");
    var ended := StartsWith(lines[j], "END");
    var log2 := log1[MangledCellEnd := Get(s.log, MangledCellEnd) + MangledFinding(lines[j], name, j)]
                    [MissingCellEnd := Get(s.log, MissingCellEnd) + (if ended then [] else [LineTag(j) + name + "\n"])];
    var cell := Cell(startLine, name, body.properties, body.keywordProperties, body.pins, body.obstruction,
      if ended then Some(lines[j]) else None);
    Parsed(cell, St(if ended then Next(lines, j) else j, log2, s.tables))
  }

  /** The `mangled_cell_end` finding for the line `line` (line `j`) that
      ends cell `name`: an `END` line that does not start with `END <name>`. */
  function MangledFinding(line: string, name: string, j: nat): (r: seq<string>)
    ensures |r| <= 1
    ensures r != [] <==> StartsWith(line, "END") && !StartsWith(line, "END " + name)
  {
    if StartsWith(line, "END") && !StartsWith(line, "END " + name) then [LineTag(j) + name + "\n"] else []
  }

  // ---------------------------------------------------------------------
  // LEF_File

  /** Every line of `ls` has had the semicolon repair. */
  predicate AllRepaired(ls: seq<string>) {
    forall k | 0 <= k < |ls| :: !NeedsFix(ls[k])
  }

  lemma RepairedAppend(ls: seq<string>, line: string)
    ensures AllRepaired(ls) ==> AllRepaired(ls + [Fixed(line)])
  {
    FixSettles(line);
  }

  /** The header loop of `LEF_File.new` from the line at the cursor: until a
      line mentions PROPERTYDEFINITIONS or starts a MACRO, each line is noted,
      repaired and kept.  The line that stopped it is left at the cursor. */
  function HeaderLoop(lines: seq<string>, st: St, header: seq<string>): (r: Result<(seq<string>, St), Fault>)
    requires st.index <= |lines|
    ensures r.Success? ==> st.index <= r.value.1.index < |lines| && r.value.1.tables == st.tables
    ensures r.Success? ==> Contains(lines[r.value.1.index], "PROPERTYDEFINITIONS") || IsCellStart(lines[r.value.1.index])
    ensures r.Success? ==> Within(st.log, r.value.1.log, 0)
    ensures r.Success? && AllRepaired(header) ==> AllRepaired(r.value.0)
    decreases |lines| - st.index
  {
    var j := st.index;
    if j == |lines| then Failure(EndOfInput)
    else if Contains(lines[j], "PROPERTYDEFINITIONS") || IsCellStart(lines[j]) then Success((header, st))
    else
      RepairedAppend(header, lines[j]);
      HeaderLoop(lines, St(Next(lines, j), NoteSemicolon(st.log, j, lines[j]), st.tables), header + [Fixed(lines[j])])
  }

  /** The body loop of the PROPERTYDEFINITIONS block: until a line mentions
      `END PROPERTYDEFINITIONS`, each line is noted, repaired and kept. */
  function DefinitionsLoop(lines: seq<string>, st: St, body: seq<string>): (r: Result<(seq<string>, St), Fault>)
    requires st.index <= |lines|
    ensures r.Success? ==> st.index <= r.value.1.index < |lines| && r.value.1.tables == st.tables
    ensures r.Success? ==> Contains(lines[r.value.1.index], "END PROPERTYDEFINITIONS")
    ensures r.Success? ==> Within(st.log, r.value.1.log, 0)
    ensures r.Success? && AllRepaired(body) ==> AllRepaired(r.value.0)
    decreases |lines| - st.index
  {
    var j := st.index;
    if j == |lines| then Failure(EndOfInput)
    else if Contains(lines[j], "END PROPERTYDEFINITIONS") then Success((body, st))
    else
      RepairedAppend(body, lines[j]);
      DefinitionsLoop(lines, St(Next(lines, j), NoteSemicolon(st.log, j, lines[j]), st.tables), body + [Fixed(lines[j])])
  }

  /** The PROPERTYDEFINITIONS block at the cursor, or, when the header ran
      into a MACRO instead, an empty `missing_property_definitions` finding. */
  function DefinitionsSpec(lines: seq<string>, st: St): (r: Result<(Option<PropertyDefinitions>, St), Fault>)
    requires st.index < |lines|
    ensures r.Success? ==> st.index <= r.value.1.index <= |lines| && r.value.1.tables == st.tables
    ensures r.Success? && r.value.0.None? ==> r.value.1 == st.(log := Push(st.log, MissingPropertyDefinitions, ""))
    ensures r.Success? && r.value.0.Some? ==> Within(st.log, r.value.1.log, 0) && AllRepaired(r.value.0.value.body)
  {
    var j := st.index;
    if Contains(lines[j], "PROPERTYDEFINITIONS") then
      match DefinitionsLoop(lines, St(Next(lines, j), st.log, st.tables), [])
      case Failure(e) => Failure(e)
      case Success((body, s)) =>
        Success((Some(PropertyDefinitions(lines[j], body, lines[s.index])), St(Next(lines, s.index), s.log, s.tables)))
    else Success((None, st.(log := Push(st.log, MissingPropertyDefinitions, ""))))
  }

  /** The MACRO loop of `LEF_File.new` from the line at the cursor: until a
      line mentions `END LIBRARY`, every line must start a MACRO; each cell
      is parsed and filed under its name.  When the lines run out after a
      cell, an empty `missing_end_library_token` finding is added and there
      is no end line. */
  function TopLoop(lines: seq<string>, vocab: seq<string>, st: St, cells: Hash<string, Cell>)
    : (r: Result<(Hash<string, Cell>, Option<string>, St), Fault>)
    requires st.index <= |lines|
    ensures r.Success? ==> Within(st.log, r.value.2.log, 6)
    ensures r.Success? ==>
      Get(r.value.2.log, MissingEndLibraryToken) == Get(st.log, MissingEndLibraryToken) + (if r.value.1.None? then [""] else [])
    ensures r.Success? && Hashes.DistinctKeys(cells) ==> Hashes.DistinctKeys(r.value.0)
    ensures r.Success? ==> forall k | 0 <= k < |cells| :: cells[k].0 in KeysOf(r.value.0)
    decreases |lines| - st.index
  {
    var j := st.index;
    if j == |lines| then Failure(EndOfInput)
    else if Contains(lines[j], "END LIBRARY") then Success((cells, Some(lines[j]), st))
    else
      match TopCell(lines, vocab, st, cells)
      case Failure(e) => Failure(e)
      case Success((cells', s)) =>
        Depths();
        Kept(st.log, s.log, 5, MissingEndLibraryToken);
        if s.index == |lines| then Success((cells', None, s.(log := Push(s.log, MissingEndLibraryToken, ""))))
        else TopLoop(lines, vocab, s, cells')
  }

  /** One turn of the MACRO loop on a line that is not `END LIBRARY`: the
      line must start a MACRO; the cell is filed under its name, and the
      cursor moves to the next non-blank line. */
  function TopCell(lines: seq<string>, vocab: seq<string>, st: St, cells: Hash<string, Cell>)
    : (r: Result<(Hash<string, Cell>, St), Fault>)
    requires st.index < |lines|
    ensures r.Success? ==> st.index < r.value.1.index <= |lines| && Within(st.log, r.value.1.log, 5)
    ensures r.Success? && Hashes.DistinctKeys(cells) ==> Hashes.DistinctKeys(r.value.0)
    ensures r.Success? ==> forall k | 0 <= k < |cells| :: cells[k].0 in KeysOf(r.value.0)
    ensures r.Success? ==> |r.value.0| <= |cells| + 1
  {
    var j := st.index;
    if !IsCellStart(lines[j]) then Failure(UnexpectedLine(j, lines[j]))
    else
      match CellSpec(lines, vocab, st)
      case Failure(e) => Failure(e)
      case Success(p) =>
        PutKeys(cells, p.value.name, p.value);
        assert Hashes.DistinctKeys(cells) ==> Hashes.DistinctKeys(Put(cells, p.value.name, p.value)) by {
          if Hashes.DistinctKeys(cells) {
            PutDistinct(cells, p.value.name, p.value);
          }
        }
        Success((Put(cells, p.value.name, p.value), St(SkipBlank(lines, p.st.index), p.st.log, p.st.tables)))
  }

  /** `check_for_uncommon_properties` for the five frequency tables, in the
      tool's order: the rare values of each table go under its `strange_`
      category. */
  function RarityFindings(log: Log, tables: Tables): (r: Log)
    ensures Get(r, StrangeClass) == Get(log, StrangeClass) + RareMessages(TallyOf(tables, Classes))
    ensures Get(r, StrangeSymmetry) == Get(log, StrangeSymmetry) + RareMessages(TallyOf(tables, Symmetries))
    ensures Get(r, StrangeSite) == Get(log, StrangeSite) + RareMessages(TallyOf(tables, Sites))
    ensures Get(r, StrangeDirection) == Get(log, StrangeDirection) + RareMessages(TallyOf(tables, Directions))
    ensures Get(r, StrangeUse) == Get(log, StrangeUse) + RareMessages(TallyOf(tables, Uses))
    ensures OnlyAt(log, r, 8)
  {
    Depths();
    log[StrangeClass := Get(log, StrangeClass) + RareMessages(TallyOf(tables, Classes))]
       [StrangeSymmetry := Get(log, StrangeSymmetry) + RareMessages(TallyOf(tables, Symmetries))]
       [StrangeSite := Get(log, StrangeSite) + RareMessages(TallyOf(tables, Sites))]
       [StrangeDirection := Get(log, StrangeDirection) + RareMessages(TallyOf(tables, Directions))]
       [StrangeUse := Get(log, StrangeUse) + RareMessages(TallyOf(tables, Uses))]
  }

  /** `LEF_File.new` from the first line: the header, the PROPERTYDEFINITIONS
      block, the cells up to `END LIBRARY`, then the rarity findings over the
      run's frequency tables.  Returns the file, the findings and the
      tables. */
  function LefSpec(lines: seq<string>, vocab: seq<string>, log: Log, tables: Tables): (r: Result<(LefFile, Log, Tables), Fault>)
    ensures r.Success? ==> AllRepaired(r.value.0.header) && Hashes.DistinctKeys(r.value.0.cells)
  {
    match HeaderLoop(lines, St(SkipBlank(lines, 0), log, tables), [])
    case Failure(e) => Failure(e)
    case Success((header, s1)) =>
      match DefinitionsSpec(lines, s1)
      case Failure(e) => Failure(e)
      case Success((definitions, s2)) =>
        match TopLoop(lines, vocab, s2, [])
        case Failure(e) => Failure(e)
        case Success((cells, endLine, s3)) =>
          Success((LefFile(header, definitions, cells, endLine), RarityFindings(s3.log, s3.tables), s3.tables))
  }

  /** `LEF_File.new` adds one empty `missing_property_definitions` entry
      exactly when the file has no PROPERTYDEFINITIONS block before its
      first MACRO. */
  lemma LefDefinitionsFinding(lines: seq<string>, vocab: seq<string>, log: Log, tables: Tables)
    requires LefSpec(lines, vocab, log, tables).Success?
    ensures var (f, log', _) := LefSpec(lines, vocab, log, tables).value;
      Get(log', MissingPropertyDefinitions) == Get(log, MissingPropertyDefinitions) + (if f.propertyDefinitions.None? then [""] else [])
  {
    var (header, s1) := HeaderLoop(lines, St(SkipBlank(lines, 0), log, tables), []).value;
    var (definitions, s2) := DefinitionsSpec(lines, s1).value;
    var (cells, endLine, s3) := TopLoop(lines, vocab, s2, []).value;
    Depths();
    if definitions.Some? {
      Kept(s1.log, s2.log, 0, MissingPropertyDefinitions);
    }
    Kept(log, s1.log, 0, MissingPropertyDefinitions);
    Kept(s2.log, s3.log, 6, MissingPropertyDefinitions);
    KeptBesides(s3.log, RarityFindings(s3.log, s3.tables), 8, MissingPropertyDefinitions);
  }

  /** `LEF_File.new` adds one empty `missing_end_library_token` entry
      exactly when the lines run out before `END LIBRARY`, which leaves the
      file without an end line. */
  lemma LefEndFinding(lines: seq<string>, vocab: seq<string>, log: Log, tables: Tables)
    requires LefSpec(lines, vocab, log, tables).Success?
    ensures var (f, log', _) := LefSpec(lines, vocab, log, tables).value;
      Get(log', MissingEndLibraryToken) == Get(log, MissingEndLibraryToken) + (if f.endLine.None? then [""] else [])
  {
    var (header, s1) := HeaderLoop(lines, St(SkipBlank(lines, 0), log, tables), []).value;
    var (definitions, s2) := DefinitionsSpec(lines, s1).value;
    Depths();
    if definitions.Some? {
      Kept(s1.log, s2.log, 0, MissingEndLibraryToken);
    }
    Kept(log, s1.log, 0, MissingEndLibraryToken);
    var (cells, endLine, s3) := TopLoop(lines, vocab, s2, []).value;
    KeptBesides(s3.log, RarityFindings(s3.log, s3.tables), 8, MissingEndLibraryToken);
  }

  /** The rarity findings of `LEF_File.new`: under each `strange_` category,
      the rare values of its frequency table as it stands after the whole
      file has been read. */
  lemma LefRareFindings(lines: seq<string>, vocab: seq<string>, log: Log, tables: Tables)
    requires LefSpec(lines, vocab, log, tables).Success?
    ensures var (_, log', tables') := LefSpec(lines, vocab, log, tables).value;
      && Get(log', StrangeClass) == Get(log, StrangeClass) + RareMessages(TallyOf(tables', Classes))
      && Get(log', StrangeSymmetry) == Get(log, StrangeSymmetry) + RareMessages(TallyOf(tables', Symmetries))
      && Get(log', StrangeSite) == Get(log, StrangeSite) + RareMessages(TallyOf(tables', Sites))
      && Get(log', StrangeDirection) == Get(log, StrangeDirection) + RareMessages(TallyOf(tables', Directions))
      && Get(log', StrangeUse) == Get(log, StrangeUse) + RareMessages(TallyOf(tables', Uses))
  {
    var (header, s1) := HeaderLoop(lines, St(SkipBlank(lines, 0), log, tables), []).value;
    var (definitions, s2) := DefinitionsSpec(lines, s1).value;
    var (cells, endLine, s3) := TopLoop(lines, vocab, s2, []).value;
    StrangeKept(log, s1.log, 0);
    StrangeKept(s2.log, s3.log, 6);
    if definitions.Some? {
      StrangeKept(s1.log, s2.log, 0);
    }
  }

  /** The five `strange_` categories are reported after every parser. */
  lemma StrangeKept(before: Log, after: Log, depth: nat)
    requires Within(before, after, depth) && depth < 8
    ensures Get(after, StrangeClass) == Get(before, StrangeClass) && Get(after, StrangeSymmetry) == Get(before, StrangeSymmetry)
    ensures Get(after, StrangeSite) == Get(before, StrangeSite) && Get(after, StrangeDirection) == Get(before, StrangeDirection)
    ensures Get(after, StrangeUse) == Get(before, StrangeUse)
  {
    Depths();
  }

  /** A pin without a DIRECTION property gets exactly one `missing_direction`
      finding, and one with it gets none; likewise for USE.  The finding
      names the line of the PIN statement, the cell and the pin. */
  lemma PinMissingFindings(lines: seq<string>, vocab: seq<string>, cell: string, st: St)
    requires st.index <= |lines|
    requires PinSpec(lines, vocab, cell, st).Success?
    ensures var r := PinSpec(lines, vocab, cell, st).value; var i := SkipBlank(lines, st.index);
      var message := LineTag(i) + "Cell " + cell + ", pin " + r.value.name + "\n";
      && Get(r.st.log, MissingDirection) == Get(st.log, MissingDirection) + (if "DIRECTION" in Names(r.value.properties) then [] else [message])
      && Get(r.st.log, MissingUse) == Get(st.log, MissingUse) + (if "USE" in Names(r.value.properties) then [] else [message])
  {
    var i := SkipBlank(lines, st.index);
    var name := PinName(lines, i).value;
    var loop := PinLoop(lines, vocab, cell, name, St(Next(lines, i), st.log, st.tables), PinBody([], [], [], {}));
    assert Names([]) == {};
    assert PinSpec(lines, vocab, cell, st) == PinFrom(lines, vocab, cell, i, name, st);
    assert loop.Success?;
    var body := loop.value.0;
    var s := loop.value.1;
    assert body.seen == Names(body.properties);
    assert PinFrom(lines, vocab, cell, i, name, st) == Success(PinEnd(lines, cell, i, name, body, s));
    Depths();
    Kept(st.log, s.log, 2, MissingDirection);
    Kept(st.log, s.log, 2, MissingUse);
  }

  /** Each of the five required cell properties that the cell lacks gets
      exactly one finding, naming the line of the MACRO statement and the
      cell; a property the cell has gets none. */
  lemma CellMissingFindings(lines: seq<string>, vocab: seq<string>, st: St)
    requires st.index <= |lines|
    requires CellSpec(lines, vocab, st).Success?
    ensures var r := CellSpec(lines, vocab, st).value; var names := Names(r.value.properties);
      var message := LineTag(SkipBlank(lines, st.index)) + r.value.name + "\n";
      && Get(r.st.log, MissingOrigin) == Get(st.log, MissingOrigin) + Unless("ORIGIN" in names, message)
      && Get(r.st.log, MissingClass) == Get(st.log, MissingClass) + Unless("CLASS" in names, message)
      && Get(r.st.log, MissingSymmetry) == Get(st.log, MissingSymmetry) + Unless("SYMMETRY" in names, message)
      && Get(r.st.log, MissingSite) == Get(st.log, MissingSite) + Unless("SITE" in names, message)
      && Get(r.st.log, MissingSize) == Get(st.log, MissingSize) + Unless("SIZE" in names, message)
  {
    var i := SkipBlank(lines, st.index);
    var name := CellName(lines, i).value;
    var loop := CellLoop(lines, vocab, name, St(Next(lines, i), st.log, st.tables), CellBody([], [], [], None, {}));
    assert Names([]) == {};
    assert CellSpec(lines, vocab, st) == CellFrom(lines, vocab, i, name, st);
    var body := loop.value.0;
    var s := loop.value.1;
    var r := CellEnd(lines, lines[i], name, i, body, s);
    assert CellFrom(lines, vocab, i, name, st) == Success(r);
    RequiredAtEnd(lines, lines[i], name, i, body, s);
    Depths();
    Kept(st.log, s.log, 4, MissingOrigin);
    Kept(st.log, s.log, 4, MissingClass);
    Kept(st.log, s.log, 4, MissingSymmetry);
    Kept(st.log, s.log, 4, MissingSite);
    Kept(st.log, s.log, 4, MissingSize);
  }

  lemma RequiredAtEnd(lines: seq<string>, startLine: string, name: string, i: nat, body: CellBody, s: St)
    requires s.index < |lines| && body.seen == Names(body.properties)
    ensures var r := CellEnd(lines, startLine, name, i, body, s); var names := Names(r.value.properties);
      var message := LineTag(i) + r.value.name + "\n";
      && Get(r.st.log, MissingOrigin) == Get(s.log, MissingOrigin) + Unless("ORIGIN" in names, message)
      && Get(r.st.log, MissingClass) == Get(s.log, MissingClass) + Unless("CLASS" in names, message)
      && Get(r.st.log, MissingSymmetry) == Get(s.log, MissingSymmetry) + Unless("SYMMETRY" in names, message)
      && Get(r.st.log, MissingSite) == Get(s.log, MissingSite) + Unless("SITE" in names, message)
      && Get(r.st.log, MissingSize) == Get(s.log, MissingSize) + Unless("SIZE" in names, message)
  {
    Depths();
  }

  /** How a cell ends.  With an `END` line, the line is kept and a
      `mangled_cell_end` finding is added exactly when it does not start
      with `END <name>`.  Without one, the cell runs into the next MACRO,
      which is left at the cursor for the next cell, and one
      `missing_cell_end` finding names the line of that MACRO. */
  lemma CellEndFindings(lines: seq<string>, vocab: seq<string>, st: St)
    requires st.index <= |lines|
    requires CellSpec(lines, vocab, st).Success?
    ensures var r := CellSpec(lines, vocab, st).value; EndReported(lines, st.log, r.value, r.st)
  {
    var i := SkipBlank(lines, st.index);
    var name := CellName(lines, i).value;
    var loop := CellLoop(lines, vocab, name, St(Next(lines, i), st.log, st.tables), CellBody([], [], [], None, {}));
    assert CellSpec(lines, vocab, st) == CellFrom(lines, vocab, i, name, st);
    var body := loop.value.0;
    var s := loop.value.1;
    assert CellFrom(lines, vocab, i, name, st) == Success(CellEnd(lines, lines[i], name, i, body, s));
    Depths();
    Kept(st.log, s.log, 4, MissingCellEnd);
    Kept(st.log, s.log, 4, MangledCellEnd);
    EndOfCell(lines, lines[i], name, i, body, s, st.log);
  }

  /** What the end of cell `c` adds to the findings since `log`, and where
      it leaves the cursor (see `CellEndFindings`). */
  ghost predicate EndReported(lines: seq<string>, log: Log, c: Cell, st: St) {
    match c.endLine
    case Some(e) =>
      && StartsWith(e, "END")
      && Get(st.log, MissingCellEnd) == Get(log, MissingCellEnd)
      && |Get(st.log, MangledCellEnd)| == |Get(log, MangledCellEnd)| + (if StartsWith(e, "END " + c.name) then 0 else 1)
    case None =>
      && st.index < |lines| && IsCellStart(lines[st.index])
      && Get(st.log, MissingCellEnd) == Get(log, MissingCellEnd) + [LineTag(st.index) + c.name + "\n"]
      && Get(st.log, MangledCellEnd) == Get(log, MangledCellEnd)
  }

  lemma EndOfCell(lines: seq<string>, startLine: string, name: string, i: nat, body: CellBody, s: St, log: Log)
    requires s.index < |lines| && EndsCell(lines[s.index])
    requires Get(s.log, MissingCellEnd) == Get(log, MissingCellEnd) && Get(s.log, MangledCellEnd) == Get(log, MangledCellEnd)
    ensures var r := CellEnd(lines, startLine, name, i, body, s); EndReported(lines, log, r.value, r.st)
  {
    Depths();
  }

  /** The end check is a prefix check: `END M10` closes cell `M1` without a
      finding, while `END M2` is reported. */
  lemma EndCheckIsPrefix()
    ensures MangledFinding("END M10\n", "M1", 7) == []
    ensures MangledFinding("END M2\n", "M1", 7) != []
  {
    assert StartsWith("END M10\n", "END M1");
    assert ("END M2\n")[5] != ("END M1")[5];
  }
}
