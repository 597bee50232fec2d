/** The LEF parsers as the tool runs them: one reader object holds the lines
    of the file, the cursor (`PBR_Int`), the `errors` hash and the run-wide
    frequency tables, and each parser is a method that moves the cursor
    line by line and appends findings as it goes.  Every method is proved to
    do exactly what the corresponding function of `Parsing` describes. */
module Reader {
  import opened Wrappers
  import opened Text
  import opened Findings
  import opened Hashes
  import opened Lines
  import opened Geometry
  import opened Macros
  import opened Parsing

  /** A parse result as a method returns it: the entity, or why it stopped. */
  function Outcome<T>(r: Result<Parsed<T>, Fault>): Result<T, Fault> {
    match r
    case Success(p) => Success(p.value)
    case Failure(e) => Failure(e)
  }

  /** One turn of the pin body loop at a port: the loop goes on from the
      line after the port with the port appended. */
  lemma PinLoopAtPort(lines: seq<string>, vocab: seq<string>, cell: string, name: string, st: St, body: PinBody)
    requires st.index < |lines| && !IsPinEnd(name, lines[st.index]) && IsCollectionStart(lines[st.index])
    ensures CollectionSpec(lines, vocab, st).Failure? ==>
      PinLoop(lines, vocab, cell, name, st, body) == Failure(CollectionSpec(lines, vocab, st).error)
    ensures CollectionSpec(lines, vocab, st).Success? ==>
      var p := CollectionSpec(lines, vocab, st).value;
      PinLoop(lines, vocab, cell, name, st, body)
        == PinLoop(lines, vocab, cell, name, St(SkipBlank(lines, p.st.index), p.st.log, p.st.tables), body.(ports := body.ports + [p.value]))
  {
  }

  /** One turn of the pin body loop at a property line. */
  lemma PinLoopAtProperty(lines: seq<string>, vocab: seq<string>, cell: string, name: string, st: St, body: PinBody)
    requires st.index < |lines| && !IsPinEnd(name, lines[st.index]) && !IsCollectionStart(lines[st.index])
    ensures var j := st.index;
      var step := PinProperty(cell, name, j, Fixed(lines[j]), NoteSemicolon(st.log, j, lines[j]), st.tables, body);
      && (step.Failure? ==> PinLoop(lines, vocab, cell, name, st, body) == Failure(step.error))
      && (step.Success? ==>
            PinLoop(lines, vocab, cell, name, st, body)
              == PinLoop(lines, vocab, cell, name, St(SkipBlank(lines, Next(lines, j)), step.value.0, step.value.1), step.value.2))
  {
  }

  /** One turn of the cell body loop at a PIN: the loop goes on from the
      line after the pin with the pin filed under its name. */
  lemma CellLoopAtPin(lines: seq<string>, vocab: seq<string>, name: string, st: St, body: CellBody)
    requires st.index < |lines| && !EndsCell(lines[st.index]) && IsPinStart(lines[st.index])
    ensures PinSpec(lines, vocab, name, st).Failure? ==>
      CellLoop(lines, vocab, name, st, body) == Failure(PinSpec(lines, vocab, name, st).error)
    ensures PinSpec(lines, vocab, name, st).Success? ==>
      var p := PinSpec(lines, vocab, name, st).value;
      CellLoop(lines, vocab, name, st, body)
        == CellLoop(lines, vocab, name, St(SkipBlank(lines, p.st.index), p.st.log, p.st.tables), body.(pins := Put(body.pins, p.value.name, p.value)))
  {
  }

  /** One turn of the cell body loop at an OBS block: the loop goes on from
      the line after it with the block as the obstruction. */
  lemma CellLoopAtObstruction(lines: seq<string>, vocab: seq<string>, name: string, st: St, body: CellBody)
    requires st.index < |lines| && !EndsCell(lines[st.index]) && !IsPinStart(lines[st.index]) && IsCollectionStart(lines[st.index])
    ensures CollectionSpec(lines, vocab, st).Failure? ==>
      CellLoop(lines, vocab, name, st, body) == Failure(CollectionSpec(lines, vocab, st).error)
    ensures CollectionSpec(lines, vocab, st).Success? ==>
      var p := CollectionSpec(lines, vocab, st).value;
      CellLoop(lines, vocab, name, st, body)
        == CellLoop(lines, vocab, name, St(SkipBlank(lines, p.st.index), p.st.log, p.st.tables), body.(obstruction := Some(p.value)))
  {
  }

  /** One turn of the cell body loop at a property line. */
  lemma CellLoopAtProperty(lines: seq<string>, vocab: seq<string>, name: string, st: St, body: CellBody)
    requires st.index < |lines| && !EndsCell(lines[st.index]) && !IsPinStart(lines[st.index]) && !IsCollectionStart(lines[st.index])
    ensures var j := st.index;
      var step := CellProperty(name, j, Fixed(lines[j]), NoteSemicolon(st.log, j, lines[j]), st.tables, body);
      && (step.Failure? ==> CellLoop(lines, vocab, name, st, body) == Failure(step.error))
      && (step.Success? ==>
            CellLoop(lines, vocab, name, st, body)
              == CellLoop(lines, vocab, name, St(SkipBlank(lines, Next(lines, j)), step.value.0, step.value.1), step.value.2))
  {
    var j := st.index;
    var step := CellProperty(name, j, Fixed(lines[j]), NoteSemicolon(st.log, j, lines[j]), st.tables, body);
    if step.Success? {
      var next := St(SkipBlank(lines, Next(lines, j)), step.value.0, step.value.1);
      assert CellLoop(lines, vocab, name, st, body) == CellLoop(lines, vocab, name, next, step.value.2);
    }
  }

  /** The LAYER statement at line `i` is its coordinate list read from the
      next line, with the unknown-layer finding and the semicolon repair of
      line `i` already logged. */
  lemma LayerFromCoordinates(lines: seq<string>, vocab: seq<string>, i: nat, name: string, st: St)
    requires i < |lines|
    ensures var log1 := if Recognized(vocab, name) then st.log else Push(st.log, UnknownLayer, LineTag(i) + lines[i]);
      var co := Coordinates(lines, Next(lines, i), NoteSemicolon(log1, i, lines[i]), []);
      && (co.Failure? ==> LayerFrom(lines, vocab, i, name, st) == Failure(co.error))
      && (co.Success? ==>
            LayerFrom(lines, vocab, i, name, st) == Success(Parsed(Layer(lines[i], name, co.value.0), St(co.value.1, co.value.2, st.tables))))
  {
  }

  /** One turn of the MACRO loop on a line that is not `END LIBRARY`. */
  lemma TopLoopAtCell(lines: seq<string>, vocab: seq<string>, st: St, cells: Hash<string, Cell>)
    requires st.index < |lines| && !Contains(lines[st.index], "END LIBRARY")
    ensures var t := TopCell(lines, vocab, st, cells);
      && (t.Failure? ==> TopLoop(lines, vocab, st, cells) == Failure(t.error))
      && (t.Success? && t.value.1.index == |lines| ==>
            TopLoop(lines, vocab, st, cells)
              == Success((t.value.0, None, t.value.1.(log := Push(t.value.1.log, MissingEndLibraryToken, "")))))
      && (t.Success? && t.value.1.index < |lines| ==>
            TopLoop(lines, vocab, st, cells) == TopLoop(lines, vocab, t.value.1, t.value.0))
  {
  }

  class LefReader {
    const lines: seq<string>
    const vocab: seq<string>
    var index: nat
    var log: Log
    var tables: Tables

    /** Where the reader stands, as the specification functions see it. */
    function State(): St
      reads this
    {
      St(index, log, tables)
    }

    /** A reader at the first line of `lines`. */
    constructor (lines: seq<string>, vocab: seq<string>, log: Log, tables: Tables)
      ensures this.lines == lines && this.vocab == vocab
      ensures index == 0 && this.log == log && this.tables == tables
    {
      this.lines := lines;
      this.vocab := vocab;
      index := 0;
      this.log := log;
      this.tables := tables;
    }

    /** `get_current_line`: skips blank lines and returns the line at the
        cursor, `None` past the end. */
    method CurrentLine() returns (line: Option<string>)
      requires index <= |lines|
      modifies this
      ensures index == SkipBlank(lines, old(index)) && line == LineAt(lines, index)
      ensures log == old(log) && tables == old(tables)
    {
      while index < |lines| && IsBlank(lines[index])
        invariant old(index) <= index <= |lines|
        invariant SkipBlank(lines, index) == SkipBlank(lines, old(index))
        invariant log == old(log) && tables == old(tables)
        decreases |lines| - index
      {
        index := index + 1;
      }
      line := LineAt(lines, index);
    }

    /** `get_next_line`: one line on, then as `get_current_line`. */
    method NextLine() returns (line: Option<string>)
      requires index < |lines|
      modifies this
      ensures index == Next(lines, old(index)) && line == LineAt(lines, index)
      ensures log == old(log) && tables == old(tables)
    {
      index := index + 1;
      line := CurrentLine();
    }

    /** The coordinate loop of `Layer.new`, from the line at the cursor. */
    method ReadCoordinates(line0: Option<string>) returns (r: Result<seq<string>, Fault>)
      requires index <= |lines| && line0 == LineAt(lines, index)
      modifies this
      ensures var spec := Coordinates(lines, old(index), old(log), []);
        && (spec.Failure? ==> r == Failure(spec.error))
        && (spec.Success? ==> r == Success(spec.value.0) && index == spec.value.1 && log == spec.value.2)
      ensures tables == old(tables)
    {
      var coordinates := [];
      var line := line0;
      while line.Some? && !EndsCoordinates(line.value)
        invariant index <= |lines| && line == LineAt(lines, index)
        invariant Coordinates(lines, index, log, coordinates) == Coordinates(lines, old(index), old(log), [])
        invariant tables == old(tables)
        decreases |lines| - index
      {
        var c := NormalizeCoordinate(Fixed(line.value));
        if c.None? {
          return Failure(MissingField(index));
        }
        log := NoteSemicolon(log, index, line.value);
        coordinates := coordinates + [c.value];
        line := NextLine();
      }
      if line.None? {
        return Failure(EndOfInput);
      }
      r := Success(coordinates);
    }

    /** `Layer.new`. */
    method ParseLayer() returns (r: Result<Layer, Fault>)
      requires index <= |lines|
      modifies this
      ensures var spec := LayerSpec(lines, vocab, old(State()));
        r == Outcome(spec) && (r.Success? ==> State() == spec.value.st)
    {
      var line := CurrentLine();
      if line.None? {
        return Failure(EndOfInput);
      }
      if !IsLayerStart(line.value) {
        return Failure(NotAtStart("LAYER", index));
      }
      var piece := SplitPiece(line.value, "LAYER ", 1);
      if piece.None? {
        return Failure(MissingField(index));
      }
      var i, name := index, piece.value;
      ghost var st := State();
      assert LayerSpec(lines, vocab, old(State())) == LayerFrom(lines, vocab, i, name, st);
      LayerFromCoordinates(lines, vocab, i, name, st);
      if !Recognized(vocab, name) {
        log := Push(log, UnknownLayer, LineTag(i) + line.value);
      }
      log := NoteSemicolon(log, i, line.value);
      line := NextLine();
      ghost var co := Coordinates(lines, index, log, []);
      var coordinates := ReadCoordinates(line);
      if coordinates.Failure? {
        assert co.Failure?;
        return Failure(coordinates.error);
      }
      assert co.Success? && State() == St(co.value.1, co.value.2, st.tables);
      r := Success(Layer(lines[i], name, coordinates.value));
    }

    /** `LayerCollection.new` (an OBS or PORT block). */
    method ParseCollection() returns (r: Result<LayerCollection, Fault>)
      requires index <= |lines|
      modifies this
      ensures var spec := CollectionSpec(lines, vocab, old(State()));
        r == Outcome(spec) && (r.Success? ==> State() == spec.value.st)
    {
      var line := CurrentLine();
      if line.None? {
        return Failure(EndOfInput);
      }
      if !IsCollectionStart(line.value) {
        return Failure(NotAtStart("OBS/PORT", index));
      }
      var startLine := line.value;
      line := NextLine();
      var layers: Hash<string, Layer> := [];
      ghost var spec := CollectionLayers(lines, vocab, startLine, State(), layers);
      while line.Some? && IsLayerStart(line.value)
        invariant index <= |lines| && line == LineAt(lines, index)
        invariant CollectionLayers(lines, vocab, startLine, State(), layers) == spec
        decreases |lines| - index
      {
        var layer := ParseLayer();
        if layer.Failure? {
          return Failure(layer.error);
        }
        layers := Put(layers, layer.value.name, layer.value);
        line := CurrentLine();
      }
      if line.None? {
        return Failure(EndOfInput);
      }
      var endLine := line.value;
      line := NextLine();
      r := Success(LayerCollection(startLine, layers, endLine));
    }

    /** `Pin.new` for a pin of the cell named `cell`. */
    method ParsePin(cell: string) returns (r: Result<Pin, Fault>)
      requires index <= |lines|
      modifies this
      ensures var spec := PinSpec(lines, vocab, cell, old(State()));
        r == Outcome(spec) && (r.Success? ==> State() == spec.value.st)
    {
      var line := CurrentLine();
      if line.None? {
        return Failure(EndOfInput);
      }
      if !IsPinStart(line.value) {
        return Failure(NotAtStart("PIN", index));
      }
      var piece := SplitPiece(line.value, "PIN ", 1);
      if piece.None? {
        return Failure(MissingField(index));
      }
      var i, name := index, Chomp(piece.value);
      assert PinSpec(lines, vocab, cell, old(State())) == PinFrom(lines, vocab, cell, i, name, old(State()));
      line := NextLine();
      var body := ReadPinBody(cell, name, line);
      if body.Failure? {
        return Failure(body.error);
      }
      var pin := FinishPin(cell, i, name, body.value);
      r := Success(pin);
    }

    /** The end of `Pin.new`, at the line that ends the pin: the DIRECTION and
        USE checks, then the end line is kept and consumed. */
    method FinishPin(cell: string, i: nat, name: string, body: PinBody) returns (pin: Pin)
      requires i < |lines| && index < |lines| && body.seen == Names(body.properties)
      modifies this
      ensures var spec := PinEnd(lines, cell, i, name, body, old(State()));
        pin == spec.value && State() == spec.st
    {
      var endLine := lines[index];
      var message := LineTag(i) + "Cell " + cell + ", pin " + name + "\n";
      log := log[MissingDirection := Get(log, MissingDirection) + Unless("DIRECTION" in body.seen, message)]
                [MissingUse := Get(log, MissingUse) + Unless("USE" in body.seen, message)];
      var _ := NextLine();
      pin := Pin(lines[i], name, body.properties, body.keywordProperties, body.ports, endLine);
    }

    /** The body loop of `Pin.new`, from the line after the PIN statement up
        to the line that ends the pin, which is left at the cursor. */
    method ReadPinBody(cell: string, name: string, line0: Option<string>) returns (r: Result<PinBody, Fault>)
      requires index <= |lines| && line0 == LineAt(lines, index)
      modifies this
      ensures var spec := PinLoop(lines, vocab, cell, name, old(State()), PinBody([], [], [], {}));
        && (spec.Failure? ==> r == Failure(spec.error))
        && (spec.Success? ==> r == Success(spec.value.0) && State() == spec.value.1)
    {
      var line := line0;
      var body := PinBody([], [], [], {});
      while line.Some? && !IsPinEnd(name, line.value)
        invariant index <= |lines| && line == LineAt(lines, index)
        invariant PinLoop(lines, vocab, cell, name, State(), body) == PinLoop(lines, vocab, cell, name, old(State()), PinBody([], [], [], {}))
        decreases |lines| - index
      {
        var step;
        step, line := PinLine(cell, name, body);
        if step.Failure? {
          return Failure(step.error);
        }
        body := step.value;
      }
      if line.None? {
        return Failure(EndOfInput);
      }
      r := Success(body);
    }

    /** One turn of the body loop of `Pin.new` on the line at the cursor: a
        PORT block, or a property line; then the cursor moves to the next
        non-blank line. */
    method PinLine(cell: string, name: string, body: PinBody) returns (r: Result<PinBody, Fault>, line: Option<string>)
      requires index < |lines| && !IsPinEnd(name, lines[index])
      modifies this
      ensures r.Failure? ==> PinLoop(lines, vocab, cell, name, old(State()), body) == Failure(r.error)
      ensures r.Success? ==> old(index) < index <= |lines| && line == LineAt(lines, index)
      ensures r.Success? ==> PinLoop(lines, vocab, cell, name, State(), r.value) == PinLoop(lines, vocab, cell, name, old(State()), body)
    {
      var j := index;
      ghost var st0 := State();
      if IsCollectionStart(lines[j]) {
        PinLoopAtPort(lines, vocab, cell, name, st0, body);
        var port := ParseCollection();
        if port.Failure? {
          return Failure(port.error), None;
        }
        ghost var p := CollectionSpec(lines, vocab, st0).value;
        r := Success(body.(ports := body.ports + [port.value]));
        line := CurrentLine();
        assert State() == St(SkipBlank(lines, p.st.index), p.st.log, p.st.tables);
      } else {
        PinLoopAtProperty(lines, vocab, cell, name, st0, body);
        log := NoteSemicolon(log, j, lines[j]);
        var step := PinProperty(cell, name, j, Fixed(lines[j]), log, tables, body);
        if step.Failure? {
          return Failure(step.error), None;
        }
        log, tables := step.value.0, step.value.1;
        r := Success(step.value.2);
        line := NextLine();
        assert State() == St(SkipBlank(lines, Next(lines, j)), step.value.0, step.value.1);
      }
    }

    /** `Cell.new` (a MACRO block). */
    method ParseCell() returns (r: Result<Cell, Fault>)
      requires index <= |lines|
      modifies this
      ensures var spec := CellSpec(lines, vocab, old(State()));
        r == Outcome(spec) && (r.Success? ==> State() == spec.value.st)
    {
      var line := CurrentLine();
      if line.None? {
        return Failure(EndOfInput);
      }
      if !IsCellStart(line.value) {
        return Failure(NotAtStart("MACRO", index));
      }
      var token := TokenAt(line.value, 1);
      if token.None? {
        return Failure(MissingField(index));
      }
      var i, name := index, token.value;
      assert CellSpec(lines, vocab, old(State())) == CellFrom(lines, vocab, i, name, old(State()));
      line := NextLine();
      var body := ReadCellBody(name, line);
      if body.Failure? {
        return Failure(body.error);
      }
      var cell := FinishCell(lines[i], name, i, body.value);
      r := Success(cell);
    }

    /** The body loop of `Cell.new`, from the line after the MACRO statement
        up to the line that ends the body, which is left at the cursor. */
    method ReadCellBody(name: string, line0: Option<string>) returns (r: Result<CellBody, Fault>)
      requires index <= |lines| && line0 == LineAt(lines, index)
      modifies this
      ensures var spec := CellLoop(lines, vocab, name, old(State()), CellBody([], [], [], None, {}));
        && (spec.Failure? ==> r == Failure(spec.error))
        && (spec.Success? ==> r == Success(spec.value.0) && State() == spec.value.1)
    {
      var line := line0;
      var body := CellBody([], [], [], None, {});
      while line.Some? && !EndsCell(line.value)
        invariant index <= |lines| && line == LineAt(lines, index)
        invariant CellLoop(lines, vocab, name, State(), body) == CellLoop(lines, vocab, name, old(State()), CellBody([], [], [], None, {}))
        decreases |lines| - index
      {
        var step;
        step, line := CellLine(name, body);
        if step.Failure? {
          return Failure(step.error);
        }
        body := step.value;
      }
      if line.None? {
        return Failure(EndOfInput);
      }
      r := Success(body);
    }

    /** One turn of the body loop of `Cell.new` on the line at the cursor: a
        PIN, an OBS block, or a property line; then the cursor moves to the
        next non-blank line. */
    method CellLine(name: string, body: CellBody) returns (r: Result<CellBody, Fault>, line: Option<string>)
      requires index < |lines| && !EndsCell(lines[index])
      modifies this
      ensures r.Failure? ==> CellLoop(lines, vocab, name, old(State()), body) == Failure(r.error)
      ensures r.Success? ==> old(index) < index <= |lines| && line == LineAt(lines, index)
      ensures r.Success? ==> CellLoop(lines, vocab, name, State(), r.value) == CellLoop(lines, vocab, name, old(State()), body)
    {
      if IsPinStart(lines[index]) {
        r, line := CellPin(name, body);
      } else if IsCollectionStart(lines[index]) {
        r, line := CellObstruction(name, body);
      } else {
        r, line := CellPropertyLine(name, body);
      }
    }

    /** A PIN in the body of a cell: the pin is filed under its name. */
    method CellPin(name: string, body: CellBody) returns (r: Result<CellBody, Fault>, line: Option<string>)
      requires index < |lines| && !EndsCell(lines[index]) && IsPinStart(lines[index])
      modifies this
      ensures r.Failure? ==> CellLoop(lines, vocab, name, old(State()), body) == Failure(r.error)
      ensures r.Success? ==> old(index) < index <= |lines| && line == LineAt(lines, index)
      ensures r.Success? ==> CellLoop(lines, vocab, name, State(), r.value) == CellLoop(lines, vocab, name, old(State()), body)
    {
      CellLoopAtPin(lines, vocab, name, State(), body);
      var pin := ParsePin(name);
      if pin.Failure? {
        return Failure(pin.error), None;
      }
      r := Success(body.(pins := Put(body.pins, pin.value.name, pin.value)));
      line := CurrentLine();
    }

    /** An OBS block in the body of a cell: it becomes the obstruction. */
    method CellObstruction(name: string, body: CellBody) returns (r: Result<CellBody, Fault>, line: Option<string>)
      requires index < |lines| && !EndsCell(lines[index]) && !IsPinStart(lines[index]) && IsCollectionStart(lines[index])
      modifies this
      ensures r.Failure? ==> CellLoop(lines, vocab, name, old(State()), body) == Failure(r.error)
      ensures r.Success? ==> old(index) < index <= |lines| && line == LineAt(lines, index)
      ensures r.Success? ==> CellLoop(lines, vocab, name, State(), r.value) == CellLoop(lines, vocab, name, old(State()), body)
    {
      CellLoopAtObstruction(lines, vocab, name, State(), body);
      var obstruction := ParseCollection();
      if obstruction.Failure? {
        return Failure(obstruction.error), None;
      }
      r := Success(body.(obstruction := Some(obstruction.value)));
      line := CurrentLine();
    }

    /** Any other line in the body of a cell is a property statement. */
    method CellPropertyLine(name: string, body: CellBody) returns (r: Result<CellBody, Fault>, line: Option<string>)
      requires index < |lines| && !EndsCell(lines[index]) && !IsPinStart(lines[index]) && !IsCollectionStart(lines[index])
      modifies this
      ensures r.Failure? ==> CellLoop(lines, vocab, name, old(State()), body) == Failure(r.error)
      ensures r.Success? ==> old(index) < index <= |lines| && line == LineAt(lines, index)
      ensures r.Success? ==> CellLoop(lines, vocab, name, State(), r.value) == CellLoop(lines, vocab, name, old(State()), body)
    {
      var j := index;
      CellLoopAtProperty(lines, vocab, name, State(), body);
      log := NoteSemicolon(log, j, lines[j]);
      var step := CellProperty(name, j, Fixed(lines[j]), log, tables, body);
      if step.Failure? {
        return Failure(step.error), None;
      }
      log, tables := step.value.0, step.value.1;
      r := Success(step.value.2);
      line := NextLine();
    }

    /** The end of `Cell.new`, at the line that ended the body: the five
        required-property checks, then an `END` line is kept, checked against
        the cell's name and consumed; any other line (the next MACRO) is
        reported as a missing end and left at the cursor. */
    method FinishCell(startLine: string, name: string, i: nat, body: CellBody) returns (cell: Cell)
      requires index < |lines|
      modifies this
      ensures var spec := CellEnd(lines, startLine, name, i, body, old(State()));
        cell == spec.value && State() == spec.st
    {
      var j := index;
      var line := lines[j];
      var message := LineTag(i) + name + "\n";
      var ended := StartsWith(line, "END");
      var found := RequiredFindings(log, body.seen, message);
      found := found[MangledCellEnd := Get(log, MangledCellEnd) + MangledFinding(line, name, j)]
                    [MissingCellEnd := Get(log, MissingCellEnd) + Unless(ended, LineTag(j) + name + "\n")];
      log := found;
      var endLine := None;
      if ended {
        endLine := Some(line);
        var _ := NextLine();
      }
      cell := Cell(startLine, name, body.properties, body.keywordProperties, body.pins, body.obstruction, endLine);
    }
      /** The header loop of `LEF_File.new`: up to the first line that mentions
        PROPERTYDEFINITIONS or starts a MACRO, each line is noted for a
        trailing semicolon, repaired and kept. */
    method ReadHeader(line0: Option<string>) returns (r: Result<seq<string>, Fault>)
      requires index <= |lines| && line0 == LineAt(lines, index)
      modifies this
      ensures var spec := HeaderLoop(lines, old(State()), []);
        && (spec.Failure? ==> r == Failure(spec.error))
        && (spec.Success? ==> r == Success(spec.value.0) && State() == spec.value.1)
    {
      var line := line0;
      var header := [];
      while line.Some? && !(Contains(line.value, "PROPERTYDEFINITIONS") || IsCellStart(line.value))
        invariant index <= |lines| && line == LineAt(lines, index)
        invariant HeaderLoop(lines, State(), header) == HeaderLoop(lines, old(State()), [])
        decreases |lines| - index
      {
        log := NoteSemicolon(log, index, line.value);
        header := header + [Fixed(line.value)];
        line := NextLine();
      }
      if line.None? {
        return Failure(EndOfInput);
      }
      r := Success(header);
    }

    /** The PROPERTYDEFINITIONS block of `LEF_File.new` when the header
        stopped at one (its lines noted, repaired and kept), otherwise the
        empty `missing_property_definitions` finding. */
    method ReadDefinitions() returns (r: Result<Option<PropertyDefinitions>, Fault>)
      requires index < |lines|
      modifies this
      ensures var spec := DefinitionsSpec(lines, old(State()));
        && (spec.Failure? ==> r == Failure(spec.error))
        && (spec.Success? ==> r == Success(spec.value.0) && State() == spec.value.1)
    {
      var j := index;
      if !Contains(lines[j], "PROPERTYDEFINITIONS") {
        log := Push(log, MissingPropertyDefinitions, "");
        return Success(None);
      }
      var startLine := lines[j];
      var line := NextLine();
      var body := [];
      while line.Some? && !Contains(line.value, "END PROPERTYDEFINITIONS")
        invariant index <= |lines| && line == LineAt(lines, index)
        invariant DefinitionsLoop(lines, State(), body) == DefinitionsLoop(lines, St(Next(lines, j), old(log), old(tables)), [])
        decreases |lines| - index
      {
        log := NoteSemicolon(log, index, line.value);
        body := body + [Fixed(line.value)];
        line := NextLine();
      }
      if line.None? {
        return Failure(EndOfInput);
      }
      var endLine := line.value;
      line := NextLine();
      r := Success(Some(PropertyDefinitions(startLine, body, endLine)));
    }

    /** The MACRO loop of `LEF_File.new`: until `END LIBRARY`, every line must
        start a MACRO, whose cell is filed under its name; running out of
        lines after a cell adds an empty `missing_end_library_token` finding
        and leaves no end line. */
    method ReadCells() returns (r: Result<(Hash<string, Cell>, Option<string>), Fault>)
      requires index <= |lines|
      modifies this
      ensures var spec := TopLoop(lines, vocab, old(State()), []);
        && (spec.Failure? ==> r == Failure(spec.error))
        && (spec.Success? ==> r == Success((spec.value.0, spec.value.1)) && State() == spec.value.2)
    {
      var cells: Hash<string, Cell> := [];
      var line := LineAt(lines, index);
      ghost var spec := TopLoop(lines, vocab, State(), cells);
      while true
        invariant index <= |lines| && line == LineAt(lines, index)
        invariant TopLoop(lines, vocab, State(), cells) == spec
        decreases |lines| - index
      {
        if line.None? {
          return Failure(EndOfInput);
        }
        if Contains(line.value, "END LIBRARY") {
          return Success((cells, line));
        }
        var step, done;
        step, line, done := CellStep(cells);
        if step.Failure? {
          return Failure(step.error);
        }
        cells := step.value;
        if done {
          return Success((cells, None));
        }
      }
    }

    /** One cell of the MACRO loop, and the `missing_end_library_token`
        finding when the lines run out after it. */
    method CellStep(cells: Hash<string, Cell>) returns (r: Result<Hash<string, Cell>, Fault>, line: Option<string>, done: bool)
      requires index < |lines| && !Contains(lines[index], "END LIBRARY")
      modifies this
      ensures r.Success? ==> index <= |lines| && line == LineAt(lines, index)
      ensures var spec := TopLoop(lines, vocab, old(State()), cells);
        && (r.Failure? ==> spec == Failure(r.error))
        && (r.Success? && done ==> spec == Success((r.value, None, State())))
        && (r.Success? && !done ==> old(index) < index && spec == TopLoop(lines, vocab, State(), r.value))
    {
      ghost var before := State();
      ghost var turn := TopCell(lines, vocab, before, cells);
      TopLoopAtCell(lines, vocab, before, cells);
      r, line := CellTurn(cells);
      done := false;
      if r.Success? {
        assert turn.Success? && turn.value.0 == r.value && turn.value.1 == State();
        if line.None? {
          assert index == |lines|;
          NoteMissingEndLibrary();
          done := true;
        }
      }
    }

    /** The empty `missing_end_library_token` finding. */
    method NoteMissingEndLibrary()
      modifies this
      ensures State() == old(State()).(log := Push(old(log), MissingEndLibraryToken, ""))
    {
      log := Push(log, MissingEndLibraryToken, "");
    }

    /** One turn of the MACRO loop on a line that is not `END LIBRARY`. */
    method CellTurn(cells: Hash<string, Cell>) returns (r: Result<Hash<string, Cell>, Fault>, line: Option<string>)
      requires index < |lines|
      modifies this
      ensures var spec := TopCell(lines, vocab, old(State()), cells);
        && (spec.Failure? ==> r == Failure(spec.error))
        && (spec.Success? ==> r == Success(spec.value.0) && State() == spec.value.1 && line == LineAt(lines, index))
    {
      if !IsCellStart(lines[index]) {
        return Failure(UnexpectedLine(index, lines[index])), None;
      }
      var cell := ParseCell();
      if cell.Failure? {
        return Failure(cell.error), None;
      }
      r := Success(Put(cells, cell.value.name, cell.value));
      line := CurrentLine();
    }

    /** `LEF_File.new`: the header, the PROPERTYDEFINITIONS block, the cells
        up to `END LIBRARY`, then `check_for_uncommon_properties` on each of
        the five frequency tables, whose rare values go under the matching
        `strange_` finding. */
    method ParseLefFile() returns (r: Result<LefFile, Fault>)
      modifies this
      ensures var spec := LefSpec(lines, vocab, old(log), old(tables));
        && (spec.Failure? ==> r == Failure(spec.error))
        && (spec.Success? ==> r == Success(spec.value.0) && log == spec.value.1 && tables == spec.value.2)
    {
      index := 0;
      var line := CurrentLine();
      var header := ReadHeader(line);
      if header.Failure? {
        return Failure(header.error);
      }
      var definitions := ReadDefinitions();
      if definitions.Failure? {
        return Failure(definitions.error);
      }
      var cells := ReadCells();
      if cells.Failure? {
        return Failure(cells.error);
      }
      var classes := CheckForUncommonProperties(TallyOf(tables, Classes));
      var symmetries := CheckForUncommonProperties(TallyOf(tables, Symmetries));
      var sites := CheckForUncommonProperties(TallyOf(tables, Sites));
      var directions := CheckForUncommonProperties(TallyOf(tables, Directions));
      var uses := CheckForUncommonProperties(TallyOf(tables, Uses));
      log := log[StrangeClass := Get(log, StrangeClass) + classes]
                [StrangeSymmetry := Get(log, StrangeSymmetry) + symmetries]
                [StrangeSite := Get(log, StrangeSite) + sites]
                [StrangeDirection := Get(log, StrangeDirection) + directions]
                [StrangeUse := Get(log, StrangeUse) + uses];
      r := Success(LefFile(header.value, definitions.value, cells.value.0, cells.value.1));
    }
  }

  /** `check_for_uncommon_properties`: the messages it appends for one
      frequency table.  The first loop totals the messages; the second flags
      every value seen fewer than (total div distinct values) div 5 times. */
  method CheckForUncommonProperties(t: Tally) returns (flagged: seq<string>)
    ensures flagged == RareMessages(t)
  {
    var total := 0;
    var k := 0;
    while k < |t|
      invariant k <= |t| && total == Total(t[..k])
    {
      assert t[..k + 1][..k] == t[..k];
      total := total + |t[k].1|;
      k := k + 1;
    }
    assert t[..|t|] == t;
    flagged := [];
    k := 0;
    while k < |t|
      invariant k <= |t| && flagged == RareFrom(t[..k], Cutoff(t))
    {
      assert t[..k + 1][..k] == t[..k];
      if |t[k].1| < (total / |t|) / RarityFactor {
        flagged := flagged + t[k].1;
      }
      k := k + 1;
    }
  }
}
