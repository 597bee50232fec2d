/** The LEF entities above the geometry: a `PIN` with its properties and
    ports, a `MACRO` (cell) with its properties, pins and obstruction, and the
    whole library file.  Their start predicates, the property orders that
    `sort!` ranks lines by, `sort!` itself and the printed form. */
module Macros {
  import opened Wrappers
  import opened Text
  import opened Ordering
  import opened Hashes
  import opened Geometry

  /** A `PIN` block: its line as read, its name, its ordinary and `PROPERTY`
      lines (after the semicolon repair), its ports and its `END` line. */
  datatype Pin = Pin(
    startLine: string,
    name: string,
    properties: seq<string>,
    keywordProperties: seq<string>,
    ports: seq<LayerCollection>,
    endLine: string)

  /** A `MACRO` block. `obstruction` is the last `OBS` block read, and
      `endLine` is absent when the next `MACRO` came before any `END` line. */
  datatype Cell = Cell(
    startLine: string,
    name: string,
    properties: seq<string>,
    keywordProperties: seq<string>,
    pins: Hash<string, Pin>,
    obstruction: Option<LayerCollection>,
    endLine: Option<string>)

  /** The `PROPERTYDEFINITIONS` block, kept verbatim apart from the semicolon
      repair of its body. */
  datatype PropertyDefinitions = PropertyDefinitions(startLine: string, body: seq<string>, endLine: string)

  /** A LEF library: the header lines, the optional property definitions, the
      cells by name, and the `END LIBRARY` line (absent when input ran out). */
  datatype LefFile = LefFile(
    header: seq<string>,
    propertyDefinitions: Option<PropertyDefinitions>,
    cells: Hash<string, Cell>,
    endLine: Option<string>)

  /** `Cell.start_line?`: `/^MACRO\s+[\w\d_]+/`, the keyword, whitespace, then
      a word character. */
  predicate IsCellStart(line: string) {
    && StartsWith(line, "MACRO")
    && |line| > 5 && IsSpace(line[5])
    && TrimLeft(line[5..]) != [] && IsWordChar(TrimLeft(line[5..])[0])
  }

  /** `Pin.start_line?`: `/^\s*PIN\s+/`. */
  predicate IsPinStart(line: string) {
    var t := TrimLeft(line);
    StartsWith(t, "PIN") && |t| > 3 && IsSpace(t[3])
  }

  /** The order cell property lines are sorted into. */
  const CellPropertyOrder: seq<string> :=
    ["CLASS", "FOREIGN", "ORIGIN", "EEQ", "SIZE", "SYMMETRY", "SITE", "DENSITY", "PROPERTY"]

  /** The order pin property lines are sorted into. */
  const PinPropertyOrder: seq<string> := [
    "TAPERRULE", "DIRECTION", "USE", "NETEXPR", "SUPPLYSENSITIVITY",
    "GROUNDSENSITIVITY", "SHAPE", "MUSTJOIN", "PROPERTY",
    "ANTENNAPARTIALMETALAREA", "ANTENNAPARTIALMETALSIDEAREA",
    "ANTENNAPARTIALCUTAREA", "ANTENNADIFFAREA", "ANTENNAMODEL",
    "ANTENNAGATEAREA", "ANTENNAMAXAREACAR", "ANTENNAMAXSIDEAREACAR",
    "ANTENNAMAXCUTCAR"]

  /** The longest run of word characters that starts `s`. */
  function LeadingWord(s: string): (w: string)
    ensures |w| <= |s| && w == s[..|w|]
    ensures forall i | 0 <= i < |w| :: IsWordChar(w[i])
    ensures |w| == |s| || !IsWordChar(s[|w|])
  {
    if s == [] || !IsWordChar(s[0]) then []
    else
      var rest := LeadingWord(s[1..]);
      assert s[1..][..|rest|] == s[1..|rest| + 1];
      [s[0]] + rest
  }

  /** The key a cell property line sorts by: the word after any indentation,
      as written (not upper-cased), or the empty string. */
  function CellPropertyKey(line: string): string {
    LeadingWord(TrimLeft(line))
  }

  /** The name of a property line: its first token, upper-cased.  Pin
      property lines sort by it, and both parsers classify lines by it. */
  function PropertyName(line: string): string {
    Upper(TokenOrEmpty(line, 0))
  }

  // ---------------------------------------------------------------------
  // sort!

  /** `Pin.sort!`: ports by `LayerCollection.compare_to` (their own layers
      are left as read; when every coordinate line has one width, as the
      parser writes them, the ports end up in `compare_to` order), properties
      by the pin property order, `PROPERTY` lines in string order. */
  function SortPin(p: Pin): (r: Pin)
    ensures r.startLine == p.startLine && r.name == p.name && r.endLine == p.endLine
    ensures multiset(r.ports) == multiset(p.ports)
    ensures multiset(r.properties) == multiset(p.properties)
    ensures multiset(r.keywordProperties) == multiset(p.keywordProperties)
    ensures Sorted((a, b) => RankedCompare(PinPropertyOrder, PropertyName, a, b), r.properties)
    ensures Sorted(Compare, r.keywordProperties)
    ensures forall n: nat :: AllAdmitted(CollectionWidthIs(n), p.ports) ==> Sorted(CollectionCompare, r.ports)
  {
    var cmp := (a, b) => RankedCompare(PinPropertyOrder, PropertyName, a, b);
    CollectionsSorted(p.ports);
    RankedCompareStrictTotal(PinPropertyOrder, PropertyName);
    StringOrderStrictTotal();
    SortByPermutes(CollectionCompare, p.ports);
    SortByPermutes(cmp, p.properties);
    SortBySorted(cmp, p.properties);
    SortByPermutes(Compare, p.keywordProperties);
    SortBySorted(Compare, p.keywordProperties);
    p.(ports := SortBy(CollectionCompare, p.ports),
       properties := SortBy(cmp, p.properties),
       keywordProperties := SortBy(Compare, p.keywordProperties))
  }

  /** `Cell.sort!`: every pin sorts itself, the obstruction sorts its layers,
      properties go by the cell property order, `PROPERTY` lines in string
      order. */
  function SortCell(c: Cell): (r: Cell)
    ensures r.startLine == c.startLine && r.name == c.name && r.endLine == c.endLine
    ensures KeysOf(r.pins) == KeysOf(c.pins)
    ensures r.obstruction.Some? <==> c.obstruction.Some?
    ensures multiset(r.properties) == multiset(c.properties)
    ensures multiset(r.keywordProperties) == multiset(c.keywordProperties)
    ensures Sorted((a, b) => RankedCompare(CellPropertyOrder, CellPropertyKey, a, b), r.properties)
    ensures Sorted(Compare, r.keywordProperties)
  {
    var cmp := (a, b) => RankedCompare(CellPropertyOrder, CellPropertyKey, a, b);
    RankedCompareStrictTotal(CellPropertyOrder, CellPropertyKey);
    StringOrderStrictTotal();
    SortByPermutes(cmp, c.properties);
    SortBySorted(cmp, c.properties);
    SortByPermutes(Compare, c.keywordProperties);
    SortBySorted(Compare, c.keywordProperties);
    c.(pins := MapValues(c.pins, SortPin),
       obstruction := if c.obstruction.Some? then Some(SortCollection(c.obstruction.value)) else None,
       properties := SortBy(cmp, c.properties),
       keywordProperties := SortBy(Compare, c.keywordProperties))
  }

  /** `LEF_File.sort!`: every cell sorts itself. */
  function SortLef(f: LefFile): (r: LefFile)
    ensures r.header == f.header && r.propertyDefinitions == f.propertyDefinitions && r.endLine == f.endLine
    ensures KeysOf(r.cells) == KeysOf(f.cells)
  {
    f.(cells := MapValues(f.cells, SortCell))
  }

  /** After `Pin.sort!`, every property line whose key is in the pin property
      order precedes every line whose key is not, and listed keys appear in
      list order. */
  lemma PinPropertiesRanked(p: Pin, i: nat, j: nat)
    requires i <= j < |SortPin(p).properties|
    ensures var props := SortPin(p).properties;
      && IndexOf(PinPropertyOrder, PropertyName(props[i])) <= IndexOf(PinPropertyOrder, PropertyName(props[j]))
      && (PropertyName(props[i]) !in PinPropertyOrder ==> PropertyName(props[j]) !in PinPropertyOrder)
  {
    RankedSortedRanks(PinPropertyOrder, PropertyName, SortPin(p).properties, i, j);
  }

  /** The same for cell property lines and the cell property order. */
  lemma CellPropertiesRanked(c: Cell, i: nat, j: nat)
    requires i <= j < |SortCell(c).properties|
    ensures var props := SortCell(c).properties;
      && IndexOf(CellPropertyOrder, CellPropertyKey(props[i])) <= IndexOf(CellPropertyOrder, CellPropertyKey(props[j]))
      && (CellPropertyKey(props[i]) !in CellPropertyOrder ==> CellPropertyKey(props[j]) !in CellPropertyOrder)
  {
    RankedSortedRanks(CellPropertyOrder, CellPropertyKey, SortCell(c).properties, i, j);
  }

  /** The property order is strict and total, so the sorted property lines
      are the only sorted arrangement of them: any sorting algorithm, stable
      or not, gives this result. */
  lemma PinPropertySortCanonical(p: Pin, t: seq<string>)
    requires multiset(t) == multiset(p.properties)
    requires Sorted((a, b) => RankedCompare(PinPropertyOrder, PropertyName, a, b), t)
    ensures t == SortPin(p).properties
  {
    var cmp := (a, b) => RankedCompare(PinPropertyOrder, PropertyName, a, b);
    RankedCompareStrictTotal(PinPropertyOrder, PropertyName);
    SortByUnique(cmp, p.properties, t);
  }

  lemma CellPropertySortCanonical(c: Cell, t: seq<string>)
    requires multiset(t) == multiset(c.properties)
    requires Sorted((a, b) => RankedCompare(CellPropertyOrder, CellPropertyKey, a, b), t)
    ensures t == SortCell(c).properties
  {
    var cmp := (a, b) => RankedCompare(CellPropertyOrder, CellPropertyKey, a, b);
    RankedCompareStrictTotal(CellPropertyOrder, CellPropertyKey);
    SortByUnique(cmp, c.properties, t);
  }

  // ---------------------------------------------------------------------
  // print

  /** `Pin.print`: the PIN line, properties, ports in their order, `PROPERTY`
      lines, the END line. */
  function PrintPin(vocab: seq<string>, p: Pin): (out: seq<string>)
    ensures |out| >= 2 && out[0] == p.startLine && out[|out| - 1] == p.endLine
  {
    [p.startLine] + p.properties + FlatMap(p.ports, c => PrintCollection(vocab, c))
      + p.keywordProperties + [p.endLine]
  }

  /** `Cell.print`: the MACRO line, properties, pins by name in string order,
      the obstruction, `PROPERTY` lines, the END line (nothing when absent)
      and an empty line. */
  function PrintCell(vocab: seq<string>, c: Cell): (out: seq<string>)
    ensures |out| >= 2 && out[0] == c.startLine && out[|out| - 1] == "\n"
  {
    [c.startLine] + c.properties
      + LookupAll(SortedKeys(c.pins), c.pins, p => PrintPin(vocab, p))
      + (if c.obstruction.Some? then PrintCollection(vocab, c.obstruction.value) else [])
      + c.keywordProperties
      + (if c.endLine.Some? then [c.endLine.value] else [])
      + ["\n"]
  }

  /** The `PROPERTYDEFINITIONS` block as printed. */
  function PrintDefinitions(d: Option<PropertyDefinitions>): seq<string> {
    match d
    case Some(defs) => [defs.startLine] + defs.body + [defs.endLine]
    case None => []
  }

  /** `LEF_File.print`: header, property definitions, cells by name in string
      order, the END LIBRARY line (nothing when absent). */
  function PrintLef(vocab: seq<string>, f: LefFile): (out: seq<string>)
    ensures |out| >= |f.header| && out[..|f.header|] == f.header
  {
    var rest := PrintDefinitions(f.propertyDefinitions)
      + LookupAll(SortedKeys(f.cells), f.cells, c => PrintCell(vocab, c))
      + (if f.endLine.Some? then [f.endLine.value] else []);
    assert (f.header + rest)[..|f.header|] == f.header;
    f.header + rest
  }

  /** Canonicalising only re-orders lines: what `print` writes after `sort!`
      is a permutation of what it writes before, for a pin, a cell and a
      whole file. */
  lemma SortPinPrintsSameLines(vocab: seq<string>, p: Pin)
    ensures multiset(PrintPin(vocab, SortPin(p))) == multiset(PrintPin(vocab, p))
  {
    FlatMapSortBy(CollectionCompare, p.ports, c => PrintCollection(vocab, c));
  }

  lemma SortCellPrintsSameLines(vocab: seq<string>, c: Cell)
    ensures multiset(PrintCell(vocab, SortCell(c))) == multiset(PrintCell(vocab, c))
  {
    var printPin := p => PrintPin(vocab, p);
    forall p: Pin ensures multiset(printPin(SortPin(p))) == multiset(printPin(p)) {
      SortPinPrintsSameLines(vocab, p);
    }
    LookupAllMapValues(SortedKeys(c.pins), c.pins, SortPin, printPin);
    if c.obstruction.Some? {
      SortCollectionPrintsSameLines(vocab, c.obstruction.value);
    }
  }

  lemma SortLefPrintsSameLines(vocab: seq<string>, f: LefFile)
    ensures multiset(PrintLef(vocab, SortLef(f))) == multiset(PrintLef(vocab, f))
  {
    var printCell := c => PrintCell(vocab, c);
    forall c: Cell ensures multiset(printCell(SortCell(c))) == multiset(printCell(c)) {
      SortCellPrintsSameLines(vocab, c);
    }
    LookupAllMapValues(SortedKeys(f.cells), f.cells, SortCell, printCell);
  }
}
