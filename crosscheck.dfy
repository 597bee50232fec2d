/** The LEF/Liberty cross-check: the per-pin property check of
    `LibRuleChecker` and the reconciliation loops of `main`, which compare
    every parsed LEF library against every scraped Liberty file in both
    directions and turn the differences into findings. */
module CrossCheck {
  import opened Wrappers
  import opened Text
  import opened Hashes
  import opened Findings
  import opened Numbers
  import opened Macros
  import opened Liberty

  /** The parsed LEF libraries by file name, and the scraped Liberty cells
      by Liberty file name and cell name. */
  type LefFiles = Hash<string, LefFile>
  type LibertyData = Hash<string, Hash<Option<string>, LibertyCell>>

  /** Where the reconciliation calls a method on nil and stops. */
  datatype CrossFault =
    | NilPinName           // a scraped pin without a name is upper-cased
    | NilPinProperty       // a matched pin without a direction is upper-cased
    | NilCellName          // a scraped cell without a name is missing from LEF

  /** The only pin property the scraper records and the checker compares. */
  const CheckedPinProperty: string := "direction"

  // ---------------------------------------------------------------------
  // LibRuleChecker.check_pin_value_in_lef

  /** `lib_pin.property(key)`: only the direction is ever recorded. */
  function LibertyPinProperty(p: LibertyPin, key: string): (v: Option<string>)
    ensures v.Some? ==> key == CheckedPinProperty
  {
    if key == CheckedPinProperty then p.direction else None
  }

  /** `gsub(/[\"\n;]/, '')`. */
  function Unquoted(v: string): (r: string)
    ensures |r| <= |v|
    ensures forall i | 0 <= i < |r| :: r[i] != '"' && r[i] != '\n' && r[i] != ';'
    ensures forall i | 0 <= i < |v| && v[i] != '"' && v[i] != '\n' && v[i] != ';' :: v[i] in r
  {
    if v == [] then []
    else
      var rest := Unquoted(v[1..]);
      assert forall i | 1 <= i < |v| :: v[i] == v[1..][i - 1];
      if v[0] == '"' || v[0] == '\n' || v[0] == ';' then rest else [v[0]] + rest
  }
  /** `gsub` works character by character: the text of a concatenation is
      the concatenation of the texts. */
  lemma {:induction false} UnquotedConcat(a: string, b: string)
    ensures Unquoted(a + b) == Unquoted(a) + Unquoted(b)
  {
    if a == [] {
      assert a + b == b;
    } else {
      assert (a + b)[0] == a[0];
      assert (a + b)[1..] == a[1..] + b;
      UnquotedConcat(a[1..], b);
    }
  }

  /** One character is removed exactly when it is a quote, a newline or a
      semicolon, and kept otherwise; with `UnquotedConcat` this fixes the
      result for every string, order and repetitions included. */
  lemma UnquotedChar(c: char)
    ensures Unquoted([c]) == if c == '"' || c == '\n' || c == ';' then [] else [c]
  {
    assert [c][1..] == [];
  }


  /** `/^\s*KEY(.*)/` on a single line: the key right after the indentation. */
  predicate IsKeyLine(line: string, lefKey: string) {
    StartsWith(TrimLeft(line), lefKey)
  }

  /** `ps.select { |p| keep(p) }`. */
  function Select(ps: seq<string>, keep: string -> bool): (r: seq<string>)
    ensures forall x :: x in r <==> x in ps && keep(x)
  {
    if ps == [] then []
    else (if keep(ps[0]) then [ps[0]] else []) + Select(ps[1..], keep)
  }

  /** String interpolation of a possibly nil name. */
  function NameText(n: Option<string>): string {
    match n
    case Some(s) => s
    case None => ""
  }

  /** The finding for a pin whose LEF property disagrees with Liberty. */
  function PinPropertyMessage(cell: string, libPath: string, lefPath: string, pinName: Option<string>, lefKey: string): string {
    cell + "\n\tFiles: " + libPath + ", " + lefPath + ", \n\tPin: " + NameText(pinName) + ", \n\tProperty: " + lefKey + "\n"
  }

  /** `check_pin_value_in_lef`: when the LEF pin has lines naming the
      upper-cased key but none of them contains the upper-cased Liberty value
      (quotes, newlines and semicolons removed), one finding; otherwise none.
      A Liberty pin without the property makes the tool fail. */
  function CheckPinValueInLef(libPath: string, lefPath: string, lefPin: Pin, libPin: LibertyPin, key: string, cell: string)
    : (r: Result<seq<string>, CrossFault>)
    ensures r.Failure? <==> LibertyPinProperty(libPin, key).None?
    ensures r.Success? ==> |r.value| <= 1
    ensures r.Success? ==>
      var wanted := Unquoted(Upper(LibertyPinProperty(libPin, key).value));
      (r.value != [] <==>
        && (exists p | p in lefPin.properties :: IsKeyLine(p, Upper(key)))
        && (forall p | p in lefPin.properties && IsKeyLine(p, Upper(key)) :: !Contains(p, wanted)))
    ensures r.Success? && r.value != [] ==>
      r.value == [PinPropertyMessage(cell, libPath, lefPath, libPin.name, Upper(key))]
  {
    match LibertyPinProperty(libPin, key)
    case None => Failure(NilPinProperty)
    case Some(v) =>
      var lefKey := Upper(key);
      var wanted := Unquoted(Upper(v));
      var keyed := Select(lefPin.properties, p => IsKeyLine(p, lefKey));
      if keyed == [] then Success([])
      else
        var matching := Select(keyed, p => Contains(p, wanted));
        if matching == [] then
          assert keyed[0] in keyed;
          Success([PinPropertyMessage(cell, libPath, lefPath, libPin.name, lefKey)])
        else
          assert matching[0] in matching;
          Success([])
  }

  // ---------------------------------------------------------------------
  // The lists the reconciliation builds: file names by cell (and pin)

  /** `h[k]` of a table of file lists, the empty list for nil. */
  function Listed<K(==)>(h: Hash<K, seq<string>>, k: K): seq<string> {
    match Lookup(h, k)
    case Some(fs) => fs
    case None => []
  }

  /** `h[k] ||= []; h[k].push(f)`. */
  function Append<K(==, !new)>(h: Hash<K, seq<string>>, k: K, f: string): (r: Hash<K, seq<string>>)
    ensures Listed(r, k) == Listed(h, k) + [f]
    ensures forall k' | k' != k :: Listed(r, k') == Listed(h, k')
  {
    var r := Put(h, k, Listed(h, k) + [f]);
    assert forall k' :: Lookup(r, k') == if k' == k then Some(Listed(h, k) + [f]) else Lookup(h, k') by {
      forall k' {
        PutLookup(h, k, Listed(h, k) + [f], k');
      }
    }
    r
  }

  /** `h[c]`, the empty table for nil. */
  function Nested(h: Hash<string, Hash<string, seq<string>>>, c: string): Hash<string, seq<string>> {
    match Lookup(h, c)
    case Some(t) => t
    case None => []
  }

  /** `h[c] ||= {}; h[c][p] ||= []; h[c][p].push(f)`. */
  function AppendNested(h: Hash<string, Hash<string, seq<string>>>, c: string, p: string, f: string)
    : (r: Hash<string, Hash<string, seq<string>>>)
    ensures Nested(r, c) == Append(Nested(h, c), p, f)
    ensures forall c' | c' != c :: Nested(r, c') == Nested(h, c')
  {
    var t := Append(Nested(h, c), p, f);
    var r := Put(h, c, t);
    assert forall c' :: Lookup(r, c') == if c' == c then Some(t) else Lookup(h, c') by {
      forall c' {
        PutLookup(h, c, t, c');
      }
    }
    r
  }

  /** The cells of Liberty file `f`. */
  function LibCells(lib: LibertyData, f: string): Hash<Option<string>, LibertyCell> {
    match Lookup(lib, f)
    case Some(cells) => cells
    case None => []
  }

  /** The LEF cell filed under a key of the library. */
  function CellIn(lef: LefFile, c: string): Cell
    requires c in KeysOf(lef.cells)
  {
    Lookup(lef.cells, c).value
  }

  // ---------------------------------------------------------------------
  // The areas

  /** `line.split()[0].upcase == "SIZE"`. */
  predicate IsSizeLine(line: string) {
    Upper(TokenOrEmpty(line, 0)) == "SIZE"
  }

  /** `dim[1].to_f * dim[3].to_f` of a `SIZE w BY h ;` line. */
  function SizeArea(line: string): real {
    ToF(TokenOrEmpty(line, 1)) * ToF(TokenOrEmpty(line, 3))
  }

  /** The position of the last line `keep` accepts, if any. */
  function LastWhere(ps: seq<string>, keep: string -> bool): (r: Option<nat>)
    ensures r.None? <==> forall i | 0 <= i < |ps| :: !keep(ps[i])
    ensures r.Some? ==> r.value < |ps| && keep(ps[r.value]) && forall j | r.value < j < |ps| :: !keep(ps[j])
  {
    if ps == [] then None
    else if keep(ps[|ps| - 1]) then Some(|ps| - 1)
    else
      var r := LastWhere(ps[..|ps| - 1], keep);
      assert forall i | 0 <= i < |ps| - 1 :: ps[..|ps| - 1][i] == ps[i];
      r
  }

  /** The area a LEF cell declares: each `SIZE` line overwrites the last,
      so that of its last `SIZE` line; nil when it has none.  The cells it
      is given have been sorted, so "last" is in sorted property order. */
  function LefArea(cell: Cell): (a: Option<real>)
    ensures a.None? <==> forall i | 0 <= i < |cell.properties| :: !IsSizeLine(cell.properties[i])
    ensures a.Some? ==>
      exists i | 0 <= i < |cell.properties| ::
        && IsSizeLine(cell.properties[i]) && a.value == SizeArea(cell.properties[i])
        && forall j | i < j < |cell.properties| :: !IsSizeLine(cell.properties[j])
  {
    match LastWhere(cell.properties, IsSizeLine)
    case Some(i) => Some(SizeArea(cell.properties[i]))
    case None => None
  }

  /** `property("area").to_f`: nil reads as 0. */
  function LibertyArea(cell: LibertyCell): real {
    ToF(NameText(cell.area))
  }

  /** `lef_cell_area != liberty_cell_area`: a LEF cell without `SIZE`
      always differs. */
  predicate AreaDiffers(lef: Option<real>, lib: real) {
    lef.None? || lef.value != lib
  }

  // ---------------------------------------------------------------------
  // Pin matching, LEF to Liberty

  /** `pin.upcase == p.name.upcase`. */
  predicate PinMatches(pin: string, p: LibertyPin) {
    p.name.Some? && Upper(p.name.value) == Upper(pin)
  }

  /** The last Liberty pin whose name equals the LEF pin's name when both
      are upper-cased; every Liberty pin name is upper-cased on the way, so
      a pin without a name stops the tool. */
  function MatchingPin(pin: string, ps: seq<LibertyPin>): (r: Result<Option<LibertyPin>, CrossFault>)
    ensures r.Failure? <==> exists i | 0 <= i < |ps| :: ps[i].name.None?
    ensures r.Success? && r.value.None? ==> forall i | 0 <= i < |ps| :: !PinMatches(pin, ps[i])
    ensures r.Success? && r.value.Some? ==>
      exists i | 0 <= i < |ps| ::
        ps[i] == r.value.value && PinMatches(pin, ps[i]) && forall j | i < j < |ps| :: !PinMatches(pin, ps[j])
  {
    if ps == [] then Success(None)
    else
      var last := ps[|ps| - 1];
      var init := ps[..|ps| - 1];
      assert forall i | 0 <= i < |init| :: init[i] == ps[i];
      match MatchingPin(pin, init)
      case Failure(e) => Failure(e)
      case Success(earlier) =>
        if last.name.None? then Failure(NilPinName)
        else if PinMatches(pin, last) then Success(Some(last))
        else Success(earlier)
  }

  // ---------------------------------------------------------------------
  // The LEF-to-Liberty loop

  /** What the first loop collects: Liberty files missing each LEF cell,
      files whose area differs, files missing each LEF pin, and the pin
      property findings. */
  datatype Forward = Forward(
    missingCells: Hash<string, seq<string>>,
    areaMismatch: Hash<string, seq<string>>,
    missingPins: Hash<string, Hash<string, seq<string>>>,
    incorrect: seq<string>)

  /** One LEF pin against the Liberty cell: an unmatched pin is recorded as
      missing from the Liberty file; a matched one has its direction
      checked. */
  function ForwardPin(lefName: string, libFile: string, cell: string, pin: string, lefPin: Pin, libCell: LibertyCell, s: Forward)
    : (r: Result<Forward, CrossFault>)
    ensures r.Success? ==> r.value.missingCells == s.missingCells && r.value.areaMismatch == s.areaMismatch
  {
    match MatchingPin(pin, libCell.pins)
    case Failure(e) => Failure(e)
    case Success(None) => Success(s.(missingPins := AppendNested(s.missingPins, cell, pin, libFile)))
    case Success(Some(libPin)) =>
      match CheckPinValueInLef(lefName, libFile, lefPin, libPin, CheckedPinProperty, cell)
      case Failure(e) => Failure(e)
      case Success(errs) => Success(s.(incorrect := s.incorrect + errs))
  }

  /** The pins of a LEF cell against the cell of the same name in Liberty
      file `libFile`, in the order of the LEF cell's pins. */
  function ForwardPins(lefName: string, libFile: string, cell: string, pins: Hash<string, Pin>, libCell: LibertyCell, s: Forward)
    : (r: Result<Forward, CrossFault>)
    ensures r.Success? ==> r.value.missingCells == s.missingCells && r.value.areaMismatch == s.areaMismatch
    decreases |pins|
  {
    if pins == [] then Success(s)
    else
      match ForwardPin(lefName, libFile, cell, pins[0].0, pins[0].1, libCell, s)
      case Failure(e) => Failure(e)
      case Success(s1) => ForwardPins(lefName, libFile, cell, pins[1..], libCell, s1)
  }

  /** One LEF cell against one Liberty file: the cell is looked up by its
      exact name; when present, the areas and then the pins are compared. */
  function ForwardPair(lefName: string, cell: string, lefCell: Cell, libFile: string, libCells: Hash<Option<string>, LibertyCell>, s: Forward)
    : (r: Result<Forward, CrossFault>)
  {
    match Lookup(libCells, Some(cell))
    case None => Success(s.(missingCells := Append(s.missingCells, cell, libFile)))
    case Some(libCell) =>
      var s1 := if AreaDiffers(LefArea(lefCell), LibertyArea(libCell))
        then s.(areaMismatch := Append(s.areaMismatch, cell, libFile)) else s;
      ForwardPins(lefName, libFile, cell, lefCell.pins, libCell, s1)
  }

  function ForwardLibFiles(lefName: string, cell: string, lefCell: Cell, fs: seq<string>, lib: LibertyData, s: Forward)
    : (r: Result<Forward, CrossFault>)
    decreases |fs|
  {
    if fs == [] then Success(s)
    else
      match ForwardPair(lefName, cell, lefCell, fs[0], LibCells(lib, fs[0]), s)
      case Failure(e) => Failure(e)
      case Success(s1) => ForwardLibFiles(lefName, cell, lefCell, fs[1..], lib, s1)
  }

  function ForwardCells(lefName: string, lef: LefFile, cs: seq<string>, lib: LibertyData, s: Forward)
    : (r: Result<Forward, CrossFault>)
    requires forall i | 0 <= i < |cs| :: cs[i] in KeysOf(lef.cells)
    decreases |cs|
  {
    if cs == [] then Success(s)
    else
      match ForwardLibFiles(lefName, cs[0], CellIn(lef, cs[0]), KeysOf(lib), lib, s)
      case Failure(e) => Failure(e)
      case Success(s1) => ForwardCells(lefName, lef, cs[1..], lib, s1)
  }

  /** The first loop: every LEF file, every cell of it, every Liberty file. */
  function ForwardFiles(lefs: LefFiles, lib: LibertyData, s: Forward): (r: Result<Forward, CrossFault>)
    decreases |lefs|
  {
    if lefs == [] then Success(s)
    else
      match ForwardCells(lefs[0].0, lefs[0].1, KeysOf(lefs[0].1.cells), lib, s)
      case Failure(e) => Failure(e)
      case Success(s1) => ForwardFiles(lefs[1..], lib, s1)
  }

  // ---------------------------------------------------------------------
  // The Liberty-to-LEF loop

  /** What the second loop collects: LEF libraries missing each Liberty
      cell, and those missing each Liberty pin. */
  datatype Backward = Backward(
    missingCells: Hash<Option<string>, seq<string>>,
    missingPins: Hash<string, Hash<string, seq<string>>>)

  /** One named Liberty pin against the LEF cell: recorded as missing from
      the LEF file when the LEF cell has no pin of its upper-cased name. */
  function BackwardPin(libFile: string, cell: string, lefCell: Cell, n: string, s: Backward): (r: Backward)
    ensures r.missingCells == s.missingCells
  {
    if Lookup(lefCell.pins, Upper(n)).None?
    then s.(missingPins := AppendNested(s.missingPins, cell, n, libFile)) else s
  }

  /** The pins of a Liberty cell against the LEF cell of the same name:
      only the Liberty name is upper-cased before the LEF lookup. */
  function BackwardPins(libFile: string, cell: string, lefCell: Cell, ps: seq<LibertyPin>, s: Backward)
    : (r: Result<Backward, CrossFault>)
    ensures r.Success? ==> r.value.missingCells == s.missingCells
    ensures r.Failure? <==> exists i | 0 <= i < |ps| :: ps[i].name.None?
    decreases |ps|
  {
    if ps == [] then Success(s)
    else
      match ps[0].name
      case None => Failure(NilPinName)
      case Some(n) =>
        var r := BackwardPins(libFile, cell, lefCell, ps[1..], BackwardPin(libFile, cell, lefCell, n, s));
        assert forall i | 1 <= i < |ps| :: ps[i] == ps[1..][i - 1];
        r
  }

  /** One Liberty cell against one LEF library: looked up by its exact
      name; a cell without a name is never found. */
  function BackwardPair(libFile: string, k: Option<string>, libCell: LibertyCell, lef: LefFile, s: Backward)
    : (r: Result<Backward, CrossFault>)
  {
    match k
    case None => Success(s.(missingCells := Append(s.missingCells, k, libFile)))
    case Some(c) =>
      match Lookup(lef.cells, c)
      case None => Success(s.(missingCells := Append(s.missingCells, k, libFile)))
      case Some(lefCell) => BackwardPins(libFile, c, lefCell, libCell.pins, s)
  }

  function BackwardLefFiles(libFile: string, k: Option<string>, libCell: LibertyCell, lefs: LefFiles, s: Backward)
    : (r: Result<Backward, CrossFault>)
    decreases |lefs|
  {
    if lefs == [] then Success(s)
    else
      match BackwardPair(libFile, k, libCell, lefs[0].1, s)
      case Failure(e) => Failure(e)
      case Success(s1) => BackwardLefFiles(libFile, k, libCell, lefs[1..], s1)
  }

  function BackwardCells(libFile: string, libCells: Hash<Option<string>, LibertyCell>, ks: seq<Option<string>>, lefs: LefFiles, s: Backward)
    : (r: Result<Backward, CrossFault>)
    requires forall i | 0 <= i < |ks| :: ks[i] in KeysOf(libCells)
    decreases |ks|
  {
    if ks == [] then Success(s)
    else
      match BackwardLefFiles(libFile, ks[0], Lookup(libCells, ks[0]).value, lefs, s)
      case Failure(e) => Failure(e)
      case Success(s1) => BackwardCells(libFile, libCells, ks[1..], lefs, s1)
  }

  /** The second loop: every Liberty file, every cell of it, every LEF file. */
  function BackwardFiles(fs: seq<string>, lib: LibertyData, lefs: LefFiles, s: Backward): (r: Result<Backward, CrossFault>)
    decreases |fs|
  {
    if fs == [] then Success(s)
    else
      match BackwardCells(fs[0], LibCells(lib, fs[0]), KeysOf(LibCells(lib, fs[0])), lefs, s)
      case Failure(e) => Failure(e)
      case Success(s1) => BackwardFiles(fs[1..], lib, lefs, s1)
  }

  // ---------------------------------------------------------------------
  // What the LEF-to-Liberty loop collects

  /** Liberty file `f` has no cell named exactly `c`. */
  predicate LibertyLacks(lib: LibertyData, f: string, c: string) {
    Lookup(LibCells(lib, f), Some(c)).None?
  }

  /** Some LEF library has a cell named exactly `c`. */
  ghost predicate LefDeclares(lefs: LefFiles, c: string) {
    exists i | 0 <= i < |lefs| :: c in KeysOf(lefs[i].1.cells)
  }

  lemma LefDeclaresCons(lefs: LefFiles, c: string)
    requires lefs != []
    ensures LefDeclares(lefs, c) <==> c in KeysOf(lefs[0].1.cells) || LefDeclares(lefs[1..], c)
  {
    if LefDeclares(lefs, c) && c !in KeysOf(lefs[0].1.cells) {
      var i :| 0 <= i < |lefs| && c in KeysOf(lefs[i].1.cells);
      assert lefs[1..][i - 1] == lefs[i];
    }
    if LefDeclares(lefs[1..], c) {
      var i :| 0 <= i < |lefs[1..]| && c in KeysOf(lefs[1..][i].1.cells);
      assert lefs[i + 1] == lefs[1..][i];
    }
  }

  /** A Liberty file is listed as missing a cell iff it has no cell of
      exactly that name. */
  lemma {:induction false} ForwardLibFilesMissingCells(lefName: string, cell: string, lefCell: Cell, fs: seq<string>, lib: LibertyData, s: Forward, c: string, f: string)
    requires ForwardLibFiles(lefName, cell, lefCell, fs, lib, s).Success?
    ensures f in Listed(ForwardLibFiles(lefName, cell, lefCell, fs, lib, s).value.missingCells, c) <==>
      f in Listed(s.missingCells, c) || (c == cell && f in fs && LibertyLacks(lib, f, c))
    decreases |fs|
  {
    if fs != [] {
      var s1 := ForwardPair(lefName, cell, lefCell, fs[0], LibCells(lib, fs[0]), s).value;
      ForwardLibFilesMissingCells(lefName, cell, lefCell, fs[1..], lib, s1, c, f);
      assert f in fs <==> f == fs[0] || f in fs[1..];
    }
  }

  lemma {:induction false} ForwardCellsMissingCells(lefName: string, lef: LefFile, cs: seq<string>, lib: LibertyData, s: Forward, c: string, f: string)
    requires forall i | 0 <= i < |cs| :: cs[i] in KeysOf(lef.cells)
    requires ForwardCells(lefName, lef, cs, lib, s).Success?
    ensures f in Listed(ForwardCells(lefName, lef, cs, lib, s).value.missingCells, c) <==>
      f in Listed(s.missingCells, c) || (c in cs && f in KeysOf(lib) && LibertyLacks(lib, f, c))
    decreases |cs|
  {
    if cs != [] {
      var s1 := ForwardLibFiles(lefName, cs[0], CellIn(lef, cs[0]), KeysOf(lib), lib, s).value;
      ForwardLibFilesMissingCells(lefName, cs[0], CellIn(lef, cs[0]), KeysOf(lib), lib, s, c, f);
      ForwardCellsMissingCells(lefName, lef, cs[1..], lib, s1, c, f);
      assert c in cs <==> c == cs[0] || c in cs[1..];
    }
  }

  /** After the first loop, Liberty file `f` is listed under cell `c` iff
      some LEF library has a cell named exactly `c` and `f` has none: the
      lookup is case-sensitive. */
  lemma {:induction false} ForwardMissingCells(lefs: LefFiles, lib: LibertyData, s: Forward, c: string, f: string)
    requires ForwardFiles(lefs, lib, s).Success?
    ensures f in Listed(ForwardFiles(lefs, lib, s).value.missingCells, c) <==>
      f in Listed(s.missingCells, c) || (LefDeclares(lefs, c) && f in KeysOf(lib) && LibertyLacks(lib, f, c))
    decreases |lefs|
  {
    if lefs != [] {
      var s1 := ForwardCells(lefs[0].0, lefs[0].1, KeysOf(lefs[0].1.cells), lib, s).value;
      ForwardCellsMissingCells(lefs[0].0, lefs[0].1, KeysOf(lefs[0].1.cells), lib, s, c, f);
      ForwardMissingCells(lefs[1..], lib, s1, c, f);
      LefDeclaresCons(lefs, c);
    }
  }

  /** Some LEF library has a cell named exactly `c` for which `p` holds. */
  ghost predicate SomeLefCell(lefs: LefFiles, c: string, p: Cell -> bool) {
    exists i | 0 <= i < |lefs| :: c in KeysOf(lefs[i].1.cells) && p(CellIn(lefs[i].1, c))
  }

  lemma SomeLefCellCons(lefs: LefFiles, c: string, p: Cell -> bool)
    requires lefs != []
    ensures SomeLefCell(lefs, c, p) <==>
      (c in KeysOf(lefs[0].1.cells) && p(CellIn(lefs[0].1, c))) || SomeLefCell(lefs[1..], c, p)
  {
    if SomeLefCell(lefs, c, p) && !(c in KeysOf(lefs[0].1.cells) && p(CellIn(lefs[0].1, c))) {
      var i :| 0 <= i < |lefs| && c in KeysOf(lefs[i].1.cells) && p(CellIn(lefs[i].1, c));
      assert lefs[1..][i - 1] == lefs[i];
    }
    if SomeLefCell(lefs[1..], c, p) {
      var i :| 0 <= i < |lefs[1..]| && c in KeysOf(lefs[1..][i].1.cells) && p(CellIn(lefs[1..][i].1, c));
      assert lefs[i + 1] == lefs[1..][i];
    }
  }

  /** Liberty file `f` has a cell named `c` whose area differs from the one
      the LEF cell declares. */
  predicate AreaDisagrees(lefCell: Cell, lib: LibertyData, f: string, c: string) {
    && Lookup(LibCells(lib, f), Some(c)).Some?
    && AreaDiffers(LefArea(lefCell), LibertyArea(Lookup(LibCells(lib, f), Some(c)).value))
  }

  lemma ForwardPairAreas(lefName: string, cell: string, lefCell: Cell, libFile: string, lib: LibertyData, s: Forward, c: string, f: string)
    requires ForwardPair(lefName, cell, lefCell, libFile, LibCells(lib, libFile), s).Success?
    ensures f in Listed(ForwardPair(lefName, cell, lefCell, libFile, LibCells(lib, libFile), s).value.areaMismatch, c) <==>
      f in Listed(s.areaMismatch, c) || (c == cell && f == libFile && AreaDisagrees(lefCell, lib, libFile, c))
  {
    match Lookup(LibCells(lib, libFile), Some(cell))
    case None =>
    case Some(libCell) =>
      var differs := AreaDiffers(LefArea(lefCell), LibertyArea(libCell));
      var s0 := if differs then s.(areaMismatch := Append(s.areaMismatch, cell, libFile)) else s;
      var r := ForwardPins(lefName, libFile, cell, lefCell.pins, libCell, s0);
      assert r.value.areaMismatch == s0.areaMismatch;
      if c == cell {
        assert AreaDisagrees(lefCell, lib, libFile, c) == differs;
      }
  }

  lemma {:induction false} ForwardLibFilesAreas(lefName: string, cell: string, lefCell: Cell, fs: seq<string>, lib: LibertyData, s: Forward, c: string, f: string)
    requires ForwardLibFiles(lefName, cell, lefCell, fs, lib, s).Success?
    ensures f in Listed(ForwardLibFiles(lefName, cell, lefCell, fs, lib, s).value.areaMismatch, c) <==>
      f in Listed(s.areaMismatch, c) || (c == cell && f in fs && AreaDisagrees(lefCell, lib, f, c))
    decreases |fs|
  {
    if fs != [] {
      var s1 := ForwardPair(lefName, cell, lefCell, fs[0], LibCells(lib, fs[0]), s).value;
      ForwardPairAreas(lefName, cell, lefCell, fs[0], lib, s, c, f);
      ForwardLibFilesAreas(lefName, cell, lefCell, fs[1..], lib, s1, c, f);
      assert f in fs <==> f == fs[0] || f in fs[1..];
    }
  }

  lemma {:induction false} ForwardCellsAreas(lefName: string, lef: LefFile, cs: seq<string>, lib: LibertyData, s: Forward, c: string, f: string)
    requires forall i | 0 <= i < |cs| :: cs[i] in KeysOf(lef.cells)
    requires ForwardCells(lefName, lef, cs, lib, s).Success?
    ensures f in Listed(ForwardCells(lefName, lef, cs, lib, s).value.areaMismatch, c) <==>
      f in Listed(s.areaMismatch, c) || (c in cs && f in KeysOf(lib) && AreaDisagrees(CellIn(lef, c), lib, f, c))
    decreases |cs|
  {
    if cs != [] {
      var s1 := ForwardLibFiles(lefName, cs[0], CellIn(lef, cs[0]), KeysOf(lib), lib, s).value;
      ForwardLibFilesAreas(lefName, cs[0], CellIn(lef, cs[0]), KeysOf(lib), lib, s, c, f);
      ForwardCellsAreas(lefName, lef, cs[1..], lib, s1, c, f);
      assert c in cs <==> c == cs[0] || c in cs[1..];
    }
  }

  /** After the first loop, Liberty file `f` is listed under cell `c` as an
      area mismatch iff it has a cell named `c` whose area differs from that
      of a LEF cell named `c` (a LEF cell without `SIZE` always differs). */
  lemma {:induction false} ForwardAreaMismatch(lefs: LefFiles, lib: LibertyData, s: Forward, c: string, f: string)
    requires ForwardFiles(lefs, lib, s).Success?
    ensures f in Listed(ForwardFiles(lefs, lib, s).value.areaMismatch, c) <==>
      f in Listed(s.areaMismatch, c) || (f in KeysOf(lib) && SomeLefCell(lefs, c, lefCell => AreaDisagrees(lefCell, lib, f, c)))
    decreases |lefs|
  {
    if lefs != [] {
      var s1 := ForwardCells(lefs[0].0, lefs[0].1, KeysOf(lefs[0].1.cells), lib, s).value;
      ForwardCellsAreas(lefs[0].0, lefs[0].1, KeysOf(lefs[0].1.cells), lib, s, c, f);
      ForwardAreaMismatch(lefs[1..], lib, s1, c, f);
      SomeLefCellCons(lefs, c, lefCell => AreaDisagrees(lefCell, lib, f, c));
    }
  }

  /** No pin of the Liberty cell matches the LEF pin name, both upper-cased. */
  predicate NoLibertyMatch(pin: string, ps: seq<LibertyPin>) {
    forall i | 0 <= i < |ps| :: !PinMatches(pin, ps[i])
  }

  /** Liberty file `f` has a cell named `c` in which no pin matches LEF pin
      `p` of the LEF cell. */
  predicate PinUnmatched(lefCell: Cell, lib: LibertyData, f: string, c: string, p: string) {
    && Lookup(LibCells(lib, f), Some(c)).Some?
    && p in KeysOf(lefCell.pins)
    && NoLibertyMatch(p, Lookup(LibCells(lib, f), Some(c)).value.pins)
  }

  lemma ForwardPinMissing(lefName: string, libFile: string, cell: string, pin: string, lefPin: Pin, libCell: LibertyCell, s: Forward, c: string, p: string, f: string)
    requires ForwardPin(lefName, libFile, cell, pin, lefPin, libCell, s).Success?
    ensures f in Listed(Nested(ForwardPin(lefName, libFile, cell, pin, lefPin, libCell, s).value.missingPins, c), p) <==>
      f in Listed(Nested(s.missingPins, c), p) || (c == cell && f == libFile && p == pin && NoLibertyMatch(p, libCell.pins))
  {
    match MatchingPin(pin, libCell.pins)
    case Success(None) =>
      AppendNestedListed(s.missingPins, cell, pin, libFile, c, p, f);
    case Success(Some(libPin)) =>
      var i :| 0 <= i < |libCell.pins| && PinMatches(pin, libCell.pins[i]);
      assert !NoLibertyMatch(pin, libCell.pins);
  }

  /** A file is listed for pin `p` of cell `c` after the nested push exactly
      when it was before or it is the one pushed there. */
  lemma AppendNestedListed(h: Hash<string, Hash<string, seq<string>>>, cell: string, pin: string, file: string, c: string, p: string, f: string)
    ensures f in Listed(Nested(AppendNested(h, cell, pin, file), c), p) <==>
      f in Listed(Nested(h, c), p) || (c == cell && p == pin && f == file)
  {
    var r := AppendNested(h, cell, pin, file);
    if c == cell {
      var t := Nested(h, c);
      assert Nested(r, c) == Append(t, pin, file);
      if p == pin {
        assert Listed(Nested(r, c), p) == Listed(t, p) + [file];
      } else {
        assert Listed(Nested(r, c), p) == Listed(t, p);
      }
    } else {
      assert Nested(r, c) == Nested(h, c);
    }
  }

  lemma {:induction false} ForwardPinsMissing(lefName: string, libFile: string, cell: string, pins: Hash<string, Pin>, libCell: LibertyCell, s: Forward, c: string, p: string, f: string)
    requires ForwardPins(lefName, libFile, cell, pins, libCell, s).Success?
    ensures f in Listed(Nested(ForwardPins(lefName, libFile, cell, pins, libCell, s).value.missingPins, c), p) <==>
      f in Listed(Nested(s.missingPins, c), p) || (c == cell && f == libFile && p in KeysOf(pins) && NoLibertyMatch(p, libCell.pins))
    decreases |pins|
  {
    if pins != [] {
      assert KeysOf(pins) == [pins[0].0] + KeysOf(pins[1..]);
      var s1 := ForwardPin(lefName, libFile, cell, pins[0].0, pins[0].1, libCell, s).value;
      ForwardPinMissing(lefName, libFile, cell, pins[0].0, pins[0].1, libCell, s, c, p, f);
      ForwardPinsMissing(lefName, libFile, cell, pins[1..], libCell, s1, c, p, f);
    }
  }

  lemma ForwardPairPins(lefName: string, cell: string, lefCell: Cell, libFile: string, lib: LibertyData, s: Forward, c: string, p: string, f: string)
    requires ForwardPair(lefName, cell, lefCell, libFile, LibCells(lib, libFile), s).Success?
    ensures f in Listed(Nested(ForwardPair(lefName, cell, lefCell, libFile, LibCells(lib, libFile), s).value.missingPins, c), p) <==>
      f in Listed(Nested(s.missingPins, c), p) || (c == cell && f == libFile && PinUnmatched(lefCell, lib, libFile, c, p))
  {
    match Lookup(LibCells(lib, libFile), Some(cell))
    case None =>
    case Some(libCell) =>
      var s0 := if AreaDiffers(LefArea(lefCell), LibertyArea(libCell))
        then s.(areaMismatch := Append(s.areaMismatch, cell, libFile)) else s;
      ForwardPinsMissing(lefName, libFile, cell, lefCell.pins, libCell, s0, c, p, f);
  }

  lemma {:induction false} ForwardLibFilesPins(lefName: string, cell: string, lefCell: Cell, fs: seq<string>, lib: LibertyData, s: Forward, c: string, p: string, f: string)
    requires ForwardLibFiles(lefName, cell, lefCell, fs, lib, s).Success?
    ensures f in Listed(Nested(ForwardLibFiles(lefName, cell, lefCell, fs, lib, s).value.missingPins, c), p) <==>
      f in Listed(Nested(s.missingPins, c), p) || (c == cell && f in fs && PinUnmatched(lefCell, lib, f, c, p))
    decreases |fs|
  {
    if fs != [] {
      var s1 := ForwardPair(lefName, cell, lefCell, fs[0], LibCells(lib, fs[0]), s).value;
      ForwardPairPins(lefName, cell, lefCell, fs[0], lib, s, c, p, f);
      ForwardLibFilesPins(lefName, cell, lefCell, fs[1..], lib, s1, c, p, f);
      assert f in fs <==> f == fs[0] || f in fs[1..];
    }
  }

  lemma {:induction false} ForwardCellsPins(lefName: string, lef: LefFile, cs: seq<string>, lib: LibertyData, s: Forward, c: string, p: string, f: string)
    requires forall i | 0 <= i < |cs| :: cs[i] in KeysOf(lef.cells)
    requires ForwardCells(lefName, lef, cs, lib, s).Success?
    ensures f in Listed(Nested(ForwardCells(lefName, lef, cs, lib, s).value.missingPins, c), p) <==>
      f in Listed(Nested(s.missingPins, c), p) || (c in cs && f in KeysOf(lib) && PinUnmatched(CellIn(lef, c), lib, f, c, p))
    decreases |cs|
  {
    if cs != [] {
      var s1 := ForwardLibFiles(lefName, cs[0], CellIn(lef, cs[0]), KeysOf(lib), lib, s).value;
      ForwardLibFilesPins(lefName, cs[0], CellIn(lef, cs[0]), KeysOf(lib), lib, s, c, p, f);
      ForwardCellsPins(lefName, lef, cs[1..], lib, s1, c, p, f);
      assert c in cs <==> c == cs[0] || c in cs[1..];
    }
  }

  /** After the first loop, Liberty file `f` is listed under cell `c` and
      LEF pin `p` iff a LEF cell named `c` has pin `p` and the Liberty cell
      named `c` in `f` has no pin whose name equals `p` once both are
      upper-cased. */
  lemma {:induction false} ForwardMissingPins(lefs: LefFiles, lib: LibertyData, s: Forward, c: string, p: string, f: string)
    requires ForwardFiles(lefs, lib, s).Success?
    ensures f in Listed(Nested(ForwardFiles(lefs, lib, s).value.missingPins, c), p) <==>
      f in Listed(Nested(s.missingPins, c), p) || (f in KeysOf(lib) && SomeLefCell(lefs, c, lefCell => PinUnmatched(lefCell, lib, f, c, p)))
    decreases |lefs|
  {
    if lefs != [] {
      var s1 := ForwardCells(lefs[0].0, lefs[0].1, KeysOf(lefs[0].1.cells), lib, s).value;
      ForwardCellsPins(lefs[0].0, lefs[0].1, KeysOf(lefs[0].1.cells), lib, s, c, p, f);
      ForwardMissingPins(lefs[1..], lib, s1, c, p, f);
      SomeLefCellCons(lefs, c, lefCell => PinUnmatched(lefCell, lib, f, c, p));
    }
  }

  // ---------------------------------------------------------------------
  // The pin property findings of the LEF-to-Liberty loop

  /** Checking LEF pin `pin` of cell `cell` against Liberty cell `libCell`
      of file `libFile` files the finding `m`: some Liberty pin matches the
      name and its direction is found in none of the pin's `DIRECTION`
      lines. */
  predicate PinReports(lefName: string, libFile: string, cell: string, pin: string, lefPin: Pin, libCell: LibertyCell, m: string) {
    match MatchingPin(pin, libCell.pins)
    case Success(Some(libPin)) =>
      var e := CheckPinValueInLef(lefName, libFile, lefPin, libPin, CheckedPinProperty, cell);
      e.Success? && m in e.value
    case _ => false
  }

  /** Some pin of the LEF cell files `m` against the Liberty cell. */
  ghost predicate SomePinReports(lefName: string, libFile: string, cell: string, pins: Hash<string, Pin>, libCell: LibertyCell, m: string) {
    exists k | 0 <= k < |pins| :: PinReports(lefName, libFile, cell, pins[k].0, pins[k].1, libCell, m)
  }

  lemma SomePinReportsCons(lefName: string, libFile: string, cell: string, pins: Hash<string, Pin>, libCell: LibertyCell, m: string)
    requires pins != []
    ensures SomePinReports(lefName, libFile, cell, pins, libCell, m) <==>
      PinReports(lefName, libFile, cell, pins[0].0, pins[0].1, libCell, m) || SomePinReports(lefName, libFile, cell, pins[1..], libCell, m)
  {
    if SomePinReports(lefName, libFile, cell, pins, libCell, m) {
      var k :| 0 <= k < |pins| && PinReports(lefName, libFile, cell, pins[k].0, pins[k].1, libCell, m);
      if k > 0 {
        assert pins[1..][k - 1] == pins[k];
      }
    }
    if SomePinReports(lefName, libFile, cell, pins[1..], libCell, m) {
      var k :| 0 <= k < |pins[1..]| && PinReports(lefName, libFile, cell, pins[1..][k].0, pins[1..][k].1, libCell, m);
      assert pins[1..][k] == pins[k + 1];
    }
  }

  lemma {:induction false} ForwardPinsIncorrect(lefName: string, libFile: string, cell: string, pins: Hash<string, Pin>, libCell: LibertyCell, s: Forward, m: string)
    requires ForwardPins(lefName, libFile, cell, pins, libCell, s).Success?
    ensures m in ForwardPins(lefName, libFile, cell, pins, libCell, s).value.incorrect <==>
      m in s.incorrect || SomePinReports(lefName, libFile, cell, pins, libCell, m)
    decreases |pins|
  {
    if pins != [] {
      var s1 := ForwardPin(lefName, libFile, cell, pins[0].0, pins[0].1, libCell, s).value;
      assert m in s1.incorrect <==> m in s.incorrect || PinReports(lefName, libFile, cell, pins[0].0, pins[0].1, libCell, m);
      ForwardPinsIncorrect(lefName, libFile, cell, pins[1..], libCell, s1, m);
      SomePinReportsCons(lefName, libFile, cell, pins, libCell, m);
    }
  }

  /** Liberty file `libFile` has a cell named exactly `cell`, and some pin
      of the LEF cell files `m` against it. */
  ghost predicate PairReports(lefName: string, cell: string, lefCell: Cell, libFile: string, lib: LibertyData, m: string) {
    && Some(cell) in KeysOf(LibCells(lib, libFile))
    && SomePinReports(lefName, libFile, cell, lefCell.pins, Lookup(LibCells(lib, libFile), Some(cell)).value, m)
  }

  lemma ForwardPairIncorrect(lefName: string, cell: string, lefCell: Cell, libFile: string, lib: LibertyData, s: Forward, m: string)
    requires ForwardPair(lefName, cell, lefCell, libFile, LibCells(lib, libFile), s).Success?
    ensures m in ForwardPair(lefName, cell, lefCell, libFile, LibCells(lib, libFile), s).value.incorrect <==>
      m in s.incorrect || PairReports(lefName, cell, lefCell, libFile, lib, m)
  {
    match Lookup(LibCells(lib, libFile), Some(cell))
    case None =>
    case Some(libCell) =>
      var s1 := if AreaDiffers(LefArea(lefCell), LibertyArea(libCell))
        then s.(areaMismatch := Append(s.areaMismatch, cell, libFile)) else s;
      ForwardPinsIncorrect(lefName, libFile, cell, lefCell.pins, libCell, s1, m);
  }

  lemma {:induction false} ForwardLibFilesIncorrect(lefName: string, cell: string, lefCell: Cell, fs: seq<string>, lib: LibertyData, s: Forward, m: string)
    requires ForwardLibFiles(lefName, cell, lefCell, fs, lib, s).Success?
    ensures m in ForwardLibFiles(lefName, cell, lefCell, fs, lib, s).value.incorrect <==>
      m in s.incorrect || exists f | f in fs :: PairReports(lefName, cell, lefCell, f, lib, m)
    decreases |fs|
  {
    if fs != [] {
      var s1 := ForwardPair(lefName, cell, lefCell, fs[0], LibCells(lib, fs[0]), s).value;
      ForwardPairIncorrect(lefName, cell, lefCell, fs[0], lib, s, m);
      ForwardLibFilesIncorrect(lefName, cell, lefCell, fs[1..], lib, s1, m);
      assert forall f :: f in fs <==> f == fs[0] || f in fs[1..];
    }
  }

  /** Checking the pins of the LEF cell against some Liberty file files `m`. */
  ghost predicate SomeFileReports(lefName: string, cell: string, lefCell: Cell, lib: LibertyData, m: string) {
    exists f | f in KeysOf(lib) :: PairReports(lefName, cell, lefCell, f, lib, m)
  }

  lemma {:induction false} ForwardCellsIncorrect(lefName: string, lef: LefFile, cs: seq<string>, lib: LibertyData, s: Forward, m: string)
    requires forall i | 0 <= i < |cs| :: cs[i] in KeysOf(lef.cells)
    requires ForwardCells(lefName, lef, cs, lib, s).Success?
    ensures m in ForwardCells(lefName, lef, cs, lib, s).value.incorrect <==>
      m in s.incorrect || exists c | c in cs && c in KeysOf(lef.cells) :: SomeFileReports(lefName, c, CellIn(lef, c), lib, m)
    decreases |cs|
  {
    if cs != [] {
      var s1 := ForwardLibFiles(lefName, cs[0], CellIn(lef, cs[0]), KeysOf(lib), lib, s).value;
      ForwardLibFilesIncorrect(lefName, cs[0], CellIn(lef, cs[0]), KeysOf(lib), lib, s, m);
      ForwardCellsIncorrect(lefName, lef, cs[1..], lib, s1, m);
      assert forall c :: c in cs <==> c == cs[0] || c in cs[1..];
    }
  }

  /** Some LEF library `lefs[i]` and some cell `c` of it: checking the pins
      of that cell against some Liberty file files `m`. */
  ghost predicate LefPinFinding(lefs: LefFiles, lib: LibertyData, m: string) {
    exists i, c | 0 <= i < |lefs| && c in KeysOf(lefs[i].1.cells) :: SomeFileReports(lefs[i].0, c, CellIn(lefs[i].1, c), lib, m)
  }

  lemma LefPinFindingCons(lefs: LefFiles, lib: LibertyData, m: string)
    requires lefs != []
    ensures LefPinFinding(lefs, lib, m) <==>
      (exists c | c in KeysOf(lefs[0].1.cells) :: SomeFileReports(lefs[0].0, c, CellIn(lefs[0].1, c), lib, m))
      || LefPinFinding(lefs[1..], lib, m)
  {
    if LefPinFinding(lefs, lib, m) {
      var i, c :| 0 <= i < |lefs| && c in KeysOf(lefs[i].1.cells) && SomeFileReports(lefs[i].0, c, CellIn(lefs[i].1, c), lib, m);
      if i > 0 {
        assert lefs[1..][i - 1] == lefs[i];
      }
    }
    if LefPinFinding(lefs[1..], lib, m) {
      var i, c :| 0 <= i < |lefs[1..]| && c in KeysOf(lefs[1..][i].1.cells) && SomeFileReports(lefs[1..][i].0, c, CellIn(lefs[1..][i].1, c), lib, m);
      assert lefs[1..][i] == lefs[i + 1];
    }
  }

  /** After the first loop, `m` is among the pin property findings iff it
      was before or some LEF library has a cell whose pin check against some
      Liberty file files it. */
  lemma {:induction false} ForwardIncorrect(lefs: LefFiles, lib: LibertyData, s: Forward, m: string)
    requires ForwardFiles(lefs, lib, s).Success?
    ensures m in ForwardFiles(lefs, lib, s).value.incorrect <==> m in s.incorrect || LefPinFinding(lefs, lib, m)
    decreases |lefs|
  {
    if lefs != [] {
      var s1 := ForwardCells(lefs[0].0, lefs[0].1, KeysOf(lefs[0].1.cells), lib, s).value;
      ForwardCellsIncorrect(lefs[0].0, lefs[0].1, KeysOf(lefs[0].1.cells), lib, s, m);
      ForwardIncorrect(lefs[1..], lib, s1, m);
      LefPinFindingCons(lefs, lib, m);
    }
  }

  // ---------------------------------------------------------------------
  // What the Liberty-to-LEF loop collects

  /** Some LEF library satisfies `p`. */
  ghost predicate SomeLef(lefs: LefFiles, p: LefFile -> bool) {
    exists j | 0 <= j < |lefs| :: p(lefs[j].1)
  }

  lemma SomeLefCons(lefs: LefFiles, p: LefFile -> bool)
    requires lefs != []
    ensures SomeLef(lefs, p) <==> p(lefs[0].1) || SomeLef(lefs[1..], p)
  {
    if SomeLef(lefs, p) && !p(lefs[0].1) {
      var j :| 0 <= j < |lefs| && p(lefs[j].1);
      assert lefs[1..][j - 1] == lefs[j];
    }
    if SomeLef(lefs[1..], p) {
      var j :| 0 <= j < |lefs[1..]| && p(lefs[1..][j].1);
      assert lefs[j + 1] == lefs[1..][j];
    }
  }

  /** The LEF library has no cell named exactly `k` (a nil name included). */
  predicate LefLacks(lef: LefFile, k: Option<string>) {
    k.None? || Lookup(lef.cells, k.value).None?
  }

  /** Some pin of the Liberty cell is named `n` as written. */
  ghost predicate NamesPin(libCell: LibertyCell, n: string) {
    NamedAmong(libCell.pins, n)
  }

  ghost predicate NamedAmong(ps: seq<LibertyPin>, n: string) {
    exists i | 0 <= i < |ps| :: ps[i].name == Some(n)
  }

  lemma NamedAmongCons(ps: seq<LibertyPin>, n: string)
    requires ps != []
    ensures NamedAmong(ps, n) <==> ps[0].name == Some(n) || NamedAmong(ps[1..], n)
  {
    if NamedAmong(ps, n) && ps[0].name != Some(n) {
      var i :| 0 <= i < |ps| && ps[i].name == Some(n);
      assert ps[1..][i - 1] == ps[i];
    }
    if NamedAmong(ps[1..], n) {
      var i :| 0 <= i < |ps[1..]| && ps[1..][i].name == Some(n);
      assert ps[i + 1] == ps[1..][i];
    }
  }

  /** The LEF library has a cell named `c` with no pin named `n` upper-cased. */
  predicate LefMissesPin(lef: LefFile, c: string, n: string) {
    Lookup(lef.cells, c).Some? && Lookup(Lookup(lef.cells, c).value.pins, Upper(n)).None?
  }

  lemma {:induction false} BackwardPinsMissing(libFile: string, cell: string, lefCell: Cell, ps: seq<LibertyPin>, s: Backward, c: string, n: string, f: string)
    requires BackwardPins(libFile, cell, lefCell, ps, s).Success?
    ensures f in Listed(Nested(BackwardPins(libFile, cell, lefCell, ps, s).value.missingPins, c), n) <==>
      f in Listed(Nested(s.missingPins, c), n)
      || (c == cell && f == libFile && NamedAmong(ps, n) && Lookup(lefCell.pins, Upper(n)).None?)
    decreases |ps|
  {
    if ps != [] {
      var m := ps[0].name.value;
      var s1 := BackwardPin(libFile, cell, lefCell, m, s);
      assert BackwardPins(libFile, cell, lefCell, ps, s) == BackwardPins(libFile, cell, lefCell, ps[1..], s1);
      if Lookup(lefCell.pins, Upper(m)).None? {
        AppendNestedListed(s.missingPins, cell, m, libFile, c, n, f);
      }
      BackwardPinsMissing(libFile, cell, lefCell, ps[1..], s1, c, n, f);
      NamedAmongCons(ps, n);
    }
  }

  lemma BackwardPairCells(libFile: string, k: Option<string>, libCell: LibertyCell, lef: LefFile, s: Backward, k': Option<string>, f: string)
    requires BackwardPair(libFile, k, libCell, lef, s).Success?
    ensures f in Listed(BackwardPair(libFile, k, libCell, lef, s).value.missingCells, k') <==>
      f in Listed(s.missingCells, k') || (k' == k && f == libFile && LefLacks(lef, k))
  {
  }

  lemma BackwardPairPins(libFile: string, k: Option<string>, libCell: LibertyCell, lef: LefFile, s: Backward, c: string, n: string, f: string)
    requires BackwardPair(libFile, k, libCell, lef, s).Success?
    ensures f in Listed(Nested(BackwardPair(libFile, k, libCell, lef, s).value.missingPins, c), n) <==>
      f in Listed(Nested(s.missingPins, c), n) || (k == Some(c) && f == libFile && NamesPin(libCell, n) && LefMissesPin(lef, c, n))
  {
    if k.Some? && Lookup(lef.cells, k.value).Some? {
      BackwardPinsMissing(libFile, k.value, Lookup(lef.cells, k.value).value, libCell.pins, s, c, n, f);
    }
  }

  lemma {:induction false} BackwardLefFilesCells(libFile: string, k: Option<string>, libCell: LibertyCell, lefs: LefFiles, s: Backward, k': Option<string>, f: string)
    requires BackwardLefFiles(libFile, k, libCell, lefs, s).Success?
    ensures f in Listed(BackwardLefFiles(libFile, k, libCell, lefs, s).value.missingCells, k') <==>
      f in Listed(s.missingCells, k') || (k' == k && f == libFile && SomeLef(lefs, lef => LefLacks(lef, k)))
    decreases |lefs|
  {
    if lefs != [] {
      var s1 := BackwardPair(libFile, k, libCell, lefs[0].1, s).value;
      BackwardPairCells(libFile, k, libCell, lefs[0].1, s, k', f);
      BackwardLefFilesCells(libFile, k, libCell, lefs[1..], s1, k', f);
      SomeLefCons(lefs, lef => LefLacks(lef, k));
    }
  }

  lemma {:induction false} BackwardLefFilesPins(libFile: string, k: Option<string>, libCell: LibertyCell, lefs: LefFiles, s: Backward, c: string, n: string, f: string)
    requires BackwardLefFiles(libFile, k, libCell, lefs, s).Success?
    ensures f in Listed(Nested(BackwardLefFiles(libFile, k, libCell, lefs, s).value.missingPins, c), n) <==>
      f in Listed(Nested(s.missingPins, c), n)
      || (k == Some(c) && f == libFile && NamesPin(libCell, n) && SomeLef(lefs, lef => LefMissesPin(lef, c, n)))
    decreases |lefs|
  {
    if lefs != [] {
      var s1 := BackwardPair(libFile, k, libCell, lefs[0].1, s).value;
      BackwardPairPins(libFile, k, libCell, lefs[0].1, s, c, n, f);
      BackwardLefFilesPins(libFile, k, libCell, lefs[1..], s1, c, n, f);
      SomeLefCons(lefs, lef => LefMissesPin(lef, c, n));
    }
  }

  lemma {:induction false} BackwardCellsCells(libFile: string, libCells: Hash<Option<string>, LibertyCell>, ks: seq<Option<string>>, lefs: LefFiles, s: Backward, k': Option<string>, f: string)
    requires forall i | 0 <= i < |ks| :: ks[i] in KeysOf(libCells)
    requires BackwardCells(libFile, libCells, ks, lefs, s).Success?
    ensures f in Listed(BackwardCells(libFile, libCells, ks, lefs, s).value.missingCells, k') <==>
      f in Listed(s.missingCells, k') || (k' in ks && f == libFile && SomeLef(lefs, lef => LefLacks(lef, k')))
    decreases |ks|
  {
    if ks != [] {
      var s1 := BackwardLefFiles(libFile, ks[0], Lookup(libCells, ks[0]).value, lefs, s).value;
      BackwardLefFilesCells(libFile, ks[0], Lookup(libCells, ks[0]).value, lefs, s, k', f);
      BackwardCellsCells(libFile, libCells, ks[1..], lefs, s1, k', f);
      assert k' in ks <==> k' == ks[0] || k' in ks[1..];
    }
  }

  lemma {:induction false} BackwardCellsPins(libFile: string, libCells: Hash<Option<string>, LibertyCell>, ks: seq<Option<string>>, lefs: LefFiles, s: Backward, c: string, n: string, f: string)
    requires forall i | 0 <= i < |ks| :: ks[i] in KeysOf(libCells)
    requires BackwardCells(libFile, libCells, ks, lefs, s).Success?
    ensures f in Listed(Nested(BackwardCells(libFile, libCells, ks, lefs, s).value.missingPins, c), n) <==>
      f in Listed(Nested(s.missingPins, c), n)
      || (Some(c) in ks && f == libFile && NamesPin(Lookup(libCells, Some(c)).value, n) && SomeLef(lefs, lef => LefMissesPin(lef, c, n)))
    decreases |ks|
  {
    if ks != [] {
      var s1 := BackwardLefFiles(libFile, ks[0], Lookup(libCells, ks[0]).value, lefs, s).value;
      BackwardLefFilesPins(libFile, ks[0], Lookup(libCells, ks[0]).value, lefs, s, c, n, f);
      BackwardCellsPins(libFile, libCells, ks[1..], lefs, s1, c, n, f);
      assert Some(c) in ks <==> Some(c) == ks[0] || Some(c) in ks[1..];
    }
  }

  /** After the second loop, Liberty file `f` is listed under its cell name
      `k` iff `f` has a cell named `k` and some LEF library has no cell of
      exactly that name. */
  lemma {:induction false} BackwardMissingCells(fs: seq<string>, lib: LibertyData, lefs: LefFiles, s: Backward, k: Option<string>, f: string)
    requires BackwardFiles(fs, lib, lefs, s).Success?
    ensures f in Listed(BackwardFiles(fs, lib, lefs, s).value.missingCells, k) <==>
      f in Listed(s.missingCells, k) || (f in fs && k in KeysOf(LibCells(lib, f)) && SomeLef(lefs, lef => LefLacks(lef, k)))
    decreases |fs|
  {
    if fs != [] {
      var cells := LibCells(lib, fs[0]);
      var s1 := BackwardCells(fs[0], cells, KeysOf(cells), lefs, s).value;
      BackwardCellsCells(fs[0], cells, KeysOf(cells), lefs, s, k, f);
      BackwardMissingCells(fs[1..], lib, lefs, s1, k, f);
      assert f in fs <==> f == fs[0] || f in fs[1..];
    }
  }

  /** After the second loop, Liberty file `f` is listed under cell `c` and
      Liberty pin name `n` iff its cell `c` has a pin named `n` and some LEF
      library has a cell `c` without a pin named `n` upper-cased: only the
      Liberty side is upper-cased. */
  lemma {:induction false} BackwardMissingPins(fs: seq<string>, lib: LibertyData, lefs: LefFiles, s: Backward, c: string, n: string, f: string)
    requires BackwardFiles(fs, lib, lefs, s).Success?
    ensures f in Listed(Nested(BackwardFiles(fs, lib, lefs, s).value.missingPins, c), n) <==>
      f in Listed(Nested(s.missingPins, c), n)
      || (&& f in fs && Some(c) in KeysOf(LibCells(lib, f))
          && NamesPin(Lookup(LibCells(lib, f), Some(c)).value, n)
          && SomeLef(lefs, lef => LefMissesPin(lef, c, n)))
    decreases |fs|
  {
    if fs != [] {
      var cells := LibCells(lib, fs[0]);
      var s1 := BackwardCells(fs[0], cells, KeysOf(cells), lefs, s).value;
      BackwardCellsPins(fs[0], cells, KeysOf(cells), lefs, s, c, n, f);
      BackwardMissingPins(fs[1..], lib, lefs, s1, c, n, f);
      assert f in fs <==> f == fs[0] || f in fs[1..];
    }
  }

  // ---------------------------------------------------------------------
  // Concrete consequences of the lookups

  /** Cell names are compared exactly: a Liberty cell `inv` does not stand
      for the LEF cell `INV`, so the Liberty file is listed as missing it. */
  lemma CellLookupIsCaseSensitive(libCell: LibertyCell)
    ensures LibertyLacks([("a.lib", [(Some("inv"), libCell)])], "a.lib", "INV")
  {
    assert "inv" != "INV" by {
      assert "inv"[0] != "INV"[0];
    }
  }

  /** The two loops match pins differently: a LEF pin `a` is found in
      Liberty, where both names are upper-cased, yet the Liberty pin `a` is
      reported missing from LEF, where only the Liberty name is upper-cased
      and the LEF pin table is keyed `a`. */
  lemma PinMatchingIsAsymmetric(lefCell: Cell, lefPin: Pin, libPin: LibertyPin, f: string, c: string)
    requires lefCell.pins == [("a", lefPin)] && libPin.name == Some("a")
    ensures MatchingPin("a", [libPin]) == Success(Some(libPin))
    ensures BackwardPins(f, c, lefCell, [libPin], Backward([], [])).Success?
    ensures f in Listed(Nested(BackwardPins(f, c, lefCell, [libPin], Backward([], [])).value.missingPins, c), "a")
  {
    assert Upper("a") == "A" by {
      assert Upper("a")[0] == 'A';
    }
    assert "a" != "A" by {
      assert "a"[0] != "A"[0];
    }
    assert Lookup(lefCell.pins, "A").None?;
    assert [libPin][0].name == Some("a");
    assert NamedAmong([libPin], "a");
    BackwardPinsMissing(f, c, lefCell, [libPin], Backward([], []), c, "a", f);
  }

  // ---------------------------------------------------------------------
  // The reports

  /** The files of a report, one per line, each after `indent`. */
  function FileLines(fs: seq<string>, indent: string): string {
    if fs == [] then "" else indent + fs[0] + "\n" + FileLines(fs[1..], indent)
  }

  /** The report of one cell: its name, then the files. */
  function CellMessage(cell: string, fs: seq<string>): string {
    cell + ":\n" + FileLines(fs, "\t")
  }

  /** The report of one cell's pins: its name, then each pin and its files. */
  function PinsMessage(cell: string, pins: Hash<string, seq<string>>): string {
    cell + ":\n" + PinLines(pins, KeysOf(pins))
  }

  function PinLines(pins: Hash<string, seq<string>>, ps: seq<string>): string {
    if ps == [] then "" else "\t" + ps[0] + ":\n" + FileLines(Listed(pins, ps[0]), "\t\t") + PinLines(pins, ps[1..])
  }

  /** One report per cell, in key order. */
  function CellMessages(h: Hash<string, seq<string>>): (ms: seq<string>)
    ensures |ms| == |h|
    ensures forall i | 0 <= i < |h| :: ms[i] == CellMessage(h[i].0, Listed(h, h[i].0))
  {
    seq(|h|, i requires 0 <= i < |h| => CellMessage(h[i].0, Listed(h, h[i].0)))
  }

  function PinsMessages(h: Hash<string, Hash<string, seq<string>>>): (ms: seq<string>)
    ensures |ms| == |h|
    ensures forall i | 0 <= i < |h| :: ms[i] == PinsMessage(h[i].0, Nested(h, h[i].0))
  {
    seq(|h|, i requires 0 <= i < |h| => PinsMessage(h[i].0, Nested(h, h[i].0)))
  }

  /** The `lef_missing_cell` reports: one per Liberty cell name; a cell
      without a name cannot be concatenated and stops the tool. */
  function LefCellMessages(h: Hash<Option<string>, seq<string>>, ks: seq<Option<string>>): (r: Result<seq<string>, CrossFault>)
    ensures r.Failure? <==> None in ks
    ensures r.Success? ==> |r.value| == |ks|
  {
    if ks == [] then Success([])
    else
      match ks[0]
      case None => Failure(NilCellName)
      case Some(c) =>
        match LefCellMessages(h, ks[1..])
        case Failure(e) =>
          assert None in ks[1..];
          Failure(e)
        case Success(rest) =>
          assert ks == [ks[0]] + ks[1..];
          Success([CellMessage(c, Listed(h, ks[0]))] + rest)
  }

  /** Each `lef_missing_cell` report names its cell and lists its files. */
  lemma {:induction false} LefCellMessagesAt(h: Hash<Option<string>, seq<string>>, ks: seq<Option<string>>)
    requires LefCellMessages(h, ks).Success?
    ensures forall i | 0 <= i < |ks| :: ks[i].Some? && LefCellMessages(h, ks).value[i] == CellMessage(ks[i].value, Listed(h, ks[i]))
  {
    if ks != [] {
      var r := LefCellMessages(h, ks).value;
      var rest := LefCellMessages(h, ks[1..]).value;
      assert r == [CellMessage(ks[0].value, Listed(h, ks[0]))] + rest;
      assert forall i | 1 <= i < |ks| :: ks[i].Some? && r[i] == CellMessage(ks[i].value, Listed(h, ks[i])) by {
        LefCellMessagesAt(h, ks[1..]);
        forall i | 1 <= i < |ks| ensures ks[i].Some? && r[i] == CellMessage(ks[i].value, Listed(h, ks[i])) {
          assert r[i] == rest[i - 1] && ks[i] == ks[1..][i - 1];
        }
      }
    }
  }


  /** A message variable reassigned in a loop over `ks` and read after it:
      the value of the last turn. */
  function LastAssigned(ks: seq<string>, msgOf: string -> string, msg: string): (r: string)
    ensures ks == [] ==> r == msg
    ensures ks != [] ==> r == msgOf(ks[|ks| - 1])
    decreases |ks|
  {
    if ks == [] then msg else LastAssigned(ks[1..], msgOf, msgOf(ks[0]))
  }

  /** The `area_mismatch` report as written: the message is reassigned for
      each cell and pushed once, after the loop. */
  function AreaReportAsWritten(h: Hash<string, seq<string>>): seq<string> {
    if h == [] then [] else [LastAssigned(KeysOf(h), cell => CellMessage(cell, Listed(h, cell)), "")]
  }

  /** The `liberty_missing_pin` report as written, likewise. */
  function PinsReportAsWritten(h: Hash<string, Hash<string, seq<string>>>): seq<string> {
    if h == [] then [] else [LastAssigned(KeysOf(h), cell => PinsMessage(cell, Nested(h, cell)), "")]
  }

  /** As written, only the last cell's report survives: of the reports one
      per cell, every one but the last is lost. */
  lemma AreaReportKeepsLastCell(h: Hash<string, seq<string>>)
    ensures h != [] ==> AreaReportAsWritten(h) == [CellMessages(h)[|h| - 1]]
    ensures |AreaReportAsWritten(h)| <= 1 && |CellMessages(h)| == |h|
  {
  }

  lemma PinsReportKeepsLastCell(h: Hash<string, Hash<string, seq<string>>>)
    ensures h != [] ==> PinsReportAsWritten(h) == [PinsMessages(h)[|h| - 1]]
    ensures |PinsReportAsWritten(h)| <= 1 && |PinsMessages(h)| == |h|
  {
  }

  /** Two cells whose areas differ in one Liberty file: the report as
      written names only the second. */
  lemma AreaReportDropsFirstCell()
    ensures AreaReportAsWritten([("A", ["x.lib"]), ("B", ["x.lib"])]) == ["B:\n\tx.lib\n"]
    ensures CellMessages([("A", ["x.lib"]), ("B", ["x.lib"])]) == ["A:\n\tx.lib\n", "B:\n\tx.lib\n"]
  {
    var h: Hash<string, seq<string>> := [("A", ["x.lib"]), ("B", ["x.lib"])];
    assert "A" != "B" by {
      assert "A"[0] != "B"[0];
    }
    assert KeysOf(h) == ["A", "B"];
    assert Listed(h, "A") == ["x.lib"];
    assert Listed(h, "B") == ["x.lib"];
    assert FileLines(["x.lib"], "\t") == "\tx.lib\n";
    assert CellMessage("A", ["x.lib"]) == "A:\n\tx.lib\n";
    assert CellMessage("B", ["x.lib"]) == "B:\n\tx.lib\n";
    var msgOf := cell => CellMessage(cell, Listed(h, cell));
    assert LastAssigned(["A", "B"], msgOf, "") == msgOf("B");
  }

  // ---------------------------------------------------------------------
  // The whole cross-check

  /** The categories the cross-check reports into. */
  predicate IsCrossCheckCategory(d: Category) {
    || d.LibertyIncorrectPinProperty? || d.LibertyMissingCell? || d.AreaMismatch?
    || d.LibertyMissingPin? || d.LefMissingCell? || d.LefMissingPin?
  }

  /** The first loop, from empty tables. */
  function ForwardFindings(lefs: LefFiles, lib: LibertyData): Result<Forward, CrossFault> {
    ForwardFiles(lefs, lib, Forward([], [], [], []))
  }

  /** The second loop, from empty tables, over the Liberty files in order. */
  function BackwardFindings(lefs: LefFiles, lib: LibertyData): Result<Backward, CrossFault> {
    BackwardFiles(KeysOf(lib), lib, lefs, Backward([], []))
  }

  /** The `area_mismatch` report: as written only the last cell's message
      is pushed; the intended report has one message per cell. */
  function AreaReport(variant: Variant, h: Hash<string, seq<string>>): seq<string> {
    match variant
    case AsWritten => AreaReportAsWritten(h)
    case Intended => CellMessages(h)
  }

  /** The `liberty_missing_pin` report, likewise. */
  function PinsReport(variant: Variant, h: Hash<string, Hash<string, seq<string>>>): seq<string> {
    match variant
    case AsWritten => PinsReportAsWritten(h)
    case Intended => PinsMessages(h)
  }

  /** Both loops and every report, appended to the `errors` hash: the pin
      property findings, then the reports of cells missing from Liberty, of
      area mismatches and of pins missing from Liberty, then of cells and
      pins missing from LEF.  Every category only grows, and only the six
      cross-check categories change.  The tool cross-checks each LEF file
      after its `sort!`, so `lefs` are `Macros.SortLef` results, and the
      "last" `SIZE` line `LefArea` reads is the last in sorted property
      order. */
  function Reconcile(variant: Variant, lefs: LefFiles, lib: LibertyData, log: Log): (r: Result<Log, CrossFault>)
    ensures r.Success? ==> forall d {:trigger Get(r.value, d)} :: Get(log, d) <= Get(r.value, d)
    ensures r.Success? ==> forall d {:trigger Get(r.value, d)} | !IsCrossCheckCategory(d) :: Get(r.value, d) == Get(log, d)
  {
    match ForwardFindings(lefs, lib)
    case Failure(e) => Failure(e)
    case Success(fw) =>
      match BackwardFindings(lefs, lib)
      case Failure(e) => Failure(e)
      case Success(bw) =>
        match LefCellMessages(bw.missingCells, KeysOf(bw.missingCells))
        case Failure(e) => Failure(e)
        case Success(lefCells) =>
          var r := Reported(log, fw.incorrect, CellMessages(fw.missingCells), AreaReport(variant, fw.areaMismatch),
            PinsReport(variant, fw.missingPins), lefCells, PinsMessages(bw.missingPins));
          Success(r)
  }

  /** What the cross-check appended to category `d` of the log. */
  function Added(variant: Variant, lefs: LefFiles, lib: LibertyData, log: Log, d: Category): seq<string>
    requires Reconcile(variant, lefs, lib, log).Success?
  {
    var r := Reconcile(variant, lefs, lib, log).value;
    assert Get(log, d) <= Get(r, d);
    Get(r, d)[|Get(log, d)|..]
  }

  /** The six reports appended to their categories of the `errors` hash. */
  function Reported(log: Log, incorrect: seq<string>, libertyCells: seq<string>, areas: seq<string>,
                    libertyPins: seq<string>, lefCells: seq<string>, lefPins: seq<string>): (r: Log)
    ensures Get(r, LibertyIncorrectPinProperty) == Get(log, LibertyIncorrectPinProperty) + incorrect
    ensures Get(r, LibertyMissingCell) == Get(log, LibertyMissingCell) + libertyCells
    ensures Get(r, AreaMismatch) == Get(log, AreaMismatch) + areas
    ensures Get(r, LibertyMissingPin) == Get(log, LibertyMissingPin) + libertyPins
    ensures Get(r, LefMissingCell) == Get(log, LefMissingCell) + lefCells
    ensures Get(r, LefMissingPin) == Get(log, LefMissingPin) + lefPins
    ensures forall d {:trigger Get(r, d)} | !IsCrossCheckCategory(d) :: Get(r, d) == Get(log, d)
    ensures forall d {:trigger Get(r, d)} :: Get(log, d) <= Get(r, d)
  {
    log[LibertyIncorrectPinProperty := Get(log, LibertyIncorrectPinProperty) + incorrect]
       [LibertyMissingCell := Get(log, LibertyMissingCell) + libertyCells]
       [AreaMismatch := Get(log, AreaMismatch) + areas]
       [LibertyMissingPin := Get(log, LibertyMissingPin) + libertyPins]
       [LefMissingCell := Get(log, LefMissingCell) + lefCells]
       [LefMissingPin := Get(log, LefMissingPin) + lefPins]
  }

  /** A key with a non-empty file list is a key of the table. */
  lemma ListedKey<K>(h: Hash<K, seq<string>>, k: K, f: string) returns (i: nat)
    requires f in Listed(h, k)
    ensures i < |h| && h[i].0 == k
  {
    assert k in KeysOf(h);
    var j :| 0 <= j < |KeysOf(h)| && KeysOf(h)[j] == k;
    i := j;
  }

  /** The part of `a + b` after `a`. */
  lemma AfterPrefix(a: seq<string>, b: seq<string>, r: seq<string>)
    requires r == a + b
    ensures r[|a|..] == b
  {
  }

  /** `liberty_incorrect_pin_property`: the pin property findings of the
      first loop, in order; `m` is one of them iff some LEF library has a
      cell whose pin check against some Liberty file files `m`. */
  lemma ReconcileIncorrectPinProperty(variant: Variant, lefs: LefFiles, lib: LibertyData, log: Log, m: string)
    requires Reconcile(variant, lefs, lib, log).Success?
    ensures ForwardFindings(lefs, lib).Success?
    ensures var added := Added(variant, lefs, lib, log, LibertyIncorrectPinProperty);
      && added == ForwardFindings(lefs, lib).value.incorrect
      && (m in added <==> LefPinFinding(lefs, lib, m))
  {
    var fw := ForwardFindings(lefs, lib).value;
    AfterPrefix(Get(log, LibertyIncorrectPinProperty), fw.incorrect, Get(Reconcile(variant, lefs, lib, log).value, LibertyIncorrectPinProperty));
    ForwardIncorrect(lefs, lib, Forward([], [], [], []), m);
  }

  /** `liberty_missing_cell`: one message per cell of the table of cells
      missing from Liberty, in key order, each listing the files recorded
      for it; Liberty file `f` is recorded for cell `c` iff some LEF library
      has a cell named exactly `c` and `f` has no cell of that name. */
  lemma ReconcileLibertyMissingCell(variant: Variant, lefs: LefFiles, lib: LibertyData, log: Log, c: string, f: string)
    requires Reconcile(variant, lefs, lib, log).Success?
    ensures ForwardFindings(lefs, lib).Success?
    ensures var t := ForwardFindings(lefs, lib).value.missingCells;
      var added := Added(variant, lefs, lib, log, LibertyMissingCell);
      && |added| == |t|
      && (forall i | 0 <= i < |t| :: added[i] == CellMessage(t[i].0, Listed(t, t[i].0)))
      && (f in Listed(t, c) <==> LefDeclares(lefs, c) && f in KeysOf(lib) && LibertyLacks(lib, f, c))
  {
    var t := ForwardFindings(lefs, lib).value.missingCells;
    AfterPrefix(Get(log, LibertyMissingCell), CellMessages(t), Get(Reconcile(variant, lefs, lib, log).value, LibertyMissingCell));
    ForwardMissingCells(lefs, lib, Forward([], [], [], []), c, f);
  }

  /** `area_mismatch`: as written a single message, that of the last cell of
      the table, and nothing when the table is empty; intended, one message
      per cell.  Liberty file `f` is recorded for cell `c` iff its cell `c`
      has an area that differs from that of some LEF cell named `c`. */
  lemma ReconcileAreaMismatch(variant: Variant, lefs: LefFiles, lib: LibertyData, log: Log, c: string, f: string)
    requires Reconcile(variant, lefs, lib, log).Success?
    ensures ForwardFindings(lefs, lib).Success?
    ensures var t := ForwardFindings(lefs, lib).value.areaMismatch;
      var added := Added(variant, lefs, lib, log, AreaMismatch);
      && (variant.AsWritten? ==> added == if t == [] then [] else [CellMessage(t[|t| - 1].0, Listed(t, t[|t| - 1].0))])
      && (variant.Intended? ==> |added| == |t| && forall i | 0 <= i < |t| :: added[i] == CellMessage(t[i].0, Listed(t, t[i].0)))
      && (f in Listed(t, c) <==> f in KeysOf(lib) && SomeLefCell(lefs, c, lefCell => AreaDisagrees(lefCell, lib, f, c)))
  {
    var t := ForwardFindings(lefs, lib).value.areaMismatch;
    AfterPrefix(Get(log, AreaMismatch), AreaReport(variant, t), Get(Reconcile(variant, lefs, lib, log).value, AreaMismatch));
    AreaReportKeepsLastCell(t);
    ForwardAreaMismatch(lefs, lib, Forward([], [], [], []), c, f);
  }

  /** `liberty_missing_pin`: as written a single message, that of the last
      cell of the table; intended, one message per cell.  Liberty file `f`
      is recorded for cell `c` and LEF pin `p` iff some LEF cell named `c`
      has pin `p` and the cell `c` of `f` has no pin of that name
      upper-cased. */
  lemma ReconcileLibertyMissingPin(variant: Variant, lefs: LefFiles, lib: LibertyData, log: Log, c: string, p: string, f: string)
    requires Reconcile(variant, lefs, lib, log).Success?
    ensures ForwardFindings(lefs, lib).Success?
    ensures var t := ForwardFindings(lefs, lib).value.missingPins;
      var added := Added(variant, lefs, lib, log, LibertyMissingPin);
      && (variant.AsWritten? ==> added == if t == [] then [] else [PinsMessage(t[|t| - 1].0, Nested(t, t[|t| - 1].0))])
      && (variant.Intended? ==> |added| == |t| && forall i | 0 <= i < |t| :: added[i] == PinsMessage(t[i].0, Nested(t, t[i].0)))
      && (f in Listed(Nested(t, c), p) <==> f in KeysOf(lib) && SomeLefCell(lefs, c, lefCell => PinUnmatched(lefCell, lib, f, c, p)))
  {
    var t := ForwardFindings(lefs, lib).value.missingPins;
    AfterPrefix(Get(log, LibertyMissingPin), PinsReport(variant, t), Get(Reconcile(variant, lefs, lib, log).value, LibertyMissingPin));
    PinsReportKeepsLastCell(t);
    ForwardMissingPins(lefs, lib, Forward([], [], [], []), c, p, f);
  }

  /** `lef_missing_cell`: one message per cell of the table of cells missing
      from LEF, in key order, every key being a name; Liberty file `f` is
      recorded under its cell name `k` iff `f` has a cell named `k` and some
      LEF library has no cell of exactly that name. */
  lemma ReconcileLefMissingCell(variant: Variant, lefs: LefFiles, lib: LibertyData, log: Log, k: Option<string>, f: string)
    requires Reconcile(variant, lefs, lib, log).Success?
    ensures BackwardFindings(lefs, lib).Success?
    ensures var t := BackwardFindings(lefs, lib).value.missingCells;
      var added := Added(variant, lefs, lib, log, LefMissingCell);
      && |added| == |t|
      && (forall i | 0 <= i < |t| :: t[i].0.Some? && added[i] == CellMessage(t[i].0.value, Listed(t, t[i].0)))
      && (f in Listed(t, k) <==> f in KeysOf(lib) && k in KeysOf(LibCells(lib, f)) && SomeLef(lefs, lef => LefLacks(lef, k)))
  {
    var t := BackwardFindings(lefs, lib).value.missingCells;
    var lefCells := LefCellMessages(t, KeysOf(t)).value;
    LefCellMessagesAt(t, KeysOf(t));
    AfterPrefix(Get(log, LefMissingCell), lefCells, Get(Reconcile(variant, lefs, lib, log).value, LefMissingCell));
    forall i | 0 <= i < |t| ensures t[i].0.Some? {
      assert KeysOf(t)[i] == t[i].0;
    }
    BackwardMissingCells(KeysOf(lib), lib, lefs, Backward([], []), k, f);
  }

  /** `lef_missing_pin`: one message per cell of the table of pins missing
      from LEF, in key order; Liberty file `f` is recorded for cell `c` and
      pin name `n` iff its cell `c` has a pin named `n` and some LEF library
      has a cell `c` without a pin named `n` upper-cased. */
  lemma ReconcileLefMissingPin(variant: Variant, lefs: LefFiles, lib: LibertyData, log: Log, c: string, n: string, f: string)
    requires Reconcile(variant, lefs, lib, log).Success?
    ensures BackwardFindings(lefs, lib).Success?
    ensures var t := BackwardFindings(lefs, lib).value.missingPins;
      var added := Added(variant, lefs, lib, log, LefMissingPin);
      && |added| == |t|
      && (forall i | 0 <= i < |t| :: added[i] == PinsMessage(t[i].0, Nested(t, t[i].0)))
      && (f in Listed(Nested(t, c), n) <==>
          && f in KeysOf(lib) && Some(c) in KeysOf(LibCells(lib, f))
          && NamesPin(Lookup(LibCells(lib, f), Some(c)).value, n)
          && SomeLef(lefs, lef => LefMissesPin(lef, c, n)))
  {
    var t := BackwardFindings(lefs, lib).value.missingPins;
    AfterPrefix(Get(log, LefMissingPin), PinsMessages(t), Get(Reconcile(variant, lefs, lib, log).value, LefMissingPin));
    BackwardMissingPins(KeysOf(lib), lib, lefs, Backward([], []), c, n, f);
  }

  /** When a LEF library has cell `c` and Liberty file `f` has no cell named
      exactly `c`, the cross-check reports `c` missing from Liberty with `f`
      among the files listed. */
  lemma ReconcileReportsLibertyMissingCell(variant: Variant, lefs: LefFiles, lib: LibertyData, log: Log, c: string, f: string)
    requires Reconcile(variant, lefs, lib, log).Success?
    requires LefDeclares(lefs, c) && f in KeysOf(lib) && LibertyLacks(lib, f, c)
    ensures exists fs :: f in fs && CellMessage(c, fs) in Get(Reconcile(variant, lefs, lib, log).value, LibertyMissingCell)
  {
    var fw := ForwardFindings(lefs, lib).value;
    ForwardMissingCells(lefs, lib, Forward([], [], [], []), c, f);
    var i := ListedKey(fw.missingCells, c, f);
    var ms := CellMessages(fw.missingCells);
    assert ms[i] == CellMessage(c, Listed(fw.missingCells, c));
    assert ms[i] in Get(log, LibertyMissingCell) + ms;
  }
}
