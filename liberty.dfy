/** The Liberty scraper.  For one Liberty file the tool greps four lists of
    numbered lines (`grep -n` output: the line number, a colon, the line):
    the cell starts, the `area` lines, the pin starts and the `direction`
    lines.  `Liberty_Cell.new` and `Liberty_Pin.new` then consume these
    lists from the front with `shift`, using the line numbers to decide
    which property line belongs to which cell and pin. */
module Liberty {
  import opened Wrappers
  import opened Text
  import opened Hashes

  /** A pin as scraped: the name between the parentheses of `pin (...)` and
      its direction, `None` standing for nil. */
  datatype LibertyPin = LibertyPin(name: Option<string>, direction: Option<string>)

  /** A cell as scraped: its name, its area (the only cell property the tool
      looks for) and its pins in file order. */
  datatype LibertyCell = LibertyCell(name: Option<string>, area: Option<string>, pins: seq<LibertyPin>)

  /** Where the scraper crashes: a pin needs a `direction` line and the list
      has run out (`nil.split`). */
  datatype ScrapeFault = DirectionsExhausted(pinStart: string)

  /** The four grep lists of one Liberty file, in file order. */
  datatype Lists = Lists(cellStarts: seq<string>, areas: seq<string>, pinStarts: seq<string>, directions: seq<string>)

  // ---------------------------------------------------------------------
  // Line numbers

  /** `entry.split(' ')[0].to_i()`: the leading number of the first token
      (0 when there is none, as `nil.to_i` is 0). */
  function LineNumber(entry: string): nat {
    DigitsValue(LeadingDigits(TokenOrEmpty(entry, 0)))
  }

  /** The line number of a `grep -n` entry is the number grep wrote before
      the colon, whatever the line after it holds. */
  lemma LineNumberOf(n: nat, line: string)
    requires line == [] || !IsDigit(line[0])
    ensures LineNumber(NatToString(n) + ":" + line) == n
  {
    var d := NatToString(n);
    var e := d + ":" + line;
    var m := RunLength(e);
    assert e[0] == d[0] && !IsSpace(e[0]);
    assert Tokens(e)[0] == e[..m];
    assert e[|d|] == ':';
    assert forall i | 0 <= i < |d| :: e[i] == d[i] && IsDigit(d[i]);
    var t := e[..m];
    assert t == d + (":" + e[|d| + 1..m]);
    LeadingDigitsOf(d, ":" + e[|d| + 1..m]);
    NatToStringValue(n);
  }

  /** The boundary a cell's properties must lie before: the next cell's
      line number, or `9E999` (infinity) for the last cell. */
  datatype Bound = Before(limit: nat) | Unbounded

  predicate Below(n: nat, b: Bound) {
    b.Unbounded? || n < b.limit
  }

  /** `advance_to_line(arr, n)`: the entries numbered below `n` are dropped
      from the front. */
  function Advanced(items: seq<string>, n: nat): (r: seq<string>)
    ensures |r| <= |items| && r == items[|items| - |r|..]
    ensures forall i | 0 <= i < |items| - |r| :: LineNumber(items[i]) < n
    ensures r == [] || LineNumber(r[0]) >= n
  {
    if items == [] || LineNumber(items[0]) >= n then items
    else Advanced(items[1..], n)
  }

  // ---------------------------------------------------------------------
  // Property values

  /** What the tool stores for a property line: `entry.split(': ')[1]` on
      the whole grep line, line number included. */
  function GrepValueAsWritten(entry: string): Option<string> {
    SplitPiece(entry, ": ", 1)
  }

  /** The grep line without its `<number>:` prefix. */
  function WithoutLineNumber(entry: string): string {
    var d := LeadingDigits(entry);
    if |d| < |entry| && entry[|d|] == ':' then entry[|d| + 1..] else entry
  }

  /** The value of a property line `<key> : <value>`: the piece after the
      first `": "` of the line itself, once grep's prefix is removed. */
  function PropertyValue(entry: string): Option<string> {
    SplitPiece(WithoutLineNumber(entry), ": ", 1)
  }

  /** Which behaviour a member follows where the tool's code and its evident
      intent part: `AsWritten` follows the code, `Intended` the corrected
      reading.  Here it picks the extraction applied to the `area` and
      `direction` lines: `split(': ')[1]` on the whole grep line, or the same
      split on the line once grep's prefix is removed. */
  datatype Variant = AsWritten | Intended

  /** The value stored for a property line under `variant`. */
  function ValueOf(variant: Variant, entry: string): Option<string> {
    match variant
    case AsWritten => GrepValueAsWritten(entry)
    case Intended => PropertyValue(entry)
  }

  /** A text without a colon splits on `": "` into itself. */
  lemma {:induction false} SplitNoColon(b: string)
    requires ':' !in b
    ensures SplitAll(b, ": ") == [b]
    decreases |b|
  {
    if b != [] {
      assert !StartsWith(b, ": ") by {
        if |b| >= 2 {
          assert b[..2][0] == b[0];
        }
      }
      assert ':' !in b[1..] by {
        forall k | 0 <= k < |b[1..]| ensures b[1..][k] != ':' {
          assert b[1..][k] == b[k + 1];
        }
      }
      SplitNoColon(b[1..]);
      assert [b[0]] + b[1..] == b;
    }
  }

  /** Splitting on `": "` cuts at the first colon when a space follows it. */
  lemma {:induction false} SplitAtFirstColon(a: string, b: string)
    requires ':' !in a
    ensures SplitAll(a + ": " + b, ": ") == [a] + SplitAll(b, ": ")
    decreases |a|
  {
    var s := a + ": " + b;
    if a == [] {
      assert s == ": " + b;
      assert StartsWith(s, ": ");
      assert s[2..] == b;
    } else {
      assert s[0] == a[0] && a[0] != ':';
      assert !StartsWith(s, ": ");
      assert s[1..] == a[1..] + ": " + b;
      assert ':' !in a[1..] by {
        forall k | 0 <= k < |a[1..]| ensures a[1..][k] != ':' {
          assert a[1..][k] == a[k + 1];
        }
      }
      SplitAtFirstColon(a[1..], b);
      assert [s[0]] + a[1..] == a;
    }
  }

  lemma NoColonInKeyPart(ws: string, key: string)
    requires ':' !in ws && ':' !in key
    ensures ':' !in ws + key + " "
  {
    var a := ws + key + " ";
    forall k | 0 <= k < |a| ensures a[k] != ':' {
      if k < |ws| {
        assert a[k] == ws[k];
      } else if k < |ws| + |key| {
        assert a[k] == key[k - |ws|];
      }
    }
  }

  /** No colon in `a` is followed by a space, and `a` does not end in one:
      `": "` cannot occur in `a` nor straddle its end. */
  predicate NoColonSpace(a: string) {
    && (forall k | 0 <= k < |a| - 1 :: a[k] == ':' ==> a[k + 1] != ' ')
    && (a == [] || a[|a| - 1] != ':')
  }

  /** Splitting on `": "` cuts at the first `": "`. */
  lemma {:induction false} SplitAtFirstSeparator(a: string, b: string)
    requires NoColonSpace(a)
    ensures SplitAll(a + ": " + b, ": ") == [a] + SplitAll(b, ": ")
    decreases |a|
  {
    var s := a + ": " + b;
    if a == [] {
      assert s == ": " + b;
      assert StartsWith(s, ": ");
      assert s[2..] == b;
    } else {
      assert s[0] == a[0];
      if a[0] == ':' {
        assert |a| > 1 && s[1] == a[1] && a[1] != ' ';
      }
      assert !StartsWith(s, ": ");
      assert s[1..] == a[1..] + ": " + b;
      assert NoColonSpace(a[1..]) by {
        forall k | 0 <= k < |a[1..]| - 1 ensures a[1..][k] == ':' ==> a[1..][k + 1] != ' ' {
          assert a[1..][k] == a[k + 1] && a[1..][k + 1] == a[k + 2];
        }
        if a[1..] != [] {
          assert a[1..][|a[1..]| - 1] == a[|a| - 1];
        }
      }
      SplitAtFirstSeparator(a[1..], b);
      assert [s[0]] + a[1..] == a;
    }
  }


  /** The grep prefix comes off whole: what follows `<number>:` is the line. */
  lemma WithoutLineNumberOf(n: nat, line: string)
    requires line == [] || !IsDigit(line[0])
    ensures WithoutLineNumber(NatToString(n) + ":" + line) == line
  {
    var d := NatToString(n);
    var e := d + ":" + line;
    assert e == d + (":" + line);
    LeadingDigitsOf(d, ":" + line);
    assert e[|d|] == ':';
    assert e[|d| + 1..] == line;
  }

  /** On the grep line of a property line written `<key> : <value>`, the
      value is read whatever the indentation. */
  lemma PropertyValueReadsValue(n: nat, ws: string, key: string, value: string)
    requires forall i | 0 <= i < |ws| :: ws[i] == ' '
    requires key != [] && !IsDigit(key[0]) && ':' !in key
    requires value != [] && ':' !in value
    ensures PropertyValue(NatToString(n) + ":" + ws + key + " : " + value) == Some(value)
  {
    var line := (ws + key + " ") + ": " + value;
    EntryText(NatToString(n), ws, key, value);
    WithoutLineNumberOf(n, line);
    SpacesHaveNoColon(ws);
    NoColonInKeyPart(ws, key);
    SplitAtFirstColon(ws + key + " ", value);
    SplitNoColon(value);
  }

  /** The text of a grep entry after its line number, regrouped at the
      property's own `: `; it does not start with a digit. */
  lemma EntryText(d: string, ws: string, key: string, value: string)
    requires forall i | 0 <= i < |ws| :: ws[i] == ' '
    requires key != [] && !IsDigit(key[0])
    ensures var line := (ws + key + " ") + ": " + value;
      && d + ":" + ws + key + " : " + value == d + ":" + line
      && (line == [] || !IsDigit(line[0]))
  {
    var line := (ws + key + " ") + ": " + value;
    if ws != [] {
      assert line[0] == ws[0];
    } else {
      assert line[0] == key[0];
    }
  }


  /** The as-written extraction on an indented property line: the first
      `": "` is the one right after the line number, so piece 1 is the
      indentation (less one space) and the key, not the value. */
  lemma GrepValueAsWrittenReadsKey(n: nat, ws: string, key: string, value: string)
    requires ws != [] && forall i | 0 <= i < |ws| :: ws[i] == ' '
    requires ':' !in key && value != [] && ':' !in value
    ensures GrepValueAsWritten(NatToString(n) + ":" + ws + key + " : " + value) == Some(ws[1..] + key + " ")
  {
    var d := NatToString(n);
    var rest := ws[1..] + key + " ";
    DigitsHaveNoColon(d);
    SpacesHaveNoColon(ws[1..]);
    NoColonInKeyPart(ws[1..], key);
    IndentedEntry(d, ws, key, value);
    SplitAtFirstColon(d, rest + ": " + value);
    SplitAtFirstColon(rest, value);
    SplitNoColon(value);
  }

  lemma DigitsHaveNoColon(d: string)
    requires forall k | 0 <= k < |d| :: IsDigit(d[k])
    ensures ':' !in d
  {
    forall k | 0 <= k < |d| ensures d[k] != ':' {
      assert IsDigit(d[k]);
    }
  }

  lemma SpacesHaveNoColon(ws: string)
    requires forall i | 0 <= i < |ws| :: ws[i] == ' '
    ensures ':' !in ws
  {
    forall k | 0 <= k < |ws| ensures ws[k] != ':' {
      assert ws[k] == ' ';
    }
  }

  /** A grep entry with indentation `ws`, regrouped at its first `: `. */
  lemma IndentedEntry(d: string, ws: string, key: string, value: string)
    requires ws != [] && ws[0] == ' '
    ensures d + ":" + ws + key + " : " + value == d + ": " + (ws[1..] + key + " " + ": " + value)
  {
    assert ws == [' '] + ws[1..];
  }


  /** The as-written extraction on a property line that does not start
      with a space (no indentation, or a tab): the first `": "` is the
      property's own, so piece 1 is the value. */
  lemma GrepValueAsWrittenUnindented(n: nat, key: string, value: string)
    requires key != [] && key[0] != ' ' && ':' !in key
    requires value != [] && ':' !in value
    ensures GrepValueAsWritten(NatToString(n) + ":" + key + " : " + value) == Some(value)
  {
    var d := NatToString(n);
    var a := d + ":" + key + " ";
    assert NoColonSpace(a) by {
      forall k | 0 <= k < |a| - 1 ensures a[k] == ':' ==> a[k + 1] != ' ' {
        if k < |d| {
          assert a[k] == d[k] && IsDigit(d[k]);
        } else if k == |d| {
          assert a[k + 1] == key[0];
        } else if k < |d| + 1 + |key| {
          assert a[k] == key[k - |d| - 1];
        }
      }
    }
    assert d + ":" + key + " : " + value == a + ": " + value;
    SplitAtFirstSeparator(a, value);
    SplitNoColon(value);
  }

  // ---------------------------------------------------------------------
  // Names

  /** `Liberty_Cell`'s name: the text between the first pair of double
      quotes, else the text between the first parentheses. */
  function CellName(start: string): Option<string> {
    match SplitPiece(start, "\"", 1)
    case Some(quoted) => Some(quoted)
    case None => ParenPiece(start, 1)
  }

  /** A piece that is not empty is kept when trailing empty pieces go. */
  lemma KeepsNonEmpty(ps: seq<string>, i: nat)
    requires i < |ps| && ps[i] != []
    ensures i < |DropTrailingEmpty(ps)| && DropTrailingEmpty(ps)[i] == ps[i]
  {
  }

  /** A quoted cell name, `<n>:<indent>cell ("<name>") {` or any line with
      no other double quote, is read between the quotes. */
  lemma CellNameQuoted(pre: string, name: string, post: string)
    requires '"' !in pre && '"' !in name && '"' !in post && name != []
    ensures CellName(pre + "\"" + name + "\"" + post) == Some(name)
  {
    var q := "\"";
    assert pre + q + name + q + post == pre + [q[0]] + (name + [q[0]] + post);
    SplitAllAtChar(pre, q[0], name + [q[0]] + post);
    SplitAllAtChar(name, q[0], post);
    var ps := [pre] + ([name] + SplitAll(post, q));
    KeepsNonEmpty(ps, 1);
  }

  /** An unquoted cell name, `<n>:<indent>cell (<name>) {` with no double
      quote and no other parenthesis before the name, is read between the
      parentheses. */
  lemma CellNameParenthesised(pre: string, name: string, post: string)
    requires '"' !in pre && '"' !in name && '"' !in post && name != []
    requires '(' !in pre && ')' !in pre && '(' !in name && ')' !in name
    ensures CellName(pre + "(" + name + ")" + post) == Some(name)
  {
    var s := pre + "(" + name + ")" + post;
    assert '"' !in s;
    SplitAllNoChar(s, '"');
    assert "\"" == ['"'];
    assert s == pre + ['('] + (name + [')'] + post);
    SplitCharsAt(pre, '(', name + [')'] + post, {'(', ')'});
    SplitCharsAt(name, ')', post, {'(', ')'});
    var ps := [pre] + ([name] + SplitChars(post, {'(', ')'}));
    KeepsNonEmpty(ps, 1);
  }

  // ---------------------------------------------------------------------
  // Liberty_Pin and Liberty_Cell as functions of the lists

  /** `Liberty_Pin.new`: the first pin start is consumed; the direction list
      is advanced to the pin's line, and its next entry is taken when it lies
      before the next pin start (always, for the last pin). */
  function ScrapedPin(variant: Variant, pinStarts: seq<string>, directions: seq<string>)
    : (r: Result<(LibertyPin, seq<string>, seq<string>), ScrapeFault>)
    requires pinStarts != []
    ensures r.Success? ==> r.value.1 == pinStarts[1..]
    ensures r.Success? ==>
      var ds := Advanced(directions, LineNumber(pinStarts[0]));
      r.value.2 == ds || (ds != [] && r.value.2 == ds[1..])
  {
    var start := pinStarts[0];
    var rest := pinStarts[1..];
    var name := ParenPiece(start, 1);
    var ds := Advanced(directions, LineNumber(start));
    if ds == [] then Failure(DirectionsExhausted(start))
    else if rest == [] || LineNumber(ds[0]) < LineNumber(rest[0]) then
      Success((LibertyPin(name, ValueOf(variant, ds[0])), rest, ds[1..]))
    else Success((LibertyPin(name, None), rest, ds))
  }

  /** The pin loop of `Liberty_Cell.new`: while the next pin start lies
      before `bound`, scrape a pin. */
  function ScrapedPins(variant: Variant, bound: Bound, pinStarts: seq<string>, directions: seq<string>)
    : (r: Result<(seq<LibertyPin>, seq<string>, seq<string>), ScrapeFault>)
    ensures r.Success? ==> |r.value.0| <= |pinStarts| && r.value.1 == pinStarts[|r.value.0|..]
    ensures r.Success? ==> forall i | 0 <= i < |r.value.0| :: Below(LineNumber(pinStarts[i]), bound)
    ensures r.Success? ==> r.value.1 == [] || !Below(LineNumber(r.value.1[0]), bound)
    decreases |pinStarts|
  {
    if pinStarts == [] || !Below(LineNumber(pinStarts[0]), bound) then Success(([], pinStarts, directions))
    else
      match ScrapedPin(variant, pinStarts, directions)
      case Failure(e) => Failure(e)
      case Success((pin, ps, ds)) =>
        match ScrapedPins(variant, bound, ps, ds)
        case Failure(e) => Failure(e)
        case Success((pins, ps', ds')) =>
          BelowCons(pinStarts, |pins|, bound);
          Success(([pin] + pins, ps', ds'))
  }

  /** A bound that holds for the first entry and for the next `n` after it
      holds for the first `n + 1`. */
  lemma BelowCons(starts: seq<string>, n: nat, bound: Bound)
    requires n < |starts| && Below(LineNumber(starts[0]), bound)
    requires forall i | 0 <= i < n :: Below(LineNumber(starts[1..][i]), bound)
    ensures forall i | 0 <= i < n + 1 :: Below(LineNumber(starts[i]), bound)
  {
    forall i | 0 < i < n + 1 ensures Below(LineNumber(starts[i]), bound) {
      assert starts[i] == starts[1..][i - 1];
    }
  }

  /** `Liberty_Cell.new`: the first cell start is consumed; the area list is
      advanced to the cell's line and its next entry taken when it lies before
      the next cell start; then the pins before the next cell start. */
  function ScrapedCell(variant: Variant, lists: Lists): (r: Result<(LibertyCell, Lists), ScrapeFault>)
    requires lists.cellStarts != []
    ensures r.Success? ==> r.value.1.cellStarts == lists.cellStarts[1..]
  {
    var start := lists.cellStarts[0];
    var cs := lists.cellStarts[1..];
    var bound := if cs == [] then Unbounded else Before(LineNumber(cs[0]));
    var as1 := Advanced(lists.areas, LineNumber(start));
    var taken := as1 != [] && Below(LineNumber(as1[0]), bound);
    var area := if taken then ValueOf(variant, as1[0]) else None;
    var as2 := if taken then as1[1..] else as1;
    match ScrapedPins(variant, bound, lists.pinStarts, lists.directions)
    case Failure(e) => Failure(e)
    case Success((pins, ps, ds)) => Success((LibertyCell(CellName(start), area, pins), Lists(cs, as2, ps, ds)))
  }

  /** The scraping loop of `main` for one Liberty file: cells are scraped
      until the cell starts run out, each filed under its name. */
  function ScrapedFile(variant: Variant, lists: Lists, cells: Hash<Option<string>, LibertyCell>)
    : (r: Result<Hash<Option<string>, LibertyCell>, ScrapeFault>)
    ensures r.Success? ==> forall k | 0 <= k < |cells| :: cells[k].0 in KeysOf(r.value)
    decreases |lists.cellStarts|
  {
    if lists.cellStarts == [] then Success(cells)
    else
      match ScrapedCell(variant, lists)
      case Failure(e) => Failure(e)
      case Success((cell, rest)) =>
        PutKeys(cells, cell.name, cell);
        ScrapedFile(variant, rest, Put(cells, cell.name, cell))
  }

  /** What one `Liberty_Cell.new` consumes: exactly its own cell start; of
      the area lines, those before its start line and then at most the
      first one, which is taken iff it lies before the next cell start; and
      exactly the leading pin starts numbered before the next cell start. */
  lemma CellConsumption(variant: Variant, lists: Lists)
    requires lists.cellStarts != []
    requires ScrapedCell(variant, lists).Success?
    ensures var (cell, rest) := ScrapedCell(variant, lists).value;
      var bound := if |lists.cellStarts| == 1 then Unbounded else Before(LineNumber(lists.cellStarts[1]));
      var as1 := Advanced(lists.areas, LineNumber(lists.cellStarts[0]));
      && rest.cellStarts == lists.cellStarts[1..]
      && cell.name == CellName(lists.cellStarts[0])
      && cell.area == (if as1 != [] && Below(LineNumber(as1[0]), bound) then ValueOf(variant, as1[0]) else None)
      && (if as1 != [] && Below(LineNumber(as1[0]), bound) then rest.areas == as1[1..] else rest.areas == as1)
      && |cell.pins| <= |lists.pinStarts| && rest.pinStarts == lists.pinStarts[|cell.pins|..]
      && (forall i | 0 <= i < |cell.pins| :: Below(LineNumber(lists.pinStarts[i]), bound))
      && (rest.pinStarts == [] || !Below(LineNumber(rest.pinStarts[0]), bound))
  {
  }

  /** What one `Liberty_Pin.new` does.  With `k` the number of direction
      lines numbered before the pin's own line: it crashes exactly when no
      direction line is left after those; otherwise it consumes its own pin
      start, names the pin from the parentheses, and takes direction line `k`
      (storing its value) exactly when that line lies before the next pin
      start or the pin is the last; an untaken line stays for the next pin. */
  lemma PinConsumption(variant: Variant, pinStarts: seq<string>, directions: seq<string>)
    requires pinStarts != []
    ensures var k := |directions| - |Advanced(directions, LineNumber(pinStarts[0]))|;
      var r := ScrapedPin(variant, pinStarts, directions);
      && (forall i | 0 <= i < k :: LineNumber(directions[i]) < LineNumber(pinStarts[0]))
      && (r.Failure? <==> k == |directions|)
      && (r.Success? ==>
            var taken := |pinStarts| == 1 || LineNumber(directions[k]) < LineNumber(pinStarts[1]);
            && LineNumber(directions[k]) >= LineNumber(pinStarts[0])
            && r.value.0.name == ParenPiece(pinStarts[0], 1)
            && r.value.0.direction == (if taken then ValueOf(variant, directions[k]) else None)
            && r.value.1 == pinStarts[1..]
            && r.value.2 == (if taken then directions[k + 1..] else directions[k..]))
  {
    var ds := Advanced(directions, LineNumber(pinStarts[0]));
    var k := |directions| - |ds|;
    if ds != [] {
      assert ds[0] == directions[k];
      assert ds[1..] == directions[k + 1..];
    }
  }

  // ---------------------------------------------------------------------
  // The lists as the tool holds them: arrays shifted in place

  /** One of the four grep lists, an array consumed with `shift`. */
  class EntryList {
    var items: seq<string>

    constructor (items: seq<string>)
      ensures this.items == items
    {
      this.items := items;
    }

    /** `arr.shift()`: the first entry, removed; nil on an empty list. */
    method Shift() returns (e: Option<string>)
      modifies this
      ensures old(items) == [] ==> e.None? && items == []
      ensures old(items) != [] ==> e == Some(old(items)[0]) && items == old(items)[1..]
    {
      if items == [] {
        return None;
      }
      e := Some(items[0]);
      items := items[1..];
    }

    /** `advance_to_line(arr, n)`. */
    method AdvanceToLine(n: nat)
      modifies this
      ensures items == Advanced(old(items), n)
    {
      if items == [] {
        return;
      }
      while LineNumber(items[0]) < n
        invariant items != [] && Advanced(items, n) == Advanced(old(items), n)
        decreases |items|
      {
        items := items[1..];
        if items == [] {
          return;
        }
      }
    }
  }

  /** `Liberty_Pin.new(pin_start_lines, pin_properties)`. */
  method NewLibertyPin(variant: Variant, pinStarts: EntryList, directions: EntryList) returns (r: Result<LibertyPin, ScrapeFault>)
    requires pinStarts != directions && pinStarts.items != []
    modifies pinStarts, directions
    ensures var spec := ScrapedPin(variant, old(pinStarts.items), old(directions.items));
      && (spec.Failure? ==> r == Failure(spec.error))
      && (spec.Success? ==> r == Success(spec.value.0) && pinStarts.items == spec.value.1 && directions.items == spec.value.2)
  {
    var start := pinStarts.Shift();
    var endOfPins := pinStarts.items == [];
    var startNumber := LineNumber(start.value);
    var name := ParenPiece(start.value, 1);
    directions.AdvanceToLine(startNumber);
    if directions.items == [] {
      return Failure(DirectionsExhausted(start.value));
    }
    if endOfPins || LineNumber(directions.items[0]) < LineNumber(pinStarts.items[0]) {
      var entry := directions.Shift();
      r := Success(LibertyPin(name, ValueOf(variant, entry.value)));
    } else {
      r := Success(LibertyPin(name, None));
    }
  }

  /** The pins of a scrape, with `pins` scraped before them. */
  function Preceded(pins: seq<LibertyPin>, r: Result<(seq<LibertyPin>, seq<string>, seq<string>), ScrapeFault>)
    : Result<(seq<LibertyPin>, seq<string>, seq<string>), ScrapeFault>
  {
    match r
    case Failure(e) => Failure(e)
    case Success((ps, starts, ds)) => Success((pins + ps, starts, ds))
  }

  lemma PrecededNothing(r: Result<(seq<LibertyPin>, seq<string>, seq<string>), ScrapeFault>)
    ensures Preceded([], r) == r
  {
    if r.Success? {
      assert [] + r.value.0 == r.value.0;
    }
  }

  lemma PrecededTwice(a: seq<LibertyPin>, b: seq<LibertyPin>, r: Result<(seq<LibertyPin>, seq<string>, seq<string>), ScrapeFault>)
    ensures Preceded(a, Preceded(b, r)) == Preceded(a + b, r)
  {
    if r.Success? {
      assert a + (b + r.value.0) == (a + b) + r.value.0;
    }
  }

  /** One turn of the pin loop: a scraped pin is followed by the pins of
      the rest of the lists; a crash ends the loop. */
  lemma PinsStep(variant: Variant, bound: Bound, ps: seq<string>, ds: seq<string>)
    requires ps != [] && Below(LineNumber(ps[0]), bound)
    ensures ScrapedPin(variant, ps, ds).Failure? ==> ScrapedPins(variant, bound, ps, ds) == Failure(ScrapedPin(variant, ps, ds).error)
    ensures ScrapedPin(variant, ps, ds).Success? ==>
      var (pin, ps', ds') := ScrapedPin(variant, ps, ds).value;
      ScrapedPins(variant, bound, ps, ds) == Preceded([pin], ScrapedPins(variant, bound, ps', ds'))
  {
  }

  /** The pin loop of `Liberty_Cell.new`. */
  method ReadPins(variant: Variant, bound: Bound, pinStarts: EntryList, directions: EntryList)
    returns (r: Result<seq<LibertyPin>, ScrapeFault>)
    requires pinStarts != directions
    modifies pinStarts, directions
    ensures var spec := ScrapedPins(variant, bound, old(pinStarts.items), old(directions.items));
      && (spec.Failure? ==> r == Failure(spec.error))
      && (spec.Success? ==>
            r == Success(spec.value.0) && pinStarts.items == spec.value.1 && directions.items == spec.value.2)
  {
    var pins := [];
    PrecededNothing(ScrapedPins(variant, bound, pinStarts.items, directions.items));
    while pinStarts.items != [] && Below(LineNumber(pinStarts.items[0]), bound)
      invariant Preceded(pins, ScrapedPins(variant, bound, pinStarts.items, directions.items))
        == ScrapedPins(variant, bound, old(pinStarts.items), old(directions.items))
      decreases |pinStarts.items|
    {
      ghost var ps, ds := pinStarts.items, directions.items;
      var pin := NewLibertyPin(variant, pinStarts, directions);
      if pin.Failure? {
        return Failure(pin.error);
      }
      PinsStep(variant, bound, ps, ds);
      PrecededTwice(pins, [pin.value], ScrapedPins(variant, bound, pinStarts.items, directions.items));
      pins := pins + [pin.value];
    }
    assert ScrapedPins(variant, bound, pinStarts.items, directions.items) == Success(([], pinStarts.items, directions.items));
    assert pins + [] == pins;
    r := Success(pins);
  }

  /** `Liberty_Cell.new(cell_start_lines, cell_properties, pin_start_lines,
      pin_properties)`. */
  method NewLibertyCell(variant: Variant, cellStarts: EntryList, areas: EntryList, pinStarts: EntryList, directions: EntryList)
    returns (r: Result<LibertyCell, ScrapeFault>)
    requires cellStarts.items != []
    requires cellStarts != areas && cellStarts != pinStarts && cellStarts != directions
    requires areas != pinStarts && areas != directions && pinStarts != directions
    modifies cellStarts, areas, pinStarts, directions
    ensures var spec := ScrapedCell(variant, Lists(old(cellStarts.items), old(areas.items), old(pinStarts.items), old(directions.items)));
      && (spec.Failure? ==> r == Failure(spec.error))
      && (spec.Success? ==>
            r == Success(spec.value.0)
            && Lists(cellStarts.items, areas.items, pinStarts.items, directions.items) == spec.value.1)
  {
    var start := cellStarts.Shift();
    var startNumber := LineNumber(start.value);
    var bound := if cellStarts.items == [] then Unbounded else Before(LineNumber(cellStarts.items[0]));
    var name := CellName(start.value);
    areas.AdvanceToLine(startNumber);
    var area := None;
    if areas.items != [] && Below(LineNumber(areas.items[0]), bound) {
      var entry := areas.Shift();
      area := ValueOf(variant, entry.value);
    }
    var pins := ReadPins(variant, bound, pinStarts, directions);
    if pins.Failure? {
      return Failure(pins.error);
    }
    r := Success(LibertyCell(name, area, pins.value));
  }

  /** The scraping loop of `main` for one Liberty file. */
  method ScrapeLibertyFile(variant: Variant, cellStarts: EntryList, areas: EntryList, pinStarts: EntryList, directions: EntryList)
    returns (r: Result<Hash<Option<string>, LibertyCell>, ScrapeFault>)
    requires cellStarts != areas && cellStarts != pinStarts && cellStarts != directions
    requires areas != pinStarts && areas != directions && pinStarts != directions
    modifies cellStarts, areas, pinStarts, directions
    ensures var spec := ScrapedFile(variant, Lists(old(cellStarts.items), old(areas.items), old(pinStarts.items), old(directions.items)), []);
      && (spec.Failure? ==> r == Failure(spec.error))
      && (spec.Success? ==> r == Success(spec.value))
  {
    var cells: Hash<Option<string>, LibertyCell> := [];
    while cellStarts.items != []
      invariant ScrapedFile(variant, Lists(cellStarts.items, areas.items, pinStarts.items, directions.items), cells)
        == ScrapedFile(variant, Lists(old(cellStarts.items), old(areas.items), old(pinStarts.items), old(directions.items)), [])
      decreases |cellStarts.items|
    {
      var cell := NewLibertyCell(variant, cellStarts, areas, pinStarts, directions);
      if cell.Failure? {
        return Failure(cell.error);
      }
      cells := Put(cells, cell.value.name, cell.value);
    }
    r := Success(cells);
  }
}
