/** The line cursor shared by every LEF parser (`PBR_Int` with
    `get_current_line`/`get_next_line`), the line-ending semicolon repair, and
    the state a parser leaves behind: where the cursor stands, the `errors`
    hash and the run-wide frequency tables. */
module Lines {
  import opened Wrappers
  import opened Text
  import opened Findings

  /** Why a parse stops without a result: the places where the tool raises or
      calls a method on nil. */
  datatype Fault =
    | EndOfInput                     // the lines ran out inside a construct (`nil.match`)
    | NotAtStart(construct: string, index: nat)   // a constructor's start check failed
    | MissingField(index: nat)       // a token or piece the line lacks (nil where a string is needed)
    | UnexpectedLine(index: nat, line: string)    // a top-level line that is no MACRO

  /** Where a parse stands: the cursor (`index.value`), the `errors` hash and
      the five frequency tables. */
  datatype St = St(index: nat, log: Log, tables: Tables)

  /** The index `get_current_line` settles on: the first non-blank line at or
      after `i`, or the end of the lines. */
  function SkipBlank(lines: seq<string>, i: nat): (j: nat)
    requires i <= |lines|
    ensures i <= j <= |lines|
    ensures j < |lines| ==> !IsBlank(lines[j])
    ensures forall k | i <= k < j :: IsBlank(lines[k])
    decreases |lines| - i
  {
    if i < |lines| && IsBlank(lines[i]) then SkipBlank(lines, i + 1) else i
  }

  /** `file[i]`, `None` past the end. */
  function LineAt(lines: seq<string>, i: nat): Option<string>
    requires i <= |lines|
  {
    if i < |lines| then Some(lines[i]) else None
  }

  /** What `get_current_line` returns from index `i`. */
  function Current(lines: seq<string>, i: nat): (r: Option<string>)
    requires i <= |lines|
    ensures r.Some? ==> !IsBlank(r.value)
  {
    LineAt(lines, SkipBlank(lines, i))
  }

  /** Where `get_next_line` leaves the index when it is called on line `i`. */
  function Next(lines: seq<string>, i: nat): (j: nat)
    requires i < |lines|
    ensures i < j <= |lines|
  {
    SkipBlank(lines, i + 1)
  }

  /** The cursor returns exactly the non-blank lines, in order: the line it
      settles on is the first non-blank one, and skipping again stays put. */
  lemma SkipBlankSettles(lines: seq<string>, i: nat)
    requires i <= |lines|
    ensures SkipBlank(lines, SkipBlank(lines, i)) == SkipBlank(lines, i)
    ensures Current(lines, i).None? <==> forall k | i <= k < |lines| :: IsBlank(lines[k])
  {
    var j := SkipBlank(lines, i);
    if j < |lines| {
      assert !IsBlank(lines[j]);
    }
  }

  // ---------------------------------------------------------------------
  // Line-ending semicolons

  /** `/\S;\s*$/`: the line ends (before trailing whitespace) in a semicolon
      glued to the text before it. */
  predicate NeedsFix(line: string) {
    var t := TrimRight(line);
    |t| >= 2 && t[|t| - 1] == ';' && !IsSpace(t[|t| - 2])
  }

  /** `line.gsub(/;\s*$/, " ;\n")` on a line that needs the fix; any other line
      is kept. */
  function Fixed(line: string): (r: string)
    ensures NeedsFix(line) ==> r == TrimRight(line)[..|TrimRight(line)| - 1] + " ;\n"
    ensures !NeedsFix(line) ==> r == line
  {
    if NeedsFix(line) then
      var t := TrimRight(line);
      t[..|t| - 1] + " ;\n"
    else line
  }

  /** Records the 1-based number of line `i` under `line_ending_semicolons`
      when the line needs the fix. */
  function NoteSemicolon(log: Log, i: nat, line: string): (r: Log)
    ensures NeedsFix(line) ==> Get(r, LineEndingSemicolons) == Get(log, LineEndingSemicolons) + [NatToString(i + 1) + "\n"]
    ensures !NeedsFix(line) ==> r == log
    ensures forall c | c != LineEndingSemicolons :: Get(r, c) == Get(log, c)
  {
    if NeedsFix(line) then Push(log, LineEndingSemicolons, NatToString(i + 1) + "\n") else log
  }

  /** The repair settles a line: a repaired line needs no further repair, and
      it keeps everything before the semicolon, which now stands apart. */
  lemma FixSettles(line: string)
    ensures !NeedsFix(Fixed(line))
    ensures NeedsFix(line) ==> StartsWith(Fixed(line), TrimRight(line)[..|TrimRight(line)| - 1])
  {
    if NeedsFix(line) {
      var t := TrimRight(line);
      var r := Fixed(line);
      var body := t[..|t| - 1];
      assert r == body + " ;" + "\n";
      assert TrimRight(r) == body + " ;" by {
        assert TrimRight(r) == TrimRight(r[..|r| - 1]);
        assert r[..|r| - 1] == body + " ;";
      }
      assert r[..|body|] == body;
    }
  }

  /** Repairing keeps a non-blank line non-blank. */
  lemma FixKeepsText(line: string)
    requires !IsBlank(line)
    ensures !IsBlank(Fixed(line))
  {
    if NeedsFix(line) {
      var t := TrimRight(line);
      var r := Fixed(line);
      assert r[|r| - 2] == ';';
    }
  }
}
