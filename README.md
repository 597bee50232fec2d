# LEF sorter and LEF/Liberty cross-checker, modelled in Dafny

`sortLEFdata.rb` reads LEF cell libraries line by line and builds a tree from
them. A library holds a header, optional `PROPERTYDEFINITIONS`, `MACRO` cells
and `END LIBRARY`. A cell holds properties, `PIN`s, an `OBS` block and its
`END`. A pin holds properties, `PORT` blocks and its `END`. `PORT` and `OBS`
blocks hold `LAYER`s, and a layer holds coordinate lines.

Before reading a LEF file, `main` strips its `#` comments. Each line that
holds a comment is rewritten in place, and its text is listed in a
`<file>_comments` file.

While reading, the tool:

- repairs lines that end in a glued semicolon;
- rewrites the four numbers of each coordinate line with three decimals;
- files findings into an `errors` hash, one list per category;
- counts the values of `CLASS`, `SYMMETRY`, `SITE`, `DIRECTION` and `USE` in
  tables shared by the whole run.

Afterwards it does three more things:

- It reports values used rarely (`check_for_uncommon_properties`).
- It sorts and prints the tree: `sort!` orders the property lines by a fixed
  property order, the coordinate lines by `coordSort`, the ports by
  `compare_to`, and the layers by the active layer order.
- It scrapes Liberty files from `grep -n` listings (`Liberty_Cell`,
  `Liberty_Pin`, `advance_to_line`). It then reconciles every LEF library
  against every Liberty file in both directions: missing cells, missing pins,
  area mismatches and pin directions (`LibRuleChecker.check_pin_value_in_lef`).

## Modules

| module | file | contents |
|---|---|---|
| `Wrappers` | `wrappers.dfy` | `Option` and `Result` |
| `Text` | `text.dfy` | the Ruby string operations the tool relies on: `split`, `lstrip`, `<=>`, `to_s`, `to_i` |
| `Numbers` | `numbers.dfy` | `to_f` as an exact decimal, and `"%.3f"` |
| `Ordering` | `ordering.dfy` | `sort_by_property_list`, and `sort` with a comparator, as a stable insertion sort with its theory |
| `Hashes` | `hashes.dfy` | Ruby's insertion-ordered `Hash` |
| `Findings` | `findings.dfy` | the `errors` categories, the run-wide frequency tables (`register_property`) and the rarity rule |
| `Comments` | `comments.dfy` | the comment stripping `main` applies to a LEF file's lines before parsing them |
| `Lines` | `lines.dfy` | `get_current_line` and `get_next_line` as functions of an index, and the semicolon repair |
| `Geometry` | `geometry.dfy` | `Layer` and `LayerCollection` as values: the coordinate rewrite, `coordSort`, `compare_to`, `layer_name_sort`, `sort!` and `print` |
| `Macros` | `macros.dfy` | `Pin`, `Cell` and `LEF_File` as values, with their `sort!` and `print` |
| `Parsing` | `parsing.dfy` | the specification of every parser as a tail-recursive function over the state (index, `errors`, tables) |
| `Reader` | `reader.dfy` | the parsers themselves, described below |
| `Liberty` | `liberty.dfy` | the scraper, described below |
| `CrossCheck` | `crosscheck.dfy` | `check_pin_value_in_lef` and the reconciliation loops of `main` as functions, with lemmas that characterise what each loop records and what each report appends |

**`Reader`.** The parsers are imperative methods of the class `LefReader`. Its
fields are:

- the file's lines;
- the active layer order;
- the `PBR_Int` index;
- the `errors` hash;
- the frequency tables.

Every method is proved to leave the reader in the state the matching
`Parsing` function computes.

**`Liberty`.** The scraper works on the class `EntryList`, an array consumed
with `shift`. It is proved against functions on the four grep lists.
Every scraper member takes a `Variant`. `AsWritten` reads an `area` or
`direction` value as the code does: `split(': ')[1]` of the whole grep line,
line number included. This is the model of the tool. `Intended` removes
grep's `<n>:` prefix first and is the correction described under
"## Findings". `CrossCheck` takes the same `Variant`, and with `AsWritten`
files only the last cell's message in two of the reports, as the code does.

## Model

| member | source | states |
|---|---|---|
| `Text.TrimLeft` | sortLEFdata.rb:434-436 | the `\s*` that patterns such as `/^\s*PIN\s+/` skip: the result is the suffix left after the longest blank prefix, and it does not start with a space |
| `Text.TrimRight` | sortLEFdata.rb:126-131 | the `\s*$` of the semicolon pattern: the result is the prefix left after the longest blank suffix, and it does not end with a space |
| `Text.Tokens` | sortLEFdata.rb:246 | `split()`: every token is non-empty and holds no whitespace |
| `Text.TokensAfterSpaces` | sortLEFdata.rb:246 | `split()` ignores leading whitespace |
| `Text.TokensOfWord` | sortLEFdata.rb:246 | a word followed by whitespace or nothing is the first token of `split()`, and the rest are the tokens of what follows |
| `Text.Compare` | sortLEFdata.rb:369 | `String#<=>` returns -1, 0 or 1, and returns 0 exactly for equal strings |
| `Text.CompareAntisymmetric` | sortLEFdata.rb:369 | swapping the operands of `<=>` negates the result |
| `Text.CompareTransitive` | sortLEFdata.rb:369 | `<=>` on strings is transitive |
| `Text.Upper` | sortLEFdata.rb:485 | `upcase` keeps the length and works position by position: each ASCII letter `a`-`z` becomes its capital, every other character is kept, and no lower-case ASCII letter is left |
| `Text.SplitAll` | sortLEFdata.rb:1358 | `split(sep)` yields at least one piece; the first piece starts the string, and no piece contains the separator |
| `Text.SplitAllJoin` | sortLEFdata.rb:1358 | joining the pieces of `split(sep)` with `sep` gives back the string, so nothing is lost |
| `Text.SplitAllNoChar` | sortLEFdata.rb:1346 | a string without the separator character splits into itself |
| `Text.SplitAllAtChar` | sortLEFdata.rb:1346 | `split(c)` cuts at the first `c`: the text before it is the first piece, and the rest are the pieces of the text after it |
| `Text.DropTrailingEmpty` | sortLEFdata.rb:1415 | Ruby's `split` drops trailing empty pieces: the result is a prefix of the pieces, does not end in an empty piece, and every piece dropped is empty |
| `Text.SplitChars` | sortLEFdata.rb:1348 | `split(/\(\|\)/)` yields at least one piece, and no piece holds a separator character |
| `Text.SplitCharsAt` | sortLEFdata.rb:1348 | `split(/\(\|\)/)` cuts at the first parenthesis in the same way |
| `Text.SplitCharsParts` | sortLEFdata.rb:1348 | the pieces, joined, spell out the string without its separator characters, and there is one more piece than there were separators, so nothing else is lost |
| `Text.NatToString` | sortLEFdata.rb:128 | `Integer#to_s` is a non-empty string of digits |
| `Text.NatToStringValue` | sortLEFdata.rb:128 | reading back the digits of `to_s` gives the number, so the line numbers in findings are the right ones |
| `Text.LeadingDigits` | sortLEFdata.rb:1337 | the digits `to_i` reads: the longest digit prefix |
| `Text.LeadingDigitsOf` | sortLEFdata.rb:1337 | the prefix `to_i` reads stops exactly at the first non-digit |
| `Numbers.NumericPrefix` | sortLEFdata.rb:600 | `to_f` reads an optional sign, the integer digits and the fraction digits |
| `Numbers.Canonical` | sortLEFdata.rb:601 | the number `"%.3f"` renders: at least one integer digit and exactly three fraction digits |
| `Numbers.FractionAtMostThree` | sortLEFdata.rb:599 | a field that fails the `/\.\d{4}/` test has at most three fraction digits, so `"%.3f"` never rounds it |
| `Numbers.Fixed3Meaning` | sortLEFdata.rb:599-601 | the `"%.3f" % to_f` rewrite keeps the field's value and leaves three fraction digits, no whitespace and no long fraction, so a second rewrite leaves it unchanged |
| `Numbers.RenderReadBack` | sortLEFdata.rb:601 | `to_f` reads back the rendered decimal |
| `Numbers.CanonicalValue` | sortLEFdata.rb:601 | rendering keeps the value |
| `Numbers.CanonicalIdempotent` | sortLEFdata.rb:601 | rendering a rendered number changes nothing |
| `Numbers.RenderShape` | sortLEFdata.rb:601 | a rendered number is one token without a four-digit fraction |
| `Numbers.UnsignedReadBack` | sortLEFdata.rb:600 | `to_f` on `ip.frac` reads exactly `ip` and `frac` |
| `Numbers.SignedRead` | sortLEFdata.rb:600 | `to_f` on a signed number reads its sign, integer digits and fraction digits |
| `Numbers.LongFractionAt` | sortLEFdata.rb:599 | a point followed by four digits anywhere in the field matches `/\.\d{4}/` |
| `Numbers.NoPointNoLongFraction` | sortLEFdata.rb:599 | a field without a point never matches `/\.\d{4}/` |
| `Numbers.NoLongFractionAfterPoint` | sortLEFdata.rb:599 | digits, a point and at most three digits never match `/\.\d{4}/` |
| `Ordering.CompareInt` | sortLEFdata.rb:776 | `Integer#<=>` is negative, zero or positive exactly when the first operand is smaller, equal or larger |
| `Ordering.IndexOf` | sortLEFdata.rb:776 | `list.index(x)` is the first position holding `x`; it is in range exactly when `x` is listed |
| `Ordering.Rank` | sortLEFdata.rb:773-788 | the rank `sort_by_property_list` orders by: the position in the list, with every unlisted key after every listed one |
| `Ordering.SortByPropertyListIsRankOrder` | sortLEFdata.rb:773-788 | `sort_by_property_list` compares the ranks and falls back on the tie-breaker only for equal ranks; a listed key precedes an unlisted one, and an unlisted one follows a listed one |
| `Ordering.Insert` | sortLEFdata.rb:366-370 | one insertion step of the sort adds exactly one element |
| `Ordering.InsertPermutes` | sortLEFdata.rb:366-370 | an insertion adds exactly the inserted element to the multiset |
| `Ordering.InsertSorted` | sortLEFdata.rb:366-370 | under a total preorder, inserting into a sorted list keeps it sorted |
| `Ordering.SortBy` | sortLEFdata.rb:366-370 | `sort` with a comparator keeps the length |
| `Ordering.SortByPermutes` | sortLEFdata.rb:366-370 | the sorted list is a permutation of the input |
| `Ordering.SortBySorted` | sortLEFdata.rb:366-370 | under a total preorder the result is sorted |
| `Ordering.SortBySortedOn` | sortLEFdata.rb:366-370 | the result is sorted when the comparator is a total preorder on a set that holds every element, even if it is not one on all values |
| `Ordering.LexFlip` | sortLEFdata.rb:656-664 | a comparison walked element by element until the first non-tie, over a comparator that negates when its operands swap, negates when the two lists swap |
| `Ordering.LexTransitive` | sortLEFdata.rb:656-664 | for lists of equal length that walk is transitive when the element comparator is |
| `Ordering.AtMostLast` | sortLEFdata.rb:366-370 | in a sorted list every element compares at most equal to the last one |
| `Ordering.AppendSorted` | sortLEFdata.rb:366-370 | appending an element that is not smaller than the last keeps a list sorted |
| `Ordering.SortByOfSorted` | sortLEFdata.rb:366-370 | sorting a sorted list leaves it unchanged |
| `Ordering.SortByIdempotent` | sortLEFdata.rb:366-370 | sorting twice is sorting once, so a second `sort!` changes nothing |
| `Ordering.SameLast` | sortLEFdata.rb:366-370 | two sorted arrangements of the same multiset under an antisymmetric comparator end with the same element |
| `Ordering.DropLastOfBoth` | sortLEFdata.rb:366-370 | after removing that common last element, both lists are still sorted arrangements of the same multiset |
| `Ordering.SortedArrangementUnique` | sortLEFdata.rb:366-370 | two sorted arrangements of the same multiset under an antisymmetric comparator are equal |
| `Ordering.SortByUnique` | sortLEFdata.rb:366-370 | under a strict total order, any sorted permutation is the sort's result, so an unstable sort could not have produced another order |
| `Ordering.StringOrderStrictTotal` | sortLEFdata.rb:369 | `String#<=>` is a strict total order |
| `Ordering.RankedCompareStrictTotal` | sortLEFdata.rb:364-370 | `sort_by_property_list` with the whole-line `<=>` as tie-breaker is a strict total order on lines |
| `Ordering.RankedSortedRanks` | sortLEFdata.rb:739-744 | in a list sorted this way the ranks never decrease, and no listed key follows an unlisted one |
| `Ordering.FlatMapInsert` | sortLEFdata.rb:533-535 | printing each element of an inserted list prints the old lines plus the new element's |
| `Ordering.FlatMapSortBy` | sortLEFdata.rb:533-535 | printing the elements of a sorted list prints a permutation of the unsorted list's lines |
| `Hashes.KeysOf` | sortLEFdata.rb:197 | `Hash#keys` lists the keys in insertion order |
| `Hashes.ValuesOf` | sortLEFdata.rb:184 | `each_value` visits the values in insertion order |
| `Hashes.Lookup` | sortLEFdata.rb:1063 | `h[k]` is nil exactly when `k` is not a key |
| `Hashes.LookupEntry` | sortLEFdata.rb:1063 | with distinct keys, looking up an entry's key gives that entry's value |
| `Hashes.Put` | sortLEFdata.rb:164 | `h[k] = v` keeps the size and the key order for an existing key, and appends `(k, v)` for a new key |
| `Hashes.PutLookup` | sortLEFdata.rb:164 | after `h[k] = v`, `h[k]` is `v` and every other key keeps its value |
| `Hashes.PutDistinct` | sortLEFdata.rb:164 | `h[k] = v` keeps the keys distinct |
| `Hashes.PutKeys` | sortLEFdata.rb:164 | `h[k] = v` loses no key and adds `k` |
| `Hashes.MapValues` | sortLEFdata.rb:184 | `each_value` applying `sort!` keeps the keys and their order, and replaces each value by its sorted form |
| `Hashes.LookupMapValues` | sortLEFdata.rb:184 | after that, looking up a key gives the sorted form of its old value |
| `Hashes.LookupAllMapValues` | sortLEFdata.rb:197-200 | printing the values of a key list after a print-permuting `sort!` prints a permutation of the lines printed before |
| `Findings.Push` | sortLEFdata.rb:129 | `errors[c].push(m)` appends `m` to category `c` and leaves every other category alone |
| `Findings.PushAll` | sortLEFdata.rb:797-799 | pushing a list of messages appends them in order to one category and leaves the others alone |
| `Findings.Keys` | sortLEFdata.rb:219-224 | the values a frequency table has counted, in first-seen order |
| `Findings.Register` | sortLEFdata.rb:219-224 | `register_property` keeps the size for a known value, appends `(v, [m])` for a new one, keeps the key order, and never leaves a value without messages |
| `Findings.RegisterUpdates` | sortLEFdata.rb:219-224 | after `register_property`, the list of `v` has gained `m`, every other list is unchanged, and the values stay distinct |
| `Findings.RegisterAtLast` | sortLEFdata.rb:219-224 | the same when `v` is the last value counted |
| `Findings.RegisteredBeforeLast` | sortLEFdata.rb:219-224 | an update before a last entry that holds another value extends past that entry |
| `Findings.RegisterNew` | sortLEFdata.rb:219-224 | the same when `v` was never seen |
| `Findings.RegisterIn` | sortLEFdata.rb:285-313 | registering into one of the run-wide tables changes that table alone |
| `Findings.RegisterInValid` | sortLEFdata.rb:285-313 | registering keeps every table's values distinct and their message lists non-empty |
| `Findings.RareFromMembership` | sortLEFdata.rb:796-802 | a message is reported exactly when it belongs to a value counted fewer times than the cutoff |
| `Findings.RareFromBounded` | sortLEFdata.rb:796-802 | no more messages are reported than were counted, and a zero cutoff reports none |
| `Findings.RareMessagesMeaning` | sortLEFdata.rb:790-804 | `check_for_uncommon_properties` reports a message exactly when its value occurs fewer than ((total / number of values) / 5) times, in integer division; an empty table reports nothing |
| `Findings.TotalUniform` | sortLEFdata.rb:793-795 | when every value occurs `c` times, the total is the number of values times `c` |
| `Findings.UniformTableNotRare` | sortLEFdata.rb:790-804 | when every value occurs equally often, nothing is reported |
| `Findings.NothingBelow` | sortLEFdata.rb:796-802 | when no value is below the cutoff, nothing is reported |
| `Findings.OnceInHundredOverTwentyNotRare` | sortLEFdata.rb:797 | with 100 uses over 20 values the cutoff is 1, and the comparison is strict, so a value used once is not reported |
| `Comments.HashAt` | sortLEFdata.rb:954 | the first `#` of the line, which `line.match(/\#/)` looks for; it is past the end exactly when the line holds no `#` |
| `Comments.LineEnd` | sortLEFdata.rb:956 | where the `.*` of the comment pattern stops: the first newline at or after the index, or the end |
| `Comments.StripComment` | sortLEFdata.rb:956 | the `gsub` leaves no `#`, never lengthens the line, and leaves a line without `#` unchanged |
| `Comments.StripCommentOfLine` | sortLEFdata.rb:956 | on a line as `readlines` gives it, the result is the text before the first `#` without its trailing white space, then the line's newline if it had one |
| `Comments.CommentLineBecomesBlank` | sortLEFdata.rb:956 | a line whose first non-blank character is `#` becomes blank, so `get_current_line` skips it |
| `Comments.CodeBeforeCommentKept` | sortLEFdata.rb:956 | a line with text before its comment stays non-blank and keeps that text, less its trailing white space |
| `Comments.StripComments` | sortLEFdata.rb:950-959 | the stripped file has as many lines as the file read, so line numbers are kept; no line holds a `#`, and lines without one are untouched |
| `Comments.CommentLog` | sortLEFdata.rb:951-955 | the entries collected from the first `n` lines: empty exactly when none of them holds a `#`, and at most one entry per line |
| `Comments.CommentLogComplete` | sortLEFdata.rb:953-955 | every line holding a `#` has its entry, with its one-based number and its chomped text |
| `Comments.CommentLogSound` | sortLEFdata.rb:953-955 | every entry of the listing is the entry of a line holding a `#` |
| `Comments.StripCommentAt` | sortLEFdata.rb:954-957 | one turn of the loop: the line becomes its stripped form, no other line changes, and its entry is collected exactly when it holds a `#` |
| `Comments.StripCommentLines` | sortLEFdata.rb:950-959 | the loop over the lines rewrites the array in place to `StripComments` of the lines read, and collects `CommentLog` of them |
| `Lines.SkipBlank` | sortLEFdata.rb:806-820 | the loop of `get_current_line` stops at the first non-blank line at or after the index, or at the end of the file, passing only blank lines |
| `Lines.Current` | sortLEFdata.rb:806-820 | `get_current_line` never returns a blank line |
| `Lines.Next` | sortLEFdata.rb:822-826 | `get_next_line` always moves the index forward |
| `Lines.SkipBlankSettles` | sortLEFdata.rb:806-820 | a second `get_current_line` stays put, and it returns nil exactly when only blank lines remain |
| `Lines.Fixed` | sortLEFdata.rb:126-131 | a line whose last non-blank is a semicolon glued to text has that semicolon and the trailing whitespace replaced by ` ;\n`; every other line is left alone |
| `Lines.NoteSemicolon` | sortLEFdata.rb:126-130 | a glued semicolon files the one-based line number under `line_ending_semicolons`, and no other category changes |
| `Lines.FixSettles` | sortLEFdata.rb:126-131 | a repaired line needs no further repair and keeps the text before the semicolon |
| `Lines.FixKeepsText` | sortLEFdata.rb:126-131 | the repair never makes a line blank |
| `Geometry.FirstWordIndex` | sortLEFdata.rb:595 | `split(/\w/)[0]` ends at the first word character |
| `Geometry.MapNormalize` | sortLEFdata.rb:598-605 | each of the four fields is rewritten on its own |
| `Geometry.NormalizeFieldMeaning` | sortLEFdata.rb:598-605 | a field with a four-digit fraction is kept; any other field becomes the same number with three decimals; a token stays a token; rewriting twice is rewriting once |
| `Geometry.FieldsTokens` | sortLEFdata.rb:598-606 | the rewritten fields followed by ` ;` split into the rewritten fields and `;` |
| `Geometry.FieldsStable` | sortLEFdata.rb:598-605 | writing already rewritten fields gives the same text |
| `Geometry.TwoTokensHaveSpace` | sortLEFdata.rb:595 | a line of two or more tokens holds a non-word character, so `split(/\w/)[0]` is not nil |
| `Geometry.FirstWordOfWordLed` | sortLEFdata.rb:595 | for a line whose first non-blank is a word character, the text before the first word character is its indentation |
| `Geometry.IndentBeforeFirstWord` | sortLEFdata.rb:595 | the rewrite keeps the line's indentation |
| `Geometry.FirstTokenWordLed` | sortLEFdata.rb:594-597 | such a line's first token is its first word |
| `Geometry.CoordinateTokens` | sortLEFdata.rb:594-606 | a rewritten line splits into its keyword, its rewritten fields and `;` |
| `Geometry.NormalizeCoordinateShape` | sortLEFdata.rb:593-606 | the rewrite of a coordinate line is its indentation, its keyword, the four rewritten fields and ` ;\n`; its tokens are the keyword, the rewritten fields and `;` |
| `Geometry.FieldTokens` | sortLEFdata.rb:598 | the four fields `coordinate_pieces[1..4]` are tokens |
| `Geometry.RewriteOfRewritten` | sortLEFdata.rb:593-606 | rewriting a rewritten line rewrites its fields again and nothing else |
| `Geometry.NormalizeCoordinateIdempotent` | sortLEFdata.rb:593-606 | the coordinate rewrite is idempotent: a second pass over the tool's own output changes nothing |
| `Geometry.NormalizeCoordinate` | sortLEFdata.rb:593-606 | the rewrite fails on nil exactly for a line of fewer than five tokens or of word characters only |
| `Geometry.CompareReal` | sortLEFdata.rb:631-634 | `Float#<=>` is negative, zero or positive exactly when the first value is smaller, equal or larger |
| `Geometry.ZipCompare` | sortLEFdata.rb:629-636 | the `zip` loop returns -1, 0 or 1 |
| `Geometry.ZipCompareFirstDifference` | sortLEFdata.rb:629-636 | the `zip` loop returns 0 exactly when every field of `a` equals as a float the field of `b` at the same place, a missing field reading as 0.0; otherwise it returns the float comparison at the first place where they differ |
| `Geometry.ZipCompareAntisymmetric` | sortLEFdata.rb:629-636 | for lines of equal length, swapping them negates the result |
| `Geometry.ZipCompareTransitive` | sortLEFdata.rb:629-636 | for lines of equal length the `zip` loop is transitive |
| `Geometry.CoordSort` | sortLEFdata.rb:621-640 | `coordSort` returns -1, 0 or 1 |
| `Geometry.CoordSortAntisymmetric` | sortLEFdata.rb:621-640 | for lines with equally many tokens, `coordSort(b, a)` is `-coordSort(a, b)` |
| `Geometry.CoordSortTransitive` | sortLEFdata.rb:621-640 | for lines with equally many tokens, `coordSort` is transitive |
| `Geometry.CoordSortSignedPreorder` | sortLEFdata.rb:621-640 | on lines with a given number of tokens, `coordSort` negates when its operands swap and is transitive, so it can sort them |
| `Geometry.CoordinatesSorted` | sortLEFdata.rb:615-620 | coordinate lines that all have the same number of tokens come out of the sort in `coordSort` order |
| `Geometry.CoordinatesCompare` | sortLEFdata.rb:656-664 | the coordinate loop of `Layer.compare_to` returns -1, 0 or 1 |
| `Geometry.CoordinatesCompareFirstDifference` | sortLEFdata.rb:656-664 | the loop returns 0 exactly when `coordSort` ties at every position; otherwise it returns `coordSort` at the first position that does not tie |
| `Geometry.CoordinatesCompareIsLex` | sortLEFdata.rb:656-664 | the coordinate loop is the element-by-element walk with `coordSort` |
| `Geometry.LayerCompareSignedPreorder` | sortLEFdata.rb:652-666 | on layers whose coordinate lines have one width, `Layer.compare_to` negates when its operands swap and is transitive |
| `Geometry.LayerCompare` | sortLEFdata.rb:652-666 | `Layer.compare_to` returns -1, 0 or 1, and puts the layer with fewer coordinate lines first |
| `Geometry.KeyListCompare` | sortLEFdata.rb:746-761 | the name loop of `LayerCollection.compare_to` returns -1, 0 or 1 |
| `Geometry.KeyListCompareZero` | sortLEFdata.rb:746-761 | the name loop returns 0 exactly for equal name lists, and swapping the lists negates it |
| `Geometry.KeyListComparePrefix` | sortLEFdata.rb:749-760 | a name list that is a proper prefix of the other compares as larger (1), and the longer one as smaller (-1), as the nil checks are written |
| `Geometry.KeyListCompareFirstDifference` | sortLEFdata.rb:752-754 | at the first differing name, the result is that pair's string comparison |
| `Geometry.KeyListCompareTransitive` | sortLEFdata.rb:746-761 | the name loop is transitive |
| `Geometry.SortedKeys` | sortLEFdata.rb:746-747 | `keys.sort` is a sorted permutation of the keys |
| `Geometry.SortedNames` | sortLEFdata.rb:746-747 | the same for a block's layer names |
| `Geometry.CollectionCompareMeaning` | sortLEFdata.rb:745-770 | `LayerCollection.compare_to` orders blocks by their sorted layer names: a proper prefix compares as larger, the first differing name decides, and equal name lists defer to the layers |
| `Geometry.CollectionCompare` | sortLEFdata.rb:745-770 | `LayerCollection.compare_to` returns -1, 0 or 1 |
| `Geometry.LayersCompare` | sortLEFdata.rb:764-769 | the layer loop of `compare_to` returns -1, 0 or 1 |
| `Geometry.LayersCompareFirstDifference` | sortLEFdata.rb:764-769 | for equal name lists, the result is 0 exactly when every pair of same-named layers ties; otherwise it is the comparison of the first pair, in sorted name order, that does not tie |
| `Geometry.LayersCompareIsLex` | sortLEFdata.rb:764-769 | the layer loop is the element-by-element walk with `Layer.compare_to` over the layers in sorted name order |
| `Geometry.LayersAtWidth` | sortLEFdata.rb:764-769 | those layers keep the block's one width of coordinate lines |
| `Geometry.SameNamesCompare` | sortLEFdata.rb:745-770 | for blocks with the same layer names, `compare_to` is the walk over their layers in sorted name order |
| `Geometry.CollectionCompareFlip` | sortLEFdata.rb:745-770 | on blocks whose coordinate lines have one width, swapping the operands of `compare_to` negates the result |
| `Geometry.CollectionCompareTransitive` | sortLEFdata.rb:745-770 | on such blocks `compare_to` is transitive |
| `Geometry.CollectionCompareSignedPreorder` | sortLEFdata.rb:745-770 | so on blocks of one width `compare_to` can sort them |
| `Geometry.CollectionsSorted` | sortLEFdata.rb:510-513 | ports whose coordinate lines all have one width come out of the sort in `compare_to` order |
| `Geometry.SortLayer` | sortLEFdata.rb:615-620 | `Layer.sort!` keeps the `LAYER` line and the name, permutes the coordinate lines, and leaves them in `coordSort` order when they all have the same number of tokens, as rewritten lines do |
| `Geometry.SortCollection` | sortLEFdata.rb:722-724 | `LayerCollection.sort!` keeps the block's lines and its layer names in their order |
| `Geometry.PrintLayer` | sortLEFdata.rb:641-647 | `Layer.print` writes the `LAYER` line, then the coordinate lines |
| `Geometry.LayerOrder` | sortLEFdata.rb:727 | the print order of layers is a permutation of the names, sorted by `layer_name_sort` |
| `Geometry.LayerOrderRanks` | sortLEFdata.rb:739-744 | in print order the layer-order positions never decrease, and unlisted layers come last |
| `Geometry.PrintCollection` | sortLEFdata.rb:725-732 | `LayerCollection.print` starts with the `OBS`/`PORT` line and ends with the block's end line |
| `Geometry.SortCollectionPrintsSameLines` | sortLEFdata.rb:722-732 | after `sort!` a block prints a permutation of the lines it printed before |
| `Macros.LeadingWord` | sortLEFdata.rb:364-365 | the key `/\A\s*([\w\d_]+)/` captures: the longest run of word characters at the start |
| `Macros.SortPin` | sortLEFdata.rb:510-526 | `Pin.sort!` keeps the pin's lines and name; it permutes the ports, the properties and the `PROPERTY` lines; the properties end up sorted by the pin property order, the `PROPERTY` lines by string order, and the ports in `compare_to` order when their coordinate lines all have one width |
| `Macros.SortCell` | sortLEFdata.rb:358-372 | `Cell.sort!` keeps the cell's lines, name, pin names and obstruction; its properties end up a permutation sorted by the cell property order, and its `PROPERTY` lines a permutation in string order |
| `Macros.SortLef` | sortLEFdata.rb:183-185 | `LEF_File.sort!` keeps the header, the definitions, the end line and the cell names |
| `Macros.PinPropertiesRanked` | sortLEFdata.rb:515-519 | after `Pin.sort!`, listed property keys appear in list order, and unlisted ones after all listed ones |
| `Macros.CellPropertiesRanked` | sortLEFdata.rb:364-370 | the same for cell properties |
| `Macros.PinPropertySortCanonical` | sortLEFdata.rb:515-519 | any arrangement of the pin properties sorted by that comparator is exactly the one `sort!` gives, so the order does not depend on the sorting algorithm |
| `Macros.CellPropertySortCanonical` | sortLEFdata.rb:364-370 | the same for cell properties |
| `Macros.PrintPin` | sortLEFdata.rb:527-541 | `Pin.print` starts with the `PIN` line and ends with its `END` line |
| `Macros.PrintCell` | sortLEFdata.rb:373-395 | `Cell.print` starts with the `MACRO` line and ends with an empty line |
| `Macros.PrintLef` | sortLEFdata.rb:186-202 | `LEF_File.print` starts with the header as read |
| `Macros.SortPinPrintsSameLines` | sortLEFdata.rb:510-541 | after `Pin.sort!` the pin prints a permutation of the lines it printed before |
| `Macros.SortCellPrintsSameLines` | sortLEFdata.rb:358-395 | the same for a cell |
| `Macros.SortLefPrintsSameLines` | sortLEFdata.rb:183-202 | the same for the whole file: sorting only re-orders lines, and loses or adds none |
| `Parsing.NamesMembership` | sortLEFdata.rb:485-492 | a property key has been seen exactly when some property line has it as its upper-cased first token |
| `Parsing.NamesAppend` | sortLEFdata.rb:478 | pushing a property line adds its key to the keys seen |
| `Parsing.Coordinates` | sortLEFdata.rb:587-613 | the coordinate loop stops at a line containing `LAYER` or `END`, and files only semicolon findings |
| `Parsing.LayerName` | sortLEFdata.rb:563-569 | a layer is read only from a line that `Layer.start_line?` accepts |
| `Parsing.LayerStartShape` | sortLEFdata.rb:559-561 | `Layer.start_line?` accepts `LAYER` after any indentation |
| `Parsing.CollectionStartShapes` | sortLEFdata.rb:678-680 | `LayerCollection.start_line?` accepts `OBS` after any indentation, and `PORT` anywhere in a line, because the alternation anchors only `OBS` |
| `Parsing.LayerFrom` | sortLEFdata.rb:562-614 | `Layer.new` consumes its lines, keeps the `LAYER` line and name as read, leaves the tables alone, and files the line under `unknown_layer` exactly when the name's first word is not in the active layer order |
| `Parsing.LayerSpec` | sortLEFdata.rb:562-614 | `Layer.new` moves forward, leaves the tables alone, and files nothing below the layer level |
| `Parsing.CollectionLayers` | sortLEFdata.rb:714-720 | the layer loop of `LayerCollection.new` moves forward and files nothing below the layer level |
| `Parsing.CollectionSpec` | sortLEFdata.rb:705-721 | `LayerCollection.new` moves forward, leaves the tables alone, and files only layer-level findings |
| `Parsing.PinProperty` | sortLEFdata.rb:469-493 | one pin property line files findings only at the pin level, keeps the ports, and keeps the seen keys equal to the keys of the property lines |
| `Parsing.PinLoop` | sortLEFdata.rb:460-497 | the pin loop stops at the pin's `END <name>` line and files nothing above the pin level |
| `Parsing.PinName` | sortLEFdata.rb:444-453 | a pin is read only from a line that `Pin.start_line?` accepts |
| `Parsing.PinStartShape` | sortLEFdata.rb:434-436 | `Pin.start_line?` accepts `PIN` and white space after any indentation |
| `Parsing.PinEndShape` | sortLEFdata.rb:461 | the pin loop ends at `END <name>` after any indentation, whatever follows the name |
| `Parsing.PinFrom` | sortLEFdata.rb:443-509 | `Pin.new` keeps the `PIN` line and moves forward |
| `Parsing.PinSpec` | sortLEFdata.rb:443-509 | `Pin.new` starts at the current line, keeps it, and moves forward |
| `Parsing.PinEnd` | sortLEFdata.rb:498-508 | the end of `Pin.new`: the pin keeps what was read, the index moves past the `END` line, and `missing_direction` and `missing_use` each gain the pin's message exactly when that key was never seen |
| `Parsing.PinMissingFindings` | sortLEFdata.rb:498-506 | a parsed pin files `missing_direction` (or `missing_use`) exactly when none of its property lines has that key |
| `Parsing.Unless` | sortLEFdata.rb:332-346 | a required-property check adds nothing exactly when the property was seen |
| `Parsing.CellProperty` | sortLEFdata.rb:268-325 | one cell property line files findings only at the cell-property level, keeps the pins and the obstruction, and keeps the seen keys equal to the keys of the property lines |
| `Parsing.CellLoop` | sortLEFdata.rb:258-327 | the cell loop stops at a line starting with `END` or at the next `MACRO`, and files nothing above the cell level |
| `Parsing.CellEndShapes` | sortLEFdata.rb:258 | the cell loop ends at `END` in the first column, and an indented `END` does not end it |
| `Parsing.RequiredFindings` | sortLEFdata.rb:332-346 | each of `missing_origin`, `missing_class`, `missing_symmetry`, `missing_site` and `missing_size` gains the cell's message exactly when its key was not seen |
| `Parsing.CellName` | sortLEFdata.rb:240-246 | a cell is read only from a `MACRO` line, and its name is that line's second token |
| `Parsing.CellFrom` | sortLEFdata.rb:234-357 | `Cell.new` moves forward and files nothing above the cell level |
| `Parsing.CellSpec` | sortLEFdata.rb:234-357 | the same, starting at the current line |
| `Parsing.CellEnd` | sortLEFdata.rb:332-356 | the end of `Cell.new`: the required-key findings; a `mangled_cell_end` finding for an `END` line that does not start with `END <name>`; a `missing_cell_end` finding, with no end line and no move, when the next `MACRO` came first |
| `Parsing.MangledFinding` | sortLEFdata.rb:350-352 | a mangled-end finding is filed exactly for an `END` line that does not begin with `END <name>` |
| `Parsing.CellMissingFindings` | sortLEFdata.rb:332-346 | a parsed cell files each required-key finding exactly when none of its property lines has that key |
| `Parsing.RequiredAtEnd` | sortLEFdata.rb:332-346 | the same, stated for the end step |
| `Parsing.CellEndFindings` | sortLEFdata.rb:348-356 | a cell with an end line has one that starts with `END`, and files one mangled-end finding exactly when it does not start with `END <name>`; a cell without one stopped at the next `MACRO` and filed `missing_cell_end` |
| `Parsing.EndOfCell` | sortLEFdata.rb:348-356 | the same, for the end step |
| `Parsing.EndCheckIsPrefix` | sortLEFdata.rb:351 | the end check is a prefix match: `END M10` passes for cell `M1`, and `END M2` does not |
| `Parsing.RepairedAppend` | sortLEFdata.rb:126-132 | pushing repaired lines keeps a list free of glued semicolons |
| `Parsing.HeaderLoop` | sortLEFdata.rb:124-134 | the header loop stops at `PROPERTYDEFINITIONS` or at a `MACRO` line, keeps only repaired lines, and files only semicolon findings |
| `Parsing.DefinitionsLoop` | sortLEFdata.rb:139-147 | the definitions loop stops at `END PROPERTYDEFINITIONS`, keeps only repaired lines, and files only semicolon findings |
| `Parsing.DefinitionsSpec` | sortLEFdata.rb:135-154 | without a definitions block, exactly one `missing_property_definitions` finding is filed and nothing else changes |
| `Parsing.TopLoop` | sortLEFdata.rb:155-175 | the cell loop files `missing_end_library_token` exactly once when input runs out before `END LIBRARY`, keeps the cell names distinct, and loses no cell name |
| `Parsing.TopCell` | sortLEFdata.rb:160-168 | one turn of that loop moves forward, keeps the cell names distinct, and adds at most one cell |
| `Parsing.RarityFindings` | sortLEFdata.rb:177-181 | the five rarity checks append the rare messages of each table to its `strange_*` category and touch nothing else |
| `Parsing.LefSpec` | sortLEFdata.rb:115-182 | a parsed LEF file has a repaired header and distinct cell names |
| `Parsing.LefDefinitionsFinding` | sortLEFdata.rb:135-154 | a LEF file files `missing_property_definitions` exactly when it has no definitions block |
| `Parsing.LefEndFinding` | sortLEFdata.rb:155-175 | a LEF file files `missing_end_library_token` exactly when it has no end line |
| `Parsing.LefRareFindings` | sortLEFdata.rb:177-181 | each `strange_*` category gains exactly the rare messages of the tables as they stand after the file |
| `Parsing.StrangeKept` | sortLEFdata.rb:177-181 | parsing below the file level never touches the `strange_*` categories |
| `Reader.LefReader.constructor` | sortLEFdata.rb:22-29 | a new reader starts at index 0 with the given lines, layer order, `errors` and tables |
| `Liberty.EntryList.constructor` | sortLEFdata.rb:1009-1034 | a new list holds the grep entries as given |
| `Reader.LefReader.CurrentLine` | sortLEFdata.rb:806-820 | `get_current_line` moves the index past blank lines and returns the line there, or nil at the end |
| `Reader.LefReader.NextLine` | sortLEFdata.rb:822-826 | `get_next_line` steps once, then does the same |
| `Reader.LefReader.ReadCoordinates` | sortLEFdata.rb:587-613 | the coordinate loop computes `Parsing.Coordinates`: the same lines, index and `errors`, or the same crash |
| `Reader.LefReader.ParseLayer` | sortLEFdata.rb:562-614 | `Layer.new` returns what `Parsing.LayerSpec` returns and leaves the reader in its state |
| `Reader.LefReader.ParseCollection` | sortLEFdata.rb:705-721 | `LayerCollection.new` computes `Parsing.CollectionSpec` |
| `Reader.LefReader.ParsePin` | sortLEFdata.rb:443-509 | `Pin.new` computes `Parsing.PinSpec` |
| `Reader.LefReader.ReadPinBody` | sortLEFdata.rb:460-497 | the pin loop computes `Parsing.PinLoop` |
| `Reader.LefReader.PinLine` | sortLEFdata.rb:461-496 | one pin-loop turn moves forward and leaves what remains of `Parsing.PinLoop` unchanged |
| `Reader.LefReader.FinishPin` | sortLEFdata.rb:498-508 | the end of `Pin.new` computes `Parsing.PinEnd` |
| `Reader.LefReader.ParseCell` | sortLEFdata.rb:234-357 | `Cell.new` computes `Parsing.CellSpec` |
| `Reader.LefReader.ReadCellBody` | sortLEFdata.rb:257-327 | the cell loop computes `Parsing.CellLoop` |
| `Reader.LefReader.CellLine` | sortLEFdata.rb:258-326 | one cell-loop turn moves forward and leaves what remains of `Parsing.CellLoop` unchanged |
| `Reader.LefReader.FinishCell` | sortLEFdata.rb:331-356 | the end of `Cell.new` computes `Parsing.CellEnd` |
| `Reader.LefReader.ReadHeader` | sortLEFdata.rb:123-134 | the header loop computes `Parsing.HeaderLoop` |
| `Reader.LefReader.ReadDefinitions` | sortLEFdata.rb:135-154 | the definitions block computes `Parsing.DefinitionsSpec` |
| `Reader.LefReader.ReadCells` | sortLEFdata.rb:155-175 | the cell loop of `LEF_File.new` computes `Parsing.TopLoop` |
| `Reader.LefReader.CellTurn` | sortLEFdata.rb:160-174 | one turn of that loop computes `Parsing.TopCell` |
| `Reader.LefReader.ParseLefFile` | sortLEFdata.rb:115-182 | `LEF_File.new` computes `Parsing.LefSpec`, including the rarity findings |
| `Reader.CheckForUncommonProperties` | sortLEFdata.rb:790-804 | the loops of `check_for_uncommon_properties` flag exactly `Findings.RareMessages` of the table |
| `Liberty.Advanced` | sortLEFdata.rb:1433-1445 | `advance_to_line` drops exactly the leading entries numbered below `n`: the result is a suffix, every dropped entry is below `n`, and the first kept one is not |
| `Liberty.LineNumberOf` | sortLEFdata.rb:1337 | the line number read from a `grep -n` entry is the number grep wrote before the colon |
| `Liberty.EntryList.Shift` | sortLEFdata.rb:1336 | `shift` returns and removes the first entry, or nil on an empty list |
| `Liberty.EntryList.AdvanceToLine` | sortLEFdata.rb:1433-1445 | the loop of `advance_to_line` leaves the list equal to `Advanced` |
| `Liberty.SplitNoColon` | sortLEFdata.rb:1358 | `split(': ')` of a string without a colon is that string |
| `Liberty.SplitAtFirstColon` | sortLEFdata.rb:1358 | `split(': ')` cuts at the first `: ` when the text before it has no colon |
| `Liberty.SplitAtFirstSeparator` | sortLEFdata.rb:1358 | `split(': ')` cuts at the first `: `, whatever colons not followed by a space come before it |
| `Liberty.NoColonInKeyPart` | sortLEFdata.rb:1358 | an indentation and key without colons, followed by a space, hold no colon, so the line number's `: ` is the first one |
| `Liberty.WithoutLineNumberOf` | sortLEFdata.rb:1019 | removing grep's `<n>:` prefix gives back the file line |
| `Liberty.PropertyValueReadsValue` | sortLEFdata.rb:1358 | the corrected extraction reads the value of `<n>:<indent><key> : <value>` |
| `Liberty.GrepValueAsWrittenReadsKey` | sortLEFdata.rb:1358 | as written, `split(': ')[1]` of an indented grep line is the indentation minus one space, the key and a space, not the value |
| `Liberty.GrepValueAsWrittenUnindented` | sortLEFdata.rb:1358 | as written, a grep line whose text does not start with a space (no indentation, or a tab) still yields the value |
| `Liberty.CellNameQuoted` | sortLEFdata.rb:1346 | a cell start line with a name in double quotes is named by the text between the first pair of quotes |
| `Liberty.CellNameParenthesised` | sortLEFdata.rb:1346-1349 | a cell start line without quotes is named by the text inside the first parentheses |
| `Liberty.ScrapedPin` | sortLEFdata.rb:1396-1422 | `Liberty_Pin.new` consumes exactly one pin start, advances the direction list to the pin's line, and takes at most its next entry, read as written or as intended |
| `Liberty.ScrapedPins` | sortLEFdata.rb:1362-1372 | the pin loop consumes exactly the leading pin starts numbered before the next cell |
| `Liberty.ScrapedCell` | sortLEFdata.rb:1333-1374 | `Liberty_Cell.new` consumes exactly one cell start |
| `Liberty.CellConsumption` | sortLEFdata.rb:1333-1374 | what one cell consumes: its start line; of the area lines, those before it and at most the next one, taken exactly when it lies before the next cell start; the pin starts before the next cell start. The cell is named from its start line, and its area is the value of the area line taken, as written or as intended |
| `Liberty.PinConsumption` | sortLEFdata.rb:1396-1422 | what one pin consumes: the direction lines numbered before the pin, and the next one exactly when it is the last pin or that line lies before the next pin start; the scrape fails exactly when no direction line is left at the pin's line; the pin is named from its start line and its direction is the value of the line taken |
| `Liberty.ScrapedFile` | sortLEFdata.rb:1038-1053 | scraping a file files every cell under its name and loses no name already filed |
| `Liberty.NewLibertyPin` | sortLEFdata.rb:1396-1422 | `Liberty_Pin.new` on the shifted arrays computes `ScrapedPin`, including the crash when the directions run out |
| `Liberty.PrecededNothing` | sortLEFdata.rb:1362-1372 | prefixing no pins to a pin-loop result changes nothing |
| `Liberty.PrecededTwice` | sortLEFdata.rb:1362-1372 | prefixing pins twice is prefixing their concatenation |
| `Liberty.PinsStep` | sortLEFdata.rb:1362-1372 | one pin-loop turn scrapes one pin and puts it before the rest |
| `Liberty.ReadPins` | sortLEFdata.rb:1361-1373 | the pin loop of `Liberty_Cell.new` computes `ScrapedPins` |
| `Liberty.NewLibertyCell` | sortLEFdata.rb:1333-1374 | `Liberty_Cell.new` on the four arrays computes `ScrapedCell` |
| `Liberty.ScrapeLibertyFile` | sortLEFdata.rb:1036-1053 | the scraping loop of `main` computes `ScrapedFile` |
| `CrossCheck.LibertyPinProperty` | sortLEFdata.rb:1423-1425 | a scraped pin answers only for `direction` |
| `CrossCheck.Unquoted` | sortLEFdata.rb:840 | `gsub(/["\n;]/, '')` leaves no quote, newline or semicolon, never lengthens the value, and every other character of the value appears in the result |
| `CrossCheck.UnquotedConcat` | sortLEFdata.rb:840 | the removal works character by character: the result for a concatenation is the concatenation of the results, so order and repetitions are kept |
| `CrossCheck.UnquotedChar` | sortLEFdata.rb:840 | a single character is removed exactly when it is a quote, a newline or a semicolon, and kept otherwise |
| `CrossCheck.Select` | sortLEFdata.rb:844 | `select` keeps exactly the elements that pass |
| `CrossCheck.CheckPinValueInLef` | sortLEFdata.rb:833-854 | it crashes exactly when the Liberty pin has no value for the key; otherwise it reports at most one message, and reports it exactly when some LEF property line starts with the upper-cased key and none of those lines contains the cleaned, upper-cased Liberty value |
| `CrossCheck.Append` | sortLEFdata.rb:1066-1069 | the `||= []` and `push` idiom appends to one key's list alone |
| `CrossCheck.AppendNested` | sortLEFdata.rb:1120-1126 | the same, one level down |
| `CrossCheck.LastWhere` | sortLEFdata.rb:1079-1086 | the last element that passes, or none exactly when none passes |
| `CrossCheck.LefArea` | sortLEFdata.rb:1075-1086 | a LEF cell's area is width times height from its last `SIZE` line, and nil exactly when it has none |
| `CrossCheck.MatchingPin` | sortLEFdata.rb:1108-1115 | the match is the last Liberty pin whose name equals the LEF pin's name ignoring case, none if there is no such pin, and a crash if any scraped pin has no name |
| `CrossCheck.ForwardPin` | sortLEFdata.rb:1108-1136 | one LEF pin touches neither the missing-cell nor the area findings |
| `CrossCheck.ForwardPins` | sortLEFdata.rb:1108-1136 | the same for all pins of a cell |
| `CrossCheck.ForwardPinMissing` | sortLEFdata.rb:1119-1126 | one LEF pin is listed as missing from a Liberty file exactly when no Liberty pin of that cell matches it |
| `CrossCheck.AppendNestedListed` | sortLEFdata.rb:1120-1126 | a file is listed under a cell and pin after the append exactly when it was before or is the one appended |
| `CrossCheck.ForwardPinsMissing` | sortLEFdata.rb:1108-1136 | across a cell's pins, a file is listed under (cell, pin) exactly when that LEF pin has no Liberty match there |
| `CrossCheck.LefDeclaresCons` | sortLEFdata.rb:1061-1062 | a cell is declared by a list of LEF files exactly when the first or one of the rest declares it |
| `CrossCheck.ForwardLibFilesMissingCells` | sortLEFdata.rb:1063-1069 | for one LEF cell, a Liberty file is listed as missing it exactly when that file has no cell of that name |
| `CrossCheck.ForwardCellsMissingCells` | sortLEFdata.rb:1062-1069 | the same across the cells of one LEF file |
| `CrossCheck.ForwardMissingCells` | sortLEFdata.rb:1061-1069 | over all LEF files, a Liberty file is listed under a cell exactly when some LEF file declares that cell and the Liberty file does not have it |
| `CrossCheck.SomeLefCellCons` | sortLEFdata.rb:1061-1062 | a LEF cell with a property exists in a list of LEF files exactly when it is in the first or in one of the rest |
| `CrossCheck.ForwardPairAreas` | sortLEFdata.rb:1072-1106 | for one LEF cell and one Liberty file, the file is listed under `area_mismatch` exactly when it has the cell and the LEF area is nil or differs from the Liberty area |
| `CrossCheck.ForwardLibFilesAreas` | sortLEFdata.rb:1063-1106 | the same across the Liberty files |
| `CrossCheck.ForwardCellsAreas` | sortLEFdata.rb:1062-1106 | the same across the cells of one LEF file |
| `CrossCheck.ForwardAreaMismatch` | sortLEFdata.rb:1061-1106 | over all LEF files, a Liberty file is listed under a cell's area mismatch exactly when some LEF file's cell of that name disagrees with it on area |
| `CrossCheck.ForwardPairPins` | sortLEFdata.rb:1108-1136 | for one LEF cell and one Liberty file, the file is listed under (cell, pin) exactly when the file has the cell and the LEF pin has no Liberty match in it |
| `CrossCheck.ForwardLibFilesPins` | sortLEFdata.rb:1063-1136 | the same across the Liberty files |
| `CrossCheck.ForwardCellsPins` | sortLEFdata.rb:1062-1136 | the same across the cells of one LEF file |
| `CrossCheck.ForwardMissingPins` | sortLEFdata.rb:1061-1136 | over all LEF files, a Liberty file is listed under (cell, pin) exactly when some LEF cell of that name has that pin and the file's cell has no pin matching it |
| `CrossCheck.SomePinReportsCons` | sortLEFdata.rb:1108-1136 | some pin of a list files a finding exactly when the first does or one of the rest does |
| `CrossCheck.ForwardPinsIncorrect` | sortLEFdata.rb:1108-1136 | across a cell's pins, a pin property finding is added exactly when some LEF pin has a Liberty match whose direction check files it |
| `CrossCheck.ForwardPairIncorrect` | sortLEFdata.rb:1063-1136 | for one LEF cell and one Liberty file, the findings added are those of its pins, and only when the file has the cell |
| `CrossCheck.ForwardLibFilesIncorrect` | sortLEFdata.rb:1063-1136 | the same across the Liberty files |
| `CrossCheck.ForwardCellsIncorrect` | sortLEFdata.rb:1062-1136 | the same across the cells of one LEF file |
| `CrossCheck.LefPinFindingCons` | sortLEFdata.rb:1061-1062 | a pin finding comes from a list of LEF files exactly when it comes from the first or from one of the rest |
| `CrossCheck.ForwardIncorrect` | sortLEFdata.rb:1061-1136 | over all LEF files, a message is a pin property finding exactly when some LEF cell's pin, checked against the matching pin of the same cell in some Liberty file, files it |
| `CrossCheck.SomeLefCons` | sortLEFdata.rb:1179 | a LEF file with a property exists in a list exactly when it is the first or one of the rest |
| `CrossCheck.NamedAmongCons` | sortLEFdata.rb:1194 | a pin name occurs in a list exactly when it is the first pin's name or occurs in the rest |
| `CrossCheck.BackwardPin` | sortLEFdata.rb:1192-1202 | one Liberty pin touches only the LEF missing-pin findings |
| `CrossCheck.BackwardPins` | sortLEFdata.rb:1191-1203 | the same for all pins of a Liberty cell, which crash exactly when some pin has no name |
| `CrossCheck.BackwardPinsMissing` | sortLEFdata.rb:1191-1203 | a Liberty file is listed under (cell, pin name) exactly when one of its pins has that name and the LEF cell has no pin with the upper-cased name |
| `CrossCheck.BackwardPairCells` | sortLEFdata.rb:1179-1187 | for one Liberty cell and one LEF file, the Liberty file is listed as missing the cell exactly when that LEF file lacks it |
| `CrossCheck.BackwardPairPins` | sortLEFdata.rb:1188-1204 | for one Liberty cell and one LEF file, the pin findings are those of `BackwardPinsMissing`, filed only when the LEF file has the cell |
| `CrossCheck.BackwardLefFilesCells` | sortLEFdata.rb:1179-1205 | across the LEF files, the Liberty file is listed as missing the cell exactly when some LEF file lacks it |
| `CrossCheck.BackwardLefFilesPins` | sortLEFdata.rb:1179-1205 | across the LEF files, a pin is listed exactly when some LEF file has the cell but not the upper-cased pin |
| `CrossCheck.BackwardCellsCells` | sortLEFdata.rb:1177-1206 | the same across the cells of one Liberty file |
| `CrossCheck.BackwardCellsPins` | sortLEFdata.rb:1177-1206 | the same for pins across the cells of one Liberty file |
| `CrossCheck.BackwardMissingCells` | sortLEFdata.rb:1174-1207 | over all Liberty files, a file is listed under a cell as missing from LEF exactly when the file has the cell and some LEF file lacks it |
| `CrossCheck.BackwardMissingPins` | sortLEFdata.rb:1174-1207 | over all Liberty files, a file is listed under (cell, pin) exactly when its cell names that pin and some LEF file has the cell without that upper-cased pin |
| `CrossCheck.CellLookupIsCaseSensitive` | sortLEFdata.rb:1063 | the cell lookup is case-sensitive: a Liberty cell `inv` does not answer for LEF cell `INV` |
| `CrossCheck.PinMatchingIsAsymmetric` | sortLEFdata.rb:1194 | the forward check matches pin names ignoring case, but the backward check looks up the upper-cased Liberty name, so a lower-case LEF pin `a` that the forward check matches is still reported missing from LEF |
| `CrossCheck.CellMessages` | sortLEFdata.rb:1141-1149 | one message per listed cell, in first-listed order, naming the cell and its files |
| `CrossCheck.PinsMessages` | sortLEFdata.rb:1217-1225 | one message per listed cell, naming its pins and their files |
| `CrossCheck.LefCellMessages` | sortLEFdata.rb:1209-1216 | one message per cell missing from LEF; it crashes exactly when the cell name is nil |
| `CrossCheck.LefCellMessagesAt` | sortLEFdata.rb:1209-1216 | the message of each cell names it and lists its Liberty files, one per line |
| `CrossCheck.LastAssigned` | sortLEFdata.rb:1151-1157 | a variable reassigned in a loop holds the last iteration's value, or its initial value when the loop does not run |
| `CrossCheck.AreaReportKeepsLastCell` | sortLEFdata.rb:1150-1159 | as written, the `area_mismatch` report is at most one message, and it is the last cell's |
| `CrossCheck.PinsReportKeepsLastCell` | sortLEFdata.rb:1160-1172 | as written, the `liberty_missing_pin` report is at most one message, and it is the last cell's |
| `CrossCheck.AreaReportDropsFirstCell` | sortLEFdata.rb:1150-1159 | two mismatching cells `A` and `B`: as written only `B` is reported, while the corrected report names both |
| `CrossCheck.Reported` | sortLEFdata.rb:1141-1226 | the reports append to the six cross-check categories only, and every category only grows |
| `CrossCheck.Reconcile` | sortLEFdata.rb:1058-1226 | the reconciliation only appends to the `errors` hash, and leaves every category that is not a cross-check category as it was; `lefs` are the LEF files after `sort!`, as the tool cross-checks them (sortLEFdata.rb:972) |
| `CrossCheck.ListedKey` | sortLEFdata.rb:1141-1149 | a file listed under a key means the key is in the table |
| `CrossCheck.ReconcileIncorrectPinProperty` | sortLEFdata.rb:1058-1136 | `liberty_incorrect_pin_property` gains the pin findings of the first loop in order, and a message is among them exactly when some LEF cell's pin check against some Liberty file files it |
| `CrossCheck.ReconcileLibertyMissingCell` | sortLEFdata.rb:1058-1149 | `liberty_missing_cell` gains one message per cell of the missing-cell table, naming it and its files; a Liberty file is among the files of cell `c` exactly when some LEF file declares `c` and the Liberty file has no cell of that exact name |
| `CrossCheck.ReconcileAreaMismatch` | sortLEFdata.rb:1058-1159 | as written, `area_mismatch` gains one message, that of the last cell of the mismatch table, or none when the table is empty; intended, one message per cell. A Liberty file is listed under cell `c` exactly when its cell `c` has an area that differs from that of some LEF cell `c` |
| `CrossCheck.ReconcileLibertyMissingPin` | sortLEFdata.rb:1058-1172 | as written, `liberty_missing_pin` gains one message, that of the last cell of the table; intended, one per cell. A Liberty file is listed under (cell `c`, pin `p`) exactly when some LEF cell `c` has pin `p` and the file's cell `c` has no pin matching it ignoring case |
| `CrossCheck.ReconcileLefMissingCell` | sortLEFdata.rb:1174-1216 | `lef_missing_cell` gains one message per cell of the table, every key being a name; a Liberty file is listed under name `k` exactly when it has a cell named `k` and some LEF file has no cell of exactly that name |
| `CrossCheck.ReconcileLefMissingPin` | sortLEFdata.rb:1174-1225 | `lef_missing_pin` gains one message per cell of the table; a Liberty file is listed under (cell `c`, pin `n`) exactly when its cell `c` has a pin named `n` and some LEF file has cell `c` without a pin named `n` upper-cased |
| `CrossCheck.ReconcileReportsLibertyMissingCell` | sortLEFdata.rb:1058-1149 | a cell declared in some LEF file and absent from some Liberty file yields a `liberty_missing_cell` message for that cell that lists the file |

## Left out

- Reading files, and running `grep`/`egrep`, are not modelled. A LEF file is
  its sequence of lines as `readlines` gives them, each line ending in its
  newline. `Comments.StripCommentLines` takes those lines. The parsers
  (`Parsing.LefSpec`, `Reader.LefReader.ParseLefFile`) take the lines it
  leaves, `Comments.StripComments` of them, as `LEF_File.new` does at
  sortLEFdata.rb:971. A Liberty file is the four `grep -n` listings.
- Writing the `<file>_comments` file (sortLEFdata.rb:960-967) is not
  modelled. Its lines are `Comments.CommentLog`, and it is written exactly
  when that list is not empty.
- Writing files and the console are not modelled. `print` is the sequence of
  lines it writes. `puts` diagnostics, `$log` debugging and the final report
  that prints `errors` are left out.
- Option parsing is not modelled.
- The active layer order is a parameter of the reader. The built-in orders,
  `layer_order=` and `use_tlef_layers` are left out.
- `TF_File`, `TLEF_File`, `get_layers_from_tlef`, `DdcScanner`,
  `find_ddc_dirs.rb`, `lef_area.rb`, `lef_layer_blockage_count.rb`,
  `tf_parse.rb` and `tlef_parse.rb` are not part of this model.
- `to_f` is modelled as the exact decimal value of the leading numeric text.
  Exponents, underscores and binary floating-point rounding are left out.
  `"%.3f"` is only reached by fields with at most three fraction digits,
  where it does not round.
- `to_i` reads only the leading digits. Line numbers from `grep -n` never
  carry a sign.
- Regular expressions are written out as predicates, on lines that hold one
  newline at most, at their end.
- `CrossCheck.CheckPinValueInLef`: the Liberty value is treated as literal
  text. `Regexp` metacharacters in it, other than the quotes, newlines and
  semicolons that are removed, are not interpreted.
- `sort!` and the other in-place updates of the object tree are modelled as
  functions that return the re-ordered value. Every object has one owner,
  so no alias can observe the difference.
- `Ordering.SortBy` is a stable insertion sort, whereas Ruby's `sort` is not
  stable:
  - The order is unique, and proved to be, whenever the comparator is a
    strict total order. This covers the property lines, the `PROPERTY`
    lines, the layer names and `keys.sort`.
  - For coordinate lines under `coordSort` and ports under `compare_to`,
    different lines can tie, and then the model fixes one order among them.
- `Liberty.NewLibertyCell`, `Liberty.ReadPins`, `Liberty.NewLibertyPin` and
  `Liberty.ScrapeLibertyFile` require the four arrays to be distinct
  objects. The source always passes four different arrays, so the aliasing
  of one list with another is not modelled.
- `raise` and the calls on nil are modelled as a `Failure` with the reason,
  for example `nil.split` when the directions run out. The interpreter's
  exception is not modelled.
- The empty-hash shortcut of `Liberty_Pin.new` is not modelled separately:
  `pin_properties.empty?` is always false, because that hash always holds
  the `direction` key.
- Text.Upper: upper-cases the ASCII letters `a`-`z` only. Ruby's `upcase`
  also maps other Unicode letters; LEF and Liberty names are ASCII.
- Geometry.SortLayer and Macros.SortPin: sortedness is stated only when all
  the coordinate lines being sorted have the same number of tokens. Only
  then is `coordSort` a total preorder. Rewritten coordinate lines always
  have six tokens (`Geometry.NormalizeCoordinateShape`). For other lines the
  result is a permutation, but no order is claimed.
- Parsing.PinSpec / Reader.LefReader.ParsePin: as written, the `$log.debug`
  call at sortLEFdata.rb:455 ends in a `/` that continues onto line 457, so
  every `Pin.new` divides the logger's result by an array and raises, and
  any LEF file with a PIN stops the parse. The `/` is read as a stray
  character of the log call, and `Pin.new` is modelled as if it were absent.
- CrossCheck.Reconcile: as written, `sortLEFdata.rb` does not parse, so
  nothing in it runs. The `end` at sortLEFdata.rb:911 closes `def main`
  (871) early. The blocks between 912 and 1326 balance each other, so the
  `end` at 1327 closes nothing and Ruby rejects the file. The model follows
  the evident intent, with `main` closing at 1327. The reconciliation is
  modelled as a function over the parsed and sorted LEF files and the
  scraped Liberty files.
- Accessors that only return a field (`cells`, `pins`, `properties`, `name`,
  `[]`) are not separate members.

## Findings

| source | as written | input that shows it | evidently intended | confidence | as-written member | corrected member |
|---|---|---|---|---|---|---|
| sortLEFdata.rb:1358 and sortLEFdata.rb:1419 | `split(': ')[1]` is applied to the whole `grep -n` line. When the property line is indented with spaces, the first `: ` is the one after grep's `<n>:` prefix, so the value read is the indentation less one space, the key and a space | `12:      direction : input ;` yields `     direction ` rather than `input ;`. Its upper-case form is then looked for in the LEF pin's `DIRECTION` lines, so the outcome depends on how deeply the two files are indented, not on the directions: against `    DIRECTION INPUT ;` the pin is reported although both say input, and with shallower Liberty indentation nothing is reported whatever the directions. Lines without indentation or indented with a tab are read correctly | the value after the property's own `: `, once grep's prefix is removed | not executed | `Liberty.GrepValueAsWrittenReadsKey`, `Liberty.GrepValueAsWrittenUnindented` (the scraper members under `AsWritten`) | `Liberty.PropertyValueReadsValue` (the scraper members under `Intended`) |
| sortLEFdata.rb:1150-1172 | `area_mismatch_msg` and `liberty_missing_pin_msg` are reassigned for each cell, and pushed once after the loop | area mismatches in cells `A` and `B` produce only `B:\n\tx.lib\n` | one message per cell, as for `liberty_missing_cell` and `lef_missing_pin` | not executed | `CrossCheck.AreaReportDropsFirstCell`, `CrossCheck.AreaReportKeepsLastCell`, `CrossCheck.PinsReportKeepsLastCell`, `CrossCheck.ReconcileAreaMismatch` and `CrossCheck.ReconcileLibertyMissingPin` under `AsWritten` | `CrossCheck.CellMessages`, `CrossCheck.PinsMessages`, and `CrossCheck.ReconcileAreaMismatch` and `CrossCheck.ReconcileLibertyMissingPin` under `Intended` |
