# setsumei, modelled in Dafny

setsumei turns entries of a MySQL slow-query log into `EXPLAIN` statements and renders
the query plans MySQL returns as one aligned, optionally compacted and colored table.
This project models its three pieces of real logic and proves properties of them:

- **Placeholder substitution** (`fill_placeholders`). A logged statement has its literals
  replaced by `N` and `'S`. The statement is scanned left to right for the three
  alternatives of the case-insensitive pattern:
  - `LIMIT` or `OFFSET` and whitespace, or a comparison and optional whitespace, then `N`;
  - `N`, optionally followed by whitespace and a comparison;
  - an optional `LIKE` and whitespace, a quote, then `S`.

  Each match takes the next column number. It gets the `(row, column)` override if there
  is one, and otherwise a value chosen from the matched prefix and postfix text. Only the
  token is replaced.
- **Query assembly** (the non-I/O part of `generate_explain_query`). The log text is cut
  at every `"\n\n"`. A blank entry becomes `EXPLAIN ;`. Every other entry must start with
  a `Count` line; its statement lines are joined and filled with the entry's index as row.
  Each statement becomes one whitespace-collapsed `EXPLAIN ...;` line.
- **Table formatting** (`format_response` and `Array#soft_transpose`). A counter tracks
  the `id ...` header lines. Only the first header is kept, and every other line is
  labelled `[i]`. Columns are padded to their widest present cell. In compact mode the
  header is abbreviated, `NULL`/`Using `/`.00` become sentinels and a legend is prepended.
  The sentinels then become `--`, `U` and `/`, either plain or with escape codes. The
  color stage also highlights `filesort` and the key chosen among the possible keys.

The modules follow the program:

- `Wrappers`: `Option`, `Result`.
- `Text`: the Ruby string operations the program relies on. These are `split`, `lines`,
  `chomp`, `split.join ' '`, `rstrip`, `ljust`, `to_s`, and `gsub`/`sub` of literal,
  `\b`-anchored patterns.
- `Settings`: the `Config` class, plus the `ROW,COL,VAL` argument of `--add-special`.
- `Placeholders`: the scanner, the dispatch and the `gsub` loop.
- `ExplainQuery`: query assembly.
- `Formatter`: the table loop and the output stages.

The state the source mutates is modelled imperatively:

- `Config` is a class whose writers assign fields; `add_special` updates its map of
  overrides.
- `fill_placeholders` threads its column counter through a loop (`FillPlaceholders`).
- `format_response` threads its header counter through a loop (`BuildTable`, `LineStep`).

`FillPlaceholders` and `BuildTable` are each proved equal to a specification function,
and the properties are proved about those functions. `Config.SetColor` and
`Config.AddSpecial` are specified by the object's new state. Whether standard output is a terminal is passed in as a
boolean. The log text and the MySQL response are passed in as strings. Errors the
program raises are returned as values:

- `InvalidHeader`, `EmptyLog` and `Unfilled` for `[:invalid_header, ...]`, `[:empty_log, ...]`
  and the `NoMatchingPatternError` of `case ... in`;
- `NoRows` for the `TypeError` that `Array.new(nil)` raises on an empty response.

Behaviour of the program that is easy to miss:

- The log is split on the exact string `"\n\n"` (setsumei.rb:225). A blank entry keeps
  its row index and yields `EXPLAIN ;` (setsumei.rb:226, 237).
- `empty_log` is raised only when the split yields no entry at all (setsumei.rb:235), so
  an input of whitespace entries yields `EXPLAIN ;` lines.
- A statement's lines are joined with the empty string (setsumei.rb:232).
- The echo of the queries is written with `puts`, to standard output (setsumei.rb:240-241).
- `case [prefix, postfix] in` compares the captured text exactly (setsumei.rb:203-213),
  although the scan ignores case (setsumei.rb:197). So `limit N`, `like 'S`, a bare `n`
  and a quoted `'s` match but raise `NoMatchingPatternError`, unless an override applies.
- The key highlight (setsumei.rb:315) wraps the word in the seventh space-separated
  field when the eighth field starts with the same word; the eighth field stays as it is.
- `rstrip` also removes NUL characters (setsumei.rb:300). So in compact mode a `NULL` in a
  row's last cell, which became the sentinel `"\0\0"`, is stripped with the padding and
  shows as nothing instead of `--` (`Formatter.TrailingNullDropped`).

## Model

| member | source | states |
|---|---|---|
| Settings.Config.constructor | setsumei.rb:23-33 | `num` is 1, `str` is `a%a`, no other value is set, no override exists, color is `auto`; so `limit`, `offset` and `lower_bound` are 1, `like` is `a%a`, `upper_bound` is 501 and color is on exactly when standard output is a terminal |
| Settings.Fallbacks | setsumei.rb:39-51 | `limit`, `offset` and `lower_bound` fall back on `num`, `like` on `str` and `upper_bound` on `num + 500` when their own value is unset; each of the five returns its own value as is once it is set |
| Settings.Config.SetColor | setsumei.rb:61-64 | `color=` accepts exactly `always`, `auto` and `never` and sets that mode; anything else is rejected and leaves the mode unchanged |
| Settings.Config.AddSpecial | setsumei.rb:66-73 | after `add_special(r, c, v)`, `special(r, c)` is `v` and every other key's override is what it was |
| Settings.Config.ColorEnabled | setsumei.rb:57-59 | color is on for `always`, off for `never`, and for `auto` exactly when standard output is a terminal; see `Config.constructor` and `Config.SetColor` |
| Settings.Config.Special | setsumei.rb:66-69 | the override stored for `(row, col)`, or nil; see `Config.AddSpecial` and `Placeholders.OverrideWins` |
| Settings.NumberField | setsumei.rb:137 | `\s*(\d+)\s*` reads at least one digit and ends within the text |
| Settings.NumberFieldAt | setsumei.rb:137 | a run of digits followed by a comma is read as the field whose value the digits spell |
| Settings.ColumnAndValue | setsumei.rb:137 | after the first comma, a column number and a comma are followed by a non-empty value without a newline |
| Settings.ParseSpecial | setsumei.rb:136-140 | a parsed `ROW,COL,VAL` has a non-empty value without a newline, as `(.+)\z` demands |
| Settings.NumberFieldOf | setsumei.rb:137 | a number written in decimal and followed by a comma is read back as that number |
| Settings.ParseSpecialRoundTrip | setsumei.rb:136-140 | writing a row, a column and a non-empty single-line value as `ROW,COL,VAL` parses back to exactly that triple, the value being everything after the second comma |
| Settings.ParseFields | setsumei.rb:137 | a text whose row and column numbers stand before its two commas parses to those numbers and the value after the second comma |
| Settings.ParseSpecialOf | setsumei.rb:137 | two number fields, each followed by a comma, and a non-empty value without a newline make the parse |
| Text.RunSpans | setsumei.rb:137 | `\s*`, `\d+`, `\S*` and `\w+` take the longest run of their class: every character in it is of the class and the next is not |
| Text.RunIs | setsumei.rb:137 | a stretch of the class ended by a character outside it is the run there |
| Text.SplitAll | setsumei.rb:225 | splitting yields at least one piece |
| Text.JoinSplitAll | setsumei.rb:225 | joining the pieces of a split with the separator gives the text back |
| Text.Split | setsumei.rb:225 | `String#split` with a string separator: see `SplitAll`, `SplitAllPieces`, `JoinSplitAll` and `DropTrailingEmpty` |
| Text.SplitAllPieces | setsumei.rb:225 | the split is the leftmost one: no occurrence of the separator starts inside a piece, not even one running into the separator after it, and the last piece holds none |
| Text.JoinExcludes | setsumei.rb:301 | a text joined with a separator free of a character is free of it exactly when every piece is |
| Text.PieceExcludes | setsumei.rb:315 | no piece of a split on a single character holds that character |
| Text.DropTrailingEmpty | setsumei.rb:225 | `split` keeps a prefix of the pieces, ending in a non-empty one, and drops only empty pieces |
| Text.Lines | setsumei.rb:228 | `lines` yields no line exactly for the empty text, and never an empty line |
| Text.JoinLines | setsumei.rb:228 | concatenating the lines gives the text back |
| Text.ChompLine | setsumei.rb:228 | a line of `lines(chomp: true)`: see `Lines`, `JoinLines` and `LinesOfJoin` |
| Text.Chomp | setsumei.rb:283 | see `ChompParts` |
| Text.ChompParts | setsumei.rb:283 | `chomp` keeps a prefix and drops exactly one line terminator (`"\r\n"` as a whole, else one `"\n"` or `"\r"`), and nothing when the text ends in neither |
| Text.LinesOfJoin | setsumei.rb:240 | the lines of single-line texts joined with "\n" are those texts, each but the last ending in "\n" |
| Text.Words | setsumei.rb:237 | `split` on whitespace yields non-empty words free of whitespace |
| Text.JoinWordsCollapsed | setsumei.rb:237 | words joined with single spaces contain no whitespace run, no leading or trailing space, and start with a non-space when non-empty |
| Text.CollapseLast | setsumei.rb:237 | collapsing keeps a final non-space character last |
| Text.CollapsedExcludesNewline | setsumei.rb:237 | a collapsed text contains no "\n" |
| Text.CollapseWords | setsumei.rb:237 | `split.join ' '` keeps the words of the text, in order, and changes only the spacing |
| Text.Collapse | setsumei.rb:237 | `split.join ' '`: see `JoinWordsCollapsed`, `CollapseLast`, `CollapsedExcludesNewline` and `CollapseWords` |
| Text.Rstrip | setsumei.rb:300 | `rstrip` keeps a prefix, removes only whitespace and NUL characters, and leaves none at the end |
| Text.RstripAppend | setsumei.rb:300 | appending whitespace and NUL characters does not change what `rstrip` keeps |
| Text.Ljust | setsumei.rb:298 | `ljust(w)` keeps the text as prefix, pads with spaces only, to length `max(len, w)` |
| Text.NatToString | setsumei.rb:204-211 | the decimal rendering is non-empty and all digits |
| Text.NatToStringDecimal | setsumei.rb:204-211 | the digits read back as the number, with no leading zero |
| Text.IntToStringDecimal | setsumei.rb:204-211 | `Integer#to_s` writes a sign for negative numbers, then the absolute value in decimal without leading zeros |
| Text.IntToString | setsumei.rb:204-211 | `Integer#to_s`: see `IntToStringDecimal` |
| Text.GsubFromKeepsOthers | setsumei.rb:317-319 | a replacement as long as its pattern keeps the length and every character the pattern lacks in its place |
| Text.GsubFromKeepsLayout | setsumei.rb:317-319 | replacing a pattern by text of the same length without "\n" keeps the length and every newline position |
| Text.GsubFromNoOccurrence | setsumei.rb:286-289 | `gsub` changes nothing where its pattern does not occur |
| Text.GsubFromExcludes | setsumei.rb:312-314 | `gsub` introduces no character absent from both the text and the replacement |
| Text.GsubFromRemoves | setsumei.rb:317-319 | replacing every occurrence of a character by text without it leaves none |
| Text.Gsub | setsumei.rb:287-289 | `gsub` of a literal pattern, optionally `\b`-anchored: see `GsubFromKeepsOthers`, `GsubFromKeepsLayout`, `GsubFromNoOccurrence`, `GsubFromExcludes`, `GsubFromRemoves` and `GsubNoneLeft` |
| Text.GsubNoneLeft | setsumei.rb:287-289 | a `gsub` of a pattern, unanchored, anchored before, or anchored on both sides, by a replacement that shares no character with it and keeps the word boundary after it, leaves no occurrence of the pattern |
| Text.SubFrom | setsumei.rb:277-281 | `sub` replaces exactly the first occurrence of its pattern with the required word boundaries, and changes nothing without one |
| Text.Sub | setsumei.rb:277-281 | `sub` of a literal, `\b`-anchored pattern: see `SubFrom` |
| Placeholders.OpLen | setsumei.rb:178 | `[<>]=?` reads one of `<`, `<=`, `>`, `>=` |
| Placeholders.KeywordPrefixedFound | setsumei.rb:174-181 | a match of `\bLIMIT\s+\bN\b` or `\bOFFSET\s+\bN\b` is a keyword match whose keyword, spaces and token are exactly the matched text |
| Placeholders.OpPrefixedFound | setsumei.rb:178-181 | a match of `[<>]=?\s*\bN\b` is a prefix-comparison match of exactly the matched text |
| Placeholders.PrefixedFound | setsumei.rb:174-181 | the first alternative yields only keyword or prefix-comparison matches of the matched text |
| Placeholders.PostfixedFound | setsumei.rb:184-187 | `\s*[<>]=?` after a token yields a postfix-comparison match of exactly the matched text |
| Placeholders.HolderFirstFound | setsumei.rb:183-187 | the second alternative yields a postfix-comparison or a bare match of the matched text |
| Placeholders.QuotedFound | setsumei.rb:189-196 | the third alternative yields a `LIKE`-quote or a quote match of the matched text |
| Placeholders.MatchAtFound | setsumei.rb:173-197 | whatever the alternatives find at a position is a well-formed match of the text there, the token standing on a word boundary |
| Placeholders.KeywordComplete | setsumei.rb:174-181 | wherever `LIMIT` or `OFFSET` (in any case) stands after `\b`, followed by whitespace and `N` on word boundaries, the first alternative finds exactly that match |
| Placeholders.CmpPrefixComplete | setsumei.rb:178-181 | wherever `<`, `<=`, `>` or `>=`, optional whitespace and `N` stand, the first alternative finds exactly that match |
| Placeholders.HolderFirstComplete | setsumei.rb:183-187 | at a token `N` the first alternative fails and the second finds the token with the same whitespace and a comparison extended by the greedy `[<>]=?` when one follows, the bare token exactly when none does |
| Placeholders.PostfixAt | setsumei.rb:184-187 | whitespace and a comparison after the token are found with exactly that whitespace and an operator the written one is a prefix of |
| Placeholders.LikeComplete | setsumei.rb:189-196 | wherever `LIKE` (in any case) stands after `\b`, followed by whitespace, a quote and `S`, the first two alternatives fail and the third finds exactly that match |
| Placeholders.QuoteComplete | setsumei.rb:189-196 | wherever a quote and `S` stand, the first two alternatives fail and the third finds exactly that match |
| Placeholders.MatchAtComplete | setsumei.rb:173-197 | the converse of `MatchAtFound`: wherever a well-formed match stands (a keyword one after `\b`), the pattern matches there with the same token; exactly that match when it starts before its token, and with the same whitespace and a possibly longer operator, or bare, when it starts with its token |
| Placeholders.MatchAt | setsumei.rb:173-197 | the pattern at one position, its alternatives tried in order: see `MatchAtFound` and `MatchAtComplete` |
| Placeholders.Scan | setsumei.rb:173-197 | the left-to-right scan of `gsub`: see `Next` and `ScanRestores` |
| Placeholders.Next | setsumei.rb:173-197 | each step of the scan moves forward and stays within the statement |
| Placeholders.ScanRestores | setsumei.rb:173-197 | putting every match's own token back in place of its value gives the statement back: text outside the matches and the matched prefix and postfix text are reproduced exactly |
| Placeholders.DispatchByShape | setsumei.rb:203-214 | `LIMIT N` gets `limit`, `OFFSET N` `offset`, `LIKE 'S` `like`; `<`/`<=` before or `>`/`>=` after `N` get `upper_bound`, the others `lower_bound`; a bare `N` gets `num` and a bare `'S` `str`, in decimal; a keyword or token not in upper case has no pattern |
| Placeholders.OverrideWins | setsumei.rb:201-202 | an override for `(row, col)` is used verbatim whatever the match |
| Placeholders.Dispatch | setsumei.rb:203-214 | the `case ... in` over the captured prefix and postfix: see `DispatchByShape` |
| Placeholders.Fill | setsumei.rb:201-214 | the override if there is one, else the dispatch: see `OverrideWins` and `DispatchByShape` |
| Placeholders.FillAll | setsumei.rb:172-216 | the matches are filled in order with columns counting up from the start; the result is the list of values exactly when every fill succeeds, otherwise the error of the first one that fails |
| Placeholders.FillAllSnoc | setsumei.rb:216 | one more match, filled at the next column, adds its value at the end |
| Placeholders.WeaveAppend | setsumei.rb:173-218 | rebuilding two runs of pieces one after the other gives the two rebuilt texts one after the other |
| Placeholders.FillAllFirstError | setsumei.rb:201-214 | the first match that cannot be filled decides the error whatever follows |
| Placeholders.Substitute | setsumei.rb:171-220 | the filled statement or the first fill's error: see `FillAll`, `FillAllFirstError`, `ScanRestores` and `FillPlaceholders` |
| Placeholders.LiteralStep | setsumei.rb:172-220 | copying the character where nothing matches keeps the loop's state: the pieces so far, their filled values and the text built |
| Placeholders.PlaceholderStep | setsumei.rb:201-218 | replacing a match by the value filled for it at the next column keeps the loop's state |
| Placeholders.FailStep | setsumei.rb:201-214 | a match that cannot be filled at the next column makes the whole substitution fail with its error |
| Placeholders.DoneStep | setsumei.rb:171-220 | at the end of the statement the text built is the substitution's result |
| Placeholders.FillPlaceholders | setsumei.rb:171-220 | the `gsub` loop with its column counter computes exactly the substitution: each match's token replaced by its value, the rest copied, or the first fill's error |
| ExplainQuery.DropEmpty | setsumei.rb:228 | `grep_v ''` keeps, in order, exactly the non-empty lines; its first line is the first non-empty one |
| ExplainQuery.DropEmptyOne | setsumei.rb:228 | `grep_v ''` drops a single line exactly when it is empty |
| ExplainQuery.DropEmptyAppend | setsumei.rb:228 | `grep_v ''` of two lists of lines one after the other is the two filtered lists one after the other, so it keeps exactly the non-empty lines in their order |
| ExplainQuery.EntryStatement | setsumei.rb:226-232 | the block for one entry: see `BlankEntry`, `InvalidHeaderAborts`, `EntryErrors` and `StatementsFirstError` |
| Wrappers.Collect | setsumei.rb:225-233 | a `map` whose block may raise lists every value exactly when none fails, otherwise it raises the error of the first that fails |
| Wrappers.CollectFirstError | setsumei.rb:225-233 | the first block that raises decides the error, whatever follows it |
| ExplainQuery.ExplainLineShape | setsumei.rb:237 | every query line starts with `EXPLAIN ` and ends with `;`, has single spaces between words and none at either end, no newline; a blank entry's line is `EXPLAIN ;` |
| ExplainQuery.ExplainLineWords | setsumei.rb:237 | a query line has exactly the words of `EXPLAIN `, the filled statement and `;` |
| ExplainQuery.ExplainLine | setsumei.rb:237 | one query line: see `ExplainLineShape` and `ExplainLineWords` |
| ExplainQuery.BlankEntry | setsumei.rb:226 | a whitespace-only entry does not raise and yields `EXPLAIN ;` |
| ExplainQuery.QueryShape | setsumei.rb:225-237 | a successful query is non-empty and has exactly one line per entry, in order, the k-th built from the k-th entry with row k |
| ExplainQuery.GenerateExplainQuery | setsumei.rb:225-237 | the query or the error raised: see `QueryShape`, `EmptyLogIff`, `EntryErrors`, `StatementsFirstError`, `InvalidHeaderAborts` and `BlankEntry` |
| ExplainQuery.EntryErrors | setsumei.rb:226-233 | no entry raises `empty_log` |
| ExplainQuery.EmptyLogIff | setsumei.rb:235 | `empty_log` is raised exactly when the split yields no entries |
| ExplainQuery.StatementsFirstError | setsumei.rb:225-233 | the first entry that raises decides the error of the whole map |
| ExplainQuery.InvalidHeaderAborts | setsumei.rb:228-230 | a non-blank entry whose first non-empty line does not start with `Count` aborts the run with `invalid_header` carrying that entry, unless an earlier entry failed |
| ExplainQuery.EchoLines | setsumei.rb:239-241 | the echo prints `[k] ` before the k-th query line, one per line, then an empty line |
| ExplainQuery.EchoText | setsumei.rb:240-241 | the echoed text: see `EchoLines` |
| ExplainQuery.Echo | setsumei.rb:239-244 | the echo when queries are to be output, nothing otherwise: see `EchoLines` |
| Formatter.LineStep | setsumei.rb:274-292 | the block for one line moves the header counter on exactly at a `^id\b` line and yields that line's row or nil |
| Formatter.BuildTable | setsumei.rb:269-293 | the `map` with its counter, then `compact`, computes exactly the table specified line by line |
| Formatter.TableUpTo | setsumei.rb:272-293 | every line yields at most one row |
| Formatter.HeadersBeforeZero | setsumei.rb:274-276 | the header counter has not moved before line k exactly when no earlier line is a header |
| Formatter.FirstHeaderOnly | setsumei.rb:274-285 | a header line yields a row, with an empty first cell, exactly when no header came before it |
| Formatter.DataLabel | setsumei.rb:286-292 | every other line yields a row labelled `[i]` with i the number of headers before it minus one |
| Formatter.LabelBeforeHeaders | setsumei.rb:270-292 | lines before any header are labelled `[-1]` |
| Formatter.TableShape | setsumei.rb:272-293 | the table is empty exactly when there are no lines, and no row is empty |
| Formatter.IsHeader | setsumei.rb:273 | `l =~ /^id\b/`: see `HeadersBeforeZero`, `FirstHeaderOnly` and `DataLabel` |
| Formatter.LineRow | setsumei.rb:273-292 | the row one line yields, or nil: see `LineStep`, `FirstHeaderOnly`, `DataLabel` and `LabelBeforeHeaders` |
| Formatter.Table | setsumei.rb:272-293 | the table after `compact`: see `BuildTable`, `TableUpTo` and `TableShape` |
| Formatter.Abbreviate | setsumei.rb:276-282 | the compact header, `id` replaced by `#` and four column names by `sub`: see `SubFrom` |
| Formatter.MaxLen | setsumei.rb:9 | `map(&:size).max` is at least every row's length and is the length of some row |
| Formatter.SoftTranspose | setsumei.rb:8-10 | an empty table raises; otherwise there is one column per position of the longest row, holding every row's cell there or nil |
| Formatter.SoftTransposeRoundTrip | setsumei.rb:8-10 | reading the columns back row by row, dropping nils, gives every row of the table again |
| Formatter.ColumnWidth | setsumei.rb:295 | a column's width is at least every present cell's length and equals one of them |
| Formatter.CellFits | setsumei.rb:295 | no cell of the table is wider than its column |
| Formatter.WidthAttained | setsumei.rb:295 | every column has a present cell exactly as wide as the column, so `max` never yields nil |
| Formatter.AlignRow | setsumei.rb:297-301 | a table line is the padded, space-joined row with only trailing whitespace and NUL removed |
| Formatter.JoinAt | setsumei.rb:297-300 | cells of the given widths joined with spaces put cell j at the sum of the earlier widths plus one space each |
| Formatter.JoinSpaceAt | setsumei.rb:297-300 | a single space separates each cell from the next |
| Formatter.LjustAt | setsumei.rb:298 | a cell padded by `ljust` and placed at an offset shows the cell there, followed by spaces up to the width |
| Formatter.Aligned | setsumei.rb:297-300 | a cell that fits its width starts at the same offset in any row and is padded with spaces to the width, then separated by a space |
| Formatter.TableAligned | setsumei.rb:295-300 | in the table as built, cell j of every row that has one starts at the same offset and is padded to its column's width |
| Formatter.TrailingNullDropped | setsumei.rb:287-300 | a compact `NULL` sentinel in a row's last cell disappears in `rstrip`, leaving the line as if the cell were absent |
| Formatter.Compactify | setsumei.rb:286-290 | the compact data line: see `CompactifyRemoves` |
| Formatter.Uncolored | setsumei.rb:295-308 | the aligned table, with the legend in compact mode: see `AlignRow`, `TableAligned` and `TrailingNullDropped` |
| Formatter.PlainStage | setsumei.rb:316-319 | see `PlainKeepsLayout` and `PlainDropsSentinels` |
| Formatter.PlainKeepsLayout | setsumei.rb:317-319 | the plain stage keeps the length, every newline position and every character other than NUL, `\1` and `\2` in its place, so the spaces and cell text of the aligned table keep their offsets |
| Formatter.PlainDropsSentinels | setsumei.rb:317-319 | no `\1` or `\2` sentinel is left in the plain output |
| Formatter.CompactifyRemoves | setsumei.rb:287-289 | the compact replacements leave no whole-word `NULL` after the first, no `\bUsing ` after the second and no whole-word `.00` in the compacted line |
| Formatter.ColorMarksDropSentinels | setsumei.rb:311-314 | after the color replacements of the sentinels no `\1` or `\2` is left |
| Formatter.ColorMarks | setsumei.rb:311-314 | see `ColorMarksDropSentinels` |
| Formatter.ColorStage | setsumei.rb:310-315 | see `ColorDropsSentinels` and `ColorStageLines` |
| Formatter.ColorDropsSentinels | setsumei.rb:311-315 | no `\1` or `\2` sentinel is left in the colored output, the key highlight adding none |
| Formatter.ColorStageLines | setsumei.rb:311-315 | the lines of the colored output are the lines of the marked text, each run through the key highlight on its own |
| Formatter.SkipFields | setsumei.rb:315 | `(\S++ ++){n}` ends within the line, at least two characters per field further on |
| Formatter.LastQualifying | setsumei.rb:315 | the backtracking of `\S*` scanning down from j yields a qualifying start below j with no qualifying start after it, or reports that none qualifies |
| Formatter.NoneQualifiesAll | setsumei.rb:315 | no start of a range qualifies for the highlight, for every position of the range |
| Formatter.LastQualifyingRightmost | setsumei.rb:315 | the start found is the rightmost in the seventh field where a word begins that also begins the eighth field, and none is found when there is none |
| Formatter.HighlightLine | setsumei.rb:315 | when the highlight matches at k, the word at k is wrapped in cyan and nothing else changes; without a match the line is unchanged |
| Formatter.FormatResponse | setsumei.rb:269-321 | formatting fails exactly for an empty response |

## Left out

- `option_parser` (setsumei.rb:86-169) is left out: it is a wrapper over Ruby's option parser. Only the `ROW,COL,VAL` pattern of `--add-special` is modelled, by `Settings.ParseSpecial`.
- `execute_explain` (setsumei.rb:249-267) is left out: it reads the environment, writes a temporary file, runs the `mysql` client and checks its exit status.
- Reading the log with `gets(nil)` and printing with `puts` are left out. The log and the response are parameters, and the echo is returned as text by `ExplainQuery.Echo`.
- ExplainQuery.GenerateExplainQuery: for empty standard input `gets(nil)` returns nil and `split` raises `NoMethodError`. The model reads the empty text instead, which fails with `EmptyLog`.
- `debug`, `warn` and `verbose` (setsumei.rb:35-37, 78-84, 198-199, 243) are left out: they only write diagnostics.
- The top-level `rescue`, the help text and `exit 10` (setsumei.rb:323-334) are left out. Errors are result values.
- `$stdout.tty?` is not modelled: whether output is a terminal is the `tty` parameter of `Config.ColorEnabled`.
- The user-supplied `--ban` regular expression (setsumei.rb:127-128) is left out. The color stage uses the default `\bfilesort\b`, modelled as a whole-word literal.
- Case-insensitive matching, `\w`, `\s` and `\b` are modelled on ASCII. Ruby's Unicode case folding under `/i` is left out; for example, `ſ` and the Kelvin sign also match `s` and `k`.
- Formatter.HighlightLine: Ruby applies the line-315 pattern to the whole text with `^` matching after every newline. The model applies it line by line. This is equivalent, because none of its parts (`\S`, a space, `\w`) matches a newline, but the equivalence is not proved. `ColorStageLines` proves that the colored output's lines are the highlighted lines of the marked text.
- Formatter.CompactifyRemoves: each replacement is shown to leave none of its own pattern. That a later replacement re-creates no earlier pattern is not proved.
- Formatter.FormatResponse: its contract states only when formatting fails. The shape of the output is stated by `TableAligned`, `PlainKeepsLayout` and `PlainDropsSentinels` about its stages.
