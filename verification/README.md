# FitTable, modelled in Dafny

FitGoodies runs FIT-style acceptance tests written as HTML tables. A `FitTable` wraps a
`<table>` element of the parsed document. On construction it checks the table; an
incomplete table is annotated with an exception and rejected. Otherwise it reads the header
in one of two styles:

- a legacy first row, `Fixture | key=value | ...`;
- attributes on the `<table>` element.

The header gives the fixture class and an argument map. Every `<tr>` that is not
ignored and not the legacy header row becomes a `FitRow` that knows its index. While a fixture runs, the table collects
row-level errors (WRONG or EXCEPTION, and EXCEPTION is never downgraded). It can also take
a table-level exception, and rows can be inserted, appended and removed. When execution
finishes, the table:

1. paints the row errors into a feedback column it adds on demand;
2. lets every cell finish and update the counts;
3. adds exactly one summary class, chosen from the final counts.

The model is split into modules:

- `Markup` models the document as classes. `Table` holds the attributes, the classes, the
  rows prepended to the table and the rows of the `<tbody>`. `Tr` holds its cells. A `Td`
  cell is a value.
- `FitTables.FitTable` is a class with the Java fields. Its methods change those fields and
  the markup in place, and each method states the new state. The state is stated through
  specification functions: `OldStyleArgs`, `NewStyleArgs`, `ContentRows`, `FinishGrid`,
  `Painted`, `WithFeedbackColumn` and `WithFirstCell`.
- `TableParsing` proves lemmas about the specification functions that say what the argument
  maps and the row list contain.
- `ArgumentPattern` computes the groups of the legacy header's regular expression
  `^\s*([^=]+?)\s*=\s*(.*?)\s*$` directly. It proves that this computation succeeds
  exactly when the pattern matches somewhere, and that the groups it returns are those of
  the one match `Matcher.find()` prefers (greedy `\s*`, lazy groups). Both groups come out
  trimmed: the key is one character or has no blank at either end, and the value is empty
  or has no blank at either end.

## Model

| member | source | states |
|---|---|---|
| FitTables.NewFitTable | fitgoodies-core/src/main/java/de/cologneintelligence/fitgoodies/htmlparser/FitTable.java:31-40 | Three outcomes. The constructor throws IllegalArgumentException exactly when the table has no `<tr>` or no `<td>`. The table then gains exactly the exception class, and its grid is the original (one empty row if it had none) with a feedback column and "Incomplete table definition" in the first cell. It throws NullPointerException exactly when a complete legacy table's first row has no cell, and the markup is then untouched. Otherwise it yields a parsed FitTable whose rows are indexed, with zero counts, no feedback column and empty row-error maps, and the markup and its `<tr>` list are untouched. |
| FitTables.FitTable.constructor | fitgoodies-core/src/main/java/de/cologneintelligence/fitgoodies/htmlparser/FitTable.java:16-31 | The field initialisers: the given table, zero counts, no feedback column, empty row-error maps and no rows (Initial). |
| FitTables.FitTable.Construct | fitgoodies-core/src/main/java/de/cologneintelligence/fitgoodies/htmlparser/FitTable.java:31-40 | An incomplete table gets a feedback column and "Incomplete table definition" in its first cell with the exception class. Its counts become exceptions = 1, it gains the exception class as summary, and it has no rows. A complete table is parsed (Parsed, Indexed, fresh rows) unless it is legacy-style and its first `<tr>` has no cell; then the outcome is MissingHeaderCell with no rows. In both cases the markup and counts are unchanged and the row-error maps are empty. |
| FitTables.FitTable.CheckOrFinish | fitgoodies-core/src/main/java/de/cologneintelligence/fitgoodies/htmlparser/FitTable.java:34-37 | The result is IsComplete of the original grid. On failure, the exception annotation is followed by finishExecution, which adds only the summary class. |
| FitTables.FitTable.ConstructComplete | fitgoodies-core/src/main/java/de/cologneintelligence/fitgoodies/htmlparser/FitTable.java:39 | parseTable succeeds unless the legacy header row has no cell, and then it leaves no rows. |
| FitTables.FitTable.FinishWithoutRows | fitgoodies-core/src/main/java/de/cologneintelligence/fitgoodies/htmlparser/FitTable.java:35 | finishExecution on a table with no rows and no row errors: grid, counts and feedback flag are unchanged, and exactly the summary class is added. |
| FitTables.FitTable.FinishIncomplete | fitgoodies-core/src/main/java/de/cologneintelligence/fitgoodies/htmlparser/FitTable.java:35 | finishExecution right after checkTable rejected the table. The one exception counted makes the exception class the summary, and the annotated grid and the counts stay as they are. |
| FitTables.FitTable.CheckTable | fitgoodies-core/src/main/java/de/cologneintelligence/fitgoodies/htmlparser/FitTable.java:66-74 | The result is true exactly when there is a `<tr>` and some `<td>`; then nothing changes. Otherwise the table is annotated as IncompleteReported describes. |
| FitTables.FitTable.ReportIncomplete | fitgoodies-core/src/main/java/de/cologneintelligence/fitgoodies/htmlparser/FitTable.java:68-70 | exception("Incomplete table definition") on an incomplete table. A row is prepended when there is none, the feedback column is added, the first cell is relabelled and the exception count rises by one. |
| FitTables.FitTable.ParseTable | fitgoodies-core/src/main/java/de/cologneintelligence/fitgoodies/htmlparser/FitTable.java:42-64 | The header style is the presence of the fixture attribute. On success: the fixture and arguments of that style, contentStart 0 or 1, rows whose `<tr>`s are the non-ignored `<tr>`s from contentStart on in document order, each index equal to its position. |
| FitTables.FitTable.ParseHeader | fitgoodies-core/src/main/java/de/cologneintelligence/fitgoodies/htmlparser/FitTable.java:45-56 | HeaderParsed, unless the legacy first row has no cell (`tds.first().text()` throws). |
| FitTables.FitTable.ParseRows | fitgoodies-core/src/main/java/de/cologneintelligence/fitgoodies/htmlparser/FitTable.java:58-63 | The row `<tr>`s are ContentRows of the `<tr>`s from contentStart on. The rows are new, distinct and indexed. |
| FitTables.ContentFitRows | fitgoodies-core/src/main/java/de/cologneintelligence/fitgoodies/htmlparser/FitTable.java:58-62 | The loop creates one fresh FitRow per non-ignored `<tr>`, in order. |
| FitTables.FitTable.ParseOldStyleHeader | fitgoodies-core/src/main/java/de/cologneintelligence/fitgoodies/htmlparser/FitTable.java:76-92 | The fixture is the first cell's text. The argument map is OldStyleArgs of the remaining cells' texts. |
| FitTables.FitTable.ParseNewStyleHeader | fitgoodies-core/src/main/java/de/cologneintelligence/fitgoodies/htmlparser/FitTable.java:94-104 | The fixture is the fixture attribute's value ("" when absent). The argument map is NewStyleArgs of the attributes. |
| TableParsing.OldStyleArgsLookup | fitgoodies-core/src/main/java/de/cologneintelligence/fitgoodies/htmlparser/FitTable.java:80-91 | A key is in the legacy argument map iff some argument cell writes it, either as its position "i" or as its lower-cased `key=`. The key holds the value of the last such cell: group 2 when the cell matches, its whole text otherwise. |
| TableParsing.OldStyleArgsKeys | fitgoodies-core/src/main/java/de/cologneintelligence/fitgoodies/htmlparser/FitTable.java:80-91 | The membership half of that lookup, by induction over the cells. |
| TableParsing.OldStyleArgsValue | fitgoodies-core/src/main/java/de/cologneintelligence/fitgoodies/htmlparser/FitTable.java:80-91 | The value half: a later put overrides an earlier one. |
| TableParsing.PutHeaderCellLookup | fitgoodies-core/src/main/java/de/cologneintelligence/fitgoodies/htmlparser/FitTable.java:85-90 | One argument cell adds exactly its positional key and, when it matches, its named key, both with CellValue. All other keys keep their values. |
| TableParsing.NewStyleArgsLookup | fitgoodies-core/src/main/java/de/cologneintelligence/fitgoodies/htmlparser/FitTable.java:97-103 | A key is in the attribute-style map iff some attribute's lower-cased name is the prefix followed by that key. It holds the value of the last such attribute; no other attribute contributes. |
| TableParsing.AttrValue | fitgoodies-core/src/main/java/de/cologneintelligence/fitgoodies/htmlparser/FitTable.java:95 | `attr(name)` is the value of an attribute called name, or "" when there is none. |
| TableParsing.ContentRows | fitgoodies-core/src/main/java/de/cologneintelligence/fitgoodies/htmlparser/FitTable.java:58-62 | The result holds exactly the non-ignored `<tr>`s of the input and nothing else. |
| TableParsing.ContentRowsAppend | fitgoodies-core/src/main/java/de/cologneintelligence/fitgoodies/htmlparser/FitTable.java:58-62 | Filtering distributes over concatenation, so document order is kept. |
| TableParsing.ContentRowsDistinct | fitgoodies-core/src/main/java/de/cologneintelligence/fitgoodies/htmlparser/FitTable.java:58-62 | No `<tr>` becomes two rows. |
| ArgumentPattern.ParseArgument | fitgoodies-core/src/main/java/de/cologneintelligence/fitgoodies/htmlparser/FitTable.java:15 | A key group that is found is non-empty and holds no '='. The value group holds no line terminator. Both groups are trimmed: the key is a single character (only blanks before the '=') or neither starts nor ends with a blank, and the value is empty or neither starts nor ends with a blank. |
| ArgumentPattern.ParseArgumentMatches | fitgoodies-core/src/main/java/de/cologneintelligence/fitgoodies/htmlparser/FitTable.java:84-85 | find() succeeds iff the pattern matches the cell text, and the groups returned are those of a match that find() prefers (PreferredMatchAt: greedy `\s*`, lazy groups stopping before trailing blanks). |
| ArgumentPattern.ParseArgumentPreferred | fitgoodies-core/src/main/java/de/cologneintelligence/fitgoodies/htmlparser/FitTable.java:15 | The preferred match is unique: any match with find()'s preferences has exactly the groups ParseArgument returns. |
| ArgumentPattern.PreferredKey | fitgoodies-core/src/main/java/de/cologneintelligence/fitgoodies/htmlparser/FitTable.java:15 | In a preferred match the '=' is the first '=' of the text, and group 1 has exactly the bounds KeyBounds computes. |
| ArgumentPattern.PreferredValue | fitgoodies-core/src/main/java/de/cologneintelligence/fitgoodies/htmlparser/FitTable.java:15 | In a preferred match group 2 starts after the whole blank run that follows '=', and ends where LazyEnd stops. |
| ArgumentPattern.ParseArgumentComplete | fitgoodies-core/src/main/java/de/cologneintelligence/fitgoodies/htmlparser/FitTable.java:15 | Whenever the pattern matches the text, find() succeeds. |
| ArgumentPattern.LazyEndReaches | fitgoodies-core/src/main/java/de/cologneintelligence/fitgoodies/htmlparser/FitTable.java:15 | The lazy `(.*?)` finds an end whenever `\s*$` can be reached without crossing a line terminator. |
| ArgumentPattern.LazyEnd | fitgoodies-core/src/main/java/de/cologneintelligence/fitgoodies/htmlparser/FitTable.java:15 | The lazy group ends at the first position where `\s*$` matches, and crosses no line terminator. |
| ArgumentPattern.KeyBounds | fitgoodies-core/src/main/java/de/cologneintelligence/fitgoodies/htmlparser/FitTable.java:15 | Group 1 is non-empty, ends at or before the '=', and has only blanks before and after it. When something other than blanks precedes the '=', group 1 starts after the whole leading blank run and neither starts nor ends with a blank; otherwise it is the single blank just before the '='. |
| ArgumentPattern.FirstEquals | fitgoodies-core/src/main/java/de/cologneintelligence/fitgoodies/htmlparser/FitTable.java:15 | `[^=]+?` cannot pass the first '=', which this finds. |
| FitTables.FitTable.FinishExecution | fitgoodies-core/src/main/java/de/cologneintelligence/fitgoodies/htmlparser/FitTable.java:126-142 | The row cells and counts are FinishGrid of the counts and cells after processRowErrors. The feedback column exists iff it existed or row errors exist. Exactly SummaryClass(final counts) is added. `<tr>`s that are not rows only gain the feedback cell. A fresh `<tr>` holding only the feedback cell is prepended exactly when row errors exist, there was no feedback column and there was no `<tr>`; otherwise the prepended `<tr>`s stay as they were. |
| FitTables.FitTable.ProcessAndFinishCells | fitgoodies-core/src/main/java/de/cologneintelligence/fitgoodies/htmlparser/FitTable.java:127-133 | processRowErrors followed by the per-cell finishing loop, with the same effect on cells and counts. |
| FitTables.FitTable.PaintSummary | fitgoodies-core/src/main/java/de/cologneintelligence/fitgoodies/htmlparser/FitTable.java:135-141 | Exception class if any exception, else wrong class if any wrong, else right class. |
| FitTables.FitTable.FinishCells | fitgoodies-core/src/main/java/de/cologneintelligence/fitgoodies/htmlparser/FitTable.java:129-133 | The counts and row cells become FinishGrid of the old counts and cells: every cell, row by row and left to right, threading the counts. |
| FitTables.FinishTrs | fitgoodies-core/src/main/java/de/cologneintelligence/fitgoodies/htmlparser/FitTable.java:129-133 | The outer loop equals FinishGrid. |
| FitTables.FinishTr | fitgoodies-core/src/main/java/de/cologneintelligence/fitgoodies/htmlparser/FitTable.java:130-132 | The inner loop equals FinishRow. |
| FitTables.FinishGrid | fitgoodies-core/src/main/java/de/cologneintelligence/fitgoodies/htmlparser/FitTable.java:129-133 | Finishing keeps the number of rows and of cells in every row. |
| FitTables.FinishGridAppend | fitgoodies-core/src/main/java/de/cologneintelligence/fitgoodies/htmlparser/FitTable.java:129-133 | Finishing two blocks of rows in turn equals finishing them together; the counts carry over. |
| FitTables.FitTable.ProcessRowErrors | fitgoodies-core/src/main/java/de/cologneintelligence/fitgoodies/htmlparser/FitTable.java:144-161 | With no row errors nothing changes. Otherwise the feedback column is ensured (a fresh `<tr>` holding only the feedback cell is prepended when there was none and no `<tr>`) and each recorded row's first cell takes its message and state class. The wrong count rises by the number of WRONG rows and the exception count by the number of EXCEPTION rows. |
| FitTables.FitTable.PaintRowErrors | fitgoodies-core/src/main/java/de/cologneintelligence/fitgoodies/htmlparser/FitTable.java:147-159 | Each recorded row is Annotated and every other row is unchanged. The counts rise as above. |
| FitTables.PaintRows | fitgoodies-core/src/main/java/de/cologneintelligence/fitgoodies/htmlparser/FitTable.java:147-159 | In any iteration order the cells end up as Painted over all recorded rows, and the counts rise by the sizes of WrongRows and ExceptionRows. |
| FitTables.RowErrorsPartition | fitgoodies-core/src/main/java/de/cologneintelligence/fitgoodies/htmlparser/FitTable.java:154-158 | WRONG rows and EXCEPTION rows are disjoint and together are all recorded rows, so each recorded row raises exactly one counter. |
| FitTables.CountRowError | fitgoodies-core/src/main/java/de/cologneintelligence/fitgoodies/htmlparser/FitTable.java:154-158 | Visiting one more row raises exactly the counter of its state by one. |
| FitTables.Painted | fitgoodies-core/src/main/java/de/cologneintelligence/fitgoodies/htmlparser/FitTable.java:148-152 | A visited row is Annotated with its message and state; an unvisited row is unchanged. |
| FitTables.PickKey | fitgoodies-core/src/main/java/de/cologneintelligence/fitgoodies/htmlparser/FitTable.java:147 | Some key not yet visited, in unspecified order. |
| FitTables.FitTable.Exception | fitgoodies-core/src/main/java/de/cologneintelligence/fitgoodies/htmlparser/FitTable.java:167-175 | The feedback column is ensured, exceptions rise by one, and the first cell of the first `<tr>` takes the html and the exception class. |
| FitTables.FitTable.MarkException | fitgoodies-core/src/main/java/de/cologneintelligence/fitgoodies/htmlparser/FitTable.java:169-174 | Exceptions rise by one, and only the first cell of the grid changes. |
| FitTables.FitTable.AddFeedbackColumn | fitgoodies-core/src/main/java/de/cologneintelligence/fitgoodies/htmlparser/FitTable.java:177-192 | Idempotent: a second call changes nothing. The first call prepends a fresh empty `<tr>` when there is no `<tr>` or (attribute-style and newRow). It then puts one feedback cell in front of every `<tr>`, and the `<tbody>` rows stay the same. |
| FitTables.FitTable.AddFeedbackColumnFirst | fitgoodies-core/src/main/java/de/cologneintelligence/fitgoodies/htmlparser/FitTable.java:182-191 | The first call: the flag is set, and a fresh `<tr>` is prepended exactly when NeedsNewTr. Every `<tr>` that was there gains exactly one feedback cell in front. |
| FitTables.FitTable.ExceptionRow | fitgoodies-core/src/main/java/de/cologneintelligence/fitgoodies/htmlparser/FitTable.java:194-197 | Records EXCEPTION and the message for the row, whatever was there. |
| FitTables.FitTable.WrongRow | fitgoodies-core/src/main/java/de/cologneintelligence/fitgoodies/htmlparser/FitTable.java:199-204 | Records WRONG and the message, unless the row already holds EXCEPTION, and then nothing changes. |
| FitTables.FitTable.Insert | fitgoodies-core/src/main/java/de/cologneintelligence/fitgoodies/htmlparser/FitTable.java:219-229 | A fresh empty `<tr>` is spliced into the `<tbody>` at index + contentStart, and a new row wrapping it into the row list at index. Rows stay distinct and indexed. With nothing prepended, rows that stood for the `<tr>`s from contentStart on still do (Aligned). |
| FitTables.FitTable.AppendRow | fitgoodies-core/src/main/java/de/cologneintelligence/fitgoodies/htmlparser/FitTable.java:207-209 | Insert at the end of the row list. |
| FitTables.SpliceKeepsAlignment | fitgoodies-core/src/main/java/de/cologneintelligence/fitgoodies/htmlparser/FitTable.java:223-225 | Splicing one `<tr>` into the markup at index + contentStart and into the row list at index keeps the row list equal to the markup's `<tr>`s from contentStart on. |
| FitTables.DropKeepsAlignment | fitgoodies-core/src/main/java/de/cologneintelligence/fitgoodies/htmlparser/FitTable.java:212-216 | Dropping the `<tr>` at index + contentStart and the row at index keeps the same correspondence. |
| FitTables.FitTable.Remove | fitgoodies-core/src/main/java/de/cologneintelligence/fitgoodies/htmlparser/FitTable.java:212-216 | The `<tr>` at index + contentStart of select("tr") leaves the markup and the row at index leaves the list. Rows stay distinct and indexed, and rows that stood for the `<tr>`s from contentStart on still do (Aligned). |
| FitTables.FitTable.UpdateIndices | fitgoodies-core/src/main/java/de/cologneintelligence/fitgoodies/htmlparser/FitTable.java:231-235 | Every row's index equals its position. |
| FitTables.FitTable.Pretty | fitgoodies-core/src/main/java/de/cologneintelligence/fitgoodies/htmlparser/FitTable.java:237-248 | The result is PrettyText of the grid: each row's cell texts each followed by a blank, a vertical bar and a blank, then a line break. |
| FitTables.PrettyRow | fitgoodies-core/src/main/java/de/cologneintelligence/fitgoodies/htmlparser/FitTable.java:241-243 | The inner loop of pretty() yields RowText of the cells. |
| Markup.PrettyLines | fitgoodies-core/src/main/java/de/cologneintelligence/fitgoodies/htmlparser/FitTable.java:240-245 | When no cell text holds a line break, pretty() has exactly one line break per `<tr>`. |
| Markup.Table.AddFeedbackCells | fitgoodies-core/src/main/java/de/cologneintelligence/fitgoodies/htmlparser/FitTable.java:184-191 | An optional new `<tr>` in front, whose only cell is the feedback cell, then one feedback cell in front of every old `<tr>`. |
| Markup.Table.PrependTrWithFeedback | fitgoodies-core/src/main/java/de/cologneintelligence/fitgoodies/htmlparser/FitTable.java:185-191 | A fresh empty `<tr>` first, then every `<tr>`, the new one included, gains one feedback cell, so the new one holds exactly the feedback cell. |
| Markup.PrependFeedbackCells | fitgoodies-core/src/main/java/de/cologneintelligence/fitgoodies/htmlparser/FitTable.java:188-191 | Every `<tr>` of the list gets exactly one feedback cell in front of its old cells. |
| Markup.Table.PrependTr | fitgoodies-core/src/main/java/de/cologneintelligence/fitgoodies/htmlparser/FitTable.java:185 | A fresh empty `<tr>` becomes the first row and the document stays valid. |
| Markup.Table.RelabelFirstCell | fitgoodies-core/src/main/java/de/cologneintelligence/fitgoodies/htmlparser/FitTable.java:171-174 | Only the first cell of the first `<tr>` changes. |
| Markup.Table.InsertChild | fitgoodies-core/src/main/java/de/cologneintelligence/fitgoodies/htmlparser/FitTable.java:223-224 | The `<tbody>` gains the `<tr>` at the position, and elements stay distinct. |
| Markup.Table.RemoveTr | fitgoodies-core/src/main/java/de/cologneintelligence/fitgoodies/htmlparser/FitTable.java:213 | The p-th `<tr>` of select("tr") leaves the markup, from whichever part holds it. |
| Markup.Tr.Relabel | fitgoodies-core/src/main/java/de/cologneintelligence/fitgoodies/htmlparser/FitTable.java:151-152 | The first cell takes the new content and gains the class; the other cells are unchanged. |
| Markup.Relabelled | fitgoodies-core/src/main/java/de/cologneintelligence/fitgoodies/htmlparser/FitTable.java:151-152 | Same length, same tail, and a first cell with the new content and the old classes plus the new one. |
| Markup.DistinctInsert | fitgoodies-core/src/main/java/de/cologneintelligence/fitgoodies/htmlparser/FitTable.java:224-225 | Splicing in a new element keeps a list duplicate-free. |
| Markup.DistinctRemove | fitgoodies-core/src/main/java/de/cologneintelligence/fitgoodies/htmlparser/FitTable.java:213-214 | Removing an element keeps a list duplicate-free. |

## Left out

- The jsoup document is not modelled beyond `<table>`, `<tr>` and `<td>`. Nested tables, whitespace normalisation of `text()`, and the difference between `html()` and `text()` are left out. A cell's content is one string.
- `toLowerCase` is modelled for ASCII letters only. Java's `\s` is the ASCII class, as modelled.
- ParserUtils.isIgnored is not part of this model. Its answer is the `ignored` flag of each `<tr>`.
- `exception(Throwable)` (FitTable.java:163-165) formats a stack trace through ParserUtils.getHtmlStackTrace, which is not part of this model. Only `exception(String)` is modelled, as `Exception(html)`.
- FitCell.finishExecution and FitRow.cells() are not part of this model. A cell's finishing is an arbitrary function `CellStep` from counts and cell to new counts and cell.
- FitTables.FitTable.FinishCells: finishes every current `<td>` of each row's `<tr>`, including the feedback cell just prepended by the row-error painting. This assumes FitRow.cells() reads the `<tr>`'s cells afresh, which is not part of this model.
- FitTables.CellStep: depends only on the counts and the `Td` value. The outcome a FitCell has recorded for itself while the fixture ran is not represented, so two equal cells always finish alike.
- TableParsing.HasAttr, TableParsing.AttrValue: match attribute names exactly, while jsoup's hasAttr and attr ignore case. The two agree when attribute names are lower case, as jsoup's HTML parser produces them, and the fixture attribute's name is lower case.
- The `Counts` fields are unbounded integers; 32-bit overflow of the counters is not modelled.
- The State enum and the Constants class are not part of this model. Their CSS classes and attribute names are unspecified constants: State's classes are taken to be CSS_WRONG and CSS_EXCEPTION, and every property holds for any values.
- The FitRow back-reference to its table, `FitRow.getRow().select("td")` (taken to be the `<tr>`'s own cells), and the getters (FitTable.java:106-124) are not modelled.
- `insert` assumes the table has a `<tbody>`: `Table.body` is always there.
- Markup.Table.InsertChild: counts positions in the `<tbody>` by `<tr>` elements only. jsoup's insertChildren counts every child node, whitespace text nodes included, so in the source the position index + contentStart can land elsewhere when the `<tbody>` holds text nodes.
- FitTables.FitTable.FinishExecution, FitTables.FitTable.ProcessRowErrors: require RowErrorsPaintable. A recorded row that is not a row index, or whose `<tr>` has no cell, makes the source throw (IndexOutOfBounds or NullPointer), and that path is not modelled.
- FitTables.FitTable.Insert, FitTables.FitTable.AppendRow, FitTables.FitTable.Remove: require the positions to be in range; the source's IndexOutOfBoundsException is not modelled. Insert does not restate Parsed afterwards, because the source splices into the `<tbody>` without regard to ignored rows or a prepended feedback row.
- FitTables.PickKey: requires keys to be non-negative, which RowErrorsPaintable gives. HashMap iteration order is modelled as an arbitrary choice of the next key, and PaintRows is proved for every order.
- FitTables.FitTable.Exception: requires that a table which already has its feedback column has a first cell. The source throws NullPointerException otherwise.
- The methods that leave the row list alone do not restate Indexed(rows).
- SeleniumFixture, CellProcessor and the test classes are outside the modelled core and are not part of this model.
