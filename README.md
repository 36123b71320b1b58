# CSVComparer in Dafny

CSVComparer compares a *reference* CSV file against a *candidate* CSV file.
Each row has a composite key built from the configured key columns. Rows
with the same key are compared column by column. Every difference becomes a
*break* (`BreakDetail`):

- a value mismatch;
- a row whose width differs from the header's;
- a row present on one side only (an *orphan*);
- a file that could not be loaded.

Two loader tasks read the files into two queues. They do this while a
comparison task takes one row from each queue at a time. A row whose partner
has not arrived yet waits in its side's orphan dictionary. When all three
tasks are done, the remaining orphans are reported. The configured patterns
can exclude keys from value breaks and from orphan breaks.

The model has these modules:

- `Tokenizer` (tokenizer.dfy): the quote-aware line splitter, in its two
  copies. `CSVComparer.SplitStringWithQuotes` advances one character past a
  delimiter; `RowHelper.SplitRowWithQuotes` advances by the delimiter's
  length. Both copies share `GetEndQuoteIndex`, which skips doubled quotes.
  Each is a method with the source's loop, proved equal to a recursive
  function `SplitSpec`. `String.Split` is `SplitOn`.
- `TokenizerFacts` and `TokenizerExamples` (tokenizer_facts.dfy,
  tokenizer_examples.dfy): what the splitters mean. The pieces of
  `String.Split` join back to the line. The fields of the quote-aware
  splitter lie in the line in order, without overlap. Fields that are each
  plain or quoted, joined with a one-character delimiter, split back into
  themselves. A quote-free line splits as `String.Split` does. Every line of
  the splitter tests in TestInternals.cs splits into the fields the test
  expects.
- `Loader` (loader.dfy): the row logic of `LoadFile`. It covers:
  - choosing the splitter;
  - the header row, which resolves the key indices (`GetKeyIndexes`) and
    the excluded columns (`GetExcludedColumns`);
  - building the key with its trailing `':'` trimmed;
  - the invalid-row filter;
  - the exceptions that end a load.
- `Breaks` (break_detail.dfy): `BreakDetail`, its two constructors, the
  description texts and `ToString`.
- `Engine` (engine.dfy): the comparer's shared state and, as functions over
  it, `AddBreak`, `AddOrphan`, `CompareValues` (Exact path), `CompareRow`
  and `GetOrAddOrphan`. It also has one iteration of `CompareCsvs`' loop,
  the loader events and the orphan flush, with their properties:
  - the orphan dictionaries stay disjoint;
  - every dequeued row is either compared or waiting;
  - the dispatch order;
  - the header check;
  - the mismatch breaks;
  - the flush.
- `Runner` (compare_files.dfy): `CompareFiles` with its three tasks. The
  tasks interleave as a *schedule* says, a list of turns. Each turn lets
  one task take one atomic step. `Task.WaitAll` and the final flush follow.
  Invariants are proved for every schedule, and a loader failure is always
  reported.
- `SelfComparison` (self_comparison.dfy): comparing a file with itself
  yields no break under every schedule, when the file's keys are unique and
  its header names every compared column.
- `Comparer` (comparer.dfy): `class CsvComparer`, whose fields are
  CSVComparer's and whose methods update them in place. Each method
  (`ResetState`, `AddBreak`, `AddOrphan`, `GetOrAddOrphan`, `CompareValues`,
  `CompareRow`, the loop of `CompareCsvs`, the flush, `CompareFiles`) is
  proved to leave the state that the `Engine` or `Runner` function computes
  from the old state. Everything proved about those functions therefore
  holds of the methods.

Where the repository's files disagree, the model follows
`CSVComparison/CSVComparer.cs`:

- `CSVComparison/BreakType.cs` names the orphan kinds
  `RowInReferenceNotInTarget` and `RowInTargetNotInReference`, and the tests
  use those names and a `TargetSource` field. `CSVComparer.cs` uses
  `RowInReferenceNotInCandidate` and `RowInCandidateNotInReference`, and the
  model takes those.
- The description texts are taken from `CSVComparer.cs` and `BreakDetail.cs`,
  not from the older texts the tests assert.

Behaviour of the source that the model keeps, although it is probably not
intended:

- `GetEndQuoteIndex` restarts its search at index 0 when an opening quote has
  no closing quote.
- On `"a",b,"c,d` the splitter therefore computes a negative `Substring`
  length and throws (`TokenizerExamples.RestartedSearchThrows`). The loader
  turns that into a ProcessFailure break.
- A row wider than the header has a column with no name. The comparison of
  that column throws `IndexOutOfRange`, which ends `CompareFiles`.
- A file in which no loader reaches its header leaves `CompareCsvs` waiting
  forever on its start event. The model returns `NeverStarted` for it.

## Model

| member | source | states |
|---|---|---|
| CsvTypes.AnyMatch | CSVComparison/CSVComparer.cs:445-451 | an exclusion list matches a key exactly when some pattern in it matches |
| Breaks.Blank | CSVComparison/BreakDetail.cs:48 | the parameterless constructor leaves type Match, row indices 0 and every string empty |
| Breaks.NatToStringValue | CSVComparison/BreakDetail.cs:67 | the decimal text of a natural is non-empty digits denoting it, with no leading zero |
| Breaks.IntToStringValue | CSVComparison/BreakDetail.cs:67 | the text of an integer is its sign followed by digits denoting its magnitude |
| Breaks.IntToStringInjective | CSVComparison/BreakDetail.cs:67 | distinct row indices print distinctly |
| Breaks.NewBreak | CSVComparison/BreakDetail.cs:50-68 | the 7-argument constructor stores every argument and builds the "Key:..., Reference Row:..., Value:... != Candidate Row:..., Value:..." description |
| Breaks.DescriptionIgnoresTypeAndColumn | CSVComparison/BreakDetail.cs:67 | the description depends on neither the break type nor the column name |
| Breaks.DescriptionKeyPrefix | CSVComparison/BreakDetail.cs:67 | the description starts with "Key:" followed by the key |
| Breaks.BreakTypeNameInjective | CSVComparison/BreakDetail.cs:72 | distinct break types print different names |
| Breaks.ToStringParts | CSVComparison/BreakDetail.cs:70-73 | ToString is "Break Type: ", the type's name, ". Description " and the description, at those positions |
| Breaks.ToStringDetermines | CSVComparison/BreakDetail.cs:70-73 | two breaks with the same ToString text have the same type and description |
| Breaks.OrphanBreak | CSVComparison/CSVComparer.cs:84-91 | an orphan break carries the key, the row index on its own side and -1 on the other, and "Key missing: " with the key |
| Breaks.ColumnsBreak | CSVComparison/CSVComparer.cs:361 | a ColumnsDifferent break says "Reference has n columns, Candidate has m columns" |
| Breaks.ProcessFailureBreak | CSVComparison/CSVComparer.cs:192-196 | a ProcessFailure break says "Problem loading <file> : <message>" |
| Tokenizer.MatchFromSlice | CSVComparison/CSVComparer.cs:504 | the character-by-character match of a delimiter from a position is equality of the slice |
| Tokenizer.OccursAtSlice | CSVComparison/CSVComparer.cs:504 | a delimiter occurs at k exactly when the slice at k equals it |
| Tokenizer.IndexOf | CSVComparison/CSVComparer.cs:504 | `IndexOf` returns -1 or a position from the start index on where the delimiter fits; an empty delimiter is found at the start |
| Tokenizer.IndexOfFirst | CSVComparison/CSVComparer.cs:504 | a found index is an occurrence with none before it; -1 means no occurrence from the start index on |
| Tokenizer.IndexOfQuote | CSVComparison/CSVComparer.cs:498 | the quote search returns -1 or the position of a quote at or after the start |
| Tokenizer.IndexOfQuoteFirst | CSVComparison/CSVComparer.cs:519 | the quote found is the first one; -1 means no quote remains |
| Tokenizer.ScanQuote | CSVComparison/CSVComparer.cs:561-573 | the scan for an end quote returns -1 or a quote after the start that is not followed by another quote |
| Tokenizer.ScanQuotePaired | CSVComparison/CSVComparer.cs:554-573 | the quotes the scan skips come in doubled pairs |
| Tokenizer.EndQuoteMeaning | CSVComparison/CSVComparer.cs:557-585 | GetEndQuoteIndex loops forever exactly when the line starts with a quote and neither the scan from the start index nor the restarted scan from 0 finds a closing quote; otherwise it returns -1 after paired quotes only, or a closing quote that follows the start or, after a restart, follows index 0 |
| Tokenizer.GetEndQuoteIndex | CSVComparison/CSVComparer.cs:557-585 | the loop of the source returns the end quote that EndQuote defines whenever it terminates |
| Tokenizer.ScanFromStep | CSVComparison/CSVComparer.cs:504-531 | one loop iteration: a field end before the search index throws ArgumentOutOfRange; otherwise the field is added and the search moves past the delimiter |
| Tokenizer.ScanFromPlainStep | CSVComparison/CSVComparer.cs:504-531 | with no opening quote before the delimiter, the field up to the delimiter is added |
| Tokenizer.ScanFromQuotedStep | CSVComparison/CSVComparer.cs:508-531 | with an opening quote before the delimiter, the field runs to its end quote and the next quote is searched after it |
| Tokenizer.ScanFromLive | CSVComparison/CSVComparer.cs:508-521 | an iteration that does not loop forever finds the end of its field |
| Tokenizer.ScanFromExit | CSVComparison/CSVComparer.cs:534-543 | after the loop, the rest of the line and a final empty field for a trailing delimiter are added |
| Tokenizer.FieldEndIndex | CSVComparison/CSVComparer.cs:508-521 | the quote handling of one iteration computes the field end and the next opening quote |
| Tokenizer.SplitWithQuotes | CSVComparison/CSVComparer.cs:496-546 | the shared splitting loop returns the fields of SplitSpec, or None exactly when Substring would throw |
| Tokenizer.SplitStringWithQuotes | CSVComparison/CSVComparer.cs:496-546 | CSVComparer's splitter, which advances one character past a delimiter, computes SplitSpec |
| Tokenizer.SplitRowWithQuotes | CSVComparison/RowHelper.cs:21-71 | RowHelper's splitter, which advances by the delimiter's length, computes SplitSpec |
| Tokenizer.SplitOn | CSVComparison/CSVComparer.cs:141 | `String.Split` returns at least one piece |
| TokenizerFacts.SplitFromJoin | CSVComparison/CSVComparer.cs:141 | joining the pieces of a split from position i with the delimiter gives back the line from i |
| TokenizerFacts.SplitOnJoin | CSVComparison/CSVComparer.cs:141 | joining the pieces of `String.Split` with the delimiter gives back the line |
| TokenizerFacts.IndexOfIs | CSVComparison/CSVComparer.cs:504 | `IndexOf` returns the first occurrence from its start index |
| TokenizerFacts.IndexOfNone | CSVComparison/CSVComparer.cs:504 | `IndexOf` returns -1 when there is no occurrence |
| TokenizerFacts.OccursAtChar | CSVComparison/CSVComparer.cs:133 | a one-character delimiter occurs exactly where that character stands |
| TokenizerFacts.JoinSplitAt | CSVComparison/CSVComparer.cs:141 | splitting a join of fields free of the delimiter returns those fields |
| TokenizerFacts.JoinSplit | CSVComparison/CSVComparer.cs:141 | `String.Split` inverts joining fields that do not contain the delimiter |
| TokenizerFacts.SplitFromNoSeparator | CSVComparison/CSVComparer.cs:141 | no piece of a split contains the delimiter |
| TokenizerFacts.SplitFromCount | CSVComparison/CSVComparer.cs:141 | a split from position i has one piece more than the delimiters after i |
| TokenizerFacts.SplitOnCount | CSVComparison/CSVComparer.cs:141 | `String.Split` has one piece more than the delimiters in the line |
| TokenizerFacts.ScanQuoteFree | CSVComparison/RowHelper.cs:29-68 | on a quote-free line the splitting loop after a delimiter gives the pieces of `String.Split` |
| TokenizerFacts.SplitQuoteFree | CSVComparison/RowHelper.cs:21-71 | on a quote-free line that does not start with the delimiter, RowHelper's splitter agrees with `String.Split` when no two occurrences of the delimiter can overlap |
| TokenizerFacts.SplitQuoteFreeChar | CSVComparison/CSVComparer.cs:133-142 | on a quote-free line that does not start with the delimiter, the quote-aware split equals `String.Split`, with one field more than the delimiters |
| TokenizerFacts.LeadingDelimiter | CSVComparison/CSVComparer.cs:504 | a line starting with the delimiter stops the loop at once: the whole line is one field, plus an empty field for a trailing delimiter |
| TokenizerFacts.EmptyLine | CSVComparison/CSVComparer.cs:534-545 | the empty line has no fields |
| TokenizerFacts.QuotedField | CSVComparison/CSVComparer.cs:508-526 | a field opening with a closed quote before a delimiter runs through its end quote, delimiters inside included |
| TokenizerFacts.QuotedFieldText | CSVComparison/CSVComparer.cs:557-573 | such a field ends at a single quote, and the quotes inside it are doubled |
| TokenizerFacts.QuoteToEndOfLine | CSVComparison/CSVComparer.cs:512-515 | a quote closed only at the end of the line, or never closed, makes the rest of the line one field |
| TokenizerFacts.PlainBeforeQuote | CSVComparison/CSVComparer.cs:498-531 | a plain first field before a delimiter and a quote is cut at that delimiter, and the loop moves on to the quote |
| TokenizerFacts.UnclosedToEnd | CSVComparison/CSVComparer.cs:508-543 | a quote that is never closed, with a delimiter after it and none at the end of the line, makes the rest of the line the last field |
| TokenizerFacts.UnclosedAfterPlain | CSVComparison/CSVComparer.cs:496-546 | a plain field, the delimiter, then a field that opens a quote it never closes and ends without a delimiter split into exactly those two fields |
| TokenizerFacts.TailPlaced | CSVComparison/CSVComparer.cs:534-543 | the fields added after the loop, the rest of the line and a final empty field, lie at increasing positions from the search index on |
| TokenizerFacts.ConsPlaced | CSVComparison/CSVComparer.cs:523 | a field cut before the later fields' positions keeps the positions increasing and the fields apart |
| TokenizerFacts.ScanFromSlices | CSVComparison/CSVComparer.cs:504-543 | the loop keeps the fields already added, and the fields it adds from position i on lie in the line at strictly increasing positions at or after i, each ending at or before the next one starts |
| TokenizerFacts.SplitSlices | CSVComparison/CSVComparer.cs:496-546 | the fields of either splitter lie in the line at strictly increasing positions, each ending at or before the next one starts |
| TokenizerFacts.PairedShift | CSVComparison/CSVComparer.cs:561-573 | whether a stretch of text holds only doubled quotes does not depend on where the text is copied |
| TokenizerFacts.PairedSkip | CSVComparison/CSVComparer.cs:561-573 | quote-free text before a stretch of doubled quotes keeps that property |
| TokenizerFacts.ScanQuoteTo | CSVComparison/CSVComparer.cs:557-573 | over doubled quotes up to a quote not followed by another, the end-quote scan stops at that quote |
| TokenizerFacts.QuotedEnd | CSVComparison/CSVComparer.cs:557-585 | GetEndQuoteIndex of a quoted field copied into the line is the field's closing quote |
| TokenizerFacts.PlainFieldSearches | CSVComparison/CSVComparer.cs:498-506 | for a plain field followed by the delimiter, the delimiter search from the field start finds that delimiter, and the next quote lies past it |
| TokenizerFacts.QuotedFieldSearches | CSVComparison/CSVComparer.cs:504-511 | for a quoted field followed by the delimiter, the quote search finds its opening quote, the delimiter search stops inside or right after it, and GetEndQuoteIndex returns its closing quote |
| TokenizerFacts.ScanJoinedLast | CSVComparison/CSVComparer.cs:504-543 | the last plain or quoted field of a join is read back to the end of the line |
| TokenizerFacts.ScanJoinedPlain | CSVComparison/CSVComparer.cs:523-527 | a plain field before a delimiter is cut at that delimiter, and the line's remaining fields follow |
| TokenizerFacts.ScanJoinedQuoted | CSVComparison/CSVComparer.cs:508-527 | a quoted field before a delimiter is cut after its closing quote, delimiters inside included, and the remaining fields follow |
| TokenizerFacts.ScanJoined | CSVComparison/CSVComparer.cs:504-543 | from the start of a field of a join, the loop reads back that field and all after it |
| TokenizerFacts.SplitJoin | CSVComparison/CSVComparer.cs:496-546 | fields that are each plain or quoted, the first not empty, joined with a one-character delimiter other than the quote, split back into those fields in both splitters |
| TokenizerExamples.StringSplit | CSVComparisonTests/TestInternals.cs:9-18 | "A,B,C" splits into "A", "B" and "C" |
| TokenizerExamples.StringSplitEmptyColumns | CSVComparisonTests/TestInternals.cs:21-30 | "A,," splits into "A", "" and "" |
| TokenizerExamples.ComplexStringSplit | CSVComparisonTests/TestInternals.cs:33-43 | the test's line with a quoted comma gives its three fields, the quoted one with its comma and quotes |
| TokenizerExamples.ComplexStringSplitMultipleCommasInQuotes | CSVComparisonTests/TestInternals.cs:46-56 | the test's line with three commas inside one quoted field gives its three fields |
| TokenizerExamples.ComplexStringSplitMultipleQuotes | CSVComparisonTests/TestInternals.cs:59-70 | the test's line with two quoted fields, each holding a comma, gives its four fields |
| TokenizerExamples.ComplexStringSplitQuoteNotClosed | CSVComparisonTests/TestInternals.cs:74-83 | the test's line with an unclosed quote gives two fields, the second running to the end of the line |
| TokenizerExamples.QuoteAsLastCharacter | CSVComparisonTests/TestInternals.cs:86-94 | `A,B,"C,D"` gives three fields, the last being `"C,D"` |
| TokenizerExamples.QuoteInsideAField | CSVComparisonTests/TestInternals.cs:97-105 | the test's first line, with a doubled quote inside a quoted field, gives its four fields |
| TokenizerExamples.QuoteInsideAFieldWithComma | CSVComparisonTests/TestInternals.cs:107-110 | the test's second line, with a doubled quote and a comma inside a quoted field, gives its four fields |
| TokenizerExamples.MultipleQuotesInsideAField | CSVComparisonTests/TestInternals.cs:114-123 | the test's line with two doubled quotes in a row inside a quoted field gives its four fields |
| TokenizerExamples.MultipleQuotesAtStartOfField | CSVComparisonTests/TestInternals.cs:126-135 | the test's line with a doubled quote right after the opening quote gives its four fields |
| TokenizerExamples.OverlappingDelimiter | CSVComparison/RowHelper.cs:29-68 | with the delimiter "==", "a===" splits into "a", "=" and "" |
| TokenizerExamples.RestartedSearchThrows | CSVComparison/CSVComparer.cs:511-523 | `"a",b,"c,d` ends in ArgumentOutOfRange: the restarted end-quote search lands before the field start |
| Loader.SplitColumns | CSVComparison/CSVComparer.cs:132-142 | a one-character delimiter on a line with a quote uses the quote-aware splitter; every other line uses `String.Split` |
| Loader.KeyIndexesUpToMeaning | CSVComparison/CSVComparer.cs:460-466 | the key indices found in the first n header fields are ascending, below n, and exactly the fields named as key columns |
| Loader.KeyIndexesNone | CSVComparison/CSVComparer.cs:460-468 | the key-index loop finds nothing exactly when no header field is a key column |
| Loader.KeyIndexesMeaning | CSVComparison/CSVComparer.cs:456-474 | GetKeyIndexes throws exactly when key columns are configured and none is in the header; otherwise it gives, ascending, the header positions whose field is a key column |
| Loader.GetKeyIndexes | CSVComparison/CSVComparer.cs:456-474 | the loop of the source computes KeyIndexes |
| Loader.GetExcludedColumns | CSVComparison/CSVComparer.cs:476-489 | a position is excluded exactly when it is in the header and its field is a configured excluded column |
| Loader.TrimStartMeaning | CSVComparison/CSVComparer.cs:169 | trimming ':' at the start removes a run of ':' and keeps the rest |
| Loader.TrimEndMeaning | CSVComparison/CSVComparer.cs:169 | trimming ':' at the end removes a run of ':' and keeps the rest |
| Loader.TrimMeaning | CSVComparison/CSVComparer.cs:169 | `Trim(':')` returns a middle slice with no ':' at either end, removing only ':' |
| Loader.TrimOneTrailing | CSVComparison/CSVComparer.cs:169 | `Trim(':')` of a text that neither starts nor ends with ':', followed by one ':', gives the text back |
| Loader.BuildKey | CSVComparison/CSVComparer.cs:163-169 | the key is the key fields each followed by ':', trimmed of ':'; a key index beyond the row throws |
| Loader.KeyTextJoin | CSVComparison/CSVComparer.cs:163-167 | the key text before trimming is the key fields joined with ':' followed by ':' |
| Loader.RowKeyRoundTrip | CSVComparison/CSVComparer.cs:163-169 | when no key field contains ':' and the first and last are non-empty, the key is the fields joined with ':' and splitting it on ':' gives them back |
| Loader.RowKeyInjective | CSVComparison/CSVComparer.cs:163-169 | under the same conditions, distinct key field lists give distinct keys |
| Loader.LoadLine | CSVComparison/CSVComparer.cs:132-180 | one iteration of the load loop computes LoadStep: the split, the header handling and the enqueue of a row |
| Loader.LoadFile | CSVComparison/CSVComparer.cs:117-201 | the load loop computes Load: the rows enqueued in order, the excluded columns, and the exception that ended it |
| Loader.AfterHeaderStep | CSVComparison/CSVComparer.cs:159-180 | after the header, a line appends exactly one row when it is kept, with its line index and the key of its fields, and otherwise changes nothing |
| Loader.LoadAfterHeader | CSVComparison/CSVComparer.cs:130-181 | the loop after the header only appends rows built from their lines and keeps the excluded columns |
| Loader.LoadAfterHeaderKept | CSVComparison/CSVComparer.cs:159-175 | a load after the header that does not throw appends exactly the kept lines, in order |
| Loader.LoadBeforeHeader | CSVComparison/CSVComparer.cs:144-159 | lines before the header enqueue nothing and set no excluded columns: the load throws with nothing enqueued, or equals the load from the header line on, or enqueues nothing when the file has no header line |
| Loader.LoadFromStart | CSVComparison/CSVComparer.cs:125-181 | a file without its header line enqueues nothing; a file that reaches the header without exception is HeaderLoaded |
| Loader.HeaderStep | CSVComparison/CSVComparer.cs:144-157 | the header line resolves the key indices, the width and the excluded columns, and is itself enqueued as the first row |
| Loader.LoadFromHeader | CSVComparison/CSVComparer.cs:144-181 | from the header on, a load that does not throw enqueues the kept lines, from the header on, with the key of their fields |
| Loader.KeptHeader | CSVComparison/CSVComparer.cs:159-161 | the header line is always kept |
| Loader.LoadMeaning | CSVComparison/CSVComparer.cs:117-201 | LoadFile enqueues nothing when the header index is beyond the file, and otherwise, when it does not throw, the header was split and the rows are the kept lines |
| Loader.KeptFromAll | CSVComparison/CSVComparer.cs:161 | when invalid rows are not ignored, every line from the header on is enqueued |
| Engine.AddBreak | CSVComparison/CSVComparer.cs:437-454 | a break whose key an exclusion matches is dropped; otherwise the 7-argument break is appended |
| Engine.AddOrphan | CSVComparison/CSVComparer.cs:69-93 | an orphan whose key an orphan exclusion matches is dropped; otherwise its orphan break is appended |
| Engine.DifferingFrom | CSVComparison/CSVComparer.cs:367-388 | the columns listed are in range and not excluded |
| Engine.DifferingFromMeaning | CSVComparison/CSVComparer.cs:367-388 | the columns listed are, ascending, exactly the non-excluded columns whose values differ |
| Engine.ColumnsFromStep | CSVComparison/CSVComparer.cs:367-388 | one iteration: a non-excluded differing column adds its ValueMismatch break and clears success; any other column changes nothing |
| Engine.ColumnsFromCovered | CSVComparison/CSVComparer.cs:365-390 | when the header names each compared column, the loop adds one break per differing column in ascending order (none for an excluded key) and succeeds exactly when none differs |
| Engine.MismatchBreaksAt | CSVComparison/CSVComparer.cs:367-388 | the m-th value break is the ValueMismatch break of the m-th differing column, with its header name and both values |
| Engine.AddBreakMismatches | CSVComparison/CSVComparer.cs:383-386 | adding the break of one column and then those of the later differing columns gives the breaks of all of them in column order, or none for an excluded key |
| Engine.ColumnsFromThrows | CSVComparison/CSVComparer.cs:369-377 | the loop throws exactly when the excluded columns are null or a compared column has no header name |
| Engine.DifferingSame | CSVComparison/CSVComparer.cs:383 | a row compared with itself has no differing column |
| Engine.CompareValuesMeaning | CSVComparison/CSVComparer.cs:354-391 | rows of different widths add one ColumnsDifferent break and fail; rows of equal width add the ValueMismatch breaks of the differing columns and succeed exactly when every compared column is equal |
| Engine.CompareValuesSame | CSVComparison/CSVComparer.cs:354-391 | a row compared with itself adds no break and succeeds |
| Engine.CompareRowMeaning | CSVComparison/CSVComparer.cs:295-315 | the first CompareRow takes the reference row's fields as header names and sets earlyTerminate when the comparison fails; later calls only compare; nothing else changes |
| Engine.GetOrAddOrphanMeaning | CSVComparison/CSVComparer.cs:325-344 | a key waiting on the other side is taken out and returned; a fresh key is added to its own side; a key already waiting on its own side throws; the dictionaries stay disjoint |
| Engine.Dequeue | CSVComparison/CSVComparer.cs:225-237 | each non-empty queue loses its head and its counter grows by one; nothing else changes |
| Engine.ResolveCandidateMeaning | CSVComparison/CSVComparer.cs:270-277 | a candidate row meets its reference orphan and is compared, or becomes a candidate orphan; disjointness holds and orphan counts move by one |
| Engine.ResolveReferenceMeaning | CSVComparison/CSVComparer.cs:278-284 | a reference row meets its candidate orphan and is compared, or becomes a reference orphan; disjointness holds and orphan counts move by one |
| Engine.StepConserves | CSVComparison/CSVComparer.cs:215-286 | an iteration keeps the orphan dictionaries disjoint, and on each side the dequeued rows not waiting as orphans grow by the CompareRow calls made |
| Engine.DispatchConserves | CSVComparison/CSVComparer.cs:245-285 | the dispatch adds each dequeued row to the orphans or consumes one orphan per comparison; rows of the same key leave the dictionaries untouched |
| Engine.StepMeaning | CSVComparison/CSVComparer.cs:215-243 | earlyTerminate stops the loop with nothing changed; otherwise the loop ends exactly when at most one row was left per queue and no loader runs, and each non-empty queue is dequeued and counted |
| Engine.DispatchCompared | CSVComparison/CSVComparer.cs:245-285 | a dispatch makes at most one comparison per row dequeued |
| Engine.StepProgress | CSVComparison/CSVComparer.cs:225-243 | an iteration never grows the queues, and once no loader runs, an iteration that does not end the loop shrinks them |
| Engine.DispatchFrame | CSVComparison/CSVComparer.cs:245-285 | the dispatch leaves the queues, counters, loader count, excluded columns and start event alone |
| Engine.Apply | CSVComparison/CSVComparer.cs:153-203 | a loader event changes only the queues, the breaks, earlyTerminate, the loader count, the excluded columns and the start event |
| Engine.LoaderEvents | CSVComparison/CSVComparer.cs:117-204 | a loader's events end with its decrement |
| Engine.LoaderEventsExit | CSVComparison/CSVComparer.cs:203 | a loader decrements the running count exactly once |
| Engine.PushesAppend | CSVComparison/CSVComparer.cs:158-177 | the rows still to be pushed by two stretches of events add up |
| Engine.AllPushes | CSVComparison/CSVComparer.cs:158-177 | events that are all pushes each enqueue one row |
| Engine.LoaderEventsPushes | CSVComparison/CSVComparer.cs:158-177 | a loader's events enqueue each of its loaded rows exactly once |
| Engine.ExitLast | CSVComparison/CSVComparer.cs:203 | events that end with the decrement hold at least one decrement |
| Engine.KeptKeysMeaning | CSVComparison/CSVComparer.cs:71-82 | an orphan key is reported exactly when no orphan exclusion matches it |
| Engine.FlushFromMeaning | CSVComparison/CSVComparer.cs:49-57 | flushing a dictionary in its enumeration order appends the orphan breaks of its non-excluded keys in that order |
| Engine.KeptOrphansCons | CSVComparison/CSVComparer.cs:47-57 | the orphan breaks of a key list are the first key's break, unless that key is excluded, followed by those of the remaining keys |
| Engine.FlushBoth | CSVComparison/CSVComparer.cs:49-57 | the candidate orphans are flushed before the reference orphans |
| Engine.FlushMeaning | CSVComparison/CSVComparer.cs:47-58 | after an early termination the flush adds nothing; otherwise it appends RowInCandidateNotInReference breaks for the non-excluded candidate orphans, then RowInReferenceNotInCandidate breaks for the reference orphans |
| Runner.LoaderAct | CSVComparison/CSVComparer.cs:41-42 | a loader's turn does not touch the comparison task's progress |
| Runner.ComparerTurn | CSVComparison/CSVComparer.cs:212-243 | once started and before its loop ends, the comparison task's turn is one iteration, and its exception ends the run |
| Runner.DrainStep | CSVComparison/CSVComparer.cs:215-286 | with both loaders done, the rest of CompareCsvs is one iteration followed by the rest from its result |
| Runner.Start | CSVComparison/CSVComparer.cs:39-43 | after ResetState the running-loader count equals the decrements still to come |
| Runner.ActPending | CSVComparison/CSVComparer.cs:203 | every turn keeps the running-loader count equal to the decrements still to come |
| Runner.LoaderActPending | CSVComparison/CSVComparer.cs:203 | a loader's turn keeps the running-loader count equal to the decrements still to come |
| Runner.RunPending | CSVComparison/CSVComparer.cs:203 | every schedule keeps the running-loader count equal to the decrements still to come |
| Runner.ActBalanced | CSVComparison/CSVComparer.cs:215-286 | every turn keeps the orphan dictionaries disjoint and the dequeued rows not waiting as orphans equal to the comparisons, on both sides |
| Runner.LoaderActBalanced | CSVComparison/CSVComparer.cs:117-204 | a loader's turn keeps that invariant |
| Runner.RunBalanced | CSVComparison/CSVComparer.cs:41-43 | every schedule keeps that invariant |
| Runner.DrainMeaning | CSVComparison/CSVComparer.cs:215-286 | once both loaders are done, CompareCsvs reaches the end of its loop, and the invariant holds |
| Runner.FinishMeaning | CSVComparison/CSVComparer.cs:45 | Task.WaitAll returns with no event left, no loader running, the loop ended and the invariant held |
| Runner.ExecuteMeaning | CSVComparison/CSVComparer.cs:39-45 | whatever the interleaving, the three tasks end with no event left, no loader running and the invariant held; every loaded row is counted or still queued, and unless the comparison was terminated early both queues are empty and each counter equals the rows its loader enqueued |
| Runner.LoaderActFlows | CSVComparison/CSVComparer.cs:153-203 | a loader's turn moves a row still to be pushed into its queue, keeping count plus queue plus pushes to come equal to the rows loaded |
| Runner.NoEventsLeft | CSVComparison/CSVComparer.cs:203 | a loader with no decrement to come has no event to come |
| Runner.ActFlows | CSVComparison/CSVComparer.cs:215-243 | every turn keeps the rows accounted for, and the iteration that ends the loop without early termination leaves both queues empty and no loader event |
| Runner.RunFlows | CSVComparison/CSVComparer.cs:41-43 | every schedule keeps the rows accounted for |
| Runner.DrainFlows | CSVComparison/CSVComparer.cs:215-286 | the comparison task alone keeps the rows accounted for |
| Runner.FinishFlows | CSVComparison/CSVComparer.cs:45 | Task.WaitAll keeps the rows accounted for |
| Runner.StartFlows | CSVComparison/CSVComparer.cs:39-43 | after ResetState every loaded row is still to be pushed |
| Runner.RowCounts | CSVComparison/CSVComparer.cs:59-66 | CompareFiles returns exactly when the run does, and unless the comparison was terminated early NumberOfReferenceRows and NumberOfCandidateRows are the numbers of rows the loaders enqueued |
| Runner.ApplyKeeps | CSVComparison/CSVComparer.cs:190-200 | a loader event never drops a break or clears earlyTerminate, and a failure event records its break and sets earlyTerminate |
| Runner.LoaderActReports | CSVComparison/CSVComparer.cs:190-200 | a loader's turn keeps a pending or recorded failure break |
| Runner.ActReports | CSVComparison/CSVComparer.cs:190-200 | every turn keeps a pending or recorded failure break |
| Runner.RunReports | CSVComparison/CSVComparer.cs:190-200 | every schedule keeps a pending or recorded failure break |
| Runner.DrainReports | CSVComparison/CSVComparer.cs:190-200 | the comparison task alone keeps a recorded failure break |
| Runner.FinishReports | CSVComparison/CSVComparer.cs:190-200 | Task.WaitAll ends with the failure break recorded |
| Runner.FailEvent | CSVComparison/CSVComparer.cs:190-200 | a load that threw emits its ProcessFailure break |
| Runner.FailureReported | CSVComparison/CSVComparer.cs:190-200 | whatever the interleaving, a file that fails to load is reported by its ProcessFailure break, earlyTerminate is set, and the flush adds no orphan |
| SelfComparison.CompareRowSame | CSVComparison/CSVComparer.cs:295-315 | a row compared with itself adds no break, throws nothing and only settles the header check |
| SelfComparison.ResolveCandidateSelf | CSVComparison/CSVComparer.cs:270-277 | on one file, a candidate row either meets its reference orphan or waits, and the orphans stay the rows read on the side that is ahead |
| SelfComparison.ResolveReferenceSelf | CSVComparison/CSVComparer.cs:278-284 | on one file, a reference row either meets its candidate orphan or waits, and the orphans stay the rows read on the side that is ahead |
| SelfComparison.SameRowSelf | CSVComparison/CSVComparer.cs:248-251 | on one file, when both sides have dequeued the same number of rows, the next rows are the same row, and comparing it with itself keeps the bookkeeping |
| SelfComparison.DispatchSelf | CSVComparison/CSVComparer.cs:245-285 | on one file, a dispatch throws nothing, adds no break and keeps the orphan bookkeeping |
| SelfComparison.DequeueSelf | CSVComparison/CSVComparer.cs:225-237 | dequeuing takes the next enqueued row of each side that has one |
| SelfComparison.StepSelf | CSVComparison/CSVComparer.cs:215-286 | on one file, an iteration throws nothing and keeps the bookkeeping; the loop ends only when every row was dequeued and no loader runs |
| SelfComparison.EventsSelf | CSVComparison/CSVComparer.cs:144-204 | a file that loads without exception emits the excluded columns, each row, and the decrement |
| SelfComparison.ReferenceActSelf | CSVComparison/CSVComparer.cs:117-204 | the reference loader's turn keeps the self-comparison invariant |
| SelfComparison.CandidateActSelf | CSVComparison/CSVComparer.cs:117-204 | the candidate loader's turn keeps the self-comparison invariant |
| SelfComparison.StepStateSelf | CSVComparison/CSVComparer.cs:215-286 | an iteration keeps the shared state of a self-comparison |
| SelfComparison.ComparerActSelf | CSVComparison/CSVComparer.cs:209-287 | the comparison task's turn throws nothing and keeps the self-comparison invariant |
| SelfComparison.ActSelf | CSVComparison/CSVComparer.cs:41-43 | every turn throws nothing and keeps the self-comparison invariant |
| SelfComparison.RunSelf | CSVComparison/CSVComparer.cs:41-43 | every schedule throws nothing and keeps the self-comparison invariant |
| SelfComparison.DrainSelf | CSVComparison/CSVComparer.cs:215-286 | with both loaders done, the comparison task runs to the end of its loop without exception and the invariant holds |
| SelfComparison.FinishSelf | CSVComparison/CSVComparer.cs:45 | Task.WaitAll on a self-comparison returns without exception with the loop ended |
| SelfComparison.SelfComparisonClean | CSVComparisonTests/TestBasicComparison.cs:11-23 | a file with unique keys whose header names every compared column, compared with itself under any schedule, gives no break and counts every row on both sides |
| Comparer.CsvComparer.constructor | CSVComparison/CSVComparer.cs:16-35 | a new comparer holds the definition and starts with empty queues, dictionaries and breaks, the header check pending, two loaders running and no start event |
| Comparer.CsvComparer.ResetState | CSVComparison/CSVComparer.cs:95-110 | every field is returned to its initial value |
| Comparer.CsvComparer.AddBreak | CSVComparison/CSVComparer.cs:437-454 | the exclusion loop leaves the state Engine.AddBreak computes |
| Comparer.CsvComparer.AddOrphan | CSVComparison/CSVComparer.cs:69-93 | the exclusion loop leaves the state Engine.AddOrphan computes |
| Comparer.CsvComparer.GetOrAddOrphan | CSVComparison/CSVComparer.cs:325-344 | the dictionaries, the row returned and the exception are those of Engine.GetOrAddOrphan, with the sides in the order the caller passes them |
| Comparer.CsvComparer.CompareValues | CSVComparison/CSVComparer.cs:354-391 | the column loop returns the success, exception and breaks of Engine.CompareValues, and changes nothing else |
| Comparer.CsvComparer.CompareRow | CSVComparison/CSVComparer.cs:295-315 | the header check and comparison leave the state Engine.CompareRow computes |
| Comparer.CsvComparer.Resolve | CSVComparison/CSVComparer.cs:254-283 | the lookup of an unpartnered row in the other side's orphans, then its comparison, computes Engine.ResolveCandidate or Engine.ResolveReference |
| Comparer.CsvComparer.Dispatch | CSVComparison/CSVComparer.cs:245-285 | the dispatch of the dequeued rows computes Engine.Dispatch |
| Comparer.CsvComparer.Iterate | CSVComparison/CSVComparer.cs:217-285 | one pass of CompareCsvs' loop computes Engine.Step |
| Comparer.CsvComparer.CompareCsvs | CSVComparison/CSVComparer.cs:209-287 | with both loaders done, CompareCsvs' loop leaves the state, or throws the exception, of the comparison task run alone |
| Comparer.CsvComparer.Receive | CSVComparison/CSVComparer.cs:153-203 | a loader's locked update applies its event to the fields |
| Comparer.CsvComparer.FlushOrphans | CSVComparison/CSVComparer.cs:47-58 | the two foreach loops append the breaks Engine.Flush computes |
| Comparer.CsvComparer.Turn | CSVComparison/CSVComparer.cs:41-43 | one task's turn on the fields computes Runner.Act |
| Comparer.CsvComparer.RunTurns | CSVComparison/CSVComparer.cs:41-43 | the turns of a schedule on the fields compute Runner.Run |
| Comparer.CsvComparer.WaitAll | CSVComparison/CSVComparer.cs:45 | Task.WaitAll on the fields computes Runner.Finish |
| Comparer.CsvComparer.CompareFiles | CSVComparison/CSVComparer.cs:37-67 | ResetState, the loads, the tasks, WaitAll and the flush return the ComparisonResult Runner.CompareFiles defines |

## Left out

- Threads: `Task.Run`, `lock`, `Interlocked` and the `ManualResetEvent` are
  replaced by an explicit schedule of atomic turns. Each loader's locked
  update and each iteration of `CompareCsvs` is one turn. A finer
  interleaving inside an iteration is not modelled. Inside an iteration,
  the source reads `_earlyTerminate` and `_excludedColumns` without a lock.
- Task.WaitAll: after the schedule, `Finish` runs each loader's remaining
  events before the comparison task's remaining iterations, in a fixed
  order. Other orders are covered because the schedule itself is arbitrary.
- the deadlock: `WaitOne` waiting forever, when no loader ever sets the start
  event, is the error `NeverStarted`.
- File I/O: `File.OpenRead` and `StreamReader.ReadLine` are replaced by the
  file's lines, given as a sequence of strings. An I/O exception is not
  modelled, and neither is `Console.WriteLine`. `DateTime.Now` is not set
  in the result.
- CompareWithTolerance: the Absolute and Relative tolerance paths parse
  doubles and compare floating-point values; only the Exact path is
  modelled.
- Regular expressions: `Regex.IsMatch` is the definition's `isMatch`
  parameter.
- Loader.Message: the exceptions are represented by names. Their messages
  are the comparer's own text for a missing key column and the runtime's
  default text for an index past the end of an array. Substring's
  ArgumentOutOfRange message names the argument that failed; the model
  gives that exception type's generic text instead.
- Dictionary enumeration order: the order in which the flush enumerates an
  orphan dictionary is the `enumerate` parameter. Any order listing each
  key once is allowed.
- Nulls: a null string of a break is "". A null `_excludedColumns` or
  `_headerColumns` is None, and dereferencing one is the `NullReference`
  failure.
- Tokenizer.GetEndQuoteIndex: the input on which it loops forever, a line
  that starts with an unclosed quote, is excluded by the preconditions
  (`Splits`, `AllSplit`, `SplitSpec(...) != NoTermination`). Only the
  behaviour on lines that terminate is modelled.
- Tokenizer.IndexOfQuote: the searches for `"\""` are ordinal, character
  by character. The source calls `String.IndexOf(string)` and
  `String.IndexOf(string, int)`, which compare with the current culture. That
  matching can skip ignorable characters such as the soft hyphen U+00AD and
  treats combining sequences as units. This is not modelled.
- Tokenizer.IndexOf: the delimiter search, and `EndsWith` with it, are
  ordinal. The source's `String.IndexOf(string, int)` and
  `String.EndsWith(string)` are culture-sensitive, so a line ending in the
  delimiter followed by U+00AD can end with the delimiter there and not in
  the model. Only `String.Split` is ordinal in the source as in the model.
- Counters: the `long` row counters and the `int` indices are unbounded
  integers; their overflow is not modelled.
- Comparer.CsvComparer.CompareCsvs: the method covers the loop once both
  loaders have finished. The loop interleaved with the loaders is
  `Iterate` and `Turn`.
- Comparer.CsvComparer.Turn: the comparison count carried from turn to turn
  is ghost, as it exists only for the proofs.
- `RowHelper.SplitRowWithQuotes(ReadOnlySpan<char>, string)`, the overload
  at RowHelper.cs:9-14, is a placeholder that returns null; it is not
  modelled.
- ComparisonUtils, Program and the reporting code are not part of this
  model.
