# pynotes core, modelled in Dafny

This project models three small Python modules of the pynotes repository and
proves properties of each model.

- **`parse_logic_expression.py`, the boolean-expression parser.** `Parser.parse` first
  runs a parenthesis-extraction pre-pass. It finds the leftmost innermost `( … )`
  group, parses what is inside it, and stores the result in the side table
  `_parentheses_exp` under a `KEY.`-prefixed key. It then replaces every copy of the
  group in the text by that key and repeats. After the pre-pass a four-layer split
  parser runs:
  - `_proc_exp` splits on ` OR `;
  - `_proc_and` splits on ` AND `;
  - `_proc_xor` splits on ` XOR `;
  - `_proc_end_value` handles `NOT ` and the operands.

  Each splitting layer strips the parts. It builds one flat operator node when there
  are two or more parts, and hands a single part down unchanged. Operands are a
  side-table key, a `HC:` health-check reference, a `Rule:` rule reference, or a
  literal.
- **`structure_item.py`, path lookup.** `extract_item` walks a dot-separated path
  through nested dicts and lists/tuples. `ensure_item_exists` turns the lookup into a
  boolean.
- **`cycle_reader.py`, a reading schedule.** A library of books is read a fixed number
  of chapters a day, book after book, and starts again at the end. `read_today` says
  which book and which chapters fall on a given day.

Files:

| file | module | what |
|---|---|---|
| `wrappers.dfy` | `Wrappers` | `Option`, `Result` |
| `py_strings.dfy` | `PyStrings` | the Python `str` operations the parser uses: `strip`, `find`, `split`, `count`, `join`, `replace` |
| `logic_parser.dfy` | `LogicParser` | the IR, the split layers, the operand resolver, the group pattern, the keys |
| `logic_extraction.dfy` | `LogicExtraction` | the extraction pre-pass as a function, and the `Parser` class with its side table |
| `logic_roundtrip.dfy` | `LogicRoundTrip` | a grammar of parenthesis-free expressions, and the proof that parsing a written expression gives back its tree |
| `logic_examples.dfy` | `LogicExamples` | the documented examples of the parser, proved |
| `structure_item.dfy` | `StructureItem` | values, the path walk, `extract_item`, `ensure_item_exists` |
| `cycle_reader.dfy` | `CycleReader` | books, daily blocks, `read_today` |

Where the code is a loop or updates state, the model is imperative:
- `Parser` is a class whose field `parenthesesExp` is the side table. `ExtractParentheses` and `Parse` modify it.
- `ExtractItem` and `ReadToday` are methods with `while` loops.

Each of these is proved equal to a specification function, and the properties are proved about that function.

Two behaviours of the code are modelled as written:
- `str.replace` is called without a count, so the pre-pass replaces every copy of a group.
- On an unmatched `(` the code does not raise a clean error. `_extract_parentheses` falls through and returns `None`, which then crashes `_proc_exp`. The model reports `Err(UnmatchedParenthesis)` at that point.

## Model

| member | source | states |
|---|---|---|
| PyStrings.Strip | parse_logic_expression.py:17 | `strip()` never lengthens the text; the result is empty exactly when the text is all whitespace, and otherwise starts and ends with a non-whitespace character |
| PyStrings.StripAt | parse_logic_expression.py:17 | the stripped text is a slice of the input, and everything cut off on either side is whitespace |
| PyStrings.StripKeeps | parse_logic_expression.py:17 | a text that starts and ends with non-whitespace is its own `strip()` |
| PyStrings.FindFrom | parse_logic_expression.py:16-17 | the scan under `split`, `in` and `replace` (it is not called as `str.find`): it returns the leftmost occurrence at or after the start index, or none when there is no occurrence at all |
| PyStrings.JoinSplit | structure_item.py:31-34 | joining the pieces of `s.split(d)` with `d` gives `s` back |
| PyStrings.SplitJoin | structure_item.py:31-34 | splitting the join of pieces that do not contain the separator gives the pieces back |
| PyStrings.SplitPiecesFree | parse_logic_expression.py:16-17 | no piece of a split contains the separator |
| PyStrings.SplitCount | parse_logic_expression.py:16-17 | `len(s.split(d)) == s.count(d) + 1` |
| PyStrings.CountAtFirst | parse_logic_expression.py:16-17 | the non-overlapping count is one more than the count in the text after the first occurrence |
| PyStrings.ReplaceAllFirst | parse_logic_expression.py:140 | `replace` keeps the text before the first occurrence of the pattern, puts the replacement in its place and goes on replacing in the text after it |
| PyStrings.ReplaceAllAbsent | parse_logic_expression.py:140 | without an occurrence of the pattern, `replace` leaves the text unchanged |
| PyStrings.ReplaceAllLength | parse_logic_expression.py:140 | the length of `replace`'s result differs from the text's by `count` times the difference between the replacement's and the pattern's lengths |
| PyStrings.ReplaceAllDropsChar | parse_logic_expression.py:140 | replacing a pattern that holds a character by a text that does not never adds a copy of that character, and removes one whenever the pattern occurs |
| LogicParser.SplitStripped | parse_logic_expression.py:15-17 | `_split` returns `count + 1` parts, each stripped and none containing the delimiter |
| LogicParser.SplitStrippedOne | parse_logic_expression.py:15-17 | without the delimiter `_split` returns the stripped text alone |
| LogicParser.SplitStrippedTwo | parse_logic_expression.py:15-17 | with one delimiter `_split` returns the stripped text before it and the stripped text after it |
| LogicParser.MapAll | parse_logic_expression.py:79-82 | the list comprehension succeeds exactly when every part does, keeps the order and length, and otherwise fails with one part's error |
| LogicParser.ResolveOperand | parse_logic_expression.py:19-31 | a key in the side table returns the stored IR; every result is a stored group, a reference or a literal |
| LogicParser.ResolveOperandInverse | parse_logic_expression.py:19-31 | away from the table, a `HC:` reference or a `Rule:` reference rebuilds the text when its prefix is put back, and a literal is the text itself; `HC:` is checked before `Rule:`, and a literal has neither prefix |
| LogicParser.ProcEndValue | parse_logic_expression.py:33-66 | no `NOT ` resolves the whole text as an operand; two or more `NOT `s fail with the part-count error, and only they do; a result is an operand or a NOT over one operand; the layer never reports an unmatched parenthesis |
| LogicParser.ProcEndValueOne | parse_logic_expression.py:51-62 | with exactly one `NOT `, blank text before it gives a NOT node over the operand after it, and anything else fails with the first-part error |
| LogicParser.ProcLayer | parse_logic_expression.py:68-123 | the three splitting layers fail only with the NOT layer's errors |
| LogicParser.ProcLayerSplits | parse_logic_expression.py:68-123 | no separator hands the stripped text to the layer below; k separators give one flat node of the layer's operator with k+1 operands in textual order, the i-th being the layer below's result for the i-th part; the layer fails exactly when a part does, with the error of the first part that fails |
| LogicParser.ProcLayerShaped | parse_logic_expression.py:68-123 | a layer's result is a result of the layer below, or a flat node of its own operator over two or more of them; so XOR operands come only from the NOT layer, AND operands from the XOR layer, OR operands from the AND layer |
| LogicParser.ProcBelowShaped | parse_logic_expression.py:68-123 | `_proc_exp` takes its operands from `_proc_and`, `_proc_and` from `_proc_xor`, and `_proc_xor` from `_proc_end_value`, with the shapes those layers promise |
| LogicParser.Key | parse_logic_expression.py:138 | a group's key starts with `KEY.` |
| LogicParser.KeyShape | parse_logic_expression.py:138 | a key is `KEY.` and hexadecimal digits: one word with no parenthesis in it |
| LogicParser.Digest | parse_logic_expression.py:138 | the stand-in digest is lower-case hexadecimal |
| LogicParser.GroupEnd | parse_logic_expression.py:10 | the pattern either matches at a position, or matches nowhere starting there |
| LogicParser.FirstGroup | parse_logic_expression.py:136 | the first match is at the leftmost position where the pattern matches; none means the pattern matches nowhere |
| LogicParser.GroupAtUnique | parse_logic_expression.py:10 | the lazy quantifier leaves one match per position |
| LogicParser.FirstGroupIs | parse_logic_expression.py:136 | a match with no match to its left is the first match |
| LogicParser.ReplaceGroupShrinks | parse_logic_expression.py:140 | replacing every copy of a matched group by a key leaves fewer `(` |
| LogicExtraction.ExtractStep | parse_logic_expression.py:131-140 | one pass returns the text exactly when it has no `(`; it is stuck on an unmatched parenthesis exactly when there is a `(` but no match; a rewrite has fewer `(`, keeps every table key and adds only `KEY.` keys |
| LogicExtraction.Substitute | parse_logic_expression.py:137-140 | a group whose inside fails stops with that error; otherwise the table gains exactly the group's key, and the text has fewer `(` |
| LogicExtraction.SubstituteParsed | parse_logic_expression.py:137-140 | a group whose inside parses is stored under its key, and every copy of the group in the text is replaced by the key |
| LogicExtraction.ExtractStepParsed | parse_logic_expression.py:136-140 | the pass on a text whose first group parses stores the parse under the group's key and replaces every copy of the group |
| LogicExtraction.ExtractStepAt | parse_logic_expression.py:136-140 | the first match is parsed with the current side table |
| LogicExtraction.Extract | parse_logic_expression.py:125-140 | the whole pre-pass terminates because the `(` count decreases; a successful result has no `(`; the table only grows and only by `KEY.` keys; an unmatched-parenthesis error needs a `(` in the input |
| LogicExtraction.ExtractRewritten | parse_logic_expression.py:140 | after a rewrite the pre-pass carries on from the rewritten text and table |
| LogicExtraction.ParseExpression | parse_logic_expression.py:142-151 | a successful parse has the OR layer's shape over the table the pre-pass built; without `(` it is the split parser on an empty table |
| LogicExtraction.Parser.constructor | parse_logic_expression.py:12-13 | a new parser has an empty side table |
| LogicExtraction.Parser.ExtractParentheses | parse_logic_expression.py:125-140 | the method's result and its final side table are those of the pre-pass from the old table |
| LogicExtraction.Parser.Parse | parse_logic_expression.py:142-151 | the result depends on the argument alone, because the table is cleared on entry; the side table ends up as the pre-pass of the argument over an empty table |
| LogicRoundTrip.SplitStrippedJoin | parse_logic_expression.py:15-17 | `_split` of stripped, non-empty pieces joined by a delimiter none of them contains gives the pieces back |
| LogicRoundTrip.ProcLayerJoin | parse_logic_expression.py:75-85 | parts joined by a layer's separator parse to that layer's node over the parts' results, or to the one part's result |
| LogicRoundTrip.ProcLayerMany | parse_logic_expression.py:75-83 | two or more parts that each parse give one flat node with exactly those operands |
| LogicRoundTrip.ProcLayerOne | parse_logic_expression.py:84-85 | one part is handed down unchanged |
| LogicRoundTrip.LeafParses | parse_logic_expression.py:51-64 | a word parses to its operand, and `NOT ` and a word parse to a NOT over that operand |
| LogicRoundTrip.NegatedSplit | parse_logic_expression.py:51 | `NOT ` followed by a word holds the separator once, at the start |
| LogicRoundTrip.RenderSpaced | parse_logic_expression.py:113 | a written expression is its words joined by single spaces, and no word reaches above the layer it is written at |
| LogicRoundTrip.RoundTrip | parse_logic_expression.py:68-123 | every layer reads a written expression back as its tree: flat n-ary nodes, no binarisation, the layer order fixing the shape |
| LogicRoundTrip.RoundTripBelow | parse_logic_expression.py:68-123 | the layer below reads an operand's text back as the operand's tree |
| LogicRoundTrip.ParseRoundTrip | parse_logic_expression.py:142-151 | `parse` of a written parenthesis-free expression is its tree over an empty table |
| LogicExamples.NotExample | parse_logic_expression.py:36-37 | `_proc_end_value('NOT 1')` is a NOT node over the literal `1` |
| LogicExamples.HealthCheckExample | parse_logic_expression.py:38-39 | `HC:1` is a health-check reference to `1` |
| LogicExamples.RuleExample | parse_logic_expression.py:40-41 | `Rule:1` is a rule reference to `1` |
| LogicExamples.FirstPartExample | parse_logic_expression.py:42-45 | `1 NOT 2` fails with the first-part error |
| LogicExamples.PartCountExample | parse_logic_expression.py:46-49 | `1 NOT 2 NOT 3` fails with the part-count error |
| LogicExamples.TwoWords | parse_logic_expression.py:75-83 | two words around a layer's separator give that layer's node over the two operands |
| LogicExamples.XorExample | parse_logic_expression.py:72-73 | `_proc_and('1 XOR 2')` is an XOR node over `1` and `2` |
| LogicExamples.AndExample | parse_logic_expression.py:91-92 | `1 AND 2` is an AND node |
| LogicExamples.OrExample | parse_logic_expression.py:110-111 | `1 OR 2` is an OR node |
| LogicExamples.XorUnderAnd | parse_logic_expression.py:94-104 | without ` AND `, the AND layer gives what the XOR layer gives |
| LogicExamples.MixedParses | parse_logic_expression.py:146-147 | `a OR b AND NOT c XOR d` is OR[a, AND[b, XOR[NOT[c], d]]] for any operand words |
| LogicExamples.MixedExample | parse_logic_expression.py:146-147 | `parse('1 OR 2 AND NOT 3 XOR 4')` as documented |
| LogicExamples.LeadingGroup | parse_logic_expression.py:136 | a text that opens with a group free of parentheses matches that group first |
| LogicExamples.ExtractLeadingGroup | parse_logic_expression.py:131-140 | the pre-pass on such a text stores the group's parse under its key and leaves the key followed by the rest |
| LogicExamples.ParseLeadingGroup | parse_logic_expression.py:149-151 | parsing such a text parses the rest with the group's key bound in the table |
| LogicExamples.LeadingOrGroup | parse_logic_expression.py:139 | a leading `(a OR b)` is stored as an OR node |
| LogicExamples.KeyPrintable | parse_logic_expression.py:138 | a key can stand as an operand word |
| LogicExamples.GroupedParses | parse_logic_expression.py:144-145 | `(a OR b) AND NOT c XOR d` is AND[OR[a, b], XOR[NOT[c], d]]: the group re-enters the tree as one operand |
| LogicExamples.GroupedExample | parse_logic_expression.py:144-145 | `parse('(1 OR 2) AND NOT 3 XOR 4')` as documented |
| LogicExamples.UnmatchedExample | parse_logic_expression.py:136-140 | `(1 OR 2` has no match and fails with the unmatched-parenthesis error |
| StructureItem.ErrorMessage | structure_item.py:30-32 | the error's message is `Path '`, the checked path and `' doesn't exists` |
| StructureItem.DigitsValue | structure_item.py:38 | `int()` of a digit string, read most significant digit first |
| StructureItem.LeadingZero | structure_item.py:38 | `int()` of a digit string ignores a leading `0` |
| StructureItem.Membership | structure_item.py:46 | `in` on a dict tests the keys, on a string tests for a substring, and raises on numbers, booleans and `None` |
| StructureItem.Subscript | structure_item.py:49 | only a dict can be subscripted with a string, and the result is part of it |
| StructureItem.StepInto | structure_item.py:35-49 | a step moves strictly inside the current value |
| StructureItem.StepRules | structure_item.py:37-49 | a digit segment indexes a list or tuple in bounds and fails on anything else, dicts included, without raising; any other segment finds a dict entry exactly when the key is there, never finds anything in a list, and raises on a number, boolean or `None` |
| StructureItem.Walk | structure_item.py:34-49 | a walk that stops, stops at one of the path's segments |
| StructureItem.WalkAppend | structure_item.py:34-49 | walking a path in two pieces is walking the first piece and then the second from where the first one ended |
| StructureItem.WalkDescends | structure_item.py:34-49 | the left-to-right loop and the nested lookup from the first segment agree |
| StructureItem.StoppedStays | structure_item.py:40-47 | once a segment fails, the later segments are never looked at |
| StructureItem.MissingAt | structure_item.py:34-49 | the walk fails at segment k exactly when the segments before k succeed and segment k does not |
| StructureItem.IncorrectPath | structure_item.py:27-32 | with `exc` it raises `ItemExtractionError`; without it returns `None` |
| StructureItem.ExtractItemSpec | structure_item.py:9-51 | `TypeError` exactly when a segment hits a value that does not support it; when every segment exists the lookup returns the value the walk reaches; with `exc` it returns exactly when every segment exists; without `exc` a missing segment gives `None` |
| StructureItem.MissingNamesPrefix | structure_item.py:25-35 | the path an `ItemExtractionError` names is the given path cut right after the failing segment |
| StructureItem.StepSegment | structure_item.py:37-49 | one pass of the loop body is the segment step |
| StructureItem.ExtractItem | structure_item.py:9-51 | the loop returns what the lookup specification gives, for every input |
| StructureItem.ItemExists | structure_item.py:54-68 | `True` exactly when every segment exists, `False` exactly when one is missing, and a `TypeError` passes through |
| StructureItem.EnsureItemExists | structure_item.py:64-68 | the method catches `ItemExtractionError` only, and agrees with the specification |
| StructureItem.SplitPath | structure_item.py:34 | a path written as dot-free segments joined by dots splits back into them |
| StructureItem.PathReached | structure_item.py:34-51 | when every segment exists, `extract_item` returns the value the walk reaches |
| StructureItem.ExtractOneSegment | structure_item.py:11-12 | `'a'` on `{"a": {"b": [1]}}` gives `{'b': [1]}` |
| StructureItem.ExtractTwoSegments | structure_item.py:13-14 | `'a.b'` gives `[1]` |
| StructureItem.ExtractThreeSegments | structure_item.py:15-16 | `'a.b.0'` gives `1` |
| StructureItem.ExtractIndices | structure_item.py:17-18 | `'0.0'` on `[[True]]` gives `True` |
| StructureItem.DigitOnDict | structure_item.py:37-40 | a digit segment on a dict fails even when the dict has that key, naming the segment |
| StructureItem.MissingQuiet | structure_item.py:28-29 | with `exc=False` a missing key gives `None` |
| StructureItem.ExistsExample | structure_item.py:56-57 | `'a.b'` exists in `{'a': {'b': 1}}` |
| StructureItem.NotExistsExample | structure_item.py:58-59 | `'a.b.2'` does not exist when `b` holds two items |
| CycleReader.ReadingDays | cycle_reader.py:16-20 | the days are the ceiling of chapters over chapters per day: enough days for every chapter, and one day fewer would not be |
| CycleReader.ReadingDaysUnique | cycle_reader.py:16-20 | no other number of days fits those bounds |
| CycleReader.Slice | cycle_reader.py:26 | Python slicing with non-negative bounds cuts both bounds down to the length |
| CycleReader.ChapterBlocks | cycle_reader.py:22-28 | there are exactly `reading_days(book)` blocks |
| CycleReader.BlockShape | cycle_reader.py:26 | day `d` reads the chapters after those of the earlier days: at least one, at most `chapters_per_day`, and exactly that many unless it is the last day |
| CycleReader.BlockSizes | cycle_reader.py:22-28 | every block is non-empty and holds at most `chapters_per_day` chapters, and all but the last hold exactly that many |
| CycleReader.FlattenPrefix | cycle_reader.py:22-28 | the first k blocks together are the first k * `chapters_per_day` chapters, or all of them |
| CycleReader.BlocksCoverBook | cycle_reader.py:22-28 | the blocks concatenated are `1..chapters_count` in order |
| CycleReader.FloorDiv | cycle_reader.py:33 | `//` rounds down, for negative day counts too |
| CycleReader.FloorDivUnique | cycle_reader.py:33 | the rounded-down quotient is the only one bracketing the dividend |
| CycleReader.LibPosition | cycle_reader.py:33 | the position lies in `[0, lib_days)` even when today precedes the start |
| CycleReader.PositionPeriodic | cycle_reader.py:33 | moving the day by `lib_days` does not move the position |
| CycleReader.DaysBeforeMono | cycle_reader.py:31-36 | the days of the first books only grow with the number of books |
| CycleReader.LocateFrom | cycle_reader.py:34-38 | the position falls in exactly one book's run of days, and the day within that book is the position less the days before it |
| CycleReader.ReadTodaySpec | cycle_reader.py:30-40 | the schedule fails with `ZeroDivisionError` exactly when a book reads zero chapters a day or the library has no days |
| CycleReader.ReadingIsABlock | cycle_reader.py:39-40 | the reading is one block of one book of the library |
| CycleReader.Periodic | cycle_reader.py:32-33 | shifting today by the library's length in days gives the same reading |
| CycleReader.SkipShift | cycle_reader.py:32 | one more skipped day reads what the day before would have read |
| CycleReader.ReadToday | cycle_reader.py:30-40 | the loop returns within one pass over the library, and what it returns is the specification's reading; the negative index picks the book-relative day |
| CycleReader.ReadTodayAt | cycle_reader.py:36-40 | when the position falls in book i, the reading is book i's block at the position less the days before book i |
| CycleReader.LocatedHere | cycle_reader.py:34-38 | a position inside book i's days is placed in book i |
| CycleReader.LibraryDays | cycle_reader.py:7-12 | the example library's books take 11, 4, 5 and 13 days, 33 in all |
| CycleReader.SecondBookBlocks | cycle_reader.py:9 | 12 chapters at 3 a day are `[1,2,3]`, `[4,5,6]`, `[7,8,9]`, `[10,11,12]` |
| CycleReader.FirstDay | cycle_reader.py:30-40 | on the starting day the example library reads chapters 1 and 2 of the first book |

## Left out

- `tables_holder.py` is not part of this model. It only calls SQLAlchemy and PostgreSQL and handles temporary files.
- LogicParser.Digest: stands in for the md5 digest. It writes six lower-case hexadecimal digits per character. Like md5, it is deterministic, so identical inner texts get identical keys, and it puts no space or parenthesis in a key. Collisions between keys of different inner texts are not modelled.
- The regular-expression engine is not modelled. The pattern `\([^(]+?\)` is written out as a predicate (`LogicParser.GroupAt`). Because `[^(]` also accepts `)`, a `()` followed later by a `)`, with no `(` in between, matches up to the first such `)`, and the predicate says so too.
- When the pre-pass finds no match, the source returns `None` and the following `_proc_exp` crashes with `AttributeError`. The model reports `Err(UnmatchedParenthesis)` instead.
- The exception messages of the parser's `ValueError`s are not modelled. Each one is an error constructor.
- The unreachable `else` of `_proc_end_value` (zero parts) is not modelled, because `split` never returns an empty list.
- The IR is an algebraic datatype. Its rendering as Python dicts and strings is not modelled.
- LogicRoundTrip.RoundTrip: the grammar has no parenthesised groups. The pre-pass is covered by `LogicExtraction` and the grouped examples instead.
- StructureItem.ExtractItem: `copy.copy(obj)` is not modelled. Values are immutable, so the input structure is unchanged by construction.
- StructureItem.Value has no floats, no non-string dict keys and no sets. Lists and tuples are one constructor.
- `str.isdigit` is modelled over the ASCII digits only.
- StructureItem.IncorrectPath: the error carries the checked path, not the formatted message (`ErrorMessage` builds the message). With `exc=False`, a missing segment and a stored `None` both return `None`, as in the source.
- `CycleReader`:
  - Dates are whole day numbers, so `(today - started).days` is a subtraction.
  - `date.today()`, the `STARTED_AT` constant and the print loop at the end of the module are not modelled.
  - The module-level `lib` becomes the parameter `lib`. The example library appears only in the example lemmas.
  - Chapter counts are natural numbers.
- CycleReader.ReadToday: `itertools.cycle` is a bounded loop over one pass of the library. The position lies below the library's total days, so the source returns within that pass.
