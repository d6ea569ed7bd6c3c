# Bilingual text merge of a game-localisation converter

The converter reads the localisation archives of a game, one per language. Each archive is a set of
XML text tables: `<Row><Cell>id</Cell>…<Cell>text</Cell></Row>`. For every `primary+secondary` line of
the bilingual set it writes new tables in which each entry of the primary language shows its
primary text and, where the per-file rules say so, the secondary text after a separator. The rules
fall back to English or keep the primary text alone where they say so.

This Dafny project models the merge engine in the three revisions of the converter:

- **Current, asynchronous** (`crates/generator_core/src/async_read.rs`): readers run one per
  required language. A coordinator starts each pair as soon as its primary, its secondary and English
  have been read. The first error of the run is returned.
- **Current, database** (`crates/generator_core/src/bilingual_generator.rs`): the same merge rules,
  with each language's tables stored in a database between the load and the generation.
- **Legacy** (`src/core/bilingual_generator.rs`): the first revision. Its combine is a local copy,
  and its menus rule has no exception list and no long-text branch.

The modules follow the program's structure:

| module | file | models |
|---|---|---|
| `Types` | `types.dfy` | the value types, the error enum, and the insertion-ordered `IndexMap` as `Table` |
| `TextUtil` | `text_util.dfy` | `contains`, `trim` (Unicode white space), `split` on a character, `join` |
| `Combine` | `combine.dfy` | the two `secondary_text_combined` variants and the separators `/` and `\n` (two characters) |
| `MergeRules` | `merge_rules.dfy` | the per-file `match` of each revision, and the rules it implements |
| `RowParser` | `row_parser.dfy` | the row-parse state machines over XML reader events, and one language's archive loop |
| `PairOutput` | `pair_output.dfy` | the rows of one pair, their text serialisation and read-back, and the files of a pair in each revision |
| `BilingualSet` | `bilingual_set.dfy` | `acquire_bilingual_set` on the `BilingualGenerator` class, and the line parser |
| `Coordinator` | `coordinator.dfy` | the required languages, the coordinator loop, the wait for the processors, the final verdict |

Loops that update state in the source are methods with loop invariants:
- `ReadTable` and `ReadLanguage`;
- `BuildRows` and `GeneratePairFiles`;
- `AcquireBilingualSet`;
- `CollectRequiredLanguages`, `RescanPending` and `AwaitProcessing`;
- `CoordinatePairs`.

Each but `CoordinatePairs` is proved equal to a specification function, and the properties are proved about that function. `CoordinatePairs` states its properties directly in its `ensures`: the outcome of the run for every arrival order.

`AcquireBilingualSet` mutates the generator's `languageToProcess` field, as `acquire_bilingual_set`
mutates `self.language_to_process`.

Three things are parameters of the model:
- how readers finish: the coordinator takes the next outstanding language by an arbitrary choice, so every arrival order is covered;
- what each reader returns (`read`);
- what processing a pair yields (`process`).

The XML text decoder (`unescape`, `from_utf8`, `from_utf8_lossy`) is also a parameter.

Where the revisions differ, the model states the difference. The lemmas name concrete inputs such as
an empty secondary text, a listed menu id, a long menu text or a two-cell row.

`crates/generator_core/src/util.rs` is not part of this model. Its `secondary_text_combined` is taken
to be the one of `src/core/util.rs:13-19`, which treats `"MISSING"` and `""` alike. Its
`SEPARATOR_SLASH` and `SEPARATOR_NEWLINE` are taken to be `"/"` and `"\\n"`, as at
`src/core/bilingual_generator.rs:199-200`.

## Model

| member | source | states |
|---|---|---|
| Types.Table.Insert | crates/generator_core/src/async_read.rs:98 | `IndexMap::insert`: a new key is appended to the order, an existing key keeps its place and takes the new text; the table stays well-formed (no repeated key, order and keys agree) |
| Types.GetOrAfterInsert | crates/generator_core/src/async_read.rs:98 | `get` after `insert`: the inserted key gives the new text, and every other key gives what it gave before |
| Types.GetOrDefaultIff | crates/generator_core/src/async_read.rs:212-213 | `get(id)…unwrap_or(default)` gives the default exactly when the key is absent or its stored text is the default |
| Types.InsertPresent | crates/generator_core/src/async_read.rs:98 | re-inserting a key with the text it already has leaves the table unchanged |
| TextUtil.ContainsIffOccurs | crates/generator_core/src/async_read.rs:218-220 | `str::contains` holds exactly when the pattern occurs at some index of the text |
| TextUtil.AbsentCharNotContained | crates/generator_core/src/async_read.rs:218-220 | a pattern holding a character the text lacks is not contained in it |
| TextUtil.TrimStartSuffix | crates/generator_core/src/bilingual_generator.rs:150 | `trim_start` removes a prefix made only of white space and stops at the first non-white-space character |
| TextUtil.TrimEndPrefix | crates/generator_core/src/bilingual_generator.rs:150 | `trim_end` removes a suffix made only of white space and stops at the last non-white-space character |
| TextUtil.TrimSlice | crates/generator_core/src/bilingual_generator.rs:158 | `trim` yields a slice of its input with no white space at either end |
| TextUtil.BlankIffAllWhitespace | crates/generator_core/src/bilingual_generator.rs:150-155 | a trimmed line is empty exactly when the line is all white space |
| TextUtil.Split | crates/generator_core/src/bilingual_generator.rs:158 | `split('+')` yields one more part than there are separators, and no part holds the separator |
| TextUtil.JoinSplit | crates/generator_core/src/bilingual_generator.rs:158 | joining the parts of a split with the separator gives the original text |
| TextUtil.SplitJoin | crates/generator_core/src/async_read.rs:300 | splitting a join again gives the pieces, when no piece holds the separator |
| TextUtil.SplitAppend | crates/generator_core/src/bilingual_generator.rs:158 | splitting `a+sep+b`, with no separator in `a`, gives `a` followed by the parts of `b` |
| TextUtil.JoinSnoc | crates/generator_core/src/async_read.rs:300 | joining one more line adds the separator and that line at the end |
| Combine.SeparatorShapes | src/core/bilingual_generator.rs:199-200 | the slash separator is one `/`; the line-break separator is a backslash and an `n`, two characters with no newline character |
| Combine.CombineShared | src/core/util.rs:13-19 | the result starts with the primary text; it is the primary text alone exactly when the secondary is `MISSING` or empty; otherwise it is primary, separator and secondary |
| Combine.CombineLocal | src/core/bilingual_generator.rs:367-373 | the same, with only `MISSING` counted as absent |
| Combine.CombineSharedRoundTrip | src/core/util.rs:13-19 | with a non-empty separator, the secondary text can be read back from the combined text exactly when it was present |
| Combine.CombineLocalRoundTrip | src/core/bilingual_generator.rs:367-373 | the same for the local variant, where an empty secondary text is also joined |
| Combine.CombineVariantsDiffer | src/core/util.rs:14 | the two variants agree except on an empty secondary text with a non-empty separator |
| MergeRules.MergeCurrent | crates/generator_core/src/async_read.rs:216-279 | the merged text of the current revisions always starts with the primary text |
| MergeRules.MergeLegacy | src/core/bilingual_generator.rs:229-290 | the merged text of the first revision always starts with the primary text |
| MergeRules.JoinsDistinct | src/core/bilingual_generator.rs:199-200 | a joined text differs from the primary text, and a slash join differs from a line-break join |
| MergeRules.MergeShape | crates/generator_core/src/async_read.rs:216-279 | every merged text is the primary alone, primary+separator+secondary, or (only when the secondary entry is missing) primary+separator+English |
| MergeRules.CombineFor | src/core/util.rs:13-19 | which secondary texts each revision's combine joins, with the joined text spelled out |
| MergeRules.DialogAlwaysJoins | crates/generator_core/src/async_read.rs:237-244 | dialog lines always get the line break and the secondary text, or English when the secondary entry is missing, even `\nMISSING` when both are missing |
| MergeRules.DefaultAlwaysJoins | crates/generator_core/src/async_read.rs:270-278 | any other file joins with the slash and falls back to English in the same way |
| MergeRules.EnglishOnlyAsFallback | crates/generator_core/src/async_read.rs:216-279 | the English text changes the result only for dialog and default files whose secondary entry is missing |
| MergeRules.MenusCurrentRule | crates/generator_core/src/async_read.rs:217-236 | in current menus, each of: primary alone, line-break join, or slash join, holds if and only if its condition does (help overlay, loading or codex, length 4, the listed ids, length 20) |
| MergeRules.MenusLegacyRule | src/core/bilingual_generator.rs:230-246 | the same three if-and-only-if conditions for the first revision's menus rule |
| MergeRules.ItemsRule | crates/generator_core/src/async_read.rs:245-256 | in items, the step exceptions keep the primary text; otherwise texts of at least 7 characters get the line break, shorter ones the slash; both revisions |
| MergeRules.SoulRule | crates/generator_core/src/async_read.rs:257-269 | in soul, the slash condition is tested first, then the buff and perk descriptions; everything else keeps the primary text; both revisions |
| MergeRules.RevisionsAgreeOutsideMenus | src/core/bilingual_generator.rs:247-289 | outside menus the two revisions give the same text whenever the secondary text is not empty |
| MergeRules.RevisionsAgreeInMenus | src/core/bilingual_generator.rs:230-246 | in menus they also agree unless a listed id or a text of 20 characters or more reaches the length tests |
| MergeRules.EmptySecondaryDiffers | src/core/util.rs:14 | the current revisions never join an empty secondary text in menus, items or soul; the first revision leaves a dangling separator (`Schwert\n`) |
| MergeRules.NoLetterOMenuId | crates/generator_core/src/async_read.rs:218-220 | an id without the letter `o` is neither a help overlay nor a loading or codex entry |
| MergeRules.ListedIdsReachLengthTests | crates/generator_core/src/async_read.rs:172 | the three listed menu ids are not caught by the earlier menu branches |
| MergeRules.ListedMenuIdDiffers | crates/generator_core/src/async_read.rs:227 | a listed id keeps the primary text in the current revisions, but is joined with the slash in the first revision |
| MergeRules.LongMenuTextDiffers | crates/generator_core/src/async_read.rs:230 | a menu text of 20 characters or more gets the line break in the current revisions and the slash in the first |
| RowParser.AddRow | crates/generator_core/src/async_read.rs:94-102 | closing a row keeps the table well-formed |
| RowParser.Run | crates/generator_core/src/async_read.rs:87-135 | the parse state machine returns, on success, a well-formed table |
| RowParser.ReadTable | crates/generator_core/src/async_read.rs:81-135 | the event loop, with `inside_row`, `current_cells` and the table updated event by event, computes the specified parse |
| RowParser.BuildTable | crates/generator_core/src/async_read.rs:98 | inserting the accepted rows one after the other keeps the table well-formed |
| RowParser.ParseIsBuildOfRows | crates/generator_core/src/async_read.rs:87-135 | every revision's loop equals "split the events into rows, then insert the accepted rows in order"; clearing the cells at row end makes no difference |
| RowParser.AsyncAgreesWithLegacy | src/core/bilingual_generator.rs:145-172 | the async loop and the first revision's loop extract the same table from an event stream, when both read it with the same decoder |
| RowParser.RevisionsDifferOnEscapedText | crates/generator_core/src/async_read.rs:106 | the decoders differ: on a row whose text the unescaper changes, the async loop stores the decoded text and the first revision (src/core/bilingual_generator.rs:161-163) the raw text |
| RowParser.BuildKeys | crates/generator_core/src/async_read.rs:97-98 | a key is in the built table exactly when it was already there or some accepted row has it as cell 0 |
| RowParser.BuildLast | crates/generator_core/src/async_read.rs:98 | the text kept for a key is the one of the last accepted row with that key |
| RowParser.BuildOrder | crates/generator_core/src/async_read.rs:98 | the table's order is the order in which keys were first accepted |
| RowParser.ParsedTableFromRows | crates/generator_core/src/async_read.rs:94-102 | the header row never becomes an entry; keys are exactly cell 0 of rows with at least 3 cells; each key holds cell 2 of its last row; the order is that of first appearance |
| RowParser.DbLoadRowPolicy | crates/generator_core/src/bilingual_generator.rs:236-256 | the database load keeps a 2-cell row with an empty text and a row of at least 3 cells with cell 2, and skips a 1-cell row |
| RowParser.DbLoadAgreesWithoutTwoCellRows | crates/generator_core/src/bilingual_generator.rs:339-363 | the database load and the force-update loop give the same table when no row has exactly 2 cells |
| RowParser.TwoCellRowKeptOnlyByDbLoad | crates/generator_core/src/bilingual_generator.rs:242-245 | on a 2-cell row they differ: the database load keeps `id` with the empty text, the async loop keeps nothing |
| RowParser.TextOutsideRowIgnored | crates/generator_core/src/async_read.rs:103-104 | text between rows does not change the result |
| RowParser.RowStartsEmpty | crates/generator_core/src/async_read.rs:90-93 | a `Row` start empties the cells |
| RowParser.RawParseFailsOnlyOnReaderError | crates/generator_core/src/bilingual_generator.rs:259-261 | the loops that keep raw text fail only on a reader error |
| RowParser.ReadLanguage | crates/generator_core/src/async_read.rs:55-138 | the per-file loop of one language's reader computes the specified language tables |
| RowParser.LanguageTablesContents | crates/generator_core/src/async_read.rs:55-138 | a successful read holds exactly the managed files the archive has, each parsed on its own; a missing member is skipped |
| PairOutput.LookupOrMissingIff | crates/generator_core/src/async_read.rs:212-213 | the lookup gives `MISSING` exactly when the id is absent or its stored text is `MISSING` |
| PairOutput.StoredMissingIsAbsent | crates/generator_core/src/async_read.rs:212-213 | a secondary or English entry stored as `MISSING` gives the same output row as no entry at all |
| PairOutput.PairRows | crates/generator_core/src/async_read.rs:206-297 | one row per primary key |
| PairOutput.PairRowsAt | crates/generator_core/src/async_read.rs:208-285 | row `i` is the merge for the `i`-th primary key |
| PairOutput.PairRowsFollowPrimary | crates/generator_core/src/async_read.rs:206-285 | rows follow the primary table's order, carry its texts in cell 2, start cell 3 with that text, and never repeat an id |
| PairOutput.NoRowWithoutPrimary | crates/generator_core/src/async_read.rs:208 | an id only the secondary or English table holds produces no row |
| PairOutput.PairRowsSnoc | crates/generator_core/src/async_read.rs:282-285 | one more primary key appends its row at the end |
| PairOutput.BuildRows | crates/generator_core/src/async_read.rs:206-297 | the row-pushing loop computes the specified rows |
| PairOutput.RenderRows | crates/generator_core/src/async_read.rs:282-285 | one line per row, each rendered with the row format |
| PairOutput.SplitRenderedRow | crates/generator_core/src/async_read.rs:282-285 | splitting a rendered row at `<` gives its nine pieces, when no cell holds `<` |
| PairOutput.ParseRenderRow | crates/generator_core/src/async_read.rs:282-285 | a rendered row reads back as the same three cells, when no cell holds `<` |
| PairOutput.CellWithLessThanUnreadable | crates/generator_core/src/async_read.rs:282-296 | the cells are written unescaped, so a row with a `<` in a cell does not read back as a row |
| PairOutput.RenderTableIsJoin | crates/generator_core/src/async_read.rs:300 | a rendered table is the opening tag, the row lines and the closing tag joined by newlines |
| PairOutput.RenderTableLines | crates/generator_core/src/async_read.rs:300 | splitting a rendered table at newlines gives those lines back, when no cell holds a newline |
| PairOutput.RowFreeOfNewline | crates/generator_core/src/async_read.rs:282-285 | a rendered row holds no newline when its cells hold none |
| PairOutput.ValidKeysListed | crates/generator_core/src/async_read.rs:208 | every key of a well-formed table has a text |
| PairOutput.FilesPresent | crates/generator_core/src/async_read.rs:187-199 | a configured file is kept exactly when the primary language has a table for it |
| PairOutput.AsyncPairFilesContents | crates/generator_core/src/async_read.rs:179-307 | the async pair writes exactly the files the primary language has, in configured order, each with the rows of its primary table |
| PairOutput.BuildPairFile | crates/generator_core/src/async_read.rs:201-300 | one file's content is its rows rendered as a table |
| PairOutput.GeneratePairFiles | crates/generator_core/src/async_read.rs:179-307 | the per-file loop of the async pair processor computes the specified files |
| PairOutput.LegacyMissingPrimaryIsEmpty | src/core/bilingual_generator.rs:298-310 | in the first revision, a file the primary language lacks is still written, as an empty table |
| PairOutput.LegacyUnknownFileSkipped | src/core/bilingual_generator.rs:205-210 | in the first revision, a file no language has is never written |
| PairOutput.DbPairFilesOutcome | crates/generator_core/src/bilingual_generator.rs:453-463 | the database pair fails exactly when some configured file has no primary entries, naming such a file and the primary language; otherwise it writes every configured file in order |
| BilingualSet.Register | crates/generator_core/src/bilingual_generator.rs:166-173 | after `if !contains { push }` the language is listed |
| BilingualSet.BlankLineSkipped | crates/generator_core/src/bilingual_generator.rs:150-155 | a line is skipped exactly when it is all white space |
| BilingualSet.InvalidLineIff | crates/generator_core/src/bilingual_generator.rs:157-161 | a non-blank line is refused exactly when its trimmed text does not hold exactly one `+` |
| BilingualSet.PairFromLine | crates/generator_core/src/bilingual_generator.rs:158-164 | an accepted line names the trimmed sides of its one `+`, neither holding a `+` |
| BilingualSet.TrimPartOf | crates/generator_core/src/bilingual_generator.rs:158 | trimming a part adds no character |
| BilingualSet.TrimmedIsFixed | crates/generator_core/src/bilingual_generator.rs:158 | a name with no white space at either end is its own trim |
| BilingualSet.JoinedTrimmed | crates/generator_core/src/bilingual_generator.rs:150 | two such names joined by `+` form a line with no white space at either end |
| BilingualSet.LineRoundTrip | crates/generator_core/src/bilingual_generator.rs:150-164 | writing a pair as `primary+secondary` and parsing the line gives the pair back, for names without `+` and without white space at either end |
| BilingualSet.FirstInvalid | crates/generator_core/src/bilingual_generator.rs:148-161 | the index of the first line that is neither blank nor a pair, with every earlier line accepted or blank |
| BilingualSet.ParseFromOutcome | crates/generator_core/src/bilingual_generator.rs:146-176 | the loop stops at the first invalid line and reports it as read; otherwise it returns the pairs read, after those it had |
| BilingualSet.AcceptedStopsAtError | crates/generator_core/src/bilingual_generator.rs:159-161 | the pairs read are those of the lines before the first invalid one |
| BilingualSet.AcceptedFollowsLines | crates/generator_core/src/bilingual_generator.rs:146-176 | on success, one pair per non-blank line, in file order |
| BilingualSet.SetOutcome | crates/generator_core/src/bilingual_generator.rs:140-177 | `acquire_bilingual_set` returns the first invalid line, untrimmed, as the error, or else the pairs of the non-blank lines in order |
| BilingualSet.RegisterAllProperties | crates/generator_core/src/bilingual_generator.rs:165-173 | registering keeps the listed languages in place, adds only pair languages, adds each at most once, and lists both languages of every pair |
| BilingualSet.RegisterPairNoDup | crates/generator_core/src/bilingual_generator.rs:165-173 | one pair's registration keeps a duplicate-free list duplicate-free |
| BilingualSet.BilingualGenerator.constructor | crates/generator_core/src/bilingual_generator.rs:67-75 | `init`: the six text files in order and the default languages `Chineses`, `English` |
| BilingualSet.BilingualGenerator.AcquireBilingualSet | crates/generator_core/src/bilingual_generator.rs:140-177 | returns the parse of the lines; the language list becomes the old list with the languages of the pairs read before any error registered; the file list is unchanged |
| BilingualSet.AcquireFromDefaults | src/core/bilingual_generator.rs:54-115 | starting from the defaults, the defaults stay first, no language is listed twice, every pair read is covered, nothing else is added |
| Coordinator.CollectRequiredLanguages | crates/generator_core/src/async_read.rs:374-383 | the required set is English, every listed language and both languages of every pair |
| Coordinator.RequiredCoversPairs | crates/generator_core/src/async_read.rs:374-383 | the required set holds English, the listed languages and every pair's two languages |
| Coordinator.RequiredAfterAcquire | crates/generator_core/src/async_read.rs:379-383 | after `acquire_bilingual_set` the pair loop adds nothing: the required set is the list plus English |
| Coordinator.RescanPartition | crates/generator_core/src/async_read.rs:468-510 | a rescan splits the pending pairs into the ones started (all ready) and the ones kept waiting (none ready), losing none |
| Coordinator.RescanPending | crates/generator_core/src/async_read.rs:468-510 | the rescan loop computes the specified split |
| Coordinator.NoReaderErrorIff | crates/generator_core/src/async_read.rs:455-465 | no reader error is recorded exactly when every reader that reported succeeded |
| Coordinator.ReaderErrorsFrom | crates/generator_core/src/async_read.rs:460-463 | each recorded reader error is one a reader reported |
| Coordinator.NoFailureIff | crates/generator_core/src/async_read.rs:519-553 | no processing error exactly when every started pair succeeded, and then each gives a message; each error comes from some started pair |
| Coordinator.AwaitProcessing | crates/generator_core/src/async_read.rs:516-553 | the wait loop collects the successes and the failures of the started pairs, in start order |
| Coordinator.VerdictOutcome | crates/generator_core/src/async_read.rs:559-580 | Ok exactly when there is no error and no pair waiting; otherwise the first recorded error, or the missing-data error when only pairs wait |
| Coordinator.VerdictFromState | crates/generator_core/src/async_read.rs:559-580 | the verdict in terms of the run: Ok exactly when all readers and all processors succeeded, and then one message per pair |
| Coordinator.CoordinatePairs | crates/generator_core/src/async_read.rs:439-580 | for every arrival order: no pairs gives Ok and no messages; a failed output directory gives `IoError`; otherwise Ok exactly when every required language was read and every pair processed, with one message per pair; when a required reader failed, the error returned is a reader's; when every reader succeeded, it is a processor's, so the missing-data error is never returned |
| Coordinator.VerdictErrorSource | crates/generator_core/src/async_read.rs:462-569 | reader errors are recorded before processing errors, and pairs wait only after a reader failed, so the returned error is a reader's exactly when a reader failed, and a processor's otherwise |
| Coordinator.GenerateBilingualResourcesAsync | crates/generator_core/src/async_read.rs:361-581 | an invalid set line is returned first; an empty set gives Ok; otherwise Ok exactly when English and every listed language were read and every pair processed; a failed run returns a reader's error when English or a listed language failed, and a processor's otherwise; the language list grows as `acquire_bilingual_set` says |

## Left out

- Reading archives, zip files, writing output files, creating and deleting PAK archives (`create_new_pak`, cleanup): file-system I/O. A pair's processing outcome is the parameter `process`, and a language's read outcome is the parameter `read`.
- The XML tokeniser (`quick_xml`): it is reduced to the events the loops inspect (`Event`), and the text decoder is a parameter.
- Tokio tasks, channels, `spawn_blocking` and rayon parallelism: concurrency. The coordinator loop takes readers in an arbitrary order instead, and a panicking task is one more error value the parameters can return.
- The database coordinator functions `read_xml_from_paks` and `process_single_bilingual`, the SQL schema and queries: database I/O. Only the stored tables are modelled (`DbPairFiles`), on the premise that a query returns the stored table in its stored order.
- PairOutput.DbPairFilesOutcome: the source converts the files in parallel with `try_for_each`, so when several files lack primary entries any of them may be reported; the model reports the first in configured order.
- The first revision's and the database load's per-archive loops: only the async reader's loop over one archive is modelled (`ReadLanguage`). The first revision fails a language on a missing archive member, and the database load skips a missing PAK; neither is modelled.
- The first revision's parallel file loop (`par_iter().for_each`): the model writes its files in configured order (`LegacyPairFiles`). The panic of that loop on a write error (`map_err(…).unwrap()` on `std::fs::write`) is file-system I/O and is left out.
- The database revision's skip of PAK creation when no file was generated: this is PAK I/O, outside the model.
- Coordinator.CoordinatePairs: success messages are modelled as the pairs they name. The strings the source rebuilds from the output directory name by splitting it at ` + ` are not modelled, nor is its fallback text for a name that does not split in two.
- Error message texts, logging, the GUI and the game-path finder: presentation only; errors carry structured payloads instead.
- Opening `bilingual_set.txt` and reading its lines, with their two `InvalidBilingualSet` errors: I/O. The lines are given to `AcquireBilingualSet`.
- BilingualSet.ParseLine trims only the two parts of a line it accepts. Trimming does not change the number of parts, so the result is the same as trimming every part before counting.
- `create_dir_all` of the shared output directory is the parameter `outputDirCreated`; a failure to create one pair's directory is part of that pair's `process` outcome.
- The async revision writes cell texts as decoded, without escaping them again. A source text that held `&lt;` or `&amp;` is therefore written as a bare `<` or `&`, and such an output file does not read back (`CellWithLessThanUnreadable`). `ParseRenderRow` covers only cells without `<`.
- The link between `process` and `GeneratePairFiles`: the model proves what files a pair's processor writes, but the coordinator takes any outcome of `process` as given.
