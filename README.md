# AIMovieSearch core, modelled in Dafny

This project models the deterministic logic of AIMovieSearch and of the
libraries it vendors, and proves properties of that logic.

- **Data preparation.** The two Python scripts that clean the movie
  catalog:
  - title normalisation and the left join of the IMDB catalog onto the
    Wikipedia plot corpus;
  - the poster-link rewrite that removes sizing from Amazon image URLs.
- **Movie display.** The runtime helpers of the Swift `MovieItem`.
- **CSV (CorePersistence `_CSV`).**
  - The column-store table `CSV`: positionally indexed headers, a name
    map and a header-to-column dictionary. Rows and columns are appended,
    rows are read and written, and the table can be renamed, filtered,
    read and written.
  - Column headers, whose identity is their index.
  - `CSVDecoder` with its keyed and unkeyed containers.
- **JSON (CorePersistence `_JSON`).**
  - The `JSON` value enum with its predicates, typed accessors and
    subscripts.
  - The JSONL splitter and writer. The splitter reads the text as Swift
    `Character`s (grapheme clusters), so a `"\r\n"` pair is one character
    and never ends a chunk.
  - The brace scanner that pulls JSON objects out of Markdown.
- **Identifiers and time (CorePersistence).**
  - The Proquint encoder and decoder: a 16-bit word becomes a
    consonant-vowel-consonant-vowel-consonant quintuplet.
  - The UUIDv6 timestamp arithmetic: 60-bit counts of 100-nanosecond
    intervals, shifted between the Unix and Gregorian epochs modulo 2^64
    (sections 5.1 and 5.6 of RFC 9562).
  - The `FilePath` string predicates.
- **swift-syntax.**
  - The trivia formatting helpers: trimming blanks before newlines, and
    computing and inserting indentation.
  - The unique-name mangling and diagnostics list of
    `BasicMacroExpansionContext`.
  - `SourceEdit` and the default `textRefactor`.
- **Swallow.**
  - The ranked element grouping and its iteration.
  - Per-key auto-incrementing identifiers.

How the model is shaped:

- **One module per source file.** Each module follows the source's own
  form:
  - pure code (switches, string predicates, `map` pipelines) is
    functions and lemmas;
  - code that updates state step by step is methods with loops, proved
    against specification functions.
- **Classes for mutable state.** Objects whose fields are mutated in
  place are classes with `modifies` frames:
  - the `CSV` table;
  - the unkeyed decoding container and its cursor;
  - the macro expansion context;
  - the global identifier counters.
- **Shared modules.** `Wrappers` holds `Option` and `Either`. `Text`
  holds shared string helpers: prefix and suffix tests, Python's and
  Swift's replace-all, decimal rendering and `Int(_:)` parsing, join and
  split.
- **Integer arithmetic.** Swift's 64-bit `Int` and `UInt64`, its
  wrapping operators, and its truncating `/` and `%` are written out
  explicitly.
- **Traps.** Where the source traps, the model handles it in one of two
  ways:
  - the condition that avoids the trap becomes a precondition. This is
    the case for the class methods, and for the pure JSON subscripts that
    index an array or force-unwrap (`JsonValue.Index`,
    `JsonValue.OptionalIndex` and the `unsafelyUnwrapped` subscripts);
  - a pure function returns an error value, where the trap is itself a
    documented behaviour (the Proquint decoder, the keyed container's
    `keyNotFound`).

## Model

| member | source | states |
|---|---|---|
| TitleJoin.PreprocessTitle | csvDataProcessing/movieParser.py:5-6 | the normalised title holds only word characters and whitespace, and no upper-case letter |
| TitleJoin.PreprocessIdempotent | csvDataProcessing/movieParser.py:6 | normalising a normalised ASCII title changes nothing |
| TitleJoin.PreprocessIgnoresCase | csvDataProcessing/movieParser.py:6 | upper-casing a title first gives the same normalised title |
| TitleJoin.PreprocessIgnoresPunctuation | csvDataProcessing/movieParser.py:6 | deleting one punctuation character from a title gives the same normalised title |
| TitleJoin.PreprocessKeepsWhitespace | csvDataProcessing/movieParser.py:6 | the whitespace of a title survives exactly, with no collapsing or trimming |
| TitleJoin.PreprocessExample | csvDataProcessing/movieParser.py:6 | `"The Matrix!"` and `"the matrix"` both normalise to `"the matrix"` |
| TitleJoin.StripKeepsOnlyWordAndSpace | csvDataProcessing/movieParser.py:6 | the output of the `[^\w\s]` deletion holds only word and whitespace characters |
| TitleJoin.LowerPointwise | csvDataProcessing/movieParser.py:6 | `lower()` keeps the length and lowercases each character where it stands |
| TitleJoin.FirstMatch | csvDataProcessing/movieParser.py:25-28 | the index found is the earliest corpus row whose normalised title equals the key, and none is found only when no row matches |
| TitleJoin.WithProcessedTitles | csvDataProcessing/movieParser.py:14 | the corpus gains a `Processed_Title` column that is each row's own normalised title |
| TitleJoin.MatchingPlotsFirst | csvDataProcessing/movieParser.py:25-28 | the filtered `Plot` column is empty exactly when no row matches, and its first element is the earliest match's plot |
| TitleJoin.MatchPlots | csvDataProcessing/movieParser.py:20-28 | the in-place loop writes into a row the earliest matching plot, and leaves an unmatched row untouched |
| TitleJoin.JoinPlots | csvDataProcessing/movieParser.py:13-28 | the script's columns and loop compute the join specification |
| TitleJoin.JoinedKeepsRows | csvDataProcessing/movieParser.py:13-28 | every catalog row is kept in order, with its fields unchanged and its normalised title added |
| TitleJoin.JoinedTakesEarliestPlot | csvDataProcessing/movieParser.py:25-28 | a row receives the plot of the earliest corpus row whose normalised title equals its own |
| TitleJoin.JoinedUnmatchedIsEmpty | csvDataProcessing/movieParser.py:17-27 | a row with no matching corpus row keeps the empty plot |
| TitleJoin.JoinedIgnoresYear | csvDataProcessing/movieParser.py:22-25 | catalogs that differ only in their release years join to tables whose rows differ only in those years, with the same plots |
| TitleJoin.JoinedDuplicateExample | csvDataProcessing/movieParser.py:25-28 | two corpus rows titled "X" with plots "first" and "second" give catalog row "x" the plot "first" |
| PosterLink.LazyFrom | csvDataProcessing/moviePosterLinkCleaner.py:11 | a found terminator lies at or after the start and is four characters long |
| PosterLink.MatchAt | csvDataProcessing/moviePosterLinkCleaner.py:11 | a match starting at a position begins with `_V1_` and ends with a four-character terminator inside the link |
| PosterLink.MatchAtIsLazyMatch | csvDataProcessing/moviePosterLinkCleaner.py:11 | the scanner matches at a position exactly when the pattern's leftmost-lazy match rule does: `_V1_`, the shortest run of non-newline characters, then `_AL_` or `.jpg` |
| PosterLink.MatchAtNeedsMarker | csvDataProcessing/moviePosterLinkCleaner.py:11 | a match can only start at an occurrence of `_V1_` |
| PosterLink.SubstituteFirstMatch | csvDataProcessing/moviePosterLinkCleaner.py:13 | text before the leftmost match is copied, the match becomes `_V1__AL_` plus its terminator, and the scan resumes after it |
| PosterLink.SubFromSkips | csvDataProcessing/moviePosterLinkCleaner.py:13 | text where no match starts is copied unchanged |
| PosterLink.SubstituteWithoutMarker | csvDataProcessing/moviePosterLinkCleaner.py:13 | without `_V1_` the substitution changes nothing |
| PosterLink.ProcessWithoutSuffix | csvDataProcessing/moviePosterLinkCleaner.py:13-16 | a substituted link that does not end in `_AL_.jpg` is returned exactly as substituted |
| PosterLink.ProcessUnmarkedLink | csvDataProcessing/moviePosterLinkCleaner.py:13-16 | a link without `_V1_` that does not end in `_AL_.jpg` is returned unchanged |
| PosterLink.ReplaceFinalSuffix | csvDataProcessing/moviePosterLinkCleaner.py:14-15 | when `_AL_.jpg` occurs only at the end, the replacement turns it into `.jpg` |
| PosterLink.ProcessExampleSized | csvDataProcessing/moviePosterLinkCleaner.py:11-16 | `"poster_V1_SX300.jpg"` becomes `"poster_V1_.jpg"` |
| PosterLink.ProcessExampleNoMarker | csvDataProcessing/moviePosterLinkCleaner.py:13-16 | `"poster_no_marker.png"` is returned unchanged |
| PosterLink.ProcessExampleUnmarkedSuffix | csvDataProcessing/moviePosterLinkCleaner.py:14-15 | `"x_AL_.jpg"` becomes `"x.jpg"` even though it has no `_V1_` |
| PosterLink.ProcessEveryOccurrence | csvDataProcessing/moviePosterLinkCleaner.py:14-15 | every occurrence of `_AL_.jpg` is replaced, not only the suffix: one character followed by two of them keeps the character and two `.jpg` |
| PosterLink.ProcessExampleNewline | csvDataProcessing/moviePosterLinkCleaner.py:11 | a newline between `_V1_` and `.jpg` prevents the match |
| PosterLink.AddLargePosterLinks | csvDataProcessing/moviePosterLinkCleaner.py:19 | `Poster_Link_Large` is computed per row from that row's `Poster_Link`, and the rows and their order are kept |
| Movie.ConvertToMinutes | AIMovieSearch/Models/MovieItem.swift:74-77 | a parsed runtime fits a 64-bit `Int`, and it is found only when the text minus every `" min"` is an integer literal |
| Movie.ConvertToMinutesOfRendered | AIMovieSearch/Models/MovieItem.swift:74-77 | the text of any 64-bit integer followed by `" min"` parses back to that integer |
| Movie.ConvertToMinutesRejects | AIMovieSearch/Models/MovieItem.swift:74-77 | text that is not an integer once the `" min"`s are gone gives nil |
| Movie.ConvertToMinutesExample | AIMovieSearch/Models/MovieItem.swift:74-77 | `"142 min"` gives 142 |
| Movie.ConvertToMinutesRejectsExample | AIMovieSearch/Models/MovieItem.swift:74-77 | `"N/A"` gives nil |
| Movie.FromData | AIMovieSearch/Models/MovieItem.swift:25-41 | the title fields are copied, and the runtime is the parsed runtime text |
| Movie.FromDataRuntime | AIMovieSearch/Models/MovieItem.swift:36 | a well-formed runtime text is stored as its number and then displays |
| Movie.AdjustedRuntime | AIMovieSearch/Models/MovieItem.swift:53-63 | a display appears exactly when the runtime is known |
| Movie.RuntimeSplit | AIMovieSearch/Models/MovieItem.swift:56-57 | hours and minutes are Swift's truncating quotient and remainder by 60, recombining to the runtime |
| Movie.UnitWordsSingularOnlyAtOne | AIMovieSearch/Models/MovieItem.swift:59-60 | the unit word is singular exactly for 1, and otherwise plural |
| Movie.AdjustedRuntimeWords | AIMovieSearch/Models/MovieItem.swift:53-63 | the display is the four words: hours, hour unit with a comma, minutes, minute unit |
| Movie.AdjustedRuntimeInjective | AIMovieSearch/Models/MovieItem.swift:53-63 | different runtimes display differently |
| Movie.AdjustedRuntimeExamplePlural | AIMovieSearch/Models/MovieItem.swift:53-63 | 142 minutes display as `"2 hours, 22 minutes"` |
| Movie.AdjustedRuntimeExampleSingular | AIMovieSearch/Models/MovieItem.swift:53-63 | 61 minutes display as `"1 hour, 1 minute"` |
| Movie.AdjustedRuntimeExampleZero | AIMovieSearch/Models/MovieItem.swift:53-63 | 0 minutes display as `"0 hours, 0 minutes"` |
| Text.ParseInt | AIMovieSearch/Models/MovieItem.swift:76 | Swift's `Int(_:)` yields only values that fit in 64 bits |
| Text.ParseIntIsLiteral | AIMovieSearch/Models/MovieItem.swift:76 | `Int(_:)` accepts only an optional sign followed by at least one digit |
| Text.ParseIntOfToString | AIMovieSearch/Models/MovieItem.swift:62-76 | the decimal text of every 64-bit integer parses back to it |
| CsvHeader.RemovingBom | Dependencies/CorePersistence/Sources/_CSV/Intramodular/CSVHeader.swift:13 | one leading byte-order mark is dropped, and any other name is kept |
| CsvHeader.MakeHeader | Dependencies/CorePersistence/Sources/_CSV/Intramodular/CSVHeader.swift:11-14 | the index is stored unchanged, a nil name stays nil, and a name without a mark is kept |
| CsvHeader.SameIsEquivalence | Dependencies/CorePersistence/Sources/_CSV/Intramodular/CSVHeader.swift:25-29 | header equality is an equivalence that holds exactly when the indices are equal, whatever the names |
| CsvHeader.HashConsistentWithSame | Dependencies/CorePersistence/Sources/_CSV/Intramodular/CSVHeader.swift:31-35 | equal headers hash alike |
| CsvHeader.LessAsWrittenIsReflexive | Dependencies/CorePersistence/Sources/_CSV/Intramodular/CSVHeader.swift:19-23 | the `<` as written holds between a header and itself |
| CsvHeader.LessIsStrictTotalOrder | Dependencies/CorePersistence/Sources/_CSV/Intramodular/CSVHeader.swift:19-29 | the corrected `<` is irreflexive, asymmetric and transitive, and total up to header equality |
| CsvTable.Reindexed | Dependencies/CorePersistence/Sources/_CSV/Intramodular/CSV.swift:14-22 | after `didSet` every header's index is its position, and the names are kept |
| CsvTable.RegisteredNamed | Dependencies/CorePersistence/Sources/_CSV/Intramodular/CSV.swift:16-21 | a name maps to its last header in the assigned array, as assigned before reindexing |
| CsvTable.RegisteredUnnamed | Dependencies/CorePersistence/Sources/_CSV/Intramodular/CSV.swift:16-21 | a name that no assigned header carries keeps its old entry |
| CsvTable.ReindexedAppend | Dependencies/CorePersistence/Sources/_CSV/Intramodular/CSV.swift:14-22 | appending to reindexed headers and reindexing again is reindexing the whole array |
| CsvTable.ReindexedPositional | Dependencies/CorePersistence/Sources/_CSV/Intramodular/CSV.swift:14-22 | reindexing headers that already sit at their positions changes nothing |
| CsvTable.Csv.AssignHeaders | Dependencies/CorePersistence/Sources/_CSV/Intramodular/CSV.swift:13-23 | an assignment to `headers` reindexes them, registers each named header, and leaves the columns alone |
| CsvTable.Csv.AppendHeaders | Dependencies/CorePersistence/Sources/_CSV/Intramodular/CSV.swift:13-23 | appending headers one at a time, each with its `didSet`, gives reindexed headers and the name map of those appends |
| CsvTable.Csv.constructor | Dependencies/CorePersistence/Sources/_CSV/Intramodular/CSV.swift:25-30 | a new table has no headers, no names and no columns |
| CsvTable.HeaderAt | Dependencies/CorePersistence/Sources/_CSV/Intramodular/CSV.swift:54-56 | a position inside the headers gives that header, and any other gives an unnamed header with that index |
| CsvTable.Csv.ColumnHeaderAt | Dependencies/CorePersistence/Sources/_CSV/Intramodular/CSV.swift:54-56 | the header at a position is the one stored there, or an unnamed one outside the headers, and always carries that index |
| CsvTable.Csv.ColumnHeaderNamed | Dependencies/CorePersistence/Sources/_CSV/Intramodular/CSV.swift:58-60 | a name in the name map gives its entry, and otherwise the first header with that name |
| CsvTable.RenamedHeaders | Dependencies/CorePersistence/Sources/_CSV/Intramodular/CSV.swift:62-67 | exactly the headers named `originalName` are rebuilt with the new name, and every other header is kept |
| CsvTable.Csv.RenameColumn | Dependencies/CorePersistence/Sources/_CSV/Intramodular/CSV.swift:62-67 | with the new name unused, renaming reassigns the renamed headers through `didSet`, and the columns are untouched |
| CsvTable.RenameKeepsIndices | Dependencies/CorePersistence/Sources/_CSV/Intramodular/CSV.swift:62-67 | renaming keeps every index and changes only the names that matched |
| CsvTable.KeptIndices | Dependencies/CorePersistence/Sources/_CSV/Intramodular/CSV.swift:76-86 | the kept row numbers are exactly the accepted rows, in increasing order |
| CsvTable.Select | Dependencies/CorePersistence/Sources/_CSV/Intramodular/CSV.swift:88-92 | a column keeps exactly the cells of the accepted rows, in order |
| CsvTable.FilterColumns | Dependencies/CorePersistence/Sources/_CSV/Intramodular/CSV.swift:88-92 | filtering keeps every column key and its header, and drops the rejected rows from every column |
| CsvTable.DropRows | Dependencies/CorePersistence/Sources/_CSV/Intramodular/CSV.swift:88-92 | the removal loop computes the filtered columns |
| CsvTable.Csv.RowDictionary | Dependencies/CorePersistence/Sources/_CSV/Intramodular/CSV.swift:77-84 | the dictionary handed to the predicate maps each header to its cell in that row |
| CsvTable.RowFlags | Dependencies/CorePersistence/Sources/_CSV/Intramodular/CSV.swift:76-86 | there is one verdict per row, and each is the predicate applied to that row's dictionary |
| CsvTable.Csv.Filter | Dependencies/CorePersistence/Sources/_CSV/Intramodular/CSV.swift:71-93 | the copy keeps the headers and name map, and drops from every column exactly the rows the predicate rejects |
| CsvTable.FilterKeepsAcceptedRows | Dependencies/CorePersistence/Sources/_CSV/Intramodular/CSV.swift:71-93 | the j-th row of the filtered table is the j-th accepted row of the original |
| CsvTable.RowCount | Dependencies/CorePersistence/Sources/_CSV/Intramodular/CSV.swift:270-272 | in a rectangular table the row count is every column's length, and 0 without columns |
| CsvTable.Csv.RowCountOf | Dependencies/CorePersistence/Sources/_CSV/Intramodular/CSV.swift:270-272 | `rowCount` reads the row count of the table |
| CsvTable.RowAt | Dependencies/CorePersistence/Sources/_CSV/Intramodular/CSV.swift:286-288 | a row has one cell per header: that header's column at that row |
| CsvTable.Csv.GetRow | Dependencies/CorePersistence/Sources/_CSV/Intramodular/CSV.swift:286-288 | the getter of `subscript(row:)` returns that row in header order |
| CsvTable.WithRowAppended | Dependencies/CorePersistence/Sources/_CSV/Intramodular/CSV.swift:101-105 | appending a row keeps the set of columns |
| CsvTable.AppendRowGrowsEveryColumn | Dependencies/CorePersistence/Sources/_CSV/Intramodular/CSV.swift:101-105 | after an append every column is exactly one cell longer |
| CsvTable.AppendedRowReadsBack | Dependencies/CorePersistence/Sources/_CSV/Intramodular/CSV.swift:101-288 | the appended row reads back as its first `headers.count` cells |
| CsvTable.Csv.AppendRow | Dependencies/CorePersistence/Sources/_CSV/Intramodular/CSV.swift:101-105 | with at least one cell per header, cell i goes to the end of column i, and nothing else changes |
| CsvTable.DictCells | Dependencies/CorePersistence/Sources/_CSV/Intramodular/CSV.swift:107-111 | each header takes the dictionary's value for its name, or `""` when the name is absent |
| CsvTable.Csv.AppendRowDict | Dependencies/CorePersistence/Sources/_CSV/Intramodular/CSV.swift:107-111 | appending a dictionary row appends those cells as a row |
| CsvTable.Csv.AppendColumn | Dependencies/CorePersistence/Sources/_CSV/Intramodular/CSV.swift:114-122 | one header is added at the end with the given name, with a column of `rowCount` empty cells, and that header is returned |
| CsvTable.WithRowSet | Dependencies/CorePersistence/Sources/_CSV/Intramodular/CSV.swift:289-300 | overwriting a row keeps the set of columns |
| CsvTable.SetRowReadsBack | Dependencies/CorePersistence/Sources/_CSV/Intramodular/CSV.swift:289-300 | an overwritten row reads back as the new cells, and every other row is unchanged |
| CsvTable.Csv.SetRow | Dependencies/CorePersistence/Sources/_CSV/Intramodular/CSV.swift:286-301 | the setter at `rowCount` appends a row, and at an existing index overwrites only that row |
| CsvTable.Csv.OverwriteRow | Dependencies/CorePersistence/Sources/_CSV/Intramodular/CSV.swift:289-300 | overwriting an existing row replaces that cell in the column of every header and changes nothing else |
| CsvTable.ReadHeadersNamed | Dependencies/CorePersistence/Sources/_CSV/Intramodular/CSV.swift:338-346 | with a header row, reading gives one named header per name, in order and at its position |
| CsvTable.AddRowEffect | Dependencies/CorePersistence/Sources/_CSV/Intramodular/CSV.swift:348-352 | reading a row appends each cell to the column of its position |
| CsvTable.AddRowsKeyed | Dependencies/CorePersistence/Sources/_CSV/Intramodular/CSV.swift:348-352 | reading rows keeps every column stored under its own header's index |
| CsvTable.AddRowsFresh | Dependencies/CorePersistence/Sources/_CSV/Intramodular/CSV.swift:348-352 | in a fresh table, reading rows of equal width makes each column the sequence of that position's cells |
| CsvTable.Csv.Read | Dependencies/CorePersistence/Sources/_CSV/Intramodular/CSV.swift:333-353 | a reader without rows changes nothing; otherwise the headers are appended and every row's cells go to their columns |
| CsvTable.NameRow | Dependencies/CorePersistence/Sources/_CSV/Intramodular/CSV.swift:383-386 | the header line holds each header's name, or `""` for a header without a name |
| CsvTable.RowOut | Dependencies/CorePersistence/Sources/_CSV/Intramodular/CSV.swift:388-390 | a written row has one cell per header: the column's cell, or `""` when the header has no column |
| CsvTable.Csv.Write | Dependencies/CorePersistence/Sources/_CSV/Intramodular/CSV.swift:380-391 | a header line is written only if some column is named, and then one line per row |
| CsvTable.WriteColumns | Dependencies/CorePersistence/Sources/_CSV/Intramodular/CSV.swift:34-391 | a table with named headers writes its names, then its rows |
| CsvTable.ReadThenWrite | Dependencies/CorePersistence/Sources/_CSV/Intramodular/CSV.swift:333-391 | reading a rectangular input with a header row into a new table and writing it back reproduces the input |
| CsvDecoder.CheckRows | Dependencies/CorePersistence/Sources/_CSV/Intramodular/CSVDecoder.swift:23-29 | the rows pass unchanged exactly when every row has the header count of cells, and otherwise the error is `invalidRowValuesCount` |
| CsvDecoder.Decode | Dependencies/CorePersistence/Sources/_CSV/Intramodular/CSVDecoder.swift:20-33 | a row of the wrong width throws `invalidRowValuesCount`; otherwise the initialiser gets a decoder over the headers and all rows in table order |
| CsvDecoder.TableRows | Dependencies/CorePersistence/Sources/_CSV/Intramodular/CSVDecoder.swift:23 | the table's rows, in order, as the decoder reads them |
| CsvDecoder.DecodeTableNeverRejects | Dependencies/CorePersistence/Sources/_CSV/Intramodular/CSVDecoder.swift:20-33 | a table's own rows always pass the width check |
| CsvKeyedContainer.KeyedContainerOf | Dependencies/CorePersistence/Sources/_CSV/Intramodular/CSVDecoder.swift:51-61 | the keyed container gets the headers unchanged and only the first row, or no values without rows |
| CsvKeyedContainer.AllKeys | Dependencies/CorePersistence/Sources/_CSV/Intramodular/CSVDecoder.KeyedContainer.swift:24-28 | there are never more keys than headers; when the key type accepts every header's name, or decimal index when unnamed, there is one key per header, in header order |
| CsvKeyedContainer.AllKeysSkipRejected | Dependencies/CorePersistence/Sources/_CSV/Intramodular/CSVDecoder.KeyedContainer.swift:24-28 | the keys are exactly those of the headers whose key string the key type accepts, in header order, with the rejected headers skipped |
| CsvKeyedContainer.UnnamedKeys | Dependencies/CorePersistence/Sources/_CSV/Intramodular/CSVDecoder.KeyedContainer.swift:24-28 | with no named header, the keys are the headers' decimal indices |
| CsvKeyedContainer.FirstNamed | Dependencies/CorePersistence/Sources/_CSV/Intramodular/CSVDecoder.KeyedContainer.swift:31-49 | the header found is the first one with that name, and none is found only when no header has the name |
| CsvKeyedContainer.Contains | Dependencies/CorePersistence/Sources/_CSV/Intramodular/CSVDecoder.KeyedContainer.swift:30-42 | a key is contained exactly when the first header of that name points inside the row at a non-empty cell |
| CsvKeyedContainer.DecodeNil | Dependencies/CorePersistence/Sources/_CSV/Intramodular/CSVDecoder.KeyedContainer.swift:44-46 | `decodeNil` is the negation of `contains` |
| CsvKeyedContainer.DecodeNilOnEmptyCell | Dependencies/CorePersistence/Sources/_CSV/Intramodular/CSVDecoder.KeyedContainer.swift:30-46 | for a header inside the row, an empty cell reads as nil and only an empty one does |
| CsvKeyedContainer.DecodeString | Dependencies/CorePersistence/Sources/_CSV/Intramodular/CSVDecoder.KeyedContainer.swift:48-57 | with no header of the key's name the error is `keyNotFound`; otherwise the result is that header's cell |
| CsvKeyedContainer.DecodeStringFound | Dependencies/CorePersistence/Sources/_CSV/Intramodular/CSVDecoder.KeyedContainer.swift:48-57 | the first header named by the key gives its own cell |
| CsvKeyedContainer.DecodeLossless | Dependencies/CorePersistence/Sources/_CSV/Intramodular/CSVDecoder.KeyedContainer.swift:59-75 | a missing key passes its error on, a cell that does not parse is `typeMismatch`, and a parsed cell is its value |
| CsvKeyedContainer.DecodeIntOfRendered | Dependencies/CorePersistence/Sources/_CSV/Intramodular/CSVDecoder.KeyedContainer.swift:59-75 | a cell holding an integer's decimal text decodes to that integer |
| CsvKeyedContainer.DecodeIntRejects | Dependencies/CorePersistence/Sources/_CSV/Intramodular/CSVDecoder.KeyedContainer.swift:59-75 | a cell that is not an integer literal is a `typeMismatch` |
| CsvKeyedContainer.DecodeGeneric | Dependencies/CorePersistence/Sources/_CSV/Intramodular/CSVDecoder.KeyedContainer.swift:77-82 | the generic decode reads the cell as a string first and passes its error on |
| CsvKeyedContainer.Nested | Dependencies/CorePersistence/Sources/_CSV/Intramodular/CSVDecoder.KeyedContainer.swift:84-101 | nested containers and super decoders always throw |
| CsvUnkeyedContainer.UnkeyedContainer.constructor | Dependencies/CorePersistence/Sources/_CSV/Intramodular/CSVDecoder._Decoder.UnkeyedContainer.swift:10-20 | the container gets headers and rows unchanged, and its cursor starts at 0 |
| CsvUnkeyedContainer.UnkeyedContainer.Count | Dependencies/CorePersistence/Sources/_CSV/Intramodular/CSVDecoder._Decoder.UnkeyedContainer.swift:25-27 | `count` is the number of rows |
| CsvUnkeyedContainer.UnkeyedContainer.IsAtEnd | Dependencies/CorePersistence/Sources/_CSV/Intramodular/CSVDecoder._Decoder.UnkeyedContainer.swift:29-31 | the container is at its end exactly when the cursor has reached the row count |
| CsvUnkeyedContainer.UnkeyedContainer.DecodeNil | Dependencies/CorePersistence/Sources/_CSV/Intramodular/CSVDecoder._Decoder.UnkeyedContainer.swift:33-35 | `decodeNil` is true exactly when rows remain, the opposite of the usual convention |
| CsvUnkeyedContainer.UnkeyedContainer.Decode | Dependencies/CorePersistence/Sources/_CSV/Intramodular/CSVDecoder._Decoder.UnkeyedContainer.swift:37-50 | at the end it throws `dataCorrupted` without moving; otherwise it decodes the current row alone and advances by one, even when that decoding throws |
| CsvUnkeyedContainer.UnkeyedContainer.Nested | Dependencies/CorePersistence/Sources/_CSV/Intramodular/CSVDecoder._Decoder.UnkeyedContainer.swift:52-62 | nested containers and super decoders always throw |
| JsonValue.IsEmpty | Dependencies/CorePersistence/Sources/_JSON/JSON/JSON.swift:31-48 | `isEmpty` holds exactly for null, the empty string, the empty array and the empty dictionary |
| JsonValue.EqAsWrittenDateIrreflexive | Dependencies/CorePersistence/Sources/_JSON/JSON/JSON.swift:298-318 | `==` as written finds a date unequal to itself, and an array holding a date unequal to a separately built equal array |
| JsonValue.EqAsWrittenIsEqualityWithoutDates | Dependencies/CorePersistence/Sources/_JSON/JSON/JSON.swift:298-318 | `==` as written is structural equality on values that hold no date, and false whenever a date appears in two separately built values |
| JsonValue.EqIsEquality | Dependencies/CorePersistence/Sources/_JSON/JSON/JSON.swift:298-318 | the corrected `==`, with a date case, is exactly structural equality |
| JsonValue.IsTopLevelFragment | Dependencies/CorePersistence/Sources/_JSON/JSON/JSON.swift:395-412 | a value is a top-level fragment exactly when it is neither an array nor a dictionary |
| JsonValue.TopLevelFragmentText | Dependencies/CorePersistence/Sources/_JSON/JSON/JSON.swift:414-437 | fragment text exists exactly for fragments, and a string is wrapped in quotes with no escaping |
| JsonValue.FragmentTextOfConstants | Dependencies/CorePersistence/Sources/_JSON/JSON/JSON.swift:414-437 | null and the booleans print as `null`, `true` and `false`; arrays and dictionaries have no fragment text |
| JsonValue.BoolValue | Dependencies/CorePersistence/Sources/_JSON/JSON/JSON.swift:441-454 | the getter is non-nil exactly for a boolean, and gives its value back |
| JsonValue.NumberValue | Dependencies/CorePersistence/Sources/_JSON/JSON/JSON.swift:456-469 | the getter is non-nil exactly for a number |
| JsonValue.IntegerValue | Dependencies/CorePersistence/Sources/_JSON/JSON/JSON.swift:471-482 | a number gives its integer view, a boolean gives 1 or 0, and anything else gives nil |
| JsonValue.StringValue | Dependencies/CorePersistence/Sources/_JSON/JSON/JSON.swift:484-497 | the getter is non-nil exactly for a string |
| JsonValue.ArrayValue | Dependencies/CorePersistence/Sources/_JSON/JSON/JSON.swift:499-512 | the getter is non-nil exactly for an array |
| JsonValue.DictionaryValue | Dependencies/CorePersistence/Sources/_JSON/JSON/JSON.swift:514-527 | the getter is non-nil exactly for a dictionary |
| JsonValue.ArrayOrDictionaryValue | Dependencies/CorePersistence/Sources/_JSON/JSON/JSON.swift:529-537 | an array gives `.left`, a dictionary gives `.right`, and a fragment gives nil |
| JsonValue.SetBoolValue | Dependencies/CorePersistence/Sources/_JSON/JSON/JSON.swift:447-453 | setting a value replaces the JSON by that case; setting nil gives null only when it was a boolean, and otherwise leaves it alone |
| JsonValue.SetNumberValue | Dependencies/CorePersistence/Sources/_JSON/JSON/JSON.swift:462-468 | the same rule for numbers |
| JsonValue.SetStringValue | Dependencies/CorePersistence/Sources/_JSON/JSON/JSON.swift:490-496 | the same rule for strings |
| JsonValue.SetArrayValue | Dependencies/CorePersistence/Sources/_JSON/JSON/JSON.swift:505-511 | the same rule for arrays |
| JsonValue.SetDictionaryValue | Dependencies/CorePersistence/Sources/_JSON/JSON/JSON.swift:520-526 | the same rule for dictionaries |
| JsonValue.SettersRoundTrip | Dependencies/CorePersistence/Sources/_JSON/JSON/JSON.swift:441-527 | reading a typed accessor right after setting it gives the value set, nil included |
| JsonValue.ClearingOtherKindIsNoOp | Dependencies/CorePersistence/Sources/_JSON/JSON/JSON.swift:447-496 | clearing an accessor of another kind leaves the value unchanged |
| JsonValue.Index | Dependencies/CorePersistence/Sources/_JSON/JSON/JSON.swift:588-590 | indexing gives an element exactly for an array |
| JsonValue.Lookup | Dependencies/CorePersistence/Sources/_JSON/JSON/JSON.swift:592-595 | a key gives a value exactly when the JSON is a dictionary holding that key |
| JsonValue.Store | Dependencies/CorePersistence/Sources/_JSON/JSON/JSON.swift:595-597 | storing does nothing on a non-dictionary; on a dictionary it adds the key, or removes it for nil |
| JsonValue.StoreThenLookup | Dependencies/CorePersistence/Sources/_JSON/JSON/JSON.swift:592-598 | after a store the key reads back the stored value, and every other key is unchanged |
| JsonValue.UnsafeIndex | Dependencies/CorePersistence/Sources/_JSON/JSON/JSON.swift:600-603 | the unwrapping index reads the same element as the checked one |
| JsonValue.UnsafeStoreAt | Dependencies/CorePersistence/Sources/_JSON/JSON/JSON.swift:603-607 | writing at an index replaces that element only and keeps the length |
| JsonValue.UnsafeLookup | Dependencies/CorePersistence/Sources/_JSON/JSON/JSON.swift:610-613 | on a dictionary the unwrapping key lookup agrees with the checked one |
| JsonValue.UnsafeStore | Dependencies/CorePersistence/Sources/_JSON/JSON/JSON.swift:613-617 | on a dictionary the unwrapping key store agrees with the checked one |
| JsonValue.OptionalIndex | Dependencies/CorePersistence/Sources/_JSON/JSON/JSON.swift:622-624 | indexing an absent JSON gives nil, and a present one is indexed |
| JsonValue.OptionalLookup | Dependencies/CorePersistence/Sources/_JSON/JSON/JSON.swift:626-629 | looking up in an absent JSON gives nil, and a present one is looked up |
| JsonValue.OptionalStore | Dependencies/CorePersistence/Sources/_JSON/JSON/JSON.swift:629-631 | storing into an absent JSON keeps it absent, and a present one is stored into |
| JsonValue.NestedLookup | Dependencies/CorePersistence/Sources/_JSON/JSON/JSON.swift:592-632 | chained key subscripts reach a value nested two dictionaries deep |
| Jsonl.ParseJsonl | Dependencies/CorePersistence/Sources/_JSON/JSONL/JSONL.swift:17-76 | the loop over the string's characters returns, in order, the chunks that parse |
| Jsonl.StepSplits | Dependencies/CorePersistence/Sources/_JSON/JSONL/JSONL.swift:47-60 | a `"\n"` character outside strings at depth 0 closes the current chunk and belongs to no chunk; any other character, `"\r\n"` included, extends the current chunk |
| Jsonl.QuoteToggles | Dependencies/CorePersistence/Sources/_JSON/JSONL/JSONL.swift:27-37 | a quote toggles the in-string state unless an in-string escape is pending |
| Jsonl.EscapeOnlyInString | Dependencies/CorePersistence/Sources/_JSON/JSONL/JSONL.swift:31-37 | an escape is pending only inside a string |
| Jsonl.BraceDepth | Dependencies/CorePersistence/Sources/_JSON/JSONL/JSONL.swift:39-45 | braces inside strings leave the depth alone; outside they move it by one |
| Jsonl.PiecesJoin | Dependencies/CorePersistence/Sources/_JSON/JSONL/JSONL.swift:26-60 | the closed chunks and the current text, joined with newlines, are the input read so far |
| Jsonl.ChunksJoin | Dependencies/CorePersistence/Sources/_JSON/JSONL/JSONL.swift:26-73 | joining the chunks with newlines gives the input back, or the input minus one final splitting newline, since an empty remainder is not emitted |
| Jsonl.PlainTextSplitsAtEveryNewline | Dependencies/CorePersistence/Sources/_JSON/JSONL/JSONL.swift:47-60 | text without quotes or braces, whose line feeds are each a character of their own, is split at every line feed |
| Jsonl.NoLineFeedCharacterNoSplit | Dependencies/CorePersistence/Sources/_JSON/JSONL/JSONL.swift:26-60 | text with no `"\n"` character, such as lines ended by `"\r\n"`, is never split and reaches the parser as one chunk |
| Jsonl.CrlfIsNotALineBreak | Dependencies/CorePersistence/Sources/_JSON/JSONL/JSONL.swift:26-60 | `"1\r\n2"` is handed to the parser as the single chunk `"1\r\n2"` |
| Jsonl.ParseChunk | Dependencies/CorePersistence/Sources/_JSON/JSONL/JSONL.swift:49-72 | an empty chunk parses to null, and any other chunk goes to the parser |
| Jsonl.Collect | Dependencies/CorePersistence/Sources/_JSON/JSONL/JSONL.swift:49-72 | there are never more results than chunks |
| Jsonl.CollectAppend | Dependencies/CorePersistence/Sources/_JSON/JSONL/JSONL.swift:49-72 | results keep chunk order |
| Jsonl.CollectAllParse | Dependencies/CorePersistence/Sources/_JSON/JSONL/JSONL.swift:49-72 | when every chunk parses, there is one result per chunk, in order |
| Jsonl.DroppedChunk | Dependencies/CorePersistence/Sources/_JSON/JSONL/JSONL.swift:51-57 | a chunk that fails to parse is dropped without a trace |
| Jsonl.EscapeIsPerCharacter | Dependencies/CorePersistence/Sources/_JSON/JSONL/JSONL.swift:93-95 | doubling the backslashes and then escaping the quotes is the per-character map of `\` to `\\` and `"` to `\"` |
| Jsonl.EscapeKeepsLinesWhole | Dependencies/CorePersistence/Sources/_JSON/JSONL/JSONL.swift:93-96 | escaping adds no newline |
| Jsonl.FailureIsFinal | Dependencies/CorePersistence/Sources/_JSON/JSONL/JSONL.swift:89-97 | once an element cannot be serialised, `data()` fails |
| Jsonl.Data | Dependencies/CorePersistence/Sources/_JSON/JSONL/JSONL.swift:86-101 | the loop computes the JSONL text of the storage |
| Jsonl.EscapeAll | Dependencies/CorePersistence/Sources/_JSON/JSONL/JSONL.swift:93-95 | each line is escaped where it stands |
| Jsonl.DataIsLines | Dependencies/CorePersistence/Sources/_JSON/JSONL/JSONL.swift:89-97 | the text is each element's escaped line followed by a newline, in storage order |
| Jsonl.DataOneLinePerElement | Dependencies/CorePersistence/Sources/_JSON/JSONL/JSONL.swift:89-97 | for one-line serialisations, splitting the text at newlines gives back exactly the escaped lines, then an empty tail |
| JsonMarkdown.BalanceSnoc | Dependencies/CorePersistence/Sources/_JSON/JSON/JSON+Utilities.swift:20-34 | the brace balance moves by one per brace and is unchanged by other characters |
| JsonMarkdown.BalanceCounts | Dependencies/CorePersistence/Sources/_JSON/JSON/JSON+Utilities.swift:19-40 | the balance is the count of `{` minus the count of `}` |
| JsonMarkdown.RunGood | Dependencies/CorePersistence/Sources/_JSON/JSON/JSON+Utilities.swift:19-36 | the scanner's depth is the brace balance, and every candidate it records is balanced and in order |
| JsonMarkdown.Candidates | Dependencies/CorePersistence/Sources/_JSON/JSON/JSON+Utilities.swift:19-36 | every candidate starts with `{` and ends with `}`, its braces are balanced with positive depth strictly inside, and candidates do not overlap and appear in source order |
| JsonMarkdown.OnlyBracesCount | Dependencies/CorePersistence/Sources/_JSON/JSON/JSON+Utilities.swift:19-36 | characters other than braces leave the scanner unchanged |
| JsonMarkdown.StringBracesSplitAnObject | Dependencies/CorePersistence/Sources/_JSON/JSON/JSON+Utilities.swift:19-36 | a brace inside a JSON string literal counts like any other: `{"k":"}{"}` yields two candidates |
| JsonMarkdown.Matches | Dependencies/CorePersistence/Sources/_JSON/JSON/JSON+Utilities.swift:42-44 | every result parses, and there are at most as many results as candidates |
| JsonMarkdown.MatchesAllParse | Dependencies/CorePersistence/Sources/_JSON/JSON/JSON+Utilities.swift:42-44 | when every candidate parses, all are kept, in order |
| JsonMarkdown.ExtractJsonStrings | Dependencies/CorePersistence/Sources/_JSON/JSON/JSON+Utilities.swift:8-45 | the scan throws exactly when the `{` and `}` counts differ, and otherwise returns the candidates that parse, in order |
| ProquintEncoder.Word | Dependencies/CorePersistence/Sources/Proquint/ProquintEncoder.swift:24-27 | word n is the little-endian 16-bit value of bytes 2n and 2n+1 |
| ProquintEncoder.Quint | Dependencies/CorePersistence/Sources/Proquint/ProquintEncoder.swift:27-39 | a quintuplet has five letters |
| ProquintEncoder.QuintLetters | Dependencies/CorePersistence/Sources/Proquint/ProquintEncoder.swift:16-39 | each quintuplet is consonant-vowel-consonant-vowel-consonant over `bdfghjklmnprstvz` and `aiou` |
| ProquintEncoder.QuintHasNoDash | Dependencies/CorePersistence/Sources/Proquint/ProquintEncoder.swift:33-39 | a quintuplet holds no `-`, so the separator is unambiguous |
| ProquintEncoder.Quints | Dependencies/CorePersistence/Sources/Proquint/ProquintEncoder.swift:24-41 | there is one quintuplet per whole word, in word order |
| ProquintEncoder.Encode | Dependencies/CorePersistence/Sources/Proquint/ProquintEncoder.swift:13-46 | the loop's result is the quintuplets joined by `-` |
| ProquintEncoder.TrailingByteIgnored | Dependencies/CorePersistence/Sources/Proquint/ProquintEncoder.swift:24 | a trailing odd byte is ignored |
| ProquintEncoder.SingleByteEncodesEmpty | Dependencies/CorePersistence/Sources/Proquint/ProquintEncoder.swift:24-45 | a single byte encodes to the empty string |
| ProquintEncoder.TwoBytesOneQuint | Dependencies/CorePersistence/Sources/Proquint/ProquintEncoder.swift:24-45 | two bytes encode to one quintuplet |
| ProquintEncoder.EncodedLength | Dependencies/CorePersistence/Sources/Proquint/ProquintEncoder.swift:24-45 | n bytes give 6⌊n/2⌋−1 characters, or none below two bytes |
| ProquintDecoder.TablesMatchAlphabets | Dependencies/CorePersistence/Sources/Proquint/ProquintDecoder.swift:14-21 | the lookup tables hold exactly the encoder's letters, each mapped to its position in its alphabet |
| ProquintDecoder.WordBytes | Dependencies/CorePersistence/Sources/Proquint/ProquintDecoder.swift:43 | a word yields two bytes, low byte first |
| ProquintDecoder.DecodeAll | Dependencies/CorePersistence/Sources/Proquint/ProquintDecoder.swift:23-44 | each quint yields exactly two bytes |
| ProquintDecoder.FieldsSplit | Dependencies/CorePersistence/Sources/Proquint/ProquintDecoder.swift:35-41 | the sum c1 + 16·v1 + 64·c2 + 1024·v2 + 4096·c3 gives each field back from its own bits |
| ProquintDecoder.DecodeQuintSucceeds | Dependencies/CorePersistence/Sources/Proquint/ProquintDecoder.swift:29-33 | a quint decodes exactly when it has at least five characters and its first five are consonant, vowel, consonant, vowel, consonant; otherwise the source traps |
| ProquintDecoder.ExtraLettersIgnored | Dependencies/CorePersistence/Sources/Proquint/ProquintDecoder.swift:29-33 | characters after the fifth are ignored |
| ProquintDecoder.DecodeQuintOfQuint | Dependencies/CorePersistence/Sources/Proquint/ProquintDecoder.swift:29-41 | decoding the quintuplet the encoder emits for a word gives back that word |
| ProquintDecoder.QuintOfDecodeQuint | Dependencies/CorePersistence/Sources/Proquint/ProquintDecoder.swift:29-41 | encoding a decoded well-formed five-letter quint gives back the quint |
| ProquintDecoder.DecodeAllSucceeds | Dependencies/CorePersistence/Sources/Proquint/ProquintDecoder.swift:23-44 | a list of quints decodes exactly when every one of them does |
| ProquintDecoder.EmptyTextTraps | Dependencies/CorePersistence/Sources/Proquint/ProquintDecoder.swift:23-33 | the empty text splits into one empty quint and traps |
| ProquintDecoder.RoundTrip | Dependencies/CorePersistence/Sources/Proquint/ProquintDecoder.swift:13-48 | decoding an encoding gives back the bytes up to the last whole word |
| ProquintDecoder.RoundTripEven | Dependencies/CorePersistence/Sources/Proquint/ProquintDecoder.swift:13-48 | a non-empty even-length byte string round-trips exactly |
| ProquintDecoder.SingleByteDoesNotRoundTrip | Dependencies/CorePersistence/Sources/Proquint/ProquintDecoder.swift:13-48 | a single byte encodes to the empty text, which does not decode |
| UuidTime.BitPattern | Dependencies/CorePersistence/Sources/UUIDv6/UUIDv6_Time.swift:24-30 | a negative `Int64` becomes its two's-complement pattern, and any other is kept |
| UuidTime.WrappingAdd | Dependencies/CorePersistence/Sources/UUIDv6/UUIDv6_Time.swift:40 | `&+` is the sum, less 2^64 when it overflows |
| UuidTime.WrappingSub | Dependencies/CorePersistence/Sources/UUIDv6/UUIDv6_Time.swift:48 | `&-` is the difference, plus 2^64 when it underflows |
| UuidTime.WrappingMul | Dependencies/CorePersistence/Sources/UUIDv6/UUIDv6_Time.swift:25-30 | `&*` is the product when it fits |
| UuidTime.Low60 | Dependencies/CorePersistence/Sources/UUIDv6/UUIDv6_Time.swift:32 | the mask keeps the value below 2^60 and congruent modulo 2^60, and changes nothing already below |
| UuidTime.SystemTimestamp | Dependencies/CorePersistence/Sources/UUIDv6/UUIDv6_Time.swift:19-33 | the system timestamp is below 2^60 |
| UuidTime.FallbackTimestamp | Dependencies/CorePersistence/Sources/UUIDv6/UUIDv6_Time.swift:19-33 | the fallback timestamp is below 2^60 |
| UuidTime.SystemTimestampInRange | Dependencies/CorePersistence/Sources/UUIDv6/UUIDv6_Time.swift:24-32 | when it fits, the clock path counts sec·10^7 + nsec/100 |
| UuidTime.FallbackTimestampInRange | Dependencies/CorePersistence/Sources/UUIDv6/UUIDv6_Time.swift:29-32 | when it fits, the fallback path counts sec·10^7 + usec·10 |
| UuidTime.PathsAgree | Dependencies/CorePersistence/Sources/UUIDv6/UUIDv6_Time.swift:19-33 | both paths give the same timestamp for a whole number of microseconds |
| UuidTime.OffsetIsDaysBetweenEpochs | Dependencies/CorePersistence/Sources/UUIDv6/UUIDv6_Time.swift:39-41 | the offset is 141427 days of 100-nanosecond intervals, the span from 1582-10-15 to 1970-01-01 |
| UuidTime.ConversionsAreInverse | Dependencies/CorePersistence/Sources/UUIDv6/UUIDv6_Time.swift:39-49 | Unix-to-UUID and UUID-to-Unix undo each other on every 64-bit value |
| UuidTime.SixtyBitUnixDoesNotWrap | Dependencies/CorePersistence/Sources/UUIDv6/UUIDv6_Time.swift:39-41 | a 60-bit Unix timestamp is shifted by plain addition |
| UuidTime.PreUnixUuidWraps | Dependencies/CorePersistence/Sources/UUIDv6/UUIDv6_Time.swift:47-49 | a UUID timestamp before 1970 wraps around to a huge Unix value |
| TriviaFormat.Reverse | Dependencies/swift-syntax/Sources/SwiftBasicFormat/Trivia+FormatExtensions.swift:23-35 | reversing keeps the length and mirrors every position |
| TriviaFormat.TrimmingTrailingWhitespaceBeforeNewline | Dependencies/swift-syntax/Sources/SwiftBasicFormat/Trivia+FormatExtensions.swift:18-36 | the backward loop computes the trimming specification, whose pieces kept are characterised exactly by `TrimmedIsSelection` |
| TriviaFormat.KeepFlags | Dependencies/swift-syntax/Sources/SwiftBasicFormat/Trivia+FormatExtensions.swift:21-34 | one flag per piece: a piece is to be kept unless it is a blank that reaches the next newline (or the end, before a newline) through whitespace only |
| TriviaFormat.BreakAheadSnoc | Dependencies/swift-syntax/Sources/SwiftBasicFormat/Trivia+FormatExtensions.swift:23-32 | reading one more piece from the end updates `isBeforeNewline` exactly as the pieces after a position decide whether it reaches a line break |
| TriviaFormat.TrimmedIsSelection | Dependencies/swift-syntax/Sources/SwiftBasicFormat/Trivia+FormatExtensions.swift:18-36 | trimming returns, in order, exactly the pieces `KeepFlags` marks: it deletes a blank if and only if only whitespace separates it from the next newline, or from the end when the trivia is before a newline |
| TriviaFormat.TrimmedKeepsBlankBeforeText | Dependencies/swift-syntax/Sources/SwiftBasicFormat/Trivia+FormatExtensions.swift:23-34 | a blank followed, after further blanks, by a piece that is neither whitespace nor a newline survives trimming |
| TriviaFormat.TrimmedIsSubsequence | Dependencies/swift-syntax/Sources/SwiftBasicFormat/Trivia+FormatExtensions.swift:18-36 | trimming returns a subsequence of the input |
| TriviaFormat.TrimmedKeepsNewlines | Dependencies/swift-syntax/Sources/SwiftBasicFormat/Trivia+FormatExtensions.swift:23-34 | trimming keeps every newline piece |
| TriviaFormat.TrimmedDeletesOnlyBlanks | Dependencies/swift-syntax/Sources/SwiftBasicFormat/Trivia+FormatExtensions.swift:23-34 | trimming keeps every piece that is not a blank (whitespace that is not a newline) |
| TriviaFormat.TrimmedLinesEndClean | Dependencies/swift-syntax/Sources/SwiftBasicFormat/Trivia+FormatExtensions.swift:21-34 | no blank piece precedes a newline; before a newline, the output also does not end in a blank |
| TriviaFormat.TrimmedEndsWithoutBlank | Dependencies/swift-syntax/Sources/SwiftBasicFormat/Trivia+FormatExtensions.swift:21-114 | trivia trimmed before a newline ends with whitespace only if that whitespace is a newline |
| TriviaFormat.FiltersSnoc | Dependencies/swift-syntax/Sources/SwiftBasicFormat/Trivia+FormatExtensions.swift:23-34 | the newline and non-blank filters grow by the last piece when it qualifies |
| TriviaFormat.LastNonWhitespace | Dependencies/swift-syntax/Sources/SwiftBasicFormat/Trivia+FormatExtensions.swift:51 | the index found is the last piece that is not whitespace, or the length when there is none |
| TriviaFormat.LastNewline | Dependencies/swift-syntax/Sources/SwiftBasicFormat/Trivia+FormatExtensions.swift:54 | the index found is the last newline piece, and none is found only without newlines |
| TriviaFormat.Indentation | Dependencies/swift-syntax/Sources/SwiftBasicFormat/Trivia+FormatExtensions.swift:50-62 | the indentation holds no newline, is a suffix of the pieces before the last non-whitespace one and is preceded there by a newline unless it is all of them (which happens only when `isOnNewline`), so it is exactly what follows the last newline; it is nil exactly when no newline precedes that piece and `isOnNewline` is false |
| TriviaFormat.ContainsIndentation | Dependencies/swift-syntax/Sources/SwiftBasicFormat/Trivia+FormatExtensions.swift:39-44 | containing indentation implies the indentation exists |
| TriviaFormat.ContainsIndentationExactly | Dependencies/swift-syntax/Sources/SwiftBasicFormat/Trivia+FormatExtensions.swift:39-44 | `containsIndentation` holds exactly when the indentation is non-nil and non-empty |
| TriviaFormat.Indented | Dependencies/swift-syntax/Sources/SwiftBasicFormat/Trivia+FormatExtensions.swift:65-86 | the loop computes the indenting specification |
| TriviaFormat.IndentedKeepsPieces | Dependencies/swift-syntax/Sources/SwiftBasicFormat/Trivia+FormatExtensions.swift:73-85 | all original pieces keep their order, and exactly one copy of the indentation is added per newline, plus one at the front on a new line |
| TriviaFormat.IndentAfterNewlinesKeepsPieces | Dependencies/swift-syntax/Sources/SwiftBasicFormat/Trivia+FormatExtensions.swift:78-83 | inserting after newlines keeps the original pieces in order |
| TriviaFormat.IndentAfterNewlinesLength | Dependencies/swift-syntax/Sources/SwiftBasicFormat/Trivia+FormatExtensions.swift:78-83 | inserting after newlines adds one indentation per newline piece |
| TriviaFormat.IndentedEmpty | Dependencies/swift-syntax/Sources/SwiftBasicFormat/Trivia+FormatExtensions.swift:66-71 | empty trivia indents to the indentation on a new line, and stays empty otherwise |
| TriviaFormat.IndentedStartsWithIndentation | Dependencies/swift-syntax/Sources/SwiftBasicFormat/Trivia+FormatExtensions.swift:73-100 | on a new line the result starts with the indentation's first piece |
| TriviaFormat.EdgeTests | Dependencies/swift-syntax/Sources/SwiftBasicFormat/Trivia+FormatExtensions.swift:88-114 | the `startsWith*` and `endsWith*` tests are false on empty trivia, and otherwise look only at the first or the last piece |
| MacroContext.EffectiveName | Dependencies/swift-syntax/Sources/SwiftSyntaxMacroExpansion/BasicMacroExpansionContext.swift:113 | an empty provided name becomes `__local`, and any other is kept |
| MacroContext.IndexSuffix | Dependencies/swift-syntax/Sources/SwiftSyntaxMacroExpansion/BasicMacroExpansionContext.swift:129-131 | the index part is empty exactly for the first use of a name |
| MacroContext.BasicMacroExpansionContext.constructor | Dependencies/swift-syntax/Sources/SwiftSyntaxMacroExpansion/BasicMacroExpansionContext.swift:36-70 | a new context keeps its discriminator and starts with no diagnostics and no counters |
| MacroContext.BasicMacroExpansionContext.MakeUniqueName | Dependencies/swift-syntax/Sources/SwiftSyntaxMacroExpansion/BasicMacroExpansionContext.swift:111-135 | the name is discriminator, decimal length, name, `fMu`, the index part and `_`; only that name's counter goes up by one; the name differs from every earlier one for the same name |
| MacroContext.BasicMacroExpansionContext.Diagnose | Dependencies/swift-syntax/Sources/SwiftSyntaxMacroExpansion/BasicMacroExpansionContext.swift:138-140 | `diagnose` appends in call order and changes nothing else |
| MacroContext.UniqueNamesDistinct | Dependencies/swift-syntax/Sources/SwiftSyntaxMacroExpansion/BasicMacroExpansionContext.swift:116-132 | two different counts for one name give different unique names |
| MacroContext.FirstUniqueName | Dependencies/swift-syntax/Sources/SwiftSyntaxMacroExpansion/BasicMacroExpansionContext.swift:36-132 | under the default `__macro_local_` discriminator, `x` first gives `__macro_local_1xfMu_`, then `__macro_local_1xfMu0_` |
| MacroContext.LastSlash | Dependencies/swift-syntax/Sources/SwiftSyntaxMacroExpansion/BasicMacroExpansionContext.swift:101 | the index found is the last `/`, and none is found only without one |
| MacroContext.Basename | Dependencies/swift-syntax/Sources/SwiftSyntaxMacroExpansion/BasicMacroExpansionContext.swift:100-106 | the basename is the slash-free suffix after the last `/`, or the whole string without one |
| MacroContext.BasenameAfterSlash | Dependencies/swift-syntax/Sources/SwiftSyntaxMacroExpansion/BasicMacroExpansionContext.swift:100-106 | the basename of a directory, a slash and a slash-free name is that name |
| SourceEdit.LengthAsWrittenIsNegated | Dependencies/swift-syntax/Sources/SwiftRefactor/RefactoringProvider.swift:123-125 | `length` as written is the negated range size, negative for every non-empty range |
| SourceEdit.LengthAsWrittenOfRemoval | Dependencies/swift-syntax/Sources/SwiftRefactor/RefactoringProvider.swift:123-156 | removing a five-byte node reports length −5 |
| SourceEdit.Length | Dependencies/swift-syntax/Sources/SwiftRefactor/RefactoringProvider.swift:123-125 | the corrected length is zero exactly for an empty range |
| SourceEdit.InsertAfter | Dependencies/swift-syntax/Sources/SwiftRefactor/RefactoringProvider.swift:136-138 | the insertion is the empty range at the node's end |
| SourceEdit.InsertBefore | Dependencies/swift-syntax/Sources/SwiftRefactor/RefactoringProvider.swift:142-144 | the insertion is the empty range at the node's start |
| SourceEdit.Replace | Dependencies/swift-syntax/Sources/SwiftRefactor/RefactoringProvider.swift:148-150 | the replacement covers the node from start to end with the given text |
| SourceEdit.Remove | Dependencies/swift-syntax/Sources/SwiftRefactor/RefactoringProvider.swift:154-156 | removal is the replacement of the node by nothing |
| SourceEdit.Apply | Dependencies/swift-syntax/Sources/SwiftRefactor/RefactoringProvider.swift:113-119 | an applied edit changes the text length by the replacement's size minus the range's size |
| SourceEdit.ApplyRemove | Dependencies/swift-syntax/Sources/SwiftRefactor/RefactoringProvider.swift:154-156 | applying a removal drops exactly the node's text |
| SourceEdit.ApplyInsert | Dependencies/swift-syntax/Sources/SwiftRefactor/RefactoringProvider.swift:136-144 | insertions keep the whole original text around the new text |
| SourceEdit.ApplyReplaceBySame | Dependencies/swift-syntax/Sources/SwiftRefactor/RefactoringProvider.swift:148-150 | replacing a node by its own text changes nothing |
| SourceEdit.TextRefactor | Dependencies/swift-syntax/Sources/SwiftRefactor/RefactoringProvider.swift:105-111 | no refactoring gives no edits, and one gives a single replacement of the node by the output's text |
| SourceEdit.DebugDescription | Dependencies/swift-syntax/Sources/SwiftRefactor/RefactoringProvider.swift:160-171 | the description starts with `lo-hi`, then ends with ` "text"` on one line or with the text between lines of three quotes when it has a newline |
| SourceEdit.OneLineDebugDescriptionIsInjective | Dependencies/swift-syntax/Sources/SwiftRefactor/RefactoringProvider.swift:170 | on one line, the description determines the edit |
| SourceEdit.DebugDescriptionOfInsertion | Dependencies/swift-syntax/Sources/SwiftRefactor/RefactoringProvider.swift:142-170 | inserting `x` at offset 4 reads `4-4 "x"` |
| RankedGrouping.RankedOfPrimary | Dependencies/Swallow/Sources/Swallow/Intramodular/Collections/AnyElementGrouping.swift:83-87 | the primary-only hierarchy has no secondary and no tertiary |
| RankedGrouping.RankedOfTwo | Dependencies/Swallow/Sources/Swallow/Intramodular/Collections/AnyElementGrouping.swift:89-93 | the two-rank hierarchy has no tertiary |
| RankedGrouping.Present | Dependencies/Swallow/Sources/Swallow/Intramodular/Collections/AnyElementGrouping.swift:101-103 | a missing element contributes nothing, and a present one contributes itself |
| RankedGrouping.RankedPrimary | Dependencies/Swallow/Sources/Swallow/Intramodular/Collections/AnyElementGrouping.swift:23-27 | `ranked(primary:)` wraps the primary-only hierarchy |
| RankedGrouping.RankedPrimarySecondary | Dependencies/Swallow/Sources/Swallow/Intramodular/Collections/AnyElementGrouping.swift:29-34 | `ranked(primary:secondary:)` wraps the two-rank hierarchy |
| RankedGrouping.RankedAll | Dependencies/Swallow/Sources/Swallow/Intramodular/Collections/AnyElementGrouping.swift:36-42 | the three-rank constructor keeps each element at its rank |
| RankedGrouping.RankedOrder | Dependencies/Swallow/Sources/Swallow/Intramodular/Collections/AnyElementGrouping.swift:95-103 | iteration yields the primary first, then the secondary and tertiary when present; a missing secondary is skipped while a present tertiary is still yielded |
| RankedGrouping.RankedLength | Dependencies/Swallow/Sources/Swallow/Intramodular/Collections/AnyElementGrouping.swift:78-103 | iteration yields one element plus one per present rank, so between 1 and 3 |
| RankedGrouping.RankedMembership | Dependencies/Swallow/Sources/Swallow/Intramodular/Collections/AnyElementGrouping.swift:101-103 | an element is yielded exactly when it holds one of the three ranks |
| RankedGrouping.SingleAndRankedPrimaryAgree | Dependencies/Swallow/Sources/Swallow/Intramodular/Collections/AnyElementGrouping.swift:23-87 | `.single(e)` and `ranked(primary: e)` each yield exactly `e` |
| RankedGrouping.RankedAllInOrder | Dependencies/Swallow/Sources/Swallow/Intramodular/Collections/AnyElementGrouping.swift:36-103 | the three-rank grouping yields its arguments in order |
| RankedGrouping.IterationOfSetsAndSequences | Dependencies/Swallow/Sources/Swallow/Intramodular/Collections/AnyElementGrouping.swift:48-59 | an empty set has only the empty iteration, and a sequence iterates as itself |
| AutoIdentifier.Successor | Dependencies/Swallow/Sources/Swallow/Intramodular/Identity/_AutoIncrementingIdentifier.swift:29-35 | the counter increments by one and wraps to 0 after the largest `UInt` |
| AutoIdentifier.Counters.constructor | Dependencies/Swallow/Sources/Swallow/Intramodular/Identity/_AutoIncrementingIdentifier.swift:7-8 | the counters start with no entries |
| AutoIdentifier.Counters.NewIdentifier | Dependencies/Swallow/Sources/Swallow/Intramodular/Identity/_AutoIncrementingIdentifier.swift:20-45 | the new identifier keeps the file and takes the key's current counter, 0 for a new key; only that key's counter moves on |
| AutoIdentifier.OrderIsByNumber | Dependencies/Swallow/Sources/Swallow/Intramodular/Identity/_AutoIncrementingIdentifier.swift:56-66 | `>` is `<` reversed, and `<` is a strict order on the numbers alone |
| AutoIdentifier.SameNumberDifferentFiles | Dependencies/Swallow/Sources/Swallow/Intramodular/Identity/_AutoIncrementingIdentifier.swift:11-66 | identifiers from different files with the same number are unequal, yet neither is less than the other |
| AutoIdentifier.Description | Dependencies/Swallow/Sources/Swallow/Intramodular/Identity/_AutoIncrementingIdentifier.swift:50-54 | the description is a non-empty string of decimal digits |
| AutoIdentifier.DescriptionIsInjective | Dependencies/Swallow/Sources/Swallow/Intramodular/Identity/_AutoIncrementingIdentifier.swift:50-54 | equal descriptions mean equal numbers |
| AutoIdentifier.SuccessorIncreases | Dependencies/Swallow/Sources/Swallow/Intramodular/Identity/_AutoIncrementingIdentifier.swift:29-35 | below the largest value, the next number is larger |
| AutoIdentifier.SuccessorWraps | Dependencies/Swallow/Sources/Swallow/Intramodular/Identity/_AutoIncrementingIdentifier.swift:29-35 | after the largest value the counter wraps to 0 |
| FilePath.AbsoluteIffLeadingSlash | Dependencies/CorePersistence/Sources/CorePersistence/Intermodular/Helpers/System/FilePath++.swift:27-29 | a path is absolute exactly when it starts with `/` |
| FilePath.LiteralLinksAreRelative | Dependencies/CorePersistence/Sources/CorePersistence/Intermodular/Helpers/System/FilePath++.swift:31-37 | `.` and `..` are exactly the literal links to the current and parent directory, and neither is absolute |
| FilePath.EmptyOrCurrentIsTwoPaths | Dependencies/CorePersistence/Sources/CorePersistence/Intermodular/Helpers/System/FilePath++.swift:39-41 | the empty-or-current test holds exactly for `""` and `"."` |
| FilePath.AbsoluteUnderAppend | Dependencies/CorePersistence/Sources/CorePersistence/Intermodular/Helpers/System/FilePath++.swift:27-29 | text appended to an absolute path keeps it absolute |

## Left out

- Loading and saving the tables, the absolute file paths and the debug `print`s of the two scripts are file I/O. The tables are given as sequences of rows.
- Titles and links are modelled over ASCII only. Python's Unicode `\w`, `\s` and `lower()` are not modelled.
- A non-string title or a NaN plot is outside what the scripts handle.
- `MovieItem`: the identifier, release year (`DateFormatter`), poster URLs, rating (floating point) and meta score are not modelled. `MovieDataItem` hashing uses `UUID()`.
- CsvHeader.RemovingBom: `removingBOMCharacter()` is unseen. The model drops one leading U+FEFF.
- CsvTable.RowCount: `rowCount` reads whichever column the dictionary yields first, in hash order. It is only determined when every column has the same length, so the model requires that.
- CSV `subscript(_ header:)`, `subscript(column:)`, `filter(byColumn:isIncluded:)`, `hasHeaderRow` apart from its use in `write`, `columns`, `columnNames` and `columnCount` are not modelled. They are thin views over the modelled state.
- CSV `append(_:)` and `incrementIndices` are not modelled. They rewrite dictionary keys through a Swallow helper that is not part of this model.
- CSV `init(from:)` goes through JSON encoding, and the `FileDocument` plumbing is file I/O.
- The rectangular index helpers of CSV are not modelled.
- `CSVReader` and `CSVWriter` are plain sequences of rows: a header row, if any, and the data rows. Field quoting and byte-order-mark detection in `BinaryReader` are not part of this model.
- CsvTable.Csv.AppendRow and CsvTable.Csv.SetRow take as preconditions the conditions under which the source's force-unwraps and index accesses do not trap.
- CsvKeyedContainer.DecodeString: a header whose index lies outside the row traps in the source. The model returns the error value `Trap` there.
- CsvKeyedContainer.Contains: a negative header index traps in the source. The model answers false; no table builds a negative index.
- The `Decodable` initialiser is a function parameter. So are the lossless-string parse of a cell (`LosslessStringConvertible.init`), `JSONSerialization` and `JSONEncoder`.
- The single-value container is not modelled.
- The `JSONNumber` and `Date` payloads of `JSON` are opaque values. The integer view of a number is a parameter.
- The `Codable`, `Foundation` and literal conformances of `JSON` are not modelled.
- Jsonl.Data: the UTF-8 encoding of the result is assumed to succeed.
- Jsonl.ParseJsonl: the UTF-8 decoding of each chunk is assumed to succeed.
- Jsonl.ParseJsonl: the input is given as its sequence of Swift `Character`s. The Unicode grapheme-cluster segmentation that produces them is not modelled; every lemma holds for any segmentation, and the CRLF lemmas take `"\r\n"` as one character, as Swift does.
- JsonMarkdown.ExtractJsonStrings: the scan runs over code points, while Swift's loop runs over `Character`s. A `{` or `}` followed by a combining mark forms a different `Character`, which the source does not count and the model does.
- JsonValue.EqAsWrittenDateIrreflexive: Swift's array and dictionary `==` answer true without comparing elements when both sides share one storage buffer, so `j == j` holds for an array holding a date. That fast path is not modelled; the lemmas are about separately built values.
- JsonValue.Index: an index outside the array traps in the source. The model takes the in-range index as a precondition, as do JsonValue.OptionalIndex and JsonValue.UnsafeStoreAt.
- JsonValue.UnsafeIndex, JsonValue.UnsafeLookup and JsonValue.UnsafeStore: the force-unwrap of the wrong kind of value traps in the source. The model requires a value of the right kind.
- ProquintEncoder.Encode requires a non-empty input. For an empty input the source force-unwraps the buffer's base address.
- Proquint words are read little-endian. `ProquintEncodedInteger` and the `Trivial` byte conversions are not part of this model.
- Proquint bit operations (shifts, masks, `|`) are written as multiplication, division and remainder by powers of two.
- UuidTime.WrappingMul: only the product that does not overflow is stated. The body is the exact product modulo 2^64.
- The UUID clock read (`clock_gettime`, `gettimeofday`) is left out. Its results are parameters.
- The UUIDv6 `Date` conversion is not modelled.
- Swift's `isNewline` and `isWhitespace` on trivia pieces are not shown in the source. They are fields of each piece.
- MacroContext.BasicMacroExpansionContext.MakeUniqueName: Swift's `name.count` counts grapheme clusters, while the model counts code points.
- MacroContext.BasicMacroExpansionContext.MakeUniqueName: the counter trap at `Int.max` is a precondition.
- The token the unique name is wrapped in is not modelled.
- The macro context's `location`, `detach`, `foldAllOperators`, `sourceFiles` and `detachedNodes` depend on syntax trees and `SourceLocationConverter`.
- A diagnostic's contents are not modelled. Only its position in the list is observed.
- SourceEdit: nodes are reduced to their start and end offsets and printed text. Offsets index the source as a sequence of code units.
- `RefactoringProvider.refactor` is given as its outcome.
- RankedGrouping.IsIteration: Swift leaves the iteration order of a set unspecified, so the model states only that each member appears once.
- The lock around the global identifier counters is left out, because concurrency is not modelled.
- The identifier's type key is its type's name.
- `FilePath` is its string value. Its URL-based members are not modelled.
- JsonValue.EqAsWrittenIsEqualityWithoutDates: number payloads compare by their text, while Swift's `JSONNumber.==` (JSONNumber.swift:187-190) compares their integer values when both have one and their approximate `Double` values otherwise. So a NaN number counts as equal to itself here, and two spellings of one value (`1.0`, `1`) count as different. Floating point is not modelled.
- JsonValue.EqIsEquality: the same limit applies. The corrected `==` compares number payloads by their text, not by their integer or `Double` values.
- CsvTable.Csv.Filter: the model takes Swallow's `remove(at:)` over a sequence of ascending indices to delete exactly the rows at those original indices. That extension's source is not part of this model, and `DropRows` rests on the same reading.

## Findings

| source | as written | input that shows it | evidently intended | confidence | as-written member | corrected member |
|---|---|---|---|---|---|---|
| Dependencies/CorePersistence/Sources/_CSV/Intramodular/CSVHeader.swift:19-23 | `<` compares indices with `<=` | any header `h`: `h < h` is true | a strict order on the index, as `Comparable` requires | not executed | CsvHeader.LessAsWrittenIsReflexive | CsvHeader.LessIsStrictTotalOrder |
| Dependencies/CorePersistence/Sources/_JSON/JSON/JSON.swift:298-318 | `==` has no case for two dates, so it falls through to `false` | `.date(d) == .date(d)` is false, and so is `[.date(d)] == [.date(d)]` for two separately built arrays | a date equals itself, as `Equatable` requires | not executed | JsonValue.EqAsWrittenDateIrreflexive | JsonValue.EqIsEquality |
| Dependencies/swift-syntax/Sources/SwiftRefactor/RefactoringProvider.swift:123-125 | `length` is `lowerBound - upperBound` | removing a node at offsets 3..8 reports length −5 | the size of the replaced range, 0 for an insertion, as the documentation says | not executed | SourceEdit.LengthAsWrittenOfRemoval | SourceEdit.Length |
