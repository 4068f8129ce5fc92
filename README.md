# Liturgical calendar and Bible verses: references, queries and verse import

This project models the data core of a liturgical-calendar app. The calendar lists
lections as loose citations such as "Mt 3", "2 Tim 3:1-15" or "Isa 4:2-5; 11:1-5". The
app resolves them against a `bible_verses` table.

The model covers three parts of that core:

- **References** (`lib/supabase.ts`):
  - `parseReference` and its `bookAbbreviations` table.
  - Only the first `;`-separated segment is read.
  - That segment must fit `^(\d?\s*\w+)\s+(\d+)(?::(\d+)(?:-(\d+))?)?$`.
  - The book token, with its whitespace removed, must be a key of the table.
  - The result is a book, a chapter and an optional verse range, or `null`.
- **Queries** (`lib/supabase.ts`): what `getBibleVerses` and `getLiturgicalEvents` ask of
  the database.
  - The equality and range filters are modelled over an in-memory table.
  - So is the ascending order.
  - Each query is proved to determine its answer uniquely when the table holds one
    row per key: one verse per book, chapter and verse number, and one event per year
    and date, with every date a valid calendar date.
- **Verse import** (`scripts/import-bible-verses.js` and `scripts/import-to-supabase.js`):
  both scripts read a six-column CSV file line by line.
  - A line is recognised with the same regular expression in both.
  - Each field is passed through the script's own `cleanField`.
  - The book and the chapter are carried forward from earlier lines.
  - A record is kept when the book, the chapter and the verse are all known.
  - The first script writes the records as SQL `INSERT` statements of 500 rows. Its
    `cleanField` doubles single quotes.
  - The second converts chapter and verse with `parseInt`. It inserts slices of 500 in
    sequence and stops at the first slice the database rejects.
  - The model proves that both scripts read the same verses. The only difference is that
    the SQL script's fields have their single quotes doubled. It also proves that the
    SQL literals read back as the direct import's values.

Modules:

| module | contents |
|---|---|
| `Text` | the JavaScript built-ins the core uses: `trim`, `split` and `join`, `\s`, `\d` and `\w`, `replace(/\s+/g, '')`, `parseInt` |
| `References` | `bookAbbreviations`, the citation pattern and `parseReference` |
| `ReferenceExamples` | the citations of the calendar data and of the source's comments, parsed |
| `Queries` | `getBibleVerses` and `getLiturgicalEvents` |
| `CsvFields` | the six-field line pattern, with its backtracking, and the two `cleanField`s |
| `CsvLines` | the shared line loop with its carried book and chapter; the two dialects compared |
| `Batching` | slices of 500 |
| `SqlExport` | the SQL text of `scripts/import-bible-verses.js` |
| `DirectImport` | the rows and the sequential insert loop of `scripts/import-to-supabase.js` |

Where the documentation and the code differ, the model follows the code:

- **All failures are `null`.** `parseReference` returns `null` for empty text, for text
  that does not fit the pattern and for an unknown book alike. The model's `None`
  covers all three.
- **A start verse alone selects the rest of the chapter.** `getBibleVerses` with only a
  start verse applies `verse >= startVerse`. It returns the rest of the chapter, not a
  single verse (`Queries.StartOnlyGivesRestOfChapter`).
- **No order check on verse ranges.** Neither `getBibleVerses` nor `parseReference`
  checks that the start verse is at most the end verse. A reversed range selects
  nothing.
- **Dates are a year, month and day triple.** The `date` column is a `YYYY-MM-DD` string,
  so ascending order on it is calendar order. The model keeps the triple and orders it
  by the calendar (`Queries.DayRankOrder`).

## Model

| member | source | states |
|---|---|---|
| Text.LeadRun | lib/supabase.ts:156 | the length of the longest prefix in a character class: every character before it is in the class, the one after it is not |
| Text.TrailRun | lib/supabase.ts:156 | the length of the longest suffix in a character class: every character in it is in the class, the one before it is not |
| Text.TrimStartRun | lib/supabase.ts:153 | the start half of `trim` drops exactly the leading whitespace run |
| Text.TrimEndRun | lib/supabase.ts:153 | the end half of `trim` drops exactly the trailing whitespace run |
| Text.TrimRuns | lib/supabase.ts:153 | `trim` keeps what lies between the leading and the trailing whitespace runs |
| Text.TrimSpec | lib/supabase.ts:150 | `trim()` is empty exactly when the text is all whitespace; otherwise it starts and ends with a non-space |
| Text.TrimOf | scripts/import-bible-verses.js:16 | trimming whitespace around a text that starts and ends with a non-space gives that text back |
| Text.TrimNoSurroundingSpace | scripts/import-bible-verses.js:16 | a text without surrounding whitespace is unchanged by `trim` |
| Text.TrimIdempotent | scripts/import-to-supabase.js:39 | trimming twice is trimming once |
| Text.RemoveSpaces | lib/supabase.ts:163 | `replace(/\s+/g, '')` leaves no whitespace and never lengthens the text |
| Text.RemoveSpacesAppend | lib/supabase.ts:163 | removing whitespace distributes over concatenation |
| Text.RemoveSpacesOfAllSpace | lib/supabase.ts:163 | all-whitespace text becomes empty |
| Text.RemoveSpacesOfNoSpace | lib/supabase.ts:163 | text without whitespace is unchanged |
| Text.Split | lib/supabase.ts:153 | `split(';')` gives at least one piece and no piece holds the separator |
| Text.JoinSplit | lib/supabase.ts:153 | joining the pieces of a split with the separator gives back the text |
| Text.SplitJoin | lib/supabase.ts:153 | splitting a join of separator-free pieces gives back the pieces |
| Text.SplitNoSep | lib/supabase.ts:153 | text without the separator splits into itself alone |
| Text.SplitAfter | lib/supabase.ts:153 | a separator-free prefix followed by the separator is the first piece |
| Text.SplitFirstPrefix | lib/supabase.ts:153 | the first piece is a prefix of the text |
| Text.DecimalString | lib/supabase.ts:172 | the shortest numeral of a number: non-empty, all digits, no leading zero |
| Text.DecimalRoundTrip | lib/supabase.ts:172 | the decimal value of a number's numeral is the number |
| Text.ParseInt | scripts/import-to-supabase.js:52-53 | `parseInt` gives a number exactly when a digit follows the leading whitespace and optional sign; it is non-negative without a minus |
| Text.ParseIntPrefix | scripts/import-to-supabase.js:52-53 | a digit run followed by a non-digit reads as the run's decimal value |
| Text.ParseIntOfNumeral | scripts/import-to-supabase.js:52-53 | a numeral followed by a non-digit reads back as its number |
| References.BookTokenIsPattern | lib/supabase.ts:156 | the book token test accepts exactly the strings of `\d?\s*\w+` |
| References.BookTokenHasPattern | lib/supabase.ts:156 | every accepted book token fits `\d?\s*\w+` |
| References.PatternIsBookToken | lib/supabase.ts:156 | every string of `\d?\s*\w+` is accepted as a book token |
| References.BookTokenChars | lib/supabase.ts:156 | a book token holds only whitespace and word characters |
| References.BookTokenEndsInWord | lib/supabase.ts:156 | a book token ends in a word character |
| References.MatchVerses | lib/supabase.ts:156 | a recognised `(\d+)(?:-(\d+))?` tail is made of digit runs and renders back to the text |
| References.MatchVersesComplete | lib/supabase.ts:156 | every verse range written out from digit runs is recognised as those runs |
| References.MatchNumbers | lib/supabase.ts:156 | a recognised `(\d+)(?::(\d+)(?:-(\d+))?)?` tail is made of digit runs, has an end verse only with a start verse, and renders back to the text |
| References.MatchNumbersComplete | lib/supabase.ts:156 | every chapter-and-verses text written out from digit runs is recognised as those runs |
| References.MatchReferenceSound | lib/supabase.ts:156-158 | every match of the citation pattern is well formed and renders back to the text it was found in |
| References.MatchReferenceComplete | lib/supabase.ts:156-160 | every well-formed match is recognised from its own text with the same groups, so the match is unique |
| References.NumbersHaveNoSpace | lib/supabase.ts:156 | the chapter-and-verses text holds no whitespace |
| References.ParseReferenceIn | lib/supabase.ts:149-177 | blank text gives `null`; a result's book is a value of the table; an end verse comes only with a start verse |
| References.ParseReference | lib/supabase.ts:149-177 | `parseReference` over `bookAbbreviations`: blank text gives `null` and every book returned is a full name from the table |
| References.RemoveSpacesIgnoresTrim | lib/supabase.ts:163 | `bookAbbr.trim().replace(/\s+/g, '')` is the same key as `replace` alone |
| References.ParseReferenceOfParts | lib/supabase.ts:153-176 | when the first segment fits the pattern, the result is non-null exactly when the whitespace-free book token is a key, and it is then the looked-up book with the numbers parsed |
| References.ParseReferenceHasParts | lib/supabase.ts:153-176 | conversely, every non-null result comes from a match of the first segment whose key is in the table, converted as above |
| References.OnlyFirstSegmentCounts | lib/supabase.ts:152-153 | only the text before the first `;` decides the result |
| References.SpaceAfterBookNumberIgnored | lib/supabase.ts:156-164 | "2 Tim" and "2Tim" resolve alike: whitespace after a book's leading digit is dropped before the lookup |
| References.RenderedIsFirstSegment | lib/supabase.ts:153 | a match text that starts with a non-space has no `;` and no surrounding whitespace, so it is its own first segment |
| References.RenderedHasNoSemicolon | lib/supabase.ts:156 | no text fitting the pattern holds a `;` |
| ReferenceExamples.ParsedFrom | lib/supabase.ts:153-169 | a match text starting with a non-space parses to the lookup of its groups |
| ReferenceExamples.ResolvedBy | lib/supabase.ts:163-176 | the lookup of a book token is decided by its whitespace-free key |
| ReferenceExamples.ActsMissing | lib/supabase.ts:75-147 | "Acts" is not a key of the table |
| ReferenceExamples.ChapterOnlyExample | scripts/import-complete-calendar.js:20 | "Matt 3" is chapter 3 of Matthew with no verses, under any table mapping "Matt" to "Matthew" |
| ReferenceExamples.ShortAbbreviationExample | lib/supabase.ts:155 | "Mt 3" is chapter 3 of Matthew |
| ReferenceExamples.FirstVersesExample | lib/supabase.ts:155 | "John 1:1-28" is John 1, verses 1 to 28 |
| ReferenceExamples.VerseRangeExample | scripts/import-complete-calendar.js:21 | "Luke 4:14-30" is Luke 4, verses 14 to 30 |
| ReferenceExamples.NumberedBookExample | scripts/import-complete-calendar.js:21 | "2 Tim 3:1-15" is 2 Timothy 3, verses 1 to 15 |
| ReferenceExamples.FirstSegmentOnly | scripts/import-complete-calendar.js:20 | "Isa 4:2-5" is Isaiah 4, verses 2 to 5, under the table's own entry |
| ReferenceExamples.FirstSegmentExample | scripts/import-complete-calendar.js:20 | whatever follows the first `;` after "Isa 4:2-5" is ignored |
| ReferenceExamples.UnknownBookExample | scripts/import-complete-calendar.js:49 | "Acts 1:1-14" fits the pattern but gives `null`, because "Acts" is not in the table |
| ReferenceExamples.CrossChapterMatch | scripts/import-complete-calendar.js:20 | "Titus 2:11-3:7" does not fit the pattern |
| ReferenceExamples.CrossChapterRangeRejected | scripts/import-complete-calendar.js:20 | "Titus 2:11-3:7" gives `null` whatever the table holds |
| ReferenceExamples.VerseListMatch | scripts/import-complete-calendar.js:20 | "Num 24:2-9, 15-end" does not fit the pattern |
| ReferenceExamples.VerseListRejected | scripts/import-complete-calendar.js:20 | "Num 24:2-9, 15-end" gives `null` whatever the table holds |
| ReferenceExamples.MattParsed | scripts/import-complete-calendar.js:20 | `parseReference("Matt 3")` is Matthew 3 |
| ReferenceExamples.MtParsed | lib/supabase.ts:155 | `parseReference("Mt 3")` is Matthew 3 |
| ReferenceExamples.JohnParsed | lib/supabase.ts:155 | `parseReference("John 1:1-28")` is John 1:1-28 |
| ReferenceExamples.LukeParsed | scripts/import-complete-calendar.js:21 | `parseReference("Luke 4:14-30")` is Luke 4:14-30 |
| ReferenceExamples.TimParsed | scripts/import-complete-calendar.js:21 | `parseReference("2 Tim 3:1-15")` is 2 Timothy 3:1-15 |
| ReferenceExamples.IsaParsed | scripts/import-complete-calendar.js:20 | `parseReference("Isa 4:2-5; 11:1-5; 12:4-end")` is Isaiah 4:2-5 |
| ReferenceExamples.ActsParsed | scripts/import-complete-calendar.js:49 | `parseReference("Acts 1:1-14")` is `null` |
| ReferenceExamples.TitusParsed | scripts/import-complete-calendar.js:20 | `parseReference("Titus 2:11-3:7")` is `null` |
| ReferenceExamples.NumParsed | scripts/import-complete-calendar.js:20 | `parseReference("Num 24:2-9, 15-end")` is `null` |
| Queries.Filter | lib/supabase.ts:53-63 | a filter keeps exactly the rows satisfying its condition, never more than the table holds |
| Queries.FilterAppend | lib/supabase.ts:53-63 | filtering distributes over concatenation |
| Queries.FilterCount | lib/supabase.ts:53-63 | a kept row occurs as often as in the table; a dropped row not at all |
| Queries.Insert | lib/supabase.ts:55 | inserting into a sorted list keeps it sorted and adds exactly that row |
| Queries.SortBy | lib/supabase.ts:55 | `.order(..., { ascending: true })`: the result is sorted and a permutation of its input |
| Queries.FilterSorted | lib/supabase.ts:55-63 | filtering a sorted list leaves it sorted |
| Queries.FilterInsert | lib/supabase.ts:55-63 | filtering commutes with inserting into a sorted list |
| Queries.FilterSortBy | lib/supabase.ts:55-63 | filtering then sorting is sorting then filtering |
| Queries.SortedUnique | lib/supabase.ts:55 | two sorted lists with the same rows are equal when no two rows share a key |
| Queries.GetBibleVerses | lib/supabase.ts:49-73 | the result is sorted by verse and holds exactly the table's rows of that book and chapter within the given bounds |
| Queries.SelectedCount | lib/supabase.ts:49-73 | each selected row comes back as often as the table holds it; no other row does |
| Queries.StartOnlyGivesRestOfChapter | lib/supabase.ts:57-59 | a start verse alone gives every verse of the chapter from the start on |
| Queries.EndVerseCutsRange | lib/supabase.ts:61-63 | adding an end verse drops exactly the rows after it |
| Queries.VersesDetermined | lib/supabase.ts:49-73 | when book, chapter and verse identify a row, any sorted answer with the selected rows is the model's result |
| Queries.DayRankOrder | lib/supabase.ts:39 | the rank of valid dates orders them as the calendar does and tells different dates apart |
| Queries.GetLiturgicalEvents | lib/supabase.ts:34-47 | the result is sorted by date and holds exactly the table's events of that year |
| Queries.EventCount | lib/supabase.ts:34-47 | each event of the year comes back as often as the table holds it; no other event does |
| Queries.EventsDetermined | lib/supabase.ts:34-47 | when a year has one event per date, any sorted answer with that year's events is the model's result |
| CsvFields.CommaFromSpec | scripts/import-bible-verses.js:19 | the comma scan skips no comma and stops at one or at the end |
| CsvFields.FirstCommaSpec | scripts/import-bible-verses.js:19 | the text before the first comma is a `[^,]*` field |
| CsvFields.FirstCommaOf | scripts/import-bible-verses.js:19 | a comma-free field followed by a comma ends at that comma |
| CsvFields.CloseFromSpec | scripts/import-bible-verses.js:19 | where a quoted body is closed, a quote ends a well-formed body and no quote follows |
| CsvFields.CloseFromBody | scripts/import-bible-verses.js:19 | every well-formed body followed by a lone quote is closed there |
| CsvFields.QuotedEndSpec | scripts/import-bible-verses.js:19 | the quoted field found is a quoted CSV field (quotes inside doubled) and no quote follows it |
| CsvFields.QuotedEndOf | scripts/import-bible-verses.js:19 | a quoted field followed by a non-quote is the one found |
| CsvFields.FitsTextJoin | scripts/import-bible-verses.js:19 | fitting is exactly joining text fields with commas |
| CsvFields.MatchAfterOf | scripts/import-bible-verses.js:19 | after a field and a comma, the match succeeds exactly when the rest matches |
| CsvFields.MatchTextSplit | scripts/import-bible-verses.js:19 | a match is a text field, a comma and a match of the rest |
| CsvFields.MatchTextFits | scripts/import-bible-verses.js:19 | the last three captures are text fields that make up the rest of the line |
| CsvFields.MatchTextComplete | scripts/import-bible-verses.js:19 | whenever the last three fields can be split, they are matched |
| CsvFields.QuotedFirstPreferred | scripts/import-bible-verses.js:19 | a quoted first field that leaves a match for the rest is the one the pattern takes |
| CsvFields.MatchTextPriority | scripts/import-bible-verses.js:19 | where the match and another split first differ, the other split's field is not quoted: the quoted alternative wins |
| CsvFields.PlainThenCommaSpec | scripts/import-bible-verses.js:19 | splitting off a `[^,]*` field fails exactly when there is no comma, and otherwise the field and the comma join back to the text |
| CsvFields.PlainThenCommaOf | scripts/import-bible-verses.js:19 | a comma-free field, a comma and a rest split into that field and rest |
| CsvFields.MatchLineSound | scripts/import-bible-verses.js:19-22 | every matched line splits into the six captures, each of its own shape |
| CsvFields.MatchLineComplete | scripts/import-bible-verses.js:19-22 | every line with the six-field shape matches, with the same book, chapter and verse; a quoted Assyrian field is kept whole, and so is a quoted transliteration wherever the Assyrian field agrees |
| CsvFields.MatchLineOfParts | scripts/import-bible-verses.js:19-22 | a fitting line's first three fields are found at its first three commas |
| CsvFields.TextPartMatch | scripts/import-bible-verses.js:19 | the last three fields always match; a quoted field is kept whole wherever the fields before it agree |
| CsvFields.StripQuotes | scripts/import-bible-verses.js:25 | a field quoted at both ends loses both quotes, one quoted at one end loses that quote, and any other field is unchanged |
| CsvFields.CollapsePair | scripts/import-bible-verses.js:25 | collapsing `""` pairs undoes doubling quotes |
| CsvFields.PairCollapse | scripts/import-bible-verses.js:25 | a quoted body is the doubling of its collapse |
| CsvFields.PairedIsBody | scripts/import-bible-verses.js:19 | a value with its quotes doubled is a well-formed quoted body |
| CsvFields.CleanAllAt | scripts/import-bible-verses.js:22-25 | each capture is cleaned on its own |
| CsvFields.CleanFieldsOf | scripts/import-bible-verses.js:22-25 | the six cleaned captures are `cleanField` of each |
| CsvFields.CleanFieldSpec | scripts/import-to-supabase.js:38-40 | a cleaned field is empty exactly when what is inside the quotes is whitespace; the direct import's value has no surrounding whitespace |
| CsvFields.CleanQuotedField | scripts/import-bible-verses.js:24-26 | a value written as a quoted CSV field cleans back to the trimmed value, with single quotes doubled in the SQL script |
| CsvFields.CleanOfQuoted | scripts/import-to-supabase.js:38-40 | a quoted field cleans to its trimmed collapsed body |
| CsvFields.CleanDialects | scripts/import-bible-verses.js:24-26 | the SQL script's value is the direct import's value with single quotes doubled, and empty exactly when it is |
| CsvFields.ReadSqlString | scripts/import-bible-verses.js:61 | reading an SQL literal stops within the text |
| CsvFields.ReadSqlCons | scripts/import-bible-verses.js:61 | a character, or its doubled quote, in front of a literal reads as that character in front of the value |
| CsvFields.ReadDoubled | scripts/import-bible-verses.js:24-26 | a value with its single quotes doubled, closed by a quote, reads back as the value |
| CsvLines.FieldsOfAt | scripts/import-bible-verses.js:15-22 | each line is read on its own |
| CsvLines.FieldsOfSnoc | scripts/import-bible-verses.js:15-22 | reading one more line adds that line's fields |
| CsvLines.StepOf | scripts/import-bible-verses.js:29-45 | one line's book and chapter replace the carried ones when non-empty, and a record is made when book, chapter and verse are all present |
| CsvLines.RunSnoc | scripts/import-bible-verses.js:15-47 | the loop over one more line is one more step |
| CsvLines.ReadLine | scripts/import-bible-verses.js:16-45 | the loop body for one line computes the step on that line's cleaned fields |
| CsvLines.BodyRead | scripts/import-bible-verses.js:15 | the lines after the header are read one by one |
| CsvLines.ParseVerseLines | scripts/import-bible-verses.js:12-47 | the loop builds the verse records of the file |
| CsvLines.ReadVerseLines | scripts/import-bible-verses.js:15-47 | the loop over the lines after the header builds the records of its specification |
| CsvLines.RunAppend | scripts/import-bible-verses.js:15-47 | the loop over two stretches of lines is the loop over the first, then over the second from the carry it leaves |
| CsvLines.FieldsOfAppend | scripts/import-bible-verses.js:15-22 | reading two stretches of lines is reading each |
| CsvLines.InertLine | scripts/import-bible-verses.js:17-22 | a blank line, or one without the six-field shape, changes nothing |
| CsvLines.HeaderIgnored | scripts/import-bible-verses.js:15 | the header line is never read |
| CsvLines.ParseVersesCount | scripts/import-bible-verses.js:12-47 | at most one record per line after the header; none without lines after it |
| CsvLines.RunBounds | scripts/import-bible-verses.js:29-45 | each line adds at most one record, and a book or chapter once seen is never lost |
| CsvLines.CarryIsLastSeen | scripts/import-bible-verses.js:29-34 | `currentBook` and `currentChapter` are the last non-empty values seen |
| CsvLines.RecordOfLine | scripts/import-bible-verses.js:36-45 | a line adds a record exactly when it has the six-field shape and a verse and a book and a chapter have been seen, and the record carries them |
| CsvLines.LineDialects | scripts/import-to-supabase.js:38-40 | a line's fields in the SQL script are the direct import's with single quotes doubled |
| CsvLines.CleanFieldsDialects | scripts/import-bible-verses.js:24-26 | the six cleaned captures of the two scripts differ only by doubled single quotes |
| CsvLines.FieldsDialects | scripts/import-to-supabase.js:26-36 | every line's fields differ only by doubled single quotes |
| CsvLines.StepDialects | scripts/import-to-supabase.js:43-57 | one step of the two scripts carries and records the same values, quotes doubled |
| CsvLines.RunDialects | scripts/import-to-supabase.js:26-60 | the two loops carry and record the same values, quotes doubled |
| CsvLines.ParseVersesDialects | scripts/import-to-supabase.js:26-60 | the SQL script reads the same verses as the direct import, single quotes doubled |
| Batching.Batches | scripts/import-bible-verses.js:53-56 | every slice holds between 1 and 500 verses |
| Batching.FlattenBatches | scripts/import-to-supabase.js:65-69 | the slices laid end to end are the verses: each is sent exactly once, in order |
| Batching.FlattenAppend | scripts/import-to-supabase.js:65-69 | laying slices end to end distributes over concatenation |
| Batching.BatchCount | scripts/import-bible-verses.js:53-56 | the number of slices is the verse count divided by 500, rounded up |
| Batching.BatchAt | scripts/import-bible-verses.js:55-56 | slice `k` starts at `500 * k` and holds 500 verses or what is left |
| Batching.BatchesAppend | scripts/import-bible-verses.js:55-56 | cutting the verses at a multiple of 500 cuts the slices there |
| SqlExport.Tuples | scripts/import-bible-verses.js:60-62 | one tuple per verse of the slice, in the slice's order: the `k`-th tuple is that of the `k`-th verse |
| SqlExport.ScriptAppend | scripts/import-bible-verses.js:55-65 | the statements of two runs of slices are those of each, one after the other |
| SqlExport.SqlTextAppend | scripts/import-bible-verses.js:55-65 | the text for verses cut at a multiple of 500 is the two texts one after the other |
| SqlExport.SqlTextOneBatch | scripts/import-bible-verses.js:58-64 | at most 500 verses make one `INSERT` statement |
| SqlExport.SqlTextStart | scripts/import-bible-verses.js:58 | no verses, no text; otherwise the text starts with the `INSERT` header |
| SqlExport.GenerateSql | scripts/import-bible-verses.js:52-65 | the loop writes one statement per slice of 500 |
| SqlExport.QuoteReadsBack | scripts/import-bible-verses.js:61 | an escaped value between quotes reads back as the value |
| SqlExport.TupleBookReadsBack | scripts/import-bible-verses.js:61 | a tuple's book literal reads back as the direct import's book |
| SqlExport.TupleEnglishReadsBack | scripts/import-bible-verses.js:61 | a tuple's closing English literal reads back as the direct import's English text |
| DirectImport.RowsOf | scripts/import-to-supabase.js:50-57 | one row per record |
| DirectImport.RowsOfAt | scripts/import-to-supabase.js:50-57 | each row is the conversion of its record |
| DirectImport.RowsSnoc | scripts/import-to-supabase.js:50-57 | converting one more record adds its row |
| DirectImport.ParseVerseRows | scripts/import-to-supabase.js:26-60 | the loop builds the rows of the records the shared loop reads |
| DirectImport.ReadVerseRows | scripts/import-to-supabase.js:29-60 | the loop over the lines after the header builds the rows of its specification |
| DirectImport.RowNumbers | scripts/import-to-supabase.js:52-53 | numeral chapter and verse fields become their numbers |
| DirectImport.RowsKeepText | scripts/import-to-supabase.js:50-57 | rows keep the records' order, book and text fields, and parse the chapter |
| DirectImport.FirstRejected | scripts/import-to-supabase.js:65-82 | the first rejected slice: all earlier slices are accepted and it is not |
| DirectImport.ImportBatches | scripts/import-to-supabase.js:65-82 | the loop sends the slices up to the first rejected one; `imported` counts exactly the rows sent, all of them when none is rejected |
| DirectImport.BatchFlatten | scripts/import-to-supabase.js:71-80 | sending one more slice adds its rows |
| DirectImport.AllAccepted | scripts/import-to-supabase.js:65-82 | when every slice is accepted, every row is inserted exactly once, in order |

## Left out

- File reading, console output and `process.exit` are left out. The scripts' input is
  the file's lines (`split('\n')`), and the SQL text is a returned string, not a written
  file.
- The Supabase client is left out. The queries are modelled over an in-memory table,
  and the outcome of each `insert` call is a parameter `accepted(k)` for slice `k`.
- Asynchrony is left out. The `await`ed calls are modelled as sequential.
- `getLiturgicalEvents` and `getBibleVerses` throw on a database error. That error path
  is not modelled, since it comes from the database.
- References.ParseReference: the table is modelled as a finite map. In JavaScript the
  lookup `bookAbbreviations[bookKey]` also finds the keys every object inherits, such as
  `constructor`, `toString` and `__proto__`. So `parseReference("constructor 3")` returns
  an object whose `book` is not a string from the table, where the model returns `None`.
  The model's promise that every book returned is a full name from the table holds only
  for keys that are not inherited.
- Text.ParseInt: models `parseInt` without a radix on decimal text only. A `0x`
  prefix, which JavaScript reads as hexadecimal, is read as the number 0 followed by
  other text.
- Text.IsSpace: `\s` and `trim` are modelled for the six ASCII whitespace characters.
  The no-break space, the line terminators U+2028 and U+2029 and the other Unicode
  space separators are not modelled.
- Queries.GetBibleVerses: the source returns the rows of the database in an order that
  is unspecified among equal verse numbers. The model sorts stably;
  `Queries.VersesDetermined` shows the answer is unique when verses are unique.
- Queries.GetLiturgicalEvents: the `date` column is a `YYYY-MM-DD` string. The model
  keeps it as a year, month and day triple ordered by the calendar.
- The calendar data in the other import scripts is not part of this model. Its
  citations appear only as examples for `parseReference`.
- Numbers are unbounded. The source's floating-point numbers are exact for every
  chapter and verse number a Bible has.
