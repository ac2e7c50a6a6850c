# Name-tag sheet: TSV parser and paginator

A small web application turns rows pasted from a spreadsheet into printable
sheets of name tags. Its logic lives in two functions of
`src/utils/tsvParser.ts`:

- `parseTSV` reads tab-separated text. It trims the text, cuts it into lines
  and drops blank lines. It then drops the first line as a header. Every other
  line is split into columns. Columns C and D (positions 2 and 3) give the
  name, and columns E to I (positions 4 to 8) give the grade, class room,
  homeroom, activity and activity room. A row whose name comes out empty is
  skipped. A row that is too short is only reported, and its missing columns
  read as empty.
- `paginateData` cuts the records into pages of six (two columns by three
  rows). Only the last page may hold fewer.

The Dafny model has six modules, one per file:

- `JsText` (`js_text.dfy`) holds the two JavaScript string primitives the
  parser is built from:
  - `String.prototype.trim`, over the ECMAScript WhiteSpace and
    LineTerminator characters;
  - `String.prototype.split` with a one-character separator.

  They are given as functions, with the facts the proofs need: trim is
  determined by the padding characterisation (TrimPadding and TrimOfPadded
  together), and split and join undo each other.
- `NameTags` (`name_tags.dfy`) holds the `NameTagData` record, the column
  positions and the page size.
- `TsvParser` (`tsv_parser.dfy`) holds `parseTSV` as a pipeline of pure
  functions, together with the laws of its filter-map over the data lines.
- `ParseLaws` (`parse_laws.dfy`) holds theorems about whole inputs:
  - trimming the whole input first is immaterial;
  - blank lines are invisible;
  - the header is skipped;
  - clean rows are copied verbatim;
  - a whitespace character at the end of a row changes nothing.
- `Pagination` (`pagination.dfy`) holds `paginateData` as a method with the
  source's loop, proved equal to a pure chunking function. The shape of the
  chunks is proved as lemmas.
- `TsvExamples` (`examples.dfy`) holds the documented examples, proved on the
  model.

## Model

| member | source | states |
|---|---|---|
| JsText.Trim | src/utils/tsvParser.ts:26 | the result has no whitespace at either end and is no longer than the input |
| JsText.TrimPadding | src/utils/tsvParser.ts:26 | the input is the trimmed string with all-whitespace padding before and after it |
| JsText.TrimOfPadded | src/utils/tsvParser.ts:26 | trim is unique: a trimmed string padded with whitespace on both sides trims back to itself |
| JsText.TrimIdempotent | src/utils/tsvParser.ts:51-53 | trimming twice gives the same as trimming once |
| JsText.TrimEmptyIff | src/utils/tsvParser.ts:20 | trim gives the empty string exactly when the input is all whitespace (both directions) |
| JsText.TrimIgnoresTrailing | src/utils/tsvParser.ts:53 | appending whitespace does not change the trimmed result |
| JsText.TrimIgnoresLeading | src/utils/tsvParser.ts:53 | prepending whitespace does not change the trimmed result |
| JsText.Split | src/utils/tsvParser.ts:27 | there is at least one piece, no piece contains the separator, and joining the pieces with the separator gives back the input |
| JsText.SplitJoin | src/utils/tsvParser.ts:43 | splitting a join of separator-free pieces gives back exactly those pieces |
| JsText.SplitSnoc | src/utils/tsvParser.ts:27 | one more character at the end either opens a new empty piece (the separator) or extends the last piece |
| TsvParser.Max | src/utils/tsvParser.ts:46 | `Math.max` over the column positions: the result is one of them and at least every one of them |
| TsvParser.IsShortRow | src/utils/tsvParser.ts:46 | a row is short exactly when it has fewer columns than one past the largest position read, that is fewer than nine |
| ParseLaws.ColumnOfJoin | src/utils/tsvParser.ts:43-52 | reading column i of a line made of tab-free columns joined by tabs gives column i back, and a column past the last reads as the empty string |
| TsvParser.Cell | src/utils/tsvParser.ts:61-65 | a field is the trimmed column, so it has no surrounding whitespace; a column the row lacks gives the empty field |
| TsvParser.ComposeName | src/utils/tsvParser.ts:51-53 | the name is trimmed; it is empty exactly when both parts are blank; a blank part leaves the other part trimmed; two non-blank parts are joined by exactly one space |
| TsvParser.ParseRow | src/utils/tsvParser.ts:43-74 | a row is skipped exactly when both name columns are blank or missing; otherwise its record holds the composed name and the trimmed columns 4 to 8, and is well formed |
| TsvParser.Somes | src/utils/tsvParser.ts:81 | the null-filter keeps every present value, adds nothing, and never lengthens the list |
| TsvParser.Map | src/utils/tsvParser.ts:40-41 | `map`, defined element by element: it keeps the length and applies the function at every index |
| TsvParser.MapAppend | src/utils/tsvParser.ts:40-41 | mapping two blocks is mapping each and concatenating the results |
| TsvParser.ParseRows | src/utils/tsvParser.ts:40-81 | no more records than data lines, and every record has a non-empty name and trimmed fields |
| TsvParser.KeepNonBlank | src/utils/tsvParser.ts:28 | every kept line is non-blank and comes from the input, and every non-blank input line is kept |
| TsvParser.NonBlankLines | src/utils/tsvParser.ts:25-28 | the lines are non-blank and contain no newline |
| TsvParser.ParseTsv | src/utils/tsvParser.ts:17-92 | blank input, or fewer than two non-blank lines, gives no records; otherwise there are fewer records than non-blank lines (the header never yields one); every record is well formed |
| TsvParser.ParseRowsAppend | src/utils/tsvParser.ts:40-81 | parsing two blocks of lines gives the records of the first block followed by those of the second |
| TsvParser.SkippedRowInvisible | src/utils/tsvParser.ts:55-58 | a row without a name changes neither the records of the other rows nor their order or count |
| TsvParser.ParseRowsSingle | src/utils/tsvParser.ts:40-81 | one line gives its own record, or nothing when it has no name |
| TsvParser.ParseRowsAllNamed | src/utils/tsvParser.ts:40-81 | when every line has a name there is one record per line, and the k-th record comes from the k-th line |
| TsvParser.ParseRowsPosition | src/utils/tsvParser.ts:40-81 | the record of a named line comes right after the records of the lines before it |
| TsvParser.ParseRowsOrder | src/utils/tsvParser.ts:40-81 | records keep the order of their lines: a named line's record precedes those of all later lines |
| ParseLaws.ParseRowByCells | src/utils/tsvParser.ts:51-65 | a row's record depends on its columns only through their trimmed values |
| ParseLaws.CleanRow | src/utils/tsvParser.ts:43-74 | nine or more tab-free columns with trimmed fields and a name give a record holding those fields unchanged |
| ParseLaws.ParseRowSnoc | src/utils/tsvParser.ts:43-65 | one whitespace character at the end of a row, a tab or CR included, does not change its record |
| ParseLaws.KeepNonBlankAppend | src/utils/tsvParser.ts:28 | the blank-line filter distributes over concatenation |
| ParseLaws.KeepNonBlankAll | src/utils/tsvParser.ts:28 | lines that are all non-blank are all kept |
| ParseLaws.BlankLineInvisible | src/utils/tsvParser.ts:24-34 | a blank line anywhere, all-tab lines included, never counts as header or data and changes no record |
| ParseLaws.ParseCons | src/utils/tsvParser.ts:25-28 | one whitespace character at the start of the input changes no record |
| ParseLaws.ParseSnoc | src/utils/tsvParser.ts:25-28 | one whitespace character at the end of the input changes no record |
| ParseLaws.LastLinePadded | src/utils/tsvParser.ts:28-37 | padding the last line with whitespace other than a newline changes no record |
| ParseLaws.LastLine | src/utils/tsvParser.ts:31-37 | a non-blank last line is dropped as the header if it is the only non-blank line, and otherwise adds its own records after those of the earlier data lines |
| ParseLaws.LeadingWhitespaceIgnored | src/utils/tsvParser.ts:25-27 | any whitespace before the input changes no record |
| ParseLaws.TrailingWhitespaceIgnored | src/utils/tsvParser.ts:25-27 | any whitespace after the input changes no record |
| ParseLaws.ParseTsvIsParseLines | src/utils/tsvParser.ts:17-37 | `parseTSV` equals the line parse of the raw input cut at every newline, so the initial trim and the blank-input guard change nothing |
| ParseLaws.ParseTsvOfLines | src/utils/tsvParser.ts:25-37 | an input given as newline-free lines joined by newlines is parsed line by line |
| ParseLaws.HeaderSkipped | src/utils/tsvParser.ts:30-37 | with a non-blank header and non-blank rows, the records are exactly those of the rows: the header is dropped unread |
| ParseLaws.HeaderLineSkipped | src/utils/tsvParser.ts:36-37 | with no blank line, the line parse drops exactly the first line |
| ParseLaws.NamedRowsAllKept | src/utils/tsvParser.ts:36-81 | a header and N named data rows give exactly N records, the k-th from the k-th row |
| Pagination.ChunksFlatten | src/utils/tsvParser.ts:112-118 | the pages laid end to end are the data: nothing is lost, repeated or reordered |
| Pagination.OffsetIsProduct | src/utils/tsvParser.ts:114 | after j steps of `i += itemsPerPage` the offset is j times the page size |
| Pagination.PageAt | src/utils/tsvParser.ts:114-116 | page j starts at its offset inside the data and runs to the next offset or to the end; every page but the last ends before the data does |
| Pagination.ChunkAt | src/utils/tsvParser.ts:114-116 | page j is the data from j*k to min((j+1)*k, length); every page is non-empty and at most k long, and every page but the last holds exactly k |
| Pagination.ChunkCount | src/utils/tsvParser.ts:114 | the pages before the last cannot hold the data and all the pages can |
| Pagination.PageCount | src/utils/tsvParser.ts:114 | the number of pages is the item count divided by k, rounded up, so empty data gives no page |
| Pagination.ChunksFrom | src/utils/tsvParser.ts:115 | the pages from an offset inside the data are the slice at that offset followed by the pages after it |
| Pagination.PaginateData | src/utils/tsvParser.ts:108-119 | the loop returns exactly the chunking of the data into pages of `itemsPerPage`, and the pages laid end to end are the data |
| TsvExamples.FirstNameOnly | src/utils/tsvParser.ts:51-53 | a padded first name with an empty last name gives the trimmed first name alone |
| TsvExamples.FullName | src/utils/tsvParser.ts:51-53 | "John" and "Doe" give "John Doe" |
| TsvExamples.DocRow | src/utils/tsvParser.ts:12 | the documented data row gives the documented record |
| TsvExamples.DocExample | src/utils/tsvParser.ts:10-15 | the documented input gives exactly one record, and that record fills exactly one page |
| TsvExamples.ShortRow | src/utils/tsvParser.ts:45-65 | a row with only three columns is short, yet gives a record whose missing fields are empty |
| TsvExamples.TenRecords | src/utils/tsvParser.ts:101-106 | ten records on pages of six give a full page, then a page of the four left over |
| TsvExamples.ThirteenRecords | src/utils/tsvParser.ts:108-119 | thirteen records give pages of six, six and one, in order |

The record type follows `src/types/index.ts:4-17`. The column positions and
the page size follow `src/utils/constants.ts:6` and
`src/utils/constants.ts:12-20`.

## Left out

- Logging: the `console.warn` and `console.error` calls produce diagnostics
  only and do not affect the result. The short-row condition itself is
  modelled, as `IsShortRow`.
- The `try`/`catch` blocks are left out. The string operations they guard
  cannot throw, so `ParseTsv` is a total function.
- The `typeof tsvInput !== 'string'` guard and the `!tsvInput` test for
  `null`/`undefined` are left out. The model takes a `string`, and the empty
  string is covered by the blank-input case.
- Characters are Dafny `char`s (Unicode scalar values), not UTF-16 code
  units, so surrogate halves are not modelled. The whitespace set is the
  ECMAScript one written out for current Unicode; later Unicode versions may
  add more space separators.
- Pagination.PaginateData requires `itemsPerPage >= 1`, while the source
  accepts any number. With 0 and non-empty data the source's loop never
  ends, and negative or fractional page sizes are not modelled. The only
  caller passes 6. The source's default of 6 for `itemsPerPage` is not
  modelled: the page size is always passed explicitly, and the only caller
  passes `NAME_TAGS_PER_PAGE` (`NameTagsPerPage`).
- `SAMPLE_TSV` (`src/utils/constants.ts`) is not part of this model. The
  documented example stands in for it.
- The React components, `localStorage` persistence and printing are not part
  of this model. They are presentation code that only calls the two
  functions.
- TsvExamples.DocExample, TsvExamples.DocRow and TsvExamples.ShortRow state
  the documented inputs by their columns joined with tabs and their lines
  joined with newlines, not as a single string literal. This is the same
  text, written through `Join`.
