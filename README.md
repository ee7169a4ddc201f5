# CSV utilities of rose-ext-csv, modelled in Dafny

This project models `CsvUtils` from the rose-ext-csv extension of the Rose
framework, together with the `csv:*` expression functions that call it.
The model covers these parts:

- **Line reader** (`LineReader`). Splits a file into logical lines. A newline
  inside a double-quoted run does not end a line. UTF-8 byte-order marks are
  removed from each line.
- **Field tokenizer** (`Tokenizer`). Models the six-state machine that turns
  one line into fields, plus the optional removal of surrounding quotes.
- **Column descriptors and value coercion** (`Columns`, `Coercion`). A
  descriptor `name:type[:format]` gives a column name and an SQL type. The
  coercion turns a cell into an SQL literal: date parsing against a
  `Y/m/d`-style format, character extraction for `int` and `numeric`, the
  `clean` filter, and quoting with doubled single quotes.
- **Loader** (`Loader`). Models `loadCsv`, which turns a file into one
  `CREATE TABLE` statement followed by one `INSERT INTO` per row.
- **Reader** (`Reader`). Models `readCsv`, which turns a file into records
  keyed by column name, each carrying `_row_number`.
- **Shared row steps** (`Rows`, `Select`). The delimiter chosen by file
  extension, the test that skips a blank line, the empty-row count, and the
  in-order column selection that both paths use.
- **Output buffer** (`Output.CsvBuffer`). A class that holds the static
  output state: the data buffer, header, row count, separator and escape
  flag. Its methods model `clear`, `escape`/`row` and the `csv:clear`,
  `csv:separator`, `csv:escape`, `csv:header`, `csv:row`, `csv:rows`,
  `csv:data`, `csv:dump` and `csv:write` bindings.

Each loop in the source becomes a `method` with invariants:

- the tokenizer loop;
- the line-reading loop;
- the date-parse and extract loops;
- the statement-building loops;
- the `loadCsv` and `readCsv` row loops;
- the output loops.

Each such method is proved equal to a recursive reference function. The
properties are then proved about those functions. Examples:

- splitting a file of well-quoted lines gives those lines back;
- a line without quotes tokenizes like PHP `explode` followed by trimming;
- quoting and escaping can be undone;
- descriptor resolution round-trips;
- a load gives a `CREATE` followed by `INSERT`s;
- a load fails with the "no data" error exactly on empty input;
- the missing-header error happens exactly when line 0 is skipped and a
  later line is used;
- rows past the row cap have no effect;
- read records are numbered in increasing order.

The source's behaviour is modelled as written. These behaviours are worth
knowing:

- **Trailing delimiter.** A line that ends in a delimiter after a field gets
  two empty fields, not one. State 5 records one at the end-of-line sentinel,
  and state 0 then reads the sentinel again and records another. So `a,b,`
  gives four fields (`Tokenizer.TrailingDelimiter`).
- **Extra columns.** In `loadCsv`, the extra-field keys are put in front of
  the header in reverse order. They go through descriptor detection like any
  header field, so a `key:int` extra column is typed.
- **Given header in `readCsv`.** A given header list, even an empty one, is
  an object and so passes the `$header != null` test: the field list starts
  out empty. An empty list then compares equal to `null` when row 0 is read,
  so with an empty header list row 0 of the file is still used as the header.
- **Date letters.** When the value has a non-digit where a format letter
  expects digits, the format letter is skipped and the value position stays.
- **`_row_number`.** It is the index of the logical line plus one, counting
  the header, blank and skipped lines.
- **Empty input.** On an empty file `readCsv` returns an empty list, while
  `loadCsv` fails with the "no data" error.

## Model

| member | source | states |
|---|---|---|
| Text.TrimSlice | Csv.php:444 | `Text::trim` removes a run of trim characters (space, tab, newline, carriage return, NUL, vertical tab) from each end and keeps the middle as one slice. The result starts and ends with a non-trim character. |
| Text.TrimIdempotent | Csv.php:444 | Trimming twice is the same as trimming once. |
| Text.TrimSolid | Csv.php:447-448 | The trimmed line keeps every non-trim character of the line and adds none. It is empty exactly when every character is a trim character. |
| Text.RemoveCharAppend | Csv.php:157 | Removing a character with `str_replace` works piecewise over a concatenation. |
| Text.UndoubleDouble | Csv.php:70 | Doubling a quote character with `str_replace` can be undone: undoubling the result gives the original. |
| Text.ToLowerFixed | Csv.php:260 | `strtolower` leaves a string unchanged exactly when it has no ASCII capital letter. |
| Text.ToLowerIdempotent | Csv.php:260 | Lower-casing twice is the same as lower-casing once. |
| Text.JoinSplit | Csv.php:255 | Joining the pieces of `explode` with the separator gives the original string. |
| Text.SplitJoin | Csv.php:255 | `explode` of pieces joined by a separator they do not contain gives the pieces back. |
| Text.SplitFirst | Csv.php:255-258 | The first piece of `explode` is the prefix before the first separator. There is one piece exactly when the separator is absent. |
| Text.SplitPieces | Csv.php:255 | No piece of `explode` contains the separator. |
| Text.DropTerminator | Csv.php:479 | `substr($q, 0, -2)` after each piece was terminated by a two-character separator leaves the pieces joined by that separator. |
| Text.TerminatedJoin | Csv.php:515 | Pieces each followed by a separator are the joined pieces plus one trailing separator. |
| LineReader.RemoveBom | Csv.php:145 | The byte-order-mark removal never lengthens a line and leaves a line without its first byte unchanged. |
| LineReader.RemoveBomAnywhere | Csv.php:145 | A byte-order mark is removed wherever it occurs, not only at the start. |
| LineReader.RemoveBomHead | Csv.php:145 | A leading byte-order mark is dropped. |
| LineReader.QuoteCountAppend | Csv.php:124-141 | The number of double quotes in a concatenation is the sum of the two numbers. |
| LineReader.LineEndFacts | Csv.php:110-143 | The computed end of a logical line is the first newline reached outside quotes, or the end of the input. |
| LineReader.NextStart | Csv.php:119-120 | The next line starts after the current one, within the input. |
| LineReader.ReadLine | Csv.php:105-147 | At end of input `parseLine` returns false (`None`). Otherwise it returns the text up to the line end with byte-order marks removed, and the position after the newline. |
| LineReader.LinesFromNext | Csv.php:435 | Reading lines from a position gives the line there, followed by the lines from the next start. |
| LineReader.LinesEmpty | Csv.php:113-114 | A file has no lines exactly when it is empty. |
| LineReader.BlankLine | Csv.php:119-120 | A newline right at the start of a line ends it, giving an empty line. |
| LineReader.QuotedNewlineKept | Csv.php:129-132 | A newline after an odd number of quotes does not end the line. |
| LineReader.LinesFromShift | Csv.php:105-147 | Reading lines does not depend on what came before the starting position. |
| LineReader.MapRemoveBom | Csv.php:145 | One byte-order-mark-free line per input line, in order. |
| LineReader.LinesOfTerminated | Csv.php:105-147 | Well-quoted lines written one after another with newlines are read back as those lines, with marks removed. |
| LineReader.FirstLine | Csv.php:119-120 | For a well-quoted first line, the first logical line ends at its newline. |
| Tokenizer.Prepare | Csv.php:157 | The scanned text is the trimmed line without carriage returns plus a sentinel newline. |
| Tokenizer.NextStop | Csv.php:195-202 | An unquoted field ends at the first delimiter or newline after it. |
| Tokenizer.QuoteEnd | Csv.php:179-193 | A quoted field ends at the first quote not followed by another quote. |
| Tokenizer.StripQuotes | Csv.php:220-230 | Removing quotes drops a leading and a trailing double quote. A field without them is unchanged. |
| Tokenizer.MapStripQuotes | Csv.php:222-229 | Quote removal is applied to every field, in order. |
| Tokenizer.StripAll | Csv.php:220-230 | The removal loop gives each field with its quotes removed. |
| Tokenizer.ParseColumns | Csv.php:152-233 | `parseColumns` gives the fields of the reference tokenization, with quotes removed when asked. |
| Tokenizer.Scan | Csv.php:160-218 | The state-machine loop gives exactly the fields of the recursive reference definition. |
| Tokenizer.StepStart | Csv.php:164-177 | State 0 skips blanks. On a delimiter or newline it records an empty field. Otherwise it opens a quoted or a bare field. |
| Tokenizer.StepQuoted | Csv.php:179-181 | State 1 waits for a quote. |
| Tokenizer.StepQuoteClosed | Csv.php:183-193 | State 2 on a doubled quote goes back into the quotes. Otherwise it records the trimmed quoted text and re-reads the character in state 4. |
| Tokenizer.StepBare | Csv.php:195-202 | State 3 records the trimmed field at a delimiter or newline. It moves to state 5 after a delimiter and to state 0 after a newline. |
| Tokenizer.StepTrailing | Csv.php:204-206 | State 4 ignores text after a closing quote until a delimiter or newline. |
| Tokenizer.StepDelimited | Csv.php:208-216 | State 5 records an empty field at a newline and re-reads the character in state 0. |
| Tokenizer.ScanEnd | Csv.php:160-218 | When the loop ends, the fields found are the whole tokenization. |
| Tokenizer.AfterFieldIgnored | Csv.php:204-206 | Text between a closed quote and the next delimiter or newline does not affect the remaining fields. |
| Tokenizer.QuoteEndDoubled | Csv.php:183-188 | A quoted run whose text has its quotes doubled ends after the closing quote. |
| Tokenizer.QuotedField | Csv.php:179-193 | A field written as `"` + doubled text + `"` is recorded whole, quotes included. |
| Tokenizer.QuotedFieldStripped | Csv.php:220-230 | Removing the quotes of such a field and undoubling gives the text back. |
| Tokenizer.UnterminatedQuote | Csv.php:179-181 | A quote that is never closed swallows the rest of the line, and no further field is recorded. |
| Tokenizer.ExplodeFieldHead | Csv.php:195-216 | For delimiter-separated text, the first field is the trimmed text before the delimiter. An empty remainder adds the extra empty field of state 5. |
| Tokenizer.PlainFieldsAt | Csv.php:160-218 | Without quotes, with a delimiter that is not blank and no control character other than the trim characters, the scan from any position equals trimmed `explode`, with the extra trailing empty field. A tab delimiter is covered by `Tokenizer.TabFieldsAt`. |
| Tokenizer.PlainColumns | Csv.php:152-233 | A line without quotes tokenizes as trimmed `explode` of the prepared line, with the extra trailing empty field. |
| Tokenizer.TabFieldsAt | Csv.php:160-218 | With a tab delimiter and no quotes, the scan from any position equals the non-empty trimmed pieces of the text split at tabs. |
| Tokenizer.TabColumns | Csv.php:152-233 | A tab-delimited line without quotes tokenizes as the non-empty trimmed pieces of the prepared line split at tabs. |
| Tokenizer.TabEmptyDropped | Csv.php:164-166 | With a tab delimiter, two tabs in a row give no empty field between them. |
| Tokenizer.TabBlankHead | Csv.php:164-166 | A leading blank does not change the non-empty trimmed tab pieces. |
| Tokenizer.TabFieldHead | Csv.php:195-201 | A non-blank piece before a tab is the first of the non-empty trimmed tab pieces. |
| Tokenizer.DropEmpty | Csv.php:164-166 | Dropping empty fields keeps no empty field and never lengthens the list. |
| Tokenizer.TrailingDelimiter | Csv.php:208-216 | `a<d>b<d>` gives four fields: `a`, `b` and two empty ones. |
| Columns.TypeOf | Csv.php:260-300 | The suffix `date` gives a date column, formatted as given or `yyyy-mm-dd`. Each other known suffix gives its own type. Anything else is a string column. |
| Columns.ResolveColumn | Csv.php:249-301 | Without detection the field is the name of a string column. With detection the name is the part before the first colon. |
| Columns.ResolveName | Csv.php:255-258 | The resolved name has no colon. It is the whole field exactly when the field has no colon, and otherwise the field's prefix before its first colon. |
| Columns.ResolveRoundTrip | Csv.php:249-301 | Writing a column as `name:type[:format]` and resolving it gives the column back. |
| Columns.TypeOfName | Csv.php:260-298 | Each type's suffix name resolves back to that type. |
| Columns.SuffixCaseInsensitive | Csv.php:260 | The type suffix is compared without regard to case. |
| Columns.SuffixDefaults | Csv.php:255-300 | No suffix or an unknown one gives a string column. A bare `date` gets the `yyyy-mm-dd` format. |
| Coercion.ParseDate | Csv.php:311-359 | The date loop equals the recursive reference scan. |
| Coercion.DateDigits | Csv.php:321-350 | The year, month and day collected are all digits. |
| Coercion.DateLiteralFormat | Csv.php:352-354 | A format without date letters accepts exactly the values that are prefixes of it. |
| Coercion.DateRun | Csv.php:321-350 | A run of one format letter takes the digits under it. A non-digit skips the letter and keeps the value position; a full run hands the rest of the value to the rest of the format. |
| Coercion.DateLiteral | Csv.php:352-354 | A literal format character matching the value is consumed silently. |
| Coercion.DefaultDateRoundTrip | Csv.php:311-359 | `y-m-d` with at most 4, 2 and 2 digits parses under the default format to those parts. |
| Coercion.CompactDateRoundTrip | Csv.php:311-359 | Under the format `ddmmyyyy`, two day, two month and four year digits written together parse to those parts. |
| Coercion.DateExample | Csv.php:311-359 | `2023-1-5` parses to year 2023, month 1, day 5. |
| Coercion.DateMismatch | Csv.php:388-411 | A value that does not fit its date format becomes `NULL`. |
| Coercion.Extract | Csv.php:364-379 | The extract loop equals the reference function. |
| Coercion.Extracted | Csv.php:364-379 | The extracted text is never longer than the value. |
| Coercion.ExtractedChars | Csv.php:369-376 | Only allowed characters of the value are kept. When a stop set is given, nothing from it is kept. |
| Coercion.ExtractIdempotent | Csv.php:364-379 | Extracting twice is the same as extracting once. |
| Coercion.ExtractKept | Csv.php:364-379 | A value made only of allowed characters, with no stop character, is kept whole. |
| Coercion.ExtractAppend | Csv.php:364-379 | Without a stop set, extraction works piecewise over a concatenation. |
| Coercion.Quote | Csv.php:408-411 | Without escaping the value is returned as is. With escaping there is always a literal. |
| Coercion.QuoteRoundTrip | Csv.php:409 | The escaped literal is single-quoted, and undoubling its inside gives the value. |
| Coercion.ParseValue | Csv.php:384-412 | With escaping, every value gives a literal (`NULL` included). |
| Coercion.PlainValue | Csv.php:384-412 | String and text columns pass the value through when not escaping. |
| Coercion.PrimaryNull | Csv.php:396-411 | A primary-key column is always `NULL`. |
| Coercion.CleanValue | Csv.php:403-405 | `clean` keeps exactly the characters other than `,`, `.`, `(` and `)`. |
| Coercion.NumberValues | Csv.php:393-401 | `int` keeps only sign and digit characters. `numeric` also keeps the decimal point. Neither is quoted. |
| Coercion.IntExample | Csv.php:393-394 | `12.5abc` as `int` gives `12`: extraction stops at the point. |
| Coercion.NumericExample | Csv.php:400-401 | `(1.5)` as `numeric` gives `1.5`. |
| Rows.Delimiter | Csv.php:432 | The delimiter is a tab or a comma. |
| Rows.DelimiterOfExtension | Csv.php:432 | It is a tab exactly when the last three characters spell `tsv` in any case. |
| Rows.DelimiterExamples | Csv.php:432 | `tsv`, `TSV` and `Tsv` give a tab. `csv`, `txt` and names shorter than three characters give a comma. |
| Rows.AcceptedExactly | Csv.php:444-448 | A line is used exactly when it has a character that is neither the delimiter nor a trim character, and does not trim to `0`. |
| Rows.BlankLineSkipped | Csv.php:444-448 | Lines of delimiters and blanks only are skipped. |
| Rows.CountEmpty | Csv.php:495-500 | The counting loop counts the empty fields. |
| Rows.AllEmpty | Csv.php:502-503 | The row is skipped exactly when all of its fields are empty. |
| Rows.PrependEach | Csv.php:453 | `array_unshift` of each extra item puts the items in reverse order before the fields. |
| Select.IndicesExact | Csv.php:507-513 | A skip-some loop visits exactly the kept indices, each once, in increasing order. |
| Select.GatherAligned | Csv.php:507-523 | What such a loop collects lines up with the kept indices. |
| Select.IndicesAll | Csv.php:499-503 | All indices are kept exactly when each one is. |
| Loader.RowCap | Csv.php:419-442 | The number of lines looked at is `max + 2`, and at most 1,000,000. `all` gives the 1,000,000 stop. |
| Loader.CreateColumns | Csv.php:465-477 | The `CREATE` lists one definition per header column with a truthy name, in order. |
| Loader.CreateJoined | Csv.php:458-479 | The `CREATE` statement is the prefix, the definitions joined by `,\n`, and `)`. With no definition, two characters of the prefix are cut instead. |
| Loader.BuildCreate | Csv.php:458-479 | The header loop resolves each field with `-` names blanked, and builds that statement. |
| Loader.InsertColumns | Csv.php:507-523 | The `INSERT` names and values come from the fields that have a named column, in order. Each value is that field coerced by its column's type. |
| Loader.InsertJoined | Csv.php:505-525 | The `INSERT` is the table, the names joined by commas, and `VALUES` with the values joined by commas. |
| Loader.AppendNames | Csv.php:507-513 | The names loop appends each kept column's quoted name and a comma. |
| Loader.AppendValues | Csv.php:517-523 | The values loop appends each kept field's literal and a comma. |
| Loader.BuildInsert | Csv.php:505-525 | The row loop builds the reference `INSERT` statement. |
| Loader.Extras | Csv.php:422 | The extra fields give their keys (for the header) and values (for each row). |
| Loader.LoadLine | Csv.php:444-533 | One iteration: the line is skipped, used as the header, skipped as empty, turned into an `INSERT`, or rejected. |
| Loader.LoadCsv | Csv.php:417-543 | The `loadCsv` loop equals the reference load over the file's lines. |
| Loader.CreatePrefixed | Csv.php:458-461 | Every header statement starts with `CREATE `. |
| Loader.InsertPrefixed | Csv.php:505 | Every row statement starts with `INSERT INTO `. |
| Loader.LoadFromFacts | Csv.php:435-540 | Statements are only appended. With lines there is no "no data" error, and with a header there is no missing-header error. A rejected insert reports a row number past the current line and within the cap. |
| Loader.LoadNoData | Csv.php:536-540 | The load fails with "no data" exactly when the file is empty. |
| Loader.LoadShaped | Csv.php:450-533 | Whatever happens, the statements made are empty or one `CREATE` followed by `INSERT`s. |
| Loader.LoadNoHeader | Csv.php:450-496 | The load fails because the header is missing exactly when line 0 is skipped and a later line within the cap is used. |
| Loader.Headerless | Csv.php:450-496 | Without a header, the first used line fails the load. |
| Loader.LoadCapped | Csv.php:438-442 | Lines past the cap do not change the result. |
| Loader.LoadIgnoresRest | Csv.php:438-442 | Lines past the cap are never looked at. |
| Reader.ReaderColumn | Csv.php:589-591 | A header field becomes a string column, with its name blanked when it starts with `-`. |
| Reader.HeaderLine | Csv.php:584-593 | The header loop gives one column per field. |
| Reader.BuildRecord | Csv.php:609-619 | The record loop builds the reference record. |
| Reader.EntriesKeys | Csv.php:611-616 | The record's keys are the names of the kept columns. |
| Reader.EntriesValue | Csv.php:615 | Each key maps to the field of the last column with that name. |
| Reader.RecordFields | Csv.php:609-618 | A record holds `_row_number` as line index + 1, one key per named column, and the last field under each name. |
| Reader.ReadRow | Csv.php:576-619 | One iteration: the line is skipped, used as the header, skipped as empty, or gives a record. |
| Reader.ReadCsv | Csv.php:548-624 | The `readCsv` loop equals the reference read over the file's lines. |
| Reader.ReadFromFacts | Csv.php:568-620 | With a header the read succeeds. Records are only appended, numbered in increasing order and within the line bound. |
| Reader.ReadHeaderless | Csv.php:582-600 | Without a header, the first used line fails the read. |
| Reader.ReadOutcome | Csv.php:548-624 | The read fails for lack of a header exactly when none is given, line 0 is skipped and a later line is used. Records are increasingly numbered, and an empty file gives an empty list. |
| Output.EscapeCell | Csv.php:60-71 | Without escaping the value is unchanged. Otherwise it is a double-quoted literal. |
| Output.EscapeRoundTrip | Csv.php:60-71 | The escaped cell is `=` when the header starts with `=`, then `"`, the value with doubled quotes, and `"`. Undoubling gives the value. |
| Output.RowCellsExact | Csv.php:84-96 | The row's cells are the escaped items, in order, minus those whose header or header item starts with `_`. |
| Output.HeaderRowCells | Csv.php:87-95 | In an escaped header row every cell starts with a quote: the row is written with no header list, so no cell gets a `=` prefix. |
| Output.BuildCells | Csv.php:84-96 | The item loop builds the reference cells. |
| Output.RowsTextSnoc | Csv.php:739-741 | The text of the rows grows by one row line per row. |
| Output.CsvBuffer.constructor | Csv.php:23-43 | The initial state: no data, no header, no rows, a comma separator, escaping on. |
| Output.CsvBuffer.CurrentHeader | Csv.php:717-722 | The header handed to `row` exists exactly when a header list is set. |
| Output.CsvBuffer.Clear | Csv.php:48-55 | `clear`: empty data, the auto-header flag, zero rows, comma, escaping on. |
| Output.CsvBuffer.Row | Csv.php:76-100 | `row` appends the row's cells joined by the separator, then `\r\n`, and counts the row. |
| Output.CsvBuffer.SetHeader | Csv.php:705-709 | `csv:header` clears, stores the names and writes them as an escaped header row. |
| Output.CsvBuffer.AddRow | Csv.php:715-723 | `csv:row` in auto-header mode first writes the row's keys as the header. It then writes the values under the current header. |
| Output.CsvBuffer.AddRows | Csv.php:729-742 | `csv:rows` does nothing on an empty list. Otherwise it writes the auto header from the first row, then one line per row. |
| Output.CsvBuffer.WriteRows | Csv.php:739-741 | The loop behind `csv:rows` appends one line per row and counts each. |
| Output.CsvBuffer.SetSeparator | Csv.php:681-683 | Only the separator changes. |
| Output.CsvBuffer.SetEscape | Csv.php:689-691 | Only the escape flag changes. |
| Output.CsvBuffer.Data | Csv.php:748-753 | `csv:data` returns the buffer and clears it when asked. |
| Output.CsvBuffer.Flush | Csv.php:759-774 | `csv:dump` and `csv:write` emit the byte-order mark (unless turned off) and the buffer, and drop the buffer. |

## Left out

- File access: `file_exists`, `fopen`, `fgetc` and `fclose` are left out, along with their "not found" and "unable to open" errors. A file is its content string, and `parseLine` reads that string by position.
- The database: `execQuery` is left out. Which statements the database rejects is a parameter of the load (`Target.rejects`), and a rejected statement ends the load with an error (`CreateRejected` or `InsertRejected`). `InsertRejected.row` is the number the source's wrapping error would report. That wrapper may never run: the file is in namespace `Rose\Ext\Wind` and imports no `Exception` (Csv.php:3-11), so the `catch (Exception $e)` clauses (Csv.php:484, Csv.php:530) name `Rose\Ext\Wind\Exception` rather than the global class, and the database's own exception may then leave uncaught, with no row number.
- Logging: the trace message at the 1,000,000-row stop is left out. The stop itself is modelled.
- HTTP output: the headers, `echo` and `exit` of `csv:dump` are left out. So is the file write of `csv:write`. `Output.CsvBuffer.Flush` returns the text that would be sent.
- `csv:load`, `csv:load-temp` and `csv:read`: these are one-line calls, modelled by `Loader.LoadCsv` (the `temp` flag, `max` = `all`, the extra dictionary) and `Reader.ReadCsv`.
- `csv:row-count`: it is a plain read of `CsvBuffer.rowCount`, so it has no member of its own.
- `Arry` and `Map` internals: rows handed to the output are `RowData` (keys and values as string sequences). The extra dictionary of `loadCsv` is a sequence of key/value pairs in insertion order. Records are string-keyed maps plus `_row_number`.
- Values other than strings: every cell and item is a string. PHP's casts of numbers and booleans are left out.
- PHP warnings, such as reading offset 0 of an empty name, are left out. Only their result (an empty string) is modelled.
- The `TypeError` from `count(null)`: a row used before any header is `Loader.LoadError.NoHeader` on the load path and `Reader.ReadResult.MissingHeader` on the read path, instead of an uncaught exception.
- Bytes and characters: strings are sequences of characters, and one character stands for one byte. The byte-order mark is the three characters `ï»¿`.
- Floating point: `1e6` for `max = 'all'` is the integer 1,000,000.
- Output.CsvBuffer.WriteRows: requires a non-empty list, because `csv:rows` returns before its loop on an empty one. `Output.CsvBuffer.AddRows` handles the empty list.
- Loader.LoadCapped: states the cap property only when the two parts of the input split into separate lines (`Lines(input + more) == Lines(input) + Lines(more)`). `Loader.LoadIgnoresRest` states it for any line sequence.
- Tokenizer.PlainColumns: describes only lines without double quotes, with a delimiter that is not blank and no control character other than the trim characters. A tab delimiter is blank, so state 0 skips it and empty fields vanish; that case is covered by `Tokenizer.TabColumns` under the same restriction on control characters. Quoted fields are covered by `Tokenizer.QuotedField`, `Tokenizer.QuotedFieldStripped` and `Tokenizer.UnterminatedQuote`, and every line by `Tokenizer.ParseColumns`.
- Record key order: records are Dafny maps, which have no order. In the source, keys follow the header, a repeated name keeps its first position and `_row_number` comes last (Csv.php:609-617).
- Coercion.NumericExample: uses `(1.5)`. Grouping commas are covered for all values by `Coercion.NumberValues` and `Coercion.ExtractedChars`.
