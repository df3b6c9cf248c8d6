# Verified codecs of the SQLite shell and of silicium

The repository prints structured data as text in many places and reads it back in some. This project models
those printers and readers in Dafny and proves how they fit together: what survives a round trip, what does not,
and that the loops over mutable buffers compute what a short specification says. A byte is a `char`; a C string
is a `string` without NUL, or a region of a `char` array up to its NUL.

Every modelled operation that the repository writes as a loop over mutable state is a method or a class here,
proved equal to a function of the old state. The properties are lemmas about those functions.

- `CText`: options, NUL-terminated text, searching, doubling, character classes, the output sink.
- `CsvFormat`, `CsvWriter`, `CsvImport`, `CsvRoundTrip`, `CsvSeparators`: CSV output and `.import` of the shell.
- `CsvRagged`, `CsvUnusual`: rows with too few or too many columns, and text the printer never writes.
- `CommandText`, `CommandLine`, `Tokenizer`, `CommandWords`: C-string output, `resolve_backslashes` and the in-place
  tokenizer of dot-commands, on one buffer.
- `SqlQuoting`, `HtmlText`, `ExplainIndent`, `TableLayout`, `Recognisers`: the other text loops of the shell.
- `LineSource`, `HttpHeader`, `HttpRequest`, `HttpResponse`: the HTTP/1.x header codec (sections 3.1 and 3.2 of
  RFC 7230); `HttpExactness` shows that its round trips hold for no more messages than stated, and
  `HttpNormalisation` which accepted texts are read, printed and read again without change; `HttpOrder`: the order of
  header lines.
- `RequestParserSink`, `PushRoundTrip`, `ParserAgreement`: the push parser for requests, and how it compares with
  `parse_request`.
- `HtmlGenerator`, `HtmlScanner`, `HtmlNames`: the HTML generator, an independent scanner that judges its output, and
  which names and attribute keys can be used.
- `IntegerSequence`: the compile-time index sequence.
- `PrintedForms`: the small tables behind all printers and readers, byte by byte.

`dafny verify dfyconfig.toml` checks the whole project.

## Where the code and its documentation differ

The model follows the code. `shell.c` is `dependencies/sqlite-amalgamation-3081002/shell.c`.

- The reader of CSV fields is described as compatible with RFC 4180 (`shell.c:2163`). It also accepts text that
  section 2 of RFC 4180 has no rule for (a quote inside an unquoted field, text behind a closing quote, an
  unclosed field), partly with a diagnostic, and reads back what the shell prints only with legal separators:
  `CsvSeparators.LegalIffEveryTableRoundTrips` gives the exact condition, and
  `CsvSeparators.KeepsRowsIffEveryRowSurvives` the one for the rows alone.
- The comment on escapes (`shell.c:1954`) lists `\s` for a space; the code knows no such escape and leaves the `s`.
- `cColSep` and `cRowSep` are ints made from plain `char`. Where `char` is signed, a separator from 128 up is
  negative and never equals what `fgetc` returns, and the byte 255 equals EOF: then the import never ends.
- The line counter of the reader does not count an opening quote when the row separator is a quote
  (`shell.c:2182-2193`).
- The rules above `explain_data_prepare` (`shell.c:1391-1403`) name `SeekGt` and `SeekLt`, ask for a P1 of one and an
  earlier destination, and list four loop opcodes. The code compares with `SeekGT` and `SeekLT`, accepts every P1
  but zero, also accepts a Goto to itself (which indents nothing), and knows three more opcodes.
- `line_source` drops the byte behind a CR that is not followed by LF and keeps the CR
  (`silicium/detail/line_source.hpp:47-63`); it takes a lone LF for a line end, as
  section 3.5 of RFC 7230 allows.
- `parse_request` keeps the last value of a repeated key, `request_parser_sink` the first.
- `request_parser_sink` looks for the CR of the empty line only at the start of a chunk or line, so a CR taken into
  a key makes its result depend on where chunks are cut: `RequestParserSink.ChunkingIsInvisibleIffClean`.
- `open_element` escapes a name and `close_element` does not (`silicium/html/generator.hpp:73`,
  `silicium/html/generator.hpp:119`); attribute keys are never escaped (`silicium/html/generator.hpp:93`,
  `silicium/html/generator.hpp:103`), nor are names of unpaired elements (`silicium/html/generator.hpp:128`). Nothing in
  the interface says which names and keys can be used: `HtmlNames.SeenAsSaidIff` does.
- `request_parser_sink` does not clear a key it has begun when a CR at the start of a chunk ends the request
  (`silicium/http/request_parser_sink.hpp:78-93`): the first key of the next request continues it.

Two functions have a precondition because the code has no defined behaviour without it: `generate_response`
dereferences `arguments`, and `explain_data_prepare` indexes its arrays with the jump target of loop ends.
`split_value_line` reads behind its line when no byte follows a colon; the parsers here then give `Undefined`.

## Model

| member | source | states |
|---|---|---|
| CsvSeparators.LegalIffEveryTableRoundTrips | dependencies/sqlite-amalgamation-3081002/shell.c:769-798 | Over all column separators of one byte from 1 to 255, all row separators that are such a byte or CR LF, and both kinds of `char`: every table of NUL-free fields comes back from output_csv and the import loop unchanged, without any diagnostic and with the right line count, if and only if the separators are legal (neither is a quote, they differ, the row separator is a byte needCsvQuote marks, CR LF does not go with a CR column separator, and where `char` is signed both are below 128). |
| CsvSeparators.KeepsRowsIffEveryRowSurvives | dependencies/sqlite-amalgamation-3081002/shell.c:3094-3135 | The rows alone, whatever is reported on the way, come back for every table if and only if the separators are legal or are CR and CR LF. |
| CsvSeparators.CrRowsSurvive | dependencies/sqlite-amalgamation-3081002/shell.c:3118-3126 | With CR and CR LF each row is inserted unchanged: its last column ends at the CR, and the LF is skipped as an extra column. |
| CsvSeparators.CrIsComplainedAbout | dependencies/sqlite-amalgamation-3081002/shell.c:3123-3125 | With CR and CR LF an extra column is reported even for a single empty field. |
| CsvRoundTrip.TableRoundTrip | dependencies/sqlite-amalgamation-3081002/shell.c:3094-3135 | With legal separators the import of a printed table inserts exactly its rows, in order, with every field unchanged, reports nothing, reaches the end of the text, and has counted every row separator in it, those inside fields included. |
| CsvRoundTrip.TableRoundTripFrom | dependencies/sqlite-amalgamation-3081002/shell.c:3094-3135 | The same from any reader position and behind any rows already inserted, whatever is still bound from the row before. |
| CsvRoundTrip.RowRoundTrip | dependencies/sqlite-amalgamation-3081002/shell.c:973-988 | From any column on, the printed rest of a row binds exactly its fields and leaves the reader behind the row separator; neither the missing-column nor the extra-column case is taken. |
| CsvRoundTrip.FieldRoundTrip | dependencies/sqlite-amalgamation-3081002/shell.c:2176-2236 | A printed field in front of a separator is read back as it was, quoted or not, whatever follows; the reader stops behind that separator without a diagnostic. |
| CsvRoundTrip.ImportPrintedRow | dependencies/sqlite-amalgamation-3081002/shell.c:3095-3134 | One turn of the import loop over a printed row inserts that row and leaves exactly what follows it. |
| CsvRagged.ImportRagged | dependencies/sqlite-amalgamation-3081002/shell.c:3094-3135 | The import of any printed rows, each of any length from one, into a table of any width: a short row is filled with NULL, whatever was bound before, a long one is cut, each is inserted, and the diagnostics name the line it starts on, the columns expected and those found. |
| CsvRagged.ImportRaggedRow | dependencies/sqlite-amalgamation-3081002/shell.c:3095-3134 | The same for one row in front of any text. |
| CsvRagged.BindShortRow | dependencies/sqlite-amalgamation-3081002/shell.c:3110-3116 | In a row with too few columns, the columns read are bound, all others are NULL, and one diagnostic is printed. |
| CsvRagged.BindLongRow | dependencies/sqlite-amalgamation-3081002/shell.c:3096-3117 | Of a row with too many columns the first ones are bound, and the reader is left in front of the next. |
| CsvRagged.SkipPrinted | dependencies/sqlite-amalgamation-3081002/shell.c:3118-3122 | The rest of such a row is read to its end and counted. |
| CsvUnusual.NullAtEof | dependencies/sqlite-amalgamation-3081002/shell.c:3097-3109 | A column separator in front of the end of the file makes the last column NULL, without a diagnostic. |
| CsvUnusual.BoundUpToNul | dependencies/sqlite-amalgamation-3081002/shell.c:3109-3109 | Of a field with a NUL only the text in front of it is bound. |
| CsvRoundTrip.ReadDoubled | dependencies/sqlite-amalgamation-3081002/shell.c:2191-2225 | Behind an opening quote the two-character lookback turns doubled quotes into single ones and is left in a state that no quote taints, for every text and every remembered pair of characters the loop can reach. |
| CsvRoundTrip.ReadClosing | dependencies/sqlite-amalgamation-3081002/shell.c:2200-2208 | A closing quote in front of a column or row separator, CR LF included, ends the field with the quote (and CR) trimmed. |
| CsvUnusual.ClosedAtEof | dependencies/sqlite-amalgamation-3081002/shell.c:2200-2208 | A closing quote at the end of the file ends the field without a diagnostic. |
| CsvUnusual.NeverClosed | dependencies/sqlite-amalgamation-3081002/shell.c:2213-2218 | A field that is never closed is everything up to the end of the file, and is reported with the line it starts on. |
| CsvUnusual.SingleQuote | dependencies/sqlite-amalgamation-3081002/shell.c:2209-2212 | A single quote in front of any byte but a separator or CR is kept, the field goes on behind it, and the line of the quote is reported. |
| CsvUnusual.QuoteAndCr | dependencies/sqlite-amalgamation-3081002/shell.c:2200-2212 | A quote and a CR in front of anything but the row separator are kept without a diagnostic, even in front of a column separator. |
| CsvUnusual.PlainField | dependencies/sqlite-amalgamation-3081002/shell.c:2223-2233 | A field without opening quote is taken as it stands, quotes in it included; a CR is dropped in front of a row separator only. |
| CsvUnusual.PlainFieldAtEof | dependencies/sqlite-amalgamation-3081002/shell.c:2223-2233 | At the end of the file nothing is dropped from it. |
| CsvUnusual.ConvertedIs | dependencies/sqlite-amalgamation-3081002/shell.c:3021-3022 | The int that a separator byte becomes, for both kinds of `char`. |
| CsvRoundTrip.ReadFieldCountsLines | dependencies/sqlite-amalgamation-3081002/shell.c:2176-2236 | On arbitrary bytes and for any separators a field read consumes a prefix of the input, and the line number grows by the number of row separators in that prefix. (Exact in the odd cases too: an opening quote that is itself the row separator is not counted, and the end of the file is, once, when the row separator equals EOF.) |
| CsvImport.ReadFieldProgress | dependencies/sqlite-amalgamation-3081002/shell.c:2176-2236 | On arbitrary bytes a field read never gives input back, and consumes something unless it ends with end of file. |
| CsvImport.ImportRowProgress | dependencies/sqlite-amalgamation-3081002/shell.c:3094-3135 | A turn of the import loop that does not end with end of file consumes input, so with a column separator other than EOF the loop ends on every file. |
| CsvFormat.BeforeLastQuoteIs | dependencies/sqlite-amalgamation-3081002/shell.c:2205-2205 | The backward trim ends at the last stored quote, and nowhere else. |
| CsvFormat.QuotedTurn | dependencies/sqlite-amalgamation-3081002/shell.c:2191-2225 | Every turn of the quoted loop keeps the tie between pc, ppc and the last stored bytes: a remembered quote is the last byte stored, a quote remembered behind a CR the last but one. So the trim stops at a quote of this field. |
| CsvImport.ImportCtx.AppendChar | dependencies/sqlite-amalgamation-3081002/shell.c:2151-2161 | The buffer grows when it must, keeps its content, and always has room for a final NUL behind it. |
| CsvImport.ImportCtx.OneTurn | dependencies/sqlite-amalgamation-3081002/shell.c:2191-2225 | The loop body on the growing buffer refines the turn of the specification, on every input. |
| CsvImport.ImportCtx.ReadQuotedField | dependencies/sqlite-amalgamation-3081002/shell.c:2184-2225 | The quoted branch stores exactly the text of the specification and leaves the fields n, nLine and cTerm, the input and the diagnostics as specified. |
| CsvImport.ImportCtx.ReadPlainField | dependencies/sqlite-amalgamation-3081002/shell.c:2223-2233 | The same for the unquoted branch, with the CR in front of a row separator dropped. |
| CsvImport.ImportCtx.ReadOneField | dependencies/sqlite-amalgamation-3081002/shell.c:2176-2236 | csv_read_one_field on arbitrary bytes: stored text, remaining input, line, terminator and diagnostics are those of the specification, the text is NUL-terminated in bounds, and the result is null exactly at end of file, without a buffer, or after an interrupt, which drops one character. |
| CsvImport.ImportCtx.TrimToQuote | dependencies/sqlite-amalgamation-3081002/shell.c:2205-2205 | The do-while that counts n down stays inside the stored text and leaves what is in front of the last quote. |
| CsvImport.ImportCtx.BindLoop | dependencies/sqlite-amalgamation-3081002/shell.c:3096-3117 | The column loop binds, fills with NULL and complains as specified, and does not touch the separators. |
| CsvImport.ImportCtx.SkipLoop | dependencies/sqlite-amalgamation-3081002/shell.c:3118-3126 | The loop over extra columns reads as many as there are and counts them. |
| CsvImport.ImportCtx.Import | dependencies/sqlite-amalgamation-3081002/shell.c:3094-3135 | The import loop over any input inserts exactly the rows of the specification and ends with its diagnostics. |
| CsvImport.ImportFile | dependencies/sqlite-amalgamation-3081002/shell.c:2968-3031 | .import refuses every separator that is not one byte, except that CR LF stands for LF in CSV mode and is replaced by it in the settings; otherwise table and diagnostics are those of the specification on the whole file. |
| CsvWriter.QuoteScan | dependencies/sqlite-amalgamation-3081002/shell.c:777-784 | The scan with its early break decides exactly whether a field is empty, or holds a byte that needs quotes or meets the separator, with the memcmp of a longer separator against the start of the field. |
| CsvWriter.OutputCsv | dependencies/sqlite-amalgamation-3081002/shell.c:769-798 | output_csv appends the field as specified, or nullValue, and the separator if wanted. |
| CsvUnusual.PrintedPlainIff | dependencies/sqlite-amalgamation-3081002/shell.c:777-793 | A field is printed as it is exactly if it is not empty and has only bytes from ! to ~ other than the two quotes and the separator; any other is put between quotes with its quotes doubled. |
| CsvUnusual.LongSeparator | dependencies/sqlite-amalgamation-3081002/shell.c:779-781 | A separator of several bytes makes a field quoted if the field starts with it, and not if it stands elsewhere in the field. |
| CsvUnusual.RecordWithNull | dependencies/sqlite-amalgamation-3081002/shell.c:770-772 | NULL prints as nullValue, never quoted, and takes a column of its own. |
| CsvWriter.OutputRow | dependencies/sqlite-amalgamation-3081002/shell.c:973-988 | The CSV branch of the row callback: in front of the first row the header line if wanted, then all fields, NULL ones as nullValue, with separators between them and the row separator; nothing for no columns. |
| CsvFormat.CsvRecordOfTexts | dependencies/sqlite-amalgamation-3081002/shell.c:981-986 | Without NULL fields that is the row whose round trip is proved. |
| CsvSeparators.FailingTable | dependencies/sqlite-amalgamation-3081002/shell.c:769-798 | For each illegal pair of separators a concrete table that does not come back unchanged and without a diagnostic. |
| CsvSeparators.FailingRows | dependencies/sqlite-amalgamation-3081002/shell.c:769-798 | For each pair that does not keep rows a concrete table whose rows do not come back. |
| CsvSeparators.FailsWhenSeparatorsAreEqual | dependencies/sqlite-amalgamation-3081002/shell.c:3118-3122 | Equal separators, LF with CR LF included, since .import replaces CR LF by LF: two rows come back as one. |
| CsvSeparators.OneRowOnly | dependencies/sqlite-amalgamation-3081002/shell.c:3118-3122 | With equal separators at most one row is inserted, whatever is in the file. |
| CsvSeparators.FailsWhenRowSeparatorIsQuote | dependencies/sqlite-amalgamation-3081002/shell.c:2193-2198 | A quote as row separator: a quoted field is never closed. |
| CsvSeparators.FailsWhenRowSeparatorIsPlain | dependencies/sqlite-amalgamation-3081002/shell.c:744-761 | A row separator outside needCsvQuote is not quoted and splits the field that holds it. |
| CsvSeparators.FailsWhenColumnSeparatorIsQuote | dependencies/sqlite-amalgamation-3081002/shell.c:2194-2199 | A quote as column separator looks like a doubled quote. |
| CsvSeparators.FailsWhenColumnSeparatorIsNegative | dependencies/sqlite-amalgamation-3081002/shell.c:3021-3022 | Where `char` is signed, a column separator from 128 up is negative as an int: it is printed but never recognised, so that the second column is NULL; or it equals EOF, and no import ends. |
| CsvSeparators.FailsWhenRowSeparatorIsNegative | dependencies/sqlite-amalgamation-3081002/shell.c:3021-3022 | The same for the row separator: it stays in the field. |
| CsvImport.ImportNeverEnds | dependencies/sqlite-amalgamation-3081002/shell.c:3094-3135 | With a column separator that equals EOF, on every file and from every reader position, the row loop runs into a loop over extra columns that never ends. |
| CsvImport.NeverPastEof | dependencies/sqlite-amalgamation-3081002/shell.c:3118-3122 | In that loop, however many fields are read at the end of the input, the reader stays as it is and asks for one more. |
| CsvSeparators.ImportAllKeeps | dependencies/sqlite-amalgamation-3081002/shell.c:3094-3135 | Over the whole import no inserted row and no diagnostic is ever taken back. |
| Tokenizer.CommandLineRoundTrip | dependencies/sqlite-amalgamation-3081002/shell.c:2626-2646 | A row of arbitrary NUL-free byte strings printed with output_c_string behind a dot, any white space between and behind, is a C string whose tokens are exactly those strings, as many as fit azArg. |
| CommandWords.TypedLine | dependencies/sqlite-amalgamation-3081002/shell.c:2626-2646 | Any line behind its dot, made of bare words, arguments as output_c_string prints them, and arguments between apostrophes, with white space between them: its tokens are exactly the meanings of these words, as many as fit azArg. |
| CommandWords.TokensOfLine | dependencies/sqlite-amalgamation-3081002/shell.c:2626-2646 | The same for any room: a bare word ends at white space and is resolved, one between apostrophes is taken as it stands. |
| CommandWords.PlainWords | dependencies/sqlite-amalgamation-3081002/shell.c:2640-2645 | Bare words without backslashes stand for themselves. |
| CommandWords.OpenArgument | dependencies/sqlite-amalgamation-3081002/shell.c:2632-2638 | An argument whose quote is never closed reaches to the end of the line. |
| CommandWords.WordLengthIs | dependencies/sqlite-amalgamation-3081002/shell.c:2642-2642 | A bare word is what stands in front of the first white space, or of the end. |
| Tokenizer.Tokenize | dependencies/sqlite-amalgamation-3081002/shell.c:2626-2646 | The in-place tokenizer with resolve_backslashes: afterwards azArg points to NUL-terminated strings in the one buffer that are the tokens of the original line, at most 50, so that resolving one argument never disturbs another. |
| Tokenizer.TakeQuoted | dependencies/sqlite-amalgamation-3081002/shell.c:2629-2639 | One quoted argument is cut out and, behind double quotes, resolved in place; nothing outside its bytes changes. |
| Tokenizer.TakeWord | dependencies/sqlite-amalgamation-3081002/shell.c:2640-2645 | The same for an argument without quotes, which is always resolved. |
| Tokenizer.TakeArg | dependencies/sqlite-amalgamation-3081002/shell.c:2629-2645 | Either kind of argument, and the index where the next one is looked for. |
| Tokenizer.FindQuote | dependencies/sqlite-amalgamation-3081002/shell.c:2632-2635 | The scan for the closing delimiter skips a byte behind a backslash inside double quotes only, and stops at the terminator. |
| Tokenizer.FindSpace | dependencies/sqlite-amalgamation-3081002/shell.c:2642-2642 | The scan for the end of a word stops at the first space or the terminator. |
| Tokenizer.ReplacedIsArg | dependencies/sqlite-amalgamation-3081002/shell.c:1999-2001 | After in-place decoding, what stands at the start of the argument up to its first NUL is the decoded text up to its first NUL. |
| CommandText.TokensOfTclRow | dependencies/sqlite-amalgamation-3081002/shell.c:965-971 | The tokenizer on a printed row gives the row, in as many slots as there are. |
| CommandText.UnescapeEscape | dependencies/sqlite-amalgamation-3081002/shell.c:677-703 | Decoding an escaped string gives the string back, for every string of bytes without NUL. |
| CommandText.EscapedCharResolves | dependencies/sqlite-amalgamation-3081002/shell.c:681-699 | The escape of one byte decodes to that byte whatever follows it, three octal digits included. |
| PrintedForms.PrintedByte | dependencies/sqlite-amalgamation-3081002/shell.c:680-701 | The printed form of each of the 256 bytes. |
| PrintedForms.PrintedTclRow | dependencies/sqlite-amalgamation-3081002/shell.c:966-970 | Where quotes and separators stand in a row. |
| PrintedForms.LetterEscapes | dependencies/sqlite-amalgamation-3081002/shell.c:1967-1986 | What each letter behind a backslash stands for. |
| PrintedForms.ThreeOctals | dependencies/sqlite-amalgamation-3081002/shell.c:1987-1996 | Three octal digits are taken modulo 256, whatever follows. |
| PrintedForms.FewerOctals | dependencies/sqlite-amalgamation-3081002/shell.c:1987-1996 | One or two octal digits end in front of anything else. |
| CommandText.QuotedLengthOfEscape | dependencies/sqlite-amalgamation-3081002/shell.c:2632-2635 | The tokenizer finds the closing quote of an escaped string, not a quote or backslash inside it. |
| CommandText.FirstArgOfCString | dependencies/sqlite-amalgamation-3081002/shell.c:2629-2639 | A printed string in front of anything is taken off as one argument, quotes included. |
| CommandLine.OutputCString | dependencies/sqlite-amalgamation-3081002/shell.c:677-703 | output_c_string prints the escaped form between quotes. |
| CommandLine.OutputTclRow | dependencies/sqlite-amalgamation-3081002/shell.c:956-971 | The TCL branch of the row callback: in front of the first row the header line if wanted, then the row, if there is one, with every field escaped (nullValue for NULL), separators between and the row separator behind. |
| CommandLine.DecodeEscape | dependencies/sqlite-amalgamation-3081002/shell.c:1965-1998 | One escape: the byte (octal modulo 256, at most three digits, an unknown letter for itself) and how far it reaches, never past the terminator. |
| CommandLine.ResolveFrom | dependencies/sqlite-amalgamation-3081002/shell.c:1964-2001 | Read and write index on the same buffer give the left-to-right decoding of the text as it was; nothing behind the old terminator or in front of the start changes. |
| CommandLine.ResolveBackslashes | dependencies/sqlite-amalgamation-3081002/shell.c:1960-2002 | resolve_backslashes refines the pure decoder on every C string in any buffer. |
| LineSource.CopyNext | silicium/detail/line_source.hpp:31-67 | copy_next on every stream and any slots: which slots are filled, with what behind what they held, the iterator returned, and what is left of the stream. |
| LineSource.CopyLine | silicium/detail/line_source.hpp:40-64 | The inner loop takes one line off the stream, or with the stream used up leaves an unfinished line. |
| LineSource.GetLine | silicium/source/source.hpp:25-35 | get on a line source: one terminated line, and an unterminated tail is not returned. |
| LineSource.NextLineIsSegment | silicium/detail/line_source.hpp:40-64 | Without lone CRs a line is the text up to the first LF less the CR in front of it; without a LF there is none. |
| LineSource.LinesOfLf | silicium/detail/line_source.hpp:40-64 | A text without lone CRs and the same text with LF for CR LF have the same lines. |
| LineSource.CopyLinesIntoFresh | silicium/detail/line_source.hpp:35-67 | A batch of empty slots receives the first lines of the stream, as many as there are of either. |
| LineSource.CopyLinesInTwoSteps | silicium/detail/line_source.hpp:35-67 | One batch equals two batches one behind the other, on every stream: content, count and rest. |
| PrintedForms.FilledSlot | silicium/detail/line_source.hpp:37-66 | A line goes behind what its slot held, whole or unfinished, and only whole lines are counted. |
| PrintedForms.UnfinishedLine | silicium/detail/line_source.hpp:43-53 | Of an unfinished line a CR at its end is dropped. |
| LineSource.LineArrives | silicium/detail/line_source.hpp:47-58 | Exactly what a CR inside a line without LF costs: the byte behind it. |
| LineSource.LineRoundTrip | silicium/detail/line_source.hpp:40-64 | A text sent as a CR LF line is read back unchanged if and only if it has no LF, and a CR at most at its end. |
| LineSource.LinesHaveNoLf | silicium/detail/line_source.hpp:59-62 | No line ever holds a LF. |
| LineSource.SplitValueLine | silicium/detail/line_source.hpp:79-91 | The split at the first colon, with one space behind it dropped, wherever it is defined. |
| HttpHeader.HeadersRoundTrip | silicium/http/generate_header.hpp:29-38 | Parsing a printed map adds all its entries to what was seen, in any order of keys, and stops right behind the empty line. |
| HttpHeader.GenerateHeader | silicium/http/generate_header.hpp:18-25 | One header line. |
| HttpHeader.GenerateHeaderMap | silicium/http/generate_header.hpp:29-38 | The loop prints each entry once, in the order of std::map. |
| HttpOrder.HeaderInOrder | silicium/http/generate_header.hpp:29-38 | The printed lines are those of a list of exactly the entries, each once, in which of any two keys the first is the smaller one at the first place where they differ, or a proper prefix. |
| HttpOrder.LessAscends | silicium/http/generate_header.hpp:29-38 | The order used for printing is that order. |
| PrintedForms.PrintedTwoFields | silicium/http/generate_header.hpp:18-38 | The bytes of a map of two entries. |
| HttpHeader.ReadHeaders | silicium/http/parse_request.hpp:55-68 | The header loop on every stream: the map in which a repeated key keeps its last value, the end of the stream, or a line split_value_line is not defined on. |
| HttpHeader.ParsedArgumentsAreGood | silicium/http/parse_request.hpp:55-68 | From text without lone CRs only arguments are read that can be printed and read again. |
| HttpExactness.HeadersRoundTripIff | silicium/http/generate_header.hpp:29-38 | A printed map is read back, with the body unread, if and only if no key holds a colon, CR or LF and no value a LF or a CR before its end: no interplay of entries repairs a loss. |
| HttpExactness.HeadersGetLighter | silicium/http/parse_request.hpp:55-68 | Why: the weight of the map that is read never exceeds that of the map printed, and is less unless every entry is good. |
| HttpExactness.LineGetsLighter | silicium/detail/line_source.hpp:47-63 | One header line arrives lighter than it was sent (what a CR swallows, or what moves from the value into the key), or it is good and arrives unchanged. |
| HttpExactness.RequestRoundTripIff | silicium/http/generate_request.hpp:24-31 | For every request and body: parse_request on the printed request gives the same request and leaves exactly the body if and only if the request is good. |
| HttpRequest.RequestRoundTrip | silicium/http/parse_request.hpp:24-70 | parse_request undoes generate_request for every good request, whole header map included, and leaves exactly the body unread. |
| HttpRequest.RequestLineRoundTrip | silicium/http/generate_request.hpp:13-22 | A first line is read back as sent if and only if verb and path are free of space, CR and LF and the version of LF and of a CR before its end. |
| HttpRequest.RequestNormalisation | silicium/http/parse_request.hpp:24-70 | Whatever request is read from any text, if no lone CR was among the bytes read, is read again, the same, from its printed form, with any body behind; what stood unread does not matter. |
| HttpNormalisation.RequestNormalisesIff | silicium/http/parse_request.hpp:24-70 | Every accepted request is read again, the same, from its printed form if and only if in its first line, and in the last line of every key, a CR stands at most at the end. |
| HttpNormalisation.ArgumentsGoodIff | silicium/http/parse_request.hpp:66-67 | Of the header lines only the last one of each key decides whether the arguments can be printed and read again. |
| HttpNormalisation.ParsedIsLastWins | silicium/http/parse_request.hpp:55-68 | The arguments read from any text are those of its header lines, the last for each key. |
| HttpRequest.ParseRequestFrame | silicium/http/parse_request.hpp:24-70 | The parser looks at nothing behind the bytes it consumes: they are a prefix, and with anything else behind it the result is the same and that is left unread. |
| LineSource.NextLineFrame | silicium/detail/line_source.hpp:40-64 | The same for one line. |
| HttpHeader.ParseHeadersFrame | silicium/http/parse_request.hpp:55-68 | The same for the header lines. |
| HttpRequest.LoneCrBreaksNormalisation | silicium/detail/line_source.hpp:47-63 | A concrete accepted request with a lone CR whose printed form reads as another one. |
| HttpRequest.ParsedRequestIsGood | silicium/http/parse_request.hpp:24-70 | A request read from a text without lone CRs is good. |
| HttpRequest.MessageRoundTrip | silicium/http/parse_request.hpp:24-70 | Any header of three-part first line and map splits back into its parts and the body; shared by requests and responses. |
| HttpRequest.GenerateRequest | silicium/http/generate_request.hpp:24-31 | generate_request appends the printed request. |
| PrintedForms.PrintedRequest | silicium/http/generate_request.hpp:12-31 | The bytes of a request with two header lines. |
| HttpRequest.ReadRequest | silicium/http/parse_request.hpp:24-70 | parse_request on every stream: result and unread rest, the failures for a missing line, space or header end included. |
| PrintedForms.RefusedRequests | silicium/http/parse_request.hpp:28-50 | A first line that does not end, or has fewer than two spaces, is refused with the rest of the text unread; for responses too. |
| PrintedForms.RefusedHeaders | silicium/http/parse_request.hpp:57-66 | Header lines are refused where the text ends, and are undefined where no byte follows the first colon. |
| HttpExactness.ResponseRoundTripIff | silicium/http/generate_response.hpp:24-33 | For every response with arguments and an int status, and every body: parse_response on the printed response gives the same response and leaves exactly the body if and only if the response is good. |
| HttpExactness.UnchangedWordHasNoCr | silicium/http/parse_response.hpp:79-92 | A version that arrives unchanged held no CR: a CR cannot be made up for by the space and the status it swallows. |
| HttpResponse.ResponseRoundTrip | silicium/http/parse_response.hpp:66-121 | parse_response undoes generate_response for every good response, status text with spaces included, and leaves exactly the body unread. |
| HttpResponse.ResponseNormalisation | silicium/http/parse_response.hpp:66-121 | Whatever response is read from any text has arguments and, if no lone CR was among the bytes read, is read again, the same, from its printed form, whatever form its status had. |
| HttpNormalisation.ResponseNormalisesIff | silicium/http/parse_response.hpp:66-121 | Every accepted response is read again, the same, from its printed form if and only if in its first line, and in the last line of every key, a CR stands at most at the end. |
| HttpResponse.ParseResponseFrame | silicium/http/parse_response.hpp:66-121 | The parser looks at nothing behind the bytes it consumes. |
| HttpResponse.StatusRoundTrip | silicium/http/parse_response.hpp:94-101 | Every int, negative ones through unsigned and back, is read as it was printed, and its digits are one word. |
| HttpResponse.DecimalRoundTrip | silicium/http/generate_response.hpp:29-29 | Decimal digits stand for the number they were made from. |
| HttpResponse.GenerateResponse | silicium/http/generate_response.hpp:24-33 | generate_response appends the printed response. |
| PrintedForms.PrintedResponse | silicium/http/generate_response.hpp:11-33 | The bytes of a response. |
| PrintedForms.ReadNumber | silicium/http/parse_response.hpp:94-101 | Which decimal numbers are a status, and what a sign in front of them does. |
| PrintedForms.NoNumbers | silicium/http/parse_response.hpp:94-101 | No digits, or anything behind them, is no status. |
| HttpResponse.ReadResponse | silicium/http/parse_response.hpp:66-121 | parse_response on every stream: result and unread rest, the failures included. |
| PrintedForms.RefusedStatus | silicium/http/parse_response.hpp:94-102 | A status that is no number is refused with the header lines unread. |
| RequestParserSink.RequestParser.Append | silicium/http/request_parser_sink.hpp:26-155 | append on any chunk in any state refines the machine: all members, the requests passed on, and the early return when the output reports an error for one of them. |
| RequestParserSink.FeedUntilError | silicium/http/request_parser_sink.hpp:82-92 | An error is returned for the first request whose output fails and for no other, and the sink is then behind that request, with an empty one begun. |
| RequestParserSink.KeyStaysBehind | silicium/http/request_parser_sink.hpp:78-93 | What was collected of a key is not cleared when a CR starts a chunk: it is left for the next request. |
| RequestParserSink.FeedUntilNoError | silicium/http/request_parser_sink.hpp:26-155 | Without errors the whole chunk is taken in, which is the case all other statements about the push parser are about. |
| RequestParserSink.RequestParser.TextTurn | silicium/http/request_parser_sink.hpp:33-131 | The branches that collect text up to a delimiter. |
| PrintedForms.OptionalCharacters | silicium/http/request_parser_sink.hpp:66-152 | The LF behind a CR and the space behind a colon may be missing, and nothing else is skipped. |
| RequestParserSink.ChunkingIsInvisibleIffClean | silicium/http/request_parser_sink.hpp:76-104 | From any state: cutting a text into chunks makes no difference, for every cut of every prefix, if and only if no CR is ever taken into a key. |
| RequestParserSink.FeedInTwoParts | silicium/http/request_parser_sink.hpp:26-155 | A clean text in two chunks has the effect of one, and both chunks are clean where they are met. |
| RequestParserSink.FeedChunks | silicium/http/request_parser_sink.hpp:26-155 | A clean text in any chunks, empty ones included, has the effect of one. |
| RequestParserSink.UncleanCut | silicium/http/request_parser_sink.hpp:76-104 | In every other text there is a cut that changes the outcome, right in front of a CR. |
| PushRoundTrip.PushParserReadsRequests | silicium/http/request_parser_sink.hpp:26-155 | Any number of printed requests one behind the other, in any chunks, are passed on unchanged and in order, and the parser is ready for the next. |
| PushRoundTrip.PassRequest | silicium/http/request_parser_sink.hpp:26-155 | One printed request in front of anything is passed on unchanged and leaves nothing behind for the next. |
| PushRoundTrip.PushableIff | silicium/http/request_parser_sink.hpp:26-155 | A request comes through unchanged in whatever chunks its printed form is sent if and only if verb and path hold no space, the version and the values no CR, and the keys no colon and no CR. |
| ParserAgreement.PushReadsHead | silicium/http/request_parser_sink.hpp:26-155 | A header with any fields in front of anything is passed on with the first value of each key. |
| ParserAgreement.PushReadsAccepted | silicium/http/request_parser_sink.hpp:26-155 | So is whatever text parse_request reads as a request, if its CRs and LFs come in pairs, with or without a space behind the colons. |
| PushRoundTrip.PassFields | silicium/http/request_parser_sink.hpp:116-131 | Of the header fields in front of anything the push parser keeps the first value of each key. |
| HttpHeader.PullKeepsLast | silicium/http/parse_request.hpp:66-67 | On the text of any fields, repeated keys included, parse_request keeps the last value of each key and leaves the body. |
| PushRoundTrip.FirstWinsAt | silicium/http/request_parser_sink.hpp:124-125 | What the push parser stores for a key is the value of its first field, or what was stored before. |
| HttpHeader.LastWinsAt | silicium/http/parse_request.hpp:67-67 | What parse_request stores for a key is the value of its last field, or what was stored before. |
| ParserAgreement.ParsersAgreeIff | silicium/http/request_parser_sink.hpp:124-125 | On the text of any accepted request whose CRs and LFs come in pairs, the push parser passes on exactly the request that parse_request returns if and only if for every key the first and the last field carry the same value. |
| ParserAgreement.RepeatedKeyDiffers | silicium/http/request_parser_sink.hpp:124-125 | On a header with one key and two values, the push parser passes on the first and parse_request returns the last. |
| HtmlNames.SeenAsSaidIff | silicium/html/generator.hpp:162-229 | For every program of calls without raw(), arbitrary names, keys, texts and values: an independent scanner reads off exactly the elements, attributes and text that were asked for if and only if every name is non-empty and free of space, slash and `>`, every attribute key is free of these and of the equals sign, and every name that is escaped (all but those of empty elements without attributes) has no special character. |
| HtmlScanner.GeneratedIsWellNested | silicium/html/generator.hpp:162-229 | Such programs give output that the scanner accepts with an empty stack at the end, at any depth. |
| HtmlScanner.SoundIsWellNestedIff | silicium/html/generator.hpp:162-229 | For every program whose names and keys end where they are meant to, the output is well nested if and only if the names of all elements with a closing tag need no escaping; no two mismatches make up for each other. |
| HtmlNames.ScannedIsSound | silicium/html/generator.hpp:69-111 | Whatever text is scanned, no name read holds a space, slash or `>` and no key one of these or an equals sign: so no output can be read back as a call with such a name or key. |
| HtmlNames.RawKeyBreaksNesting | silicium/html/generator.hpp:88-104 | An attribute key is written raw: with the key `>` even an empty element with a good name is not well nested. |
| HtmlScanner.ScanGenerated | silicium/html/generator.hpp:162-229 | One call with names and keys that end where they are meant to, in front of any text, is read as what is written: escaped names in opening tags, raw ones in closing tags, everything else as it was said. |
| HtmlScanner.WrittenIsSaidIff | silicium/html/generator.hpp:33-58 | What is written equals what was said if and only if every escaped name is plain. |
| HtmlScanner.WrittenBalances | silicium/html/generator.hpp:162-229 | What is written for a call leaves any stack as it was if and only if the names of its elements match in both tags, at any depth. |
| HtmlScanner.ScanOpeningTag | silicium/html/generator.hpp:69-111 | An opening tag whose name and attribute keys hold no delimiter is read back as its name and attributes, whatever the attribute values: none can end the tag. |
| HtmlScanner.ScanText | silicium/html/generator.hpp:60-67 | Escaped text is read back character for character and never as a tag. |
| HtmlNames.NameMustBeGood | silicium/html/generator.hpp:175-184 | An element with any name at all, with attribute keys and around content whose names and keys hold no delimiter, is well nested if and only if its name is not empty and has no special character, space or slash, and the names inside match. |
| HtmlNames.PlainNameMustBeGood | silicium/html/generator.hpp:162-168 | The same for elements without attributes and for elements with text. |
| HtmlNames.ScanNameRest | silicium/html/generator.hpp:69-97 | What a bad name leaves behind its first word is taken for attributes, or makes the scanner give up; it never ends the tag early. |
| HtmlNames.TagsAgree | silicium/html/generator.hpp:113-121 | The first word of an escaped opening name equals what is read of the raw closing name only for a good name. |
| HtmlGenerator.Generator.WriteChar | silicium/html/generator.hpp:33-58 | write_char appends the escape of one character. |
| HtmlGenerator.Generator.WriteString | silicium/html/generator.hpp:60-67 | write_string appends the escape of the whole text. |
| HtmlGenerator.Generator.AddAttribute | silicium/html/generator.hpp:88-104 | An attribute, with or without a value. |
| HtmlGenerator.Generator.Generate | silicium/html/generator.hpp:162-235 | Every overload of element, nested to any depth, appends the rendering of the call and changes nothing else. |
| PrintedForms.RawStands | silicium/html/generator.hpp:231-235 | Raw text stands in the output as it is, between any calls. |
| PrintedForms.PrintedTags | silicium/html/generator.hpp:106-131 | The bytes of an element and of an empty one. |
| PrintedForms.PrintedAttributedTags | silicium/html/generator.hpp:88-104 | The bytes of attributes with and without a value, in both kinds of tag. |
| PrintedForms.PrintedEntities | silicium/html/generator.hpp:33-58 | The five entities. |
| HtmlText.DecodeEscape | silicium/html/generator.hpp:33-67 | Decoding the entities of an escaped text gives it back, for write_string and output_html_string alike, so escaping is injective. |
| HtmlText.EscapeHidesDelimiters | silicium/html/generator.hpp:33-58 | Escaped text holds no raw angle bracket or double quote. |
| HtmlText.EscapeGrows | silicium/html/generator.hpp:33-58 | Escaping never shortens, and changes nothing exactly for texts without special characters. |
| HtmlText.OutputHtmlString | dependencies/sqlite-amalgamation-3081002/shell.c:709-738 | output_html_string, by chunks, prints the same per-character escape, the empty string for null. |
| HtmlText.PutChunk | dependencies/sqlite-amalgamation-3081002/shell.c:712-737 | One turn: the chunk and one entity are printed, the text gets shorter, and what is printed and what is left still make up the whole. |
| ExplainIndent.ShellState.ExplainDataPrepare | dependencies/sqlite-amalgamation-3081002/shell.c:1404-1460 | For every EXPLAIN statement whose jumps of loop ends do not lead in front of the first opcode: the indentation of each opcode is twice the number of loops, ended by later Next-like or qualifying Goto opcodes, that enclose it, across growth of both arrays. For any other statement nothing changes. |
| ExplainIndent.LooksLikeExplain | dependencies/sqlite-amalgamation-3081002/shell.c:1417-1422 | The test accepts exactly the statements that start, behind blanks, with explain in upper or lower case. |
| ExplainIndent.ExplainIs | dependencies/sqlite-amalgamation-3081002/shell.c:1421-1422 | Which seven characters behind which blanks are accepted. |
| ExplainIndent.ShellState.OneOp | dependencies/sqlite-amalgamation-3081002/shell.c:1424-1455 | After every prefix of the program the indentations count the loops that end in that prefix. |
| ExplainIndent.ShellState.IndentLoop | dependencies/sqlite-amalgamation-3081002/shell.c:1447-1454 | One opcode adds two to exactly the opcodes its loop encloses, the target included for a Next and excluded for a Goto. |
| ExplainIndent.IndentGrows | dependencies/sqlite-amalgamation-3081002/shell.c:1447-1454 | One more opcode adds two to the opcodes it encloses and nothing to the others. |
| ExplainIndent.IndentRules | dependencies/sqlite-amalgamation-3081002/shell.c:1434-1454 | The rules from address, opcode name, P1 and P2 alone: one more opcode adds two to exactly the opcodes from its destination on if it is one of seven, to exactly those behind its destination if it is a Goto to one of five or with a P1, and nothing otherwise; it is not indented itself. |
| ExplainIndent.GotoSparesItsTarget | dependencies/sqlite-amalgamation-3081002/shell.c:1453-1453 | The rows of a small loop: only the opcode between is indented. |
| ExplainIndent.IndentChangesAtLoopEnds | dependencies/sqlite-amalgamation-3081002/shell.c:1447-1454 | Neighbours in the same loops are indented alike, except that an opcode which ends a loop around its predecessor is not itself in it. |
| ExplainIndent.StrInArray | dependencies/sqlite-amalgamation-3081002/shell.c:1378-1384 | str_in_array finds exactly the members of the list. |
| TableLayout.EveryNamePrinted | dependencies/sqlite-amalgamation-3081002/shell.c:3775-3782 | In the printed listing, which consists of its lines, every name stands padded on its line and in its column. |
| TableLayout.EveryIndexOnce | dependencies/sqlite-amalgamation-3081002/shell.c:3775-3782 | For every number of results and maximal length, each result index belongs to exactly one cell of the grid. |
| TableLayout.LineIsCells | dependencies/sqlite-amalgamation-3081002/shell.c:3777-3780 | A printed line consists of the cells at its indices, in order, and nothing else. |
| TableLayout.ListingIsLines | dependencies/sqlite-amalgamation-3081002/shell.c:3776-3782 | The listing consists of its lines and nothing else. |
| TableLayout.LineIsNotTooLong | dependencies/sqlite-amalgamation-3081002/shell.c:3773-3777 | No line has more entries than columns fit. |
| TableLayout.ColumnsAreMost | dependencies/sqlite-amalgamation-3081002/shell.c:3773-3774 | One more column would not fit 80 characters, and unless there is but one, all columns do. |
| TableLayout.RowsAreLeast | dependencies/sqlite-amalgamation-3081002/shell.c:3775-3775 | A number of lines holds all names with at most that many on each if and only if it is not less than the one used. |
| PrintedForms.PrintedListing | dependencies/sqlite-amalgamation-3081002/shell.c:3765-3783 | The bytes of a listing of three names. |
| TableLayout.LineFitsScreen | dependencies/sqlite-amalgamation-3081002/shell.c:3773-3782 | No line is wider than 78 characters, or than the longest name if that is more. |
| TableLayout.LineIndicesAt | dependencies/sqlite-amalgamation-3081002/shell.c:3777-3777 | The entry in column c of the line that starts with j is j plus c times the number of lines. |
| TableLayout.PrintTables | dependencies/sqlite-amalgamation-3081002/shell.c:3765-3783 | The nested loops print the listing, padded to the maximum that they compute, and nothing for no results. |
| TableLayout.MaxLength | dependencies/sqlite-amalgamation-3081002/shell.c:3769-3772 | The maximal length is an upper bound and is reached. |
| SqlQuoting.QuotedRoundTrip | dependencies/sqlite-amalgamation-3081002/shell.c:645-672 | A scanner that undoes doubling reads a quoted text back, for any quote character, and stops behind the closing quote if no quote follows. |
| SqlQuoting.QuotedIsInjective | dependencies/sqlite-amalgamation-3081002/shell.c:645-672 | Different texts have different quoted forms. |
| SqlQuoting.TableNameIsInjective | dependencies/sqlite-amalgamation-3081002/shell.c:1072-1092 | Different names have different table names, although set_table_name quotes only some of them. |
| PrintedForms.PrintedTableName | dependencies/sqlite-amalgamation-3081002/shell.c:1072-1092 | A name is left alone exactly if it starts with a letter or underscore and has only letters, digits and underscores. |
| SqlQuoting.OutputQuotedString | dependencies/sqlite-amalgamation-3081002/shell.c:645-672 | The printing by runs equals doubling every quote between two quotes, in both branches. |
| SqlQuoting.PutRun | dependencies/sqlite-amalgamation-3081002/shell.c:656-668 | One turn: a run and its quote are printed, the text gets shorter, and what is printed and what is left still make up the whole. |
| SqlQuoting.DoubledLength | dependencies/sqlite-amalgamation-3081002/shell.c:1111-1115 | Doubling adds one byte for each quote: the count that both allocations rest on. |
| SqlQuoting.ShellState.SetTableName | dependencies/sqlite-amalgamation-3081002/shell.c:1062-1093 | The array that set_table_name allocates after counting is filled to its last byte with the table name and a NUL; null clears the member. |
| SqlQuoting.AppendText | dependencies/sqlite-amalgamation-3081002/shell.c:1103-1138 | The array that appendText allocates after counting is filled to its last byte with the old text, the appended one (quoted if asked for) and a NUL. |
| SqlQuoting.CopyDoubled | dependencies/sqlite-amalgamation-3081002/shell.c:1125-1128 | The copying loop writes the doubled text at its place and keeps what is in front. |
| Recognisers.NumbersAreNumerals | dependencies/sqlite-amalgamation-3081002/shell.c:389-411 | isNumber accepts exactly sign? digits fraction? exponent?, for every text. |
| Recognisers.NumeralIsRecognised | dependencies/sqlite-amalgamation-3081002/shell.c:389-411 | Every numeral is accepted, as real exactly with a fraction or an exponent. |
| Recognisers.RecognisedIsNumeral | dependencies/sqlite-amalgamation-3081002/shell.c:389-411 | Every accepted text is a numeral, and its being real tells of a fraction or an exponent. |
| Recognisers.IsNumber | dependencies/sqlite-amalgamation-3081002/shell.c:389-411 | The scan decides this without reading behind the NUL, and sets the out-parameter only if there is one. |
| PrintedForms.SomeNumbers | dependencies/sqlite-amalgamation-3081002/shell.c:389-411 | Examples of numbers, with and without sign, fraction and exponent. |
| PrintedForms.NotNumbers | dependencies/sqlite-amalgamation-3081002/shell.c:389-411 | Examples that are none. |
| Recognisers.WhiteIsSpacesAndComments | dependencies/sqlite-amalgamation-3081002/shell.c:4085-4104 | _all_whitespace accepts exactly the texts made of spaces, closed block comments and line comments, the last of which may end with the text. |
| Recognisers.PiecesAreWhite | dependencies/sqlite-amalgamation-3081002/shell.c:4085-4104 | Every such text is accepted. |
| Recognisers.WhiteIsPieces | dependencies/sqlite-amalgamation-3081002/shell.c:4085-4104 | Every accepted text is split into such pieces. |
| Recognisers.AllWhitespace | dependencies/sqlite-amalgamation-3081002/shell.c:4085-4104 | The nested scans decide this, end, and never read behind the NUL. |
| PrintedForms.SomeBlankLines | dependencies/sqlite-amalgamation-3081002/shell.c:4085-4104 | Examples of lines with and without SQL. |
| IntegerSequence.MakeIsUpTo | silicium/detail/integer_sequence.hpp:56-74 | Halving and concatenating with an offset gives 0, 1, ..., N-1 for every N. |
| IntegerSequence.DepthIsLogarithm | silicium/detail/integer_sequence.hpp:55-62 | The instantiation depth is the least k with N at most 2 to the k, the ceiling of the logarithm, for every N from 1. |

## Left out

- CsvImport.ImportCtx.Import: starts with the buffer allocated, as `.import` does by appending one byte at `shell.c:3031`, and with at least one column; INSERT failures, interrupts during an import, ASCII mode and CREATE TABLE from a header row are not part of it.
- CsvImport.ImportFile: does not take a column separator that equals EOF, with which the import never ends; the table exists already and its number of columns is a parameter; opening files and pipes is not part of it.
- HttpHeader.ReadHeaders: stops with `Undefined` at a line that `split_value_line` reads past the end of.
- HttpResponse.StatusRoundTrip: the sign rules of `boost::lexical_cast<unsigned>` are those Boost documents; Boost is not part of this model.
- HtmlGenerator.Generator.Generate: the functors that make attributes and content are data (a tree of calls), not arbitrary code.
- CsvRoundTrip.TableRoundTrip: no NULL fields and no header line, since the text of `nullValue` cannot be told from a field when read back.
- HtmlNames.SeenAsSaidIff: calls of `raw` are excluded, since raw text may hold anything.
- TableLayout.PrintTables: the query for the names is left out, and the names are not null.
- Tokenizer.CommandLineRoundTrip: the separators between printed strings are white space, as in TCL mode by default.
- Allocation failure and `int` overflow of lengths, counters and line numbers: integers are unbounded.
- Locales: `isprint`, `isspace` and `isalnum` are those of the C locale.
- Calls into the SQLite engine, command dispatch, prompts, signals, timers and the other output modes of the shell.
- The copy and move operations of `response`, and the other sources and sinks of silicium: members are copied one by one.
- `silicium/html/tree.hpp`: it renders through the same helpers.
- `variant`, `optional`, `expected`, `error_or`, bounded integers, smart pointers, dynamic libraries and asio adapters of silicium: template machinery and thin wrappers.
