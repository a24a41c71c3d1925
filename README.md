# doc2json invoice core, modelled in Dafny

doc2json sends an invoice (a PDF or an image) to a document-recognition
service. It turns the service's answer into a JSON envelope: fixed fields
`date`, `total` and `company_name`, each with a value, a confidence, a
source tag and a raw diagnostic dictionary. It then validates the envelope
against a label schema. This project models the part that runs after the
service has answered, plus the input-file resolution of the command line:

- `Schema`: the field types, the label field and schema records, and
  the built-in invoice schema (`src/doc2json/schema.py`).
- `Envelope`: the error and field-result records, and the envelope.
  Validation updates the envelope's `errors` and `ok` in place and returns
  the same object, so the envelope is a class with those fields
  (`src/doc2json/envelope.py`).
- `Validate`: the emptiness test, the date check (`datetime.strptime`
  over four formats, in `Strptime`), the locale-tolerant number check, the
  e-mail pattern, and the two passes of `validate`, as methods that append
  to the envelope (`src/doc2json/validate.py`).
- `Extract`: the field-object value chain, the candidate-key picker, the
  currency normaliser, the text flattener, and the tail of
  `extract_document_to_json` that builds the fixed data map and the
  envelope (`src/doc2json/extract.py`).
- `Cli`: the supported extensions and `resolve_input_file`, against a
  filesystem given as a map (`src/doc2json/cli.py`).
- `Pipeline`: the extractor and the validator together on a
  recognised invoice.

Helper modules: `Wrappers` (Option, Result), `Values` (the loosely typed
Python values the pipeline inspects), `PyStr` (the `str` methods used) and
`Strptime`/`IsoDates` (the date formats and `date.isoformat`).
`ValidateProofs`, `ExtractProofs` and `CliProofs` hold the lemmas about the
corresponding modules.

Modelling choices:

- `str(v)` of a non-string value is a parameter `show`. Lemmas that need
  its behaviour require `ShowAgrees(show)`: it is the identity on strings
  and gives the ISO text on dates.
- A float is carried as its `repr` text.
- `datetime.strptime` is modelled for the four formats the validator
  tries. It succeeds exactly when the text splits at the first of each
  separator into tokens that match strptime's own patterns for `%Y`,
  `%m` and `%d` (the regexes `\d\d\d\d`, `1[0-2]|0[1-9]|[1-9]` and
  `3[01]|[12]\d|0[1-9]|[1-9]| [1-9]`), and the date exists (year 1 or
  later).
  `ParsesIffMatchesWhole` shows that this equals "some split of the text
  matches the format".
- The `[^\d.,\-]` removal keeps ASCII digits only.
- The filesystem is a map from normalised path strings to entry kinds.

Where the code and its description differ, the model follows the code:

- The data map always has the three invoice keys, whatever the label
  schema says. Only the validator reads the schema's field list; the
  builder copies only its doc type and the schema itself into the envelope.
- The flattened page text (`_flatten_read_result`) is computed but not used
  in the envelope. The model proves its properties but does not store it.
- `cli.py` imports `extract_pdf_to_json`, which `extract.py` does not
  define. Only `SUPPORTED_EXTS` and `resolve_input_file` are modelled.
- Validation reports only MISSING_REQUIRED_FIELD, INVALID_EMAIL,
  INVALID_DATE and INVALID_NUMBER. Fields of type `phone`, `string`, or
  any type other than email, date, number or currency get no type check.

Some definitions serve as specifications. Their properties are the lemma
rows of the table below:

- `Validate.ParseNumber` is `_parse_number` (src/doc2json/validate.py:22-52):
  `Validate.IsNumeric` covers the isinstance branch, and
  `Validate.NumberTextAccepted` covers the text branch.
- `Validate.KeepNumberChars` is the `re.sub` at validate.py:32.
- `Validate.NormaliseSeparators` is the separator heuristic at
  validate.py:34-46.
- `Validate.IsFloatLiteral` is what `float()` accepts at validate.py:48-52.
- `Validate.DateAccepted` is `_parse_date` (validate.py:10-19).
- `Strptime.Parses` is `datetime.strptime` with one of its four formats at
  validate.py:15.

## Model

| member | source | states |
|---|---|---|
| Schema.ParseFieldType | src/doc2json/schema.py:4 | a parsed type name prints back as the same literal |
| Schema.FieldTypeNames | src/doc2json/schema.py:4 | every field type's literal parses back to that type (a round trip) |
| Schema.LabelFieldDefaults | src/doc2json/schema.py:6-11 | a label field built from a name alone has type string, is not required, and has no hints and no description |
| Schema.InvoiceLabels | src/doc2json/schema.py:20-28 | the invoice schema has doc type "invoice", version "1.0", and fields date (date), total (currency) and company_name (string), in that order; all three are required with no hints, and their names are distinct |
| Envelope.Defaults | src/doc2json/envelope.py:5-17 | an error built without a field names no field; a field result built without arguments has every attribute None |
| Envelope.ExtractionEnvelope.constructor | src/doc2json/envelope.py:20-29 | a new envelope holds exactly the ok flag, doc type, model id, labels, data, errors, warnings and meta it is given |
| Envelope.DefaultEnvelope | src/doc2json/envelope.py:20-29 | an envelope built with the defaults is ok, with no errors, no warnings and empty meta |
| PyStr.Strip | src/doc2json/validate.py:7 | `str.strip()` by Python's whitespace set: the result is a contiguous stretch of the text with only whitespace before and after it; it is empty exactly when the text is all whitespace, and otherwise neither starts nor ends with whitespace |
| PyStr.Filter | src/doc2json/validate.py:32 | only kept characters remain, and the result is no longer than the input |
| PyStr.ReplaceChar | src/doc2json/validate.py:39 | `str.replace` of one character: the same length, with every occurrence of the character replaced and nothing else changed |
| PyStr.IndexOf | src/doc2json/validate.py:15 | the first occurrence of a character, or -1 exactly when it is absent |
| PyStr.LastIndexOf | src/doc2json/validate.py:37 | `str.rfind` of one character: the last occurrence, or -1 exactly when it is absent |
| PyStr.JoinSplit | src/doc2json/extract.py:96 | splitting a text at a separator and joining the parts with it gives the text back |
| PyStr.SplitJoin | src/doc2json/extract.py:96 | joining parts that contain no separator with it, then splitting, gives the parts back |
| Strptime.ParsesIffMatchesWhole | src/doc2json/validate.py:13-15 | for every well-formed format, the first-separator parse succeeds exactly when some split of the whole text into a year, a month and a day token matches the format and the date exists |
| Strptime.CutJoined | src/doc2json/validate.py:15 | a text built from three pieces and the two separators parses exactly when the pieces are valid tokens of an existing date |
| Strptime.NoSeparatorIn | src/doc2json/validate.py:13 | a year, month or day token never contains a separator, which is neither a digit nor a space |
| IsoDates.FixedValue | src/doc2json/validate.py:11 | zero-padded decimal text of a number reads back as that number |
| IsoDates.IsoFormatParses | src/doc2json/validate.py:13-15 | the ISO text of every existing date parses under `%Y-%m-%d` |
| Validate.IsEmpty | src/doc2json/validate.py:6-7 | a value is empty exactly when it is None or a string made only of whitespace |
| Validate.DateText | src/doc2json/validate.py:11-12 | the text the date formats are tried on is at most ten characters long |
| Validate.FirstFormatParsing | src/doc2json/validate.py:13-18 | the loop returns true exactly when some format in the list parses the text |
| Validate.ParseDate | src/doc2json/validate.py:10-19 | `_parse_date` holds exactly when the first ten characters of the stripped text parse under one of the four formats |
| Validate.CheckType | src/doc2json/validate.py:79-95 | the type check of one field: INVALID_EMAIL, INVALID_DATE or INVALID_NUMBER for a failing email, date or number/currency field, and nothing for any other type |
| Validate.AppendRequiredErrors | src/doc2json/validate.py:57-67 | the loop appends to the envelope's errors exactly the required pass's errors for the schema fields, in field order, and changes nothing else |
| Validate.AppendTypeErrors | src/doc2json/validate.py:70-95 | the loop appends to the envelope's errors exactly the type pass's errors for the schema fields, in field order |
| Validate.Validate | src/doc2json/validate.py:55-98 | validate returns the same envelope; the required-pass errors and then the type-pass errors are appended to its errors, and ok is set exactly when the error list is empty |
| ValidateProofs.RequiredPassExactly | src/doc2json/validate.py:57-67 | an error is in the required pass exactly when it is the missing-field error of a required field whose result is absent or has an empty value |
| ValidateProofs.RequiredPassCount | src/doc2json/validate.py:57-67 | with distinct field names, each field's missing-field error appears once when it is required and missing, and otherwise not at all (no duplicates) |
| ValidateProofs.RequiredPassConcat | src/doc2json/validate.py:57 | the required pass over two field lists is the pass over the first, then the pass over the second |
| ValidateProofs.TypePassExactly | src/doc2json/validate.py:70-95 | an error is in the type pass exactly when it is a type error of one of the schema fields |
| ValidateProofs.TypePassErrorsNameCheckedFields | src/doc2json/validate.py:70-95 | every type error names a schema field whose value is present and non-empty, with the error code of that field's type |
| ValidateProofs.NoFieldGetsBoth | src/doc2json/validate.py:57-95 | no field gets both a missing-field error and a type error |
| ValidateProofs.EmailCheckIsPatternSearch | src/doc2json/validate.py:80 | the email check holds exactly when the text contains a match of `[^@]+@[^@]+\.[^@]+` |
| ValidateProofs.NormaliseSeparatorsFacts | src/doc2json/validate.py:36-46 | separator normalisation keeps the digits and signs in order; with both separators the earlier kind is dropped and every occurrence of the later kind becomes a point where it stood (the text with the earlier kind filtered out); a lone comma becomes a point at the comma's own index and every other character stays in place; otherwise the text is unchanged |
| ValidateProofs.CommaDecimal | src/doc2json/validate.py:37-39 | when the last comma follows the last period, the result is exactly the text with its periods removed and each remaining comma turned into a point in its place |
| ValidateProofs.PeriodDecimal | src/doc2json/validate.py:40-42 | when the last period follows the last comma, the result is exactly the text with its commas removed, periods and all other characters in their order |
| ValidateProofs.LoneComma | src/doc2json/validate.py:44-46 | a single comma with no period becomes the decimal point: same length, a point at the comma's index, every other character unchanged |
| ValidateProofs.NumbersAccepted | src/doc2json/validate.py:24-25 | ints, bools and floats are accepted without being read as text |
| ValidateProofs.SeveralCommasRejected | src/doc2json/validate.py:45-52 | a non-numeric value whose kept characters hold two or more commas and no period is rejected |
| ValidateProofs.GroupedNumberNormalises | src/doc2json/validate.py:36-46 | a signed number in digit groups with either thousands separator and the other decimal separator normalises to its digits, a point, then the fraction |
| ValidateProofs.GroupedNumberAccepted | src/doc2json/validate.py:22-52 | every such grouped decimal number is accepted, in both the "1.234,56" and the "1,234.56" conventions |
| ValidateProofs.EuropeanAmountAccepted | tests/test_validate.py:40 | "1.234,56" is accepted as a number |
| ValidateProofs.DateValuesAccepted | src/doc2json/validate.py:10-19 | every existing date value is accepted |
| ValidateProofs.StringDateText | src/doc2json/validate.py:11-12 | for a string without surrounding whitespace, the tried text is its first ten characters |
| ValidateProofs.TimestampAccepted | src/doc2json/validate.py:12 | a timestamp "2020-12-20T00:00:00" is accepted through its first ten characters |
| ValidateProofs.MissingLeapDayRejected | src/doc2json/validate.py:13-18 | no format parses "29/02/2023", because 2023 has no 29 February |
| ValidateProofs.DayPastMonthEndRejected | src/doc2json/validate.py:13-18 | no format parses "2024-02-30" |
| ValidateProofs.CalendarExamples | src/doc2json/validate.py:10-19 | "29/02/2024" is accepted as a date; "29/02/2023" and "2024-02-30" are rejected |
| ValidateProofs.IsoDateAccepted | tests/test_validate.py:40 | "2024-01-31" is accepted as a date |
| ValidateProofs.MissingFieldsExample | tests/test_validate.py:23-34 | with date and total missing and company "ACME", the required pass gives exactly the date and total errors, once each, and none for company_name |
| ValidateProofs.MissingFieldsTyped | tests/test_validate.py:23-34 | the type pass adds nothing to that example, so its errors are exactly the two missing-field errors |
| ValidateProofs.WellFormedInvoiceExample | tests/test_validate.py:37-45 | the sample invoice with "2024-01-31", "1.234,56" and "ACME" gets no error from either pass |
| Extract.FirstSet | src/doc2json/extract.py:15-36 | the index of the first slot that is not None, or the slot count when every slot is None |
| Extract.ExtractValue | src/doc2json/extract.py:9-38 | None for a missing object or when every slot is None; otherwise the value of the first slot that is not None |
| ExtractProofs.ExtractValueFollowsSourceOrder | src/doc2json/extract.py:9-38 | the value chosen is `value`, else the typed slots in the source's order, else `content` |
| ExtractProofs.FirstSetAtUnique | src/doc2json/extract.py:15-36 | only one slot can be the first non-None slot |
| Extract.PickField | src/doc2json/extract.py:41-50 | none of key, value and confidence set exactly when no candidate yields a value; otherwise the key picked is a candidate with none yielding before it, and the value and confidence are that field's |
| ExtractProofs.PickFieldFirstYielding | src/doc2json/extract.py:43-49 | the first candidate that yields a value is the one picked, with its own value and confidence |
| ExtractProofs.PickFieldConcat | src/doc2json/extract.py:43-50 | candidate lists are searched strictly in order: the second part is searched only when the first yields nothing |
| ExtractProofs.PickFieldSkipsNonYielding | src/doc2json/extract.py:44-48 | a key that is absent, maps to None, or yields no value is skipped |
| Extract.CurrencyToJsonable | src/doc2json/extract.py:53-83 | None gives (None, None); an amount dict gives its amount and a three-key plain dict; an object with any currency attribute gives its amount and the dict with the code and symbol fallbacks; anything else passes through with no dict; any dict produced has exactly the keys amount, currencyCode and currencySymbol, and its amount is the amount returned |
| ExtractProofs.CurrencyRawIsFixedPoint | src/doc2json/extract.py:63-68 | normalising the produced plain dict again returns the same amount and dict |
| ExtractProofs.CurrencyCodeFallback | src/doc2json/extract.py:72 | an empty `currency_code` falls back to `currencyCode` |
| ExtractProofs.CurrencyObjectGivesAmount | src/doc2json/extract.py:71-83 | a service currency object with an amount gives that amount and a dict with its code and symbol |
| ExtractProofs.NonCurrencyPassesThrough | src/doc2json/extract.py:75-77 | numbers, strings, dates and dicts without "amount" pass through unchanged, with no dict |
| Extract.FlattenReadResult | src/doc2json/extract.py:86-96 | the loops compute the joined truthy line contents of all pages, or the result's own content when there are none |
| ExtractProofs.ChunksMembers | src/doc2json/extract.py:88-93 | a text is a chunk exactly when it is the non-empty content of some line on some page |
| ExtractProofs.ChunksConcat | src/doc2json/extract.py:89-93 | pages contribute their chunks in page order |
| ExtractProofs.ReadTextSplitsIntoChunks | src/doc2json/extract.py:96 | when there are chunks and none contains a newline, splitting the text at newlines gives back exactly the chunks |
| ExtractProofs.NoChunksText | src/doc2json/extract.py:94-96 | with no chunks, the text is the result's content when that is non-empty, and "" otherwise |
| Extract.InvoiceData | src/doc2json/extract.py:156-175 | the data map has exactly the keys date, total and company_name, and every entry has source "prebuilt-invoice" and a raw dict |
| ExtractProofs.DataKeysAreInvoiceFields | src/doc2json/extract.py:156-175 | the data keys are exactly the invoice schema's field names |
| ExtractProofs.DateFromInvoiceDate | src/doc2json/extract.py:136-139 | date is the value and confidence of InvoiceDate, with the key in raw; without it, date is None and its raw key is None |
| ExtractProofs.TotalFromInvoiceTotal | src/doc2json/extract.py:141-149 | when InvoiceTotal yields, total is its amount when it is a currency, else its value; raw records the key and the currency dict; the confidence is InvoiceTotal's; when no total key yields, value and confidence are None and raw holds None for both the key and the currency |
| ExtractProofs.CompanyFallsBackToCustomer | src/doc2json/extract.py:151-154 | company_name is VendorName's value and confidence, else CustomerName's value and confidence, else None with None confidence, with the matched key in raw |
| ExtractProofs.NoDocumentsNoValues | src/doc2json/extract.py:127-131 | with no documents every data entry has value None and confidence None |
| Extract.BuildEnvelope | src/doc2json/extract.py:127-185 | the envelope is new, ok, with no errors or warnings; it carries the schema's doc type, the model id and the schema; its data is the invoice mapping of the first document's fields, or of an empty field map when there are no documents; meta holds the document count |
| Cli.Name | src/doc2json/cli.py:22 | the last path component contains no separator |
| Cli.Suffix | src/doc2json/cli.py:30 | `Path.suffix`: empty, or a final ".x" of the name that is shorter than the name and holds no further '.' |
| Cli.WithSuffix | src/doc2json/cli.py:30 | `Path.with_suffix` fails for an invalid suffix and for an empty name, and succeeds otherwise |
| CliProofs.WithSuffixReplacesSuffix | src/doc2json/cli.py:30 | the new path keeps the directory and the stem and has exactly the given suffix |
| CliProofs.WithSuffixIdempotent | src/doc2json/cli.py:30 | giving a path the same suffix twice is the same as giving it once |
| CliProofs.DirPrefixName | src/doc2json/cli.py:22 | a path is its directory prefix followed by its name |
| Cli.Candidates | src/doc2json/cli.py:29-30 | one candidate path per supported extension, in the same order |
| Cli.ResolveInputFile | src/doc2json/cli.py:16-36 | the method returns or raises what `resolve_input_file` does: the name when it is a file, else ValueError for an empty name, else the first extension candidate that is a file, else FileNotFoundError |
| Cli.TryExtensions | src/doc2json/cli.py:29-32 | the loop returns the first candidate, in extension order, that is a file, or nothing |
| CliProofs.FirstExistingFirstMatch | src/doc2json/cli.py:29-32 | the search finds nothing exactly when no path is a file; otherwise it returns a path that is a file with no file before it |
| CliProofs.ExactPathReturned | src/doc2json/cli.py:24-26 | an existing file is returned unchanged |
| CliProofs.FirstExtensionWins | src/doc2json/cli.py:28-36 | for a name that is not a file, FileNotFoundError is raised exactly when no candidate is a file; a returned path is the candidate of the first extension whose candidate is a file |
| CliProofs.ResolvedIsFileUpToSuffix | src/doc2json/cli.py:16-36 | a returned path is always a regular file, never a directory, and is either the name itself or the name with one supported suffix |
| CliProofs.EmptyNameRaises | src/doc2json/cli.py:30 | resolution raises ValueError from `with_suffix` exactly when the name is not itself a file and has an empty final component; "/" is one such name |
| CliProofs.ExactPathExample | tests/test_cli_resolve.py:7-10 | an existing "invoice1.pdf" is returned as given |
| CliProofs.AddsExtensionExample | tests/test_cli_resolve.py:13-17 | "invoiceX" resolves to "invoiceX.png" when only that file exists |
| CliProofs.MissingFileExample | tests/test_cli_resolve.py:20-22 | on an empty filesystem, FileNotFoundError is raised with the message naming the input |
| CliProofs.DirectorySkipped | src/doc2json/cli.py:25 | a directory with the given name is not taken as the input; a `.png` file beside it makes the call succeed |
| Pipeline.ServiceFieldsExtracted | src/doc2json/extract.py:136-175 | from a typed date, a currency object and any vendor text (the empty one included, since `""` is not None and is picked), the builder records the date itself with its confidence, the currency amount, and the vendor text |
| Pipeline.InvoiceDataPasses | src/doc2json/validate.py:55-95 | data whose date parses, whose total is numeric and whose company is not blank passes both passes of the invoice schema |
| Pipeline.ExtractedInvoiceValidates | src/doc2json/extract.py:136-175 | the data extracted for every existing date, every amount and every vendor text that is not blank after stripping passes validation under the invoice schema |
| Pipeline.NoDocumentsAllMissing | src/doc2json/extract.py:127-131 | a result without documents yields data that fails the required pass once per field, in schema order, with no type errors |

## Left out

- The recognition-service call, settings and client creation (`config.py`, `azure_client.py`), `guess_content_type`, file reading and the diagnostic `print`s: these are I/O. The service's answer is the `ReadResult` parameter, and the model id is a parameter.
- `_heuristic_find_field`: nothing in the extraction path calls it.
- The command-line `main`, typer and rich, and writing the JSON file: these are I/O.
- JSON serialisation (`model_dump(mode="json")`, `json.dumps`): the model has no JSON encoder, so the serialisation test's promise is not stated.
- Pydantic coercion and validation: `confidence: Optional[float]` is not enforced (any value may be stored), and `extra="forbid"` is met only because the records have fixed fields.
- Envelope.ExtractionEnvelope.labels: it holds the LabelSchema itself, not the `model_dump()` dictionary of it.
- Float arithmetic: floats are their repr text. `float(s)` is modelled by its decimal-literal grammar (an optional sign, digits with at most one point). By then the text holds only digits, '.', ',' and '-', so exponents, "inf", "nan" and underscores cannot occur.
- Unicode digits: `\d` and `%Y`/`%m`/`%d` read only ASCII digits here.
- Python's `str()` of non-string values: it is the `show` parameter; only its behaviour on strings and dates is fixed.
- Line contents that are not strings, and a document whose `fields` is None or missing: the datatypes admit only strings and field maps.
- Path normalisation: input paths are taken as `str(Path(name))` already prints them (no "//", no trailing "/", no "./"); "" is not treated as ".".
- Filesystem races between `exists()` and `is_file()`: the filesystem is an immutable map for one call, and symbolic links are not modelled.
- Strptime.Parses: covers only the four formats of the date check, not strptime in general, and does not model whitespace inside the format or the locale.
