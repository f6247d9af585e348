# Feedback forms: CSV response codec and form state, in Dafny

This project models the logic at the heart of a small feedback-form web application.
There are four parts.

- **The admin responses dialog** (`ResponsesModal.tsx`):
  - the CSV line tokenizer `parseCSVLine`;
  - the table decoder `parseCSV`;
  - the cell and row encoder behind `downloadCSV`;
  - the choice of the displayed columns in `fetchResponses`.
- **The student form viewer** (`FormViewer.tsx`):
  - word counting;
  - per-question validation;
  - recording an answer;
  - the guard and payload of a submission.
- **The form builder** (`FormBuilder.tsx`):
  - hydrating questions from stored data;
  - adding, updating and removing questions.
- **The admin form editor** (`FormEditor.tsx`):
  - adding and deleting questions;
  - in-place edits of a question's text, type and required flag.

Modules:

- `Options`: `Option`, which stands for `null` and `undefined`.
- `Questions`: the two question types.
- `JsText`: JavaScript `trim`, the `\s` class, and one-character `split` and `join`.
- `JsObject`: a plain JavaScript object used as a string dictionary. It is an association list in insertion order.
- `CsvCodec`: the tokenizer, the decoder, the encoder and the export round trip.
- `CsvLimits`: concrete exports that do not read back.
- `ResponsesModal`: the dialog's state, as a class.
- `FormViewer`: the viewer, as a class plus specification functions.
- `FormBuilder`: pure list transformations.
- `FormEditor`: the editor and its question objects, as classes.

Loops in the source become methods with loop invariants, each proved equal to a specification function:

- `ParseLine` equals `LineFields`.
- `ParseCsv` equals `DecodeTable`.
- `BuildRecord` equals `RecordOf`.
- `Viewer.Validate` equals `ValidationErrors`.

The properties are proved as lemmas about those functions.

The codec behaves as follows, and the model follows it.

- The decoder splits the trimmed text at every `\n` before it tokenizes any line. A quoted value that holds a newline therefore ends its row early, and the export does not read back: RFC 4180 (section 2, rule 6) lets a quoted field hold a line break, and this decoder does not. `CsvLimits.NewlineCellExport` and `CsvLimits.NewlineCellDecode` show one response that decodes as two records.
- There is no error for an unterminated quote. The open quote simply runs to the end of the line.
- The encoder reports no error for a header/record mismatch. A missing key is exported as an empty cell.
- Empty or blank text yields no records and the two default columns, not an empty header.
- The header row is joined without escaping.
- The decoder trims every field and skips blank lines. The export round trip (`CsvCodec.ExportRoundTrip`) is proved under these conditions:
  - at least two distinct column names, none needing quotes and none with surrounding whitespace;
  - every response has exactly those keys, in column order;
  - no value holds a newline or has whitespace at either end.

  These conditions are sufficient, not necessary. A single column of non-empty values also reads back, but the proof does not cover that case. A single column fails only when a value is empty: the line is blank, and the decoder skips it (`CsvLimits.SingleBlankColumnLost`).

## Model

| member | source | states |
|---|---|---|
| JsText.Trim | src/app/admin/dashboard/ResponsesModal.tsx:125 | `trim()` leaves no whitespace at either end |
| JsText.TrimBorders | src/app/admin/dashboard/ResponsesModal.tsx:125 | a string is a whitespace lead, its trimmed middle and a whitespace tail, in that order |
| JsText.TrimFixesTrimmed | src/app/admin/dashboard/ResponsesModal.tsx:180 | `trim()` returns its input exactly when the input has no whitespace at either end |
| JsText.TrimEmptyIffAllWs | src/app/admin/dashboard/ResponsesModal.tsx:93 | `trim()` yields `''` exactly for empty or whitespace-only text (the blank-text test) |
| JsText.TrimStart | src/app/admin/dashboard/ResponsesModal.tsx:125 | the leading-whitespace cut of `trim()` never lengthens, and what is left does not start with whitespace |
| JsText.TrimEnd | src/app/admin/dashboard/ResponsesModal.tsx:125 | the trailing-whitespace cut of `trim()` never lengthens, and what is left does not end with whitespace |
| JsText.Split | src/app/admin/dashboard/ResponsesModal.tsx:125 | `split` always yields at least one piece |
| JsText.SplitPieces | src/app/admin/dashboard/ResponsesModal.tsx:125 | no piece of a split holds the separator |
| JsText.SplitJoin | src/app/admin/dashboard/ResponsesModal.tsx:125 | splitting undoes a join of separator-free parts |
| JsText.JoinSplit | src/app/admin/dashboard/ResponsesModal.tsx:125 | joining undoes a split |
| JsText.Join | src/app/admin/dashboard/ResponsesModal.tsx:217 | `join` of no parts is `''`, and otherwise the text opens with the first part |
| JsText.JoinTrimmed | src/app/admin/dashboard/ResponsesModal.tsx:226 | two or more trimmed cells joined by a comma give a non-empty trimmed line |
| JsText.JoinNonEmptyTrimmed | src/app/admin/dashboard/ResponsesModal.tsx:227 | non-empty trimmed lines joined by newlines give non-empty trimmed text |
| JsObject.Keys | src/app/admin/dashboard/ResponsesModal.tsx:107 | `Object.keys` gives one key per entry |
| JsObject.KeysAt | src/app/admin/dashboard/ResponsesModal.tsx:107 | `Object.keys` lists the entries' keys in insertion order |
| JsObject.Lookup | src/components/FormViewer.tsx:76 | `o[k]` holds a value exactly when `k` is a key, and that value is stored under `k` |
| JsObject.Get | src/app/admin/dashboard/ResponsesModal.tsx:220 | reading a key with an `''` fallback gives the stored value, or `''` when the key is absent |
| JsObject.FindIsKeys | src/app/admin/dashboard/ResponsesModal.tsx:149 | a key is found exactly when it is among the keys |
| JsObject.Put | src/app/admin/dashboard/ResponsesModal.tsx:149 | after `o[k] = v` the entry `k: v` is present, and at most one entry was added |
| JsObject.PutLookup | src/components/FormViewer.tsx:58-61 | after `o[k] = v`, `k` holds `v` and every other key holds what it held |
| JsObject.PutKeys | src/app/admin/dashboard/ResponsesModal.tsx:149 | assignment keeps the key order and appends a new key at the end |
| JsObject.PutNew | src/app/admin/dashboard/ResponsesModal.tsx:149 | assigning a key the object lacks appends exactly that entry |
| JsObject.PutWellFormed | src/components/FormViewer.tsx:63-66 | assignment never repeats a key |
| JsObject.PutEntries | src/app/admin/dashboard/ResponsesModal.tsx:149 | every entry after an assignment was there before or is the new one |
| JsObject.LookupAt | src/app/admin/dashboard/ResponsesModal.tsx:220 | in an object without repeated keys, reading any entry's key gives that entry's value |
| CsvCodec.LineFields | src/app/admin/dashboard/ResponsesModal.tsx:163-189 | a line has one more field than it has commas outside quotes, and every field is trimmed |
| CsvCodec.ParseLine | src/app/admin/dashboard/ResponsesModal.tsx:163-189 | the character loop returns exactly the fields of the quote-tracking scan, each trimmed |
| CsvCodec.Scan | src/app/admin/dashboard/ResponsesModal.tsx:168-185 | the quote-tracking scan of a line always yields at least one raw field |
| CsvCodec.TrimAll | src/app/admin/dashboard/ResponsesModal.tsx:180-187 | one field per raw field, and field k is raw field k trimmed |
| CsvCodec.FieldCount | src/app/admin/dashboard/ResponsesModal.tsx:168-187 | the raw field count is 1 plus the commas met outside quoted mode, so never zero |
| CsvCodec.ScanPair | src/app/admin/dashboard/ResponsesModal.tsx:173-175 | inside quotes, `""` adds one `"` and stays quoted |
| CsvCodec.ScanClose | src/app/admin/dashboard/ResponsesModal.tsx:176-177 | inside quotes, any other `"` leaves quoted mode and adds nothing |
| CsvCodec.ScanOpen | src/app/admin/dashboard/ResponsesModal.tsx:176-177 | outside quotes, `"` enters quoted mode and adds nothing |
| CsvCodec.ScanChar | src/app/admin/dashboard/ResponsesModal.tsx:182-183 | any other character, including a comma inside quotes, is added to the field |
| CsvCodec.FieldsDrawFrom | src/app/admin/dashboard/ResponsesModal.tsx:168-185 | a character other than `"` that the line lacks appears in no field |
| CsvCodec.TrimNoChar | src/app/admin/dashboard/ResponsesModal.tsx:180 | trimming adds no character |
| CsvCodec.LineFieldsWithout | src/app/admin/dashboard/ResponsesModal.tsx:163-189 | the trimmed fields of a line never hold a character (other than `"`) that the line lacks |
| CsvCodec.PlainRun | src/app/admin/dashboard/ResponsesModal.tsx:182-183 | a run free of quotes and commas is copied into the field unchanged |
| CsvCodec.UnquotedLine | src/app/admin/dashboard/ResponsesModal.tsx:163-189 | a line without quotes tokenizes as its split at commas, each piece trimmed |
| CsvCodec.DoubleQuotes | src/app/admin/dashboard/ResponsesModal.tsx:223 | `replace(/"/g, '""')` never shortens and keeps every other character's presence |
| CsvCodec.DoubleQuotesInverse | src/app/admin/dashboard/ResponsesModal.tsx:223 | the result is one character longer per quote, every quote in it is doubled, undoubling gives the value back, and a value without quotes is unchanged |
| CsvCodec.EncodeCell | src/app/admin/dashboard/ResponsesModal.tsx:220-225 | a value is quoted exactly when it holds `,`, `"` or `\n`, and is otherwise unchanged; a newline is in the cell exactly when it is in the value |
| CsvCodec.EncodeCellTrimmed | src/app/admin/dashboard/ResponsesModal.tsx:222-225 | encoding keeps a trimmed value trimmed |
| CsvCodec.RowCellsAt | src/app/admin/dashboard/ResponsesModal.tsx:219-220 | cell i of a row is the response's value under column i, or `''` when it has none |
| CsvCodec.RowCells | src/app/admin/dashboard/ResponsesModal.tsx:219-220 | one cell per column |
| CsvCodec.EncodeAll | src/app/admin/dashboard/ResponsesModal.tsx:220-225 | one encoded cell per cell |
| CsvCodec.EncodeRow | src/app/admin/dashboard/ResponsesModal.tsx:219-226 | with at least one column, the raw scan of the encoded line gives back the row's cells, commas, quotes and newlines included |
| CsvCodec.EncodeAllAt | src/app/admin/dashboard/ResponsesModal.tsx:219-226 | encoded cell i is the encoding of cell i |
| CsvCodec.EncodeRows | src/app/admin/dashboard/ResponsesModal.tsx:218-227 | one encoded line per response |
| CsvCodec.EncodeRowsAt | src/app/admin/dashboard/ResponsesModal.tsx:218-227 | encoded line k is the encoding of response k, in the original order |
| CsvCodec.ExportCsv | src/app/admin/dashboard/ResponsesModal.tsx:213-229 | the download builds nothing exactly when there are no responses |
| CsvCodec.QuotedBody | src/app/admin/dashboard/ResponsesModal.tsx:172-184 | inside quotes, a quote-doubled value followed by the closing quote reads back as the value |
| CsvCodec.EncodedCell | src/app/admin/dashboard/ResponsesModal.tsx:220-225 | an encoded cell followed by a comma or the end of the line reads back as exactly the value |
| CsvCodec.ScanRoundTrip | src/app/admin/dashboard/ResponsesModal.tsx:218-226 | the raw scan of comma-joined encoded cells gives the cells back, commas, quotes and newlines included |
| CsvCodec.RowRoundTrip | src/app/admin/dashboard/ResponsesModal.tsx:218-226 | `parseCSVLine` of comma-joined encoded trimmed cells gives the cells back |
| CsvCodec.JoinNoChar | src/app/admin/dashboard/ResponsesModal.tsx:226-227 | a join adds no character other than the separator |
| CsvCodec.CellAt | src/app/admin/dashboard/ResponsesModal.tsx:149 | `values[index] || ''` is the value at the index, or `''` past the end (an empty value stays `''`) |
| CsvCodec.RecordOf | src/app/admin/dashboard/ResponsesModal.tsx:146-150 | a record has at most one entry per header, and the last header maps to its own cell |
| CsvCodec.BuildRecord | src/app/admin/dashboard/ResponsesModal.tsx:146-150 | the `forEach` over the headers builds exactly the header-by-header record |
| CsvCodec.DedupFacts | src/app/admin/dashboard/ResponsesModal.tsx:148-150 | the distinct header names are distinct and are exactly the header names |
| CsvCodec.RecordKeys | src/app/admin/dashboard/ResponsesModal.tsx:148-150 | a record has every header name as a key, once each, in order of first appearance |
| CsvCodec.RecordValue | src/app/admin/dashboard/ResponsesModal.tsx:148-150 | header i maps to value i, or to `''` past the end of the row, unless the same name appears further right |
| CsvCodec.RecordValuesFromRow | src/app/admin/dashboard/ResponsesModal.tsx:149 | every stored value is one of the row's values or `''`, so extra values are dropped |
| CsvCodec.HeaderRow | src/app/admin/dashboard/ResponsesModal.tsx:134-136 | the header row has at least one name, each trimmed and without a newline |
| CsvCodec.DecodeRows | src/app/admin/dashboard/ResponsesModal.tsx:141-153 | at most one record per data line |
| CsvCodec.TextLines | src/app/admin/dashboard/ResponsesModal.tsx:125 | the trimmed text always gives at least one line |
| CsvCodec.DecodeTable | src/app/admin/dashboard/ResponsesModal.tsx:123-161 | there are at most as many records as lines minus one |
| CsvCodec.ParseCsv | src/app/admin/dashboard/ResponsesModal.tsx:123-161 | the line loop returns exactly the records of the non-blank data lines, in order |
| CsvCodec.DecodeRowsStep | src/app/admin/dashboard/ResponsesModal.tsx:141-153 | each loop step adds the current line's record, or nothing for a blank line |
| CsvCodec.DecodeRowsSnoc | src/app/admin/dashboard/ResponsesModal.tsx:141-153 | one more line adds at most one record, at the end |
| CsvCodec.ShortTextDecodesEmpty | src/app/admin/dashboard/ResponsesModal.tsx:125-131 | text with no newline after trimming decodes to no records |
| CsvCodec.DecodedKeys | src/app/admin/dashboard/ResponsesModal.tsx:141-153 | every decoded record has exactly the distinct header names as keys |
| CsvCodec.NonBlankLinesDecode | src/app/admin/dashboard/ResponsesModal.tsx:141-153 | with no blank data line, each line yields one record |
| CsvCodec.DecodeTableCount | src/app/admin/dashboard/ResponsesModal.tsx:141-153 | with no blank data line, there are exactly lines minus one records |
| CsvCodec.TableKeys | src/app/admin/dashboard/ResponsesModal.tsx:123-161 | every record of a table has the header row's distinct names as keys, each once |
| CsvCodec.ExportedLine | src/app/admin/dashboard/ResponsesModal.tsx:218-227 | an exportable response gives one trimmed, non-blank, newline-free line that decodes to the response |
| CsvCodec.OwnCells | src/app/admin/dashboard/ResponsesModal.tsx:219-220 | in key order, a response's cells are its own values |
| CsvCodec.RecordOfEntries | src/app/admin/dashboard/ResponsesModal.tsx:146-150 | rebuilding a record without repeated keys from its own values, in key order, gives it back |
| CsvCodec.LastKeyNew | src/app/admin/dashboard/ResponsesModal.tsx:146-150 | the last key of a record without repeated keys is new to the entries before it |
| CsvCodec.ExportedRecord | src/app/admin/dashboard/ResponsesModal.tsx:141-153 | an exported line decodes to its response |
| CsvCodec.DecodeExportedRows | src/app/admin/dashboard/ResponsesModal.tsx:141-153 | decoding the exported data lines gives the responses back, in order |
| CsvCodec.ExportLines | src/app/admin/dashboard/ResponsesModal.tsx:213-229 | the exported text splits into the header line and one line per response |
| CsvCodec.ExportRoundTrip | src/app/admin/dashboard/ResponsesModal.tsx:213-229 | under the stated conditions, decoding the download's text gives back the columns as header and the responses |
| CsvLimits.SingleBlankColumnLost | src/app/admin/dashboard/ResponsesModal.tsx:125-131 | a single column with an empty value exports as `A\n`, which decodes to no record |
| CsvLimits.NewlineCellRow | src/app/admin/dashboard/ResponsesModal.tsx:219-226 | for any value `a` with a newline and no quote or comma, and any plain value `b`, the row is `a` in quotes, a comma and `b`, so the newline sits inside the row |
| CsvLimits.NewlineCellExport | src/app/admin/dashboard/ResponsesModal.tsx:213-229 | for the same `a` and `b`, the whole export is the header line `A,B`, a newline and that row |
| CsvLimits.NewlineCellLines | src/app/admin/dashboard/ResponsesModal.tsx:125 | the text exported for `a` = `a` newline `b` and `b` = `c` splits into three lines before tokenizing |
| CsvLimits.NewlineCellDecode | src/app/admin/dashboard/ResponsesModal.tsx:141-153 | that text, one exported response, decodes as two records |
| CsvLimits.TwoDataRows | src/app/admin/dashboard/ResponsesModal.tsx:141-153 | two non-blank data lines give two records |
| CsvLimits.OneResponse | src/app/admin/dashboard/ResponsesModal.tsx:213-229 | the export of one response is the header line, a newline and that response's line |
| ResponsesModal.ColumnsFor | src/app/admin/dashboard/ResponsesModal.tsx:106-112 | with no record, the two default columns; otherwise one column per key of the first record, and never a repeated name when that record repeats no key |
| ResponsesModal.ColumnsAreHeaders | src/app/admin/dashboard/ResponsesModal.tsx:106-109 | when a record was decoded, the columns are the header row's distinct names in order |
| ResponsesModal.ResponsesView.constructor | src/app/admin/dashboard/ResponsesModal.tsx:18-21 | no responses, no columns and no error at first |
| ResponsesModal.ResponsesView.ShowResponses | src/app/admin/dashboard/ResponsesModal.tsx:73-117 | a failure keeps the table and records the message; blank text gives no responses and the default columns; otherwise the responses are the decoded records and the columns are the first record's keys, or the defaults |
| ResponsesModal.ResponsesView.DownloadCsv | src/app/admin/dashboard/ResponsesModal.tsx:213-229 | the saved text is the export of the current columns and responses, and nothing when there are none |
| FormViewer.SplitWs | src/components/FormViewer.tsx:70 | `split(/\s+/)` gives at least one piece, no piece holds whitespace, only the first and last can be empty, and the first is not empty when the text starts with a non-whitespace character |
| FormViewer.Pieces | src/components/FormViewer.tsx:70 | the same facts for the split of a suffix, with the piece in progress already holding a prefix |
| FormViewer.NonEmptyCount | src/components/FormViewer.tsx:70 | the filtered count is at most the number of pieces, and 0 exactly when every piece is empty |
| FormViewer.WordCount | src/components/FormViewer.tsx:69-70 | `getWordCount` is the number of maximal non-whitespace runs, and 0 exactly for empty or whitespace-only text |
| FormViewer.TrimmedPiecesCount | src/components/FormViewer.tsx:70 | counting the non-empty pieces of the trimmed text counts the non-whitespace runs of the original text |
| FormViewer.PiecesCount | src/components/FormViewer.tsx:70 | splitting at whitespace runs and dropping empty pieces counts the starts of non-whitespace runs |
| FormViewer.RunStartsZero | src/components/FormViewer.tsx:69-70 | no run starts exactly in whitespace-only text |
| FormViewer.QuestionError | src/components/FormViewer.tsx:75-86 | an error is one of the two messages; the range error only for a descriptive question, the required error only for a required one |
| FormViewer.ValidationErrors | src/components/FormViewer.tsx:72-86 | at most one error per question |
| FormViewer.ErrorMessages | src/components/FormViewer.tsx:78-84 | every recorded error is one of the two messages |
| FormViewer.ErrorNotLost | src/components/FormViewer.tsx:75-86 | a question that fails leaves the error map non-empty |
| FormViewer.LastErrorStored | src/components/FormViewer.tsx:75-86 | when the last question fails, the error map is not empty |
| FormViewer.QuestionErrorCases | src/components/FormViewer.tsx:75-86 | the required error exactly for a required question with a blank or missing answer; the range error exactly for a descriptive question outside that case with fewer than 5 or more than 250 words; no error otherwise |
| FormViewer.EmptyOptionalDescriptiveFails | src/components/FormViewer.tsx:80-84 | an optional descriptive question left blank gets the range error |
| FormViewer.RatingOnlyRequired | src/components/FormViewer.tsx:75-86 | a rating question fails only the required check |
| FormViewer.NoErrorsIffAllPass | src/components/FormViewer.tsx:88-89 | the error map is empty exactly when every question passes |
| FormViewer.NoErrorsAllPass | src/components/FormViewer.tsx:72-89 | an empty error map means every question passed |
| FormViewer.AllPassNoErrors | src/components/FormViewer.tsx:72-89 | when every question passes, the error map is empty |
| FormViewer.ErrorsByQuestion | src/components/FormViewer.tsx:75-86 | with distinct ids, each question's id maps to that question's own error, or to nothing |
| FormViewer.ErrorsElsewhere | src/components/FormViewer.tsx:72-86 | the error map holds nothing under a key that is no question's id |
| FormViewer.ErrorsWellFormed | src/components/FormViewer.tsx:73-86 | the error map never repeats a key |
| FormViewer.Payload | src/components/FormViewer.tsx:102-107 | one `{questionId, responseText}` per answers entry, in entry order |
| FormViewer.PayloadMatchesAnswers | src/components/FormViewer.tsx:102-107 | the payload names each answered question once, with its recorded answer |
| FormViewer.Viewer.constructor | src/components/FormViewer.tsx:35-37 | both maps start empty |
| FormViewer.Viewer.HandleChange | src/components/FormViewer.tsx:57-67 | the answer is recorded and that question's error is set to `''`; every other entry of both maps is unchanged, and no key is repeated |
| FormViewer.Viewer.Validate | src/components/FormViewer.tsx:72-90 | the error map is replaced by the errors of the form's questions, and the result is true exactly when there are none |
| FormViewer.Viewer.HandleSubmit | src/components/FormViewer.tsx:92-123 | nothing is sent without a form, or when a question fails; otherwise the payload of the answers is sent, and both maps are cleared when the server accepts it |
| FormBuilder.InitialState | src/components/FormBuilder.tsx:50-66 | title and description come from the form data, or are `''`; one hydrated question per stored question |
| FormBuilder.Hydrate | src/components/FormBuilder.tsx:56-64 | one question per stored question, in order, with the id parsed and the text, type, required flag and order copied |
| FormBuilder.AddQuestion | src/components/FormBuilder.tsx:68-77 | the old questions are kept, followed by one blank optional descriptive question with order = old length + 1 |
| FormBuilder.Apply | src/components/FormBuilder.tsx:85 | the spread update changes only the named field |
| FormBuilder.UpdateQuestion | src/components/FormBuilder.tsx:79-87 | same length and positions; exactly the questions whose id is `===` the given id are changed |
| FormBuilder.UpdateAbsent | src/components/FormBuilder.tsx:79-87 | an id no question carries changes nothing |
| FormBuilder.RemoveQuestion | src/components/FormBuilder.tsx:89-91 | removal never lengthens the list |
| FormBuilder.RemoveKeeps | src/components/FormBuilder.tsx:89-91 | a question is kept exactly when it was present and its id is not `===` the given id |
| FormBuilder.RemoveConcat | src/components/FormBuilder.tsx:90 | removal works piece by piece, so the kept questions stay in order |
| FormBuilder.RemoveAbsent | src/components/FormBuilder.tsx:89-91 | an id no question carries removes nothing |
| FormBuilder.RemoveOne | src/components/FormBuilder.tsx:89-91 | removing the only question with an id leaves the others in order |
| FormBuilder.NaNQuestionStays | src/components/FormBuilder.tsx:58 | a question whose stored id parses to `NaN` can be neither updated nor removed |
| FormBuilder.AddThenRemove | src/components/FormBuilder.tsx:68-91 | adding a question and removing it by its fresh id gives the list back |
| FormBuilder.RemoveThenAddRepeatsOrder | src/components/FormBuilder.tsx:68-91 | orders are not renumbered: after a removal and an add, the new question has the same order as the last old one, which is still listed |
| FormEditor.WithoutIndex | src/components/admin/FormEditor.tsx:29 | drops exactly the element at the index and keeps the rest in order; an index out of range changes nothing |
| FormEditor.DeleteAfterAdd | src/components/admin/FormEditor.tsx:15-31 | deleting the question just added gives the list back |
| FormEditor.Editor.constructor | src/components/admin/FormEditor.tsx:12-13 | the title is the initial title; the questions are the initial questions, or none |
| FormEditor.Editor.HandleAdd | src/components/admin/FormEditor.tsx:15-26 | one fresh blank optional descriptive question with order = old length + 1 is appended; every other question keeps its fields |
| FormEditor.Editor.HandleDelete | src/components/admin/FormEditor.tsx:28-31 | the entry at the index is dropped and the others keep their order and fields, orders included |
| FormEditor.Editor.EditText | src/components/admin/FormEditor.tsx:125-129 | only the text of the question object at the index changes, in every list entry that is that object |
| FormEditor.Editor.EditType | src/components/admin/FormEditor.tsx:141-145 | only the type of the question object at the index changes, in every list entry that is that object |
| FormEditor.Editor.EditRequired | src/components/admin/FormEditor.tsx:161-165 | only the required flag of the question object at the index changes, in every list entry that is that object |

## Left out

- Network and I/O are not modelled. This covers `fetch`, `axios`, JSON parsing of replies, `console` logging, toasts, router refreshes, the Blob and anchor download, keyboard listeners and page-scroll changes. A fetch becomes its outcome (`ResponsesModal.FetchOutcome`), and a POST becomes its acceptance (the `accepted` parameter of `HandleSubmit`).
- The loading and fullscreen flags are not modelled. They only drive the display.
- The submitting flag is not modelled. It disables the submit button while a POST is in flight (FormViewer.tsx:230), which stops a second submission; the model has no concurrency, so each `HandleSubmit` runs to its end before the next.
- `formatDate` is not modelled, because it depends on the `Date` object and locale formatting.
- `Object.keys` and `Object.entries` are modelled in insertion order. JavaScript lists integer-like keys first, in numeric order; that ordering is not modelled, so headers such as `"1"` or `"2"` would be listed in a different order by JavaScript.
- Strings are sequences of characters. UTF-16 code units, surrogate pairs and Unicode normalisation are not modelled.
- `Date.now()` is a parameter (`stamp`), and the model does not assume it differs from existing ids.
- `parseInt` in hydration is the parameter `parseId: string -> NumId`, whose result may be `NaN`. The parse itself is not modelled.
- `parseCSV` catches and rethrows errors. No error path is modelled, because the modelled code never throws on string input; for the same reason `ShowResponses` has no decode-error case.
- Of the `keyof Question` fields that `updateQuestion` can set, only the three the builder's inputs change are modelled: text, type and required. A change to `id` or `order` through that generic path is not modelled.
- The editor's title input (`setTitle`) and its save request are not modelled, nor the builder's save request.
- The question objects of `FormEditor` are assumed to be the objects the list holds. The `any` typing of `initialData`, and the possibility of values of other shapes, are not modelled.
- JsObject.Put: models `o[k] = v` as storing an own property for every key, the same as `{...o, [k]: v}`. For the key `__proto__` JavaScript assignment calls the inherited setter and stores nothing. So CsvCodec.RecordOf, CsvCodec.BuildRecord, CsvCodec.RecordKeys, CsvCodec.DecodedKeys, CsvCodec.TableKeys and ResponsesModal.ColumnsAreHeaders do not describe the program for a header named `__proto__`, and FormViewer.ValidationErrors and FormViewer.Viewer.Validate do not describe it for a failing question whose id is `__proto__` (the assignment of a string stores nothing, so such a question failing on its own does not stop `validate` from reporting success). For example, for `__proto__,A` followed by `x,y`, the program shows the columns `["A"]` and the model shows `["__proto__", "A"]`. Reads of inherited names such as `constructor` through `Get` and `Lookup` are not modelled either.
- CsvCodec.ExportRoundTrip: proved only for responses whose values hold no newline and have no surrounding whitespace, with two or more plain, distinct column names, because the decoder trims, skips blank lines and splits at every newline (see `CsvLimits`).
- These parts of the application are not part of this model:
  - the API routes (database queries and the stats averages);
  - `TextualSummary.tsx` (floating-point statistics);
  - the student page (its validation is delegated to a schema library);
  - presentation pages, layouts, the navigation bar, the sidebar and the timeline chart;
  - `next.config.ts`.
