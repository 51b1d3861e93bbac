# PDF tools site: the page-range, converter and QR logic

The site offers browser-side PDF tools (split, rotate, number pages,
delete the last page, images to PDF), a JSON⇄CSV converter and a QR code
generator. All the work happens in DOM event handlers. This project takes
the computations inside those handlers and writes each one as a pure Dafny
function over strings, integers and sequences. A PDF document is a sequence
of page records. A parsed JSON value is a datatype. Page state is an
immutable record.

Modules:

- `Wrappers`: `Option` and `Result`.
- `JsText`: the JavaScript string built-ins the handlers use.
  - `trim` over ECMAScript white space and line terminators;
  - `split` on a non-empty separator, and `join`;
  - `parseInt(s, 10)` as `Option<int>`, where `None` is `NaN`;
  - decimal rendering of numbers.
- `JsSet`: a JavaScript `Set` read back with `Array.from`. Each value is kept once, in order of first insertion.
- `PageRanges`: two readers of page-range text.
  - `splitPdf` on the tools page: a `Set`, a bounds filter and two error messages.
  - `handleSplit` in the function library: a plain list with repeats kept, no filter, and a blank text meaning every page.
- `PdfPages`: the document-level rules.
  - Copying the selected pages.
  - Rotation, either `+90` with no reduction or `(current + angle) % 360` with JavaScript's truncated remainder.
  - The `Página i de n` labels.
  - Deleting the last page only when there is more than one.
  - Images to PDF with media-type filtering.
- `JsonToCsv`: the encoder (`convertJsonToCsv`). It models:
  - `Object.keys` and property reads on JSON values;
  - `'' + value`;
  - quote doubling;
  - the unquoted header line;
  - the error cases.
  
  It also has a quote-aware reader, used as the encoder's inverse.
- `CsvToJson`: the decoder (`convertCsvToJson`). It models:
  - blank-line removal;
  - the delimiter default;
  - trimmed headers;
  - records built by successive property assignment, where a repeated header keeps its first position and its last value, and `__proto__` is never created. Members stay in assignment order; the engine's own order differs for array-index names (see "Left out");
  - positional rows.
- `QrGenerator`: the generator page as a state machine.
  - Tab clicks and field edits regenerate the code.
  - The text to encode, including the Wi-Fi text, decides whether the download buttons are ready.
  - A download needs an instance and a drawn canvas.

Three behaviours of the code are easy to miss:

- The split page extracts pages in the order they were first named, not in ascending order. `"5,1-3"` gives indices 4, 0, 1, 2.
- The JSON encoder always joins fields with `,`. Its header line is not quoted.
- The CSV decoder splits lines on the delimiter without reading quotes, so decoding the encoder's output keeps the quotation marks. The encoder's inverse is therefore stated against a quote-aware reader.

## Model

| member | source | states |
|---|---|---|
| JsText.Trim | public/assets/js/main.js:144 | the result has no white space at either end, and it is empty exactly when the text is all white space |
| JsText.TrimIsSlice | public/assets/js/main.js:144 | the result is a middle slice of the text, and everything cut off on either side is white space |
| JsText.TrimNoSpace | public/assets/js/main.js:144 | a text with no white space at either end is left unchanged by trimming |
| JsText.Split | public/assets/js/main.js:143 | `split` on a non-empty separator always gives at least one piece; what the pieces are is stated by `JoinSplit`, `SplitJoin`, `SplitCount` and `SplitAppend` |
| JsText.Join | bckup/convertjason/assets/js/main.js:36 | `join` puts the separator between consecutive parts; it is the inverse stated in `JoinSplit` and `SplitJoin` |
| JsText.JoinSplit | public/js/pdf-lib-functions.js:38 | joining the pieces of a split with the same separator gives back the text |
| JsText.SplitJoin | bckup/convertjason/assets/js/main.js:36 | splitting a join on one character gives back the pieces, when none of them contains that character |
| JsText.SplitCount | public/assets/js/main.js:145-146 | a text contains the character exactly when splitting on it gives at least two pieces, so both ends of a range exist |
| JsText.SplitAppend | public/assets/js/main.js:143 | splitting `a + c + b` on `c` gives the pieces of `a` followed by the pieces of `b` |
| JsText.ParseIntDecimal | public/assets/js/main.js:146 | `parseInt` reads back the decimal form of any natural number when a non-digit or nothing follows it |
| JsText.ParseIntSkipsSpace | public/assets/js/main.js:149 | leading white space does not change what `parseInt` reads |
| JsText.ParseInt | public/assets/js/main.js:163 | `parseInt(s, 10)` gives `NaN` exactly when, after leading white space, no digit follows the optional sign; the value read is stated by `ParseIntDecimal` and `ParseIntSigned` |
| JsText.ParseSigned | public/assets/js/main.js:149 | reading a number fails (`NaN`) exactly when no digit follows the optional sign; `ParseIntSigned` states that a minus sign negates the number and a plus sign keeps it |
| JsText.ParseIntSigned | public/assets/js/main.js:163 | after any leading white space, `-` then the decimal form of n reads as -n and `+` then that form reads as n, when a non-digit or nothing follows |
| JsText.NatToDecimalNoLeadingZero | public/js/pdf-lib-functions.js:212 | the decimal form of a number starts with `0` only when the number is zero |
| JsSet.InsertionOrder | public/assets/js/main.js:142-152 | the `Set` read back holds exactly the added values, each once |
| JsSet.InsertionOrderByFirstIndex | public/assets/js/main.js:152 | the values come back ordered by where each was first added |
| JsSet.InsertionOrderSame | public/assets/js/main.js:147 | adding a value twice keeps one copy |
| PageRanges.ReadRangeText | public/assets/js/main.js:145-146 | a token `a-b` reads as a range whose ends are `parseInt` of each trimmed side |
| PageRanges.ReadRangeToken | public/assets/js/main.js:145-146 | the text `a-b` written in decimals reads as the range from a to b |
| PageRanges.ReadSingleToken | public/assets/js/main.js:148-149 | a decimal token without `-` reads as that single page |
| PageRanges.ReadToken | public/assets/js/main.js:144-149 | a token with `-` reads as a range of `parseInt` of its first two trimmed pieces; any other token as one `parseInt`. Its meaning is stated by `ReadRangeText`, `ReadRangeToken` and `ReadSingleToken` |
| PageRanges.Contribution | public/assets/js/main.js:145-149 | the indices one token adds: `a-1 … b-1` for a range, `n-1` for a single page, `NaN` kept as `None`. `ContributionMeaning` states what they are |
| PageRanges.ContributionMeaning | public/assets/js/main.js:145-149 | a token adds index p exactly when it names page p+1. A range whose ends both read adds `a-1, a, …, b-1` in that order; with `a > b` or an unreadable end it adds nothing |
| PageRanges.ScanMeaning | public/assets/js/main.js:143-151 | an index is collected from a token list exactly when some token names it |
| PageRanges.ScannedMeaning | public/assets/js/main.js:142-151 | an index is collected from the range text exactly when some token of the text names it |
| PageRanges.Scanned | public/assets/js/main.js:142-151 | every token's indices in token order, repeats included. `ScannedMeaning` states which indices appear |
| PageRanges.InBounds | public/assets/js/main.js:152 | the filter keeps exactly the collected indices inside `[0, pageCount)` and drops `NaN` |
| PageRanges.InBoundsNoDuplicates | public/assets/js/main.js:152 | filtering a list without repeats leaves it without repeats |
| PageRanges.InBoundsKeepsOrder | public/assets/js/main.js:152 | the filter keeps the relative order of what it keeps |
| PageRanges.Select | public/assets/js/main.js:142-152 | the selection holds each collected in-range index exactly once, and nothing out of range |
| PageRanges.SplitPages | public/assets/js/main.js:138-153 | only the empty text fails with the "insira as páginas" error; a success is a non-empty list of distinct in-range indices |
| PageRanges.SplitPagesExact | public/assets/js/main.js:142-152 | on success, p is selected exactly when `0 <= p < pageCount` and some token names it |
| PageRanges.SplitPagesNoValidPage | public/assets/js/main.js:152-153 | the "Nenhuma página válida" error happens exactly when the text is not empty and no in-range page is named |
| PageRanges.SplitPagesOrder | public/assets/js/main.js:142-152 | selected indices are in the order of their first occurrence in the scan |
| PageRanges.BlankSpecNamesNothing | public/assets/js/main.js:138-153 | a non-empty, all white-space text passes the first check and then fails with "Nenhuma página válida" |
| PageRanges.SplitPagesKeepsWrittenOrder | public/assets/js/main.js:142-152 | `"a,b"` with `b < a` selects `[a-1, b-1]`, so the selection is not ascending |
| PageRanges.RepeatedPage | public/js/pdf-lib-functions.js:37-48 | `"n,n"` keeps page n-1 twice in the function library but once on the split page |
| PageRanges.KeepPages | public/js/pdf-lib-functions.js:35-49 | the list the function library copies: every index for a blank text, otherwise the scanned list with repeats and out-of-range values. `KeepPagesBlank`, `KeepPagesAppend` and `SplitAgreesWithKeep` state its meaning |
| PageRanges.KeepPagesBlank | public/js/pdf-lib-functions.js:35-36 | a blank or white-space text keeps every index `0..n-1`, in order |
| PageRanges.ScanAppend | public/js/pdf-lib-functions.js:38-48 | the collected list of two token lists is the concatenation of their lists |
| PageRanges.ReadTokensAppend | public/js/pdf-lib-functions.js:38-39 | the tokens of `a + "," + b` are the tokens of a followed by those of b |
| PageRanges.KeepPagesAppend | public/js/pdf-lib-functions.js:36-48 | for two non-blank texts, the kept list of `a,b` is the kept list of a followed by that of b, repeats included |
| PageRanges.ScannedTwoPages | public/js/pdf-lib-functions.js:38-46 | `"a,b"` in decimals collects `a-1` then `b-1` |
| PageRanges.SplitAgreesWithKeep | public/js/pdf-lib-functions.js:36-48 | for a non-blank text, p is on the split page's selection exactly when the function library keeps p and p is in range |
| PdfPages.SplitPdf | public/assets/js/main.js:152-155 | the split fails with the selection's error, or copies exactly the selected pages in selection order |
| PdfPages.CopyPages | public/js/pdf-lib-functions.js:51-52 | the copy succeeds exactly when every listed index names a page. It then holds those pages in list order, repeats included; a failure names one of the listed indices |
| PdfPages.HandleSplit | public/js/pdf-lib-functions.js:31-56 | the function library's split copies the kept list; `HandleSplitBlank`, `SplitsAgree` and the two lemmas after it state the result |
| PdfPages.HandleSplitBlank | public/js/pdf-lib-functions.js:35-52 | with a blank text the function library's split gives back the whole document |
| PdfPages.SplitsAgree | public/js/pdf-lib-functions.js:35-52 | for a non-blank text on which both splits succeed, they contain the same pages |
| PdfPages.SplitPageIsKept | public/js/pdf-lib-functions.js:35-52 | a page on the tools page's split is also on the function library's split |
| PdfPages.KeptPageIsSplit | public/js/pdf-lib-functions.js:35-52 | a page on the function library's split is also on the tools page's split |
| PdfPages.JsRem | public/assets/js/main.js:168 | the remainder has the dividend's sign, is smaller than the divisor in size, and completes the truncated division |
| PdfPages.RotateQuarter | public/js/pdf-lib-functions.js:86-89 | every page is turned exactly 90 degrees further with no reduction; nothing else changes and the page count stays |
| PdfPages.FourQuartersFaceTheSameWay | public/js/pdf-lib-functions.js:86-89 | four quarter turns add 360 degrees, so each page faces as before, and nothing else changes |
| PdfPages.RotateBy | public/assets/js/main.js:163-169 | the rotation succeeds exactly when the angle reads as a number or the document has no pages (the loop then calls `setRotation` nowhere), and keeps the page count |
| PdfPages.RotateByFacing | public/assets/js/main.js:166-169 | each page faces as `current + angle` would. Its stored angle lies strictly between -360 and 360 and keeps the sign of `current + angle`, as JavaScript's `%` does. Nothing else changes |
| PdfPages.SameFacing | public/assets/js/main.js:168 | angles differing by whole turns face the same way |
| PdfPages.RotatePdf | public/assets/js/main.js:161-169 | the tools page succeeds exactly when the chosen text reads as a number or the document has no pages, and keeps the page count |
| PdfPages.RotatePdfTurns | public/assets/js/main.js:163-169 | for every text that reads as a number `a`, each page faces as `current + a` would, with a stored angle strictly between -360 and 360 that keeps the sign of `current + a`, and nothing else changes |
| PdfPages.RotationsAgree | public/assets/js/main.js:161-169 | choosing 90 on the tools page faces every page as one quarter turn of the function library does |
| PdfPages.NumberPages | public/js/pdf-lib-functions.js:206-223 | page k of n gains exactly the label `Página k+1 de n`, and nothing else changes |
| PdfPages.PageLabelReadsBack | public/js/pdf-lib-functions.js:212 | reading the number after `Página ` gives back the page number |
| PdfPages.NumberPagesDistinct | public/js/pdf-lib-functions.js:207-212 | the labels count from 1, and no two pages get the same label |
| PdfPages.LabelsDiffer | public/js/pdf-lib-functions.js:212 | different page numbers give different labels |
| PdfPages.DeleteLastPage | public/js/pdf-lib-functions.js:190-197 | the deletion succeeds exactly when there are two or more pages, and removes only the final page |
| PdfPages.ConvertImages | public/js/pdf-lib-functions.js:113-126 | every file gives either a page or a warning |
| PdfPages.Only | public/js/pdf-lib-functions.js:116-123 | the filter keeps only files of the asked kind and never adds any |
| PdfPages.OnlyCount | public/js/pdf-lib-functions.js:116-123 | a file of the asked kind is kept exactly as many times as it was given; a file is kept exactly when it was given and is of that kind |
| PdfPages.OnlyAppend | public/js/pdf-lib-functions.js:113-123 | filtering two batches one after the other is filtering them together, so the kept files keep their order |
| PdfPages.ConvertedPagesAreSupported | public/js/pdf-lib-functions.js:113-126 | the pages are the JPEG/PNG images in file order, each on a page of its own size. The warnings name the other files' types in order. There is no page exactly when no file is supported |
| PdfPages.ConvertImagesAppend | public/js/pdf-lib-functions.js:113-126 | converting two batches one after the other gives the same pages and warnings as converting them together |
| PdfPages.JpgToPdf | public/js/pdf-lib-functions.js:110-129 | the conversion fails with "Nenhuma imagem compatível" exactly when no file is JPEG or PNG. A success holds one page per JPEG/PNG file, in order, sized to its picture, and the warnings name the other files' types in order |
| JsonToCsv.Keys | bckup/convertjason/assets/js/main.js:35 | `Object.keys` fails exactly on `null` and never lists a name twice. An object lists its member names in order of first appearance, an array or a string its indices in decimal, a number or a boolean nothing |
| JsonToCsv.KeysReadBack | bckup/convertjason/assets/js/main.js:35-40 | an object's keys are exactly its member names and each reads a value; an array's or a string's `i`-th key reads its `i`-th element or character |
| JsonToCsv.IndexKeysDistinct | bckup/convertjason/assets/js/main.js:35 | an array's or a string's index names are distinct |
| JsonToCsv.Lookup | bckup/convertjason/assets/js/main.js:40 | a member read finds nothing exactly when the object has no member of that name |
| JsonToCsv.LookupIsLast | bckup/convertjason/assets/js/main.js:40 | a member read gives the value of the last member with that name |
| JsonToCsv.IndexOfDecimal | bckup/convertjason/assets/js/main.js:40 | the decimal name of an index reads back as that index |
| JsonToCsv.Get | bckup/convertjason/assets/js/main.js:39-40 | reading a property fails exactly on `null`, and on an object it is the member read |
| JsonToCsv.GetElement | bckup/convertjason/assets/js/main.js:40 | reading an array at an index name gives that element |
| JsonToCsv.Stringify | bckup/convertjason/assets/js/main.js:41 | `'' + value`: strings as they are, numbers in decimal, booleans as words, arrays as their elements' forms joined by commas with nothing for `null`, objects as `[object Object]` |
| JsonToCsv.FieldText | bckup/convertjason/assets/js/main.js:40-41 | a missing or `null` value gives the empty text; any other value its string form |
| JsonToCsv.Escape | bckup/convertjason/assets/js/main.js:41 | escaping never shortens the text and leaves a text without quotes as it is |
| JsonToCsv.ConvertJsonToCsv | bckup/convertjason/assets/js/main.js:25-51 | blank input fails with "A entrada JSON está vazia". A parse failure reports the parser's own message. A parsed value other than a non-empty array fails with "deve ser um array de objetos não vazio". Reading a property of a `null` record fails: a `null` first record always does, a later one only when the first record has keys. Every other input succeeds |
| JsonToCsv.ReadQuotedEscape | bckup/convertjason/assets/js/main.js:41-42 | a quote-aware reader recovers the original text from an escaped, quoted field |
| JsonToCsv.ReadRowLine | bckup/convertjason/assets/js/main.js:39-44 | a quote-aware reader recovers every cell of a written data line |
| JsonToCsv.ReadLinesBody | bckup/convertjason/assets/js/main.js:44-47 | a quote-aware reader recovers the whole table from the data lines joined by newlines |
| JsonToCsv.CsvTextReadsBack | bckup/convertjason/assets/js/main.js:36-47 | the text written for any non-empty record list under any columns is the header, a line feed, then data lines that read back as the table; with no columns it is one line feed per record |
| JsonToCsv.ConvertJsonToCsvReadsBack | bckup/convertjason/assets/js/main.js:35-47 | the output is the unquoted header line, a newline, then lines that read back as the table of fields. The header splits back into the keys when no key holds a comma. When the first record has no keys, the output is one line feed per record |
| CsvToJson.NonBlank | bckup/convertjason/assets/js/main.js:95 | the kept lines are never blank and are no more than the lines |
| CsvToJson.NonBlankMembers | bckup/convertjason/assets/js/main.js:95 | a line is kept exactly when it is one of the lines and is not blank |
| CsvToJson.NonBlankCount | bckup/convertjason/assets/js/main.js:95 | a non-blank line is kept as many times as it occurs, a blank one never |
| CsvToJson.NonBlankAppend | bckup/convertjason/assets/js/main.js:95 | filtering two runs of lines one after the other is filtering them together, so the kept lines stay in order |
| CsvToJson.SomeLineIsNotBlank | bckup/convertjason/assets/js/main.js:90-96 | trimmed non-empty text always has a non-blank line |
| CsvToJson.Assignable | bckup/convertjason/assets/js/main.js:104-107 | the names a record can receive are the headers other than `__proto__` |
| CsvToJson.LastIndex | bckup/convertjason/assets/js/main.js:105-106 | the position of the last header with a given name |
| CsvToJson.ConvertCsvToJson | bckup/convertjason/assets/js/main.js:88-117 | conversion fails with "A entrada CSV está vazia" exactly when the input is blank, and never fails with "não contém linhas válidas" |
| CsvToJson.ConvertCount | bckup/convertjason/assets/js/main.js:95-101 | non-blank input yields records with a header and rows without. Their number is the non-blank line count, less one with a header |
| CsvToJson.PositionalRowsRejoin | bckup/convertjason/assets/js/main.js:101-110 | without a header, row i is line i (of the non-blank lines) split at the delimiter, and joining it by the delimiter gives back the line |
| CsvToJson.Put | bckup/convertjason/assets/js/main.js:106 | `obj[header] = value` on a record of string members; `PutMeaning` states what the assignment does |
| CsvToJson.BuildRecord | bckup/convertjason/assets/js/main.js:104-107 | the record made by assigning each header its cell in header order; `RecordNames` and `RecordValue` state its names and values |
| CsvToJson.PutMeaning | bckup/convertjason/assets/js/main.js:106 | assigning a string keeps an existing member's place, appends a new name, and never creates `__proto__`. Afterwards the name reads as the new value and every other name as before |
| CsvToJson.RecordNames | bckup/convertjason/assets/js/main.js:104-107 | a record's member names are the headers in first-occurrence order, each once, without `__proto__` |
| CsvToJson.RecordValue | bckup/convertjason/assets/js/main.js:104-107 | under each header a record holds the trimmed cell of the last column with that header, or `""` when the cell is missing or empty |
| CsvToJson.KeyedRecordIsBuilt | bckup/convertjason/assets/js/main.js:99-108 | with a header, record i is built from the headers and line i+1 |
| CsvToJson.ConvertIsDecode | bckup/convertjason/assets/js/main.js:90-111 | non-blank input is decoded from its non-blank lines with the chosen or default delimiter |
| CsvToJson.Decode | bckup/convertjason/assets/js/main.js:98-111 | the decoding of the non-blank lines, with or without a header; `DecodeKeyed` and `KeyedRecordValue` state the result |
| CsvToJson.DecodeKeyed | bckup/convertjason/assets/js/main.js:99-108 | decoding with a header makes one record per line after the first |
| CsvToJson.KeyedRecordValue | bckup/convertjason/assets/js/main.js:99-108 | a decoded record's names and values are those of the header row and its line |
| QrGenerator.Payload | public/qrcodegenerator/assets/js/main.js:54-72 | the text the active tab encodes; `PayloadEmpty` and `WifiTextReadsBack` state when it is empty and what it holds |
| QrGenerator.PayloadEmpty | public/qrcodegenerator/assets/js/main.js:56-72 | the text to encode is empty exactly when the URL or text field is blank, the network name is empty, or the tab is unknown |
| QrGenerator.WifiTextReadsBack | public/qrcodegenerator/assets/js/main.js:64-70 | the unescaped Wi-Fi text splits back into its tagged fields when none holds a semicolon |
| QrGenerator.Generate | public/qrcodegenerator/assets/js/main.js:53-101 | the buttons are ready exactly when the text is non-empty. Empty text clears the drawing and keeps the old instance. Otherwise a new instance encodes the text, and nothing else changes |
| QrGenerator.Load | public/qrcodegenerator/assets/js/main.js:5 | the page starts on the `url` tab with no code and generates once; `LoadState` states the result |
| QrGenerator.Edit | public/qrcodegenerator/assets/js/main.js:47-51 | an edit of any field regenerates the code; `EventsKeepConsistent` and `EmptyTextStopsDownload` state the result |
| QrGenerator.ClickTab | public/qrcodegenerator/assets/js/main.js:28-44 | the clicked tab becomes active and is the only marked button. Exactly the contents whose id is `tab-` plus its name are marked |
| QrGenerator.ClickTabOneContent | public/qrcodegenerator/assets/js/main.js:36-41 | with distinct content ids, exactly one content is marked after a click |
| QrGenerator.Download | public/qrcodegenerator/assets/js/main.js:117-125 | a download happens exactly when there is an instance and a drawn code |
| QrGenerator.EventsKeepConsistent | public/qrcodegenerator/assets/js/main.js:28-111 | after every event, the buttons are ready exactly when a code is drawn, and the drawn code is the last instance |
| QrGenerator.LoadState | public/qrcodegenerator/assets/js/main.js:127-128 | the loaded page is on the URL tab and is ready exactly when the URL field is not blank |
| QrGenerator.DownloadWhenReady | public/qrcodegenerator/assets/js/main.js:103-125 | downloads work exactly when the buttons are ready, and they save `qrcode.<format>` of the current code |
| QrGenerator.EmptyTextStopsDownload | public/qrcodegenerator/assets/js/main.js:74-81 | emptying the text keeps the old instance but disables the download, because no canvas is left |

## Left out

- pdf-lib, pdf.js, jsPDF and the QR library are not part of this model. Loading, saving, embedding, drawing and rendering become page records and options.
  - `copyPages` is assumed to refuse an index that names no page.
  - The QR library is assumed to draw a canvas into its container.
  - `setRotation` is assumed to take the tools page's plain `{ angle }` object (public/assets/js/main.js:168) as degrees, like the `degrees(...)` value of public/js/pdf-lib-functions.js:88.
- PdfPages.RotateBy: for an angle that is not a number the source still calls `setRotation` with `NaN` on every page; for a document with pages the model returns `None` (no rotated document), on the assumption that the PDF library refuses that angle. A document with no pages is saved unchanged, since no page is turned. Any other check the PDF library makes on an angle is not modelled, so an angle such as 45 is stored as it is.
- JsText.ParseIntDecimal: integers are unbounded. JavaScript numbers are doubles, so `parseInt` of a decimal at or above 2^53 rounds, and a long enough digit string gives `Infinity`; the read-back is promised only in the unbounded model.
- JsText.ParseInt: gives an unbounded integer. The engine's result is a double, so above 2^53 it is rounded and a long enough digit string gives `Infinity`.
- PageRanges.Contribution: a range whose ends `a <= b` both read adds `b - a + 1` indices, however large they are. In the source the counting loop (public/assets/js/main.js:147, public/js/pdf-lib-functions.js:42) runs over doubles: with an end at or above 2^53 the increment stops changing the counter, and with an `Infinity` end the loop never ends. That non-termination is not modelled.
- The DOM, alerts and status messages, `FileReader`, blobs and downloads, the clipboard and drag-and-drop are left out. These are I/O. Messages are kept as the error values' texts.
- `JSON.parse` is a parameter and `JSON.stringify` is not modelled. Both are engine built-ins; the decoder returns the value before serialisation.
- JSON numbers are integers. Fractions, exponents and floating-point printing are not modelled.
- Property reads see own members only. Inherited properties such as `toString` are not modelled, and neither is the engine's rule that moves integer-like names to the front of `Object.keys`.
- JsonToCsv.Keys: lists an object's names in order of first appearance. The engine lists array-index names (such as `"0"` or `"2020"`) first, in ascending order, then the other names; for such objects the header order is not modelled.
- CsvToJson.RecordNames: states that a record's members are in header order. The engine keeps array-index names (such as `"2020"`) first in ascending order, and `JSON.stringify` (bckup/convertjason/assets/js/main.js:113) writes them that way; for such headers the written order is not modelled.
- `NullRecord` has no message, because the text of the engine's `TypeError` is not the site's.
- Strings are sequences of characters. UTF-16 surrogate pairs are not distinguished.
- Label position, font size and colour use font metrics and floating point, so they are not modelled. Watermark and signature geometry, colour parsing and image fitting are left out for the same reason.
- The merge, protect, unlock, watermark, PDF-to-JPG, sign and edit handlers, and the tools page's images-to-PDF, merge and watermark, are not part of this model. They are library calls with no logic of their own beyond I/O.
- public/js/main.js is not part of this model. It only fetches the header and footer HTML.
- The sequencing of awaits and the disabling of buttons while a tool runs are left out.
- The QR library's error-correction table is not modelled; the level is kept as the chosen name.
- A tab button without a `data-tab` attribute is not modelled; every tab button is assumed to carry one.
