# pdftrans core, modelled in Dafny

pdftrans is a web service that translates scanned or text PDFs into Chinese.
It works in four stages:

1. An upload is validated and given one of a limited number of processing slots.
2. The pages are recognised (OCR) and translated in batches of three. Each
   call goes through a retry layer with exponential back-off.
3. The per-page results are reassembled in page order. A small built-in writer
   produces a new PDF with a CJK font and UTF-16BE hex text.
4. The finished document is stored in a task table that clients poll.

This project models the sequential core of that system and proves what each
part promises:

- **`PdfText`** (`pdf_text.dfy`) holds the readers of `src/pdf.rs`:
  - the literal-string escape decoder;
  - the hex-string decoder, which tries UTF-16BE and falls back to UTF-8;
  - the `Tj`/`TJ` text-operator extractor;
  - the line-oriented `BT`/`ET` state machine over a content stream.

  Each loop is a method proved equal to a specification function. The
  properties are proved about those functions:
  - escaping round-trips;
  - the extractor returns exactly the text of a `(…) Tj` line;
  - the state machine keeps exactly the text of the closed `BT … ET` blocks,
    joined by one newline.
- **`PdfWriter`** (`pdf_writer.dfy`) holds the writer's line wrapping,
  UTF-16BE hex encoding, page streams and pagination:
  - lines are at most 81 width units, with ASCII counting 1 and any other
    character 2;
  - a page has at most 46 lines.

  The hex encoder round-trips through the reader's hex decoder for
  Basic Multilingual Plane (BMP) text.
- **`PdfDocument`** (`pdf_document.dfy`) holds `SimplePdf` and `render`.
  Render lays out:
  - the catalog, the page tree, the font, and a page object plus a content
    object per page;
  - the cross-reference table (one entry per object), and the trailer with
    `startxref`.

  The model proves the following facts about that layout:
  - every recorded offset is where its object starts;
  - the offsets strictly increase;
  - page `k` is object `4 + 2k`;
  - `startxref` points at `xref`.
- **`Retry`** (`retry.dfy`) holds `with_retry` and the error classification of
  `src/translate.rs`, plus the Chinese-character count and the empty-input
  exit of `translate_text`.
- **`TaskState`** (`task_state.dfy`) holds the task table of `src/state.rs`.
  It is a class over a map whose setters silently ignore unknown ids and
  change only their own entry.
- **`Pipeline`** (`pipeline.dfy`) holds the control logic of `src/main.rs`:
  - upload validation and slot release on every rejection path;
  - the `TaskGuard` that gives the slot back;
  - the batch scheduler, whose concurrency is abstracted as explained below;
  - the result collection by page number;
  - the retry path's pending-page filter, with `finish_retry` called on every
    exit.

  The concurrency is abstracted as follows:
  - the join order of each batch phase is an input permutation;
  - the cancellation flag is an input function, indexed by how many times the
    flag has been read.

`Wrappers`, `Strings` and `Seqs` hold shared datatypes and general lemmas:
- `Option`, `Result`, and `Run`, which stands for "returns a value or panics";
- the parts of Rust's `str` API the model relies on;
- generic sequence lemmas.

Panics of the source are values of `Run`, so that contracts can say exactly
which inputs panic.

The shown `src/state.rs` is an older revision than `src/main.rs`:
- it has no `Processing` status;
- `create_task` takes no file name;
- it has none of the slot, cancellation or retry-marker functions.

The model follows the code as shown. The registry functions that `main.rs`
calls are modelled by the small `Pipeline.Registry` class, which has a slot
counter, the set of tasks being retried, and a record of `finish_retry`
calls.

## Model

| member | source | states |
|---|---|---|
| PdfText.DecodePdf | src/pdf.rs:193-215 | the decoded literal string is never longer than its body |
| PdfText.DecodePlain | src/pdf.rs:193-215 | a string without `\` decodes to itself |
| PdfText.DecodeEscapeRoundTrip | src/pdf.rs:193-215 | escaping any text (`\`, `(`, `)`, newline, return, tab) and decoding gives the text back: `\n \r \t \\ \( \)` map to their characters |
| PdfText.DecodeEscape | src/pdf.rs:199-209 | an escape `\c` decodes to one character followed by the decoding of the rest: a control character for `n`, `r`, `t`, and `c` itself for every other `c` |
| PdfText.DecodeDropsTrailingBackslash | src/pdf.rs:199-209 | a lone `\` at the end of the body is dropped |
| PdfText.DecodePdfString | src/pdf.rs:193-215 | the character loop computes exactly the decoded value |
| PdfText.ParseHex | src/pdf.rs:225 | `from_str_radix(_, 16)` (a leading `+` allowed) yields a value below 16^len |
| PdfText.UnitChars | src/pdf.rs:225-229 | a four-digit group gives at most one character; surrogates are dropped |
| PdfText.Utf16CharsAppend | src/pdf.rs:224-231 | decoding groups of four digits distributes over concatenation |
| PdfText.HexBytes | src/pdf.rs:235-238 | the UTF-8 fallback reads bytes below 256, two digits each |
| PdfText.DecodeHex | src/pdf.rs:218-240 | hex text whose length, spaces removed, is odd always panics in the byte fallback |
| PdfText.CollectUtf16 | src/pdf.rs:223-230 | the group loop collects exactly the decoded UTF-16 characters |
| PdfText.DecodeHexString | src/pdf.rs:218-240 | the method returns exactly the hex decoder's value, including its panics |
| PdfText.SkipString | src/pdf.rs:156-162 | the string scan in a `TJ` array stops at the end or at an unescaped `)` |
| PdfText.SkipHex | src/pdf.rs:169-172 | the hex scan stops at the first `>` or at the end |
| PdfText.Piece | src/pdf.rs:155-181 | each element of a `TJ` array advances the index |
| PdfText.ScanPiece | src/pdf.rs:155-181 | one step of the `TJ` loop computes exactly the element's text and the next index |
| PdfText.ScanStringPiece | src/pdf.rs:155-167 | a `( … )` element gives its decoded body, or panics when a trailing `\` runs the index past the end |
| PdfText.ScanHexPiece | src/pdf.rs:168-179 | a `< … >` element gives its decoded text when it decodes, and nothing otherwise |
| PdfText.ScanTextArray | src/pdf.rs:149-182 | the index loop over a `TJ` line computes the concatenated decoded pieces, or panics exactly when the source slices out of range |
| PdfText.TjRoundTrip | src/pdf.rs:129-137 | the extractor returns exactly `s` for the line `(escape(s)) Tj` |
| PdfText.SkipEscaped | src/pdf.rs:156-162 | the string scan over a body written by the escaper stops exactly at the `)` that follows it, since every `)` and `\` inside is escaped |
| PdfText.PieceEscaped | src/pdf.rs:155-167 | a `( … )` element whose body is an escaped string yields that string and continues after the `)` |
| PdfText.ScanSkips | src/pdf.rs:154-181 | characters other than `(` and `<` add nothing to the `TJ` text |
| PdfText.TJRoundTrip | src/pdf.rs:149-187 | the line `[(escape(a)) -250 (escape(b))] TJ` yields `a + b`, or nothing when both are empty |
| PdfText.HexTjLine | src/pdf.rs:138-146 | a `<body> Tj` line whose body has no `(`, `<` or `>` skips the literal branch and yields exactly the hex decoding of the body |
| PdfText.TjLineParts | src/pdf.rs:129-134 | the first `(` and the last `)` of a `(…) Tj` line enclose exactly its body |
| PdfText.ExtractTextOperator | src/pdf.rs:125-190 | the method returns exactly the extractor's value for `Tj`, hex `Tj` and `TJ` lines, and panics when `)` precedes `(` |
| PdfText.ExtractTextFromContent | src/pdf.rs:88-122 | the line loop returns exactly the state machine's text |
| PdfText.ScanLine | src/pdf.rs:94-118 | one line is one step of the state machine |
| PdfText.PanicPersists | src/pdf.rs:113-117 | a panic on some line ends the whole scan |
| PdfText.SplitAtET | src/pdf.rs:100-109 | cutting the lines at `ET` gives at least one piece |
| PdfText.NonEmpty | src/pdf.rs:102 | only non-empty block texts are appended |
| PdfText.JoinEmpty | src/pdf.rs:103-105 | joining non-empty texts is empty exactly when there are none |
| PdfText.ScanIsBlockwise | src/pdf.rs:88-122 | the scan's state after any lines is determined block by block: the closed blocks joined by newline, whether a `BT` is open, and the open block's text |
| PdfText.ExtractTextIsBlockwise | src/pdf.rs:88-122 | the extracted text is the non-empty texts of the `ET`-closed blocks joined by exactly one newline; each block takes only the lines after a `BT`, and an unclosed block is discarded |
| PdfText.ScanSilent | src/pdf.rs:96-117 | lines that contribute no operator text leave the text empty |
| PdfText.OpTextOtherEnd | src/pdf.rs:128-187 | a line ending in neither `j` nor `J` yields no text |
| PdfWriter.WrapFoldInvariant | src/pdf.rs:467-480 | the loop state always spells the input so far, with full, fitting, non-empty closed lines |
| PdfWriter.WrapNeverEmpty | src/pdf.rs:462-491 | the result is never empty, and it is `[""]` exactly for empty input |
| PdfWriter.WrapLines | src/pdf.rs:467-484 | for non-empty input the lines concatenate back to it, none is empty, each fits 81 units unless it is a single character, and each line was broken only because the next character did not fit |
| PdfWriter.WrapText | src/pdf.rs:462-491 | the loop computes exactly the wrapped lines |
| PdfWriter.HexDigit | src/pdf.rs:500 | an uppercase hex digit that the decoder reads back as its value |
| PdfWriter.High | src/pdf.rs:503 | the high surrogate lies in D800..DBFF |
| PdfWriter.Low | src/pdf.rs:504 | the low surrogate lies in DC00..DFFF |
| PdfWriter.CharHex | src/pdf.rs:499-508 | a BMP character gives 4 digits, and any other character gives 8 |
| PdfWriter.Hex4Parses | src/pdf.rs:500 | `{:04X}` parses back to its value |
| PdfWriter.CharHexUnits | src/pdf.rs:499-508 | a BMP character's digits decode to that character; a surrogate pair decodes to nothing |
| PdfWriter.UnitsHexUnits | src/pdf.rs:493-509 | the encoded units decode to the BMP characters of the text |
| PdfWriter.Utf16HexShape | src/pdf.rs:493-509 | the output is all uppercase hex, and its length is 4 + 4 per BMP character + 8 per supplementary character |
| PdfWriter.BomHex | src/pdf.rs:495 | for every input string, the encoded text is at least four digits long and its first four are `FEFF`, the upper-case four-digit hex of the byte order mark U+FEFF |
| PdfWriter.Utf16HexRoundTrip | src/pdf.rs:493-509 | decoding the hex of `s` gives U+FEFF followed by `s` without its supplementary characters |
| PdfWriter.HexTjRoundTrip | src/pdf.rs:138-146 | the extractor reads the line `<hex(s)> Tj` as U+FEFF followed by the BMP characters of `s` |
| PdfWriter.ToUtf16BeHex | src/pdf.rs:493-509 | the loop computes exactly the BOM followed by every character's code units |
| PdfWriter.PreambleText | src/pdf.rs:445-448 | the stream starts with `BT`, `/F1 11 Tf`, `16 TL` and `1 0 0 1 50 792 Tm` |
| PdfWriter.CreatePageStream | src/pdf.rs:443-460 | the loop computes exactly the preamble, one `T*` or `<hex> Tj T*` line per text line, and `ET` |
| PdfWriter.PageStreamLines | src/pdf.rs:443-460 | splitting the stream into lines gives back exactly its lines |
| PdfWriter.WrittenPageHasNoText | src/pdf.rs:88-122 | the text extractor finds no text in a page stream this writer produced |
| PdfWriter.PageFoldInvariant | src/pdf.rs:422-434 | the pagination loop keeps full finished pages and a non-overfull current page that spell the lines so far |
| PdfWriter.PaginateIsChunks | src/pdf.rs:422-438 | the pages are the consecutive 46-line chunks of the wrapped lines, or a single empty page |
| PdfWriter.PaginateProperties | src/pdf.rs:407-441 | there is at least one page, the pages concatenate to the wrapped lines, each page has at most 46 lines, all pages but the last are full, and there is one empty page exactly for empty content |
| PdfWriter.PushWrapped | src/pdf.rs:423-431 | the wrapped lines of one content line extend the pages exactly as pagination does, closing a full page first |
| PdfWriter.PreparePages | src/pdf.rs:407-441 | the nested loop computes exactly the page streams of the paginated wrapped lines |
| PdfDocument.Utf8Char | src/pdf.rs:384 | a character takes 1 to 4 bytes, and an ASCII character is its own code |
| PdfDocument.Utf8Append | src/pdf.rs:384 | the UTF-8 bytes of a concatenation are the concatenated bytes |
| PdfDocument.Objects | src/pdf.rs:343-384 | there are 3 + 2n objects for n page streams |
| PdfDocument.ObjectsAt | src/pdf.rs:367-384 | page `i` is written as its page object, then its content object |
| PdfDocument.DocumentMagic | src/pdf.rs:338 | the document starts with `%PDF` |
| PdfDocument.OffsetsAt | src/pdf.rs:343-384 | the offset recorded for an object is the length of the header plus the objects before it |
| PdfDocument.ObjectAtOffset | src/pdf.rs:343-400 | each recorded offset is the byte index where that object occurs in the document |
| PdfDocument.DocumentOffsetsIncrease | src/pdf.rs:343-384 | the recorded offsets strictly increase |
| PdfDocument.FixedNumbered | src/pdf.rs:343-365 | the first three objects are numbered 1, 2, 3 |
| PdfDocument.PageNumbered | src/pdf.rs:367-384 | page `i` is object `4 + 2i`, and its content is object `5 + 2i` |
| PdfDocument.XrefFound | src/pdf.rs:387-400 | there are 3 + 2n entries, and `startxref` is the byte index of `xref` |
| PdfDocument.WriteObjects | src/pdf.rs:337-384 | the object loop produces the header and all objects, and records each object's offset |
| PdfDocument.WriteEntries | src/pdf.rs:390-393 | the entry loop appends one entry per offset |
| PdfDocument.WriteDocument | src/pdf.rs:336-404 | the writer produces exactly the document layout |
| PdfDocument.SimplePdf.constructor | src/pdf.rs:325-327 | a new writer has no content |
| PdfDocument.SimplePdf.AddContent | src/pdf.rs:329-334 | non-empty content gets a blank line, then the text |
| PdfDocument.SimplePdf.Render | src/pdf.rs:336-404 | render always succeeds with the document of the prepared pages |
| PdfDocument.GeneratePdf | src/pdf.rs:310-318 | the result is the document of all pages' texts accumulated |
| PdfDocument.AccumulatedIsJoin | src/pdf.rs:313-333 | the accumulated content is the texts joined by a blank line, leading empty texts skipped |
| Retry.ClassifyHttpStatus | src/translate.rs:180-186 | retryable if and only if the status is 5xx; the message carries the status and the body |
| Retry.ClassifyTransportError | src/translate.rs:172-178 | retryable if and only if a timeout or a connection error, each with its message prefix |
| Retry.BaseDelay | src/translate.rs:197 | the bases are 1, 2 and 4 s, and 4 s beyond |
| Retry.DelayBounds | src/translate.rs:210-216 | every wait lies within ten per cent of its base (900 to 4400 ms), so the 100 ms floor never applies |
| Retry.WithRetry | src/translate.rs:188-229 | the loop's run is as specified: at most `max_retries + 1` calls; the first success is returned; a non-retryable error is returned at once without sleeping; the last retryable error is returned with ` (已重试 N 次)` without sleeping; every earlier failure is followed by its wait |
| Retry.RetryRanUnique | src/translate.rs:188-229 | the run is determined by the call outcomes and the draws |
| Retry.RetrySucceeds | src/translate.rs:199-208 | the result is `Ok` exactly when the last call succeeded, with its value; a retryable failure ends the run only at the last allowed attempt |
| Retry.RetryWaits | src/translate.rs:210-216 | every recorded wait is within ten per cent of its base |
| Retry.CountChineseChars | src/translate.rs:146-155 | the count is at most the number of characters |
| Retry.CountChineseAppend | src/translate.rs:146-155 | counts add up over concatenation |
| Retry.CountChineseNone | src/translate.rs:146-155 | the count is zero exactly when no character is in the three CJK ranges |
| Retry.CountChineseAll | src/translate.rs:146-155 | the count equals the length exactly when all characters are in the ranges |
| Retry.TranslateText | src/translate.rs:107-142 | whitespace-only text gives `Ok("")` with no call and no wait; otherwise the trimmed text goes through the retry loop with 3 retries |
| TaskState.Set | src/state.rs:63-109 | a setter is a no-op for an unknown id, changes only the named entry, and adds or removes no key |
| TaskState.AppliedStatus | src/state.rs:27-29 | each setter moves its task to its own status; `is_done` holds exactly after `set_complete` or `set_error` |
| TaskState.AppliedPages | src/state.rs:63-94 | `set_rendering` sets the total; `set_recognizing`/`set_translating` set both counters; the other setters keep both |
| TaskState.AppliedDocument | src/state.rs:96-109 | only `set_complete` stores a document; `set_error` keeps it and records its message exactly |
| TaskState.ProgressOf | src/state.rs:111-113 | progress is `Some` exactly for a known id, and is that task's record |
| TaskState.PdfDataOf | src/state.rs:115-117 | a document is returned exactly for a known id that has one |
| TaskState.AppState.GetProgress | src/state.rs:111-113 | the task table's progress lookup: `Some` exactly for a known id, with that task's record |
| TaskState.AppState.GetPdfData | src/state.rs:115-117 | the task table's document lookup: a document exactly for a known id that stored one |
| TaskState.CompleteThenFetch | src/state.rs:96-117 | after `set_complete` the document is fetched back, the task is done, and later setters keep the document |
| TaskState.CreatedTask | src/state.rs:50-61 | a new task is rendering, with zero counters and no document, and is not done |
| TaskState.AppState.constructor | src/state.rs:43-48 | the table starts empty |
| TaskState.AppState.CreateTask | src/state.rs:50-61 | the entry is replaced by the initial record |
| TaskState.AppState.SetRendering | src/state.rs:63-69 | the table after the call is the setter applied to the table before |
| TaskState.AppState.SetRecognizing | src/state.rs:71-78 | the table after the call is the setter applied to the table before |
| TaskState.AppState.SetTranslating | src/state.rs:80-87 | the table after the call is the setter applied to the table before |
| TaskState.AppState.SetGenerating | src/state.rs:89-94 | the table after the call is the setter applied to the table before |
| TaskState.AppState.SetComplete | src/state.rs:96-102 | the table after the call is the setter applied to the table before |
| TaskState.AppState.SetError | src/state.rs:104-109 | the table after the call is the setter applied to the table before |
| Pipeline.Registry.TryAcquireSlot | src/main.rs:61-66 | a slot is taken exactly when one is free |
| Pipeline.Registry.ReleaseSlot | src/main.rs:64-113 | one slot is given back |
| Pipeline.Registry.FinishRetry | src/main.rs:416 | the task leaves the retrying set, and the call is recorded |
| Pipeline.TaskGuard.Drop | src/main.rs:351-359 | dropping the guard gives back exactly one slot |
| Pipeline.CheckUpload | src/main.rs:55-88 | accepted exactly when at most 50 MiB and starting with `%PDF`, with each rejection's message |
| Pipeline.RenderedUploadAccepted | src/main.rs:85 | every document the writer renders passes the magic check |
| Pipeline.FirstFile | src/main.rs:68-109 | no file is found only if every field was read and none was named `file` |
| Pipeline.Admission | src/main.rs:68-113 | accepted exactly for a valid file that was saved; rejections are 400, or 500 when saving fails |
| Pipeline.Upload | src/main.rs:57-114 | when busy: 429 and no slot taken; otherwise the admission answer; the slot is kept exactly on success, so every rejection gives it back; a task is created exactly for a valid file |
| Pipeline.OcrUnit | src/main.rs:214-248 | an OCR unit succeeds exactly when it was not cancelled and recognition succeeded, with the page and its text; otherwise it fails with "任务已取消" when cancelled, or with "第 p 页 OCR 失败: e" |
| Pipeline.TranslateUnit | src/main.rs:292-314 | a translation unit succeeds exactly when it was not cancelled and translation succeeded, with the page and its translation; otherwise it fails with "任务已取消" when cancelled, or with "第 p 页翻译失败: e" |
| Pipeline.JoinPhase | src/main.rs:256-285 | the join loop collects results in completion order, stopping at the first cancellation or failure, with that error |
| Pipeline.Batch | src/main.rs:183 | a batch has 1 to 3 pages |
| Pipeline.BatchIsChunk | src/main.rs:196-203 | batch `b` is the `b`-th consecutive chunk of three pages |
| Pipeline.BatchCovered | src/main.rs:287-327 | a batch whose phases both completed has one result per page |
| Pipeline.OcrStop | src/main.rs:251-281 | a recognition phase that stops at a joined unit stops with the cancellation message after a read answered true, or with the recognition failure of a page of the batch, and with the latter whenever none of its reads answered true |
| Pipeline.TranslatePhase | src/main.rs:283-344 | the translation phase yields only translated pages of the batch, one per page when it has no error and fewer when it stops; its error has a reason among the batch's pages and its reads; when every page translates and no read answers true it has no error |
| Pipeline.RunBatch | src/main.rs:202-344 | a batch is translated only after every OCR unit succeeded; without error it yields one translated result per page, and with an error fewer; an error is either the cancellation message after some flag read answered true, or the failure message of one of its pages; when every page succeeds and no read answers true there is no error; when a page's recognition fails, any error other than the cancellation message is a recognition failure of a page of the batch with nothing translated, and with no read answering true the batch always stops that way, before its translation phase |
| Pipeline.NextBatch | src/main.rs:196-344 | one loop pass: a cancellation at the loop head pushes only `Err("任务已取消")` and skips the batch; the pass stops the loop exactly when it pushes an error, which is last and has a reason among the batch's pages and reads; otherwise it pushes one translated result per page of the batch; it never pushes more results than the batch has pages; and when a page of the batch fails recognition and no read answers true, the pass stops having pushed only that recognition failure |
| Pipeline.ProcessPagesParallel | src/main.rs:185-348 | the run is `Scheduled`: at most one `Err`, and it is last; every `Ok` is a recognised and translated page; with no error, exactly one result per page; a final error is the cancellation message after some read answered true, or the failure message of one of the pages; when every page succeeds and no read answers true there is no error; a cancellation at the first loop head gives `[Err("任务已取消")]`, and one at a later loop head ends the results right after the previous batches with that error; batches are translated in order, and only after all their OCR succeeded; a run that ends in an error stopped in the last batch it began, with every earlier batch complete, only that batch's pages after them, and the error's reason within that batch and the reads from its loop head on (when one of its pages fails recognition and no such read answers true, that batch contributes only the recognition failure) |
| Pipeline.NoBatchAfterFailure | src/main.rs:196-344 | the first-error short-circuit: when a page of batch `c` fails and no read answers true, the run ends in an error, no batch after `c` is begun, and at most the results of batches up to `c` are pushed |
| Pipeline.FailedBatchIsLast | src/main.rs:279-281 | a failing page of batch `c` means the run's last batch is no later than `c` |
| Pipeline.EarlierPagesSucceed | src/main.rs:196-344 | in a run that stopped in its last batch, every page of the batches before it was recognised and translated |
| Pipeline.ScheduledOutcome | src/main.rs:185-348 | in a run where no read answered true, the results have no error exactly when every page succeeds, and otherwise the first error is last and is the failure message of one of the pages |
| Pipeline.CompletedResults | src/main.rs:185-348 | results without error mean every page was recognised and translated |
| Pipeline.NumberedResults | src/main.rs:150-153 | pages numbered in `1..=total` give successes numbered in range |
| Pipeline.PushPass | src/main.rs:196-344 | a pass that completes its batch keeps the loop invariant |
| Pipeline.StopPass | src/main.rs:196-344 | a pass that pushes an error leaves a `Scheduled` run, which stopped in that pass's batch |
| Pipeline.StopInBatch | src/main.rs:256-344 | the results of the completed batches followed by a stopping pass's results stop the run in that pass's batch |
| Pipeline.DonePass | src/main.rs:196 | a loop that ran out of pages leaves a `Scheduled` run |
| Pipeline.StopReasonWiden | src/main.rs:196-344 | a reason to stop within one batch and its reads is a reason within all pages and all reads |
| Pipeline.CollectDecides | src/main.rs:141-180 | collecting an uncancelled run with pages numbered in range decides the task |
| Pipeline.MergeDecides | src/main.rs:460-500 | merging an uncancelled run decides the task |
| Pipeline.CollectResults | src/main.rs:147-161 | the loop computes the collection, with one slot per page |
| Pipeline.CollectPlaces | src/main.rs:147-161 | with distinct page numbers in range, each text goes to slot p−1 and the others keep their value |
| Pipeline.CollectOrderFree | src/main.rs:147-161 | the collected vector does not depend on completion order |
| Pipeline.CollectError | src/main.rs:152-158 | the reported error is one of the results |
| Pipeline.CollectInRange | src/main.rs:151 | page numbers in range never panic |
| Pipeline.CollectNoError | src/main.rs:147-161 | collection without error means every result was `Ok` |
| Pipeline.CollectFirstError | src/main.rs:150-159 | the collection loop stops at the first error and reports exactly it, when the successes before it are numbered in range |
| Pipeline.CollectClean | src/main.rs:150-161 | successes numbered in range are collected without error |
| Pipeline.Finish | src/main.rs:167-180 | generation sets `Generating`, then `Complete` with the generated document |
| Pipeline.EndedCompleted | src/main.rs:171-175 | completion changes only the task's own entry, and stores the document |
| Pipeline.EndedFailed | src/main.rs:155-158 | `set_error` records the failure message and touches only the task |
| Pipeline.CollectAndFinish | src/main.rs:141-180 | a failure is one of the results; in-range numbering never panics; completion means no error and no cancellation; without a cancellation at the checks, the first error is recorded as the failure, and results without error complete the task |
| Pipeline.RunPdfTask | src/main.rs:116-181 | a render error and an empty document fail with their messages; completion means every page was recognised and translated; when no flag read answers true and the pages are numbered in range, the task is `Decided`: it completes exactly when every page succeeds, and otherwise fails with the message of a page that failed |
| Pipeline.ProcessAndCollect | src/main.rs:138-181 | the task ends with its table entry updated; in-range numbering never panics; completion means every page succeeded; without cancellation the task is `Decided` |
| Pipeline.ProcessPdfParallel | src/main.rs:116-181 | the guard gives back exactly one slot on every exit, the task table is changed only for this task, the render errors fail with their messages, and an uncancelled task is `Decided` by its pages |
| Pipeline.PendingPages | src/main.rs:432-434 | the filter keeps at most the pages it is given |
| Pipeline.PendingMembers | src/main.rs:432-434 | a page is pending exactly when it is one of the pages and has no translated checkpoint |
| Pipeline.PendingAppend | src/main.rs:432-434 | the filter distributes over concatenation, so it keeps order |
| Pipeline.PendingAll | src/main.rs:432-434 | with no checkpoint, every page is pending |
| Pipeline.MergeAndFinish | src/main.rs:460-500 | `finish_retry` is called once and the outcome is recorded; never panics; a failure is one of the results; completion means no error and no cancellation; without a cancellation at the checks, the first error is recorded as the failure, and results without error complete the task |
| Pipeline.RunRetryTask | src/main.rs:408-501 | exactly the pending pages are processed, in order; with none pending it goes straight to generation; `finish_retry` is called exactly once on every exit; when no flag read answers true, the task is `Decided` by the pending pages |
| Pipeline.NothingPending | src/main.rs:436-450 | with no page pending, completing decides the task |
| Pipeline.ProcessAndMerge | src/main.rs:458-501 | `finish_retry` is called once, the task ends, never panics, completion means every pending page succeeded, and without cancellation the task is `Decided` |
| Pipeline.ProcessRetry | src/main.rs:408-501 | the slot is given back, `finish_retry` is called exactly once, the task is no longer retrying, and an uncancelled retry is `Decided` by its pending pages |

## Left out

- I/O and external processes are not modelled: rendering through `pdftoppm`, `lopdf` parsing, temporary directories, `find_page_image`, `process_pdf_pages` and `extract_page_text`. The model takes their outcome as an input: `rendered` is the page list or the error message.
- HTTP and JSON are not modelled. The translation and recognition services are input functions, and `with_retry`'s operation is a function from attempt number to outcome.
- Concurrency is not modelled: `tokio::spawn`, `JoinSet`, `abort_all` and the locks are absent. Each batch phase runs sequentially, its join order is an input permutation, and cancellation is an input read at each check point. A unit that panics (a `JoinError`, with the messages "OCR 任务执行错误" and "翻译任务执行错误") is not modelled.
- The random jitter is an input (`draw`), and sleeping is recorded as a list of delays.
- `translate_text`'s `> 0.7` Chinese-ratio skip uses floating point. It is the input flag `mostlyChinese`. The `f32` heuristics of `is_text_valid` are left out.
- Prompt text, the API request and `call_api_inner` are not modelled.
- Logging (`eprintln!`, `println!`, `add_log`) is not modelled.
- `config.rs` and the routes, the multipart parser, the SSE progress loop, `download`, `list_tasks` and `get_page_detail` are not part of this model.
- The `f64` layout arithmetic is replaced by the integers it evaluates to: 81 width units per line, 46 lines per page, and the preamble `/F1 11 Tf`, `16 TL`, `1 0 0 1 50 792 Tm`.
- `create_task`'s file-name argument (in `main.rs`'s newer signature) is not modelled.
- `set_processing`, `init_retry_progress`, `get_completed_page_count`, the per-page checkpoint saves and `try_start_retry` are not modelled. The checkpoints already on disk are inputs: `onDisk` for the pending filter and `stored` for the page texts that generation reads.
- `Pipeline.Busy`: the message names the registry's limit, which stands for `MAX_CONCURRENT_TASKS`.
- `PdfText.DecodeHex`: any non-ASCII hex text is treated as a panic. Rust panics only when a slice boundary falls inside a multi-byte character, so this over-approximates the panicking inputs.
- `PdfDocument.GeneratePdf`: `render` never fails, so the "生成 PDF 失败" branch of the processing tasks is unreachable and not modelled.
- `PdfWriter.Utf16HexRoundTrip`: supplementary characters are lost on the way back, because their surrogate code units are not characters. The round trip is stated for the BMP part.
- `PdfWriter.WrittenPageHasNoText`: the writer emits `<hex> Tj T*`, while the reader only looks at lines ending in `Tj` or `TJ`. So the service's own output yields no text when read back. This is stated as a property, not as a defect, since the reader targets uploaded documents.
- `PdfText.ExtractTextFromContent`: it works on the stream already decoded to text, so `from_utf8_lossy` is not modelled.
- `Pipeline.RunPdfTask`: the `translated_texts` vector is modelled through its errors and its length. Generation reads the stored page texts (`stored`), as the source does when it reloads them.
