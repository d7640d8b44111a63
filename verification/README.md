# Vision OCR request pipeline, modelled in Dafny

The app takes one dropped image and sends it to a local vision-language model server (Ollama's `/api/chat`) with a fixed instruction prompt. It reads the streamed reply, which is newline-delimited JSON, and joins the `message.content` fragments into the extracted text. It then records that text as a scan in a newest-first history. This project models that pipeline as pure functions over explicit state, and proves what the pipeline promises about the text it assembles, the errors it reports, and the history it keeps.

Modules:

- `Wrappers` (`wrappers.dfy`): `Option` and `Result`.
- `JsText` (`js_text.dfy`): the JavaScript string operations the pipeline relies on, written out. These are `trim` with ECMAScript's whitespace set, `split` on one character (with `Join` as its inverse for the round-trip lemmas), decimal rendering of a number inside a template literal, and `+=` concatenation.
- `ChatStream` (`chat_stream.dfy`): `processImage`. A reply is either a rejected `fetch` or a response with a status, its body as decoded chunks, and an optional read error. `JSON.parse` is abstracted as a finite map from the lines that parse to what their `message?.content` holds. A line outside the map is one whose parse throws. `StreamText` is the reference definition of the extracted text. It is the concatenation of every line's fragment, in chunk order and then line order. `ReadStream` is the reader's nested loop, and it is proved equal to `StreamText`.
- `DataUrl` (`data_url.dfy`): the payload `dataUrl.split(',')[1]`.
- `Scanner` (`scanner.dfy`): the `onDrop` state machine over `{history, loading, currentResult, error}`. It covers a whole submission, runs of submissions, and the "Previous Scans" list.

## Model

| member | source | states |
|---|---|---|
| JsText.Trim | src/App.jsx:86 | `trim` returns the input with its leading and trailing whitespace removed: a contiguous infix of the input, preceded and followed only by whitespace, with no whitespace at either end of its own |
| JsText.TrimEmptyIffBlank | src/App.jsx:86 | `!s.trim()` holds exactly when every character of `s` is JavaScript whitespace (the same test guards the result at line 99) |
| JsText.Split | src/App.jsx:83 | `split` yields at least one field; it yields exactly one field exactly when the separator is absent, and that field is then the whole string |
| JsText.SplitFieldsLackSeparator | src/App.jsx:83 | no field of a split contains the separator |
| JsText.SplitFirstField | src/App.jsx:83 | the first field is the text up to the first separator, or the whole string when there is none |
| JsText.JoinSplit | src/App.jsx:83 | splitting a chunk into lines loses no character: joining the lines with newlines restores the chunk |
| JsText.SplitJoin | src/App.jsx:83 | splitting inverts joining for fields free of the separator |
| JsText.SplitAround | src/App.jsx:83 | a separator splits a string into the fields of its left part followed by the fields of its right part |
| JsText.DecimalRoundTrip | src/App.jsx:69 | the status printed in the error message reads back as the same number |
| ChatStream.LineFragment | src/App.jsx:86-95 | a blank line adds nothing; a line that does not parse adds nothing; a parsed record whose `message.content` is missing or falsy adds nothing; a non-blank line with truthy content adds that content, and a string content exactly that string |
| ChatStream.ReadChunk | src/App.jsx:80-96 | reading one chunk appends exactly that chunk's own text, computed with no state from other chunks |
| ChatStream.ReadStream | src/App.jsx:73-97 | the text returned is the concatenation of every line's fragment, in chunk order and then line order |
| ChatStream.StreamTextSnoc | src/App.jsx:77-97 | one more chunk adds exactly that chunk's own text at the end |
| ChatStream.StreamTextAppend | src/App.jsx:77-97 | no buffer is carried between chunks: the text of a stream is the text of any prefix of its chunks followed by the text of the rest |
| ChatStream.ChunkTextAroundLine | src/App.jsx:83-96 | a line between two newlines contributes exactly its own fragment, between the text before it and the text after it |
| ChatStream.MalformedLineDropped | src/App.jsx:87-95 | a line that does not parse neither stops the stream nor appears in the text; the lines around it still count |
| ChatStream.BlankLineSkipped | src/App.jsx:86 | a blank line contributes nothing |
| ChatStream.InterleavedMalformedLine | src/App.jsx:83-96 | lines `A`, a broken line and `B` give exactly "AB" |
| ChatStream.SplitRecordDropped | src/App.jsx:81-95 | a record split across two chunks is never reassembled; both halves are dropped and the following lines still count |
| ChatStream.WholeRecordKept | src/App.jsx:81-95 | the same bytes inside one chunk do contribute the record's fragment |
| ChatStream.ProcessImage | src/App.jsx:66-110 | a rejected fetch, or a body read that rejects, reports its own error; success needs an ok status and returns the stream text verbatim and non-blank; an ok, fully read stream fails exactly when its text is blank, with "No text was extracted from the image"; a fully read non-ok response fails with "Failed to process image: " + status + " " + body |
| ChatStream.NoContentFails | src/App.jsx:84-101 | an ok, fully read reply in which every line is blank, does not parse, or carries no truthy content fails with "No text was extracted from the image" |
| ChatStream.StatusShortCircuits | src/App.jsx:66-70 | a non-ok status fails whatever the parser, so no line of the body is parsed |
| ChatStream.StatusErrorInjective | src/App.jsx:69 | the status error message determines the status and the body text it was built from |
| DataUrl.Payload | src/App.jsx:135 | there is a payload exactly when the data URL holds a comma, and the payload holds no comma |
| DataUrl.PayloadFollowsFirstComma | src/App.jsx:135 | the payload is the text from just after the first comma up to the next comma or the end |
| DataUrl.PayloadAfterOnlyComma | src/App.jsx:135 | when the first comma is the only one, the payload is everything after it |
| DataUrl.PayloadOfBase64DataUrl | src/App.jsx:134-135 | for `data:<mime>;base64,<base64>` the payload is exactly the base64 text |
| Scanner.Begin | src/App.jsx:124-129 | an empty file list changes nothing; otherwise loading starts and the error is cleared, with history and current result untouched |
| Scanner.Recognize | src/App.jsx:132-163 | a failed file read reports "Failed to read the image file"; a data URL without a comma fails before any request; with a payload the outcome, message included, is exactly that of `processImage`; success happens exactly when there is a payload and processing succeeds, and yields the non-blank stream text of an ok reply |
| Scanner.Submit | src/App.jsx:124-166 | an empty file list changes nothing; otherwise loading ends. Success shows a new scan built from the clock id, the extracted text, the locale timestamp, the object URL and the first file's name, clears the error, and puts the scan in front of the unchanged history. Failure keeps history and current result and shows the message |
| Scanner.InitialConsistent | src/App.jsx:8-11 | the page starts at rest, with empty history and no scan on show |
| Scanner.SubmitKeepsConsistent | src/App.jsx:141-163 | after any submission the scan on show is the newest in the history, and there is one exactly when the history is non-empty |
| Scanner.RunExtendsHistory | src/App.jsx:150 | after any run of submissions the history is the new scans, newest first, in front of the old history |
| Scanner.RunKeepsConsistent | src/App.jsx:141-163 | the scan on show stays the newest over any run, and a run started at rest ends at rest |
| Scanner.FailedRunKeepsHistory | src/App.jsx:151-163 | failed submissions of any kind leave history and current result exactly as they were |
| Scanner.PreviousScans | src/App.jsx:319-331 | the list is shown exactly when the history holds more than one scan, and it is the history without its first scan |
| Scanner.PreviousScansAfterSuccess | src/App.jsx:141-150 | after a success the previous scans are exactly the old history, shown when it was non-empty |
| Scanner.ScreenShowsWholeHistory | src/App.jsx:264-331 | in a consistent state with at least one scan, the current-result panel is rendered exactly when nothing is loading; then the rendered scan, followed by the previous scans when they are listed, is the whole history, while loading no current scan is rendered |

## Left out

- Building the request is left out: the model name, the fixed instruction prompt, and the `temperature` and `max_tokens` options (src/App.jsx:19-54). They are constants with no logic.
- The server is an external collaborator. Its reply is a parameter and does not depend on the payload.
- `fetch`, the stream reader and `TextDecoder` are browser I/O. The body arrives as already-decoded chunks. A multi-byte character split between chunks, which the non-streaming `decode(value)` would garble, is not represented.
- A response with a null body, where `getReader` would throw, is not represented.
- `JSON.parse` itself is left out. It is abstracted as a finite map from the reply's lines to the `message?.content` value each parsed line holds.
- ChatStream.LineFragment: the string coercion of non-string content is supplied by the parser abstraction rather than computed. Examples are a number, or an object as "[object Object]".
- The `done` field of the reply records is never read by the code, so it is not modelled. The stream ends only when the transport ends.
- `FileReader.readAsDataURL` and base64 encoding are left out. How a read ends is a parameter (`FileRead`).
- `Date.now()`, `toLocaleString()` and `URL.createObjectURL` are left out. They are passed in as a `Stamp`.
- Scanner.Recognize: the message for a data URL without a comma is V8's TypeError wording. Other engines word it differently.
- The code does not check the MIME type itself; the drop-zone library filters files using the list in src/config.js:1. That is library behaviour and is not modelled.
- Errors are modelled as plain message strings because the code only ever reads `error.message`; it has no typed error kinds.
- A data URL without a comma is not rejected up front by the code: it fails when it reads `.length` of the missing payload, and the model reports that TypeError's message.
- The code never cancels the body reader after a failed read, so no cancellation is modelled.
- The clipboard copy, its `copySuccess` feedback and `setTimeout`, all `console` logging, and the rendering apart from the previous-scans rule are left out.
- Overlapping submissions are not modelled. `Submit` runs one submission to completion, and `Run` composes submissions one after another. The code has no guard against a drop while loading, and no cancellation or connection-release logic to model.
- `create_test_image.py` is left out. It is a test-image generator outside the pipeline.
- The UI constants in src/config.js are left out.
- Strings are sequences of Unicode characters, not UTF-16 code units. Every character the pipeline inspects is in the Basic Multilingual Plane.
