# Medical document portal backend, modelled in Dafny

This project models the Django backend of a small medical-document portal. Users upload PDF
files, list them, download them inline, delete them and ask an AI service (the Mistral chat
completions API) to analyse one. The modelled code lives in `backend/documents/`:

- **`validators.py`**:
  - the upload rules: filename safety, `.pdf` extension, a 10 MiB size cap and the MIME type,
    checked in that order, first failure wins;
  - the content probe on the saved file;
  - the document-id check;
  - the filename sanitiser.
- **`serializers.py`**:
  - the upload serializer: DRF's `FileField` parsing, then `validate_file`, then `validate`;
  - the field sets of the list serializer and the detail serializer.
- **`utils.py`**: the file store and the record table, modelled as one class `Utils.Storage`.
  - It holds a map from path to bytes and a map from id to row.
  - The auto-increment id counter and a token counter stand in for `uuid4`.
  - A ghost log records every `save()` of a row, in order.
- **`models.py`**: the `Document` row:
  - its defaults;
  - the four-valued `analysis_status`;
  - the newest-first ordering;
  - `__str__`;
  - the overridden `delete`, which is `Utils.Storage.DeleteDocument`.
- **`exceptions.py`**: `custom_exception_handler`, which maps a framework response or a custom
  exception to the `{error, message, details, status_code}` envelope.
- **`ai_analyzer.py`**:
  - construction from `MISTRAL_API_KEY`;
  - page-by-page text extraction;
  - the prompt, with its 12000-character excerpt, and the request;
  - the `processing → completed | failed` lifecycle of `analyze_document`.
- **`views.py`**: the upload, list, download, delete, analyze and get-analysis handlers. Each is a
  method on the store that returns an HTTP status and a body.

Files:

- `wrappers.dfy`: `Option`, `Result` and `Outcome`.
- `strings.dfy`: the Python string built-ins the code uses:
  - `lower`, `isalnum`, `isspace`, `strip`;
  - `str(int)` and `int(...)` on digit strings;
  - `rfind` and `os.path.splitext`.
- `validators.dfy`, `serializers.dfy`, `models.dfy`, `utils.dfy`, `exceptions.dfy`, `analyzer.dfy`
  and `views.dfy`: one module per source file.

How the outside world is modelled:

- **Passed in as parameters:**
  - the clock (`now`);
  - the configured API key;
  - what `python-magic` reports (`Validators.ContentProbe`);
  - what PyPDF2 reads from a file (`Analyzer.PdfReader`, the page texts or an error);
  - what the Mistral endpoint answers (`Analyzer.ChatApi`);
  - where writing an upload to disk raises, if anywhere (`Utils.SaveFault`: the open, or the
    write of a given 64 KiB chunk), and whether the database insert raises (`dbFailure`).
- **Parameters typed by the URL route:** the views take `id: nat`, because the route
  `<int:document_id>` only passes non-negative integers. `Validators.ValidateDocumentId` models
  every outcome of `int(...)` on its argument as well.

Facts about the code that shape the model:

- **Upload rule order.** `validate_uploaded_file` checks safety, then extension, then size, then
  MIME (backend/documents/validators.py:162-173).
- **Status domain.** `analysis_status` has exactly the four values `pending`, `processing`,
  `completed` and `failed` (backend/documents/models.py:15-25).
- **Empty uploads.** A 0-byte upload is rejected by DRF's `FileField` ("The submitted file is
  empty."), before the validators run.
- **A failed write is not cleaned up.** The upload handler only removes a file once
  `save_file` has returned its path (backend/documents/views.py:97), so a write that raises
  part-way leaves the chunks already written on disk.
- **Test expectations.**
  - Several test expectations disagree with the code:
    - the validator messages;
    - `attachment`, where the code uses `inline`;
    - a bare list from the list endpoint, where the code returns `{documents, count}`.
  - The code's behaviour is modelled.

## Model

| member | source | states |
|---|---|---|
| Strings.SplitExt | backend/documents/validators.py:43 | the `splitext` suffix is a tail of the path that is empty or starts with its only '.' and holds no '/' |
| Strings.LastIndexOfLower | backend/documents/validators.py:43 | lower-casing the name moves neither the last '.' nor the last '/', so `splitext` of the lowered name sees the same dot |
| Strings.StripEmptyIffBlank | backend/documents/ai_analyzer.py:51 | `strip()` yields the empty string exactly when every character is white space |
| Strings.IntToStringInjective | backend/documents/models.py:33 | `str(n)` is injective on integers, so the size printed by `__str__` identifies the size |
| Validators.ValidateFilenameSafety | backend/documents/validators.py:136-149 | passes iff the name is non-empty, at most 255 characters, has no "..", '/', '\\' and no character below 32; an empty name fails with "Filename cannot be empty" and every failure is one of the four errors |
| Validators.ValidateFileExtension | backend/documents/validators.py:40-49 | passes iff the name ends in ".pdf" in any case with a non-'.' stem character in its last component ("X.PDF" passes, ".pdf" and "a.pdf.txt" fail); a failure carries the lower-cased `splitext` suffix |
| Validators.ExtensionIsPdf | backend/documents/validators.py:43-45 | both directions: the lower-cased `splitext` suffix equals ".pdf" iff `HasPdfExtension` holds |
| Validators.ValidateFileSize | backend/documents/validators.py:62-67 | exactly 10*1024*1024 bytes passes, anything larger fails with the size in its error |
| Validators.TenthsOfMegabyte | backend/documents/validators.py:63-66 | the figure in the size error is the size in MiB rounded to the nearest tenth, an exact tie going to the even digit |
| Validators.MegabyteText | backend/documents/validators.py:63-66 | the `:.1f` text is digits, a '.' and one digit, and reads back as the rounded number of tenths |
| Validators.ValidateMimeType | backend/documents/validators.py:80-84 | an absent or empty type and exactly "application/pdf" pass; any other value fails and is named in the error |
| Validators.FirstFailure | backend/documents/validators.py:162-173 | the result passes iff every check passes, and a failure is the first failing check (all earlier ones pass) |
| Validators.ValidateUploadedFile | backend/documents/validators.py:162-173 | passes iff safety, extension and size pass and the content type is absent, empty or "application/pdf" |
| Validators.ValidateUploadedFileOrder | backend/documents/validators.py:162-173 | the error raised is the first failure in the order safety, extension, size, MIME |
| Validators.ValidateFileContent | backend/documents/validators.py:97-123 | a missing file fails; a detected type must be "application/pdf"; without `python-magic` the first four bytes must be `%PDF`; any other probe error passes |
| Validators.ValidateDocumentId | backend/documents/validators.py:193-199 | returns the integer unchanged iff it is positive; non-positive and non-integer arguments fail with their two distinct messages |
| Validators.SanitizeFilename | backend/documents/validators.py:212-229 | the character loop returns `Sanitized(name)`, whose properties are the lemmas below |
| Validators.MapUnsafeSafe | backend/documents/validators.py:216-223 | the mapped name has the input's length, keeps every safe character in place and puts '_' in place of every unsafe one |
| Validators.MapUnsafeOfSafe | backend/documents/validators.py:216-223 | a name made only of safe characters maps to itself |
| Validators.Sanitized | backend/documents/validators.py:212-229 | an empty name gives "unnamed_file.pdf"; otherwise the first (up to 255) characters are the input's with unsafe ones as '_', ".pdf" is added only when the mapped name does not already end in it (any case), and the result is cut to 255; always non-empty, at most 255 characters, safe characters only |
| Validators.SanitizedEndsWithPdf | backend/documents/validators.py:225-229 | for names of at most 251 characters the sanitised name ends in ".pdf" (case-insensitively) |
| Validators.SanitizedEndsWithPdfOrFull | backend/documents/validators.py:225-229 | a sanitised name ends in ".pdf" (any case) unless truncation to 255 characters cut the suffix off |
| Validators.SanitizedIdempotent | backend/documents/validators.py:212-229 | sanitising twice equals sanitising once |
| Serializers.FileFieldValue | backend/documents/serializers.py:19 | DRF's `FileField` accepts exactly a file part with a non-empty name and non-empty content, unchanged; a text part fails with the not-a-file message |
| Serializers.ValidateFile | backend/documents/serializers.py:21-28 | returns the file unchanged iff it passes the upload rules; otherwise the error text is the validator's message |
| Serializers.Validate | backend/documents/serializers.py:30-38 | rejects a file without a name with "No file provided", passes otherwise |
| Serializers.ValidateNeverRejectsField | backend/documents/serializers.py:30-38 | any value the file field accepted passes `validate` |
| Serializers.IsValid | backend/documents/serializers.py:16-38 | valid iff a non-empty file part passes the upload rules; every error is one message under "file", and a rule failure carries exactly the validator's message |
| Serializers.AcceptedUploadIsNamedPdf | backend/documents/serializers.py:21-28 | an accepted upload has a 1..255-character name with a ".pdf" extension and a size in 1..10 MiB |
| Serializers.Serialize | backend/documents/serializers.py:7-13 | the view carries the row's id, filename, filesize, created_at and analyzed_at, and a status name that reads back as the row's status |
| Serializers.SerializeKeepsListedFields | backend/documents/serializers.py:7-13 | two rows serialise alike iff they agree on id, filename, filesize, created_at, analysis_status and analyzed_at, so filepath and analysis_result never show |
| Serializers.SerializeDetail | backend/documents/serializers.py:41-54 | `file_exists` holds iff the row's filepath is in the file store; the other detail fields are the row's |
| Models.ParseStatus | backend/documents/models.py:15-25 | a stored string is accepted iff it is one of the four choice names |
| Models.StatusRoundTrip | backend/documents/models.py:15-25 | each status is stored under one of the four choice names and that name maps back to it, so the encoding is one-to-one |
| Models.NewDocument | backend/documents/models.py:8-26 | a new row stores the given fields, with status 'pending' and no result and no analysis time |
| Models.Str | backend/documents/models.py:32-33 | `__str__` starts with the filename and " (" and ends with " bytes)" |
| Models.StrDeterminesSize | backend/documents/models.py:32-33 | two rows with the same filename and the same `__str__` have the same size |
| Models.InsertNewestFirst | backend/documents/models.py:28-30 | inserting by creation time adds exactly the new row and keeps every other one (as multisets) |
| Models.InsertKeepsNewestFirst | backend/documents/models.py:28-30 | inserting by creation time keeps a newest-first sequence newest first |
| Utils.UniqueFilename | backend/documents/utils.py:15-19 | the generated name starts with a digit of the unique prefix, holds no '/', and ends with the original's `splitext` extension |
| Utils.MediaPath | backend/documents/utils.py:36 | the path is MEDIA_ROOT, a '/' and then exactly the name |
| Utils.UniqueFilenameKeepsExtension | backend/documents/utils.py:15-19 | the generated name has the original's `splitext` extension, case preserved |
| Utils.TokenOfSavedPath | backend/documents/utils.py:15-19 | the unique prefix is recoverable from the saved path |
| Utils.DistinctTokensDistinctPaths | backend/documents/utils.py:33-36 | distinct prefixes give distinct paths under MEDIA_ROOT, whatever the original names |
| Utils.WriteChunks | backend/documents/utils.py:42-44 | the chunk loop writes the whole content, or, when the write of chunk k raises, exactly the first k chunks (fewer bytes than the content) |
| Utils.FilesAfterSave | backend/documents/utils.py:36-44 | a completed save adds the content at the path; a failed open adds nothing; a failed write leaves a strictly shorter prefix of the content at the path |
| Utils.Storage.SaveFile | backend/documents/utils.py:22-46 | succeeds iff no open or chunk write raises, returning a path not used before (fresh prefix, the name's extension); the files become `FilesAfterSave`: the full content, nothing, or the chunks written before the failure; a failure carries the raised message; rows untouched |
| Utils.Storage.FileExists | backend/documents/utils.py:68-78 | in a consistent store, an existing path carries a prefix the store handed out, so only saves create files |
| Utils.Storage.DeleteFile | backend/documents/utils.py:49-65 | returns true iff the file existed; afterwards it is gone and nothing else changes |
| Utils.Storage.GetFileSize | backend/documents/utils.py:81-93 | the stored byte length when the file exists, 0 otherwise |
| Utils.Storage.CreateDocumentRecord | backend/documents/utils.py:100-119 | stores `NewDocument` with the given filename, filepath and size under an id not in the table, records the save, and leaves the files alone |
| Utils.Storage.GetAllDocuments | backend/documents/utils.py:122-130 | returns every row exactly once (count, membership both ways) in newest-first order |
| Utils.Storage.GetDocumentById | backend/documents/utils.py:133-147 | returns the row iff the id is in the table, None otherwise |
| Utils.Storage.SaveDocument | backend/documents/ai_analyzer.py:143-144 | `document.save()`: the row is replaced, the save is recorded, files are untouched |
| Utils.Storage.DeleteDocument | backend/documents/models.py:35-42 | removes the file when the filepath is non-empty and present, then removes the row |
| Utils.Storage.DeleteDocumentRecord | backend/documents/utils.py:150-166 | returns true iff the row existed; then the row and its file are gone, otherwise nothing changes |
| Exceptions.MessageFor | backend/documents/exceptions.py:46-63 | the message is 'An error occurred' exactly for statuses other than 400, 401, 403, 404, 405 and 500 |
| Exceptions.NamedMessagesDistinct | backend/documents/exceptions.py:52-63 | the six named statuses get six different messages |
| Exceptions.CustomExceptionHandler | backend/documents/exceptions.py:32-95 | a framework response keeps its status and gets the envelope with the mapped message and the original data; without one, only the three custom exceptions get an envelope, with details `str(exc)` |
| Exceptions.DocumentExceptionStatus | backend/documents/exceptions.py:68-93 | storage error → 500 'File storage error', validation error → 400 'File validation error', not found → 404 'Document not found' |
| Analyzer.NewAnalyzer | backend/documents/ai_analyzer.py:19-30 | construction succeeds iff the key is present and non-empty, with the fixed URL, model and bearer header; otherwise the missing-key error |
| Analyzer.GetAnalyzer | backend/documents/ai_analyzer.py:175-181 | None exactly when `MISTRAL_API_KEY` is missing or empty |
| Analyzer.ExtractionOutcome | backend/documents/ai_analyzer.py:32-55 | succeeds iff the file is stored and PyPDF2 reads its pages, giving their stripped concatenation; every failure starts with "Failed to extract text from PDF: " |
| Analyzer.ExtractTextFromPdf | backend/documents/ai_analyzer.py:32-55 | the page loop returns the stripped concatenation of the page texts in order, or the wrapped read error |
| Analyzer.ConcatBlankIffPagesBlank | backend/documents/ai_analyzer.py:47-49 | the concatenation is all white space iff every page is |
| Analyzer.ExtractedTextEmptyIffBlankPages | backend/documents/ai_analyzer.py:47-51 | the extracted text is empty exactly when every page text is white space |
| Analyzer.Prompt | backend/documents/ai_analyzer.py:70-96 | the prompt carries the filename and the first 12000 characters of the text |
| Analyzer.PromptEmbedsInputs | backend/documents/ai_analyzer.py:70-96 | the rendered prompt holds the filename and the excerpt at fixed offsets between the fixed template parts |
| Analyzer.BuildRequest | backend/documents/ai_analyzer.py:99-117 | the request goes to the analyzer's URL with its bearer header and model, that prompt, temperature 0.3 (as 3 tenths), 2000 max tokens and a 60 s timeout |
| Analyzer.AnalyzeMedicalDocument | backend/documents/ai_analyzer.py:57-129 | succeeds iff the API answers 200 with content, returning it; a non-200 status gives "Mistral API error: <status> - <body>"; every failure starts with "AI analysis failed: " |
| Analyzer.AnalysisOutcome | backend/documents/ai_analyzer.py:147-153 | an extraction failure is passed on, an empty text gives the no-text message, a non-empty text gives `AnalyzeMedicalDocument` of that text; every failure is one of the extraction, no-text or "AI analysis failed: " messages |
| Analyzer.AnalysisSeesOnlyLeadingText | backend/documents/ai_analyzer.py:74 | texts that agree on their first 12000 characters get the same analysis |
| Analyzer.AnalysisSuccessConditions | backend/documents/ai_analyzer.py:147-153 | a successful analysis read the file, found a non-blank page and got a 200 reply whose content is the result |
| Analyzer.AnalysisSucceedsOnReadableText | backend/documents/ai_analyzer.py:147-153 | the converse of the success conditions: a readable stored file with a non-blank page and a 200 reply with content give that content as the result |
| Analyzer.RunAnalysis | backend/documents/ai_analyzer.py:147-153 | extraction, the empty-text check and the API call yield `AnalysisOutcome` |
| Analyzer.FinalDocument | backend/documents/ai_analyzer.py:156-168 | never 'processing'; 'completed' with the result and `now` iff the outcome succeeded; 'failed' with "Analysis failed: " + message and an unchanged analysis time otherwise; other fields kept |
| Analyzer.SaveOutcome | backend/documents/ai_analyzer.py:156-168 | saves the final row and records that save; files untouched |
| Analyzer.AnalyzeDocument | backend/documents/ai_analyzer.py:131-171 | saves 'processing' first and then the final row, in that order; the result is `AnalysisOutcome` and the table ends holding the final row |
| Views.Upload | backend/documents/views.py:21-107 | no file part → 400 "No file provided"; serializer errors → 400 with those errors; 201 iff valid, fully written, content-checked and inserted, adding exactly the saved file and the new row with the sanitised name; a raising write → 500 "Failed to save file: ..." leaving the chunks already written; after a complete save, a content failure → 400 with its message and an insert failure → 500 "Failed to save file: ..."; every other non-201 outcome leaves files and rows unchanged |
| Views.StoreUpload | backend/documents/views.py:48-103 | after validation: 201 iff the save, content check and insert succeed; a save failure → 500 "Failed to save file: " + message with the files as `FilesAfterSave` left them (a partial file stays); after a complete save, a content failure → 400 with its message and an insert failure → 500 "Failed to save file: " + message, both removing the saved file |
| Views.FinishUpload | backend/documents/views.py:56-103 | with the file saved: 201 iff content check and insert succeed; a content failure → 400 with the validator's message, an insert failure → 500 "Failed to save file: " + message, both deleting the file |
| Views.ListDocuments | backend/documents/views.py:110-127 | 200 with every row serialised exactly once, newest first, and `count` equal to the number of rows |
| Views.EscapeQuotes | backend/documents/views.py:181 | the escaped name is one character longer per '"' and every '"' in it follows a '\\' |
| Views.UnescapeEscapeQuotes | backend/documents/views.py:181 | reading the escaped name back, with a bare '"' rejected, gives the name |
| Views.EscapeQuotesWithoutQuotes | backend/documents/views.py:181 | a name without '"' is left as it is |
| Views.ContentDisposition | backend/documents/views.py:181-183 | the header is `inline; filename="` + a quoted part + `"`, and the quoted part reads back as the stored filename |
| Views.SanitizedFilenameInHeader | backend/documents/views.py:181-183 | a sanitised name appears verbatim in `inline; filename="..."` |
| Views.Download | backend/documents/views.py:153-184 | bad id → 400 text; unknown row or missing file → raised 404; 200 iff both exist, serving the stored bytes as application/pdf inline with the recorded size |
| Views.Delete | backend/documents/views.py:203-257 | bad id → 400, unknown → 404, both leaving the store alone; 200 iff the row exists, removing row and file, with the "already missing" suffix iff the file was absent |
| Views.Analyze | backend/documents/views.py:326-397 | the 400/404/404 ladder, then 503 without an analyzer before the 202 in-progress check, neither touching the row; otherwise 200 or 500 with the lifecycle of `AnalyzeDocument` |
| Views.AnalyzeAndRespond | backend/documents/views.py:379-397 | 200 with the result, 'completed' and `now` iff the analysis succeeded, otherwise 500 "Analysis failed: ..." |
| Views.GetDocumentAnalysis | backend/documents/views.py:400-429 | bad id → 400, unknown → 404, otherwise 200 with the stored result, status name and time |

## Left out

- **Unicode.** `str.lower` and `str.isalnum` are approximated on ASCII letters and digits. Non-ASCII letters count as unsafe for the sanitiser and are not lower-cased. `str.isspace` is exact.
- **Non-POSIX paths.** `os.path.splitext` is modelled for POSIX paths only; Windows separators are not.
- **Real I/O.** The file system, Django ORM queries and `uuid4` are not modelled; a raising `os.makedirs` or `open` is one `OpenFails` fault, and chunk writes are modelled only by how many bytes reach the file. A fresh counter replaces the UUID, so the 500-character bound on `filepath` is not modelled: it depends on MEDIA_ROOT.
- **Logging.** Every `logger` call is left out.
- **Other endpoints.** `health_check`, the CORS/OPTIONS branch and the CORS headers of `download_document` are left out.
- **Foreign calls.** PyPDF2, `python-magic` and the Mistral HTTP request and JSON decoding are oracles; the decoded content is `ApiReply.content`.
- **Floating point.** The temperature 0.3 is kept as the integer tenths 3.
- Utils.Storage.DeleteFile: an `OSError` from `os.remove` on an existing file (returning False with the file left in place) is not modelled.
- Utils.Storage.DeleteDocument: the swallowed `OSError` of `Document.delete` is likewise not modelled.
- Views.Download: the "Failed to serve file" 500 response for an `open` that raises after the existence check is not modelled.
- Views.Delete: the catch-all 500 "Failed to delete document" and the 500 for a record that vanished between lookup and deletion need a concurrent writer or a raising database, so they are unreachable in the model.
- Views.StoreUpload: the `file_exists` check right after the save and its `FileStorageError` 500 response (backend/documents/views.py:56-58, 88-92) are unreachable in the model, because a completed save always leaves the file in the store.
- Views.ListDocuments: the 500 response for a failing database query is not modelled.
- **Http404 rendering.** A raised `Http404` is kept as the body `Raised404(message)`. The views are DRF `@api_view`s, so DRF's exception handling turns it into a JSON 404 response; that response body is not modelled.
- Validators.TenthsOfMegabyte: the size is divided exactly, which matches Python's float division only for sizes below 2^53 bytes.
- **Concurrency.** Concurrent requests are not modelled. In particular the 'processing' state only short-circuits a later request in the same sequential history.
- **Django's string forms.** Django's `ValidationError` string form is modelled as `['message']`, which is what `str(e)` yields for a single message; other forms of the exception are not modelled.
