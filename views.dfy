/**
 * The request handlers of backend/documents/views.py as methods on the in-memory store:
 * each returns the HTTP status and the body the view builds. Requests reach the views
 * through `<int:document_id>` routes, so ids are non-negative integers.
 */
module Views {
  import opened Wrappers
  import opened Strings
  import opened Validators
  import opened Models
  import opened Utils
  import opened Serializers
  import opened Analyzer

  /** The bodies the views build. */
  datatype Body =
    | ErrorBody(error: string)                      // {'error': ...}
    | InvalidBody(errors: SerializerErrors)         // serializer.errors
    | Created(document: DocumentView, message: string)
    | Listing(documents: seq<DocumentView>, count: int)
    | MessageBody(message: string)
    | InProgress(message: string, analysisStatus: string)
    | Analyzed(message: string, analysis: string, analysisStatus: string, analyzedAt: Option<int>)
    | StoredAnalysis(analysisResult: Option<string>, analysisStatus: string, analyzedAt: Option<int>)
    | PdfFile(content: seq<byte>, contentType: string, contentDisposition: string, contentLength: int)
    | PlainText(text: string)
    | Raised404(detail: string)                     // `raise Http404(detail)`, rendered by the framework

  datatype Response = Response(status: int, body: Body)

  /** `str()` of a Django `ValidationError` carrying one message. */
  function ValidationErrorText(message: string): string {
    "['" + message + "']"
  }

  /** The 400 body every id-taking view but download returns for id 0. */
  const InvalidIdError: string := ValidationErrorText("Document ID must be a positive integer")

  const AlreadyMissingSuffix: string := " (file was already missing from storage)"

  /**
   * The part of `upload_document` after the file was saved under `path`: check its
   * content, insert the row; a failure removes the saved file again.
   */
  method FinishUpload(s: Storage, f: UploadedFile, path: string, filename: string, probe: ContentProbe,
                      dbFailure: Option<string>, now: int)
    returns (resp: Response)
    requires s.Valid() && path in s.files && s.files[path] == f.content
    modifies s
    ensures s.Valid()
    ensures resp.status == 201 <==> ValidateFileContent(true, probe, f.content).Pass? && dbFailure.None?
    ensures resp.status == 201 ==>
              var d := NewDocument(old(s.nextId), filename, path, f.Size(), now);
              && s.files == old(s.files)
              && s.table == old(s.table)[d.id := d]
              && d.id !in old(s.table)
              && resp.body == Created(Serialize(d), "File uploaded successfully")
    ensures resp.status != 201 ==> s.files == old(s.files) - {path} && s.table == old(s.table)
    ensures ValidateFileContent(true, probe, f.content).Fail? ==>
              resp == Response(400, ErrorBody(ValidateFileContent(true, probe, f.content).error.Message()))
    ensures ValidateFileContent(true, probe, f.content).Pass? && dbFailure.Some? ==>
              resp == Response(500, ErrorBody("Failed to save file: " + dbFailure.value))
    ensures resp.status in {201, 400, 500}
  {
    var content := ValidateFileContent(s.FileExists(path), probe, s.files[path]);
    if content.Fail? {
      var _ := s.DeleteFile(path);
      return Response(400, ErrorBody(content.error.Message()));
    }
    if dbFailure.Some? {
      if s.FileExists(path) {
        var _ := s.DeleteFile(path);
      }
      return Response(500, ErrorBody("Failed to save file: " + dbFailure.value));
    }
    var document := s.CreateDocumentRecord(filename, path, f.Size(), now);
    resp := Response(201, Created(Serialize(document), "File uploaded successfully"));
  }

  /**
   * The part of `upload_document` after the serializer accepted `f`: sanitize the name,
   * save the file, then finish. A failure after the file was saved removes it again; a
   * failure while saving leaves what was written, because the handler's cleanup only
   * runs once `save_file` has returned a path.
   */
  method StoreUpload(s: Storage, f: UploadedFile, probe: ContentProbe,
                     saveFault: SaveFault, dbFailure: Option<string>, now: int)
    returns (resp: Response)
    requires s.Valid()
    modifies s
    ensures s.Valid()
    ensures resp.status == 201 <==>
              SaveCompletes(f, saveFault) && ValidateFileContent(true, probe, f.content).Pass? && dbFailure.None?
    ensures resp.status == 201 ==>
              var path := MediaPath(UniqueFilename(old(s.tokens), f.name));
              var d := NewDocument(old(s.nextId), Sanitized(f.name), path, f.Size(), now);
              && s.files == old(s.files)[path := f.content]
              && s.table == old(s.table)[d.id := d]
              && d.id !in old(s.table)
              && resp.body == Created(Serialize(d), "File uploaded successfully")
    ensures !SaveCompletes(f, saveFault) ==>
              && resp == Response(500, ErrorBody("Failed to save file: " + saveFault.message))
              && s.files == FilesAfterSave(old(s.files), MediaPath(UniqueFilename(old(s.tokens), f.name)), f, saveFault)
              && s.table == old(s.table)
    ensures SaveCompletes(f, saveFault) && resp.status != 201 ==>
              s.files == old(s.files) && s.table == old(s.table)
    ensures SaveCompletes(f, saveFault) && ValidateFileContent(true, probe, f.content).Fail? ==>
              resp == Response(400, ErrorBody(ValidateFileContent(true, probe, f.content).error.Message()))
    ensures SaveCompletes(f, saveFault) && ValidateFileContent(true, probe, f.content).Pass? && dbFailure.Some? ==>
              resp == Response(500, ErrorBody("Failed to save file: " + dbFailure.value))
    ensures resp.status in {201, 400, 500}
  {
    ghost var before := s.files;
    var safeFilename := SanitizeFilename(f.name);
    var saved := s.SaveFile(f, saveFault);
    if saved.Failure? {
      assert !SaveCompletes(f, saveFault);
      return Response(500, ErrorBody("Failed to save file: " + saved.error));
    }
    var path := saved.value;
    assert s.files == before[path := f.content] && path !in before;
    assert before[path := f.content] - {path} == before;
    resp := FinishUpload(s, f, path, safeFilename, probe, dbFailure, now);
  }

  /**
   * `upload_document`. `request` is the form's `file` entry, if any; `saveFault` says
   * where writing the file raises, if anywhere, and `dbFailure` stands for an exception
   * raised while inserting the row.
   */
  method Upload(s: Storage, request: Option<FormValue>, probe: ContentProbe,
                saveFault: SaveFault, dbFailure: Option<string>, now: int)
    returns (resp: Response)
    requires s.Valid()
    modifies s
    ensures s.Valid()
    ensures request.None? ==> resp == Response(400, ErrorBody("No file provided"))
    ensures request.Some? && IsValid(request.value).Failure? ==>
              resp == Response(400, InvalidBody(IsValid(request.value).error))
    ensures resp.status == 201 <==>
              && request.Some? && IsValid(request.value).Success? && SaveCompletes(request.value.file, saveFault)
              && ValidateFileContent(true, probe, request.value.file.content).Pass? && dbFailure.None?
    ensures resp.status == 201 ==>
              var f := request.value.file;
              var path := MediaPath(UniqueFilename(old(s.tokens), f.name));
              var d := NewDocument(old(s.nextId), Sanitized(f.name), path, f.Size(), now);
              && s.files == old(s.files)[path := f.content]
              && s.table == old(s.table)[d.id := d]
              && d.id !in old(s.table)
              && resp.body == Created(Serialize(d), "File uploaded successfully")
    ensures request.Some? && IsValid(request.value).Success? && !SaveCompletes(request.value.file, saveFault) ==>
              var f := request.value.file;
              && resp == Response(500, ErrorBody("Failed to save file: " + saveFault.message))
              && s.files == FilesAfterSave(old(s.files), MediaPath(UniqueFilename(old(s.tokens), f.name)), f, saveFault)
              && s.table == old(s.table)
    ensures resp.status != 201 && !(request.Some? && IsValid(request.value).Success? && !SaveCompletes(request.value.file, saveFault)) ==>
              s.files == old(s.files) && s.table == old(s.table)
    ensures request.Some? && IsValid(request.value).Success? && SaveCompletes(request.value.file, saveFault) ==>
              var content := ValidateFileContent(true, probe, request.value.file.content);
              && (content.Fail? ==> resp == Response(400, ErrorBody(content.error.Message())))
              && (content.Pass? && dbFailure.Some? ==> resp == Response(500, ErrorBody("Failed to save file: " + dbFailure.value)))
    ensures resp.status in {201, 400, 500}
  {
    if request.None? {
      return Response(400, ErrorBody("No file provided"));
    }
    var checked := IsValid(request.value);
    if checked.Failure? {
      return Response(400, InvalidBody(checked.error));
    }
    resp := StoreUpload(s, checked.value, probe, saveFault, dbFailure, now);
  }

  /** `list_documents`: every row once, newest first, through `DocumentSerializer`, with the count. */
  method ListDocuments(s: Storage) returns (resp: Response)
    requires s.Valid()
    ensures resp.status == 200 && resp.body.Listing?
    ensures resp.body.count == |resp.body.documents| == |s.table|
    ensures forall v :: v in resp.body.documents ==> exists id :: id in s.table && v == Serialize(s.table[id])
    ensures forall id :: id in s.table ==> Serialize(s.table[id]) in resp.body.documents
    ensures forall i, j :: 0 <= i < j < |resp.body.documents| ==>
              resp.body.documents[i].createdAt >= resp.body.documents[j].createdAt
  {
    var docs := s.GetAllDocuments();
    var views := seq(|docs|, i requires 0 <= i < |docs| => Serialize(docs[i]));
    forall v | v in views
      ensures exists id :: id in s.table && v == Serialize(s.table[id])
    {
      var i :| 0 <= i < |views| && views[i] == v;
      assert docs[i] in docs;
    }
    forall id | id in s.table
      ensures Serialize(s.table[id]) in views
    {
      var i :| 0 <= i < |docs| && docs[i] == s.table[id];
      assert views[i] == Serialize(s.table[id]);
    }
    resp := Response(200, Listing(views, |views|));
  }

  /**
   * `safe_filename`: every '"' of the stored filename becomes '\"', so the result is
   * one character longer per quote and holds no '"' without a '\' before it.
   */
  function EscapeQuotes(name: string): (r: string)
    ensures |r| == |name| + multiset(name)['"']
    ensures forall i :: 0 <= i < |r| && r[i] == '"' ==> 0 < i && r[i - 1] == '\\'
  {
    if name == [] then []
    else
      assert name == [name[0]] + name[1..];
      if name[0] == '"' then ['\\', '"'] + EscapeQuotes(name[1..])
      else [name[0]] + EscapeQuotes(name[1..])
  }

  /**
   * Reads an escaped filename back: '\"' stands for '"', any other character for itself,
   * and a '"' without a '\' before it is not something escaping produces.
   */
  function UnescapeQuotes(s: string): Option<string> {
    if s == [] then Some([])
    else if s[0] == '"' then None
    else if |s| >= 2 && s[0] == '\\' && s[1] == '"' then
      match UnescapeQuotes(s[2..])
      case None => None
      case Some(rest) => Some(['"'] + rest)
    else
      match UnescapeQuotes(s[1..])
      case None => None
      case Some(rest) => Some([s[0]] + rest)
  }

  /** The escaped filename reads back as the stored filename. */
  lemma {:induction false} UnescapeEscapeQuotes(name: string)
    ensures UnescapeQuotes(EscapeQuotes(name)) == Some(name)
  {
    if name != [] {
      UnescapeEscapeQuotes(name[1..]);
      var rest := EscapeQuotes(name[1..]);
      if name[0] == '"' {
        assert EscapeQuotes(name)[2..] == rest;
      } else {
        assert EscapeQuotes(name)[1..] == rest;
      }
      assert name == [name[0]] + name[1..];
    }
  }

  /** A filename without '"' is placed in the header unchanged. */
  lemma {:induction false} EscapeQuotesWithoutQuotes(name: string)
    requires '"' !in name
    ensures EscapeQuotes(name) == name
  {
    if name != [] {
      assert '"' !in name[1..] by {
        forall c | c in name[1..] ensures c != '"' {
          assert c in name;
        }
      }
      EscapeQuotesWithoutQuotes(name[1..]);
    }
  }

  const DispositionPrefix: string := "inline; filename=\""

  /**
   * The `Content-Disposition` value: shown inline, under the escaped stored filename
   * between the quotes, from which the stored filename reads back.
   */
  function ContentDisposition(filename: string): (h: string)
    ensures |h| >= |DispositionPrefix| + 1 && h[..|DispositionPrefix|] == DispositionPrefix && h[|h| - 1] == '"'
    ensures UnescapeQuotes(h[|DispositionPrefix|..|h| - 1]) == Some(filename)
  {
    var h := DispositionPrefix + EscapeQuotes(filename) + "\"";
    assert h[|DispositionPrefix|..|h| - 1] == EscapeQuotes(filename);
    UnescapeEscapeQuotes(filename);
    h
  }

  /** A filename stored by an upload is sanitized, so it appears in the header verbatim. */
  lemma SanitizedFilenameInHeader(original: string)
    ensures ContentDisposition(Sanitized(original)) == DispositionPrefix + Sanitized(original) + "\""
  {
    var n := Sanitized(original);
    assert '"' !in n by {
      forall c | c in n ensures c != '"' {
        var i :| 0 <= i < |n| && n[i] == c;
        assert IsSafeChar(n[i]);
      }
    }
    EscapeQuotesWithoutQuotes(n);
  }

  /** `download_document` (GET): the id ladder, then the stored bytes served inline as a PDF. */
  method Download(s: Storage, id: nat) returns (resp: Response)
    ensures id == 0 ==> resp == Response(400, PlainText("Invalid document ID: " + InvalidIdError))
    ensures id > 0 && id !in s.table ==> resp == Response(404, Raised404("Document not found"))
    ensures id > 0 && id in s.table && s.table[id].filepath !in s.files ==>
              resp == Response(404, Raised404("File not found on disk"))
    ensures resp.status == 200 <==> id > 0 && id in s.table && s.table[id].filepath in s.files
    ensures resp.status == 200 ==>
              var d := s.table[id];
              resp.body == PdfFile(s.files[d.filepath], AllowedMimeType, ContentDisposition(d.filename), d.filesize)
  {
    var checked := ValidateDocumentId(Integer(id));
    if checked.Failure? {
      return Response(400, PlainText("Invalid document ID: " + ValidationErrorText(checked.error)));
    }
    var found := s.GetDocumentById(checked.value);
    if found.None? {
      return Response(404, Raised404("Document not found"));
    }
    var document := found.value;
    if !s.FileExists(document.filepath) {
      return Response(404, Raised404("File not found on disk"));
    }
    var safeFilename := EscapeQuotes(document.filename);
    resp := Response(200, PdfFile(s.files[document.filepath], AllowedMimeType,
                                  "inline; filename=\"" + safeFilename + "\"", document.filesize));
  }

  /**
   * `delete_document`: the id ladder, then the file and the row are removed; the message
   * says when the file had already gone.
   */
  method Delete(s: Storage, id: nat) returns (resp: Response)
    requires s.Valid()
    modifies s
    ensures s.Valid()
    ensures id == 0 ==> resp == Response(400, ErrorBody(InvalidIdError))
    ensures id > 0 && id !in old(s.table) ==> resp == Response(404, Raised404("Document not found"))
    ensures resp.status != 200 ==> s.table == old(s.table) && s.files == old(s.files)
    ensures resp.status == 200 <==> id > 0 && id in old(s.table)
    ensures resp.status == 200 ==>
              var path := old(s.table)[id].filepath;
              && s.table == old(s.table) - {id}
              && s.files == old(s.files) - {path}
              && resp.body == MessageBody("Document deleted successfully" +
                                          if path in old(s.files) then "" else AlreadyMissingSuffix)
    ensures resp.status in {200, 400, 404}
  {
    var checked := ValidateDocumentId(Integer(id));
    if checked.Failure? {
      return Response(400, ErrorBody(ValidationErrorText(checked.error)));
    }
    var found := s.GetDocumentById(checked.value);
    if found.None? {
      return Response(404, Raised404("Document not found"));
    }
    var filePath := found.value.filepath;
    var fileDeleted := s.DeleteFile(filePath);
    var recordDeleted := s.DeleteDocumentRecord(checked.value);
    if recordDeleted {
      var message := "Document deleted successfully";
      if !fileDeleted {
        message := message + AlreadyMissingSuffix;
      }
      resp := Response(200, MessageBody(message));
    } else {
      resp := Response(500, ErrorBody("Failed to delete document record"));
    }
  }

  const AnalyzerUnavailable: string := "AI analyzer not available. Please check GEMINI_API_KEY configuration."

  /**
   * `analyze_document`: the id ladder and the file check, then 503 without an analyzer,
   * 202 while an analysis is in progress, otherwise the analysis is run.
   * `key` is the configured `MISTRAL_API_KEY`.
   */
  method Analyze(s: Storage, id: nat, key: Option<string>, reader: PdfReader, api: ChatApi, now: int)
    returns (resp: Response)
    requires s.Valid()
    modifies s
    ensures s.Valid()
    ensures id == 0 ==> resp == Response(400, ErrorBody(InvalidIdError))
    ensures id > 0 && id !in old(s.table) ==> resp == Response(404, ErrorBody("Document not found"))
    ensures id > 0 && id in old(s.table) && old(s.table)[id].filepath !in old(s.files) ==>
              resp == Response(404, ErrorBody("Physical file not found"))
    ensures id > 0 && id in old(s.table) && old(s.table)[id].filepath in old(s.files) ==>
              && (GetAnalyzer(key).None? ==> resp == Response(503, ErrorBody(AnalyzerUnavailable)))
              && (GetAnalyzer(key).Some? && old(s.table)[id].analysisStatus == Processing ==>
                    resp == Response(202, InProgress("Document analysis is already in progress", "processing")))
    ensures resp.status !in {200, 500} ==>
              s.table == old(s.table) && s.writes == old(s.writes)
    ensures resp.status in {200, 500} ==>
              var d := old(s.table)[id];
              var outcome := AnalysisOutcome(GetAnalyzer(key).value, old(s.files), d, reader, api);
              var final := FinalDocument(d, outcome, now);
              && GetAnalyzer(key).Some? && d.analysisStatus != Processing
              && s.writes == old(s.writes) + [d.(analysisStatus := Processing), final]
              && s.table == old(s.table)[id := final]
              && (resp.status == 200 <==> outcome.Success?)
              && (outcome.Success? ==> resp.body == Analyzed("Document analyzed successfully", outcome.value, "completed", Some(now)))
              && (outcome.Failure? ==> resp.body == ErrorBody("Analysis failed: " + outcome.error))
    ensures s.files == old(s.files)
    ensures resp.status in {200, 202, 400, 404, 500, 503}
  {
    var checked := ValidateDocumentId(Integer(id));
    if checked.Failure? {
      return Response(400, ErrorBody(ValidationErrorText(checked.error)));
    }
    var found := s.GetDocumentById(checked.value);
    if found.None? {
      return Response(404, ErrorBody("Document not found"));
    }
    var document := found.value;
    if !s.FileExists(document.filepath) {
      return Response(404, ErrorBody("Physical file not found"));
    }
    var analyzer := GetAnalyzer(key);
    if analyzer.None? {
      return Response(503, ErrorBody(AnalyzerUnavailable));
    }
    if document.analysisStatus == Processing {
      return Response(202, InProgress("Document analysis is already in progress", document.analysisStatus.Name()));
    }
    resp := AnalyzeAndRespond(analyzer.value, s, document, reader, api, now);
  }

  /** The last step of `analyze_document`: run the analysis and answer 200 with its result or 500. */
  method AnalyzeAndRespond(a: DocumentAnalyzer, s: Storage, d: Document, reader: PdfReader, api: ChatApi, now: int)
    returns (resp: Response)
    requires s.Valid() && d.id in s.table
    modifies s
    ensures s.Valid()
    ensures resp.status in {200, 500}
    ensures var outcome := AnalysisOutcome(a, old(s.files), d, reader, api);
            var final := FinalDocument(d, outcome, now);
            && s.writes == old(s.writes) + [d.(analysisStatus := Processing), final]
            && s.table == old(s.table)[d.id := final]
            && (resp.status == 200 <==> outcome.Success?)
            && (outcome.Success? ==> resp.body == Analyzed("Document analyzed successfully", outcome.value, "completed", Some(now)))
            && (outcome.Failure? ==> resp.body == ErrorBody("Analysis failed: " + outcome.error))
    ensures s.files == old(s.files)
  {
    var result, updated := AnalyzeDocument(a, s, d, reader, api, now);
    if result.Success? {
      resp := Response(200, Analyzed("Document analyzed successfully", result.value,
                                     updated.analysisStatus.Name(), updated.analyzedAt));
    } else {
      resp := Response(500, ErrorBody("Analysis failed: " + result.error));
    }
  }

  /** `get_document_analysis`: the id ladder, then the stored result, status and time. */
  method GetDocumentAnalysis(s: Storage, id: nat) returns (resp: Response)
    ensures id == 0 ==> resp == Response(400, ErrorBody(InvalidIdError))
    ensures id > 0 && id !in s.table ==> resp == Response(404, ErrorBody("Document not found"))
    ensures resp.status == 200 <==> id > 0 && id in s.table
    ensures resp.status == 200 ==>
              var d := s.table[id];
              resp.body == StoredAnalysis(d.analysisResult, d.analysisStatus.Name(), d.analyzedAt)
  {
    var checked := ValidateDocumentId(Integer(id));
    if checked.Failure? {
      return Response(400, ErrorBody(ValidationErrorText(checked.error)));
    }
    var found := s.GetDocumentById(checked.value);
    if found.None? {
      return Response(404, ErrorBody("Document not found"));
    }
    var document := found.value;
    resp := Response(200, StoredAnalysis(document.analysisResult, document.analysisStatus.Name(), document.analyzedAt));
  }
}
