/**
 * `DocumentAnalyzer` of backend/documents/ai_analyzer.py: configuration from the
 * environment, page-by-page text extraction, the prompt and request sent to the chat
 * completion API, and the status lifecycle written to the document row.
 * PyPDF2 and the HTTP call are oracles passed in as functions.
 */
module Analyzer {
  import opened Wrappers
  import opened Strings
  import opened Validators
  import opened Models
  import opened Utils

  const ApiUrl: string := "https://api.mistral.ai/v1/chat/completions"
  const ModelName: string := "mistral-large-latest"
  const MissingKeyMessage: string := "MISTRAL_API_KEY not found in environment variables"

  /** How many characters of the extracted text the prompt carries. */
  const PromptTextLimit: nat := 12000
  /** `temperature`, in tenths. */
  const TemperatureTenths: nat := 3
  const MaxTokens: nat := 2000
  const TimeoutSeconds: nat := 60

  /** A configured analyzer: the key and the fixed endpoint, model and headers. */
  datatype DocumentAnalyzer = DocumentAnalyzer(apiKey: string, apiUrl: string, model: string, authorization: string)

  /** `DocumentAnalyzer()`: `MISTRAL_API_KEY` from the environment (default ''), else a `ValueError`. */
  function NewAnalyzer(key: Option<string>): (r: Result<DocumentAnalyzer, string>)
    ensures r.Success? <==> key.Some? && key.value != ""
    ensures r.Success? ==> r.value == DocumentAnalyzer(key.value, ApiUrl, ModelName, "Bearer " + key.value)
    ensures r.Failure? ==> r.error == MissingKeyMessage
  {
    var apiKey := if key.Some? then key.value else "";
    if apiKey == "" then Failure(MissingKeyMessage)
    else Success(DocumentAnalyzer(apiKey, ApiUrl, ModelName, "Bearer " + apiKey))
  }

  /** `get_analyzer`: the analyzer, or `None` when construction raised. */
  function GetAnalyzer(key: Option<string>): (r: Option<DocumentAnalyzer>)
    ensures r.None? <==> key == None || key == Some("")
    ensures r.Some? ==> r.value.apiKey == key.value && r.value.authorization == "Bearer " + key.value
  {
    var made := NewAnalyzer(key);
    if made.Success? then Some(made.value) else None
  }

  /** What PyPDF2 makes of a file's bytes: the text of each page, or the message it raised. */
  datatype PdfRead = Pages(texts: seq<string>) | ReadFailed(message: string)

  type PdfReader = seq<byte> -> PdfRead

  const ExtractFailurePrefix: string := "Failed to extract text from PDF: "

  /** `str()` of the `FileNotFoundError` that `open(path, 'rb')` raises. */
  function NoSuchFile(path: string): string {
    "[Errno 2] No such file or directory: '" + path + "'"
  }

  /** The page texts joined in page order. */
  function Concat(pages: seq<string>): string {
    if pages == [] then "" else Concat(pages[..|pages| - 1]) + pages[|pages| - 1]
  }

  /** The text `extract_text_from_pdf` returns for the given pages. */
  function ExtractedText(pages: seq<string>): string {
    Strip(Concat(pages))
  }

  /** `extract_text_from_pdf` as a value: the stripped text, or the wrapped message of what was raised. */
  function ExtractionOutcome(files: map<string, seq<byte>>, path: string, reader: PdfReader): (r: Result<string, string>)
    ensures r.Success? <==> path in files && reader(files[path]).Pages?
    ensures r.Success? ==> r.value == ExtractedText(reader(files[path]).texts)
    ensures r.Failure? ==> |r.error| >= |ExtractFailurePrefix| && r.error[..|ExtractFailurePrefix|] == ExtractFailurePrefix
  {
    if path !in files then Failure(ExtractFailurePrefix + NoSuchFile(path))
    else match reader(files[path])
      case ReadFailed(m) => Failure(ExtractFailurePrefix + m)
      case Pages(texts) => Success(ExtractedText(texts))
  }

  /** `extract_text_from_pdf`: appends each page's text in page order, then strips. */
  method ExtractTextFromPdf(files: map<string, seq<byte>>, path: string, reader: PdfReader) returns (r: Result<string, string>)
    ensures r == ExtractionOutcome(files, path, reader)
    ensures r.Success? ==> path in files && reader(files[path]).Pages?
  {
    if path !in files {
      return Failure(ExtractFailurePrefix + NoSuchFile(path));
    }
    var read := reader(files[path]);
    if read.ReadFailed? {
      return Failure(ExtractFailurePrefix + read.message);
    }
    var pages := read.texts;
    var text := "";
    var i := 0;
    while i < |pages|
      invariant 0 <= i <= |pages|
      invariant text == Concat(pages[..i])
    {
      assert pages[..i + 1][..i] == pages[..i];
      text := text + pages[i];
      i := i + 1;
    }
    assert pages[..|pages|] == pages;
    r := Success(Strip(text));
  }

  /** The joined text is all white space exactly when every page's text is. */
  lemma {:induction false} ConcatBlankIffPagesBlank(pages: seq<string>)
    ensures (forall k :: 0 <= k < |Concat(pages)| ==> IsSpace(Concat(pages)[k])) <==>
            (forall i, k :: 0 <= i < |pages| && 0 <= k < |pages[i]| ==> IsSpace(pages[i][k]))
  {
    if pages != [] {
      var init := pages[..|pages| - 1];
      var last := pages[|pages| - 1];
      ConcatBlankIffPagesBlank(init);
      var c := Concat(pages);
      assert c == Concat(init) + last;
      if forall k :: 0 <= k < |c| ==> IsSpace(c[k]) {
        forall i, k | 0 <= i < |pages| && 0 <= k < |pages[i]|
          ensures IsSpace(pages[i][k])
        {
          if i < |pages| - 1 {
            assert pages[i] == init[i];
            assert forall j :: 0 <= j < |Concat(init)| ==> c[j] == Concat(init)[j];
          } else {
            assert c[|Concat(init)| + k] == last[k];
          }
        }
      }
      if forall i, k :: 0 <= i < |pages| && 0 <= k < |pages[i]| ==> IsSpace(pages[i][k]) {
        forall k | 0 <= k < |c|
          ensures IsSpace(c[k])
        {
          if k >= |Concat(init)| {
            assert c[k] == pages[|pages| - 1][k - |Concat(init)|];
          } else {
            assert forall i :: 0 <= i < |init| ==> init[i] == pages[i];
            assert c[k] == Concat(init)[k];
          }
        }
      }
    }
  }

  /** No text is extracted exactly when every page holds only white space (or there are no pages). */
  lemma ExtractedTextEmptyIffBlankPages(pages: seq<string>)
    ensures ExtractedText(pages) == [] <==>
            forall i, k :: 0 <= i < |pages| && 0 <= k < |pages[i]| ==> IsSpace(pages[i][k])
  {
    assert ExtractedText(pages) == Strip(Concat(pages));
    StripEmptyIffBlank(Concat(pages));
    ConcatBlankIffPagesBlank(pages);
  }

  const PromptHead: string :=
    "\n            Please analyze this medical document and provide a comprehensive summary. The document filename is: "
  const PromptMiddle: string := "\n            \n            Document content:\n            "
  const PromptTail: string :=
    "  # Mistral can handle longer context\n"
    + "            \n"
    + "            Please provide analysis in the following structured format:\n"
    + "            \n"
    + "            **Document Type**: [Identify if this is a prescription, lab report, medical record, etc.]\n"
    + "            \n"
    + "            **Key Medical Information**:\n"
    + "            - Patient information (if mentioned)\n"
    + "            - Medical conditions or diagnoses\n"
    + "            - Medications prescribed\n"
    + "            - Test results or measurements\n"
    + "            - Treatment recommendations\n"
    + "            \n"
    + "            **Important Dates**: [Any relevant dates mentioned]\n"
    + "            \n"
    + "            **Summary**: [2-3 sentence summary of the document's purpose and key findings]\n"
    + "            \n"
    + "            **Recommendations**: [Any follow-up actions or recommendations mentioned]\n"
    + "            \n"
    + "            **Risk Factors**: [Any potential health risks or concerns identified]\n"
    + "            \n"
    + "            Note: If this doesn't appear to be a medical document, please indicate that and provide a general document analysis instead.\n"
    + "            "

  /**
   * The user message: the filename and the excerpt of the text it carries. `Text()` is
   * the message as sent, the template filled in with both.
   */
  datatype UserPrompt = UserPrompt(filename: string, excerpt: string) {
    function Text(): string {
      PromptHead + filename + PromptMiddle + excerpt + PromptTail
    }
  }

  /** The prompt for a document: its filename and at most the first 12000 characters of its text. */
  function Prompt(filename: string, text: string): (p: UserPrompt)
    ensures p.filename == filename
    ensures p.excerpt == text[..if |text| <= PromptTextLimit then |text| else PromptTextLimit]
  {
    UserPrompt(filename, Prefix(text, PromptTextLimit))
  }

  /**
   * The prompt carries the filename verbatim and, at a fixed place after it, exactly the
   * first 12000 characters of the text (all of it when shorter).
   */
  lemma PromptEmbedsInputs(filename: string, text: string)
    ensures var p := Prompt(filename, text).Text();
      var start := |PromptHead| + |filename| + |PromptMiddle|;
      && |p| == start + |Prefix(text, PromptTextLimit)| + |PromptTail|
      && p[|PromptHead|..|PromptHead| + |filename|] == filename
      && p[start..|p| - |PromptTail|] == text[..if |text| <= PromptTextLimit then |text| else PromptTextLimit]
  {
    var p := Prompt(filename, text).Text();
    var start := |PromptHead| + |filename| + |PromptMiddle|;
    var e := Prefix(text, PromptTextLimit);
    assert p == PromptHead + filename + PromptMiddle + e + PromptTail;
    assert p[|PromptHead|..|PromptHead| + |filename|] == filename;
    assert p[start..|p| - |PromptTail|] == e;
  }

  /** The JSON request `analyze_medical_document` posts. */
  datatype ChatRequest = ChatRequest(
    url: string,
    authorization: string,
    model: string,
    prompt: UserPrompt,
    temperatureTenths: nat,
    maxTokens: nat,
    timeoutSeconds: nat)

  function BuildRequest(a: DocumentAnalyzer, text: string, filename: string): (q: ChatRequest)
    ensures q.url == a.apiUrl && q.authorization == a.authorization && q.model == a.model
    ensures q.prompt == Prompt(filename, text)
    ensures q.temperatureTenths == TemperatureTenths && q.maxTokens == MaxTokens && q.timeoutSeconds == TimeoutSeconds
  {
    ChatRequest(a.apiUrl, a.authorization, a.model, Prompt(filename, text), TemperatureTenths, MaxTokens, TimeoutSeconds)
  }

  /**
   * What the HTTP exchange produced: a reply with its status, its body text and the
   * `choices[0].message.content` it decodes to (or the message of the error raised while
   * decoding), or the message of a transport error.
   */
  datatype ApiReply = Reply(status: int, body: string, content: Result<string, string>) | TransportError(message: string)

  type ChatApi = ChatRequest -> ApiReply

  const AiFailurePrefix: string := "AI analysis failed: "

  /** `analyze_medical_document`: the model's answer, or the wrapped message of what failed. */
  function AnalyzeMedicalDocument(a: DocumentAnalyzer, text: string, filename: string, api: ChatApi): (r: Result<string, string>)
    ensures var reply := api(BuildRequest(a, text, filename));
      && (r.Success? <==> reply.Reply? && reply.status == 200 && reply.content.Success?)
      && (r.Success? ==> r.value == reply.content.value)
      && (reply.Reply? && reply.status != 200 ==>
            r == Failure(AiFailurePrefix + "Mistral API error: " + IntToString(reply.status) + " - " + reply.body))
    ensures r.Failure? ==> |r.error| >= |AiFailurePrefix| && r.error[..|AiFailurePrefix|] == AiFailurePrefix
  {
    match api(BuildRequest(a, text, filename))
    case TransportError(m) => Failure(AiFailurePrefix + m)
    case Reply(status, body, content) =>
      if status != 200 then Failure(AiFailurePrefix + "Mistral API error: " + IntToString(status) + " - " + body)
      else if content.Failure? then Failure(AiFailurePrefix + content.error)
      else Success(content.value)
  }

  /** Texts that agree on their first 12000 characters are analysed alike. */
  lemma AnalysisSeesOnlyLeadingText(a: DocumentAnalyzer, t1: string, t2: string, filename: string, api: ChatApi)
    requires Prefix(t1, PromptTextLimit) == Prefix(t2, PromptTextLimit)
    ensures AnalyzeMedicalDocument(a, t1, filename, api) == AnalyzeMedicalDocument(a, t2, filename, api)
  {
    assert BuildRequest(a, t1, filename) == BuildRequest(a, t2, filename);
  }

  const NoTextMessage: string := "No text content could be extracted from the PDF"

  /** What the `try` block of `analyze_document` ends with: the analysis, or the message raised. */
  function AnalysisOutcome(a: DocumentAnalyzer, files: map<string, seq<byte>>, d: Document, reader: PdfReader, api: ChatApi): (r: Result<string, string>)
    ensures r.Failure? ==>
              || (|r.error| >= |ExtractFailurePrefix| && r.error[..|ExtractFailurePrefix|] == ExtractFailurePrefix)
              || r.error == NoTextMessage
              || (|r.error| >= |AiFailurePrefix| && r.error[..|AiFailurePrefix|] == AiFailurePrefix)
    ensures ExtractionOutcome(files, d.filepath, reader).Failure? ==> r == ExtractionOutcome(files, d.filepath, reader)
    ensures ExtractionOutcome(files, d.filepath, reader) == Success([]) ==> r == Failure(NoTextMessage)
    ensures var extracted := ExtractionOutcome(files, d.filepath, reader);
      extracted.Success? && extracted.value != [] ==> r == AnalyzeMedicalDocument(a, extracted.value, d.filename, api)
  {
    var extracted := ExtractionOutcome(files, d.filepath, reader);
    if extracted.Failure? then extracted
    else if extracted.value == [] then Failure(NoTextMessage)
    else AnalyzeMedicalDocument(a, extracted.value, d.filename, api)
  }

  /**
   * An analysis succeeds only on a readable stored file whose pages are not all white
   * space and an API reply with status 200; its result is then the reply's content.
   */
  lemma AnalysisSuccessConditions(a: DocumentAnalyzer, files: map<string, seq<byte>>, d: Document, reader: PdfReader, api: ChatApi)
    requires AnalysisOutcome(a, files, d, reader, api).Success?
    ensures d.filepath in files && reader(files[d.filepath]).Pages?
    ensures var pages := reader(files[d.filepath]).texts;
      && (exists i, k :: 0 <= i < |pages| && 0 <= k < |pages[i]| && !IsSpace(pages[i][k]))
      && var reply := api(BuildRequest(a, ExtractedText(pages), d.filename));
         reply.Reply? && reply.status == 200 && reply.content == Success(AnalysisOutcome(a, files, d, reader, api).value)
  {
    var pages := reader(files[d.filepath]).texts;
    ExtractedTextEmptyIffBlankPages(pages);
  }

  /**
   * Conversely, a readable stored file with a page that is not all white space and an API
   * reply with status 200 and content give that content as the analysis.
   */
  lemma AnalysisSucceedsOnReadableText(a: DocumentAnalyzer, files: map<string, seq<byte>>, d: Document, reader: PdfReader,
                                       api: ChatApi, content: string)
    requires d.filepath in files && reader(files[d.filepath]).Pages?
    requires var pages := reader(files[d.filepath]).texts;
      && (exists i, k :: 0 <= i < |pages| && 0 <= k < |pages[i]| && !IsSpace(pages[i][k]))
      && var reply := api(BuildRequest(a, ExtractedText(pages), d.filename));
         reply.Reply? && reply.status == 200 && reply.content == Success(content)
    ensures AnalysisOutcome(a, files, d, reader, api) == Success(content)
  {
    ExtractedTextEmptyIffBlankPages(reader(files[d.filepath]).texts);
  }

  /** The row as the analysis leaves it, starting from `d` with its status set to 'processing'. */
  function FinalDocument(d: Document, outcome: Result<string, string>, now: int): (f: Document)
    ensures f.analysisStatus != Processing
    ensures f.analysisStatus == Completed <==> outcome.Success?
    ensures f.analysisStatus == Failed <==> outcome.Failure?
    ensures outcome.Success? ==> f.analysisResult == Some(outcome.value) && f.analyzedAt == Some(now)
    ensures outcome.Failure? ==> f.analysisResult == Some("Analysis failed: " + outcome.error) && f.analyzedAt == d.analyzedAt
    ensures f.id == d.id && f.filename == d.filename && f.filepath == d.filepath
    ensures f.filesize == d.filesize && f.createdAt == d.createdAt
  {
    var processing := d.(analysisStatus := Processing);
    match outcome
    case Success(result) => processing.(analysisResult := Some(result), analysisStatus := Completed, analyzedAt := Some(now))
    case Failure(m) => processing.(analysisStatus := Failed, analysisResult := Some("Analysis failed: " + m))
  }

  /** The `try` block of `analyze_document` after the first save: extraction, the blank check and the API call. */
  method RunAnalysis(a: DocumentAnalyzer, files: map<string, seq<byte>>, d: Document, reader: PdfReader, api: ChatApi)
    returns (r: Result<string, string>)
    ensures r == AnalysisOutcome(a, files, d, reader, api)
  {
    var extracted := ExtractTextFromPdf(files, d.filepath, reader);
    if extracted.Failure? {
      r := extracted;
    } else if extracted.value == [] {
      r := Failure(NoTextMessage);
    } else {
      r := AnalyzeMedicalDocument(a, extracted.value, d.filename, api);
    }
  }

  /** The second save of `analyze_document`: the outcome written into the row. */
  method SaveOutcome(s: Storage, document: Document, r: Result<string, string>, now: int) returns (updated: Document)
    requires s.Valid() && document.id in s.table
    modifies s
    ensures s.Valid()
    ensures updated == FinalDocument(document, r, now)
    ensures s.writes == old(s.writes) + [updated]
    ensures s.table == old(s.table)[document.id := updated]
    ensures s.files == old(s.files) && s.nextId == old(s.nextId) && s.tokens == old(s.tokens)
  {
    updated := FinalDocument(document, r, now);
    s.SaveDocument(updated);
  }

  /**
   * `analyze_document`: saves the row as 'processing' before anything else, then saves
   * it once more as 'completed' with the result and time, or as 'failed' with the message.
   */
  method AnalyzeDocument(a: DocumentAnalyzer, s: Storage, d: Document, reader: PdfReader, api: ChatApi, now: int)
    returns (r: Result<string, string>, updated: Document)
    requires s.Valid() && d.id in s.table
    modifies s
    ensures s.Valid()
    ensures r == AnalysisOutcome(a, old(s.files), d, reader, api)
    ensures updated == FinalDocument(d, r, now)
    ensures s.writes == old(s.writes) + [d.(analysisStatus := Processing), updated]
    ensures s.table == old(s.table)[d.id := updated]
    ensures s.files == old(s.files) && s.nextId == old(s.nextId) && s.tokens == old(s.tokens)
  {
    var document := d.(analysisStatus := Processing);
    s.SaveDocument(document);
    r := RunAnalysis(a, s.files, d, reader, api);
    updated := SaveOutcome(s, document, r, now);
    MapOverwrite(old(s.table), d.id, document, updated);
  }
}
