/**
 * The serializers of backend/documents/serializers.py: the upload serializer's field,
 * per-field and object-level validation, and the two read-only views of a `Document`.
 */
module Serializers {
  import opened Wrappers
  import opened Validators
  import opened Models
  import opened Utils

  /** What the multipart form carries under the key `file`. */
  datatype FormValue = FilePart(file: UploadedFile) | TextPart(text: string)

  /** The stock messages of Django REST framework's `FileField`. */
  const NotAFileMessage: string := "The submitted data was not a file. Check the encoding type on the form."
  const NoNameMessage: string := "No filename could be determined."
  const EmptyFileMessage: string := "The submitted file is empty."

  /** The object-level error of `DocumentUploadSerializer.validate`. */
  const NoFileMessage: string := "No file provided"

  /** `serializer.errors`: the messages collected under one key (`file` or `non_field_errors`). */
  datatype SerializerErrors = SerializerErrors(field: string, messages: seq<string>)

  /**
   * `FileField.to_internal_value`: anything but a file is refused, then a file without a
   * name, then an empty file (`allow_empty_file` is off).
   */
  function FileFieldValue(v: FormValue): (r: Result<UploadedFile, string>)
    ensures r.Success? <==> v.FilePart? && v.file.name != [] && v.file.Size() > 0
    ensures r.Success? ==> r.value == v.file
    ensures v.TextPart? ==> r == Failure(NotAFileMessage)
  {
    match v
    case TextPart(_) => Failure(NotAFileMessage)
    case FilePart(f) =>
      if f.name == [] then Failure(NoNameMessage)
      else if f.Size() == 0 then Failure(EmptyFileMessage)
      else Success(f)
  }

  /**
   * `validate_file`: the file is kept exactly when `validate_uploaded_file` accepts it;
   * otherwise the validator's message becomes the field error.
   */
  function ValidateFile(f: UploadedFile): (r: Result<UploadedFile, string>)
    ensures r.Success? <==> AcceptableUpload(f)
    ensures r.Success? ==> r.value == f
    ensures r.Failure? ==> r.error == ValidateUploadedFile(f).error.Message()
  {
    var check := ValidateUploadedFile(f);
    if check.Pass? then Success(f) else Failure(check.error.Message())
  }

  /** `validate`: an uploaded file is falsy exactly when its name is empty. */
  function Validate(file: UploadedFile): (r: Outcome<string>)
    ensures r.Pass? <==> file.name != []
    ensures r.Fail? ==> r.error == NoFileMessage
  {
    if file.name == [] then Fail(NoFileMessage) else Pass
  }

  /**
   * `is_valid()` on a form whose `file` key is present: field conversion, then
   * `validate_file`, then `validate`; the validated file or the collected errors.
   */
  function IsValid(v: FormValue): (r: Result<UploadedFile, SerializerErrors>)
    ensures r.Success? <==> v.FilePart? && v.file.Size() > 0 && AcceptableUpload(v.file)
    ensures r.Success? ==> r.value == v.file
    ensures r.Failure? ==> r.error.field == "file" && |r.error.messages| == 1
    ensures v.FilePart? && v.file.name != [] && v.file.Size() > 0 && !AcceptableUpload(v.file) ==>
              r == Failure(SerializerErrors("file", [ValidateUploadedFile(v.file).error.Message()]))
  {
    var field := FileFieldValue(v);
    if field.Failure? then
      Failure(SerializerErrors("file", [field.error]))
    else
      var validated := ValidateFile(field.value);
      if validated.Failure? then
        Failure(SerializerErrors("file", [validated.error]))
      else
        var whole := Validate(validated.value);
        if whole.Fail? then Failure(SerializerErrors("non_field_errors", [NoFileMessage]))
        else Success(validated.value)
  }

  /**
   * `validate` never rejects what the field let through: a file with a name reaches it,
   * so "No file provided" is never among the serializer's errors.
   */
  lemma ValidateNeverRejectsField(v: FormValue)
    requires FileFieldValue(v).Success?
    ensures Validate(FileFieldValue(v).value).Pass?
  {
  }

  /** An accepted upload always carries a non-empty, safe name with a `.pdf` extension. */
  lemma AcceptedUploadIsNamedPdf(v: FormValue)
    requires IsValid(v).Success?
    ensures var f := IsValid(v).value;
      0 < |f.name| <= MaxFilenameLength && HasPdfExtension(f.name) && 0 < f.Size() <= MaxFileSize
  {
    var f := IsValid(v).value;
    assert ValidateFilenameSafety(f.name).Pass?;
  }

  /** `DocumentSerializer(document).data`: six of the row's fields, never the path or the analysis. */
  datatype DocumentView = DocumentView(
    id: int,
    filename: string,
    filesize: int,
    createdAt: int,
    analysisStatus: string,
    analyzedAt: Option<int>)

  /** The view of a row: its own listed fields, and its status under a name that reads back as that status. */
  function Serialize(d: Document): (v: DocumentView)
    ensures v.id == d.id && v.filename == d.filename && v.filesize == d.filesize
    ensures v.createdAt == d.createdAt && v.analyzedAt == d.analyzedAt
    ensures ParseStatus(v.analysisStatus) == Some(d.analysisStatus)
  {
    StatusRoundTrip(d.analysisStatus);
    DocumentView(d.id, d.filename, d.filesize, d.createdAt, d.analysisStatus.Name(), d.analyzedAt)
  }

  /**
   * Two rows serialize alike exactly when they agree on the six listed fields: the view
   * loses `filepath` and `analysis_result` and nothing else.
   */
  lemma SerializeKeepsListedFields(d1: Document, d2: Document)
    ensures Serialize(d1) == Serialize(d2) <==>
      && d1.id == d2.id && d1.filename == d2.filename && d1.filesize == d2.filesize
      && d1.createdAt == d2.createdAt && d1.analysisStatus == d2.analysisStatus
      && d1.analyzedAt == d2.analyzedAt
  {
    StatusRoundTrip(d1.analysisStatus);
    StatusRoundTrip(d2.analysisStatus);
  }

  /** `DocumentDetailSerializer(document).data`: four fields and whether the file is still stored. */
  datatype DetailView = DetailView(id: int, filename: string, filesize: int, createdAt: int, fileExists: bool)

  /** `file_exists` is read from the storage at the moment of serialization. */
  function SerializeDetail(d: Document, s: Storage): (v: DetailView)
    reads s
    ensures v.fileExists <==> d.filepath in s.files
    ensures v.id == d.id && v.filename == d.filename && v.filesize == d.filesize && v.createdAt == d.createdAt
  {
    DetailView(d.id, d.filename, d.filesize, d.createdAt, s.FileExists(d.filepath))
  }
}
