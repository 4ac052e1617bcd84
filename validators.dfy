/**
 * Upload validation (`DocumentValidator`) and API input validation (`InputValidator`)
 * of backend/documents/validators.py. Each check returns `Pass` or the error it raises.
 */
module Validators {
  import opened Wrappers
  import opened Strings

  type byte = b: int | 0 <= b < 256

  /** `DocumentValidator.MAX_FILE_SIZE`: 10 MiB. */
  const MaxFileSize: int := 10 * 1024 * 1024
  /** Longest filename `validate_filename_safety` accepts and `sanitize_filename` returns. */
  const MaxFilenameLength: int := 255
  /** The single entry of `ALLOWED_EXTENSIONS`. */
  const AllowedExtension: string := ".pdf"
  /** The single entry of `ALLOWED_MIME_TYPES`. */
  const AllowedMimeType: string := "application/pdf"
  /** The magic bytes `%PDF` the header fallback looks for. */
  const PdfHeader: seq<byte> := [0x25, 0x50, 0x44, 0x46]

  /** An uploaded file: its client-side name, its bytes and the declared content type. */
  datatype UploadedFile = UploadedFile(name: string, content: seq<byte>, contentType: Option<string>) {
    /** `uploaded_file.size`. */
    function Size(): nat { |content| }
  }

  /** The `FileValidationError`s the validators raise. */
  datatype FileError =
    | EmptyFilename
    | InvalidPathCharacters
    | InvalidControlCharacters
    | FilenameTooLong
    | ExtensionNotAllowed(extension: string)
    | FileTooLarge(size: nat)
    | MimeTypeNotAllowed(mime: string)
    | ContentFileMissing
    | ContentTypeMismatch(detected: string)
    | HeaderCheckFailed
  {
    /** `str(e)` of the raised error. */
    function Message(): string {
      match this
      case EmptyFilename => "Filename cannot be empty"
      case InvalidPathCharacters => "Filename contains invalid path characters"
      case InvalidControlCharacters => "Filename contains invalid control characters"
      case FilenameTooLong => "Filename too long (maximum 255 characters)"
      case ExtensionNotAllowed(ext) =>
        "File extension '" + ext + "' not allowed. Allowed extensions: " + AllowedExtension
      case FileTooLarge(size) =>
        "File size " + MegabyteText(size) + "MB exceeds maximum allowed size of 10.0MB"
      case MimeTypeNotAllowed(mime) =>
        "MIME type '" + mime + "' not allowed. Allowed types: " + AllowedMimeType
      case ContentFileMissing => "File does not exist for content validation"
      case ContentTypeMismatch(detected) =>
        "File content type '" + detected + "' does not match expected PDF format"
      case HeaderCheckFailed => "File does not appear to be a valid PDF (header check failed)"
    }
  }

  /** One mebibyte, the divisor of the size message. */
  const Mebibyte: int := 1024 * 1024

  /**
   * The size in tenths of a mebibyte as `:.1f` rounds it. For sizes below 2^53 the
   * quotient `size / (1024 * 1024)` is exact in binary floating point, and Python then
   * rounds it correctly to one decimal, an exact tie going to the even digit
   * (10.25 prints as "10.2").
   */
  function TenthsOfMegabyte(size: nat): (t: nat)
    ensures 2 * (size * 10 - t * Mebibyte) <= Mebibyte
    ensures 2 * (t * Mebibyte - size * 10) <= Mebibyte
    ensures 2 * (size * 10 - t * Mebibyte) == Mebibyte || 2 * (t * Mebibyte - size * 10) == Mebibyte ==> t % 2 == 0
  {
    var q := size * 10 / Mebibyte;
    var rest := size * 10 % Mebibyte;
    if 2 * rest > Mebibyte || (2 * rest == Mebibyte && q % 2 == 1) then q + 1 else q
  }

  /** `f"{size / (1024 * 1024):.1f}"` for a non-negative size. */
  function MegabyteText(size: nat): (r: string)
    ensures |r| >= 3 && r[|r| - 2] == '.' && IsDigit(r[|r| - 1])
    ensures AllDigits(r[..|r| - 2])
    ensures ParseNat(r[..|r| - 2]) * 10 + DigitValue(r[|r| - 1]) == TenthsOfMegabyte(size)
  {
    var tenths := TenthsOfMegabyte(size);
    var whole := NatToString(tenths / 10);
    ParseNatToString(tenths / 10);
    var r := whole + "." + NatToString(tenths % 10);
    assert r[..|r| - 2] == whole;
    r
  }

  /** `'..' in s`. */
  predicate HasDoubleDot(s: string) {
    exists i :: 0 <= i < |s| - 1 && s[i] == '.' && s[i + 1] == '.'
  }

  /** `any(ord(char) < 32 for char in s)`. */
  predicate HasControlChar(s: string) {
    exists i :: 0 <= i < |s| && s[i] as int < 32
  }

  /** `validate_filename_safety`: rejects empty names, path characters, control characters, overlong names. */
  function ValidateFilenameSafety(filename: string): (r: Outcome<FileError>)
    ensures r.Pass? <==>
      && 0 < |filename| <= MaxFilenameLength
      && (forall i :: 0 <= i < |filename| ==> filename[i] != '/' && filename[i] != '\\' && filename[i] as int >= 32)
      && (forall i :: 0 <= i < |filename| - 1 ==> filename[i] != '.' || filename[i + 1] != '.')
    ensures filename == [] ==> r == Fail(EmptyFilename)
    ensures r.Fail? ==> r.error in {EmptyFilename, InvalidPathCharacters, InvalidControlCharacters, FilenameTooLong}
  {
    if filename == [] then Fail(EmptyFilename)
    else if HasDoubleDot(filename) || '/' in filename || '\\' in filename then Fail(InvalidPathCharacters)
    else if HasControlChar(filename) then Fail(InvalidControlCharacters)
    else if |filename| > MaxFilenameLength then Fail(FilenameTooLong)
    else Pass
  }

  /** `filename.lower().endswith('.pdf')`. */
  predicate EndsWithPdf(s: string) {
    |s| >= 4 && Lower(s[|s| - 4..]) == AllowedExtension
  }

  /**
   * The name has ".pdf" as its `splitext` extension, read case-insensitively: it ends in
   * ".pdf" in any case, and its last path component has a character other than '.' before
   * that final dot (so ".pdf" and "..pdf" have no extension at all).
   */
  predicate HasPdfExtension(filename: string) {
    && EndsWithPdf(filename)
    && exists k :: LastIndexOf(filename, '/') < k < |filename| - 4 && filename[k] != '.'
  }

  /** `validate_file_extension`: the lower-cased name's `splitext` suffix must be ".pdf". */
  function ValidateFileExtension(filename: string): (r: Outcome<FileError>)
    ensures r.Pass? <==> HasPdfExtension(filename)
    ensures r.Fail? ==> r.error == EmptyFilename || r.error == ExtensionNotAllowed(SplitExt(Lower(filename)))
  {
    if filename == [] then Fail(EmptyFilename)
    else
      var ext := SplitExt(Lower(filename));
      ExtensionIsPdf(filename);
      if ext == AllowedExtension then Pass else Fail(ExtensionNotAllowed(ext))
  }

  /** The `splitext` suffix of the lower-cased name is ".pdf" exactly when `HasPdfExtension` holds. */
  lemma ExtensionIsPdf(filename: string)
    ensures SplitExt(Lower(filename)) == AllowedExtension <==> HasPdfExtension(filename)
  {
    LastIndexOfLower(filename, '.');
    LastIndexOfLower(filename, '/');
    if SplitExt(Lower(filename)) == AllowedExtension {
      PdfSuffixGivesExtension(filename);
    }
    if HasPdfExtension(filename) {
      ExtensionGivesPdfSuffix(filename);
    }
  }

  /** Lower-casing commutes with taking a suffix. */
  lemma LowerSuffix(s: string, m: nat)
    requires m <= |s|
    ensures Lower(s[m..]) == Lower(s)[m..]
  {
  }

  /** A name whose lower-cased extension is ".pdf" ends in ".pdf" in some case and has a stem. */
  lemma PdfSuffixGivesExtension(filename: string)
    requires LastIndexOf(Lower(filename), '.') == LastIndexOf(filename, '.')
    requires LastIndexOf(Lower(filename), '/') == LastIndexOf(filename, '/')
    requires SplitExt(Lower(filename)) == AllowedExtension
    ensures HasPdfExtension(filename)
  {
    var p := Lower(filename);
    var n := |filename|;
    var dot := LastIndexOf(p, '.');
    var sep := LastIndexOf(p, '/');
    assert p[dot..] == AllowedExtension;
    assert dot == n - 4;
    LowerSuffix(filename, n - 4);
    var k :| sep < k < dot && p[k] != '.';
    assert filename[k] != '.';
  }

  /** A name ending in ".pdf" in any case, with a stem, has ".pdf" as its lower-cased extension. */
  lemma ExtensionGivesPdfSuffix(filename: string)
    requires LastIndexOf(Lower(filename), '.') == LastIndexOf(filename, '.')
    requires LastIndexOf(Lower(filename), '/') == LastIndexOf(filename, '/')
    requires HasPdfExtension(filename)
    ensures SplitExt(Lower(filename)) == AllowedExtension
  {
    var p := Lower(filename);
    var n := |filename|;
    LowerSuffix(filename, n - 4);
    var dot := LastIndexOf(p, '.');
    var sep := LastIndexOf(p, '/');
    PdfSuffixDot(p);
    var k :| sep < k < n - 4 && filename[k] != '.';
    assert p[k] != '.';
    assert sep < k < dot && p[k] != '.';
    assert p[dot..] == AllowedExtension;
  }

  /** In a string ending in ".pdf", the last '.' is the one that starts that suffix. */
  lemma PdfSuffixDot(p: string)
    requires |p| >= 4 && p[|p| - 4..] == AllowedExtension
    ensures LastIndexOf(p, '.') == |p| - 4
  {
    var n := |p|;
    assert p[n - 4] == '.' && p[n - 3] == 'p' && p[n - 2] == 'd' && p[n - 1] == 'f';
  }

  /** `validate_file_size`: a size of exactly 10 MiB passes, anything larger fails. */
  function ValidateFileSize(size: nat): (r: Outcome<FileError>)
    ensures r.Pass? <==> size <= MaxFileSize
    ensures r.Fail? ==> r.error == FileTooLarge(size)
  {
    if size > MaxFileSize then Fail(FileTooLarge(size)) else Pass
  }

  /** `validate_mime_type`: an absent or empty type passes, otherwise it must be "application/pdf". */
  function ValidateMimeType(contentType: Option<string>): (r: Outcome<FileError>)
    ensures r.Pass? <==> contentType == None || contentType.value in {"", AllowedMimeType}
    ensures r.Fail? ==> r.error == MimeTypeNotAllowed(contentType.value)
  {
    if contentType.Some? && contentType.value != "" && contentType.value != AllowedMimeType then
      Fail(MimeTypeNotAllowed(contentType.value))
    else Pass
  }

  /** The first failure among checks run in order, or `Pass` when all pass. */
  function FirstFailure(checks: seq<Outcome<FileError>>): (r: Outcome<FileError>)
    ensures r.Pass? <==> forall i :: 0 <= i < |checks| ==> checks[i].Pass?
    ensures r.Fail? ==> exists i :: 0 <= i < |checks| && checks[i] == r && forall j :: 0 <= j < i ==> checks[j].Pass?
  {
    if checks == [] then Pass
    else if checks[0].Fail? then checks[0]
    else
      var rest := FirstFailure(checks[1..]);
      assert forall i :: 1 <= i < |checks| ==> checks[i] == checks[1..][i - 1];
      rest
  }

  /** The file passes every upload check. */
  predicate AcceptableUpload(f: UploadedFile) {
    && ValidateFilenameSafety(f.name).Pass?
    && HasPdfExtension(f.name)
    && f.Size() <= MaxFileSize
    && (f.contentType == None || f.contentType.value in {"", AllowedMimeType})
  }

  /**
   * `validate_uploaded_file`: safety, then extension, then size, then (only when a
   * content type is present) MIME type; the first failing check's error is raised.
   */
  function ValidateUploadedFile(f: UploadedFile): (r: Outcome<FileError>)
    ensures r.Pass? <==> AcceptableUpload(f)
  {
    var safety := ValidateFilenameSafety(f.name);
    if safety.Fail? then safety
    else
      var extension := ValidateFileExtension(f.name);
      if extension.Fail? then extension
      else
        var size := ValidateFileSize(f.Size());
        if size.Fail? then size
        else if f.contentType.Some? && f.contentType.value != "" then ValidateMimeType(f.contentType)
        else Pass
  }

  /** The checks of `validate_uploaded_file`, in the order it runs them. */
  function UploadChecks(f: UploadedFile): seq<Outcome<FileError>> {
    [ValidateFilenameSafety(f.name), ValidateFileExtension(f.name), ValidateFileSize(f.Size()), ValidateMimeType(f.contentType)]
  }

  /** The error `validate_uploaded_file` raises is the first failing check's, in the order safety, extension, size, MIME. */
  lemma ValidateUploadedFileOrder(f: UploadedFile)
    ensures ValidateUploadedFile(f) == FirstFailure(UploadChecks(f))
  {
    var checks := UploadChecks(f);
    FirstFailureOfFour(checks[0], checks[1], checks[2], checks[3]);
    assert checks == [checks[0], checks[1], checks[2], checks[3]];
  }

  /** Four checks in a row: the first one that fails decides. */
  lemma FirstFailureOfFour(a: Outcome<FileError>, b: Outcome<FileError>, c: Outcome<FileError>, d: Outcome<FileError>)
    ensures FirstFailure([a, b, c, d]) == if a.Fail? then a else if b.Fail? then b else if c.Fail? then c else d
  {
    assert [d][1..] == [];
    assert FirstFailure([d]) == d;
    assert [c, d][1..] == [d];
    assert FirstFailure([c, d]) == if c.Fail? then c else d;
    assert [b, c, d][1..] == [c, d];
    assert FirstFailure([b, c, d]) == if b.Fail? then b else FirstFailure([c, d]);
    assert [a, b, c, d][1..] == [b, c, d];
    assert FirstFailure([a, b, c, d]) == if a.Fail? then a else FirstFailure([b, c, d]);
  }

  /** What `python-magic` made of the saved file, if it is installed. */
  datatype ContentProbe =
    | Detected(mime: string)   // `magic.from_file(path, mime=True)` answered
    | MagicUnavailable         // the library is not installed: fall back to the header check
    | ProbeFailed              // the probe raised something other than a validation error

  /**
   * `validate_file_content` on the saved file: a missing file fails; a detected MIME type
   * must be "application/pdf"; without `python-magic` the first four bytes must be `%PDF`;
   * any other exception skips the check.
   */
  function ValidateFileContent(present: bool, probe: ContentProbe, content: seq<byte>): (r: Outcome<FileError>)
    ensures !present ==> r == Fail(ContentFileMissing)
    ensures present && probe.Detected? ==> (r.Pass? <==> probe.mime == AllowedMimeType)
    ensures present && probe.MagicUnavailable? ==> (r.Pass? <==> |content| >= 4 && content[..4] == PdfHeader)
    ensures present && probe.ProbeFailed? ==> r.Pass?
  {
    if !present then Fail(ContentFileMissing)
    else match probe
      case Detected(mime) => if mime != AllowedMimeType then Fail(ContentTypeMismatch(mime)) else Pass
      case MagicUnavailable => if Prefix(content, 4) != PdfHeader then Fail(HeaderCheckFailed) else Pass
      case ProbeFailed => Pass
  }

  /** What `int(document_id)` makes of the argument: an integer, or a `ValueError`/`TypeError`. */
  datatype IdArgument = Integer(value: int) | NotAnInteger

  /** `validate_document_id`: the id itself when positive, otherwise the error raised. */
  function ValidateDocumentId(arg: IdArgument): (r: Result<int, string>)
    ensures r.Success? <==> arg.Integer? && arg.value > 0
    ensures r.Success? ==> r.value == arg.value
    ensures arg.Integer? && arg.value <= 0 ==> r == Failure("Document ID must be a positive integer")
    ensures arg.NotAnInteger? ==> r == Failure("Document ID must be a valid integer")
  {
    match arg
    case NotAnInteger => Failure("Document ID must be a valid integer")
    case Integer(id) => if id <= 0 then Failure("Document ID must be a positive integer") else Success(id)
  }

  /** `char.isalnum() or char in '.-_()[]{}'`. */
  predicate IsSafeChar(c: char) {
    IsAlnum(c) || c in ".-_()[]{}"
  }

  /** The character `sanitize_filename` emits for `c`. */
  function SafeCharFor(c: char): char {
    if IsSafeChar(c) then c else '_'
  }

  /** `''.join(safe_chars)`: every unsafe character of the name replaced by '_'. */
  function MapUnsafe(name: string): string {
    seq(|name|, i requires 0 <= i < |name| => SafeCharFor(name[i]))
  }

  /** The value `sanitize_filename` returns. */
  function Sanitized(name: string): (r: string)
    ensures 0 < |r| <= MaxFilenameLength
    ensures forall i :: 0 <= i < |r| ==> IsSafeChar(r[i])
    ensures name == [] ==> r == "unnamed_file.pdf"
    ensures name != [] ==> |r| >= |name| || |r| == MaxFilenameLength
    ensures name != [] ==> forall i :: 0 <= i < |name| && i < MaxFilenameLength ==> r[i] == SafeCharFor(name[i])
    ensures name != [] && EndsWithPdf(MapUnsafe(name)) ==> r == Prefix(MapUnsafe(name), MaxFilenameLength)
    ensures name != [] && !EndsWithPdf(MapUnsafe(name)) ==>
              r == Prefix(MapUnsafe(name) + AllowedExtension, MaxFilenameLength)
    ensures name != [] && |name| <= MaxFilenameLength - 4 && !EndsWithPdf(MapUnsafe(name)) ==>
              r == MapUnsafe(name) + AllowedExtension
  {
    if name == [] then
      assert forall i :: 0 <= i < |"unnamed_file.pdf"| ==> IsAlnum("unnamed_file.pdf"[i]) || "unnamed_file.pdf"[i] in ".-_()[]{}";
      "unnamed_file.pdf"
    else
      var mapped := MapUnsafe(name);
      MapUnsafeSafe(name);
      var suffixed := if EndsWithPdf(mapped) then mapped else mapped + AllowedExtension;
      assert forall i :: 0 <= i < |suffixed| ==> IsSafeChar(suffixed[i]);
      Prefix(suffixed, MaxFilenameLength)
  }

  /** `sanitize_filename`: builds the safe characters one by one, then adds ".pdf" and truncates. */
  method SanitizeFilename(name: string) returns (r: string)
    ensures r == Sanitized(name)
  {
    if name == [] {
      return "unnamed_file.pdf";
    }
    var safeChars: string := [];
    var i := 0;
    while i < |name|
      invariant 0 <= i <= |name|
      invariant safeChars == MapUnsafe(name[..i])
    {
      var c := name[i];
      if IsSafeChar(c) {
        safeChars := safeChars + [c];
      } else {
        safeChars := safeChars + ['_'];
      }
      i := i + 1;
    }
    assert name[..i] == name;
    var sanitized := safeChars;
    if !EndsWithPdf(sanitized) {
      sanitized := sanitized + AllowedExtension;
    }
    r := Prefix(sanitized, MaxFilenameLength);
  }

  /** The mapped name keeps the input's length and holds only safe characters. */
  lemma MapUnsafeSafe(name: string)
    ensures |MapUnsafe(name)| == |name|
    ensures forall i :: 0 <= i < |name| ==> IsSafeChar(MapUnsafe(name)[i])
    ensures forall i :: 0 <= i < |name| ==> IsSafeChar(name[i]) ==> MapUnsafe(name)[i] == name[i]
    ensures forall i :: 0 <= i < |name| ==> !IsSafeChar(name[i]) ==> MapUnsafe(name)[i] == '_'
  {
  }

  /** Names of at most 251 characters keep the ".pdf" suffix through truncation. */
  lemma SanitizedEndsWithPdf(name: string)
    requires |name| <= MaxFilenameLength - 4
    ensures EndsWithPdf(Sanitized(name))
  {
    if name != [] {
      var mapped := MapUnsafe(name);
      var suffixed := if EndsWithPdf(mapped) then mapped else mapped + AllowedExtension;
      assert |suffixed| <= MaxFilenameLength;
      if !EndsWithPdf(mapped) {
        assert suffixed[|suffixed| - 4..] == AllowedExtension;
      }
    }
  }

  /** A name already made of safe characters is left unchanged by the mapping. */
  lemma MapUnsafeOfSafe(s: string)
    requires forall i :: 0 <= i < |s| ==> IsSafeChar(s[i])
    ensures MapUnsafe(s) == s
  {
  }

  /** Sanitizing a sanitized name changes nothing. */
  lemma SanitizedIdempotent(name: string)
    ensures Sanitized(Sanitized(name)) == Sanitized(name)
  {
    SanitizedEndsWithPdfOrFull(name);
    SanitizedOfSanitizedShape(Sanitized(name));
  }

  /** The ".pdf" suffix of a sanitized name is only ever lost to truncation at 255 characters. */
  lemma SanitizedEndsWithPdfOrFull(name: string)
    ensures EndsWithPdf(Sanitized(name)) || |Sanitized(name)| == MaxFilenameLength
  {
    if name != [] {
      var mapped := MapUnsafe(name);
      var suffixed := if EndsWithPdf(mapped) then mapped else mapped + AllowedExtension;
      assert !EndsWithPdf(mapped) ==> suffixed[|suffixed| - 4..] == AllowedExtension;
    }
  }

  /** A non-empty safe name that ends in ".pdf" or already has 255 characters is its own sanitized form. */
  lemma SanitizedOfSanitizedShape(r: string)
    requires 0 < |r| <= MaxFilenameLength
    requires forall i :: 0 <= i < |r| ==> IsSafeChar(r[i])
    requires EndsWithPdf(r) || |r| == MaxFilenameLength
    ensures Sanitized(r) == r
  {
    MapUnsafeOfSafe(r);
    if !EndsWithPdf(r) {
      assert Prefix(r + AllowedExtension, MaxFilenameLength) == r;
    }
  }
}
