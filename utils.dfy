/**
 * `DocumentStorageService` and `DatabaseService` of backend/documents/utils.py, together
 * with the overridden `Document.delete` of backend/documents/models.py, as one in-memory
 * store: a file map from path to bytes and a record table from id to `Document`.
 */
module Utils {
  import opened Wrappers
  import opened Strings
  import opened Validators
  import opened Models

  /** Stands for `settings.MEDIA_ROOT`; only its shape (no digits after the '/') matters here. */
  const MediaRoot: string := "media"

  /**
   * `generate_unique_filename`: a unique prefix followed by the original's `splitext`
   * extension, case preserved. The prefix is the decimal text of a token the store never
   * hands out twice, standing for `uuid.uuid4()`.
   */
  function UniqueFilename(token: nat, original: string): (r: string)
    ensures |r| >= 1 && IsDigit(r[0])
    ensures forall i :: 0 <= i < |r| ==> r[i] != '/'
    ensures |r| >= |SplitExt(original)| && r[|r| - |SplitExt(original)|..] == SplitExt(original)
  {
    var digits := NatToString(token);
    var ext := SplitExt(original);
    assert forall i :: 0 <= i < |digits| ==> IsDigit(digits[i]);
    assert forall i :: 0 <= i < |ext| ==> ext[i] in ext;
    digits + ext
  }

  /** `os.path.join(settings.MEDIA_ROOT, name)`: the name placed directly below the media root. */
  function MediaPath(name: string): (r: string)
    ensures |r| == |MediaRoot| + 1 + |name|
    ensures r[..|MediaRoot| + 1] == MediaRoot + "/" && r[|MediaRoot| + 1..] == name
  {
    MediaRoot + "/" + name
  }

  /** The token a saved path was generated from, or -1 for a path the store cannot have generated. */
  function TokenOf(path: string): int {
    var prefix := MediaRoot + "/";
    if |path| >= |prefix| && path[..|prefix|] == prefix then
      var digits := LeadingDigits(path[|prefix|..]);
      if digits == [] then -1 else ParseNat(digits)
    else -1
  }

  /** The unique name has the same extension as the original name. */
  lemma UniqueFilenameKeepsExtension(token: nat, original: string)
    ensures SplitExt(UniqueFilename(token, original)) == SplitExt(original)
  {
    var digits := NatToString(token);
    var ext := SplitExt(original);
    var u := digits + ext;
    DigitsThenExtension(digits, ext);
    if ext == [] {
      assert u == digits;
    } else {
      assert u[0] != '.';
      assert u[|digits|..] == ext;
    }
  }

  /** Digits followed by an extension hold no '/', and their last '.' is where the extension starts. */
  lemma DigitsThenExtension(digits: string, ext: string)
    requires |digits| >= 1 && AllDigits(digits)
    requires ext == [] || (ext[0] == '.' && (forall k :: 1 <= k < |ext| ==> ext[k] != '.') && '/' !in ext)
    ensures LastIndexOf(digits + ext, '/') == -1
    ensures LastIndexOf(digits + ext, '.') == if ext == [] then -1 else |digits|
  {
    var u := digits + ext;
    forall k | 0 <= k < |u|
      ensures u[k] != '/'
      ensures u[k] == '.' ==> ext != [] && k == |digits|
    {
      if k >= |digits| {
        assert u[k] == ext[k - |digits|];
      } else {
        assert u[k] == digits[k];
      }
    }
    var sep := LastIndexOf(u, '/');
    assert sep == -1;
    if ext != [] {
      assert u[|digits|] == '.';
    }
  }

  /** The token can be read back from the path a save produced. */
  lemma TokenOfSavedPath(token: nat, original: string)
    ensures TokenOf(MediaPath(UniqueFilename(token, original))) == token
  {
    var prefix := MediaRoot + "/";
    var path := MediaPath(UniqueFilename(token, original));
    var digits := NatToString(token);
    var ext := SplitExt(original);
    assert path[..|prefix|] == prefix;
    assert path[|prefix|..] == digits + ext;
    LeadingDigitsOfConcat(digits, ext);
    ParseNatToString(token);
  }

  /** Saves with different tokens never produce the same path. */
  lemma DistinctTokensDistinctPaths(t1: nat, t2: nat, original1: string, original2: string)
    requires t1 != t2
    ensures MediaPath(UniqueFilename(t1, original1)) != MediaPath(UniqueFilename(t2, original2))
  {
    TokenOfSavedPath(t1, original1);
    TokenOfSavedPath(t2, original2);
  }

  /** Writing a key twice leaves only the second value. */
  lemma MapOverwrite<K, V>(m: map<K, V>, k: K, v1: V, v2: V)
    ensures m[k := v1][k := v2] == m[k := v2]
  {
  }

  /** The keys of `table` below `bound`. */
  ghost function KeysBelow(table: map<int, Document>, bound: int): set<int> {
    set id | id in table && id < bound
  }

  /**
   * `docs` lists exactly the rows of `table` whose key is below `bound`, each as stored
   * under its own id.
   */
  ghost predicate ListsRowsBelow(docs: seq<Document>, table: map<int, Document>, bound: int) {
    && (forall x :: x in docs ==> x.id in table && table[x.id] == x && x.id < bound)
    && (forall id :: id in table && id < bound ==> table[id] in docs)
    && |docs| == |KeysBelow(table, bound)|
  }

  /** Inserting the row stored under `bound` extends the listing to the next bound. */
  lemma ListsOneMoreRow(docs: seq<Document>, table: map<int, Document>, bound: int)
    requires bound in table
    requires forall id :: id in table ==> table[id].id == id
    requires ListsRowsBelow(docs, table, bound)
    ensures ListsRowsBelow(InsertNewestFirst(docs, table[bound]), table, bound + 1)
  {
    var next := InsertNewestFirst(docs, table[bound]);
    InsertedRowsBelow(docs, table, bound);
    AllRowsBelowInserted(docs, table, bound);
    assert |next| == |multiset(next)| == |docs| + 1;
    KeysBelowStep(table, bound);
  }

  /** Raising the bound past a stored key adds exactly that key. */
  lemma KeysBelowStep(table: map<int, Document>, bound: int)
    requires bound in table
    ensures |KeysBelow(table, bound + 1)| == |KeysBelow(table, bound)| + 1
  {
    assert KeysBelow(table, bound + 1) == KeysBelow(table, bound) + {bound};
  }

  lemma InsertedRowsBelow(docs: seq<Document>, table: map<int, Document>, bound: int)
    requires bound in table
    requires forall id :: id in table ==> table[id].id == id
    requires forall x :: x in docs ==> x.id in table && table[x.id] == x && x.id < bound
    requires multiset(InsertNewestFirst(docs, table[bound])) == multiset(docs) + multiset{table[bound]}
    ensures forall x :: x in InsertNewestFirst(docs, table[bound]) ==> x.id in table && table[x.id] == x && x.id < bound + 1
  {
    var next := InsertNewestFirst(docs, table[bound]);
    forall x | x in next
      ensures x.id in table && table[x.id] == x && x.id < bound + 1
    {
      assert x in multiset(next);
    }
  }

  lemma AllRowsBelowInserted(docs: seq<Document>, table: map<int, Document>, bound: int)
    requires bound in table
    requires forall id :: id in table && id < bound ==> table[id] in docs
    requires multiset(InsertNewestFirst(docs, table[bound])) == multiset(docs) + multiset{table[bound]}
    ensures forall id :: id in table && id < bound + 1 ==> table[id] in InsertNewestFirst(docs, table[bound])
  {
    var next := InsertNewestFirst(docs, table[bound]);
    forall id | id in table && id < bound + 1
      ensures table[id] in next
    {
      if id != bound {
        assert table[id] in multiset(docs);
      }
      assert table[id] in multiset(next);
    }
  }

  /**
   * Django's default size of an upload chunk, 64 KiB. This applies to an upload spooled to
   * a temporary file; one held in memory (by default up to 2.5 MB) comes back from
   * `chunks()` as a single chunk, so for it only a failure of chunk 0 can occur.
   */
  const ChunkSize: nat := 64 * 1024

  /** Where writing an upload to disk raises, if anywhere. */
  datatype SaveFault =
    | NoFault
      /** `os.makedirs` or `open` raises: no file is created. */
    | OpenFails(message: string)
      /** The write of chunk number `chunk` (from 0) raises. */
    | WriteFails(chunk: nat, message: string)

  /** Whether every chunk of `f` is written: no open failure, and no failing chunk within the content. */
  predicate SaveCompletes(f: UploadedFile, fault: SaveFault)
  {
    match fault
    case NoFault => true
    case OpenFails(_) => false
    case WriteFails(k, _) => k * ChunkSize >= |f.content|
  }

  /**
   * The files after saving `f` at `path`: the whole content when the save completes,
   * nothing new when the open fails, and the chunks before the failing one otherwise.
   */
  function FilesAfterSave(files: map<string, seq<byte>>, path: string, f: UploadedFile, fault: SaveFault): (r: map<string, seq<byte>>)
    ensures SaveCompletes(f, fault) ==> r == files[path := f.content]
    ensures fault.OpenFails? ==> r == files
    ensures fault.WriteFails? && !SaveCompletes(f, fault) ==>
              r == files[path := f.content[..fault.chunk * ChunkSize]] && |r[path]| < |f.content|
  {
    if SaveCompletes(f, fault) then files[path := f.content]
    else if fault.OpenFails? then files
    else files[path := f.content[..fault.chunk * ChunkSize]]
  }

  /**
   * The `for chunk in uploaded_file.chunks()` loop of `save_file` on an opened file: how
   * many bytes reach the file, and whether a write raised.
   */
  method WriteChunks(f: UploadedFile, fault: SaveFault) returns (written: nat, failed: bool)
    requires !fault.OpenFails?
    ensures failed <==> !SaveCompletes(f, fault)
    ensures failed ==> written == fault.chunk * ChunkSize < |f.content|
    ensures !failed ==> written == |f.content|
  {
    written := 0;
    var chunk := 0;
    failed := false;
    while written < |f.content| && !failed
      invariant written == if chunk * ChunkSize <= |f.content| then chunk * ChunkSize else |f.content|
      invariant !failed && fault.WriteFails? && !SaveCompletes(f, fault) ==> chunk <= fault.chunk
      invariant failed ==> fault.WriteFails? && fault.chunk == chunk && written < |f.content|
      decreases |f.content| - written, !failed
    {
      if fault.WriteFails? && fault.chunk == chunk {
        failed := true;
      } else {
        written := if written + ChunkSize <= |f.content| then written + ChunkSize else |f.content|;
        chunk := chunk + 1;
      }
    }
  }

  /** The file system below `MEDIA_ROOT` and the `documents` table. */
  class Storage {
    /** The stored files, by path. */
    var files: map<string, seq<byte>>
    /** The `documents` table, by primary key. */
    var table: map<int, Document>
    /** The primary key the next created row receives. */
    var nextId: int
    /** How many unique-name tokens have been handed out. */
    var tokens: nat
    /** Every row written through `save()`, in order. */
    ghost var writes: seq<Document>

    ghost predicate Valid()
      reads this
    {
      && nextId >= 1
      && (forall id :: id in table ==> table[id].id == id && 1 <= id < nextId)
      && (forall p :: p in files ==> 0 <= TokenOf(p) < tokens)
    }

    constructor ()
      ensures Valid()
      ensures files == map[] && table == map[] && writes == []
    {
      files := map[];
      table := map[];
      nextId := 1;
      tokens := 0;
      writes := [];
    }

    /**
     * `DocumentStorageService.save_file`: the fresh path is opened for writing and the
     * content is written chunk by chunk. When the open raises, no file is created; when
     * the write of chunk `k` raises, the file holds the `k` chunks written before it.
     */
    method SaveFile(f: UploadedFile, fault: SaveFault) returns (r: Result<string, string>)
      requires Valid()
      modifies this
      ensures Valid()
      ensures r.Success? <==> SaveCompletes(f, fault)
      ensures r.Success? ==> r.value == MediaPath(UniqueFilename(old(tokens), f.name))
      ensures r.Failure? ==> r.error == fault.message
      ensures MediaPath(UniqueFilename(old(tokens), f.name)) !in old(files)
      ensures files == FilesAfterSave(old(files), MediaPath(UniqueFilename(old(tokens), f.name)), f, fault)
      ensures table == old(table) && nextId == old(nextId) && writes == old(writes)
      ensures tokens == old(tokens) + 1
    {
      var path := MediaPath(UniqueFilename(tokens, f.name));
      TokenOfSavedPath(tokens, f.name);
      tokens := tokens + 1;
      if fault.OpenFails? {
        return Failure(fault.message);
      }
      var written, failed := WriteChunks(f, fault);
      files := files[path := f.content[..written]];
      if failed {
        return Failure(fault.message);
      }
      assert f.content[..written] == f.content;
      r := Success(path);
    }

    /**
     * `DocumentStorageService.file_exists`: true for a stored path; in a consistent store
     * such a path is one a save generated.
     */
    predicate FileExists(path: string)
      reads this
      ensures FileExists(path) && Valid() ==> 0 <= TokenOf(path) < tokens
    {
      path in files
    }

    /** `DocumentStorageService.delete_file`: true exactly when there was a file to remove. */
    method DeleteFile(path: string) returns (deleted: bool)
      requires Valid()
      modifies this
      ensures Valid()
      ensures deleted == (path in old(files))
      ensures files == old(files) - {path}
      ensures table == old(table) && nextId == old(nextId) && tokens == old(tokens) && writes == old(writes)
    {
      if path in files {
        files := files - {path};
        deleted := true;
      } else {
        deleted := false;
      }
    }

    /** `DocumentStorageService.get_file_size`: the stored length, or 0 for a missing file. */
    function GetFileSize(path: string): (size: nat)
      reads this
      ensures path in files ==> size == |files[path]|
      ensures path !in files ==> size == 0
    {
      if path in files then |files[path]| else 0
    }

    /** `DatabaseService.create_document_record`: a new row with the given fields under a fresh id. */
    method CreateDocumentRecord(filename: string, filepath: string, filesize: int, now: int) returns (d: Document)
      requires Valid()
      modifies this
      ensures Valid()
      ensures d == NewDocument(old(nextId), filename, filepath, filesize, now)
      ensures d.id !in old(table)
      ensures table == old(table)[d.id := d]
      ensures files == old(files) && tokens == old(tokens)
      ensures writes == old(writes) + [d]
    {
      d := NewDocument(nextId, filename, filepath, filesize, now);
      table := table[nextId := d];
      nextId := nextId + 1;
      writes := writes + [d];
    }

    /** `DatabaseService.get_document_by_id`: the row, or `None` instead of raising. */
    function GetDocumentById(id: int): (r: Option<Document>)
      reads this
      ensures r.Some? <==> id in table
      ensures r.Some? ==> r.value == table[id]
    {
      if id in table then Some(table[id]) else None
    }

    /** `DatabaseService.get_all_documents`: every row exactly once, newest first. */
    method GetAllDocuments() returns (docs: seq<Document>)
      requires Valid()
      ensures NewestFirst(docs)
      ensures |docs| == |table|
      ensures forall x :: x in docs ==> x.id in table && table[x.id] == x
      ensures forall id :: id in table ==> table[id] in docs
    {
      docs := [];
      var id := 1;
      assert KeysBelow(table, 1) == {};
      while id < nextId
        invariant 1 <= id <= nextId
        invariant NewestFirst(docs)
        invariant ListsRowsBelow(docs, table, id)
      {
        if id in table {
          InsertKeepsNewestFirst(docs, table[id]);
          ListsOneMoreRow(docs, table, id);
          docs := InsertNewestFirst(docs, table[id]);
        } else {
          assert KeysBelow(table, id + 1) == KeysBelow(table, id);
        }
        id := id + 1;
      }
      assert KeysBelow(table, nextId) == table.Keys;
    }

    /** `document.save()` on an existing row: the row is replaced and the write recorded. */
    method SaveDocument(d: Document)
      requires Valid()
      requires d.id in table
      modifies this
      ensures Valid()
      ensures table == old(table)[d.id := d]
      ensures files == old(files) && nextId == old(nextId) && tokens == old(tokens)
      ensures writes == old(writes) + [d]
    {
      table := table[d.id := d];
      writes := writes + [d];
    }

    /**
     * `Document.delete`: first removes the physical file when the path is non-empty and
     * exists, then the row.
     */
    method DeleteDocument(d: Document)
      requires Valid()
      modifies this
      ensures Valid()
      ensures files == if d.filepath != "" && d.filepath in old(files) then old(files) - {d.filepath} else old(files)
      ensures table == old(table) - {d.id}
      ensures nextId == old(nextId) && tokens == old(tokens) && writes == old(writes)
    {
      if d.filepath != "" && d.filepath in files {
        files := files - {d.filepath};
      }
      table := table - {d.id};
    }

    /**
     * `DatabaseService.delete_document_record`: true, with the row and its file removed,
     * exactly when the row existed; otherwise false and nothing changes.
     */
    method DeleteDocumentRecord(id: int) returns (deleted: bool)
      requires Valid()
      modifies this
      ensures Valid()
      ensures deleted == (id in old(table))
      ensures deleted ==> table == old(table) - {id} && files == old(files) - {old(table)[id].filepath}
      ensures !deleted ==> table == old(table) && files == old(files)
      ensures nextId == old(nextId) && tokens == old(tokens) && writes == old(writes)
    {
      var found := GetDocumentById(id);
      if found.None? {
        return false;
      }
      DeleteDocument(found.value);
      deleted := true;
    }
  }
}
