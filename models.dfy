/**
 * The `Document` record of backend/documents/models.py: its fields and defaults, the
 * analysis-status domain, the default newest-first ordering and `__str__`.
 * The overridden `delete` changes storage and is `Utils.Storage.DeleteDocument`.
 */
module Models {
  import opened Wrappers
  import opened Strings

  /** The four `choices` of `analysis_status`; no other value can be stored. */
  datatype AnalysisStatus = Pending | Processing | Completed | Failed {
    /** The value stored in the column. */
    function Name(): string {
      match this
      case Pending => "pending"
      case Processing => "processing"
      case Completed => "completed"
      case Failed => "failed"
    }
  }

  /** Reads a stored column value back; `None` for anything outside the four choices. */
  function ParseStatus(s: string): (r: Option<AnalysisStatus>)
    ensures r.Some? <==> s in {"pending", "processing", "completed", "failed"}
  {
    if s == "pending" then Some(Pending)
    else if s == "processing" then Some(Processing)
    else if s == "completed" then Some(Completed)
    else if s == "failed" then Some(Failed)
    else None
  }

  /** Every status is stored as one of its four names, and reads back as itself. */
  lemma StatusRoundTrip(st: AnalysisStatus)
    ensures st.Name() in {"pending", "processing", "completed", "failed"}
    ensures ParseStatus(st.Name()) == Some(st)
  {
  }

  /** A row of the `documents` table. Timestamps are abstract clock readings. */
  datatype Document = Document(
    id: int,
    filename: string,
    filepath: string,
    filesize: int,
    createdAt: int,
    analysisResult: Option<string>,
    analysisStatus: AnalysisStatus,
    analyzedAt: Option<int>)

  /** A freshly created row: the given fields, status 'pending', no result, no analysis time. */
  function NewDocument(id: int, filename: string, filepath: string, filesize: int, createdAt: int): (d: Document)
    ensures d.analysisStatus == Pending && d.analysisResult == None && d.analyzedAt == None
    ensures d.id == id && d.filename == filename && d.filepath == filepath
    ensures d.filesize == filesize && d.createdAt == createdAt
  {
    Document(id, filename, filepath, filesize, createdAt, None, Pending, None)
  }

  /** `__str__`: "{filename} ({filesize} bytes)". */
  function Str(d: Document): (r: string)
    ensures |r| > |d.filename| + 2 + 7
    ensures r[..|d.filename|] == d.filename && r[|d.filename|..|d.filename| + 2] == " ("
    ensures r[|r| - 7..] == " bytes)"
  {
    d.filename + " (" + IntToString(d.filesize) + " bytes)"
  }

  /** Two documents with the same filename print alike only if their sizes agree. */
  lemma StrDeterminesSize(d1: Document, d2: Document)
    requires d1.filename == d2.filename
    requires Str(d1) == Str(d2)
    ensures d1.filesize == d2.filesize
  {
    var n := |d1.filename| + 2;
    var s1 := IntToString(d1.filesize);
    var s2 := IntToString(d2.filesize);
    assert |s1| == |s2|;
    assert Str(d1)[n..n + |s1|] == s1;
    assert Str(d2)[n..n + |s2|] == s2;
    IntToStringInjective(d1.filesize, d2.filesize);
  }

  /** `ordering = ['-created_at']`: creation times never increase along the sequence. */
  predicate NewestFirst(docs: seq<Document>) {
    forall i, j :: 0 <= i < j < |docs| ==> docs[i].createdAt >= docs[j].createdAt
  }

  /** Places `d` into a newest-first sequence, before the first document not newer than it. */
  function InsertNewestFirst(docs: seq<Document>, d: Document): (r: seq<Document>)
    ensures multiset(r) == multiset(docs) + multiset{d}
  {
    if docs == [] || docs[0].createdAt <= d.createdAt then [d] + docs
    else
      assert docs == [docs[0]] + docs[1..];
      [docs[0]] + InsertNewestFirst(docs[1..], d)
  }

  /** Insertion keeps a newest-first sequence newest first. */
  lemma {:induction false} InsertKeepsNewestFirst(docs: seq<Document>, d: Document)
    requires NewestFirst(docs)
    ensures NewestFirst(InsertNewestFirst(docs, d))
  {
    if docs != [] && docs[0].createdAt > d.createdAt {
      var rest := InsertNewestFirst(docs[1..], d);
      InsertKeepsNewestFirst(docs[1..], d);
      NoNewerAfterInsert(rest, docs[1..], d, docs[0].createdAt);
      ConsNewestFirst(docs[0], rest);
    }
  }

  /** No document of `docs` was created after time `t`. */
  predicate NoneNewerThan(docs: seq<Document>, t: int) {
    forall j :: 0 <= j < |docs| ==> docs[j].createdAt <= t
  }

  /** A sequence holding the documents of `docs` and `d`, none of them newer than `t`, has none newer than `t`. */
  lemma NoNewerAfterInsert(r: seq<Document>, docs: seq<Document>, d: Document, t: int)
    requires NewestFirst(docs) && (docs == [] || docs[0].createdAt <= t) && d.createdAt <= t
    requires multiset(r) == multiset(docs) + multiset{d}
    ensures NoneNewerThan(r, t)
  {
    forall j | 0 <= j < |r|
      ensures r[j].createdAt <= t
    {
      assert r[j] in multiset(r);
      if r[j] != d {
        assert r[j] in multiset(docs);
        var k :| 0 <= k < |docs| && docs[k] == r[j];
        assert docs[0].createdAt >= docs[k].createdAt;
      }
    }
  }

  /** A document no older than any of a newest-first sequence can be put before it. */
  lemma ConsNewestFirst(h: Document, rest: seq<Document>)
    requires NewestFirst(rest) && NoneNewerThan(rest, h.createdAt)
    ensures NewestFirst([h] + rest)
  {
    var r := [h] + rest;
    forall i, j | 0 <= i < j < |r|
      ensures r[i].createdAt >= r[j].createdAt
    {
      assert r[j] == rest[j - 1];
      if i > 0 {
        assert r[i] == rest[i - 1];
      }
    }
  }
}
