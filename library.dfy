/** The book records of the application and the pure list transformations
    its handlers apply to them (src/App.jsx). */
module Library {
  import opened Wrappers
  import opened Binary
  import Base64

  /** One stored book. `pdfData` holds the file's bytes as Base64 text and
      `coverImage` the thumbnail's data URL, which the model treats as an
      opaque string. */
  datatype Book = Book(
    id: string,
    title: string,
    totalPages: int,
    lastVisitedPage: int,
    pdfData: string,
    coverImage: string)

  /** The last visited page lies within the book. */
  predicate WellFormed(b: Book) {
    1 <= b.lastVisitedPage <= b.totalPages
  }

  predicate AllWellFormed(bs: seq<Book>) {
    forall i :: 0 <= i < |bs| ==> WellFormed(bs[i])
  }

  /** No two records share an id. */
  predicate UniqueIds(bs: seq<Book>) {
    forall i, j :: 0 <= i < j < |bs| ==> bs[i].id != bs[j].id
  }

  predicate HasId(bs: seq<Book>, id: string) {
    exists i :: 0 <= i < |bs| && bs[i].id == id
  }

  // ---------------------------------------------------------------------
  // Title derivation: `file.name.replace('.pdf', '')`

  const Extension: string := ".pdf"

  predicate OccursAt(s: string, pat: string, i: nat) {
    i + |pat| <= |s| && s[i..i + |pat|] == pat
  }

  /** `s.indexOf(pat, from)` for a non-empty pattern: the first position at
      or after `from` where `pat` occurs. */
  function IndexOfFrom(s: string, pat: string, from: nat): (r: Option<nat>)
    requires |pat| > 0
    ensures r.Some? ==> from <= r.value && OccursAt(s, pat, r.value)
    ensures r.Some? ==> forall j: nat :: from <= j < r.value ==> !OccursAt(s, pat, j)
    ensures r.None? ==> forall j: nat :: from <= j ==> !OccursAt(s, pat, j)
    decreases |s| - from
  {
    if from + |pat| > |s| then None
    else if s[from..from + |pat|] == pat then Some(from)
    else IndexOfFrom(s, pat, from + 1)
  }

  function IndexOf(s: string, pat: string): (r: Option<nat>)
    requires |pat| > 0
  {
    IndexOfFrom(s, pat, 0)
  }

  /** The title of a file: its name with the FIRST occurrence of ".pdf"
      removed, wherever it occurs; a name without one is kept as it is. */
  function Title(name: string): (t: string)
    ensures IndexOf(name, Extension).None? ==> t == name
    ensures IndexOf(name, Extension).Some? ==>
      var i := IndexOf(name, Extension).value;
      |t| == |name| - |Extension| && i <= |t| && name == t[..i] + Extension + t[i..]
  {
    match IndexOf(name, Extension)
    case None => name
    case Some(i) => name[..i] + name[i + |Extension|..]
  }

  /** A name `base + ".pdf"` whose base does not contain ".pdf" gets the
      title `base`: no occurrence can straddle the boundary, because the
      extension starts with '.' and its other characters are not '.'. */
  lemma TitleOfPdfName(base: string)
    requires IndexOf(base, Extension).None?
    ensures Title(base + Extension) == base
  {
    var name := base + Extension;
    forall j: nat | j < |base| ensures !OccursAt(name, Extension, j) {
      if j + |Extension| <= |base| {
        assert name[j..j + 4] == base[j..j + 4];
        assert !OccursAt(base, Extension, j);
      } else {
        var k := |base| - j;
        assert name[j..j + 4][k] == name[|base|] == '.';
        assert Extension[k] != '.';
      }
    }
    assert OccursAt(name, Extension, |base|);
  }

  /** The file "notes.pdf" is titled "notes". */
  lemma NotesTitle()
    ensures Title("notes.pdf") == "notes"
  {
    assert "notes.pdf" == "notes" + Extension;
    assert IndexOf("notes", Extension).None? by {
      assert IndexOfFrom("notes", Extension, 2) == None;
      assert "notes"[1..5][0] != '.';
      assert "notes"[0..4][0] != '.';
    }
    TitleOfPdfName("notes");
  }

  /** A name with ".pdf" twice only loses the first one. */
  lemma TitleRemovesFirstOccurrence()
    ensures Title("a.pdf.pdf") == "a.pdf"
    ensures Title("x.pdf.txt") == "x.txt"
  {
    assert OccursAt("a.pdf.pdf", Extension, 1);
    assert "a.pdf.pdf"[0..4][0] == 'a';
    assert OccursAt("x.pdf.txt", Extension, 1);
    assert "x.pdf.txt"[0..4][0] == 'x';
  }

  // ---------------------------------------------------------------------
  // Ingest: record assembly

  /** The file the user picked. */
  datatype PdfFile = PdfFile(name: string, bytes: seq<byte>)

  /** What the PDF library reports for a file it could decode: the page count
      and the cover rendered from page 1. */
  datatype PdfDocument = PdfDocument(numPages: nat, cover: string)

  /** The bytes the reader recovers from a stored `pdfData`: `atob`, then the
      per-character `Uint8Array` conversion. The conversion loses nothing, so
      these are exactly the bytes the forgiving decode yields. */
  function StoredBytes(pdfData: string): (r: Option<seq<byte>>)
    ensures r == Base64.Decode(pdfData)
  {
    match Base64.Atob(pdfData)
    case None => None
    case Some(s) =>
      CharCodesFromBytes(Base64.Decode(pdfData).value);
      Some(CharCodes(s))
  }

  /** The record `handleFileSelect` builds (src/App.jsx:56-63), or None
      where it takes its catch path: the library failed (`doc` is None),
      page 1 does not exist, or `btoa` threw. */
  function Ingest(file: PdfFile, id: string, doc: Option<PdfDocument>): (r: Option<Book>)
    ensures r.Some? <==> doc.Some? && doc.value.numPages >= 1
    ensures r.Some? ==> r.value.id == id && r.value.lastVisitedPage == 1
    ensures r.Some? ==> r.value.totalPages == doc.value.numPages && r.value.coverImage == doc.value.cover
  {
    FromBytesIsBinary(file.bytes);
    if doc.None? || doc.value.numPages < 1 then None
    else match Base64.Btoa(FromBytes(file.bytes))
      case None => None
      case Some(text) =>
        Some(Book(id, Title(file.name), doc.value.numPages, 1, text, doc.value.cover))
  }

  /** Ingest succeeds exactly when the library decodes the file and it has a
      first page; the record then carries the given id, the derived title,
      the page count, page 1 as last visited and the cover, and its stored
      data gives the reader back the file's bytes. */
  lemma IngestResult(file: PdfFile, id: string, doc: Option<PdfDocument>)
    ensures Ingest(file, id, doc).Some? <==> doc.Some? && doc.value.numPages >= 1
    ensures Ingest(file, id, doc).Some? ==>
      var b := Ingest(file, id, doc).value;
      && b.id == id
      && b.title == Title(file.name)
      && b.totalPages == doc.value.numPages
      && b.lastVisitedPage == 1
      && b.coverImage == doc.value.cover
      && WellFormed(b)
      && StoredBytes(b.pdfData) == Some(file.bytes)
  {
    Base64.StorageRoundTrip(file.bytes);
  }

  /** Adding a record under an id not yet used keeps ids unique. */
  lemma AppendKeepsIdsUnique(bs: seq<Book>, b: Book)
    requires UniqueIds(bs) && !HasId(bs, b.id)
    ensures UniqueIds(bs + [b])
  {
  }

  // ---------------------------------------------------------------------
  // Progress update: `books.map(b => b.id === bookId ? { ...b, lastVisitedPage: newPage } : b)`

  function UpdateProgress(bs: seq<Book>, id: string, page: int): (r: seq<Book>)
    ensures |r| == |bs|
    ensures forall i :: 0 <= i < |bs| && bs[i].id == id ==>
      && r[i].lastVisitedPage == page
      && r[i].id == bs[i].id && r[i].title == bs[i].title && r[i].totalPages == bs[i].totalPages
      && r[i].pdfData == bs[i].pdfData && r[i].coverImage == bs[i].coverImage
    ensures forall i :: 0 <= i < |bs| && bs[i].id != id ==> r[i] == bs[i]
    decreases |bs|
  {
    if |bs| == 0 then []
    else
      [if bs[0].id == id then bs[0].(lastVisitedPage := page) else bs[0]]
      + UpdateProgress(bs[1..], id, page)
  }

  /** Updating the same id twice: the second page wins. */
  lemma {:induction false} UpdateProgressLastWins(bs: seq<Book>, id: string, p: int, q: int)
    ensures UpdateProgress(UpdateProgress(bs, id, p), id, q) == UpdateProgress(bs, id, q)
  {
  }

  /** An update whose id matches no record changes nothing. */
  lemma UpdateProgressAbsent(bs: seq<Book>, id: string, p: int)
    requires !HasId(bs, id)
    ensures UpdateProgress(bs, id, p) == bs
  {
  }

  /** The update keeps the ids (so uniqueness) and keeps records well formed
      when the new page lies within every matching book. */
  lemma UpdateProgressKeepsInvariants(bs: seq<Book>, id: string, p: int)
    requires forall i :: 0 <= i < |bs| && bs[i].id == id ==> 1 <= p <= bs[i].totalPages
    ensures UniqueIds(bs) ==> UniqueIds(UpdateProgress(bs, id, p))
    ensures AllWellFormed(bs) ==> AllWellFormed(UpdateProgress(bs, id, p))
  {
  }

  // ---------------------------------------------------------------------
  // Delete: `books.filter(b => b.id !== modal.data.id)`

  /** Keeps, in order, the records whose id differs from `key`; a key of
      None stands for an `undefined` id, which no record has. */
  function RemoveById(bs: seq<Book>, key: Option<string>): (r: seq<Book>)
    ensures forall b :: b in r <==> b in bs && Some(b.id) != key
    ensures |r| <= |bs|
    decreases |bs|
  {
    if |bs| == 0 then []
    else if Some(bs[0].id) == key then RemoveById(bs[1..], key)
    else [bs[0]] + RemoveById(bs[1..], key)
  }

  /** Filtering a concatenation filters each part in place: the relative
      order of the kept records is that of the input. */
  lemma {:induction false} RemoveByIdConcat(xs: seq<Book>, ys: seq<Book>, key: Option<string>)
    ensures RemoveById(xs + ys, key) == RemoveById(xs, key) + RemoveById(ys, key)
    decreases |xs|
  {
    if |xs| > 0 {
      assert (xs + ys)[1..] == xs[1..] + ys;
      RemoveByIdConcat(xs[1..], ys, key);
    } else {
      assert xs + ys == ys;
    }
  }

  /** With no record under the key, delete is the identity. */
  lemma {:induction false} RemoveByIdAbsent(bs: seq<Book>, key: Option<string>)
    requires forall i :: 0 <= i < |bs| ==> Some(bs[i].id) != key
    ensures RemoveById(bs, key) == bs
    decreases |bs|
  {
    if |bs| > 0 {
      RemoveByIdAbsent(bs[1..], key);
    }
  }

  /** With unique ids, deleting a present id removes exactly one record. */
  lemma {:induction false} RemoveByIdUnique(bs: seq<Book>, id: string)
    requires UniqueIds(bs) && HasId(bs, id)
    ensures |RemoveById(bs, Some(id))| == |bs| - 1
    decreases |bs|
  {
    if bs[0].id == id {
      RemoveByIdAbsent(bs[1..], Some(id));
    } else {
      assert HasId(bs[1..], id) by {
        var i :| 0 <= i < |bs| && bs[i].id == id;
        assert bs[1..][i - 1].id == id;
      }
      RemoveByIdUnique(bs[1..], id);
    }
  }

  /** Deleting keeps ids unique and records well formed. */
  lemma {:induction false} RemoveByIdKeepsInvariants(bs: seq<Book>, key: Option<string>)
    ensures UniqueIds(bs) ==> UniqueIds(RemoveById(bs, key))
    ensures AllWellFormed(bs) ==> AllWellFormed(RemoveById(bs, key))
    decreases |bs|
  {
    if |bs| > 0 {
      RemoveByIdKeepsInvariants(bs[1..], key);
      var rest := RemoveById(bs[1..], key);
      if UniqueIds(bs) && Some(bs[0].id) != key {
        forall j | 0 <= j < |rest| ensures rest[j].id != bs[0].id {
          assert rest[j] in bs[1..];
        }
      }
    }
  }
}
