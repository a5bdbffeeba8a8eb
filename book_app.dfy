/** The application component (src/App.jsx): the book collection, the
    current view, the open book, the modal and the loading flag, with the
    event handlers that change them. */
module BookApp {
  import opened Wrappers
  import opened Library

  datatype View = Bookshelf | Reading

  /** `modal.type`: null, 'delete' or 'save'. */
  datatype ModalKind = NoModal | DeleteModal | SaveModal

  /** `modal.data`: null, the book to delete, or `{ bookId, newPage }`. */
  datatype ModalData = NoData | BookData(book: Book) | ProgressData(bookId: string, newPage: int)

  datatype Modal = Modal(kind: ModalKind, data: ModalData)

  /** `{ type: null, data: null }` */
  const Closed: Modal := Modal(NoModal, NoData)

  /** `modal.data.id`: the book's id, or None (`undefined`) for progress data. */
  function DeleteKey(d: ModalData): (k: Option<string>)
    requires d != NoData
    ensures k.Some? <==> d.BookData?
    ensures d.BookData? ==> k.value == d.book.id
  {
    match d
    case BookData(b) => Some(b.id)
    case ProgressData(_, _) => None
  }

  // ---------------------------------------------------------------------
  // What is on screen

  datatype Dialog = NoDialog | DeletePrompt | SavePrompt

  datatype Screen = ShelfScreen(dialog: Dialog) | ReaderScreen(dialog: Dialog)

  function DialogOf(kind: ModalKind): Dialog {
    match kind
    case NoModal => NoDialog
    case DeleteModal => DeletePrompt
    case SaveModal => SavePrompt
  }

  /** The render logic as written (src/App.jsx:110-124 and 178-203): in the
      reader view only the reader is returned, so no modal is drawn there. */
  function RenderAsWritten(view: View, modal: Modal): (s: Screen)
    ensures s.ReaderScreen? <==> view == Reading
    ensures s.ReaderScreen? ==> s.dialog == NoDialog
    ensures s.ShelfScreen? ==> s.dialog == DialogOf(modal.kind)
  {
    if view == Reading then ReaderScreen(NoDialog) else ShelfScreen(DialogOf(modal.kind))
  }

  /** As written, the save prompt that leaving the reader with a changed
      page asks for is never on screen while the reader is open. */
  lemma SavePromptHiddenAsWritten(id: string, page: int)
    ensures RenderAsWritten(Reading, Modal(SaveModal, ProgressData(id, page))) == ReaderScreen(NoDialog)
  {
  }

  /** The render logic as evidently intended: the modal is drawn over
      whichever view is current. */
  function Render(view: View, modal: Modal): (s: Screen)
    ensures s.ReaderScreen? <==> view == Reading
    ensures s.dialog == DialogOf(modal.kind)
  {
    if view == Reading then ReaderScreen(DialogOf(modal.kind)) else ShelfScreen(DialogOf(modal.kind))
  }

  /** Intended: the save prompt appears over the reader. */
  lemma SavePromptShown(id: string, page: int)
    ensures Render(Reading, Modal(SaveModal, ProgressData(id, page))) == ReaderScreen(SavePrompt)
  {
  }

  /** `[...prevBooks, newBook]` on success; the list unchanged on the catch path. */
  function Added(bs: seq<Book>, record: Option<Book>): (r: seq<Book>)
    ensures record.Some? ==> |r| == |bs| + 1 && r[..|bs|] == bs && r[|bs|] == record.value
    ensures record.None? ==> r == bs
  {
    match record
    case Some(b) => bs + [b]
    case None => bs
  }

  // ---------------------------------------------------------------------
  // The component state

  /** The storage key the collection is kept under. */
  const StorageKey: string := "bookorganizer_books"

  class App {
    var books: seq<Book>
    var isLoading: bool
    var view: View
    var currentBook: Option<Book>
    var modal: Modal
    /** The content of `StorageKey` as the mount effect reads it (None when
        the key is absent); the persist effect's rewrites are not modelled. */
    var stored: Option<string>

    /** The reader view always has a book to show. */
    ghost predicate Valid()
      reads this
    {
      view == Reading ==> currentBook.Some?
    }

    /** The screen for the current state (with the modal drawn in either view). */
    function CurrentScreen(): (s: Screen)
      reads this
      ensures s.ReaderScreen? <==> view == Reading
      ensures s.dialog == DialogOf(modal.kind)
    {
      Render(view, modal)
    }

    /** The screen for the current state as the component draws it (no
        modal in the reader view). */
    function CurrentScreenAsWritten(): (s: Screen)
      reads this
      ensures s.ReaderScreen? <==> view == Reading
      ensures s.ReaderScreen? ==> s.dialog == NoDialog
      ensures s.ShelfScreen? ==> s.dialog == DialogOf(modal.kind)
    {
      RenderAsWritten(view, modal)
    }

    /** The initial `useState` values; `item` is what storage holds at start. */
    constructor (item: Option<string>)
      ensures Valid()
      ensures books == [] && !isLoading && view == Bookshelf
      ensures currentBook == None && modal == Closed && stored == item
    {
      books := [];
      isLoading := false;
      view := Bookshelf;
      currentBook := None;
      modal := Closed;
      stored := item;
    }

    /** The mount effect (src/App.jsx:20-30). A non-empty stored text is
        parsed; `parsed` is the outcome of `JSON.parse` on it. On success
        the parsed list replaces the collection; on failure the key is
        removed and the collection is left as it is. */
    method LoadStoredBooks(parsed: Option<seq<Book>>)
      requires Valid()
      modifies this
      ensures Valid()
      ensures old(stored).None? || old(stored) == Some("") ==>
        books == old(books) && stored == old(stored)
      ensures old(stored).Some? && old(stored) != Some("") && parsed.Some? ==>
        books == parsed.value && stored == old(stored)
      ensures old(stored).Some? && old(stored) != Some("") && parsed.None? ==>
        books == old(books) && stored == None
      ensures isLoading == old(isLoading) && view == old(view)
      ensures currentBook == old(currentBook) && modal == old(modal)
    {
      if stored.Some? && stored.value != "" {
        if parsed.Some? {
          books := parsed.value;
        } else {
          stored := None;
        }
      }
    }

    /** `handleFileSelect` (src/App.jsx:38-72). `file` is the first selected
        file, `id` the value of `Date.now().toString()` and `doc` what the PDF
        library yields for the file (None when it rejects). */
    method SelectFile(file: Option<PdfFile>, id: string, doc: Option<PdfDocument>)
      requires Valid()
      modifies this
      ensures Valid()
      ensures file.None? ==> books == old(books) && isLoading == old(isLoading)
      ensures file.Some? ==> !isLoading
      ensures file.Some? ==> books == Added(old(books), Ingest(file.value, id, doc))
      ensures view == old(view) && currentBook == old(currentBook)
      ensures modal == old(modal) && stored == old(stored)
    {
      if file.None? {
        return;
      }
      isLoading := true;
      var record := Ingest(file.value, id, doc);
      if record.Some? {
        books := books + [record.value];
      }
      isLoading := false;
      assert books == Added(old(books), record);
    }

    /** `handleOpenBook` (src/App.jsx:75-78). */
    method OpenBook(book: Book)
      requires Valid()
      modifies this
      ensures Valid()
      ensures currentBook == Some(book) && view == Reading
      ensures books == old(books) && modal == old(modal)
      ensures isLoading == old(isLoading) && stored == old(stored)
    {
      currentBook := Some(book);
      view := Reading;
    }

    /** `handleUpdateProgress` (src/App.jsx:80-84). */
    method UpdateProgress(bookId: string, newPage: int)
      requires Valid()
      modifies this
      ensures Valid()
      ensures books == Library.UpdateProgress(old(books), bookId, newPage)
      ensures view == old(view) && currentBook == old(currentBook) && modal == old(modal)
      ensures isLoading == old(isLoading) && stored == old(stored)
    {
      books := Library.UpdateProgress(books, bookId, newPage);
    }

    /** A card's delete button (src/App.jsx:142). */
    method RequestDelete(book: Book)
      requires Valid()
      modifies this
      ensures Valid()
      ensures modal == Modal(DeleteModal, BookData(book))
      ensures books == old(books) && view == old(view) && currentBook == old(currentBook)
      ensures isLoading == old(isLoading) && stored == old(stored)
    {
      modal := Modal(DeleteModal, BookData(book));
    }

    /** The delete dialog's "Cancel" button (src/App.jsx:184). */
    method CancelDelete()
      requires Valid()
      modifies this
      ensures Valid()
      ensures modal == Closed
      ensures books == old(books) && view == old(view) && currentBook == old(currentBook)
      ensures isLoading == old(isLoading) && stored == old(stored)
    {
      modal := Closed;
    }

    /** `confirmDelete` (src/App.jsx:86-91): with modal data, keeps the
        records whose id differs from `modal.data.id` and closes the modal;
        without, does nothing. */
    method ConfirmDelete()
      requires Valid()
      modifies this
      ensures Valid()
      ensures old(modal).data != NoData ==>
        books == RemoveById(old(books), DeleteKey(old(modal).data)) && modal == Closed
      ensures old(modal).data == NoData ==> books == old(books) && modal == old(modal)
      ensures view == old(view) && currentBook == old(currentBook)
      ensures isLoading == old(isLoading) && stored == old(stored)
    {
      if modal.data != NoData {
        books := RemoveById(books, DeleteKey(modal.data));
        modal := Closed;
      }
    }

    /** `handleCloseReaderModal` (src/App.jsx:95-106): saving applies the
        recorded progress only in a save modal with progress data; in every
        case the reader is left and the modal closed. (Book-shaped data would
        give an `undefined` id, which matches no record.) */
    method CloseReaderModal(shouldSave: bool)
      requires Valid()
      modifies this
      ensures Valid()
      ensures shouldSave && old(modal).kind == SaveModal && old(modal).data.ProgressData? ==>
        books == Library.UpdateProgress(old(books), old(modal).data.bookId, old(modal).data.newPage)
      ensures !(shouldSave && old(modal).kind == SaveModal && old(modal).data.ProgressData?) ==>
        books == old(books)
      ensures view == Bookshelf && currentBook == None && modal == Closed
      ensures CurrentScreen() == ShelfScreen(NoDialog)
      ensures isLoading == old(isLoading) && stored == old(stored)
    {
      if shouldSave && modal.kind == SaveModal && modal.data != NoData {
        match modal.data
        case ProgressData(bookId, newPage) =>
          UpdateProgress(bookId, newPage);
        case BookData(_) =>
      }
      view := Bookshelf;
      currentBook := None;
      modal := Closed;
    }

    /** The reader's `onClose` callback (src/App.jsx:114-121). Without a page
        change it returns to the shelf; with one it stays in the reader and
        opens a save modal for the current book and the new page. */
    method CloseReader(newPage: int, hasChanged: bool)
      requires Valid() && view == Reading
      modifies this
      ensures Valid()
      ensures !hasChanged ==> view == Bookshelf && currentBook == None && modal == old(modal)
      ensures hasChanged ==>
        && view == Reading && currentBook == old(currentBook)
        && modal == Modal(SaveModal, ProgressData(old(currentBook).value.id, newPage))
        && CurrentScreen() == ReaderScreen(SavePrompt)
        && CurrentScreenAsWritten() == ReaderScreen(NoDialog)
      ensures books == old(books) && isLoading == old(isLoading) && stored == old(stored)
    {
      if hasChanged {
        modal := Modal(SaveModal, ProgressData(currentBook.value.id, newPage));
      } else {
        view := Bookshelf;
        currentBook := None;
      }
    }
  }
}
