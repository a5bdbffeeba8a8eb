/** The application's main path, stated over the model: ingest a three-page
    "notes.pdf", read on to page 3, leave with saving, and reopen. */
module Walkthrough {
  import opened Wrappers
  import opened Library
  import opened BookApp
  import opened PdfReader

  /** The intended run: the save prompt is reached through the corrected
      render. */
  method NotesWalkthrough(bytes: seq<Binary.byte>, cover: string)
  {
    var app := new App(None);
    app.LoadStoredBooks(None);
    assert app.books == [] && app.stored == None;

    var file := PdfFile("notes.pdf", bytes);
    app.SelectFile(Some(file), "1", Some(PdfDocument(3, cover)));
    IngestResult(file, "1", Some(PdfDocument(3, cover)));
    NotesTitle();
    assert |app.books| == 1;
    var book := app.books[0];
    assert book.title == "notes" && book.totalPages == 3 && book.lastVisitedPage == 1;
    assert !app.isLoading;

    app.OpenBook(book);
    var reader := new Reader(book);
    reader.GoToNextPage();
    reader.GoToNextPage();
    assert reader.currentPage == 3 && reader.NextDisabled();
    reader.GoToNextPage();
    assert reader.currentPage == 3;

    var (page, changed) := reader.CloseReport();
    assert page == 3 && changed;
    app.CloseReader(page, changed);
    assert app.CurrentScreenAsWritten() == ReaderScreen(NoDialog);
    assert app.CurrentScreen() == ReaderScreen(SavePrompt);
    app.CloseReaderModal(true);
    assert app.view == Bookshelf && app.books[0].lastVisitedPage == 3;

    app.OpenBook(app.books[0]);
    var again := new Reader(app.books[0]);
    assert again.currentPage == 3;
  }

  /** The run as written: after a changed close nothing is drawn, so the user
      goes back to the opening page and closes again; the shelf then shows the
      save prompt left over from the first close, and saving stores its page. */
  method StaleSaveWalkthrough(book: Book)
    requires book.lastVisitedPage == 1 && book.totalPages == 3
  {
    var app := new App(None);
    app.books := [book];  // a shelf holding the one book
    app.OpenBook(book);
    var reader := new Reader(book);
    reader.GoToNextPage();
    reader.GoToNextPage();
    var (page, changed) := reader.CloseReport();
    assert page == 3 && changed;
    app.CloseReader(page, changed);
    assert app.CurrentScreenAsWritten() == ReaderScreen(NoDialog);

    reader.GoToPrevPage();
    reader.GoToPrevPage();
    var (page2, changed2) := reader.CloseReport();
    assert page2 == 1 && !changed2;
    app.CloseReader(page2, changed2);
    assert app.CurrentScreenAsWritten() == ShelfScreen(SavePrompt);

    app.CloseReaderModal(true);
    assert app.books[0].lastVisitedPage == 3;
  }
}
