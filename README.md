# BookOrganizer core in Dafny

BookOrganizer is a small browser application for PDF "books". The user picks a
PDF file. The application asks the PDF library for the page count and a cover,
stores the file's bytes as Base64 text, and keeps one record per book:
id, title, total pages, last visited page, PDF data and cover image. The
books are shown on a shelf. A book opens in a reader with "Prev" and "Next"
buttons. Leaving the reader after moving to another page sets a
"Save Progress?" modal (which, as written, is not drawn while the reader is
open; see "## Findings"). A book can be deleted after a confirmation.

This project models the state and logic of the two components that hold it:

- `BookApp.App` (from `src/App.jsx`) is a class with the component's state
  fields: `books`, `isLoading`, `view`, `currentBook` and `modal`. A further
  field, `stored`, is the content of the storage key `bookorganizer_books`
  as the mount effect reads it and, on a parse failure, removes it; the
  later rewrites of that key are not modelled (see "## Left out"). Each event handler is a method.
- `PdfReader.Reader` (from `src/components/Reader.jsx`) is a class with a
  fixed `book` and a mutable `currentPage`. A ghost field `moves` records
  the buttons pressed, so that the reported page can be tied to `Navigate`.

The list transformations inside the handlers are pure functions in `Library`,
except the append, which is `BookApp.Added`.
`BookApp` also models what ends up on screen, which is where the model found
a defect (see "## Findings").

The bytes-to-text path is modelled exactly:

- `Binary` holds the `String.fromCharCode` fold and the `charCodeAt`
  conversion into a `Uint8Array`.
- `Base64` holds `btoa`, which encodes with the alphabet and padding of
  section 4 of RFC 4648. It also holds `atob`, which is the "forgiving-base64
  decode" of the HTML Living Standard: ASCII whitespace is stripped, one or
  two final `=` are dropped when the length is a multiple of four, a length
  of the form 4k+1 is refused, and so is a character outside the alphabet.

With these, the model proves that the reader gets back exactly the bytes
that ingest stored.

The PDF library is a parameter. A `PdfDocument(numPages, cover)` is what it
reports for a file it can decode, and `None` stands for a rejection. The clock
value `Date.now().toString()` is a parameter `id`. The outcome of `JSON.parse`
is a parameter `Option<seq<Book>>`.

The model follows the code on three points a reader might not expect:

- The title removes the first ".pdf" anywhere in the name, not only a final
  extension.
- The load effect stores whatever `JSON.parse` returns; it does not check
  the shape.
- A page count of 0 goes down the failure path, because `getPage(1)` is
  rejected for such a document.

## Model

| member | source | states |
|---|---|---|
| `Binary.FromBytes` | src/App.jsx:54 | the fold gives one character per byte, with the byte's value as its code |
| `Binary.CharCodes` | src/components/Reader.jsx:16-18 | one byte per character, in order: the character's code modulo 256, as a `Uint8Array` slot stores it |
| `Binary.CharCodesFromBytes` | src/components/Reader.jsx:16-18 | the per-character `Uint8Array` conversion is a left inverse of the `fromCharCode` fold |
| `Binary.FromBytesCharCodes` | src/App.jsx:53-54 | on strings whose characters are all below 256, the fold of the conversion gives the string back |
| `Base64.ValueOf` | src/components/Reader.jsx:14 | a character accepted by `atob` is the alphabet symbol of its value |
| `Base64.OctetsOfSextets` | src/components/Reader.jsx:14 | cutting bytes into 6-bit groups and joining them back loses nothing, and never leaves 4k+1 groups |
| `Base64.Encode` | src/App.jsx:53-55 | `btoa` output length is a multiple of four: 4 * ceil(n / 3) characters for n bytes |
| `Base64.Btoa` | src/App.jsx:53 | `btoa` succeeds exactly when every character is at most U+00FF |
| `Base64.StripWhitespace` | src/components/Reader.jsx:14 | no ASCII whitespace is left, and every other character of the input is kept |
| `Base64.StripWhitespaceConcat` | src/components/Reader.jsx:14 | whitespace is removed piecewise over a concatenation, so the kept characters keep their order |
| `Base64.StripPadding` | src/components/Reader.jsx:14 | one or two final `=` are removed only when the length is a multiple of four; otherwise the text is unchanged |
| `Base64.Values` | src/components/Reader.jsx:14 | decoding yields sextets that spell the text, or fails exactly at a character outside the alphabet |
| `Base64.Decode` | src/components/Reader.jsx:14 | after whitespace and padding are stripped, the decode fails exactly on a length of the form 4k+1 or a character outside the alphabet; otherwise it yields 3/4 of the remaining length in bytes, rounded down |
| `Base64.Atob` | src/components/Reader.jsx:14 | `atob` output is a binary string, and `atob` succeeds exactly when the forgiving decode does |
| `Base64.DecodeEncode` | src/components/Reader.jsx:14 | `atob`'s decoder returns exactly the bytes `btoa`'s encoder encoded |
| `Base64.StorageRoundTrip` | src/App.jsx:53-55 | fold, `btoa`, `atob` and the `Uint8Array` conversion give back the original bytes |
| `Library.IndexOfFrom` | src/App.jsx:58 | the first occurrence at or after a position, with no earlier one; None only if there is no occurrence |
| `Library.Title` | src/App.jsx:58 | the name with its first ".pdf" removed; putting ".pdf" back at that point gives the name; a name without ".pdf" is kept |
| `Library.TitleOfPdfName` | src/App.jsx:58 | `base + ".pdf"` is titled `base` when `base` contains no ".pdf" |
| `Library.NotesTitle` | src/App.jsx:58 | "notes.pdf" is titled "notes" |
| `Library.TitleRemovesFirstOccurrence` | src/App.jsx:58 | "a.pdf.pdf" becomes "a.pdf"; "x.pdf.txt" becomes "x.txt" |
| `Library.StoredBytes` | src/components/Reader.jsx:14-18 | `atob` followed by the per-character conversion yields exactly the bytes the forgiving decode yields, and fails exactly when it does |
| `Library.Ingest` | src/App.jsx:42-64 | the record is built exactly when the library decodes the file and it has a page 1; it carries the given id, last visited page 1, the page count and the cover; otherwise the catch path yields no record |
| `Library.IngestResult` | src/App.jsx:41-71 | ingest succeeds iff the library decodes the file and it has a page 1; the record has the given id, the derived title, the page count, last visited page 1, the cover, is well formed, and its data decodes to the file's bytes |
| `Library.AppendKeepsIdsUnique` | src/App.jsx:64 | appending a record under an unused id keeps ids unique |
| `Library.UpdateProgress` | src/App.jsx:80-84 | same length and order; records with the id get the new page and keep every other field; all other records are unchanged |
| `Library.UpdateProgressLastWins` | src/App.jsx:80-84 | two updates of one id equal the second alone |
| `Library.UpdateProgressAbsent` | src/App.jsx:80-84 | an id that matches no record leaves the list unchanged |
| `Library.UpdateProgressKeepsInvariants` | src/App.jsx:80-84 | unique ids are kept, and so are well-formed records when the page fits every matching book |
| `Library.RemoveById` | src/App.jsx:88 | a record is kept iff it was present and its id differs from the key |
| `Library.RemoveByIdConcat` | src/App.jsx:88 | the filter distributes over concatenation, so kept records keep their relative order |
| `Library.RemoveByIdAbsent` | src/App.jsx:88 | with no record under the key, nothing is removed |
| `Library.RemoveByIdUnique` | src/App.jsx:88 | with unique ids, deleting a present id removes exactly one record |
| `Library.RemoveByIdKeepsInvariants` | src/App.jsx:88 | deleting keeps ids unique and records well formed |
| `BookApp.DeleteKey` | src/App.jsx:88 | `modal.data.id` is the book's id for book data, and `undefined` for progress data |
| `BookApp.Added` | src/App.jsx:64 | on success exactly one record is added at the end and the earlier records are unchanged; on failure the list is unchanged |
| `BookApp.RenderAsWritten` | src/App.jsx:110-124 | as written, the reader view shows no dialog and the shelf view shows the dialog of the modal's kind |
| `BookApp.App.CurrentScreen` | src/App.jsx:110-124 | the corrected render of the current state: the current view, with the dialog of the modal's kind drawn over it |
| `BookApp.App.CurrentScreenAsWritten` | src/App.jsx:110-124 | the render of the current state as written: the reader view shows no dialog, and the shelf view shows the dialog of the modal's kind |
| `BookApp.SavePromptHiddenAsWritten` | src/App.jsx:110-124 | as written, no modal is drawn in the reader view, so the save modal is not drawn |
| `BookApp.Render` | src/App.jsx:110-124 | the intended screen: the current view with the modal's dialog drawn over it |
| `BookApp.SavePromptShown` | src/App.jsx:114-121 | intended: after a changed close, the save prompt shows over the reader |
| `BookApp.App.constructor` | src/App.jsx:12-16 | empty collection, not loading, shelf view, no current book, modal closed |
| `BookApp.App.LoadStoredBooks` | src/App.jsx:20-30 | absent or empty text: nothing changes; parse success: the parsed list becomes the collection; parse failure: the key is removed and the collection is unchanged |
| `BookApp.App.SelectFile` | src/App.jsx:38-72 | no file: nothing changes; otherwise the collection is `Added(old, Ingest(...))` and loading ends false; view, book and modal are untouched |
| `BookApp.App.OpenBook` | src/App.jsx:75-78 | the book becomes current and the view is the reader |
| `BookApp.App.UpdateProgress` | src/App.jsx:80-84 | the collection becomes `Library.UpdateProgress` of the old one; everything else is unchanged |
| `BookApp.App.RequestDelete` | src/App.jsx:142 | opens the delete modal carrying the book |
| `BookApp.App.CancelDelete` | src/App.jsx:184 | closes the modal and changes nothing else |
| `BookApp.App.ConfirmDelete` | src/App.jsx:86-91 | with modal data, the collection loses exactly the records under `modal.data.id` and the modal closes; without data, nothing changes |
| `BookApp.App.CloseReaderModal` | src/App.jsx:95-106 | "save" in a save modal with progress data applies the update; otherwise the collection is unchanged; in both cases the view is the shelf, there is no current book and the modal is closed |
| `BookApp.App.CloseReader` | src/App.jsx:114-121 | no change: back to the shelf with no book and the modal untouched; a change: the view stays the reader and a save modal is set with the current book's id and the new page, which the corrected screen shows as a save prompt and the screen as written does not show; the collection is never touched |
| `PdfReader.PrevPage` | src/components/Reader.jsx:80-82 | `Math.max(1, p - 1)` for every p: 1 at or below page 1, one page back above it, and a no-op exactly at page 1 |
| `PdfReader.NextPage` | src/components/Reader.jsx:84-86 | `Math.min(total, p + 1)` for every p: the total at or beyond the last page, one page on below it, and a no-op exactly at the last page |
| `PdfReader.NavigateStaysInRange` | src/components/Reader.jsx:80-86 | a page within [1, total] stays there after any sequence of Prev/Next |
| `PdfReader.NextRepeatedly` | src/components/Reader.jsx:84-86 | k presses of Next move k pages on, stopping at the last page |
| `PdfReader.DecodeBinaryString` | src/components/Reader.jsx:15-18 | the array has the string's length, and slot i holds `charCodeAt(i)` modulo 256 |
| `PdfReader.Reader.constructor` | src/components/Reader.jsx:6 | the reader opens at the book's last visited page, with no presses recorded and the trace holding |
| `PdfReader.NavigateSnoc` | src/components/Reader.jsx:80-86 | one more press after a sequence of presses is one more `Step` from the page they reach |
| `PdfReader.Reader.GoToPrevPage` | src/components/Reader.jsx:80-82 | the page becomes `PrevPage` of the old page, the press is recorded, and the range and the trace `Traced` (page equals `Navigate` of the presses) are kept |
| `PdfReader.Reader.GoToNextPage` | src/components/Reader.jsx:84-86 | the page becomes `NextPage` of the old page, the press is recorded, and the range and the trace `Traced` are kept |
| `PdfReader.Reader.PrevDisabled` | src/components/Reader.jsx:109 | "Prev" is disabled exactly where pressing it would change nothing |
| `PdfReader.Reader.NextDisabled` | src/components/Reader.jsx:110 | "Next" is disabled exactly where pressing it would change nothing |
| `PdfReader.Reader.CloseReport` | src/components/Reader.jsx:94 | reports the current page, and a change iff it differs from the page the reader opened at; on a traced reader, the page that `Navigate` reaches from the opening page with the presses made, and whether it differs from the opening page |
| `PdfReader.Reader.PdfBytes` | src/components/Reader.jsx:12-18 | the bytes given to the library are `StoredBytes(book.pdfData)`; there are none exactly when `atob` throws |

`Walkthrough.NotesWalkthrough` follows the intended run, the one possible
under the corrected render of "## Findings". It ingests a three-page
"notes.pdf", which gets the title "notes". It then opens the book, presses
"Next" three times and stays at page 3, and closes the reader. As written no
dialog is then drawn; under the corrected render the save prompt shows, and
saving and reopening open the book at page 3.

`Walkthrough.StaleSaveWalkthrough` follows the run as written. After the
changed close at page 3 no dialog is drawn, so the user goes back to page 1
and closes again. That close reports no change and returns to the shelf, where
the save prompt from the earlier close is drawn. Saving there stores page 3.

## Findings

| source | as written | input that shows it | evidently intended | confidence | as-written member | corrected member |
|---|---|---|---|---|---|---|
| src/App.jsx:110-124 | while `view` is 'reader' the component returns only `<Reader>`; the modals are drawn only in the shelf branch, so the save modal that `onClose` opens (line 116) is never shown while reading | open a book at page 1, press "Next", press "Back to Library": `onClose(2, true)` sets a save modal but the view stays the reader, and no dialog appears | the "Save Progress?" dialog appears over the reader, so that `handleCloseReaderModal` can be reached | high (not executed) | `BookApp.RenderAsWritten`, `BookApp.SavePromptHiddenAsWritten`, `BookApp.App.CurrentScreenAsWritten`, `Walkthrough.StaleSaveWalkthrough` | `BookApp.Render`, `BookApp.SavePromptShown`, `BookApp.App.CurrentScreen` |

`BookApp.App.CurrentScreen` uses the corrected `BookApp.Render`, and
`BookApp.App.CurrentScreenAsWritten` uses `BookApp.RenderAsWritten`; the contract of
`BookApp.App.CloseReader` states both.

A related effect of the same defect: if the user goes back to the opening
page and closes again, the view returns to the shelf. The save modal from the
earlier close is still set, so the shelf then shows a "Save Progress?" dialog
for a stale page. The handlers themselves are modelled as written.

## Left out

- pdf.js itself is not modelled: loading a document, `getPage`, viewports, page rendering and the worker setup are foreign library calls. The page count and cover come in as the `PdfDocument` parameter.
- Drawing the cover on a canvas and `toDataURL` are not modelled. The cover is an opaque string.
- The render effect with its task cancellation (src/components/Reader.jsx:29-76) is not modelled. It coordinates asynchronous work with the external renderer.
- Reads and writes of `localStorage`, `JSON.parse` and `JSON.stringify` are I/O and are not modelled. Only the parse outcome and the presence of the key are modelled.
- The persist effect (src/App.jsx:32-34) is not modelled. In the source, it writes the serialised list back on mount and after every change to `books`; the mount run rewrites the removed key with "[]".
- BookApp.App.LoadStoredBooks: does not model a `getItem` that throws, or a parse result that is not an array of records.
- The asynchronous interleaving inside `handleFileSelect` is not modelled: the handler runs as one step. The intermediate `isLoading = true` state, which disables the add button, lasts only inside that step.
- Resetting the file input (`event.target.value = null`), `alert` and `console.error` are not modelled. They are UI and logging.
- The `Date.now()` clock read is not modelled. Its value is the `id` parameter.
- `BookCard` is not modelled. It is presentation only, and its one computation is a floating-point progress width.
- Characters are Unicode scalar values, while JavaScript strings are UTF-16 code units. On the bytes-to-text path the two agree: every character there has a code below 256 or is in the Base64 alphabet. File names, and so titles, may hold any character, and `IndexOf` counts positions in characters rather than code units; `replace('.pdf', '')` removes the same characters whichever way the name is read. A name holding an unpaired surrogate cannot be written as a Dafny string and is not modelled.
- `vite.config.js` (build configuration) and the JSX markup and styling are not modelled.
