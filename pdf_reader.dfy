/** The reader component (src/components/Reader.jsx): page navigation over
    one book and the conversion of its stored data back into bytes. */
module PdfReader {
  import opened Wrappers
  import opened Binary
  import opened Library
  import Base64

  /** `Math.max(1, p - 1)`: one page back, never below page 1. */
  function PrevPage(p: int): (r: int)
    ensures r >= 1
    ensures r == p <==> p == 1
    ensures p > 1 ==> r == p - 1
    ensures p <= 1 ==> r == 1
  {
    if p - 1 < 1 then 1 else p - 1
  }

  /** `Math.min(total, p + 1)`: one page on, never beyond the last page. */
  function NextPage(p: int, total: int): (r: int)
    ensures r <= total
    ensures r == p <==> p == total
    ensures p < total ==> r == p + 1
    ensures p >= total ==> r == total
  {
    if total < p + 1 then total else p + 1
  }

  datatype Move = Prev | Next

  function Step(p: int, total: int, m: Move): int {
    match m
    case Prev => PrevPage(p)
    case Next => NextPage(p, total)
  }

  /** The page reached by pressing the buttons in the order given. */
  function Navigate(p: int, total: int, moves: seq<Move>): int
    decreases |moves|
  {
    if |moves| == 0 then p else Navigate(Step(p, total, moves[0]), total, moves[1..])
  }

  /** A page within the book stays within it whatever the buttons pressed. */
  lemma {:induction false} NavigateStaysInRange(p: int, total: int, moves: seq<Move>)
    requires 1 <= p <= total
    ensures 1 <= Navigate(p, total, moves) <= total
    decreases |moves|
  {
    if |moves| > 0 {
      NavigateStaysInRange(Step(p, total, moves[0]), total, moves[1..]);
    }
  }

  /** One more press after a sequence of presses is one more `Step`. */
  lemma {:induction false} NavigateSnoc(p: int, total: int, moves: seq<Move>, m: Move)
    ensures Navigate(p, total, moves + [m]) == Step(Navigate(p, total, moves), total, m)
    decreases |moves|
  {
    if |moves| > 0 {
      assert (moves + [m])[0] == moves[0];
      assert (moves + [m])[1..] == moves[1..] + [m];
      NavigateSnoc(Step(p, total, moves[0]), total, moves[1..], m);
    } else {
      assert (moves + [m])[1..] == [];
    }
  }

  /** Pressing "Next" k times from a page within the book moves k pages on,
      stopping at the last page. */
  lemma {:induction false} NextRepeatedly(p: int, total: int, k: nat)
    requires p <= total
    ensures Navigate(p, total, seq(k, _ => Next)) == if p + k <= total then p + k else total
    decreases k
  {
    if k > 0 {
      var moves := seq(k, _ => Next);
      assert moves[0] == Next;
      assert moves[1..] == seq(k - 1, _ => Next);
      NextRepeatedly(NextPage(p, total), total, k - 1);
    }
  }

  /** The loop of src/components/Reader.jsx:15-18: a zero-filled
      `Uint8Array` of the string's length, slot i set from `charCodeAt(i)`. */
  method DecodeBinaryString(binary: string) returns (a: array<byte>)
    ensures fresh(a)
    ensures a.Length == |binary|
    ensures forall i :: 0 <= i < |binary| ==> a[i] == (binary[i] as int) % 256
    ensures a[..] == CharCodes(binary)
  {
    a := new byte[|binary|];
    var i := 0;
    while i < |binary|
      invariant 0 <= i <= |binary|
      invariant forall k :: 0 <= k < i ==> a[k] == ToUint8(binary[k])
    {
      a[i] := ToUint8(binary[i]);
      i := i + 1;
    }
  }

  class Reader {
    /** The book passed in as a prop; the reader never changes it. */
    const book: Book
    var currentPage: int
    /** The buttons pressed since the reader opened, in order. */
    ghost var moves: seq<Move>

    /** The page shown is the one the presses lead to from the opening page. */
    ghost predicate Traced()
      reads this
    {
      currentPage == Navigate(book.lastVisitedPage, book.totalPages, moves)
    }

    /** `useState(book.lastVisitedPage)`: the reader opens at the last
        visited page. */
    constructor (book: Book)
      ensures this.book == book
      ensures currentPage == book.lastVisitedPage
      ensures moves == []
      ensures Traced()
    {
      this.book := book;
      currentPage := book.lastVisitedPage;
      moves := [];
    }

    ghost predicate InRange()
      reads this
    {
      1 <= currentPage <= book.totalPages
    }

    method GoToPrevPage()
      modifies this
      ensures currentPage == PrevPage(old(currentPage))
      ensures moves == old(moves) + [Prev]
      ensures old(InRange()) ==> InRange()
      ensures old(Traced()) ==> Traced()
    {
      NavigateSnoc(book.lastVisitedPage, book.totalPages, moves, Prev);
      currentPage := PrevPage(currentPage);
      moves := moves + [Prev];
    }

    method GoToNextPage()
      modifies this
      ensures currentPage == NextPage(old(currentPage), book.totalPages)
      ensures moves == old(moves) + [Next]
      ensures old(InRange()) ==> InRange()
      ensures old(Traced()) ==> Traced()
    {
      NavigateSnoc(book.lastVisitedPage, book.totalPages, moves, Next);
      currentPage := NextPage(currentPage, book.totalPages);
      moves := moves + [Next];
    }

    /** The "Prev" button is disabled exactly where pressing it does nothing. */
    predicate PrevDisabled()
      reads this
      ensures PrevDisabled() <==> PrevPage(currentPage) == currentPage
    {
      currentPage == 1
    }

    /** The "Next" button is disabled exactly where pressing it does nothing. */
    predicate NextDisabled()
      reads this
      ensures NextDisabled() <==> NextPage(currentPage, book.totalPages) == currentPage
    {
      currentPage == book.totalPages
    }

    /** What "Back to Library" reports: the page shown, and whether it differs
        from the page the reader was opened at. On a reader whose page
        follows its presses, that is the page the presses lead to from the
        opening page, and whether they ended somewhere else. */
    function CloseReport(): (r: (int, bool))
      reads this
      ensures r.0 == currentPage
      ensures r.1 <==> currentPage != book.lastVisitedPage
      ensures Traced() ==>
        var page := Navigate(book.lastVisitedPage, book.totalPages, moves);
        r == (page, page != book.lastVisitedPage)
    {
      (currentPage, currentPage != book.lastVisitedPage)
    }

    /** The document bytes handed to the PDF library: `atob(book.pdfData)`
        and the conversion loop; None where `atob` throws. */
    method PdfBytes() returns (r: Option<array<byte>>)
      ensures r.Some? <==> StoredBytes(book.pdfData).Some?
      ensures r.Some? ==> r.value[..] == StoredBytes(book.pdfData).value
    {
      match Base64.Atob(book.pdfData)
      case None =>
        r := None;
      case Some(binary) =>
        var a := DecodeBinaryString(binary);
        r := Some(a);
    }
  }
}
