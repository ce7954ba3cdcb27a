/**
 * The inventory ledger: borrowing a book takes one copy out of its inventory
 * and opens a borrowing; returning closes the borrowing, once, and puts the
 * copy back. Both tables are held as values here; the `Library` class applies
 * these transitions to its fields.
 */
module Ledger {
  import opened Wrappers
  import opened Books
  import opened Borrowings

  /** The book table and the borrowing table; a row's id is its index. */
  datatype Store = Store(books: seq<Book>, borrowings: seq<Borrowing>)

  /** What the database guarantees: valid, uniquely titled books; every borrowing names a book. */
  predicate ValidStore(s: Store) {
    && UniqueTitles(s.books)
    && (forall i :: 0 <= i < |s.books| ==> ValidBook(s.books[i]))
    && (forall i :: 0 <= i < |s.borrowings| ==> s.borrowings[i].book < |s.books|)
  }

  datatype LedgerError =
    | BookNotFound       // the submitted book id names no book
    | OutOfStock         // "This book is out of stock."
    | BorrowingNotFound  // no such borrowing, or not visible to the caller
    | AlreadyReturned    // "This book has already been returned."

  /** The body of a create request. The borrower is not part of it: it comes from the request's credentials. */
  datatype CreateRequest = CreateRequest(book: BookId, expectedReturnDate: Date)

  /** Validation of the `book` field of a create request: the id must name a book that is in stock. */
  function ValidateBook(books: seq<Book>, id: BookId): (r: Result<BookId, LedgerError>)
    ensures r.Ok? <==> id < |books| && books[id].inventory >= 1
    ensures r.Ok? ==> r.value == id
    ensures r == Err(BookNotFound) <==> id >= |books|
    ensures r == Err(OutOfStock) <==> id < |books| && books[id].inventory < 1
  {
    if id >= |books| then Err(BookNotFound)
    else if books[id].inventory < 1 then Err(OutOfStock)
    else Ok(id)
  }

  /**
   * Creating a borrowing for `caller` on day `today`: the book is validated,
   * checked for stock once more, its inventory goes down by one, and one open
   * borrowing dated today is appended. A refused request changes nothing.
   */
  function Create(s: Store, caller: User, req: CreateRequest, today: Date): (r: Result<Store, LedgerError>)
    ensures r.Ok? <==> req.book < |s.books| && s.books[req.book].inventory >= 1
    ensures r.Err? ==> r.error == if req.book < |s.books| then OutOfStock else BookNotFound
    ensures r.Ok? ==>
              && |r.value.books| == |s.books|
              && r.value.books[req.book] == s.books[req.book].(inventory := s.books[req.book].inventory - 1)
              && (forall k :: 0 <= k < |s.books| && k != req.book ==> r.value.books[k] == s.books[k])
    ensures r.Ok? ==>
              r.value.borrowings == s.borrowings + [Borrowing(today, req.expectedReturnDate, None, req.book, caller)]
    ensures r.Ok? && ValidStore(s) ==> ValidStore(r.value)
  {
    match ValidateBook(s.books, req.book)
    case Err(e) => Err(e)
    case Ok(id) =>
      var book := s.books[id];
      if book.inventory < 1 then Err(OutOfStock)
      else
        var books' := s.books[id := book.(inventory := book.inventory - 1)];
        Ok(Store(books', s.borrowings + [Borrowing(today, req.expectedReturnDate, None, id, caller)]))
  }

  /**
   * Returning borrowing `id` on day `today`: refused if it is already closed;
   * otherwise it is closed with today's date and its book gets the copy back.
   * Nothing else changes.
   */
  function Return(s: Store, id: BorrowingId, today: Date): (r: Result<Store, LedgerError>)
    requires ValidStore(s)
    ensures r.Ok? <==> id < |s.borrowings| && IsOpen(s.borrowings[id])
    ensures r.Err? ==> r.error == if id < |s.borrowings| then AlreadyReturned else BorrowingNotFound
    ensures r.Ok? ==>
              var b := s.borrowings[id];
              && |r.value.borrowings| == |s.borrowings|
              && r.value.borrowings[id] == b.(actualReturnDate := Some(today))
              && (forall k :: 0 <= k < |s.borrowings| && k != id ==> r.value.borrowings[k] == s.borrowings[k])
              && |r.value.books| == |s.books|
              && r.value.books[b.book] == s.books[b.book].(inventory := s.books[b.book].inventory + 1)
              && (forall k :: 0 <= k < |s.books| && k != b.book ==> r.value.books[k] == s.books[k])
    ensures r.Ok? ==> ValidStore(r.value)
  {
    if id >= |s.borrowings| then Err(BorrowingNotFound)
    else
      var b := s.borrowings[id];
      if b.actualReturnDate.Some? then Err(AlreadyReturned)
      else
        var book := s.books[b.book];
        Ok(Store(s.books[b.book := book.(inventory := book.inventory + 1)],
                 s.borrowings[id := b.(actualReturnDate := Some(today))]))
  }

  /** Return takes effect once: a second return is refused, and the first one's copy stays counted once. */
  lemma ReturnOnlyOnce(s: Store, id: BorrowingId, first: Date, second: Date)
    requires ValidStore(s)
    requires Return(s, id, first).Ok?
    ensures var s1 := Return(s, id, first).value;
            var book := s.borrowings[id].book;
            && s1.books[book].inventory == s.books[book].inventory + 1
            && Return(s1, id, second) == Err(AlreadyReturned)
            && s1.borrowings[id].actualReturnDate == Some(first)
  {
  }

  /** With one copy left, a second borrowing of the same book is refused and the inventory ends at zero. */
  lemma LastCopyGoesOnce(s: Store, a: User, b: User, req1: CreateRequest, req2: CreateRequest, today: Date)
    requires req1.book == req2.book && req1.book < |s.books| && s.books[req1.book].inventory == 1
    ensures Create(s, a, req1, today).Ok?
    ensures var s1 := Create(s, a, req1, today).value;
            && Create(s1, b, req2, today) == Err(OutOfStock)
            && s1.books[req1.book].inventory == 0
  {
  }

  /** 1 when `b` is an open borrowing of book `book`, else 0. */
  function OnLoan(b: Borrowing, book: BookId): nat {
    if IsOpen(b) && b.book == book then 1 else 0
  }

  /** Number of open borrowings of `book`: the copies of it that are out. */
  function OpenLoans(bs: seq<Borrowing>, book: BookId): (n: nat)
    ensures n <= |bs|
  {
    if bs == [] then 0 else OpenLoans(bs[..|bs| - 1], book) + OnLoan(bs[|bs| - 1], book)
  }

  /** All copies of a book the library owns: those on the shelf plus those out on loan. */
  function Copies(s: Store, book: BookId): nat
    requires book < |s.books|
  {
    s.books[book].inventory + OpenLoans(s.borrowings, book)
  }

  /** Replacing one borrowing changes the open-loan count by exactly the difference of the two rows. */
  lemma {:induction false} OpenLoansUpdate(bs: seq<Borrowing>, i: nat, nb: Borrowing, book: BookId)
    requires i < |bs|
    ensures OpenLoans(bs[i := nb], book) + OnLoan(bs[i], book) == OpenLoans(bs, book) + OnLoan(nb, book)
  {
    var n := |bs|;
    var bs' := bs[i := nb];
    if i == n - 1 {
      assert bs'[..n - 1] == bs[..n - 1];
    } else {
      assert bs'[..n - 1] == bs[..n - 1][i := nb];
      OpenLoansUpdate(bs[..n - 1], i, nb, book);
    }
  }

  /** Borrowing moves a copy from the shelf to a loan: no book's copy count changes. */
  lemma CreateConservesCopies(s: Store, caller: User, req: CreateRequest, today: Date, book: BookId)
    requires Create(s, caller, req, today).Ok?
    requires book < |s.books|
    ensures book < |Create(s, caller, req, today).value.books|
    ensures Copies(Create(s, caller, req, today).value, book) == Copies(s, book)
  {
    var s1 := Create(s, caller, req, today).value;
    assert s1.borrowings[..|s1.borrowings| - 1] == s.borrowings;
  }

  /** Returning moves a copy from a loan back to the shelf: no book's copy count changes. */
  lemma ReturnConservesCopies(s: Store, id: BorrowingId, today: Date, book: BookId)
    requires ValidStore(s)
    requires Return(s, id, today).Ok?
    requires book < |s.books|
    ensures book < |Return(s, id, today).value.books|
    ensures Copies(Return(s, id, today).value, book) == Copies(s, book)
  {
    var s1 := Return(s, id, today).value;
    assert s1.borrowings == s.borrowings[id := s1.borrowings[id]];
    OpenLoansUpdate(s.borrowings, id, s1.borrowings[id], book);
  }

  /** One ledger request, as the API receives it. */
  datatype Op =
    | BorrowOp(caller: User, req: CreateRequest, today: Date)
    | ReturnOp(id: BorrowingId, today: Date)

  /** The store after one request; a refused request leaves it as it was. */
  function Step(s: Store, op: Op): (t: Store)
    requires ValidStore(s)
    ensures ValidStore(t)
    ensures |t.books| == |s.books| && |t.borrowings| >= |s.borrowings|
  {
    match op
    case BorrowOp(caller, req, today) =>
      (match Create(s, caller, req, today) case Ok(t) => t case Err(_) => s)
    case ReturnOp(id, today) =>
      (match Return(s, id, today) case Ok(t) => t case Err(_) => s)
  }

  function Run(s: Store, ops: seq<Op>): (t: Store)
    requires ValidStore(s)
    ensures ValidStore(t)
    ensures |t.books| == |s.books| && |t.borrowings| >= |s.borrowings|
    decreases |ops|
  {
    if ops == [] then s else Run(Step(s, ops[0]), ops[1..])
  }

  /** Over any sequence of borrows and returns, every book keeps its number of copies. */
  lemma {:induction false} RunConservesCopies(s: Store, ops: seq<Op>, book: BookId)
    requires ValidStore(s) && book < |s.books|
    ensures book < |Run(s, ops).books|
    ensures Copies(Run(s, ops), book) == Copies(s, book)
    decreases |ops|
  {
    if ops != [] {
      var s1 := Step(s, ops[0]);
      match ops[0] {
        case BorrowOp(caller, req, today) =>
          if Create(s, caller, req, today).Ok? {
            CreateConservesCopies(s, caller, req, today, book);
          }
        case ReturnOp(id, today) =>
          if Return(s, id, today).Ok? {
            ReturnConservesCopies(s, id, today, book);
          }
      }
      RunConservesCopies(s1, ops[1..], book);
    }
  }

  /**
   * Over any sequence of requests an existing borrowing keeps its borrow date,
   * due date, book and borrower, and a closed one stays exactly as it was.
   */
  lemma {:induction false} RunKeepsHistory(s: Store, ops: seq<Op>, id: BorrowingId)
    requires ValidStore(s) && id < |s.borrowings|
    ensures id < |Run(s, ops).borrowings|
    ensures var b, b' := s.borrowings[id], Run(s, ops).borrowings[id];
            && b'.borrowDate == b.borrowDate
            && b'.expectedReturnDate == b.expectedReturnDate
            && b'.book == b.book
            && b'.user == b.user
            && (!IsOpen(b) ==> b' == b)
    decreases |ops|
  {
    if ops != [] {
      var s1 := Step(s, ops[0]);
      assert s1.borrowings[id].borrowDate == s.borrowings[id].borrowDate;
      RunKeepsHistory(s1, ops[1..], id);
    }
  }
}
