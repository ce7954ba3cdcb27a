/**
 * The service state that requests change in place: the book table, the
 * borrowing table, and the messages the Telegram chat received. Each method
 * performs one endpoint's or task's effect on these fields and is proved to
 * match the function that specifies that effect on the tables as values.
 */
module Service {
  import opened Wrappers
  import opened Books
  import opened Borrowings
  import opened Ledger
  import opened Scoping
  import opened Notify
  import opened Overdue

  class Library {
    var books: seq<Book>
    var borrowings: seq<Borrowing>
    /** Messages that reached the Telegram chat, oldest first. */
    var outbox: seq<Message>

    function State(): Store
      reads this
    {
      Store(books, borrowings)
    }

    ghost predicate Valid()
      reads this
    {
      ValidStore(State())
    }

    constructor ()
      ensures Valid()
      ensures books == [] && borrowings == [] && outbox == []
    {
      books := [];
      borrowings := [];
      outbox := [];
    }

    /** Storing a new book: every field error is reported and nothing is stored, or the book gets the next id. */
    method AddBook(title: string, author: string, cover: Option<string>, inventory: int, feeCents: int)
      returns (r: Result<BookId, set<BookError>>)
      requires Valid()
      modifies this
      ensures Valid()
      ensures borrowings == old(borrowings) && outbox == old(outbox)
      ensures match CreateBook(old(books), title, author, cover, inventory, feeCents)
              case Ok(bs) => r == Ok(|old(books)|) && books == bs
              case Err(errs) => r == Err(errs) && books == old(books)
    {
      match CreateBook(books, title, author, cover, inventory, feeCents)
      case Ok(bs) =>
        r := Ok(|books|);
        books := bs;
      case Err(errs) =>
        r := Err(errs);
    }

    /**
     * The create serializer: the book is validated, then its inventory is
     * decremented and saved, then the borrowing row is inserted for `caller`
     * with today's date.
     */
    method CreateBorrowing(caller: User, req: CreateRequest, today: Date) returns (r: Result<BorrowingId, LedgerError>)
      requires Valid()
      modifies this
      ensures Valid()
      ensures outbox == old(outbox)
      ensures match Create(old(State()), caller, req, today)
              case Ok(s) => r == Ok(|old(borrowings)|) && State() == s
              case Err(e) => r == Err(e) && State() == old(State())
    {
      var checked := ValidateBook(books, req.book);
      if checked.Err? {
        return Err(checked.error);
      }
      var book := books[req.book];
      books := books[req.book := book.(inventory := book.inventory - 1)];
      borrowings := borrowings + [Borrowing(today, req.expectedReturnDate, None, req.book, caller)];
      r := Ok(|borrowings| - 1);
    }

    /**
     * The create endpoint: the borrowing is created for the requesting user,
     * then a "new borrowing" message is sent. The send is not guarded, so when
     * it fails the request fails with the borrowing already stored;
     * `delivered` says whether the send succeeds.
     */
    method PerformCreate(caller: User, req: CreateRequest, today: Date, delivered: bool)
      returns (r: Result<BorrowingId, LedgerError>, notified: bool)
      requires Valid()
      modifies this
      ensures Valid()
      ensures match Create(old(State()), caller, req, today)
              case Ok(s) => r == Ok(|old(borrowings)|) && State() == s
              case Err(e) => r == Err(e) && State() == old(State())
      ensures notified <==> r.Ok? && delivered
      ensures outbox == old(outbox) +
                if notified then [BorrowingCreated(old(books)[req.book].title, caller.email, req.expectedReturnDate)]
                else []
    {
      r := CreateBorrowing(caller, req, today);
      notified := false;
      if r.Ok? {
        var message := BorrowingCreated(books[req.book].title, caller.email, req.expectedReturnDate);
        if delivered {
          outbox := outbox + [message];
          notified := true;
        }
      }
    }

    /**
     * `return_book` on an existing borrowing: refused when it already has a
     * return date; otherwise it is stamped with today and its book's
     * inventory goes up by one.
     */
    method ReturnBook(id: BorrowingId, today: Date) returns (r: Result<(), LedgerError>)
      requires Valid() && id < |borrowings|
      modifies this
      ensures Valid()
      ensures outbox == old(outbox)
      ensures match Return(old(State()), id, today)
              case Ok(s) => r.Ok? && State() == s
              case Err(e) => r == Err(e) && State() == old(State())
    {
      var b := borrowings[id];
      if b.actualReturnDate.Some? {
        return Err(AlreadyReturned);
      }
      borrowings := borrowings[id := b.(actualReturnDate := Some(today))];
      var book := books[b.book];
      books := books[b.book := book.(inventory := book.inventory + 1)];
      r := Ok(());
    }

    /** The return serializer: an already returned borrowing is refused before `return_book` runs. */
    method UpdateReturn(id: BorrowingId, today: Date) returns (r: Result<(), LedgerError>)
      requires Valid() && id < |borrowings|
      modifies this
      ensures Valid()
      ensures outbox == old(outbox)
      ensures match Return(old(State()), id, today)
              case Ok(s) => r.Ok? && State() == s
              case Err(e) => r == Err(e) && State() == old(State())
    {
      if borrowings[id].actualReturnDate.Some? {
        return Err(AlreadyReturned);
      }
      r := ReturnBook(id, today);
    }

    /**
     * The return endpoint: the borrowing is looked up through the caller's
     * scope (so another member's row is not found), then returned.
     */
    method ReturnBorrowing(caller: User, params: ListParams, id: BorrowingId, today: Date)
      returns (r: Result<(), LedgerError>)
      requires Valid()
      modifies this
      ensures Valid()
      ensures outbox == old(outbox)
      ensures Lookup(old(borrowings), caller, params, id).None? ==>
                r == Err(BorrowingNotFound) && State() == old(State())
      ensures Lookup(old(borrowings), caller, params, id).Some? ==>
                match Return(old(State()), id, today)
                case Ok(s) => r.Ok? && State() == s
                case Err(e) => r == Err(e) && State() == old(State())
    {
      var found := Lookup(borrowings, caller, params, id);
      if found.None? {
        return Err(BorrowingNotFound);
      }
      r := UpdateReturn(id, today);
    }

    /**
     * Send attempt number `k` of a sweep, with its failure swallowed: the
     * message reaches the chat unless attempt `k` fails.
     */
    method Send(message: Message, k: nat, failing: set<nat>)
      modifies this`outbox
      ensures outbox == old(outbox) + if k in failing then [] else [message]
    {
      if k !in failing {
        outbox := outbox + [message];
      }
    }

    /** The sweep's loop: one notice per queued borrowing, in queue order; attempt i is the i-th borrowing's. */
    method SendNotices(shelf: seq<Book>, due: seq<Entry>, failing: set<nat>) returns (attempts: seq<Message>)
      requires forall e :: e in due ==> e.borrowing.book < |shelf|
      modifies this`outbox
      ensures attempts == Notices(shelf, due)
      ensures outbox == old(outbox) + Delivered(attempts, failing)
    {
      attempts := [];
      var i := 0;
      while i < |due|
        invariant 0 <= i <= |due|
        invariant attempts == Notices(shelf, due[..i])
        invariant outbox == old(outbox) + Delivered(attempts, failing)
      {
        var message := Notice(shelf, due[i].borrowing);
        NoticesPrefix(shelf, due, i);
        DeliveredSnoc(attempts, message, failing);
        Send(message, i, failing);
        attempts := attempts + [message];
        i := i + 1;
      }
      assert due[..|due|] == due;
    }

    /**
     * The overdue sweep: one send per overdue borrowing, or one summary
     * send when there is none; a failing send (attempt k fails when k is in
     * `failing`) is swallowed and the loop goes on. Only the chat changes.
     */
    method CheckOverdueBorrowings(today: Date, failing: set<nat>) returns (attempts: seq<Message>)
      requires Valid()
      modifies this`outbox
      ensures attempts == SweepMessages(State(), today)
      ensures outbox == old(outbox) + Delivered(attempts, failing)
    {
      ghost var s := State();
      var due := OverdueQueue(borrowings, today);
      if due == [] {
        attempts := [NothingOverdue];
        DeliveredSnoc([], NothingOverdue, failing);
        Send(NothingOverdue, 0, failing);
      } else {
        assert forall e :: e in due ==> e.borrowing.book < |books|;
        attempts := SendNotices(books, due, failing);
      }
      assert attempts == SweepMessages(s, today);
    }
  }
}
