/**
 * The periodic overdue sweep: select the open borrowings due today or
 * earlier, send one notice per borrowing, or a single "nothing overdue"
 * message when there is none. It only reads the ledger.
 */
module Overdue {
  import opened Seqs
  import opened Books
  import opened Borrowings
  import opened Ledger
  import opened Notify

  /** Due today or earlier and not yet returned. */
  predicate IsOverdue(b: Borrowing, today: Date) {
    b.expectedReturnDate <= today && IsOpen(b)
  }

  /** The sweep's queryset: exactly the overdue borrowings, each once, in listing order. */
  function OverdueQueue(bs: seq<Borrowing>, today: Date): (q: seq<Entry>)
    ensures forall e :: e in q <==> e.id < |bs| && e.borrowing == bs[e.id] && IsOverdue(e.borrowing, today)
    ensures NoDuplicates(q)
    ensures NewestFirst(q)
  {
    var all := AllNewestFirst(bs);
    var due := (e: Entry) => IsOverdue(e.borrowing, today);
    var q := Filter(all, due);
    assert NewestFirst(q) by {
      FilterKeepsOrder(all, due, NewerOrSame);
    }
    q
  }

  /** The notice for one overdue borrowing: the book's title, the borrower's e-mail, the borrow date. */
  function Notice(books: seq<Book>, b: Borrowing): Message
    requires b.book < |books|
  {
    OverdueNotice(books[b.book].title, b.user.email, b.borrowDate)
  }

  function Notices(books: seq<Book>, es: seq<Entry>): (ms: seq<Message>)
    requires forall e :: e in es ==> e.borrowing.book < |books|
    ensures |ms| == |es|
    ensures forall i :: 0 <= i < |es| ==> ms[i] == Notice(books, es[i].borrowing)
  {
    if es == [] then []
    else
      var last := |es| - 1;
      assert forall e :: e in es[..last] ==> e in es;
      Notices(books, es[..last]) + [Notice(books, es[last].borrowing)]
  }

  /** The notices for one more entry of a queue are those for the entries before it followed by its own. */
  lemma NoticesPrefix(books: seq<Book>, es: seq<Entry>, i: nat)
    requires forall e :: e in es ==> e.borrowing.book < |books|
    requires i < |es|
    ensures forall e :: e in es[..i + 1] ==> e.borrowing.book < |books|
    ensures Notices(books, es[..i + 1]) == Notices(books, es[..i]) + [Notice(books, es[i].borrowing)]
  {
    assert forall e :: e in es[..i + 1] ==> e in es;
    assert es[..i + 1][..i] == es[..i];
  }

  /**
   * The messages one sweep tries to send, in order: a notice per overdue
   * borrowing, or exactly one "nothing overdue" message.
   */
  function SweepMessages(s: Store, today: Date): (ms: seq<Message>)
    requires ValidStore(s)
    ensures var q := OverdueQueue(s.borrowings, today);
            && (q == [] ==> ms == [NothingOverdue])
            && (q != [] ==> |ms| == |q| && forall i :: 0 <= i < |q| ==> ms[i] == Notice(s.books, q[i].borrowing))
  {
    var q := OverdueQueue(s.borrowings, today);
    if q == [] then [NothingOverdue] else Notices(s.books, q)
  }

  /** A borrowing due exactly today is already overdue; one due tomorrow is not. */
  lemma DueTodayIsOverdue(b: Borrowing, today: Date)
    requires IsOpen(b)
    ensures b.expectedReturnDate == today ==> IsOverdue(b, today)
    ensures b.expectedReturnDate == today + 1 ==> !IsOverdue(b, today)
  {
  }

  /** Every overdue borrowing gets exactly one notice, naming its book, borrower and borrow date. */
  lemma {:induction false} EachOverdueNoticedOnce(s: Store, today: Date, id: BorrowingId)
    requires ValidStore(s) && id < |s.borrowings| && IsOverdue(s.borrowings[id], today)
    ensures var q, ms := OverdueQueue(s.borrowings, today), SweepMessages(s, today);
            && |ms| == |q|
            && (exists i :: 0 <= i < |q| && q[i].id == id
                  && ms[i].OverdueNotice?
                  && ms[i].title == s.books[s.borrowings[id].book].title
                  && ms[i].email == s.borrowings[id].user.email
                  && ms[i].borrowDate == s.borrowings[id].borrowDate)
            && (forall i, j :: 0 <= i < |q| && 0 <= j < |q| && q[i].id == id && q[j].id == id ==> i == j)
  {
    var q := OverdueQueue(s.borrowings, today);
    var e := Entry(id, s.borrowings[id]);
    assert e in q;
    var i :| 0 <= i < |q| && q[i] == e;
    forall i, j | 0 <= i < |q| && 0 <= j < |q| && q[i].id == id && q[j].id == id
      ensures i == j
    {
      assert q[i] in q && q[j] in q;
      assert q[i] == q[j];
    }
  }

  /** The sweep sends the summary message exactly when no borrowing is overdue. */
  lemma SummaryOnlyWhenNoneOverdue(s: Store, today: Date)
    requires ValidStore(s)
    ensures SweepMessages(s, today) == [NothingOverdue] <==>
              forall id :: 0 <= id < |s.borrowings| ==> !IsOverdue(s.borrowings[id], today)
  {
    var q := OverdueQueue(s.borrowings, today);
    if q != [] {
      assert q[0] in q;
      assert SweepMessages(s, today)[0].OverdueNotice?;
    } else {
      forall id | 0 <= id < |s.borrowings| ensures !IsOverdue(s.borrowings[id], today) {
        assert Entry(id, s.borrowings[id]) !in q;
      }
    }
  }
}
