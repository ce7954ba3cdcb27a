/**
 * The `Borrowing` record: a loan of one book to one user, open while it has
 * no actual return date, and the default listing order, newest borrow date first.
 */
module Borrowings {
  import opened Wrappers
  import opened Seqs

  /** A calendar date, as a day number. */
  type Date = int

  /** Row ids: a row's id is its position in its table. */
  type BookId = nat
  type BorrowingId = nat

  /** The borrower, as far as the ledger needs it: the key, the e-mail the notices name, the staff flag. */
  datatype User = User(id: nat, email: string, isStaff: bool)

  datatype Borrowing = Borrowing(
    borrowDate: Date,
    expectedReturnDate: Date,
    actualReturnDate: Option<Date>,
    book: BookId,
    user: User)

  /** Open (active) until the book comes back. */
  predicate IsOpen(b: Borrowing) {
    b.actualReturnDate.None?
  }

  /** A borrowing together with its id, as a listing shows it. */
  datatype Entry = Entry(id: BorrowingId, borrowing: Borrowing)

  /** The whole table as entries, in id order. */
  function Entries(bs: seq<Borrowing>): (es: seq<Entry>)
    ensures |es| == |bs|
    ensures forall e :: e in es <==> e.id < |bs| && e.borrowing == bs[e.id]
    ensures NoDuplicates(es)
  {
    var es := seq(|bs|, i requires 0 <= i < |bs| => Entry(i, bs[i]));
    assert forall e: Entry :: e.id < |bs| && e.borrowing == bs[e.id] ==> es[e.id] == e;
    es
  }

  /** `x` may be listed before `y`: its borrow date is not earlier. */
  predicate NewerOrSame(x: Entry, y: Entry) {
    x.borrowing.borrowDate >= y.borrowing.borrowDate
  }

  /** The listing order: borrow date descending. */
  predicate NewestFirst(es: seq<Entry>) {
    SortedBy(es, NewerOrSame)
  }

  function InsertByDate(e: Entry, es: seq<Entry>): (r: seq<Entry>)
    requires NewestFirst(es)
    ensures NewestFirst(r)
    ensures multiset(r) == multiset(es) + multiset{e}
  {
    if es == [] then [e]
    else if e.borrowing.borrowDate >= es[0].borrowing.borrowDate then
      HeadIsNewest(es);
      ConsNewestFirst(e, es);
      [e] + es
    else
      HeadIsNewest(es);
      var rest := InsertByDate(e, es[1..]);
      forall x | x in rest ensures NewerOrSame(es[0], x) {
        assert x in multiset(rest);
      }
      ConsNewestFirst(es[0], rest);
      assert es == [es[0]] + es[1..];
      [es[0]] + rest
  }

  /** The first entry of a newest-first sequence is as new as any other, and the rest is newest-first. */
  lemma HeadIsNewest(es: seq<Entry>)
    requires NewestFirst(es) && es != []
    ensures forall y :: y in es[1..] ==> NewerOrSame(es[0], y)
    ensures NewestFirst(es[1..])
  {
    var tail := es[1..];
    forall y | y in tail ensures NewerOrSame(es[0], y) {
      var k :| 0 <= k < |tail| && tail[k] == y;
      assert es[k + 1] == y;
    }
    forall i, j | 0 <= i < j < |tail| ensures NewerOrSame(tail[i], tail[j]) {
      assert tail[i] == es[i + 1] && tail[j] == es[j + 1];
    }
  }

  /** Putting an entry at least as new as all the others in front keeps the order. */
  lemma ConsNewestFirst(x: Entry, es: seq<Entry>)
    requires NewestFirst(es)
    requires forall y :: y in es ==> NewerOrSame(x, y)
    ensures NewestFirst([x] + es)
  {
    var r := [x] + es;
    forall i, j | 0 <= i < j < |r| ensures NewerOrSame(r[i], r[j]) {
      if i == 0 {
        assert r[j] in es;
      } else {
        assert r[i] == es[i - 1] && r[j] == es[j - 1];
      }
    }
  }

  /** Inserting an entry that is not yet present keeps the entries distinct. */
  lemma {:induction false} InsertByDateDistinct(e: Entry, es: seq<Entry>)
    requires NewestFirst(es) && NoDuplicates(es) && e !in es
    ensures NoDuplicates(InsertByDate(e, es))
  {
    if es != [] && e.borrowing.borrowDate < es[0].borrowing.borrowDate {
      var tail := es[1..];
      HeadIsNewest(es);
      assert NoDuplicates(tail);
      InsertByDateDistinct(e, tail);
      var rest := InsertByDate(e, tail);
      assert es[0] !in tail;
      forall x | x in rest ensures x == e || x in tail {
        assert x in multiset(rest);
      }
    }
  }

  /**
   * The table in listing order: a rearrangement of the entries with the newest
   * borrow date first (entries with equal dates keep no promised order).
   */
  function OrderNewestFirst(es: seq<Entry>): (r: seq<Entry>)
    ensures NewestFirst(r)
    ensures multiset(r) == multiset(es)
  {
    if es == [] then []
    else
      assert es == [es[0]] + es[1..];
      InsertByDate(es[0], OrderNewestFirst(es[1..]))
  }

  /** Ordering distinct entries yields distinct entries. */
  lemma {:induction false} OrderDistinct(es: seq<Entry>)
    requires NoDuplicates(es)
    ensures NoDuplicates(OrderNewestFirst(es))
  {
    if es != [] {
      var sorted := OrderNewestFirst(es[1..]);
      assert NoDuplicates(es[1..]);
      OrderDistinct(es[1..]);
      assert es[0] !in es[1..];
      assert es[0] !in sorted by {
        forall x | x in sorted ensures x in es[1..] {
          assert x in multiset(sorted);
        }
      }
      InsertByDateDistinct(es[0], sorted);
    }
  }

  /** `Borrowing.objects.all()`: every borrowing once, newest borrow date first. */
  function AllNewestFirst(bs: seq<Borrowing>): (r: seq<Entry>)
    ensures forall e :: e in r <==> e.id < |bs| && e.borrowing == bs[e.id]
    ensures NoDuplicates(r)
    ensures NewestFirst(r)
  {
    var r := OrderNewestFirst(Entries(bs));
    assert forall e :: e in r <==> e in Entries(bs) by {
      forall e ensures e in r <==> e in Entries(bs) {
        assert e in r <==> e in multiset(r);
      }
    }
    assert NoDuplicates(r) by {
      OrderDistinct(Entries(bs));
    }
    r
  }
}
