# Library service: borrowing ledger, scoping, search and overdue sweep

This project is a Dafny model of the core of a library REST service. It has
two tables: a catalog of books, each with a shelf inventory, and borrowings.
A borrowing is a loan of one book to one user.

- **Borrowing.** Taking a book out validates the book, takes one copy off its
  inventory and opens a borrowing dated today. The API then sends a
  "new borrowing" message to the Telegram chat.
- **Returning.** The return endpoint closes the borrowing with today's date
  and puts the copy back. It refuses a borrowing that is already closed.
- **Listing.** Members see only their own borrowings, newest first; staff see
  all of them. Staff may narrow the list by `user_id`, and anyone may narrow
  it by `is_active`. The detail and return endpoints look a row up through
  the same scope.
- **Book search.** The book list takes optional `title` and `author`
  parameters. Each is a case-insensitive substring filter, and the result is
  made distinct.
- **Overdue sweep.** A periodic task sends one notice per open borrowing due
  today or earlier, or a single "nothing overdue" message. A send that fails
  is logged and skipped.
- **Book constraints.** Title (unique) and author are at most 255 characters.
  The cover is `HARD` or `SOFT` and defaults to `SOFT`. The inventory is not
  negative. The daily fee is a decimal of at most 10 digits, 2 of them after
  the point.

Layout, one module per file:

- `Wrappers`: the `Option` and `Result` types.
- `Seqs`: order-preserving `Filter`, `Dedup` and the sequence predicates they
  are specified with.
- `Text`: query-parameter truthiness, ASCII lower-casing and substring search.
- `Books`: the book record and its field constraints.
- `BookSearch`: the book list query.
- `Borrowings`: the borrowing record and the newest-first listing order.
- `Ledger`: borrow and return as transitions on the two tables, and copy
  conservation over any run of requests.
- `Scoping`: who sees which borrowings.
- `Notify`: chat messages and which of them arrive.
- `Overdue`: the sweep's selection and messages.
- `Service`: the class `Library`. It holds the tables and the chat log as
  fields, and each endpoint or task is a method that changes them in place.
  Each table-changing method is proved to give exactly the tables that
  `Books.CreateBook`, `Ledger.Create` or `Ledger.Return` give. The lookup in
  `ReturnBorrowing` is `Scoping.Lookup`, and the sweep's attempts are
  `Overdue.SweepMessages`. `Send` is the guarded send of one message.

Conventions:

- A row's id is its index in its table.
- Dates are day numbers.
- The fee is kept in hundredths, so it is exact.
- "Today" is a parameter.
- The outcome of each chat send is a parameter:
  - `delivered` for the create endpoint;
  - a set `failing` of attempt numbers for the sweep.

## Model

| member | source | states |
|---|---|---|
| Books.ParseCover | books/models.py:5-7 | a cover code is accepted exactly when it is `HARD` or `SOFT`, and reading it back gives the same code |
| Books.CoverCodeRoundTrip | books/models.py:5-15 | every cover choice's stored code reads back as that choice |
| Books.CoverCode | books/models.py:11-13 | every stored cover code fits the 4-character column |
| Books.DigitCountBound | books/models.py:17 | a number has at most k digits exactly when it is below 10^k |
| Books.FeeFitsRange | books/models.py:17 | a fee fits `max_digits=10, decimal_places=2` exactly when its magnitude is below 10^8, i.e. strictly between -10^10 and 10^10 hundredths |
| Books.FieldErrors | books/models.py:9-17 | a submission has no field error exactly when the title is 1..255 characters and not already taken, the author is 1..255 characters, any cover given is a valid choice, the inventory is not negative and the fee fits; each error kind is reported exactly when its own constraint is violated (blank or too long title, taken title, blank or too long author, unknown cover, negative inventory, too many fee digits) |
| Books.CreateBook | books/models.py:9-17 | a book is stored exactly when there is no field error; a refusal reports all the errors and stores nothing; a stored book is appended with the given fields, the cover defaulting to SOFT; it satisfies the row constraints and keeps titles unique |
| Books.DuplicateTitleRefused | books/models.py:9 | a title already in the catalog is refused with a duplicate-title error |
| BookSearch.Search | books/views.py:16-27 | a book is listed exactly when it is in the catalog and its title, and then its author, contain each given non-empty parameter ignoring letter case; no book is listed twice |
| BookSearch.SearchWithoutFilters | books/views.py:21-27 | with both parameters missing or empty, the whole catalog is listed in its own order |
| BookSearch.TitleSearchScenario | books/tests.py:68-82 | searching "django" lists "Django for Beginners" and "Another Django Book" but not "Python Tricks" |
| BookSearch.MissingFirstLetter | books/views.py:22 | a needle whose first letter does not occur in the text is not a substring of it |
| Text.ContainsAt | books/views.py:22 | the substring test holds exactly when the needle occurs at some position of the text |
| Borrowings.Entries | borrowings/models.py:9-14 | the table's entries are exactly its rows paired with their ids, each once |
| Borrowings.OrderNewestFirst | borrowings/models.py:19-20 | the listing order is a permutation of the rows with borrow dates non-increasing |
| Borrowings.OrderDistinct | borrowings/models.py:19-20 | ordering the rows lists no row twice |
| Borrowings.AllNewestFirst | borrowings/models.py:19-20 | the default queryset lists every borrowing exactly once, newest borrow date first |
| Ledger.ValidateBook | borrowings/serializers.py:31-35 | the book field is accepted exactly when it names a book with at least one copy on the shelf; otherwise the error says whether the book is unknown or out of stock |
| Ledger.Create | borrowings/serializers.py:37-48 | a borrowing is created exactly when the book exists and is in stock; the chosen book's inventory drops by exactly one and none of its other fields change, no other book changes, and one open borrowing dated today for the caller is appended; the store's constraints still hold |
| Ledger.Return | borrowings/models.py:22-28 | a return succeeds exactly when the borrowing exists and is open; it stamps today as the return date, raises that book's inventory by exactly one, leaves that book's other fields, every other book and every other borrowing unchanged; an already returned borrowing is refused |
| Ledger.ReturnOnlyOnce | borrowings/tests.py:147-162 | after a return, a second return is refused and the inventory stays one above its value before the first |
| Ledger.LastCopyGoesOnce | borrowings/serializers.py:31-35 | with one copy left, the first borrowing succeeds and leaves zero, and a second is refused as out of stock |
| Ledger.OpenLoansUpdate | borrowings/models.py:22-28 | replacing one borrowing changes the number of open loans of a book by the difference the two rows make |
| Ledger.CreateConservesCopies | borrowings/serializers.py:43-48 | borrowing moves a copy from the shelf to a loan: shelf copies plus open loans is unchanged for every book |
| Ledger.ReturnConservesCopies | borrowings/models.py:22-28 | returning moves a copy from a loan to the shelf: shelf copies plus open loans is unchanged for every book |
| Ledger.Step | borrowings/views.py:22-71 | one borrow or return request, refused or not, keeps the store's constraints and never removes a row |
| Ledger.Run | borrowings/views.py:22-71 | any sequence of borrow and return requests keeps the store's constraints |
| Ledger.RunConservesCopies | borrowings/views.py:22-71 | over any sequence of borrows and returns, every book keeps its number of copies (shelf plus on loan) |
| Ledger.RunKeepsHistory | borrowings/models.py:22-28 | over any sequence of borrow and return requests a borrowing keeps its dates, book and borrower, and a returned borrowing is never changed again by them |
| Scoping.ParseIsActive | borrowings/views.py:52-57 | `is_active` selects open rows exactly when it is "true" in any letter case, and closed rows exactly when it is "false" in any letter case |
| Scoping.IsActiveAnyCase | borrowings/views.py:52-57 | "TRUE" and "False" select open and closed rows; "yes" and the empty string select nothing |
| Scoping.Scope | borrowings/views.py:41-59 | the scoped queryset is exactly the rows visible to the caller, as a subsequence of the input: input order kept, no row added or repeated |
| Scoping.List | borrowings/views.py:41-59 | the list is the subsequence of the newest-first table holding exactly the rows that pass the owner, `user_id` and `is_active` filters, each once, newest first |
| Scoping.Lookup | borrowings/views.py:41-59 | a detail or return lookup finds a row exactly when that row is in the caller's list |
| Scoping.MemberListsOwnOnly | borrowings/views.py:45-46 | a member's list holds only their own borrowings |
| Scoping.MemberCannotReachOthers | borrowings/tests.py:73-90 | a member looking up another user's borrowing gets nothing (404) |
| Scoping.UserIdIgnoredForMembers | borrowings/views.py:48-50 | `user_id` has no effect on a member's list |
| Scoping.StaffListsEverything | borrowings/tests.py:189-196 | staff without parameters list every borrowing |
| Seqs.Filter | borrowings/views.py:41-59 | a queryset filter keeps exactly the rows that pass, in order, without adding duplicates |
| Seqs.FilterKeepsOrder | borrowings/views.py:41-59 | filtering a newest-first queryset keeps it newest first |
| Seqs.FilterCongruent | borrowings/views.py:48-50 | two filters that agree on every row give the same queryset |
| Seqs.FilterKeepsAll | borrowings/views.py:41-59 | a filter every row passes returns the queryset unchanged |
| Seqs.Dedup | books/views.py:27 | `distinct()` keeps exactly the rows present, each once |
| Seqs.DedupOfDistinct | books/views.py:27 | `distinct()` on rows that are already distinct changes nothing |
| Notify.Succeeding | borrowings/tasks.py:23-38 | the succeeding attempt numbers are exactly those below the attempt count that do not fail, in increasing order |
| Notify.Delivered | borrowings/tasks.py:23-38 | the messages that reach the chat are a subsequence of the attempts, in attempt order, and there are exactly as many of them as attempts that do not fail |
| Notify.DeliveredInOrder | borrowings/tasks.py:23-38 | the i-th message that reaches the chat is the message of the i-th succeeding attempt, so the chat's order is fixed even when messages repeat |
| Notify.DeliveredKeepsSuccesses | borrowings/tasks.py:23-31 | a failed send does not stop the sweep: every attempt that does not fail arrives, and with no failures all arrive |
| Overdue.OverdueQueue | borrowings/tasks.py:16-19 | the sweep selects exactly the borrowings that are open and due today or earlier, each once, newest first |
| Overdue.Notices | borrowings/tasks.py:23-31 | one notice per selected borrowing, in selection order |
| Overdue.SweepMessages | borrowings/tasks.py:10-38 | the sweep attempts one notice per overdue borrowing, or exactly one "nothing overdue" message when there is none |
| Overdue.DueTodayIsOverdue | borrowings/tasks.py:16-19 | an open borrowing due today is overdue; one due tomorrow is not |
| Overdue.EachOverdueNoticedOnce | borrowings/tasks.py:23-31 | every overdue borrowing sits at exactly one place in the queue, and the sweep's message there is an overdue notice naming its book's title, its borrower's e-mail and its borrow date |
| Overdue.SummaryOnlyWhenNoneOverdue | borrowings/tasks.py:32-38 | the "nothing overdue" message is the whole sweep exactly when no borrowing is overdue |
| Service.Library.constructor | books/models.py:4-20 | an empty library satisfies the store's constraints |
| Service.Library.AddBook | books/models.py:9-17 | inserting a book changes the catalog exactly as `Books.CreateBook` says and touches nothing else; the new book gets the next id |
| Service.Library.CreateBorrowing | borrowings/serializers.py:31-48 | the create serializer updates both tables exactly as `Ledger.Create`; the chat is untouched |
| Service.Library.PerformCreate | borrowings/views.py:22-39 | the create endpoint stores the borrowing for the requesting user as `Ledger.Create`; the "new borrowing" message naming the title, the user's e-mail and the due date reaches the chat exactly when the borrowing was created and the send succeeds |
| Service.Library.ReturnBook | borrowings/models.py:22-28 | `return_book` updates both tables exactly as `Ledger.Return`, refusing a borrowing already returned |
| Service.Library.UpdateReturn | borrowings/serializers.py:51-56 | the return serializer refuses an already returned borrowing and otherwise returns it as `Ledger.Return` |
| Service.Library.ReturnBorrowing | borrowings/views.py:61-71 | the return endpoint answers not found when the row is outside the caller's scope, and otherwise returns it as `Ledger.Return` |
| Service.Library.Send | borrowings/tasks.py:26-31 | a guarded send appends the message to the chat unless that attempt fails; only the chat changes |
| Service.Library.SendNotices | borrowings/tasks.py:23-31 | the sweep's loop attempts exactly the notices of the queue, in order, and the chat receives those that do not fail |
| Service.Library.CheckOverdueBorrowings | borrowings/tasks.py:10-38 | the sweep attempts exactly `Overdue.SweepMessages` of the current tables, the chat receives exactly the attempts that do not fail, and the tables do not change |

## Left out

- Differences between the code and its intended behaviour, where the model follows the code:
  - A failing "new borrowing" send is not guarded (borrowings/views.py:39). The borrowing is already stored when the send raises, so the request fails after the fact. `PerformCreate` models this: the borrowing stays and `notified` is false.
  - Nothing validates `expected_return_date`. A date before today is accepted, although a test expects it to be refused (borrowings/tests.py:127-135). `Ledger.Create` accepts any date.
  - `daily_fee` has no lower bound in the code, so negative fees are accepted and only the digit limit applies.
  - The overdue notice carries the borrow date. No count of days overdue is computed.
- The second stock checks are not modelled as separate branches:
  - the one in `create` (borrowings/serializers.py:40);
  - the one in `perform_create` (borrowings/views.py:25-29), whose response value is discarded.
  Both read the inventory just validated in the same request, so in a sequential model neither can fail.
- Concurrency, transactions and row locking: requests are modelled one at a time. Two concurrent borrows of the last copy are not modelled.
- Chat sends become abstract parameters. Their text formatting, the HTTP call and the logging are not modelled.
- The clock: "today" is a parameter.
- Pagination of the book list (15 per page) and of the borrowing list.
- Book update and delete through the generic viewset, the book serializer, and book permissions (`books/permissions.py` is not part of this model).
- Borrowing update and delete through the generic viewset (borrowings/views.py:13, with the writable `BorrowingSerializer` of borrowings/serializers.py:8-21), and serialization of responses. These endpoints can set `actual_return_date` back to null, set it without adding the copy back, or delete an open borrowing without restoring its copy. So a borrowing can be returned twice through them, and copies can be gained or lost. `Ledger.RunConservesCopies` and `Ledger.RunKeepsHistory` hold only for sequences of the modelled borrow and return requests.
- Upper bound of `inventory`: `PositiveIntegerField` has a database-dependent maximum (2147483647 on PostgreSQL and MySQL). `Books.FieldErrors` checks only that it is not negative, and `Ledger.Return` adds one without a bound.
- Authentication and the user app. The caller is a given `User(id, email, isStaff)`.
- A non-numeric `user_id` makes the query layer raise when the caller is staff; a member's `user_id` is ignored (borrowings/views.py:49), as `Scoping.UserIdIgnoredForMembers` states. The model takes `user_id` as an optional non-negative number, with a missing or empty value as `None`. A negative `user_id` such as "-1" is accepted by the query layer and lists nothing; the model cannot express it.
- The extra `return_book` route (borrowings/urls.py:11) names a view action that does not exist. It is left out; the `return` action is modelled.
- Deleting rows (and the cascades): tables only grow.
- Text.LowerChar: lower-cases ASCII letters only. Case-insensitive matching in the database may also fold non-ASCII letters, depending on the database backend. For the "true"/"false" comparison of `is_active` the two agree exactly.
- BookSearch.Search: `distinct()` compares rows by identity. The model compares values; the two agree because titles are unique.
- Ordering of rows with equal borrow dates is unspecified by the code. `Borrowings.OrderNewestFirst` promises only non-increasing dates and a permutation.
