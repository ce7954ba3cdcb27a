/**
 * The book list query: optional `title` and `author` parameters, each a
 * case-insensitive substring filter, applied one after the other, and then
 * `distinct()`.
 */
module BookSearch {
  import opened Wrappers
  import opened Seqs
  import opened Text
  import opened Books

  /** The conditions in force for one request; a missing or empty parameter imposes none. */
  predicate Matches(b: Book, title: Option<string>, author: Option<string>) {
    && (Given(title) ==> ContainsIgnoreCase(b.title, title.value))
    && (Given(author) ==> ContainsIgnoreCase(b.author, author.value))
  }

  /**
   * The books listed for the query: exactly those meeting every condition
   * given, none twice.
   */
  function Search(books: seq<Book>, title: Option<string>, author: Option<string>): (r: seq<Book>)
    ensures forall b :: b in r <==> b in books && Matches(b, title, author)
    ensures NoDuplicates(r)
  {
    var byTitle :=
      if Given(title) then Filter(books, (b: Book) => ContainsIgnoreCase(b.title, title.value)) else books;
    var byAuthor :=
      if Given(author) then Filter(byTitle, (b: Book) => ContainsIgnoreCase(b.author, author.value)) else byTitle;
    Dedup(byAuthor)
  }

  /** Without a usable parameter the whole catalog is listed, in its own order. */
  lemma SearchWithoutFilters(books: seq<Book>, title: Option<string>, author: Option<string>)
    requires !Given(title) && !Given(author)
    requires UniqueTitles(books)
    ensures Search(books, title, author) == books
  {
    assert NoDuplicates(books);
    DedupOfDistinct(books);
  }

  /** A first letter of the needle that the haystack lacks rules out a match. */
  lemma {:induction false} MissingFirstLetter(hay: string, needle: string)
    requires |needle| > 0 && needle[0] !in hay
    ensures !Contains(hay, needle)
    decreases |hay|
  {
    if |needle| <= |hay| {
      assert hay[..|needle|][0] == hay[0];
      MissingFirstLetter(hay[1..], needle);
    }
  }

  lemma DjangoInFirstTitle(title: string)
    requires title == "Django for Beginners"
    ensures ContainsIgnoreCase(title, "django")
  {
    var h := ToLower(title);
    assert h[0..6] == "django";
    OccursAtContains(h, ToLower("django"), 0);
  }

  lemma DjangoInThirdTitle(title: string)
    requires title == "Another Django Book"
    ensures ContainsIgnoreCase(title, "django")
  {
    var h := ToLower(title);
    assert h[8..14] == "django";
    OccursAtContains(h, ToLower("django"), 8);
  }

  lemma DjangoNotInSecondTitle(title: string)
    requires title == "Python Tricks"
    ensures !ContainsIgnoreCase(title, "django")
  {
    var h := ToLower(title);
    assert forall i :: 0 <= i < |h| ==> h[i] != 'd';
    MissingFirstLetter(h, ToLower("django"));
  }

  /**
   * The catalog of the title-filter scenario: searching "django" lists
   * "Django for Beginners" and "Another Django Book" but not "Python Tricks".
   */
  lemma TitleSearchScenario(b1: Book, b2: Book, b3: Book)
    requires b1.title == "Django for Beginners"
    requires b2.title == "Python Tricks"
    requires b3.title == "Another Django Book"
    ensures var r := Search([b1, b2, b3], Some("django"), None);
            b1 in r && b2 !in r && b3 in r
  {
    DjangoInFirstTitle(b1.title);
    DjangoNotInSecondTitle(b2.title);
    DjangoInThirdTitle(b3.title);
  }
}
