/**
 * The `Book` record of the catalog: its fields, the cover choices, and the
 * constraints the store enforces when a book is written (length bounds on title
 * and author, a non-negative inventory, a fee of at most ten digits with two
 * fractional ones, and a title no other book has).
 */
module Books {
  import opened Wrappers

  const TitleMaxLength: nat := 255
  const AuthorMaxLength: nat := 255
  const CoverMaxLength: nat := 4
  /** The fee is a decimal with `FeeMaxDigits` digits in all, `FeeDecimalPlaces` of them fractional. */
  const FeeMaxDigits: nat := 10
  const FeeDecimalPlaces: nat := 2

  datatype Cover = Hard | Soft

  const DefaultCover: Cover := Soft

  /** The code stored in the `cover` column. */
  function CoverCode(c: Cover): (code: string)
    ensures |code| <= CoverMaxLength
  {
    match c
    case Hard => "HARD"
    case Soft => "SOFT"
  }

  /** Reads a submitted cover code; anything but the two choices is refused. */
  function ParseCover(code: string): (r: Option<Cover>)
    ensures r.Some? <==> code == "HARD" || code == "SOFT"
    ensures r.Some? ==> CoverCode(r.value) == code
  {
    if code == "HARD" then Some(Hard)
    else if code == "SOFT" then Some(Soft)
    else None
  }

  lemma CoverCodeRoundTrip(c: Cover)
    ensures ParseCover(CoverCode(c)) == Some(c)
  {
  }

  /** A book row. `dailyFeeCents` is the fee in hundredths, so it is exact. */
  datatype Book = Book(title: string, author: string, cover: Cover, inventory: nat, dailyFeeCents: int)

  function Pow10(k: nat): (p: nat)
    ensures p >= 1
  {
    if k == 0 then 1 else 10 * Pow10(k - 1)
  }

  /** Number of decimal digits of `n` (zero has one). */
  function DigitCount(n: nat): (d: nat)
    ensures d >= 1
    ensures d == 1 <==> n < 10
  {
    if n < 10 then 1 else 1 + DigitCount(n / 10)
  }

  /** `n` has at most `k` digits exactly when it is below 10^k. */
  lemma {:induction false} DigitCountBound(n: nat, k: nat)
    requires k >= 1
    ensures DigitCount(n) <= k <==> n < Pow10(k)
  {
    if k == 1 {
      assert Pow10(1) == 10;
    } else {
      assert Pow10(k) == 10 * Pow10(k - 1);
      if n >= 10 {
        DigitCountBound(n / 10, k - 1);
        assert n / 10 < Pow10(k - 1) <==> n < 10 * Pow10(k - 1);
      } else {
        PowAtLeastTen(k);
      }
    }
  }

  lemma {:induction false} PowAtLeastTen(k: nat)
    requires k >= 1
    ensures Pow10(k) >= 10
  {
    if k > 1 {
      PowAtLeastTen(k - 1);
    }
  }

  /**
   * Digits of a fee of `cents` hundredths written with exactly two decimal
   * places (0.05 has two, 12.50 has four). The decimal field's validator
   * counts the digits as submitted instead, but it accepts and refuses the
   * same fees, as `FeeFitsRange` shows.
   */
  function FeeDigits(cents: int): (d: nat)
    ensures d >= FeeDecimalPlaces
  {
    var n: nat := if cents < 0 then -cents else cents;
    if DigitCount(n) < FeeDecimalPlaces then FeeDecimalPlaces else DigitCount(n)
  }

  predicate FeeFits(cents: int) {
    FeeDigits(cents) <= FeeMaxDigits
  }

  /** A fee fits the column exactly when its magnitude is below 10^8 (in cents, 10^10). */
  lemma FeeFitsRange(cents: int)
    ensures FeeFits(cents) <==> -10_000_000_000 < cents < 10_000_000_000
  {
    var n: nat := if cents < 0 then -cents else cents;
    DigitCountBound(n, FeeMaxDigits);
    assert Pow10(FeeMaxDigits) == 10_000_000_000;
  }

  /** What the store demands of every book it holds. */
  predicate ValidBook(b: Book) {
    && 1 <= |b.title| <= TitleMaxLength
    && 1 <= |b.author| <= AuthorMaxLength
    && FeeFits(b.dailyFeeCents)
  }

  predicate TitleTaken(books: seq<Book>, title: string) {
    exists i :: 0 <= i < |books| && books[i].title == title
  }

  predicate UniqueTitles(books: seq<Book>) {
    forall i, j :: 0 <= i < j < |books| ==> books[i].title != books[j].title
  }

  datatype BookError =
    | BlankTitle | TitleTooLong | DuplicateTitle
    | BlankAuthor | AuthorTooLong
    | InvalidCover
    | NegativeInventory
    | FeeTooManyDigits

  /** The constraint behind each field error, checked against the current catalog. */
  predicate Violates(e: BookError, books: seq<Book>, title: string, author: string, cover: Option<string>,
                     inventory: int, feeCents: int) {
    match e
    case BlankTitle => title == ""
    case TitleTooLong => |title| > TitleMaxLength
    case DuplicateTitle => TitleTaken(books, title)
    case BlankAuthor => author == ""
    case AuthorTooLong => |author| > AuthorMaxLength
    case InvalidCover => cover.Some? && ParseCover(cover.value).None?
    case NegativeInventory => inventory < 0
    case FeeTooManyDigits => !FeeFits(feeCents)
  }

  /** Every field error a book submission draws against the current catalog. */
  function FieldErrors(books: seq<Book>, title: string, author: string, cover: Option<string>,
                       inventory: int, feeCents: int): (errs: set<BookError>)
    ensures errs == {} <==>
              && 1 <= |title| <= TitleMaxLength && !TitleTaken(books, title)
              && 1 <= |author| <= AuthorMaxLength
              && (cover.None? || ParseCover(cover.value).Some?)
              && inventory >= 0
              && FeeFits(feeCents)
    ensures BlankTitle in errs <==> title == ""
    ensures TitleTooLong in errs <==> |title| > TitleMaxLength
    ensures DuplicateTitle in errs <==> TitleTaken(books, title)
    ensures BlankAuthor in errs <==> author == ""
    ensures AuthorTooLong in errs <==> |author| > AuthorMaxLength
    ensures InvalidCover in errs <==> cover.Some? && ParseCover(cover.value).None?
    ensures NegativeInventory in errs <==> inventory < 0
    ensures FeeTooManyDigits in errs <==> !FeeFits(feeCents)
  {
    var errs := set e: BookError | Violates(e, books, title, author, cover, inventory, feeCents);
    assert errs == {} <==>
             && BlankTitle !in errs && TitleTooLong !in errs && DuplicateTitle !in errs
             && BlankAuthor !in errs && AuthorTooLong !in errs && InvalidCover !in errs
             && NegativeInventory !in errs && FeeTooManyDigits !in errs
    by {
      if errs != {} {
        var e :| e in errs;
        assert e in errs;
      }
    }
    errs
  }

  /**
   * Inserting a book: all field errors are reported together and nothing is
   * stored; otherwise the new row is appended, with the cover defaulting to SOFT.
   */
  function CreateBook(books: seq<Book>, title: string, author: string, cover: Option<string>,
                      inventory: int, feeCents: int): (r: Result<seq<Book>, set<BookError>>)
    ensures r.Ok? <==> FieldErrors(books, title, author, cover, inventory, feeCents) == {}
    ensures r.Err? ==> r.error == FieldErrors(books, title, author, cover, inventory, feeCents) && r.error != {}
    ensures r.Ok? ==>
              && |r.value| == |books| + 1 && r.value[..|books|] == books
              && ValidBook(r.value[|books|])
              && r.value[|books|].title == title && r.value[|books|].author == author
              && r.value[|books|].inventory == inventory
              && r.value[|books|].dailyFeeCents == feeCents
              && r.value[|books|].cover == (if cover.None? then DefaultCover else ParseCover(cover.value).value)
    ensures r.Ok? && UniqueTitles(books) ==> UniqueTitles(r.value)
  {
    var errs := FieldErrors(books, title, author, cover, inventory, feeCents);
    if errs != {} then Err(errs)
    else
      var c := if cover.None? then DefaultCover else ParseCover(cover.value).value;
      Ok(books + [Book(title, author, c, inventory, feeCents)])
  }

  /** A second book with a title already in the catalog is refused with a duplicate-title error. */
  lemma DuplicateTitleRefused(books: seq<Book>, title: string, author: string, cover: Option<string>,
                              inventory: int, feeCents: int)
    requires TitleTaken(books, title)
    ensures var r := CreateBook(books, title, author, cover, inventory, feeCents);
            r.Err? && DuplicateTitle in r.error
  {
  }
}
