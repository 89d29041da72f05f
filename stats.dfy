/**
 * The library summary: how many books there are, how many of each genre, the
 * average page count rounded to an integer, and the range of publication years.
 */
module Stats {
  import opened Results
  import opened Models

  /** The earliest and latest publication year in the library. */
  datatype YearRange = YearRange(earliest: int, latest: int)

  /** The summary; an empty library has no year range. */
  datatype Summary = Summary(
    totalBooks: nat,
    genres: map<Genre, nat>,
    averagePages: int,
    yearRange: Option<YearRange>)

  /** How many of `books` have genre `g`. */
  function GenreCount(books: seq<Book>, g: Genre): (r: nat)
    ensures r <= |books|
  {
    if books == [] then 0
    else GenreCount(books[..|books| - 1], g) + (if books[|books| - 1].genre == g then 1 else 0)
  }

  /** The genre distribution: every genre that occurs, with its number of books. */
  function GenreCounts(books: seq<Book>): map<Genre, nat> {
    map g | g in ALL_GENRES && GenreCount(books, g) > 0 :: GenreCount(books, g)
  }

  /** `sum(book.pages for book in books)`. */
  function SumPages(books: seq<Book>): int {
    if books == [] then 0 else SumPages(books[..|books| - 1]) + books[|books| - 1].pages
  }

  /** `min(book.publication_year for book in books)`: a lower bound that some book attains. */
  function MinYear(books: seq<Book>): (r: int)
    requires books != []
    ensures forall i :: 0 <= i < |books| ==> r <= books[i].publicationYear
    ensures exists i :: 0 <= i < |books| && books[i].publicationYear == r
  {
    if |books| == 1 then books[0].publicationYear
    else
      var m := MinYear(books[..|books| - 1]);
      var y := books[|books| - 1].publicationYear;
      assert forall i :: 0 <= i < |books| - 1 ==> books[..|books| - 1][i] == books[i];
      if y < m then y else m
  }

  /** `max(book.publication_year for book in books)`: an upper bound that some book attains. */
  function MaxYear(books: seq<Book>): (r: int)
    requires books != []
    ensures forall i :: 0 <= i < |books| ==> books[i].publicationYear <= r
    ensures exists i :: 0 <= i < |books| && books[i].publicationYear == r
  {
    if |books| == 1 then books[0].publicationYear
    else
      var m := MaxYear(books[..|books| - 1]);
      var y := books[|books| - 1].publicationYear;
      assert forall i :: 0 <= i < |books| - 1 ==> books[..|books| - 1][i] == books[i];
      if y > m then y else m
  }

  /** Python's `round(n / d)` for a positive divisor, on the exact quotient: the nearest
      integer, and the even one of the two nearest when the quotient lies halfway. */
  function RoundHalfEven(n: int, d: int): (r: int)
    requires d > 0
    ensures 2 * Abs(r * d - n) <= d
    ensures 2 * Abs(r * d - n) == d ==> r % 2 == 0
  {
    var q := n / d;
    var rem := n % d;
    if 2 * rem < d then q
    else if 2 * rem > d then q + 1
    else if q % 2 == 0 then q
    else q + 1
  }

  function Abs(x: int): nat {
    if x < 0 then -x else x
  }

  /** The summary the statistics endpoint reports for `books`. */
  function SummaryOf(books: seq<Book>): Summary {
    if books == [] then Summary(0, map[], 0, None)
    else Summary(|books|, GenreCounts(books), RoundHalfEven(SumPages(books), |books|),
                 Some(YearRange(MinYear(books), MaxYear(books))))
  }

  /** The statistics endpoint: an early answer for an empty library, otherwise the genre
      counts gathered in one pass over the books, then the page sum and the year extremes. */
  method LibraryStats(books: seq<Book>) returns (s: Summary)
    ensures s == SummaryOf(books)
    ensures books == [] ==> s == Summary(0, map[], 0, None)
    ensures s.totalBooks == |books|
    ensures forall g :: g in s.genres <==> GenreCount(books, g) > 0
    ensures forall g :: g in s.genres ==> s.genres[g] == GenreCount(books, g)
  {
    if books == [] {
      s := Summary(0, map[], 0, None);
    } else {
      var counts: map<Genre, nat> := map[];
      for i := 0 to |books|
        invariant forall g :: g in counts <==> GenreCount(books[..i], g) > 0
        invariant forall g :: g in counts ==> counts[g] == GenreCount(books[..i], g)
      {
        assert books[..i + 1][..i] == books[..i];
        var g := books[i].genre;
        counts := counts[g := (if g in counts then counts[g] else 0) + 1];
      }
      assert books[..|books|] == books;
      forall g ensures g in ALL_GENRES {
        EveryGenreListed(g);
      }
      assert counts == GenreCounts(books);
      s := Summary(|books|, counts, RoundHalfEven(SumPages(books), |books|),
                   Some(YearRange(MinYear(books), MaxYear(books))));
    }
  }

  lemma EveryGenreListed(g: Genre)
    ensures g in ALL_GENRES
  {
    match g
    case Fiction => assert ALL_GENRES[0] == g;
    case NonFiction => assert ALL_GENRES[1] == g;
    case Mystery => assert ALL_GENRES[2] == g;
    case Romance => assert ALL_GENRES[3] == g;
    case ScienceFiction => assert ALL_GENRES[4] == g;
    case Fantasy => assert ALL_GENRES[5] == g;
    case Biography => assert ALL_GENRES[6] == g;
    case History => assert ALL_GENRES[7] == g;
    case Technology => assert ALL_GENRES[8] == g;
  }

  /** The counts of all nine genres added up. */
  function GenreTotal(books: seq<Book>): nat {
    GenreCount(books, Fiction) + GenreCount(books, NonFiction) + GenreCount(books, Mystery)
    + GenreCount(books, Romance) + GenreCount(books, ScienceFiction) + GenreCount(books, Fantasy)
    + GenreCount(books, Biography) + GenreCount(books, History) + GenreCount(books, Technology)
  }

  /** Every book is counted under exactly one genre: the genre counts add up to the total.
      The distribution holds each genre with a non-zero count at that count and leaves out
      exactly the genres counted 0 (`LibraryStats`), so its values add up to `totalBooks` too. */
  lemma {:induction false} CountsAddUp(books: seq<Book>)
    ensures GenreTotal(books) == |books|
  {
    if books != [] {
      CountsAddUp(books[..|books| - 1]);
    }
  }

  /** The unique integer the rounding picks: any integer as near to `n / d`, and even when
      the quotient lies halfway, is the rounded average. */
  lemma RoundHalfEvenUnique(n: int, d: int, r: int)
    requires d > 0
    requires 2 * Abs(r * d - n) <= d
    requires 2 * Abs(r * d - n) == d ==> r % 2 == 0
    ensures r == RoundHalfEven(n, d)
  {
    var e := RoundHalfEven(n, d);
    var x, y := r * d - n, e * d - n;
    assert (r - e + 1) * d == x - y + d;
    assert (e - r + 1) * d == y - x + d;
    MulSign(r - e + 1, d);
    MulSign(e - r + 1, d);
    assert r - e == 1 ==> x - y == d;
    assert e - r == 1 ==> y - x == d;
    NearestTie(r, e, x, y, d);
  }

  /** Two integers within half of `d` of a quotient, one apart, are both halfway. */
  lemma NearestTie(r: int, e: int, x: int, y: int, d: int)
    requires 2 * Abs(x) <= d && 2 * Abs(y) <= d
    requires 2 * Abs(x) == d ==> r % 2 == 0
    requires 2 * Abs(y) == d ==> e % 2 == 0
    requires -1 <= r - e <= 1
    requires r - e == 1 ==> x - y == d
    requires e - r == 1 ==> y - x == d
    ensures r == e
  {
  }

  /** A multiple of a positive `d` above `-d` is a non-negative multiple. */
  lemma MulSign(k: int, d: int)
    requires d > 0
    ensures k * d > -d ==> k >= 0
  {
    if k < 0 {
      var j := -k - 1;
      MulNonNegative(j, d);
      assert k * d == -(j * d) - d;
    }
  }

  lemma {:induction false} MulNonNegative(j: nat, d: nat)
    ensures j * d >= 0
  {
    if j > 0 {
      MulNonNegative(j - 1, d);
      assert j * d == (j - 1) * d + d;
    }
  }

  /** A rounded average of values between `lo` and `hi` lies between them. */
  lemma RoundHalfEvenBounds(n: int, d: int, lo: int, hi: int)
    requires d > 0
    requires lo * d <= n <= hi * d
    ensures lo <= RoundHalfEven(n, d) <= hi
  {
    var r := RoundHalfEven(n, d);
    assert (r - lo) * d == r * d - lo * d;
    assert (hi - r) * d == hi * d - r * d;
    MulSign(r - lo, d);
    MulSign(hi - r, d);
  }

  lemma {:induction false} SumPagesBounds(books: seq<Book>)
    requires forall i :: 0 <= i < |books| ==> WellFormed(books[i])
    ensures |books| <= SumPages(books) <= MAX_PAGES * |books|
  {
    if books != [] {
      var init := books[..|books| - 1];
      assert forall i :: 0 <= i < |init| ==> init[i] == books[i];
      SumPagesBounds(init);
      assert WellFormed(books[|books| - 1]);
    }
  }

  /** For a library of well-formed records the reported average lies within the page
      bounds and the year range within the year bounds. */
  lemma SummaryBounds(books: seq<Book>)
    requires books != []
    requires forall i :: 0 <= i < |books| ==> WellFormed(books[i])
    ensures 1 <= SummaryOf(books).averagePages <= MAX_PAGES
    ensures MIN_YEAR <= SummaryOf(books).yearRange.value.earliest
            <= SummaryOf(books).yearRange.value.latest <= MAX_YEAR
  {
    SumPagesBounds(books);
    RoundHalfEvenBounds(SumPages(books), |books|, 1, MAX_PAGES);
    assert WellFormed(books[0]);
    var i :| 0 <= i < |books| && books[i].publicationYear == MinYear(books);
    var j :| 0 <= j < |books| && books[j].publicationYear == MaxYear(books);
    assert WellFormed(books[i]) && WellFormed(books[j]);
  }
}
