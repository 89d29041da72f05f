/**
 * Listing books: filtering by genre, author substring and year, then one page
 * of the filtered list with its pagination metadata.
 */
module Query {
  import opened Results
  import opened PyText
  import opened Models

  const MAX_LIMIT := 100

  /** The optional filters of a listing request. */
  datatype Filters = Filters(genre: Option<Genre>, author: Option<string>, year: Option<int>)

  /** The query parameters of a listing request. */
  datatype BookQuery = BookQuery(skip: int, limit: int, filters: Filters)

  /** The bounds the query parameters are declared with; requests outside them never reach the listing. */
  predicate QueryOk(q: BookQuery) {
    q.skip >= 0
    && 1 <= q.limit <= MAX_LIMIT
    && FiltersOk(q.filters)
  }

  predicate FiltersOk(f: Filters) {
    (f.author.Some? ==> |f.author.value| >= 1)
    && (f.year.Some? ==> MIN_YEAR <= f.year.value <= MAX_YEAR)
  }

  /** One page of results with its pagination metadata. */
  datatype BookList = BookList(books: seq<Book>, total: nat, page: int, limit: int, hasNext: bool)

  /** `[b for b in books if p(b)]`. */
  function Where(books: seq<Book>, p: Book -> bool): (r: seq<Book>)
    ensures |r| <= |books|
    ensures forall b :: b in r <==> b in books && p(b)
  {
    if books == [] then []
    else (if p(books[0]) then [books[0]] else []) + Where(books[1..], p)
  }

  /** Case-insensitive author match: the lowered pattern occurs in the lowered author name. */
  predicate AuthorMatches(pattern: string, author: string) {
    Contains(Lower(author), Lower(pattern))
  }

  /** A book satisfies every filter the query supplies. */
  predicate Matches(q: Filters, b: Book) {
    (q.genre.Some? ==> b.genre == q.genre.value)
    && (q.author.Some? ==> AuthorMatches(q.author.value, b.author))
    && (q.year.Some? ==> b.publicationYear == q.year.value)
  }

  /** The books matching the query, in store order: one pass with the conjunction of the filters. */
  function Matching(books: seq<Book>, q: Filters): seq<Book> {
    Where(books, (b: Book) => Matches(q, b))
  }

  /** The three successive filters of the listing, each applied only when its parameter is truthy. */
  function Filtered(books: seq<Book>, q: Filters): seq<Book> {
    var byGenre := if q.genre.Some? then Where(books, (b: Book) => b.genre == q.genre.value) else books;
    var byAuthor := if q.author.Some? && q.author.value != [] then
                      Where(byGenre, (b: Book) => AuthorMatches(q.author.value, b.author))
                    else byGenre;
    if q.year.Some? && q.year.value != 0 then Where(byAuthor, (b: Book) => b.publicationYear == q.year.value)
    else byAuthor
  }

  /** `s[lo:hi]` for `0 <= lo <= hi`: indices past the end are clamped. */
  function PySlice(s: seq<Book>, lo: nat, hi: nat): (r: seq<Book>)
    requires lo <= hi
    ensures |r| == (if lo >= |s| then 0 else if hi >= |s| then |s| - lo else hi - lo)
    ensures forall k :: 0 <= k < |r| ==> r[k] == s[lo + k]
  {
    var a := if lo <= |s| then lo else |s|;
    var b := if hi <= |s| then hi else |s|;
    s[a..b]
  }

  /** `get_books`: the page `[skip, skip + limit)` of the matching books, with `total`, `page` and `has_next`. */
  function ListBooks(books: seq<Book>, q: BookQuery): (r: BookList)
    requires QueryOk(q)
    ensures r.total == |Matching(books, q.filters)|
    ensures |r.books| <= q.limit
    ensures |r.books| == if q.skip >= r.total then 0 else Min(q.limit, r.total - q.skip)
    ensures forall k :: 0 <= k < |r.books| ==> r.books[k] == Matching(books, q.filters)[q.skip + k]
    ensures r.hasNext <==> q.skip + q.limit < r.total
    ensures r.page == q.skip / q.limit + 1 && r.limit == q.limit
  {
    FilteredIsMatching(books, q.filters);
    var filtered := Filtered(books, q.filters);
    var total := |filtered|;
    BookList(PySlice(filtered, q.skip, q.skip + q.limit), total, q.skip / q.limit + 1, q.limit,
             q.skip + q.limit < total)
  }

  function Min(a: int, b: int): int { if a <= b then a else b }

  // ---------------------------------------------------------------------------
  // Filters

  lemma {:induction false} WhereAll(s: seq<Book>, p: Book -> bool)
    requires forall b :: b in s ==> p(b)
    ensures Where(s, p) == s
  {
    if s != [] {
      WhereAll(s[1..], p);
    }
  }

  lemma {:induction false} WhereNone(s: seq<Book>, p: Book -> bool)
    requires forall b :: b in s ==> !p(b)
    ensures Where(s, p) == []
  {
    if s != [] {
      WhereNone(s[1..], p);
    }
  }

  lemma {:induction false} WhereSame(s: seq<Book>, p1: Book -> bool, p2: Book -> bool)
    requires forall b :: b in s ==> p1(b) == p2(b)
    ensures Where(s, p1) == Where(s, p2)
  {
    if s != [] {
      WhereSame(s[1..], p1, p2);
    }
  }

  /** Filtering twice keeps the books that pass both filters, in the same order. */
  lemma {:induction false} WhereWhere(s: seq<Book>, p1: Book -> bool, p2: Book -> bool)
    ensures Where(Where(s, p1), p2) == Where(s, b => p1(b) && p2(b))
  {
    if s != [] {
      WhereWhere(s[1..], p1, p2);
      var head := if p1(s[0]) then [s[0]] else [];
      assert Where(s, p1) == head + Where(s[1..], p1);
      WhereConcat(head, Where(s[1..], p1), p2);
    }
  }

  lemma {:induction false} WhereConcat(s1: seq<Book>, s2: seq<Book>, p: Book -> bool)
    ensures Where(s1 + s2, p) == Where(s1, p) + Where(s2, p)
  {
    if s1 != [] {
      assert (s1 + s2)[1..] == s1[1..] + s2;
      WhereConcat(s1[1..], s2, p);
    } else {
      assert s1 + s2 == s2;
    }
  }

  /** Under the declared parameter bounds, the successive filters of the listing select exactly
      the books that match every supplied filter. */
  lemma FilteredIsMatching(books: seq<Book>, q: Filters)
    requires FiltersOk(q)
    ensures Filtered(books, q) == Matching(books, q)
  {
    var pg := (b: Book) => q.genre.Some? ==> b.genre == q.genre.value;
    var pa := (b: Book) => q.author.Some? ==> AuthorMatches(q.author.value, b.author);
    var py := (b: Book) => q.year.Some? ==> b.publicationYear == q.year.value;
    var byGenre := Where(books, pg);
    if q.genre.Some? {
      WhereSame(books, pg, (b: Book) => b.genre == q.genre.value);
    } else {
      WhereAll(books, pg);
    }
    var byAuthor := Where(byGenre, pa);
    if q.author.Some? {
      WhereSame(byGenre, pa, (b: Book) => AuthorMatches(q.author.value, b.author));
    } else {
      WhereAll(byGenre, pa);
    }
    if q.year.Some? {
      WhereSame(byAuthor, py, (b: Book) => b.publicationYear == q.year.value);
    } else {
      WhereAll(byAuthor, py);
    }
    assert Filtered(books, q) == Where(Where(Where(books, pg), pa), py);
    WhereWhere(books, pg, pa);
    var pga := (b: Book) => pg(b) && pa(b);
    WhereWhere(books, pga, py);
    WhereSame(books, (b: Book) => pga(b) && py(b), (b: Book) => Matches(q, b));
  }

  /** The author filter ignores letter case on both sides. */
  lemma AuthorMatchIgnoresCase(pattern: string, author: string)
    ensures AuthorMatches(Lower(pattern), author) == AuthorMatches(pattern, author)
    ensures AuthorMatches(pattern, Lower(author)) == AuthorMatches(pattern, author)
  {
    LowerIdempotent(pattern);
    LowerIdempotent(author);
  }

  // ---------------------------------------------------------------------------
  // Pagination

  /** No match: an empty page, total zero, and no next page. */
  lemma ListNoMatches(books: seq<Book>, q: BookQuery)
    requires QueryOk(q)
    requires forall b :: b in books ==> !Matches(q.filters, b)
    ensures ListBooks(books, q).books == [] && ListBooks(books, q).total == 0
    ensures !ListBooks(books, q).hasNext
  {
    WhereNone(books, (b: Book) => Matches(q.filters, b));
  }

  /** The page is the slice `[skip, skip + limit)` of the matching books, cut short at the end. */
  lemma ListIsSlice(books: seq<Book>, q: BookQuery)
    requires QueryOk(q)
    ensures q.skip + q.limit <= |Matching(books, q.filters)| ==>
              ListBooks(books, q).books == Matching(books, q.filters)[q.skip..q.skip + q.limit]
    ensures q.skip <= |Matching(books, q.filters)| < q.skip + q.limit ==>
              ListBooks(books, q).books == Matching(books, q.filters)[q.skip..]
    ensures q.skip > |Matching(books, q.filters)| ==> ListBooks(books, q).books == []
  {
  }

  /** The books seen by a client that starts at `q.skip` and keeps requesting the next page
      (skip increased by limit) while `has_next` is true. */
  function PagesFrom(books: seq<Book>, q: BookQuery): seq<Book>
    requires QueryOk(q)
    decreases |books| - q.skip
  {
    var r := ListBooks(books, q);
    if r.hasNext then r.books + PagesFrom(books, q.(skip := q.skip + q.limit)) else r.books
  }

  /** One request of the paging client: the page read, followed by the pages after it while
      there is a next page. */
  lemma PageStep(books: seq<Book>, q: BookQuery)
    requires QueryOk(q)
    ensures q.skip + q.limit < |Matching(books, q.filters)| ==>
              PagesFrom(books, q) == Matching(books, q.filters)[q.skip..q.skip + q.limit]
                                     + PagesFrom(books, q.(skip := q.skip + q.limit))
    ensures q.skip <= |Matching(books, q.filters)| <= q.skip + q.limit ==>
              PagesFrom(books, q) == Matching(books, q.filters)[q.skip..]
    ensures q.skip > |Matching(books, q.filters)| ==> PagesFrom(books, q) == []
  {
    ListIsSlice(books, q);
  }

  lemma SplitAt(m: seq<Book>, a: nat, b: nat)
    requires a <= b <= |m|
    ensures m[a..] == m[a..b] + m[b..]
  {
  }

  /** Following `has_next` from `skip` yields every matching book from position `skip` on,
      each once, in store order. */
  lemma {:induction false} PagesFromCovers(books: seq<Book>, q: BookQuery)
    requires QueryOk(q)
    ensures q.skip <= |Matching(books, q.filters)| ==> PagesFrom(books, q) == Matching(books, q.filters)[q.skip..]
    ensures q.skip > |Matching(books, q.filters)| ==> PagesFrom(books, q) == []
    decreases |books| - q.skip
  {
    var m := Matching(books, q.filters);
    PageStep(books, q);
    if q.skip + q.limit < |m| {
      PagesFromCovers(books, q.(skip := q.skip + q.limit));
      SplitAt(m, q.skip, q.skip + q.limit);
    }
  }

  /** Pagination completeness: paging from the start returns exactly the matching books. */
  lemma PagesCoverAll(books: seq<Book>, q: BookQuery)
    requires QueryOk(q) && q.skip == 0
    ensures PagesFrom(books, q) == Matching(books, q.filters)
  {
    PagesFromCovers(books, q);
  }
}
