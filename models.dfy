/**
 * The book record, its genre enumeration, the field constraints of the create
 * and update payloads, and the text normaliser applied to titles and authors.
 */
module Models {
  import opened Results
  import opened PyText

  const TITLE_MAX_LENGTH := 200
  const AUTHOR_MAX_LENGTH := 100
  const MIN_YEAR := 1000
  const MAX_YEAR := 2024
  const MAX_PAGES := 10000

  /** Timestamps are opaque clock readings supplied by the caller. */
  type Timestamp = int

  /** The closed set of nine genres. */
  datatype Genre =
    | Fiction | NonFiction | Mystery | Romance | ScienceFiction
    | Fantasy | Biography | History | Technology

  const ALL_GENRES: seq<Genre> :=
    [Fiction, NonFiction, Mystery, Romance, ScienceFiction, Fantasy, Biography, History, Technology]

  /** The string value each genre carries on the wire. */
  function GenreValue(g: Genre): string {
    match g
    case Fiction => "fiction"
    case NonFiction => "non-fiction"
    case Mystery => "mystery"
    case Romance => "romance"
    case ScienceFiction => "science-fiction"
    case Fantasy => "fantasy"
    case Biography => "biography"
    case History => "history"
    case Technology => "technology"
  }

  /** Reading a genre from its string value; anything else is not a genre. */
  function ParseGenre(s: string): (r: Option<Genre>)
    ensures r.Some? ==> GenreValue(r.value) == s
    ensures r.None? ==> forall g :: GenreValue(g) != s
  {
    if s == "fiction" then Some(Fiction)
    else if s == "non-fiction" then Some(NonFiction)
    else if s == "mystery" then Some(Mystery)
    else if s == "romance" then Some(Romance)
    else if s == "science-fiction" then Some(ScienceFiction)
    else if s == "fantasy" then Some(Fantasy)
    else if s == "biography" then Some(Biography)
    else if s == "history" then Some(History)
    else if s == "technology" then Some(Technology)
    else None
  }

  /** A stored book. */
  datatype Book = Book(
    id: nat,
    title: string,
    author: string,
    genre: Genre,
    publicationYear: int,
    pages: int,
    isbn: Option<string>,
    createdAt: Timestamp,
    updatedAt: Option<Timestamp>)

  /** What went wrong with one field. */
  datatype Violation =
    | TooShort          // below min_length
    | TooLong           // above max_length
    | Blank             // empty or whitespace once stripped
    | UnknownGenre      // not one of the nine genre values
    | TooSmall          // below the lower numeric bound
    | TooLarge          // above the upper numeric bound
    | AfterCurrentYear  // publication year later than the current year
    | PatternMismatch   // ISBN not 10 or 13 digits

  datatype Field = TitleField | AuthorField | GenreField | YearField | PagesField | IsbnField

  datatype FieldError = FieldError(field: Field, violation: Violation)

  /** A create request as received, before validation. */
  datatype BookInput = BookInput(
    title: string,
    author: string,
    genre: string,
    publicationYear: int,
    pages: int,
    isbn: Option<string>)

  /** A validated create payload. */
  datatype BookCreate = BookCreate(
    title: string,
    author: string,
    genre: Genre,
    publicationYear: int,
    pages: int,
    isbn: Option<string>)

  /** A field of an update request: left out, sent as an explicit null, or given a value. */
  datatype Patch<T> = Unset | Null | Set(value: T)

  /** An update request as received: every field optional. */
  datatype UpdateInput = UpdateInput(
    title: Option<string>,
    author: Option<string>,
    genre: Option<string>,
    publicationYear: Option<int>,
    pages: Option<int>,
    isbn: Patch<string>)

  /** A validated update payload. */
  datatype BookUpdate = BookUpdate(
    title: Option<string>,
    author: Option<string>,
    genre: Option<Genre>,
    publicationYear: Option<int>,
    pages: Option<int>,
    isbn: Patch<string>)

  // ---------------------------------------------------------------------------
  // Field checks

  /** A normalised title or author: non-empty, no surrounding whitespace, title-cased. */
  predicate IsNormalText(t: string) {
    t != [] && IsTrimmed(t) && Title(t) == t
  }

  /** The text validator: reject blank input, otherwise strip and title-case. */
  function NormaliseText(v: string): (r: Result<string, Violation>)
    ensures r.Err? <==> AllSpace(v)
    ensures r.Err? ==> r.error == Blank
    ensures r.Ok? ==> IsNormalText(r.value) && |r.value| <= |v|
    ensures r.Ok? ==> r.value == Title(Strip(v))
  {
    var t := Strip(v);
    if t == [] then Err(Blank)
    else
      TitleTrimmed(t);
      TitleIdempotent(t);
      Ok(Title(t))
  }

  /** A text field: the length bounds apply to the raw input, then the text validator runs. */
  function ValidateText(v: string, maxLength: nat): (r: Result<string, Violation>)
    ensures r.Ok? <==> 1 <= |v| <= maxLength && !AllSpace(v)
    ensures r.Ok? ==> IsNormalText(r.value) && |r.value| <= maxLength
    ensures r.Ok? ==> r.value == Title(Strip(v))
  {
    if |v| < 1 then Err(TooShort)
    else if |v| > maxLength then Err(TooLong)
    else NormaliseText(v)
  }

  /** The `ge=1000, le=2024` bounds on a publication year. */
  function ValidateYearBounds(y: int): (r: Result<int, Violation>)
    ensures r.Ok? <==> MIN_YEAR <= y <= MAX_YEAR
    ensures r.Ok? ==> r.value == y
  {
    if y < MIN_YEAR then Err(TooSmall)
    else if y > MAX_YEAR then Err(TooLarge)
    else Ok(y)
  }

  /** On create the year must also not lie after the current year. */
  function ValidateCreateYear(y: int, currentYear: int): (r: Result<int, Violation>)
    ensures r.Ok? <==> MIN_YEAR <= y <= MAX_YEAR && y <= currentYear
    ensures r.Ok? ==> r.value == y
    ensures MIN_YEAR <= y <= MAX_YEAR && y > currentYear ==> r == Err(AfterCurrentYear)
  {
    match ValidateYearBounds(y)
    case Err(v) => Err(v)
    case Ok(_) => if y > currentYear then Err(AfterCurrentYear) else Ok(y)
  }

  /** The `gt=0, le=10000` bounds on a page count. */
  function ValidatePages(p: int): (r: Result<int, Violation>)
    ensures r.Ok? <==> 0 < p <= MAX_PAGES
    ensures r.Ok? ==> r.value == p
  {
    if p <= 0 then Err(TooSmall)
    else if p > MAX_PAGES then Err(TooLarge)
    else Ok(p)
  }

  predicate IsDigit(c: char) { '0' <= c <= '9' }

  predicate AllDigits(s: string) {
    forall i :: 0 <= i < |s| ==> IsDigit(s[i])
  }

  /** The ISBN pattern `^\d{10}(\d{3})?$`: ten digits, optionally followed by three more. */
  predicate MatchesIsbnPattern(s: string) {
    |s| >= 10 && AllDigits(s[..10]) && (s[10..] == [] || (|s[10..]| == 3 && AllDigits(s[10..])))
  }

  /** An ISBN is accepted exactly when it has 10 or 13 characters, all digits. */
  function ValidateIsbn(s: string): (r: Result<string, Violation>)
    ensures r.Ok? <==> (|s| == 10 || |s| == 13) && AllDigits(s)
    ensures r.Ok? ==> r.value == s
    ensures r.Err? ==> r.error == PatternMismatch
  {
    if MatchesIsbnPattern(s) then
      assert forall i :: 0 <= i < |s| ==> IsDigit(s[i]) by {
        forall i | 0 <= i < |s| ensures IsDigit(s[i]) {
          if i < 10 { assert s[..10][i] == s[i]; } else { assert s[10..][i - 10] == s[i]; }
        }
      }
      Ok(s)
    else
      assert (|s| == 10 || |s| == 13) ==> !AllDigits(s) by {
        if (|s| == 10 || |s| == 13) && AllDigits(s) {
          assert AllDigits(s[..10]);
          assert AllDigits(s[10..]);
          assert false;
        }
      }
      Err(PatternMismatch)
  }

  function ValidateOptionalIsbn(o: Option<string>): (r: Result<Option<string>, Violation>)
    ensures r.Ok? <==> (o.Some? ==> ValidateIsbn(o.value).Ok?)
    ensures r.Ok? ==> r.value == o
  {
    match o
    case None => Ok(None)
    case Some(s) => match ValidateIsbn(s) { case Ok(_) => Ok(o) case Err(v) => Err(v) }
  }

  /** The error a failed field check contributes; nothing for a passing one. */
  function Report<T>(f: Field, r: Result<T, Violation>): (e: seq<FieldError>)
    ensures |e| == (if r.Err? then 1 else 0)
    ensures r.Err? ==> e[0] == FieldError(f, r.error)
  {
    if r.Err? then [FieldError(f, r.error)] else []
  }

  /** The constraints every stored record satisfies. The current-year rule is not among them:
      it is checked once, when the record is created. */
  predicate WellFormed(b: Book) {
    IsNormalText(b.title) && |b.title| <= TITLE_MAX_LENGTH
    && IsNormalText(b.author) && |b.author| <= AUTHOR_MAX_LENGTH
    && MIN_YEAR <= b.publicationYear <= MAX_YEAR
    && 0 < b.pages <= MAX_PAGES
    && (b.isbn.Some? ==> ValidateIsbn(b.isbn.value).Ok?)
  }

  /** Normalising an already normalised string changes nothing. */
  lemma NormaliseIdempotent(v: string)
    requires NormaliseText(v).Ok?
    ensures NormaliseText(NormaliseText(v).value) == NormaliseText(v)
  {
    var t := Strip(v);
    TitleTrimmed(t);
    StripUnchanged(Title(t));
    TitleIdempotent(t);
  }

  /** A normalised text within the length bound passes validation unchanged. */
  lemma ValidateNormalText(t: string, maxLength: nat)
    requires IsNormalText(t) && |t| <= maxLength
    ensures ValidateText(t, maxLength) == Ok(t)
  {
    StripUnchanged(t);
  }

  // ---------------------------------------------------------------------------
  // Create payload

  /** Whether field `f` of a create request satisfies its constraints, stated on the raw input. */
  predicate CreateFieldOk(input: BookInput, currentYear: int, f: Field) {
    match f
    case TitleField => 1 <= |input.title| <= TITLE_MAX_LENGTH && !AllSpace(input.title)
    case AuthorField => 1 <= |input.author| <= AUTHOR_MAX_LENGTH && !AllSpace(input.author)
    case GenreField => exists g :: GenreValue(g) == input.genre
    case YearField => MIN_YEAR <= input.publicationYear <= MAX_YEAR && input.publicationYear <= currentYear
    case PagesField => 0 < input.pages <= MAX_PAGES
    case IsbnField => input.isbn.Some? ==> (|input.isbn.value| == 10 || |input.isbn.value| == 13) && AllDigits(input.isbn.value)
  }

  /** Every field of a create request satisfies its constraints. */
  predicate CreateInputOk(input: BookInput, currentYear: int) {
    CreateFieldOk(input, currentYear, TitleField) && CreateFieldOk(input, currentYear, AuthorField)
    && CreateFieldOk(input, currentYear, GenreField) && CreateFieldOk(input, currentYear, YearField)
    && CreateFieldOk(input, currentYear, PagesField) && CreateFieldOk(input, currentYear, IsbnField)
  }

  /** Validation of a create request. Every failing field contributes one error, in field order. */
  function ValidateCreate(input: BookInput, currentYear: int): (r: Result<BookCreate, seq<FieldError>>)
    ensures r.Ok? <==> CreateInputOk(input, currentYear)
    ensures r.Ok? ==> ValidateText(input.title, TITLE_MAX_LENGTH).Ok? && ValidateText(input.author, AUTHOR_MAX_LENGTH).Ok?
    ensures r.Ok? ==> ParseGenre(input.genre).Some? && r.value == BookCreate(
                        ValidateText(input.title, TITLE_MAX_LENGTH).value,
                        ValidateText(input.author, AUTHOR_MAX_LENGTH).value,
                        ParseGenre(input.genre).value, input.publicationYear, input.pages, input.isbn)
    ensures r.Err? ==> forall k :: 0 <= k < |r.error| ==> !CreateFieldOk(input, currentYear, r.error[k].field)
  {
    var title := ValidateText(input.title, TITLE_MAX_LENGTH);
    var author := ValidateText(input.author, AUTHOR_MAX_LENGTH);
    var genre := match ParseGenre(input.genre) { case Some(g) => Ok(g) case None => Err(UnknownGenre) };
    var year := ValidateCreateYear(input.publicationYear, currentYear);
    var pages := ValidatePages(input.pages);
    var isbn := ValidateOptionalIsbn(input.isbn);
    assert genre.Ok? ==> GenreValue(genre.value) == input.genre;
    assert CreateFieldOk(input, currentYear, TitleField) <==> title.Ok?;
    assert CreateFieldOk(input, currentYear, AuthorField) <==> author.Ok?;
    assert CreateFieldOk(input, currentYear, GenreField) <==> genre.Ok?;
    assert CreateFieldOk(input, currentYear, YearField) <==> year.Ok?;
    assert CreateFieldOk(input, currentYear, PagesField) <==> pages.Ok?;
    assert CreateFieldOk(input, currentYear, IsbnField) <==> isbn.Ok?;
    var errors := Report(TitleField, title) + Report(AuthorField, author) + Report(GenreField, genre)
                  + Report(YearField, year) + Report(PagesField, pages) + Report(IsbnField, isbn);
    if title.Ok? && author.Ok? && genre.Ok? && year.Ok? && pages.Ok? && isbn.Ok? then
      Ok(BookCreate(title.value, author.value, genre.value, year.value, pages.value, isbn.value))
    else
      Err(errors)
  }

  /** No failure goes unreported: every field of a create request that breaks its constraints
      has an error of its own in the list. */
  lemma CreateReportsEveryFailure(input: BookInput, currentYear: int, f: Field)
    requires !CreateFieldOk(input, currentYear, f)
    ensures ValidateCreate(input, currentYear).Err?
    ensures exists k :: 0 <= k < |ValidateCreate(input, currentYear).error|
                        && ValidateCreate(input, currentYear).error[k].field == f
  {
    var title := ValidateText(input.title, TITLE_MAX_LENGTH);
    var author := ValidateText(input.author, AUTHOR_MAX_LENGTH);
    var genre := match ParseGenre(input.genre) { case Some(g) => Ok(g) case None => Err(UnknownGenre) };
    var year := ValidateCreateYear(input.publicationYear, currentYear);
    var pages := ValidatePages(input.pages);
    var isbn := ValidateOptionalIsbn(input.isbn);
    var errors := Report(TitleField, title) + Report(AuthorField, author) + Report(GenreField, genre)
                  + Report(YearField, year) + Report(PagesField, pages) + Report(IsbnField, isbn);
    assert ValidateCreate(input, currentYear) == Err(errors);
    var a := |Report(TitleField, title)|;
    var b := a + |Report(AuthorField, author)|;
    var c := b + |Report(GenreField, genre)|;
    var d := c + |Report(YearField, year)|;
    var e := d + |Report(PagesField, pages)|;
    match f
    case TitleField => assert errors[0].field == f;
    case AuthorField => assert errors[a].field == f;
    case GenreField => assert errors[b].field == f;
    case YearField => assert errors[c].field == f;
    case PagesField => assert errors[d].field == f;
    case IsbnField => assert errors[e].field == f;
  }

  /** The stored record for a validated create payload: `Book(id=..., **payload, created_at=now)`. */
  function NewRecord(id: nat, c: BookCreate, now: Timestamp): Book {
    Book(id, c.title, c.author, c.genre, c.publicationYear, c.pages, c.isbn, now, None)
  }

  /** Every record built from a validated create payload satisfies the stored-record constraints,
      and its year does not lie after the year the payload was validated in. */
  lemma CreateWellFormed(input: BookInput, currentYear: int, id: nat, now: Timestamp)
    requires ValidateCreate(input, currentYear).Ok?
    ensures WellFormed(NewRecord(id, ValidateCreate(input, currentYear).value, now))
    ensures NewRecord(id, ValidateCreate(input, currentYear).value, now).publicationYear <= currentYear
  {
    assert CreateFieldOk(input, currentYear, YearField);
    assert CreateFieldOk(input, currentYear, PagesField);
    assert CreateFieldOk(input, currentYear, IsbnField);
  }

  /** A validated payload dumped back to its wire form, as `model_dump()` passes it to `Book`. */
  function CreateFields(c: BookCreate): BookInput {
    BookInput(c.title, c.author, GenreValue(c.genre), c.publicationYear, c.pages, c.isbn)
  }

  lemma ParseGenreValue(g: Genre)
    ensures ParseGenre(GenreValue(g)) == Some(g)
  {
  }

  /** Validating the record's fields a second time, as constructing the stored `Book` does,
      gives back the validated payload unchanged. */
  lemma CreateRevalidates(input: BookInput, currentYear: int)
    requires ValidateCreate(input, currentYear).Ok?
    ensures ValidateCreate(CreateFields(ValidateCreate(input, currentYear).value), currentYear)
            == ValidateCreate(input, currentYear)
  {
    var c := ValidateCreate(input, currentYear).value;
    assert CreateFieldOk(input, currentYear, YearField);
    assert CreateFieldOk(input, currentYear, PagesField);
    assert CreateFieldOk(input, currentYear, IsbnField);
    ValidateNormalText(c.title, TITLE_MAX_LENGTH);
    ValidateNormalText(c.author, AUTHOR_MAX_LENGTH);
    ParseGenreValue(c.genre);
    var again := CreateFields(c);
    assert CreateFieldOk(again, currentYear, TitleField) by {
      assert ValidateText(again.title, TITLE_MAX_LENGTH).Ok?;
    }
    assert CreateFieldOk(again, currentYear, AuthorField) by {
      assert ValidateText(again.author, AUTHOR_MAX_LENGTH).Ok?;
    }
    assert CreateFieldOk(again, currentYear, GenreField) by {
      assert GenreValue(c.genre) == again.genre;
    }
  }

  // ---------------------------------------------------------------------------
  // Update payload

  /** Whether field `f` of an update request satisfies its constraints; absent fields always do. */
  predicate UpdateFieldOk(input: UpdateInput, f: Field) {
    match f
    case TitleField => input.title.Some? ==> 1 <= |input.title.value| <= TITLE_MAX_LENGTH && !AllSpace(input.title.value)
    case AuthorField => input.author.Some? ==> 1 <= |input.author.value| <= AUTHOR_MAX_LENGTH && !AllSpace(input.author.value)
    case GenreField => input.genre.Some? ==> exists g :: GenreValue(g) == input.genre.value
    case YearField => input.publicationYear.Some? ==> MIN_YEAR <= input.publicationYear.value <= MAX_YEAR
    case PagesField => input.pages.Some? ==> 0 < input.pages.value <= MAX_PAGES
    case IsbnField => input.isbn.Set? ==> (|input.isbn.value| == 10 || |input.isbn.value| == 13) && AllDigits(input.isbn.value)
  }

  /** Every field of an update request satisfies its constraints. */
  predicate UpdateInputOk(input: UpdateInput) {
    UpdateFieldOk(input, TitleField) && UpdateFieldOk(input, AuthorField) && UpdateFieldOk(input, GenreField)
    && UpdateFieldOk(input, YearField) && UpdateFieldOk(input, PagesField) && UpdateFieldOk(input, IsbnField)
  }

  /** An optional title or author: absent stays absent, present text is validated as on create. */
  function ValidateOptionalText(o: Option<string>, maxLength: nat): (r: Result<Option<string>, Violation>)
    ensures r.Ok? <==> (o.Some? ==> ValidateText(o.value, maxLength).Ok?)
    ensures r.Ok? ==> r.value == (if o.Some? then Some(ValidateText(o.value, maxLength).value) else None)
  {
    match o
    case None => Ok(None)
    case Some(v) => match ValidateText(v, maxLength) { case Ok(w) => Ok(Some(w)) case Err(e) => Err(e) }
  }

  function ValidateOptionalGenre(o: Option<string>): (r: Result<Option<Genre>, Violation>)
    ensures r.Ok? <==> (o.Some? ==> ParseGenre(o.value).Some?)
    ensures r.Ok? ==> r.value == (if o.Some? then ParseGenre(o.value) else None)
  {
    match o
    case None => Ok(None)
    case Some(s) => match ParseGenre(s) { case Some(g) => Ok(Some(g)) case None => Err(UnknownGenre) }
  }

  function ValidateOptionalYear(o: Option<int>): (r: Result<Option<int>, Violation>)
    ensures r.Ok? <==> (o.Some? ==> MIN_YEAR <= o.value <= MAX_YEAR)
    ensures r.Ok? ==> r.value == o
  {
    match o
    case None => Ok(None)
    case Some(y) => match ValidateYearBounds(y) { case Ok(_) => Ok(o) case Err(v) => Err(v) }
  }

  function ValidateOptionalPages(o: Option<int>): (r: Result<Option<int>, Violation>)
    ensures r.Ok? <==> (o.Some? ==> 0 < o.value <= MAX_PAGES)
    ensures r.Ok? ==> r.value == o
  {
    match o
    case None => Ok(None)
    case Some(p) => match ValidatePages(p) { case Ok(_) => Ok(o) case Err(v) => Err(v) }
  }

  /** The ISBN of an update: unset and explicit null pass, a given value must match the pattern. */
  function ValidatePatchIsbn(o: Patch<string>): (r: Result<Patch<string>, Violation>)
    ensures r.Ok? <==> (o.Set? ==> ValidateIsbn(o.value).Ok?)
    ensures r.Ok? ==> r.value == o
  {
    match o
    case Set(s) => match ValidateIsbn(s) { case Ok(_) => Ok(o) case Err(v) => Err(v) }
    case _ => Ok(o)
  }

  /** Validation of an update request: absent fields pass through untouched, present text
      fields are normalised as on create, and the year has no current-year check. */
  function ValidateUpdate(input: UpdateInput): (r: Result<BookUpdate, seq<FieldError>>)
    ensures r.Ok? <==> UpdateInputOk(input)
    ensures r.Ok? ==> (input.title.Some? ==> ValidateText(input.title.value, TITLE_MAX_LENGTH).Ok?)
                      && (input.author.Some? ==> ValidateText(input.author.value, AUTHOR_MAX_LENGTH).Ok?)
    ensures r.Ok? ==> r.value.title == (if input.title.Some? then Some(ValidateText(input.title.value, TITLE_MAX_LENGTH).value) else None)
    ensures r.Ok? ==> r.value.author == (if input.author.Some? then Some(ValidateText(input.author.value, AUTHOR_MAX_LENGTH).value) else None)
    ensures r.Ok? ==> r.value.genre == (if input.genre.Some? then ParseGenre(input.genre.value) else None)
    ensures r.Ok? ==> r.value.publicationYear == input.publicationYear && r.value.pages == input.pages
                      && r.value.isbn == input.isbn
    ensures r.Err? ==> forall k :: 0 <= k < |r.error| ==> !UpdateFieldOk(input, r.error[k].field)
  {
    var title := ValidateOptionalText(input.title, TITLE_MAX_LENGTH);
    var author := ValidateOptionalText(input.author, AUTHOR_MAX_LENGTH);
    var genre := ValidateOptionalGenre(input.genre);
    var year := ValidateOptionalYear(input.publicationYear);
    var pages := ValidateOptionalPages(input.pages);
    var isbn := ValidatePatchIsbn(input.isbn);
    assert input.genre.Some? && ParseGenre(input.genre.value).Some? ==>
             GenreValue(ParseGenre(input.genre.value).value) == input.genre.value;
    assert UpdateFieldOk(input, TitleField) <==> title.Ok?;
    assert UpdateFieldOk(input, AuthorField) <==> author.Ok?;
    assert UpdateFieldOk(input, GenreField) <==> genre.Ok?;
    assert UpdateFieldOk(input, YearField) <==> year.Ok?;
    assert UpdateFieldOk(input, PagesField) <==> pages.Ok?;
    assert UpdateFieldOk(input, IsbnField) <==> isbn.Ok?;
    var errors := Report(TitleField, title) + Report(AuthorField, author) + Report(GenreField, genre)
                  + Report(YearField, year) + Report(PagesField, pages) + Report(IsbnField, isbn);
    if title.Ok? && author.Ok? && genre.Ok? && year.Ok? && pages.Ok? && isbn.Ok? then
      Ok(BookUpdate(title.value, author.value, genre.value, year.value, pages.value, isbn.value))
    else
      Err(errors)
  }

  /** No failure goes unreported: every present field of an update request that breaks its
      constraints has an error of its own in the list. */
  lemma UpdateReportsEveryFailure(input: UpdateInput, f: Field)
    requires !UpdateFieldOk(input, f)
    ensures ValidateUpdate(input).Err?
    ensures exists k :: 0 <= k < |ValidateUpdate(input).error| && ValidateUpdate(input).error[k].field == f
  {
    var title := ValidateOptionalText(input.title, TITLE_MAX_LENGTH);
    var author := ValidateOptionalText(input.author, AUTHOR_MAX_LENGTH);
    var genre := ValidateOptionalGenre(input.genre);
    var year := ValidateOptionalYear(input.publicationYear);
    var pages := ValidateOptionalPages(input.pages);
    var isbn := ValidatePatchIsbn(input.isbn);
    var errors := Report(TitleField, title) + Report(AuthorField, author) + Report(GenreField, genre)
                  + Report(YearField, year) + Report(PagesField, pages) + Report(IsbnField, isbn);
    assert ValidateUpdate(input) == Err(errors);
    var a := |Report(TitleField, title)|;
    var b := a + |Report(AuthorField, author)|;
    var c := b + |Report(GenreField, genre)|;
    var d := c + |Report(YearField, year)|;
    var e := d + |Report(PagesField, pages)|;
    match f
    case TitleField => assert errors[0].field == f;
    case AuthorField => assert errors[a].field == f;
    case GenreField => assert errors[b].field == f;
    case YearField => assert errors[c].field == f;
    case PagesField => assert errors[d].field == f;
    case IsbnField => assert errors[e].field == f;
  }

  // ---------------------------------------------------------------------------
  // Applying an update

  /** One entry of the update payload dumped with `exclude_unset=True`. */
  datatype FieldValue =
    | SetTitle(title: string)
    | SetAuthor(author: string)
    | SetGenre(genre: Genre)
    | SetYear(year: int)
    | SetPages(pages: int)
    | SetIsbn(isbn: Option<string>)

  function TitlePart(u: BookUpdate): seq<FieldValue> { if u.title.Some? then [SetTitle(u.title.value)] else [] }
  function AuthorPart(u: BookUpdate): seq<FieldValue> { if u.author.Some? then [SetAuthor(u.author.value)] else [] }
  function GenrePart(u: BookUpdate): seq<FieldValue> { if u.genre.Some? then [SetGenre(u.genre.value)] else [] }
  function YearPart(u: BookUpdate): seq<FieldValue> {
    if u.publicationYear.Some? then [SetYear(u.publicationYear.value)] else []
  }
  function PagesPart(u: BookUpdate): seq<FieldValue> { if u.pages.Some? then [SetPages(u.pages.value)] else [] }
  function IsbnPart(u: BookUpdate): seq<FieldValue> {
    match u.isbn
    case Unset => []
    case Null => [SetIsbn(None)]
    case Set(x) => [SetIsbn(Some(x))]
  }

  /** The fields the update request set, in declaration order; an explicit null ISBN is set to None. */
  function Dump(u: BookUpdate): seq<FieldValue> {
    TitlePart(u) + AuthorPart(u) + GenrePart(u) + YearPart(u) + PagesPart(u) + IsbnPart(u)
  }

  /** `setattr(book, field, value)`. */
  function SetField(b: Book, v: FieldValue): (r: Book)
    ensures r.id == b.id && r.createdAt == b.createdAt && r.updatedAt == b.updatedAt
  {
    match v
    case SetTitle(t) => b.(title := t)
    case SetAuthor(a) => b.(author := a)
    case SetGenre(g) => b.(genre := g)
    case SetYear(y) => b.(publicationYear := y)
    case SetPages(p) => b.(pages := p)
    case SetIsbn(i) => b.(isbn := i)
  }

  /** The record after `setattr` for each of `data`, in order. */
  function SetFields(b: Book, data: seq<FieldValue>): (r: Book)
    ensures r.id == b.id && r.createdAt == b.createdAt && r.updatedAt == b.updatedAt
  {
    if data == [] then b else SetField(SetFields(b, data[..|data| - 1]), data[|data| - 1])
  }

  /** The merge an update promises, field by field: a field present in the payload replaces
      the stored one, an absent field keeps it, and `updated_at` becomes `now`. */
  function Merged(b: Book, u: BookUpdate, now: Timestamp): Book {
    Book(b.id,
         if u.title.Some? then u.title.value else b.title,
         if u.author.Some? then u.author.value else b.author,
         if u.genre.Some? then u.genre.value else b.genre,
         if u.publicationYear.Some? then u.publicationYear.value else b.publicationYear,
         if u.pages.Some? then u.pages.value else b.pages,
         match u.isbn { case Unset => b.isbn case Null => None case Set(x) => Some(x) },
         b.createdAt,
         Some(now))
  }

  lemma {:induction false} SetFieldsConcat(b: Book, d1: seq<FieldValue>, d2: seq<FieldValue>)
    ensures SetFields(b, d1 + d2) == SetFields(SetFields(b, d1), d2)
    decreases |d2|
  {
    if d2 == [] {
      assert d1 + d2 == d1;
    } else {
      assert (d1 + d2)[..|d1 + d2| - 1] == d1 + d2[..|d2| - 1];
      SetFieldsConcat(b, d1, d2[..|d2| - 1]);
    }
  }

  /** The `setattr` loop over the dumped payload, followed by setting `updated_at`, is the merge. */
  lemma SetFieldsIsMerge(b: Book, u: BookUpdate, now: Timestamp)
    ensures SetFields(b, Dump(u)).(updatedAt := Some(now)) == Merged(b, u, now)
  {
    DumpInParts(b, u);
    PartsMerge(b, u, now);
  }

  lemma DumpInParts(b: Book, u: BookUpdate)
    ensures SetFields(b, Dump(u)) ==
            SetFields(SetFields(SetFields(SetFields(SetFields(SetFields(b,
              TitlePart(u)), AuthorPart(u)), GenrePart(u)), YearPart(u)), PagesPart(u)), IsbnPart(u))
  {
    var d1, d2, d3, d4, d5, d6 := TitlePart(u), AuthorPart(u), GenrePart(u), YearPart(u), PagesPart(u), IsbnPart(u);
    SetFieldsConcat(b, d1 + d2 + d3 + d4 + d5, d6);
    SetFieldsConcat(b, d1 + d2 + d3 + d4, d5);
    SetFieldsConcat(b, d1 + d2 + d3, d4);
    SetFieldsConcat(b, d1 + d2, d3);
    SetFieldsConcat(b, d1, d2);
  }

  lemma PartsMerge(b: Book, u: BookUpdate, now: Timestamp)
    ensures SetFields(SetFields(SetFields(SetFields(SetFields(SetFields(b,
              TitlePart(u)), AuthorPart(u)), GenrePart(u)), YearPart(u)), PagesPart(u)), IsbnPart(u)).(updatedAt := Some(now))
            == Merged(b, u, now)
  {
    var b3 := SetFields(SetFields(SetFields(b, TitlePart(u)), AuthorPart(u)), GenrePart(u));
    TextPartsMerge(b, u);
    OtherPartsMerge(b3, u);
  }

  /** Setting the title, author and genre parts replaces exactly those fields when present. */
  lemma TextPartsMerge(b: Book, u: BookUpdate)
    ensures SetFields(SetFields(SetFields(b, TitlePart(u)), AuthorPart(u)), GenrePart(u))
            == b.(title := if u.title.Some? then u.title.value else b.title,
                  author := if u.author.Some? then u.author.value else b.author,
                  genre := if u.genre.Some? then u.genre.value else b.genre)
  {
    var b1 := SetFields(b, TitlePart(u));
    SetFieldsAtMostOne(b, TitlePart(u));
    var b2 := SetFields(b1, AuthorPart(u));
    SetFieldsAtMostOne(b1, AuthorPart(u));
    SetFieldsAtMostOne(b2, GenrePart(u));
  }

  /** Setting the year, pages and ISBN parts replaces exactly those fields when present;
      an explicit null ISBN clears it. */
  lemma OtherPartsMerge(b: Book, u: BookUpdate)
    ensures SetFields(SetFields(SetFields(b, YearPart(u)), PagesPart(u)), IsbnPart(u))
            == b.(publicationYear := if u.publicationYear.Some? then u.publicationYear.value else b.publicationYear,
                  pages := if u.pages.Some? then u.pages.value else b.pages,
                  isbn := match u.isbn { case Unset => b.isbn case Null => None case Set(x) => Some(x) })
  {
    var b1 := SetFields(b, YearPart(u));
    SetFieldsAtMostOne(b, YearPart(u));
    var b2 := SetFields(b1, PagesPart(u));
    SetFieldsAtMostOne(b1, PagesPart(u));
    SetFieldsAtMostOne(b2, IsbnPart(u));
  }

  lemma SetFieldsAtMostOne(b: Book, d: seq<FieldValue>)
    requires |d| <= 1
    ensures SetFields(b, d) == if d == [] then b else SetField(b, d[0])
  {
    if d != [] {
      assert d[..0] == [];
    }
  }

  /** Merging a validated update into a well-formed record keeps it well-formed. */
  lemma MergedWellFormed(b: Book, input: UpdateInput, now: Timestamp)
    requires WellFormed(b)
    requires ValidateUpdate(input).Ok?
    ensures WellFormed(Merged(b, ValidateUpdate(input).value, now))
  {
    var u := ValidateUpdate(input).value;
    var m := Merged(b, u, now);
    assert UpdateFieldOk(input, YearField);
    assert UpdateFieldOk(input, PagesField);
    assert UpdateFieldOk(input, IsbnField);
    assert IsNormalText(m.title) && |m.title| <= TITLE_MAX_LENGTH;
    assert IsNormalText(m.author) && |m.author| <= AUTHOR_MAX_LENGTH;
    assert MIN_YEAR <= m.publicationYear <= MAX_YEAR && 0 < m.pages <= MAX_PAGES;
  }
}
