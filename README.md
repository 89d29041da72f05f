# Book catalog: a verified model

This project models the core of a small book-store web API in Dafny. The API keeps its books in
memory, in a list plus an id counter. It offers create, get-by-id, update, delete, a filtered and
paginated listing, and a statistics summary. Every record passes field validation: a nine-value
genre enumeration, length bounds on title and author, year and page bounds, an ISBN pattern, and
a normaliser that strips and title-cases the title and the author.

The model is split into modules:

- `Results` (results.dfy): `Option` and `Result`.
- `PyText` (pytext.dfy): the Python string operations the API relies on, on ASCII.
  - `isspace`, `strip()`, `title()` and `lower()`.
  - The substring test `p in s`.
- `Models` (models.dfy): the record, the genre enumeration and the validation of the payloads.
  - The create payload, with the current-year rule.
  - The update payload, where every field is optional and the ISBN may be explicitly cleared.
  - The `setattr` merge of a validated update into a record, with the field-wise merge it amounts to.
- `Query` (query.dfy): the listing, as a pure function.
  - Three staged filters (genre, case-insensitive author substring, year), proved equal to one pass with the conjunction of the filters.
  - A Python slice, `total`, `page = skip / limit + 1` exactly as written, and `has_next`.
  - A completeness lemma: following `has_next` from the first page yields every match exactly once.
- `Stats` (stats.dfy): the summary.
  - The genre distribution, built by an accumulating loop.
  - The page average, rounded half to even as Python's `round` does.
  - The year range. An empty store is answered early.
- `Catalog` (catalog.dfy): the store and its operations.
  - The class `Catalog` holds the books (`seq<Book>`) and the counter (`nat`).
  - Its invariant: ids are positive, below the counter and strictly increasing, so they never repeat. No two books share an ISBN. Every record is well-formed.
  - It offers create, get, update, delete, list and summary.
  - A walkthrough method replays one full session against a fresh store.

Side inputs are parameters:

- The clock reading stored in `created_at` and `updated_at` is the parameter `now`.
- The year the create validator compares against is the parameter `currentYear`.
- The path and query parameter bounds that the web framework enforces are preconditions. These are `book_id > 0`, `skip >= 0`, `1 <= limit <= 100`, a non-empty author filter, and the year filter in `[1000, 2024]`.
- Request-body validation also happens before a handler runs. So an invalid body is reported before any not-found or conflict check.

## Model

| member | source | states |
|---|---|---|
| `PyText.Strip` | app/models.py:34-36 | The result is the input minus its leading and trailing whitespace. It is a contiguous slice of the input with no whitespace at either end. It is empty exactly when the input is all whitespace. Only whitespace is cut off. |
| `PyText.IsSpace` | app/models.py:34 | `str.isspace` on ASCII: tab, line feed, vertical tab, form feed, carriage return, the separators 0x1C-0x1F and space. A definition with no contract of its own; `Strip` and `NormaliseText` rely on it. |
| `PyText.Title` | app/models.py:36 | The result has the same length. Every character that is not a letter is kept as it is. Every letter stays the same letter, and becomes upper case exactly when it starts a word (first character, or after a non-letter), lower case otherwise. |
| `PyText.Lower` | app/routers/books.py:99-100 | The result has the same length and no upper-case letters. Each character becomes its own lower-case form, so non-letters are unchanged. |
| `PyText.Contains` | app/routers/books.py:100 | True exactly when the pattern occurs at some position of the text. |
| `PyText.StripUnchanged` | app/models.py:36 | A string with no whitespace at either end is left unchanged by strip. |
| `PyText.StripIdempotent` | app/models.py:36 | Stripping twice equals stripping once. |
| `PyText.TitleIdempotent` | app/models.py:36 | Title-casing twice equals title-casing once. |
| `PyText.TitleTrimmed` | app/models.py:36 | Title-casing a trimmed string leaves it trimmed. |
| `PyText.LowerIdempotent` | app/routers/books.py:99-100 | Lower-casing twice equals lower-casing once. |
| `Models.ParseGenre` | app/models.py:10-20 | A string is a genre exactly when it is the wire value of one of the nine genres, and then it parses to that genre. |
| `Models.ParseGenreValue` | app/models.py:10-20 | Every genre's wire value parses back to that genre. |
| `Models.GenreValue` | app/models.py:12-20 | The wire value of each genre. A definition with no contract of its own; `ParseGenre` and `ParseGenreValue` show that it is one-to-one and inverted by parsing. |
| `Models.NormaliseText` | app/models.py:31-36 | It fails with Blank exactly when the input is empty or all whitespace. Otherwise the result is `Title(Strip(v))`, which is non-empty, trimmed, title-cased and no longer than the input. |
| `Models.ValidateText` | app/models.py:24-36 | It accepts exactly the inputs whose raw length is within `[1, max]` and that are not all whitespace. The value is `Title(Strip(v))`: normalised and within the bound. |
| `Models.NormaliseIdempotent` | app/models.py:31-36 | Normalising an already normalised string returns it unchanged. |
| `Models.ValidateNormalText` | app/models.py:24-36 | Normalised text within the bound validates to itself. |
| `Models.ValidateYearBounds` | app/models.py:55 | Accepts a year exactly when `1000 <= y <= 2024`, unchanged. |
| `Models.ValidateCreateYear` | app/models.py:27-44 | Accepts exactly when `1000 <= y <= 2024` and `y <= currentYear`. A year within bounds but after the current year fails with AfterCurrentYear. |
| `Models.ValidatePages` | app/models.py:28 | Accepts exactly when `0 < p <= 10000`. |
| `Models.ValidateIsbn` | app/models.py:29 | Accepts exactly the strings of 10 or 13 ASCII digits, unchanged. Anything else fails with PatternMismatch. |
| `Models.MatchesIsbnPattern` | app/models.py:29 | The pattern `^\d{10}(\d{3})?$` read literally: ten digits, optionally followed by three more, and nothing else. A definition with no contract of its own; `ValidateIsbn` proves it holds exactly for strings of 10 or 13 ASCII digits. The same pattern is declared for updates at app/models.py:57. |
| `Models.ValidateOptionalIsbn` | app/models.py:29 | An absent ISBN passes. A present one must be valid. |
| `Models.ValidateCreate` | app/models.py:22-48 | Succeeds exactly when every field constraint holds on the raw input. The payload then holds the normalised title and author, the parsed genre, and the other fields as given. Every reported error names a field that fails. |
| `Models.CreateReportsEveryFailure` | app/models.py:22-48 | Every field of a create request that fails its constraint makes validation fail, and has an error of its own in the reported list. |
| `Models.CreateWellFormed` | app/models.py:22-44 | A record built from a validated payload satisfies all stored-record constraints. Its year is not after the current year. |
| `Models.WellFormed` | app/models.py:24-29 | The field constraints every stored `Book` carries: a normalised title of at most 200 characters, a normalised author of at most 100, a year in `[1000, 2024]`, pages in `(0, 10000]` and a valid ISBN when present. A definition with no contract of its own; `CreateWellFormed` and `MergedWellFormed` establish it, and `Catalog.StoreOk` requires it of every record. |
| `Models.NewRecord` | app/routers/books.py:62-66 | The stored record for a validated payload, with the given id and creation time and no update time. A definition with no contract of its own; `CreateWellFormed` shows the record is well-formed, and `Catalog.Catalog.Create` states it is what create stores. |
| `Models.CreateRevalidates` | app/routers/books.py:62-66 | Building the stored `Book` validates the dumped payload a second time. This gives back the same payload. |
| `Models.CreateFields` | app/routers/books.py:64 | The validated payload dumped back to its wire form. A definition with no contract of its own; `CreateRevalidates` shows that validating it again returns the same payload. |
| `Models.ValidateOptionalText` | app/models.py:52-64 | An absent title or author stays absent. A present one is validated and normalised as on create. |
| `Models.ValidateOptionalGenre` | app/models.py:54 | An absent genre stays absent. A present one must be one of the nine. |
| `Models.ValidateOptionalYear` | app/models.py:55 | An absent year stays absent. A present year is only bounds-checked: there is no current-year rule on update. |
| `Models.ValidateOptionalPages` | app/models.py:56 | An absent page count stays absent. A present one must be within bounds. |
| `Models.ValidatePatchIsbn` | app/models.py:57 | An unset ISBN and an explicit null pass through unchanged. A given ISBN must be valid. |
| `Models.ValidateUpdate` | app/models.py:50-64 | Succeeds exactly when every present field satisfies its constraint. Absent fields stay absent. Present text is normalised as on create. Genre, year, pages and ISBN pass through. Every reported error names a field that fails. |
| `Models.UpdateReportsEveryFailure` | app/models.py:50-64 | Every present field of an update request that fails its constraint makes validation fail, and has an error of its own in the reported list. |
| `Models.Dump` | app/routers/books.py:174 | The fields an update request set, in declaration order, with an explicit null ISBN dumped as None. A definition with no contract of its own; `SetFieldsIsMerge` relates it to the merge. |
| `Models.SetField` | app/routers/books.py:177 | One `setattr` of a payload field. It never changes the id, the creation time or the update time. |
| `Models.SetFields` | app/routers/books.py:176-177 | `setattr` for each dumped field in order. The id, the creation time and the update time are kept. |
| `Models.Merged` | app/routers/books.py:172-181 | The field-wise merge an update promises: a set field replaces the stored one, an unset one keeps it, an explicit null ISBN clears it, and the update time becomes `now`. A reference definition with no contract of its own; `SetFieldsIsMerge` proves the `setattr` loop equals it, and `MergedWellFormed` that it keeps a record well-formed. |
| `Models.SetFieldsConcat` | app/routers/books.py:176-177 | Applying two lists of field assignments one after the other equals applying their concatenation. |
| `Models.SetFieldsIsMerge` | app/routers/books.py:173-179 | The `setattr` loop over the dumped update, followed by setting `updated_at`, equals the field-wise merge. A present field replaces the stored one, an absent field keeps it, and an explicit null ISBN clears it. The id and `created_at` are kept. |
| `Models.MergedWellFormed` | app/models.py:50-64 | Merging a validated update into a well-formed record keeps it well-formed. |
| `Query.Where` | app/routers/books.py:96 | The filtered list holds exactly the books that satisfy the condition, and is no longer than the input. |
| `Query.Matching` | app/routers/books.py:93-103 | The books that satisfy every supplied filter, in store order, found in one pass. A reference definition with no contract of its own; `FilteredIsMatching` proves the staged filters equal it. |
| `Query.Matches` | app/routers/books.py:95-103 | A book satisfies every supplied filter: the genre equals the given one, the author matches, and the year equals the given one. A definition with no contract of its own; `Matching` and `FilteredIsMatching` rely on it. |
| `Query.AuthorMatches` | app/routers/books.py:99-100 | The lowered pattern occurs in the lowered author name. A definition with no contract of its own; `AuthorMatchIgnoresCase` shows it ignores letter case. |
| `Query.QueryOk` | app/routers/books.py:78-82 | The declared listing bounds: `skip >= 0`, `1 <= limit <= 100`, and the filter bounds of `FiltersOk`. A definition with no contract of its own; `ListBooks` and `Catalog.Catalog.List` require it. |
| `Query.FiltersOk` | app/routers/books.py:80-82 | The declared filter bounds: a given author filter is non-empty and a given year lies in `[1000, 2024]`. A definition with no contract of its own; `FilteredIsMatching` relies on it to drop the truthiness tests. |
| `Query.Filtered` | app/routers/books.py:93-103 | The three staged filters, each applied only when its parameter is truthy. A definition with no contract of its own; `FilteredIsMatching` proves it equals `Matching` under the declared parameter bounds. |
| `Query.WhereWhere` | app/routers/books.py:95-103 | Filtering twice equals filtering once by the conjunction. |
| `Query.PySlice` | app/routers/books.py:107 | `s[lo:hi]` with both ends clamped to the length. Its length and elements are given. |
| `Query.ListBooks` | app/routers/books.py:93-116 | `total` is the number of matching books. The page holds at most `limit` books: exactly the matching books from `skip` on, in store order. `has_next` holds exactly when `skip + limit < total`. `page = skip / limit + 1`, and `limit` is echoed. |
| `Query.FilteredIsMatching` | app/routers/books.py:93-103 | Under the declared parameter bounds, the three staged filters, each applied only when its parameter is truthy, select exactly the books that match every supplied filter, in store order. |
| `Query.AuthorMatchIgnoresCase` | app/routers/books.py:98-100 | The author filter ignores letter case in the pattern and in the author name. |
| `Query.ListNoMatches` | app/routers/books.py:105-115 | With no matching book, the page is empty, `total` is 0 and `has_next` is false. |
| `Query.ListIsSlice` | app/routers/books.py:105-107 | The page is the slice `[skip, skip + limit)` of the matching books, cut short at the end, and empty past the end. |
| `Query.PagesFromCovers` | app/routers/books.py:105-115 | Keep requesting the next page (skip increased by limit) while `has_next` holds. The pages then add up to exactly the matching books from `skip` on. |
| `Query.PagesCoverAll` | app/routers/books.py:105-115 | Paging from `skip = 0` yields every matching book exactly once, in store order. |
| `Stats.GenreCount` | app/routers/books.py:227-229 | A genre's count is at most the number of books. |
| `Stats.GenreCounts` | app/routers/books.py:226-229 | The reference genre distribution: every genre with a non-zero count, at that count. A definition with no contract of its own; `LibraryStats` proves the loop builds it. |
| `Stats.SumPages` | app/routers/books.py:232 | The sum of the page counts. A definition with no contract of its own; `SumPagesBounds` bounds it. |
| `Stats.SummaryOf` | app/routers/books.py:213-247 | The reference summary: the empty answer for an empty store, otherwise the count, the distribution, the rounded mean and the year extremes. A definition with no contract of its own; `LibraryStats` proves the method returns it, and `SummaryBounds` bounds it. |
| `Stats.MinYear` | app/routers/books.py:236-238 | The earliest year is at most every book's year, and some book has it. |
| `Stats.MaxYear` | app/routers/books.py:236-240 | The latest year is at least every book's year, and some book has it. |
| `Stats.RoundHalfEven` | app/routers/books.py:233 | The result is within half of `n / d`. At exactly half, it is even. |
| `Stats.RoundHalfEvenUnique` | app/routers/books.py:233 | Any integer within half of `n / d`, and even at a tie, is the rounded value. So the rounding is determined. |
| `Stats.RoundHalfEvenBounds` | app/routers/books.py:233 | The rounded average of values in `[lo, hi]` lies in `[lo, hi]`. |
| `Stats.LibraryStats` | app/routers/books.py:213-247 | An empty store gives `(0, {}, 0, None)`. Otherwise `total_books` is the number of books. A genre appears in the distribution exactly when it has books, with its count. The average is the rounded mean, and the year range is (earliest, latest). |
| `Stats.EveryGenreListed` | app/models.py:10-20 | Every genre is one of the nine listed values. |
| `Stats.CountsAddUp` | app/routers/books.py:227-229 | The nine genre counts add up to the number of books. |
| `Stats.SumPagesBounds` | app/routers/books.py:232 | For well-formed records, the page sum lies between the count and 10000 times the count. |
| `Stats.SummaryBounds` | app/routers/books.py:232-240 | For a non-empty store of well-formed records, the average lies within `[1, 10000]`. The year range lies within `[1000, 2024]`, with earliest at most latest. |
| `Catalog.IndexOf` | app/routers/books.py:156 | The first position holding the id. None exactly when no book has the id. |
| `Catalog.FindIsbn` | app/routers/books.py:165 | A stored book with the ISBN and a different id, found exactly when one exists. |
| `Catalog.IsbnTaken` | app/routers/books.py:53-55 | Some stored book other than the excepted id holds the ISBN (on create no id is excepted). A definition with no contract of its own; `FindIsbn` decides it, and `Create` and `Update` use it for their conflict cases. |
| `Catalog.StoreOk` | app/routers/books.py:19-27 | The store invariant: the counter is at least 1, every id lies in `[1, counter)`, ids strictly increase in store order, no two books share an ISBN, and every record is well-formed. A definition with no contract of its own; the conflict checks at app/routers/books.py:53-59 and 164-170 keep ISBNs distinct, and `AppendKeepsStoreOk`, `ReplaceKeepsStoreOk` and `RemoveKeepsStoreOk` prove that create, update and delete preserve it. |
| `Catalog.AppendKeepsStoreOk` | app/routers/books.py:53-68 | Appending a well-formed record with the counter's id and an ISBN no book holds keeps the store invariant, with the counter advanced. |
| `Catalog.ReplaceKeepsStoreOk` | app/routers/books.py:164-181 | Replacing a record by a well-formed one with the same id keeps the store invariant, provided its ISBN is unchanged or held by no other book. |
| `Catalog.RemoveKeepsStoreOk` | app/routers/books.py:197-204 | Removing one record keeps the store invariant, and no record with its id remains. |
| `Catalog.IndexOfAppended` | app/routers/books.py:62-68 | The appended record is the one found under the new id. |
| `Catalog.IndexOfReplaced` | app/routers/books.py:173-181 | A record replaced in place is still found at its position. |
| `Catalog.MergeKeepsStoreOk` | app/routers/books.py:163-181 | Writing a validated merge back at its position keeps the store invariant, provided a newly set ISBN is held by no other book. The record is still found under its id. |
| `Catalog.Catalog.constructor` | app/routers/books.py:19-20 | A fresh store is empty, its counter is 1, and the invariant holds. |
| `Catalog.Catalog.Valid` | app/routers/books.py:19-20 | The class invariant: `StoreOk` of the store's books and counter. A definition with no contract of its own; the constructor establishes it, and every operation of the class requires and keeps it. |
| `Catalog.Catalog.NextId` | app/routers/books.py:22-27 | Returns the counter and then increments it. |
| `Catalog.Catalog.Get` | app/routers/books.py:128-138 | For a positive id, returns a stored book with the id. Fails with NotFound exactly when no book has it. |
| `Catalog.Catalog.List` | app/routers/books.py:93-116 | The listing over the store: the page is the slice of the matching books, and `total` is their number. |
| `Catalog.Catalog.Summary` | app/routers/books.py:213-247 | The summary over the store. |
| `Catalog.Catalog.Create` | app/routers/books.py:41-69 | An invalid body: Invalid, store and counter unchanged. An ISBN already stored: Conflict, store and counter unchanged. Otherwise the record takes the old counter as its id, with no update time, and is appended at the end. Earlier records are unchanged, the counter goes up by one, the record is found by its id, and the invariant is kept. |
| `Catalog.Catalog.Insert` | app/routers/books.py:61-68 | The success path of create: the record gets the next id, is appended, and is found by its id. |
| `Catalog.Catalog.Update` | app/routers/books.py:151-181 | An invalid body: Invalid. No book with the id: NotFound. The new ISBN held by a *different* book: Conflict. In all three failures the store is unchanged. Otherwise the record at the id's position becomes the field-wise merge, with `updated_at = now`, and every other record is unchanged. The counter never changes, and the invariant is kept. |
| `Catalog.Catalog.Apply` | app/routers/books.py:172-181 | The `setattr` loop yields the field-wise merge, which is written back at the record's position. |
| `Catalog.Catalog.AssignFields` | app/routers/books.py:176-177 | The loop that assigns each dumped field in order gives the same record as applying the whole list of assignments. |
| `Catalog.Catalog.Delete` | app/routers/books.py:193-205 | No book with the id: NotFound, store unchanged. Otherwise exactly that record is removed and the order of the rest is kept. Afterwards no book has the id. The counter is unchanged, so ids are never reissued. |
| `Catalog.Walkthrough` | app/routers/books.py:41-205 | A fresh-store session. Creating "dune" by "frank herbert" stores "Dune" by "Frank Herbert" with id 1 and no update time. A second create with the same ISBN is a Conflict. Updating the page count to 500 changes only the pages and the update time. The delete succeeds, after which get(1) is NotFound, and the default listing is empty: page 1, limit 10, no next page. |

## Left out

- HTTP transport: routing, status codes, response serialisation, error message texts and the `ErrorResponse` and `BookListResponse` metadata. Errors are the datatype `StoreError`. Parameter bounds that the framework enforces are preconditions.
- The application entry point and greeting endpoints in `app/main.py`: they sit outside the store. app/main.py is not part of this model.
- Clocks: `datetime.now()` becomes the parameters `now` and `currentYear`. The model assumes that when the `Book` is constructed, its re-validation sees the same year as the request's validation. No order is assumed between clock readings, so `updated_at >= created_at` is not stated: the source reads a naive wall clock, which can step backwards.
- Float division in the average: the exact quotient is rounded half to even. Floating-point error in `total_pages / total_books` is not modelled.
- Unicode: whitespace, case mapping and `\d` are modelled on ASCII only.
- Concurrency: each handler runs as one atomic step.
- Pydantic type coercion (for example a numeric string accepted as an integer): payload fields arrive already typed.
- An explicit `null` for the title, author, genre, year or pages of an update payload is treated like an absent field. The source would store `None` in that required field.
- Iteration order of the genre distribution (first occurrence in store order) is not modelled: it is a Dafny `map`.
- The ISBN pattern is modelled as an exact match of 10 or 13 digits. A regex engine's treatment of a trailing newline before `$` is not modelled.
- In-place mutation: the source updates the stored record object in place and returns that same object. The model computes the merged value and writes it back at the same position, so aliasing between the response and the stored record is not modelled.
- Validation-library version: the source mixes forms from two major versions of pydantic (the `validator` decorator and `Field(regex=...)` in app/models.py next to `model_dump` and `json_schema_extra`). As written, no single pydantic version accepts all of them; the model follows the evident intent of each.
