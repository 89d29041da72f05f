/**
 * The in-memory book store: the list of stored books and the id counter, with the
 * create, read, update, delete, listing and statistics operations over them.
 */
module Catalog {
  import opened Results
  import opened PyText
  import opened Models
  import opened Query
  import opened Stats

  /** Why a store operation refused a request. */
  datatype StoreError =
    | Invalid(errors: seq<FieldError>)   // the request body failed validation
    | NotFound(id: int)                  // no book has this id
    | Conflict(isbn: string)             // another book already has this ISBN

  /** `next((i for i, b in enumerate(books) if b.id == id), None)`: the first position holding `id`. */
  function IndexOf(books: seq<Book>, id: int): (r: Option<nat>)
    ensures r.Some? ==> r.value < |books| && books[r.value].id == id
    ensures r.Some? ==> forall j :: 0 <= j < r.value ==> books[j].id != id
    ensures r.None? <==> forall j :: 0 <= j < |books| ==> books[j].id != id
  {
    if books == [] then None
    else if books[0].id == id then Some(0)
    else match IndexOf(books[1..], id) {
      case None => None
      case Some(k) => Some(k + 1)
    }
  }

  /** Whether some book other than the one with id `except` already has ISBN `isbn`;
      the create check passes an id no stored book has. */
  predicate IsbnTaken(books: seq<Book>, isbn: string, except: int) {
    exists j :: 0 <= j < |books| && books[j].isbn == Some(isbn) && books[j].id != except
  }

  /** The first book with ISBN `isbn` and an id other than `except`, if any. */
  function FindIsbn(books: seq<Book>, isbn: string, except: int): (r: Option<Book>)
    ensures r.Some? <==> IsbnTaken(books, isbn, except)
    ensures r.Some? ==> r.value in books && r.value.isbn == Some(isbn) && r.value.id != except
  {
    if books == [] then None
    else if books[0].isbn == Some(isbn) && books[0].id != except then Some(books[0])
    else
      var rest := FindIsbn(books[1..], isbn, except);
      assert forall j :: 1 <= j < |books| ==> books[1..][j - 1] == books[j];
      assert IsbnTaken(books[1..], isbn, except) ==> IsbnTaken(books, isbn, except);
      rest
  }

  /** The store invariant. Ids are positive, below the counter and strictly increasing in
      store order, so no id is used twice; no two books share an ISBN; every record satisfies
      the field constraints. */
  predicate StoreOk(books: seq<Book>, nextId: nat) {
    nextId >= 1 && IdsBelow(books, nextId) && IdsIncreasing(books) && IsbnsDistinct(books)
    && AllWellFormed(books)
  }

  predicate IdsBelow(books: seq<Book>, nextId: nat) {
    forall i :: 0 <= i < |books| ==> 1 <= books[i].id < nextId
  }

  predicate IdsIncreasing(books: seq<Book>) {
    forall i, j :: 0 <= i < j < |books| ==> books[i].id < books[j].id
  }

  predicate IsbnsDistinct(books: seq<Book>) {
    forall i, j :: 0 <= i < |books| && 0 <= j < |books| && i != j && books[i].isbn.Some?
      ==> books[i].isbn != books[j].isbn
  }

  predicate AllWellFormed(books: seq<Book>) {
    forall i :: 0 <= i < |books| ==> WellFormed(books[i])
  }

  /** Appending a well-formed record with the counter's id and a fresh ISBN, and advancing
      the counter, keeps the invariant. */
  lemma AppendKeepsStoreOk(books: seq<Book>, nextId: nat, b: Book)
    requires StoreOk(books, nextId)
    requires WellFormed(b) && b.id == nextId
    requires b.isbn.Some? ==> !IsbnTaken(books, b.isbn.value, 0)
    ensures StoreOk(books + [b], nextId + 1)
  {
    AppendIds(books, nextId, b);
    if b.isbn.Some? {
      forall j | 0 <= j < |books| ensures books[j].isbn != b.isbn {
        assert books[j].id != 0;
      }
    }
    AppendIsbnsDistinct(books, b);
  }

  lemma AppendIds(books: seq<Book>, nextId: nat, b: Book)
    requires IdsBelow(books, nextId) && IdsIncreasing(books) && AllWellFormed(books)
    requires WellFormed(b) && b.id == nextId && nextId >= 1
    ensures IdsBelow(books + [b], nextId + 1) && IdsIncreasing(books + [b]) && AllWellFormed(books + [b])
  {
    var s := books + [b];
    assert forall i :: 0 <= i < |books| ==> s[i] == books[i];
  }

  lemma AppendIsbnsDistinct(books: seq<Book>, b: Book)
    requires IsbnsDistinct(books)
    requires b.isbn.Some? ==> forall j :: 0 <= j < |books| ==> books[j].isbn != b.isbn
    ensures IsbnsDistinct(books + [b])
  {
    var s := books + [b];
    assert forall i :: 0 <= i < |books| ==> s[i] == books[i];
  }

  /** Replacing a record by a well-formed one with the same id, whose ISBN, if new, no other
      book holds, keeps the invariant. */
  lemma ReplaceKeepsStoreOk(books: seq<Book>, nextId: nat, i: nat, b: Book)
    requires StoreOk(books, nextId)
    requires i < |books| && b.id == books[i].id && WellFormed(b)
    requires b.isbn.Some? && b.isbn != books[i].isbn ==> !IsbnTaken(books, b.isbn.value, b.id)
    ensures StoreOk(books[i := b], nextId)
  {
    ReplaceIds(books, nextId, i, b);
    if b.isbn.Some? && b.isbn != books[i].isbn {
      forall j | 0 <= j < |books| && j != i ensures books[j].isbn != b.isbn {
        assert books[j].id != b.id;
      }
    }
    ReplaceIsbnsDistinct(books, i, b);
  }

  lemma ReplaceIds(books: seq<Book>, nextId: nat, i: nat, b: Book)
    requires IdsBelow(books, nextId) && IdsIncreasing(books) && AllWellFormed(books)
    requires i < |books| && b.id == books[i].id && WellFormed(b)
    ensures IdsBelow(books[i := b], nextId) && IdsIncreasing(books[i := b]) && AllWellFormed(books[i := b])
  {
  }

  lemma ReplaceIsbnsDistinct(books: seq<Book>, i: nat, b: Book)
    requires IsbnsDistinct(books) && i < |books|
    requires b.isbn.Some? && b.isbn != books[i].isbn ==>
               forall j :: 0 <= j < |books| && j != i ==> books[j].isbn != b.isbn
    ensures IsbnsDistinct(books[i := b])
  {
  }

  /** A record appended with the counter's id is the one found under that id. */
  lemma IndexOfAppended(books: seq<Book>, nextId: nat, b: Book)
    requires IdsBelow(books, nextId) && b.id == nextId
    ensures IndexOf(books + [b], nextId) == Some(|books|)
  {
    var s := books + [b];
    assert forall j :: 0 <= j < |books| ==> s[j].id != nextId;
    assert s[|books|].id == nextId;
    var r := IndexOf(s, nextId);
    assert r.Some? && s[r.value].id == nextId;
  }

  /** A record replaced in place is still found under its id. */
  lemma IndexOfReplaced(books: seq<Book>, i: nat, b: Book)
    requires IdsIncreasing(books)
    requires i < |books| && b.id == books[i].id
    ensures IndexOf(books[i := b], b.id) == Some(i)
  {
    var s := books[i := b];
    assert forall j :: 0 <= j < i ==> s[j].id != b.id;
    assert s[i].id == b.id;
    var r := IndexOf(s, b.id);
    assert r.Some? && s[r.value].id == b.id;
  }

  /** Writing a validated merge back at its position keeps the store invariant, and the
      record is still found under its id. */
  lemma MergeKeepsStoreOk(books: seq<Book>, nextId: nat, i: nat, u: BookUpdate, now: Timestamp)
    requires StoreOk(books, nextId)
    requires i < |books| && WellFormed(Merged(books[i], u, now))
    requires u.isbn.Set? ==> !IsbnTaken(books, u.isbn.value, books[i].id)
    ensures StoreOk(books[i := Merged(books[i], u, now)], nextId)
    ensures IndexOf(books[i := Merged(books[i], u, now)], books[i].id) == Some(i)
  {
    var b := Merged(books[i], u, now);
    assert b.id == books[i].id;
    assert b.isbn.Some? && b.isbn != books[i].isbn ==> u.isbn.Set? && b.isbn.value == u.isbn.value;
    ReplaceKeepsStoreOk(books, nextId, i, b);
    IndexOfReplaced(books, i, b);
  }

  /** Position `k` of the store with position `i` removed, as a position of the full store. */
  function Skip(i: nat, k: nat): nat {
    if k < i then k else k + 1
  }

  lemma RemovedAt(books: seq<Book>, i: nat)
    requires i < |books|
    ensures |books[..i] + books[i + 1..]| == |books| - 1
    ensures forall k :: 0 <= k < |books| - 1 ==> (books[..i] + books[i + 1..])[k] == books[Skip(i, k)]
  {
  }

  /** Removing one record keeps the invariant, and no record is left under its id. */
  lemma RemoveKeepsStoreOk(books: seq<Book>, nextId: nat, i: nat)
    requires StoreOk(books, nextId)
    requires i < |books|
    ensures StoreOk(books[..i] + books[i + 1..], nextId)
    ensures IndexOf(books[..i] + books[i + 1..], books[i].id).None?
  {
    var s := books[..i] + books[i + 1..];
    RemovedAt(books, i);
    assert IdsBelow(s, nextId);
    assert AllWellFormed(s);
    forall a, c | 0 <= a < c < |s| ensures s[a].id < s[c].id {
      assert s[a] == books[Skip(i, a)] && s[c] == books[Skip(i, c)];
    }
    forall a, c | 0 <= a < |s| && 0 <= c < |s| && a != c && s[a].isbn.Some?
      ensures s[a].isbn != s[c].isbn
    {
      assert s[a] == books[Skip(i, a)] && s[c] == books[Skip(i, c)];
    }
    forall k | 0 <= k < |s| ensures s[k].id != books[i].id {
      assert s[k] == books[Skip(i, k)];
    }
  }

  /** The store. */
  class Catalog {
    var books: seq<Book>
    var nextId: nat

    /** Ids are positive, below the counter and strictly increasing in store order, so no id
        is used twice; no two books share an ISBN; every record satisfies the field constraints. */
    ghost predicate Valid()
      reads this
    {
      StoreOk(books, nextId)
    }

    constructor()
      ensures Valid()
      ensures books == [] && nextId == 1
    {
      books := [];
      nextId := 1;
    }

    /** `get_next_id`: hands out the counter and advances it. */
    method NextId() returns (id: nat)
      modifies this`nextId
      ensures id == old(nextId) && nextId == old(nextId) + 1
    {
      id := nextId;
      nextId := nextId + 1;
    }

    /** `get_book`: the book with id `id`, or NotFound. The path parameter is declared `gt=0`. */
    function Get(id: int): (r: Result<Book, StoreError>)
      requires id > 0
      reads this
      ensures r.Ok? ==> r.value in books && r.value.id == id
      ensures r.Err? <==> forall j :: 0 <= j < |books| ==> books[j].id != id
      ensures r.Err? ==> r.error == NotFound(id)
    {
      match IndexOf(books, id) {
        case None => Err(NotFound(id))
        case Some(i) => Ok(books[i])
      }
    }

    /** `get_books`: one filtered page of the store. */
    function List(q: BookQuery): (r: BookList)
      requires QueryOk(q)
      reads this
      ensures r.total == |Matching(books, q.filters)|
      ensures r.books == PySlice(Matching(books, q.filters), q.skip, q.skip + q.limit)
    {
      ListIsSlice(books, q);
      ListBooks(books, q)
    }

    /** `get_library_stats` over the store. */
    method Summary() returns (s: Summary)
      ensures s == SummaryOf(books)
    {
      s := LibraryStats(books);
    }

    /** `create_book`: validate the request, refuse an ISBN already in the store, otherwise
        append a record with the next id and no update time. */
    method Create(input: BookInput, currentYear: int, now: Timestamp) returns (r: Result<Book, StoreError>)
      requires Valid()
      modifies this
      ensures Valid()
      ensures ValidateCreate(input, currentYear).Err? ==>
                r == Err(Invalid(ValidateCreate(input, currentYear).error))
                && books == old(books) && nextId == old(nextId)
      ensures ValidateCreate(input, currentYear).Ok? ==>
                var c := ValidateCreate(input, currentYear).value;
                if c.isbn.Some? && IsbnTaken(old(books), c.isbn.value, 0) then
                  r == Err(Conflict(c.isbn.value)) && books == old(books) && nextId == old(nextId)
                else
                  r == Ok(NewRecord(old(nextId), c, now))
                  && books == old(books) + [r.value] && nextId == old(nextId) + 1
      ensures r.Ok? ==> Get(r.value.id) == r
    {
      var v := ValidateCreate(input, currentYear);
      if v.Err? {
        return Err(Invalid(v.error));
      }
      var c := v.value;
      if c.isbn.Some? && c.isbn.value != [] {
        var existing := FindIsbn(books, c.isbn.value, 0);
        if existing.Some? {
          return Err(Conflict(c.isbn.value));
        }
      }
      assert c.isbn.Some? ==> c.isbn.value != [] by {
        assert CreateFieldOk(input, currentYear, IsbnField);
      }
      CreateWellFormed(input, currentYear, nextId, now);
      var book := Insert(c, now);
      r := Ok(book);
    }

    /** The success path of `create_book`: the record takes the next id and is appended. */
    method Insert(c: BookCreate, now: Timestamp) returns (book: Book)
      requires Valid()
      requires WellFormed(NewRecord(nextId, c, now))
      requires c.isbn.Some? ==> !IsbnTaken(books, c.isbn.value, 0)
      modifies this
      ensures Valid()
      ensures book == NewRecord(old(nextId), c, now)
      ensures books == old(books) + [book] && nextId == old(nextId) + 1
      ensures Get(book.id) == Ok(book)
    {
      AppendKeepsStoreOk(books, nextId, NewRecord(nextId, c, now));
      IndexOfAppended(books, nextId, NewRecord(nextId, c, now));
      var id := NextId();
      book := NewRecord(id, c, now);
      books := books + [book];
    }

    /** `update_book`: validate the request, find the book, refuse an ISBN held by another
        book, then set each field the request carries and stamp the update time. */
    method Update(id: int, input: UpdateInput, now: Timestamp) returns (r: Result<Book, StoreError>)
      requires Valid()
      requires id > 0
      modifies this
      ensures Valid()
      ensures nextId == old(nextId)
      ensures ValidateUpdate(input).Err? ==>
                r == Err(Invalid(ValidateUpdate(input).error)) && books == old(books)
      ensures ValidateUpdate(input).Ok? && IndexOf(old(books), id).None? ==>
                r == Err(NotFound(id)) && books == old(books)
      ensures ValidateUpdate(input).Ok? && IndexOf(old(books), id).Some? ==>
                var u := ValidateUpdate(input).value;
                var i := IndexOf(old(books), id).value;
                if u.isbn.Set? && IsbnTaken(old(books), u.isbn.value, id) then
                  r == Err(Conflict(u.isbn.value)) && books == old(books)
                else
                  r == Ok(Merged(old(books)[i], u, now)) && books == old(books)[i := r.value]
      ensures r.Ok? ==> Get(id) == r
    {
      var v := ValidateUpdate(input);
      if v.Err? {
        return Err(Invalid(v.error));
      }
      var u := v.value;
      var found := IndexOf(books, id);
      if found.None? {
        return Err(NotFound(id));
      }
      var i := found.value;
      if u.isbn.Set? && u.isbn.value != [] {
        var existing := FindIsbn(books, u.isbn.value, id);
        if existing.Some? {
          return Err(Conflict(u.isbn.value));
        }
      }
      assert u.isbn.Set? ==> u.isbn.value != [] by {
        assert UpdateFieldOk(input, IsbnField);
      }
      MergedWellFormed(books[i], input, now);
      var book := Apply(i, u, now);
      r := Ok(book);
    }

    /** The success path of `update_book`: `setattr` for each field the payload carries, in
        order, then the update time; the record is written back where it was. */
    method Apply(i: nat, u: BookUpdate, now: Timestamp) returns (book: Book)
      requires Valid()
      requires i < |books| && WellFormed(Merged(books[i], u, now))
      requires u.isbn.Set? ==> !IsbnTaken(books, u.isbn.value, books[i].id)
      modifies this
      ensures Valid()
      ensures book == Merged(old(books)[i], u, now)
      ensures books == old(books)[i := book] && nextId == old(nextId)
      ensures Get(book.id) == Ok(book)
    {
      book := AssignFields(books[i], Dump(u));
      SetFieldsIsMerge(books[i], u, now);
      book := book.(updatedAt := Some(now));
      MergeKeepsStoreOk(books, nextId, i, u, now);
      books := books[i := book];
    }

    /** The `setattr` loop: assign each dumped field to the record, in order. */
    static method AssignFields(b: Book, data: seq<FieldValue>) returns (book: Book)
      ensures book == SetFields(b, data)
    {
      book := b;
      for k := 0 to |data|
        invariant book == SetFields(b, data[..k])
      {
        assert data[..k + 1][..k] == data[..k];
        book := SetField(book, data[k]);
      }
      assert data[..|data|] == data;
    }

    /** `delete_book`: remove the book with id `id`, keeping the order of the others; the
        counter is left alone, so the id is never handed out again. */
    method Delete(id: int) returns (r: Result<(), StoreError>)
      requires Valid()
      requires id > 0
      modifies this
      ensures Valid()
      ensures nextId == old(nextId)
      ensures IndexOf(old(books), id).None? ==> r == Err(NotFound(id)) && books == old(books)
      ensures IndexOf(old(books), id).Some? ==>
                var i := IndexOf(old(books), id).value;
                r == Ok(()) && books == old(books)[..i] + old(books)[i + 1..]
      ensures Get(id) == Err(NotFound(id))
    {
      var found := IndexOf(books, id);
      if found.None? {
        return Err(NotFound(id));
      }
      var i := found.value;
      RemoveKeepsStoreOk(books, nextId, i);
      books := books[..i] + books[i + 1..];
      r := Ok(());
    }
  }

  lemma StripWords()
    ensures Strip("dune") == "dune"
    ensures Strip("frank herbert") == "frank herbert"
  {
    assert LeadingSpaces("dune") == 0 && TrailingSpaces("dune") == 0;
    assert LeadingSpaces("frank herbert") == 0 && TrailingSpaces("frank herbert") == 0;
  }

  lemma TitleDune()
    ensures Title("dune") == "Dune"
  {
    var t := Title("dune");
    assert t[0] == 'D' && t[1] == 'u' && t[2] == 'n' && t[3] == 'e';
  }

  lemma TitleFrankHerbert()
    ensures Title("frank herbert") == "Frank Herbert"
  {
    TitleFrank();
    TitleHerbert();
    var t := Title("frank herbert");
    assert t == t[..6] + t[6..];
  }

  lemma TitleFrank()
    ensures Title("frank herbert")[..6] == "Frank "
  {
    var t := Title("frank herbert");
    assert t[0] == 'F' && t[1] == 'r' && t[2] == 'a';
    assert t[3] == 'n' && t[4] == 'k' && t[5] == ' ';
  }

  lemma TitleHerbert()
    ensures Title("frank herbert")[6..] == "Herbert"
  {
    var t := Title("frank herbert");
    assert t[6] == 'H' && t[7] == 'e' && t[8] == 'r' && t[9] == 'b';
    assert t[10] == 'e' && t[11] == 'r' && t[12] == 't';
  }

  lemma IsbnDigits()
    ensures AllDigits("9780441013593")
  {
  }

  lemma ScienceFictionValue()
    ensures GenreValue(ScienceFiction) == "science-fiction"
    ensures ParseGenre("science-fiction") == Some(ScienceFiction)
  {
  }

  lemma DuneValidates(currentYear: int)
    requires currentYear >= 1965
    ensures ValidateCreate(DUNE, currentYear)
            == Ok(BookCreate("Dune", "Frank Herbert", ScienceFiction, 1965, 412, Some("9780441013593")))
  {
    StripWords();
    TitleDune();
    TitleFrankHerbert();
    var dune := BookInput("dune", "frank herbert", "science-fiction", 1965, 412, Some("9780441013593"));
    assert !IsSpace(dune.title[0]) && !IsSpace(dune.author[0]);
    assert CreateFieldOk(dune, currentYear, TitleField);
    assert CreateFieldOk(dune, currentYear, AuthorField);
    ScienceFictionValue();
    assert CreateFieldOk(dune, currentYear, GenreField);
    assert CreateFieldOk(dune, currentYear, YearField);
    assert CreateFieldOk(dune, currentYear, PagesField);
    IsbnDigits();
    assert CreateFieldOk(dune, currentYear, IsbnField);
  }

  lemma PagesUpdateValidates()
    ensures ValidateUpdate(UpdateInput(None, None, None, None, Some(500), Unset))
            == Ok(BookUpdate(None, None, None, None, Some(500), Unset))
  {
    assert UpdateInputOk(UpdateInput(None, None, None, None, Some(500), Unset));
  }

  const DUNE := BookInput("dune", "frank herbert", "science-fiction", 1965, 412, Some("9780441013593"))

  /** The record the first create of the session stores. */
  function DuneRecord(t0: Timestamp): Book {
    Book(1, "Dune", "Frank Herbert", ScienceFiction, 1965, 412, Some("9780441013593"), t0, None)
  }

  /** A session against a fresh store: a create, a second create with the same ISBN, a
      partial update of the page count, a delete, then a lookup and a listing. */
  method Walkthrough(currentYear: int, t0: Timestamp, t1: Timestamp)
    returns (created: Result<Book, StoreError>, duplicate: Result<Book, StoreError>,
             updated: Result<Book, StoreError>, deleted: Result<(), StoreError>,
             lookup: Result<Book, StoreError>, listing: BookList)
    requires currentYear >= 1965
    ensures created == Ok(Book(1, "Dune", "Frank Herbert", ScienceFiction, 1965, 412,
                               Some("9780441013593"), t0, None))
    ensures duplicate == Err(Conflict("9780441013593"))
    ensures updated == Ok(Book(1, "Dune", "Frank Herbert", ScienceFiction, 1965, 500,
                               Some("9780441013593"), t0, Some(t1)))
    ensures deleted == Ok(())
    ensures lookup == Err(NotFound(1))
    ensures listing == BookList([], 0, 1, 10, false)
  {
    var store := new Catalog();
    created := CreateDune(store, currentYear, t0);
    duplicate := CreateDuneAgain(store, currentYear, t0);
    updated := UpdateDunePages(store, t0, t1);
    deleted := store.Delete(1);
    lookup := store.Get(1);
    listing := ListEmpty(store);
  }

  method CreateDune(store: Catalog, currentYear: int, t0: Timestamp) returns (created: Result<Book, StoreError>)
    requires store.Valid() && store.books == [] && store.nextId == 1
    requires currentYear >= 1965
    modifies store
    ensures store.Valid() && store.books == [DuneRecord(t0)] && store.nextId == 2
    ensures created == Ok(DuneRecord(t0))
  {
    DuneValidates(currentYear);
    created := store.Create(DUNE, currentYear, t0);
  }

  method CreateDuneAgain(store: Catalog, currentYear: int, t0: Timestamp) returns (duplicate: Result<Book, StoreError>)
    requires store.Valid() && store.books == [DuneRecord(t0)]
    requires currentYear >= 1965
    modifies store
    ensures store.Valid() && store.books == [DuneRecord(t0)]
    ensures duplicate == Err(Conflict("9780441013593"))
  {
    DuneValidates(currentYear);
    assert IsbnTaken(store.books, "9780441013593", 0) by {
      assert store.books[0].isbn == Some("9780441013593");
    }
    duplicate := store.Create(DUNE, currentYear, t0);
  }

  method UpdateDunePages(store: Catalog, t0: Timestamp, t1: Timestamp) returns (updated: Result<Book, StoreError>)
    requires store.Valid() && store.books == [DuneRecord(t0)]
    modifies store
    ensures store.Valid() && store.books == [DuneRecord(t0).(pages := 500, updatedAt := Some(t1))]
    ensures updated == Ok(DuneRecord(t0).(pages := 500, updatedAt := Some(t1)))
  {
    PagesUpdateValidates();
    assert IndexOf(store.books, 1) == Some(0);
    updated := store.Update(1, UpdateInput(None, None, None, None, Some(500), Unset), t1);
  }

  /** The listing of the store with the default query parameters, once the store is empty. */
  method ListEmpty(store: Catalog) returns (listing: BookList)
    requires store.books == []
    ensures listing == BookList([], 0, 1, 10, false)
  {
    listing := store.List(BookQuery(0, 10, Filters(None, None, None)));
  }
}
