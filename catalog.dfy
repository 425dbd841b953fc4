/**
  The catalog service's business rules as functions of the store value:
  field validation, the existence checks before update and delete, the
  `available` default on creation, and the two-state availability machine
  (Available and Borrowed) behind borrow and return. Module Service proves
  its class does exactly this; the lemmas below state what the rules promise
  across several calls.
*/
module Catalog {
  import opened Text
  import opened Books
  import opened BookStore

  /**
    `s == null || s.trim().isEmpty()`: a field is missing exactly when it is
    null or made only of trimmable characters.
  */
  predicate IsMissing(s: Option<string>)
    ensures IsMissing(s) <==> (s.None? || IsBlank(s.value))
  {
    if s.None? then true else TrimEmptyIffBlank(s.value); Trim(s.value) == []
  }

  /** The title and author checks of createBook and updateBook. */
  predicate HasRequiredFields(b: Book) {
    !IsMissing(b.title) && !IsMissing(b.author)
  }

  /** A string whose two ends are not trimmable is a present field. */
  lemma InnerTextPresent(s: string)
    requires s != [] && !IsSpace(s[0]) && !IsSpace(s[|s| - 1])
    ensures !IsMissing(Some(s))
  {
    TrimKeepsInner(s);
  }

  /**
    What every state reachable through the service satisfies: each stored book
    carries its key as id and has a title and an author that are not blank.
    (`available` may be null: updateBook stores the payload's flag as given.)
  */
  ghost predicate Catalogued(s: Store) {
    && Keyed(s.books)
    && forall k :: k in s.books ==> HasRequiredFields(s.books[k])
  }

  /** createBook: validate, default `available` to true, then save. */
  function CreateBook(s: Store, b: Book): (r: (Store, Result<Book>))
    ensures r.1.Err? <==> !HasRequiredFields(b)
    ensures r.1.Err? ==> r == (s, Err(Invalid))
    ensures r.1.Ok? ==>
      var saved := r.1.value;
      && saved.title == b.title && saved.author == b.author
      && saved.isbn == b.isbn && saved.publicationYear == b.publicationYear
      && saved.available == (if b.available.None? then Some(true) else b.available)
      && saved.id == (if b.id.None? then Some(s.nextId) else b.id)
      && FindById(r.0, saved.id.value) == Some(saved)
      && r.0.books.Keys == s.books.Keys + {saved.id.value}
      && (forall k :: k in s.books && k != saved.id.value ==> r.0.books[k] == s.books[k])
      && r.0.nextId == s.nextId + (if b.id.None? then 1 else 0)
  {
    if IsMissing(b.title) || IsMissing(b.author) then
      (s, Err(Invalid))
    else
      var defaulted := if b.available.None? then b.(available := Some(true)) else b;
      var (t, saved) := Save(s, defaulted);
      (t, Ok(saved))
  }

  /**
    updateBook: an unknown id is reported before the fields are looked at;
    then title and author are validated; then the entry is replaced with its
    id forced to `id`.
  */
  function UpdateBook(s: Store, id: int, b: Book): (r: (Store, Result<Book>))
    ensures id !in s.books ==> r == (s, Err(NotFound))
    ensures id in s.books && !HasRequiredFields(b) ==> r == (s, Err(Invalid))
    ensures id in s.books && HasRequiredFields(b) ==>
      r.1 == Ok(b.(id := Some(id))) && Replaced(s, r.0, id, r.1.value)
  {
    if id !in s.books then
      (s, Err(NotFound))
    else if IsMissing(b.title) || IsMissing(b.author) then
      (s, Err(Invalid))
    else
      var (t, stored) := Update(s, id, b);
      (t, Ok(stored.value))
  }

  /** deleteBook: an unknown id is reported, a known one is removed. */
  function DeleteBook(s: Store, id: int): (r: (Store, Result<bool>))
    ensures id !in s.books ==> r == (s, Err(NotFound))
    ensures id in s.books ==> r.1 == Ok(true)
    ensures id in s.books ==> r.0.books.Keys == s.books.Keys - {id} && r.0.nextId == s.nextId
    ensures forall k :: k in r.0.books ==> r.0.books[k] == s.books[k]
  {
    if id !in s.books then
      (s, Err(NotFound))
    else
      var (t, deleted) := DeleteById(s, id);
      (t, Ok(deleted))
  }

  /**
    borrowBook: Available --borrow--> Borrowed. Borrowing a borrowed book is a
    conflict, not a no-op; a null flag fails when it is unboxed.
  */
  function BorrowBook(s: Store, id: int): (r: (Store, Result<Book>))
    ensures id !in s.books ==> r == (s, Err(NotFound))
    ensures id in s.books && s.books[id].available.None? ==> r == (s, Err(NullPointer))
    ensures id in s.books && s.books[id].available == Some(false) ==> r == (s, Err(Conflict))
    ensures id in s.books && s.books[id].available == Some(true) ==>
      r.1 == Ok(s.books[id].(id := Some(id), available := Some(false)))
      && Replaced(s, r.0, id, r.1.value)
  {
    match FindById(s, id)
    case None => (s, Err(NotFound))
    case Some(b) =>
      if b.available.None? then
        (s, Err(NullPointer))
      else if !b.available.value then
        (s, Err(Conflict))
      else
        var (t, stored) := Update(s, id, b.(available := Some(false)));
        (t, Ok(stored.value))
  }

  /**
    returnBook: Borrowed --return--> Available. Returning an available book is
    a conflict, not a no-op; a null flag fails when it is unboxed.
  */
  function ReturnBook(s: Store, id: int): (r: (Store, Result<Book>))
    ensures id !in s.books ==> r == (s, Err(NotFound))
    ensures id in s.books && s.books[id].available.None? ==> r == (s, Err(NullPointer))
    ensures id in s.books && s.books[id].available == Some(true) ==> r == (s, Err(Conflict))
    ensures id in s.books && s.books[id].available == Some(false) ==>
      r.1 == Ok(s.books[id].(id := Some(id), available := Some(true)))
      && Replaced(s, r.0, id, r.1.value)
  {
    match FindById(s, id)
    case None => (s, Err(NotFound))
    case Some(b) =>
      if b.available.None? then
        (s, Err(NullPointer))
      else if b.available.value then
        (s, Err(Conflict))
      else
        var (t, stored) := Update(s, id, b.(available := Some(true)));
        (t, Ok(stored.value))
  }

  /** A created book is found again under its id with the fields it was given. */
  lemma CreateThenFind(s: Store, b: Book)
    requires HasRequiredFields(b) && b.id.None?
    ensures
      var (t, r) := CreateBook(s, b);
      && r == Ok(b.(id := Some(s.nextId), available := r.value.available))
      && FindById(t, s.nextId) == Some(r.value)
      && t.nextId == s.nextId + 1
  {
  }

  /** A creation request that already carries a stored id replaces that book. */
  lemma CreateWithStoredIdOverwrites(s: Store, b: Book)
    requires HasRequiredFields(b) && b.id.Some? && b.id.value in s.books
    ensures
      var (t, r) := CreateBook(s, b);
      && r.Ok? && t.books.Keys == s.books.Keys && t.nextId == s.nextId
      && t.books[b.id.value] == r.value
  {
  }

  /**
    The counter does not skip ids a client chose: after a creation request that
    carries the counter's own value as id, the next creation without an id is
    handed that same id and replaces the first book.
  */
  lemma PresetIdAtCounterIsOverwritten(s: Store, x: Book, y: Book)
    requires HasRequiredFields(x) && x.id == Some(s.nextId)
    requires HasRequiredFields(y) && y.id.None?
    ensures
      var (t, rx) := CreateBook(s, x);
      var (u, ry) := CreateBook(t, y);
      && rx.Ok? && s.nextId in t.books && t.nextId == s.nextId
      && ry.Ok? && ry.value.id == Some(s.nextId)
      && u.books.Keys == t.books.Keys && u.books[s.nextId] == ry.value
  {
  }

  /** Deleting a present book succeeds once; the second delete reports NotFound. */
  lemma DeleteTwice(s: Store, id: int)
    requires id in s.books
    ensures
      var (t, r) := DeleteBook(s, id);
      && r == Ok(true) && FindById(t, id).None?
      && DeleteBook(t, id) == (t, Err(NotFound))
  {
  }

  /** Two borrows in a row: the first succeeds, the second is a conflict. */
  lemma BorrowTwiceConflicts(s: Store, id: int)
    requires id in s.books && s.books[id].available == Some(true)
    ensures
      var (t, r) := BorrowBook(s, id);
      && r.Ok? && t.books[id].available == Some(false)
      && BorrowBook(t, id) == (t, Err(Conflict))
  {
  }

  /** Two returns in a row: the first succeeds, the second is a conflict. */
  lemma ReturnTwiceConflicts(s: Store, id: int)
    requires id in s.books && s.books[id].available == Some(false)
    ensures
      var (t, r) := ReturnBook(s, id);
      && r.Ok? && t.books[id].available == Some(true)
      && ReturnBook(t, id) == (t, Err(Conflict))
  {
  }

  /** Borrowing and then returning a book gives back the very same store. */
  lemma BorrowThenReturnRestores(s: Store, id: int)
    requires Keyed(s.books) && id in s.books && s.books[id].available == Some(true)
    ensures
      var (t, r) := BorrowBook(s, id);
      r.Ok? && ReturnBook(t, id) == (s, Ok(s.books[id]))
  {
    var (t, r) := BorrowBook(s, id);
    assert t.books == s.books[id := r.value];
    assert s.books[id] == r.value.(available := Some(true));
    assert t.books[id := s.books[id]] == s.books;
  }

  /** Returning and then borrowing a book gives back the very same store. */
  lemma ReturnThenBorrowRestores(s: Store, id: int)
    requires Keyed(s.books) && id in s.books && s.books[id].available == Some(false)
    ensures
      var (t, r) := ReturnBook(s, id);
      r.Ok? && BorrowBook(t, id) == (s, Ok(s.books[id]))
  {
    var (t, r) := ReturnBook(s, id);
    assert t.books == s.books[id := r.value];
    assert s.books[id] == r.value.(available := Some(false));
    assert t.books[id := s.books[id]] == s.books;
  }

  /** One call of a mutating service operation. */
  datatype Request =
    | Create(book: Book)
    | Modify(id: int, book: Book)
    | Delete(id: int)
    | Borrow(id: int)
    | Return(id: int)

  /** The store after handling `q`. */
  function Handle(s: Store, q: Request): Store {
    match q
    case Create(b) => CreateBook(s, b).0
    case Modify(id, b) => UpdateBook(s, id, b).0
    case Delete(id) => DeleteBook(s, id).0
    case Borrow(id) => BorrowBook(s, id).0
    case Return(id) => ReturnBook(s, id).0
  }

  /** The store after handling the requests in order. */
  function Run(s: Store, qs: seq<Request>): Store
    decreases |qs|
  {
    if qs == [] then s else Run(Handle(s, qs[0]), qs[1..])
  }

  /** The ids the counter hands out while the requests are handled. */
  function Issued(s: Store, qs: seq<Request>): set<int>
    decreases |qs|
  {
    if qs == [] then {}
    else
      var here := if qs[0].Create? && HasRequiredFields(qs[0].book) && qs[0].book.id.None?
                  then {s.nextId} else {};
      here + Issued(Handle(s, qs[0]), qs[1..])
  }

  /** The catalog invariant only looks at a book's id, title and author. */
  lemma SameFieldsSameCheck(a: Book, b: Book)
    requires a.title == b.title && a.author == b.author
    ensures HasRequiredFields(a) == HasRequiredFields(b)
  {
  }

  /**
    Replacing one entry of a catalogued store by a book with the right id and
    with the required fields keeps it catalogued.
  */
  lemma ReplacedCatalogued(s: Store, t: Store, id: int, b: Book)
    requires Catalogued(s) && Replaced(s, t, id, b)
    requires b.id == Some(id) && HasRequiredFields(b)
    ensures Catalogued(t)
  {
    forall k | k in t.books ensures t.books[k].id == Some(k) && HasRequiredFields(t.books[k]) {
      if k != id {
        assert t.books[k] == s.books[k];
      }
    }
  }

  lemma CreatePreserves(s: Store, b: Book)
    requires Catalogued(s)
    ensures Catalogued(CreateBook(s, b).0)
  {
    var (t, r) := CreateBook(s, b);
    if r.Ok? {
      var key := r.value.id.value;
      SameFieldsSameCheck(r.value, b);
      forall k | k in t.books ensures t.books[k].id == Some(k) && HasRequiredFields(t.books[k]) {
        if k != key {
          assert t.books[k] == s.books[k];
        }
      }
    }
  }

  lemma UpdatePreserves(s: Store, id: int, b: Book)
    requires Catalogued(s)
    ensures Catalogued(UpdateBook(s, id, b).0)
  {
    var (t, r) := UpdateBook(s, id, b);
    if r.Ok? {
      SameFieldsSameCheck(r.value, b);
      ReplacedCatalogued(s, t, id, r.value);
    }
  }

  lemma DeletePreserves(s: Store, id: int)
    requires Catalogued(s)
    ensures Catalogued(DeleteBook(s, id).0)
  {
  }

  lemma BorrowPreserves(s: Store, id: int)
    requires Catalogued(s)
    ensures Catalogued(BorrowBook(s, id).0)
  {
    var (t, r) := BorrowBook(s, id);
    if r.Ok? {
      SameFieldsSameCheck(r.value, s.books[id]);
      ReplacedCatalogued(s, t, id, r.value);
    }
  }

  lemma ReturnPreserves(s: Store, id: int)
    requires Catalogued(s)
    ensures Catalogued(ReturnBook(s, id).0)
  {
    var (t, r) := ReturnBook(s, id);
    if r.Ok? {
      SameFieldsSameCheck(r.value, s.books[id]);
      ReplacedCatalogued(s, t, id, r.value);
    }
  }

  /** Each request keeps the catalog invariant. */
  lemma HandleCatalogued(s: Store, q: Request)
    requires Catalogued(s)
    ensures Catalogued(Handle(s, q))
  {
    match q
    case Create(b) => CreatePreserves(s, b);
    case Modify(id, b) => UpdatePreserves(s, id, b);
    case Delete(id) => DeletePreserves(s, id);
    case Borrow(id) => BorrowPreserves(s, id);
    case Return(id) => ReturnPreserves(s, id);
  }

  /** Only a valid creation without an id moves the counter, and by one. */
  lemma HandleCounter(s: Store, q: Request)
    ensures Handle(s, q).nextId == s.nextId + (if q.Create? && HasRequiredFields(q.book) && q.book.id.None? then 1 else 0)
  {
  }

  /** Each request keeps the catalog invariant and moves the counter only when it creates without an id. */
  lemma HandlePreserves(s: Store, q: Request)
    requires Catalogued(s)
    ensures Catalogued(Handle(s, q))
    ensures Handle(s, q).nextId == s.nextId + (if q.Create? && HasRequiredFields(q.book) && q.book.id.None? then 1 else 0)
  {
    HandleCatalogued(s, q);
    HandleCounter(s, q);
  }

  /** Over any sequence of requests the catalog invariant holds throughout. */
  lemma {:induction false} RunCatalogued(s: Store, qs: seq<Request>)
    requires Catalogued(s)
    ensures Catalogued(Run(s, qs))
    decreases |qs|
  {
    if qs != [] {
      HandleCatalogued(s, qs[0]);
      RunCatalogued(Handle(s, qs[0]), qs[1..]);
    }
  }

  /**
    Over any sequence of requests the counter only grows, and the ids it hands
    out are distinct and lie between its old and its new value.
  */
  lemma {:induction false} RunCounter(s: Store, qs: seq<Request>)
    ensures Run(s, qs).nextId >= s.nextId
    ensures forall i :: i in Issued(s, qs) ==> s.nextId <= i < Run(s, qs).nextId
    ensures |Issued(s, qs)| == Run(s, qs).nextId - s.nextId
    decreases |qs|
  {
    if qs != [] {
      var t := Handle(s, qs[0]);
      HandleCounter(s, qs[0]);
      RunCounter(t, qs[1..]);
      var here := if qs[0].Create? && HasRequiredFields(qs[0].book) && qs[0].book.id.None?
                  then {s.nextId} else {};
      assert here !! Issued(t, qs[1..]);
    }
  }

  /**
    Over any sequence of requests the catalog invariant holds throughout, the
    counter only grows, and every id it hands out lies between its old and its
    new value: the counter never repeats an id it has handed out, deleted or not.
  */
  lemma RunPreserves(s: Store, qs: seq<Request>)
    requires Catalogued(s)
    ensures Catalogued(Run(s, qs))
    ensures Run(s, qs).nextId >= s.nextId
    ensures forall i :: i in Issued(s, qs) ==> s.nextId <= i < Run(s, qs).nextId
    ensures |Issued(s, qs)| == Run(s, qs).nextId - s.nextId
  {
    RunCatalogued(s, qs);
    RunCounter(s, qs);
  }

  /** The seeded store satisfies the catalog invariant. */
  lemma SeedCatalogued()
    ensures Catalogued(Seed())
  {
    var s := Seed();
    forall k | k in s.books ensures HasRequiredFields(s.books[k]) {
      var b := s.books[k];
      InnerTextPresent(b.title.value);
      InnerTextPresent(b.author.value);
    }
  }

  /** Seed: books 1 and 2 are available, book 3 is not. */
  lemma SeedAvailable()
    ensures AvailableIds(Seed().books) == {1, 2}
  {
  }

  /** Seed: returning book 3 succeeds and makes it available; a second return is a conflict. */
  lemma SeedReturnThree()
    ensures
      var (t, r) := ReturnBook(Seed(), 3);
      && r.Ok? && r.value.available == Some(true)
      && AvailableIds(t.books) == {1, 2, 3}
      && ReturnBook(t, 3).1 == Err(Conflict)
  {
  }

  /** Seed: "lee" finds Harper Lee, whatever the case of either string. */
  lemma SeedSearchLee()
    ensures 2 in AuthorIds(Seed().books, "lee")
  {
    LeeOccursInHarperLee("Harper Lee", "lee");
    assert Seed().books[2].author == Some("Harper Lee");
  }

  lemma LeeOccursInHarperLee(author: string, q: string)
    requires author == "Harper Lee" && q == "lee"
    ensures Contains(ToLower(author), ToLower(q))
  {
    var lowered, needle := ToLower(author), ToLower(q);
    assert |needle| == 3 && needle[0] == 'l' && needle[1] == 'e' && needle[2] == 'e';
    assert lowered[7] == 'l' && lowered[8] == 'e' && lowered[9] == 'e';
    assert lowered[7..10] == needle;
    assert OccursAt(lowered, needle, 7);
  }

  /**
    Seed: the first valid book created without an id or an `available` flag
    gets id 4 and is stored as available.
  */
  lemma SeedFirstCreate(b: Book)
    requires HasRequiredFields(b) && b.id.None? && b.available.None?
    ensures
      var (t, r) := CreateBook(Seed(), b);
      && r == Ok(b.(id := Some(4), available := Some(true)))
      && t.nextId == 5 && t.books.Keys == {1, 2, 3, 4}
  {
  }
}
