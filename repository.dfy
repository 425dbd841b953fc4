/**
  BookRepository: the table from id to book and the id counter, updated in
  place. Each mutator is proved to do to the fields what the matching
  function of module BookStore does to a store value; each query loop is
  proved to list exactly the selected books (in HashMap order, which the
  contracts leave open).
*/
module Repository {
  import opened Text
  import opened Books
  import opened BookStore

  class BookRepository {
    /** `bookDatabase` */
    var books: map<int, Book>
    /** `idGenerator`: the id the next book saved without one receives. */
    var nextId: int

    /** The two fields as one store value. */
    function State(): Store
      reads this
    {
      Store(books, nextId)
    }

    /** Every stored book carries its key as id. */
    ghost predicate Valid()
      reads this
    {
      Keyed(books)
    }

    /** The repository starts with the three seeded books and counter 4. */
    constructor ()
      ensures Valid() && State() == Seed()
    {
      books := Seed().books;
      nextId := Seed().nextId;
    }

    /** A copy of every stored book: `new ArrayList<>(bookDatabase.values())`. */
    method FindAll() returns (r: seq<Book>)
      ensures Gathers(r, books, books.Keys)
      ensures |r| == |books|
    {
      r := [];
      var rest := books.Keys;
      ghost var done: set<int> := {};
      GathersEmpty(books);
      while rest != {}
        invariant done + rest == books.Keys && done !! rest
        invariant Gathers(r, books, done)
        decreases rest
      {
        // a witness for the pick below
        ghost var some := Member(rest);
        var k :| k in rest;
        GathersAdd(r, books, done, k);
        r := r + [books[k]];
        done, rest := done + {k}, rest - {k};
      }
      assert done == books.Keys;
    }

    method FindById(id: int) returns (r: Option<Book>)
      ensures r.Some? <==> id in books
      ensures r.Some? ==> r.value == books[id]
    {
      r := if id in books then Some(books[id]) else None;
    }

    /** See BookStore.Save: a book without an id takes the counter's value. */
    method Save(b: Book) returns (saved: Book)
      requires Valid()
      modifies this
      ensures Valid()
      ensures (State(), saved) == BookStore.Save(old(State()), b)
    {
      saved := b;
      if saved.id.None? {
        saved := saved.(id := Some(nextId));
        nextId := nextId + 1;
      }
      books := books[saved.id.value := saved];
    }

    /** See BookStore.Update: replaces a present entry, forcing its id. */
    method Update(id: int, b: Book) returns (r: Option<Book>)
      requires Valid()
      modifies this
      ensures Valid()
      ensures (State(), r) == BookStore.Update(old(State()), id, b)
    {
      if id in books {
        var stored := b.(id := Some(id));
        books := books[id := stored];
        return Some(stored);
      }
      return None;
    }

    /** See BookStore.DeleteById. */
    method DeleteById(id: int) returns (deleted: bool)
      requires Valid()
      modifies this
      ensures Valid()
      ensures (State(), deleted) == BookStore.DeleteById(old(State()), id)
    {
      if id in books {
        books := books - {id};
        return true;
      }
      return false;
    }

    method ExistsById(id: int) returns (r: bool)
      ensures r <==> id in books
    {
      r := id in books;
    }

    /**
      The stored books whose lower-cased author contains the lower-cased query.
      Since the loop lower-cases every stored author, a single null author makes
      the whole call fail.
    */
    method FindByAuthor(q: string) returns (r: Result<seq<Book>>)
      ensures r.Err? <==> exists k :: k in books && books[k].author.None?
      ensures r.Err? ==> r.error == NullPointer
      ensures r.Ok? ==> Gathers(r.value, books, AuthorIds(books, q))
    {
      var found := [];
      var rest := books.Keys;
      ghost var done: set<int> := {};
      GathersEmpty(books);
      while rest != {}
        invariant done + rest == books.Keys && done !! rest
        invariant forall k :: k in done ==> books[k].author.Some?
        invariant Gathers(found, books, AuthorIds(books, q) * done)
        decreases rest
      {
        // a witness for the pick below
        ghost var some := Member(rest);
        var k :| k in rest;
        var b := books[k];
        if b.author.None? {
          return Err(NullPointer);
        }
        GathersStep(found, books, AuthorIds(books, q), done, k);
        if AuthorMatches(b, q) {
          found := found + [b];
        }
        done, rest := done + {k}, rest - {k};
      }
      ScanComplete(AuthorIds(books, q), done);
      return Ok(found);
    }

    /**
      The stored books whose `available` flag is true. Unboxing a null flag
      makes the whole call fail.
    */
    method FindAvailableBooks() returns (r: Result<seq<Book>>)
      ensures r.Err? <==> exists k :: k in books && books[k].available.None?
      ensures r.Err? ==> r.error == NullPointer
      ensures r.Ok? ==> Gathers(r.value, books, AvailableIds(books))
    {
      var found := [];
      var rest := books.Keys;
      ghost var done: set<int> := {};
      GathersEmpty(books);
      while rest != {}
        invariant done + rest == books.Keys && done !! rest
        invariant forall k :: k in done ==> books[k].available.Some?
        invariant Gathers(found, books, AvailableIds(books) * done)
        decreases rest
      {
        // a witness for the pick below
        ghost var some := Member(rest);
        var k :| k in rest;
        var b := books[k];
        if b.available.None? {
          return Err(NullPointer);
        }
        GathersStep(found, books, AvailableIds(books), done, k);
        if b.available.value {
          found := found + [b];
        }
        done, rest := done + {k}, rest - {k};
      }
      ScanComplete(AvailableIds(books), done);
      return Ok(found);
    }
  }
}
