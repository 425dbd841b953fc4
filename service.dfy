/**
  BookService: the catalog service over a BookRepository. Each mutator is
  proved to leave the repository in the state, and to return the outcome,
  that the matching function of module Catalog gives; where Java throws, the
  model returns `Err` with the error kind.
*/
module Service {
  import opened Books
  import opened BookStore
  import opened Repository
  import Catalog

  class BookService {
    const repo: BookRepository

    /** The repository is keyed and every stored book has a title and an author. */
    ghost predicate Valid()
      reads this, repo
    {
      repo.Valid() && Catalog.Catalogued(repo.State())
    }

    constructor (repository: BookRepository)
      ensures repo == repository
    {
      repo := repository;
    }

    method GetAllBooks() returns (r: seq<Book>)
      ensures Gathers(r, repo.books, repo.books.Keys)
    {
      r := repo.FindAll();
    }

    method GetBookById(id: int) returns (r: Option<Book>)
      ensures r.Some? <==> id in repo.books
      ensures r.Some? ==> r.value == repo.books[id]
    {
      r := repo.FindById(id);
    }

    /** See Catalog.CreateBook. */
    method CreateBook(b: Book) returns (r: Result<Book>)
      requires Valid()
      modifies repo
      ensures Valid()
      ensures (repo.State(), r) == Catalog.CreateBook(old(repo.State()), b)
    {
      Catalog.CreatePreserves(repo.State(), b);
      if Catalog.IsMissing(b.title) {
        return Err(Invalid);
      }
      if Catalog.IsMissing(b.author) {
        return Err(Invalid);
      }
      var book := b;
      if book.available.None? {
        book := book.(available := Some(true));
      }
      var saved := repo.Save(book);
      return Ok(saved);
    }

    /** See Catalog.UpdateBook. */
    method UpdateBook(id: int, b: Book) returns (r: Result<Book>)
      requires Valid()
      modifies repo
      ensures Valid()
      ensures (repo.State(), r) == Catalog.UpdateBook(old(repo.State()), id, b)
    {
      Catalog.UpdatePreserves(repo.State(), id, b);
      var known := repo.ExistsById(id);
      if !known {
        return Err(NotFound);
      }
      if Catalog.IsMissing(b.title) || Catalog.IsMissing(b.author) {
        return Err(Invalid);
      }
      var stored := repo.Update(id, b);
      return Ok(stored.value);
    }

    /** See Catalog.DeleteBook. */
    method DeleteBook(id: int) returns (r: Result<bool>)
      requires Valid()
      modifies repo
      ensures Valid()
      ensures (repo.State(), r) == Catalog.DeleteBook(old(repo.State()), id)
    {
      Catalog.DeletePreserves(repo.State(), id);
      var present := repo.ExistsById(id);
      if !present {
        return Err(NotFound);
      }
      var deleted := repo.DeleteById(id);
      return Ok(deleted);
    }

    /**
      A blank or null query is rejected; otherwise the repository's author
      search. On a valid service no stored author is null, so it succeeds.
    */
    method SearchBooksByAuthor(q: Option<string>) returns (r: Result<seq<Book>>)
      ensures Catalog.IsMissing(q) ==> r == Err(Invalid)
      ensures !Catalog.IsMissing(q) ==>
        && (r.Err? <==> exists k :: k in repo.books && repo.books[k].author.None?)
        && (r.Err? ==> r.error == NullPointer)
        && (r.Ok? ==> Gathers(r.value, repo.books, AuthorIds(repo.books, q.value)))
      ensures Valid() && !Catalog.IsMissing(q) ==> r.Ok?
    {
      if Catalog.IsMissing(q) {
        return Err(Invalid);
      }
      r := repo.FindByAuthor(q.value);
    }

    method GetAvailableBooks() returns (r: Result<seq<Book>>)
      ensures r.Err? <==> exists k :: k in repo.books && repo.books[k].available.None?
      ensures r.Err? ==> r.error == NullPointer
      ensures r.Ok? ==> Gathers(r.value, repo.books, AvailableIds(repo.books))
    {
      r := repo.FindAvailableBooks();
    }

    /** See Catalog.BorrowBook. */
    method BorrowBook(id: int) returns (r: Result<Book>)
      requires Valid()
      modifies repo
      ensures Valid()
      ensures (repo.State(), r) == Catalog.BorrowBook(old(repo.State()), id)
    {
      Catalog.BorrowPreserves(repo.State(), id);
      var found := repo.FindById(id);
      if found.None? {
        return Err(NotFound);
      }
      var book := found.value;
      if book.available.None? {
        return Err(NullPointer);
      }
      if !book.available.value {
        return Err(Conflict);
      }
      book := book.(available := Some(false));
      var stored := repo.Update(id, book);
      return Ok(stored.value);
    }

    /** See Catalog.ReturnBook. */
    method ReturnBook(id: int) returns (r: Result<Book>)
      requires Valid()
      modifies repo
      ensures Valid()
      ensures (repo.State(), r) == Catalog.ReturnBook(old(repo.State()), id)
    {
      Catalog.ReturnPreserves(repo.State(), id);
      var found := repo.FindById(id);
      if found.None? {
        return Err(NotFound);
      }
      var book := found.value;
      if book.available.None? {
        return Err(NullPointer);
      }
      if book.available.value {
        return Err(Conflict);
      }
      book := book.(available := Some(true));
      var stored := repo.Update(id, book);
      return Ok(stored.value);
    }
  }

  /**
    A service wired to a fresh repository is valid, and borrowing book 1 twice
    gives a success and then a conflict.
  */
  method SeededService() returns (first: Result<Book>, second: Result<Book>)
    ensures first.Ok? && first.value.id == Some(1) && first.value.available == Some(false)
    ensures second == Err(Conflict)
  {
    var repository := new BookRepository();
    Catalog.SeedCatalogued();
    var service := new BookService(repository);
    first := service.BorrowBook(1);
    second := service.BorrowBook(1);
  }
}
