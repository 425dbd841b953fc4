/**
  The in-memory book store as a value: the table from id to book and the id
  counter. The functions here say what each repository operation does to
  that value; the class in module Repository is proved to do exactly this.
*/
module BookStore {
  import opened Text
  import opened Books

  /** The repository's two fields: `bookDatabase` and `idGenerator`. */
  datatype Store = Store(books: map<int, Book>, nextId: int)

  /** Every stored book carries its own key as its id. */
  ghost predicate Keyed(m: map<int, Book>) {
    forall k :: k in m ==> m[k].id == Some(k)
  }

  /** The three seeded books and a counter that starts just past them. */
  function Seed(): (s: Store)
    ensures s.books.Keys == {1, 2, 3} && s.nextId == 4
    ensures Keyed(s.books)
    ensures s.books[1].available == Some(true)
    ensures s.books[2].available == Some(true)
    ensures s.books[3].available == Some(false)
  {
    Store(
      map[
        1 := Book(Some(1), Some("The Great Gatsby"), Some("F. Scott Fitzgerald"), Some("978-0-7432-7356-5"), Some(1925), Some(true)),
        2 := Book(Some(2), Some("To Kill a Mockingbird"), Some("Harper Lee"), Some("978-0-06-112008-4"), Some(1960), Some(true)),
        3 := Book(Some(3), Some("1984"), Some("George Orwell"), Some("978-0-452-28423-4"), Some(1949), Some(false))],
      4)
  }

  /** Lookup by id; absence is a normal answer. */
  function FindById(s: Store, id: int): (r: Option<Book>)
    ensures r.Some? <==> id in s.books
    ensures r.Some? ==> r.value == s.books[id]
  {
    if id in s.books then Some(s.books[id]) else None
  }

  /**
    Stores `b`. A book without an id takes the counter's current value and the
    counter moves on by one; a book with an id overwrites that entry and leaves
    the counter alone. Returns the stored book.
  */
  function Save(s: Store, b: Book): (r: (Store, Book))
    ensures b.id.None? ==> r.1 == b.(id := Some(s.nextId)) && r.0.nextId == s.nextId + 1
    ensures b.id.Some? ==> r.1 == b && r.0.nextId == s.nextId
    ensures r.1.id.Some? && r.0.books.Keys == s.books.Keys + {r.1.id.value}
    ensures r.0.books[r.1.id.value] == r.1
    ensures forall k :: k in s.books && k != r.1.id.value ==> r.0.books[k] == s.books[k]
  {
    var saved := if b.id.None? then b.(id := Some(s.nextId)) else b;
    var next := if b.id.None? then s.nextId + 1 else s.nextId;
    (Store(s.books[saved.id.value := saved], next), saved)
  }

  /** `t` is `s` with the entry at `id` (which stays a key) replaced by `b`. */
  ghost predicate Replaced(s: Store, t: Store, id: int, b: Book) {
    && t.nextId == s.nextId
    && t.books.Keys == s.books.Keys
    && id in t.books && t.books[id] == b
    && forall k :: k in s.books && k != id ==> t.books[k] == s.books[k]
  }

  /**
    Replaces the entry at `id`, forcing the payload's id to `id`, when `id` is
    stored; otherwise reports absence and changes nothing.
  */
  function Update(s: Store, id: int, b: Book): (r: (Store, Option<Book>))
    ensures id !in s.books ==> r == (s, None)
    ensures id in s.books ==> r.1 == Some(b.(id := Some(id))) && Replaced(s, r.0, id, r.1.value)
  {
    if id in s.books then
      var stored := b.(id := Some(id));
      (Store(s.books[id := stored], s.nextId), Some(stored))
    else
      (s, None)
  }

  /** Removes `id`; the answer says whether it was there. */
  function DeleteById(s: Store, id: int): (r: (Store, bool))
    ensures r.1 <==> id in s.books
    ensures r.0.books.Keys == s.books.Keys - {id} && r.0.nextId == s.nextId
    ensures forall k :: k in r.0.books ==> r.0.books[k] == s.books[k]
    ensures !r.1 ==> r.0 == s
  {
    if id in s.books then (Store(s.books - {id}, s.nextId), true) else (s, false)
  }

  /** The keys among `ks` at which `m` holds `b`. */
  ghost function Holding(m: map<int, Book>, ks: set<int>, b: Book): set<int> {
    set k | k in ks && k in m && m[k] == b
  }

  /**
    `r` lists the books `m` holds at the keys `ks`, each as many times as it is
    held there, in no particular order (the order of HashMap.values()).
  */
  ghost predicate Gathers(r: seq<Book>, m: map<int, Book>, ks: set<int>) {
    |r| == |ks| && forall b :: multiset(r)[b] == |Holding(m, ks, b)|
  }

  /** The books held at `ks`, as a set. */
  ghost function ValuesAt(m: map<int, Book>, ks: set<int>): set<Book> {
    set k | k in ks && k in m :: m[k]
  }

  /** Ids of the stored books whose `available` flag is true. */
  ghost function AvailableIds(m: map<int, Book>): set<int> {
    set k | k in m && m[k].available == Some(true)
  }

  /**
    The author test of `findByAuthor`: case-insensitive substring match. A
    book without an author never matches; an author that contains the query
    as written matches.
  */
  predicate AuthorMatches(b: Book, q: string)
    ensures AuthorMatches(b, q) ==> b.author.Some?
    ensures b.author.Some? && Contains(b.author.value, q) ==> AuthorMatches(b, q)
  {
    b.author.Some? && (ContainsLowered(b.author.value, q); Contains(ToLower(b.author.value), ToLower(q)))
  }

  /** Ids of the stored books whose author matches `q`. */
  ghost function AuthorIds(m: map<int, Book>, q: string): set<int> {
    set k | k in m && AuthorMatches(m[k], q)
  }

  /** The lookup of `findByAuthor` ignores the case of its query. */
  lemma AuthorIdsIgnoreQueryCase(m: map<int, Book>, q: string)
    ensures AuthorIds(m, ToLower(q)) == AuthorIds(m, q)
  {
    ToLowerIdempotent(q);
    forall k | k in m ensures AuthorMatches(m[k], ToLower(q)) == AuthorMatches(m[k], q) {
    }
  }

  /** What `findByAuthor` lists, `findAll` lists too. */
  lemma AuthorResultsWithinAll(byAuthor: seq<Book>, all: seq<Book>, m: map<int, Book>, q: string)
    requires Gathers(byAuthor, m, AuthorIds(m, q)) && Gathers(all, m, m.Keys)
    ensures multiset(byAuthor) <= multiset(all)
  {
    GathersSubset(byAuthor, all, m, AuthorIds(m, q), m.Keys);
  }

  /** Listing `ks` and then one more key `k` lists `ks + {k}`. */
  lemma GathersAdd(r: seq<Book>, m: map<int, Book>, ks: set<int>, k: int)
    requires Gathers(r, m, ks) && k in m && k !in ks
    ensures Gathers(r + [m[k]], m, ks + {k})
  {
    var r' := r + [m[k]];
    assert multiset(r') == multiset(r) + multiset{m[k]};
    forall b ensures multiset(r')[b] == |Holding(m, ks + {k}, b)| {
      if b == m[k] {
        assert Holding(m, ks + {k}, b) == Holding(m, ks, b) + {k};
      } else {
        assert Holding(m, ks + {k}, b) == Holding(m, ks, b);
      }
    }
  }

  /**
    One step of a filtering scan over the keys: having listed the selected keys
    among `done`, visiting key `k` lists it too exactly when it is selected.
  */
  lemma GathersStep(r: seq<Book>, m: map<int, Book>, sel: set<int>, done: set<int>, k: int)
    requires Gathers(r, m, sel * done) && k in m && k !in done
    ensures k in sel ==> Gathers(r + [m[k]], m, sel * (done + {k}))
    ensures k !in sel ==> Gathers(r, m, sel * (done + {k}))
  {
    if k in sel {
      assert sel * (done + {k}) == sel * done + {k};
      GathersAdd(r, m, sel * done, k);
    } else {
      assert sel * (done + {k}) == sel * done;
    }
  }

  /** A scan that has visited every key has listed every selected key. */
  lemma ScanComplete(sel: set<int>, keys: set<int>)
    requires sel <= keys
    ensures sel * keys == sel
  {
  }

  /** A listing with nothing in it lists no keys. */
  lemma GathersEmpty(m: map<int, Book>)
    ensures Gathers([], m, {})
  {
    var none: seq<Book> := [];
    forall b ensures multiset(none)[b] == |Holding(m, {}, b)| {
      assert Holding(m, {}, b) == {};
    }
  }

  /** A listing of `ks` holds exactly the books stored at `ks`. */
  lemma GathersValues(r: seq<Book>, m: map<int, Book>, ks: set<int>)
    requires Gathers(r, m, ks)
    ensures (set b | b in r) == ValuesAt(m, ks)
  {
    forall b | b in r ensures b in ValuesAt(m, ks) {
      var k := Member(Holding(m, ks, b));
    }
    forall b | b in ValuesAt(m, ks) ensures b in r {
      var k :| k in ks && k in m && m[k] == b;
      assert k in Holding(m, ks, b);
    }
  }

  /** In a keyed table no book is listed twice. */
  lemma GathersDistinct(r: seq<Book>, m: map<int, Book>, ks: set<int>)
    requires Gathers(r, m, ks) && Keyed(m)
    ensures forall i, j :: 0 <= i < j < |r| ==> r[i] != r[j]
  {
    forall i, j | 0 <= i < j < |r| ensures r[i] != r[j] {
      if r[i] == r[j] {
        var b := r[i];
        assert r == r[..j] + [b] + r[j + 1..];
        assert b in r[..j];
        assert multiset(r)[b] >= 2;
        var own: set<int> := if b.id.Some? then {b.id.value} else {};
        forall k | k in Holding(m, ks, b) ensures k in own {
          assert m[k].id == Some(k);
        }
        SubsetCard(Holding(m, ks, b), own);
        assert false;
      }
    }
  }

  /** Listing fewer keys lists a sub-multiset. */
  lemma GathersSubset(r1: seq<Book>, r2: seq<Book>, m: map<int, Book>, ks1: set<int>, ks2: set<int>)
    requires Gathers(r1, m, ks1) && Gathers(r2, m, ks2) && ks1 <= ks2
    ensures multiset(r1) <= multiset(r2)
  {
    forall b ensures multiset(r1)[b] <= multiset(r2)[b] {
      SubsetCard(Holding(m, ks1, b), Holding(m, ks2, b));
    }
  }

  /** Some element of a non-empty set. */
  lemma Member(s: set<int>) returns (k: int)
    requires s != {}
    ensures k in s
  {
    // spelled out so that the solver sees an element exists before the pick
    if forall x :: x !in s {
      assert false;
    }
    k :| k in s;
  }

  lemma SubsetCard(a: set<int>, b: set<int>)
    requires a <= b
    ensures |a| <= |b|
  {
    assert b == a + (b - a);
  }
}
