/** The server's store as an object whose catalog the five operations update
    in place, and the four test scenarios replayed against it. */
module Server {
  import opened Books
  import opened Lifecycle

  /** The library: one catalog of books keyed by ISBN. */
  class Library {
    var books: Catalog

    ghost predicate Valid()
      reads this
    {
      Wellformed(books)
    }

    /** An empty library, as a freshly created database holds. */
    constructor ()
      ensures Valid() && books == map[]
    {
      books := map[];
    }

    /** POST /api/books/{isbn}. */
    method Create(payload: Book, now: Instant) returns (r: Result<Book>)
      requires Valid()
      modifies this
      ensures Valid()
      ensures Step(r, books) == CreateStep(old(books), payload, now)
    {
      if !IsValidIsbn(payload.isbn) {
        return Err(InvalidIsbn);
      }
      if !TimestampsUnset(payload) {
        return Err(TimestampsSet);
      }
      if payload.isbn in books {
        return Err(DuplicateIsbn);
      }
      var stored := payload.(createTime := now);
      books := books[payload.isbn := stored];
      r := Ok(stored);
    }

    /** The store's lookup of one ISBN. */
    method Find(isbn: string) returns (b: Book)
      requires Valid()
      ensures b == Lookup(books, isbn)
      ensures IsDeleted(b) <==> isbn !in books
    {
      if isbn in books {
        b := books[isbn];
        ValidIsbnIsNotDeleted(b);
      } else {
        b := EmptyBook;
      }
    }

    /** GET /api/books: every stored book once, in no particular order. */
    method List() returns (listing: seq<Book>)
      requires Valid()
      ensures IsListing(listing, books)
      ensures |listing| == |books|
    {
      listing := [];
      var remaining := books.Keys;
      while remaining != {}
        invariant remaining <= books.Keys
        invariant forall i :: 0 <= i < |listing| ==>
          listing[i].isbn in books && books[listing[i].isbn] == listing[i] && listing[i].isbn !in remaining
        invariant forall k :: k in books && k !in remaining ==>
          exists i :: 0 <= i < |listing| && listing[i].isbn == k
        invariant forall i, j :: 0 <= i < j < |listing| ==> listing[i].isbn != listing[j].isbn
        decreases remaining
      {
        var k :| k in remaining;
        ghost var before := listing;
        listing := listing + [books[k]];
        remaining := remaining - {k};
        forall k' | k' in books && k' !in remaining
          ensures exists i :: 0 <= i < |listing| && listing[i].isbn == k'
        {
          if k' == k {
            assert listing[|before|].isbn == k';
          } else {
            var i :| 0 <= i < |before| && before[i].isbn == k';
            assert listing[i].isbn == k';
          }
        }
      }
      ListingSize(listing, books);
    }

    /** PUT /api/books/{isbn}. */
    method Update(isbn: string, payload: Book, now: Instant) returns (r: Result<Book>)
      requires Valid()
      modifies this
      ensures Valid()
      ensures Step(r, books) == UpdateStep(old(books), isbn, payload, now)
    {
      if isbn !in books {
        return Err(UpdateNotFound);
      }
      if payload.isbn != isbn {
        return Err(IsbnChanged);
      }
      if !TimestampsUnset(payload) {
        return Err(TimestampsSet);
      }
      var existing := books[isbn];
      if InCooldown(existing, now) {
        return Err(TooEarly);
      }
      var stored := existing.(title := payload.title, author := payload.author,
                              publisher := payload.publisher, updateTime := now);
      books := books[isbn := stored];
      r := Ok(stored);
    }

    /** DELETE /api/books/{isbn}. */
    method Delete(isbn: string) returns (r: Result<()>)
      requires Valid()
      modifies this
      ensures Valid()
      ensures Step(r, books) == DeleteStep(old(books), isbn)
    {
      if isbn !in books {
        return Err(DeleteNotFound);
      }
      books := books - {isbn};
      r := Ok(());
    }
  }

  // -----------------------------------------------------------------------
  // The test suite's scenarios, each on a fresh library

  function StarWars(isbn: string, title: string, publisher: string): Book {
    Book(isbn, title, Author("george", "lucas"), publisher, 0, 0)
  }

  /** The create tests: a new book is stored as sent; the same ISBN again
      is a conflict that leaves the first record in place; a payload with
      a creation time is forbidden; a non-digit ISBN is not acceptable. */
  method CreateScenario(t1: Instant, t2: Instant, t3: Instant, t4: Instant)
    returns (first: Result<Book>, found: Book, again: Result<Book>, kept: Book,
             timed: Result<Book>, malformed: Result<Book>)
    ensures first.Ok? && SameBook(found, StarWars("1233211233215", "star wars", "adlibris"))
    ensures again.Err? && StatusCode(again.failure) == 409
    ensures Message(again.failure) == "A book with this ISBN already exits"
    ensures kept.title == "star wars" && kept.publisher == "adlibris"
    ensures timed.Err? && StatusCode(timed.failure) == 403
    ensures Message(timed.failure) == "Not allowed to change CreateTime or UpdateTime"
    ensures malformed.Err? && StatusCode(malformed.failure) == 406
    ensures Message(malformed.failure) == "validation failed, field error(s): isbn . Fix these error before proceeding"
  {
    TestIsbns();
    var lib := new Library();
    first := lib.Create(StarWars("1233211233215", "star wars", "adlibris"), t1);
    found := lib.Find("1233211233215");
    again := lib.Create(StarWars("1233211233215", "star wars the revenge of the sith",
                                 "adlibris new publisher"), t2);
    kept := lib.Find("1233211233215");
    var withTime := StarWars("1233211233218", "star wars the revenge of the sith",
                             "adlibris new publisher").(createTime := t3);
    timed := lib.Create(withTime, t3);
    malformed := lib.Create(StarWars("123321123321a", "star wars the revenge of the sith",
                                     "adlibris new publisher"), t4);
  }

  /** The list test: after two creates, the listing holds both books and
      nothing else. */
  method ListScenario(t1: Instant, t2: Instant) returns (listing: seq<Book>)
    ensures |listing| == 2
    ensures forall i :: 0 <= i < |listing| ==>
      SameBook(listing[i], StarWars("1233211233215", "star wars", "adlibris")) ||
      SameBook(listing[i], StarWars("1233211233213", "star wars revenge of the sith", "adlibris"))
    ensures (exists i :: 0 <= i < |listing| &&
               SameBook(listing[i], StarWars("1233211233215", "star wars", "adlibris")))
    ensures (exists i :: 0 <= i < |listing| &&
               SameBook(listing[i], StarWars("1233211233213", "star wars revenge of the sith", "adlibris")))
  {
    TestIsbns();
    var lib := new Library();
    var wanted := StarWars("1233211233215", "star wars", "adlibris");
    var wanted2 := StarWars("1233211233213", "star wars revenge of the sith", "adlibris");
    var _ := lib.Create(wanted, t1);
    var _ := lib.Create(wanted2, t2);
    listing := lib.List();
    assert lib.books.Keys == {wanted.isbn, wanted2.isbn};
    ListingSize(listing, lib.books);
  }

  /** The delete tests: deleting a stored book succeeds and a lookup then
      yields the zero Book; deleting a book never created is not found. */
  method DeleteScenario(t1: Instant, t2: Instant)
    returns (deleted: Result<()>, gone: Book, missing: Result<()>, never: Book)
    ensures deleted.Ok? && IsDeleted(gone)
    ensures missing.Err? && StatusCode(missing.failure) == 404
    ensures Message(missing.failure) == "The book did not exist in the library or was already deleted"
    ensures IsDeleted(never)
  {
    TestIsbns();
    var lib := new Library();
    var _ := lib.Create(StarWars("1233211233215", "star wars", "adlibris"), t1);
    var _ := lib.Create(StarWars("1233211233213", "star wars revenge of the sith", "adlibris"), t2);
    deleted := lib.Delete("1233211233213");
    gone := lib.Find("1233211233213");
    missing := lib.Delete("1233211233210");
    never := lib.Find("1233211233210");
  }

  /** The update tests, with request times that never go backwards: the
      first update after the create succeeds and answers the payload; an
      absent ISBN is not found; a changed ISBN is forbidden even inside the
      cooldown. The spamming test sends one update at `t4` and asserts
      that a second one five seconds later is too early. That holds when
      `t4` comes less than five seconds after the accepted update at `t1`
      (the first spamming update is then refused too) or ten or more
      seconds after it (it is then accepted and restarts the cooldown), but
      not in between: from five to ten seconds after `t1` the first is
      refused and the second is already out of the cooldown. */
  method UpdateScenario(t0: Instant, t1: Instant, t2: Instant, t3: Instant, t4: Instant)
    returns (updated: Result<Book>, absent: Result<Book>, changed: Result<Book>, spam: Result<Book>)
    requires t0 <= t1 <= t2 <= t3 <= t4
    ensures updated.Ok?
    ensures SameBook(updated.value, StarWars("1233211233215", "star wars phantom menance", "adlibris"))
    ensures absent.Err? && StatusCode(absent.failure) == 404
    ensures Message(absent.failure) == "The book did not exist in the library"
    ensures changed.Err? && StatusCode(changed.failure) == 403
    ensures Message(changed.failure) == "Not allowed to change ISBN"
    ensures spam.Ok? <==> t1 + 5 <= t4 < t1 + CooldownWindow
    ensures spam.Err? ==> StatusCode(spam.failure) == 425 && Message(spam.failure) == "Updated a few seconds ago, please wait a moment before updating again"
  {
    TestIsbns();
    var lib := new Library();
    var _ := lib.Create(StarWars("1233211233215", "star wars", "adlibris"), t0);
    updated := lib.Update("1233211233215",
      StarWars("1233211233215", "star wars phantom menance", "adlibris"), t1);
    absent := lib.Update("1233211233210",
      StarWars("1233211233210", "star wars phantom menance", "adlibris"), t2);
    changed := lib.Update("1233211233215",
      StarWars("1233211233210", "star wars phantom menance", "adlibris"), t3);
    var spamming := StarWars("1233211233215", "Star wars phantom menance", "adlibris");
    var _ := lib.Update("1233211233215", spamming, t4);
    spam := lib.Update("1233211233215", spamming, t4 + 5);
  }
}
