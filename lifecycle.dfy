/** The record lifecycle as a state machine over the catalog: each request
    is a function from the catalog before it (and the request time) to an
    outcome and the catalog after it. The `Library` class in module Server
    runs these steps in place; here are their rules and the properties the
    test suite relies on. */
module Lifecycle {
  import opened Books

  /** A clock reading in whole seconds. Never the zero time. */
  type Instant = t: int | 0 < t witness 1

  /** The catalog: ISBN to stored record. */
  type Catalog = map<string, Book>

  /** Minimum number of seconds between two updates of one record. */
  const CooldownWindow := 10

  /** The typed failures, one per refusal the server reports. */
  datatype Failure =
    | InvalidIsbn       // create: the ISBN is not thirteen digits
    | TimestampsSet     // create or update: the payload sets CreateTime or UpdateTime
    | DuplicateIsbn     // create: the ISBN is already in the catalog
    | UpdateNotFound    // update: no record under the path ISBN
    | IsbnChanged       // update: the body's ISBN differs from the path's
    | TooEarly          // update: the record was updated less than CooldownWindow ago
    | DeleteNotFound    // delete: no record under the ISBN

  datatype Result<T> = Ok(value: T) | Err(failure: Failure)

  /** What a request answers and the catalog it leaves behind. */
  datatype Step<T> = Step(outcome: Result<T>, after: Catalog)

  /** The HTTP status the server answers a failure with: always a client
      error. */
  function StatusCode(f: Failure): (status: int)
    ensures 400 <= status < 500
  {
    match f
    case InvalidIsbn => 406
    case TimestampsSet => 403
    case DuplicateIsbn => 409
    case UpdateNotFound => 404
    case IsbnChanged => 403
    case TooEarly => 425
    case DeleteNotFound => 404
  }

  /** The response body the server answers a failure with: never empty. */
  function Message(f: Failure): (body: string)
    ensures body != ""
  {
    match f
    case InvalidIsbn => "validation failed, field error(s): isbn . Fix these error before proceeding"
    case TimestampsSet => "Not allowed to change CreateTime or UpdateTime"
    case DuplicateIsbn => "A book with this ISBN already exits"
    case UpdateNotFound => "The book did not exist in the library"
    case IsbnChanged => "Not allowed to change ISBN"
    case TooEarly => "Updated a few seconds ago, please wait a moment before updating again"
    case DeleteNotFound => "The book did not exist in the library or was already deleted"
  }

  /** Every stored record sits under its own, well-formed ISBN and carries
      a creation time. */
  ghost predicate Wellformed(c: Catalog) {
    forall k :: k in c ==> c[k].isbn == k && IsValidIsbn(k) && 0 < c[k].createTime
  }

  /** Every stored record was created no later than `bound`, and if it was
      updated, that happened after its creation and no later than `bound`. */
  ghost predicate TimesWithin(c: Catalog, bound: int) {
    forall k :: k in c ==>
      && 0 < c[k].createTime <= bound
      && (c[k].updateTime == 0 || c[k].createTime <= c[k].updateTime <= bound)
  }

  /** A record is cooling down when it was updated less than
      CooldownWindow seconds before `now`. A record never updated is not. */
  function InCooldown(b: Book, now: Instant): (cooling: bool)
    ensures b.updateTime == 0 ==> !cooling
    ensures cooling ==> now < b.updateTime + CooldownWindow
  {
    b.updateTime != 0 && now - b.updateTime < CooldownWindow
  }

  /** Find: the stored record, or the zero Book when the ISBN is absent.
      In a well-formed catalog the zero Book is answered exactly for an
      absent ISBN, and a found record carries the ISBN asked for. */
  function Lookup(c: Catalog, isbn: string): (found: Book)
    ensures Wellformed(c) ==> (IsDeleted(found) <==> isbn !in c)
    ensures Wellformed(c) && isbn in c ==> found.isbn == isbn
  {
    if isbn in c then c[isbn] else EmptyBook
  }

  /** Create: validate the ISBN, then the server-owned timestamps, then
      refuse a duplicate; otherwise store the payload stamped with `now`.
      A refused create changes nothing; a create succeeds exactly when the
      ISBN is well-formed, the timestamps are unset and the ISBN is new,
      and then adds one record equal to the payload, created at `now` and
      never updated, leaving every other record as it was. */
  function CreateStep(c: Catalog, payload: Book, now: Instant): (s: Step<Book>)
    ensures s.outcome.Err? ==> s.after == c
    ensures s.outcome.Ok? <==>
      IsValidIsbn(payload.isbn) && TimestampsUnset(payload) && payload.isbn !in c
    ensures s.outcome.Ok? ==>
      && s.after.Keys == c.Keys + {payload.isbn}
      && s.after[payload.isbn] == s.outcome.value
      && SameBook(s.outcome.value, payload)
      && s.outcome.value.createTime == now
      && s.outcome.value.updateTime == 0
      && (forall k :: k in c ==> s.after[k] == c[k])
  {
    if !IsValidIsbn(payload.isbn) then Step(Err(InvalidIsbn), c)
    else if !TimestampsUnset(payload) then Step(Err(TimestampsSet), c)
    else if payload.isbn in c then Step(Err(DuplicateIsbn), c)
    else
      var stored := payload.(createTime := now);
      Step(Ok(stored), c[payload.isbn := stored])
  }

  /** Update: the record must exist, the body must keep its ISBN and leave
      the timestamps unset, and the record must be out of its cooldown;
      then title, author and publisher are overwritten and updateTime
      becomes `now`. The checks run in that order; any refusal leaves the
      catalog as it was; an update passing all four succeeds, keeps ISBN
      and createTime, and touches no other record. */
  function UpdateStep(c: Catalog, isbn: string, payload: Book, now: Instant): (s: Step<Book>)
    ensures s.outcome.Err? ==> s.after == c
    ensures isbn !in c ==> s.outcome == Err(UpdateNotFound)
    ensures isbn in c && payload.isbn != isbn ==> s.outcome == Err(IsbnChanged)
    ensures isbn in c && payload.isbn == isbn && !TimestampsUnset(payload) ==>
      s.outcome == Err(TimestampsSet)
    ensures isbn in c && payload.isbn == isbn && TimestampsUnset(payload) ==>
      (s.outcome == Err(TooEarly) <==> InCooldown(c[isbn], now))
    ensures s.outcome.Ok? <==>
      isbn in c && payload.isbn == isbn && TimestampsUnset(payload) && !InCooldown(c[isbn], now)
    ensures s.outcome.Ok? ==>
      && s.after.Keys == c.Keys
      && s.after[isbn] == s.outcome.value
      && s.outcome.value.title == payload.title
      && s.outcome.value.author == payload.author
      && s.outcome.value.publisher == payload.publisher
      && s.outcome.value.isbn == c[isbn].isbn
      && s.outcome.value.createTime == c[isbn].createTime
      && s.outcome.value.updateTime == now
      && (forall k :: k in c && k != isbn ==> s.after[k] == c[k])
    ensures s.outcome.Ok? && Wellformed(c) ==> SameBook(s.outcome.value, payload)
  {
    if isbn !in c then Step(Err(UpdateNotFound), c)
    else if payload.isbn != isbn then Step(Err(IsbnChanged), c)
    else if !TimestampsUnset(payload) then Step(Err(TimestampsSet), c)
    else if InCooldown(c[isbn], now) then Step(Err(TooEarly), c)
    else
      var stored := c[isbn].(title := payload.title, author := payload.author,
                             publisher := payload.publisher, updateTime := now);
      Step(Ok(stored), c[isbn := stored])
  }

  /** Delete: remove the record, or report that it was not there. Delete
      succeeds exactly when the ISBN is stored and then removes that record
      and nothing else; otherwise it changes nothing. */
  function DeleteStep(c: Catalog, isbn: string): (s: Step<()>)
    ensures s.outcome.Ok? <==> isbn in c
    ensures s.outcome.Err? ==> s.outcome.failure == DeleteNotFound && s.after == c
    ensures s.outcome.Ok? ==>
      s.after.Keys == c.Keys - {isbn} && forall k :: k in s.after ==> s.after[k] == c[k]
  {
    if isbn !in c then Step(Err(DeleteNotFound), c)
    else Step(Ok(()), c - {isbn})
  }

  /** `listing` enumerates the catalog: every element is the record stored
      under its ISBN, every stored ISBN occurs, and none occurs twice. */
  ghost predicate IsListing(listing: seq<Book>, c: Catalog) {
    && (forall i :: 0 <= i < |listing| ==> listing[i].isbn in c && c[listing[i].isbn] == listing[i])
    && (forall k :: k in c ==> exists i :: 0 <= i < |listing| && listing[i].isbn == k)
    && (forall i, j :: 0 <= i < j < |listing| ==> listing[i].isbn != listing[j].isbn)
  }

  /** The ISBNs occurring in a sequence of books. */
  function IsbnsOf(listing: seq<Book>): set<string>
    decreases |listing|
  {
    if listing == [] then {}
    else IsbnsOf(listing[..|listing| - 1]) + {listing[|listing| - 1].isbn}
  }

  /** An ISBN is in IsbnsOf exactly when some element carries it. */
  lemma {:induction false} IsbnsOfOccurs(listing: seq<Book>, k: string)
    ensures k in IsbnsOf(listing) <==> exists i :: 0 <= i < |listing| && listing[i].isbn == k
    decreases |listing|
  {
    if listing != [] {
      var prefix := listing[..|listing| - 1];
      IsbnsOfOccurs(prefix, k);
      if k in IsbnsOf(prefix) {
        var i :| 0 <= i < |prefix| && prefix[i].isbn == k;
        assert listing[i].isbn == k;
      }
      if exists i :: 0 <= i < |listing| && listing[i].isbn == k {
        var i :| 0 <= i < |listing| && listing[i].isbn == k;
        if i < |prefix| {
          assert prefix[i].isbn == k;
        }
      }
    }
  }

  /** Without repeated ISBNs, a sequence has as many elements as ISBNs. */
  lemma {:induction false} IsbnsOfDistinct(listing: seq<Book>)
    requires forall i, j :: 0 <= i < j < |listing| ==> listing[i].isbn != listing[j].isbn
    ensures |IsbnsOf(listing)| == |listing|
    decreases |listing|
  {
    if listing != [] {
      var prefix := listing[..|listing| - 1];
      var last := listing[|listing| - 1].isbn;
      IsbnsOfDistinct(prefix);
      assert forall i :: 0 <= i < |prefix| ==> prefix[i].isbn == listing[i].isbn != last;
      IsbnsOfOccurs(prefix, last);
    }
  }

  /** A listing of the catalog has exactly one element per stored record. */
  lemma ListingSize(listing: seq<Book>, c: Catalog)
    requires IsListing(listing, c)
    ensures |listing| == |c|
  {
    forall k ensures k in IsbnsOf(listing) <==> k in c {
      IsbnsOfOccurs(listing, k);
    }
    assert IsbnsOf(listing) == c.Keys;
    IsbnsOfDistinct(listing);
  }

  // ---------------------------------------------------------------------
  // Failures

  /** No two failures are reported alike: status and body together tell
      them apart. */
  lemma FailuresReportedDistinctly(f: Failure, g: Failure)
    requires f != g
    ensures StatusCode(f) != StatusCode(g) || Message(f) != Message(g)
  {
  }

  // ---------------------------------------------------------------------
  // Create

  /** Round trip: after a successful create, Find yields a record equal to
      the payload, created at `now` and never updated. */
  lemma CreateThenFind(c: Catalog, payload: Book, now: Instant)
    requires CreateStep(c, payload, now).outcome.Ok?
    ensures var found := Lookup(CreateStep(c, payload, now).after, payload.isbn);
      SameBook(found, payload) && found.createTime == now && found.updateTime == 0
  {
  }

  /** Uniqueness: once an ISBN is stored, a create with that ISBN fails
      with DuplicateIsbn whatever else the payload says, provided it passes
      validation, and the stored record keeps every field. */
  lemma CreateDuplicateConflicts(c: Catalog, payload: Book, now: Instant)
    requires payload.isbn in c
    requires IsValidIsbn(payload.isbn) && TimestampsUnset(payload)
    ensures CreateStep(c, payload, now) == Step(Err(DuplicateIsbn), c)
    ensures Lookup(CreateStep(c, payload, now).after, payload.isbn) == c[payload.isbn]
  {
  }

  /** A second create of an ISBN that was just created conflicts. */
  lemma CreateTwiceConflicts(c: Catalog, first: Book, second: Book, t1: Instant, t2: Instant)
    requires CreateStep(c, first, t1).outcome.Ok?
    requires second.isbn == first.isbn && TimestampsUnset(second)
    ensures var c1 := CreateStep(c, first, t1).after;
      && CreateStep(c1, second, t2) == Step(Err(DuplicateIsbn), c1)
      && Lookup(c1, first.isbn).title == first.title
      && Lookup(c1, first.isbn).publisher == first.publisher
  {
  }

  /** Server-owned timestamps: a payload with either timestamp set is
      refused, and when its ISBN is well-formed the refusal is
      TimestampsSet, whether or not the ISBN is stored. */
  lemma CreateRefusesTimestamps(c: Catalog, payload: Book, now: Instant)
    requires !TimestampsUnset(payload)
    ensures CreateStep(c, payload, now).outcome.Err?
    ensures CreateStep(c, payload, now).after == c
    ensures IsValidIsbn(payload.isbn) ==> CreateStep(c, payload, now).outcome == Err(TimestampsSet)
  {
  }

  /** ISBN format: a payload whose ISBN is not thirteen digits is refused
      with InvalidIsbn before any other check. */
  lemma CreateRefusesMalformedIsbn(c: Catalog, payload: Book, now: Instant)
    requires !IsValidIsbn(payload.isbn)
    ensures CreateStep(c, payload, now) == Step(Err(InvalidIsbn), c)
  {
  }

  // ---------------------------------------------------------------------
  // Delete

  /** Deleting twice answers success, then DeleteNotFound, and Find
      yields the zero Book after either call. */
  lemma DeleteTwice(c: Catalog, isbn: string)
    requires isbn in c
    ensures var s1 := DeleteStep(c, isbn);
      var s2 := DeleteStep(s1.after, isbn);
      && s1.outcome == Ok(())
      && s2 == Step(Err(DeleteNotFound), s1.after)
      && IsDeleted(Lookup(s1.after, isbn))
      && IsDeleted(Lookup(s2.after, isbn))
  {
  }

  // ---------------------------------------------------------------------
  // Update

  /** A record that was created but never updated can be updated at once:
      the cooldown runs from the last update, not from creation. */
  lemma FirstUpdateAfterCreate(c: Catalog, created: Book, payload: Book, t1: Instant, t2: Instant)
    requires CreateStep(c, created, t1).outcome.Ok?
    requires payload.isbn == created.isbn && TimestampsUnset(payload)
    ensures var s := UpdateStep(CreateStep(c, created, t1).after, created.isbn, payload, t2);
      s.outcome.Ok? && SameBook(s.outcome.value, payload)
  {
  }

  /** Cooldown: after a successful update at `t1`, a well-formed update of
      the same record at `t2` is refused with TooEarly exactly when it
      comes less than CooldownWindow seconds later (or earlier than `t1`),
      and then changes nothing. */
  lemma UpdateCooldown(c: Catalog, isbn: string, p1: Book, p2: Book, t1: Instant, t2: Instant)
    requires UpdateStep(c, isbn, p1, t1).outcome.Ok?
    requires p2.isbn == isbn && TimestampsUnset(p2)
    ensures var c1 := UpdateStep(c, isbn, p1, t1).after;
      var s := UpdateStep(c1, isbn, p2, t2);
      && (s.outcome == Err(TooEarly) <==> t2 - t1 < CooldownWindow)
      && (s.outcome.Ok? <==> t2 >= t1 + CooldownWindow)
      && (s.outcome.Err? ==> s.after == c1)
  {
  }

  /** The ISBN check wins over the cooldown: right after a successful
      update, a body with another ISBN is answered IsbnChanged, and the
      record is left as the first update stored it; this holds even when
      the refused request falls inside the cooldown. */
  lemma IsbnCheckPrecedesCooldown(c: Catalog, isbn: string, p1: Book, p2: Book, t1: Instant, t2: Instant)
    requires UpdateStep(c, isbn, p1, t1).outcome.Ok?
    requires p2.isbn != isbn
    ensures var c1 := UpdateStep(c, isbn, p1, t1).after;
      && UpdateStep(c1, isbn, p2, t2) == Step(Err(IsbnChanged), c1)
      && (t1 <= t2 < t1 + CooldownWindow ==> InCooldown(c1[isbn], t2))
  {
  }

  /** An update addressed to a malformed ISBN is answered as not found:
      update applies no format check of its own, and no record is ever
      stored under such an ISBN. */
  lemma UpdateMalformedIsbnNotFound(c: Catalog, isbn: string, payload: Book, now: Instant)
    requires Wellformed(c) && !IsValidIsbn(isbn)
    ensures UpdateStep(c, isbn, payload, now) == Step(Err(UpdateNotFound), c)
  {
  }

  // ---------------------------------------------------------------------
  // Invariants over any sequence of requests

  datatype Request =
    | CreateRequest(payload: Book)
    | ListRequest
    | FindRequest(isbn: string)
    | UpdateRequest(isbn: string, payload: Book)
    | DeleteRequest(isbn: string)

  /** A request and the time it arrives. */
  datatype Timed = Timed(request: Request, at: Instant)

  /** The catalog after one request. */
  function Apply(c: Catalog, r: Request, now: Instant): Catalog {
    match r
    case CreateRequest(p) => CreateStep(c, p, now).after
    case ListRequest => c
    case FindRequest(_) => c
    case UpdateRequest(isbn, p) => UpdateStep(c, isbn, p, now).after
    case DeleteRequest(isbn) => DeleteStep(c, isbn).after
  }

  /** The catalog after a sequence of requests, served in order. */
  function Replay(c: Catalog, trace: seq<Timed>): Catalog
    decreases |trace|
  {
    if trace == [] then c
    else Replay(Apply(c, trace[0].request, trace[0].at), trace[1..])
  }

  /** Request times never go backwards. */
  predicate Chronological(trace: seq<Timed>) {
    forall i, j :: 0 <= i < j < |trace| ==> trace[i].at <= trace[j].at
  }

  /** The time of the last request, or `from` if there is none. */
  function LastTime(from: int, trace: seq<Timed>): int {
    if trace == [] then from else trace[|trace| - 1].at
  }

  /** One request keeps the catalog well-formed. */
  lemma ApplyKeepsWellformed(c: Catalog, r: Request, now: Instant)
    requires Wellformed(c)
    ensures Wellformed(Apply(c, r, now))
  {
  }

  /** Any sequence of requests keeps the catalog well-formed: every record
      is keyed by its own well-formed ISBN. */
  lemma {:induction false} ReplayKeepsWellformed(c: Catalog, trace: seq<Timed>)
    requires Wellformed(c)
    ensures Wellformed(Replay(c, trace))
    decreases |trace|
  {
    if trace != [] {
      ApplyKeepsWellformed(c, trace[0].request, trace[0].at);
      ReplayKeepsWellformed(Apply(c, trace[0].request, trace[0].at), trace[1..]);
    }
  }

  /** One request at a time no earlier than `bound` keeps the timestamps
      ordered, with `now` as the new bound. */
  lemma ApplyKeepsTimesWithin(c: Catalog, r: Request, bound: int, now: Instant)
    requires TimesWithin(c, bound) && bound <= now
    ensures TimesWithin(Apply(c, r, now), now)
  {
  }

  /** When requests arrive in chronological order, no earlier than every
      stored time, each record's update time stays at or after its creation
      time, and no stored time lies after the last request. */
  lemma {:induction false} ReplayKeepsTimesWithin(c: Catalog, trace: seq<Timed>, from: int)
    requires TimesWithin(c, from)
    requires Chronological(trace)
    requires forall i :: 0 <= i < |trace| ==> from <= trace[i].at
    ensures TimesWithin(Replay(c, trace), LastTime(from, trace))
    decreases |trace|
  {
    if trace != [] {
      var c1 := Apply(c, trace[0].request, trace[0].at);
      ApplyKeepsTimesWithin(c, trace[0].request, from, trace[0].at);
      ReplayKeepsTimesWithin(c1, trace[1..], trace[0].at);
      assert LastTime(trace[0].at, trace[1..]) == LastTime(from, trace);
    }
  }
}
