/** The catalog entity and the pure comparisons the test suite makes on it:
    the ISBN format rule, the field-wise book equality, the list equality
    and the "nothing stored here" check. */
module Books {

  /** A book's author, a first and a last name. */
  datatype Author = Author(firstName: string, lastName: string)

  /** A catalog record. Times are whole seconds; 0 is the zero time, which
      in a payload means "not set by the caller" and in a stored record's
      updateTime means "never updated". */
  datatype Book = Book(
    isbn: string,
    title: string,
    author: Author,
    publisher: string,
    createTime: int,
    updateTime: int)

  /** The zero Book, which a lookup of an absent ISBN yields. */
  const EmptyBook := Book("", "", Author("", ""), "", 0, 0)

  /** Number of characters of a well-formed ISBN. */
  const IsbnLength := 13

  predicate IsDigit(c: char) {
    '0' <= c <= '9'
  }

  /** The ISBN format rule: exactly thirteen ASCII digits. */
  function IsValidIsbn(s: string): (valid: bool)
    ensures valid ==> s != EmptyBook.isbn
  {
    |s| == IsbnLength && forall i :: 0 <= i < |s| ==> IsDigit(s[i])
  }

  /** A payload leaves both server-owned timestamps at the zero time. */
  predicate TimestampsUnset(b: Book) {
    b.createTime == 0 && b.updateTime == 0
  }

  /** Two books are the same record as the tests compare them: same ISBN,
      title, author names and publisher; timestamps are not compared. */
  function SameBook(got: Book, wanted: Book): (same: bool)
    ensures same <==> got == wanted.(createTime := got.createTime, updateTime := got.updateTime)
  {
    && got.isbn == wanted.isbn
    && got.author.firstName == wanted.author.firstName
    && got.title == wanted.title
    && got.author.lastName == wanted.author.lastName
    && got.publisher == wanted.publisher
  }

  /** The list comparison as the test helper performs it: it walks the
      indices of `got` only, so a `got` shorter than `wanted` is compared on
      its own length, and a longer one fails on the first index `wanted`
      lacks. */
  function SameBooksAsWritten(got: seq<Book>, wanted: seq<Book>): (passes: bool)
    ensures passes <==> |got| <= |wanted| && SameBooks(got, wanted[..|got|])
  {
    && |got| <= |wanted|
    && forall i :: 0 <= i < |got| ==> SameBook(got[i], wanted[i])
  }

  /** The list comparison the helper is meant to make: same length and the
      same record at every index. */
  predicate SameBooks(got: seq<Book>, wanted: seq<Book>) {
    && |got| == |wanted|
    && forall i :: 0 <= i < |got| ==> SameBook(got[i], wanted[i])
  }

  /** The "was deleted" check: a lookup yielded the zero Book. */
  function IsDeleted(found: Book): (deleted: bool)
    ensures deleted ==> !IsValidIsbn(found.isbn)
  {
    found == EmptyBook
  }

  /** SameBook is an equivalence relation. */
  lemma SameBookIsEquivalence(a: Book, b: Book, c: Book)
    ensures SameBook(a, a)
    ensures SameBook(a, b) ==> SameBook(b, a)
    ensures SameBook(a, b) && SameBook(b, c) ==> SameBook(a, c)
  {
  }

  /** A book with a well-formed ISBN is never mistaken for a deleted one. */
  lemma ValidIsbnIsNotDeleted(b: Book)
    requires IsValidIsbn(b.isbn)
    ensures !IsDeleted(b)
  {
  }

  /** The ISBN the create test refuses is not well-formed, and the ones it
      accepts are. */
  lemma TestIsbns()
    ensures !IsValidIsbn("123321123321a")
    ensures IsValidIsbn("1233211233215")
    ensures IsValidIsbn("1233211233213")
    ensures IsValidIsbn("1233211233218")
    ensures IsValidIsbn("1233211233210")
  {
    assert !IsDigit("123321123321a"[12]);
  }

  /** The corrected comparison is reflexive, symmetric and transitive, and
      it is the helper's loop run in both directions. */
  lemma SameBooksIsEquivalence(a: seq<Book>, b: seq<Book>, c: seq<Book>)
    ensures SameBooks(a, a)
    ensures SameBooks(a, b) ==> SameBooks(b, a)
    ensures SameBooks(a, b) && SameBooks(b, c) ==> SameBooks(a, c)
    ensures SameBooks(a, b) <==> SameBooksAsWritten(a, b) && SameBooksAsWritten(b, a)
  {
    forall i | 0 <= i < |a| && i < |b| && i < |c| {
      SameBookIsEquivalence(a[i], b[i], c[i]);
    }
  }

  /** The helper's loop accepts an empty `got` against any `wanted`, so a
      handler answering with no books at all passes the list test, and the
      relation it computes is not symmetric. */
  lemma SameBooksAsWrittenAcceptsEmpty(wanted: seq<Book>)
    requires wanted != []
    ensures SameBooksAsWritten([], wanted)
    ensures !SameBooksAsWritten(wanted, [])
    ensures !SameBooks([], wanted)
  {
  }
}
