/** The catalog's records and the pure list transforms behind the component's
    handlers (append, replace by id, remove by id, toggle by id), the initial
    seeding decision and the dashboard statistics. */
module Catalog {

  datatype Option<T> = None | Some(value: T)

  /** The two-valued `availability` field of a record. */
  datatype Availability = Available | Issued

  /** The literal a record stores for its availability. */
  function Label(a: Availability): string {
    match a
    case Available => "Available"
    case Issued => "Issued"
  }

  /** The other availability: what a toggle turns a record's into. */
  function Flip(a: Availability): Availability {
    match a
    case Available => Issued
    case Issued => Available
  }

  /** A catalog record (the `Book` interface). */
  datatype Book = Book(id: string, title: string, author: string, availability: Availability)

  /** The form draft after a reset: empty text and Available. */
  const EmptyDraft := Book("", "", "", Available)

  /** The form's validation test: both title and author are non-empty strings. */
  predicate Complete(draft: Book) {
    draft.title != "" && draft.author != ""
  }

  function Ids(books: seq<Book>): seq<string> {
    seq(|books|, i requires 0 <= i < |books| => books[i].id)
  }

  /** How many records carry the id. */
  function CountId(books: seq<Book>, id: string): nat {
    if books == [] then 0
    else (if books[0].id == id then 1 else 0) + CountId(books[1..], id)
  }

  lemma {:induction false} CountIdAbsent(books: seq<Book>, id: string)
    ensures CountId(books, id) == 0 <==> forall i :: 0 <= i < |books| ==> books[i].id != id
  {
    if books != [] {
      CountIdAbsent(books[1..], id);
      assert forall i :: 1 <= i < |books| ==> books[i] == books[1..][i - 1];
    }
  }

  predicate DistinctIds(books: seq<Book>) {
    forall i, j :: 0 <= i < j < |books| ==> books[i].id != books[j].id
  }

  // ---------------------------------------------------------------------
  // update: every record with the draft's id is replaced by the draft
  // ---------------------------------------------------------------------

  /** Every record with the draft's id is replaced by the draft; the others
      stay where they were. */
  function Replace(books: seq<Book>, draft: Book): (r: seq<Book>)
    ensures |r| == |books|
    ensures forall i :: 0 <= i < |books| ==> r[i] == (if books[i].id == draft.id then draft else books[i])
  {
    if books == [] then []
    else [if books[0].id == draft.id then draft else books[0]] + Replace(books[1..], draft)
  }

  /** Replacing keeps the ids in order, and the draft ends up in the list
      exactly when its id was there. */
  lemma ReplaceKeepsIds(books: seq<Book>, draft: Book)
    ensures Ids(Replace(books, draft)) == Ids(books)
    ensures draft in Replace(books, draft) <==> draft.id in Ids(books)
  {
    var r, ids := Replace(books, draft), Ids(books);
    assert Ids(r) == ids by {
      forall i | 0 <= i < |r| ensures Ids(r)[i] == ids[i] {
        assert r[i].id == books[i].id;
      }
    }
    assert draft in r ==> draft.id in ids by {
      if draft in r {
        var i :| 0 <= i < |r| && r[i] == draft;
        assert ids[i] == books[i].id;
      }
    }
    assert draft.id in ids ==> draft in r by {
      if draft.id in ids {
        var i :| 0 <= i < |books| && ids[i] == draft.id;
        assert r[i] == draft;
      }
    }
  }

  /** An update for an id that is absent changes nothing. */
  lemma {:induction false} ReplaceAbsent(books: seq<Book>, draft: Book)
    requires CountId(books, draft.id) == 0
    ensures Replace(books, draft) == books
  {
    CountIdAbsent(books, draft.id);
  }

  /** Repeating an update changes nothing more. */
  lemma ReplaceIdempotent(books: seq<Book>, draft: Book)
    ensures Replace(Replace(books, draft), draft) == Replace(books, draft)
  {
  }

  // ---------------------------------------------------------------------
  // toggle: flip availability on the records with the id
  // ---------------------------------------------------------------------

  function Toggle(books: seq<Book>, id: string): (r: seq<Book>)
    ensures |r| == |books|
    ensures forall i :: 0 <= i < |books| ==>
              && r[i].id == books[i].id && r[i].title == books[i].title && r[i].author == books[i].author
              && r[i].availability == (if books[i].id == id then Flip(books[i].availability) else books[i].availability)
  {
    if books == [] then []
    else
      var b := books[0];
      [if b.id == id then b.(availability := Flip(b.availability)) else b] + Toggle(books[1..], id)
  }

  /** Toggling the same id twice restores the list. */
  lemma {:induction false} ToggleTwice(books: seq<Book>, id: string)
    ensures Toggle(Toggle(books, id), id) == books
  {
    if books != [] {
      ToggleTwice(books[1..], id);
      assert Toggle(books, id)[1..] == Toggle(books[1..], id);
      assert books == [books[0]] + books[1..];
    }
  }

  /** Toggling an absent id changes nothing. */
  lemma {:induction false} ToggleAbsent(books: seq<Book>, id: string)
    requires CountId(books, id) == 0
    ensures Toggle(books, id) == books
  {
    CountIdAbsent(books, id);
  }

  // ---------------------------------------------------------------------
  // delete: keep the records whose id differs
  // ---------------------------------------------------------------------

  function Remove(books: seq<Book>, id: string): (r: seq<Book>)
    ensures forall b :: b in r <==> b in books && b.id != id
    ensures |r| == |books| - CountId(books, id)
  {
    if books == [] then []
    else if books[0].id == id then Remove(books[1..], id)
    else [books[0]] + Remove(books[1..], id)
  }

  /** `sub` is `s` with some elements left out, the rest in their order. */
  predicate IsSubsequence(sub: seq<Book>, s: seq<Book>) {
    if sub == [] then true
    else if s == [] then false
    else if sub[0] == s[0] then IsSubsequence(sub[1..], s[1..])
    else IsSubsequence(sub, s[1..])
  }

  /** Deleting keeps the remaining records in their original order. */
  lemma {:induction false} RemoveIsSubsequence(books: seq<Book>, id: string)
    ensures IsSubsequence(Remove(books, id), books)
  {
    if books != [] {
      RemoveIsSubsequence(books[1..], id);
      var r := Remove(books[1..], id);
      if books[0].id == id && r != [] {
        assert r[0] in r;
      }
    }
  }

  /** Deleting keeps the ids distinct when they were. */
  lemma {:induction false} RemoveKeepsDistinct(books: seq<Book>, id: string)
    requires DistinctIds(books)
    ensures DistinctIds(Remove(books, id))
  {
    if books != [] {
      var tail := books[1..];
      assert DistinctIds(tail) by {
        assert forall i :: 0 <= i < |tail| ==> tail[i] == books[i + 1];
      }
      RemoveKeepsDistinct(tail, id);
      var r := Remove(tail, id);
      if books[0].id != id {
        forall j | 0 <= j < |r| ensures books[0].id != r[j].id {
          assert r[j] in tail;
          var k :| 0 <= k < |tail| && tail[k] == r[j];
          assert books[k + 1] == r[j];
        }
        assert Remove(books, id) == [books[0]] + r;
      }
    }
  }

  /** Deleting an absent id changes nothing. */
  lemma {:induction false} RemoveAbsent(books: seq<Book>, id: string)
    requires CountId(books, id) == 0
    ensures Remove(books, id) == books
  {
    if books != [] {
      RemoveAbsent(books[1..], id);
      assert [books[0]] + books[1..] == books;
    }
  }

  /** Deleting works record by record: it distributes over concatenation. */
  lemma {:induction false} RemoveConcat(a: seq<Book>, b: seq<Book>, id: string)
    ensures Remove(a + b, id) == Remove(a, id) + Remove(b, id)
  {
    if a != [] {
      assert (a + b)[1..] == a[1..] + b;
      RemoveConcat(a[1..], b, id);
    } else {
      assert a + b == b;
    }
  }

  /** Deleting twice deletes nothing more. */
  lemma RemoveIdempotent(books: seq<Book>, id: string)
    ensures Remove(Remove(books, id), id) == Remove(books, id)
  {
    var r := Remove(books, id);
    assert CountId(r, id) == 0 by {
      CountIdAbsent(r, id);
    }
    RemoveAbsent(r, id);
  }

  // ---------------------------------------------------------------------
  // initial seeding
  // ---------------------------------------------------------------------

  /** The ten built-in sample records. */
  const SampleBooks: seq<Book> := [
    Book("1", "To Kill a Mockingbird", "Harper Lee", Available),
    Book("2", "1984", "George Orwell", Issued),
    Book("3", "The Great Gatsby", "F. Scott Fitzgerald", Available),
    Book("4", "Pride and Prejudice", "Jane Austen", Available),
    Book("5", "The Catcher in the Rye", "J.D. Salinger", Issued),
    Book("6", "Lord of the Flies", "William Golding", Available),
    Book("7", "Harry Potter and the Philosopher's Stone", "J.K. Rowling", Available),
    Book("8", "The Hobbit", "J.R.R. Tolkien", Issued),
    Book("9", "The Alchemist", "Paulo Coelho", Available),
    Book("10", "One Hundred Years of Solitude", "Gabriel Garc\U{ED}a M\U{E1}rquez", Available)
  ]

  /** The records the component starts with: a stored list verbatim when
      there is one, the samples otherwise. `None` stands for a missing slot
      and for a stored empty string, both of which the source treats alike. */
  function InitialBooks(stored: Option<seq<Book>>): seq<Book> {
    match stored
    case Some(books) => books
    case None => SampleBooks
  }

  /** Without a stored list the catalog starts with exactly the ten samples,
      ids "1" to "10", all distinct and all complete; a stored list is kept as is. */
  lemma InitialBooksShape(stored: Option<seq<Book>>)
    ensures stored.Some? ==> InitialBooks(stored) == stored.value
    ensures stored.None? ==> |InitialBooks(stored)| == 10
    ensures stored.None? ==> Ids(InitialBooks(stored)) == ["1", "2", "3", "4", "5", "6", "7", "8", "9", "10"]
    ensures stored.None? ==> DistinctIds(InitialBooks(stored))
    ensures stored.None? ==> forall i :: 0 <= i < 10 ==> Complete(InitialBooks(stored)[i])
  {
    if stored.None? {
      SampleIds();
      SampleComplete();
    }
  }

  lemma SampleIds()
    ensures Ids(SampleBooks) == ["1", "2", "3", "4", "5", "6", "7", "8", "9", "10"]
    ensures DistinctIds(SampleBooks)
  {
    var ids := Ids(SampleBooks);
    assert ids == ["1", "2", "3", "4", "5", "6", "7", "8", "9", "10"];
    assert forall i, j :: 0 <= i < j < 10 ==> ids[i] != ids[j];
  }

  lemma SampleComplete()
    ensures forall i :: 0 <= i < |SampleBooks| ==> Complete(SampleBooks[i])
  {
  }

  // ---------------------------------------------------------------------
  // dashboard statistics
  // ---------------------------------------------------------------------

  datatype Stats = Stats(total: nat, available: nat, issued: nat, availablePercentage: nat, uniqueAuthors: nat)

  /** How many records have availability `a`. */
  function CountAvailability(books: seq<Book>, a: Availability): nat {
    if books == [] then 0
    else (if books[0].availability == a then 1 else 0) + CountAvailability(books[1..], a)
  }

  /** The set of distinct author names. */
  function Authors(books: seq<Book>): set<string> {
    if books == [] then {} else {books[0].author} + Authors(books[1..])
  }

  /** Every record is Available or Issued, so the two counts add up to the total. */
  lemma {:induction false} CountsAddUp(books: seq<Book>)
    ensures CountAvailability(books, Available) + CountAvailability(books, Issued) == |books|
  {
    if books != [] {
      CountsAddUp(books[1..]);
    }
  }

  /** The author set holds exactly the authors of the records, so it has at
      most as many members as there are records. */
  lemma {:induction false} AuthorsOf(books: seq<Book>)
    ensures forall a :: a in Authors(books) <==> exists i :: 0 <= i < |books| && books[i].author == a
    ensures |Authors(books)| <= |books|
  {
    if books != [] {
      AuthorsOf(books[1..]);
      forall a | a in Authors(books) ensures exists i :: 0 <= i < |books| && books[i].author == a {
        if a != books[0].author {
          var j :| 0 <= j < |books| - 1 && books[1..][j].author == a;
          assert books[j + 1].author == a;
        }
      }
      forall a | exists i :: 0 <= i < |books| && books[i].author == a ensures a in Authors(books) {
        var i :| 0 <= i < |books| && books[i].author == a;
        if i > 0 {
          assert books[1..][i - 1].author == a;
        }
      }
    }
  }

  /** The share of `part` in `whole` as a whole percentage, 0 for an empty
      whole: the nearest integer to the exact percentage, halves rounded up. */
  function Percent(part: nat, whole: nat): (p: nat)
    requires part <= whole
    ensures whole == 0 ==> p == 0
    ensures whole > 0 ==> 2 * whole * p <= 200 * part + whole < 2 * whole * (p + 1)
    ensures p <= 100
    ensures part == whole && whole > 0 ==> p == 100
  {
    if whole == 0 then 0
    else
      var p := (200 * part + whole) / (2 * whole);
      DivisionBounds(200 * part + whole, 2 * whole);
      assert 200 * part + whole < 2 * whole * 101;
      ScaleCancel(2 * whole, p, 101);
      assert part == whole ==> 2 * whole * 100 < 2 * whole * (p + 1);
      ScaleCancel(2 * whole, 100, p + 1);
      p
  }

  lemma DivisionBounds(x: nat, d: nat)
    requires d > 0
    ensures d * (x / d) <= x < d * (x / d + 1)
  {
    assert x == d * (x / d) + x % d;
  }

  lemma ScaleCancel(d: nat, a: nat, b: nat)
    requires d > 0
    ensures d * a < d * b ==> a < b
  {
    assert d * b - d * a == d * (b - a);
  }

  /** The dashboard figures for the full record list. */
  function ComputeStats(books: seq<Book>): (r: Stats)
    ensures r.total == |books|
    ensures r.available == CountAvailability(books, Available) && r.issued == CountAvailability(books, Issued)
    ensures r.available + r.issued == r.total
    ensures r.availablePercentage == Percent(r.available, r.total)
    ensures r.uniqueAuthors == |set i | 0 <= i < |books| :: books[i].author|
    ensures r.uniqueAuthors <= r.total
    ensures r.total == 0 ==> r.availablePercentage == 0 && r.uniqueAuthors == 0
    ensures r.availablePercentage <= 100
    ensures r.available == r.total && r.total > 0 ==> r.availablePercentage == 100
  {
    CountsAddUp(books);
    AuthorsOf(books);
    assert Authors(books) == set i | 0 <= i < |books| :: books[i].author;
    var available := CountAvailability(books, Available);
    Stats(|books|, available, CountAvailability(books, Issued), Percent(available, |books|), |Authors(books)|)
  }
}
