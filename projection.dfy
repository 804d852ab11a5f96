/** The view projection recomputed whenever the records, the search term or
    the sort key change: a case-insensitive substring filter on title or
    author, then an in-place sort of the copy by the chosen key. */
module Projection {
  import opened Text
  import opened Catalog

  /** The three values of the `sortBy` state. */
  datatype SortKey = ByTitle | ByAuthor | ByAvailability

  /** The string the comparator compares for a record. */
  function Key(b: Book, sortBy: SortKey): string {
    match sortBy
    case ByTitle => b.title
    case ByAuthor => b.author
    case ByAvailability => Label(b.availability)
  }

  /** The comparator does not put `b` strictly before `a`: `a` may stay in
      front of `b`. */
  predicate Le(a: Book, b: Book, sortBy: SortKey) {
    StrLe(Key(a, sortBy), Key(b, sortBy))
  }

  predicate Sorted(s: seq<Book>, sortBy: SortKey) {
    forall i, j :: 0 <= i < j < |s| ==> Le(s[i], s[j], sortBy)
  }

  // ---------------------------------------------------------------------
  // filter
  // ---------------------------------------------------------------------

  /** The search test: the lower-cased term occurs in the lower-cased title
      or the lower-cased author. */
  predicate Matches(b: Book, term: string) {
    Contains(Lower(b.title), Lower(term)) || Contains(Lower(b.author), Lower(term))
  }

  /** The records that match the term, in their order. */
  function Filter(books: seq<Book>, term: string): (r: seq<Book>)
    ensures forall b :: b in r <==> b in books && Matches(b, term)
    ensures |r| <= |books|
  {
    if books == [] then []
    else if Matches(books[0], term) then [books[0]] + Filter(books[1..], term)
    else Filter(books[1..], term)
  }

  /** The filter step: skipped for an empty term, as the source does when the term is empty. */
  function Matching(books: seq<Book>, term: string): seq<Book> {
    if term == "" then books else Filter(books, term)
  }

  /** Every record matches the empty term, so skipping the filter for it
      changes nothing: the step is the filter for every term. */
  lemma {:induction false} MatchingIsFilter(books: seq<Book>, term: string)
    ensures Matching(books, term) == Filter(books, term)
  {
    if term == "" && books != [] {
      assert OccursAt(Lower(books[0].title), Lower(term), 0);
      MatchingIsFilter(books[1..], term);
      assert [books[0]] + books[1..] == books;
    }
  }

  /** Filtering works record by record: it distributes over concatenation. */
  lemma {:induction false} FilterConcat(a: seq<Book>, b: seq<Book>, term: string)
    ensures Filter(a + b, term) == Filter(a, term) + Filter(b, term)
  {
    if a == [] {
      assert a + b == b;
    } else {
      assert (a + b)[0] == a[0];
      assert (a + b)[1..] == a[1..] + b;
      FilterConcat(a[1..], b, term);
    }
  }

  /** A matching record is kept as often as it occurs; any other is dropped. */
  lemma {:induction false} FilterCounts(books: seq<Book>, term: string)
    ensures forall b :: multiset(Filter(books, term))[b] == if Matches(b, term) then multiset(books)[b] else 0
  {
    if books != [] {
      FilterCounts(books[1..], term);
      assert books == [books[0]] + books[1..];
      assert multiset(books) == multiset{books[0]} + multiset(books[1..]);
    }
  }

  /** Filtering keeps the kept records in their original order. */
  lemma {:induction false} FilterIsSubsequence(books: seq<Book>, term: string)
    ensures IsSubsequence(Filter(books, term), books)
  {
    if books != [] {
      FilterIsSubsequence(books[1..], term);
      var r := Filter(books[1..], term);
      if !Matches(books[0], term) && r != [] {
        assert r[0] in r;
      }
    }
  }

  // ---------------------------------------------------------------------
  // sort
  // ---------------------------------------------------------------------

  /** Places `x` after the sorted `t`, moving it in front of every trailing
      record that compares strictly greater, as one insertion step does. */
  function Insert(t: seq<Book>, x: Book, sortBy: SortKey): (r: seq<Book>)
    ensures |r| == |t| + 1
  {
    if t == [] then [x]
    else if Le(t[|t| - 1], x, sortBy) then t + [x]
    else Insert(t[..|t| - 1], x, sortBy) + [t[|t| - 1]]
  }

  /** Insertion sort: the order a stable sort with the comparator yields. */
  function Sort(s: seq<Book>, sortBy: SortKey): (r: seq<Book>)
    ensures |r| == |s|
  {
    if s == [] then [] else Insert(Sort(s[..|s| - 1], sortBy), s[|s| - 1], sortBy)
  }

  /** A non-empty sequence is its front followed by its last element. */
  lemma LastSplit<T>(s: seq<T>)
    requires s != []
    ensures s == s[..|s| - 1] + [s[|s| - 1]]
  {
  }

  lemma {:induction false} InsertPermutes(t: seq<Book>, x: Book, sortBy: SortKey)
    ensures multiset(Insert(t, x, sortBy)) == multiset(t) + multiset{x}
  {
    if t != [] && !Le(t[|t| - 1], x, sortBy) {
      InsertPermutes(t[..|t| - 1], x, sortBy);
      LastSplit(t);
    }
  }

  lemma {:induction false} InsertSorted(t: seq<Book>, x: Book, sortBy: SortKey)
    requires Sorted(t, sortBy)
    ensures Sorted(Insert(t, x, sortBy), sortBy)
  {
    if t != [] {
      var last := t[|t| - 1];
      if Le(last, x, sortBy) {
        forall i | 0 <= i < |t| ensures Le(t[i], x, sortBy) {
          if i < |t| - 1 {
            StrLeTransitive(Key(t[i], sortBy), Key(last, sortBy), Key(x, sortBy));
          }
        }
      } else {
        var init := t[..|t| - 1];
        InsertSorted(init, x, sortBy);
        InsertPermutes(init, x, sortBy);
        StrLeTotal(Key(last, sortBy), Key(x, sortBy));
        var r := Insert(init, x, sortBy);
        forall i | 0 <= i < |r| ensures Le(r[i], last, sortBy) {
          assert r[i] in multiset(r);
          assert r[i] in init || r[i] == x;
        }
      }
    }
  }

  /** The sorted view holds the same records, each as often. */
  lemma {:induction false} SortPermutes(s: seq<Book>, sortBy: SortKey)
    ensures multiset(Sort(s, sortBy)) == multiset(s)
  {
    if s != [] {
      var init, last := s[..|s| - 1], s[|s| - 1];
      var sorted := Sort(init, sortBy);
      assert Sort(s, sortBy) == Insert(sorted, last, sortBy);
      SortPermutes(init, sortBy);
      InsertPermutes(sorted, last, sortBy);
      assert multiset(s) == multiset(init) + multiset{last} by {
        LastSplit(s);
      }
    }
  }

  /** The sorted view is ordered by the chosen key. */
  lemma {:induction false} SortSorts(s: seq<Book>, sortBy: SortKey)
    ensures Sorted(Sort(s, sortBy), sortBy)
  {
    if s != [] {
      SortSorts(s[..|s| - 1], sortBy);
      InsertSorted(Sort(s[..|s| - 1], sortBy), s[|s| - 1], sortBy);
    }
  }

  /** The records whose key is `k`, in their order. */
  function WithKey(s: seq<Book>, k: string, sortBy: SortKey): seq<Book> {
    if s == [] then [] else WithKey(s[..|s| - 1], k, sortBy) + (if Key(s[|s| - 1], sortBy) == k then [s[|s| - 1]] else [])
  }

  lemma {:induction false} WithKeyConcat(a: seq<Book>, b: seq<Book>, k: string, sortBy: SortKey)
    ensures WithKey(a + b, k, sortBy) == WithKey(a, k, sortBy) + WithKey(b, k, sortBy)
  {
    if b == [] {
      assert a + b == a;
    } else {
      assert (a + b)[..|a + b| - 1] == a + b[..|b| - 1];
      WithKeyConcat(a, b[..|b| - 1], k, sortBy);
    }
  }

  lemma WithKeySingle(y: Book, k: string, sortBy: SortKey)
    ensures WithKey([y], k, sortBy) == if Key(y, sortBy) == k then [y] else []
  {
    assert [y][..0] == [];
  }

  lemma {:induction false} InsertStable(t: seq<Book>, x: Book, k: string, sortBy: SortKey)
    ensures WithKey(Insert(t, x, sortBy), k, sortBy) == WithKey(t, k, sortBy) + WithKey([x], k, sortBy)
  {
    if t == [] {
      assert Insert(t, x, sortBy) == [x];
    } else if Le(t[|t| - 1], x, sortBy) {
      assert Insert(t, x, sortBy) == t + [x];
      WithKeyConcat(t, [x], k, sortBy);
    } else {
      var init, last := t[..|t| - 1], t[|t| - 1];
      var wi, wx, wl := WithKey(init, k, sortBy), WithKey([x], k, sortBy), WithKey([last], k, sortBy);
      assert WithKey(Insert(t, x, sortBy), k, sortBy) == wi + wx + wl by {
        var r := Insert(init, x, sortBy);
        assert Insert(t, x, sortBy) == r + [last];
        InsertStable(init, x, k, sortBy);
        WithKeyConcat(r, [last], k, sortBy);
      }
      assert WithKey(t, k, sortBy) == wi + wl by {
        WithKeyConcat(init, [last], k, sortBy);
        LastSplit(t);
      }
      assert wx == [] || wl == [] by {
        StrLeTotal(Key(last, sortBy), Key(x, sortBy));
        WithKeySingle(x, k, sortBy);
        WithKeySingle(last, k, sortBy);
      }
    }
  }

  /** The sort is stable: for every key value, the records carrying it keep
      their relative order. */
  lemma {:induction false} SortStable(s: seq<Book>, k: string, sortBy: SortKey)
    ensures WithKey(Sort(s, sortBy), k, sortBy) == WithKey(s, k, sortBy)
  {
    if s != [] {
      var init, last := s[..|s| - 1], s[|s| - 1];
      SortStable(init, k, sortBy);
      InsertStable(Sort(init, sortBy), last, k, sortBy);
      WithKeyConcat(init, [last], k, sortBy);
      LastSplit(s);
    }
  }

  /** The sort of one more record is that record inserted into the sort of the rest. */
  lemma SortExtend(s: seq<Book>, i: int, sortBy: SortKey)
    requires 0 <= i < |s|
    ensures Sort(s[..i + 1], sortBy) == Insert(Sort(s[..i], sortBy), s[i], sortBy)
  {
    assert s[..i + 1][..i] == s[..i];
  }

  /** One exchange of the inserted record `x`, at `j`, with its greater
      left neighbour keeps the insertion loop's invariant, one place further left. */
  lemma InsertionStep(before: seq<Book>, after: seq<Book>, j: int, i: int, sorted: seq<Book>, sortBy: SortKey)
    requires 0 < j <= i < |before|
    requires after == before[j - 1 := before[j]][j := before[j - 1]]
    requires !Le(before[j - 1], before[j], sortBy)
    requires Insert(sorted, before[j], sortBy) == Insert(before[..j], before[j], sortBy) + before[j + 1..i + 1]
    ensures after[j - 1] == before[j]
    ensures after[i + 1..] == before[i + 1..]
    ensures Insert(sorted, before[j], sortBy) == Insert(after[..j - 1], before[j], sortBy) + after[j..i + 1]
  {
    var x, y := before[j], before[j - 1];
    var front, tail := before[..j - 1], before[j + 1..i + 1];
    SwapShape(before, j, i);
    calc {
      Insert(sorted, x, sortBy);
      Insert(before[..j], x, sortBy) + tail;
      { PrefixShape(before, j); InsertPastGreater(before[..j], x, sortBy); }
      Insert(front, x, sortBy) + [y] + tail;
      Insert(front, x, sortBy) + ([y] + tail);
      Insert(after[..j - 1], x, sortBy) + after[j..i + 1];
    }
  }

  lemma PrefixShape<T>(s: seq<T>, j: int)
    requires 0 < j <= |s|
    ensures s[..j][..j - 1] == s[..j - 1] && s[..j][j - 1] == s[j - 1]
  {
  }

  /** Inserting after a record that compares greater puts the new record in
      front of it. */
  lemma InsertPastGreater(t: seq<Book>, x: Book, sortBy: SortKey)
    requires t != [] && !Le(t[|t| - 1], x, sortBy)
    ensures Insert(t, x, sortBy) == Insert(t[..|t| - 1], x, sortBy) + [t[|t| - 1]]
  {
  }

  /** Exchanging the neighbours at `j - 1` and `j` leaves the front and the
      back alone and moves the left one to the start of the middle. */
  lemma SwapShape<T>(before: seq<T>, j: int, i: int)
    requires 0 < j <= i < |before|
    ensures var after := before[j - 1 := before[j]][j := before[j - 1]];
      && after[j - 1] == before[j]
      && after[..j - 1] == before[..j - 1]
      && after[i + 1..] == before[i + 1..]
      && after[j..i + 1] == [before[j - 1]] + before[j + 1..i + 1]
  {
    var after := before[j - 1 := before[j]][j := before[j - 1]];
    var u, v := after[j..i + 1], [before[j - 1]] + before[j + 1..i + 1];
    forall k | 0 <= k < |u| ensures u[k] == v[k] {
      if k > 0 {
        assert u[k] == after[j + k] == before[j + k];
      }
    }
  }

  /** Once the inserted record is no smaller than its left neighbour (or
      has reached the front), inserting it there changes nothing. */
  lemma InsertionStops(cur: seq<Book>, j: int, i: int, sortBy: SortKey)
    requires 0 <= j <= i < |cur|
    requires j > 0 ==> Le(cur[j - 1], cur[j], sortBy)
    ensures Insert(cur[..j], cur[j], sortBy) + cur[j + 1..i + 1] == cur[..i + 1]
  {
    assert j > 0 ==> cur[..j][j - 1] == cur[j - 1];
    assert Insert(cur[..j], cur[j], sortBy) == cur[..j] + [cur[j]];
    assert cur[..i + 1] == cur[..j] + [cur[j]] + cur[j + 1..i + 1];
  }

  /** Moves `a[i]` left past every greater neighbour: one pass of the
      insertion sort. */
  method InsertAt(a: array<Book>, i: int, sortBy: SortKey)
    requires 0 <= i < a.Length
    modifies a
    ensures a[..i + 1] == Insert(old(a[..i]), old(a[i]), sortBy)
    ensures a[i + 1..] == old(a[i + 1..])
  {
    ghost var sorted, x, rest := a[..i], a[i], a[i + 1..];
    var j := i;
    while j > 0 && !Le(a[j - 1], a[j], sortBy)
      invariant 0 <= j <= i
      invariant a[j] == x
      invariant a[i + 1..] == rest
      invariant Insert(sorted, x, sortBy) == Insert(a[..j], x, sortBy) + a[j + 1..i + 1]
    {
      ghost var before := a[..];
      a[j - 1], a[j] := a[j], a[j - 1];
      assert a[..] == before[j - 1 := before[j]][j := before[j - 1]];
      InsertionStep(before, a[..], j, i, sorted, sortBy);
      j := j - 1;
    }
    InsertionStops(a[..], j, i, sortBy);
    assert a[..i + 1] == a[..][..i + 1];
  }

  /** The in-place sort of the array holding the filtered copy. */
  method SortInPlace(a: array<Book>, sortBy: SortKey)
    modifies a
    ensures a[..] == Sort(old(a[..]), sortBy)
  {
    ghost var s0 := a[..];
    var i := 0;
    while i < a.Length
      invariant 0 <= i <= a.Length
      invariant a[..i] == Sort(s0[..i], sortBy)
      invariant a[i..] == s0[i..]
    {
      ghost var prev := a[..];
      assert prev[..i] == a[..i] && prev[i] == s0[i] by {
        assert a[i..][0] == s0[i..][0];
      }
      InsertAt(a, i, sortBy);
      SortExtend(s0, i, sortBy);
      assert a[i + 1..] == s0[i + 1..] by {
        assert prev[i + 1..] == prev[i..][1..];
      }
      i := i + 1;
    }
    assert a[..] == a[..a.Length] && s0 == s0[..a.Length];
  }

  // ---------------------------------------------------------------------
  // the projection
  // ---------------------------------------------------------------------

  /** The displayed list: the matching records, sorted by the chosen key. */
  function View(books: seq<Book>, term: string, sortBy: SortKey): seq<Book> {
    Sort(Matching(books, term), sortBy)
  }

  /** The effect that recomputes `filteredBooks`: copy the records, filter
      them when there is a term, sort the copy in place. */
  method Project(books: seq<Book>, term: string, sortBy: SortKey) returns (result: seq<Book>)
    ensures result == View(books, term, sortBy)
  {
    var filtered := books;
    if term != "" {
      filtered := Filter(filtered, term);
    }
    var a := new Book[|filtered|](k requires 0 <= k < |filtered| => filtered[k]);
    assert a[..] == filtered;
    SortInPlace(a, sortBy);
    result := a[..];
  }

  /** The view is a sorted, stable permutation of exactly the records that
      match the term. */
  lemma ViewIsSortedFilter(books: seq<Book>, term: string, sortBy: SortKey)
    ensures multiset(View(books, term, sortBy)) == multiset(Filter(books, term))
    ensures forall b :: b in View(books, term, sortBy) <==> b in books && Matches(b, term)
    ensures Sorted(View(books, term, sortBy), sortBy)
    ensures forall k :: WithKey(View(books, term, sortBy), k, sortBy) == WithKey(Filter(books, term), k, sortBy)
  {
    MatchingIsFilter(books, term);
    var f := Filter(books, term);
    SortPermutes(f, sortBy);
    SortSorts(f, sortBy);
    forall k ensures WithKey(View(books, term, sortBy), k, sortBy) == WithKey(f, k, sortBy) {
      SortStable(f, k, sortBy);
    }
    forall b ensures b in View(books, term, sortBy) <==> b in f {
      assert b in multiset(View(books, term, sortBy)) <==> b in multiset(f);
    }
  }

  /** With an empty term the view shows every record, each once per occurrence. */
  lemma ViewEmptyTermKeepsAll(books: seq<Book>, sortBy: SortKey)
    ensures multiset(View(books, "", sortBy)) == multiset(books)
  {
    SortPermutes(books, sortBy);
  }

  /** Sorting by availability puts every Available record before every
      Issued one, as "Available" precedes "Issued". */
  lemma ViewByAvailabilityGroups(books: seq<Book>, term: string)
    ensures var v := View(books, term, ByAvailability);
      forall i, j :: 0 <= i < j < |v| && v[j].availability == Available ==> v[i].availability == Available
  {
    var v := View(books, term, ByAvailability);
    SortSorts(Matching(books, term), ByAvailability);
    assert !StrLe("Issued", "Available");
    forall i, j | 0 <= i < j < |v| && v[j].availability == Available
      ensures v[i].availability == Available
    {
      assert Le(v[i], v[j], ByAvailability);
    }
  }

  /** The search ignores ASCII case in the term. */
  lemma MatchesIgnoresCase(b: Book, term: string)
    ensures Matches(b, term) <==> Matches(b, Lower(term))
  {
    LowerIdempotent(term);
  }

  /** Searching "orwell" finds the record whose author is "George Orwell";
      searching "zzz" does not. */
  lemma SearchExample()
    ensures Matches(Book("2", "1984", "George Orwell", Issued), "orwell")
    ensures !Matches(Book("2", "1984", "George Orwell", Issued), "zzz")
  {
    OrwellOccurs();
    NoZ("1984");
    NoZ("George Orwell");
  }

  lemma OrwellOccurs()
    ensures Contains(Lower("George Orwell"), Lower("orwell"))
  {
    LowerGeorgeOrwell();
    LowerOrwell();
    OrwellInside(Lower("George Orwell"), Lower("orwell"));
  }

  lemma LowerGeorgeOrwell()
    ensures Lower("George Orwell") == "george orwell"
  {
    assert |Lower("George Orwell")| == 13;
  }

  lemma LowerOrwell()
    ensures Lower("orwell") == "orwell"
  {
    assert |Lower("orwell")| == 6;
  }

  lemma OrwellInside(author: string, term: string)
    requires author == "george orwell" && term == "orwell"
    ensures Contains(author, term)
  {
    assert author[7..13] == term;
    assert OccursAt(author, term, 7);
  }

  lemma NoZ(s: string)
    requires 'z' !in s && 'Z' !in s
    ensures !Contains(Lower(s), Lower("zzz"))
  {
    assert Lower("zzz") == "zzz";
    assert 'z' !in Lower(s);
    AbsentFirstChar(Lower(s), "zzz");
  }

  lemma AbsentFirstChar(s: string, t: string)
    requires t != [] && t[0] !in s
    ensures !Contains(s, t)
  {
    forall i | 0 <= i <= |s| - |t| ensures !OccursAt(s, t, i) {
      assert s[i..i + |t|][0] == s[i];
    }
  }
}
