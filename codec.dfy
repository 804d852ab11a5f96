/** The two text formats of the catalog: the pipe-delimited bulk-import
    lines a user pastes in, and the CSV text the export produces. */
module Codec {
  import opened Text
  import opened Catalog

  // ---------------------------------------------------------------------
  // bulk import
  // ---------------------------------------------------------------------

  const UnknownAuthor := "Unknown Author"

  /** The title given to a line with an empty title; `k` is the line's index
      among the non-blank lines. */
  function Placeholder(k: nat): string {
    "Imported Book " + NatToString(k + 1)
  }

  /** The fields of a line: its pieces between pipes, each trimmed. */
  function Fields(line: string): seq<string> {
    var parts := Split(line, '|');
    seq(|parts|, k requires 0 <= k < |parts| => Trim(parts[k]))
  }

  /** The lines that are not all white space, in their order. */
  function NonBlankLines(lines: seq<string>): (r: seq<string>)
    ensures forall l :: l in r <==> l in lines && Trim(l) != []
    ensures |r| <= |lines|
  {
    if lines == [] then []
    else if Trim(lines[0]) != [] then [lines[0]] + NonBlankLines(lines[1..])
    else NonBlankLines(lines[1..])
  }

  /** Dropping blank lines works line by line: it distributes over
      concatenation, so a kept line's index is the number of non-blank lines
      before it. */
  lemma {:induction false} NonBlankConcat(a: seq<string>, b: seq<string>)
    ensures NonBlankLines(a + b) == NonBlankLines(a) + NonBlankLines(b)
  {
    if a == [] {
      assert a + b == b;
    } else {
      assert (a + b)[0] == a[0];
      assert (a + b)[1..] == a[1..] + b;
      NonBlankConcat(a[1..], b);
    }
  }

  /** One line is kept exactly when it does not trim to empty. */
  lemma NonBlankSingle(l: string)
    ensures NonBlankLines([l]) == if Trim(l) != [] then [l] else []
  {
    assert [l][1..] == [];
  }

  /** The record the non-blank line with index `k` contributes: one when
      the line has at least two fields, none otherwise. */
  function LineBook(line: string, now: nat, k: nat): Option<Book> {
    var parts := Fields(line);
    if |parts| >= 2 then
      Some(Book(NatToString(now + k),
                if parts[0] == "" then Placeholder(k) else parts[0],
                if parts[1] == "" then UnknownAuthor else parts[1],
                if |parts| > 2 && parts[2] == "Issued" then Issued else Available))
    else None
  }

  function OptionToSeq(o: Option<Book>): seq<Book> {
    match o
    case Some(b) => [b]
    case None => []
  }

  /** The records the non-blank lines contribute, in line order. */
  function ImportLines(lines: seq<string>, now: nat): seq<Book> {
    if lines == [] then []
    else ImportLines(lines[..|lines| - 1], now) + OptionToSeq(LineBook(lines[|lines| - 1], now, |lines| - 1))
  }

  /** What a bulk import of `text` yields, `now` being the clock reading the
      ids are offset from. */
  function Imported(text: string, now: nat): seq<Book> {
    ImportLines(NonBlankLines(Split(text, '\n')), now)
  }

  /** The loop of the bulk-import handler: one pass over the non-blank
      lines, appending a record for each line with at least two fields. */
  method ParseBulkImport(text: string, now: nat) returns (newBooks: seq<Book>)
    ensures newBooks == Imported(text, now)
  {
    var lines := NonBlankLines(Split(text, '\n'));
    newBooks := [];
    var index := 0;
    while index < |lines|
      invariant 0 <= index <= |lines|
      invariant newBooks == ImportLines(lines[..index], now)
    {
      ImportLinesStep(lines, index, now);
      match LineBook(lines[index], now, index) {
        case Some(b) => newBooks := newBooks + [b];
        case None =>
      }
      index := index + 1;
    }
    assert lines[..index] == lines;
  }

  /** Importing one more line adds what that line contributes. */
  lemma ImportLinesStep(lines: seq<string>, i: nat, now: nat)
    requires i < |lines|
    ensures ImportLines(lines[..i + 1], now) == ImportLines(lines[..i], now) + OptionToSeq(LineBook(lines[i], now, i))
  {
    assert lines[..i + 1][..i] == lines[..i];
  }

  /** A line contributes a record exactly when it contains a pipe, and that
      record always passes the form's validation: a blank title or author is
      replaced by its default. */
  lemma LineBookAccepted(line: string, now: nat, k: nat)
    ensures LineBook(line, now, k).Some? <==> '|' in line
    ensures LineBook(line, now, k).Some? ==> Complete(LineBook(line, now, k).value)
    ensures LineBook(line, now, k).Some? ==> LineBook(line, now, k).value.id == NatToString(now + k)
  {
    SplitCount(line, '|');
  }

  /** The field rules, read off the raw line: with `p` its first pipe and
      `q` the next pipe or its end, the title is the trimmed text before `p`,
      the author the trimmed text between `p` and `q`, each replaced by its
      default when empty, and the record is Issued exactly when there is a
      third field that trims to "Issued". */
  lemma LineBookFields(line: string, now: nat, k: nat, p: nat, q: nat)
    requires p < q <= |line| && line[p] == '|' && (q == |line| || line[q] == '|')
    requires '|' !in line[..p] && '|' !in line[p + 1..q]
    ensures LineBook(line, now, k).Some?
    ensures var b := LineBook(line, now, k).value;
            var title, author := Trim(line[..p]), Trim(line[p + 1..q]);
            && b.id == NatToString(now + k)
            && b.title == (if title == "" then Placeholder(k) else title)
            && b.author == (if author == "" then UnknownAuthor else author)
            && (b.availability == Issued <==> q < |line| && Trim(Split(line[q + 1..], '|')[0]) == "Issued")
  {
    var parts, rest := Split(line, '|'), line[p + 1..];
    SplitFirst(line, p);
    if q == |line| {
      assert rest == line[p + 1..q];
      SplitWithoutSep(rest, '|');
      assert |parts| == 2;
    } else {
      SplitFirst(rest, q - p - 1);
      assert rest[..q - p - 1] == line[p + 1..q] && rest[q - p..] == line[q + 1..];
      assert |parts| > 2 && parts[2] == Split(line[q + 1..], '|')[0];
    }
    assert parts[0] == line[..p] && parts[1] == line[p + 1..q];
  }

  /** Split takes the text before the first separator as its first piece. */
  lemma SplitFirst(line: string, p: nat)
    requires p < |line| && line[p] == '|' && '|' !in line[..p]
    ensures Split(line, '|') == [line[..p]] + Split(line[p + 1..], '|')
  {
    assert line == line[..p] + ['|'] + line[p + 1..];
    SplitAround(line[..p], '|', line[p + 1..]);
    SplitWithoutSep(line[..p], '|');
  }

  /** The indices of the lines that contain a pipe, in increasing order. */
  function Accepted(lines: seq<string>): (r: seq<nat>)
    ensures forall m :: 0 <= m < |r| ==> r[m] < |lines|
  {
    if lines == [] then []
    else Accepted(lines[..|lines| - 1]) + (if '|' in lines[|lines| - 1] then [|lines| - 1] else [])
  }

  /** Accepted lists exactly the lines with a pipe, each once, in order. */
  lemma {:induction false} AcceptedIndices(lines: seq<string>)
    ensures forall k :: k in Accepted(lines) <==> 0 <= k < |lines| && '|' in lines[k]
    ensures forall m, n :: 0 <= m < n < |Accepted(lines)| ==> Accepted(lines)[m] < Accepted(lines)[n]
  {
    if lines != [] {
      var init := lines[..|lines| - 1];
      AcceptedIndices(init);
      assert forall k :: 0 <= k < |init| ==> init[k] == lines[k];
    }
  }

  /** The import yields one record per line with a pipe, in line order: the
      m-th record is the one the m-th such line contributes. */
  lemma {:induction false} ImportLinesByLine(lines: seq<string>, now: nat)
    ensures |ImportLines(lines, now)| == |Accepted(lines)|
    ensures forall m :: 0 <= m < |Accepted(lines)| ==>
              LineBook(lines[Accepted(lines)[m]], now, Accepted(lines)[m]) == Some(ImportLines(lines, now)[m])
  {
    if lines != [] {
      var init, last, n := lines[..|lines| - 1], lines[|lines| - 1], |lines| - 1;
      ImportLinesByLine(init, now);
      var acc0, r0 := Accepted(init), ImportLines(init, now);
      LineBookAccepted(last, now, n);
      if '|' in last {
        assert Accepted(lines) == acc0 + [n];
        assert ImportLines(lines, now) == r0 + [LineBook(last, now, n).value];
      } else {
        assert Accepted(lines) == acc0;
        assert ImportLines(lines, now) == r0;
      }
      forall m | 0 <= m < |acc0| ensures LineBook(lines[acc0[m]], now, acc0[m]) == Some(r0[m]) {
        assert lines[acc0[m]] == init[acc0[m]];
      }
    }
  }

  /** Every imported record passes the form's validation, and the ids of
      one batch are pairwise distinct. */
  lemma ImportedRecords(lines: seq<string>, now: nat)
    ensures forall b :: b in ImportLines(lines, now) ==> Complete(b)
    ensures DistinctIds(ImportLines(lines, now))
  {
    var r, acc := ImportLines(lines, now), Accepted(lines);
    ImportLinesByLine(lines, now);
    AcceptedIndices(lines);
    forall m | 0 <= m < |r| ensures Complete(r[m]) && r[m].id == NatToString(now + acc[m]) {
      LineBookAccepted(lines[acc[m]], now, acc[m]);
    }
    forall m, n | 0 <= m < n < |r| ensures r[m].id != r[n].id {
      if r[m].id == r[n].id {
        NatToStringInjective(now + acc[m], now + acc[n]);
      }
    }
  }

  /** A line with no line feed and no white space at either end. */
  predicate PlainLine(line: string) {
    line != [] && '\n' !in line && !IsSpace(line[0]) && !IsSpace(line[|line| - 1])
  }

  /** Lines already joined by line feeds come back from the split, and a
      line with no white space at its ends is kept. */
  lemma PlainLines(lines: seq<string>)
    requires |lines| >= 1
    requires forall k :: 0 <= k < |lines| ==> PlainLine(lines[k])
    ensures NonBlankLines(Split(Join(lines, '\n'), '\n')) == lines
  {
    SplitJoin(lines, '\n');
    AllKept(lines);
  }

  lemma {:induction false} AllKept(lines: seq<string>)
    requires forall k :: 0 <= k < |lines| ==> PlainLine(lines[k])
    ensures NonBlankLines(lines) == lines
  {
    if lines != [] {
      TrimUnchanged(lines[0]);
      AllKept(lines[1..]);
    }
  }

  /** Fields already joined by pipes come back from the split, each kept as
      it is when it has no white space at its ends. */
  lemma PlainFields(parts: seq<string>)
    requires |parts| >= 1
    requires forall k :: 0 <= k < |parts| ==> '|' !in parts[k]
    requires forall k :: 0 <= k < |parts| ==> parts[k] != [] ==> !IsSpace(parts[k][0]) && !IsSpace(parts[k][|parts[k]| - 1])
    ensures Fields(Join(parts, '|')) == parts
  {
    SplitJoin(parts, '|');
    forall k | 0 <= k < |parts| ensures Trim(parts[k]) == parts[k] {
      TrimUnchanged(parts[k]);
    }
  }

  /** An example: a full line, a line with an empty title and a line
      without a pipe yield two records, the second titled "Imported Book 2"
      because the placeholder counts the line's position among the
      non-blank lines. */
  lemma ImportExample(now: nat, dune: string, anon: string, only: string)
    requires dune == "Dune|Frank Herbert|Issued"
    requires anon == "|Anon|Available"
    requires only == "OnlyTitle"
    ensures Imported(Join([dune, anon, only], '\n'), now)
         == [Book(NatToString(now), "Dune", "Frank Herbert", Issued),
             Book(NatToString(now + 1), "Imported Book 2", "Anon", Available)]
  {
    ExampleLines(dune, anon, only);
    ExampleDune(dune, now);
    ExampleAnon(anon, now);
    ExampleOnly(only, now, 2);
    ImportThree(dune, anon, only, now);
  }

  /** Three lines import as what each contributes, in order. */
  lemma ImportThree(l0: string, l1: string, l2: string, now: nat)
    ensures ImportLines([l0, l1, l2], now)
         == OptionToSeq(LineBook(l0, now, 0)) + OptionToSeq(LineBook(l1, now, 1)) + OptionToSeq(LineBook(l2, now, 2))
  {
    var lines := [l0, l1, l2];
    var o0, o1, o2 := OptionToSeq(LineBook(l0, now, 0)), OptionToSeq(LineBook(l1, now, 1)), OptionToSeq(LineBook(l2, now, 2));
    assert ImportLines(lines[..2], now) == o0 + o1 by {
      ImportTwo(l0, l1, now);
      assert lines[..2] == [l0, l1];
    }
    assert ImportLines(lines, now) == ImportLines(lines[..2], now) + o2 by {
      ImportLinesStep(lines, 2, now);
      assert lines[..3] == lines;
    }
  }

  /** Two lines import as what each contributes, in order. */
  lemma ImportTwo(l0: string, l1: string, now: nat)
    ensures ImportLines([l0, l1], now) == OptionToSeq(LineBook(l0, now, 0)) + OptionToSeq(LineBook(l1, now, 1))
  {
    var lines := [l0, l1];
    assert ImportLines(lines[..1], now) == OptionToSeq(LineBook(l0, now, 0)) by {
      ImportLinesStep(lines, 0, now);
      assert lines[..0] == [];
    }
    ImportLinesStep(lines, 1, now);
    assert lines[..2] == lines;
  }

  /** The placeholder number is the line's position among the non-blank
      lines, not among the accepted ones: a rejected line before an untitled
      one still advances it. */
  lemma PlaceholderCountsRejectedLines(now: nat, only: string, anon: string)
    requires only == "OnlyTitle"
    requires anon == "|Anon"
    ensures Imported(Join([only, anon], '\n'), now)
         == [Book(NatToString(now + 1), "Imported Book 2", "Anon", Available)]
  {
    ShortExampleLines(only, anon);
    ExampleOnly(only, now, 0);
    ShortExampleAnon(anon, now);
    ImportTwo(only, anon, now);
  }

  lemma ShortExampleLines(only: string, anon: string)
    requires only == "OnlyTitle"
    requires anon == "|Anon"
    ensures NonBlankLines(Split(Join([only, anon], '\n'), '\n')) == [only, anon]
  {
    assert PlainLine(anon);
    assert PlainLine(only);
    PlainLines([only, anon]);
  }

  lemma ShortExampleAnon(anon: string, now: nat)
    requires anon == "|Anon"
    ensures LineBook(anon, now, 1) == Some(Book(NatToString(now + 1), "Imported Book 2", "Anon", Available))
  {
    assert anon == Join(["", "Anon"], '|');
    PlainFields(["", "Anon"]);
    var parts := Fields(anon);
    assert parts == ["", "Anon"];
    assert NatToString(2) == "2";
    assert Placeholder(1) == "Imported Book 2";
  }

  lemma ExampleLines(dune: string, anon: string, only: string)
    requires dune == "Dune|Frank Herbert|Issued"
    requires anon == "|Anon|Available"
    requires only == "OnlyTitle"
    ensures NonBlankLines(Split(Join([dune, anon, only], '\n'), '\n')) == [dune, anon, only]
  {
    DunePlain(dune);
    AnonPlain(anon);
    assert PlainLine(only);
    PlainLines([dune, anon, only]);
  }

  lemma DunePlain(dune: string)
    requires dune == "Dune|Frank Herbert|Issued"
    ensures PlainLine(dune)
  {
  }

  lemma AnonPlain(anon: string)
    requires anon == "|Anon|Available"
    ensures PlainLine(anon)
  {
  }

  lemma ExampleOnly(only: string, now: nat, k: nat)
    requires only == "OnlyTitle"
    ensures LineBook(only, now, k) == None
  {
    SplitWithoutSep(only, '|');
  }

  lemma ExampleDune(dune: string, now: nat)
    requires dune == "Dune|Frank Herbert|Issued"
    ensures LineBook(dune, now, 0) == Some(Book(NatToString(now), "Dune", "Frank Herbert", Issued))
  {
    DuneFields(dune);
  }

  lemma DuneFields(dune: string)
    requires dune == "Dune|Frank Herbert|Issued"
    ensures Fields(dune) == ["Dune", "Frank Herbert", "Issued"]
  {
    var parts := ["Dune", "Frank Herbert", "Issued"];
    assert dune == Join(parts, '|') by {
      JoinThree("Dune", "Frank Herbert", "Issued", '|');
    }
    assert Fields(Join(parts, '|')) == parts by {
      PlainFields(parts);
    }
  }

  lemma ExampleAnon(anon: string, now: nat)
    requires anon == "|Anon|Available"
    ensures LineBook(anon, now, 1) == Some(Book(NatToString(now + 1), "Imported Book 2", "Anon", Available))
  {
    AnonFields(anon);
    var parts := Fields(anon);
    assert NatToString(2) == "2";
    assert Placeholder(1) == "Imported Book 2";
    assert parts[2] != "Issued";
  }

  lemma AnonFields(anon: string)
    requires anon == "|Anon|Available"
    ensures Fields(anon) == ["", "Anon", "Available"]
  {
    assert anon == Join(["", "Anon", "Available"], '|');
    PlainFields(["", "Anon", "Available"]);
  }

  // ---------------------------------------------------------------------
  // CSV export
  // ---------------------------------------------------------------------

  const CsvHeader := "Book ID,Title,Author,Availability"

  /** The four fields of a record, in column order. */
  function Columns(b: Book): seq<string> {
    [b.id, b.title, b.author, Label(b.availability)]
  }

  /** A record's fields joined by commas, with no quoting. */
  function Row(b: Book): string {
    Join(Columns(b), ',')
  }

  function Rows(books: seq<Book>): seq<string> {
    seq(|books|, k requires 0 <= k < |books| => Row(books[k]))
  }

  /** The exported text: the header, then one row per record in stored
      order, joined by line feeds with none after the last. */
  function Csv(books: seq<Book>): string {
    Join([CsvHeader] + Rows(books), '\n')
  }

  /** An empty catalog exports just the header, and each further record adds
      a line feed and its row at the end. */
  lemma CsvGrows(books: seq<Book>, b: Book)
    ensures Csv([]) == CsvHeader
    ensures Csv(books + [b]) == Csv(books) + "\n" + Row(b)
  {
    assert [CsvHeader] + Rows(books + [b]) == ([CsvHeader] + Rows(books)) + [Row(b)];
    JoinSnoc([CsvHeader] + Rows(books), Row(b), '\n');
  }

  /** A field is exported faithfully when it holds neither separator. */
  predicate Plain(field: string) {
    ',' !in field && '\n' !in field
  }

  /** When no field holds a comma or a line feed, the text decodes back:
      its lines are the header and one row per record, and each row splits
      into the record's four fields. */
  lemma CsvDecodes(books: seq<Book>)
    requires forall b :: b in books ==> Plain(b.id) && Plain(b.title) && Plain(b.author)
    ensures Split(Csv(books), '\n') == [CsvHeader] + Rows(books)
    ensures forall k :: 0 <= k < |books| ==> Split(Rows(books)[k], ',') == Columns(books[k])
  {
    var lines := [CsvHeader] + Rows(books);
    forall k | 0 <= k < |books| ensures '\n' !in Rows(books)[k] && Split(Rows(books)[k], ',') == Columns(books[k]) {
      var b := books[k];
      assert b in books;
      assert Plain(Label(b.availability));
      JoinAvoids(Columns(b), ',', '\n');
      SplitJoin(Columns(b), ',');
    }
    forall k | 0 <= k < |lines| ensures '\n' !in lines[k] {
      if k > 0 {
        assert lines[k] == Rows(books)[k - 1];
      }
    }
    SplitJoin(lines, '\n');
  }

  /** Without quoting, different records can export the same row: a comma
      inside the title cannot be told from one after it. */
  lemma CsvCommaAmbiguity()
    ensures Row(Book("1", "A,B", "C", Available)) == Row(Book("1", "A", "B,C", Available))
  {
  }

  /** An example: two records export to three lines. */
  lemma CsvExample(b1: Book, b2: Book)
    requires b1 == Book("1", "A", "B", Available) && b2 == Book("2", "C", "D", Issued)
    ensures Csv([b1, b2]) == "Book ID,Title,Author,Availability\n1,A,B,Available\n2,C,D,Issued"
  {
    CsvGrows([], b1);
    CsvGrows([b1], b2);
    assert [] + [b1] == [b1] && [b1] + [b2] == [b1, b2];
    ExampleRows(b1, b2);
    ExampleText(CsvHeader, Row(b1), Row(b2));
  }

  lemma ExampleRows(b1: Book, b2: Book)
    requires b1 == Book("1", "A", "B", Available) && b2 == Book("2", "C", "D", Issued)
    ensures Row(b1) == "1,A,B,Available" && Row(b2) == "2,C,D,Issued"
  {
    JoinFour("1", "A", "B", "Available", ',');
    JoinFour("2", "C", "D", "Issued", ',');
  }

  lemma JoinThree(a: string, b: string, c: string, sep: char)
    ensures Join([a, b, c], sep) == a + [sep] + b + [sep] + c
  {
    assert [a, b, c][1..] == [b, c] && [b, c][1..] == [c];
    assert Join([b, c], sep) == b + [sep] + c;
    assert a + [sep] + (b + [sep] + c) == a + [sep] + b + [sep] + c;
  }

  lemma JoinFour(a: string, b: string, c: string, d: string, sep: char)
    ensures Join([a, b, c, d], sep) == a + [sep] + b + [sep] + c + [sep] + d
  {
    assert [a, b, c, d][1..] == [b, c, d];
    JoinThree(b, c, d, sep);
    assert a + [sep] + (b + [sep] + c + [sep] + d) == a + [sep] + b + [sep] + c + [sep] + d;
  }

  lemma ExampleText(header: string, r1: string, r2: string)
    requires header == CsvHeader && r1 == "1,A,B,Available" && r2 == "2,C,D,Issued"
    ensures header + "\n" + r1 + "\n" + r2 == "Book ID,Title,Author,Availability\n1,A,B,Available\n2,C,D,Issued"
  {
  }
}
