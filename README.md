# Library book management: a Dafny model

This project models the `BookManagement` component of a small library
catalog web application, together with the `Book` record it manages. The
component keeps a list of book records. Each record has an id, a title, an
author and an availability that is either Available or Issued. Through the
component a user can:

- add, edit, update, delete and toggle records;
- search and sort the displayed list;
- paste pipe-delimited lines to import records in bulk;
- export the catalog as CSV text;
- see dashboard statistics.

The model has five modules:

- `Text` (text.dfy) covers the JavaScript string operations the component
  relies on:
  - `trim`, with the full ECMAScript white-space set;
  - `split` and `join` on one separator;
  - ASCII `toLowerCase` and `includes`;
  - a total order standing in for `localeCompare`;
  - decimal rendering of numbers.
- `Catalog` (catalog.dfy) covers:
  - the `Book` datatype;
  - the list transforms behind update, toggle and delete;
  - the seeding of the initial list;
  - the statistics.
- `Projection` (projection.dfy) is the displayed list. It filters on a
  case-insensitive substring of title or author, then sorts the copy. The
  in-place sort of that copy is a method on an array, proved equal to a
  functional insertion sort. The sort is proved to be a permutation, to be
  ordered, and to be stable.
- `Codec` (codec.dfy) covers the bulk-import parser and the CSV export:
  - the bulk-import loop is a method proved against the function
    `ImportLines`;
  - the CSV text is a function, with a decoding lemma.
- `State` (state.dfy) is the class `BookManagement`. Its fields are the
  component's state. Its methods are the button handlers. Every handler that
  changes the records, the search term or the sort key finishes by recomputing
  the displayed list, as the component's effect does. So each of them
  re-establishes the invariant `Shown()`: the displayed list is the
  projection of the current state.

An untitled imported record is numbered by its position among the
non-blank lines, not among the accepted lines. So a rejected line still
advances the number. `Codec.PlaceholderCountsRejectedLines` shows this.

## Model

| member | source | states |
|---|---|---|
| Catalog.Label | src/App.tsx:8 | the literal a record stores and the export writes for an availability: "Available" or "Issued" |
| Catalog.EmptyDraft | src/components/BookManagement.tsx:176-181 | the draft after a reset and at mount: empty id, title and author, Available |
| Catalog.SampleBooks | src/components/BookManagement.tsx:29-90 | the ten built-in records, with their ids, titles, authors and availabilities |
| Catalog.InitialBooks | src/components/BookManagement.tsx:21-95 | the list at mount: the stored list when there is one, the ten sample records otherwise (its shape is stated by `InitialBooksShape`) |
| Catalog.Complete | src/components/BookManagement.tsx:130 | the form's validation test, shared by add and update: both the title and the author are non-empty |
| Catalog.Replace | src/components/BookManagement.tsx:144 | the update keeps the length; each position holds the draft when its id is the draft's, and is unchanged otherwise |
| Catalog.ReplaceKeepsIds | src/components/BookManagement.tsx:144 | the update keeps the ids in order; the draft is in the result iff its id was present |
| Catalog.ReplaceAbsent | src/components/BookManagement.tsx:144 | an update for an id no record has leaves the list unchanged |
| Catalog.ReplaceIdempotent | src/components/BookManagement.tsx:144 | repeating an update changes nothing more |
| Catalog.CountIdAbsent | src/components/BookManagement.tsx:156-173 | no record carries the id exactly when the count of records with that id is zero |
| Catalog.Flip | src/components/BookManagement.tsx:168 | the other availability: Available becomes Issued and Issued becomes Available |
| Catalog.Toggle | src/components/BookManagement.tsx:162-173 | toggling keeps length, order, ids, titles and authors, and flips availability on exactly the records with the id |
| Catalog.ToggleTwice | src/components/BookManagement.tsx:162-173 | toggling the same id twice restores the list |
| Catalog.ToggleAbsent | src/components/BookManagement.tsx:162-173 | toggling an absent id changes nothing |
| Catalog.Remove | src/components/BookManagement.tsx:158 | a record survives deletion iff it was there and has another id; the length drops by the number of records with the id |
| Catalog.RemoveIsSubsequence | src/components/BookManagement.tsx:158 | the survivors keep their original order |
| Catalog.RemoveKeepsDistinct | src/components/BookManagement.tsx:158 | deletion keeps distinct ids distinct |
| Catalog.RemoveAbsent | src/components/BookManagement.tsx:158 | deleting an absent id changes nothing |
| Catalog.RemoveConcat | src/components/BookManagement.tsx:158 | deletion works record by record: it distributes over concatenation |
| Catalog.RemoveIdempotent | src/components/BookManagement.tsx:158 | deleting twice removes nothing more |
| Catalog.InitialBooksShape | src/components/BookManagement.tsx:21-95 | a stored list is used verbatim; without one the list is ten samples with ids "1" to "10", distinct, each with a title and an author |
| Catalog.SampleIds | src/components/BookManagement.tsx:29-90 | the sample ids are "1" to "10" in order and pairwise distinct |
| Catalog.SampleComplete | src/components/BookManagement.tsx:29-90 | every sample has a non-empty title and author |
| Catalog.CountAvailability | src/components/BookManagement.tsx:211-212 | the number of records with the given availability (`CountsAddUp` relates the two counts to the total) |
| Catalog.Authors | src/components/BookManagement.tsx:214 | the set of author names (characterised by `AuthorsOf`) |
| Catalog.CountsAddUp | src/components/BookManagement.tsx:210-212 | available and issued counts add up to the total |
| Catalog.AuthorsOf | src/components/BookManagement.tsx:214 | a name is in the author set iff some record has it as author; the set is no larger than the list |
| Catalog.Percent | src/components/BookManagement.tsx:213 | 0 for an empty whole; otherwise the integer nearest to 100·part/whole, halves up; at most 100, and exactly 100 when part equals a non-empty whole |
| Catalog.ComputeStats | src/components/BookManagement.tsx:209-215 | total is the length; available and issued are the two availability counts and the percentage is `Percent` of available in total; available + issued = total; unique authors is the size of the set of author names and at most total; percentage and unique authors are 0 for an empty list; percentage ≤ 100, and 100 when every record is available |
| Text.IsSpace | src/components/BookManagement.tsx:224 | the characters trim removes: ECMAScript white space and line terminators |
| Text.Trim | src/components/BookManagement.tsx:220-224 | trim is the end trim of the start trim (its meaning is stated by `TrimIsCore` and `TrimEmptyIffBlank`) |
| Text.TrimStart | src/components/BookManagement.tsx:224 | the start trim never lengthens its input |
| Text.TrimEnd | src/components/BookManagement.tsx:224 | the end trim never lengthens its input |
| Text.TrimStartDrops | src/components/BookManagement.tsx:224 | the start trim keeps a suffix, drops only white space, and keeps no leading white space |
| Text.TrimEndDrops | src/components/BookManagement.tsx:224 | the end trim keeps a prefix, drops only white space, and keeps no trailing white space |
| Text.TrimIsCore | src/components/BookManagement.tsx:224 | trim yields a slice of its input with white space cut at both ends and none left at either end |
| Text.TrimEmptyIffBlank | src/components/BookManagement.tsx:220 | a line trims to empty exactly when it is all white space |
| Text.TrimUnchanged | src/components/BookManagement.tsx:224 | a string without white space at its ends is its own trim |
| Text.Split | src/components/BookManagement.tsx:224 | split always yields at least one piece |
| Text.SplitCount | src/components/BookManagement.tsx:224-225 | split yields one piece more than there are separators, so at least two iff the separator occurs |
| Text.SplitPiecesFree | src/components/BookManagement.tsx:224 | no piece contains the separator |
| Text.SplitWithoutSep | src/components/BookManagement.tsx:224 | a text without the separator splits into itself |
| Text.SplitAround | src/components/BookManagement.tsx:220 | splitting around one separator concatenates the splits of both sides |
| Text.Join | src/components/BookManagement.tsx:194-197 | the parts with the separator between each two, none at either end (inverse of `Split` by `JoinSplit` and `SplitJoin`) |
| Text.JoinSplit | src/components/BookManagement.tsx:194-197 | joining the pieces of a split gives the text back |
| Text.SplitJoin | src/components/BookManagement.tsx:194-197 | splitting a join gives the parts back when no part holds the separator |
| Text.JoinSnoc | src/components/BookManagement.tsx:194-197 | joining one more part appends a separator and that part |
| Text.JoinAvoids | src/components/BookManagement.tsx:194-197 | a character other than the separator is in the join only if it is in a part |
| Text.Lower | src/components/BookManagement.tsx:105-106 | each ASCII capital lowered, every other character kept (its properties are in `LowerIdempotent`) |
| Text.LowerIdempotent | src/components/BookManagement.tsx:105-106 | lower-casing twice equals once and leaves no ASCII capital |
| Text.Contains | src/components/BookManagement.tsx:105-106 | the substring test holds iff the term occurs at some position |
| Text.StrLe | src/components/BookManagement.tsx:111-119 | the key order: a prefix precedes its extensions, otherwise the first differing character decides (a total order by the three lemmas below) |
| Text.StrLeTotal | src/components/BookManagement.tsx:111-119 | any two keys compare one way or the other |
| Text.StrLeTransitive | src/components/BookManagement.tsx:111-119 | the key order is transitive |
| Text.StrLeAntisymmetric | src/components/BookManagement.tsx:111-119 | keys that compare both ways are equal |
| Text.NatToString | src/components/BookManagement.tsx:227 | the rendering is non-empty, all digits, and has two or more digits iff the number is at least 10 (its value is `NatToStringValue`) |
| Text.DigitsValue | src/components/BookManagement.tsx:227 | the number a digit string denotes, most significant digit first: a reference decoder for the rendering |
| Text.NatToStringValue | src/components/BookManagement.tsx:227 | read back as a decimal numeral, the rendering denotes the number itself |
| Text.NatToStringInjective | src/components/BookManagement.tsx:227 | different numbers render differently (a consequence of `NatToStringValue`) |
| Projection.Key | src/components/BookManagement.tsx:112-117 | the string the comparator compares for the chosen sort: the title, the author or the availability literal |
| Projection.Le | src/components/BookManagement.tsx:111-119 | the comparator keeps `a` in front of `b`: the key of `a` is at most the key of `b` |
| Projection.Matches | src/components/BookManagement.tsx:104-106 | the lower-cased term occurs in the lower-cased title or in the lower-cased author |
| Projection.Filter | src/components/BookManagement.tsx:102-108 | a record is kept iff it is in the list and matches; the result is no longer (multiplicity in `FilterCounts`, order in `FilterIsSubsequence`) |
| Projection.Matching | src/components/BookManagement.tsx:102-108 | the filter step, skipped for the empty term |
| Projection.FilterConcat | src/components/BookManagement.tsx:103-107 | the filter works record by record: it distributes over concatenation |
| Projection.FilterCounts | src/components/BookManagement.tsx:103-107 | a matching record is kept as often as it occurs, any other is dropped |
| Projection.MatchingIsFilter | src/components/BookManagement.tsx:102-108 | skipping the filter for the empty term is the same as filtering, since every record matches it |
| Projection.FilterIsSubsequence | src/components/BookManagement.tsx:103-107 | the filter keeps the original order |
| Projection.MatchesIgnoresCase | src/components/BookManagement.tsx:105-106 | a term and its lower-cased form match the same records |
| Projection.SearchExample | src/components/BookManagement.tsx:105-106 | "orwell" finds the record by George Orwell, "zzz" does not |
| Projection.Insert | src/components/BookManagement.tsx:111-119 | one insertion step adds exactly one element |
| Projection.Sort | src/components/BookManagement.tsx:111-119 | the sort keeps the length |
| Projection.InsertPermutes | src/components/BookManagement.tsx:111-119 | an insertion step adds the record to the multiset and nothing else |
| Projection.InsertSorted | src/components/BookManagement.tsx:111-119 | inserting into an ordered list keeps it ordered |
| Projection.SortPermutes | src/components/BookManagement.tsx:111-119 | the sorted list is a permutation of its input |
| Projection.SortSorts | src/components/BookManagement.tsx:111-119 | the sorted list is ordered by the chosen key |
| Projection.InsertStable | src/components/BookManagement.tsx:111-119 | an insertion step puts the new record after every record with an equal key |
| Projection.SortStable | src/components/BookManagement.tsx:111-119 | records with equal keys keep their relative order, as the stable array sort does |
| Projection.InsertAt | src/components/BookManagement.tsx:111-119 | one pass of the in-place sort leaves the first i+1 cells as the insertion of cell i into the first i, and the rest untouched |
| Projection.SortInPlace | src/components/BookManagement.tsx:111-119 | the in-place sort leaves the array holding the sort of its old contents |
| Projection.View | src/components/BookManagement.tsx:99-121 | the displayed list: the sort of the matching records (characterised by `ViewIsSortedFilter`) |
| Projection.Project | src/components/BookManagement.tsx:98-122 | the recomputed list equals the view: sort of the matching records |
| Projection.ViewIsSortedFilter | src/components/BookManagement.tsx:99-121 | the view is a sorted, stable permutation of exactly the records that match |
| Projection.ViewEmptyTermKeepsAll | src/components/BookManagement.tsx:102 | with an empty term the view is a permutation of all records |
| Projection.ViewByAvailabilityGroups | src/components/BookManagement.tsx:116-117 | sorted by availability, no Issued record precedes an Available one |
| Codec.NonBlankConcat | src/components/BookManagement.tsx:220 | dropping blank lines works line by line: it distributes over concatenation, so a kept line's index is the number of non-blank lines before it |
| Codec.NonBlankSingle | src/components/BookManagement.tsx:220 | a single line is kept exactly when it does not trim to empty |
| Codec.Fields | src/components/BookManagement.tsx:224 | a line's pipe-separated pieces, each trimmed |
| Codec.Placeholder | src/components/BookManagement.tsx:228 | the title given to an untitled line with index k: "Imported Book " followed by k+1 |
| Codec.LineBook | src/components/BookManagement.tsx:224-231 | the record one non-blank line with index k yields: with two or more trimmed fields, id now+k, title or the placeholder k+1, author or "Unknown Author", Issued iff the third field is "Issued"; with fewer, none (pinned by `LineBookAccepted` and `LineBookFields`) |
| Codec.ImportLines | src/components/BookManagement.tsx:223-233 | the records the non-blank lines yield, in line order (pinned record by record by `ImportLinesByLine`) |
| Codec.Imported | src/components/BookManagement.tsx:220-233 | the batch a text imports: its non-blank lines run through `ImportLines` |
| Codec.NonBlankLines | src/components/BookManagement.tsx:220 | a line is kept iff it is in the text and does not trim to empty (order and multiplicity in `NonBlankConcat` and `NonBlankSingle`) |
| Codec.ParseBulkImport | src/components/BookManagement.tsx:220-233 | the loop's result equals `Imported` of the text |
| Codec.LineBookAccepted | src/components/BookManagement.tsx:224-231 | a line yields a record iff it holds a pipe; that record has a non-empty title and author and the id now+k |
| Codec.LineBookFields | src/components/BookManagement.tsx:224-230 | read off the raw line: the title is the trimmed text before the first pipe, the author the trimmed text between it and the next pipe or the end of the line, each replaced by its default when empty; Issued iff a third field trims to "Issued" |
| Codec.AcceptedIndices | src/components/BookManagement.tsx:223-225 | the accepted indices are exactly the lines holding a pipe, strictly increasing |
| Codec.ImportLinesByLine | src/components/BookManagement.tsx:223-233 | one record per accepted line, in line order: the m-th record is what the m-th accepted line yields |
| Codec.ImportedRecords | src/components/BookManagement.tsx:226-231 | every imported record has a title and an author, and the ids of one batch are distinct |
| Codec.ImportExample | src/components/BookManagement.tsx:220-233 | the three-line example yields Dune (Issued) and "Imported Book 2" by Anon; the line without a pipe yields nothing |
| Codec.PlaceholderCountsRejectedLines | src/components/BookManagement.tsx:223-228 | a rejected line before an untitled one still advances the placeholder number |
| Codec.Columns | src/components/BookManagement.tsx:187-192 | a record's four export fields in column order: id, title, author, availability literal |
| Codec.Rows | src/components/BookManagement.tsx:187-195 | one comma-joined row per record, in stored order |
| Codec.Row | src/components/BookManagement.tsx:186-196 | a record's id, title, author and availability label joined by commas |
| Codec.Csv | src/components/BookManagement.tsx:185-197 | the header line and one row per record, joined by line feeds (decoded by `CsvDecodes`) |
| Codec.CsvGrows | src/components/BookManagement.tsx:194-197 | the empty catalog exports the header alone; each further record appends a line feed and its row |
| Codec.CsvDecodes | src/components/BookManagement.tsx:186-197 | without commas or line feeds in fields, the lines are the header and one row per record, and each row splits into the record's four fields |
| Codec.CsvCommaAmbiguity | src/components/BookManagement.tsx:196 | without quoting, two different records can export the same row |
| Codec.CsvExample | src/components/BookManagement.tsx:185-197 | two records export to the header and two rows, no trailing line feed |
| State.BookManagement.Shown | src/components/BookManagement.tsx:98-122 | the class invariant every handler re-establishes: the shown list is `View` of the current records, term and key |
| State.BookManagement.constructor | src/components/BookManagement.tsx:6-95 | mounting loads the stored list or the samples, empty search, title order, empty draft, and the shown list is the projection |
| State.BookManagement.Refresh | src/components/BookManagement.tsx:98-122 | the shown list becomes the projection of the current records, term and key |
| State.BookManagement.Search | src/components/BookManagement.tsx:340 | typing a term stores it and re-projects |
| State.BookManagement.ChooseSort | src/components/BookManagement.tsx:348 | choosing a key stores it and re-projects |
| State.BookManagement.ResetForm | src/components/BookManagement.tsx:175-183 | the draft is empty and Available, edit mode is off |
| State.BookManagement.Add | src/components/BookManagement.tsx:129-140 | a complete draft is appended once at the end with the clock's id, then the form resets; an incomplete one changes nothing and reports it |
| State.BookManagement.Update | src/components/BookManagement.tsx:142-149 | a complete draft replaces the records with its id, then the form resets; an incomplete one changes nothing; distinct ids stay distinct |
| State.BookManagement.Edit | src/components/BookManagement.tsx:151-154 | the chosen record becomes the draft and edit mode is on |
| State.BookManagement.Delete | src/components/BookManagement.tsx:156-160 | a confirmed delete removes the records with the id, a declined one changes nothing; distinct ids stay distinct |
| State.BookManagement.ToggleAvailability | src/components/BookManagement.tsx:162-173 | the records become the toggle of the old ones; distinct ids stay distinct |
| State.BookManagement.ToggleBulkImport | src/components/BookManagement.tsx:358 | the import panel flips between shown and hidden |
| State.BookManagement.BulkImport | src/components/BookManagement.tsx:218-246 | imported records are appended after the old ones, the text is cleared and the panel hidden, with the count reported; with none, nothing changes and "no valid books" is reported |
| State.BookManagement.ExportCsv | src/components/BookManagement.tsx:185-197 | the exported text is the CSV of the full record list |

## Left out

- JSX rendering and the `App` shell (src/App.tsx:11-21, BookManagement.tsx:248-433) are pure presentation.
- The stored list's JSON is not modelled, and neither is the effect that saves the list (BookManagement.tsx:22-24, 93, 125-127). `localStorage` is I/O. The mount takes the stored list as an `Option`: `None` stands for a missing slot or an empty stored string.
- The Blob, the object URL, the anchor click and the download file name (BookManagement.tsx:199-205) are browser I/O. Only the CSV text is modelled.
- `window.confirm` is outside the model. Its answer is the `confirmed` parameter of `Delete`.
- What `alert` displays is not modelled. Each alert is a `Notice` value the handler returns.
- `Date.now()` is a parameter. `Add` takes the reading `now`, and its id is that number's decimal rendering. Nothing assumes this id differs from the existing ones, because the source does not ensure it.
- State.BookManagement.BulkImport: it takes one clock reading `now` for the whole batch. The source reads the clock again for each accepted line. With a clock that never goes back, the id of line k is still at least now+k. The distinct ids `Codec.ImportedRecords` proves for one batch hold in the source only for such a clock: if the clock steps back between two accepted lines, two ids `Date.now() + index` can coincide.
- Catalog.Percent: it rounds the exact ratio half up. The source rounds a floating-point product, and at exact halves the two can differ by one.
- Text.StrLe: it orders keys by character code. `localeCompare` orders by the locale's collation.
- Text.Lower: it lowers only ASCII letters. `toLowerCase` also lowers the rest of Unicode.
- The `try/catch` in the bulk import (BookManagement.tsx:219, 243-245) is not modelled. No modelled operation can throw, so there is no error path.
- The form's and the import box's `onChange` setters (BookManagement.tsx:290-312, 376) are not modelled as operations. They only assign, so callers set `currentBook` and `bulkImportText` directly.
- React state updates are asynchronous and batched. The model applies each handler's updates at once. Each handler reads the state before writing it, so the resulting state is the same.
- Strings are modelled as sequences of Unicode scalar values, while JavaScript strings are UTF-16 code units. A lone surrogate, for example in pasted import text, cannot be represented. On well-formed text `trim`, `split` on `|` and `\n`, and `includes` give the same results.
- Stored records whose availability is neither "Available" nor "Issued" cannot be represented. The datatype has exactly the two values the `Book` type allows (src/App.tsx:4-9).
