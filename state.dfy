/** The component's state and the handlers the buttons call. The list
    transforms are the functions of Catalog; each handler here applies
    one of them to the fields and then reruns the view projection, as the
    component's effect does whenever `books`, the search term or the sort
    key change. */
module State {
  import opened Text
  import opened Catalog
  import opened Projection
  import opened Codec

  /** The alert a handler raises, or Done when it raises none. */
  datatype Notice = Done | FillInAllFields | ImportedCount(count: nat) | NoValidBooks

  class BookManagement {
    var books: seq<Book>
    var filteredBooks: seq<Book>
    var searchTerm: string
    var sortBy: SortKey
    var isEditing: bool
    var showBulkImport: bool
    var bulkImportText: string
    var currentBook: Book

    /** The table shows the current projection of the records. */
    predicate Shown()
      reads this
    {
      filteredBooks == View(books, searchTerm, sortBy)
    }

    /** Mounting: the stored list when there is one, the ten samples
        otherwise; an empty search, sorted by title, empty draft. */
    constructor (stored: Option<seq<Book>>)
      ensures books == InitialBooks(stored)
      ensures searchTerm == "" && sortBy == ByTitle
      ensures !isEditing && !showBulkImport && bulkImportText == "" && currentBook == EmptyDraft
      ensures Shown()
    {
      books := InitialBooks(stored);
      searchTerm := "";
      sortBy := ByTitle;
      isEditing := false;
      showBulkImport := false;
      bulkImportText := "";
      currentBook := EmptyDraft;
      new;
      Refresh();
    }

    /** The filter-and-sort effect. */
    method Refresh()
      modifies this`filteredBooks
      ensures Shown()
    {
      filteredBooks := Project(books, searchTerm, sortBy);
    }

    /** Typing in the search box. */
    method Search(term: string)
      modifies this`searchTerm, this`filteredBooks
      ensures searchTerm == term && Shown()
    {
      searchTerm := term;
      Refresh();
    }

    /** Choosing a sort key. */
    method ChooseSort(key: SortKey)
      modifies this`sortBy, this`filteredBooks
      ensures sortBy == key && Shown()
    {
      sortBy := key;
      Refresh();
    }

    /** Back to an empty draft, out of edit mode. */
    method ResetForm()
      modifies this`currentBook, this`isEditing
      ensures currentBook == EmptyDraft && !isEditing
    {
      currentBook := EmptyDraft;
      isEditing := false;
    }

    /** Appends the draft under the id the clock reading `now` renders to,
        then resets the form; an incomplete draft changes nothing. */
    method Add(now: nat) returns (notice: Notice)
      modifies this`books, this`currentBook, this`isEditing, this`filteredBooks
      ensures Complete(old(currentBook)) ==>
                books == old(books) + [old(currentBook).(id := NatToString(now))]
                && currentBook == EmptyDraft && !isEditing && notice == Done
      ensures !Complete(old(currentBook)) ==>
                books == old(books) && currentBook == old(currentBook)
                && isEditing == old(isEditing) && notice == FillInAllFields
      ensures Shown()
    {
      if Complete(currentBook) {
        var newBook := currentBook.(id := NatToString(now));
        books := books + [newBook];
        ResetForm();
        notice := Done;
      } else {
        notice := FillInAllFields;
      }
      Refresh();
    }

    /** Replaces every record carrying the draft's id by the draft, then
        resets the form; an incomplete draft changes nothing. */
    method Update() returns (notice: Notice)
      modifies this`books, this`currentBook, this`isEditing, this`filteredBooks
      ensures Complete(old(currentBook)) ==>
                books == Replace(old(books), old(currentBook))
                && currentBook == EmptyDraft && !isEditing && notice == Done
      ensures !Complete(old(currentBook)) ==>
                books == old(books) && currentBook == old(currentBook)
                && isEditing == old(isEditing) && notice == FillInAllFields
      ensures DistinctIds(old(books)) ==> DistinctIds(books)
      ensures Shown()
    {
      if Complete(currentBook) {
        books := Replace(books, currentBook);
        ResetForm();
        notice := Done;
      } else {
        notice := FillInAllFields;
      }
      Refresh();
    }

    /** Loads a record into the form and enters edit mode. */
    method Edit(book: Book)
      modifies this`currentBook, this`isEditing
      ensures currentBook == book && isEditing
    {
      currentBook := book;
      isEditing := true;
    }

    /** Removes the records with that id once the user confirms. */
    method Delete(id: string, confirmed: bool)
      modifies this`books, this`filteredBooks
      ensures books == (if confirmed then Remove(old(books), id) else old(books))
      ensures DistinctIds(old(books)) ==> DistinctIds(books)
      ensures Shown()
    {
      if confirmed {
        if DistinctIds(books) {
          RemoveKeepsDistinct(books, id);
        }
        books := Remove(books, id);
      }
      Refresh();
    }

    /** Flips the availability of the records with that id. */
    method ToggleAvailability(id: string)
      modifies this`books, this`filteredBooks
      ensures books == Toggle(old(books), id)
      ensures DistinctIds(old(books)) ==> DistinctIds(books)
      ensures Shown()
    {
      books := Toggle(books, id);
      Refresh();
    }

    /** Shows or hides the bulk-import panel. */
    method ToggleBulkImport()
      modifies this`showBulkImport
      ensures showBulkImport == !old(showBulkImport)
    {
      showBulkImport := !showBulkImport;
    }

    /** Appends the records parsed from the pasted text, their ids offset
        from the clock reading `now`; on success the text is cleared and the
        panel hidden, and when no line yields a record nothing changes. */
    method BulkImport(now: nat) returns (notice: Notice)
      modifies this`books, this`bulkImportText, this`showBulkImport, this`filteredBooks
      ensures var added := Imported(old(bulkImportText), now);
              if added != [] then
                books == old(books) + added && bulkImportText == "" && !showBulkImport
                && notice == ImportedCount(|added|)
              else
                books == old(books) && bulkImportText == old(bulkImportText)
                && showBulkImport == old(showBulkImport) && notice == NoValidBooks
      ensures Shown()
    {
      var newBooks := ParseBulkImport(bulkImportText, now);
      if |newBooks| > 0 {
        books := books + newBooks;
        bulkImportText := "";
        showBulkImport := false;
        notice := ImportedCount(|newBooks|);
      } else {
        notice := NoValidBooks;
      }
      Refresh();
    }

    /** The text handed to the download. */
    method ExportCsv() returns (text: string)
      ensures text == Csv(books)
    {
      text := Csv(books);
    }
  }
}
