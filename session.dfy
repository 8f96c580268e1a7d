/** The session's catalog state (`st.session_state.library` and
    `st.session_state.search_result`) and the operations that change or read it. */
module Session {
  import opened Text
  import opened Dicts
  import opened Catalog
  import opened Statistics

  class Library {
    /** The in-memory collection, in insertion order. */
    var books: seq<Book>
    /** The records the last search found. */
    var searchResult: seq<Book>
    /** How many times the collection has been written to the library file. */
    ghost var saves: nat

    /** The session state before anything is loaded: both lists empty. */
    constructor ()
      ensures books == [] && searchResult == [] && saves == 0
    {
      books := [];
      searchResult := [];
      saves := 0;
    }

    /** `save_library`: writes the collection out; the in-memory state is untouched. */
    method SaveLibrary()
      modifies this`saves
      ensures saves == old(saves) + 1
    {
      saves := saves + 1;
    }

    /** `add_book`: appends a new record with the given fields, stamped `addedDate`,
        and saves. Earlier records are unchanged. */
    method AddBook(title: string, author: string, publicationYear: PublicationYear,
                   genre: string, readStatus: bool, addedDate: string)
      modifies this`books, this`saves
      ensures |books| == |old(books)| + 1
      ensures books[..|old(books)|] == old(books)
      ensures books[|old(books)|] == Book(title, author, publicationYear, Some(genre), readStatus, addedDate)
      ensures saves == old(saves) + 1
    {
      var book := Book(title, author, publicationYear, Some(genre), readStatus, addedDate);
      books := books + [book];
      SaveLibrary();
    }

    /** `remove_book`: for `0 <= index < len`, deletes that record, saves and reports
        success; for any other index, changes nothing and reports failure. */
    method RemoveBook(index: int) returns (removed: bool)
      modifies this`books, this`saves
      ensures removed <==> 0 <= index < |old(books)|
      ensures removed ==> books == old(books)[..index] + old(books)[index + 1..]
      ensures removed ==> |books| == |old(books)| - 1
      ensures removed ==> forall j :: 0 <= j < index ==> books[j] == old(books)[j]
      ensures removed ==> forall j :: index <= j < |books| ==> books[j] == old(books)[j + 1]
      ensures !removed ==> books == old(books)
      ensures saves == old(saves) + (if removed then 1 else 0)
    {
      if 0 <= index < |books| {
        books := books[..index] + books[index + 1..];
        SaveLibrary();
        return true;
      }
      return false;
    }

    /** The "Mark as Read" / "Mark as Unread" button of record `i`: negates that record's
        read status and saves. The index comes from enumerating the library. */
    method ToggleReadStatus(i: nat)
      requires i < |books|
      modifies this`books, this`saves
      ensures books == WithReadToggled(old(books), i)
      ensures saves == old(saves) + 1
    {
      var newStatus := !books[i].readStatus;
      books := books[i := books[i].(readStatus := newStatus)];
      SaveLibrary();
    }

    /** `search_books`: stores in `searchResult` the records whose chosen field contains
        the term, ignoring case, in library order. The library is not changed. */
    method SearchBooks(searchTerm: string, searchBy: string)
      modifies this`searchResult
      ensures searchResult == Search(books, searchTerm, searchBy)
    {
      var term := Lower(searchTerm);
      var result: seq<Book> := [];
      var i := 0;
      while i < |books|
        invariant 0 <= i <= |books|
        invariant result == Search(books[..i], searchTerm, searchBy)
      {
        var book := books[i];
        if searchBy == "title" && Contains(Lower(book.title), term) {
          result := result + [book];
        } else if searchBy == "author" && Contains(Lower(book.author), term) {
          result := result + [book];
        } else if searchBy == "genre" && book.genre.Some? && Contains(Lower(book.genre.value), term) {
          result := result + [book];
        }
        assert books[..i + 1][..i] == books[..i];
        i := i + 1;
      }
      assert books[..i] == books;
      searchResult := result;
    }

    /** `get_library_stats`: the totals and the three sorted histograms of the current
        collection. It has no `modifies` clause, so the library is not changed. */
    method GetLibraryStats() returns (stats: LibraryStats)
      ensures stats == StatsOf(books)
    {
      var totalBooks := |books|;
      var readBooks := CountRead(books);
      var percentRead := if totalBooks > 0 then (readBooks as real) / (totalBooks as real) * 100.0 else 0.0;
      var genres: seq<(string, nat)> := [];
      var authors: seq<(string, nat)> := [];
      var decades: seq<(int, nat)> := [];
      var i := 0;
      while i < |books|
        invariant 0 <= i <= |books|
        invariant genres == Histogram(GenreKeys(books[..i]))
        invariant authors == Histogram(AuthorKeys(books[..i]))
        invariant decades == Histogram(DecadeKeys(books[..i]))
      {
        var book := books[i];
        KeysStep(books, i);
        genres := Bump(genres, GenreKey(book));
        authors := Bump(authors, book.author);
        match book.publicationYear {
          case Year(n) =>
            decades := Bump(decades, Decade(n));
          case Unparsable =>
        }
        i := i + 1;
      }
      assert books[..i] == books;
      stats := LibraryStats(totalBooks, readBooks, percentRead,
                            SortBy(genres, ByCountDescending),
                            SortBy(authors, ByCountDescending),
                            SortBy(decades, ByDecade));
    }
  }

  /** Toggling the same record twice through the session restores the collection. */
  method ToggleTwiceRestores(library: Library, i: nat)
    requires i < |library.books|
    modifies library`books, library`saves
    ensures library.books == old(library.books)
    ensures library.searchResult == old(library.searchResult)
    ensures library.saves == old(library.saves) + 2
  {
    library.ToggleReadStatus(i);
    library.ToggleReadStatus(i);
    ToggleTwice(old(library.books), i);
  }
}
