/** The book record of the catalog and the search over the collection
    (`search_books` in library.py). */
module Catalog {
  import opened Text

  datatype Option<T> = None | Some(value: T)

  /** The stored `publication_year`, as `int(...)` sees it: either it converts to an
      integer, or the conversion raises (a missing key, a non-numeric string). */
  datatype PublicationYear = Year(n: int) | Unparsable

  /** One book record. `genre` is absent on records that lack the `genre` key. */
  datatype Book = Book(
    title: string,
    author: string,
    publicationYear: PublicationYear,
    genre: Option<string>,
    readStatus: bool,
    addedDate: string)

  /** The test of one iteration of the search loop, for a term that is already lowered:
      the chosen field, lowered, contains the term; a record without a genre never
      matches a genre search, and any other field name matches nothing. */
  predicate Matches(book: Book, term: string, searchBy: string)
  {
    if searchBy == "title" then Contains(Lower(book.title), term)
    else if searchBy == "author" then Contains(Lower(book.author), term)
    else if searchBy == "genre" then book.genre.Some? && Contains(Lower(book.genre.value), term)
    else false
  }

  /** The records the search loop collects, in library order. */
  function Search(books: seq<Book>, searchTerm: string, searchBy: string): seq<Book>
  {
    if books == [] then []
    else
      var init, last := books[..|books| - 1], books[|books| - 1];
      Search(init, searchTerm, searchBy) + (if Matches(last, Lower(searchTerm), searchBy) then [last] else [])
  }

  /** What a match means: the lowered term is a substring of the chosen field, lowered. */
  lemma MatchesMeans(book: Book, searchTerm: string, searchBy: string)
    ensures Matches(book, Lower(searchTerm), searchBy) <==>
      (searchBy == "title" && IsSubstring(Lower(searchTerm), Lower(book.title))) ||
      (searchBy == "author" && IsSubstring(Lower(searchTerm), Lower(book.author))) ||
      (searchBy == "genre" && book.genre.Some? && IsSubstring(Lower(searchTerm), Lower(book.genre.value)))
  {
    ContainsIsSubstring(Lower(book.title), Lower(searchTerm));
    ContainsIsSubstring(Lower(book.author), Lower(searchTerm));
    if book.genre.Some? {
      ContainsIsSubstring(Lower(book.genre.value), Lower(searchTerm));
    }
  }

  /** The search result is the subsequence of the library at the positions `idx`, which
      ascend strictly and are exactly the positions of the matching records. */
  lemma {:induction false} SearchSelects(books: seq<Book>, searchTerm: string, searchBy: string)
    returns (idx: seq<nat>)
    ensures |idx| == |Search(books, searchTerm, searchBy)|
    ensures forall k :: 0 <= k < |idx| ==>
      idx[k] < |books| && Search(books, searchTerm, searchBy)[k] == books[idx[k]]
    ensures forall k, l :: 0 <= k < l < |idx| ==> idx[k] < idx[l]
    ensures forall i :: 0 <= i < |books| ==> (i in idx <==> Matches(books[i], Lower(searchTerm), searchBy))
  {
    if books == [] {
      idx := [];
    } else {
      var n := |books| - 1;
      var init := books[..n];
      var prev := SearchSelects(init, searchTerm, searchBy);
      assert forall i :: 0 <= i < n ==> init[i] == books[i];
      if Matches(books[n], Lower(searchTerm), searchBy) {
        idx := prev + [n];
      } else {
        idx := prev;
      }
      var r := Search(books, searchTerm, searchBy);
      assert r[..|prev|] == Search(init, searchTerm, searchBy);
      assert forall k :: 0 <= k < |prev| ==> r[k] == Search(init, searchTerm, searchBy)[k];
    }
  }

  /** A record is in the search result exactly when it is in the library and matches. */
  lemma {:induction false} SearchMembers(books: seq<Book>, searchTerm: string, searchBy: string)
    ensures forall b :: b in Search(books, searchTerm, searchBy) <==>
      b in books && Matches(b, Lower(searchTerm), searchBy)
  {
    if books != [] {
      var init := books[..|books| - 1];
      SearchMembers(init, searchTerm, searchBy);
      assert books == init + [books[|books| - 1]];
    }
  }

  /** A genre search never returns a record that has no genre. */
  lemma SearchGenreHasGenre(books: seq<Book>, searchTerm: string)
    ensures forall b :: b in Search(books, searchTerm, "genre") ==> b.genre.Some?
  {
    SearchMembers(books, searchTerm, "genre");
  }

  /** A field name other than title, author or genre gives an empty result. */
  lemma {:induction false} SearchOtherField(books: seq<Book>, searchTerm: string, searchBy: string)
    requires searchBy != "title" && searchBy != "author" && searchBy != "genre"
    ensures Search(books, searchTerm, searchBy) == []
  {
    if books != [] {
      SearchOtherField(books[..|books| - 1], searchTerm, searchBy);
    }
  }

  /** The empty term is contained in every title, so an empty title search returns
      the whole library. */
  lemma {:induction false} SearchEmptyTitle(books: seq<Book>)
    ensures Search(books, "", "title") == books
  {
    if books != [] {
      SearchEmptyTitle(books[..|books| - 1]);
      EmptyIsSubstring(Lower(books[|books| - 1].title));
      assert books == books[..|books| - 1] + [books[|books| - 1]];
    }
  }

  /** The one-record scenario: "dune" matches the title "Dune" but not the author. */
  lemma DuneScenario(dune: Book)
    requires dune.title == "Dune" && dune.author == "Herbert"
    ensures Search([dune], "dune", "title") == [dune]
    ensures Search([dune], "dune", "author") == []
  {
    assert [dune][..0] == [];
    DuneTitleMatches();
    HerbertLacksDune();
  }

  /** The lowered title "Dune" contains the lowered term "dune". */
  lemma DuneTitleMatches()
    ensures Contains(Lower("Dune"), Lower("dune"))
  {
    assert Lower("dune") == "dune";
    assert Lower("Dune") == "dune";
    assert Contains("dune", "dune");
  }

  /** The lowered author "Herbert" does not contain the term "dune". */
  lemma HerbertLacksDune()
    ensures !Contains(Lower("Herbert"), Lower("dune"))
  {
    assert Lower("dune") == "dune";
    assert Lower("Herbert") == "herbert";
    assert "herbert"[..4][0] != 'd' && "herbert"[1..] == "erbert";
    assert "erbert"[..4][0] != 'd' && "erbert"[1..] == "rbert";
    assert "rbert"[..4][0] != 'd' && "rbert"[1..] == "bert";
    assert "bert"[..4][0] != 'd' && "bert"[1..] == "ert";
    assert !Contains("ert", "dune");
  }

  /** Flipping the read status of record `i`: the library after the inline toggle. */
  function WithReadToggled(books: seq<Book>, i: nat): (r: seq<Book>)
    requires i < |books|
    ensures |r| == |books|
    ensures r[i].readStatus == !books[i].readStatus
    ensures r[i].(readStatus := books[i].readStatus) == books[i]
    ensures forall j :: 0 <= j < |books| && j != i ==> r[j] == books[j]
  {
    books[i := books[i].(readStatus := !books[i].readStatus)]
  }

  /** Toggling the same record twice restores the library. */
  lemma ToggleTwice(books: seq<Book>, i: nat)
    requires i < |books|
    ensures WithReadToggled(WithReadToggled(books, i), i) == books
  {
    var r := WithReadToggled(WithReadToggled(books, i), i);
    assert forall j :: 0 <= j < |books| ==> r[j] == books[j];
  }
}
