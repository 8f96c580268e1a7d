/** The statistics of the catalog (`get_library_stats` in library.py): the totals, the
    share of books read, and the genre, author and decade histograms, each turned into
    a sorted list of (key, count) pairs. */
module Statistics {
  import opened Catalog
  import opened Dicts

  datatype LibraryStats = LibraryStats(
    totalBooks: nat,
    readBooks: nat,
    percentRead: real,
    genres: seq<(string, nat)>,
    authors: seq<(string, nat)>,
    decades: seq<(int, nat)>)

  /** The number of records whose read status is set. */
  function CountRead(books: seq<Book>): nat
  {
    if books == [] then 0 else (if books[0].readStatus then 1 else 0) + CountRead(books[1..])
  }

  /** The share of books read, in percent; 0 for an empty library. */
  function PercentRead(readBooks: nat, totalBooks: nat): real
  {
    if totalBooks > 0 then (readBooks as real) / (totalBooks as real) * 100.0 else 0.0
  }

  /** The genre key of a record; a record without a genre counts as "Unknown". */
  function GenreKey(book: Book): string
  {
    match book.genre
    case Some(g) => g
    case None => "Unknown"
  }

  /** `(year // 10) * 10`: Dafny's division by a positive divisor rounds down, as
      Python's `//` does, so negative years fall into the decade below them. */
  function Decade(year: int): (d: int)
    ensures d % 10 == 0
    ensures d <= year < d + 10
  {
    (year / 10) * 10
  }

  /** The genre keys of the records, in library order. */
  function GenreKeys(books: seq<Book>): seq<string>
  {
    if books == [] then [] else GenreKeys(books[..|books| - 1]) + [GenreKey(books[|books| - 1])]
  }

  /** The authors of the records, in library order. */
  function AuthorKeys(books: seq<Book>): seq<string>
  {
    if books == [] then [] else AuthorKeys(books[..|books| - 1]) + [books[|books| - 1].author]
  }

  /** The decades of the records whose year converts to an integer, in library order;
      the other records contribute nothing. */
  function DecadeKeys(books: seq<Book>): seq<int>
  {
    if books == [] then []
    else
      DecadeKeys(books[..|books| - 1]) +
      match books[|books| - 1].publicationYear
      case Year(n) => [Decade(n)]
      case Unparsable => []
  }

  /** The sort key of `sorted(..., key=lambda x: x[1], reverse=True)`. */
  function ByCountDescending<K>(e: (K, nat)): int
  {
    -(e.1 as int)
  }

  /** The sort key of `sorted(..., key=lambda x: x[0])` on decades. */
  function ByDecade(e: (int, nat)): int
  {
    e.0
  }

  /** The `genres` list: the genre histogram sorted by non-increasing count. */
  function GenreCounts(books: seq<Book>): seq<(string, nat)>
  {
    SortBy(Histogram(GenreKeys(books)), ByCountDescending)
  }

  /** The `authors` list: the author histogram sorted by non-increasing count. */
  function AuthorCounts(books: seq<Book>): seq<(string, nat)>
  {
    SortBy(Histogram(AuthorKeys(books)), ByCountDescending)
  }

  /** The `decades` list: the decade histogram sorted by decade. */
  function DecadeCounts(books: seq<Book>): seq<(int, nat)>
  {
    SortBy(Histogram(DecadeKeys(books)), ByDecade)
  }

  /** The dictionary `get_library_stats` returns. */
  function StatsOf(books: seq<Book>): LibraryStats
  {
    LibraryStats(
      |books|,
      CountRead(books),
      PercentRead(CountRead(books), |books|),
      GenreCounts(books),
      AuthorCounts(books),
      DecadeCounts(books))
  }

  // ---------------------------------------------------------------------------
  // Totals

  /** The read count is at most the total, reaches it exactly when every record is read,
      and is zero exactly when no record is read. */
  lemma {:induction false} CountReadBounds(books: seq<Book>)
    ensures CountRead(books) <= |books|
    ensures CountRead(books) == |books| <==> forall i :: 0 <= i < |books| ==> books[i].readStatus
    ensures CountRead(books) == 0 <==> forall i :: 0 <= i < |books| ==> !books[i].readStatus
  {
    if books != [] {
      CountReadBounds(books[1..]);
      assert forall i :: 1 <= i < |books| ==> books[i] == books[1..][i - 1];
    }
  }

  /** The percentage is 0 for an empty library, 100 when every record is read, lies
      between 0 and 100, and is exactly the read count over the total, times 100. */
  lemma PercentReadFacts(books: seq<Book>)
    ensures books == [] ==> PercentRead(CountRead(books), |books|) == 0.0
    ensures books != [] && (forall i :: 0 <= i < |books| ==> books[i].readStatus) ==>
      PercentRead(CountRead(books), |books|) == 100.0
    ensures 0.0 <= PercentRead(CountRead(books), |books|) <= 100.0
  {
    CountReadBounds(books);
    var r, t := CountRead(books), |books|;
    PercentBounds(r, t);
  }

  /** For a read count at most the total: the percentage lies in [0, 100], times the
      total it gives 100 times the read count, and it is 100 when a non-empty library
      is read in full. */
  lemma PercentBounds(readBooks: nat, totalBooks: nat)
    requires readBooks <= totalBooks
    ensures 0.0 <= PercentRead(readBooks, totalBooks) <= 100.0
    ensures PercentRead(readBooks, totalBooks) * (totalBooks as real) == 100.0 * (readBooks as real)
    ensures 0 < readBooks == totalBooks ==> PercentRead(readBooks, totalBooks) == 100.0
  {
    if totalBooks > 0 {
      var r, t := readBooks as real, totalBooks as real;
      var q := r / t;
      assert q * t == r;
      assert q * t <= 1.0 * t;
      assert q <= 1.0;
      assert PercentRead(readBooks, totalBooks) == q * 100.0;
      assert (q * 100.0) * t == (q * t) * 100.0;
    }
  }

  // ---------------------------------------------------------------------------
  // Histogram keys

  lemma {:induction false} GenreKeysAt(books: seq<Book>)
    ensures |GenreKeys(books)| == |books|
    ensures forall i :: 0 <= i < |books| ==> GenreKeys(books)[i] == GenreKey(books[i])
  {
    if books != [] {
      GenreKeysAt(books[..|books| - 1]);
    }
  }

  lemma {:induction false} AuthorKeysAt(books: seq<Book>)
    ensures |AuthorKeys(books)| == |books|
    ensures forall i :: 0 <= i < |books| ==> AuthorKeys(books)[i] == books[i].author
  {
    if books != [] {
      AuthorKeysAt(books[..|books| - 1]);
    }
  }

  /** The decade keys come exactly from the records whose year parses; there are at most
      as many as records, and as many when every year parses. */
  lemma {:induction false} DecadeKeysFrom(books: seq<Book>)
    ensures forall k :: k in DecadeKeys(books) <==>
      exists i :: 0 <= i < |books| && books[i].publicationYear.Year? && Decade(books[i].publicationYear.n) == k
    ensures |DecadeKeys(books)| <= |books|
    ensures (forall i :: 0 <= i < |books| ==> books[i].publicationYear.Year?) ==> |DecadeKeys(books)| == |books|
  {
    if books != [] {
      var n := |books| - 1;
      var init := books[..n];
      DecadeKeysFrom(init);
      assert forall i :: 0 <= i < n ==> init[i] == books[i];
      forall k
        ensures k in DecadeKeys(books) <==>
          exists i :: 0 <= i < |books| && books[i].publicationYear.Year? && Decade(books[i].publicationYear.n) == k
      {
        if k in DecadeKeys(books) && k !in DecadeKeys(init) {
          assert books[n].publicationYear.Year? && Decade(books[n].publicationYear.n) == k;
        }
      }
    }
  }

  /** One more record extends each key list by that record's key, if any. */
  lemma KeysStep(books: seq<Book>, i: nat)
    requires i < |books|
    ensures Histogram(GenreKeys(books[..i + 1])) == Bump(Histogram(GenreKeys(books[..i])), GenreKey(books[i]))
    ensures Histogram(AuthorKeys(books[..i + 1])) == Bump(Histogram(AuthorKeys(books[..i])), books[i].author)
    ensures Histogram(DecadeKeys(books[..i + 1])) ==
      match books[i].publicationYear
      case Year(n) => Bump(Histogram(DecadeKeys(books[..i])), Decade(n))
      case Unparsable => Histogram(DecadeKeys(books[..i]))
  {
    assert books[..i + 1][..i] == books[..i];
    var g := GenreKeys(books[..i + 1]);
    assert g[..|g| - 1] == GenreKeys(books[..i]);
    var a := AuthorKeys(books[..i + 1]);
    assert a[..|a| - 1] == AuthorKeys(books[..i]);
    var d := DecadeKeys(books[..i + 1]);
    match books[i].publicationYear {
      case Year(n) =>
        assert d == DecadeKeys(books[..i]) + [Decade(n)];
        assert d[..|d| - 1] == DecadeKeys(books[..i]);
      case Unparsable =>
        assert d == DecadeKeys(books[..i]);
    }
  }

  // ---------------------------------------------------------------------------
  // The sorted histograms

  /** Genres are listed by non-increasing count, and genres of equal count in the order
      in which they first occur in the library (Python's sort is stable). */
  lemma GenreOrder(books: seq<Book>)
    ensures forall i, j :: 0 <= i < j < |GenreCounts(books)| ==>
      GenreCounts(books)[i].1 >= GenreCounts(books)[j].1
    ensures forall i, j :: (0 <= i < j < |GenreCounts(books)| && GenreCounts(books)[i].1 == GenreCounts(books)[j].1) ==>
      FirstSeenBefore(GenreKeys(books), GenreCounts(books)[i].0, GenreCounts(books)[j].0)
  {
    var g := GenreCounts(books);
    SortByFacts(Histogram(GenreKeys(books)), ByCountDescending);
    SortedHistogramTies(GenreKeys(books), ByCountDescending);
    assert forall i, j :: 0 <= i < j < |g| ==> ByCountDescending(g[i]) <= ByCountDescending(g[j]);
  }

  /** Each genre is listed once, with the number of records of that genre (a missing
      genre counting as "Unknown"), and the counts add up to the number of records. */
  lemma GenreEntries(books: seq<Book>)
    ensures KeysDistinct(GenreCounts(books))
    ensures forall e :: e in GenreCounts(books) ==> e.1 == multiset(GenreKeys(books))[e.0] && e.1 >= 1
    ensures Sum(GenreCounts(books)) == |books|
  {
    SortedHistogramEntries(GenreKeys(books), ByCountDescending);
    GenreKeysAt(books);
  }

  /** The genres listed are exactly those of the records, and "Unknown" is listed when
      some record has no genre. */
  lemma GenreKeySet(books: seq<Book>)
    ensures forall k :: k in Keys(GenreCounts(books)) <==> exists i :: 0 <= i < |books| && GenreKey(books[i]) == k
    ensures (exists i :: 0 <= i < |books| && books[i].genre.None?) ==> "Unknown" in Keys(GenreCounts(books))
  {
    SortedHistogramKeys(GenreKeys(books), ByCountDescending);
    GenreKeysAt(books);
    forall k
      ensures k in GenreKeys(books) <==> exists i :: 0 <= i < |books| && GenreKey(books[i]) == k
    {
      if k in GenreKeys(books) {
        var i :| 0 <= i < |books| && GenreKeys(books)[i] == k;
      }
    }
  }

  /** Authors are listed by non-increasing count, and authors of equal count in the order
      in which they first occur in the library. */
  lemma AuthorOrder(books: seq<Book>)
    ensures forall i, j :: 0 <= i < j < |AuthorCounts(books)| ==>
      AuthorCounts(books)[i].1 >= AuthorCounts(books)[j].1
    ensures forall i, j :: (0 <= i < j < |AuthorCounts(books)| && AuthorCounts(books)[i].1 == AuthorCounts(books)[j].1) ==>
      FirstSeenBefore(AuthorKeys(books), AuthorCounts(books)[i].0, AuthorCounts(books)[j].0)
  {
    var a := AuthorCounts(books);
    SortByFacts(Histogram(AuthorKeys(books)), ByCountDescending);
    SortedHistogramTies(AuthorKeys(books), ByCountDescending);
    assert forall i, j :: 0 <= i < j < |a| ==> ByCountDescending(a[i]) <= ByCountDescending(a[j]);
  }

  /** Each author is listed once, with the number of their records, and the counts add
      up to the number of records. */
  lemma AuthorEntries(books: seq<Book>)
    ensures KeysDistinct(AuthorCounts(books))
    ensures forall e :: e in AuthorCounts(books) ==> e.1 == multiset(AuthorKeys(books))[e.0] && e.1 >= 1
    ensures Sum(AuthorCounts(books)) == |books|
  {
    SortedHistogramEntries(AuthorKeys(books), ByCountDescending);
    AuthorKeysAt(books);
  }

  /** The authors listed are exactly those of the records. */
  lemma AuthorKeySet(books: seq<Book>)
    ensures forall k :: k in Keys(AuthorCounts(books)) <==> exists i :: 0 <= i < |books| && books[i].author == k
  {
    SortedHistogramKeys(AuthorKeys(books), ByCountDescending);
    AuthorKeysAt(books);
    forall k
      ensures k in AuthorKeys(books) <==> exists i :: 0 <= i < |books| && books[i].author == k
    {
      if k in AuthorKeys(books) {
        var i :| 0 <= i < |books| && AuthorKeys(books)[i] == k;
      }
    }
  }

  /** Decades are strictly ascending. */
  lemma DecadeOrder(books: seq<Book>)
    ensures forall i, j :: 0 <= i < j < |DecadeCounts(books)| ==>
      DecadeCounts(books)[i].0 < DecadeCounts(books)[j].0
  {
    var d := DecadeCounts(books);
    SortByFacts(Histogram(DecadeKeys(books)), ByDecade);
    SortedHistogramEntries(DecadeKeys(books), ByDecade);
    forall i, j | 0 <= i < j < |d|
      ensures d[i].0 < d[j].0
    {
      assert ByDecade(d[i]) <= ByDecade(d[j]);
      assert d[i].0 != d[j].0;
    }
  }

  /** Every decade listed is a multiple of 10 and the decade of some record whose year
      parses, and its count is the number of such records in that decade. */
  lemma DecadeEntries(books: seq<Book>)
    ensures forall e :: e in DecadeCounts(books) ==>
      e.0 % 10 == 0 &&
      (exists i :: 0 <= i < |books| && books[i].publicationYear.Year? && Decade(books[i].publicationYear.n) == e.0) &&
      e.1 == multiset(DecadeKeys(books))[e.0]
  {
    var d := DecadeCounts(books);
    SortedHistogramEntries(DecadeKeys(books), ByDecade);
    SortedHistogramKeys(DecadeKeys(books), ByDecade);
    forall e | e in d
      ensures e.0 % 10 == 0
      ensures exists i :: 0 <= i < |books| && books[i].publicationYear.Year? && Decade(books[i].publicationYear.n) == e.0
    {
      var j :| 0 <= j < |d| && d[j] == e;
      assert Keys(d)[j] == e.0;
      DecadeKeyOrigin(books, e.0);
    }
  }

  lemma DecadeKeyOrigin(books: seq<Book>, k: int)
    requires k in DecadeKeys(books)
    ensures exists i :: 0 <= i < |books| && books[i].publicationYear.Year? && Decade(books[i].publicationYear.n) == k
  {
    DecadeKeysFrom(books);
  }

  /** The decade counts add up to the number of records whose year parses, which is at
      most the total. */
  lemma DecadeSum(books: seq<Book>)
    ensures Sum(DecadeCounts(books)) == |DecadeKeys(books)| <= |books|
  {
    SortedHistogramEntries(DecadeKeys(books), ByDecade);
    DecadeKeysFrom(books);
  }

  /** The decade of every record whose year parses is listed. */
  lemma DecadeCoverage(books: seq<Book>)
    ensures forall i :: 0 <= i < |books| && books[i].publicationYear.Year? ==>
      Decade(books[i].publicationYear.n) in Keys(DecadeCounts(books))
  {
    SortedHistogramKeys(DecadeKeys(books), ByDecade);
    DecadeKeysFrom(books);
    forall i | 0 <= i < |books| && books[i].publicationYear.Year?
      ensures Decade(books[i].publicationYear.n) in DecadeKeys(books)
    {
    }
  }

  /** Years 1965, 1968 and 1973 give two books in the 1960s and one in the 1970s. */
  lemma DecadesScenario(a: Book, b: Book, c: Book)
    requires a.publicationYear == Year(1965)
    requires b.publicationYear == Year(1968)
    requires c.publicationYear == Year(1973)
    ensures DecadeCounts([a, b, c]) == [(1960, 2), (1970, 1)]
  {
    ScenarioDecadeKeys(a, b, c);
    ScenarioHistogram();
    ScenarioSorted();
  }

  /** The decade keys of the three records. */
  lemma ScenarioDecadeKeys(a: Book, b: Book, c: Book)
    requires a.publicationYear == Year(1965)
    requires b.publicationYear == Year(1968)
    requires c.publicationYear == Year(1973)
    ensures DecadeKeys([a, b, c]) == [1960, 1960, 1970]
  {
    assert [a, b, c][..2] == [a, b] && [a, b][..1] == [a] && [a][..0] == [];
    assert DecadeKeys([a]) == [1960];
    assert DecadeKeys([a, b]) == [1960, 1960];
  }

  /** Counting the keys 1960, 1960, 1970. */
  lemma ScenarioHistogram()
    ensures Histogram([1960, 1960, 1970]) == [(1960, 2), (1970, 1)]
  {
    var ks := [1960, 1960, 1970];
    assert ks[..2] == [1960, 1960] && [1960, 1960][..1] == [1960] && [1960][..0] == [];
    assert Histogram([1960]) == [(1960, 1)];
    assert Histogram([1960, 1960]) == [(1960, 2)];
    assert [(1960, 2)][1..] == [];
    assert Bump([(1960, 2)], 1970) == [(1960, 2), (1970, 1)];
  }

  /** The decade histogram is already in ascending order, so sorting keeps it. */
  lemma ScenarioSorted()
    ensures SortBy([(1960, 2), (1970, 1)], ByDecade) == [(1960, 2), (1970, 1)]
  {
    var h := [(1960, 2), (1970, 1)];
    assert h[1..] == [(1970, 1)];
    assert SortBy([(1970, 1)], ByDecade) == [(1970, 1)];
  }
}
