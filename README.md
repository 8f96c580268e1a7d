# Personal library catalog: a Dafny model

This project models the core of a single-user book catalog written in Python with
Streamlit (`library.py`). The model covers the in-memory collection of book records
and the operations on it:

- adding a book at the end of the collection (`add_book`);
- removing a book by index after a bounds check (`remove_book`);
- flipping a record's read status (the "Mark as Read / Unread" button);
- the case-insensitive substring search over the title, the author or the genre
  (`search_books`);
- the statistics (`get_library_stats`):
  - the total and read counts, and the share of books read;
  - histograms by genre, author and decade, each turned into a sorted list of
    (key, count) pairs.

The model has five modules, one per concern:

- `Text` (text.dfy) models the two string builtins the search uses. `str.lower` becomes
  `Lower`, with ASCII case folding. The substring test `t in s` becomes `Contains`, and
  the lemma `ContainsIsSubstring` proves it agrees with the definition "t occurs at some
  offset of s".
- `Dicts` (dicts.dfy) models a Python dict used for counting
  (`d[k] = d.get(k, 0) + 1`), and the builtin `sorted`.
  - The dict is an association list of (key, count) pairs, kept in insertion order as
    Python keeps it.
  - `Bump` is one update of the dict. `Histogram` is the whole counting loop.
  - `sorted` is a stable insertion sort `SortBy`, ascending by a rank function.
    `sorted(..., key=f, reverse=True)` keeps equal items in their original order, so it
    is the stable ascending sort by `-f`.
  - Keeping the insertion order is what makes the order of equal-count entries exact.
- `Catalog` (catalog.dfy) defines the `Book` record and the search.
  - `Book.genre` is an `Option`, because older records may lack the `genre` key.
  - `Book.publicationYear` is `Year(n)` when `int(...)` of the stored value succeeds,
    and `Unparsable` when it raises.
  - `Search` is the specification function of the search loop. `WithReadToggled` is the
    state after the toggle.
- `Statistics` (statistics.dfy) defines the specification of the statistics.
  - `StatsOf` gives the dictionary `get_library_stats` returns.
  - It is built from `CountRead`, `PercentRead`, `GenreCounts`, `AuthorCounts` and
    `DecadeCounts`.
  - The lemmas state the properties of each part.
- `Session` (session.dfy) holds the class `Library`, for the session state the view code
  changes in place.
  - `books` is `st.session_state.library`. `searchResult` is
    `st.session_state.search_result`.
  - The ghost counter `saves` counts the calls to `save_library`.
  - The methods `AddBook`, `RemoveBook`, `ToggleReadStatus`, `SearchBooks` and
    `GetLibraryStats` are the operations. The search and the statistics keep the
    source's loops, with their invariants.

Integers are unbounded, as in Python. The decade `(year // 10) * 10` is written with
Dafny's `/`. For a positive divisor, Dafny's `/` rounds down like Python's `//`, so
negative years work too.

## Model

| member | source | states |
|---|---|---|
| `Text.LowerChar` | library.py:148 | ASCII upper-case letters are folded to lower case (code point + 32), every other character is kept, and the result is never an upper-case letter |
| `Text.Lower` | library.py:148 | lowering keeps the length and leaves no upper-case letter, and a string with no upper-case letter is unchanged by it |
| `Text.LowerIdempotent` | library.py:148-152 | lowering a lowered string changes nothing |
| `Text.ContainsIsSubstring` | library.py:152-156 | the executable test `Contains(s, t)` holds exactly when `t` occurs at some offset of `s` (Python's `t in s`), in both directions |
| `Text.EmptyIsSubstring` | library.py:152 | the empty term is contained in every string |
| `Dicts.GetFinds` | library.py:173 | `d.get(k, 0)` returns the count stored under `k`, or 0 when `k` is absent |
| `Dicts.BumpGet` | library.py:173 | `d[k] = d.get(k, 0) + 1` raises the count of `k` by one and leaves every other key's count unchanged |
| `Dicts.BumpKeys` | library.py:173 | an existing key keeps the key order; a new key is appended with count 1 (dict insertion order) |
| `Dicts.BumpSum` | library.py:173 | each update adds exactly one to the sum of the counts |
| `Dicts.BumpKeysDistinct` | library.py:173 | the update keeps every key distinct |
| `Dicts.HistogramCounts` | library.py:171-182 | the counting loop's dict has distinct keys, holds each key's number of occurrences, has exactly the keys that occur, and its counts sum to the number of keys counted |
| `Dicts.HistogramEntries` | library.py:171-182 | every entry's count is the number of occurrences of its key, and is at least 1 |
| `Dicts.HistogramInsertionOrder` | library.py:171-182 | the dict's keys are in the order of their first occurrence |
| `Dicts.FirstSeenExtend` | library.py:173 | appending a key keeps the first-seen order of two keys already present |
| `Dicts.FirstSeenNew` | library.py:173 | a key appended for the first time is first seen after every key already present |
| `Dicts.InsertPerm` | library.py:184-186 | one insertion step adds exactly the inserted entry to the multiset of entries |
| `Dicts.InsertSorted` | library.py:184-186 | inserting into an ascending list keeps it ascending |
| `Dicts.InsertWithRank` | library.py:184-186 | an inserted entry goes in front of the entries of its own rank |
| `Dicts.InsertSum` | library.py:184-186 | inserting adds the inserted count to the sum |
| `Dicts.SortByFacts` | library.py:184-186 | `sorted` gives an ascending list that is a permutation of its input, keeps the input order among entries of equal rank (stable), and keeps the sum of the counts |
| `Dicts.SortByKeysDistinct` | library.py:184-186 | sorting keeps the keys distinct |
| `Dicts.InsertKeysDistinct` | library.py:184-186 | inserting an entry with a new key keeps the keys distinct and adds only that entry |
| `Dicts.InsertAbove` | library.py:184-186 | inserting an entry of rank at least `b` among entries of rank at least `b` leaves every entry with rank at least `b` |
| `Dicts.SortedHistogramEntries` | library.py:171-186 | a sorted histogram has distinct keys, each entry holding the number of occurrences of its key (at least one), and counts summing to the number of keys |
| `Dicts.SortedHistogramKeys` | library.py:171-186 | the keys of a sorted histogram are exactly the keys that occur |
| `Dicts.KeysOfPermutation` | library.py:184-186 | two lists with the same multiset of entries have the same keys |
| `Dicts.Positions` | library.py:184-186 | there are as many positions of rank `v` as entries of rank `v` |
| `Dicts.PositionsSelect` | library.py:184-186 | the entries of one rank are the entries of the list at those positions, in order |
| `Dicts.PositionsAscending` | library.py:184-186 | the positions of one rank ascend strictly |
| `Dicts.PositionsMembers` | library.py:184-186 | a position is listed exactly when the entry there has that rank |
| `Dicts.StableTie` | library.py:184-186 | when a reordering keeps each rank's entries in order, two entries of equal rank keep their relative order |
| `Dicts.SortedHistogramTies` | library.py:184-186 | in a sorted histogram, entries of equal rank are in the order in which their keys first occur |
| `Catalog.MatchesMeans` | library.py:152-156 | a record matches exactly when the lowered term is a substring of the chosen field, lowered; a genre search needs a genre; any other field name matches nothing |
| `Catalog.SearchSelects` | library.py:147-159 | the search result is the subsequence of the library at strictly ascending positions, and those are exactly the positions of the matching records |
| `Catalog.SearchMembers` | library.py:151-157 | a record is in the result exactly when it is in the library and matches |
| `Catalog.SearchGenreHasGenre` | library.py:156 | a genre search never returns a record without a genre |
| `Catalog.SearchOtherField` | library.py:151-157 | a field name other than title, author or genre gives an empty result |
| `Catalog.SearchEmptyTitle` | library.py:152 | an empty term returns the whole library for a title search |
| `Catalog.DuneScenario` | library.py:147-159 | for the single record "Dune" by "Herbert", searching "dune" by title returns it and by author returns nothing |
| `Catalog.DuneTitleMatches` | library.py:152 | the lowered title "Dune" contains the lowered term "dune" |
| `Catalog.HerbertLacksDune` | library.py:154 | the lowered author "Herbert" does not contain the term "dune" |
| `Catalog.WithReadToggled` | library.py:299-302 | the toggle keeps the length, negates record `i`'s read status, keeps every other field of record `i`, and keeps every other record |
| `Catalog.ToggleTwice` | library.py:299-302 | toggling the same record twice restores the library |
| `Statistics.CountReadBounds` | library.py:164 | the read count is at most the total, equals it exactly when every record is read, and is 0 exactly when none is |
| `Statistics.PercentBounds` | library.py:165 | for a read count at most the total: the percentage lies in [0, 100], times the total it is 100 times the read count, and it is 100 when all of a non-empty library is read |
| `Statistics.PercentReadFacts` | library.py:163-165 | the percentage is 0 for an empty library, 100 when every record is read, and between 0 and 100 |
| `Statistics.Decade` | library.py:179 | the decade is a multiple of 10 and the year lies in [decade, decade + 10), which is floor rounding, for negative years too |
| `Statistics.GenreKeysAt` | library.py:172 | each record contributes its genre, or "Unknown" when it has none, in library order |
| `Statistics.AuthorKeysAt` | library.py:175 | each record contributes its author, in library order |
| `Statistics.DecadeKeysFrom` | library.py:178-182 | decade keys come exactly from the records whose year parses; there are at most as many as records, and as many when every year parses |
| `Statistics.KeysStep` | library.py:171-182 | one loop iteration bumps the genre and the author, and bumps the decade only when the year parses |
| `Statistics.GenreOrder` | library.py:171-184 | genres are listed by non-increasing count, and genres of equal count in the order in which they first occur |
| `Statistics.GenreEntries` | library.py:171-184 | each genre is listed once, with its number of records ("Unknown" for a missing genre), and the counts sum to the total |
| `Statistics.GenreKeySet` | library.py:171-184 | the genres listed are exactly those of the records, with "Unknown" when some record has no genre |
| `Statistics.AuthorOrder` | library.py:175-185 | authors are listed by non-increasing count, and authors of equal count in the order in which they first occur |
| `Statistics.AuthorEntries` | library.py:175-185 | each author is listed once, with the number of their records, and the counts sum to the total |
| `Statistics.AuthorKeySet` | library.py:175-185 | the authors listed are exactly those of the records |
| `Statistics.DecadeOrder` | library.py:186 | decades are strictly ascending |
| `Statistics.DecadeEntries` | library.py:178-186 | every listed decade is a multiple of 10, is the decade of some record whose year parses, and carries the number of such records in that decade |
| `Statistics.DecadeKeyOrigin` | library.py:178-180 | a decade key comes from some record whose year parses |
| `Statistics.DecadeSum` | library.py:178-182 | the decade counts add up to the number of records whose year parses, which is at most the total |
| `Statistics.DecadeCoverage` | library.py:178-180 | the decade of every record whose year parses is listed |
| `Statistics.DecadesScenario` | library.py:178-186 | the years 1965, 1968, 1973 give exactly [(1960, 2), (1970, 1)] |
| `Session.Library.constructor` | library.py:85-89 | the session starts with an empty library and an empty search result |
| `Session.Library.SaveLibrary` | library.py:113-120 | saving counts one write and changes nothing in memory |
| `Session.Library.AddBook` | library.py:123-133 | the library grows by one; earlier records are unchanged; the new last record has exactly the given title, author, year, genre, read status and timestamp; one save |
| `Session.Library.RemoveBook` | library.py:138-144 | for `0 <= index < len`: returns true, and the library is the old one without exactly element `index`, the rest in order, with one save; otherwise returns false and nothing changes |
| `Session.Library.ToggleReadStatus` | library.py:299-303 | only the read status of record `i` is negated (see `WithReadToggled`); one save |
| `Session.Library.SearchBooks` | library.py:147-159 | the stored search result is `Search` of the library; the library itself is not in the frame, so it is unchanged |
| `Session.Library.GetLibraryStats` | library.py:162-195 | the returned statistics are `StatsOf` the current library; with no `modifies` clause the library is unchanged |
| `Session.ToggleTwiceRestores` | library.py:299-303 | two toggles of the same record through the session restore the library, with two saves, and leave the stored search result unchanged |

## Left out

- The Streamlit user interface is not modelled: page setup, styling, navigation,
  forms, the `book_added` / `book_removed` / `current_view` flags and `st.rerun`.
  It is presentation only. The misplaced `elif` after the add-book view is a UI
  control-flow quirk, not catalog logic.
- `create_visualization` is not modelled. It draws charts through plotly and pandas.
- `load_lottieur` is not modelled. It makes a network request.
- `load_library` and the JSON writing inside `save_library` are not modelled. They are
  file I/O. A save is only counted in the ghost field `saves`, and it never changes the
  in-memory library.
- The clock (`datetime.now()`) and `time.sleep` in `add_book` are not modelled. The
  timestamp is a parameter, `addedDate`, and the sleep is dropped.
- Statistics.PercentReadFacts: the percentage is exact rational arithmetic (`real`),
  not a floating-point value, so float rounding is not modelled.
- Text.Lower: folds only ASCII A-Z. Python's `str.lower` folds the whole of Unicode.
  Search results can differ for non-ASCII letters.
- Session.Library.ToggleReadStatus: records are values, and the stored search result is a
  snapshot of them. This matches the usual case: every rerun reloads the library from
  the library file (library.py:105, library.py:231), so the toggle, which runs in a later
  rerun than the search, changes freshly parsed records and not those in the search
  result. The source shares the record objects between the two lists only within the
  run that searched, or when the library file does not exist or fails to load (the
  error is caught at library.py:108-110 and the previous list stays); the model does not capture
  that sharing.
- Session.Library.ToggleReadStatus: the source has no bounds check at this point, because
  the index comes from enumerating the library. The method therefore requires a valid
  index.
- Records missing the `author` or `title` key are not modelled, nor values that are
  not strings. Every record has both as strings, as `add_book` creates them. The
  search reads both keys directly. The `'Unknown'` default for a missing author in
  the statistics is therefore never used.
- The `PublicationYear` type: what `int(...)` accepts (numeric strings, floats, booleans) is not
  modelled. Each stored value is already classified as `Year(n)` or `Unparsable`.
