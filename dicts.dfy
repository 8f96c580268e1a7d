/** Python's insertion-ordered `dict` as used for counting (`d[k] = d.get(k, 0) + 1`),
    and the builtin `sorted` over a dict's items, which is a stable sort. A dict with
    counts is an association list of (key, count) pairs in insertion order. */
module Dicts {

  /** The keys of an association list: one per entry, the `j`-th being the key of
      the `j`-th entry. */
  function Keys<K>(d: seq<(K, nat)>): (ks: seq<K>)
    ensures |ks| == |d|
    ensures forall j :: 0 <= j < |d| ==> ks[j] == d[j].0
  {
    if d == [] then [] else [d[0].0] + Keys(d[1..])
  }

  /** No key appears twice, as in every Python dict. */
  ghost predicate KeysDistinct<K>(d: seq<(K, nat)>)
  {
    forall i, j :: 0 <= i < j < |d| ==> d[i].0 != d[j].0
  }

  /** `d.get(k, 0)`. */
  function Get<K(==)>(d: seq<(K, nat)>, k: K): nat
  {
    if d == [] then 0
    else if d[0].0 == k then d[0].1
    else Get(d[1..], k)
  }

  /** `d[k] = d.get(k, 0) + 1`: an existing key keeps its place, a new key goes last. */
  function Bump<K(==)>(d: seq<(K, nat)>, k: K): seq<(K, nat)>
  {
    if d == [] then [(k, 1)]
    else if d[0].0 == k then [(k, d[0].1 + 1)] + d[1..]
    else [d[0]] + Bump(d[1..], k)
  }

  /** The sum of the counts of a dict. */
  function Sum<K>(d: seq<(K, nat)>): nat
  {
    if d == [] then 0 else d[0].1 + Sum(d[1..])
  }

  /** Looking up a key that is stored at position `j` finds the count stored there;
      looking up an absent key yields the default 0. */
  lemma {:induction false} GetFinds<K>(d: seq<(K, nat)>, k: K)
    requires KeysDistinct(d)
    ensures forall j :: 0 <= j < |d| && d[j].0 == k ==> Get(d, k) == d[j].1
    ensures k !in Keys(d) ==> Get(d, k) == 0
  {
    if d != [] && d[0].0 != k {
      GetFinds(d[1..], k);
      assert forall j :: 1 <= j < |d| ==> d[1..][j - 1] == d[j];
    }
  }

  /** Bumping a key adds one to its count and leaves every other count alone. */
  lemma {:induction false} BumpGet<K>(d: seq<(K, nat)>, k: K)
    ensures Get(Bump(d, k), k) == Get(d, k) + 1
    ensures forall k' :: k' != k ==> Get(Bump(d, k), k') == Get(d, k')
  {
    if d != [] && d[0].0 != k {
      BumpGet(d[1..], k);
      assert Bump(d, k)[1..] == Bump(d[1..], k);
    }
  }

  /** An existing key keeps the key order; a new key is appended with count 1. */
  lemma {:induction false} BumpKeys<K>(d: seq<(K, nat)>, k: K)
    ensures k in Keys(d) ==> Keys(Bump(d, k)) == Keys(d)
    ensures k !in Keys(d) ==> Bump(d, k) == d + [(k, 1)]
  {
    if d != [] && d[0].0 != k {
      BumpKeys(d[1..], k);
      var r := Bump(d, k);
      assert r == [d[0]] + Bump(d[1..], k);
      assert Keys(d) == [d[0].0] + Keys(d[1..]);
      assert Keys(r) == [d[0].0] + Keys(Bump(d[1..], k));
      assert d == [d[0]] + d[1..];
    } else if d != [] {
      assert Keys(Bump(d, k)) == Keys(d);
    }
  }

  /** Bumping adds one to the sum of the counts. */
  lemma {:induction false} BumpSum<K>(d: seq<(K, nat)>, k: K)
    ensures Sum(Bump(d, k)) == Sum(d) + 1
  {
    if d != [] && d[0].0 != k {
      BumpSum(d[1..], k);
      assert Bump(d, k)[1..] == Bump(d[1..], k);
    } else if d != [] {
      assert Bump(d, k)[1..] == d[1..];
    }
  }

  /** Bumping keeps the keys distinct. */
  lemma BumpKeysDistinct<K>(d: seq<(K, nat)>, k: K)
    requires KeysDistinct(d)
    ensures KeysDistinct(Bump(d, k))
  {
    BumpKeys(d, k);
    var r := Bump(d, k);
    if k in Keys(d) {
      assert forall j :: 0 <= j < |r| ==> r[j].0 == Keys(d)[j] == d[j].0;
    } else {
      assert forall j :: 0 <= j < |d| ==> r[j] == d[j] && d[j].0 == Keys(d)[j];
    }
  }

  // ---------------------------------------------------------------------------
  // Counting a sequence of keys into a fresh dict.

  /** The dict obtained by bumping the keys of `ks` one after the other, starting
      from `{}`: the loop `for k in ks: d[k] = d.get(k, 0) + 1`. */
  function Histogram<K(==)>(ks: seq<K>): seq<(K, nat)>
  {
    if ks == [] then [] else Bump(Histogram(ks[..|ks| - 1]), ks[|ks| - 1])
  }

  /** The histogram of `ks` holds each key of `ks` exactly once, with the number of its
      occurrences in `ks` as its count, and nothing else; its counts add up to `|ks|`. */
  lemma {:induction false} HistogramCounts<K>(ks: seq<K>)
    ensures KeysDistinct(Histogram(ks))
    ensures forall k :: Get(Histogram(ks), k) == multiset(ks)[k]
    ensures forall k :: k in Keys(Histogram(ks)) <==> k in ks
    ensures Sum(Histogram(ks)) == |ks|
  {
    if ks != [] {
      var init, last := ks[..|ks| - 1], ks[|ks| - 1];
      assert ks == init + [last];
      HistogramCounts(init);
      BumpGet(Histogram(init), last);
      BumpKeys(Histogram(init), last);
      BumpSum(Histogram(init), last);
      BumpKeysDistinct(Histogram(init), last);
      var h := Histogram(ks);
      if last in Keys(Histogram(init)) {
        assert Keys(h) == Keys(Histogram(init));
      } else {
        assert h == Histogram(init) + [(last, 1)];
        assert Keys(h) == Keys(Histogram(init)) + [last];
      }
    }
  }

  /** Every entry of a histogram counts the occurrences of its key, and is positive. */
  lemma HistogramEntries<K>(ks: seq<K>)
    ensures forall e :: e in Histogram(ks) ==> e.0 in ks && e.1 == multiset(ks)[e.0] && e.1 >= 1
  {
    var h := Histogram(ks);
    HistogramCounts(ks);
    forall e | e in h
      ensures e.0 in ks && e.1 == multiset(ks)[e.0] && e.1 >= 1
    {
      var j :| 0 <= j < |h| && h[j] == e;
      GetFinds(h, e.0);
      assert Keys(h)[j] == e.0;
    }
  }

  /** Keys enter a histogram in the order of their first occurrence in `ks`: for two
      entries, the first one's key occurs in `ks` before the second one's key does. */
  ghost predicate FirstSeenBefore<K>(ks: seq<K>, a: K, b: K)
  {
    exists i :: 0 <= i < |ks| && ks[i] == a && b !in ks[..i]
  }

  lemma {:induction false} HistogramInsertionOrder<K>(ks: seq<K>)
    ensures forall i, j :: 0 <= i < j < |Histogram(ks)| ==>
      FirstSeenBefore(ks, Histogram(ks)[i].0, Histogram(ks)[j].0)
  {
    if ks != [] {
      var init, last := ks[..|ks| - 1], ks[|ks| - 1];
      assert ks == init + [last];
      var h0, h := Histogram(init), Histogram(ks);
      HistogramInsertionOrder(init);
      HistogramCounts(init);
      BumpKeys(h0, last);
      forall i, j | 0 <= i < j < |h|
        ensures FirstSeenBefore(ks, h[i].0, h[j].0)
      {
        if j < |h0| {
          assert Keys(h)[i] == Keys(h0)[i] && Keys(h)[j] == Keys(h0)[j];
          FirstSeenExtend(init, last, h0[i].0, h0[j].0);
        } else {
          assert h == h0 + [(last, 1)];
          assert Keys(h0)[i] in init;
          FirstSeenNew(init, last, h0[i].0);
        }
      }
    }
  }

  /** Appending a key keeps an existing first-seen order. */
  lemma FirstSeenExtend<K>(init: seq<K>, x: K, a: K, b: K)
    requires FirstSeenBefore(init, a, b)
    ensures FirstSeenBefore(init + [x], a, b)
  {
    var p :| 0 <= p < |init| && init[p] == a && b !in init[..p];
    assert (init + [x])[..p] == init[..p];
  }

  /** A key appended for the first time is seen after every key already present. */
  lemma FirstSeenNew<K>(init: seq<K>, x: K, a: K)
    requires a in init && x !in init
    ensures FirstSeenBefore(init + [x], a, x)
  {
    var p :| 0 <= p < |init| && init[p] == a;
    assert (init + [x])[..p] == init[..p];
    assert init[..p] <= init;
  }

  // ---------------------------------------------------------------------------
  // Python's `sorted`: a stable sort, ascending by a rank. `sorted(items, key=f,
  // reverse=True)` keeps the order of equal items too, so it is the stable ascending
  // sort by the rank `-f`.

  /** `s` is in ascending order of rank. */
  ghost predicate SortedBy<K>(s: seq<(K, nat)>, rank: ((K, nat)) -> int)
  {
    forall i, j :: 0 <= i < j < |s| ==> rank(s[i]) <= rank(s[j])
  }

  /** The entries of `s` whose rank is `v`, in their order in `s`. */
  function WithRank<K>(s: seq<(K, nat)>, rank: ((K, nat)) -> int, v: int): seq<(K, nat)>
  {
    if s == [] then []
    else (if rank(s[0]) == v then [s[0]] else []) + WithRank(s[1..], rank, v)
  }

  /** Places `x` before the first entry whose rank is not below its own. */
  function Insert<K>(x: (K, nat), s: seq<(K, nat)>, rank: ((K, nat)) -> int): seq<(K, nat)>
  {
    if s == [] || rank(x) <= rank(s[0]) then [x] + s
    else [s[0]] + Insert(x, s[1..], rank)
  }

  /** Insertion sort; each entry is inserted in front of the later entries of equal rank. */
  function SortBy<K>(s: seq<(K, nat)>, rank: ((K, nat)) -> int): seq<(K, nat)>
  {
    if s == [] then [] else Insert(s[0], SortBy(s[1..], rank), rank)
  }

  /** Inserting adds exactly `x` to the multiset of entries. */
  lemma {:induction false} InsertPerm<K>(x: (K, nat), s: seq<(K, nat)>, rank: ((K, nat)) -> int)
    ensures multiset(Insert(x, s, rank)) == multiset(s) + multiset{x}
  {
    if s != [] && rank(x) > rank(s[0]) {
      InsertPerm(x, s[1..], rank);
      assert s == [s[0]] + s[1..];
    }
  }

  /** Inserting into an ascending sequence gives an ascending sequence. */
  lemma {:induction false} InsertSorted<K>(x: (K, nat), s: seq<(K, nat)>, rank: ((K, nat)) -> int)
    requires SortedBy(s, rank)
    ensures SortedBy(Insert(x, s, rank), rank)
  {
    var r := Insert(x, s, rank);
    if s == [] || rank(x) <= rank(s[0]) {
      assert r == [x] + s;
      forall i, j | 0 <= i < j < |r|
        ensures rank(r[i]) <= rank(r[j])
      {
        assert r[j] == s[j - 1];
        if i > 0 {
          assert r[i] == s[i - 1];
        } else if j > 1 {
          assert rank(s[0]) <= rank(s[j - 1]);
        }
      }
    } else {
      var t := Insert(x, s[1..], rank);
      assert SortedBy(s[1..], rank) by {
        assert forall i :: 0 <= i < |s| - 1 ==> s[1..][i] == s[i + 1];
      }
      InsertSorted(x, s[1..], rank);
      assert forall j :: 0 <= j < |s[1..]| ==> rank(s[1..][j]) >= rank(s[0]) by {
        assert forall j :: 0 <= j < |s| - 1 ==> s[1..][j] == s[j + 1];
      }
      InsertAbove(x, s[1..], rank, rank(s[0]));
      assert r == [s[0]] + t;
      forall i, j | 0 <= i < j < |r|
        ensures rank(r[i]) <= rank(r[j])
      {
        assert r[j] == t[j - 1];
        if i > 0 {
          assert r[i] == t[i - 1];
        }
      }
    }
  }

  /** Inserting an entry of rank at least `b` among entries of rank at least `b` gives
      entries of rank at least `b`. */
  lemma {:induction false} InsertAbove<K>(x: (K, nat), s: seq<(K, nat)>, rank: ((K, nat)) -> int, b: int)
    requires rank(x) >= b
    requires forall j :: 0 <= j < |s| ==> rank(s[j]) >= b
    ensures forall j :: 0 <= j < |Insert(x, s, rank)| ==> rank(Insert(x, s, rank)[j]) >= b
  {
    var r := Insert(x, s, rank);
    if s == [] || rank(x) <= rank(s[0]) {
      assert r == [x] + s;
      assert forall j :: 1 <= j < |r| ==> r[j] == s[j - 1];
    } else {
      var t := Insert(x, s[1..], rank);
      assert forall j :: 0 <= j < |s| - 1 ==> s[1..][j] == s[j + 1];
      InsertAbove(x, s[1..], rank, b);
      assert r == [s[0]] + t;
      assert forall j :: 1 <= j < |r| ==> r[j] == t[j - 1];
    }
  }

  /** Inserting puts `x` in front of the entries of its own rank: every entry it passes
      has a smaller rank. */
  lemma {:induction false} InsertWithRank<K>(x: (K, nat), s: seq<(K, nat)>, rank: ((K, nat)) -> int, v: int)
    ensures WithRank(Insert(x, s, rank), rank, v) == (if rank(x) == v then [x] else []) + WithRank(s, rank, v)
  {
    var r := Insert(x, s, rank);
    if s == [] || rank(x) <= rank(s[0]) {
      assert r[1..] == s;
    } else {
      var t := Insert(x, s[1..], rank);
      InsertWithRank(x, s[1..], rank, v);
      assert r == [s[0]] + t && r[1..] == t;
      assert WithRank(r, rank, v) == (if rank(s[0]) == v then [s[0]] else []) + WithRank(t, rank, v);
      assert WithRank(s, rank, v) == (if rank(s[0]) == v then [s[0]] else []) + WithRank(s[1..], rank, v);
    }
  }

  /** Inserting adds the count of `x` to the sum. */
  lemma {:induction false} InsertSum<K>(x: (K, nat), s: seq<(K, nat)>, rank: ((K, nat)) -> int)
    ensures Sum(Insert(x, s, rank)) == x.1 + Sum(s)
  {
    var r := Insert(x, s, rank);
    if s == [] || rank(x) <= rank(s[0]) {
      assert r[1..] == s;
    } else {
      InsertSum(x, s[1..], rank);
      assert r[1..] == Insert(x, s[1..], rank);
    }
  }

  /** The sorted sequence is in ascending order of rank, is a permutation of the input,
      keeps the input order among entries of equal rank (stability), and keeps the sum. */
  lemma {:induction false} SortByFacts<K>(s: seq<(K, nat)>, rank: ((K, nat)) -> int)
    ensures SortedBy(SortBy(s, rank), rank)
    ensures multiset(SortBy(s, rank)) == multiset(s)
    ensures forall v :: WithRank(SortBy(s, rank), rank, v) == WithRank(s, rank, v)
    ensures Sum(SortBy(s, rank)) == Sum(s)
  {
    if s != [] {
      var t := SortBy(s[1..], rank);
      SortByFacts(s[1..], rank);
      InsertPerm(s[0], t, rank);
      InsertSorted(s[0], t, rank);
      InsertSum(s[0], t, rank);
      forall v
        ensures WithRank(SortBy(s, rank), rank, v) == WithRank(s, rank, v)
      {
        InsertWithRank(s[0], t, rank, v);
      }
      assert s == [s[0]] + s[1..];
    }
  }

  /** Sorting keeps the keys distinct. */
  lemma {:induction false} SortByKeysDistinct<K>(s: seq<(K, nat)>, rank: ((K, nat)) -> int)
    requires KeysDistinct(s)
    ensures KeysDistinct(SortBy(s, rank))
  {
    if s != [] {
      var t := SortBy(s[1..], rank);
      assert KeysDistinct(s[1..]) by {
        assert forall i :: 0 <= i < |s| - 1 ==> s[1..][i] == s[i + 1];
      }
      SortByKeysDistinct(s[1..], rank);
      SortByFacts(s[1..], rank);
      forall e | e in t
        ensures e.0 != s[0].0
      {
        assert e in multiset(s[1..]);
        var j :| 0 <= j < |s[1..]| && s[1..][j] == e;
        assert s[j + 1] == e;
      }
      InsertKeysDistinct(s[0], t, rank);
    }
  }

  lemma {:induction false} InsertKeysDistinct<K>(x: (K, nat), s: seq<(K, nat)>, rank: ((K, nat)) -> int)
    requires KeysDistinct(s)
    requires forall e :: e in s ==> e.0 != x.0
    ensures KeysDistinct(Insert(x, s, rank))
    ensures forall e :: e in Insert(x, s, rank) ==> e == x || e in s
  {
    if s == [] || rank(x) <= rank(s[0]) {
      var r := Insert(x, s, rank);
      assert forall j :: 1 <= j < |r| ==> r[j] == s[j - 1];
    } else {
      var t := Insert(x, s[1..], rank);
      assert KeysDistinct(s[1..]) by {
        assert forall i :: 0 <= i < |s| - 1 ==> s[1..][i] == s[i + 1];
      }
      InsertKeysDistinct(x, s[1..], rank);
      var r := Insert(x, s, rank);
      assert r == [s[0]] + t;
      forall i, j | 0 <= i < j < |r|
        ensures r[i].0 != r[j].0
      {
        assert r[j] == t[j - 1];
        if i == 0 {
          assert t[j - 1] in t;
          if r[j] != x {
            assert r[j] in s[1..];
            var p :| 0 <= p < |s[1..]| && s[1..][p] == r[j];
            assert s[p + 1] == r[j];
          }
        } else {
          assert r[i] == t[i - 1];
        }
      }
    }
  }

  // ---------------------------------------------------------------------------
  // A histogram turned into a sorted list of (key, count) pairs.

  /** The sorted histogram has each key once, each entry holding the number of
      occurrences of its key (at least one), and counts summing to the number of keys. */
  lemma SortedHistogramEntries<K>(ks: seq<K>, rank: ((K, nat)) -> int)
    ensures KeysDistinct(SortBy(Histogram(ks), rank))
    ensures forall e :: e in SortBy(Histogram(ks), rank) ==> e.1 == multiset(ks)[e.0] && e.1 >= 1
    ensures Sum(SortBy(Histogram(ks), rank)) == |ks|
  {
    var h := Histogram(ks);
    var r := SortBy(h, rank);
    HistogramCounts(ks);
    HistogramEntries(ks);
    SortByFacts(h, rank);
    SortByKeysDistinct(h, rank);
    forall e | e in r
      ensures e.1 == multiset(ks)[e.0] && e.1 >= 1
    {
      assert e in multiset(h);
    }
  }

  /** The keys of the sorted histogram are exactly the keys that occur in `ks`. */
  lemma SortedHistogramKeys<K>(ks: seq<K>, rank: ((K, nat)) -> int)
    ensures forall k :: k in Keys(SortBy(Histogram(ks), rank)) <==> k in ks
  {
    var h := Histogram(ks);
    var r := SortBy(h, rank);
    HistogramCounts(ks);
    SortByFacts(h, rank);
    forall k
      ensures k in Keys(r) <==> k in Keys(h)
    {
      if k in Keys(r) {
        KeysOfPermutation(r, h, k);
      }
      if k in Keys(h) {
        KeysOfPermutation(h, r, k);
      }
    }
  }

  /** Lists with the same entries have the same keys. */
  lemma KeysOfPermutation<K>(a: seq<(K, nat)>, b: seq<(K, nat)>, k: K)
    requires multiset(a) == multiset(b)
    requires k in Keys(a)
    ensures k in Keys(b)
  {
    var j :| 0 <= j < |a| && Keys(a)[j] == k;
    assert a[j] in multiset(b);
    var p :| 0 <= p < |b| && b[p] == a[j];
    assert Keys(b)[p] == k;
  }

  /** The positions in `s` of the entries of rank `v`, in ascending order. */
  function Positions<K>(s: seq<(K, nat)>, rank: ((K, nat)) -> int, v: int): (idx: seq<nat>)
    ensures |idx| == |WithRank(s, rank, v)|
  {
    if s == [] then []
    else (if rank(s[0]) == v then [0] else []) + Shift(Positions(s[1..], rank, v))
  }

  /** `WithRank(s, rank, v)` is the subsequence of `s` at `Positions(s, rank, v)`. */
  lemma {:induction false} PositionsSelect<K>(s: seq<(K, nat)>, rank: ((K, nat)) -> int, v: int)
    ensures forall k :: 0 <= k < |Positions(s, rank, v)| ==>
      Positions(s, rank, v)[k] < |s| && WithRank(s, rank, v)[k] == s[Positions(s, rank, v)[k]]
  {
    if s != [] {
      PositionsSelect(s[1..], rank, v);
      var idx, rest := Positions(s, rank, v), Positions(s[1..], rank, v);
      var w, wr := WithRank(s, rank, v), WithRank(s[1..], rank, v);
      var d := if rank(s[0]) == v then 1 else 0;
      assert idx == (if d == 1 then [0] else []) + Shift(rest);
      assert w == (if d == 1 then [s[0]] else []) + wr;
      forall k | d <= k < |idx|
        ensures idx[k] < |s| && w[k] == s[idx[k]]
      {
        assert idx[k] == rest[k - d] + 1 && w[k] == wr[k - d];
        assert wr[k - d] == s[1..][rest[k - d]];
      }
    }
  }

  /** The positions ascend strictly. */
  lemma {:induction false} PositionsAscending<K>(s: seq<(K, nat)>, rank: ((K, nat)) -> int, v: int)
    ensures forall k, l :: 0 <= k < l < |Positions(s, rank, v)| ==> Positions(s, rank, v)[k] < Positions(s, rank, v)[l]
  {
    if s != [] {
      PositionsAscending(s[1..], rank, v);
      var idx, shifted := Positions(s, rank, v), Shift(Positions(s[1..], rank, v));
      if rank(s[0]) == v {
        assert idx == [0] + shifted;
        forall k, l | 0 <= k < l < |idx|
          ensures idx[k] < idx[l]
        {
          assert idx[l] == shifted[l - 1];
          if k > 0 {
            assert idx[k] == shifted[k - 1];
          }
        }
      } else {
        assert idx == shifted;
      }
    }
  }

  /** The positions are exactly those of the entries of rank `v`. */
  lemma {:induction false} PositionsMembers<K>(s: seq<(K, nat)>, rank: ((K, nat)) -> int, v: int)
    ensures forall i :: 0 <= i < |s| ==> (i in Positions(s, rank, v) <==> rank(s[i]) == v)
  {
    if s != [] {
      PositionsMembers(s[1..], rank, v);
      var idx, rest := Positions(s, rank, v), Positions(s[1..], rank, v);
      var shifted := Shift(rest);
      assert idx == (if rank(s[0]) == v then [0] else []) + shifted;
      forall i | 0 <= i < |s|
        ensures i in idx <==> rank(s[i]) == v
      {
        ShiftMembers(rest, i);
        if i > 0 {
          ShiftMembers(rest, i - 1);
          assert s[i] == s[1..][i - 1];
        }
      }
    }
  }

  /** Shifting turns `i` into `i + 1` and leaves no zero. */
  lemma ShiftMembers(idx: seq<nat>, i: nat)
    ensures i + 1 in Shift(idx) <==> i in idx
    ensures 0 !in Shift(idx)
  {
    var r := Shift(idx);
    if i in idx {
      var k :| 0 <= k < |idx| && idx[k] == i;
      assert r[k] == i + 1;
    }
    if i + 1 in r {
      var k :| 0 <= k < |r| && r[k] == i + 1;
      assert idx[k] == i;
    }
  }

  /** Adds one to every position: the result has the same length, and its `k`-th
      position is one past the `k`-th of `idx`. */
  function Shift(idx: seq<nat>): (r: seq<nat>)
    ensures |r| == |idx|
    ensures forall k :: 0 <= k < |idx| ==> r[k] == idx[k] + 1
  {
    if idx == [] then [] else [idx[0] + 1] + Shift(idx[1..])
  }

  /** In the sorted histogram, entries of equal rank are in the order in which their keys
      first occur in `ks`: Python's stable sort keeps the dict's insertion order. */
  lemma SortedHistogramTies<K>(ks: seq<K>, rank: ((K, nat)) -> int)
    ensures forall i, j ::
      (0 <= i < j < |SortBy(Histogram(ks), rank)| &&
       rank(SortBy(Histogram(ks), rank)[i]) == rank(SortBy(Histogram(ks), rank)[j])) ==>
      FirstSeenBefore(ks, SortBy(Histogram(ks), rank)[i].0, SortBy(Histogram(ks), rank)[j].0)
  {
    var h := Histogram(ks);
    var r := SortBy(h, rank);
    SortByFacts(h, rank);
    HistogramInsertionOrder(ks);
    forall i, j | 0 <= i < j < |r| && rank(r[i]) == rank(r[j])
      ensures FirstSeenBefore(ks, r[i].0, r[j].0)
    {
      var p, q := StableTie(h, r, rank, i, j);
    }
  }

  /** Two entries of equal rank, in this order in `r`, occur in the same order in `h`
      when `r` keeps each rank's entries in the order of `h`. */
  lemma StableTie<K>(h: seq<(K, nat)>, r: seq<(K, nat)>, rank: ((K, nat)) -> int, i: nat, j: nat)
    returns (p: nat, q: nat)
    requires i < j < |r| && rank(r[i]) == rank(r[j])
    requires WithRank(r, rank, rank(r[i])) == WithRank(h, rank, rank(r[i]))
    ensures p < q < |h| && h[p] == r[i] && h[q] == r[j]
  {
    var v := rank(r[i]);
    var w := WithRank(r, rank, v);
    var idxR, idxH := Positions(r, rank, v), Positions(h, rank, v);
    PositionsMembers(r, rank, v);
    PositionsSelect(r, rank, v);
    PositionsSelect(h, rank, v);
    PositionsAscending(r, rank, v);
    PositionsAscending(h, rank, v);
    assert i in idxR && j in idxR;
    var a :| 0 <= a < |idxR| && idxR[a] == i;
    var b :| 0 <= b < |idxR| && idxR[b] == j;
    assert a < b;
    p, q := idxH[a], idxH[b];
  }
}
