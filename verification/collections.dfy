/** Generic sequence helpers shared by the services: optional values, sums,
    first-occurrence de-duplication, and insertion-ordered group-by tallies
    (the shape of a Python dict filled through a defaultdict). */
module Collections {

  datatype Option<+T> = None | Some(value: T)

  datatype Result<+T, +E> = Ok(value: T) | Err(error: E)

  /** The elements of xs satisfying p, in order. */
  function Filter<T>(xs: seq<T>, p: T -> bool): (r: seq<T>)
    ensures |r| <= |xs|
    ensures forall i :: 0 <= i < |r| ==> r[i] in xs && p(r[i])
    ensures forall i :: 0 <= i < |xs| && p(xs[i]) ==> xs[i] in r
  {
    if |xs| == 0 then []
    else if p(xs[0]) then [xs[0]] + Filter(xs[1..], p)
    else Filter(xs[1..], p)
  }

  lemma {:induction false} FilterAppend<T>(a: seq<T>, b: seq<T>, p: T -> bool)
    ensures Filter(a + b, p) == Filter(a, p) + Filter(b, p)
  {
    if |a| == 0 {
      assert a + b == b;
    } else {
      assert (a + b)[1..] == a[1..] + b;
      FilterAppend(a[1..], b, p);
    }
  }

  /** Filtering keeps every copy of an element that passes and none of one
      that does not. */
  lemma {:induction false} FilterMultiplicity<T>(xs: seq<T>, p: T -> bool, x: T)
    ensures multiset(Filter(xs, p))[x] == if p(x) then multiset(xs)[x] else 0
  {
    if |xs| > 0 {
      FilterMultiplicity(xs[1..], p, x);
      assert xs == [xs[0]] + xs[1..];
    }
  }

  /** The positions of xs whose element satisfies p. */
  function Positions<T>(xs: seq<T>, p: T -> bool): set<int>
  {
    set i | 0 <= i < |xs| && p(xs[i])
  }

  /** Filtering a non-empty sequence keeps the prefix's survivors and then
      the last element if it passes. */
  lemma FilterLast<T>(xs: seq<T>, p: T -> bool)
    requires |xs| > 0
    ensures |Filter(xs, p)| == |Filter(xs[..|xs| - 1], p)| + (if p(xs[|xs| - 1]) then 1 else 0)
  {
    var n := |xs| - 1;
    assert xs == xs[..n] + [xs[n]];
    FilterAppend(xs[..n], [xs[n]], p);
    assert |Filter([xs[n]], p)| == if p(xs[n]) then 1 else 0;
  }

  /** The passing positions of a non-empty sequence are those of its prefix
      and then the last position if it passes. */
  lemma PositionsLast<T>(xs: seq<T>, p: T -> bool)
    requires |xs| > 0
    ensures var n := |xs| - 1;
            Positions(xs, p) == Positions(xs[..n], p) + (if p(xs[n]) then {n} else {})
  {
    var n := |xs| - 1;
    forall i ensures i in Positions(xs, p) <==> i in Positions(xs[..n], p) || (i == n && p(xs[n])) {
      if 0 <= i < n {
        assert xs[i] == xs[..n][i];
      }
    }
  }

  /** The length of a filter is the number of positions that pass. */
  lemma {:induction false} FilterCountsPositions<T>(xs: seq<T>, p: T -> bool)
    ensures |Filter(xs, p)| == |Positions(xs, p)|
  {
    if |xs| > 0 {
      var n := |xs| - 1;
      FilterCountsPositions(xs[..n], p);
      FilterLast(xs, p);
      PositionsLast(xs, p);
      assert n !in Positions(xs[..n], p);
    }
  }

  /** A condition that holds wherever a stricter one holds lets at least as
      many elements through. */
  lemma {:induction false} FilterWeaker<T>(xs: seq<T>, p: T -> bool, q: T -> bool)
    requires forall i :: 0 <= i < |xs| && p(xs[i]) ==> q(xs[i])
    ensures |Filter(xs, p)| <= |Filter(xs, q)|
  {
    if |xs| > 0 {
      FilterWeaker(xs[1..], p, q);
    }
  }

  /** Filtering twice is filtering by both conditions. */
  lemma {:induction false} FilterFilter<T>(xs: seq<T>, p: T -> bool, q: T -> bool)
    ensures Filter(Filter(xs, p), q) == Filter(xs, x => p(x) && q(x))
  {
    if |xs| > 0 {
      FilterFilter(xs[1..], p, q);
    }
  }

  /** The first element whose key is k, if any: a primary-key lookup. */
  function Find<T>(xs: seq<T>, key: T -> int, k: int): (r: Option<T>)
    ensures r.Some? ==> r.value in xs && key(r.value) == k
    ensures r.None? <==> forall i :: 0 <= i < |xs| ==> key(xs[i]) != k
  {
    if |xs| == 0 then None
    else if key(xs[0]) == k then Some(xs[0])
    else Find(xs[1..], key, k)
  }

  /** Integer keys that identify rows: no two rows share one. */
  predicate UniqueIds<T>(xs: seq<T>, key: T -> int)
  {
    forall i, j :: 0 <= i < j < |xs| ==> key(xs[i]) != key(xs[j])
  }

  /** Under unique keys, the row found for a key is the only row with it. */
  lemma FindUnique<T>(xs: seq<T>, key: T -> int, i: int)
    requires UniqueIds(xs, key) && 0 <= i < |xs|
    ensures Find(xs, key, key(xs[i])) == Some(xs[i])
  {
    var f := Find(xs, key, key(xs[i]));
    var j :| 0 <= j < |xs| && xs[j] == f.value;
  }

  /** Appending a row does not hide an earlier row with the same key. */
  lemma {:induction false} FindAppend<T>(xs: seq<T>, x: T, key: T -> int, k: int)
    ensures Find(xs + [x], key, k) ==
              if Find(xs, key, k).Some? then Find(xs, key, k)
              else if key(x) == k then Some(x) else None
  {
    if |xs| > 0 {
      assert (xs + [x])[1..] == xs[1..] + [x];
      FindAppend(xs[1..], x, key, k);
    }
  }

  /** Filtering keeps every row when all of them pass. */
  lemma {:induction false} FilterAll<T>(xs: seq<T>, p: T -> bool)
    requires forall i :: 0 <= i < |xs| ==> p(xs[i])
    ensures Filter(xs, p) == xs
  {
    if |xs| > 0 {
      FilterAll(xs[1..], p);
    }
  }

  /** Filtering cannot make two rows share a key. */
  lemma {:induction false} FilterUnique<T>(xs: seq<T>, p: T -> bool, key: T -> int)
    requires UniqueIds(xs, key)
    ensures UniqueIds(Filter(xs, p), key)
  {
    if |xs| > 0 {
      FilterUnique(xs[1..], p, key);
      var t := Filter(xs[1..], p);
      if p(xs[0]) {
        forall j | 0 <= j < |t| ensures key(t[j]) != key(xs[0]) {
          var m :| 0 <= m < |xs[1..]| && xs[1..][m] == t[j];
          assert xs[m + 1] == t[j];
        }
        var r := [xs[0]] + t;
        forall i, j | 0 <= i < j < |r| ensures key(r[i]) != key(r[j]) {
          if i > 0 {
            assert r[i] == t[i - 1] && r[j] == t[j - 1];
          }
        }
      }
    }
  }

  /** A lookup by a key whose rows all pass the filter is unaffected by it. */
  lemma {:induction false} FindFilter<T>(xs: seq<T>, p: T -> bool, key: T -> int, k: int)
    requires forall i :: 0 <= i < |xs| && key(xs[i]) == k ==> p(xs[i])
    ensures Find(Filter(xs, p), key, k) == Find(xs, key, k)
  {
    if |xs| > 0 {
      FindFilter(xs[1..], p, key, k);
    }
  }

  /** Every row with the key of x replaced by x: an UPDATE by primary key. */
  function Replace<T>(xs: seq<T>, key: T -> int, x: T): (r: seq<T>)
    ensures |r| == |xs|
    ensures forall i :: 0 <= i < |xs| ==> key(r[i]) == key(xs[i])
  {
    if |xs| == 0 then []
    else [if key(xs[0]) == key(x) then x else xs[0]] + Replace(xs[1..], key, x)
  }

  /** After the replacement, the key of x finds x (if it found anything
      before) and every other key finds what it found before. */
  lemma {:induction false} FindReplace<T>(xs: seq<T>, key: T -> int, x: T, k: int)
    ensures Find(Replace(xs, key, x), key, k) ==
              if k == key(x) && Find(xs, key, k).Some? then Some(x) else Find(xs, key, k)
  {
    if |xs| > 0 {
      FindReplace(xs[1..], key, x, k);
    }
  }

  lemma ReplaceUnique<T>(xs: seq<T>, key: T -> int, x: T)
    requires UniqueIds(xs, key)
    ensures UniqueIds(Replace(xs, key, x), key)
  {
    var r := Replace(xs, key, x);
    forall i, j | 0 <= i < j < |r| ensures key(r[i]) != key(r[j]) {
      assert key(r[i]) == key(xs[i]) && key(r[j]) == key(xs[j]);
    }
  }

  /** Writing the same row twice is writing it once. */
  lemma {:induction false} ReplaceTwice<T>(xs: seq<T>, key: T -> int, x: T)
    ensures Replace(Replace(xs, key, x), key, x) == Replace(xs, key, x)
  {
    if |xs| > 0 {
      ReplaceTwice(xs[1..], key, x);
    }
  }

  /** xs without its first `skip` elements: SQL's OFFSET. */
  function Drop<T>(xs: seq<T>, skip: nat): (r: seq<T>)
    ensures |r| == if skip < |xs| then |xs| - skip else 0
  {
    if skip < |xs| then xs[skip..] else []
  }

  predicate SortedDesc<T>(xs: seq<T>, key: T -> int)
  {
    forall i, j :: 0 <= i < j < |xs| ==> key(xs[i]) >= key(xs[j])
  }

  /** No key in xs exceeds b. */
  predicate AllAtMost<T>(xs: seq<T>, key: T -> int, b: int)
  {
    forall i :: 0 <= i < |xs| ==> key(xs[i]) <= b
  }

  /** Insert x in front of the first element whose key is not larger. */
  function InsertDesc<T>(x: T, s: seq<T>, key: T -> int): (r: seq<T>)
    ensures multiset(r) == multiset(s) + multiset{x}
  {
    if |s| == 0 then [x]
    else if key(x) >= key(s[0]) then [x] + s
    else
      assert s == [s[0]] + s[1..];
      [s[0]] + InsertDesc(x, s[1..], key)
  }

  /** Inserting an element under a bound keeps every key under it. */
  lemma {:induction false} InsertDescBound<T>(x: T, s: seq<T>, key: T -> int, b: int)
    requires AllAtMost(s, key, b) && key(x) <= b
    ensures AllAtMost(InsertDesc(x, s, key), key, b)
  {
    if |s| > 0 && key(x) < key(s[0]) {
      InsertDescBound(x, s[1..], key, b);
    }
  }

  /** Insertion keeps a descending sequence descending. */
  lemma {:induction false} InsertDescSorted<T>(x: T, s: seq<T>, key: T -> int)
    requires SortedDesc(s, key)
    ensures SortedDesc(InsertDesc(x, s, key), key)
  {
    if |s| > 0 && key(x) < key(s[0]) {
      var t := InsertDesc(x, s[1..], key);
      InsertDescSorted(x, s[1..], key);
      InsertDescBound(x, s[1..], key, key(s[0]));
      assert InsertDesc(x, s, key) == [s[0]] + t;
    }
  }

  /** A stable sort by descending key: SQL's ORDER BY key DESC. */
  function SortDesc<T>(xs: seq<T>, key: T -> int): (r: seq<T>)
    ensures SortedDesc(r, key)
    ensures multiset(r) == multiset(xs)
    ensures |r| == |xs|
  {
    if |xs| == 0 then []
    else
      assert xs == [xs[0]] + xs[1..];
      var t := SortDesc(xs[1..], key);
      InsertDescSorted(xs[0], t, key);
      InsertDesc(xs[0], t, key)
  }

  /** The largest f(x) over the elements that `keep` selects; 0 when it
      selects none. */
  function MaxOf<T>(xs: seq<T>, f: T -> nat, keep: T -> bool): (r: nat)
    ensures forall i :: 0 <= i < |xs| && keep(xs[i]) ==> f(xs[i]) <= r
    ensures r == 0 || exists i :: 0 <= i < |xs| && keep(xs[i]) && f(xs[i]) == r
  {
    if |xs| == 0 then 0
    else
      var rest := MaxOf(xs[1..], f, keep);
      var v := if keep(xs[0]) then f(xs[0]) else 0;
      assert rest > 0 ==> exists i :: 1 <= i < |xs| && keep(xs[i]) && f(xs[i]) == rest by {
        if rest > 0 {
          var i :| 0 <= i < |xs[1..]| && keep(xs[1..][i]) && f(xs[1..][i]) == rest;
          assert xs[i + 1] == xs[1..][i];
        }
      }
      if v > rest then v else rest
  }

  /** Sum of a sequence of integers, folded from the front. */
  function Sum(xs: seq<int>): int
  {
    if |xs| == 0 then 0 else xs[0] + Sum(xs[1..])
  }

  lemma {:induction false} SumAppend(a: seq<int>, b: seq<int>)
    ensures Sum(a + b) == Sum(a) + Sum(b)
  {
    if |a| == 0 {
      assert a + b == b;
    } else {
      assert (a + b)[1..] == a[1..] + b;
      SumAppend(a[1..], b);
    }
  }

  /** The keys of a sequence under a key function, position by position. */
  function KeysOf<T, K>(xs: seq<T>, key: T -> K): (ks: seq<K>)
    ensures |ks| == |xs|
    ensures forall i :: 0 <= i < |xs| ==> ks[i] == key(xs[i])
  {
    seq(|xs|, i requires 0 <= i < |xs| => key(xs[i]))
  }

  predicate DistinctKeys<T, K(==)>(xs: seq<T>, key: T -> K)
  {
    forall i, j :: 0 <= i < j < |xs| ==> key(xs[i]) != key(xs[j])
  }

  /** True when xs[j] is the first element of xs carrying its key. */
  predicate IsFirstOfKey<T, K(==)>(xs: seq<T>, key: T -> K, j: int)
    requires 0 <= j < |xs|
  {
    forall i :: 0 <= i < j ==> key(xs[i]) != key(xs[j])
  }

  /** The elements of xs whose key has not been seen earlier, in their
      original order.  This is the reference definition that the loop in
      DedupCapped is proved against. */
  function Dedup<T, K(==)>(xs: seq<T>, key: T -> K): seq<T>
  {
    if |xs| == 0 then []
    else
      var r := Dedup(xs[..|xs| - 1], key);
      if key(xs[|xs| - 1]) in KeysOf(r, key) then r else r + [xs[|xs| - 1]]
  }

  lemma {:induction false} DedupSubset<T, K>(xs: seq<T>, key: T -> K)
    ensures forall x :: x in Dedup(xs, key) ==> x in xs
    ensures |Dedup(xs, key)| <= |xs|
  {
    if |xs| > 0 {
      DedupSubset(xs[..|xs| - 1], key);
    }
  }

  /** The keys kept by Dedup are exactly the keys of the input. */
  lemma {:induction false} DedupKeys<T, K>(xs: seq<T>, key: T -> K)
    ensures forall k :: k in KeysOf(Dedup(xs, key), key) <==> k in KeysOf(xs, key)
  {
    if |xs| > 0 {
      var n := |xs| - 1;
      var p := xs[..n];
      DedupKeys(p, key);
      var r := Dedup(p, key);
      var x := xs[n];
      assert KeysOf(xs, key) == KeysOf(p, key) + [key(x)];
      if key(x) !in KeysOf(r, key) {
        assert KeysOf(r + [x], key) == KeysOf(r, key) + [key(x)];
      }
    }
  }

  lemma {:induction false} DedupDistinct<T, K>(xs: seq<T>, key: T -> K)
    ensures DistinctKeys(Dedup(xs, key), key)
  {
    if |xs| > 0 {
      var n := |xs| - 1;
      var p := xs[..n];
      DedupDistinct(p, key);
      var r := Dedup(p, key);
      var x := xs[n];
      if key(x) !in KeysOf(r, key) {
        var r' := r + [x];
        forall i, j | 0 <= i < j < |r'| ensures key(r'[i]) != key(r'[j]) {
          if j == |r| {
            assert KeysOf(r, key)[i] == key(r[i]);
          }
        }
      }
    }
  }

  /** A key kept by Dedup is a key of the input. */
  lemma {:induction false} DedupKeyFrom<T, K>(xs: seq<T>, key: T -> K, k: K)
    requires k in KeysOf(Dedup(xs, key), key)
    ensures k in KeysOf(xs, key)
  {
    if |xs| > 0 {
      var n := |xs| - 1;
      var p := xs[..n];
      var r := Dedup(p, key);
      assert KeysOf(xs, key) == KeysOf(p, key) + [key(xs[n])];
      if k in KeysOf(r, key) {
        DedupKeyFrom(p, key, k);
      } else {
        assert KeysOf(r + [xs[n]], key) == KeysOf(r, key) + [key(xs[n])];
      }
    }
  }

  /** When the prefix's de-duplication already holds the last element's
      key, the last element is not the first of its key. */
  lemma LastRepeats<T, K>(xs: seq<T>, key: T -> K)
    requires |xs| > 0
    requires key(xs[|xs| - 1]) in KeysOf(Dedup(xs[..|xs| - 1], key), key)
    ensures !IsFirstOfKey(xs, key, |xs| - 1)
  {
    var n := |xs| - 1;
    var ks := KeysOf(xs[..n], key);
    DedupKeyFrom(xs[..n], key, key(xs[n]));
    var i :| 0 <= i < |ks| && ks[i] == key(xs[n]);
    assert key(xs[i]) == key(xs[n]);
  }

  /** The first element carrying each key survives de-duplication. */
  lemma {:induction false} DedupKeepsFirst<T, K>(xs: seq<T>, key: T -> K)
    ensures forall j :: 0 <= j < |xs| && IsFirstOfKey(xs, key, j) ==> xs[j] in Dedup(xs, key)
  {
    if |xs| > 0 {
      var n := |xs| - 1;
      var p := xs[..n];
      DedupKeepsFirst(p, key);
      var r := Dedup(p, key);
      var x := xs[n];
      assert forall y :: y in r ==> y in Dedup(xs, key);
      forall j | 0 <= j < n && IsFirstOfKey(xs, key, j) ensures xs[j] in Dedup(xs, key) {
        assert IsFirstOfKey(p, key, j) by {
          forall i | 0 <= i < j ensures key(p[i]) != key(p[j]) {
            assert p[i] == xs[i] && p[j] == xs[j];
          }
        }
        assert p[j] == xs[j];
      }
      if key(x) in KeysOf(r, key) {
        LastRepeats(xs, key);
      }
    }
  }

  /** pos places the elements of r in xs at strictly increasing positions. */
  ghost predicate Embeds<T>(r: seq<T>, xs: seq<T>, pos: seq<int>)
  {
    && |pos| == |r|
    && (forall i :: 0 <= i < |pos| ==> 0 <= pos[i] < |xs| && r[i] == xs[pos[i]])
    && (forall i, j :: 0 <= i < j < |pos| ==> pos[i] < pos[j])
  }

  /** r is a subsequence of xs: its elements occur in xs in the same order. */
  ghost predicate Subsequence<T>(r: seq<T>, xs: seq<T>)
  {
    exists pos :: Embeds(r, xs, pos)
  }

  /** Dedup keeps the survivors in their input order. */
  lemma {:induction false} DedupInOrder<T, K>(xs: seq<T>, key: T -> K)
    ensures Subsequence(Dedup(xs, key), xs)
  {
    if |xs| == 0 {
      assert Embeds([], xs, []);
    } else {
      var n := |xs| - 1;
      var q := xs[..n];
      DedupInOrder(q, key);
      var r := Dedup(q, key);
      var pos :| Embeds(r, q, pos);
      assert Embeds(r, xs, pos) by {
        forall i | 0 <= i < |pos| ensures 0 <= pos[i] < |xs| && r[i] == xs[pos[i]] {
          assert q[pos[i]] == xs[pos[i]];
        }
      }
      if key(xs[n]) !in KeysOf(r, key) {
        var pos' := pos + [n];
        assert Embeds(r + [xs[n]], xs, pos');
      }
    }
  }

  /** Dedup keeps one element per key, keeps every key, keeps exactly the
      first occurrence of each key, and keeps the input order. */
  lemma DedupProperties<T, K>(xs: seq<T>, key: T -> K)
    ensures DistinctKeys(Dedup(xs, key), key)
    ensures forall x :: x in Dedup(xs, key) ==> x in xs
    ensures forall k :: k in KeysOf(Dedup(xs, key), key) <==> k in KeysOf(xs, key)
    ensures forall j :: 0 <= j < |xs| && IsFirstOfKey(xs, key, j) ==> xs[j] in Dedup(xs, key)
    ensures |Dedup(xs, key)| <= |xs|
    ensures Subsequence(Dedup(xs, key), xs)
  {
    DedupInOrder(xs, key);
    DedupSubset(xs, key);
    DedupKeys(xs, key);
    DedupDistinct(xs, key);
    DedupKeepsFirst(xs, key);
  }

  /** Dedup of a longer prefix extends Dedup of a shorter one. */
  lemma {:induction false} DedupPrefix<T, K>(xs: seq<T>, key: T -> K, i: nat, j: nat)
    requires i <= j <= |xs|
    ensures Dedup(xs[..i], key) <= Dedup(xs[..j], key)
    decreases j - i
  {
    if i < j {
      DedupPrefix(xs, key, i, j - 1);
      assert xs[..j][..j - 1] == xs[..j - 1];
    }
  }

  /** A sequence whose keys are already distinct is its own de-duplication. */
  lemma {:induction false} DedupOfDistinct<T, K>(xs: seq<T>, key: T -> K)
    requires DistinctKeys(xs, key)
    ensures Dedup(xs, key) == xs
  {
    if |xs| > 0 {
      var n := |xs| - 1;
      var p := xs[..n];
      assert DistinctKeys(p, key);
      DedupOfDistinct(p, key);
      forall i | 0 <= i < n ensures KeysOf(p, key)[i] != key(xs[n]) {
        assert p[i] == xs[i];
      }
      assert key(xs[n]) !in KeysOf(p, key);
      assert p + [xs[n]] == xs;
    }
  }

  /** The first `cap` elements of a sequence, or all of them when shorter. */
  function Take<T>(xs: seq<T>, cap: nat): (r: seq<T>)
    ensures |r| == if |xs| < cap then |xs| else cap
    ensures r <= xs
  {
    if |xs| <= cap then xs else xs[..cap]
  }

  /** Two consecutive pages are the page that spans both. */
  lemma PagesConcat<T>(xs: seq<T>, skip: nat, a: nat, b: nat)
    ensures Take(Drop(xs, skip), a) + Take(Drop(xs, skip + a), b) == Take(Drop(xs, skip), a + b)
  {
  }

  /** A page of the matching elements, sorted by key, is sorted and holds
      only matching elements of xs. */
  lemma FilterPage<T>(xs: seq<T>, p: T -> bool, key: T -> int, skip: nat, cap: nat)
    ensures var r := Take(Drop(SortDesc(Filter(xs, p), key), skip), cap);
            && SortedDesc(r, key)
            && forall i :: 0 <= i < |r| ==> r[i] in xs && p(r[i])
  {
    var mine := Filter(xs, p);
    var sorted := SortDesc(mine, key);
    var r := Take(Drop(sorted, skip), cap);
    PageSorted(sorted, key, skip, cap);
    PageFrom(sorted, mine, skip, cap);
    forall i | 0 <= i < |r| ensures r[i] in xs && p(r[i]) {
      assert r[i] in mine;
    }
  }

  /** A page of a reordering of xs holds elements of xs. */
  lemma PageFrom<T>(sorted: seq<T>, xs: seq<T>, skip: nat, cap: nat)
    requires multiset(sorted) == multiset(xs)
    ensures forall i :: 0 <= i < |Take(Drop(sorted, skip), cap)| ==> Take(Drop(sorted, skip), cap)[i] in xs
  {
    var r := Take(Drop(sorted, skip), cap);
    forall i | 0 <= i < |r| ensures r[i] in xs {
      assert r[i] == sorted[skip + i];
      assert r[i] in multiset(sorted);
    }
  }

  /** A page of a sorted sequence is sorted. */
  lemma PageSorted<T>(xs: seq<T>, key: T -> int, skip: nat, cap: nat)
    requires SortedDesc(xs, key)
    ensures SortedDesc(Take(Drop(xs, skip), cap), key)
  {
    var r := Take(Drop(xs, skip), cap);
    forall i, j | 0 <= i < j < |r| ensures key(r[i]) >= key(r[j]) {
      assert r[i] == xs[skip + i] && r[j] == xs[skip + j];
    }
  }

  /** The scan the source writes out by hand: a `seen` set, append on a new key,
      stop as soon as `cap` elements are collected. */
  method DedupCapped<T, K(==)>(xs: seq<T>, key: T -> K, cap: nat) returns (out: seq<T>)
    requires cap > 0
    ensures out == Take(Dedup(xs, key), cap)
  {
    var seen: set<K> := {};
    out := [];
    var i := 0;
    while i < |xs|
      invariant 0 <= i <= |xs|
      invariant out == Dedup(xs[..i], key)
      invariant |out| < cap
      invariant seen == set k | k in KeysOf(out, key)
    {
      var x := xs[i];
      assert xs[..i + 1][..i] == xs[..i];
      assert xs[..i + 1][i] == x;
      if key(x) !in seen {
        seen := seen + {key(x)};
        out := out + [x];
        assert KeysOf(out, key) == KeysOf(out[..|out| - 1], key) + [key(x)];
        if |out| >= cap {
          DedupPrefix(xs, key, i + 1, |xs|);
          assert xs[..|xs|] == xs;
          return;
        }
      }
      i := i + 1;
    }
    assert xs[..i] == xs;
  }

  /** One row of an insertion-ordered group-by: how many items carried the
      key and the sum of their weights. */
  datatype Tally<K> = Tally(key: K, count: nat, total: nat)

  function TallyKey<K>(t: Tally<K>): K { t.key }

  /** The key of a weighted item. */
  function ItemKey<K>(p: (K, nat)): K { p.0 }

  /** Add one item of weight w under key k: bump its row, or append a new row. */
  function Bump<K(==)>(acc: seq<Tally<K>>, k: K, w: nat): seq<Tally<K>>
  {
    if |acc| == 0 then [Tally(k, 1, w)]
    else if acc[0].key == k then [Tally(k, acc[0].count + 1, acc[0].total + w)] + acc[1..]
    else [acc[0]] + Bump(acc[1..], k, w)
  }

  /** Group weighted items by key, rows in first-occurrence order. */
  function GroupBy<K(==)>(items: seq<(K, nat)>): seq<Tally<K>>
  {
    if |items| == 0 then []
    else Bump(GroupBy(items[..|items| - 1]), items[|items| - 1].0, items[|items| - 1].1)
  }

  /** Number of items carrying key k. */
  function CountKey<K(==)>(items: seq<(K, nat)>, k: K): nat
  {
    if |items| == 0 then 0
    else CountKey(items[..|items| - 1], k) + (if items[|items| - 1].0 == k then 1 else 0)
  }

  /** Sum of the weights of the items carrying key k. */
  function SumKey<K(==)>(items: seq<(K, nat)>, k: K): nat
  {
    if |items| == 0 then 0
    else SumKey(items[..|items| - 1], k) + (if items[|items| - 1].0 == k then items[|items| - 1].1 else 0)
  }

  /** The count recorded for key k in a tally, 0 when k has no row. */
  function CountIn<K(==)>(ts: seq<Tally<K>>, k: K): nat
  {
    if |ts| == 0 then 0 else if ts[0].key == k then ts[0].count else CountIn(ts[1..], k)
  }

  /** The total recorded for key k in a tally, 0 when k has no row. */
  function TotalIn<K(==)>(ts: seq<Tally<K>>, k: K): nat
  {
    if |ts| == 0 then 0 else if ts[0].key == k then ts[0].total else TotalIn(ts[1..], k)
  }

  function Counts<K>(ts: seq<Tally<K>>): seq<int>
  {
    seq(|ts|, i requires 0 <= i < |ts| => ts[i].count as int)
  }

  function Totals<K>(ts: seq<Tally<K>>): seq<int>
  {
    seq(|ts|, i requires 0 <= i < |ts| => ts[i].total as int)
  }

  function Weights<K>(items: seq<(K, nat)>): seq<int>
  {
    seq(|items|, i requires 0 <= i < |items| => items[i].1 as int)
  }

  lemma {:induction false} BumpKeys<K>(acc: seq<Tally<K>>, k: K, w: nat)
    ensures KeysOf(Bump(acc, k, w), TallyKey) ==
              if k in KeysOf(acc, TallyKey) then KeysOf(acc, TallyKey) else KeysOf(acc, TallyKey) + [k]
  {
    if |acc| > 0 && acc[0].key != k {
      BumpKeys(acc[1..], k, w);
      assert KeysOf(acc, TallyKey) == [acc[0].key] + KeysOf(acc[1..], TallyKey);
      assert KeysOf(Bump(acc, k, w), TallyKey) == [acc[0].key] + KeysOf(Bump(acc[1..], k, w), TallyKey);
    } else if |acc| > 0 {
      assert KeysOf(acc, TallyKey)[0] == k;
    }
  }

  lemma {:induction false} BumpLookup<K>(acc: seq<Tally<K>>, k: K, w: nat, k': K)
    ensures CountIn(Bump(acc, k, w), k') == CountIn(acc, k') + (if k' == k then 1 else 0)
    ensures TotalIn(Bump(acc, k, w), k') == TotalIn(acc, k') + (if k' == k then w else 0)
  {
    if |acc| > 0 && acc[0].key != k {
      BumpLookup(acc[1..], k, w, k');
      assert Bump(acc, k, w)[1..] == Bump(acc[1..], k, w);
    } else if |acc| > 0 {
      assert Bump(acc, k, w)[1..] == acc[1..];
    }
  }

  lemma {:induction false} BumpSums<K>(acc: seq<Tally<K>>, k: K, w: nat)
    ensures Sum(Counts(Bump(acc, k, w))) == Sum(Counts(acc)) + 1
    ensures Sum(Totals(Bump(acc, k, w))) == Sum(Totals(acc)) + w
  {
    var b := Bump(acc, k, w);
    if |acc| == 0 {
      assert Counts(b) == [1];
      assert Totals(b) == [w as int];
    } else {
      assert Counts(acc)[1..] == Counts(acc[1..]);
      assert Totals(acc)[1..] == Totals(acc[1..]);
      assert Counts(b)[1..] == Counts(b[1..]);
      assert Totals(b)[1..] == Totals(b[1..]);
      if acc[0].key != k {
        BumpSums(acc[1..], k, w);
      }
    }
  }

  /** With distinct keys, a row's own count and total are what CountIn and
      TotalIn report for its key. */
  lemma {:induction false} LookupRow<K>(ts: seq<Tally<K>>, i: nat)
    requires i < |ts|
    requires DistinctKeys(ts, TallyKey)
    ensures CountIn(ts, ts[i].key) == ts[i].count && TotalIn(ts, ts[i].key) == ts[i].total
  {
    if i > 0 {
      assert TallyKey(ts[0]) != TallyKey(ts[i]);
      LookupRow(ts[1..], i - 1);
    }
  }

  lemma {:induction false} GroupByKeys<K>(items: seq<(K, nat)>)
    ensures KeysOf(GroupBy(items), TallyKey) == Dedup(KeysOf(items, ItemKey), (k: K) => k)
  {
    var fst := ItemKey;
    var id := (k: K) => k;
    if |items| > 0 {
      var n := |items| - 1;
      var p := items[..n];
      GroupByKeys(p);
      BumpKeys(GroupBy(p), items[n].0, items[n].1);
      assert KeysOf(items, fst)[..n] == KeysOf(p, fst);
      assert KeysOf(items, fst)[n] == items[n].0;
      assert KeysOf(Dedup(KeysOf(p, fst), id), id) == Dedup(KeysOf(p, fst), id);
    }
  }

  lemma {:induction false} GroupByLookup<K>(items: seq<(K, nat)>, k: K)
    ensures CountIn(GroupBy(items), k) == CountKey(items, k)
    ensures TotalIn(GroupBy(items), k) == SumKey(items, k)
  {
    if |items| > 0 {
      var n := |items| - 1;
      GroupByLookup(items[..n], k);
      BumpLookup(GroupBy(items[..n]), items[n].0, items[n].1, k);
    }
  }

  lemma {:induction false} GroupBySums<K>(items: seq<(K, nat)>)
    ensures Sum(Counts(GroupBy(items))) == |items|
    ensures Sum(Totals(GroupBy(items))) == Sum(Weights(items))
  {
    if |items| > 0 {
      var n := |items| - 1;
      var p := items[..n];
      var w := items[n].1;
      GroupBySums(p);
      BumpSums(GroupBy(p), items[n].0, w);
      assert Weights(items) == Weights(p) + [w as int];
      SumAppend(Weights(p), [w as int]);
      assert Sum([w as int]) == w;
    }
  }

  lemma GroupByDistinct<K>(items: seq<(K, nat)>)
    ensures DistinctKeys(GroupBy(items), TallyKey)
    ensures forall k :: k in KeysOf(GroupBy(items), TallyKey) <==> k in KeysOf(items, ItemKey)
  {
    var fst := ItemKey;
    var id := (k: K) => k;
    var g := GroupBy(items);
    GroupByKeys(items);
    DedupDistinct(KeysOf(items, fst), id);
    DedupKeys(KeysOf(items, fst), id);
    assert KeysOf(KeysOf(g, TallyKey), id) == KeysOf(g, TallyKey);
    assert KeysOf(KeysOf(items, fst), id) == KeysOf(items, fst);
    forall i, j | 0 <= i < j < |g| ensures g[i].key != g[j].key {
      assert KeysOf(g, TallyKey)[i] == g[i].key && KeysOf(g, TallyKey)[j] == g[j].key;
    }
  }

  /** The group-by characterised: keys are distinct and are exactly the
      item keys, each row's count and total are those of the items carrying
      its key, and the counts and totals add up to the item count and the
      weight sum. */
  lemma GroupByProperties<K>(items: seq<(K, nat)>)
    ensures DistinctKeys(GroupBy(items), TallyKey)
    ensures forall k :: k in KeysOf(GroupBy(items), TallyKey) <==> k in KeysOf(items, ItemKey)
    ensures forall t :: t in GroupBy(items) ==>
              t.count == CountKey(items, t.key) && t.total == SumKey(items, t.key)
    ensures Sum(Counts(GroupBy(items))) == |items|
    ensures Sum(Totals(GroupBy(items))) == Sum(Weights(items))
  {
    var g := GroupBy(items);
    GroupByDistinct(items);
    GroupBySums(items);
    forall t | t in g ensures t.count == CountKey(items, t.key) && t.total == SumKey(items, t.key) {
      var i :| 0 <= i < |g| && g[i] == t;
      LookupRow(g, i);
      GroupByLookup(items, t.key);
    }
  }
}
