/** Ordering cache entries by how often they were accessed, as the table's
    access ranking does with Go's sort.Sort over (key, accessCount) pairs. */
module Ranking {

  /** A snapshot of one entry's key and access count. */
  datatype CacheItemPair<K> = CacheItemPair(key: K, accessCount: int)

  /** Non-increasing access counts: the order of a pair list whose Less is
      "greater access count". */
  ghost predicate ByCountDesc<K>(p: seq<CacheItemPair<K>>) {
    forall i, j :: 0 <= i < j < |p| ==> p[i].accessCount >= p[j].accessCount
  }

  /** No element occurs twice. */
  ghost predicate NoRepeats<T>(s: seq<T>) {
    forall x :: x in s ==> multiset(s)[x] <= 1
  }

  /** Inserts `x` after every pair whose count is at least its own. */
  function InsertByCount<K>(x: CacheItemPair<K>, p: seq<CacheItemPair<K>>): (r: seq<CacheItemPair<K>>)
    ensures multiset(r) == multiset(p) + multiset{x}
    ensures |r| == |p| + 1
  {
    if p == [] then [x]
    else if p[0].accessCount >= x.accessCount then
      assert p == [p[0]] + p[1..];
      [p[0]] + InsertByCount(x, p[1..])
    else
      [x] + p
  }

  /** The tail of a ranking by count is ranked. */
  lemma TailRanked<K>(p: seq<CacheItemPair<K>>)
    requires p != [] && ByCountDesc(p)
    ensures ByCountDesc(p[1..])
  {
    var tail := p[1..];
    forall i, j | 0 <= i < j < |tail| ensures tail[i].accessCount >= tail[j].accessCount {
      assert tail[i] == p[i + 1] && tail[j] == p[j + 1];
    }
  }

  /** A pair counted at least as often as a ranking's head may lead it. */
  lemma ConsRanked<K>(h: CacheItemPair<K>, rest: seq<CacheItemPair<K>>)
    requires ByCountDesc(rest) && (rest != [] ==> h.accessCount >= rest[0].accessCount)
    ensures ByCountDesc([h] + rest)
  {
    var r := [h] + rest;
    forall i, j | 0 <= i < j < |r| ensures r[i].accessCount >= r[j].accessCount {
      if i == 0 {
        assert rest[0].accessCount >= rest[j - 1].accessCount;
      } else {
        assert r[i] == rest[i - 1] && r[j] == rest[j - 1];
      }
    }
  }

  /** Inserting into a ranking by count keeps it ranked; the new head is
      either `x` or the old head. */
  lemma {:induction false} InsertKeepsOrder<K>(x: CacheItemPair<K>, p: seq<CacheItemPair<K>>)
    requires ByCountDesc(p)
    ensures ByCountDesc(InsertByCount(x, p))
    ensures InsertByCount(x, p)[0] == x || (p != [] && InsertByCount(x, p)[0] == p[0])
  {
    if p == [] {
    } else if p[0].accessCount >= x.accessCount {
      TailRanked(p);
      InsertKeepsOrder(x, p[1..]);
      ConsRanked(p[0], InsertByCount(x, p[1..]));
    } else {
      ConsRanked(x, p);
    }
  }

  /** Sorts pairs by non-increasing access count; the order among equal
      counts is left to the sort, as Go's sort.Sort leaves it. */
  function SortByCount<K>(p: seq<CacheItemPair<K>>): (r: seq<CacheItemPair<K>>)
    ensures ByCountDesc(r)
    ensures multiset(r) == multiset(p)
    ensures |r| == |p|
  {
    if p == [] then []
    else
      assert p == [p[0]] + p[1..];
      InsertKeepsOrder(p[0], SortByCount(p[1..]));
      InsertByCount(p[0], SortByCount(p[1..]))
  }

  /** An element found at two positions occurs at least twice. */
  lemma RepeatCounted<T>(s: seq<T>, i: int, j: int)
    requires 0 <= i < j < |s| && s[i] == s[j]
    ensures multiset(s)[s[i]] >= 2
  {
    var a, b := s[..j], s[j..];
    assert s == a + b;
    assert a[i] == s[i];
    assert b[0] == s[j];
    assert s[i] in multiset(a) && s[j] in multiset(b);
  }

  /** No key occurs in two pairs. */
  ghost predicate DistinctKeys<K>(p: seq<CacheItemPair<K>>) {
    forall i, j :: 0 <= i < j < |p| ==> p[i].key != p[j].key
  }

  /** A sequence with distinct entries at distinct positions has no repeats. */
  lemma {:induction false} DistinctNoRepeats<T>(s: seq<T>)
    requires forall i, j :: 0 <= i < j < |s| ==> s[i] != s[j]
    ensures NoRepeats(s)
  {
    if s != [] {
      assert s == [s[0]] + s[1..];
      DistinctNoRepeats(s[1..]);
      assert s[0] !in s[1..];
    }
  }

  /** Two sequences with the same multiset have the same elements. */
  lemma SameElements<T>(r: seq<T>, p: seq<T>)
    requires multiset(r) == multiset(p)
    ensures forall i :: 0 <= i < |r| ==> r[i] in p
    ensures forall x :: x in p ==> x in r
  {
    forall i | 0 <= i < |r| ensures r[i] in p {
      assert r[i] in multiset(r);
    }
    forall x | x in p ensures x in r {
      assert x in multiset(p);
    }
  }

  /** Rearranging pairs keeps their keys distinct. */
  lemma DistinctKeysPreserved<K>(r: seq<CacheItemPair<K>>, p: seq<CacheItemPair<K>>)
    requires multiset(r) == multiset(p) && DistinctKeys(p)
    ensures DistinctKeys(r)
  {
    SameElements(r, p);
    DistinctNoRepeats(p);
    forall i, j | 0 <= i < j < |r| ensures r[i].key != r[j].key {
      if r[i].key == r[j].key {
        assert r[i] == r[j] by {
          var a :| 0 <= a < |p| && p[a] == r[i];
          var b :| 0 <= b < |p| && p[b] == r[j];
        }
        RepeatCounted(r, i, j);
      }
    }
  }

  /** Sorting pairs whose keys are distinct yields the same pairs, keys still
      distinct. */
  lemma RankedPairs<K>(p: seq<CacheItemPair<K>>)
    requires DistinctKeys(p)
    ensures forall i :: 0 <= i < |SortByCount(p)| ==> SortByCount(p)[i] in p
    ensures forall x :: x in p ==> x in SortByCount(p)
    ensures DistinctKeys(SortByCount(p))
  {
    var r := SortByCount(p);
    SameElements(r, p);
    DistinctKeysPreserved(r, p);
  }

  /** A key that is not among the first `n` pairs of a ranking by count has
      no more accesses than any of those `n`. */
  lemma TopRanked<K>(ranked: seq<CacheItemPair<K>>, n: nat, counts: map<K, int>, k: K)
    requires ByCountDesc(ranked) && n <= |ranked|
    requires forall i :: 0 <= i < |ranked| ==> ranked[i].key in counts && ranked[i].accessCount == counts[ranked[i].key]
    requires k in counts && CacheItemPair(k, counts[k]) in ranked
    requires forall i :: 0 <= i < n ==> ranked[i].key != k
    ensures forall i :: 0 <= i < n ==> counts[k] <= ranked[i].accessCount
  {
    var j :| 0 <= j < |ranked| && ranked[j] == CacheItemPair(k, counts[k]);
  }
}
