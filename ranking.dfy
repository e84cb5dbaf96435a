/**
  Ranking of scored keys: Python's `sorted(matches, key=lambda x: x[1],
  reverse=True)`, a stable sort by descending score, followed by the slice
  `[:n]`.
 */
module Ranking {

  /** A key with its similarity score. */
  type Scored<K> = (K, real)

  /** Scores never increase along `s`. */
  predicate SortedDesc<K>(s: seq<Scored<K>>) {
    forall p, q :: 0 <= p < q < |s| ==> s[p].1 >= s[q].1
  }

  /** The entries of `s` that score exactly `v`, in their order in `s`. */
  function WithScore<K>(s: seq<Scored<K>>, v: real): (r: seq<Scored<K>>)
    ensures |r| <= |s|
  {
    if s == [] then []
    else (if s[0].1 == v then [s[0]] else []) + WithScore(s[1..], v)
  }

  /** Places `x` in front of the first entry of `t` that does not score
      more than it. */
  function Insert<K>(x: Scored<K>, t: seq<Scored<K>>): (r: seq<Scored<K>>)
    ensures |r| == |t| + 1
    ensures r[0] == x || (t != [] && r[0] == t[0])
  {
    if t == [] || x.1 >= t[0].1 then [x] + t
    else [t[0]] + Insert(x, t[1..])
  }

  /** Inserting into a descending list keeps it descending. */
  lemma {:induction false} InsertSorted<K>(x: Scored<K>, t: seq<Scored<K>>)
    requires SortedDesc(t)
    ensures SortedDesc(Insert(x, t))
  {
    if t != [] && x.1 < t[0].1 {
      InsertSorted(x, t[1..]);
    }
  }

  /** Inserting adds `x` and loses nothing. */
  lemma {:induction false} InsertPermutes<K>(x: Scored<K>, t: seq<Scored<K>>)
    ensures multiset(Insert(x, t)) == multiset(t) + multiset{x}
  {
    if t != [] && x.1 < t[0].1 {
      InsertPermutes(x, t[1..]);
      assert t == [t[0]] + t[1..];
    }
  }

  /** The stable descending sort: each entry in turn, from the last one to
      the first, is inserted in front of the first entry that does not score
      more than it, so entries with equal scores stay in the order they had
      in `s`. */
  function SortDesc<K>(s: seq<Scored<K>>): (r: seq<Scored<K>>)
    ensures |r| == |s|
  {
    if s == [] then [] else Insert(s[0], SortDesc(s[1..]))
  }

  /** The sort's result is descending. */
  lemma {:induction false} SortDescSorted<K>(s: seq<Scored<K>>)
    ensures SortedDesc(SortDesc(s))
  {
    if s != [] {
      SortDescSorted(s[1..]);
      InsertSorted(s[0], SortDesc(s[1..]));
    }
  }

  /** The sort's result is a permutation of its input. */
  lemma {:induction false} SortDescPermutes<K>(s: seq<Scored<K>>)
    ensures multiset(SortDesc(s)) == multiset(s)
  {
    if s != [] {
      SortDescPermutes(s[1..]);
      InsertPermutes(s[0], SortDesc(s[1..]));
      assert s == [s[0]] + s[1..];
    }
  }

  /** The entries scoring `v` in a list with `y` in front. */
  lemma WithScoreCons<K>(y: Scored<K>, s: seq<Scored<K>>, v: real)
    ensures WithScore([y] + s, v) == (if y.1 == v then [y] else []) + WithScore(s, v)
  {
    assert ([y] + s)[1..] == s;
  }

  /** Inserting `x` puts it before every entry of `t` with the same score. */
  lemma {:induction false} WithScoreInsert<K>(x: Scored<K>, t: seq<Scored<K>>, v: real)
    ensures WithScore(Insert(x, t), v) == (if x.1 == v then [x] else []) + WithScore(t, v)
  {
    if t == [] || x.1 >= t[0].1 {
      WithScoreCons(x, t, v);
    } else {
      var rest := Insert(x, t[1..]);
      assert Insert(x, t) == [t[0]] + rest;
      WithScoreInsert(x, t[1..], v);
      WithScoreCons(t[0], rest, v);
      WithScoreCons(t[0], t[1..], v);
      assert [t[0]] + t[1..] == t;
    }
  }

  /** Stability: for every score, the entries with that score come out of
      the sort in exactly the order they went in. */
  lemma {:induction false} SortDescStable<K>(s: seq<Scored<K>>, v: real)
    ensures WithScore(SortDesc(s), v) == WithScore(s, v)
  {
    if s != [] {
      SortDescStable(s[1..], v);
      WithScoreInsert(s[0], SortDesc(s[1..]), v);
    }
  }

  /** Python's slice `s[:n]`; a negative `n` counts from the end. */
  function Take<T>(s: seq<T>, n: int): (r: seq<T>)
    ensures n >= 0 ==> |r| == if n <= |s| then n else |s|
    ensures n < 0 ==> |r| == if -n <= |s| then |s| + n else 0
    ensures r <= s
  {
    if n >= 0 then (if n <= |s| then s[..n] else s)
    else (if -n <= |s| then s[..|s| + n] else [])
  }

  /** A prefix of a descending list is descending. */
  lemma TakeSorted<K>(s: seq<Scored<K>>, n: int)
    requires SortedDesc(s)
    ensures SortedDesc(Take(s, n))
  {
    var r := Take(s, n);
    forall p, q | 0 <= p < q < |r|
      ensures r[p].1 >= r[q].1
    {
      assert r[p] == s[p] && r[q] == s[q];
    }
  }

  /** A prefix of a descending list holds its best entries: whatever is
      left out scores no higher than anything kept. */
  lemma TakeTop<K>(s: seq<Scored<K>>, n: int)
    requires SortedDesc(s)
    ensures var r := Take(s, n);
            && multiset(r) <= multiset(s)
            && forall x: Scored<K>, y: Scored<K> :: x in r && y in multiset(s) - multiset(r) ==> y.1 <= x.1
  {
    var r := Take(s, n);
    var rest := s[|r|..];
    assert s == r + rest;
    assert multiset(s) == multiset(r) + multiset(rest);
    forall x: Scored<K>, y: Scored<K> | x in r && y in multiset(s) - multiset(r)
      ensures y.1 <= x.1
    {
      assert y in rest;
      var p :| 0 <= p < |r| && r[p] == x;
      var q :| 0 <= q < |rest| && rest[q] == y;
      assert s[p] == x && s[|r| + q] == y;
    }
  }

  /** Keeping a prefix keeps, for each score, a prefix of its entries. */
  lemma {:induction false} WithScorePrefix<K>(s: seq<Scored<K>>, m: nat, v: real)
    requires m <= |s|
    ensures WithScore(s[..m], v) <= WithScore(s, v)
  {
    if m > 0 {
      WithScorePrefix(s[1..], m - 1, v);
      assert s[..m][1..] == s[1..][..m - 1];
    }
  }
}
