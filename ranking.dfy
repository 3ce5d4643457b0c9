/**
 * `OrderByDescending(g => g.Count).Take(top)` over a list of groups: a stable sort by
 * count, largest first, then the first `top` groups.
 */
module Ranking {
  import opened Grouping
  import opened Linq

  /** Counts never increase along the list. */
  ghost predicate NonIncreasing<K>(s: seq<Group<K>>) {
    forall i, j :: 0 <= i < j < |s| ==> s[i].count >= s[j].count
  }

  /**
   * Inserts `x` in front of the first group whose count is not larger than its own, so
   * that among equal counts `x` comes first.
   */
  function Insert<K(==)>(x: Group<K>, sorted: seq<Group<K>>): (r: seq<Group<K>>)
    ensures multiset(r) == multiset(sorted) + multiset{x}
    ensures |r| == |sorted| + 1
    ensures r[0] == x || (sorted != [] && r[0] == sorted[0])
  {
    if sorted == [] || x.count >= sorted[0].count then
      [x] + sorted
    else
      assert sorted == [sorted[0]] + sorted[1..];
      [sorted[0]] + Insert(x, sorted[1..])
  }

  /** Inserting into a list sorted by decreasing count keeps it sorted. */
  lemma {:induction false} InsertKeepsOrder<K>(x: Group<K>, sorted: seq<Group<K>>)
    requires NonIncreasing(sorted)
    ensures NonIncreasing(Insert(x, sorted))
    decreases |sorted|
  {
    if sorted != [] && x.count < sorted[0].count {
      var tail := sorted[1..];
      InsertKeepsOrder(x, tail);
      var rest := Insert(x, tail);
      var r := [sorted[0]] + rest;
      assert r == Insert(x, sorted);
      assert rest[0].count <= sorted[0].count;
      forall i, j | 0 <= i < j < |r| ensures r[i].count >= r[j].count {
        if i == 0 {
          assert r[j] == rest[j - 1];
        } else {
          assert r[i] == rest[i - 1] && r[j] == rest[j - 1];
        }
      }
    }
  }

  /** `OrderByDescending(g => g.Count)`: a stable insertion sort, largest count first. */
  function SortByCount<K(==)>(groups: seq<Group<K>>): (sorted: seq<Group<K>>)
    ensures multiset(sorted) == multiset(groups)
    ensures |sorted| == |groups|
    ensures NonIncreasing(sorted)
  {
    if groups == [] then []
    else
      assert groups == [groups[0]] + groups[1..];
      InsertKeepsOrder(groups[0], SortByCount(groups[1..]));
      Insert(groups[0], SortByCount(groups[1..]))
  }

  /** The groups with count `c`, in list order. */
  function WithCount<K>(s: seq<Group<K>>, c: nat): (r: seq<Group<K>>)
    ensures |r| <= |s|
  {
    if s == [] then [] else (if s[0].count == c then [s[0]] else []) + WithCount(s[1..], c)
  }

  /** Inserting into a sorted list keeps the relative order of the groups of each count. */
  lemma {:induction false} InsertIsStable<K>(x: Group<K>, sorted: seq<Group<K>>, c: nat)
    requires NonIncreasing(sorted)
    ensures WithCount(Insert(x, sorted), c) == WithCount([x] + sorted, c)
    decreases |sorted|
  {
    if sorted != [] && x.count < sorted[0].count {
      var head, tail := sorted[0], sorted[1..];
      InsertIsStable(x, tail, c);
      assert Insert(x, sorted) == [head] + Insert(x, tail);
      assert ([head] + Insert(x, tail))[1..] == Insert(x, tail);
      assert ([x] + sorted)[1..] == sorted;
      assert ([x] + tail)[1..] == tail;
      assert ([head] + tail) == sorted;
    }
  }

  /**
   * The sort is stable: for every count, the groups with that count appear in the same
   * relative order as in the input.
   */
  lemma {:induction false} SortIsStable<K>(groups: seq<Group<K>>, c: nat)
    ensures WithCount(SortByCount(groups), c) == WithCount(groups, c)
    decreases |groups|
  {
    if groups != [] {
      var head, tail := groups[0], groups[1..];
      SortIsStable(tail, c);
      InsertIsStable(head, SortByCount(tail), c);
      assert ([head] + SortByCount(tail))[1..] == SortByCount(tail);
      assert groups[1..] == tail;
    }
  }

  /** `OrderByDescending(g => g.Count).Take(top)`. */
  function Top<K(==)>(groups: seq<Group<K>>, top: int): (r: seq<Group<K>>)
    ensures |r| == if top <= 0 then 0 else if top < |groups| then top else |groups|
    ensures NonIncreasing(r)
    ensures multiset(r) <= multiset(groups)
  {
    var sorted := SortByCount(groups);
    var r := Take(sorted, top);
    assert sorted == r + sorted[|r|..];
    assert multiset(sorted) == multiset(r) + multiset(sorted[|r|..]);
    r
  }

  /** No group left out of the top has a larger count than a group kept in it. */
  lemma TopKeepsLargest<K>(groups: seq<Group<K>>, top: int, y: Group<K>)
    requires y in groups && y !in Top(groups, top)
    ensures forall i :: 0 <= i < |Top(groups, top)| ==> y.count <= Top(groups, top)[i].count
  {
    var sorted, r := SortByCount(groups), Top(groups, top);
    assert r == sorted[..|r|];
    assert y in multiset(sorted);
    var j :| 0 <= j < |sorted| && sorted[j] == y;
    assert j >= |r|;
  }

  /** Filtering a prefix gives a prefix of the filtered list. */
  lemma {:induction false} WithCountOfPrefix<K>(s: seq<Group<K>>, n: nat, c: nat)
    requires n <= |s|
    ensures var p := WithCount(s[..n], c);
      |p| <= |WithCount(s, c)| && p == WithCount(s, c)[..|p|]
    decreases n
  {
    if n > 0 {
      WithCountOfPrefix(s[1..], n - 1, c);
      assert s[..n][1..] == s[1..][..n - 1];
      assert s[..n][0] == s[0];
    }
  }

  /**
   * The top groups of each count are the first groups of that count in the input, in
   * input order: ties keep their original order.
   */
  lemma TopKeepsTiesInOrder<K>(groups: seq<Group<K>>, top: int, c: nat)
    ensures var t := WithCount(Top(groups, top), c);
      |t| <= |WithCount(groups, c)| && t == WithCount(groups, c)[..|t|]
  {
    var sorted := SortByCount(groups);
    var r := Top(groups, top);
    assert r == sorted[..|r|];
    WithCountOfPrefix(sorted, |r|, c);
    SortIsStable(groups, c);
  }
}
