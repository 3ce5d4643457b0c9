/** The sequence operators the repository and the controller rely on, with their semantics on lists. */
module Linq {

  /** `Skip(n)`: drops the first `n` elements; a count of zero or less drops nothing. */
  function Skip<T>(s: seq<T>, n: int): (r: seq<T>)
    ensures n <= 0 ==> r == s
    ensures 0 < n <= |s| ==> r == s[n..]
    ensures |s| < n ==> r == []
  {
    if n <= 0 then s else if n >= |s| then [] else s[n..]
  }

  /** `Take(n)`: keeps the first `n` elements; a count of zero or less keeps nothing. */
  function Take<T>(s: seq<T>, n: int): (r: seq<T>)
    ensures |r| == if n <= 0 then 0 else if n < |s| then n else |s|
    ensures r == s[..|r|]
  {
    if n <= 0 then [] else if n >= |s| then s else s[..n]
  }

  /** `Where(pred)`: the elements that satisfy `pred`, in their original order. */
  function Where<T>(s: seq<T>, pred: T -> bool): (r: seq<T>)
    ensures |r| <= |s|
    ensures forall x :: x in r ==> x in s && pred(x)
    ensures forall i :: 0 <= i < |s| && pred(s[i]) ==> s[i] in r
    ensures |r| == |s| <==> forall i :: 0 <= i < |s| ==> pred(s[i])
    decreases |s|
  {
    if s == [] then []
    else
      var init := Where(s[..|s| - 1], pred);
      assert forall i :: 0 <= i < |s| - 1 ==> s[..|s| - 1][i] == s[i];
      if pred(s[|s| - 1]) then init + [s[|s| - 1]] else init
  }

  /** The positions of the elements that satisfy `pred`. */
  ghost function Matching<T>(s: seq<T>, pred: T -> bool): set<int> {
    set i | 0 <= i < |s| && pred(s[i])
  }

  /** The matching positions of `s` are those of its prefix, plus the last one if it matches. */
  lemma MatchingOfSnoc<T>(s: seq<T>, pred: T -> bool)
    requires s != []
    ensures var n := |s| - 1;
      && n !in Matching(s[..n], pred)
      && Matching(s, pred) == Matching(s[..n], pred) + (if pred(s[n]) then {n} else {})
  {
    var n := |s| - 1;
    var init := s[..n];
    forall i | 0 <= i < n ensures (i in Matching(s, pred)) == (i in Matching(init, pred)) {
      assert init[i] == s[i];
    }
  }

  /** `Where` keeps exactly one element per matching position. */
  lemma {:induction false} WhereCountsMatches<T>(s: seq<T>, pred: T -> bool)
    ensures |Where(s, pred)| == |Matching(s, pred)|
    decreases |s|
  {
    if s != [] {
      var n := |s| - 1;
      WhereCountsMatches(s[..n], pred);
      MatchingOfSnoc(s, pred);
    }
  }
}
