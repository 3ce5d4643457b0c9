/**
 * `GroupBy(key).Select(g => (g.Key, g.Count()))` over a list, and the `#RRGGBB` colour
 * label each group is given. Groups come out in the order in which their keys first occur.
 */
module Grouping {

  /** A group: its key and the number of elements that have it. */
  datatype Tally<K> = Tally(key: K, count: nat)

  /** The position of the group with key `k`, or -1 when there is none. */
  function KeyIndex<K(==)>(groups: seq<Tally<K>>, k: K): (i: int)
    ensures -1 <= i < |groups|
    ensures 0 <= i ==> groups[i].key == k
    ensures i == -1 ==> forall j :: 0 <= j < |groups| ==> groups[j].key != k
  {
    if groups == [] then -1
    else if groups[0].key == k then 0
    else
      var i := KeyIndex(groups[1..], k);
      if i == -1 then -1 else i + 1
  }

  /** Counts one more element with key `k`: its group grows by one, or a new group is appended. */
  function Bump<K(==)>(groups: seq<Tally<K>>, k: K): (r: seq<Tally<K>>)
    ensures |r| == if KeyIndex(groups, k) < 0 then |groups| + 1 else |groups|
    ensures forall i :: 0 <= i < |groups| ==>
      r[i] == if i == KeyIndex(groups, k) then groups[i].(count := groups[i].count + 1) else groups[i]
    ensures KeyIndex(groups, k) < 0 ==> r[|groups|] == Tally(k, 1)
  {
    var i := KeyIndex(groups, k);
    if i < 0 then groups + [Tally(k, 1)] else groups[i := groups[i].(count := groups[i].count + 1)]
  }

  /** The groups of `s`, built element by element in list order. */
  function GroupCounts<K(==)>(s: seq<K>): (g: seq<Tally<K>>)
    decreases |s|
  {
    if s == [] then [] else Bump(GroupCounts(s[..|s| - 1]), s[|s| - 1])
  }

  /** No two groups share a key. */
  ghost predicate KeysDistinct<K>(groups: seq<Tally<K>>) {
    forall i, j :: 0 <= i < j < |groups| ==> groups[i].key != groups[j].key
  }

  /** Every group's key occurs in `s`, and every element of `s` has a group. */
  ghost predicate KeysMatch<K>(groups: seq<Tally<K>>, s: seq<K>) {
    && (forall i :: 0 <= i < |groups| ==> groups[i].key in s)
    && (forall x :: x in s ==> exists i :: 0 <= i < |groups| && groups[i].key == x)
  }

  /** Each group counts the occurrences of its key in `s`. */
  ghost predicate CountsMatch<K>(groups: seq<Tally<K>>, s: seq<K>) {
    forall i :: 0 <= i < |groups| ==> groups[i].count == multiset(s)[groups[i].key]
  }

  /**
   * `groups` are the groups of `s`: one per distinct element of `s`, keys pairwise
   * distinct, and each count the number of times its key occurs in `s`.
   */
  ghost predicate Describes<K>(groups: seq<Tally<K>>, s: seq<K>) {
    KeysDistinct(groups) && KeysMatch(groups, s) && CountsMatch(groups, s)
  }

  /** Counting one more element keeps the keys distinct and matching the list. */
  lemma BumpKeepsKeys<K>(groups: seq<Tally<K>>, s: seq<K>, k: K)
    requires KeysDistinct(groups) && KeysMatch(groups, s)
    ensures KeysDistinct(Bump(groups, k)) && KeysMatch(Bump(groups, k), s + [k])
  {
    var r, s' := Bump(groups, k), s + [k];
    var at := KeyIndex(groups, k);
    forall x | x in s' ensures exists i :: 0 <= i < |r| && r[i].key == x {
      if x in s {
        var i :| 0 <= i < |groups| && groups[i].key == x;
        assert r[i].key == x;
      } else {
        // `x` is `k`, which has no group yet: a group's key occurs in `s`.
        assert at < 0;
        assert r[|groups|].key == x;
      }
    }
    forall i, j | 0 <= i < j < |r| ensures r[i].key != r[j].key {
      assert r[i].key == groups[i].key;
      if j < |groups| {
        assert r[j].key == groups[j].key;
      }
    }
    forall i | 0 <= i < |r| ensures r[i].key in s' {
      if i < |groups| {
        assert r[i].key == groups[i].key;
      }
    }
  }

  /** Counting one more element keeps every count exact. */
  lemma BumpKeepsCounts<K>(groups: seq<Tally<K>>, s: seq<K>, k: K)
    requires KeysDistinct(groups) && KeysMatch(groups, s) && CountsMatch(groups, s)
    ensures CountsMatch(Bump(groups, k), s + [k])
  {
    var r, s' := Bump(groups, k), s + [k];
    var at := KeyIndex(groups, k);
    assert multiset(s') == multiset(s) + multiset{k};
    forall i | 0 <= i < |r| ensures r[i].count == multiset(s')[r[i].key] {
      if i < |groups| {
        assert r[i].key == groups[i].key;
        assert (groups[i].key == k) == (i == at);
      } else {
        assert k !in s;
      }
    }
  }

  /** Counting the last element of `s` into the groups of the rest keeps the groups exact. */
  lemma BumpKeepsDescribes<K>(groups: seq<Tally<K>>, s': seq<K>)
    requires s' != [] && Describes(groups, s'[..|s'| - 1])
    ensures Describes(Bump(groups, s'[|s'| - 1]), s')
  {
    var s, k := s'[..|s'| - 1], s'[|s'| - 1];
    assert s' == s + [k];
    BumpKeepsKeys(groups, s, k);
    BumpKeepsCounts(groups, s, k);
  }

  /** The groups of a list describe it exactly. */
  lemma {:induction false} GroupCountsDescribes<K>(s: seq<K>)
    ensures Describes(GroupCounts(s), s)
    decreases |s|
  {
    if s != [] {
      var init := s[..|s| - 1];
      GroupCountsDescribes(init);
      BumpKeepsDescribes(GroupCounts(init), s);
    }
  }

  /** The sum of the group counts. */
  function Total<K>(groups: seq<Tally<K>>): nat
    decreases |groups|
  {
    if groups == [] then 0 else Total(groups[..|groups| - 1]) + groups[|groups| - 1].count
  }

  /** Replacing one group changes the total by the difference of the two counts. */
  lemma {:induction false} TotalOfUpdate<K>(groups: seq<Tally<K>>, i: nat, t: Tally<K>)
    requires i < |groups|
    ensures Total(groups[i := t]) == Total(groups) - groups[i].count + t.count
    decreases |groups|
  {
    var n := |groups| - 1;
    var updated := groups[i := t];
    assert updated[..n] == if i == n then groups[..n] else groups[..n][i := t];
    if i < n {
      TotalOfUpdate(groups[..n], i, t);
    }
  }

  /** Every element is counted in exactly one group: the counts add up to the length of the list. */
  lemma {:induction false} TotalIsLength<K>(s: seq<K>)
    ensures Total(GroupCounts(s)) == |s|
    decreases |s|
  {
    if s != [] {
      var init := s[..|s| - 1];
      var last := s[|s| - 1];
      TotalIsLength(init);
      var g := GroupCounts(init);
      assert GroupCounts(s) == Bump(g, last);
      var i := KeyIndex(g, last);
      if i < 0 {
        assert Bump(g, last) == g + [Tally(last, 1)];
        assert (g + [Tally(last, 1)])[..|g|] == g;
      } else {
        assert Bump(g, last) == g[i := g[i].(count := g[i].count + 1)];
        TotalOfUpdate(g, i, g[i].(count := g[i].count + 1));
      }
    }
  }

  /** The position of the first occurrence of `x` in `s`, or `|s|` when there is none. */
  function FirstIndex<K(==)>(s: seq<K>, x: K): (p: nat)
    ensures p <= |s| && (p < |s| <==> x in s)
    ensures p < |s| ==> s[p] == x
    ensures forall q :: 0 <= q < p ==> s[q] != x
  {
    if s == [] then 0 else if s[0] == x then 0 else FirstIndex(s[1..], x) + 1
  }

  /** Appending an element does not move the first occurrence of anything already present. */
  lemma FirstIndexOfAppend<K>(s: seq<K>, y: K, x: K)
    ensures x in s ==> FirstIndex(s + [y], x) == FirstIndex(s, x)
    ensures x !in s && x == y ==> FirstIndex(s + [y], x) == |s|
  {
    var p, p' := FirstIndex(s, x), FirstIndex(s + [y], x);
    if x in s {
      assert (s + [y])[p] == x;
      assert forall q :: 0 <= q < p ==> (s + [y])[q] == s[q];
    } else if x == y {
      assert (s + [y])[|s|] == x;
      assert forall q :: 0 <= q < |s| ==> (s + [y])[q] == s[q];
    }
  }

  /** Each group's key first occurs in `s` before the key of every later group. */
  ghost predicate InFirstOccurrenceOrder<K>(groups: seq<Tally<K>>, s: seq<K>) {
    forall i, j :: 0 <= i < j < |groups| ==> FirstIndex(s, groups[i].key) < FirstIndex(s, groups[j].key)
  }

  /** Counting the last element of `s` into the groups of the rest keeps first-occurrence order. */
  lemma BumpKeepsOrder<K>(groups: seq<Tally<K>>, s': seq<K>)
    requires s' != [] && InFirstOccurrenceOrder(groups, s'[..|s'| - 1]) && Describes(groups, s'[..|s'| - 1])
    ensures InFirstOccurrenceOrder(Bump(groups, s'[|s'| - 1]), s')
  {
    var s, k := s'[..|s'| - 1], s'[|s'| - 1];
    assert s' == s + [k];
    var g := Bump(groups, k);
    forall i, j | 0 <= i < j < |g| ensures FirstIndex(s + [k], g[i].key) < FirstIndex(s + [k], g[j].key) {
      assert g[i].key == groups[i].key;
      FirstIndexOfAppend(s, k, groups[i].key);
      if j < |groups| {
        assert g[j].key == groups[j].key;
        FirstIndexOfAppend(s, k, groups[j].key);
      } else {
        assert g[j].key == k;
        assert KeyIndex(groups, k) < 0;
        assert k !in s;
        FirstIndexOfAppend(s, k, k);
      }
    }
  }

  /** Groups appear in the order in which their keys first occur in the list. */
  lemma {:induction false} GroupsInFirstOccurrenceOrder<K>(s: seq<K>)
    ensures InFirstOccurrenceOrder(GroupCounts(s), s)
    decreases |s|
  {
    if s != [] {
      var init, last := s[..|s| - 1], s[|s| - 1];
      GroupsInFirstOccurrenceOrder(init);
      GroupCountsDescribes(init);
      BumpKeepsOrder(GroupCounts(init), s);
    }
  }

  /** A value drawn from `[0, 0x1000000)`, as `Random.Next(0x1000000)` returns. */
  type Draw = n: int | 0 <= n < 0x100_0000

  const HexAlphabet: string := "0123456789ABCDEF"

  /** The `width` low hexadecimal digits of `n`, most significant first, upper case, zero-padded. */
  function HexDigits(n: nat, width: nat): (r: string)
    ensures |r| == width
    ensures forall i :: 0 <= i < width ==> r[i] in HexAlphabet
  {
    if width == 0 then "" else HexDigits(n / 16, width - 1) + [HexAlphabet[n % 16]]
  }

  /** The value of a hexadecimal digit. */
  function DigitValue(c: char): (v: nat)
    ensures c in HexAlphabet ==> v < 16 && HexAlphabet[v] == c
  {
    if '0' <= c <= '9' then (c - '0') as nat
    else if 'A' <= c <= 'F' then (c - 'A') as nat + 10
    else 0
  }

  /** The value of a string of hexadecimal digits, most significant first. */
  function ParseHex(s: string): nat
    decreases |s|
  {
    if s == [] then 0 else ParseHex(s[..|s| - 1]) * 16 + DigitValue(s[|s| - 1])
  }

  /** `String.Format("#{0:X6}", n)`: a hash sign and six upper-case hexadecimal digits. */
  function Color(n: Draw): (c: string)
    ensures |c| == 7 && c[0] == '#'
    ensures forall i :: 1 <= i < 7 ==> c[i] in HexAlphabet
  {
    "#" + HexDigits(n, 6)
  }

  /** Reading back the digits of a number that fits in `width` digits gives the number. */
  lemma {:induction false} ParseHexDigits(n: nat, width: nat)
    requires n < Power16(width)
    ensures ParseHex(HexDigits(n, width)) == n
  {
    if width > 0 {
      var d := HexDigits(n, width);
      var init := HexDigits(n / 16, width - 1);
      var digit := HexAlphabet[n % 16];
      assert d == init + [digit];
      assert d[..|d| - 1] == init;
      ParseHexDigits(n / 16, width - 1);
      DigitValueOfDigit(n % 16);
    }
  }

  /** Each digit reads back as its own value. */
  lemma DigitValueOfDigit(v: nat)
    requires v < 16
    ensures DigitValue(HexAlphabet[v]) == v
  {
  }

  /** 16 to the `k`. */
  function Power16(k: nat): (p: nat)
    ensures 1 <= p
  {
    if k == 0 then 1 else 16 * Power16(k - 1)
  }

  /** Six hexadecimal digits hold exactly the values that can be drawn. */
  lemma SixDigits()
    ensures Power16(6) == 0x100_0000
  {
  }

  /** The colour label reads back as the value drawn. */
  lemma ColorRoundTrip(n: Draw)
    ensures ParseHex(Color(n)[1..]) == n
  {
    assert Color(n)[1..] == HexDigits(n, 6);
    SixDigits();
    ParseHexDigits(n, 6);
  }

  /** A group as the handlers return it: key, count and a colour label. */
  datatype Group<K> = Group(key: K, count: nat, color: string)

  /** The keys and counts of labelled groups. */
  function Tallies<K>(groups: seq<Group<K>>): (t: seq<Tally<K>>)
    ensures |t| == |groups|
    ensures forall i :: 0 <= i < |groups| ==> t[i] == Tally(groups[i].key, groups[i].count)
  {
    seq(|groups|, i requires 0 <= i < |groups| => Tally(groups[i].key, groups[i].count))
  }

  /**
   * `GroupBy(key).Select(...)` over the keys `s`: one group per distinct key in order of
   * first occurrence, each with the number of elements that have its key and the colour of
   * the value drawn for it (`draw(i)` is the i-th value the random source returns).
   */
  function GroupBy<K(==)>(s: seq<K>, draw: nat -> Draw): (groups: seq<Group<K>>)
    ensures Describes(Tallies(groups), s)
    ensures InFirstOccurrenceOrder(Tallies(groups), s)
    ensures Total(Tallies(groups)) == |s|
    ensures forall i :: 0 <= i < |groups| ==> groups[i].count >= 1
    ensures forall i :: 0 <= i < |groups| ==> groups[i].color == Color(draw(i))
  {
    var g := GroupCounts(s);
    GroupCountsDescribes(s);
    GroupsInFirstOccurrenceOrder(s);
    TotalIsLength(s);
    DescribedCountsArePositive(g, s);
    Labelled(g, draw)
  }

  /** Every group that describes a list counts at least one element. */
  lemma DescribedCountsArePositive<K>(groups: seq<Tally<K>>, s: seq<K>)
    requires Describes(groups, s)
    ensures forall i :: 0 <= i < |groups| ==> groups[i].count >= 1
  {
    forall i | 0 <= i < |groups| ensures groups[i].count >= 1 {
      assert groups[i].key in multiset(s);
    }
  }

  /** Gives the i-th group the colour of the i-th value drawn. */
  function Labelled<K>(g: seq<Tally<K>>, draw: nat -> Draw): (groups: seq<Group<K>>)
    ensures Tallies(groups) == g
    ensures forall i :: 0 <= i < |groups| ==> groups[i].color == Color(draw(i))
  {
    var groups := seq(|g|, i requires 0 <= i < |g| => Group(g[i].key, g[i].count, Color(draw(i))));
    assert forall i :: 0 <= i < |g| ==> Tallies(groups)[i] == g[i];
    assert Tallies(groups) == g;
    groups
  }
}
