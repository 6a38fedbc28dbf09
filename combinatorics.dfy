/**
  Items, itemsets and the enumeration that `itertools.combinations`
  performs over a list: every choice of k positions, in lexicographic
  order of positions. A transaction is a raw list, so a repeated item
  yields repeated (or smaller) itemsets; the facts that need distinct
  elements say so in their requires.
*/
module Combinatorics {

  type Item = string
  type Itemset = set<Item>

  /** No element occurs twice. */
  ghost predicate Distinct<T>(xs: seq<T>) {
    forall i, j :: 0 <= i < j < |xs| ==> xs[i] != xs[j]
  }

  /** xs lists some of the elements of ys, in the order of ys. */
  ghost predicate Subsequence<T>(xs: seq<T>, ys: seq<T>)
    decreases |ys|
  {
    xs == [] || (ys != [] && ((xs[0] == ys[0] && Subsequence(xs[1..], ys[1..])) || Subsequence(xs, ys[1..])))
  }

  /** The set of the elements of a list (Python's `frozenset(xs)`). */
  function ItemsOf(xs: seq<Item>): (r: Itemset)
    ensures forall i :: 0 <= i < |xs| ==> xs[i] in r
    ensures r == {} <==> xs == []
  {
    var r := set x | x in xs;
    assert xs != [] ==> xs[0] in r;
    r
  }

  /** Puts x in front of every combination of cs. */
  function Prepend(x: Item, cs: seq<seq<Item>>): seq<seq<Item>> {
    seq(|cs|, p requires 0 <= p < |cs| => [x] + cs[p])
  }

  /**
    `itertools.combinations(xs, k)`: all length-k subsequences of positions
    of xs, those that use xs[0] first.
  */
  function Combinations(xs: seq<Item>, k: nat): (r: seq<seq<Item>>)
    ensures forall p :: 0 <= p < |r| ==> |r[p]| == k
    decreases |xs|
  {
    if k == 0 then [[]]
    else if xs == [] then []
    else Prepend(xs[0], Combinations(xs[1..], k - 1)) + Combinations(xs[1..], k)
  }

  /** No two combinations of cs collapse to the same set. */
  ghost predicate SetsDistinct(cs: seq<seq<Item>>) {
    forall p, q :: 0 <= p < q < |cs| ==> ItemsOf(cs[p]) != ItemsOf(cs[q])
  }

  /** How many combinations of cs collapse to the set s. */
  function Occurrences(cs: seq<seq<Item>>, s: Itemset): nat {
    if cs == [] then 0
    else Occurrences(cs[..|cs| - 1], s) + (if ItemsOf(cs[|cs| - 1]) == s then 1 else 0)
  }

  /** Extending a prefix of b by one element of b. */
  lemma SnocSlice<T>(a: seq<T>, b: seq<T>, j: nat)
    requires j < |b|
    ensures a + b[..j + 1] == (a + b[..j]) + [b[j]]
  {
    assert b[..j + 1] == b[..j] + [b[j]];
  }

  /** A prefix of a prefix is a prefix. */
  lemma PrefixTransitive<T>(a: seq<T>, b: seq<T>, c: seq<T>)
    requires |a| <= |b| && b[..|a|] == a
    requires |b| <= |c| && c[..|b|] == b
    ensures c[..|a|] == a
  {
    assert c[..|a|] == c[..|b|][..|a|];
  }

  /** Appending an element not yet listed keeps the list free of repetitions. */
  lemma AppendFresh(xs: seq<Item>, x: Item)
    requires Distinct(xs) && x !in ItemsOf(xs)
    ensures Distinct(xs + [x])
    ensures ItemsOf(xs + [x]) == ItemsOf(xs) + {x}
  {
    var ys := xs + [x];
    forall i, j | 0 <= i < j < |ys|
      ensures ys[i] != ys[j]
    {
      if j == |xs| {
        assert ys[i] == xs[i];
      } else {
        assert ys[i] == xs[i] && ys[j] == xs[j];
      }
    }
  }

  lemma ItemsOfCons(xs: seq<Item>)
    requires xs != []
    ensures ItemsOf(xs) == {xs[0]} + ItemsOf(xs[1..])
  {
    assert xs == [xs[0]] + xs[1..];
  }

  lemma {:induction false} DistinctTail<T>(xs: seq<T>)
    requires xs != [] && Distinct(xs)
    ensures Distinct(xs[1..])
    ensures xs[0] !in xs[1..]
  {
    forall i | 0 <= i < |xs| - 1
      ensures xs[1..][i] != xs[0]
    {
      assert xs[1..][i] == xs[i + 1];
    }
  }

  /** A list without repetitions has as many elements as its set. */
  lemma {:induction false} DistinctCard(xs: seq<Item>)
    requires Distinct(xs)
    ensures |ItemsOf(xs)| == |xs|
  {
    if xs != [] {
      DistinctTail(xs);
      DistinctCard(xs[1..]);
      ItemsOfCons(xs);
    }
  }

  lemma SubsetCard(a: Itemset, b: Itemset)
    requires a <= b
    ensures |a| <= |b|
    ensures a < b ==> |a| < |b|
  {
    assert b == a + (b - a);
  }

  /** A set has a subset of every size up to its own. */
  lemma {:induction false} SubsetOfSize(s: Itemset, k: nat) returns (sub: Itemset)
    requires k <= |s|
    ensures sub <= s && |sub| == k
  {
    if k == 0 {
      sub := {};
    } else {
      var x :| x in s;
      var rest := SubsetOfSize(s - {x}, k - 1);
      sub := rest + {x};
    }
  }

  /**
    Every combination has length k and draws its elements from xs; from a
    list without repetitions it has none either.
  */
  lemma {:induction false} CombinationShape(xs: seq<Item>, k: nat, p: nat)
    requires p < |Combinations(xs, k)|
    ensures |Combinations(xs, k)[p]| == k
    ensures ItemsOf(Combinations(xs, k)[p]) <= ItemsOf(xs)
    ensures Distinct(xs) ==> Distinct(Combinations(xs, k)[p])
  {
    if k == 0 {
      assert Combinations(xs, k) == [[]];
    } else if xs != [] {
      var head := Prepend(xs[0], Combinations(xs[1..], k - 1));
      var tails := Combinations(xs[1..], k);
      assert Combinations(xs, k) == head + tails;
      if p < |head| {
        CombinationShape(xs[1..], k - 1, p);
        var c := Combinations(xs[1..], k - 1)[p];
        assert Combinations(xs, k)[p] == [xs[0]] + c;
        ConsShape(xs, c);
      } else {
        CombinationShape(xs[1..], k, p - |head|);
        assert Combinations(xs, k)[p] == tails[p - |head|];
        ItemsOfCons(xs);
        if Distinct(xs) {
          DistinctTail(xs);
        }
      }
    }
  }

  /** Putting the head of xs before a list drawn from its tail. */
  lemma ConsShape(xs: seq<Item>, c: seq<Item>)
    requires xs != [] && ItemsOf(c) <= ItemsOf(xs[1..])
    requires Distinct(xs) ==> Distinct(c)
    ensures ItemsOf([xs[0]] + c) <= ItemsOf(xs)
    ensures Distinct(xs) ==> Distinct([xs[0]] + c)
  {
    ItemsOfCons(xs);
    ItemsOfPrepend(xs[0], c);
    if Distinct(xs) {
      DistinctTail(xs);
      var ys := [xs[0]] + c;
      forall i, j | 0 <= i < j < |ys|
        ensures ys[i] != ys[j]
      {
        assert ys[j] == c[j - 1] && ys[j] in ItemsOf(c);
        if i > 0 {
          assert ys[i] == c[i - 1];
        }
      }
    }
  }

  /** There are no combinations longer than the list. */
  lemma {:induction false} CombinationsTooLong(xs: seq<Item>, k: nat)
    requires k > |xs|
    ensures Combinations(xs, k) == []
  {
    if xs != [] {
      CombinationsTooLong(xs[1..], k - 1);
      CombinationsTooLong(xs[1..], k);
    }
  }

  /** Every subset of a list without repetitions is one of its combinations. */
  lemma {:induction false} CombinationsCover(xs: seq<Item>, s: Itemset) returns (p: nat)
    requires Distinct(xs) && s <= ItemsOf(xs)
    ensures p < |Combinations(xs, |s|)| && ItemsOf(Combinations(xs, |s|)[p]) == s
    decreases |xs|, 1
  {
    if |s| == 0 {
      p := 0;
      assert ItemsOf([]) == {};
    } else {
      assert xs != [];
      ItemsOfCons(xs);
      DistinctTail(xs);
      if xs[0] in s {
        p := CoverWithHead(xs, s);
      } else {
        var q := CombinationsCover(xs[1..], s);
        p := |Prepend(xs[0], Combinations(xs[1..], |s| - 1))| + q;
        assert Combinations(xs, |s|)[p] == Combinations(xs[1..], |s|)[q];
      }
    }
  }

  /** The case of CombinationsCover where the subset holds the head of the list. */
  lemma {:induction false} CoverWithHead(xs: seq<Item>, s: Itemset) returns (p: nat)
    requires Distinct(xs) && s <= ItemsOf(xs) && xs != [] && xs[0] in s
    ensures p < |Combinations(xs, |s|)| && ItemsOf(Combinations(xs, |s|)[p]) == s
    decreases |xs|, 0
  {
    var x := xs[0];
    ItemsOfCons(xs);
    DistinctTail(xs);
    var rest := s - {x};
    assert |rest| == |s| - 1;
    assert rest <= ItemsOf(xs[1..]);
    var q := CombinationsCover(xs[1..], rest);
    p := q;
    var c := Combinations(xs[1..], |s| - 1)[q];
    assert Combinations(xs, |s|)[p] == [x] + c;
    ItemsOfCons([x] + c);
    assert ([x] + c)[1..] == c;
    assert ItemsOf([x] + c) == {x} + rest;
  }

  /** Two lists of combinations, each without repeated sets and sharing none, concatenate to one without. */
  lemma SetsDistinctConcat(a: seq<seq<Item>>, b: seq<seq<Item>>)
    requires SetsDistinct(a) && SetsDistinct(b)
    requires forall p, q :: 0 <= p < |a| && 0 <= q < |b| ==> ItemsOf(a[p]) != ItemsOf(b[q])
    ensures SetsDistinct(a + b)
  {
    var all := a + b;
    forall p, q | 0 <= p < q < |all|
      ensures ItemsOf(all[p]) != ItemsOf(all[q])
    {
      if q < |a| {
        assert all[p] == a[p] && all[q] == a[q];
      } else if p < |a| {
        assert all[p] == a[p] && all[q] == b[q - |a|];
      } else {
        assert all[p] == b[p - |a|] && all[q] == b[q - |a|];
      }
    }
  }

  /** Over a list without repetitions, different combinations are different sets. */
  lemma {:induction false} CombinationsSetsDistinct(xs: seq<Item>, k: nat)
    requires Distinct(xs)
    ensures SetsDistinct(Combinations(xs, k))
  {
    if k > 0 && xs != [] {
      DistinctTail(xs);
      var x := xs[0];
      var heads := Combinations(xs[1..], k - 1);
      var tails := Combinations(xs[1..], k);
      var taken := Prepend(x, heads);
      CombinationsSetsDistinct(xs[1..], k - 1);
      CombinationsSetsDistinct(xs[1..], k);
      forall p, q | 0 <= p < q < |taken|
        ensures ItemsOf(taken[p]) != ItemsOf(taken[q])
      {
        PrependedDiffer(xs, k, p, q);
      }
      forall p, q | 0 <= p < |taken| && 0 <= q < |tails|
        ensures ItemsOf(taken[p]) != ItemsOf(tails[q])
      {
        HeadsAndTailsDiffer(xs, k, p, q);
      }
      SetsDistinctConcat(taken, tails);
    }
  }

  /** Two different combinations that both take the head stay different sets. */
  lemma PrependedDiffer(xs: seq<Item>, k: nat, p: nat, q: nat)
    requires Distinct(xs) && xs != [] && 0 < k
    requires SetsDistinct(Combinations(xs[1..], k - 1))
    requires p < q < |Combinations(xs[1..], k - 1)|
    ensures var heads := Combinations(xs[1..], k - 1);
            ItemsOf([xs[0]] + heads[p]) != ItemsOf([xs[0]] + heads[q])
  {
    DistinctTail(xs);
    var heads := Combinations(xs[1..], k - 1);
    CombinationShape(xs[1..], k - 1, p);
    CombinationShape(xs[1..], k - 1, q);
    ItemsOfPrepend(xs[0], heads[p]);
    ItemsOfPrepend(xs[0], heads[q]);
    AddFreshInjective(xs[0], ItemsOf(heads[p]), ItemsOf(heads[q]));
  }

  lemma ItemsOfPrepend(x: Item, xs: seq<Item>)
    ensures ItemsOf([x] + xs) == {x} + ItemsOf(xs)
  {
    ItemsOfCons([x] + xs);
    assert ([x] + xs)[1..] == xs;
  }

  /** Adding an element that neither set holds keeps two different sets different. */
  lemma AddFreshInjective(x: Item, a: Itemset, b: Itemset)
    requires x !in a && x !in b && a != b
    ensures {x} + a != {x} + b
  {
    assert a == ({x} + a) - {x};
    assert b == ({x} + b) - {x};
  }

  /** A combination that takes the head is never the same set as one that skips it. */
  lemma HeadsAndTailsDiffer(xs: seq<Item>, k: nat, p: nat, q: nat)
    requires Distinct(xs) && xs != [] && 0 < k
    requires p < |Combinations(xs[1..], k - 1)| && q < |Combinations(xs[1..], k)|
    ensures ItemsOf([xs[0]] + Combinations(xs[1..], k - 1)[p]) != ItemsOf(Combinations(xs[1..], k)[q])
  {
    DistinctTail(xs);
    CombinationShape(xs[1..], k, q);
    var c := [xs[0]] + Combinations(xs[1..], k - 1)[p];
    assert c[0] == xs[0];
    assert xs[0] in ItemsOf(c);
  }

  lemma {:induction false} OccurrencesConcat(a: seq<seq<Item>>, b: seq<seq<Item>>, s: Itemset)
    ensures Occurrences(a + b, s) == Occurrences(a, s) + Occurrences(b, s)
    decreases |b|
  {
    if b == [] {
      assert a + b == a;
    } else {
      assert (a + b)[..|a + b| - 1] == a + b[..|b| - 1];
      assert (a + b)[|a + b| - 1] == b[|b| - 1];
      OccurrencesConcat(a, b[..|b| - 1], s);
    }
  }

  lemma {:induction false} OccurrencesAbsent(cs: seq<seq<Item>>, s: Itemset)
    requires forall p :: 0 <= p < |cs| ==> ItemsOf(cs[p]) != s
    ensures Occurrences(cs, s) == 0
  {
    if cs != [] {
      OccurrencesAbsent(cs[..|cs| - 1], s);
    }
  }

  lemma {:induction false} OccurrencesUnique(cs: seq<seq<Item>>, s: Itemset, p: nat)
    requires SetsDistinct(cs) && p < |cs| && ItemsOf(cs[p]) == s
    ensures Occurrences(cs, s) == 1
  {
    var init := cs[..|cs| - 1];
    if p == |cs| - 1 {
      OccurrencesAbsent(init, s);
    } else {
      assert init[p] == cs[p];
      OccurrencesUnique(init, s, p);
    }
  }

  /**
    Over a list without repetitions, a set is produced by exactly one
    length-k combination when it is a k-element subset of the list, and by
    none otherwise.
  */
  lemma CombinationsOccurrences(xs: seq<Item>, k: nat, s: Itemset)
    requires Distinct(xs)
    ensures Occurrences(Combinations(xs, k), s) == if s <= ItemsOf(xs) && |s| == k then 1 else 0
  {
    var cs := Combinations(xs, k);
    if s <= ItemsOf(xs) && |s| == k {
      var p := CombinationsCover(xs, s);
      CombinationsSetsDistinct(xs, k);
      OccurrencesUnique(cs, s, p);
    } else {
      forall p | 0 <= p < |cs|
        ensures ItemsOf(cs[p]) != s
      {
        CombinationShape(xs, k, p);
        DistinctCard(cs[p]);
      }
      OccurrencesAbsent(cs, s);
    }
  }
}
