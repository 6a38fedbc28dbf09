/**
  What the itemset miner of `Apriori` computes, as functions of the
  transactions: one counting pass per itemset length (FrequentAt) and the
  loop over lengths 1, 2, 3, ... that merges the frequent entries of each
  pass into the stored map until a pass yields nothing (MineFrom). The
  lemmas say what these maps hold.
*/
module ItemsetMiner {
  import opened Combinatorics
  import opened CountMaps

  /** A raw transaction: a list of item labels, possibly with repeats. */
  type Transaction = seq<Item>

  /** Every transaction lists each of its items once. */
  ghost predicate DistinctItems(ts: seq<Transaction>) {
    forall i :: 0 <= i < |ts| ==> Distinct(ts[i])
  }

  /** The length of the longest transaction, 0 when there is none. */
  function Longest(ts: seq<Transaction>): nat {
    if ts == [] then 0
    else
      var rest := Longest(ts[..|ts| - 1]);
      if rest < |ts[|ts| - 1]| then |ts[|ts| - 1]| else rest
  }

  /** The length-k combinations of every transaction, transaction by transaction. */
  function AllCombinations(ts: seq<Transaction>, k: nat): (r: seq<seq<Item>>)
    ensures forall p :: 0 <= p < |r| ==> |r[p]| == k
    ensures k > Longest(ts) ==> r == []
  {
    if ts == [] then []
    else
      var r := AllCombinations(ts[..|ts| - 1], k) + Combinations(ts[|ts| - 1], k);
      if k > Longest(ts) then
        CombinationsTooLong(ts[|ts| - 1], k);
        r
      else r
  }

  /** The number of transactions whose items include all of s. */
  function Support(ts: seq<Transaction>, s: Itemset): nat {
    if ts == [] then 0
    else Support(ts[..|ts| - 1], s) + (if s <= ItemsOf(ts[|ts| - 1]) then 1 else 0)
  }

  /**
    The dict that `itemsets[i] = itemsets.get(i, 0) + 1` builds when it is
    run on the set of every combination of cs, in order.
  */
  function Tally(cs: seq<seq<Item>>): (d: CountMap)
    ensures d.Valid() && d.Positive()
  {
    if cs == [] then Empty
    else Increment(Tally(cs[..|cs| - 1]), ItemsOf(cs[|cs| - 1]))
  }

  /** `d[s] = d.get(s, 0) + 1` */
  function Increment(d: CountMap, s: Itemset): (r: CountMap)
    requires d.Valid()
    ensures r.Valid()
    ensures r.counts == d.counts[s := d.Get(s, 0) + 1]
    ensures d.Positive() ==> r.Positive()
  {
    d.Set(s, d.Get(s, 0) + 1)
  }

  /** `count / total >= min_support`, in exact arithmetic. */
  predicate MeetsSupport(count: nat, total: nat, minSupport: real): (b: bool)
    requires total > 0
    ensures b <==> (count as real) >= minSupport * (total as real)
  {
    (count as real) / (total as real) >= minSupport
  }

  /** The keys of ks, in order, whose count meets the support threshold. */
  function FrequentKeys(ks: seq<Itemset>, counts: map<Itemset, nat>, total: nat, minSupport: real): (r: seq<Itemset>)
    requires forall s :: s in ks ==> s in counts
    requires total > 0 || ks == []
    ensures forall s :: s in r <==> s in ks && MeetsSupport(counts[s], total, minSupport)
    ensures Subsequence(r, ks)
  {
    if ks == [] then []
    else
      var rest := FrequentKeys(ks[1..], counts, total, minSupport);
      if MeetsSupport(counts[ks[0]], total, minSupport) then
        var r := [ks[0]] + rest;
        assert r[1..] == rest;
        r
      else rest
  }

  lemma {:induction false} FrequentKeysDistinct(ks: seq<Itemset>, counts: map<Itemset, nat>, total: nat, minSupport: real)
    requires forall s :: s in ks ==> s in counts
    requires total > 0 || ks == []
    requires Distinct(ks)
    ensures Distinct(FrequentKeys(ks, counts, total, minSupport))
  {
    if ks != [] {
      DistinctTail(ks);
      FrequentKeysDistinct(ks[1..], counts, total, minSupport);
    }
  }

  /**
    The dict comprehension that keeps the entries whose count, divided by
    the number of transactions, reaches min_support. The division is only
    performed on entries, so an empty dict needs no positive total.
  */
  function Frequent(d: CountMap, total: nat, minSupport: real): (r: CountMap)
    requires d.Valid()
    requires total > 0 || d.keys == []
    ensures r.Valid()
    ensures forall s :: s in r.counts <==> s in d.counts && MeetsSupport(d.counts[s], total, minSupport)
    ensures forall s :: s in r.counts ==> r.counts[s] == d.counts[s]
    ensures Subsequence(r.keys, d.keys)
    ensures d.Positive() ==> r.Positive()
  {
    FrequentKeysDistinct(d.keys, d.counts, total, minSupport);
    CountMap(FrequentKeys(d.keys, d.counts, total, minSupport),
             map s | s in d.counts && MeetsSupport(d.counts[s], total, minSupport) :: d.counts[s])
  }

  /** What one counting pass for itemsets of length k returns. */
  function FrequentAt(ts: seq<Transaction>, minSupport: real, k: nat): (r: CountMap)
    ensures r.Valid() && r.Positive()
  {
    Frequent(Tally(AllCombinations(ts, k)), |ts|, minSupport)
  }

  /**
    The stored map after the loop over lengths k, k + 1, ... has run from
    map m: each non-empty pass is merged with `update`, and the first empty
    pass ends the loop. Past the longest transaction a pass is empty, which
    bounds the recursion.
  */
  function MineFrom(m: CountMap, ts: seq<Transaction>, minSupport: real, k: nat): (r: CountMap)
    requires m.Valid()
    ensures r.Valid()
    ensures m.Positive() ==> r.Positive()
    decreases Longest(ts) + 1 - k
  {
    var f := FrequentAt(ts, minSupport, k);
    if f.keys == [] then m
    else
      NothingPastLongest(ts, minSupport, k);
      MineFrom(m.UpdateWith(f), ts, minSupport, k + 1)
  }

  /** The map that mining from an empty dict, starting at length 1, leaves. */
  function Mine(ts: seq<Transaction>, minSupport: real): (r: CountMap)
    ensures r.Valid() && r.Positive()
  {
    MineFrom(Empty, ts, minSupport, 1)
  }

  // ---------------------------------------------------------------------
  // Counting

  /** The tally holds exactly the sets that occur, each with its number of occurrences. */
  lemma {:induction false} TallyCounts(cs: seq<seq<Item>>, s: Itemset)
    ensures s in Tally(cs).counts <==> Occurrences(cs, s) > 0
    ensures s in Tally(cs).counts ==> Tally(cs).counts[s] == Occurrences(cs, s)
  {
    if cs != [] {
      var init := cs[..|cs| - 1];
      TallyCounts(init, s);
      var before := Tally(init);
      var t := ItemsOf(cs[|cs| - 1]);
      if t == s {
        assert Tally(cs).counts[s] == before.Get(s, 0) + 1;
      } else {
        assert s in Tally(cs).counts <==> s in before.counts;
      }
    }
  }

  /** The position of the first combination of cs whose set is s, or |cs| when there is none. */
  function FirstIndex(cs: seq<seq<Item>>, s: Itemset): (i: nat)
    ensures i <= |cs|
    ensures i < |cs| ==> ItemsOf(cs[i]) == s
    ensures forall p :: 0 <= p < i ==> ItemsOf(cs[p]) != s
  {
    if cs == [] then 0
    else if ItemsOf(cs[0]) == s then 0
    else
      var i := 1 + FirstIndex(cs[1..], s);
      assert forall p :: 1 <= p < i ==> cs[p] == cs[1..][p - 1];
      i
  }

  /** One more combination moves no first position, and gives a new set its first one. */
  lemma {:induction false} FirstIndexSnoc(cs: seq<seq<Item>>, c: seq<Item>, s: Itemset)
    ensures FirstIndex(cs + [c], s)
            == if FirstIndex(cs, s) < |cs| then FirstIndex(cs, s)
               else if ItemsOf(c) == s then |cs| else |cs| + 1
  {
    if cs != [] {
      assert (cs + [c])[0] == cs[0];
      assert (cs + [c])[1..] == cs[1..] + [c];
      FirstIndexSnoc(cs[1..], c, s);
    }
  }

  /** Keys listed in the order in which their sets first occur in cs. */
  ghost predicate FirstSeenOrder(d: CountMap, cs: seq<seq<Item>>) {
    && (forall s :: s in d.counts <==> FirstIndex(cs, s) < |cs|)
    && (forall i, j :: 0 <= i < j < |d.keys| ==> FirstIndex(cs, d.keys[i]) < FirstIndex(cs, d.keys[j]))
  }

  /**
    The counting dict lists its keys in the order in which their sets
    first occur among the combinations: a key is present exactly when its
    set occurs, and an earlier key first occurs earlier.
  */
  lemma {:induction false} TallyOrder(cs: seq<seq<Item>>)
    ensures forall s :: s in Tally(cs).counts <==> FirstIndex(cs, s) < |cs|
    ensures forall i, j :: 0 <= i < j < |Tally(cs).keys| ==>
              FirstIndex(cs, Tally(cs).keys[i]) < FirstIndex(cs, Tally(cs).keys[j])
  {
    if cs != [] {
      var init := cs[..|cs| - 1];
      var c := cs[|cs| - 1];
      assert cs == init + [c];
      TallyOrder(init);
      TallyOrderStep(Tally(init), init, c);
    }
  }

  /** Counting one more combination keeps the keys in first-seen order. */
  lemma TallyOrderStep(before: CountMap, init: seq<seq<Item>>, c: seq<Item>)
    requires before.Valid() && FirstSeenOrder(before, init)
    ensures FirstSeenOrder(Increment(before, ItemsOf(c)), init + [c])
  {
    TallyPresenceStep(before, init, c);
    if ItemsOf(c) in before.counts {
      TallyOrderKept(before, init, c);
    } else {
      TallyOrderAdded(before, init, c);
    }
  }

  lemma TallyPresenceStep(before: CountMap, init: seq<seq<Item>>, c: seq<Item>)
    requires before.Valid()
    requires forall s :: s in before.counts <==> FirstIndex(init, s) < |init|
    ensures forall s :: s in Increment(before, ItemsOf(c)).counts <==> FirstIndex(init + [c], s) < |init + [c]|
  {
    forall s
      ensures s in Increment(before, ItemsOf(c)).counts <==> FirstIndex(init + [c], s) < |init + [c]|
    {
      FirstIndexSnoc(init, c, s);
    }
  }

  /** A combination whose set is already a key leaves the key order alone. */
  lemma TallyOrderKept(before: CountMap, init: seq<seq<Item>>, c: seq<Item>)
    requires before.Valid() && ItemsOf(c) in before.counts
    requires FirstSeenOrder(before, init)
    ensures var after := Increment(before, ItemsOf(c));
            forall i, j :: 0 <= i < j < |after.keys| ==>
              FirstIndex(init + [c], after.keys[i]) < FirstIndex(init + [c], after.keys[j])
  {
    var after := Increment(before, ItemsOf(c));
    assert after.keys == before.keys;
    forall i, j | 0 <= i < j < |after.keys|
      ensures FirstIndex(init + [c], after.keys[i]) < FirstIndex(init + [c], after.keys[j])
    {
      assert before.keys[i] in before.counts && before.keys[j] in before.counts;
      FirstIndexSnoc(init, c, before.keys[i]);
      FirstIndexSnoc(init, c, before.keys[j]);
    }
  }

  /** A combination with a new set appends it after every earlier key. */
  lemma TallyOrderAdded(before: CountMap, init: seq<seq<Item>>, c: seq<Item>)
    requires before.Valid() && ItemsOf(c) !in before.counts
    requires FirstSeenOrder(before, init)
    ensures var after := Increment(before, ItemsOf(c));
            forall i, j :: 0 <= i < j < |after.keys| ==>
              FirstIndex(init + [c], after.keys[i]) < FirstIndex(init + [c], after.keys[j])
  {
    var t := ItemsOf(c);
    var after := Increment(before, t);
    assert after.keys == before.keys + [t];
    FirstIndexSnoc(init, c, t);
    forall i, j | 0 <= i < j < |after.keys|
      ensures FirstIndex(init + [c], after.keys[i]) < FirstIndex(init + [c], after.keys[j])
    {
      assert after.keys[i] == before.keys[i] && before.keys[i] in before.counts;
      FirstIndexSnoc(init, c, before.keys[i]);
      if j < |before.keys| {
        assert after.keys[j] == before.keys[j] && before.keys[j] in before.counts;
        FirstIndexSnoc(init, c, before.keys[j]);
      }
    }
  }

  lemma {:induction false} DistinctItemsPrefix(ts: seq<Transaction>, n: nat)
    requires DistinctItems(ts) && n <= |ts|
    ensures DistinctItems(ts[..n])
  {
    forall i | 0 <= i < n
      ensures Distinct(ts[..n][i])
    {
      assert ts[..n][i] == ts[i];
    }
  }

  /**
    With distinct items, a k-element set occurs among the length-k
    combinations once per transaction that contains it, and a set of any
    other size does not occur.
  */
  lemma {:induction false} AllCombinationsOccurrences(ts: seq<Transaction>, k: nat, s: Itemset)
    requires DistinctItems(ts)
    ensures Occurrences(AllCombinations(ts, k), s) == if |s| == k then Support(ts, s) else 0
  {
    if ts != [] {
      var init := ts[..|ts| - 1];
      DistinctItemsPrefix(ts, |ts| - 1);
      AllCombinationsOccurrences(init, k, s);
      OccurrencesConcat(AllCombinations(init, k), Combinations(ts[|ts| - 1], k), s);
      CombinationsOccurrences(ts[|ts| - 1], k, s);
    }
  }

  /** Counting one more combination is one more `get`-and-assign. */
  lemma TallyStep(cs: seq<seq<Item>>, c: seq<Item>)
    ensures Tally(cs + [c]) == Increment(Tally(cs), ItemsOf(c))
  {
    assert (cs + [c])[|cs|] == c;
    assert (cs + [c])[..|cs|] == cs;
  }

  /** The combinations of one more transaction follow those of the earlier ones. */
  lemma AllCombinationsStep(ts: seq<Transaction>, i: nat, k: nat)
    requires i < |ts|
    ensures AllCombinations(ts[..i + 1], k) == AllCombinations(ts[..i], k) + Combinations(ts[i], k)
  {
    assert ts[..i + 1][..i] == ts[..i];
  }

  /**
    The inner loop of the counting pass: each combination of one
    transaction, in order, adds one to the count of its set.
  */
  method CountCombinations(tally: CountMap, ghost done: seq<seq<Item>>, combos: seq<seq<Item>>)
    returns (counted: CountMap)
    requires tally == Tally(done)
    ensures counted == Tally(done + combos)
  {
    counted := tally;
    assert done + combos[..0] == done;
    for j := 0 to |combos|
      invariant counted == Tally(done + combos[..j])
    {
      counted := CountOne(counted, done + combos[..j], combos[j]);
      SnocSlice(done, combos, j);
    }
    assert combos[..|combos|] == combos;
  }

  /** One `itemsets[i] = itemsets.get(i, 0) + 1`. */
  method CountOne(tally: CountMap, ghost done: seq<seq<Item>>, combo: seq<Item>) returns (counted: CountMap)
    requires tally == Tally(done)
    ensures counted == Tally(done + [combo])
  {
    var itemset := ItemsOf(combo);
    counted := Increment(tally, itemset);
    TallyStep(done, combo);
  }

  /** At most every transaction supports a set. */
  lemma {:induction false} SupportAtMost(ts: seq<Transaction>, s: Itemset)
    ensures Support(ts, s) <= |ts|
  {
    if ts != [] {
      SupportAtMost(ts[..|ts| - 1], s);
    }
  }

  /** Dividing by the same positive total keeps the order of two counts. */
  lemma RatioMonotone(small: nat, big: nat, total: nat)
    requires small <= big && total > 0
    ensures (small as real) / (total as real) <= (big as real) / (total as real)
  {
    var n := total as real;
    assert (big as real) / n - (small as real) / n == ((big - small) as real) / n;
  }

  /** A superset is supported by no more transactions than its subset. */
  lemma {:induction false} SupportDominance(ts: seq<Transaction>, small: Itemset, big: Itemset)
    requires small <= big
    ensures Support(ts, big) <= Support(ts, small)
  {
    if ts != [] {
      SupportDominance(ts[..|ts| - 1], small, big);
    }
  }

  /** With distinct items, a supported set is no larger than the longest transaction. */
  lemma {:induction false} SupportedFitsLongest(ts: seq<Transaction>, s: Itemset)
    requires DistinctItems(ts) && Support(ts, s) > 0
    ensures |s| <= Longest(ts)
  {
    var last := ts[|ts| - 1];
    if s <= ItemsOf(last) {
      assert Distinct(last);
      DistinctCard(last);
      SubsetCard(s, ItemsOf(last));
    } else {
      DistinctItemsPrefix(ts, |ts| - 1);
      SupportedFitsLongest(ts[..|ts| - 1], s);
    }
  }

  // ---------------------------------------------------------------------
  // One counting pass

  /**
    The result of a pass holds exactly the tallied sets whose count reaches
    the threshold, with the tally's own count. With distinct items these
    are the k-element sets contained in some transaction, and each count is
    the number of transactions containing the set.
  */
  lemma FrequentAtExact(ts: seq<Transaction>, minSupport: real, k: nat, s: Itemset)
    requires DistinctItems(ts)
    ensures s in FrequentAt(ts, minSupport, k).counts <==>
              |s| == k && Support(ts, s) > 0 && MeetsSupport(Support(ts, s), |ts|, minSupport)
    ensures s in FrequentAt(ts, minSupport, k).counts ==>
              FrequentAt(ts, minSupport, k).counts[s] == Support(ts, s) <= |ts|
  {
    var cs := AllCombinations(ts, k);
    TallyCounts(cs, s);
    AllCombinationsOccurrences(ts, k, s);
    SupportAtMost(ts, s);
  }

  /**
    Without distinct items the count is per occurrence, not per
    transaction: a single transaction listing x twice gives {x} a count of
    2 and a support ratio of 2, although one transaction contains it.
  */
  lemma RepeatedItemCountedTwice(x: Item)
    ensures {x} in FrequentAt([[x, x]], 2.0, 1).counts
    ensures FrequentAt([[x, x]], 2.0, 1).counts[{x}] == 2
    ensures Support([[x, x]], {x}) == 1
  {
    PairTally(x);
    PairSupport(x);
    TwiceMeetsDouble();
  }

  lemma TwiceMeetsDouble()
    ensures MeetsSupport(2, 1, 2.0)
  {
    assert (2 as real) / (1 as real) == 2.0;
  }

  lemma PairSupport(x: Item)
    ensures Support([[x, x]], {x}) == 1
  {
    var none: seq<Transaction> := [];
    assert [[x, x]][..0] == none;
    assert ItemsOf([x, x]) == {x};
  }

  lemma PairTally(x: Item)
    ensures {x} in Tally(AllCombinations([[x, x]], 1)).counts
    ensures Tally(AllCombinations([[x, x]], 1)).counts[{x}] == 2
  {
    var cs := PairCombinations(x);
    assert ItemsOf([x]) == {x};
    OccurrencesTwice([x]);
    TallyCounts(cs, {x});
  }

  lemma OccurrencesTwice(c: seq<Item>)
    ensures Occurrences([c, c], ItemsOf(c)) == 2
  {
    var none: seq<seq<Item>> := [];
    assert [c][..0] == none;
    assert Occurrences([c], ItemsOf(c)) == 1;
    assert [c, c][..1] == [c];
  }

  /** The 1-combinations of [x, x] are [x] twice. */
  lemma PairCombinations(x: Item) returns (cs: seq<seq<Item>>)
    ensures cs == [[x], [x]] && AllCombinations([[x, x]], 1) == cs
  {
    cs := [[x], [x]];
    var t := [x, x];
    var empty: seq<Item> := [];
    assert Prepend(x, [empty])[0] == [x];
    assert Combinations(t[1..], 1) == [[x]] by {
      assert t[1..] == [x] && [x][1..] == empty;
    }
    assert Combinations(t, 1) == cs;
    var none: seq<Transaction> := [];
    assert [t][..0] == none;
  }

  /** With no transactions a pass finds nothing, whatever the threshold. */
  lemma EmptyInputPass(minSupport: real, k: nat)
    ensures FrequentAt([], minSupport, k).keys == []
    ensures Mine([], minSupport) == Empty
  {
    assert Tally(AllCombinations([], k)) == Empty;
    assert FrequentAt([], minSupport, 1).keys == [];
  }

  /** A pass for a length beyond the longest transaction finds nothing. */
  lemma {:induction false} NothingPastLongest(ts: seq<Transaction>, minSupport: real, k: nat)
    ensures k > Longest(ts) ==> AllCombinations(ts, k) == []
    ensures k > Longest(ts) ==> FrequentAt(ts, minSupport, k).keys == []
  {
    if ts != [] && k > Longest(ts) {
      NothingPastLongest(ts[..|ts| - 1], minSupport, k);
      CombinationsTooLong(ts[|ts| - 1], k);
    }
  }

  // ---------------------------------------------------------------------
  // The loop over lengths

  /**
    A pass that finds something merges it and moves on to the next length,
    which is at most one past the longest transaction.
  */
  lemma MineStep(m: CountMap, ts: seq<Transaction>, minSupport: real, k: nat)
    requires m.Valid()
    ensures FrequentAt(ts, minSupport, k).keys != [] ==>
              && k <= Longest(ts)
              && MineFrom(m, ts, minSupport, k)
                 == MineFrom(m.UpdateWith(FrequentAt(ts, minSupport, k)), ts, minSupport, k + 1)
  {
    NothingPastLongest(ts, minSupport, k);
  }

  /** Merging only appends keys: the stored order of the starting map is kept in front. */
  lemma {:induction false} MineExtends(m: CountMap, ts: seq<Transaction>, minSupport: real, k: nat)
    requires m.Valid()
    ensures var r := MineFrom(m, ts, minSupport, k);
            |m.keys| <= |r.keys| && r.keys[..|m.keys|] == m.keys
    decreases Longest(ts) + 1 - k
  {
    var f := FrequentAt(ts, minSupport, k);
    if f.keys != [] {
      NothingPastLongest(ts, minSupport, k);
      var next := m.UpdateWith(f);
      MineExtends(next, ts, minSupport, k + 1);
      assert MineFrom(m, ts, minSupport, k) == MineFrom(next, ts, minSupport, k + 1);
      PrefixTransitive(m.keys, next.keys, MineFrom(next, ts, minSupport, k + 1).keys);
    }
  }

  /** With no transactions the loop stops at its first pass and leaves the map as it was. */
  lemma EmptyInputMine(m: CountMap, minSupport: real, k: nat)
    requires m.Valid()
    ensures MineFrom(m, [], minSupport, k) == m
  {
    EmptyInputPass(minSupport, k);
  }

  /** With distinct items, entries shorter than the starting length are never overwritten. */
  lemma {:induction false} MineKeepsShorter(m: CountMap, ts: seq<Transaction>, minSupport: real, k: nat, s: Itemset)
    requires m.Valid() && DistinctItems(ts)
    requires s in m.counts && |s| < k
    ensures s in MineFrom(m, ts, minSupport, k).counts
    ensures MineFrom(m, ts, minSupport, k).counts[s] == m.counts[s]
  {
    forall j | k <= j
      ensures s !in FrequentAt(ts, minSupport, j).counts
    {
      FrequentAtExact(ts, minSupport, j, s);
    }
    MineKeeps(m, ts, minSupport, k, s);
  }

  /** An entry that no later pass produces keeps its stored count. */
  lemma {:induction false} MineKeeps(m: CountMap, ts: seq<Transaction>, minSupport: real, k: nat, s: Itemset)
    requires m.Valid()
    requires s in m.counts
    requires forall j :: k <= j ==> s !in FrequentAt(ts, minSupport, j).counts
    ensures s in MineFrom(m, ts, minSupport, k).counts
    ensures MineFrom(m, ts, minSupport, k).counts[s] == m.counts[s]
    decreases Longest(ts) + 1 - k
  {
    var f := FrequentAt(ts, minSupport, k);
    if f.keys != [] {
      NothingPastLongest(ts, minSupport, k);
      MineKeeps(m.UpdateWith(f), ts, minSupport, k + 1, s);
    }
  }

  /**
    With distinct items, every entry of the mined map either comes from the
    starting map unchanged, or is a set of at least the starting length that
    some transaction contains, stored with its support, which reaches the
    threshold.
  */
  lemma {:induction false} MineSound(m: CountMap, ts: seq<Transaction>, minSupport: real, k: nat, s: Itemset)
    requires m.Valid() && DistinctItems(ts)
    requires s in MineFrom(m, ts, minSupport, k).counts
    ensures var r := MineFrom(m, ts, minSupport, k);
            (s in m.counts && r.counts[s] == m.counts[s]) ||
            (k <= |s| && r.counts[s] == Support(ts, s) > 0 && MeetsSupport(Support(ts, s), |ts|, minSupport))
    decreases Longest(ts) + 1 - k
  {
    var f := FrequentAt(ts, minSupport, k);
    if f.keys != [] {
      NothingPastLongest(ts, minSupport, k);
      var next := m.UpdateWith(f);
      MineSound(next, ts, minSupport, k + 1, s);
      assert MineFrom(m, ts, minSupport, k) == MineFrom(next, ts, minSupport, k + 1);
      if s in f.counts {
        FrequentAtExact(ts, minSupport, k, s);
      }
    }
  }

  /**
    With distinct items, every set of at least the starting length that some
    transaction contains and whose support reaches the threshold ends up in
    the mined map with its support: each of its subsets is at least as
    frequent, so no pass before its own length comes back empty.
  */
  lemma {:induction false} MineComplete(m: CountMap, ts: seq<Transaction>, minSupport: real, k: nat, s: Itemset)
    requires m.Valid() && DistinctItems(ts)
    requires k <= |s| && Support(ts, s) > 0 && MeetsSupport(Support(ts, s), |ts|, minSupport)
    ensures s in MineFrom(m, ts, minSupport, k).counts
    ensures MineFrom(m, ts, minSupport, k).counts[s] == Support(ts, s)
    decreases Longest(ts) + 1 - k
  {
    SupportedFitsLongest(ts, s);
    var sub := SubsetOfSize(s, k);
    SupportDominance(ts, sub, s);
    RatioMonotone(Support(ts, s), Support(ts, sub), |ts|);
    FrequentAtExact(ts, minSupport, k, sub);
    var f := FrequentAt(ts, minSupport, k);
    assert sub in f.keys;
    var next := m.UpdateWith(f);
    if |s| == k {
      FrequentAtExact(ts, minSupport, k, s);
      MineKeepsShorter(next, ts, minSupport, k + 1, s);
    } else {
      MineComplete(next, ts, minSupport, k + 1, s);
    }
  }

  /**
    With distinct items, the mined map holds exactly the non-empty sets that
    some transaction contains and whose support ratio reaches min_support,
    each stored with its support.
  */
  lemma MinedExactly(ts: seq<Transaction>, minSupport: real, s: Itemset)
    requires DistinctItems(ts)
    ensures s in Mine(ts, minSupport).counts <==>
              s != {} && Support(ts, s) > 0 && MeetsSupport(Support(ts, s), |ts|, minSupport)
    ensures s in Mine(ts, minSupport).counts ==> Mine(ts, minSupport).counts[s] == Support(ts, s)
  {
    if s in Mine(ts, minSupport).counts {
      MineSound(Empty, ts, minSupport, 1, s);
    }
    if s != {} && Support(ts, s) > 0 && MeetsSupport(Support(ts, s), |ts|, minSupport) {
      MineComplete(Empty, ts, minSupport, 1, s);
    }
  }
}
