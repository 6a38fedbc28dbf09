/**
  What the rule deriver of `Apriori` appends for one stored itemset, as a
  function of the stored map and of the order in which the frozenset is
  iterated: every antecedent of size 1, 2, ..., |itemset| - 1 that
  `combinations(itemset, i)` produces, tried in turn (Derive over
  Antecedents). The lemmas say which rules that list holds, whatever the
  iteration order.
*/
module RuleDeriver {
  import opened Combinatorics
  import opened CountMaps

  /** `(antecedent, consequent, confidence)` */
  datatype Rule = Rule(antecedent: Itemset, consequent: Itemset, confidence: real)

  /** The itemset a rule was derived from: antecedent and consequent together. */
  function ItemsetOf(r: Rule): Itemset {
    r.antecedent + r.consequent
  }

  /** `itemsets[itemset] / itemsets[antecedent]`, in exact arithmetic. */
  function Confidence(counts: map<Itemset, nat>, itemset: Itemset, antecedent: Itemset): (r: real)
    requires itemset in counts && antecedent in counts && counts[antecedent] > 0
    ensures 0.0 <= r && (counts[itemset] > 0 ==> 0.0 < r)
    ensures counts[itemset] <= counts[antecedent] ==> r <= 1.0
  {
    (counts[itemset] as real) / (counts[antecedent] as real)
  }

  /**
    a is a non-empty proper subset of the itemset, both are stored, and the
    confidence of a => itemset - a reaches the threshold.
  */
  ghost predicate Qualifies(counts: map<Itemset, nat>, itemset: Itemset, a: Itemset, minConfidence: real) {
    && a != {} && a < itemset
    && itemset in counts && a in counts && counts[a] > 0
    && Confidence(counts, itemset, a) >= minConfidence
  }

  /** r is the rule that a qualifying antecedent of the itemset gives. */
  ghost predicate IsRuleOf(counts: map<Itemset, nat>, itemset: Itemset, r: Rule, minConfidence: real) {
    && Qualifies(counts, itemset, r.antecedent, minConfidence)
    && r.consequent == itemset - r.antecedent
    && r.confidence == Confidence(counts, itemset, r.antecedent)
  }

  /** No antecedent is used twice. */
  ghost predicate AntecedentsDistinct(rules: seq<Rule>) {
    forall p, q :: 0 <= p < q < |rules| ==> rules[p].antecedent != rules[q].antecedent
  }

  /**
    What one antecedent candidate adds: nothing when either lookup misses
    (the `KeyError` that is skipped), the rule when its confidence reaches
    the threshold, and nothing otherwise.
  */
  function Candidate(stored: CountMap, itemset: Itemset, combo: seq<Item>, minConfidence: real): (r: seq<Rule>)
    requires stored.Positive()
    ensures |r| <= 1
    ensures forall x :: x in r ==>
              && itemset in stored.counts && x.antecedent in stored.counts
              && x.antecedent == ItemsOf(combo) && x.consequent == itemset - x.antecedent
              && x.confidence == Confidence(stored.counts, itemset, x.antecedent) >= minConfidence
  {
    var antecedent := ItemsOf(combo);
    if itemset in stored.counts && antecedent in stored.counts then
      var confidence := Confidence(stored.counts, itemset, antecedent);
      if confidence >= minConfidence then [Rule(antecedent, itemset - antecedent, confidence)] else []
    else []
  }

  /** The rules that trying the candidates of combos, in order, appends. */
  function Derive(stored: CountMap, itemset: Itemset, combos: seq<seq<Item>>, minConfidence: real): (r: seq<Rule>)
    requires stored.Positive()
    ensures |r| <= |combos|
    ensures forall x :: x in r ==> x.consequent == itemset - x.antecedent && x.confidence >= minConfidence
  {
    if combos == [] then []
    else Derive(stored, itemset, combos[..|combos| - 1], minConfidence)
         + Candidate(stored, itemset, combos[|combos| - 1], minConfidence)
  }

  /** `combinations(order, i)` for i = 1, ..., size - 1, one after the other. */
  function Antecedents(order: seq<Item>, size: nat): (r: seq<seq<Item>>)
    ensures forall p :: 0 <= p < |r| ==> 1 <= |r[p]| < size
  {
    if size <= 1 then []
    else Antecedents(order, size - 1) + Combinations(order, size - 1)
  }

  /**
    One iteration order of a frozenset. Python's order depends on hashing,
    so each element is picked arbitrarily from those not yet listed.
  */
  method IterationOrder(s: Itemset) returns (order: seq<Item>)
    ensures Distinct(order) && ItemsOf(order) == s
  {
    order := [];
    var rest := s;
    while rest != {}
      invariant Distinct(order)
      invariant ItemsOf(order) + rest == s && ItemsOf(order) !! rest
      decreases |rest|
    {
      var x :| x in rest;
      AppendFresh(order, x);
      order := order + [x];
      rest := rest - {x};
    }
  }

  // ---------------------------------------------------------------------
  // Derive

  /**
    Each derived rule comes from one of the candidates: its antecedent is
    that candidate's set, both lookups succeed, its consequent is the rest
    of the itemset and its confidence is the ratio, which reaches the
    threshold.
  */
  lemma {:induction false} DeriveOrigin(stored: CountMap, itemset: Itemset, combos: seq<seq<Item>>,
                                        minConfidence: real, q: nat) returns (p: nat)
    requires stored.Positive()
    requires q < |Derive(stored, itemset, combos, minConfidence)|
    ensures p < |combos|
    ensures var a := ItemsOf(combos[p]);
            && itemset in stored.counts && a in stored.counts
            && Derive(stored, itemset, combos, minConfidence)[q]
               == Rule(a, itemset - a, Confidence(stored.counts, itemset, a))
            && Confidence(stored.counts, itemset, a) >= minConfidence
  {
    var init := combos[..|combos| - 1];
    var before := Derive(stored, itemset, init, minConfidence);
    if q < |before| {
      p := DeriveOrigin(stored, itemset, init, minConfidence, q);
      assert init[p] == combos[p];
    } else {
      p := |combos| - 1;
    }
  }

  /** A candidate whose lookups succeed and whose confidence reaches the threshold gives its rule. */
  lemma {:induction false} DeriveComplete(stored: CountMap, itemset: Itemset, combos: seq<seq<Item>>,
                                          minConfidence: real, p: nat)
    requires stored.Positive() && p < |combos|
    requires itemset in stored.counts && ItemsOf(combos[p]) in stored.counts
    requires Confidence(stored.counts, itemset, ItemsOf(combos[p])) >= minConfidence
    ensures var a := ItemsOf(combos[p]);
            Rule(a, itemset - a, Confidence(stored.counts, itemset, a))
              in Derive(stored, itemset, combos, minConfidence)
  {
    var init := combos[..|combos| - 1];
    if p < |combos| - 1 {
      assert init[p] == combos[p];
      DeriveComplete(stored, itemset, init, minConfidence, p);
    }
  }

  /** Candidates that are pairwise different sets give rules with pairwise different antecedents. */
  lemma {:induction false} DeriveDistinct(stored: CountMap, itemset: Itemset, combos: seq<seq<Item>>, minConfidence: real)
    requires stored.Positive() && SetsDistinct(combos)
    ensures AntecedentsDistinct(Derive(stored, itemset, combos, minConfidence))
  {
    if combos != [] {
      var init := combos[..|combos| - 1];
      var last := combos[|combos| - 1];
      assert SetsDistinct(init) by {
        forall p, q | 0 <= p < q < |init|
          ensures ItemsOf(init[p]) != ItemsOf(init[q])
        {
          assert init[p] == combos[p] && init[q] == combos[q];
        }
      }
      DeriveDistinct(stored, itemset, init, minConfidence);
      var before := Derive(stored, itemset, init, minConfidence);
      var rules := Derive(stored, itemset, combos, minConfidence);
      forall p, q | 0 <= p < q < |rules|
        ensures rules[p].antecedent != rules[q].antecedent
      {
        if q >= |before| {
          var origin := DeriveOrigin(stored, itemset, init, minConfidence, p);
          assert init[origin] == combos[origin];
          assert rules[q].antecedent == ItemsOf(last);
        } else {
          assert rules[p] == before[p] && rules[q] == before[q];
        }
      }
    }
  }

  /** Trying one more candidate appends what that candidate adds. */
  lemma DeriveStep(stored: CountMap, itemset: Itemset, combos: seq<seq<Item>>, c: seq<Item>, minConfidence: real)
    requires stored.Positive()
    ensures Derive(stored, itemset, combos + [c], minConfidence)
            == Derive(stored, itemset, combos, minConfidence) + Candidate(stored, itemset, c, minConfidence)
  {
    assert (combos + [c])[|combos|] == c;
    assert (combos + [c])[..|combos|] == combos;
  }

  // ---------------------------------------------------------------------
  // Antecedents

  /** Trying two runs of candidates, one after the other. */
  lemma {:induction false} DeriveConcat(stored: CountMap, itemset: Itemset, a: seq<seq<Item>>, b: seq<seq<Item>>, minConfidence: real)
    requires stored.Positive()
    ensures Derive(stored, itemset, a + b, minConfidence)
            == Derive(stored, itemset, a, minConfidence) + Derive(stored, itemset, b, minConfidence)
    decreases |b|
  {
    if b == [] {
      assert a + b == a;
    } else {
      var init := b[..|b| - 1];
      var last := Candidate(stored, itemset, b[|b| - 1], minConfidence);
      assert (a + b)[..|a + b| - 1] == a + init;
      assert (a + b)[|a + b| - 1] == b[|b| - 1];
      DeriveConcat(stored, itemset, a, init, minConfidence);
      assert Derive(stored, itemset, a + b, minConfidence) == Derive(stored, itemset, a + init, minConfidence) + last;
      assert Derive(stored, itemset, b, minConfidence) == Derive(stored, itemset, init, minConfidence) + last;
    }
  }

  /** Trying the candidates of size i after those of the smaller sizes. */
  lemma DeriveSize(stored: CountMap, itemset: Itemset, order: seq<Item>, i: nat, minConfidence: real)
    requires stored.Positive() && 1 <= i
    ensures Derive(stored, itemset, Antecedents(order, i + 1), minConfidence)
            == Derive(stored, itemset, Antecedents(order, i), minConfidence)
               + Derive(stored, itemset, Combinations(order, i), minConfidence)
  {
    AntecedentsStep(order, i);
    DeriveConcat(stored, itemset, Antecedents(order, i), Combinations(order, i), minConfidence);
  }

  /** Antecedent sizes never decrease along the rules. */
  ghost predicate SizesAscend(rules: seq<Rule>) {
    forall p, q :: 0 <= p < q < |rules| ==> |rules[p].antecedent| <= |rules[q].antecedent|
  }

  /**
    From an iteration order without repetitions, the rules of an itemset come
    in ascending antecedent size, as `range(1, len(itemset))` runs, and every
    antecedent has fewer items than the size.
  */
  lemma {:induction false} DeriveSizesAscend(stored: CountMap, itemset: Itemset, order: seq<Item>, size: nat,
                                             minConfidence: real)
    requires stored.Positive() && Distinct(order)
    ensures var rules := Derive(stored, itemset, Antecedents(order, size), minConfidence);
            && SizesAscend(rules)
            && forall q :: 0 <= q < |rules| ==> |rules[q].antecedent| < size
  {
    if size > 1 {
      var smaller := Derive(stored, itemset, Antecedents(order, size - 1), minConfidence);
      var largest := Derive(stored, itemset, Combinations(order, size - 1), minConfidence);
      DeriveSizesAscend(stored, itemset, order, size - 1, minConfidence);
      DeriveSize(stored, itemset, order, size - 1, minConfidence);
      assert size - 1 + 1 == size;
      forall q | 0 <= q < |largest|
        ensures |largest[q].antecedent| == size - 1
      {
        LargestSize(stored, itemset, order, size - 1, minConfidence, q);
      }
      AscendConcat(smaller, largest, size - 1);
    }
  }

  /** Rules of fewer than n items followed by rules of n items ascend in size. */
  lemma AscendConcat(smaller: seq<Rule>, largest: seq<Rule>, n: nat)
    requires SizesAscend(smaller) && forall q :: 0 <= q < |smaller| ==> |smaller[q].antecedent| < n
    requires forall q :: 0 <= q < |largest| ==> |largest[q].antecedent| == n
    ensures SizesAscend(smaller + largest)
    ensures forall q :: 0 <= q < |smaller + largest| ==> |(smaller + largest)[q].antecedent| <= n
  {
    var rules := smaller + largest;
    forall p, q | 0 <= p < q < |rules|
      ensures |rules[p].antecedent| <= |rules[q].antecedent|
    {
      if q < |smaller| {
        assert rules[p] == smaller[p] && rules[q] == smaller[q];
      } else if p < |smaller| {
        assert rules[p] == smaller[p] && rules[q] == largest[q - |smaller|];
      } else {
        assert rules[p] == largest[p - |smaller|] && rules[q] == largest[q - |smaller|];
      }
    }
    forall q | 0 <= q < |rules|
      ensures |rules[q].antecedent| <= n
    {
      if q < |smaller| {
        assert rules[q] == smaller[q];
      } else {
        assert rules[q] == largest[q - |smaller|];
      }
    }
  }

  /** Every rule tried from the combinations of size i has an antecedent of i items. */
  lemma LargestSize(stored: CountMap, itemset: Itemset, order: seq<Item>, i: nat, minConfidence: real, q: nat)
    requires stored.Positive() && Distinct(order)
    requires q < |Derive(stored, itemset, Combinations(order, i), minConfidence)|
    ensures |Derive(stored, itemset, Combinations(order, i), minConfidence)[q].antecedent| == i
  {
    var p := DeriveOrigin(stored, itemset, Combinations(order, i), minConfidence, q);
    CombinationShape(order, i, p);
    DistinctCard(Combinations(order, i)[p]);
  }

  /** The candidates of size i follow those of the smaller sizes. */
  lemma AntecedentsStep(order: seq<Item>, i: nat)
    requires 1 <= i
    ensures Antecedents(order, i + 1) == Antecedents(order, i) + Combinations(order, i)
  {
  }

  /**
    From an iteration order without repetitions, the candidates of an
    itemset of the given size are subsets of it with 1 to size - 1 elements.
  */
  lemma {:induction false} AntecedentShape(order: seq<Item>, size: nat, p: nat)
    requires Distinct(order) && p < |Antecedents(order, size)|
    ensures ItemsOf(Antecedents(order, size)[p]) <= ItemsOf(order)
    ensures 1 <= |ItemsOf(Antecedents(order, size)[p])| < size
  {
    var before := Antecedents(order, size - 1);
    assert Antecedents(order, size) == before + Combinations(order, size - 1);
    if p < |before| {
      AntecedentShape(order, size - 1, p);
      assert Antecedents(order, size)[p] == before[p];
    } else {
      ShapeLargest(order, size, p - |before|);
      assert Antecedents(order, size)[p] == Combinations(order, size - 1)[p - |before|];
    }
  }

  /** The candidates of the last size tried have size - 1 elements from the order. */
  lemma ShapeLargest(order: seq<Item>, size: nat, q: nat)
    requires Distinct(order) && 1 < size && q < |Combinations(order, size - 1)|
    ensures ItemsOf(Combinations(order, size - 1)[q]) <= ItemsOf(order)
    ensures |ItemsOf(Combinations(order, size - 1)[q])| == size - 1
  {
    CombinationShape(order, size - 1, q);
    DistinctCard(Combinations(order, size - 1)[q]);
  }

  /** Every subset with 1 to size - 1 elements is among the candidates. */
  lemma {:induction false} AntecedentsCover(order: seq<Item>, size: nat, a: Itemset) returns (p: nat)
    requires Distinct(order) && a <= ItemsOf(order) && 1 <= |a| < size
    ensures p < |Antecedents(order, size)| && ItemsOf(Antecedents(order, size)[p]) == a
  {
    if |a| < size - 1 {
      var before := Antecedents(order, size - 1);
      p := AntecedentsCover(order, size - 1, a);
      assert Antecedents(order, size) == before + Combinations(order, size - 1);
      assert Antecedents(order, size)[p] == before[p];
    } else {
      p := CoverLargest(order, size, a);
    }
  }

  /** The case of AntecedentsCover where the subset has size - 1 elements, the last size tried. */
  lemma CoverLargest(order: seq<Item>, size: nat, a: Itemset) returns (p: nat)
    requires Distinct(order) && a <= ItemsOf(order) && 1 <= |a| == size - 1
    ensures p < |Antecedents(order, size)| && ItemsOf(Antecedents(order, size)[p]) == a
  {
    var before := Antecedents(order, size - 1);
    var now := Combinations(order, size - 1);
    assert Antecedents(order, size) == before + now;
    var q := CombinationsCover(order, a);
    p := |before| + q;
    assert Antecedents(order, size)[p] == now[q];
  }

  /** No two candidates are the same set. */
  lemma {:induction false} AntecedentsSetsDistinct(order: seq<Item>, size: nat)
    requires Distinct(order)
    ensures SetsDistinct(Antecedents(order, size))
  {
    if size > 1 {
      var before := Antecedents(order, size - 1);
      var now := Combinations(order, size - 1);
      AntecedentsSetsDistinct(order, size - 1);
      CombinationsSetsDistinct(order, size - 1);
      forall p, q | 0 <= p < |before| && 0 <= q < |now|
        ensures ItemsOf(before[p]) != ItemsOf(now[q])
      {
        SmallerSizesDiffer(order, size, p, q);
      }
      SetsDistinctConcat(before, now);
    }
  }

  /** A candidate of a smaller size is never the same set as one of the last size tried. */
  lemma SmallerSizesDiffer(order: seq<Item>, size: nat, p: nat, q: nat)
    requires Distinct(order) && 1 < size
    requires p < |Antecedents(order, size - 1)| && q < |Combinations(order, size - 1)|
    ensures ItemsOf(Antecedents(order, size - 1)[p]) != ItemsOf(Combinations(order, size - 1)[q])
  {
    AntecedentShape(order, size - 1, p);
    ShapeLargest(order, size, q);
  }

  // ---------------------------------------------------------------------
  // The rules of one itemset

  /**
    Whatever order the frozenset is iterated in, the rules appended for an
    itemset are exactly the rules of its qualifying antecedents, each once.
  */
  lemma ItemsetRules(stored: CountMap, itemset: Itemset, order: seq<Item>, minConfidence: real)
    requires stored.Positive()
    requires Distinct(order) && ItemsOf(order) == itemset
    ensures var rules := Derive(stored, itemset, Antecedents(order, |itemset|), minConfidence);
            && (forall r :: r in rules ==> IsRuleOf(stored.counts, itemset, r, minConfidence))
            && (forall a :: Qualifies(stored.counts, itemset, a, minConfidence) ==>
                  Rule(a, itemset - a, Confidence(stored.counts, itemset, a)) in rules)
            && AntecedentsDistinct(rules)
  {
    DistinctCard(order);
    var combos := Antecedents(order, |itemset|);
    var rules := Derive(stored, itemset, combos, minConfidence);
    forall r | r in rules
      ensures IsRuleOf(stored.counts, itemset, r, minConfidence)
    {
      var q :| 0 <= q < |rules| && rules[q] == r;
      var p := DeriveOrigin(stored, itemset, combos, minConfidence, q);
      AntecedentShape(order, |itemset|, p);
      var a := ItemsOf(combos[p]);
      assert a <= itemset && 1 <= |a| < |itemset|;
      assert a != itemset;
      assert a != {};
    }
    forall a | Qualifies(stored.counts, itemset, a, minConfidence)
      ensures Rule(a, itemset - a, Confidence(stored.counts, itemset, a)) in rules
    {
      SubsetCard(a, itemset);
      var p := AntecedentsCover(order, |itemset|, a);
      DeriveComplete(stored, itemset, combos, minConfidence, p);
    }
    AntecedentsSetsDistinct(order, |itemset|);
    DeriveDistinct(stored, itemset, combos, minConfidence);
  }

  /** A rule's antecedent and consequent are disjoint, non-empty and make up its itemset. */
  lemma RuleParts(counts: map<Itemset, nat>, itemset: Itemset, r: Rule, minConfidence: real)
    requires IsRuleOf(counts, itemset, r, minConfidence)
    ensures r.antecedent !! r.consequent
    ensures ItemsetOf(r) == itemset
    ensures r.antecedent != {} && r.consequent != {}
    ensures 1 < |itemset|
  {
    SubsetCard(r.antecedent, itemset);
  }

  // ---------------------------------------------------------------------
  // The loops of generate_rules_from_itemset

  /**
    The inner loop: for each combination, in order, a failed lookup skips
    it (the `KeyError` that is caught), and otherwise its rule is appended
    when the confidence reaches min_confidence.
  */
  method RulesFromCombinations(stored: CountMap, itemset: Itemset, combos: seq<seq<Item>>, minConfidence: real)
    returns (found: seq<Rule>)
    requires stored.Positive()
    ensures found == Derive(stored, itemset, combos, minConfidence)
  {
    found := [];
    var j := 0;
    while j < |combos|
      invariant 0 <= j <= |combos|
      invariant found == Derive(stored, itemset, combos[..j], minConfidence)
    {
      var antecedent := ItemsOf(combos[j]);
      var consequent := itemset - antecedent;
      ghost var added := Candidate(stored, itemset, combos[j], minConfidence);
      assert found + added == Derive(stored, itemset, combos[..j + 1], minConfidence) by {
        assert combos[..j + 1] == combos[..j] + [combos[j]];
        DeriveStep(stored, itemset, combos[..j], combos[j], minConfidence);
      }
      if itemset in stored.counts && antecedent in stored.counts {
        var confidence := Confidence(stored.counts, itemset, antecedent);
        if confidence >= minConfidence {
          assert added == [Rule(antecedent, consequent, confidence)];
          found := found + [Rule(antecedent, consequent, confidence)];
        } else {
          assert added == [];
        }
      } else {
        assert added == [];
      }
      j := j + 1;
    }
    assert combos[..j] == combos;
  }

  /** One round of the outer loop: the antecedents of size i are tried after the smaller ones. */
  method RulesOfSize(stored: CountMap, itemset: Itemset, order: seq<Item>, i: nat, found: seq<Rule>, minConfidence: real)
    returns (more: seq<Rule>)
    requires stored.Positive() && 1 <= i
    requires found == Derive(stored, itemset, Antecedents(order, i), minConfidence)
    ensures more == Derive(stored, itemset, Antecedents(order, i + 1), minConfidence)
  {
    var next := RulesFromCombinations(stored, itemset, Combinations(order, i), minConfidence);
    more := found + next;
    DeriveSize(stored, itemset, order, i, minConfidence);
  }

  /**
    The outer loop: antecedent sizes 1 to |itemset| - 1, tried in turn over
    the iteration order of the frozenset.
  */
  method RulesBySize(stored: CountMap, itemset: Itemset, order: seq<Item>, minConfidence: real)
    returns (found: seq<Rule>)
    requires stored.Positive()
    ensures found == Derive(stored, itemset, Antecedents(order, |itemset|), minConfidence)
  {
    found := [];
    if |itemset| > 1 {
      for i := 1 to |itemset|
        invariant found == Derive(stored, itemset, Antecedents(order, i), minConfidence)
      {
        found := RulesOfSize(stored, itemset, order, i, found, minConfidence);
      }
    }
  }

  /**
    `generate_rules_from_itemset` on one itemset: the rules found are exactly
    those of the qualifying antecedents, each once, whatever order the
    frozenset is iterated in.
  */
  method RulesFromItemset(stored: CountMap, itemset: Itemset, minConfidence: real)
    returns (found: seq<Rule>, ghost order: seq<Item>)
    requires stored.Positive()
    ensures Distinct(order) && ItemsOf(order) == itemset
    ensures found == Derive(stored, itemset, Antecedents(order, |itemset|), minConfidence)
    ensures forall r :: r in found ==> IsRuleOf(stored.counts, itemset, r, minConfidence)
    ensures forall a :: Qualifies(stored.counts, itemset, a, minConfidence) ==>
              Rule(a, itemset - a, Confidence(stored.counts, itemset, a)) in found
    ensures AntecedentsDistinct(found)
    ensures SizesAscend(found)
  {
    var iteration := IterationOrder(itemset);
    order := iteration;
    found := RulesBySize(stored, itemset, iteration, minConfidence);
    ItemsetRules(stored, itemset, order, minConfidence);
    DeriveSizesAscend(stored, itemset, order, |itemset|, minConfidence);
  }
}
