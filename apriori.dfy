/**
  The `Apriori` object: thresholds, the transactions, the stored itemsets
  (an insertion-ordered dict from itemset to count) and the list of rules.
  Its methods change these fields step by step, as the Python methods do,
  and each is proved against the functions of ItemsetMiner and
  RuleDeriver.
*/
module AprioriEngine {
  import opened Combinatorics
  import opened CountMaps
  import opened ItemsetMiner
  import opened RuleDeriver

  class Apriori {
    var minSupport: real
    var minConfidence: real
    var transactions: seq<Transaction>
    var itemsets: CountMap
    var rules: seq<Rule>

    /**
      The stored dict is well formed and every stored count is at least one,
      so the division by `itemsets[antecedent]` never divides by zero.
    */
    ghost predicate Valid()
      reads this`itemsets
    {
      itemsets.Valid() && itemsets.Positive()
    }

    /** `Apriori(min_support=0.5, min_confidence=0.5)` */
    constructor (minSupport: real := 0.5, minConfidence: real := 0.5)
      ensures Valid()
      ensures this.minSupport == minSupport && this.minConfidence == minConfidence
      ensures transactions == [] && itemsets == Empty && rules == []
    {
      this.minSupport := minSupport;
      this.minConfidence := minConfidence;
      transactions := [];
      itemsets := Empty;
      rules := [];
    }

    /**
      The assignment of the grouped transactions to the field. Reading the
      CSV file and grouping its rows by transaction number are not part of
      the model, so the grouped lists are the parameter.
    */
    method LoadTransactions(grouped: seq<Transaction>)
      modifies this`transactions
      ensures transactions == grouped
    {
      transactions := grouped;
    }

    /**
      One counting pass: tally the set of every length-k combination of
      every transaction, then keep the entries whose support ratio reaches
      min_support.
    */
    method GetFrequentItemsets(itemsetLength: nat) returns (frequent: CountMap)
      ensures frequent == FrequentAt(transactions, minSupport, itemsetLength)
      ensures frequent.Valid() && frequent.Positive()
      ensures transactions == [] ==> frequent.keys == []
      ensures itemsetLength > Longest(transactions) ==> frequent.keys == []
    {
      var tally := Empty;
      var i := 0;
      while i < |transactions|
        invariant 0 <= i <= |transactions|
        invariant tally == Tally(AllCombinations(transactions[..i], itemsetLength))
      {
        ghost var done := AllCombinations(transactions[..i], itemsetLength);
        var combos := Combinations(transactions[i], itemsetLength);
        tally := CountCombinations(tally, done, combos);
        AllCombinationsStep(transactions, i, itemsetLength);
        i := i + 1;
      }
      assert tally == Tally(AllCombinations(transactions, itemsetLength)) by {
        assert transactions[..i] == transactions;
      }
      frequent := Frequent(tally, |transactions|, minSupport);
      NothingPastLongest(transactions, minSupport, itemsetLength);
    }

    /**
      Passes for lengths 1, 2, 3, ... each merged into the stored dict with
      `update`, until the first pass that finds nothing.
    */
    method GenerateAllFrequentItemsets()
      requires Valid()
      modifies this`itemsets
      ensures Valid()
      ensures itemsets == MineFrom(old(itemsets), transactions, minSupport, 1)
      ensures transactions == [] ==> itemsets == old(itemsets)
      ensures |old(itemsets.keys)| <= |itemsets.keys| && itemsets.keys[..|old(itemsets.keys)|] == old(itemsets.keys)
    {
      MineExtends(itemsets, transactions, minSupport, 1);
      EmptyInputMine(itemsets, minSupport, 1);
      var itemsetLength := 1;
      while true
        invariant 1 <= itemsetLength <= Longest(transactions) + 1
        invariant Valid()
        invariant MineFrom(itemsets, transactions, minSupport, itemsetLength)
                  == MineFrom(old(itemsets), transactions, minSupport, 1)
        decreases Longest(transactions) + 1 - itemsetLength
      {
        var frequentItemsets := GetFrequentItemsets(itemsetLength);
        if frequentItemsets.keys == [] {
          break;
        }
        MineStep(itemsets, transactions, minSupport, itemsetLength);
        itemsets := itemsets.UpdateWith(frequentItemsets);
        itemsetLength := itemsetLength + 1;
      }
    }

    /**
      For every stored itemset with more than one item, in stored order, the
      rules of its qualifying antecedents are appended.
    */
    method GenerateAssociationRules()
      requires Valid()
      modifies this`rules
      ensures Valid()
      ensures |old(rules)| <= |rules| && rules[..|old(rules)|] == old(rules)
      ensures forall r :: r in rules[|old(rules)|..] ==>
                ItemsetOf(r) in itemsets.counts && 1 < |ItemsetOf(r)| &&
                IsRuleOf(itemsets.counts, ItemsetOf(r), r, minConfidence)
      ensures forall itemset, a :: Qualifies(itemsets.counts, itemset, a, minConfidence) ==>
                Rule(a, itemset - a, Confidence(itemsets.counts, itemset, a)) in rules[|old(rules)|..]
      ensures RulesDistinct(rules[|old(rules)|..])
      ensures KeyOrdered(rules[|old(rules)|..], itemsets.keys)
    {
      var k := 0;
      while k < |itemsets.keys|
        invariant 0 <= k <= |itemsets.keys|
        invariant |old(rules)| <= |rules| && rules[..|old(rules)|] == old(rules)
        invariant forall r :: r in rules[|old(rules)|..] ==>
                    ItemsetOf(r) in itemsets.keys[..k] && 1 < |ItemsetOf(r)| &&
                    IsRuleOf(itemsets.counts, ItemsetOf(r), r, minConfidence)
        invariant forall itemset, a ::
                    (itemset in itemsets.keys[..k] && Qualifies(itemsets.counts, itemset, a, minConfidence)) ==>
                    Rule(a, itemset - a, Confidence(itemsets.counts, itemset, a)) in rules[|old(rules)|..]
        invariant RulesDistinct(rules[|old(rules)|..])
        invariant KeyOrdered(rules[|old(rules)|..], itemsets.keys)
      {
        var itemset := itemsets.keys[k];
        ghost var before := rules;
        if |itemset| > 1 {
          GenerateRulesFromItemset(itemset);
        }
        ghost var added := rules[|before|..];
        assert rules[|old(rules)|..] == before[|old(rules)|..] + added;
        assert itemsets.keys[..k + 1] == itemsets.keys[..k] + [itemset];
        forall r | r in added
          ensures ItemsetOf(r) == itemset && 1 < |itemset|
        {
          RuleParts(itemsets.counts, itemset, r, minConfidence);
        }
        forall a | Qualifies(itemsets.counts, itemset, a, minConfidence)
          ensures Rule(a, itemset - a, Confidence(itemsets.counts, itemset, a)) in added
        {
          RuleParts(itemsets.counts, itemset, Rule(a, itemset - a, Confidence(itemsets.counts, itemset, a)), minConfidence);
        }
        NewRulesDistinct(before[|old(rules)|..], added, itemsets.keys, k, minConfidence, itemsets.counts);
        NewRulesKeyOrdered(before[|old(rules)|..], added, itemsets.keys, k);
        k := k + 1;
      }
    }

    /**
      Tries every antecedent of size 1 to |itemset| - 1, in the order
      `combinations` yields them over the frozenset, and appends the rule of
      each one that is stored and whose confidence reaches min_confidence.
    */
    method GenerateRulesFromItemset(itemset: Itemset)
      requires Valid()
      modifies this`rules
      ensures Valid()
      ensures |old(rules)| <= |rules| && rules[..|old(rules)|] == old(rules)
      ensures forall r :: r in rules[|old(rules)|..] ==> IsRuleOf(itemsets.counts, itemset, r, minConfidence)
      ensures forall a :: Qualifies(itemsets.counts, itemset, a, minConfidence) ==>
                Rule(a, itemset - a, Confidence(itemsets.counts, itemset, a)) in rules[|old(rules)|..]
      ensures AntecedentsDistinct(rules[|old(rules)|..])
      ensures SizesAscend(rules[|old(rules)|..])
    {
      var found, order := RulesFromItemset(itemsets, itemset, minConfidence);
      rules := rules + found;
      assert rules[|old(rules)|..] == found;
    }
  }

  /** No rule is appended twice: antecedent and consequent never both repeat. */
  ghost predicate RulesDistinct(rules: seq<Rule>) {
    forall p, q :: 0 <= p < q < |rules| ==>
      rules[p].antecedent != rules[q].antecedent || rules[p].consequent != rules[q].consequent
  }

  /**
    Appending the rules of the k-th stored key, none used twice, to rules of
    earlier keys keeps every rule distinct, because keys are listed once.
  */
  lemma NewRulesDistinct(earlier: seq<Rule>, added: seq<Rule>, keys: seq<Itemset>, k: nat,
                         minConfidence: real, counts: map<Itemset, nat>)
    requires Distinct(keys) && k < |keys|
    requires RulesDistinct(earlier) && AntecedentsDistinct(added)
    requires forall r :: r in earlier ==> ItemsetOf(r) in keys[..k]
    requires forall r :: r in added ==> ItemsetOf(r) == keys[k]
    ensures RulesDistinct(earlier + added)
  {
    var all := earlier + added;
    forall p, q | 0 <= p < q < |all|
      ensures all[p].antecedent != all[q].antecedent || all[p].consequent != all[q].consequent
    {
      if q < |earlier| {
        assert all[p] == earlier[p] && all[q] == earlier[q];
      } else if p < |earlier| {
        assert all[p] == earlier[p] && all[q] == added[q - |earlier|];
        assert all[p] in earlier && all[q] in added;
        assert keys[k] !in keys[..k];
      } else {
        assert all[p] == added[p - |earlier|] && all[q] == added[q - |earlier|];
      }
    }
  }

  /**
    The rules come key by key in the stored order of the keys: once a rule
    of the i-th key has been appended, no later rule belongs to an earlier key.
  */
  ghost predicate KeyOrdered(rules: seq<Rule>, keys: seq<Itemset>) {
    forall p, q, i :: 0 <= p < q < |rules| && 0 <= i < |keys| && ItemsetOf(rules[p]) == keys[i] ==>
      ItemsetOf(rules[q]) !in keys[..i]
  }

  /** Appending the rules of the k-th stored key after those of earlier keys keeps them in key order. */
  lemma NewRulesKeyOrdered(earlier: seq<Rule>, added: seq<Rule>, keys: seq<Itemset>, k: nat)
    requires Distinct(keys) && k < |keys|
    requires KeyOrdered(earlier, keys)
    requires forall r :: r in earlier ==> ItemsetOf(r) in keys[..k]
    requires forall r :: r in added ==> ItemsetOf(r) == keys[k]
    ensures KeyOrdered(earlier + added, keys)
  {
    var all := earlier + added;
    forall p, q, i | 0 <= p < q < |all| && 0 <= i < |keys| && ItemsetOf(all[p]) == keys[i]
      ensures ItemsetOf(all[q]) !in keys[..i]
    {
      if q < |earlier| {
        assert all[p] == earlier[p] && all[q] == earlier[q];
      } else {
        assert all[q] == added[q - |earlier|] && all[q] in added;
        if p < |earlier| {
          assert all[p] == earlier[p] && all[p] in earlier;
          KeyBefore(keys, k, i);
        } else {
          assert all[p] == added[p - |earlier|] && all[p] in added;
          KeyAt(keys, k, i);
        }
      }
    }
  }

  /** A key listed before position k sits before it, so the k-th key is not among the first i. */
  lemma KeyBefore(keys: seq<Itemset>, k: nat, i: nat)
    requires Distinct(keys) && k < |keys| && i < |keys| && keys[i] in keys[..k]
    ensures keys[k] !in keys[..i]
  {
    var j :| 0 <= j < k && keys[..k][j] == keys[i];
    assert keys[j] == keys[i];
  }

  /** The k-th key appears at position k only, and not among the keys before it. */
  lemma KeyAt(keys: seq<Itemset>, k: nat, i: nat)
    requires Distinct(keys) && k < |keys| && i < |keys| && keys[i] == keys[k]
    ensures keys[k] !in keys[..i]
  {
  }

  /**
    With distinct items, every rule derivable from the mined map has a
    confidence in (0, 1]: an antecedent, a subset of the itemset, is
    supported by at least as many transactions as the itemset.
  */
  lemma ConfidenceInUnitInterval(ts: seq<Transaction>, minSupport: real, itemset: Itemset,
                                 r: Rule, minConfidence: real)
    requires DistinctItems(ts)
    ensures IsRuleOf(Mine(ts, minSupport).counts, itemset, r, minConfidence) ==> 0.0 < r.confidence <= 1.0
  {
    if IsRuleOf(Mine(ts, minSupport).counts, itemset, r, minConfidence) {
      MinedExactly(ts, minSupport, itemset);
      MinedExactly(ts, minSupport, r.antecedent);
      SupportDominance(ts, r.antecedent, itemset);
      RatioInUnitInterval(Support(ts, itemset), Support(ts, r.antecedent));
    }
  }

  lemma RatioInUnitInterval(part: nat, whole: nat)
    requires 0 < part <= whole
    ensures 0.0 < (part as real) / (whole as real) <= 1.0
  {
    var w := whole as real;
    assert (part as real) / w <= w / w;
  }
}
