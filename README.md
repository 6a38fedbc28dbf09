# Apriori mining engine

A Dafny model of the mining engine of the `Apriori` class in `ass1.py`. The
class holds two thresholds, `min_support` and `min_confidence`, a list of
transactions (each one a list of item names), a dict `itemsets` from
frozensets to counts, and a list `rules` of triples
`(antecedent, consequent, confidence)`.

- `get_frequent_itemsets(L)` counts in a fresh dict the set of every
  length-L combination of every transaction. It keeps the entries whose
  count divided by the number of transactions reaches `min_support`.
- `generate_all_frequent_itemsets` merges the passes for L = 1, 2, ... into
  `self.itemsets` with `update`. It stops at the first pass that comes back
  empty.
- `generate_association_rules` calls `generate_rules_from_itemset` for every
  stored itemset with more than one item.
- `generate_rules_from_itemset` tries every antecedent of size 1 to |I| - 1,
  in the order `combinations` yields them over the frozenset. An antecedent
  whose lookup raises `KeyError` is skipped. For the others, the rule is
  appended when `itemsets[I] / itemsets[A]` reaches `min_confidence`.

The project has five modules:

- `Combinatorics` (`combinatorics.dfy`): items, itemsets, `itertools.combinations` as the
  function `Combinations`, and facts about it.
- `CountMaps` (`count_maps.dfy`): a Python dict with its insertion order. `keys` lists the keys in
  that order, and `counts` maps each key to its value. It offers `d[s] = v` and `d.update(other)`.
- `ItemsetMiner` (`itemset_miner.dfy`): the specification of the counting passes and of the mining
  loop (`Tally`, `FrequentAt`, `MineFrom`, `Mine`). It also holds the value-level counting loop.
  Its lemmas relate the mined map to `Support`, the number of transactions that contain a set,
  which is the independent reference definition.
- `RuleDeriver` (`rule_deriver.dfy`): the specification of the rules of one itemset (`Candidate`,
  `Derive`, `Antecedents`) and the rule loops. Its lemmas relate those rules to the predicates
  `Qualifies` and `IsRuleOf` over the stored map, whatever order the frozenset is iterated in.
- `AprioriEngine` (`apriori.dfy`): the class `Apriori`, with the fields of the Python object.
  Each method changes them the way the Python method does, and is proved against the functions
  above.

Thresholds and ratios are exact `real`s.

### Where the description of the system and the code disagree

The model follows the code in each of these cases.

- **Repeated items.** The description says a repeated item within one
  transaction collapses. The code calls `combinations` on the raw list, so
  every choice of positions is counted. A transaction `[x, x]` gives `{x}` a
  count of 2, and so a support ratio of 2 from a single transaction
  (`RepeatedItemCountedTwice`).
  - With repeated items, a pass for length L can also produce sets smaller
    than L. `update` then overwrites their earlier counts.
  - The exact-count facts therefore carry the hypothesis `DistinctItems`:
    no transaction lists an item twice. So does the bound 0 < confidence ≤ 1.
- **Parameter checks.** The description asks for an error on thresholds
  outside [0, 1]. The code checks nothing, and the model accepts any real
  threshold.
- **Worked example.** The description's example with min_support 0.6
  lists `{bread, milk}` and `{milk, diaper}` as the only frequent pairs.
  Under the counting that both it and the code use, `{bread, diaper}` and
  `{diaper, beer}` also occur in 3 of the 5 transactions, so they are
  frequent too.
- **Zero counts.** The description guards against an itemset whose own
  count is zero. In the code this cannot happen: every stored count is at
  least 1 (`Apriori.Valid`). So the division at line 55 never divides by
  zero.

## Model

| member | source | states |
|---|---|---|
| Combinatorics.ItemsOf | ass1.py:28 | `frozenset(xs)` (here and at line 52) holds every element of the list, and is empty exactly when the list is |
| Combinatorics.Combinations | ass1.py:27 | every tuple of `combinations(xs, k)` has length k |
| Combinatorics.CombinationShape | ass1.py:27 | each `combinations(xs, k)` tuple has length k, draws its items from xs, and repeats none if xs repeats none |
| Combinatorics.CombinationsTooLong | ass1.py:27 | `combinations(xs, k)` is empty when k exceeds the length of xs |
| Combinatorics.CombinationsCover | ass1.py:51 | from a list without repetitions, every subset of its items is produced by some combination of that size |
| Combinatorics.CombinationsSetsDistinct | ass1.py:51-52 | from a list without repetitions, no two combinations give the same frozenset |
| Combinatorics.CombinationsOccurrences | ass1.py:27-28 | from a list without repetitions, a set comes out of the length-k combinations once if it is a k-subset of the list, and never otherwise |
| CountMaps.CountMap.Set | ass1.py:29 | `d[s] = v` maps s to v and leaves every other entry unchanged; an existing key keeps its place and a new key goes last |
| CountMaps.CountMap.SetAll | ass1.py:41 | assigning the keys of a list in turn: a key of the list gets its new value, any other key keeps its old one, and earlier keys keep their order in front |
| CountMaps.CountMap.Get | ass1.py:29 | `d.get(s, default)` gives the stored count of a key, and the default for a missing key |
| CountMaps.CountMap.SetAllOrder | ass1.py:41 | assigning the keys of a list without repetitions in turn appends the keys that were new, in the order of the list |
| CountMaps.CountMap.UpdateWith | ass1.py:41 | `d.update(other)`: the result holds the keys of both; other's value wins; the keys are d's keys in d's order followed by other's keys that d lacked, in other's order; positive counts stay positive |
| ItemsetMiner.AllCombinations | ass1.py:26-27 | the nested loops over the transactions and their combinations yield only tuples of length k, and none at all past the longest transaction |
| ItemsetMiner.Tally | ass1.py:24-29 | the dict the counting loop builds is well formed and every count in it is at least 1 |
| ItemsetMiner.Increment | ass1.py:29 | `d[s] = d.get(s, 0) + 1` adds one to the count of s and changes nothing else |
| ItemsetMiner.TallyCounts | ass1.py:26-29 | the counting dict holds exactly the sets that some combination gives, each with its number of occurrences |
| ItemsetMiner.TallyOrder | ass1.py:26-29 | the counting dict lists its keys in the order in which their sets first occur among the combinations: a key is present exactly when its set occurs, and an earlier key first occurs earlier |
| ItemsetMiner.CountOne | ass1.py:28-29 | one increment extends the tally by one more combination |
| ItemsetMiner.CountCombinations | ass1.py:27-29 | the inner loop over one transaction's combinations leaves the tally of all combinations counted so far |
| ItemsetMiner.AllCombinationsOccurrences | ass1.py:26-28 | with distinct items, a k-element set occurs among all the length-k combinations once per transaction that contains it; a set of any other size never occurs |
| ItemsetMiner.MeetsSupport | ass1.py:32 | the test `support / transaction_count >= min_support` holds exactly when the count reaches min_support times the number of transactions |
| ItemsetMiner.FrequentKeys | ass1.py:31-32 | the kept keys are exactly those whose count divided by the number of transactions reaches min_support, and they keep the order of the dict being filtered |
| ItemsetMiner.Frequent | ass1.py:31-32 | the dict comprehension keeps exactly the entries that meet the inclusive threshold, with their counts unchanged and in the dict's key order, and stays well formed and positive |
| ItemsetMiner.FrequentAt | ass1.py:23-33 | the result of a pass is well formed and every count in it is at least 1 |
| ItemsetMiner.SupportAtMost | ass1.py:25-29 | no set is contained in more transactions than there are |
| ItemsetMiner.FrequentAtExact | ass1.py:23-33 | with distinct items, a pass for length k returns exactly the k-element sets contained in a transaction whose support ratio reaches min_support, each with a count equal to its number of containing transactions, which is at most the number of transactions |
| ItemsetMiner.RepeatedItemCountedTwice | ass1.py:27-29 | a transaction listing x twice gives {x} a count of 2 and a ratio of 2, though one transaction contains it |
| ItemsetMiner.EmptyInputPass | ass1.py:25-33 | with no transactions a pass returns an empty dict without dividing, and the mined map is empty |
| ItemsetMiner.NothingPastLongest | ass1.py:27 | past the longest transaction there are no combinations and a pass is empty |
| ItemsetMiner.SupportedFitsLongest | ass1.py:36-42 | with distinct items, a set contained in a transaction is no longer than the longest transaction |
| ItemsetMiner.MineFrom | ass1.py:35-42 | the map the length loop leaves is well formed, and positive when it starts positive |
| ItemsetMiner.MineStep | ass1.py:38-42 | a non-empty pass happens only at a length up to the longest transaction; it is merged and the loop goes on at the next length |
| ItemsetMiner.MineExtends | ass1.py:41 | merging never drops or reorders the starting keys |
| ItemsetMiner.EmptyInputMine | ass1.py:37-40 | with no transactions the loop stops at its first pass and leaves the map unchanged |
| ItemsetMiner.MineKeeps | ass1.py:41 | an entry that no later pass produces keeps its stored count |
| ItemsetMiner.MineKeepsShorter | ass1.py:41 | with distinct items, an entry shorter than the starting length is never overwritten |
| ItemsetMiner.SupportDominance | ass1.py:55 | a superset is contained in no more transactions than its subset |
| ItemsetMiner.Mine | ass1.py:35-42 | the map mined from an empty dict is well formed and every count in it is at least 1 |
| ItemsetMiner.MineSound | ass1.py:35-42 | with distinct items, each mined entry is either an unchanged starting entry, or a set of at least the starting length with its support as count and a ratio that reaches the threshold |
| ItemsetMiner.MineComplete | ass1.py:35-42 | with distinct items, each set of at least the starting length that is contained in a transaction and reaches the threshold is mined, with its support as count |
| ItemsetMiner.MinedExactly | ass1.py:35-42 | with distinct items, mining from an empty dict yields exactly the non-empty sets contained in a transaction whose support ratio reaches min_support, each with its support |
| RuleDeriver.IterationOrder | ass1.py:51 | one iteration order of a frozenset lists each of its elements exactly once |
| RuleDeriver.Confidence | ass1.py:55 | the ratio of the two counts is never negative, positive when the itemset's count is, and at most 1 when that count does not exceed the antecedent's |
| RuleDeriver.Candidate | ass1.py:54-59 | one combination gives at most one rule: only when both lookups succeed, with the combination's set as antecedent, the rest of the itemset as consequent, and the ratio as confidence, which reaches the threshold |
| RuleDeriver.Derive | ass1.py:51-59 | a run of combinations gives at most one rule per combination, each with the rest of the itemset as consequent and a confidence that reaches the threshold |
| RuleDeriver.DeriveOrigin | ass1.py:54-59 | every rule tried from a run of candidates comes from one candidate: both lookups succeed, the consequent is the rest of the itemset, the confidence is the ratio and reaches the threshold |
| RuleDeriver.DeriveComplete | ass1.py:54-59 | a candidate whose two lookups succeed and whose ratio reaches the threshold is appended, wherever it stands in the run |
| RuleDeriver.DeriveDistinct | ass1.py:51-59 | candidates that are pairwise different sets give rules with pairwise different antecedents |
| RuleDeriver.DeriveConcat | ass1.py:50-51 | trying two runs of candidates gives the rules of the first run followed by those of the second |
| RuleDeriver.DeriveSize | ass1.py:50-51 | the rules of size i follow those of smaller sizes |
| RuleDeriver.Antecedents | ass1.py:50-51 | the candidate tuples for the sizes 1 to size - 1 of an itemset of `size` items each have 1 to size - 1 items |
| RuleDeriver.DeriveSizesAscend | ass1.py:50-51 | with an order that repeats no item, the rules of an itemset come in ascending antecedent size, each antecedent smaller than the itemset |
| RuleDeriver.AntecedentShape | ass1.py:50-52 | with an order that repeats no item, every candidate antecedent is a subset of the itemset with 1 to \|I\| - 1 elements |
| RuleDeriver.AntecedentsCover | ass1.py:50-52 | every subset of the itemset with 1 to \|I\| - 1 elements is a candidate |
| RuleDeriver.AntecedentsSetsDistinct | ass1.py:50-52 | no two candidates are the same set |
| RuleDeriver.ItemsetRules | ass1.py:49-59 | for any iteration order, the rules of one itemset are exactly the rules of its qualifying antecedents (non-empty proper stored subsets whose ratio reaches min_confidence), each antecedent once |
| RuleDeriver.RuleParts | ass1.py:53 | a rule's antecedent and consequent are disjoint, non-empty and together form its itemset, which has at least two items |
| RuleDeriver.RulesFromCombinations | ass1.py:51-59 | the inner loop appends, in order, the rule of each combination whose lookups succeed and whose confidence reaches the threshold; a failed lookup skips only that combination |
| RuleDeriver.RulesOfSize | ass1.py:50-59 | one round of the outer loop appends the rules of the antecedents of size i after those of smaller sizes |
| RuleDeriver.RulesBySize | ass1.py:50-59 | the outer loop over sizes 1 to \|I\| - 1 yields the rules of all candidate antecedents; an itemset of size one or less yields none |
| RuleDeriver.RulesFromItemset | ass1.py:49-59 | for some iteration order of the frozenset, the rules found are exactly the qualifying rules of the itemset, each antecedent once, in ascending antecedent size |
| AprioriEngine.Apriori.constructor | ass1.py:8-13 | stores the thresholds, which default to 0.5 each, with no transactions, an empty dict and no rules |
| AprioriEngine.Apriori.LoadTransactions | ass1.py:21 | the transactions are replaced by the grouped ones |
| AprioriEngine.Apriori.GetFrequentItemsets | ass1.py:23-33 | returns the pass for the given length, well formed with positive counts, empty for no transactions or a length past the longest transaction |
| AprioriEngine.Apriori.GenerateAllFrequentItemsets | ass1.py:35-42 | the stored map becomes the starting map merged with every pass up to the first empty one; it keeps the old keys in front, stays positive, and is unchanged with no transactions |
| AprioriEngine.Apriori.GenerateAssociationRules | ass1.py:44-47 | only appends to the rules; each new rule is a qualifying rule of a stored itemset with more than one item; every qualifying rule of every stored itemset is appended; no rule twice; the new rules come key by key, in the stored order of the keys |
| AprioriEngine.Apriori.GenerateRulesFromItemset | ass1.py:49-59 | appends exactly the qualifying rules of the itemset, each antecedent once and in ascending antecedent size, after the rules already there |
| AprioriEngine.NewRulesDistinct | ass1.py:44-47 | the rules of a later stored key repeat no rule of earlier keys, because each key is listed once |
| AprioriEngine.NewRulesKeyOrdered | ass1.py:44-47 | appending the rules of the next stored key keeps the rules in key order: no rule follows a rule of a later key |
| AprioriEngine.ConfidenceInUnitInterval | ass1.py:55 | with distinct items, every rule derivable from the mined map has a confidence in (0, 1] |

## Left out

- Reading the CSV file is not part of this model. Lines 15-19 of
  `load_data` read it with pandas and keep the first `percent` of its rows.
  Line 21 groups those rows into one list of items per `TransactionNo` and
  assigns the lists to `self.transactions`. The grouping is taken as given:
  its result is the parameter of `LoadTransactions`, which models the
  assignment.
- The GUI, the `main` function and the `print_*` methods are not modelled.
  They are input and output only.
- Floating point: ratios are exact reals. A float division that rounds
  across a threshold can keep or drop an entry or rule differently from the
  model.
- The hash order of a frozenset is not modelled. `IterationOrder` picks an
  arbitrary order, and every rule property is proved for all orders. The
  antecedent sizes always ascend, as `range(1, len(itemset))` runs (line
  50); only the order of the rules within one antecedent size depends on
  that choice.
- A negative `itemset_length`, for which `combinations` raises `ValueError`,
  is not modelled. The parameter is a `nat`, and the class only ever passes
  1 and up.
- Appending one rule at a time is not modelled. The rules of one itemset
  are computed by value-level loops (`RulesFromCombinations`, `RulesOfSize`,
  `RulesBySize`) on a local list, then appended to `rules` in one step. The
  source appends them one at a time. Nothing reads `rules` in between, so
  the final state is the same.
- The inner counting loop of `get_frequent_itemsets` is the value-level
  method `CountCombinations`. It works on the local dict, which is a local
  variable in the source too.
- ConfidenceInUnitInterval: the bound is stated only for transactions
  without repeated items. With repeated items, a count is per occurrence
  and can be overwritten by a later pass (see `RepeatedItemCountedTwice`).
  The dominance argument then fails, and the model proves no bound.
