/**
  A Python dict from itemsets to counts. A dict remembers the order in
  which its keys were first inserted: `keys` holds that order and
  `counts` the values. Assigning to an existing key keeps its position;
  a new key goes to the end.
*/
module CountMaps {
  import opened Combinatorics

  datatype CountMap = CountMap(keys: seq<Itemset>, counts: map<Itemset, nat>) {

    /** Every key is listed once, and the list holds exactly the keys. */
    ghost predicate Valid() {
      Distinct(keys) && forall s :: s in counts <==> s in keys
    }

    /** Every stored count is at least one. */
    ghost predicate Positive() {
      forall s :: s in counts ==> counts[s] > 0
    }

    /** `d.get(s, default)` */
    function Get(s: Itemset, default: nat): (r: nat)
      ensures s in counts ==> r == counts[s]
      ensures s !in counts ==> r == default
    {
      if s in counts then counts[s] else default
    }

    /** `d[s] = v` */
    function Set(s: Itemset, v: nat): (r: CountMap)
      requires Valid()
      ensures r.Valid()
      ensures r.counts == counts[s := v]
      ensures |keys| <= |r.keys| <= |keys| + 1 && r.keys[..|keys|] == keys
    {
      if s in counts then CountMap(keys, counts[s := v])
      else CountMap(keys + [s], counts[s := v])
    }

    /** Assigns src[k] to each key k of ks, in the order of ks. */
    function SetAll(ks: seq<Itemset>, src: map<Itemset, nat>): (r: CountMap)
      requires Valid()
      requires forall s :: s in ks ==> s in src
      ensures r.Valid()
      ensures forall s :: s in r.counts <==> s in counts || s in ks
      ensures forall s :: s in r.counts ==> r.counts[s] == if s in ks then src[s] else counts[s]
      ensures |keys| <= |r.keys| && r.keys[..|keys|] == keys
      decreases |ks|
    {
      if ks == [] then this
      else
        var next := Set(ks[0], src[ks[0]]);
        var r := next.SetAll(ks[1..], src);
        assert forall s :: s in ks <==> s == ks[0] || s in ks[1..];
        PrefixTransitive(keys, next.keys, r.keys);
        r
    }

    /**
      Assigning the keys of a list without repetitions appends the keys
      that were new, in the order of the list.
    */
    lemma {:induction false} SetAllOrder(ks: seq<Itemset>, src: map<Itemset, nat>)
      requires Valid()
      requires forall s :: s in ks ==> s in src
      requires Distinct(ks)
      ensures SetAll(ks, src).keys == keys + NewKeys(ks, counts)
      decreases |ks|
    {
      if ks != [] {
        var next := Set(ks[0], src[ks[0]]);
        DistinctTail(ks);
        next.SetAllOrder(ks[1..], src);
        NewKeysFresh(ks[1..], counts, ks[0], src[ks[0]]);
        var head := if ks[0] in counts then [] else [ks[0]];
        assert next.keys == keys + head;
        assert NewKeys(ks, counts) == head + NewKeys(ks[1..], counts);
        assert SetAll(ks, src) == next.SetAll(ks[1..], src);
        AppendAssociative(keys, head, NewKeys(ks[1..], counts));
      }
    }

    /** `d.update(other)`: other's entries, in other's order, overwrite or extend d. */
    function UpdateWith(other: CountMap): (r: CountMap)
      requires Valid() && other.Valid()
      ensures r.Valid()
      ensures r.keys == keys + NewKeys(other.keys, counts)
      ensures forall s :: s in r.counts <==> s in counts || s in other.counts
      ensures forall s :: s in r.counts ==> r.counts[s] == if s in other.counts then other.counts[s] else counts[s]
      ensures |keys| <= |r.keys| && r.keys[..|keys|] == keys
      ensures Positive() && other.Positive() ==> r.Positive()
    {
      SetAllOrder(other.keys, other.counts);
      SetAll(other.keys, other.counts)
    }
  }

  /** Concatenation regroups freely. */
  lemma AppendAssociative<T>(a: seq<T>, b: seq<T>, c: seq<T>)
    ensures (a + b) + c == a + (b + c)
  {
  }

  /** The keys of ks that m lacks, in the order of ks. */
  function NewKeys(ks: seq<Itemset>, m: map<Itemset, nat>): seq<Itemset> {
    if ks == [] then []
    else (if ks[0] in m then [] else [ks[0]]) + NewKeys(ks[1..], m)
  }

  /** Assigning a key that ks does not list changes none of its new keys. */
  lemma {:induction false} NewKeysFresh(ks: seq<Itemset>, m: map<Itemset, nat>, x: Itemset, v: nat)
    requires x !in ks
    ensures NewKeys(ks, m[x := v]) == NewKeys(ks, m)
  {
    if ks != [] {
      NewKeysFresh(ks[1..], m, x, v);
    }
  }

  /** `{}` */
  const Empty: CountMap := CountMap([], map[])
}
