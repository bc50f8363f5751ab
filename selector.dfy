/** The merge selector: the most frequent pair, ties broken by the smallest concatenation. */
module Selector {
  import opened Strings
  import opened Pairs

  /** The string the pair merges into, which is also the tie-break key. */
  function Joined(p: Pair): string
  {
    p.0 + p.1
  }

  /**
   * `best` is an admissible choice: it has the highest count, and among the pairs
   * with that count its concatenation is lexicographically smallest.
   */
  ghost predicate IsMergeChoice(pairCounts: map<Pair, nat>, best: Pair)
  {
    && best in pairCounts
    && (forall p :: p in pairCounts ==> pairCounts[p] <= pairCounts[best])
    && (forall p :: p in pairCounts && pairCounts[p] == pairCounts[best] ==> LexLe(Joined(best), Joined(p)))
  }

  lemma {:induction false} MaxExists(values: set<nat>)
    requires values != {}
    ensures exists m :: m in values && forall v :: v in values ==> v <= m
    decreases |values|
  {
    var x :| x in values;
    if values != {x} {
      MaxExists(values - {x});
      var m :| m in values - {x} && forall v :: v in values - {x} ==> v <= m;
      var top := if x > m then x else m;
      forall v | v in values ensures v <= top {
        if v != x { assert v in values - {x}; }
      }
    } else {
      assert forall v :: v in values ==> v <= x;
    }
  }

  lemma {:induction false} LexMinExists(candidates: set<Pair>)
    requires candidates != {}
    ensures exists b :: b in candidates && forall q :: q in candidates ==> LexLe(Joined(b), Joined(q))
    decreases |candidates|
  {
    var x :| x in candidates;
    LexLeTotal(Joined(x), Joined(x));
    if candidates != {x} {
      var rest := candidates - {x};
      LexMinExists(rest);
      var m :| m in rest && forall q :: q in rest ==> LexLe(Joined(m), Joined(q));
      LexLeTotal(Joined(x), Joined(m));
      if LexLe(Joined(x), Joined(m)) {
        forall q | q in candidates ensures LexLe(Joined(x), Joined(q)) {
          if q != x {
            LexLeTransitive(Joined(x), Joined(m), Joined(q));
          }
        }
      } else {
        assert forall q :: q in candidates ==> LexLe(Joined(m), Joined(q));
      }
    } else {
      assert forall q :: q in candidates ==> q == x;
    }
  }

  /**
   * `choose_pair_to_merge`: the highest count, the pairs that have it, and the one
   * among them with the smallest concatenation.  Pairs with equal concatenations
   * (`("a", "bc")` and `("ab", "c")`) are left to an unspecified choice, as
   * Python leaves them to dictionary order.
   */
  method ChoosePairToMerge(pairCounts: map<Pair, nat>) returns (best: Pair)
    requires pairCounts != map[]
    ensures best in pairCounts
    ensures forall p :: p in pairCounts ==> pairCounts[p] <= pairCounts[best]
    ensures forall p :: p in pairCounts && pairCounts[p] == pairCounts[best] ==> LexLe(Joined(best), Joined(p))
  {
    var someKey :| someKey in pairCounts;
    assert pairCounts[someKey] in pairCounts.Values;
    MaxExists(pairCounts.Values);
    var bestCount :| bestCount in pairCounts.Values && forall c :: c in pairCounts.Values ==> c <= bestCount;
    var candidates := set p | p in pairCounts && pairCounts[p] == bestCount;
    var top :| top in pairCounts && pairCounts[top] == bestCount;
    assert top in candidates;
    LexMinExists(candidates);
    best :| best in candidates && forall q :: q in candidates ==> LexLe(Joined(best), Joined(q));
    forall p | p in pairCounts ensures pairCounts[p] <= bestCount {
      assert pairCounts[p] in pairCounts.Values;
    }
  }

  /** All admissible choices merge into the same symbol, so the vocabulary grows the same way. */
  lemma ChoiceDeterminesSymbol(pairCounts: map<Pair, nat>, p: Pair, q: Pair)
    requires IsMergeChoice(pairCounts, p) && IsMergeChoice(pairCounts, q)
    ensures Joined(p) == Joined(q)
  {
    LexLeAntisymmetric(Joined(p), Joined(q));
  }

  /**
   * The tie-break of the module's own documentation: `("ab", "out")` and
   * `("sp", "ite")` tied, and "about" is recorded before "spite".
   */
  lemma TieBreakExample(best: Pair)
    requires IsMergeChoice(map[("ab", "out") := 5, ("sp", "ite") := 5], best)
    ensures best == ("ab", "out")
  {
    assert Joined(("sp", "ite")) == "spite" && Joined(("ab", "out")) == "about";
    assert !LexLe("spite", "about");
  }
}
