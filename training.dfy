/** The training driver: pair counting over the cache and the merge loop of `train_tokenizer`. */
module Training {
  import opened Strings
  import opened Pairs
  import opened Segmenter
  import opened Tokenizer
  import opened Selector

  /** Sum over the words in `words` of the word's frequency times its occurrences of `p`. */
  ghost function WeightedCount(words: set<string>, freq: map<string, nat>, cache: map<string, seq<string>>, p: Pair): nat
    requires words <= freq.Keys && words <= cache.Keys
    decreases words
  {
    if words == {} then 0
    else
      var w :| w in words;
      Occurrences(cache[w], p) * freq[w] + WeightedCount(words - {w}, freq, cache, p)
  }

  /** Some word of `words` has `p` adjacent in its cached tokens. */
  ghost predicate OccursInSome(words: set<string>, cache: map<string, seq<string>>, p: Pair)
  {
    exists w :: w in words && w in cache && Occurrences(cache[w], p) > 0
  }

  /** The sum does not depend on the order in which the words are taken. */
  lemma {:induction false} WeightedCountRemove(words: set<string>, freq: map<string, nat>, cache: map<string, seq<string>>,
                                               p: Pair, x: string)
    requires words <= freq.Keys && words <= cache.Keys && x in words
    ensures WeightedCount(words, freq, cache, p)
         == Occurrences(cache[x], p) * freq[x] + WeightedCount(words - {x}, freq, cache, p)
    decreases words
  {
    var w :| w in words && WeightedCount(words, freq, cache, p)
                           == Occurrences(cache[w], p) * freq[w] + WeightedCount(words - {w}, freq, cache, p);
    if w != x {
      WeightedCountRemove(words - {w}, freq, cache, p, x);
      WeightedCountRemove(words - {x}, freq, cache, p, w);
      assert words - {w} - {x} == words - {x} - {w};
    }
  }

  /** Counting one more word adds its own weighted occurrences of `p`. */
  lemma AddWord(done: set<string>, freq: map<string, nat>, cache: map<string, seq<string>>, x: string, p: Pair)
    requires done <= freq.Keys && done <= cache.Keys && x in freq && x in cache && x !in done
    ensures WeightedCount(done + {x}, freq, cache, p)
         == WeightedCount(done, freq, cache, p) + Occurrences(cache[x], p) * freq[x]
    ensures OccursInSome(done + {x}, cache, p) <==> OccursInSome(done, cache, p) || Occurrences(cache[x], p) > 0
  {
    WeightedCountRemove(done + {x}, freq, cache, p, x);
    assert done + {x} - {x} == done;
  }

  /**
   * The inner loop of pair counting: add each pair of one word, times the word's
   * frequency, to the running totals, creating the totals that do not exist yet.
   */
  method AccumulatePairs(pairCounts: map<Pair, nat>, perWordPairs: map<Pair, nat>, freq: nat)
    returns (totals: map<Pair, nat>)
    ensures totals.Keys == pairCounts.Keys + perWordPairs.Keys
    ensures forall p :: p in totals ==>
              totals[p] == (if p in pairCounts then pairCounts[p] else 0)
                           + (if p in perWordPairs then perWordPairs[p] * freq else 0)
  {
    totals := pairCounts;
    var pending := perWordPairs.Keys;
    while pending != {}
      invariant pending <= perWordPairs.Keys
      invariant totals.Keys == pairCounts.Keys + (perWordPairs.Keys - pending)
      invariant forall p :: p in totals ==>
                  totals[p] == (if p in pairCounts then pairCounts[p] else 0)
                               + (if p in perWordPairs && p !in pending then perWordPairs[p] * freq else 0)
      decreases pending
    {
      var pair :| pair in pending;
      var countInWord := perWordPairs[pair];
      totals := totals[pair := (if pair in totals then totals[pair] else 0) + countInWord * freq];
      pending := pending - {pair};
    }
  }

  /** The totals are the weighted pair counts over the words in `done`. */
  ghost predicate CountsOver(pairCounts: map<Pair, nat>, done: set<string>, freq: map<string, nat>,
                             cache: map<string, seq<string>>)
    requires done <= freq.Keys && done <= cache.Keys
  {
    && (forall p :: p in pairCounts <==> OccursInSome(done, cache, p))
    && (forall p :: p in pairCounts ==> pairCounts[p] == WeightedCount(done, freq, cache, p))
    && (forall p :: p !in pairCounts ==> WeightedCount(done, freq, cache, p) == 0)
  }

  /** Adding one word's pair counts, times its frequency, counts that word too. */
  lemma CountPairsStep(pairCounts: map<Pair, nat>, totals: map<Pair, nat>, done: set<string>,
                       freq: map<string, nat>, cache: map<string, seq<string>>, word: string)
    requires done <= freq.Keys && done <= cache.Keys && word in freq && word in cache && word !in done
    requires CountsOver(pairCounts, done, freq, cache)
    requires totals.Keys == pairCounts.Keys + AdjacentCounts(cache[word]).Keys
    requires forall p :: p in totals ==>
               totals[p] == (if p in pairCounts then pairCounts[p] else 0)
                            + (if p in AdjacentCounts(cache[word]) then AdjacentCounts(cache[word])[p] * freq[word] else 0)
    ensures CountsOver(totals, done + {word}, freq, cache)
  {
    var perWordPairs := AdjacentCounts(cache[word]);
    forall p
      ensures p in totals <==> OccursInSome(done + {word}, cache, p)
      ensures p in totals ==> totals[p] == WeightedCount(done + {word}, freq, cache, p)
      ensures p !in totals ==> WeightedCount(done + {word}, freq, cache, p) == 0
    {
      AddWord(done, freq, cache, word, p);
      assert p in perWordPairs <==> Occurrences(cache[word], p) > 0;
      assert p !in pairCounts ==> WeightedCount(done, freq, cache, p) == 0;
    }
  }

  /**
   * The pair-counting loop: every adjacent pair of every word's cached tokens,
   * weighted by the word's frequency.  A pair is a key exactly when it occurs in
   * some word's tokens, so words with fewer than two tokens contribute nothing.
   */
  method CountPairs(freq: map<string, nat>, cache: map<string, seq<string>>) returns (pairCounts: map<Pair, nat>)
    requires freq.Keys <= cache.Keys
    ensures forall p :: p in pairCounts <==> OccursInSome(freq.Keys, cache, p)
    ensures forall p :: p in pairCounts ==> pairCounts[p] == WeightedCount(freq.Keys, freq, cache, p)
  {
    pairCounts := map[];
    ghost var done: set<string> := {};
    var pending := freq.Keys;
    while pending != {}
      invariant pending <= freq.Keys && done == freq.Keys - pending
      invariant CountsOver(pairCounts, done, freq, cache)
      decreases pending
    {
      var word :| word in pending;
      var tokens := cache[word];
      var perWordPairs := AdjacentCounts(tokens);
      ghost var before := pairCounts;
      pairCounts := AccumulatePairs(pairCounts, perWordPairs, freq[word]);
      CountPairsStep(before, pairCounts, done, freq, cache, word);
      done := done + {word};
      pending := pending - {word};
    }
    assert done == freq.Keys;
  }

  /** No cached tokenization has two or more tokens, so there is no pair left to merge. */
  ghost predicate Exhausted(cache: map<string, seq<string>>)
  {
    forall w :: w in cache ==> |cache[w]| < 2
  }

  /** An empty pair count means every cached tokenization has fewer than two tokens. */
  lemma NoPairsMeansExhausted(freq: map<string, nat>, cache: map<string, seq<string>>)
    requires freq.Keys == cache.Keys
    requires forall p :: !OccursInSome(freq.Keys, cache, p)
    ensures Exhausted(cache)
  {
    forall w | w in cache ensures |cache[w]| < 2 {
      if |cache[w]| >= 2 {
        var p := (cache[w][0], cache[w][1]);
        assert Occurrences(cache[w], p) > 0;
        assert OccursInSome(freq.Keys, cache, p);
      }
    }
  }

  /** Conversely, once every tokenization has fewer than two tokens no pair occurs anywhere. */
  lemma ExhaustedMeansNoPairs(freq: map<string, nat>, cache: map<string, seq<string>>, p: Pair)
    requires Exhausted(cache)
    ensures !OccursInSome(freq.Keys, cache, p)
  {
    forall w | w in freq.Keys && w in cache ensures Occurrences(cache[w], p) == 0 {
      assert |cache[w]| < 2;
    }
  }

  /** The tokenization cache before the first merge: every distinct word tokenized once. */
  function InitialCache(words: set<string>, sortedVocab: seq<string>): (cache: map<string, seq<string>>)
    requires NonEmptySymbols(sortedVocab)
    ensures cache.Keys == words
    ensures forall w :: w in cache ==> cache[w] == Tokenize(w, sortedVocab)
    ensures forall w :: w in cache ==> Concat(cache[w]) == w && NonEmptySymbols(cache[w])
  {
    var cache := map w | w in words :: Tokenize(w, sortedVocab);
    assert forall w :: w in cache ==> Concat(cache[w]) == w && NonEmptySymbols(cache[w]) by {
      forall w | w in cache ensures Concat(cache[w]) == w && NonEmptySymbols(cache[w]) {
        TokenizeConcat(w, sortedVocab);
      }
    }
    cache
  }

  /** All pairs of strings taken from `s`. */
  ghost function PairsOf(s: set<string>): set<Pair>
  {
    set x, y | x in s && y in s :: (x, y)
  }

  /** A pair found adjacent in the tokens of a word is a pair of non-empty substrings of that word. */
  lemma AdjacentPairIsCandidate(words: set<string>, w: string, tokens: seq<string>, p: Pair)
    requires w in words && Concat(tokens) == w && NonEmptySymbols(tokens)
    requires Occurrences(tokens, p) > 0
    ensures p.0 != [] && p.1 != []
    ensures p in PairsOf(Substrings(words))
  {
    OccurrencesPositive(tokens, p);
    var i :| 0 <= i < |tokens| - 1 && tokens[i] == p.0 && tokens[i + 1] == p.1;
    PieceIsSubstring(w, tokens, i);
    PieceIsSubstring(w, tokens, i + 1);
    assert Substrings({w}) <= Substrings(words);
  }

  /**
   * One cache entry after the merge of `pair`: fold the pair into the old tokens
   * and, if that changed them, tokenize the word afresh with the new vocabulary;
   * otherwise keep the old tokens.
   */
  function Refreshed(tokens: seq<string>, word: string, pair: Pair, sortedVocab: seq<string>): seq<string>
    requires NonEmptySymbols(sortedVocab)
  {
    if Fold(tokens, pair.0, pair.1, Joined(pair)) != tokens then Tokenize(word, sortedVocab) else tokens
  }

  /** Every merge so far has its symbol in the vocabulary and two non-empty halves. */
  ghost predicate MergesCovered(merges: seq<Pair>, sortedVocab: seq<string>)
  {
    forall i :: 0 <= i < |merges| ==> Joined(merges[i]) in sortedVocab && merges[i].0 != [] && merges[i].1 != []
  }

  /** None of the merged pairs occurs adjacent in `tokens`. */
  ghost predicate AvoidsMerged(tokens: seq<string>, merges: seq<Pair>)
  {
    forall i :: 0 <= i < |merges| ==> !HasPair(tokens, merges[i].0, merges[i].1)
  }

  /**
   * The cache update keeps each entry a tokenization of its word, and after it
   * no merged pair, the new one included, occurs adjacent in any entry.
   */
  lemma RefreshedKeepsInvariant(tokens: seq<string>, word: string, merges: seq<Pair>, pair: Pair, sortedVocab: seq<string>)
    requires NonEmptySymbols(sortedVocab) && SortedByLength(sortedVocab)
    requires Concat(tokens) == word && NonEmptySymbols(tokens)
    requires MergesCovered(merges + [pair], sortedVocab)
    requires AvoidsMerged(tokens, merges)
    ensures Concat(Refreshed(tokens, word, pair, sortedVocab)) == word
    ensures NonEmptySymbols(Refreshed(tokens, word, pair, sortedVocab))
    ensures AvoidsMerged(Refreshed(tokens, word, pair, sortedVocab), merges + [pair])
  {
    var all := merges + [pair];
    var r := Refreshed(tokens, word, pair, sortedVocab);
    if Fold(tokens, pair.0, pair.1, Joined(pair)) != tokens {
      TokenizeConcat(word, sortedVocab);
      forall i | 0 <= i < |all| ensures !HasPair(r, all[i].0, all[i].1) {
        TokenizeAvoidsPair(word, sortedVocab, all[i].0, all[i].1);
      }
    } else {
      FoldUnchanged(tokens, pair.0, pair.1, Joined(pair));
      forall i | 0 <= i < |all| ensures !HasPair(r, all[i].0, all[i].1) {
        if i < |merges| { assert all[i] == merges[i]; }
      }
    }
  }

  /** The sorted vocabulary is longest-first, has only non-empty symbols and holds every symbol. */
  lemma SortedVocabSymbols(vocab: seq<string>)
    requires NonEmptySymbols(vocab)
    ensures SortedByLength(SortByLength(vocab))
    ensures NonEmptySymbols(SortByLength(vocab))
    ensures forall s :: s in vocab ==> s in SortByLength(vocab)
  {
    SortByLengthCorrect(vocab);
    var sorted := SortByLength(vocab);
    forall s | s in vocab ensures s in sorted {
      assert s in multiset(vocab);
    }
  }

  /** The cache after the merge of `pair`: every entry refreshed. */
  function RefreshedCache(cache: map<string, seq<string>>, pair: Pair, sortedVocab: seq<string>): (r: map<string, seq<string>>)
    requires NonEmptySymbols(sortedVocab)
    ensures r.Keys == cache.Keys
  {
    map w | w in cache :: Refreshed(cache[w], w, pair, sortedVocab)
  }

  /** The sorted vocabulary after merging `("b", "c")` and then `("a", "b")` into the base `a`, `b`, `c`. */
  lemma ExampleVocabularies()
    ensures SortByLength(["a", "b", "c", "bc"]) == ["bc", "a", "b", "c"]
    ensures SortByLength(["a", "b", "c", "bc", "ab"]) == ["bc", "ab", "a", "b", "c"]
  {
    assert SortByLength(["c", "bc"]) == ["bc", "c"];
    assert SortByLength(["c", "bc", "ab"]) == ["bc", "ab", "c"];
  }

  /** "abc" tokenized with the vocabulary after the first merge. */
  lemma ExampleFirstTokens()
    ensures Tokenize("abc", ["bc", "a", "b", "c"]) == ["a", "bc"]
  {
    var v := ["bc", "a", "b", "c"];
    assert FirstMatch(v, "abc") == 1 by {
      assert "abc"[..2][0] != "bc"[0];
      assert "abc"[..1] == "a";
    }
    assert "abc"[1..] == "bc";
    assert FirstMatch(v, "bc") == 0 by {
      assert "bc"[..2] == "bc";
    }
    assert "bc"[2..] == "";
  }

  /** "abc" tokenized afresh with the vocabulary after the second merge. */
  lemma ExampleFreshTokens()
    ensures Tokenize("abc", ["bc", "ab", "a", "b", "c"]) == ["ab", "c"]
  {
    var v := ["bc", "ab", "a", "b", "c"];
    assert FirstMatch(v, "abc") == 1 by {
      assert "abc"[..2][0] != "bc"[0];
      assert "abc"[..2] == "ab";
    }
    assert "abc"[2..] == "c";
    assert FirstMatch(v, "c") == 4 by {
      assert "c"[..1][0] != "a"[0] && "c"[..1][0] != "b"[0];
      assert "c"[..1] == "c";
      assert FirstMatch(v[4..], "c") == 0;
      assert !IsPrefix(v[3], "c") && !IsPrefix(v[2], "c");
    }
    assert "c"[1..] == "";
  }

  /**
   * The cache update is not a fresh tokenization.  With base symbols `a`, `b`,
   * `c`, merging `("b", "c")` tokenizes "abc" as `a`, `bc`; merging `("a", "b")`
   * next leaves that entry alone, because the fold finds no adjacent `a`, `b`,
   * although tokenizing "abc" afresh with the grown vocabulary gives `ab`, `c`.
   * The two symbol lists are the sorted vocabularies of `ExampleVocabularies`.
   */
  lemma StaleEntryExample()
    ensures Tokenize("abc", ["bc", "a", "b", "c"]) == ["a", "bc"]
    ensures Refreshed(["a", "bc"], "abc", ("a", "b"), ["bc", "ab", "a", "b", "c"]) == ["a", "bc"]
    ensures Tokenize("abc", ["bc", "ab", "a", "b", "c"]) == ["ab", "c"]
  {
    ExampleFirstTokens();
    ExampleFreshTokens();
    assert Fold(["a", "bc"], "a", "b", "ab") == ["a", "bc"] by {
      assert Fold(["bc"], "a", "b", "ab") == ["bc"];
    }
  }

  /** The vocabulary is the base symbols followed by one merged symbol per merge, all non-empty. */
  ghost predicate VocabMatchesMerges(vocab: seq<string>, merges: seq<Pair>, baseSize: nat)
  {
    && |vocab| == baseSize + |merges|
    && (forall i :: 0 <= i < |merges| ==> vocab[baseSize + i] == Joined(merges[i]))
    && NonEmptySymbols(vocab)
  }

  /** Every cache entry tokenizes its word into non-empty pieces and holds no merged pair. */
  ghost predicate CacheValid(cache: map<string, seq<string>>, merges: seq<Pair>)
  {
    && (forall w :: w in cache ==> Concat(cache[w]) == w && NonEmptySymbols(cache[w]))
    && (forall w :: w in cache ==> AvoidsMerged(cache[w], merges))
  }

  /** The merges are distinct candidates with non-empty halves. */
  ghost predicate MergesValid(merges: seq<Pair>, candidates: set<Pair>)
  {
    && (forall i :: 0 <= i < |merges| ==> merges[i].0 != [] && merges[i].1 != [])
    && (forall i :: 0 <= i < |merges| ==> merges[i] in candidates)
    && (forall i, j :: 0 <= i < j < |merges| ==> merges[i] != merges[j])
  }

  /**
   * The invariant of the training state: the vocabulary is the base symbols and
   * then one merged symbol per merge, it is sorted into `sortedVocab`, every
   * cache entry tokenizes its word and holds no merged pair, and the merges are
   * distinct pairs of non-empty substrings of the words.
   */
  ghost predicate ValidState(vocab: seq<string>, merges: seq<Pair>, freq: map<string, nat>,
                             cache: map<string, seq<string>>, sortedVocab: seq<string>,
                             baseSize: nat, candidates: set<Pair>)
  {
    && VocabMatchesMerges(vocab, merges, baseSize)
    && sortedVocab == SortByLength(vocab)
    && cache.Keys == freq.Keys
    && CacheValid(cache, merges)
    && candidates == PairsOf(Substrings(freq.Keys))
    && MergesValid(merges, candidates)
  }

  /** A pair that occurs in a valid cache is a candidate, has non-empty halves and was never merged. */
  lemma OccurringPairIsNew(freq: map<string, nat>, cache: map<string, seq<string>>, merges: seq<Pair>, p: Pair)
    requires cache.Keys == freq.Keys && CacheValid(cache, merges)
    requires OccursInSome(freq.Keys, cache, p)
    ensures p.0 != [] && p.1 != [] && p in PairsOf(Substrings(freq.Keys)) && p !in merges
  {
    var w :| w in freq.Keys && w in cache && Occurrences(cache[w], p) > 0;
    AdjacentPairIsCandidate(freq.Keys, w, cache[w], p);
    OccurrencesPositive(cache[w], p);
    forall i | 0 <= i < |merges| ensures merges[i] != p {
      assert !HasPair(cache[w], merges[i].0, merges[i].1);
    }
  }

  /** Recording a new merge keeps the vocabulary and the merge list in step. */
  lemma RecordKeepsVocab(vocab: seq<string>, merges: seq<Pair>, baseSize: nat, candidates: set<Pair>, best: Pair)
    requires VocabMatchesMerges(vocab, merges, baseSize) && MergesValid(merges, candidates)
    requires best.0 != [] && best.1 != [] && best in candidates && best !in merges
    ensures VocabMatchesMerges(vocab + [Joined(best)], merges + [best], baseSize)
    ensures MergesValid(merges + [best], candidates)
    ensures MergesCovered(merges + [best], SortByLength(vocab + [Joined(best)]))
  {
    var vocab' := vocab + [Joined(best)];
    var merges' := merges + [best];
    assert NonEmptySymbols(vocab');
    SortedVocabSymbols(vocab');
    forall i | 0 <= i < |merges'| ensures Joined(merges'[i]) in SortByLength(vocab') {
      assert vocab'[baseSize + i] in vocab';
    }
  }

  /** Refreshing every entry after a covered merge keeps the cache valid for the longer merge list. */
  lemma RefreshKeepsCache(cache: map<string, seq<string>>, merges: seq<Pair>, best: Pair, sortedVocab: seq<string>)
    requires NonEmptySymbols(sortedVocab) && SortedByLength(sortedVocab)
    requires CacheValid(cache, merges)
    requires MergesCovered(merges + [best], sortedVocab)
    ensures CacheValid(RefreshedCache(cache, best, sortedVocab), merges + [best])
  {
    var cache' := RefreshedCache(cache, best, sortedVocab);
    forall w | w in cache'
      ensures Concat(cache'[w]) == w && NonEmptySymbols(cache'[w]) && AvoidsMerged(cache'[w], merges + [best])
    {
      RefreshedKeepsInvariant(cache[w], w, merges, best, sortedVocab);
    }
  }

  /** One merge step, with the vocabulary re-sorted and the cache refreshed, keeps the invariant. */
  lemma MergeStepKeepsValid(vocab: seq<string>, merges: seq<Pair>, freq: map<string, nat>,
                            cache: map<string, seq<string>>, sortedVocab: seq<string>, baseSize: nat,
                            candidates: set<Pair>, best: Pair,
                            vocab': seq<string>, merges': seq<Pair>, cache': map<string, seq<string>>,
                            sortedVocab': seq<string>)
    requires ValidState(vocab, merges, freq, cache, sortedVocab, baseSize, candidates)
    requires OccursInSome(freq.Keys, cache, best)
    requires vocab' == vocab + [Joined(best)] && merges' == merges + [best]
    requires sortedVocab' == SortByLength(vocab')
    requires NonEmptySymbols(sortedVocab') && cache' == RefreshedCache(cache, best, sortedVocab')
    ensures ValidState(vocab', merges', freq, cache', sortedVocab', baseSize, candidates)
  {
    OccurringPairIsNew(freq, cache, merges, best);
    RecordKeepsVocab(vocab, merges, baseSize, candidates, best);
    SortedVocabSymbols(vocab');
    RefreshKeepsCache(cache, merges, best, sortedVocab');
  }

  /** Adding the symbol of a pair with a non-empty half keeps every symbol non-empty, sorted or not. */
  lemma GrownVocabSymbols(vocab: seq<string>, best: Pair)
    requires NonEmptySymbols(vocab) && best.0 != []
    ensures NonEmptySymbols(vocab + [Joined(best)])
    ensures NonEmptySymbols(SortByLength(vocab + [Joined(best)]))
  {
    assert NonEmptySymbols(vocab + [Joined(best)]);
    SortedVocabSymbols(vocab + [Joined(best)]);
  }

  /** The pairs merged so far, as a set. */
  ghost function MergedPairs(merges: seq<Pair>): set<Pair>
  {
    set p | p in merges
  }

  /** Merging a new candidate leaves one candidate fewer unmerged. */
  lemma UnmergedShrinks(merges: seq<Pair>, best: Pair, candidates: set<Pair>)
    requires best in candidates && best !in merges
    ensures |candidates - MergedPairs(merges + [best])| < |candidates - MergedPairs(merges)|
  {
    assert MergedPairs(merges + [best]) == MergedPairs(merges) + {best};
    assert candidates - MergedPairs(merges + [best]) == (candidates - MergedPairs(merges)) - {best};
  }

  /** Appending to a sequence keeps its prefixes. */
  lemma PrefixExtends(prefix: seq<string>, s: seq<string>, x: string)
    requires prefix <= s
    ensures prefix <= s + [x]
  {
    assert (s + [x])[..|prefix|] == s[..|prefix|];
  }

  /**
   * `best` is what a round of the loop merges when the cache is `cache`: a pair
   * that occurs somewhere, with the highest weighted count, and among the pairs
   * with that count the one with the smallest concatenation.
   */
  ghost predicate GreedyChoice(freq: map<string, nat>, cache: map<string, seq<string>>, best: Pair)
    requires freq.Keys <= cache.Keys
  {
    && OccursInSome(freq.Keys, cache, best)
    && (forall p :: OccursInSome(freq.Keys, cache, p) ==>
          WeightedCount(freq.Keys, freq, cache, p) <= WeightedCount(freq.Keys, freq, cache, best))
    && (forall p ::
          OccursInSome(freq.Keys, cache, p) &&
          WeightedCount(freq.Keys, freq, cache, p) == WeightedCount(freq.Keys, freq, cache, best)
          ==> LexLe(Joined(best), Joined(p)))
  }

  /** One round of the loop: merge a greedy choice, then refresh the cache with the re-sorted vocabulary. */
  ghost predicate Round(freq: map<string, nat>, cache: map<string, seq<string>>, best: Pair,
                        sortedVocab': seq<string>, cache': map<string, seq<string>>)
  {
    && freq.Keys <= cache.Keys
    && GreedyChoice(freq, cache, best)
    && NonEmptySymbols(sortedVocab')
    && cache' == RefreshedCache(cache, best, sortedVocab')
  }

  /**
   * `caches` is the trace of a run that produced `merges`: the cache before each
   * round and after the last one.  It starts from the base vocabulary's
   * tokenization, and round `i` merges `merges[i]` with the vocabulary grown to
   * its first `baseSize + i + 1` symbols.
   */
  ghost predicate IsRun(freq: map<string, nat>, vocab: seq<string>, baseSize: nat, merges: seq<Pair>,
                        caches: seq<map<string, seq<string>>>)
  {
    && |caches| == |merges| + 1
    && baseSize + |merges| <= |vocab|
    && NonEmptySymbols(SortByLength(vocab[..baseSize]))
    && caches[0] == InitialCache(freq.Keys, SortByLength(vocab[..baseSize]))
    && (forall i :: 0 <= i < |merges| ==>
          Round(freq, caches[i], merges[i], SortByLength(vocab[..baseSize + i + 1]), caches[i + 1]))
  }

  /** The counted pairs and the selector's choice make a greedy choice. */
  lemma ChosenIsGreedy(freq: map<string, nat>, cache: map<string, seq<string>>, pairCounts: map<Pair, nat>, best: Pair)
    requires freq.Keys <= cache.Keys
    requires forall p :: p in pairCounts <==> OccursInSome(freq.Keys, cache, p)
    requires forall p :: p in pairCounts ==> pairCounts[p] == WeightedCount(freq.Keys, freq, cache, p)
    requires best in pairCounts
    requires forall p :: p in pairCounts ==> pairCounts[p] <= pairCounts[best]
    requires forall p :: p in pairCounts && pairCounts[p] == pairCounts[best] ==> LexLe(Joined(best), Joined(p))
    ensures GreedyChoice(freq, cache, best)
  {
  }

  /** The trace of a run with no merge yet. */
  lemma InitialRun(freq: map<string, nat>, baseVocabulary: seq<string>)
    requires NonEmptySymbols(SortByLength(baseVocabulary))
    ensures IsRun(freq, baseVocabulary, |baseVocabulary|, [],
                  [InitialCache(freq.Keys, SortByLength(baseVocabulary))])
  {
    assert baseVocabulary[..|baseVocabulary|] == baseVocabulary;
  }

  /** Round `i` of a run, read in the run extended by one round. */
  lemma ExtendedRound(freq: map<string, nat>, vocab: seq<string>, baseSize: nat, merges: seq<Pair>,
                      caches: seq<map<string, seq<string>>>, best: Pair, cache': map<string, seq<string>>, i: nat)
    requires IsRun(freq, vocab, baseSize, merges, caches) && |vocab| == baseSize + |merges|
    requires Round(freq, caches[|merges|], best, SortByLength(vocab + [Joined(best)]), cache')
    requires i <= |merges|
    ensures Round(freq, (caches + [cache'])[i], (merges + [best])[i],
                  SortByLength((vocab + [Joined(best)])[..baseSize + i + 1]), (caches + [cache'])[i + 1])
  {
    var vocab' := vocab + [Joined(best)];
    if i < |merges| {
      assert vocab'[..baseSize + i + 1] == vocab[..baseSize + i + 1];
      assert (caches + [cache'])[i] == caches[i] && (caches + [cache'])[i + 1] == caches[i + 1];
      assert (merges + [best])[i] == merges[i];
    } else {
      assert vocab'[..baseSize + i + 1] == vocab';
    }
  }

  /** A round appended to a run whose vocabulary grows by the merged symbol is again a run. */
  lemma RunExtends(freq: map<string, nat>, vocab: seq<string>, baseSize: nat, merges: seq<Pair>,
                   caches: seq<map<string, seq<string>>>, cache: map<string, seq<string>>, best: Pair,
                   cache': map<string, seq<string>>)
    requires IsRun(freq, vocab, baseSize, merges, caches) && caches[|merges|] == cache
    requires VocabMatchesMerges(vocab, merges, baseSize)
    requires freq.Keys <= cache.Keys && GreedyChoice(freq, cache, best)
    requires NonEmptySymbols(SortByLength(vocab + [Joined(best)]))
    requires cache' == RefreshedCache(cache, best, SortByLength(vocab + [Joined(best)]))
    ensures IsRun(freq, vocab + [Joined(best)], baseSize, merges + [best], caches + [cache'])
    ensures (caches + [cache'])[|merges + [best]|] == cache'
  {
    assert (vocab + [Joined(best)])[..baseSize] == vocab[..baseSize];
    forall i | 0 <= i < |merges + [best]|
      ensures Round(freq, (caches + [cache'])[i], (merges + [best])[i],
                    SortByLength((vocab + [Joined(best)])[..baseSize + i + 1]), (caches + [cache'])[i + 1])
    {
      ExtendedRound(freq, vocab, baseSize, merges, caches, best, cache', i);
    }
  }

  /** The state before the first merge satisfies the invariant. */
  lemma InitialStateValid(freq: map<string, nat>, baseVocabulary: seq<string>)
    requires NonEmptySymbols(baseVocabulary)
    ensures NonEmptySymbols(SortByLength(baseVocabulary))
    ensures ValidState(baseVocabulary, [], freq, InitialCache(freq.Keys, SortByLength(baseVocabulary)),
                       SortByLength(baseVocabulary), |baseVocabulary|, PairsOf(Substrings(freq.Keys)))
  {
    SortedVocabSymbols(baseVocabulary);
    var cache := InitialCache(freq.Keys, SortByLength(baseVocabulary));
    assert CacheValid(cache, []);
  }

  /** `merge`: append the merged symbol to the vocabulary and the pair to the merge list. */
  method Merge(pair: Pair, vocabulary: seq<string>, mergeList: seq<Pair>)
    returns (vocabulary': seq<string>, mergeList': seq<Pair>)
    ensures vocabulary' == vocabulary + [Joined(pair)]
    ensures mergeList' == mergeList + [pair]
  {
    var merged := pair.0 + pair.1;
    vocabulary' := vocabulary + [merged];
    mergeList' := mergeList + [pair];
  }

  /**
   * The cache-refresh loop of `train_tokenizer`: visit every word once and
   * store the entry that `Refreshed` describes.
   */
  method RefreshCache(cache: map<string, seq<string>>, pair: Pair, sortedVocab: seq<string>)
    returns (refreshed: map<string, seq<string>>)
    requires NonEmptySymbols(sortedVocab)
    ensures refreshed == RefreshedCache(cache, pair, sortedVocab)
  {
    refreshed := cache;
    var mergedTokens := pair.0 + pair.1;
    var pending := cache.Keys;
    while pending != {}
      invariant pending <= cache.Keys && refreshed.Keys == cache.Keys
      invariant forall w :: w in cache && w !in pending ==> refreshed[w] == Refreshed(cache[w], w, pair, sortedVocab)
      invariant forall w :: w in pending ==> refreshed[w] == cache[w]
      decreases pending
    {
      var word :| word in pending;
      var oldTokens := cache[word];
      var newTokens := ApplyMergeToTokens(oldTokens, pair, mergedTokens);
      if newTokens != oldTokens {
        var retokenized := SplitAlongVocab(word, sortedVocab);
        refreshed := refreshed[word := retokenized];
      } else {
        refreshed := refreshed[word := oldTokens];
      }
      pending := pending - {word};
    }
  }

  /**
   * The training loop of `train_tokenizer`, from the word-frequency table on:
   * count pairs, stop when none is left, otherwise merge the chosen pair,
   * re-sort the vocabulary and refresh the cache, until the vocabulary has
   * `vocabSize` symbols.  `cache` is the final tokenization cache.
   */
  method TrainFromFrequencies(wordFrequencies: map<string, nat>, vocabSize: int, baseVocabulary: seq<string>)
    returns (vocab: seq<string>, merges: seq<Pair>, ghost caches: seq<map<string, seq<string>>>)
    requires NonEmptySymbols(baseVocabulary)
    ensures IsRun(wordFrequencies, vocab, |baseVocabulary|, merges, caches)
    ensures ValidState(vocab, merges, wordFrequencies, caches[|merges|], SortByLength(vocab), |baseVocabulary|,
                       PairsOf(Substrings(wordFrequencies.Keys)))
    ensures baseVocabulary <= vocab
    ensures |vocab| == vocabSize || Exhausted(caches[|merges|])
    ensures |baseVocabulary| <= vocabSize ==> |vocab| <= vocabSize
    ensures vocabSize == |baseVocabulary| ==> vocab == baseVocabulary && merges == []
  {
    merges := [];
    vocab := baseVocabulary;
    var sortedVocab := SortByLength(vocab);
    InitialStateValid(wordFrequencies, baseVocabulary);
    var tokenizedCache := InitialCache(wordFrequencies.Keys, sortedVocab);
    ghost var candidates := PairsOf(Substrings(wordFrequencies.Keys));
    InitialRun(wordFrequencies, baseVocabulary);
    caches := [tokenizedCache];
    while |vocab| != vocabSize
      invariant IsRun(wordFrequencies, vocab, |baseVocabulary|, merges, caches) && caches[|merges|] == tokenizedCache
      invariant ValidState(vocab, merges, wordFrequencies, tokenizedCache, sortedVocab, |baseVocabulary|, candidates)
      invariant baseVocabulary <= vocab
      invariant |baseVocabulary| <= vocabSize ==> |vocab| <= vocabSize
      decreases |candidates - MergedPairs(merges)|
    {
      var pairCounts := CountPairs(wordFrequencies, tokenizedCache);
      if pairCounts == map[] {
        NoPairsMeansExhausted(wordFrequencies, tokenizedCache);
        break;
      }
      var best := ChoosePairToMerge(pairCounts);
      ChosenIsGreedy(wordFrequencies, tokenizedCache, pairCounts, best);
      OccurringPairIsNew(wordFrequencies, tokenizedCache, merges, best);
      UnmergedShrinks(merges, best, candidates);
      GrownVocabSymbols(vocab, best);
      ghost var (vocab0, merges0, cache0, sorted0) := (vocab, merges, tokenizedCache, sortedVocab);
      vocab, merges := Merge(best, vocab, merges);
      sortedVocab := SortByLength(vocab);
      tokenizedCache := RefreshCache(tokenizedCache, best, sortedVocab);
      MergeStepKeepsValid(vocab0, merges0, wordFrequencies, cache0, sorted0, |baseVocabulary|, candidates, best,
                          vocab, merges, tokenizedCache, sortedVocab);
      PrefixExtends(baseVocabulary, vocab0, Joined(best));
      RunExtends(wordFrequencies, vocab0, |baseVocabulary|, merges0, caches, cache0, best, tokenizedCache);
      caches := caches + [tokenizedCache];
    }
  }

  /**
   * `train_tokenizer` without its file and log I/O: segment the corpus, count
   * the words and run the training loop on the base vocabulary.
   */
  method TrainTokenizer(corpus: string, vocabSize: int, baseVocabulary: seq<string>)
    returns (vocab: seq<string>, merges: seq<Pair>, ghost caches: seq<map<string, seq<string>>>)
    requires NonEmptySymbols(baseVocabulary)
    ensures IsRun(WordFrequencies(SplitWithDelimiter(corpus, ' ')), vocab, |baseVocabulary|, merges, caches)
    ensures ValidState(vocab, merges, WordFrequencies(SplitWithDelimiter(corpus, ' ')), caches[|merges|],
                       SortByLength(vocab), |baseVocabulary|,
                       PairsOf(Substrings(WordFrequencies(SplitWithDelimiter(corpus, ' ')).Keys)))
    ensures baseVocabulary <= vocab
    ensures |vocab| == vocabSize || Exhausted(caches[|merges|])
    ensures |baseVocabulary| <= vocabSize ==> |vocab| <= vocabSize
    ensures vocabSize == |baseVocabulary| ==> vocab == baseVocabulary && merges == []
  {
    var words := SplitWithDelimiter(corpus, ' ');
    var wordFrequencies := WordFrequencies(words);
    vocab, merges, caches := TrainFromFrequencies(wordFrequencies, vocabSize, baseVocabulary);
  }
}
