# BPE tokenizer trainer, modelled in Dafny

This project models the training core of a GPT-style byte-pair-encoding
tokenizer trainer (`tokenizer/tokenizer_trainer.py`) and proves properties of
that model.  The trainer takes a corpus, cuts it into words immediately
before every space, and counts the distinct words.  It tokenizes every word
over the base vocabulary, taking at each position the first listed symbol of
a longest-first vocabulary and falling back to a single character.  Then it
repeats four steps until the vocabulary has the requested size or no
adjacent pair is left:

- count the adjacent symbol pairs, weighted by word frequency;
- pick the most frequent pair, breaking ties by the lexicographically
  smallest concatenation;
- append the merged symbol and the pair to the vocabulary and the merge list;
- refresh the per-word token cache.

The refresh folds the pair into each cached token list.  A word whose list
changed is re-tokenized from scratch with the re-sorted vocabulary; any
other word keeps its old tokens.

Modules, one per component of the trainer:

- `Strings`: joining pieces, prefixes, and Python's string order (`LexLe`).
- `Segmenter`: `split_with_delimiter` and the word-frequency `Counter`.
- `Tokenizer`: `split_along_vocab` as a loop proved equal to the function
  `Tokenize`, the longest-match characterisation of `Tokenize`, and the
  length sort of the vocabulary.
- `Pairs`: adjacent-pair occurrences, `Counter(zip(tokens, tokens[1:]))`,
  and `apply_merge_to_tokens`, a loop proved equal to the function `Fold`.
- `Selector`: `choose_pair_to_merge`.
- `Training`: pair counting, `merge`, the cache refresh and the training
  loop.

The training loop does three things in the model:

- It keeps the invariant `ValidState`:
  - the vocabulary is the base symbols followed by one merged symbol per
    merge;
  - every cache entry joins back to its word and contains no merged pair
    adjacently;
  - the merges are distinct pairs of non-empty substrings of the words.
- It terminates, because every merge removes one pair from that finite set.
- It records its run as a trace (`IsRun`). Round `i` merges a greedy choice
  on the cache of that round, and the next cache is that cache refreshed
  with the vocabulary grown by one symbol.

## Model

| member | source | states |
|---|---|---|
| Segmenter.SplitWithDelimiter | tokenizer/tokenizer_trainer.py:36-38 | the pieces join back to the string; there is at least one piece; the empty string gives `[""]`; a string that starts with the delimiter gives a leading `""`; the first piece has no delimiter; every later piece starts with the delimiter and has no other |
| Segmenter.SplitCount | tokenizer/tokenizer_trainer.py:36-38 | there is exactly one piece more than there are delimiters |
| Segmenter.WordFrequencies | tokenizer/tokenizer_trainer.py:106 | the keys are exactly the words; each word maps to its multiplicity in the list, which is at least 1 |
| Tokenizer.FirstMatch | tokenizer/tokenizer_trainer.py:48-52 | the index is that of a listed symbol that is a prefix of the rest, with no earlier listed symbol a prefix; or it is the list length when no symbol is a prefix |
| Tokenizer.FirstMatchIndex | tokenizer/tokenizer_trainer.py:48-53 | the scan of the inner `for` loop stops exactly at `FirstMatch` |
| Tokenizer.FirstMatchUnique | tokenizer/tokenizer_trainer.py:48-53 | any index with the first-match property is `FirstMatch` |
| Tokenizer.NextTokenIsMatch | tokenizer/tokenizer_trainer.py:48-56 | the emitted token is a non-empty prefix of the rest; it is a listed symbol when some symbol matches, otherwise the single next character |
| Tokenizer.NextTokenIsLongest | tokenizer/tokenizer_trainer.py:43-52 | on a longest-first list, the first matching symbol is at least as long as every matching symbol |
| Tokenizer.TokenAt | tokenizer/tokenizer_trainer.py:48-56 | one pass of the `for`/`else` at position `i` emits `NextToken` of the rest of the text |
| Tokenizer.TokenizeStep | tokenizer/tokenizer_trainer.py:47-56 | one step of the `while` loop advances by a token of positive length within the text and keeps "tokens so far followed by the tokens of the rest" equal to the full tokenization |
| Tokenizer.SplitAlongVocab | tokenizer/tokenizer_trainer.py:41-57 | the loop returns exactly `Tokenize(text, subs)` |
| Tokenizer.TokenizeIsSegmentation | tokenizer/tokenizer_trainer.py:41-57 | the tokens cut the text into listed symbols that are prefixes at their position, with a single-character fallback only where no symbol matches |
| Tokenizer.SegmentationConcat | tokenizer/tokenizer_trainer.py:41-57 | the pieces of any such segmentation join back to the text and none is empty |
| Tokenizer.TokenizeConcat | tokenizer/tokenizer_trainer.py:41-57 | reconstruction: the tokens join back to the word and none is empty |
| Tokenizer.TokenizeIsLongestMatch | tokenizer/tokenizer_trainer.py:43-57 | on a longest-first list, every token is a longest symbol matching at its position |
| Tokenizer.LongestMatchIsTokenize | tokenizer/tokenizer_trainer.py:43-57 | conversely, every longest-match segmentation equals the tokenizer's output |
| Tokenizer.LongestMatchSameSymbols | tokenizer/tokenizer_trainer.py:41-57 | the longest-match property depends only on which symbols the list holds |
| Tokenizer.TokenizeIgnoresTieOrder | tokenizer/tokenizer_trainer.py:136 | two longest-first lists with the same symbols tokenize every text alike, so the order among equal-length symbols is irrelevant |
| Tokenizer.TokenizeAvoidsPair | tokenizer/tokenizer_trainer.py:43-57 | once `a + b` is in a longest-first list and `b` is non-empty, the tokens never contain `a` immediately followed by `b` |
| Tokenizer.InsertByLengthCorrect | tokenizer/tokenizer_trainer.py:109 | inserting into a longest-first list keeps it longest-first and adds exactly the inserted symbol |
| Tokenizer.SortByLengthCorrect | tokenizer/tokenizer_trainer.py:109 | `sorted(..., key=len, reverse=True)` is longest-first and a permutation of its input, and it keeps all symbols non-empty |
| Pairs.OccurrencesPositive | tokenizer/tokenizer_trainer.py:119 | a pair has a positive occurrence count exactly when it occurs adjacently |
| Pairs.AdjacentCounts | tokenizer/tokenizer_trainer.py:119 | the per-word counter has exactly the pairs that occur adjacently as keys, each with its number of occurrences |
| Pairs.FoldLength | tokenizer/tokenizer_trainer.py:72-85 | the fold shortens the tokens by the number of replacements, which is at most the number of occurrences |
| Pairs.ReplacementsPositive | tokenizer/tokenizer_trainer.py:78-84 | the scan replaces something exactly when the pair occurs adjacently |
| Pairs.FoldUnchanged | tokenizer/tokenizer_trainer.py:72-85 | the fold leaves the tokens equal exactly when the pair does not occur (the test at line 143) |
| Pairs.FoldIdentity | tokenizer/tokenizer_trainer.py:72-85 | with no replacement the fold is the identity |
| Pairs.FoldConcat | tokenizer/tokenizer_trainer.py:72-85 | folding `a`, `b` into `a + b` keeps the joined string |
| Pairs.FoldRemovesPair | tokenizer/tokenizer_trainer.py:72-85 | no adjacent `a`, `b` survives the fold when the merged symbol is neither `a` nor `b` |
| Pairs.ApplyMergeToTokens | tokenizer/tokenizer_trainer.py:72-85 | the loop returns exactly the left-to-right, non-overlapping fold `Fold` |
| Selector.ChoosePairToMerge | tokenizer/tokenizer_trainer.py:59-64 | the chosen pair is a key with the maximal count, and among the pairs with that count its concatenation is lexicographically smallest |
| Selector.ChoiceDeterminesSymbol | tokenizer/tokenizer_trainer.py:59-64 | any two admissible choices have the same concatenation, so the new symbol is determined |
| Selector.TieBreakExample | tokenizer/tokenizer_trainer.py:24-28 | with `("ab", "out")` and `("sp", "ite")` tied, the choice is `("ab", "out")` |
| Training.WeightedCountRemove | tokenizer/tokenizer_trainer.py:117-122 | the weighted sum over the words does not depend on the order in which the words are taken |
| Training.AddWord | tokenizer/tokenizer_trainer.py:117-122 | counting one more word adds its own weighted occurrences, and the pair occurs in the larger set exactly when it occurs in the old set or in that word |
| Training.AccumulatePairs | tokenizer/tokenizer_trainer.py:121-122 | afterwards the keys are the old keys plus the word's pairs, and each total is the old total (0 if absent) plus the word's count times its frequency |
| Training.CountPairsStep | tokenizer/tokenizer_trainer.py:117-122 | adding one word's weighted pair counts turns the counts over the words done into the counts over those words plus this one |
| Training.CountPairs | tokenizer/tokenizer_trainer.py:115-122 | a pair is counted exactly when it occurs in some word's cached tokens, and its count is the sum over the words of frequency times occurrences |
| Training.NoPairsMeansExhausted | tokenizer/tokenizer_trainer.py:124-126 | an empty pair count means every cached tokenization has fewer than two tokens |
| Training.ExhaustedMeansNoPairs | tokenizer/tokenizer_trainer.py:124-126 | conversely, when every tokenization has fewer than two tokens no pair occurs |
| Training.InitialCache | tokenizer/tokenizer_trainer.py:110 | the cache has exactly the distinct words as keys, each entry is the word's tokenization, and it joins back to the word with no empty token |
| Training.AdjacentPairIsCandidate | tokenizer/tokenizer_trainer.py:119 | a pair found in a word's tokens is a pair of non-empty substrings of the words |
| Training.RefreshedKeepsInvariant | tokenizer/tokenizer_trainer.py:139-147 | a refreshed entry still joins back to its word, has no empty token, and contains none of the merged pairs, the new one included |
| Training.SortedVocabSymbols | tokenizer/tokenizer_trainer.py:136 | the re-sorted vocabulary is longest-first, has only non-empty symbols and holds every symbol of the vocabulary |
| Training.RefreshedCache | tokenizer/tokenizer_trainer.py:139-147 | the refresh keeps exactly the same words as keys |
| Training.ExampleVocabularies | tokenizer/tokenizer_trainer.py:136 | the sorted vocabularies after merging `("b", "c")`, then `("a", "b")`, into the base `a`, `b`, `c` |
| Training.ExampleFirstTokens | tokenizer/tokenizer_trainer.py:41-57 | "abc" tokenizes as `a`, `bc` over the first of those vocabularies |
| Training.ExampleFreshTokens | tokenizer/tokenizer_trainer.py:41-57 | "abc" tokenizes as `ab`, `c` over the second |
| Training.StaleEntryExample | tokenizer/tokenizer_trainer.py:139-147 | the refresh after merging `("a", "b")` keeps `a`, `bc` for "abc", although a fresh tokenization gives `ab`, `c`; the cache is not the fresh tokenization |
| Training.OccurringPairIsNew | tokenizer/tokenizer_trainer.py:125-133 | a pair that occurs in a valid cache has non-empty halves, is a candidate, and was never merged before |
| Training.RecordKeepsVocab | tokenizer/tokenizer_trainer.py:66-70 | appending a new, never-merged pair keeps the vocabulary equal to the base followed by the merged symbols, keeps the merges distinct, and puts every merged symbol into the re-sorted vocabulary |
| Training.RefreshKeepsCache | tokenizer/tokenizer_trainer.py:139-147 | refreshing every entry keeps the cache valid for the longer merge list |
| Training.MergeStepKeepsValid | tokenizer/tokenizer_trainer.py:129-147 | one round (merge, re-sort, refresh) keeps the full training invariant |
| Training.GrownVocabSymbols | tokenizer/tokenizer_trainer.py:133-136 | the grown vocabulary and its sorted form keep all symbols non-empty |
| Training.UnmergedShrinks | tokenizer/tokenizer_trainer.py:113-147 | each round leaves one candidate fewer unmerged, which bounds the number of rounds |
| Training.ChosenIsGreedy | tokenizer/tokenizer_trainer.py:115-129 | the selector's choice on the counted pairs is a greedy choice on the cache: the highest weighted count, then the smallest concatenation |
| Training.InitialRun | tokenizer/tokenizer_trainer.py:109-110 | the state before any merge is a run trace: a single entry, the initial cache over the sorted base |
| Training.ExtendedRound | tokenizer/tokenizer_trainer.py:113-147 | every round of a run, old or new, is still a round of the run extended by one merge |
| Training.RunExtends | tokenizer/tokenizer_trainer.py:113-147 | a greedy merge followed by the refresh extends the run trace by one round |
| Training.InitialStateValid | tokenizer/tokenizer_trainer.py:105-110 | the base vocabulary, the empty merge list and the initial cache satisfy the training invariant |
| Training.Merge | tokenizer/tokenizer_trainer.py:66-70 | the vocabulary grows by exactly the concatenation and the merge list by exactly the pair, with all earlier elements unchanged |
| Training.RefreshCache | tokenizer/tokenizer_trainer.py:139-147 | the loop over the cache stores, for every word, the fold-then-retokenize-or-keep entry of `Refreshed` |
| Training.TrainFromFrequencies | tokenizer/tokenizer_trainer.py:109-147 | a run trace with every merge a greedy choice of its round; vocabulary length is base length plus merge count, the base is a prefix, and the merges are distinct; the final cache tokenizes every word; the loop ends at the target size or with no pair left; it never overshoots a target at least the base size; at the base size it returns the base and no merges |
| Training.TrainTokenizer | tokenizer/tokenizer_trainer.py:105-147 | the same, for the word frequencies of the corpus split before every space |

## Left out

- File and log I/O are not part of this model: reading the corpus file (lines 97-101), `train.log` and the progress message (lines 149-153), and `save_vocab`/`save_merges` with `saving.py` (lines 156-157). The corpus enters as a string, and the vocabulary and merges are returned.
- `re.split` with a lookahead is modelled for a single-character delimiter only, which is the only use (`' '`, line 105); treating general `re.escape` patterns is left out.
- `Counter` and `dict` are modelled as maps, and their iteration order is not modelled. `Training.CountPairs` and `Training.RefreshCache` visit words in an unspecified order. Their results do not depend on that order, as `Training.WeightedCountRemove` shows.
- Selector.ChoosePairToMerge: two tied pairs can have the same concatenation, such as `("a", "bc")` and `("ab", "c")`. The code's `min` then returns the first one in dictionary order; the model may return either of them. Its contract is therefore weaker here, though `Selector.ChoiceDeterminesSymbol` shows that the merged symbol is the same either way.
- Tokenizer.SplitAlongVocab, Training.TrainFromFrequencies, Training.TrainTokenizer: require every symbol to be non-empty. With `""` in the base vocabulary, `split_along_vocab` loops forever at any character that no longer symbol matches.
- Training.Merge, Training.TrainFromFrequencies: `merge` appends in place to the caller's `base_vocabulary` list and to `merges`, and the cache is updated in place. The model returns new sequences and maps instead, so the caller seeing its base list grow (aliasing) is not captured.
- Training.TrainFromFrequencies, Training.TrainTokenizer: return the vocabulary and the merges, plus the cache history as a ghost trace. The code returns nothing and saves both lists.
- The cache refresh is not shown to agree with re-tokenizing every word after every merge. `Training.StaleEntryExample` shows a case where it does not. Whether the code can therefore append the same symbol twice over a full run is not proved.
- Faithful to the code, no error is raised in these cases:
  - a target size below the base size: the loop then runs until no pair is left, and the model proves that it terminates;
  - duplicate base symbols;
  - an incomplete base vocabulary: unknown characters become single-character tokens.
- An empty corpus produces the single word `""` with frequency 1, as the code's `re.split` does, not an empty word list.
- Python's sort is stable. `Tokenizer.SortByLength` is an insertion sort, and its stability is not proved. `Tokenizer.TokenizeIgnoresTieOrder` shows that the order among equal-length symbols does not affect any tokenization.
- Determinism of whole runs is not proved: with the unspecified choice above, two runs can differ in which of two pairs with equal concatenations is recorded.
