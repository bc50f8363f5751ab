/** Adjacent symbol pairs in a token sequence, and folding a pair into its merged symbol. */
module Pairs {
  import opened Strings

  /** An ordered pair of symbols (left, right). */
  type Pair = (string, string)

  /** `a` is immediately followed by `b` somewhere in `tokens`. */
  predicate HasPair(tokens: seq<string>, a: string, b: string)
  {
    exists i :: 0 <= i < |tokens| - 1 && tokens[i] == a && tokens[i + 1] == b
  }

  /** Number of positions `i` with `(tokens[i], tokens[i + 1]) == p`, overlapping ones included. */
  function Occurrences(tokens: seq<string>, p: Pair): nat
  {
    if |tokens| < 2 then 0
    else (if tokens[0] == p.0 && tokens[1] == p.1 then 1 else 0) + Occurrences(tokens[1..], p)
  }

  lemma {:induction false} OccurrencesPositive(tokens: seq<string>, p: Pair)
    ensures Occurrences(tokens, p) > 0 <==> HasPair(tokens, p.0, p.1)
  {
    if |tokens| >= 2 {
      OccurrencesPositive(tokens[1..], p);
      if HasPair(tokens[1..], p.0, p.1) {
        var i :| 0 <= i < |tokens| - 2 && tokens[1..][i] == p.0 && tokens[1..][i + 1] == p.1;
        assert tokens[i + 1] == p.0 && tokens[i + 2] == p.1;
      }
      if HasPair(tokens, p.0, p.1) && !(tokens[0] == p.0 && tokens[1] == p.1) {
        var i :| 0 <= i < |tokens| - 1 && tokens[i] == p.0 && tokens[i + 1] == p.1;
        assert tokens[1..][i - 1] == p.0 && tokens[1..][i] == p.1;
      }
    } else {
      assert !HasPair(tokens, p.0, p.1);
    }
  }

  /**
   * Python's `Counter(zip(tokens, tokens[1:]))`: every adjacent pair of the
   * sequence with its number of occurrences; fewer than two tokens give no pairs.
   */
  function AdjacentCounts(tokens: seq<string>): (counts: map<Pair, nat>)
    ensures forall p :: p in counts <==> Occurrences(tokens, p) > 0
    ensures forall p :: p in counts ==> counts[p] == Occurrences(tokens, p)
  {
    if |tokens| < 2 then map[]
    else
      var counts := AdjacentCounts(tokens[1..]);
      var q := (tokens[0], tokens[1]);
      counts[q := (if q in counts then counts[q] else 0) + 1]
  }

  /**
   * Left-to-right, non-overlapping replacement of every adjacent `a`, `b` by
   * `merged`: the value that `apply_merge_to_tokens` builds.
   */
  function Fold(tokens: seq<string>, a: string, b: string, merged: string): seq<string>
  {
    if tokens == [] then []
    else if |tokens| >= 2 && tokens[0] == a && tokens[1] == b then [merged] + Fold(tokens[2..], a, b, merged)
    else [tokens[0]] + Fold(tokens[1..], a, b, merged)
  }

  /** Number of replacements that the left-to-right scan of `Fold` performs. */
  function Replacements(tokens: seq<string>, a: string, b: string): nat
  {
    if tokens == [] then 0
    else if |tokens| >= 2 && tokens[0] == a && tokens[1] == b then 1 + Replacements(tokens[2..], a, b)
    else Replacements(tokens[1..], a, b)
  }

  /** Each replacement shortens the sequence by one. */
  lemma {:induction false} FoldLength(tokens: seq<string>, a: string, b: string, merged: string)
    ensures |Fold(tokens, a, b, merged)| == |tokens| - Replacements(tokens, a, b)
    ensures Replacements(tokens, a, b) <= Occurrences(tokens, (a, b))
  {
    if tokens == [] {
    } else if |tokens| >= 2 && tokens[0] == a && tokens[1] == b {
      FoldLength(tokens[2..], a, b, merged);
      OccurrencesMonotone(tokens[1..], (a, b));
      assert tokens[1..][1..] == tokens[2..];
    } else {
      FoldLength(tokens[1..], a, b, merged);
    }
  }

  lemma OccurrencesMonotone(tokens: seq<string>, p: Pair)
    requires tokens != []
    ensures Occurrences(tokens[1..], p) <= Occurrences(tokens, p)
  {
  }

  /** The scan replaces something exactly when some adjacent `a`, `b` exists. */
  lemma {:induction false} ReplacementsPositive(tokens: seq<string>, a: string, b: string)
    ensures Replacements(tokens, a, b) > 0 <==> HasPair(tokens, a, b)
  {
    if tokens == [] {
      assert !HasPair(tokens, a, b);
    } else if |tokens| >= 2 && tokens[0] == a && tokens[1] == b {
      assert HasPair(tokens, a, b);
    } else {
      ReplacementsPositive(tokens[1..], a, b);
      if HasPair(tokens[1..], a, b) {
        var i :| 0 <= i < |tokens| - 2 && tokens[1..][i] == a && tokens[1..][i + 1] == b;
        assert tokens[i + 1] == a && tokens[i + 2] == b;
      }
      if HasPair(tokens, a, b) {
        var i :| 0 <= i < |tokens| - 1 && tokens[i] == a && tokens[i + 1] == b;
        assert i > 0;
        assert tokens[1..][i - 1] == a && tokens[1..][i] == b;
      }
    }
  }

  /** The fold leaves the tokens alone exactly when there is no adjacent `a`, `b` to replace. */
  lemma FoldUnchanged(tokens: seq<string>, a: string, b: string, merged: string)
    ensures Fold(tokens, a, b, merged) == tokens <==> !HasPair(tokens, a, b)
  {
    FoldLength(tokens, a, b, merged);
    ReplacementsPositive(tokens, a, b);
    if !HasPair(tokens, a, b) {
      FoldIdentity(tokens, a, b, merged);
    }
  }

  lemma {:induction false} FoldIdentity(tokens: seq<string>, a: string, b: string, merged: string)
    requires Replacements(tokens, a, b) == 0
    ensures Fold(tokens, a, b, merged) == tokens
  {
    if tokens != [] {
      FoldIdentity(tokens[1..], a, b, merged);
    }
  }

  /** Folding `a`, `b` into `a + b` keeps the joined string. */
  lemma {:induction false} FoldConcat(tokens: seq<string>, a: string, b: string)
    ensures Concat(Fold(tokens, a, b, a + b)) == Concat(tokens)
  {
    if tokens == [] {
    } else if |tokens| >= 2 && tokens[0] == a && tokens[1] == b {
      FoldConcat(tokens[2..], a, b);
      var out := Fold(tokens, a, b, a + b);
      assert out[0] == a + b && out[1..] == Fold(tokens[2..], a, b, a + b);
      assert tokens[1..][0] == b && tokens[1..][1..] == tokens[2..];
    } else {
      FoldConcat(tokens[1..], a, b);
      var out := Fold(tokens, a, b, a + b);
      assert out[0] == tokens[0] && out[1..] == Fold(tokens[1..], a, b, a + b);
    }
  }

  /** The first output token is the merged symbol or the first input token. */
  lemma FoldHead(tokens: seq<string>, a: string, b: string, merged: string)
    requires tokens != []
    ensures Fold(tokens, a, b, merged) != []
    ensures Fold(tokens, a, b, merged)[0] == merged || Fold(tokens, a, b, merged)[0] == tokens[0]
  {
  }

  /**
   * No adjacent `a`, `b` survives the fold, as long as the merged symbol is
   * neither `a` nor `b` (as for `a + b` with non-empty `a` and `b`).
   */
  lemma {:induction false} FoldRemovesPair(tokens: seq<string>, a: string, b: string, merged: string)
    requires merged != a && merged != b
    ensures !HasPair(Fold(tokens, a, b, merged), a, b)
  {
    var out := Fold(tokens, a, b, merged);
    if tokens != [] {
      var replaced := |tokens| >= 2 && tokens[0] == a && tokens[1] == b;
      var rest := if replaced then Fold(tokens[2..], a, b, merged) else Fold(tokens[1..], a, b, merged);
      if replaced {
        FoldRemovesPair(tokens[2..], a, b, merged);
      } else {
        FoldRemovesPair(tokens[1..], a, b, merged);
        if |tokens| >= 2 {
          FoldHead(tokens[1..], a, b, merged);
        }
      }
      assert out == [out[0]] + rest;
      forall i | 0 <= i < |out| - 1 ensures !(out[i] == a && out[i + 1] == b) {
        if i > 0 {
          assert out[i] == rest[i - 1] && out[i + 1] == rest[i];
        }
      }
    }
  }

  /** The loop of `apply_merge_to_tokens`. */
  method ApplyMergeToTokens(tokens: seq<string>, pair: Pair, mergedPair: string) returns (out: seq<string>)
    ensures out == Fold(tokens, pair.0, pair.1, mergedPair)
  {
    var (a, b) := pair;
    out := [];
    var i := 0;
    var n := |tokens|;
    while i < n
      invariant 0 <= i <= n
      invariant out + Fold(tokens[i..], a, b, mergedPair) == Fold(tokens, a, b, mergedPair)
    {
      if i + 1 < n && tokens[i] == a && tokens[i + 1] == b {
        assert tokens[i..][2..] == tokens[i + 2..];
        out := out + [mergedPair];
        i := i + 2;
      } else {
        assert tokens[i..][1..] == tokens[i + 1..];
        out := out + [tokens[i]];
        i := i + 1;
      }
    }
  }
}
