/** The word tokenizer: greedy first-listed-match segmentation of a word over a symbol list. */
module Tokenizer {
  import opened Strings
  import opened Pairs

  /** Every symbol is non-empty; an empty symbol would make the tokenizer loop forever. */
  predicate NonEmptySymbols(subs: seq<string>)
  {
    forall k :: 0 <= k < |subs| ==> subs[k] != []
  }

  /** Longer symbols come first. */
  predicate SortedByLength(subs: seq<string>)
  {
    forall i, j :: 0 <= i < j < |subs| ==> |subs[i]| >= |subs[j]|
  }

  /** Index of the first symbol that is a prefix of `rest`, or `|subs|` when none is. */
  function FirstMatch(subs: seq<string>, rest: string): (k: nat)
    ensures k <= |subs|
    ensures k < |subs| ==> IsPrefix(subs[k], rest)
    ensures forall j :: 0 <= j < k ==> !IsPrefix(subs[j], rest)
  {
    if subs == [] then 0
    else if IsPrefix(subs[0], rest) then 0
    else 1 + FirstMatch(subs[1..], rest)
  }

  /** The token emitted at the start of a non-empty `rest`: the first matching symbol, else one character. */
  function NextToken(subs: seq<string>, rest: string): string
    requires rest != []
  {
    var k := FirstMatch(subs, rest);
    if k < |subs| then subs[k] else [rest[0]]
  }

  /** The tokens that the tokenizer emits for `text`. */
  function Tokenize(text: string, subs: seq<string>): seq<string>
    requires NonEmptySymbols(subs)
    decreases |text|
  {
    if text == [] then []
    else
      var tok := NextToken(subs, text);
      [tok] + Tokenize(text[|tok|..], subs)
  }

  /** Some symbol is a prefix of `rest`. */
  ghost predicate SomeMatch(subs: seq<string>, rest: string)
  {
    exists s :: s in subs && IsPrefix(s, rest)
  }

  /**
   * `r` cuts `text` into pieces, each a symbol that is a prefix of what remains,
   * except that a single character is taken when no symbol is a prefix there.
   */
  ghost predicate IsSegmentation(text: string, subs: seq<string>, r: seq<string>)
    decreases |r|
  {
    if r == [] then text == []
    else
      text != [] && IsPrefix(r[0], text) && r[0] != [] &&
      (if SomeMatch(subs, text) then r[0] in subs else r[0] == [text[0]]) &&
      IsSegmentation(text[|r[0]|..], subs, r[1..])
  }

  /** As `IsSegmentation`, and each symbol taken is the longest symbol that is a prefix there. */
  ghost predicate IsLongestMatchSegmentation(text: string, subs: seq<string>, r: seq<string>)
    decreases |r|
  {
    if r == [] then text == []
    else
      text != [] && IsPrefix(r[0], text) &&
      (if SomeMatch(subs, text)
       then r[0] in subs && forall s :: s in subs && IsPrefix(s, text) ==> |s| <= |r[0]|
       else r[0] == [text[0]]) &&
      IsLongestMatchSegmentation(text[|r[0]|..], subs, r[1..])
  }

  lemma NextTokenIsMatch(subs: seq<string>, rest: string)
    requires NonEmptySymbols(subs) && rest != []
    ensures var tok := NextToken(subs, rest);
      IsPrefix(tok, rest) && tok != [] &&
      (if SomeMatch(subs, rest) then tok in subs else tok == [rest[0]])
  {
  }

  /** On a longest-first list, the first matching symbol is a longest matching one. */
  lemma NextTokenIsLongest(subs: seq<string>, rest: string)
    requires NonEmptySymbols(subs) && SortedByLength(subs) && rest != []
    ensures forall s :: s in subs && IsPrefix(s, rest) ==> |s| <= |NextToken(subs, rest)|
  {
    var k := FirstMatch(subs, rest);
    forall s | s in subs && IsPrefix(s, rest)
      ensures |s| <= |NextToken(subs, rest)|
    {
      var j :| 0 <= j < |subs| && subs[j] == s;
      assert k <= j;
    }
  }

  /** The tokenizer's output is a segmentation of its input. */
  lemma {:induction false} TokenizeIsSegmentation(text: string, subs: seq<string>)
    requires NonEmptySymbols(subs)
    ensures IsSegmentation(text, subs, Tokenize(text, subs))
    decreases |text|
  {
    if text != [] {
      NextTokenIsMatch(subs, text);
      var tok := NextToken(subs, text);
      TokenizeIsSegmentation(text[|tok|..], subs);
      var r := Tokenize(text, subs);
      assert r[0] == tok && r[1..] == Tokenize(text[|tok|..], subs);
    }
  }

  /** Joining the pieces of a segmentation gives back the text, and no piece is empty. */
  lemma {:induction false} SegmentationConcat(text: string, subs: seq<string>, r: seq<string>)
    requires IsSegmentation(text, subs, r)
    ensures Concat(r) == text
    ensures forall k :: 0 <= k < |r| ==> r[k] != []
    decreases |r|
  {
    if r != [] {
      SegmentationConcat(text[|r[0]|..], subs, r[1..]);
      assert text == r[0] + text[|r[0]|..];
      forall k | 0 <= k < |r| ensures r[k] != [] {
        if k > 0 { assert r[k] == r[1..][k - 1]; }
      }
    }
  }

  /** Tokenization loses and adds nothing: the tokens join back to the word. */
  lemma TokenizeConcat(text: string, subs: seq<string>)
    requires NonEmptySymbols(subs)
    ensures Concat(Tokenize(text, subs)) == text
    ensures forall k :: 0 <= k < |Tokenize(text, subs)| ==> Tokenize(text, subs)[k] != []
  {
    TokenizeIsSegmentation(text, subs);
    SegmentationConcat(text, subs, Tokenize(text, subs));
  }

  /** On a longest-first symbol list the tokenizer takes the longest match at every position. */
  lemma {:induction false} TokenizeIsLongestMatch(text: string, subs: seq<string>)
    requires NonEmptySymbols(subs) && SortedByLength(subs)
    ensures IsLongestMatchSegmentation(text, subs, Tokenize(text, subs))
    decreases |text|
  {
    if text != [] {
      NextTokenIsMatch(subs, text);
      NextTokenIsLongest(subs, text);
      var tok := NextToken(subs, text);
      TokenizeIsLongestMatch(text[|tok|..], subs);
      var r := Tokenize(text, subs);
      assert r[0] == tok && r[1..] == Tokenize(text[|tok|..], subs);
    }
  }

  /**
   * Conversely, the longest-match segmentation is unique: on a longest-first list
   * the tokenizer's output is the only one.
   */
  lemma {:induction false} LongestMatchIsTokenize(text: string, subs: seq<string>, r: seq<string>)
    requires NonEmptySymbols(subs) && SortedByLength(subs)
    requires IsLongestMatchSegmentation(text, subs, r)
    ensures r == Tokenize(text, subs)
    decreases |r|
  {
    if r != [] {
      NextTokenIsMatch(subs, text);
      NextTokenIsLongest(subs, text);
      var tok := NextToken(subs, text);
      assert |tok| == |r[0]|;
      assert tok == text[..|tok|] == r[0];
      LongestMatchIsTokenize(text[|tok|..], subs, r[1..]);
      assert r == [r[0]] + r[1..];
    }
  }

  /** The longest-match condition depends on the symbol list only through the symbols it holds. */
  lemma {:induction false} LongestMatchSameSymbols(text: string, subs: seq<string>, subs': seq<string>, r: seq<string>)
    requires forall s :: s in subs <==> s in subs'
    requires IsLongestMatchSegmentation(text, subs, r)
    ensures IsLongestMatchSegmentation(text, subs', r)
    decreases |r|
  {
    if r != [] {
      assert SomeMatch(subs, text) <==> SomeMatch(subs', text);
      LongestMatchSameSymbols(text[|r[0]|..], subs, subs', r[1..]);
    }
  }

  /**
   * Two longest-first lists of the same symbols tokenize alike, so the order in
   * which the sort leaves symbols of equal length does not matter.
   */
  lemma TokenizeIgnoresTieOrder(text: string, subs: seq<string>, subs': seq<string>)
    requires NonEmptySymbols(subs) && SortedByLength(subs)
    requires NonEmptySymbols(subs') && SortedByLength(subs')
    requires forall s :: s in subs <==> s in subs'
    ensures Tokenize(text, subs) == Tokenize(text, subs')
  {
    TokenizeIsLongestMatch(text, subs);
    LongestMatchSameSymbols(text, subs, subs', Tokenize(text, subs));
    LongestMatchIsTokenize(text, subs', Tokenize(text, subs));
  }

  /**
   * Once `a + b` is a symbol of a longest-first list, the tokenizer never emits
   * `a` immediately followed by `b`: at that position `a + b` is a longer match.
   */
  lemma {:induction false} TokenizeAvoidsPair(text: string, subs: seq<string>, a: string, b: string)
    requires NonEmptySymbols(subs) && SortedByLength(subs)
    requires a + b in subs && b != []
    ensures !HasPair(Tokenize(text, subs), a, b)
    decreases |text|
  {
    if text != [] {
      var r := Tokenize(text, subs);
      var tok := NextToken(subs, text);
      var rest := text[|tok|..];
      assert r[0] == tok && r[1..] == Tokenize(rest, subs);
      TokenizeAvoidsPair(rest, subs, a, b);
      if |r| >= 2 && r[0] == a && r[1] == b {
        NextTokenIsMatch(subs, text);
        NextTokenIsLongest(subs, text);
        TokenizeConcat(rest, subs);
        ConcatAt(r[1..], 0);
        assert false;
      }
      forall i | 1 <= i < |r| - 1 ensures !(r[i] == a && r[i + 1] == b) {
        assert r[i] == r[1..][i - 1] && r[i + 1] == r[1..][i];
      }
    }
  }

  /**
   * The inner `for` loop of the tokenizer: the index of the first listed symbol
   * that is a prefix of `rest`, or `|subs|` when the loop ends without `break`.
   */
  method FirstMatchIndex(subs: seq<string>, rest: string) returns (j: nat)
    ensures j == FirstMatch(subs, rest)
  {
    j := 0;
    while j < |subs| && !IsPrefix(subs[j], rest)
      invariant 0 <= j <= |subs|
      invariant forall k :: 0 <= k < j ==> !IsPrefix(subs[k], rest)
    {
      j := j + 1;
    }
    FirstMatchUnique(subs, rest, j);
  }

  /** The first-match index is determined by its defining property. */
  lemma {:induction false} FirstMatchUnique(subs: seq<string>, rest: string, j: nat)
    requires j <= |subs|
    requires j < |subs| ==> IsPrefix(subs[j], rest)
    requires forall k :: 0 <= k < j ==> !IsPrefix(subs[k], rest)
    ensures j == FirstMatch(subs, rest)
  {
    if subs != [] && j > 0 {
      assert !IsPrefix(subs[0], rest);
      FirstMatchUnique(subs[1..], rest, j - 1);
    }
  }

  /** One step of the tokenizer loop at position `i` keeps the loop invariant. */
  lemma TokenizeStep(text: string, subs: seq<string>, result: seq<string>, i: nat, tok: string)
    requires NonEmptySymbols(subs) && i < |text| && tok == NextToken(subs, text[i..])
    requires result + Tokenize(text[i..], subs) == Tokenize(text, subs)
    ensures 0 < |tok| && i + |tok| <= |text|
    ensures (result + [tok]) + Tokenize(text[i + |tok|..], subs) == Tokenize(text, subs)
  {
    assert text[i..][|tok|..] == text[i + |tok|..];
    var tail := Tokenize(text[i + |tok|..], subs);
    assert Tokenize(text[i..], subs) == [tok] + tail;
    assert (result + [tok]) + tail == result + ([tok] + tail);
  }

  /**
   * One pass of the tokenizer's `for` loop at position `i`: the first listed
   * symbol that is a prefix there, or the single character at `i`.
   */
  method TokenAt(text: string, subs: seq<string>, i: nat) returns (tok: string)
    requires i < |text|
    ensures tok == NextToken(subs, text[i..])
  {
    var j := FirstMatchIndex(subs, text[i..]);
    tok := if j < |subs| then subs[j] else [text[i]];
  }

  /**
   * The tokenizer loop: at each position take the first listed symbol that is a
   * prefix of the rest of the text, or a single character when none is.
   */
  method SplitAlongVocab(text: string, subs: seq<string>) returns (result: seq<string>)
    requires NonEmptySymbols(subs)
    ensures result == Tokenize(text, subs)
  {
    var i := 0;
    result := [];
    while i < |text|
      invariant 0 <= i <= |text|
      invariant result + Tokenize(text[i..], subs) == Tokenize(text, subs)
      decreases |text| - i
    {
      var tok := TokenAt(text, subs, i);
      TokenizeStep(text, subs, result, i, tok);
      result := result + [tok];
      i := i + |tok|;
    }
  }

  /** Puts `x` before the first symbol that is not longer than it. */
  function InsertByLength(x: string, s: seq<string>): seq<string>
  {
    if s == [] then [x]
    else if |s[0]| <= |x| then [x] + s
    else [s[0]] + InsertByLength(x, s[1..])
  }

  /** Insertion into a longest-first list keeps it longest-first and adds exactly `x`. */
  lemma {:induction false} InsertByLengthCorrect(x: string, s: seq<string>)
    requires SortedByLength(s)
    ensures SortedByLength(InsertByLength(x, s))
    ensures multiset(InsertByLength(x, s)) == multiset(s) + multiset{x}
  {
    if s != [] && |s[0]| > |x| {
      InsertByLengthCorrect(x, s[1..]);
      var tail := InsertByLength(x, s[1..]);
      assert s == [s[0]] + s[1..];
      forall k | 0 <= k < |tail| ensures |tail[k]| <= |s[0]| {
        assert tail[k] in multiset(tail);
        if tail[k] != x {
          assert tail[k] in s[1..];
        }
      }
    }
  }

  /** Python's `sorted(vocabulary, key=len, reverse=True)`, as an insertion sort. */
  function SortByLength(s: seq<string>): seq<string>
  {
    if s == [] then [] else InsertByLength(s[0], SortByLength(s[1..]))
  }

  /** The sort puts longer symbols first and keeps exactly the same symbols. */
  lemma {:induction false} SortByLengthCorrect(s: seq<string>)
    ensures SortedByLength(SortByLength(s))
    ensures multiset(SortByLength(s)) == multiset(s)
    ensures NonEmptySymbols(s) ==> NonEmptySymbols(SortByLength(s))
  {
    if s != [] {
      SortByLengthCorrect(s[1..]);
      InsertByLengthCorrect(s[0], SortByLength(s[1..]));
      assert s == [s[0]] + s[1..];
      var r := SortByLength(s);
      if NonEmptySymbols(s) {
        forall k | 0 <= k < |r| ensures r[k] != [] {
          assert r[k] in multiset(r);
          assert r[k] in s;
        }
      }
    }
  }
}
