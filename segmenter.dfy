/** The corpus segmenter and the word-frequency table built from its output. */
module Segmenter {
  import opened Strings

  /** Occurrences of `c` in `s`. */
  function CountChar(s: string, c: char): nat
  {
    if s == [] then 0 else (if s[0] == c then 1 else 0) + CountChar(s[1..], c)
  }

  /**
   * Split `s` immediately before every occurrence of the delimiter, so that each
   * delimiter becomes the first character of the piece that follows it.  As with
   * Python's `re.split` on a zero-width lookahead, the empty string yields `[""]`
   * and a string that starts with the delimiter yields a leading `""`.
   */
  function SplitWithDelimiter(s: string, delimiter: char): (pieces: seq<string>)
    ensures |pieces| >= 1
    ensures s == [] ==> pieces == [""]
    ensures s != [] && s[0] == delimiter ==> pieces[0] == ""
    ensures Concat(pieces) == s
    ensures delimiter !in pieces[0]
    ensures forall k :: 1 <= k < |pieces| ==>
              pieces[k] != [] && pieces[k][0] == delimiter && delimiter !in pieces[k][1..]
  {
    if s == [] then [""]
    else
      var rest := SplitWithDelimiter(s[1..], delimiter);
      assert Concat(rest) == rest[0] + Concat(rest[1..]);
      if s[0] == delimiter then
        var pieces := ["", [delimiter] + rest[0]] + rest[1..];
        assert pieces[1..] == [[delimiter] + rest[0]] + rest[1..];
        assert pieces[1..][1..] == rest[1..];
        assert [delimiter] + rest[0] + Concat(rest[1..]) == s;
        pieces
      else
        var pieces := [[s[0]] + rest[0]] + rest[1..];
        assert pieces[1..] == rest[1..];
        assert [s[0]] + rest[0] + Concat(rest[1..]) == s;
        pieces
  }

  /** There is one piece more than there are delimiters. */
  lemma {:induction false} SplitCount(s: string, delimiter: char)
    ensures |SplitWithDelimiter(s, delimiter)| == CountChar(s, delimiter) + 1
  {
    if s != [] {
      SplitCount(s[1..], delimiter);
    }
  }

  /**
   * The word-frequency table (Python's `Counter`): its keys are the distinct
   * words and each word maps to its number of occurrences.
   */
  function WordFrequencies(words: seq<string>): (freq: map<string, nat>)
    ensures forall w :: w in freq <==> w in words
    ensures forall w :: w in freq ==> freq[w] == multiset(words)[w] && freq[w] >= 1
  {
    if words == [] then map[]
    else
      var rest := WordFrequencies(words[1..]);
      assert words == [words[0]] + words[1..];
      assert multiset(words) == multiset{words[0]} + multiset(words[1..]);
      rest[words[0] := (if words[0] in rest then rest[words[0]] else 0) + 1]
  }
}
