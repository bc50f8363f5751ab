/** Operations on strings and sequences of strings shared by the trainer's components. */
module Strings {

  /** The string obtained by joining the pieces in order (Python's `"".join(pieces)`). */
  function Concat(pieces: seq<string>): string
  {
    if pieces == [] then [] else pieces[0] + Concat(pieces[1..])
  }

  /** `p` is a prefix of `s` (Python's `s.startswith(p)`). */
  predicate IsPrefix(p: string, s: string)
  {
    |p| <= |s| && s[..|p|] == p
  }

  /** Python's `a <= b` on strings: lexicographic order on code points, a proper prefix first. */
  predicate LexLe(a: string, b: string)
  {
    a == [] || (b != [] && (a[0] < b[0] || (a[0] == b[0] && LexLe(a[1..], b[1..]))))
  }

  /** Every substring of every string in `ws`. */
  ghost function Substrings(ws: set<string>): set<string>
  {
    set w, i, j | w in ws && 0 <= i <= j <= |w| :: w[i..j]
  }

  lemma {:induction false} ConcatAppend(a: seq<string>, b: seq<string>)
    ensures Concat(a + b) == Concat(a) + Concat(b)
  {
    if a == [] {
      assert a + b == b;
    } else {
      assert (a + b)[1..] == a[1..] + b;
      ConcatAppend(a[1..], b);
    }
  }

  /** The `k`-th piece sits in the joined string right after the pieces before it. */
  lemma {:induction false} ConcatAt(pieces: seq<string>, k: nat)
    requires k < |pieces|
    ensures Concat(pieces) == Concat(pieces[..k]) + pieces[k] + Concat(pieces[k + 1..])
  {
    var tail := [pieces[k]] + pieces[k + 1..];
    assert pieces == pieces[..k] + tail;
    ConcatAppend(pieces[..k], tail);
    assert tail[0] == pieces[k] && tail[1..] == pieces[k + 1..];
    assert Concat(tail) == pieces[k] + Concat(pieces[k + 1..]);
  }

  /** Each piece of a string's decomposition is one of its substrings. */
  lemma PieceIsSubstring(w: string, pieces: seq<string>, k: nat)
    requires Concat(pieces) == w && k < |pieces|
    ensures pieces[k] in Substrings({w})
  {
    ConcatAt(pieces, k);
    var i := |Concat(pieces[..k])|;
    var j := i + |pieces[k]|;
    assert w[i..j] == pieces[k];
  }

  lemma {:induction false} LexLeTotal(a: string, b: string)
    ensures LexLe(a, b) || LexLe(b, a)
  {
    if a != [] && b != [] && a[0] == b[0] {
      LexLeTotal(a[1..], b[1..]);
    }
  }

  lemma {:induction false} LexLeTransitive(a: string, b: string, c: string)
    requires LexLe(a, b) && LexLe(b, c)
    ensures LexLe(a, c)
  {
    if a != [] && a[0] == b[0] && b[0] == c[0] {
      LexLeTransitive(a[1..], b[1..], c[1..]);
    }
  }

  lemma {:induction false} LexLeAntisymmetric(a: string, b: string)
    requires LexLe(a, b) && LexLe(b, a)
    ensures a == b
  {
    if a != [] {
      LexLeAntisymmetric(a[1..], b[1..]);
      assert a == [a[0]] + a[1..] && b == [b[0]] + b[1..];
    }
  }
}
