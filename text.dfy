/** Small string helpers shared by both ends of the highlighting protocol. */
module Text {

  datatype Option<+T> = None | Some(value: T)

  /** Position of the first `c` in `s`, or `|s|` when `c` does not occur. */
  function Find(s: string, c: char): (i: nat)
    ensures i <= |s|
    ensures i < |s| ==> s[i] == c
    ensures forall k :: 0 <= k < i ==> s[k] != c
    ensures i == |s| <==> c !in s
  {
    if s == [] then 0
    else if s[0] == c then 0
    else
      1 + Find(s[1..], c)
  }

  /** `s` begins with `t`. */
  predicate StartsWith(s: string, t: string) {
    |t| <= |s| && s[..|t|] == t
  }

  /** The sequences of `ss` one after another. */
  function Flatten<T>(ss: seq<seq<T>>): seq<T> {
    if ss == [] then [] else ss[0] + Flatten(ss[1..])
  }

  /** Concatenation is associative (stated once so that sequences of strings stay cheap). */
  lemma ConcatAssoc<T>(a: seq<T>, b: seq<T>, c: seq<T>)
    ensures a + (b + c) == (a + b) + c
  {
  }

  /** Slicing a suffix of `s` is slicing `s` further along. */
  lemma SuffixSlices<T>(s: seq<T>, a: nat, n: nat)
    requires a + n <= |s|
    ensures s[a..][..n] == s[a..a + n] && s[a..][n..] == s[a + n..]
  {
  }

  /** Slicing a concatenation inside its left part. */
  lemma AppendSlices<T>(w: seq<T>, x: seq<T>, i: nat)
    requires i < |w|
    ensures (w + x)[..i] == w[..i] && (w + x)[i + 1..] == w[i + 1..] + x
  {
  }

}
