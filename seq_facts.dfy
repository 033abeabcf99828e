/** Small facts about sequence slicing, stated once for any element type so that
    the proofs that use them never have to look inside the elements. */
module SeqFacts {

  /** A non-empty sequence is its first |s| - 1 elements followed by its last. */
  lemma SplitLast<T>(s: seq<T>)
    requires |s| > 0
    ensures s == s[..|s| - 1] + [s[|s| - 1]]
  {
  }

  /** A sequence whose first |s| - 1 elements are `init` and whose last is `x` is `init + [x]`. */
  lemma SnocEq<T>(s: seq<T>, init: seq<T>, x: T)
    requires |s| > 0 && s[..|s| - 1] == init && s[|s| - 1] == x
    ensures s == init + [x]
  {
    SplitLast(s);
  }

  /** Two sequences with the same first |s| - 1 elements and the same last one are equal. */
  lemma SnocMatch<T>(s: seq<T>, init: seq<T>, x: T, whole: seq<T>)
    requires |s| > 0 && s[..|s| - 1] == init && s[|s| - 1] == x && whole == init + [x]
    ensures s == whole
  {
    SplitLast(s);
  }

  /** `s` without its last element, split before its second-to-last one. */
  lemma PrefixSplit<T>(s: seq<T>)
    requires |s| >= 2
    ensures s[..|s| - 1] == s[..|s| - 2] + [s[|s| - 2]]
  {
  }

  /** The parts of a sequence known to be `init + [x]`. */
  lemma SnocParts<T>(init: seq<T>, x: T, whole: seq<T>)
    requires init + [x] == whole
    ensures |whole| == |init| + 1 && whole[..|whole| - 1] == init && whole[|whole| - 1] == x
  {
  }

  /** The parts of `s + [x]`. */
  lemma Snoc<T>(s: seq<T>, x: T)
    ensures |s + [x]| == |s| + 1 && (s + [x])[..|s|] == s && (s + [x])[|s|] == x
  {
  }

  /** Taking everything leaves the sequence as it is. */
  lemma TakeAll<T>(s: seq<T>)
    ensures s[..|s|] == s
  {
  }

  /** A prefix of a prefix is a prefix. */
  lemma TakeTake<T>(s: seq<T>, m: nat, k: nat)
    requires k <= m <= |s|
    ensures s[..m][..k] == s[..k]
  {
  }

  /** If `ab` is `a + b` and a prefix of `whole`, then `b` sits in `whole` right after `a`. */
  lemma InfixOfPrefix<T>(a: seq<T>, b: seq<T>, ab: seq<T>, whole: seq<T>)
    requires ab == a + b && ab <= whole
    ensures |a| <= |ab| <= |whole| && whole[|a|..|ab|] == b
  {
    assert whole[|a|..|ab|] == ab[|a|..];
  }

  /** A sequence is a prefix of anything that `a + b` is a prefix of. */
  lemma PrefixTrans<T>(a: seq<T>, b: seq<T>, whole: seq<T>)
    requires a + b <= whole
    ensures a <= whole
  {
    assert a == (a + b)[..|a|];
  }

}
