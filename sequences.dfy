/** Facts about cutting and rejoining sequences, kept apart from the specifications that use them. */
module Sequences {

  /** How a prefix of `s`, after `a`, grows by the next element, and what remains. */
  lemma PrefixStep<T>(a: seq<T>, s: seq<T>, j: nat)
    requires j < |s|
    ensures a + s[..j] + [s[j]] == a + s[..j + 1]
    ensures a + s == (a + s[..j] + [s[j]]) + s[j + 1..]
  {
    assert s == s[..j] + [s[j]] + s[j + 1..];
  }

  /** The empty and the full prefix of `s`, after `a`. */
  lemma PrefixEnds<T>(a: seq<T>, s: seq<T>)
    ensures a + s[..0] == a
    ensures a + s[..|s|] == a + s
  {
    assert s[..0] == [] && s[..|s|] == s;
  }

  /** `s` and `a + s` as their front and their last element. */
  lemma LastStep<T>(a: seq<T>, s: seq<T>)
    requires s != []
    ensures s == s[..|s| - 1] + [s[|s| - 1]]
    ensures a + s == a + s[..|s| - 1] + [s[|s| - 1]]
  {
  }

  lemma Associate<T>(a: seq<T>, b: seq<T>, c: seq<T>)
    ensures a + b + c == a + (b + c)
  {
  }

  /** A prefix of `a + b` no longer than `a` is a prefix of `a`. */
  lemma PrefixOfAppend<T>(a: seq<T>, b: seq<T>, n: nat)
    requires n <= |a|
    ensures (a + b)[..n] == a[..n]
  {
  }
}
