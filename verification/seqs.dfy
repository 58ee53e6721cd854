/** Facts about slicing sequences, kept apart so that proofs using them stay small. */
module Seqs {

  /** A sequence is its prefix before `j`, its element at `j`, and its suffix after `j`. */
  lemma SplitAround<T>(s: seq<T>, j: nat)
    requires j < |s|
    ensures s == s[..j] + ([s[j]] + s[j + 1..])
  {
  }

  /** Taking out the element at index 0 leaves the tail. */
  lemma DropFirst<T>(s: seq<T>)
    requires |s| > 0
    ensures s[..0] + s[1..] == s[1..]
  {
  }

  /** A prefix of a prefix is a prefix, and the longer prefix agrees with `s` below its end. */
  lemma PrefixOfPrefix<T>(s: seq<T>, n: nat, i: nat)
    requires i < n <= |s|
    ensures s[..n][..i] == s[..i]
    ensures s[..n][i] == s[i]
  {
  }

  /** Taking out the element at index `j` takes one copy of it out of the multiset. */
  lemma MultisetRemove<T>(s: seq<T>, j: nat)
    requires j < |s|
    ensures multiset(s[..j] + s[j + 1..]) == multiset(s) - multiset{s[j]}
  {
    SplitAround(s, j);
  }

  /** Where the first element of `s` sits in its permutation `t`, and what is left on both sides. */
  lemma FindInPermutation<T>(s: seq<T>, t: seq<T>) returns (j: nat)
    requires |s| > 0
    requires multiset(s) == multiset(t)
    ensures j < |t| && t[j] == s[0]
    ensures multiset(s[1..]) == multiset(t[..j] + t[j + 1..])
  {
    assert s[0] in multiset(s);
    j :| 0 <= j < |t| && t[j] == s[0];
    MultisetRemove(s, 0);
    DropFirst(s);
    MultisetRemove(t, j);
  }
}
