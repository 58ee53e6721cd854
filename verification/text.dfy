/**
 * String helpers shared by the model: counting a character, the global
 * single-character replace that `String.prototype.replace(/x/g, y)` performs,
 * and joining/splitting on a separator (how a CSV line is laid out and read back).
 */
module Text {

  /** Number of occurrences of `c` in `s`. */
  function Count(s: string, c: char): (n: nat)
    ensures n <= |s|
  {
    if |s| == 0 then 0
    else (if s[0] == c then 1 else 0) + Count(s[1..], c)
  }

  /** `c` does not occur in `s` exactly when its count is zero. */
  lemma {:induction false} CountZeroIff(s: string, c: char)
    ensures Count(s, c) == 0 <==> c !in s
  {
    if |s| > 0 {
      CountZeroIff(s[1..], c);
      assert s == [s[0]] + s[1..];
    }
  }

  /** Counting is additive over concatenation. */
  lemma {:induction false} CountAppend(a: string, b: string, c: char)
    ensures Count(a + b, c) == Count(a, c) + Count(b, c)
  {
    if |a| > 0 {
      assert (a + b)[1..] == a[1..] + b;
      CountAppend(a[1..], b, c);
    } else {
      assert a + b == b;
    }
  }

  /** The count is the multiplicity of `c` in the multiset of the characters of `s`. */
  lemma {:induction false} CountIsMultiplicity(s: string, c: char)
    ensures Count(s, c) == multiset(s)[c]
  {
    if |s| > 0 {
      assert s == [s[0]] + s[1..];
      assert multiset(s) == multiset{s[0]} + multiset(s[1..]);
      CountIsMultiplicity(s[1..], c);
    }
  }

  /** `s` with every occurrence of `from` replaced by `to`. */
  function Replace(s: string, from: char, to: char): (r: string)
    ensures |r| == |s|
    ensures forall i :: 0 <= i < |s| && s[i] == from ==> r[i] == to
    ensures forall i :: 0 <= i < |s| && s[i] != from ==> r[i] == s[i]
    ensures from != to ==> from !in r
  {
    if |s| == 0 then []
    else [if s[0] == from then to else s[0]] + Replace(s[1..], from, to)
  }

  /** Replacing a character that does not occur changes nothing. */
  lemma {:induction false} ReplaceAbsent(s: string, from: char, to: char)
    requires from !in s
    ensures Replace(s, from, to) == s
  {
    if |s| > 0 {
      assert s[0] != from;
      assert from !in s[1..] by {
        forall k | 0 <= k < |s[1..]| ensures s[1..][k] != from {
          assert s[1..][k] == s[k + 1];
        }
      }
      ReplaceAbsent(s[1..], from, to);
      assert s == [s[0]] + s[1..];
    }
  }

  /** Replacement is idempotent: a second pass finds nothing left to replace. */
  lemma ReplaceIdempotent(s: string, from: char, to: char)
    requires from != to
    ensures Replace(Replace(s, from, to), from, to) == Replace(s, from, to)
  {
    ReplaceAbsent(Replace(s, from, to), from, to);
  }

  /** The fields `fs` laid out with `sep` between consecutive fields. */
  function Join(fs: seq<string>, sep: char): string
    requires |fs| >= 1
  {
    if |fs| == 1 then fs[0] else fs[0] + [sep] + Join(fs[1..], sep)
  }

  /** The maximal `sep`-free pieces of `s`, in order (as JavaScript's `s.split(sep)`). */
  function Split(s: string, sep: char): (r: seq<string>)
    ensures |r| >= 1
    ensures forall k :: 0 <= k < |r| ==> sep !in r[k]
  {
    if |s| == 0 then [""]
    else
      var rest := Split(s[1..], sep);
      if s[0] == sep then [""] + rest
      else [[s[0]] + rest[0]] + rest[1..]
  }

  /** A string is split into one more piece than it has separators. */
  lemma {:induction false} SplitLength(s: string, sep: char)
    ensures |Split(s, sep)| == Count(s, sep) + 1
  {
    if |s| > 0 {
      SplitLength(s[1..], sep);
    }
  }

  /** A separator-free string is a single piece. */
  lemma {:induction false} SplitNoSeparator(a: string, sep: char)
    requires sep !in a
    ensures Split(a, sep) == [a]
  {
    if |a| > 0 {
      assert sep !in a[1..] by {
        forall k | 0 <= k < |a[1..]| ensures a[1..][k] != sep {
          assert a[1..][k] == a[k + 1];
        }
      }
      SplitNoSeparator(a[1..], sep);
      assert [a[0]] + a[1..] == a;
    }
  }

  /** Splitting `a + sep + b` with a separator-free `a` yields `a` followed by the pieces of `b`. */
  lemma {:induction false} SplitAfterField(a: string, b: string, sep: char)
    requires sep !in a
    ensures Split(a + [sep] + b, sep) == [a] + Split(b, sep)
  {
    var s := a + [sep] + b;
    if |a| == 0 {
      assert s[0] == sep;
      assert s[1..] == b;
    } else {
      assert s[0] == a[0];
      assert s[1..] == a[1..] + [sep] + b;
      assert sep !in a[1..] by {
        forall k | 0 <= k < |a[1..]| ensures a[1..][k] != sep {
          assert a[1..][k] == a[k + 1];
        }
      }
      SplitAfterField(a[1..], b, sep);
      assert [a[0]] + a[1..] == a;
    }
  }

  /** The last piece of `s` split on `sep`: what follows its last `sep`. */
  function LastPiece(s: string, sep: char): string {
    var pieces := Split(s, sep);
    pieces[|pieces| - 1]
  }

  /** Appending a character either starts a new, empty last piece or extends the last piece. */
  lemma {:induction false} LastPieceSnoc(s: string, c: char, sep: char)
    ensures LastPiece(s + [c], sep) == if c == sep then "" else LastPiece(s, sep) + [c]
  {
    var t := s + [c];
    if |s| == 0 {
      assert t[1..] == [];
    } else {
      var q := s[1..];
      assert t[0] == s[0];
      assert t[1..] == q + [c];
      LastPieceSnoc(q, c, sep);
      SplitLength(q, sep);
      SplitLength(q + [c], sep);
      CountAppend(q, [c], sep);
      if s[0] != sep && c != sep && |Split(q, sep)| == 1 {
        var rest := Split(q + [c], sep);
        assert LastPiece(t, sep) == [s[0]] + rest[0];
        assert LastPiece(s, sep) == [s[0]] + Split(q, sep)[0];
      }
    }
  }

  /** Splitting undoes joining when no field contains the separator. */
  lemma {:induction false} SplitJoin(fs: seq<string>, sep: char)
    requires |fs| >= 1
    requires forall k :: 0 <= k < |fs| ==> sep !in fs[k]
    ensures Split(Join(fs, sep), sep) == fs
  {
    if |fs| == 1 {
      SplitNoSeparator(fs[0], sep);
    } else {
      SplitAfterField(fs[0], Join(fs[1..], sep), sep);
      SplitJoin(fs[1..], sep);
      assert [fs[0]] + fs[1..] == fs;
    }
  }

  /** Total number of occurrences of `c` inside the fields `fs`. */
  function CountIn(fs: seq<string>, c: char): nat
  {
    if |fs| == 0 then 0 else Count(fs[0], c) + CountIn(fs[1..], c)
  }

  /** The fields hold no `c` at all exactly when their total count of `c` is zero. */
  lemma {:induction false} CountInZero(fs: seq<string>, c: char)
    ensures CountIn(fs, c) == 0 <==> forall k :: 0 <= k < |fs| ==> c !in fs[k]
  {
    if |fs| > 0 {
      CountZeroIff(fs[0], c);
      CountInZero(fs[1..], c);
      if CountIn(fs, c) == 0 {
        forall k | 0 <= k < |fs| ensures c !in fs[k] {
          if k > 0 { assert fs[k] == fs[1..][k - 1]; }
        }
      }
      if forall k :: 0 <= k < |fs| ==> c !in fs[k] {
        forall k | 0 <= k < |fs[1..]| ensures c !in fs[1..][k] {
          assert fs[1..][k] == fs[k + 1];
        }
      }
    }
  }

  /** A joined line holds the |fs| - 1 separators it added plus those inside its fields. */
  lemma {:induction false} CountJoin(fs: seq<string>, sep: char)
    requires |fs| >= 1
    ensures Count(Join(fs, sep), sep) == |fs| - 1 + CountIn(fs, sep)
  {
    if |fs| > 1 {
      CountAppend(fs[0] + [sep], Join(fs[1..], sep), sep);
      CountAppend(fs[0], [sep], sep);
      CountJoin(fs[1..], sep);
    }
  }
}
