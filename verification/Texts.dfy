/** Cutting sequences into pieces. */
module Texts {
  lemma SliceOf<T>(t: seq<T>, i: nat, j: nat, m: nat, n: nat)
    requires i <= j <= |t| && m <= n <= j - i
    ensures t[i..j][m..n] == t[i + m..i + n]
  {
    forall k | 0 <= k < n - m ensures t[i..j][m..n][k] == t[i + m..i + n][k] {
      assert t[i..j][m + k] == t[i + (m + k)];
    }
  }

  /** A part of a text that is made of three pieces. */
  lemma Pieces<T>(t: seq<T>, i: nat, j: nat, a: seq<T>, b: seq<T>, c: seq<T>)
    requires i <= j <= |t| && t[i..j] == a + b + c
    ensures var k := i + |a|;
            k + |b| <= j && t[i..k] == a && t[k..k + |b|] == b && t[k + |b|..j] == c
  {
    var s := a + b + c;
    var k := i + |a|;
    assert s[..|a|] == a && s[|a|..|a| + |b|] == b && s[|a| + |b|..] == c;
    SliceOf(t, i, j, 0, |a|);
    SliceOf(t, i, j, |a|, |a| + |b|);
    SliceOf(t, i, j, |a| + |b|, |s|);
    assert s[0..|a|] == s[..|a|] && s[|a| + |b|..|s|] == s[|a| + |b|..];
  }

  lemma SplitAt<T>(t: seq<T>, i: nat, j: nat, k: nat, e: nat)
    requires i <= j <= k <= e <= |t|
    ensures t[i..e] == t[i..j] + t[j..k] + t[k..e]
  {
  }

  lemma Appended<T>(a: seq<T>, b: seq<T>, c: seq<T>)
    ensures a + b + c == a + (b + c)
  {
  }
}
