/** Signer graphs without a cycle are those whose keys can be ranked. */
module CertRank {
  import opened CertTrust
  import opened CertExpected

  /** Key b signed a certificate of key a. */
  ghost predicate SignedBy(g: Keys, a: KeyId, b: KeyId) {
    && a in g && b in g && a != b && !Terminal(g[a].trust)
    && exists i :: 0 <= i < |g[a].certs| && g[a].certs[i].caKeyId == b
  }

  /** Each key is signed by the next. */
  ghost predicate SignerPath(g: Keys, p: seq<KeyId>) {
    forall i :: 0 <= i < |p| - 1 ==> SignedBy(g, p[i], p[i + 1])
  }

  /** No path of signers returns to its start. */
  ghost predicate Acyclic(g: Keys) {
    forall p :: SignerPath(g, p) && |p| > 1 ==> p[0] != p[|p| - 1]
  }

  lemma PartOfPath(g: Keys, p: seq<KeyId>, i: nat, j: nat)
    requires SignerPath(g, p) && i <= j <= |p|
    ensures SignerPath(g, p[i..j])
  {
    hide SignedBy;
    var c := p[i..j];
    forall k | 0 <= k < |c| - 1 ensures SignedBy(g, c[k], c[k + 1]) {
      var n := i + k;
      assert SignedBy(g, p[n], p[n + 1]);
    }
  }

  lemma ShortPath(g: Keys, a: KeyId)
    ensures SignerPath(g, [a])
  {
  }

  lemma LongerPath(g: Keys, q: seq<KeyId>, b: KeyId)
    requires q != [] && SignerPath(g, q) && SignedBy(g, q[|q| - 1], b)
    ensures SignerPath(g, q + [b])
  {
    hide SignedBy;
    var p := q + [b];
    forall i | 0 <= i < |p| - 1 ensures SignedBy(g, p[i], p[i + 1]) {
      if i < |q| - 1 { assert SignedBy(g, q[i], q[i + 1]); }
    }
  }

  lemma {:induction false} RankFalls(g: Keys, rank: map<KeyId, nat>, p: seq<KeyId>)
    requires Ranked(g, rank) && SignerPath(g, p) && |p| > 1
    ensures p[0] in rank && p[|p| - 1] in rank && rank[p[|p| - 1]] < rank[p[0]]
    decreases |p|
  {
    assert SignedBy(g, p[0], p[1]);
    if |p| > 2 {
      var rest := p[1..];
      PartOfPath(g, p, 1, |p|);
      RankFalls(g, rank, rest);
    }
  }

  // ---------------------------------------------------------------- a ranking from acyclicity

  /** A key of s that no key of s signed. */
  ghost predicate Unsigned(g: Keys, s: set<KeyId>, m: KeyId) {
    m in s && forall b :: b in s ==> !SignedBy(g, m, b)
  }

  /** If every key of s is signed within s, there are paths of any length. */
  lemma {:induction false} Walk(g: Keys, s: set<KeyId>, n: nat) returns (p: seq<KeyId>)
    requires s != {} && n > 0 && forall m :: m in s ==> !Unsigned(g, s, m)
    ensures |p| == n && SignerPath(g, p) && forall x :: x in p ==> x in s
    decreases n
  {
    hide SignedBy, SignerPath;
    if n == 1 {
      var a :| a in s;
      p := [a];
      ShortPath(g, a);
    } else {
      var q := Walk(g, s, n - 1);
      var last := q[n - 2];
      assert !Unsigned(g, s, last);
      var b :| b in s && SignedBy(g, last, b);
      p := q + [b];
      LongerPath(g, q, b);
    }
  }

  lemma {:induction false} SubsetSize(a: set<KeyId>, b: set<KeyId>)
    requires a <= b
    ensures |a| <= |b|
  {
    if a != {} {
      var x :| x in a;
      SubsetSize(a - {x}, b - {x});
    }
  }

  function Members(p: seq<KeyId>): set<KeyId> {
    set x | x in p
  }

  lemma {:induction false} DistinctSize(p: seq<KeyId>)
    requires forall i, j :: 0 <= i < j < |p| ==> p[i] != p[j]
    ensures |Members(p)| == |p|
  {
    if p != [] {
      var front, last := p[..|p| - 1], p[|p| - 1];
      DistinctSize(front);
      assert p == front + [last];
      assert Members(p) == Members(front) + {last};
    }
  }

  /** A path longer than its set of keys repeats one. */
  lemma Repeats(p: seq<KeyId>, s: set<KeyId>)
    requires |p| > |s| && forall x :: x in p ==> x in s
    ensures exists i, j :: 0 <= i < j < |p| && p[i] == p[j]
  {
    if forall i, j :: 0 <= i < j < |p| ==> p[i] != p[j] {
      DistinctSize(p);
      SubsetSize(Members(p), s);
    }
  }

  lemma CycleInside(g: Keys, p: seq<KeyId>, i: nat, j: nat)
    requires SignerPath(g, p) && i < j < |p| && p[i] == p[j]
    ensures !Acyclic(g)
  {
    var c := p[i..j + 1];
    PartOfPath(g, p, i, j + 1);
    assert c[0] == c[|c| - 1];
  }

  lemma SomeUnsigned(g: Keys, s: set<KeyId>)
    requires Acyclic(g) && s != {}
    ensures exists m :: Unsigned(g, s, m)
  {
    if forall m :: m in s ==> !Unsigned(g, s, m) {
      var p := Walk(g, s, |s| + 1);
      Repeats(p, s);
      var i, j :| 0 <= i < j < |p| && p[i] == p[j];
      CycleInside(g, p, i, j);
    }
  }

  ghost predicate RankedOn(g: Keys, s: set<KeyId>, rank: map<KeyId, nat>) {
    rank.Keys == s && forall a, b :: a in s && b in s && SignedBy(g, a, b) ==> rank[b] < rank[a]
  }

  lemma {:induction false} RankSet(g: Keys, s: set<KeyId>) returns (rank: map<KeyId, nat>)
    requires Acyclic(g)
    ensures RankedOn(g, s, rank)
    decreases s
  {
    if s == {} {
      rank := map[];
    } else {
      SomeUnsigned(g, s);
      var m :| Unsigned(g, s, m);
      var rest := RankSet(g, s - {m});
      rank := map k | k in s :: if k == m then 0 else rest[k] + 1;
    }
  }

  /** A ranking exists exactly when the signer graph has no cycle. */
  lemma RankedIffAcyclic(g: Keys)
    ensures (exists rank :: Ranked(g, rank)) <==> Acyclic(g)
  {
    if rank :| Ranked(g, rank) {
      forall p | SignerPath(g, p) && |p| > 1 ensures p[0] != p[|p| - 1] {
        RankFalls(g, rank, p);
      }
    }
    if Acyclic(g) {
      var rank := RankSet(g, g.Keys);
      forall id, i | id in g && !Terminal(g[id].trust) && 0 <= i < |g[id].certs|
        ensures var ca := g[id].certs[i].caKeyId; ca in g && ca != id ==> rank[ca] < rank[id]
      {
        var ca := g[id].certs[i].caKeyId;
        if ca in g && ca != id { assert SignedBy(g, id, ca); }
      }
      assert Ranked(g, rank);
    }
  }
}
