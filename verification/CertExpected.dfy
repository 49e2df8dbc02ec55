/** Completeness of the trust evaluation: when no chain of signatures returns to
its start, the result is the plain recursive definition of trust, whatever the
order in which keys are visited. */
module CertExpected {
  import opened Wrappers
  import opened CertScope
  import opened CertTrust

  /** Signers rank below the keys they sign.  CertRank shows that such a ranking exists
  exactly when the signer graph, without self-signatures, has no cycle. */
  ghost predicate Ranked(g: Keys, rank: map<KeyId, nat>) {
    && rank.Keys == g.Keys
    && forall id, i :: id in g && !Terminal(g[id].trust) && 0 <= i < |g[id].certs| ==>
         var ca := g[id].certs[i].caKeyId;
         ca in g && ca != id ==> rank[ca] < rank[id]
  }

  /** The scope a key is trusted for, if any: everything for a hardcoded key,
  nothing for a revoked one, and otherwise what its newest valid certificate
  grants. */
  ghost function ExpectedScope(w: World, g: Keys, rank: map<KeyId, nat>, id: KeyId): Option<Scope>
    requires Ranked(g, rank) && id in g
    decreases rank[id], 2, 0
  {
    if g[id].trust == Hardcoded then Some(g[id].scope)
    else if g[id].trust == Revoked then None
    else
      var best := Newest(w, g, rank, id, |g[id].certs|);
      if best < 0 then None else Grant(w, g, rank, id, best)
  }

  /** What certificate i of key id grants, if it is valid. */
  ghost function Grant(w: World, g: Keys, rank: map<KeyId, nat>, id: KeyId, i: nat): Option<Scope>
    requires Ranked(g, rank) && id in g && !Terminal(g[id].trust) && i < |g[id].certs|
    decreases rank[id], 0, 0
  {
    var c := g[id].certs[i];
    if c.caKeyId !in g || !w.verify(g[c.caKeyId].key, c.data, c.signature) then None
    else if c.caKeyId == id then
      if w.root.Some? then None else NonEmpty(c.scope)
    else
      match ExpectedScope(w, g, rank, c.caKeyId)
      case None => None
      case Some(s) => NonEmpty(IntersectScopes(s, c.scope))
  }

  /** The newest valid certificate among the first n, the first of equally new
  ones; -1 if none is valid. */
  ghost function Newest(w: World, g: Keys, rank: map<KeyId, nat>, id: KeyId, n: nat): (r: int)
    requires Ranked(g, rank) && id in g && !Terminal(g[id].trust) && n <= |g[id].certs|
    ensures -1 <= r < n
    decreases rank[id], 1, n
  {
    if n == 0 then -1
    else
      var r := Newest(w, g, rank, id, n - 1);
      if Grant(w, g, rank, id, n - 1).Some?
         && (r < 0 || g[id].certs[r].timeCreated < g[id].certs[n - 1].timeCreated)
      then n - 1 else r
  }

  /** `Newest` picks a valid certificate if there is one; no valid certificate is
  newer, and none as new comes before it. */
  lemma {:induction false} NewestIsNewest(w: World, g: Keys, rank: map<KeyId, nat>, id: KeyId, n: nat)
    requires Ranked(g, rank) && id in g && !Terminal(g[id].trust) && n <= |g[id].certs|
    ensures var r, certs := Newest(w, g, rank, id, n), g[id].certs;
            && (r >= 0 ==> Grant(w, g, rank, id, r).Some?)
            && forall j | 0 <= j < n && Grant(w, g, rank, id, j).Some? ::
                 r >= 0 && (certs[j].timeCreated < certs[r].timeCreated
                            || (certs[j].timeCreated == certs[r].timeCreated && r <= j))
    decreases n
  {
    if n > 0 { NewestIsNewest(w, g, rank, id, n - 1); }
  }

  /** keys is the graph g in some stage of its evaluation. */
  ghost predicate SameGraph(g: Keys, keys: Keys) {
    && keys.Keys == g.Keys
    && forall k :: k in g ==>
         && keys[k].key == g[k].key && keys[k].certs == g[k].certs
         && (Terminal(g[k].trust) || Terminal(keys[k].trust) ==> keys[k] == g[k])
  }

  /** Every answer reached so far is the expected one. */
  ghost predicate Agrees(w: World, g: Keys, rank: map<KeyId, nat>, keys: Keys)
    requires Ranked(g, rank) && SameGraph(g, keys)
  {
    forall k :: k in keys ==>
      match keys[k].trust
      case Trusted => ExpectedScope(w, g, rank, k) == Some(keys[k].scope)
                      && keys[k].idxNewest == Newest(w, g, rank, k, |g[k].certs|)
      case NotTrusted => ExpectedScope(w, g, rank, k) == None
      case _ => true
  }

  lemma SettlesKeepsSameGraph(g: Keys, keys: Keys, r: Keys)
    requires SameGraph(g, keys) && Settles(keys, r)
    ensures SameGraph(g, r)
  {
    forall k | k in g ensures r[k].key == g[k].key && r[k].certs == g[k].certs
                              && (Terminal(g[k].trust) || Terminal(r[k].trust) ==> r[k] == g[k])
    {
      assert k in keys;
    }
  }

  /** Once its signer has an answer, what a certificate offers is what it grants. */
  lemma OfferIsGrant(w: World, g: Keys, rank: map<KeyId, nat>, keys: Keys, id: KeyId, i: nat)
    requires Ranked(g, rank) && SameGraph(g, keys) && Agrees(w, g, rank, keys)
    requires id in g && !Terminal(g[id].trust) && i < |g[id].certs|
    requires var ca := g[id].certs[i].caKeyId;
             ca in g && ca != id ==> keys[ca].trust != Unknown && keys[ca].trust != UnknownWorking
    ensures Offer(w, keys, id, g[id].certs[i]) == Grant(w, g, rank, id, i)
  {
    var ca := g[id].certs[i].caKeyId;
    if ca in g && ca != id {
      assert ca in keys;
      match keys[ca].trust
      case Trusted =>
      case NotTrusted =>
      case _ =>
    }
  }

  /** Keys being worked on rank above key id, or at it. */
  ghost predicate WorkingAbove(keys: Keys, rank: map<KeyId, nat>, id: KeyId)
    requires id in rank && keys.Keys <= rank.Keys
  {
    forall k :: k in keys && keys[k].trust == UnknownWorking ==> rank[k] > rank[id]
  }

  ghost predicate WorkingFrom(keys: Keys, rank: map<KeyId, nat>, id: KeyId)
    requires id in rank && keys.Keys <= rank.Keys
  {
    forall k :: k in keys && keys[k].trust == UnknownWorking ==> rank[k] >= rank[id]
  }

  /** The scan of key id is on its way to the newest certificate. */
  ghost predicate OnTrack(w: World, g: Keys, rank: map<KeyId, nat>, keys: Keys, id: KeyId, i: nat)
    requires Ranked(g, rank)
  {
    && Graph(keys) && Working(keys, id) && SameGraph(g, keys) && Agrees(w, g, rank, keys) && WorkingFrom(keys, rank, id)
    && i <= |g[id].certs| && !Terminal(g[id].trust)
    && keys[id].idxNewest == Newest(w, g, rank, id, i)
    && (keys[id].idxNewest >= 0 ==> Grant(w, g, rank, id, keys[id].idxNewest) == Some(keys[id].scope))
  }

  /** Work on key id that leaves its answer open changes nothing else. */
  lemma WorkingOn(w: World, g: Keys, rank: map<KeyId, nat>, keys: Keys, id: KeyId, x: PublicKey)
    requires Ranked(g, rank) && Graph(keys) && SameGraph(g, keys) && Agrees(w, g, rank, keys)
    requires id in keys && !Terminal(keys[id].trust)
    requires x.trust == UnknownWorking && x.key == keys[id].key && x.certs == keys[id].certs
    ensures var r := keys[id := x]; Graph(r) && SameGraph(g, r) && Agrees(w, g, rank, r)
  {
    var r := keys[id := x];
    assert SameGraph(g, r);
  }

  lemma EvalAgrees(w: World, g: Keys, rank: map<KeyId, nat>, keys: Keys, id: KeyId)
    requires Ranked(g, rank) && Graph(keys) && SameGraph(g, keys) && Agrees(w, g, rank, keys)
    requires id in keys && WorkingAbove(keys, rank, id)
    ensures var r := Eval(w, keys, id);
            && SameGraph(g, r) && Agrees(w, g, rank, r)
            && r[id].trust != Unknown && r[id].trust != UnknownWorking
    decreases UnknownKeys(keys), 0, 0
  {
    SettlesKeepsSameGraph(g, keys, Eval(w, keys, id));
    if keys[id].trust == Unknown {
      var k1 := Begin(keys, id);
      assert UnknownKeys(k1) == UnknownKeys(keys) - {id};
      WorkingOn(w, g, rank, keys, id, k1[id]);
      StartsOnTrack(w, g, rank, keys, id);
      ScanAgrees(w, g, rank, k1, id, 0);
      ConcludeAgrees(w, g, rank, Scan(w, k1, id, 0), id);
    }
  }

  lemma StartsOnTrack(w: World, g: Keys, rank: map<KeyId, nat>, keys: Keys, id: KeyId)
    requires Ranked(g, rank) && Graph(keys) && SameGraph(g, keys) && Agrees(w, g, rank, keys)
    requires id in keys && WorkingAbove(keys, rank, id) && keys[id].trust == Unknown
    ensures OnTrack(w, g, rank, Begin(keys, id), id, 0)
  {
    WorkingOn(w, g, rank, keys, id, Begin(keys, id)[id]);
  }

  lemma ConcludeAgrees(w: World, g: Keys, rank: map<KeyId, nat>, keys: Keys, id: KeyId)
    requires Ranked(g, rank) && id in g && OnTrack(w, g, rank, keys, id, |g[id].certs|)
    ensures SameGraph(g, Conclude(keys, id)) && Agrees(w, g, rank, Conclude(keys, id))
  {
  }

  lemma ScanAgrees(w: World, g: Keys, rank: map<KeyId, nat>, keys: Keys, id: KeyId, i: nat)
    requires Ranked(g, rank) && OnTrack(w, g, rank, keys, id, i)
    ensures OnTrack(w, g, rank, Scan(w, keys, id, i), id, |g[id].certs|)
    decreases UnknownKeys(keys), 2, |keys[id].certs| - i
  {
    if i < |keys[id].certs| {
      var k1 := Consider(w, keys, id, i);
      ConsiderAgrees(w, g, rank, keys, id, i);
      SettlesKeepsGraph(keys, k1, id);
      ScanAgrees(w, g, rank, k1, id, i + 1);
    }
  }

  lemma ConsiderAgrees(w: World, g: Keys, rank: map<KeyId, nat>, keys: Keys, id: KeyId, i: nat)
    requires Ranked(g, rank) && OnTrack(w, g, rank, keys, id, i) && i < |g[id].certs|
    ensures OnTrack(w, g, rank, Consider(w, keys, id, i), id, i + 1)
    decreases UnknownKeys(keys), 1, 2
  {
    hide Grant, Newest, ExpectedScope, Offer, Choose, EvalSigner, Agrees;
    var k1 := EvalSigner(w, keys, id, i);
    SignerAgrees(w, g, rank, keys, id, i);
    OfferIsGrant(w, g, rank, k1, id, i);
    ChooseAgrees(w, g, rank, k1, id, i);
  }

  /** Evaluating a signer, which ranks below id, leaves the scan of id on track. */
  lemma SignerAgrees(w: World, g: Keys, rank: map<KeyId, nat>, keys: Keys, id: KeyId, i: nat)
    requires Ranked(g, rank) && OnTrack(w, g, rank, keys, id, i) && i < |g[id].certs|
    ensures var k1, ca := EvalSigner(w, keys, id, i), g[id].certs[i].caKeyId;
            && OnTrack(w, g, rank, k1, id, i)
            && (ca in g && ca != id ==> k1[ca].trust != Unknown && k1[ca].trust != UnknownWorking)
    decreases UnknownKeys(keys), 1, 1
  {
    hide Grant, Newest, ExpectedScope, Agrees, Eval;
    var ca := keys[id].certs[i].caKeyId;
    var k1 := EvalSigner(w, keys, id, i);
    SettlesKeepsSameGraph(g, keys, k1);
    if ca in keys && ca != id {
      assert rank[ca] < rank[id];
      assert WorkingAbove(keys, rank, ca);
      EvalAgrees(w, g, rank, keys, ca);
    }
  }

  lemma ChooseAgrees(w: World, g: Keys, rank: map<KeyId, nat>, keys: Keys, id: KeyId, i: nat)
    requires Ranked(g, rank) && OnTrack(w, g, rank, keys, id, i) && i < |g[id].certs|
    requires Offer(w, keys, id, g[id].certs[i]) == Grant(w, g, rank, id, i)
    ensures OnTrack(w, g, rank, Choose(keys, id, i, Offer(w, keys, id, g[id].certs[i])), id, i + 1)
  {
    var r := Choose(keys, id, i, Offer(w, keys, id, g[id].certs[i]));
    assert r == keys[id := r[id]];
    WorkingOn(w, g, rank, keys, id, r[id]);
  }

  // ---------------------------------------------------------------- independence of the stage

  /** The expected answer is the same in every stage of an evaluation, and by every
  ranking. */
  lemma ExpectedSame(w: World, g: Keys, h: Keys, rank: map<KeyId, nat>, other: map<KeyId, nat>, id: KeyId)
    requires SameGraph(g, h) && Ranked(g, rank) && Ranked(h, other) && id in g
    ensures ExpectedScope(w, g, rank, id) == ExpectedScope(w, h, other, id)
    decreases rank[id], 2, 0
  {
    if !Terminal(g[id].trust) {
      NewestSame(w, g, h, rank, other, id, |g[id].certs|);
      var best := Newest(w, g, rank, id, |g[id].certs|);
      if best >= 0 { GrantSame(w, g, h, rank, other, id, best); }
    }
  }

  lemma GrantSame(w: World, g: Keys, h: Keys, rank: map<KeyId, nat>, other: map<KeyId, nat>, id: KeyId, i: nat)
    requires SameGraph(g, h) && Ranked(g, rank) && Ranked(h, other) && id in g
    requires !Terminal(g[id].trust) && i < |g[id].certs|
    ensures Grant(w, g, rank, id, i) == Grant(w, h, other, id, i)
    decreases rank[id], 0, 0
  {
    var ca := g[id].certs[i].caKeyId;
    if ca in g && ca != id { ExpectedSame(w, g, h, rank, other, ca); }
  }

  lemma NewestSame(w: World, g: Keys, h: Keys, rank: map<KeyId, nat>, other: map<KeyId, nat>, id: KeyId, n: nat)
    requires SameGraph(g, h) && Ranked(g, rank) && Ranked(h, other) && id in g
    requires !Terminal(g[id].trust) && n <= |g[id].certs|
    ensures Newest(w, g, rank, id, n) == Newest(w, h, other, id, n)
    decreases rank[id], 1, n
  {
    if n > 0 {
      GrantSame(w, g, h, rank, other, id, n - 1);
      NewestSame(w, g, h, rank, other, id, n - 1);
    }
  }

  lemma AgreesSame(w: World, g: Keys, h: Keys, rank: map<KeyId, nat>, keys: Keys)
    requires SameGraph(g, h) && Ranked(g, rank) && Ranked(h, rank) && SameGraph(g, keys) && SameGraph(h, keys)
    requires Agrees(w, g, rank, keys)
    ensures Agrees(w, h, rank, keys)
  {
    forall k | k in keys
      ensures ExpectedScope(w, g, rank, k) == ExpectedScope(w, h, rank, k)
      ensures !Terminal(g[k].trust) ==>
                Newest(w, g, rank, k, |g[k].certs|) == Newest(w, h, rank, k, |g[k].certs|)
    {
      ExpectedSame(w, g, h, rank, rank, k);
      if !Terminal(g[k].trust) { NewestSame(w, g, h, rank, rank, k, |g[k].certs|); }
    }
  }
}
