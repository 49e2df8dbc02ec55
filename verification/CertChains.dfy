/** Soundness of the trust evaluation: every key it trusts has a chain of
certificates to a root, cycles or not. */
module CertChains {
  import opened Wrappers
  import opened CertScope
  import opened CertTrust

  /** The certificate a key is trusted by. */
  ghost predicate HasChosen(k: PublicKey) {
    0 <= k.idxNewest < |k.certs|
  }

  ghost function Chosen(k: PublicKey): Cert
    requires HasChosen(k)
  {
    k.certs[k.idxNewest]
  }

  /** The chosen certificate of key id verifies, and gives exactly the scope the
  key has: its own for a root, its own within the signer's otherwise. */
  ghost predicate Backed(w: World, keys: Keys, id: KeyId)
    requires id in keys
  {
    var k := keys[id];
    && HasChosen(k)
    && var c := Chosen(k);
    && c.caKeyId in keys
    && w.verify(keys[c.caKeyId].key, c.data, c.signature)
    && (if c.caKeyId == id then w.root.None? && k.scope == c.scope
        else IsTrusted(keys[c.caKeyId].trust) && k.scope == IntersectScopes(keys[c.caKeyId].scope, c.scope))
  }

  /** A root: hardcoded, or self-signed where that is allowed. */
  ghost predicate Root(w: World, keys: Keys, id: KeyId) {
    && id in keys
    && (|| keys[id].trust == Hardcoded
        || (keys[id].trust == Trusted && Backed(w, keys, id) && Chosen(keys[id]).caKeyId == id))
  }

  /** Each key of the path is trusted by a certificate of the next, and the last
  is a root. */
  ghost predicate Chain(w: World, keys: Keys, path: seq<KeyId>)
    decreases |path|
  {
    && path != []
    && if |path| == 1 then Root(w, keys, path[0])
       else
         && path[0] in keys && keys[path[0]].trust == Trusted && Backed(w, keys, path[0])
         && Chosen(keys[path[0]]).caKeyId == path[1] && path[0] != path[1]
         && Chain(w, keys, path[1..])
  }

  ghost predicate HasChain(w: World, keys: Keys, id: KeyId) {
    exists path :: Chain(w, keys, path) && path[0] == id
  }

  /** Every trusted key has a chain and a scope in order. */
  ghost predicate Sound(w: World, keys: Keys) {
    && Graph(keys)
    && forall id :: id in keys && IsTrusted(keys[id].trust) ==>
         WellFormed(keys[id].scope) && HasChain(w, keys, id)
  }

  // ---------------------------------------------------------------- what a chain grants

  /** The apps or the data centers of a scope. */
  function Part(s: Scope, apps: bool): Param {
    if apps then s.apps else s.pops
  }

  /** Key id lets x through on its own: a hardcoded root does, and so does a key
  whose chosen certificate permits x. */
  ghost predicate KeyPermits(k: PublicKey, apps: bool, x: nat) {
    k.trust == Hardcoded || (HasChosen(k) && Part(Chosen(k).scope, apps).Permits(x))
  }

  ghost predicate KeyValidAt(k: PublicKey, t: int) {
    if k.trust == Hardcoded then t <= TIME_MAX else HasChosen(k) && t <= Chosen(k).scope.expiry
  }

  /** The scope of a chain's first key expires with the first certificate of the chain,
  and every key of the chain is trusted, so none is revoked. */
  lemma {:induction false} ChainExpiry(w: World, keys: Keys, path: seq<KeyId>, t: int)
    requires Graph(keys) && Chain(w, keys, path)
    ensures forall i :: 0 <= i < |path| ==> path[i] in keys && IsTrusted(keys[path[i]].trust)
    ensures t <= keys[path[0]].scope.expiry <==> forall i :: 0 <= i < |path| ==> KeyValidAt(keys[path[i]], t)
    decreases |path|
  {
    if |path| > 1 {
      var rest := path[1..];
      ChainExpiry(w, keys, rest, t);
      assert forall i :: 0 < i < |path| ==> path[i] == rest[i - 1];
      assert forall i :: 0 <= i < |rest| ==> rest[i] == path[i + 1];
    }
  }

  // ---------------------------------------------------------------- scopes are intersections

  /** The intersection of two lists that are not "all" does not read as "all". */
  ghost predicate ExactPair(a: Param, b: Param) {
    a.IsAll() || b.IsAll() || !Intersect(a, b).IsAll()
  }

  /** Every link of the path is exact. */
  ghost predicate ExactPath(keys: Keys, path: seq<KeyId>, apps: bool)
    decreases |path|
  {
    |path| > 1 ==>
      && path[0] in keys && path[1] in keys && HasChosen(keys[path[0]])
      && ExactPair(Part(keys[path[1]].scope, apps), Part(Chosen(keys[path[0]]).scope, apps))
      && ExactPath(keys, path[1..], apps)
  }

  ghost predicate AllPermit(keys: Keys, path: seq<KeyId>, apps: bool, x: nat) {
    forall i :: 0 <= i < |path| ==> path[i] in keys && KeyPermits(keys[path[i]], apps, x)
  }

  lemma AllPermitStep(keys: Keys, path: seq<KeyId>, apps: bool, x: nat)
    requires |path| > 1 && path[0] in keys
    ensures AllPermit(keys, path, apps, x) <==>
            KeyPermits(keys[path[0]], apps, x) && AllPermit(keys, path[1..], apps, x)
  {
    var rest := path[1..];
    assert forall i :: 0 <= i < |rest| ==> rest[i] == path[i + 1];
    if KeyPermits(keys[path[0]], apps, x) && AllPermit(keys, rest, apps, x) {
      forall i | 0 <= i < |path| ensures path[i] in keys && KeyPermits(keys[path[i]], apps, x) {
        if i > 0 { assert rest[i - 1] == path[i]; }
      }
    }
  }

  /** On an exact chain the first key's scope is the intersection of the chain. */
  lemma {:induction false} ExactChain(w: World, keys: Keys, path: seq<KeyId>, apps: bool, x: nat)
    requires Graph(keys) && Chain(w, keys, path) && ExactPath(keys, path, apps) && x != INVALID_ITEM
    ensures Part(keys[path[0]].scope, apps).Permits(x) <==> AllPermit(keys, path, apps, x)
    decreases |path|
  {
    if |path| > 1 {
      var a, b := Part(keys[path[1]].scope, apps), Part(Chosen(keys[path[0]]).scope, apps);
      ExactChain(w, keys, path[1..], apps, x);
      AllPermitStep(keys, path, apps, x);
      CommonMembers(a.items, b.items, x);
      assert Part(keys[path[0]].scope, apps) == Intersect(a, b);
    }
  }

  /** On any other chain there is nothing that all certificates permit. */
  lemma {:induction false} InexactChain(w: World, keys: Keys, path: seq<KeyId>, apps: bool, x: nat)
    requires Graph(keys) && Chain(w, keys, path) && !ExactPath(keys, path, apps) && x != INVALID_ITEM
    ensures !AllPermit(keys, path, apps, x)
    decreases |path|
  {
    AllPermitStep(keys, path, apps, x);
    var rest := path[1..];
    if !ExactPath(keys, rest, apps) {
      InexactChain(w, keys, rest, apps, x);
    } else {
      ExactChain(w, keys, rest, apps, x);
      var a, b := Part(keys[path[1]].scope, apps), Part(Chosen(keys[path[0]]).scope, apps);
      CommonMembers(a.items, b.items, x);
    }
  }

  /** Every scope in order permits something. */
  lemma PermitsSomething(p: Param) returns (x: nat)
    requires Sorted(p.items) && !p.IsEmpty()
    ensures x != INVALID_ITEM && p.Permits(x)
  {
    if p.IsAll() {
      x := 0;
    } else {
      x := if p.items[0] == INVALID_ITEM then p.items[1] else p.items[0];
    }
  }

  /** The certificates of the chain have a real item in common. */
  ghost predicate ChainShares(keys: Keys, path: seq<KeyId>, apps: bool) {
    exists x: nat :: x != INVALID_ITEM && AllPermit(keys, path, apps, x)
  }

  lemma ExactIsShared(w: World, keys: Keys, path: seq<KeyId>, apps: bool)
    requires Sound(w, keys) && Chain(w, keys, path)
    ensures ExactPath(keys, path, apps) <==> ChainShares(keys, path, apps)
  {
    assert IsTrusted(keys[path[0]].trust);
    if ExactPath(keys, path, apps) {
      var x := PermitsSomething(Part(keys[path[0]].scope, apps));
      ExactChain(w, keys, path, apps, x);
    } else {
      forall x: nat | x != INVALID_ITEM ensures !AllPermit(keys, path, apps, x) {
        InexactChain(w, keys, path, apps, x);
      }
    }
  }

  /** A trusted key's scope is the intersection of its chain exactly when the
  certificates of the chain have a real item in common. */
  lemma ChainScopeExactly(w: World, keys: Keys, path: seq<KeyId>, apps: bool)
    requires Sound(w, keys) && Chain(w, keys, path)
    ensures (forall x: nat :: x != INVALID_ITEM ==>
               (Part(keys[path[0]].scope, apps).Permits(x) <==> AllPermit(keys, path, apps, x)))
            <==> ChainShares(keys, path, apps)
  {
    ExactIsShared(w, keys, path, apps);
    if ExactPath(keys, path, apps) {
      forall x: nat | x != INVALID_ITEM
        ensures Part(keys[path[0]].scope, apps).Permits(x) <==> AllPermit(keys, path, apps, x)
      {
        ExactChain(w, keys, path, apps, x);
      }
    } else {
      assert IsTrusted(keys[path[0]].trust);
      var x := PermitsSomething(Part(keys[path[0]].scope, apps));
      InexactChain(w, keys, path, apps, x);
    }
  }

  /** A key with one certificate for the given apps, and the scope that it has. */
  function ExampleKey(ca: KeyId, apps: seq<nat>, scope: seq<nat>): PublicKey {
    PublicKey(Trusted, [ca], [Cert([], ca, [], Scope(ALL_ITEMS, Param(apps), 10), 0)],
              Scope(ALL_ITEMS, Param(scope), 10), 0)
  }

  function ExampleKeys(): Keys {
    map[1 := ExampleKey(1, [1, 2, INVALID_ITEM], [1, 2, INVALID_ITEM]),
        2 := ExampleKey(1, [2, 3, INVALID_ITEM], [2, INVALID_ITEM]),
        3 := ExampleKey(2, [1, 3, INVALID_ITEM], [INVALID_ITEM])]
  }

  lemma ExampleKeyInOrder(k: PublicKey, ca: KeyId, apps: seq<nat>, scope: seq<nat>, x: nat)
    requires k == ExampleKey(ca, apps, scope) && Sorted(apps) && Sorted(scope)
    requires scope != [] && |apps| > 1 && x !in apps
    ensures (forall c :: c in k.certs ==> WellFormed(c.scope)) && WellFormed(k.scope) && k.certs != []
    ensures k.trust == Trusted && !KeyPermits(k, true, x)
  {
  }

  lemma ExampleInOrder(keys: Keys)
    requires keys == ExampleKeys()
    ensures Graph(keys) && forall i :: i in keys ==> WellFormed(keys[i].scope) && !KeyPermits(keys[i], true, 6)
  {
    hide ExampleKey, WellFormed, KeyPermits;
    ExampleKeyInOrder(keys[1], 1, [1, 2, INVALID_ITEM], [1, 2, INVALID_ITEM], 6);
    ExampleKeyInOrder(keys[2], 1, [2, 3, INVALID_ITEM], [2, INVALID_ITEM], 6);
    ExampleKeyInOrder(keys[3], 2, [1, 3, INVALID_ITEM], [INVALID_ITEM], 6);
  }

  lemma ExampleBacked(w: World, keys: Keys)
    requires keys == ExampleKeys() && w.root.None? && forall k, d, s :: w.verify(k, d, s)
    ensures Backed(w, keys, 1) && Backed(w, keys, 2) && Backed(w, keys, 3)
    ensures Chosen(keys[1]).caKeyId == 1 && Chosen(keys[2]).caKeyId == 1 && Chosen(keys[3]).caKeyId == 2
  {
    hide Intersect;
    PairwiseSharedExample();
    AllWithAll();
  }

  lemma AllWithAll()
    ensures Intersect(ALL_ITEMS, ALL_ITEMS) == ALL_ITEMS
  {
  }

  lemma ExampleChains(w: World, keys: Keys)
    requires keys == ExampleKeys() && w.root.None? && forall k, d, s :: w.verify(k, d, s)
    ensures Chain(w, keys, [1]) && Chain(w, keys, [2, 1]) && Chain(w, keys, [3, 2, 1])
  {
    ExampleBacked(w, keys);
    hide Backed;
    assert [2, 1][1..] == [1];
    assert [3, 2, 1][1..] == [2, 1];
    assert Chain(w, keys, [1]);
    assert Chain(w, keys, [2, 1]);
  }

  /** A chain of three on which any two certificates share an app, all three share none,
  and the first key is trusted for every app. */
  lemma SharedPairsChainExample(w: World, keys: Keys)
    requires keys == ExampleKeys() && w.root.None? && forall k, d, s :: w.verify(k, d, s)
    ensures Sound(w, keys) && Chain(w, keys, [3, 2, 1])
    ensures keys[3].scope.apps.Permits(6) && forall i :: i in keys ==> !KeyPermits(keys[i], true, 6)
  {
    hide Graph, Chain, WellFormed, KeyPermits;
    ExampleInOrder(keys);
    ExampleChains(w, keys);
    var p1, p2, p3: seq<KeyId> := [1], [2, 1], [3, 2, 1];
    assert p1[0] == 1 && p2[0] == 2 && p3[0] == 3;
    assert HasChain(w, keys, 1) && HasChain(w, keys, 2) && HasChain(w, keys, 3);
  }

  ghost predicate CleanScope(s: Scope) {
    Clean(s.apps) && Clean(s.pops)
  }

  /** No certificate on the path lists the invalid item. */
  ghost predicate CleanPath(keys: Keys, path: seq<KeyId>) {
    forall i :: 0 <= i < |path| && path[i] in keys && HasChosen(keys[path[i]]) ==>
      CleanScope(Chosen(keys[path[i]]).scope)
  }

  /** Chains of certificates as they are meant to be are exact. */
  lemma {:induction false} CleanPathIsExact(w: World, keys: Keys, path: seq<KeyId>, apps: bool)
    requires Graph(keys) && Chain(w, keys, path) && CleanPath(keys, path)
    ensures ExactPath(keys, path, apps) && Clean(Part(keys[path[0]].scope, apps))
    decreases |path|
  {
    if |path| > 1 {
      var rest := path[1..];
      assert forall i :: 0 <= i < |rest| ==> rest[i] == path[i + 1];
      CleanPathIsExact(w, keys, rest, apps);
      IntersectPermits(Part(keys[path[1]].scope, apps), Part(Chosen(keys[path[0]]).scope, apps), 0);
      CommonMembers(Part(keys[path[1]].scope, apps).items, Part(Chosen(keys[path[0]]).scope, apps).items, INVALID_ITEM);
    }
  }

  // ---------------------------------------------------------------- soundness

  /** Chains only look at trusted keys. */
  lemma {:induction false} ChainKept(w: World, keys: Keys, r: Keys, path: seq<KeyId>)
    requires Chain(w, keys, path)
    requires forall k :: k in keys ==> k in r && r[k].key == keys[k].key
    requires forall k :: k in keys && IsTrusted(keys[k].trust) ==> r[k] == keys[k]
    ensures Chain(w, r, path)
    decreases |path|
  {
    if |path| > 1 { ChainKept(w, keys, r, path[1..]); }
  }

  /** Changing keys that are not trusted leaves soundness to the new ones. */
  lemma SoundKept(w: World, keys: Keys, r: Keys)
    requires Sound(w, keys) && Graph(r) && r.Keys == keys.Keys
    requires forall k :: k in keys ==> r[k].key == keys[k].key
    requires forall k :: k in keys && IsTrusted(keys[k].trust) ==> r[k] == keys[k]
    ensures forall k :: k in keys && IsTrusted(keys[k].trust) ==>
              WellFormed(r[k].scope) && HasChain(w, r, k)
  {
    forall k | k in keys && IsTrusted(keys[k].trust) ensures HasChain(w, r, k) {
      var path :| Chain(w, keys, path) && path[0] == k;
      ChainKept(w, keys, r, path);
    }
  }

  /** The scope being built for key id is what its best certificate offers. */
  ghost predicate Promise(w: World, keys: Keys, id: KeyId)
    requires Working(keys, id)
  {
    keys[id].idxNewest >= 0 ==>
      Offer(w, keys, id, keys[id].certs[keys[id].idxNewest]) == Some(keys[id].scope)
  }

  lemma OfferKept(w: World, keys: Keys, r: Keys, id: KeyId, cert: Cert)
    requires Working(keys, id) && Settles(keys, r) && Offer(w, keys, id, cert).Some?
    ensures Offer(w, r, id, cert) == Offer(w, keys, id, cert)
  {
  }

  lemma EvalSound(w: World, keys: Keys, id: KeyId)
    requires Sound(w, keys) && id in keys
    ensures Sound(w, Eval(w, keys, id))
    decreases UnknownKeys(keys), 0, 0
  {
    if keys[id].trust == Unknown {
      var k1 := Begin(keys, id);
      assert UnknownKeys(k1) == UnknownKeys(keys) - {id};
      SoundKept(w, keys, k1);
      ScanSound(w, k1, id, 0);
      ConcludeSound(w, Scan(w, k1, id, 0), id);
    }
  }

  lemma ScanSound(w: World, keys: Keys, id: KeyId, i: nat)
    requires Sound(w, keys) && Working(keys, id) && i <= |keys[id].certs| && Promise(w, keys, id)
    ensures var r := Scan(w, keys, id, i); Sound(w, r) && Working(r, id) && Promise(w, r, id)
    decreases UnknownKeys(keys), 2, |keys[id].certs| - i
  {
    if i < |keys[id].certs| {
      ConsiderSound(w, keys, id, i);
      var k1 := Consider(w, keys, id, i);
      SettlesKeepsGraph(keys, k1, id);
      ScanSound(w, k1, id, i + 1);
    }
  }

  lemma ConsiderSound(w: World, keys: Keys, id: KeyId, i: nat)
    requires Sound(w, keys) && Working(keys, id) && i < |keys[id].certs| && Promise(w, keys, id)
    ensures var r := Consider(w, keys, id, i); Sound(w, r) && Working(r, id) && Promise(w, r, id)
    decreases UnknownKeys(keys), 1, 1
  {
    var ca := keys[id].certs[i].caKeyId;
    if ca in keys && ca != id && keys[ca].trust != UnknownWorking { EvalSound(w, keys, ca); }
    var k1 := EvalSigner(w, keys, id, i);
    if keys[id].idxNewest >= 0 { OfferKept(w, keys, k1, id, keys[id].certs[keys[id].idxNewest]); }
    ChooseSound(w, k1, id, i);
  }

  lemma ChooseSound(w: World, keys: Keys, id: KeyId, i: nat)
    requires Sound(w, keys) && Working(keys, id) && i < |keys[id].certs| && Promise(w, keys, id)
    ensures var r := Choose(keys, id, i, Offer(w, keys, id, keys[id].certs[i]));
            Sound(w, r) && Working(r, id) && Promise(w, r, id)
  {
    var r := Choose(keys, id, i, Offer(w, keys, id, keys[id].certs[i]));
    SoundKept(w, keys, r);
  }

  lemma ConcludeSound(w: World, keys: Keys, id: KeyId)
    requires Sound(w, keys) && Working(keys, id) && Promise(w, keys, id)
    ensures Sound(w, Conclude(keys, id))
  {
    var r := Conclude(keys, id);
    SoundKept(w, keys, r);
    if keys[id].idxNewest >= 0 {
      NewKeyHasChain(w, keys, id);
    }
  }

  lemma NewKeyHasChain(w: World, keys: Keys, id: KeyId)
    requires Sound(w, keys) && Working(keys, id) && Promise(w, keys, id) && keys[id].idxNewest >= 0
    ensures var r := Conclude(keys, id); WellFormed(r[id].scope) && HasChain(w, r, id)
  {
    var r := Conclude(keys, id);
    var c := keys[id].certs[keys[id].idxNewest];
    assert c in keys[id].certs;
    assert Backed(w, r, id);
    if c.caKeyId == id {
      assert Chain(w, r, [id]);
    } else {
      IntersectSorted(keys[c.caKeyId].scope, c.scope);
      var path :| Chain(w, keys, path) && path[0] == c.caKeyId;
      ChainKept(w, keys, r, path);
      assert ([id] + path)[1..] == path;
      assert Chain(w, r, [id] + path);
    }
  }
}
