/** Which keys of a certificate store are trusted, and for what.

`Eval` is the recursive evaluation with cycle detection.  CertChains says what
makes a key trusted, CertExpected what the evaluation gives when signatures do
not form a cycle. */
module CertTrust {
  import opened Wrappers
  import opened CertScope

  type Bytes = seq<nat>
  type KeyId = nat

  /** The fields of a parsed certificate message. */
  datatype CertBody = CertBody(
    identityBound: bool, isEd25519: bool, keyData: Bytes,
    timeCreated: int, timeExpiry: int, popIds: seq<nat>, appIds: seq<nat>)

  /** What the store takes from outside: signature verification (key, data,
  signature), the key digest, the message parser, and the hardcoded root key.
  Without a hardcoded root, self-signed certificates are roots. */
  datatype World = World(
    verify: (Bytes, Bytes, Bytes) -> bool,
    digest: Bytes -> nat,
    parse: Bytes -> Option<CertBody>,
    root: Option<Bytes>)

  datatype Trust = Revoked | NotTrusted | UnknownWorking | Unknown | Trusted | Hardcoded

  datatype Cert = Cert(data: Bytes, caKeyId: KeyId, signature: Bytes, scope: Scope, timeCreated: int)

  datatype PublicKey = PublicKey(trust: Trust, key: Bytes, certs: seq<Cert>, scope: Scope, idxNewest: int)

  type Keys = map<KeyId, PublicKey>

  predicate IsTrusted(t: Trust) {
    t == Trusted || t == Hardcoded
  }

  /** States an evaluation never changes. */
  predicate Terminal(t: Trust) {
    t == Revoked || t == Hardcoded
  }

  /** Every stored scope is in order, only revoked or hardcoded keys have no
  certificate, and a hardcoded key is good for everything. */
  ghost predicate Graph(keys: Keys) {
    forall id :: id in keys ==>
      && (forall c :: c in keys[id].certs ==> WellFormed(c.scope))
      && (!Terminal(keys[id].trust) ==> keys[id].certs != [])
      && (keys[id].trust == Hardcoded ==> keys[id].scope == FULL_SCOPE)
  }

  ghost function UnknownKeys(keys: Keys): set<KeyId> {
    set id | id in keys && keys[id].trust == Unknown
  }

  // ---------------------------------------------------------------- evaluation

  function NonEmpty(s: Scope): Option<Scope> {
    if s.apps.IsEmpty() || s.pops.IsEmpty() then None else Some(s)
  }

  /** The scope a certificate gives key id, going by the current state of its
  signer; None if it is not valid. */
  function Offer(w: World, keys: Keys, id: KeyId, cert: Cert): Option<Scope> {
    if cert.caKeyId !in keys then None
    else if cert.caKeyId == id then
      if w.root.Some? || !w.verify(keys[id].key, cert.data, cert.signature) then None
      else NonEmpty(cert.scope)
    else
      var signer := keys[cert.caKeyId];
      if !IsTrusted(signer.trust) || !w.verify(signer.key, cert.data, cert.signature) then None
      else NonEmpty(IntersectScopes(signer.scope, cert.scope))
  }

  /** Takes certificate i as the key's certificate if it is valid and newer. */
  function Choose(keys: Keys, id: KeyId, i: nat, offer: Option<Scope>): Keys
    requires id in keys && i < |keys[id].certs| && -1 <= keys[id].idxNewest < |keys[id].certs|
  {
    var k := keys[id];
    if offer.Some? && (k.idxNewest < 0 || k.certs[k.idxNewest].timeCreated < k.certs[i].timeCreated)
    then keys[id := k.(scope := offer.value, idxNewest := i)]
    else keys
  }

  function Conclude(keys: Keys, id: KeyId): Keys
    requires id in keys
  {
    if keys[id].idxNewest < 0
    then keys[id := keys[id].(trust := NotTrusted, scope := EMPTY_SCOPE)]
    else keys[id := keys[id].(trust := Trusted)]
  }

  function Begin(keys: Keys, id: KeyId): Keys
    requires id in keys
  {
    keys[id := keys[id].(trust := UnknownWorking, idxNewest := -1)]
  }

  /** r differs from keys only in that some unknown keys got an answer. */
  ghost predicate Settles(keys: Keys, r: Keys) {
    && r.Keys == keys.Keys
    && forall k :: k in keys ==>
         || r[k] == keys[k]
         || (&& keys[k].trust == Unknown && r[k].trust in {Trusted, NotTrusted}
             && r[k].key == keys[k].key && r[k].certs == keys[k].certs)
  }

  /** The same, while key id is being worked on. */
  ghost predicate SettlesAround(keys: Keys, r: Keys, id: KeyId) {
    && id in keys && id in r
    && keys[id].trust == UnknownWorking
    && -1 <= r[id].idxNewest < |r[id].certs|
    && r[id] == keys[id].(scope := r[id].scope, idxNewest := r[id].idxNewest)
    && Settles(keys[id := r[id]], r)
  }

  ghost predicate Working(keys: Keys, id: KeyId) {
    id in keys && keys[id].trust == UnknownWorking && -1 <= keys[id].idxNewest < |keys[id].certs|
  }

  lemma SettlesKeepsGraph(keys: Keys, r: Keys, id: KeyId)
    requires SettlesAround(keys, r, id) && Graph(keys)
    ensures Graph(r) && Working(r, id) && UnknownKeys(r) <= UnknownKeys(keys)
    ensures r[id].certs == keys[id].certs
  {
    forall k | k in r ensures r[k].certs == keys[k].certs && (Terminal(keys[k].trust) ==> r[k] == keys[k])
                              && Terminal(keys[k].trust) == Terminal(r[k].trust)
    {
      assert k in keys;
    }
  }

  lemma SettlesTransitive(a: Keys, b: Keys, c: Keys, id: KeyId)
    requires SettlesAround(a, b, id) && SettlesAround(b, c, id)
    ensures SettlesAround(a, c, id)
  {
  }

  /** `RecursiveEvaluateKeyTrust` */
  ghost function Eval(w: World, keys: Keys, id: KeyId): (r: Keys)
    requires id in keys && Graph(keys)
    ensures Settles(keys, r)
    ensures r[id].trust == Unknown ==> false
    decreases UnknownKeys(keys), 0, 0
  {
    if keys[id].trust != Unknown then keys
    else
      var k1 := Begin(keys, id);
      assert UnknownKeys(k1) == UnknownKeys(keys) - {id};
      var k2 := Scan(w, k1, id, 0);
      Conclude(k2, id)
  }

  /** Certificates i and up of key id. */
  ghost function Scan(w: World, keys: Keys, id: KeyId, i: nat): (r: Keys)
    requires Working(keys, id) && Graph(keys) && i <= |keys[id].certs|
    ensures SettlesAround(keys, r, id)
    decreases UnknownKeys(keys), 2, |keys[id].certs| - i
  {
    if i == |keys[id].certs| then keys
    else
      var k1 := Consider(w, keys, id, i);
      SettlesKeepsGraph(keys, k1, id);
      var r := Scan(w, k1, id, i + 1);
      SettlesTransitive(keys, k1, r, id);
      r
  }

  /** The state after the signer of certificate i was evaluated. */
  ghost function EvalSigner(w: World, keys: Keys, id: KeyId, i: nat): (r: Keys)
    requires Working(keys, id) && Graph(keys) && i < |keys[id].certs|
    ensures Settles(keys, r)
    decreases UnknownKeys(keys), 1, 0
  {
    var ca := keys[id].certs[i].caKeyId;
    if ca in keys && ca != id && keys[ca].trust != UnknownWorking then Eval(w, keys, ca) else keys
  }

  /** One certificate of key id. */
  ghost function Consider(w: World, keys: Keys, id: KeyId, i: nat): (r: Keys)
    requires Working(keys, id) && Graph(keys) && i < |keys[id].certs|
    ensures SettlesAround(keys, r, id)
    decreases UnknownKeys(keys), 1, 1
  {
    var k1 := EvalSigner(w, keys, id, i);
    Choose(k1, id, i, Offer(w, k1, id, keys[id].certs[i]))
  }
}
