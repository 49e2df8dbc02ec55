/** The certificate store: adding certificates and revocations, keeping the
trust of every key up to date, and answering queries. */
module CertStore {
  import opened Wrappers
  import opened CertScope
  import opened CertTrust
  import opened CertChains
  import opened CertExpected
  import opened CertRank

  datatype SignedCert = SignedCert(data: Bytes, caKeyId: KeyId, signature: Bytes)

  const SIGNATURE_SIZE := 64
  const KEY_SIZE := 32

  function KeyIdOf(w: World, key: Bytes): KeyId {
    if |key| != KEY_SIZE then 0 else w.digest(key)
  }

  /** An empty list in the message means no restriction. */
  function ParamOf(ids: seq<nat>): Param {
    if ids == [] then ALL_ITEMS else Param(SortedSet(ids))
  }

  function ScopeOf(body: CertBody): Scope {
    Scope(ParamOf(body.popIds), ParamOf(body.appIds), body.timeExpiry)
  }

  lemma ScopeOfIsWellFormed(body: CertBody)
    ensures WellFormed(ScopeOf(body))
  {
    SortedSetItems(body.popIds);
    SortedSetItems(body.appIds);
    assert body.popIds != [] ==> body.popIds[0] in SortedSet(body.popIds);
    assert body.appIds != [] ==> body.appIds[0] in SortedSet(body.appIds);
  }

  /** A parsed parameter permits an item exactly when the message names it, names
  nothing, or names nothing but the invalid item. */
  lemma ParamPermits(ids: seq<nat>, x: nat)
    ensures ParamOf(ids).Permits(x) <==> x in ids || forall y :: y in ids ==> y == INVALID_ITEM
    ensures Clean(ParamOf(ids)) <==> INVALID_ITEM !in ids || forall y :: y in ids ==> y == INVALID_ITEM
  {
    SortedSetItems(ids);
    var s := SortedSet(ids);
    if ids != [] {
      assert ids[0] in s;
      if |s| == 1 {
        assert forall y :: y in s ==> y == s[0];
        assert s[0] in ids;
      } else {
        assert s[0] < s[1] && s[0] in ids && s[1] in ids;
      }
    }
  }

  datatype SetupError =
    | NoData | BadSignatureLength | ParseFailed | IdentityBound | BadKeyType | BadKey | NoExpiry | KeyCollision

  datatype Parsed = ParsedCert(cert: Cert, key: Bytes) | SetupFailed(error: SetupError)

  /** A message that makes a certificate. */
  ghost predicate IsCertMessage(w: World, msg: SignedCert) {
    && msg.data != [] && |msg.signature| == SIGNATURE_SIZE && w.parse(msg.data).Some?
    && var b := w.parse(msg.data).value;
    !b.identityBound && b.isEd25519 && |b.keyData| == KEY_SIZE && b.timeExpiry > 0
  }

  /** The store knows another key by the same id. */
  ghost predicate Collides(w: World, keys: Keys, msg: SignedCert)
    requires IsCertMessage(w, msg)
  {
    var key := w.parse(msg.data).value.keyData;
    var id := KeyIdOf(w, key);
    id in keys && keys[id].key != [] && keys[id].key != key
  }

  /** A known key after a certificate for it came in: a certificate with a signature that
  is there already is not added again, all others stay, and trust is as before. */
  ghost function WithCert(k: PublicKey, key: Bytes, cert: Cert): PublicKey {
    if exists c :: c in k.certs && c.signature == cert.signature then k
    else k.(key := key, certs := k.certs + [cert])
  }

  /** The same for the store; a new key is unknown at first. */
  ghost function WithNewCert(keys: Keys, id: KeyId, key: Bytes, cert: Cert): Keys {
    keys[id := if id in keys then WithCert(keys[id], key, cert) else PublicKey(Unknown, key, [cert], EMPTY_SCOPE, -1)]
  }

  /** `Cert::Setup` */
  method SetupCert(w: World, msg: SignedCert) returns (r: Parsed)
    ensures r.ParsedCert? <==> IsCertMessage(w, msg)
    ensures r.ParsedCert? ==> var b := w.parse(msg.data).value;
              && r.key == b.keyData
              && r.cert == Cert(msg.data, msg.caKeyId, msg.signature, ScopeOf(b), b.timeCreated)
  {
    if msg.data == [] { return SetupFailed(NoData); }
    if |msg.signature| != SIGNATURE_SIZE { return SetupFailed(BadSignatureLength); }
    match w.parse(msg.data) {
      case None => return SetupFailed(ParseFailed);
      case Some(b) =>
        if b.identityBound { return SetupFailed(IdentityBound); }
        if !b.isEd25519 { return SetupFailed(BadKeyType); }
        if |b.keyData| != KEY_SIZE { return SetupFailed(BadKey); }
        if b.timeExpiry <= 0 { return SetupFailed(NoExpiry); }
        var pops, apps := ALL_ITEMS, ALL_ITEMS;
        if |b.popIds| > 0 { pops := Setup(b.popIds); }
        if |b.appIds| > 0 { apps := Setup(b.appIds); }
        r := ParsedCert(Cert(msg.data, msg.caKeyId, msg.signature, Scope(pops, apps, b.timeExpiry), b.timeCreated),
                        b.keyData);
    }
  }

  /** A stored certificate says what its signed message says. */
  ghost predicate FromMessage(w: World, key: Bytes, c: Cert) {
    && w.parse(c.data).Some?
    && var b := w.parse(c.data).value;
    b.keyData == key && c.scope == ScopeOf(b) && c.timeCreated == b.timeCreated && b.timeExpiry > 0
  }

  ghost predicate KeyInOrder(w: World, id: KeyId, k: PublicKey) {
    && k.trust != UnknownWorking
    && (|k.key| == KEY_SIZE || (k.key == [] && k.trust == Revoked && k.certs == []))
    && (k.key != [] ==> KeyIdOf(w, k.key) == id)
    && (k.trust == Hardcoded ==> w.root == Some(k.key))
    && (forall c :: c in k.certs ==> FromMessage(w, k.key, c))
  }

  /** What holds of the stored keys at all times. */
  ghost predicate InOrder(w: World, keys: Keys) {
    Graph(keys) && forall id :: id in keys ==> KeyInOrder(w, id, keys[id])
  }

  /** What holds when the cached trust is marked valid: every key has an answer,
  every trusted key has a chain, and if signatures do not form a cycle the
  answers are the expected ones. */
  ghost predicate Settled(w: World, keys: Keys) {
    && Sound(w, keys)
    && (forall id :: id in keys ==> keys[id].trust != Unknown)
    && (forall rank :: Ranked(keys, rank) ==> Agrees(w, keys, rank, keys))
  }

  /** Forget every answer that is not final. */
  function Forget(keys: Keys): Keys {
    map id | id in keys :: if Terminal(keys[id].trust) then keys[id] else keys[id].(trust := Unknown)
  }

  lemma ForgetIsSound(w: World, keys: Keys)
    requires Graph(keys)
    ensures Sound(w, Forget(keys)) && SameGraph(keys, Forget(keys))
  {
    var f := Forget(keys);
    forall id | id in f && IsTrusted(f[id].trust) ensures HasChain(w, f, id) {
      assert f[id].trust == Hardcoded;
      assert Chain(w, f, [id]);
    }
  }

  /** In a settled store without a cycle of signers every key has the trust, the scope and
  the certificate of the recursive definition, by whatever ranking that is read. */
  lemma AcyclicIsExpected(w: World, keys: Keys, id: KeyId)
    requires InOrder(w, keys) && Settled(w, keys) && Acyclic(keys) && id in keys
    ensures exists rank :: Ranked(keys, rank)
    ensures forall rank :: Ranked(keys, rank) ==>
              var expected := ExpectedScope(w, keys, rank, id);
              && (IsTrusted(keys[id].trust) <==> expected.Some?)
              && (IsTrusted(keys[id].trust) ==> expected == Some(keys[id].scope))
              && (keys[id].trust == Trusted ==> keys[id].idxNewest == Newest(w, keys, rank, id, |keys[id].certs|))
  {
    RankedIffAcyclic(keys);
    forall rank | Ranked(keys, rank)
      ensures var expected := ExpectedScope(w, keys, rank, id);
              && (IsTrusted(keys[id].trust) <==> expected.Some?)
              && (IsTrusted(keys[id].trust) ==> expected == Some(keys[id].scope))
              && (keys[id].trust == Trusted ==> keys[id].idxNewest == Newest(w, keys, rank, id, |keys[id].certs|))
    {
      AgreesOnKey(w, keys, rank, id);
    }
  }

  lemma AgreesOnKey(w: World, keys: Keys, rank: map<KeyId, nat>, id: KeyId)
    requires InOrder(w, keys) && Settled(w, keys) && Ranked(keys, rank) && id in keys
    ensures var expected := ExpectedScope(w, keys, rank, id);
            && (IsTrusted(keys[id].trust) <==> expected.Some?)
            && (IsTrusted(keys[id].trust) ==> expected == Some(keys[id].scope))
            && (keys[id].trust == Trusted ==> keys[id].idxNewest == Newest(w, keys, rank, id, |keys[id].certs|))
  {
    hide Graph, Sound, Newest, Grant;
    assert Agrees(w, keys, rank, keys);
    assert KeyInOrder(w, id, keys[id]);
  }

  // ---------------------------------------------------------------- who must be trusted

  /** Something, be it the invalid item, is permitted by both. */
  ghost predicate Meets(a: Param, b: Param) {
    exists x: nat :: a.Permits(x) && b.Permits(x)
  }

  /** Certificate i of key id is good: a key of the store signed it, and that is the key
  itself where self-signed roots are allowed, or else a trusted key whose scope has an app
  and a data center in common with the certificate. */
  ghost predicate GoodCert(w: World, keys: Keys, id: KeyId, i: int) {
    && id in keys && 0 <= i < |keys[id].certs|
    && var c := keys[id].certs[i];
    && c.caKeyId in keys && w.verify(keys[c.caKeyId].key, c.data, c.signature)
    && if c.caKeyId == id then w.root.None?
       else
         var signer := keys[c.caKeyId];
         && (signer.trust == Trusted || signer.trust == Hardcoded)
         && Meets(signer.scope.apps, c.scope.apps) && Meets(signer.scope.pops, c.scope.pops)
  }

  lemma MeetsIsNotEmpty(a: Param, b: Param)
    requires !a.IsEmpty() && !b.IsEmpty()
    ensures Meets(a, b) <==> !Intersect(a, b).IsEmpty()
  {
    var r := Intersect(a, b);
    if a.IsAll() {
      assert b.items[0] in b.items;
      assert a.Permits(b.items[0]) && b.Permits(b.items[0]);
    } else if b.IsAll() {
      assert a.items[0] in a.items;
      assert a.Permits(a.items[0]) && b.Permits(a.items[0]);
    } else {
      forall x: nat ensures x in r.items <==> x in a.items && x in b.items { CommonMembers(a.items, b.items, x); }
      if r.items != [] {
        var x := r.items[0];
        assert x in r.items;
        assert a.Permits(x) && b.Permits(x);
      }
    }
  }

  lemma NoneIfEmpty(s: Scope)
    ensures NonEmpty(s).Some? <==> !s.apps.IsEmpty() && !s.pops.IsEmpty()
  {
  }

  lemma GoodIsGranted(w: World, keys: Keys, rank: map<KeyId, nat>, id: KeyId, i: nat)
    requires InOrder(w, keys) && Settled(w, keys) && Ranked(keys, rank)
    requires id in keys && !Terminal(keys[id].trust) && i < |keys[id].certs|
    ensures Grant(w, keys, rank, id, i).Some? <==> GoodCert(w, keys, id, i)
  {
    var c := keys[id].certs[i];
    assert c in keys[id].certs && WellFormed(c.scope);
    if c.caKeyId in keys && c.caKeyId != id {
      AgreesOnKey(w, keys, rank, c.caKeyId);
      var signer := keys[c.caKeyId];
      if IsTrusted(signer.trust) {
        assert WellFormed(signer.scope);
        MeetsIsNotEmpty(signer.scope.apps, c.scope.apps);
        MeetsIsNotEmpty(signer.scope.pops, c.scope.pops);
        NoneIfEmpty(IntersectScopes(signer.scope, c.scope));
      }
    } else {
      NoneIfEmpty(c.scope);
    }
    hide Agrees, InOrder, Settled, Newest, ExpectedScope, Meets, Intersect, NonEmpty;
  }

  /** In a settled store without a cycle of signers, a key that is neither hardcoded nor
  revoked is trusted exactly when it has a good certificate, and then by the newest good
  one, the first on ties. */
  lemma TrustedExactly(w: World, keys: Keys, id: KeyId)
    requires InOrder(w, keys) && Settled(w, keys) && Acyclic(keys)
    requires id in keys && !Terminal(keys[id].trust)
    ensures keys[id].trust == Trusted <==> exists i :: GoodCert(w, keys, id, i)
    ensures keys[id].trust == Trusted || keys[id].trust == NotTrusted
    ensures keys[id].trust == Trusted ==>
              var best, certs := keys[id].idxNewest, keys[id].certs;
              && GoodCert(w, keys, id, best)
              && forall i :: GoodCert(w, keys, id, i) ==>
                   || certs[i].timeCreated < certs[best].timeCreated
                   || (certs[i].timeCreated == certs[best].timeCreated && best <= i)
  {
    RankedIffAcyclic(keys);
    var rank :| Ranked(keys, rank);
    var certs := keys[id].certs;
    assert KeyInOrder(w, id, keys[id]);
    AgreesOnKey(w, keys, rank, id);
    NewestIsNewest(w, keys, rank, id, |certs|);
    hide InOrder, Settled, Newest, Grant, GoodCert;
    forall i | 0 <= i < |certs| ensures Grant(w, keys, rank, id, i).Some? <==> GoodCert(w, keys, id, i) {
      GoodIsGranted(w, keys, rank, id, i);
    }
    GoodIsCert(w, keys, id);
  }

  lemma GoodIsCert(w: World, keys: Keys, id: KeyId)
    requires id in keys
    ensures forall i :: GoodCert(w, keys, id, i) ==> 0 <= i < |keys[id].certs|
  {
  }

  // ---------------------------------------------------------------- queries, as predicates

  datatype Refusal =
    | NoSignedData | NoSignature | MissingCAKeyId | CAKeyNotKnown | CAKeyNotTrusted | ChainExpired
    | SignatureLength | SignatureFailed | CertParseFailed | CertExpired | CertKeyType | CertKeyInvalid | KeyRevoked

  datatype Answer = Granted(scope: Scope) | Refused(reason: Refusal)

  /** A trusted, unexpired key of the store signed the data. */
  ghost predicate SignedByStore(w: World, keys: Keys, data: Bytes, ca: KeyId, signature: Bytes, now: int) {
    && data != [] && ca != 0 && ca in keys && IsTrusted(keys[ca].trust)
    && now <= keys[ca].scope.expiry
    && |signature| == SIGNATURE_SIZE && w.verify(keys[ca].key, data, signature)
  }

  /** ... and the data is a certificate that is not expired, for a key that is not
  revoked. */
  ghost predicate CertAccepted(w: World, keys: Keys, msg: SignedCert, now: int) {
    && SignedByStore(w, keys, msg.data, msg.caKeyId, msg.signature, now)
    && w.parse(msg.data).Some?
    && var b := w.parse(msg.data).value;
    && now <= b.timeExpiry && b.isEd25519
    && KeyIdOf(w, b.keyData) != 0
    && (KeyIdOf(w, b.keyData) in keys ==> keys[KeyIdOf(w, b.keyData)].trust != Revoked)
  }

  /** What an end certificate asks for, within what its signer may grant. */
  ghost predicate Covers(ids: seq<nat>, granted: Option<Param>, x: nat) {
    (ids == [] || x in ids) && (granted.None? || granted.value.Permits(x))
  }

  /** `CheckCertAppID` and `CheckCertPOPID`: the same search over two lists. */
  method CheckCertItem(ids: seq<nat>, granted: Option<Param>, x: nat) returns (ok: bool)
    ensures ok <==> Covers(ids, granted, x)
  {
    if |ids| == 0 {
      return granted.None? || granted.value.Permits(x);
    }
    for i := 0 to |ids|
      invariant x !in ids[..i]
    {
      if ids[i] == x {
        return granted.None? || granted.value.Permits(x);
      }
    }
    return false;
  }

  method CheckCertAppID(body: CertBody, caScope: Option<Scope>, app: nat) returns (ok: bool)
    ensures ok <==> Covers(body.appIds, if caScope.None? then None else Some(caScope.value.apps), app)
  {
    ok := CheckCertItem(body.appIds, if caScope.None? then None else Some(caScope.value.apps), app);
  }

  method CheckCertPOPID(body: CertBody, caScope: Option<Scope>, pop: nat) returns (ok: bool)
    ensures ok <==> Covers(body.popIds, if caScope.None? then None else Some(caScope.value.pops), pop)
  {
    ok := CheckCertItem(body.popIds, if caScope.None? then None else Some(caScope.value.pops), pop);
  }

  /** What "authorized all the way up" means: a chain of trusted keys from the
  signer to a root, every certificate of which covers the app and the data
  center and is valid now, below an end certificate that does too and whose own
  key is not revoked. */
  ghost predicate AuthorizedBy(w: World, keys: Keys, msg: SignedCert, path: seq<KeyId>, app: nat, pop: nat, now: int) {
    && Chain(w, keys, path) && path[0] == msg.caKeyId
    && (forall i :: 0 <= i < |path| ==>
          && path[i] in keys && keys[path[i]].trust != Revoked
          && KeyPermits(keys[path[i]], true, app) && KeyPermits(keys[path[i]], false, pop)
          && KeyValidAt(keys[path[i]], now))
    && w.parse(msg.data).Some?
    && var b := w.parse(msg.data).value;
    && now <= b.timeExpiry
    && (b.appIds == [] || app in b.appIds) && (b.popIds == [] || pop in b.popIds)
    && (KeyIdOf(w, b.keyData) in keys ==> keys[KeyIdOf(w, b.keyData)].trust != Revoked)
  }

  /** No stored certificate lists the invalid item. */
  ghost predicate CleanStore(keys: Keys) {
    forall id, c :: id in keys && c in keys[id].certs ==> CleanScope(c.scope)
  }

  lemma CleanChain(keys: Keys, path: seq<KeyId>)
    requires CleanStore(keys)
    ensures CleanPath(keys, path)
  {
    forall i | 0 <= i < |path| && path[i] in keys && HasChosen(keys[path[i]])
      ensures CleanScope(Chosen(keys[path[i]]).scope)
    {
      assert Chosen(keys[path[i]]) in keys[path[i]].certs;
    }
  }

  /** A certificate that passes `CertStore_CheckCert` also passes the app and data
  center checks exactly when it is authorized all the way up, on any chain whose
  certificates have a real app and a real data center in common. */
  lemma AcceptedOnPath(w: World, keys: Keys, msg: SignedCert, path: seq<KeyId>, app: nat, pop: nat, now: int)
    requires Settled(w, keys) && CertAccepted(w, keys, msg, now)
    requires Chain(w, keys, path) && path[0] == msg.caKeyId
    requires ChainShares(keys, path, true) && ChainShares(keys, path, false)
    requires app != INVALID_ITEM && pop != INVALID_ITEM
    ensures var b, s := w.parse(msg.data).value, keys[msg.caKeyId].scope;
            Covers(b.appIds, Some(s.apps), app) && Covers(b.popIds, Some(s.pops), pop)
            <==> AuthorizedBy(w, keys, msg, path, app, pop, now)
  {
    ExactIsShared(w, keys, path, true);
    ExactIsShared(w, keys, path, false);
    ExactChain(w, keys, path, true, app);
    ExactChain(w, keys, path, false, pop);
    ChainExpiry(w, keys, path, now);
  }

  /** On any other chain nothing is authorized. */
  lemma UnsharedIsUnauthorized(w: World, keys: Keys, msg: SignedCert, path: seq<KeyId>, app: nat, pop: nat, now: int)
    requires app != INVALID_ITEM && pop != INVALID_ITEM
    requires !ChainShares(keys, path, true) || !ChainShares(keys, path, false)
    ensures !AuthorizedBy(w, keys, msg, path, app, pop, now)
  {
    if AuthorizedBy(w, keys, msg, path, app, pop, now) {
      assert AllPermit(keys, path, true, app) && AllPermit(keys, path, false, pop);
    }
  }

  /** The app and data center checks accept an end certificate below the given scope. */
  ghost predicate Passes(b: CertBody, s: Scope, app: nat, pop: nat) {
    Covers(b.appIds, Some(s.apps), app) && Covers(b.popIds, Some(s.pops), pop)
  }

  /** For a certificate that passes `CertStore_CheckCert`, the app and data center checks
  accept exactly what is authorized all the way up, if and only if the certificates of the
  chain have a real app and a real data center in common, or the checks accept nothing
  anyway.  An end certificate without restrictions always has something accepted. */
  lemma AcceptedExactly(w: World, keys: Keys, msg: SignedCert, path: seq<KeyId>, now: int)
    requires Settled(w, keys) && CertAccepted(w, keys, msg, now)
    requires Chain(w, keys, path) && path[0] == msg.caKeyId
    ensures var b, s := w.parse(msg.data).value, keys[msg.caKeyId].scope;
            (forall app: nat, pop: nat :: app != INVALID_ITEM && pop != INVALID_ITEM ==>
               (Passes(b, s, app, pop) <==> AuthorizedBy(w, keys, msg, path, app, pop, now)))
            <==> (|| (ChainShares(keys, path, true) && ChainShares(keys, path, false))
                  || forall app: nat, pop: nat ::
                       app != INVALID_ITEM && pop != INVALID_ITEM ==> !Passes(b, s, app, pop))
    ensures var b, s := w.parse(msg.data).value, keys[msg.caKeyId].scope;
            b.appIds == [] && b.popIds == [] ==>
              exists app: nat, pop: nat :: app != INVALID_ITEM && pop != INVALID_ITEM && Passes(b, s, app, pop)
  {
    var b, s := w.parse(msg.data).value, keys[msg.caKeyId].scope;
    SignerIsTrusted(w, keys, msg, now);
    var x, y := ScopePermits(w, keys, msg.caKeyId);
    assert b.appIds == [] && b.popIds == [] ==> Passes(b, s, x, y);
    hide Settled, CertAccepted, Covers, AuthorizedBy, Chain;
    if ChainShares(keys, path, true) && ChainShares(keys, path, false) {
      forall app: nat, pop: nat | app != INVALID_ITEM && pop != INVALID_ITEM
        ensures Passes(b, s, app, pop) <==> AuthorizedBy(w, keys, msg, path, app, pop, now)
      {
        AcceptedOnPath(w, keys, msg, path, app, pop, now);
      }
    } else {
      forall app: nat, pop: nat | app != INVALID_ITEM && pop != INVALID_ITEM
        ensures !AuthorizedBy(w, keys, msg, path, app, pop, now)
      {
        UnsharedIsUnauthorized(w, keys, msg, path, app, pop, now);
      }
    }
  }

  /** The scope of a trusted key permits some real app and some real data center. */
  lemma ScopePermits(w: World, keys: Keys, id: KeyId) returns (app: nat, pop: nat)
    requires Settled(w, keys) && id in keys && IsTrusted(keys[id].trust)
    ensures app != INVALID_ITEM && keys[id].scope.apps.Permits(app)
    ensures pop != INVALID_ITEM && keys[id].scope.pops.Permits(pop)
  {
    app := PermitsSomething(keys[id].scope.apps);
    pop := PermitsSomething(keys[id].scope.pops);
  }

  /** So it is in a store whose certificates do not list the invalid item, for some chain. */
  lemma AcceptedIsAuthorized(w: World, keys: Keys, msg: SignedCert, app: nat, pop: nat, now: int)
    requires Settled(w, keys) && CleanStore(keys) && CertAccepted(w, keys, msg, now)
    requires app != INVALID_ITEM && pop != INVALID_ITEM
    ensures var b, s := w.parse(msg.data).value, keys[msg.caKeyId].scope;
            Covers(b.appIds, Some(s.apps), app) && Covers(b.popIds, Some(s.pops), pop)
            <==> exists path :: AuthorizedBy(w, keys, msg, path, app, pop, now)
  {
    hide Settled, Covers, CertAccepted, ChainShares;
    var path := SomeChain(w, keys, msg.caKeyId) by { SignerIsTrusted(w, keys, msg, now); }
    SharedInCleanStore(w, keys, path);
    AcceptedOnPath(w, keys, msg, path, app, pop, now);
    if other :| AuthorizedBy(w, keys, msg, other, app, pop, now) {
      SharedInCleanStore(w, keys, other);
      AcceptedOnPath(w, keys, msg, other, app, pop, now);
    }
  }

  lemma SignerIsTrusted(w: World, keys: Keys, msg: SignedCert, now: int)
    requires CertAccepted(w, keys, msg, now)
    ensures msg.caKeyId in keys && IsTrusted(keys[msg.caKeyId].trust)
  {
  }

  lemma SomeChain(w: World, keys: Keys, id: KeyId) returns (path: seq<KeyId>)
    requires Settled(w, keys) && id in keys && IsTrusted(keys[id].trust)
    ensures Chain(w, keys, path) && path[0] == id
  {
    assert HasChain(w, keys, id);
    path :| Chain(w, keys, path) && path[0] == id;
  }

  lemma SharedInCleanStore(w: World, keys: Keys, path: seq<KeyId>)
    requires Settled(w, keys) && CleanStore(keys) && Chain(w, keys, path)
    ensures ChainShares(keys, path, true) && ChainShares(keys, path, false)
  {
    CleanChain(keys, path);
    CleanPathIsExact(w, keys, path, true);
    CleanPathIsExact(w, keys, path, false);
    ExactIsShared(w, keys, path, true);
    ExactIsShared(w, keys, path, false);
  }

  // ---------------------------------------------------------------- the store

  /** keys is g with every key visited that is not in todo. */
  ghost predicate Visiting(w: World, g: Keys, keys: Keys, todo: set<KeyId>) {
    && InOrder(w, keys) && Sound(w, keys) && SameGraph(g, keys) && todo <= keys.Keys
    && (forall k :: k in keys && k !in todo ==> keys[k].trust != Unknown)
    && (forall rank :: Ranked(g, rank) ==> Agrees(w, g, rank, keys))
  }

  lemma StartVisiting(w: World, keys: Keys)
    requires InOrder(w, keys)
    ensures Visiting(w, Forget(keys), Forget(keys), keys.Keys)
  {
    ForgetIsSound(w, keys);
    var f := Forget(keys);
    assert SameGraph(f, f);
    forall k | k in f ensures KeyInOrder(w, k, f[k]) { assert KeyInOrder(w, k, keys[k]); }
  }

  lemma EvalKeepsOrder(w: World, keys: Keys, id: KeyId)
    requires InOrder(w, keys) && Sound(w, keys) && id in keys
    ensures InOrder(w, Eval(w, keys, id))
  {
    EvalSound(w, keys, id);
    var r := Eval(w, keys, id);
    forall k | k in r ensures KeyInOrder(w, k, r[k]) { assert KeyInOrder(w, k, keys[k]); }
  }

  lemma Visit(w: World, g: Keys, keys: Keys, todo: set<KeyId>, id: KeyId)
    requires Visiting(w, g, keys, todo) && id in todo
    ensures Visiting(w, g, Eval(w, keys, id), todo - {id})
  {
    var r := Eval(w, keys, id);
    EvalSound(w, keys, id);
    EvalKeepsOrder(w, keys, id);
    SettlesKeepsSameGraph(g, keys, r);
    forall k | k in keys ensures keys[k].trust != UnknownWorking { assert KeyInOrder(w, k, keys[k]); }
    forall rank | Ranked(g, rank) ensures Agrees(w, g, rank, r) {
      EvalAgrees(w, g, rank, keys, id);
    }
  }

  lemma AllVisited(w: World, g: Keys, keys: Keys)
    requires Visiting(w, g, keys, {})
    ensures Settled(w, keys)
  {
    forall rank | Ranked(keys, rank) ensures Agrees(w, keys, rank, keys) {
      forall k | k in g ensures g[k].certs == keys[k].certs && Terminal(g[k].trust) == Terminal(keys[k].trust) { }
      assert Ranked(g, rank);
      AgreesSame(w, g, keys, rank, keys);
    }
  }

  /** keys is the state before certificate i of key id in a scan from start. */
  ghost predicate Scanning(w: World, start: Keys, keys: Keys, id: KeyId, i: nat) {
    && Sound(w, keys) && Working(keys, id) && Promise(w, keys, id)
    && Graph(start) && Working(start, id)
    && i <= |keys[id].certs| && keys[id].certs == start[id].certs
    && UnknownKeys(keys) <= UnknownKeys(start)
    && Scan(w, keys, id, i) == Scan(w, start, id, 0)
  }

  lemma ScanningStep(w: World, start: Keys, keys: Keys, id: KeyId, i: nat)
    requires Scanning(w, start, keys, id, i) && i < |keys[id].certs|
    ensures Scanning(w, start, Consider(w, keys, id, i), id, i + 1)
  {
    ConsiderSound(w, keys, id, i);
    SettlesKeepsGraph(keys, Consider(w, keys, id, i), id);
  }

  class Store {
    const w: World
    var keys: Keys
    var trustValid: bool

    ghost predicate Valid()
      reads this
    {
      && (w.root.Some? ==> |w.root.value| == KEY_SIZE)
      && InOrder(w, keys) && (trustValid ==> Settled(w, keys))
    }

    /** Keys revoked before are revoked now. */
    twostate predicate RevocationsKept()
      reads this
    {
      forall id :: id in old(keys) && old(keys)[id].trust == Revoked ==>
        id in keys && keys[id].trust == Revoked
    }

    constructor (w: World)
      requires w.root.Some? ==> |w.root.value| == KEY_SIZE
      ensures Valid() && this.w == w && keys == map[]
    {
      this.w := w;
      keys := map[];
      trustValid := false;
    }

    method Reset()
      requires Valid()
      modifies this
      ensures Valid() && keys == map[] && !trustValid
    {
      keys := map[];
      trustValid := false;
    }

    /** Puts the hardcoded root into an empty store. */
    method OneTimeInit()
      requires Valid()
      modifies this`keys
      ensures Valid() && RevocationsKept()
      ensures keys == Initialized(w, old(keys))
      ensures old(keys) != map[] ==> keys == old(keys)
    {
      if w.root.Some? && |keys| == 0 {
        keys := map[KeyIdOf(w, w.root.value) := PublicKey(Hardcoded, w.root.value, [], FULL_SCOPE, -1)];
        OnlyRootIsSettled(w, keys);
      }
    }

    method AddKeyRevocation(id: KeyId)
      requires Valid()
      modifies this
      ensures Valid() && RevocationsKept()
      ensures keys.Keys == old(keys).Keys + {id} && keys[id].trust == Revoked
      ensures forall k :: k in old(keys) && k != id ==> keys[k] == old(keys)[k]
      ensures id in old(keys) ==> keys[id] == old(keys)[id].(trust := Revoked)
      ensures id !in old(keys) ==> keys[id] == PublicKey(Revoked, [], [], EMPTY_SCOPE, -1)
      ensures trustValid == (old(trustValid) && keys == old(keys))
    {
      if id !in keys {
        keys := keys[id := PublicKey(Revoked, [], [], EMPTY_SCOPE, -1)];
        trustValid := false;
        return;
      }
      if keys[id].trust == Revoked { return; }
      keys := keys[id := keys[id].(trust := Revoked)];
      trustValid := false;
    }

    /** Adds a certificate to a key the store knows; false on a key collision. */
    method AddToKnownKey(id: KeyId, key: Bytes, cert: Cert) returns (ok: bool)
      requires Valid() && id in keys
      requires |key| == KEY_SIZE && KeyIdOf(w, key) == id && FromMessage(w, key, cert) && WellFormed(cert.scope)
      modifies this
      ensures Valid()
      ensures ok <==> old(keys)[id].key in {[], key}
      ensures keys == if ok then old(keys)[id := WithCert(old(keys)[id], key, cert)] else old(keys)
      ensures trustValid == (old(trustValid) && keys == old(keys))
    {
      var k := keys[id];
      if k.key != key {
        if k.key != [] { return false; }
        k := k.(key := key);
      }
      for i := 0 to |k.certs|
        invariant forall j :: 0 <= j < i ==> k.certs[j].signature != cert.signature
      {
        if k.certs[i].signature == cert.signature {
          assert k.certs[i] in keys[id].certs;
          return true;
        }
      }
      k := k.(certs := k.certs + [cert]);
      assert cert in k.certs;
      keys := keys[id := k];
      trustValid := false;
      return true;
    }

    /** `CertStore_AddCertFromBase64`, from the decoded message on. */
    method AddCert(msg: SignedCert) returns (r: Parsed)
      requires Valid()
      modifies this
      ensures Valid() && RevocationsKept()
      ensures r.SetupFailed? ==> keys == Initialized(w, old(keys)) && trustValid == old(trustValid)
      ensures r.ParsedCert? ==> keys == WithNewCert(Initialized(w, old(keys)), KeyIdOf(w, r.key), r.key, r.cert)
      ensures r.ParsedCert? ==> trustValid == (old(trustValid) && keys == Initialized(w, old(keys)))
      ensures r.ParsedCert? <==> IsCertMessage(w, msg) && !Collides(w, Initialized(w, old(keys)), msg)
      ensures r.ParsedCert? ==> var b := w.parse(msg.data).value;
                r.key == b.keyData && r.cert == Cert(msg.data, msg.caKeyId, msg.signature, ScopeOf(b), b.timeCreated)
    {
      hide InOrder, Settled, WellFormed;
      OneTimeInit();
      r := SetupCert(w, msg);
      if r.SetupFailed? { return; }
      ScopeOfIsWellFormed(w.parse(msg.data).value);
      var id := KeyIdOf(w, r.key);
      if id in keys {
        var ok := AddToKnownKey(id, r.key, r.cert);
        if !ok { return SetupFailed(KeyCollision); }
      } else {
        AddUnknownKey(id, r.key, r.cert);
      }
    }

    method AddUnknownKey(id: KeyId, key: Bytes, cert: Cert)
      requires Valid() && id !in keys
      requires |key| == KEY_SIZE && KeyIdOf(w, key) == id && FromMessage(w, key, cert) && WellFormed(cert.scope)
      modifies this
      ensures Valid() && keys == old(keys)[id := PublicKey(Unknown, key, [cert], EMPTY_SCOPE, -1)] && !trustValid
    {
      hide FromMessage, WellFormed;
      keys := keys[id := PublicKey(Unknown, key, [cert], EMPTY_SCOPE, -1)];
      trustValid := false;
    }

    // -------------------------------------------------------------- evaluation

    method RecursiveEvaluateKeyTrust(id: KeyId)
      requires Sound(w, keys) && id in keys
      modifies this`keys
      ensures keys == Eval(w, old(keys), id)
      decreases UnknownKeys(keys), 0
    {
      hide HasChain, Scan, WellFormed;
      if keys[id].trust != Unknown { return; }
      ghost var start := Begin(keys, id);
      assert UnknownKeys(start) == UnknownKeys(keys) - {id};
      SoundKept(w, keys, start);
      keys := keys[id := keys[id].(trust := UnknownWorking, idxNewest := -1)];
      assert |keys[id].certs| > 0;   // so the "No certs?" branch is never taken
      ScanCerts(id);
      if keys[id].idxNewest < 0 {
        keys := keys[id := keys[id].(trust := NotTrusted, scope := EMPTY_SCOPE)];
        return;
      }
      keys := keys[id := keys[id].(trust := Trusted)];
    }

    /** The loop over a key's certificates. */
    method ScanCerts(id: KeyId)
      requires Sound(w, keys) && Working(keys, id) && Promise(w, keys, id)
      modifies this`keys
      ensures keys == Scan(w, old(keys), id, 0)
      decreases UnknownKeys(keys), 3
    {
      ghost var start := keys;
      var i := 0;
      while i < |keys[id].certs|
        invariant Scanning(w, start, keys, id, i)
        decreases |keys[id].certs| - i
      {
        NextCert(start, id, i);
        i := i + 1;
      }
      assert keys == Scan(w, keys, id, i);
    }

    method NextCert(ghost start: Keys, id: KeyId, i: nat)
      requires Scanning(w, start, keys, id, i) && i < |keys[id].certs|
      modifies this`keys
      ensures Scanning(w, start, keys, id, i + 1)
      decreases UnknownKeys(start), 2
    {
      ScanningStep(w, start, keys, id, i);
      ConsiderCert(id, i);
    }

    /** One turn of the loop over a key's certificates. */
    method ConsiderCert(id: KeyId, i: nat)
      requires Sound(w, keys) && Working(keys, id) && i < |keys[id].certs|
      modifies this`keys
      ensures keys == Consider(w, old(keys), id, i)
      decreases UnknownKeys(keys), 1
    {
      hide HasChain, Intersect, Eval, WellFormed;
      var cert := keys[id].certs[i];
      var ca := cert.caKeyId;
      if ca !in keys { return; }
      var scope;
      assert cert in keys[id].certs;
      if ca == id {
        if w.root.Some? { return; }
        if !w.verify(keys[ca].key, cert.data, cert.signature) { return; }
        scope := cert.scope;
      } else {
        if keys[ca].trust == UnknownWorking { return; }
        EvalSound(w, keys, ca);
        RecursiveEvaluateKeyTrust(ca);
        if !IsTrusted(keys[ca].trust) { return; }
        if !w.verify(keys[ca].key, cert.data, cert.signature) { return; }
        scope := SetScopeIntersection(keys[ca].scope, cert.scope);
      }
      if scope.apps.IsEmpty() { return; }
      if scope.pops.IsEmpty() { return; }
      if keys[id].idxNewest < 0 || keys[id].certs[keys[id].idxNewest].timeCreated < cert.timeCreated {
        keys := keys[id := keys[id].(scope := scope, idxNewest := i)];
      }
    }

    /** Recomputes the trust of all keys if anything changed.  The keys are visited
    in any order. */
    method EnsureTrustValid()
      requires Valid()
      modifies this
      ensures Valid() && trustValid && RevocationsKept()
      ensures SameGraph(Initialized(w, old(keys)), keys)
    {
      OneTimeInit();
      if trustValid { return; }
      ghost var before := keys;
      StartVisiting(w, keys);
      ForgetIsSound(w, keys);
      keys := Forget(keys);
      ghost var g := keys;
      var todo := keys.Keys;
      while todo != {}
        invariant Visiting(w, g, keys, todo)
        decreases todo
      {
        var id :| id in todo;
        Visit(w, g, keys, todo, id);
        RecursiveEvaluateKeyTrust(id);
        todo := todo - {id};
      }
      AllVisited(w, g, keys);
      trustValid := true;
    }

    // -------------------------------------------------------------- queries

    method CheckCASignature(data: Bytes, ca: KeyId, signature: Bytes, now: int) returns (r: Answer)
      requires Valid()
      modifies this
      ensures Valid() && trustValid && RevocationsKept()
      ensures SameGraph(Initialized(w, old(keys)), keys)
      ensures r.Granted? <==> SignedByStore(w, keys, data, ca, signature, now)
      ensures r.Granted? ==> r.scope == keys[ca].scope
    {
      EnsureTrustValid();
      if data == [] { return Refused(NoSignedData); }
      if signature == [] { return Refused(NoSignature); }
      if ca == 0 { return Refused(MissingCAKeyId); }
      if ca !in keys { return Refused(CAKeyNotKnown); }
      if !IsTrusted(keys[ca].trust) { return Refused(CAKeyNotTrusted); }
      if keys[ca].scope.expiry < now { return Refused(ChainExpired); }
      if |signature| != SIGNATURE_SIZE { return Refused(SignatureLength); }
      if !w.verify(keys[ca].key, data, signature) { return Refused(SignatureFailed); }
      return Granted(keys[ca].scope);
    }

    method CheckCert(msg: SignedCert, now: int) returns (r: Answer)
      requires Valid()
      modifies this
      ensures Valid() && trustValid && RevocationsKept()
      ensures SameGraph(Initialized(w, old(keys)), keys)
      ensures r.Granted? <==> CertAccepted(w, keys, msg, now)
      ensures r.Granted? ==> r.scope == keys[msg.caKeyId].scope
    {
      r := CheckCASignature(msg.data, msg.caKeyId, msg.signature, now);
      if r.Refused? { return; }
      var parsed := w.parse(msg.data);
      if parsed.None? { return Refused(CertParseFailed); }
      var body := parsed.value;
      if body.timeExpiry < now { return Refused(CertExpired); }
      if !body.isEd25519 { return Refused(CertKeyType); }
      var id := KeyIdOf(w, body.keyData);
      if id == 0 { return Refused(CertKeyInvalid); }
      if id in keys {
        if keys[id].trust == NotTrusted {
        } else if !IsTrusted(keys[id].trust) {
          assert KeyInOrder(w, id, keys[id]);
          assert keys[id].trust == Revoked;
          return Refused(KeyRevoked);
        }
      }
    }

    /** The scope of a key the store trusts by itself. */
    method CheckPublicKey(id: KeyId, now: int) returns (r: Answer)
      requires Valid()
      modifies this
      ensures Valid() && trustValid && RevocationsKept()
      ensures SameGraph(Initialized(w, old(keys)), keys)
      ensures r.Granted? <==> id in keys && IsTrusted(keys[id].trust) && now <= keys[id].scope.expiry
      ensures r.Granted? ==> r.scope == keys[id].scope && HasChain(w, keys, id)
    {
      EnsureTrustValid();
      if id in keys && keys[id].trust == Revoked { return Refused(KeyRevoked); }
      if id !in keys || !IsTrusted(keys[id].trust) { return Refused(CAKeyNotTrusted); }
      if keys[id].scope.expiry < now { return Refused(ChainExpired); }
      return Granted(keys[id].scope);
    }

    /** Any operation of the store. */
    method Perform(op: Operation)
      requires Valid()
      modifies this
      ensures Valid() && (op != Clear ==> RevocationsKept())
      ensures op.Revoke? ==> op.id in keys && keys[op.id].trust == Revoked
      ensures op.Query? || op.QueryKey? ==> trustValid
    {
      match op {
        case Clear => Reset();
        case Add(msg) => var _ := AddCert(msg);
        case Revoke(id) => AddKeyRevocation(id);
        case Query(msg, now) => var _ := CheckCert(msg, now);
        case QueryKey(id, now) => var _ := CheckPublicKey(id, now);
      }
    }

    /** After any sequence of operations the invariant holds, and a key revoked at
    any point stays revoked until the store is cleared. */
    method PerformAll(ops: seq<Operation>)
      requires Valid()
      modifies this
      ensures Valid()
      ensures trustValid ==> Settled(w, keys)
      ensures Clear !in ops ==> RevocationsKept()
      ensures Clear !in ops ==> forall i :: 0 <= i < |ops| && ops[i].Revoke? ==>
                ops[i].id in keys && keys[ops[i].id].trust == Revoked
    {
      for n := 0 to |ops|
        invariant Valid()
        invariant Clear !in ops ==> RevocationsKept()
        invariant Clear !in ops ==> forall i :: 0 <= i < n && ops[i].Revoke? ==>
                    ops[i].id in keys && keys[ops[i].id].trust == Revoked
      {
        assert ops[n] in ops;
        Perform(ops[n]);
      }
    }
  }

  datatype Operation =
    | Clear
    | Add(msg: SignedCert)
    | Revoke(id: KeyId)
    | Query(msg: SignedCert, now: int)
    | QueryKey(id: KeyId, now: int)

  function Initialized(w: World, keys: Keys): Keys {
    if w.root.Some? && keys == map[]
    then map[KeyIdOf(w, w.root.value) := PublicKey(Hardcoded, w.root.value, [], FULL_SCOPE, -1)]
    else keys
  }

  lemma OnlyRootIsSettled(w: World, keys: Keys)
    requires w.root.Some? && keys == Initialized(w, map[])
    ensures Settled(w, keys)
  {
    var id := KeyIdOf(w, w.root.value);
    assert Chain(w, keys, [id]);
  }
}
