/** Node credentials: clientapi/v1/nodecredential.go. */
module NodeCredential {
  import opened Outcomes
  import opened Text
  import opened Ordering
  import opened NetworkMap

  type Bytes = seq<bv8>

  const VERSION: int := 3
  const ALGORITHM: string := "ed25519-node-credential-v3"
  const PREFIX: string := "enc_"

  datatype Claims = Claims(
    version: int, keyId: string, algorithm: string, networkId: string, nodeId: string, scopes: seq<string>,
    expiresAt: Time, signature: string)

  datatype CredentialPayload = CredentialPayload(
    schema: int, keyId: string, networkId: string, nodeId: string, scopes: seq<string>, expiresAt: Time)

  /** Ed25519, the encodings around it, and the sort of strings. */
  datatype Codec = Codec(
    decodeKey: string -> Option<Bytes>,
    keyId: Bytes -> string,
    decodeSignature: string -> Option<Bytes>,
    verify: (Bytes, CredentialPayload, Bytes) -> bool,
    encode: Claims -> string,
    decode: string -> Option<Claims>,
    sortStrings: seq<string> -> seq<string>)

  ghost predicate Lawful(c: Codec) {
    && (forall k :: Trimmed(c.keyId(k)) && c.keyId(k) != "")
    && (forall claims :: c.decode(c.encode(claims)) == Some(claims) && Trimmed(PREFIX + c.encode(claims)))
    && Sorts(c.sortStrings, TextKey)
  }

  // ----- scopes -----

  /** The trimmed, non-blank values, each at its first occurrence. */
  function CleanStrings(values: seq<string>): seq<string> {
    FirstForms(values, TrimSpace)
  }

  method Clean(values: seq<string>) returns (out: seq<string>)
    ensures out == CleanStrings(values)
  {
    out := CollectForms(values, TrimSpace);
  }

  /** What a list of scopes grants. */
  ghost function ScopeSet(scopes: seq<string>): set<string> {
    set s | s in scopes && TrimSpace(s) != "" :: TrimSpace(s)
  }

  lemma CleanMembers(values: seq<string>)
    ensures forall s :: s in CleanStrings(values) <==> s in ScopeSet(values)
    ensures DistinctBy(CleanStrings(values), Itself)
  {
    hide TrimSpace, FirstForms;
    FormsMembers(values, TrimSpace);
  }

  function CleanScopes(c: Codec, scopes: seq<string>): seq<string> {
    c.sortStrings(CleanStrings(scopes))
  }

  lemma CleanScopesMembers(c: Codec, scopes: seq<string>)
    requires Lawful(c)
    ensures forall s :: s in CleanScopes(c, scopes) <==> s in ScopeSet(scopes)
    ensures DistinctBy(CleanScopes(c, scopes), Itself)
  {
    hide CleanStrings, ScopeSet, SortedBy, Trimmed;
    CleanMembers(scopes);
    var clean := CleanStrings(scopes);
    assert SamePermutation(c.sortStrings(clean), clean);
    MembersOfPermutation(c.sortStrings(clean), clean);
    DistinctPermutation(clean, c.sortStrings(clean), Itself);
  }

  /** Trimming, deduplicating and sorting together forget everything but the set of scopes. */
  lemma CleanScopesIgnoreOrder(c: Codec, a: seq<string>, b: seq<string>)
    requires Lawful(c)
    ensures CleanScopes(c, a) == CleanScopes(c, b) <==> ScopeSet(a) == ScopeSet(b)
  {
    hide CleanStrings, ScopeSet, Trimmed, Sorts;
    if ScopeSet(a) == ScopeSet(b) {
      CleanMembers(a);
      CleanMembers(b);
      SameMembersPermute(CleanStrings(a), CleanStrings(b), Itself);
      SortForgetsOrder(c.sortStrings, TextKey, CleanStrings(a), CleanStrings(b));
    } else {
      CleanScopesMembers(c, a);
      CleanScopesMembers(c, b);
      if CleanScopes(c, a) == CleanScopes(c, b) {
        assert forall s :: s in ScopeSet(a) <==> s in ScopeSet(b);
      }
    }
  }

  lemma ScopeSetOfClean(c: Codec, scopes: seq<string>)
    requires Lawful(c)
    ensures ScopeSet(CleanScopes(c, scopes)) == ScopeSet(scopes)
  {
    hide TrimSpace, CleanScopes, Lawful;
    CleanScopesMembers(c, scopes);
    forall s | s in CleanScopes(c, scopes)
      ensures TrimSpace(s) == s && s != ""
    {
      var raw :| raw in scopes && TrimSpace(raw) != "" && TrimSpace(raw) == s;
      TrimSpaceIdempotent(raw);
    }
  }

  /** Cleaning cleaned scopes changes nothing. */
  lemma CleanScopesIdempotent(c: Codec, scopes: seq<string>)
    requires Lawful(c)
    ensures CleanScopes(c, CleanScopes(c, scopes)) == CleanScopes(c, scopes)
  {
    hide CleanScopes, ScopeSet, Lawful;
    ScopeSetOfClean(c, scopes);
    CleanScopesIgnoreOrder(c, CleanScopes(c, scopes), scopes);
  }

  // ----- signing -----

  /** `nodeCredentialSigningPayload`. */
  function SigningPayload(c: Codec, keyId: string, networkId: string, nodeId: string, scopes: seq<string>, expiresAt: Time)
    : Option<CredentialPayload>
  {
    if TrimSpace(keyId) == "" || TrimSpace(networkId) == "" || TrimSpace(nodeId) == "" || CleanScopes(c, scopes) == [] then None
    else Some(CredentialPayload(VERSION, TrimSpace(keyId), TrimSpace(networkId), TrimSpace(nodeId), CleanScopes(c, scopes), expiresAt))
  }

  /** `SignNodeCredentialWithProvider` for a well-formed key. */
  function Sign(c: Codec, key: Bytes, networkId: string, nodeId: string, scopes: seq<string>, expiresAt: Time,
                signer: CredentialPayload -> Option<string>): Option<string>
  {
    var keyId := c.keyId(key);
    match SigningPayload(c, keyId, networkId, nodeId, scopes, expiresAt)
    case None => None
    case Some(payload) =>
      match signer(payload)
      case None => None
      case Some(signature) =>
        if c.decodeSignature(signature).None? then None
        else Some(PREFIX + c.encode(SignedClaims(c, key, networkId, nodeId, scopes, expiresAt, signature)))
  }

  function SignedClaims(c: Codec, key: Bytes, networkId: string, nodeId: string, scopes: seq<string>, expiresAt: Time,
                        signature: string): Claims
  {
    Claims(VERSION, c.keyId(key), ALGORITHM, TrimSpace(networkId), TrimSpace(nodeId), CleanScopes(c, scopes), expiresAt, signature)
  }

  function Decode(c: Codec, credential: string): Option<Claims> {
    var text := TrimSpace(credential);
    if !(PREFIX <= text) then None
    else match c.decode(text[|PREFIX|..])
         case None => None
         case Some(claims) =>
           if claims.algorithm != ALGORITHM || claims.version != VERSION || TrimSpace(claims.keyId) == "" then None
           else Some(claims)
  }

  /** `ValidateNodeCredential`: the claims, if the credential is good for the scope at that instant. */
  function Validate(c: Codec, credential: string, trustedPublicKey: string, requiredScope: string, now: Time): Option<Claims> {
    match Decode(c, credential)
    case None => None
    case Some(claims) =>
      if ClaimsAccepted(c, claims, trustedPublicKey, requiredScope, now) then Some(claims) else None
  }

  predicate ClaimsAccepted(c: Codec, claims: Claims, trustedPublicKey: string, requiredScope: string, now: Time) {
    var required, text := TrimSpace(requiredScope), TrimSpace(trustedPublicKey);
    && TrimSpace(claims.networkId) != "" && TrimSpace(claims.nodeId) != ""
    && now < claims.expiresAt
    && (required == "" || required in claims.scopes)
    && text != "" && c.decodeKey(text).Some?
    && claims.keyId == c.keyId(c.decodeKey(text).value)
    && c.decodeSignature(claims.signature).Some?
    && var payload := SigningPayload(c, claims.keyId, claims.networkId, claims.nodeId, claims.scopes, claims.expiresAt);
       payload.Some? && c.verify(c.decodeKey(text).value, payload.value, c.decodeSignature(claims.signature).value)
  }

  ghost predicate SignsFor(c: Codec, key: Bytes, signer: CredentialPayload -> Option<string>) {
    forall p | signer(p).Some? && c.decodeSignature(signer(p).value).Some? ::
      c.verify(key, p, c.decodeSignature(signer(p).value).value)
  }

  /** The payload signed over cleaned claims is the payload that was signed. */
  lemma PayloadOfSignedClaims(c: Codec, keyId: string, networkId: string, nodeId: string, scopes: seq<string>, expiresAt: Time)
    requires Lawful(c)
    ensures SigningPayload(c, keyId, TrimSpace(networkId), TrimSpace(nodeId), CleanScopes(c, scopes), expiresAt) ==
            SigningPayload(c, keyId, networkId, nodeId, scopes, expiresAt)
  {
    hide TrimSpace, CleanScopes, Lawful;
    TrimSpaceIdempotent(networkId);
    TrimSpaceIdempotent(nodeId);
    CleanScopesIdempotent(c, scopes);
  }

  lemma DecodeSigned(c: Codec, claims: Claims)
    requires Lawful(c) && claims.algorithm == ALGORITHM && claims.version == VERSION && TrimSpace(claims.keyId) != ""
    ensures Decode(c, PREFIX + c.encode(claims)) == Some(claims)
  {
    hide TrimSpace, Trimmed;
    var text := PREFIX + c.encode(claims);
    TrimSpaceIdempotent(text);
    assert text[|PREFIX|..] == c.encode(claims);
  }

  /** Round trip: a credential that signs is accepted under the signer's key exactly before its expiry
      and for a blank scope or one of its trimmed scopes, and gives back the cleaned identity. */
  lemma SignThenValidate(c: Codec, key: Bytes, publicKey: string, networkId: string, nodeId: string, scopes: seq<string>,
                         expiresAt: Time, signer: CredentialPayload -> Option<string>, scope: string, now: Time)
    requires Lawful(c) && SignsFor(c, key, signer)
    requires TrimSpace(publicKey) != "" && c.decodeKey(TrimSpace(publicKey)) == Some(key)
    requires Sign(c, key, networkId, nodeId, scopes, expiresAt, signer).Some?
    ensures var r := Validate(c, Sign(c, key, networkId, nodeId, scopes, expiresAt, signer).value, publicKey, scope, now);
            && (r.Some? <==> now < expiresAt && (TrimSpace(scope) == "" || TrimSpace(scope) in ScopeSet(scopes)))
            && (r.Some? ==>
                  && r.value.networkId == TrimSpace(networkId) && r.value.nodeId == TrimSpace(nodeId)
                  && r.value.expiresAt == expiresAt
                  && forall s :: s in r.value.scopes <==> s in ScopeSet(scopes))
  {
    hide TrimSpace, Trimmed, CleanScopes, ScopeSet, Sorts, Decode;
    var keyId := c.keyId(key);
    var payload := SigningPayload(c, keyId, networkId, nodeId, scopes, expiresAt).value;
    var claims := SignedClaims(c, key, networkId, nodeId, scopes, expiresAt, signer(payload).value);
    TrimSpaceIdempotent(keyId);
    TrimSpaceIdempotent(networkId);
    TrimSpaceIdempotent(nodeId);
    DecodeSigned(c, claims);
    PayloadOfSignedClaims(c, keyId, networkId, nodeId, scopes, expiresAt);
    CleanScopesMembers(c, scopes);
  }

  /** Signing fails only for a blank identity or key ID, no scopes, or a signer that refuses or answers
      with no signature. */
  lemma SignIff(c: Codec, key: Bytes, networkId: string, nodeId: string, scopes: seq<string>, expiresAt: Time,
                signer: CredentialPayload -> Option<string>)
    requires Lawful(c)
    ensures var payload := SigningPayload(c, c.keyId(key), networkId, nodeId, scopes, expiresAt);
            && (payload.Some? <==>
                  TrimSpace(c.keyId(key)) != "" && TrimSpace(networkId) != "" && TrimSpace(nodeId) != "" && ScopeSet(scopes) != {})
            && (Sign(c, key, networkId, nodeId, scopes, expiresAt, signer).Some? <==>
                  payload.Some? && signer(payload.value).Some? && c.decodeSignature(signer(payload.value).value).Some?)
  {
    hide TrimSpace, Trimmed, CleanScopes, ScopeSet, Sorts;
    CleanScopesMembers(c, scopes);
    if CleanScopes(c, scopes) != [] {
      assert CleanScopes(c, scopes)[0] in ScopeSet(scopes);
    } else {
      assert forall s :: s !in ScopeSet(scopes);
    }
  }

  // ----- authenticity -----

  /** `signed(key, payload)` says the holder of `key` signed `payload`; signatures cannot be forged. */
  ghost predicate Unforgeable(c: Codec, signed: (Bytes, CredentialPayload) -> bool) {
    forall key, p, raw | c.verify(key, p, raw) :: signed(key, p)
  }

  /** The payload is about these claims: their identity up to surrounding space, exactly their scopes,
      and their expiry, under the given key. */
  ghost predicate Attests(c: Codec, key: Bytes, p: CredentialPayload, claims: Claims) {
    && p.schema == 3 && p.keyId == c.keyId(key)
    && p.networkId == TrimSpace(claims.networkId) && p.nodeId == TrimSpace(claims.nodeId)
    && p.expiresAt == claims.expiresAt
    && forall s :: s in p.scopes <==> s in ScopeSet(claims.scopes)
  }

  /** A credential that validates is what the holder of the trusted key signed: no identity, scope or
      expiry can be claimed that was not. It is one of the known kind, before its expiry, and has the
      required scope. */
  lemma ValidIsAuthentic(c: Codec, signed: (Bytes, CredentialPayload) -> bool, credential: string, publicKey: string, scope: string, now: Time)
    requires Lawful(c) && Unforgeable(c, signed)
    requires Validate(c, credential, publicKey, scope, now).Some?
    ensures var claims := Validate(c, credential, publicKey, scope, now).value;
            && PREFIX <= TrimSpace(credential) && c.decode(TrimSpace(credential)[|PREFIX|..]) == Some(claims)
            && claims.version == 3 && claims.algorithm == "ed25519-node-credential-v3"
            && TrimSpace(claims.networkId) != "" && TrimSpace(claims.nodeId) != ""
            && now < claims.expiresAt && (TrimSpace(scope) != "" ==> TrimSpace(scope) in claims.scopes)
            && TrimSpace(publicKey) != "" && c.decodeKey(TrimSpace(publicKey)).Some?
            && claims.keyId == c.keyId(c.decodeKey(TrimSpace(publicKey)).value)
            && exists p :: signed(c.decodeKey(TrimSpace(publicKey)).value, p) && Attests(c, c.decodeKey(TrimSpace(publicKey)).value, p, claims)
  {
    hide TrimSpace, Trimmed, CleanScopes, ScopeSet, Sorts;
    var claims := Validate(c, credential, publicKey, scope, now).value;
    var key := c.decodeKey(TrimSpace(publicKey)).value;
    var p := SigningPayload(c, claims.keyId, claims.networkId, claims.nodeId, claims.scopes, claims.expiresAt).value;
    CleanScopesMembers(c, claims.scopes);
    TrimSpaceIdempotent(c.keyId(key));
    assert signed(key, p) && Attests(c, key, p, claims);
  }

  /** Two credentials that validate under one key, for any scopes at any times, agree on identity, set
      of scopes and expiry unless the holder of the key signed two payloads. */
  lemma TamperingNeedsSignature(c: Codec, signed: (Bytes, CredentialPayload) -> bool, a: string, b: string, publicKey: string,
                                scopeA: string, scopeB: string, nowA: Time, nowB: Time)
    requires Lawful(c) && Unforgeable(c, signed)
    requires Validate(c, a, publicKey, scopeA, nowA).Some? && Validate(c, b, publicKey, scopeB, nowB).Some?
    ensures var x, y := Validate(c, a, publicKey, scopeA, nowA).value, Validate(c, b, publicKey, scopeB, nowB).value;
            || (&& TrimSpace(x.networkId) == TrimSpace(y.networkId) && TrimSpace(x.nodeId) == TrimSpace(y.nodeId)
                && x.expiresAt == y.expiresAt && ScopeSet(x.scopes) == ScopeSet(y.scopes))
            || exists key, p, q :: c.decodeKey(TrimSpace(publicKey)) == Some(key) && signed(key, p) && signed(key, q) && p != q
  {
    hide TrimSpace, Trimmed, ScopeSet, Validate, Lawful, Unforgeable;
    ValidIsAuthentic(c, signed, a, publicKey, scopeA, nowA);
    ValidIsAuthentic(c, signed, b, publicKey, scopeB, nowB);
    var key := c.decodeKey(TrimSpace(publicKey)).value;
    var x, y := Validate(c, a, publicKey, scopeA, nowA).value, Validate(c, b, publicKey, scopeB, nowB).value;
    var p :| signed(key, p) && Attests(c, key, p, x);
    var q :| signed(key, q) && Attests(c, key, q, y);
    if p == q {
      assert forall s :: s in ScopeSet(x.scopes) <==> s in ScopeSet(y.scopes);
    }
  }

  /** Two lists of scopes sign the same payload exactly when they grant the same set. */
  lemma PayloadDependsOnScopeSet(c: Codec, keyId: string, networkId: string, nodeId: string, a: seq<string>, b: seq<string>, expiresAt: Time)
    requires Lawful(c) && TrimSpace(keyId) != "" && TrimSpace(networkId) != "" && TrimSpace(nodeId) != ""
    ensures SigningPayload(c, keyId, networkId, nodeId, a, expiresAt) == SigningPayload(c, keyId, networkId, nodeId, b, expiresAt) <==>
            ScopeSet(a) == ScopeSet(b)
    ensures SigningPayload(c, keyId, networkId, nodeId, a, expiresAt).None? <==> ScopeSet(a) == {}
  {
    hide TrimSpace, CleanScopes, ScopeSet, Lawful;
    CleanScopesIgnoreOrder(c, a, b);
    CleanScopesMembers(c, a);
    CleanScopesMembers(c, b);
    assert ScopeSet(a) == {} <==> CleanScopes(c, a) == [] by {
      if CleanScopes(c, a) != [] {
        assert CleanScopes(c, a)[0] in ScopeSet(a);
      }
    }
    assert ScopeSet(b) == {} <==> CleanScopes(c, b) == [] by {
      if CleanScopes(c, b) != [] {
        assert CleanScopes(c, b)[0] in ScopeSet(b);
      }
    }
  }
}
