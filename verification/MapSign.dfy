/** Signing and verifying a network map: clientapi/v1/mapsign.go. */
module MapSign {
  import opened Outcomes
  import opened Text
  import opened Ordering
  import opened NetworkMap
  import opened Environment
  import SigningTrust
  import Sharing

  const VERSION: int := 5
  const ALGORITHM: string := "ed25519-network-map-v5"
  const MAX_SKEW: int := 5 * MINUTE

  // ----- the canonical payload -----

  /** `canonicalNetworkMapPayload` before encoding; the callers check that the key ID is not blank. */
  function Canonical(env: Env, s: Snapshot, keyId: string, issuedAt: Time, expiresAt: Time): Payload {
    Payload(
      VERSION, TrimSpace(keyId), issuedAt, expiresAt, s.revision, TrimSpace(s.registrationBinding), s.network, s.node,
      env.sorters.peers(s.peers), env.sorters.stun(s.stunEndpoints), env.sorters.relays(s.relays))
  }

  /** Agreement on everything a signature covers: every signed field, the registration binding up to
      surrounding space, and the three lists up to order. */
  ghost predicate SameSigned(a: Snapshot, b: Snapshot) {
    && a.revision == b.revision && a.network == b.network && a.node == b.node
    && TrimSpace(a.registrationBinding) == TrimSpace(b.registrationBinding)
    && SamePermutation(a.peers, b.peers)
    && SamePermutation(a.stunEndpoints, b.stunEndpoints)
    && SamePermutation(a.relays, b.relays)
  }

  lemma StunFaithful(s: seq<StunEndpoint>)
    ensures Faithful(s, StunKey)
  {
  }

  /** Equal payloads mean equal signed contents, whatever the sorts do with ties. */
  lemma PayloadDeterminesContents(env: Env, a: Snapshot, b: Snapshot, keyA: string, keyB: string,
                                  fromA: Time, fromB: Time, toA: Time, toB: Time)
    requires LawfulSorters(env.sorters)
    requires Canonical(env, a, keyA, fromA, toA) == Canonical(env, b, keyB, fromB, toB)
    ensures SameSigned(a, b) && TrimSpace(keyA) == TrimSpace(keyB) && fromA == fromB && toA == toB
  {
    hide TrimSpace, SortedBy;
    SortForgetsOrder(env.sorters.peers, PeerKey, a.peers, b.peers);
    SortForgetsOrder(env.sorters.stun, StunKey, a.stunEndpoints, b.stunEndpoints);
    SortForgetsOrder(env.sorters.relays, RelayKey, a.relays, b.relays);
  }

  /** When the sort keys tell peers and relays apart, the payload is canonical: equal exactly for maps
      that agree on what is signed. STUN endpoints need no such condition, their key is the record. */
  lemma CanonicalIff(env: Env, a: Snapshot, b: Snapshot, keyId: string, issuedAt: Time, expiresAt: Time)
    requires LawfulSorters(env.sorters)
    requires Faithful(a.peers, PeerKey) && Faithful(a.relays, RelayKey)
    ensures Canonical(env, a, keyId, issuedAt, expiresAt) == Canonical(env, b, keyId, issuedAt, expiresAt) <==> SameSigned(a, b)
  {
    hide TrimSpace, SortedBy;
    StunFaithful(a.stunEndpoints);
    SortForgetsOrder(env.sorters.peers, PeerKey, a.peers, b.peers);
    SortForgetsOrder(env.sorters.stun, StunKey, a.stunEndpoints, b.stunEndpoints);
    SortForgetsOrder(env.sorters.relays, RelayKey, a.relays, b.relays);
  }

  // ----- verification -----

  predicate SignatureWindow(sig: MapSignature, now: Time) {
    sig.issuedAt <= now + MAX_SKEW && now < sig.expiresAt
  }

  /** The checks on a signature that do not look at the clock. */
  ghost predicate SignedUnder(env: Env, s: Snapshot, publicKey: string) {
    && s.mapSignature.Some?
    && var sig := s.mapSignature.value;
       var key := env.crypto.decodeKey(TrimSpace(publicKey));
       var raw := env.crypto.decodeSignature(sig.signature);
       && sig.version == VERSION && sig.algorithm == ALGORITHM
       && TrimSpace(publicKey) != "" && key.Some?
       && TrimSpace(sig.keyId) != "" && sig.keyId == env.crypto.keyId(key.value)
       && raw.Some?
       && sig.issuedAt != 0 && sig.expiresAt != 0 && sig.issuedAt < sig.expiresAt
       && var payload := Canonical(env, s, sig.keyId, sig.issuedAt, sig.expiresAt);
          sig.payloadHash == env.crypto.hash(payload) && env.crypto.verify(key.value, payload, raw.value)
  }

  /** A map verifies under a key at an instant: a clock-free part, the signature's window and the leases. */
  ghost predicate VerifiedAt(env: Env, s: Snapshot, publicKey: string, now: Time) {
    && SignedUnder(env, s, publicKey)
    && SignatureWindow(s.mapSignature.value, now)
    && Sharing.SharesAcceptedAt(env.net, s, now)
  }

  method VerifySignatureAt(env: Env, s: Snapshot, publicKey: string, now: Time) returns (ok: bool)
    requires LawfulNet(env.net)
    ensures ok <==> VerifiedAt(env, s, publicKey, now)
  {
    hide TrimSpace, Canonical, LawfulNet;
    hide Sharing.SharesAcceptedAt;
    if s.mapSignature.None? {
      return false;
    }
    var sig, text := s.mapSignature.value, TrimSpace(publicKey);
    TrimSpaceIdempotent(publicKey);
    if sig.version != VERSION || sig.algorithm != ALGORITHM || text == "" {
      return false;
    }
    var keyId := SigningTrust.SigningKeyId(env.crypto, text);
    if keyId.None? || TrimSpace(sig.keyId) == "" || sig.keyId != keyId.value {
      return false;
    }
    var key, raw := env.crypto.decodeKey(text), env.crypto.decodeSignature(sig.signature);
    if key.None? || raw.None? {
      return false;
    }
    if sig.issuedAt == 0 || sig.expiresAt == 0 || sig.issuedAt >= sig.expiresAt || !SignatureWindow(sig, now) {
      return false;
    }
    var payload := Canonical(env, s, sig.keyId, sig.issuedAt, sig.expiresAt);
    if sig.payloadHash != env.crypto.hash(payload) || !env.crypto.verify(key.value, payload, raw.value) {
      return false;
    }
    ok := Sharing.ValidateSharePeerGrantsAt(env.net, s, now);
  }

  /** The instants at which a map can be verified: from the latest of the skewed issue time and all
      lease starts, to the earliest of the expiry and all lease ends. */
  function Opens(s: Snapshot): Time
    requires s.mapSignature.Some?
  {
    LatestStart(s.network.sharePeerGrants, s.mapSignature.value.issuedAt - MAX_SKEW)
  }

  function Closes(s: Snapshot): Time
    requires s.mapSignature.Some?
  {
    EarliestEnd(s.network.sharePeerGrants, s.mapSignature.value.expiresAt)
  }

  function LatestStart(grants: seq<SharePeerGrant>, from: Time): (r: Time)
    ensures from <= r && forall g | g in grants :: g.issuedAt <= r
    ensures r == from || exists g | g in grants :: g.issuedAt == r
  {
    if grants == [] then from
    else
      var rest := LatestStart(grants[1..], from);
      assert grants == [grants[0]] + grants[1..];
      if rest < grants[0].issuedAt then grants[0].issuedAt else rest
  }

  function EarliestEnd(grants: seq<SharePeerGrant>, to: Time): (r: Time)
    ensures r <= to && forall g | g in grants :: r <= g.expiresAt
    ensures r == to || exists g | g in grants :: g.expiresAt == r
  {
    if grants == [] then to
    else
      var rest := EarliestEnd(grants[1..], to);
      assert grants == [grants[0]] + grants[1..];
      if grants[0].expiresAt < rest then grants[0].expiresAt else rest
  }

  /** For a fixed map and key the instants of successful verification are one interval, empty unless
      the clock-free checks pass; a map with a sharing grant is verifiable for at most two minutes. */
  lemma VerificationWindow(env: Env, s: Snapshot, publicKey: string)
    requires s.mapSignature.Some?
    ensures forall now: Time :: VerifiedAt(env, s, publicKey, now) <==>
              SignedUnder(env, s, publicKey) && Sharing.SharesAccepted(env.net, s) && Opens(s) <= now < Closes(s)
    ensures s.network.sharePeerGrants != [] && Sharing.SharesAccepted(env.net, s) ==>
              Closes(s) - Opens(s) <= 120_000_000_000
  {
    hide SignedUnder;
    hide Sharing.SharesAccepted;
    if s.network.sharePeerGrants != [] && Sharing.SharesAccepted(env.net, s) {
      var g := s.network.sharePeerGrants[0];
      AcceptedLease(env, s, g);
    }
  }

  lemma AcceptedLease(env: Env, s: Snapshot, g: SharePeerGrant)
    requires Sharing.SharesAccepted(env.net, s) && g in s.network.sharePeerGrants
    ensures Sharing.LeaseAccepted(g)
  {
    assert Sharing.GrantOk(env.net, s, g);
    assert Sharing.HeaderAccepted(env.net, g);
  }

  /** A map that verifies has a signature of the known version and algorithm, made by the trusted key for
      the map's own payload; a blank key or key ID vouches for nothing. */
  lemma VerifiedIsSigned(env: Env, s: Snapshot, publicKey: string, now: Time)
    requires VerifiedAt(env, s, publicKey, now)
    ensures s.mapSignature.Some? && TrimSpace(publicKey) != "" && env.crypto.decodeKey(TrimSpace(publicKey)).Some?
    ensures var sig, key := s.mapSignature.value, env.crypto.decodeKey(TrimSpace(publicKey)).value;
            && sig.version == 5 && sig.algorithm == "ed25519-network-map-v5"
            && TrimSpace(sig.keyId) != "" && sig.keyId == env.crypto.keyId(key)
            && sig.issuedAt != 0 && sig.expiresAt != 0 && sig.issuedAt < sig.expiresAt
            && sig.issuedAt - 300_000_000_000 <= now < sig.expiresAt
            && sig.payloadHash == env.crypto.hash(Canonical(env, s, sig.keyId, sig.issuedAt, sig.expiresAt))
            && exists raw :: env.crypto.decodeSignature(sig.signature) == Some(raw) &&
                             env.crypto.verify(key, Canonical(env, s, sig.keyId, sig.issuedAt, sig.expiresAt), raw)
  {
    hide TrimSpace, Canonical;
    hide Sharing.SharesAcceptedAt;
  }

  /** Reordering the lists of a map changes nothing about its verification. */
  lemma VerificationIgnoresOrder(env: Env, a: Snapshot, b: Snapshot, publicKey: string, now: Time)
    requires LawfulSorters(env.sorters)
    requires a.mapSignature == b.mapSignature && SameSigned(a, b)
    requires Faithful(a.peers, PeerKey) && Faithful(a.relays, RelayKey)
    requires VerifiedAt(env, a, publicKey, now)
    ensures VerifiedAt(env, b, publicKey, now)
  {
    hide Canonical, TrimSpace, LawfulSorters, Faithful;
    hide Sharing.SharesAccepted;
    var sig := a.mapSignature.value;
    CanonicalIff(env, a, b, sig.keyId, sig.issuedAt, sig.expiresAt);
    Sharing.SharesIgnoreOrder(env.net, a, b);
  }

  // ----- signing -----

  function TruncateToSecond(t: Time): Time { t - t % SECOND }

  /** `SignNetworkMapSnapshotWithProvider`: `key` is the raw public key, `keyText` its text, and the
      signer turns a payload into the text of a signature or refuses. */
  function Sign(env: Env, key: Bytes, s: Snapshot, issuedAt: Time, ttl: int, signer: Payload -> Option<string>)
    : Option<MapSignature>
  {
    if ttl <= 0 then None
    else
      var from := TruncateToSecond(issuedAt);
      var keyId := env.crypto.keyId(key);
      var payload := Canonical(env, s, keyId, from, from + ttl);
      if TrimSpace(keyId) == "" then None
      else match signer(payload)
      case None => None
      case Some(text) =>
        if env.crypto.decodeSignature(text).None? then None
        else Some(MapSignature(VERSION, keyId, ALGORITHM, from, from + ttl, env.crypto.hash(payload), text))
  }

  /** Signing fails only for a lifetime that is not positive, a key without an ID, or a signer that
      refuses or answers with no signature; it signs the canonical payload of the map. */
  lemma SignIff(env: Env, key: Bytes, s: Snapshot, issuedAt: Time, ttl: int, signer: Payload -> Option<string>)
    ensures Sign(env, key, s, issuedAt, ttl, signer).Some? <==>
              && ttl > 0 && TrimSpace(env.crypto.keyId(key)) != ""
              && IsSignature(env, signer(Canonical(env, s, env.crypto.keyId(key), TruncateToSecond(issuedAt), TruncateToSecond(issuedAt) + ttl)))
  {
    hide TrimSpace, Canonical, TruncateToSecond;
  }

  predicate IsSignature(env: Env, answer: Option<string>) {
    answer.Some? && env.crypto.decodeSignature(answer.value).Some?
  }

  /** The signer produces signatures that verify under the key. */
  ghost predicate SignsFor(env: Env, key: Bytes, signer: Payload -> Option<string>) {
    forall p :: signer(p).Some? && env.crypto.decodeSignature(signer(p).value).Some? ==>
                  env.crypto.verify(key, p, env.crypto.decodeSignature(signer(p).value).value)
  }

  /** Round trip: a signed map verifies under the signer's key at exactly the instants from five
      minutes before the truncated issue time until the expiry, while its sharing grants hold. */
  lemma SignThenVerify(env: Env, key: Bytes, publicKey: string, s: Snapshot, issuedAt: Time, ttl: int,
                       signer: Payload -> Option<string>, now: Time)
    requires LawfulCrypto(env.crypto) && SignsFor(env, key, signer)
    requires TrimSpace(publicKey) != "" && env.crypto.decodeKey(TrimSpace(publicKey)) == Some(key)
    requires Sign(env, key, s, issuedAt, ttl, signer).Some?
    ensures var from := TruncateToSecond(issuedAt);
            VerifiedAt(env, s.(mapSignature := Sign(env, key, s, issuedAt, ttl, signer)), publicKey, now) <==>
              && from != 0 && from + ttl != 0
              && from - 300_000_000_000 <= now < from + ttl
              && Sharing.SharesAcceptedAt(env.net, s, now)
  {
    hide TrimSpace, Trimmed;
    hide Sharing.SharesAcceptedAt;
    var signed := s.(mapSignature := Sign(env, key, s, issuedAt, ttl, signer));
    SharesIgnoreSignature(env.net, s, signed, now);
    TrimSpaceIdempotent(env.crypto.keyId(key));
    var from := TruncateToSecond(issuedAt);
    assert Canonical(env, signed, env.crypto.keyId(key), from, from + ttl) == Canonical(env, s, env.crypto.keyId(key), from, from + ttl);
  }

  lemma SharesIgnoreSignature(net: Net, a: Snapshot, b: Snapshot, now: Time)
    requires a.network == b.network && a.node == b.node && a.peers == b.peers
    ensures Sharing.SharesAcceptedAt(net, a, now) <==> Sharing.SharesAcceptedAt(net, b, now)
  {
    hide Sharing.SharesAccepted;
    if Sharing.SharesAccepted(net, a) {
      Sharing.SharesIgnoreOrder(net, a, b);
    }
    if Sharing.SharesAccepted(net, b) {
      Sharing.SharesIgnoreOrder(net, b, a);
    }
  }

  /** Because the issue time is truncated and the expiry is counted from it, a map verifies at the
      instant it was signed exactly when its lifetime exceeds the truncated fraction of a second. */
  lemma FreshSignatureVerifiesIff(env: Env, key: Bytes, publicKey: string, s: Snapshot, issuedAt: Time, ttl: int,
                                  signer: Payload -> Option<string>)
    requires LawfulCrypto(env.crypto) && SignsFor(env, key, signer)
    requires TrimSpace(publicKey) != "" && env.crypto.decodeKey(TrimSpace(publicKey)) == Some(key)
    requires Sign(env, key, s, issuedAt, ttl, signer).Some?
    requires issuedAt >= SECOND && Sharing.SharesAcceptedAt(env.net, s, issuedAt)
    ensures VerifiedAt(env, s.(mapSignature := Sign(env, key, s, issuedAt, ttl, signer)), publicKey, issuedAt) <==>
            issuedAt % SECOND < ttl
  {
    hide VerifiedAt, TrimSpace, Sign, Canonical, LawfulCrypto, SignsFor;
    hide Sharing.SharesAcceptedAt;
    SignThenVerify(env, key, publicKey, s, issuedAt, ttl, signer, issuedAt);
    if Sign(env, key, s, issuedAt, ttl, signer).Some? {
      SignedTtl(env, key, s, issuedAt, ttl, signer);
    }
    assert 0 <= issuedAt % SECOND < SECOND;
  }

  lemma SignedTtl(env: Env, key: Bytes, s: Snapshot, issuedAt: Time, ttl: int, signer: Payload -> Option<string>)
    requires Sign(env, key, s, issuedAt, ttl, signer).Some?
    ensures ttl > 0
  {
  }
}
