/** Which signing keys a client trusts and when: clientapi/v1/signing_trust.go. */
module SigningTrust {
  import opened Outcomes
  import opened Text
  import opened Ordering
  import opened NetworkMap
  import opened Environment

  const BUNDLE_VERSION: int := 1
  const ED25519: string := "ed25519"

  function SigningKeyId(c: Crypto, publicKey: string): Option<string> {
    match c.decodeKey(TrimSpace(publicKey))
    case None => None
    case Some(raw) => Some(c.keyId(raw))
  }

  function TrimmedKeyId(key: SigningTrustKey): string { TrimSpace(key.keyId) }

  predicate KeyAccepted(c: Crypto, key: SigningTrustKey) {
    && TrimmedKeyId(key) != ""
    && TrimSpace(key.algorithm) == ED25519
    && SigningKeyId(c, key.publicKey) == Some(TrimmedKeyId(key))
    && (key.notBefore.Some? && key.notAfter.Some? ==> key.notBefore.value < key.notAfter.value)
  }

  ghost predicate BundleValid(c: Crypto, b: SigningTrustBundle) {
    && b.version == BUNDLE_VERSION
    && TrimSpace(b.activeKeyId) != ""
    && (forall key | key in b.keys :: KeyAccepted(c, key))
    && DistinctBy(b.keys, TrimmedKeyId)
    && exists key | key in b.keys :: TrimmedKeyId(key) == TrimSpace(b.activeKeyId)
  }

  method Validate(c: Crypto, b: SigningTrustBundle) returns (ok: bool)
    ensures ok <==> BundleValid(c, b)
  {
    hide TrimSpace;
    if b.version != BUNDLE_VERSION || TrimSpace(b.activeKeyId) == "" || |b.keys| == 0 {
      return false;
    }
    var seen: set<string> := {};
    var activeFound := false;
    for i := 0 to |b.keys|
      invariant forall j | 0 <= j < i :: KeyAccepted(c, b.keys[j])
      invariant forall k :: k in seen <==> exists j | 0 <= j < i :: TrimmedKeyId(b.keys[j]) == k
      invariant forall j, k | 0 <= j < k < i :: TrimmedKeyId(b.keys[j]) != TrimmedKeyId(b.keys[k])
      invariant activeFound <==> exists j | 0 <= j < i :: TrimmedKeyId(b.keys[j]) == TrimSpace(b.activeKeyId)
    {
      var key := b.keys[i];
      assert key in b.keys;
      var keyId := TrimmedKeyId(key);
      if keyId in seen || !KeyAccepted(c, key) {
        return false;
      }
      seen := seen + {keyId};
      activeFound := activeFound || keyId == TrimSpace(b.activeKeyId);
    }
    if activeFound {
      var j :| 0 <= j < |b.keys| && TrimmedKeyId(b.keys[j]) == TrimSpace(b.activeKeyId);
      assert b.keys[j] in b.keys;
    }
    return activeFound;
  }

  /** The instants at which a key is trusted. */
  predicate TrustedAt(key: SigningTrustKey, at: Time) {
    && (key.notBefore.Some? ==> key.notBefore.value <= at)
    && (key.notAfter.Some? ==> at < key.notAfter.value)
  }

  function FirstWith(keys: seq<SigningTrustKey>, keyId: string): Option<SigningTrustKey> {
    if keys == [] then None
    else if keys[0].keyId == keyId then Some(keys[0])
    else FirstWith(keys[1..], keyId)
  }

  /** The key a signature's key ID stands for at an instant, if the bundle vouches for one. */
  ghost function Resolve(c: Crypto, b: SigningTrustBundle, keyId: string, at: Time): Option<SigningTrustKey> {
    var found := FirstWith(b.keys, TrimSpace(keyId));
    if BundleValid(c, b) && TrimSpace(keyId) != "" && found.Some? && TrustedAt(found.value, at) then found else None
  }

  method ResolveKey(c: Crypto, b: SigningTrustBundle, keyId: string, at: Time) returns (r: Option<SigningTrustKey>)
    ensures r == Resolve(c, b, keyId, at)
  {
    hide TrimSpace;
    var ok := Validate(c, b);
    var id := TrimSpace(keyId);
    if !ok || id == "" {
      return None;
    }
    for i := 0 to |b.keys|
      invariant FirstWith(b.keys, id) == FirstWith(b.keys[i..], id)
    {
      assert b.keys[i..][1..] == b.keys[i + 1..];
      if b.keys[i].keyId == id {
        return if TrustedAt(b.keys[i], at) then Some(b.keys[i]) else None;
      }
    }
    return None;
  }

  lemma {:induction false} FirstWithMember(keys: seq<SigningTrustKey>, keyId: string)
    ensures var r := FirstWith(keys, keyId);
            && (r.Some? ==> r.value in keys && r.value.keyId == keyId)
            && (r.None? ==> forall key | key in keys :: key.keyId != keyId)
  {
    if keys != [] && keys[0].keyId != keyId {
      FirstWithMember(keys[1..], keyId);
      assert keys == [keys[0]] + keys[1..];
    }
  }

  /** Resolution never picks: the key it returns is the only key of the bundle with that ID, its ID is
      the fingerprint of its own public key, and it is trusted at that instant. */
  lemma ResolveIsUnique(c: Crypto, b: SigningTrustBundle, keyId: string, at: Time, key: SigningTrustKey)
    ensures Resolve(c, b, keyId, at) == Some(key) <==>
              && BundleValid(c, b) && TrimSpace(keyId) != ""
              && key in b.keys && key.keyId == TrimSpace(keyId) && TrustedAt(key, at)
    ensures Resolve(c, b, keyId, at) == Some(key) ==>
              && SigningKeyId(c, key.publicKey) == Some(key.keyId)
              && forall other | other in b.keys && TrimmedKeyId(other) == TrimSpace(keyId) :: other == key
  {
    hide TrimSpace;
    FirstWithMember(b.keys, TrimSpace(keyId));
    TrimSpaceIdempotent(keyId);
    if BundleValid(c, b) && key in b.keys && key.keyId == TrimSpace(keyId) {
      forall other | other in b.keys && TrimmedKeyId(other) == TrimSpace(keyId)
        ensures other == key
      {
        var i :| 0 <= i < |b.keys| && b.keys[i] == other;
        var j :| 0 <= j < |b.keys| && b.keys[j] == key;
        assert TrimmedKeyId(b.keys[i]) == TrimmedKeyId(b.keys[j]);
      }
    }
  }

  /** A bundle is valid exactly if it has the known version, names an active key it holds, and holds
      Ed25519 keys only, each under the fingerprint of its public key, with distinct IDs and a lifetime
      that does not end before it begins. */
  lemma BundleValidIff(c: Crypto, b: SigningTrustBundle)
    ensures BundleValid(c, b) <==>
              && b.version == 1 && TrimSpace(b.activeKeyId) != ""
              && (exists key | key in b.keys :: TrimSpace(key.keyId) == TrimSpace(b.activeKeyId))
              && (forall i, j | 0 <= i < |b.keys| && 0 <= j < |b.keys| && TrimSpace(b.keys[i].keyId) == TrimSpace(b.keys[j].keyId) :: i == j)
              && (forall key | key in b.keys ::
                    && TrimSpace(key.keyId) != "" && TrimSpace(key.algorithm) == "ed25519"
                    && c.decodeKey(TrimSpace(key.publicKey)).Some?
                    && TrimSpace(key.keyId) == c.keyId(c.decodeKey(TrimSpace(key.publicKey)).value)
                    && !(key.notBefore.Some? && key.notAfter.Some? && key.notAfter.value <= key.notBefore.value))
  {
    hide TrimSpace;
    assert (forall i, j | 0 <= i < |b.keys| && 0 <= j < |b.keys| && TrimSpace(b.keys[i].keyId) == TrimSpace(b.keys[j].keyId) :: i == j)
      <==> DistinctBy(b.keys, TrimmedKeyId);
  }

  /** A key of a valid bundle stored under its trimmed ID resolves exactly from the beginning of its
      lifetime, if it has one, until the end, if it has one: an expired key never resolves again. */
  lemma ResolutionWindow(c: Crypto, b: SigningTrustBundle, key: SigningTrustKey, at: Time)
    requires BundleValid(c, b) && key in b.keys && Trimmed(key.keyId)
    ensures Resolve(c, b, key.keyId, at) ==
            if (key.notBefore.None? || key.notBefore.value <= at) && (key.notAfter.None? || at < key.notAfter.value)
            then Some(key) else None
  {
    hide TrimSpace, Trimmed;
    TrimSpaceIdempotent(key.keyId);
    assert KeyAccepted(c, key);
    ResolveIsUnique(c, b, key.keyId, at, key);
    var r := Resolve(c, b, key.keyId, at);
    if r.Some? {
      ResolveIsUnique(c, b, key.keyId, at, r.value);
    }
  }

  /** Validation trims the stored key IDs and resolution does not: in an accepted bundle the active
      key resolves while it is trusted exactly when its ID is stored without surrounding space. */
  lemma ActiveKeyResolvesIff(c: Crypto, b: SigningTrustBundle, key: SigningTrustKey, at: Time)
    requires BundleValid(c, b)
    requires key in b.keys && TrimmedKeyId(key) == TrimSpace(b.activeKeyId)
    ensures Resolve(c, b, b.activeKeyId, at).Some? <==> Trimmed(key.keyId) && TrustedAt(key, at)
  {
    TrimSpaceIdempotent(key.keyId);
    var r := Resolve(c, b, b.activeKeyId, at);
    if r.Some? {
      ResolveIsUnique(c, b, b.activeKeyId, at, r.value);
    }
    ResolveIsUnique(c, b, b.activeKeyId, at, key);
  }

  /** A bundle that is accepted although its only key can never be resolved. */
  lemma AcceptedButNeverResolves(c: Crypto, publicKey: string, at: Time)
    requires LawfulCrypto(c) && SigningKeyId(c, publicKey).Some?
    ensures var id := SigningKeyId(c, publicKey).value;
            var b := SigningTrustBundle(1, id, [SigningTrustKey(" " + id, "ed25519", publicKey, None, None)]);
            BundleValid(c, b) && Resolve(c, b, id, at).None?
  {
    hide TrimSpace, Trimmed;
    var id := SigningKeyId(c, publicKey).value;
    var key := SigningTrustKey(" " + id, "ed25519", publicKey, None, None);
    TrimSpaceIdempotent(id);
    TrimOneSpace(id);
    assert TrimSpace("ed25519") == "ed25519" by { Ed25519Trimmed(); }
    var b := SigningTrustBundle(1, id, [key]);
    assert key in b.keys;
    ResolveMisses(c, b, key, at);
  }

  lemma Ed25519Trimmed()
    ensures TrimSpace("ed25519") == "ed25519"
  {
    hide TrimSpace;
    TrimSpaceIdempotent("ed25519");
  }

  /** A key whose stored ID differs from its trimmed ID is never found. */
  lemma ResolveMisses(c: Crypto, b: SigningTrustBundle, key: SigningTrustKey, at: Time)
    requires b.keys == [key] && key.keyId != TrimSpace(b.activeKeyId)
    ensures Resolve(c, b, b.activeKeyId, at).None?
  {
    hide TrimSpace;
    FirstWithMember(b.keys, TrimSpace(b.activeKeyId));
  }
}
