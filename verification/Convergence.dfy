/** A client that follows a producer's history of signed deltas over an unreliable network:
    what every step keeps, and when the client catches up (clientapi/v1/mapstream.go:20-107). */
module Convergence {
  import opened Outcomes
  import opened Text
  import opened Ordering
  import opened NetworkMap
  import opened Environment
  import opened Merge
  import opened MapValidation
  import opened MapSign
  import opened MapStream
  import SigningTrust
  import Sharing

  /** `maps[0]`, `maps[1]`, ... are the producer's maps; `events[j]` is the delta from `maps[j]` to `maps[j + 1]`. */
  datatype History = History(maps: seq<Snapshot>, events: seq<Event>)

  /** The producer's map is valid and carries its own hash. */
  ghost predicate Published(env: Env, m: Snapshot) {
    && MapAccepted(env, m)
    && m.mapSignature.Some?
    && var sig := m.mapSignature.value;
       sig.payloadHash == env.crypto.hash(Canonical(env, m, sig.keyId, sig.issuedAt, sig.expiresAt))
  }

  /** `e` is the signed delta that takes `from` to `to`. */
  ghost predicate Connects(e: Event, from: Snapshot, to: Snapshot) {
    && EventAccepted(e) && e.kind == "delta"
    && e.from == from.revision && e.to == to.revision
    && e.baseHash == CurrentHash(from)
    && e.resultSignature == to.mapSignature
    && ApplyDelta(from, e.delta.value).Ok?
    && SameUpToOrder(Sealed(ApplyDelta(from, e.delta.value).value, e), to)
  }

  /** A delta tells its base from another map by revision and hash, so one of them must differ; a map
      signed again under the same revision has another hash. */
  predicate Distinguished(a: Snapshot, b: Snapshot) {
    a.revision != b.revision || CurrentHash(a) != CurrentHash(b)
  }

  ghost predicate Valid(env: Env, h: History) {
    && |h.maps| == |h.events| + 1
    && (forall j | 0 <= j < |h.maps| :: Published(env, h.maps[j]))
    && (forall j | 0 <= j < |h.events| :: Connects(h.events[j], h.maps[j], h.maps[j + 1]))
    && (forall i, j | 0 <= i < j < |h.maps| :: Distinguished(h.maps[i], h.maps[j]))
  }

  /** The cache is the producer's `k`-th map up to order. */
  ghost predicate At(h: History, cache: Snapshot, k: nat) {
    k < |h.maps| && SameUpToOrder(cache, h.maps[k])
  }

  // ----- the merge respects order -----

  lemma PublishedIdsDistinct(env: Env, m: Snapshot)
    requires LawfulRelays(env.fields) && MapAccepted(env, m)
    ensures DistinctBy(m.peers, PeerId) && DistinctBy(m.relays, RelayId)
    ensures Faithful(m.peers, PeerKey) && Faithful(m.relays, RelayKey)
  {
    assert ListsAccepted(env, m);
    DistinctIsFaithful(m.peers, PeerId, PeerKey);
    DistinctIsFaithful(m.relays, RelayId, RelayKey);
  }

  /** A delta takes maps that agree up to order to maps that agree up to order, or is refused by both. */
  lemma DeltaRespectsOrder(a: Snapshot, b: Snapshot, delta: Delta)
    requires SameUpToOrder(a, b) && DistinctBy(b.peers, PeerId) && DistinctBy(b.relays, RelayId)
    ensures ApplyDelta(a, delta).Ok? <==> ApplyDelta(b, delta).Ok?
    ensures ApplyDelta(b, delta).Ok? ==> SameUpToOrder(ApplyDelta(a, delta).value, ApplyDelta(b, delta).value)
  {
    hide Merged, DistinctBy;
    MergeRespectsOrder(b.peers, a.peers, delta.peerUpserts, delta.peerRemoveIds, PeerId, TrimmedPeerId);
    MergeRespectsOrder(b.relays, a.relays, delta.relayUpserts, delta.relayRemoveIds, RelayId, TrimmedRelayId);
  }

  lemma SameUpToOrderTransitive(a: Snapshot, b: Snapshot, c: Snapshot)
    requires SameUpToOrder(a, b) && SameUpToOrder(b, c)
    ensures SameUpToOrder(a, c)
  {
  }

  lemma SameUpToOrderSymmetric(a: Snapshot, b: Snapshot)
    requires SameUpToOrder(a, b)
    ensures SameUpToOrder(b, a)
  {
  }

  lemma SameMapSameSigned(a: Snapshot, b: Snapshot)
    requires SameUpToOrder(a, b)
    ensures SameSigned(a, b) && a.mapSignature == b.mapSignature
  {
  }

  /** A map verified in one order of its lists verifies in every order. */
  lemma ResultIgnoresOrder(env: Env, a: Snapshot, b: Snapshot, trust: SigningTrustBundle, now: Time)
    requires Lawful(env) && SameUpToOrder(a, b) && ResultVerified(env, a, trust, now)
    ensures ResultVerified(env, b, trust, now)
  {
    hide MapAccepted, VerifiedAt, SameSigned, Faithful, DistinctBy;
    hide SigningTrust.Resolve;
    AcceptanceIgnoresOrder(env, a, b);
    PublishedIdsDistinct(env, a);
    SameMapSameSigned(a, b);
    var key := SigningTrust.Resolve(env.crypto, trust, a.mapSignature.value.keyId, now).value;
    VerificationIgnoresOrder(env, a, b, key.publicKey, now);
  }

  // ----- one delta -----

  /** The result a client computes from the delta that connects two published maps is the second
      one up to order, if its cache is the first one up to order. */
  lemma DeltaReachesNext(env: Env, e: Event, from: Snapshot, to: Snapshot, cache: Snapshot)
    requires LawfulRelays(env.fields) && Published(env, from)
    requires e.delta.Some? && Connects(e, from, to) && SameUpToOrder(cache, from)
    ensures ApplyDelta(cache, e.delta.value).Ok?
    ensures SameUpToOrder(Sealed(ApplyDelta(cache, e.delta.value).value, e), to)
  {
    hide ApplyDelta, MapAccepted, Faithful, DistinctBy, SamePermutation, EventAccepted, LawfulRelays;
    PublishedIdsDistinct(env, from);
    DeltaRespectsOrder(cache, from, e.delta.value);
    SameUpToOrderTransitive(Sealed(ApplyDelta(cache, e.delta.value).value, e), Sealed(ApplyDelta(from, e.delta.value).value, e), to);
  }

  lemma ConnectsIsDelta(e: Event, from: Snapshot, to: Snapshot)
    requires Connects(e, from, to)
    ensures EventAccepted(e) && e.kind == "delta" && e.delta.Some? && !IsBeat(e)
    ensures e.from == from.revision && e.to == to.revision && e.baseHash == CurrentHash(from)
    ensures e.resultSignature == to.mapSignature
  {
    hide ApplyDelta, SameUpToOrder, TrimSpace, CurrentHash;
  }

  /** The signed delta that publishes `b` after `a`. */
  function Publication(a: Snapshot, b: Snapshot): Event {
    Event("delta", "e", a.revision, b.revision, CurrentHash(a), None, Some(Difference(a, b)), b.mapSignature)
  }

  /** A producer can publish any change that does not drop the relay credential or touch the
      registration binding: its delta connects the two maps. */
  lemma AnyChangeConnects(a: Snapshot, b: Snapshot)
    requires CleanLists(a) && CleanLists(b) && a.registrationBinding == b.registrationBinding
    requires b.relayCredential.None? ==> a.relayCredential.None?
    requires CurrentHash(a) != "" && b.mapSignature.Some?
    ensures Connects(Publication(a, b), a, b)
  {
    hide ApplyDelta, TrimSpace, SameUpToOrder, CleanLists, Difference;
    DifferenceReaches(a, b);
    TrimSpaceIdempotent("e");
    TrimSpaceIdempotent(a.mapSignature.value.payloadHash);
  }

  // ----- when a published map can be verified -----

  /** The bundle vouches for the key the map is signed under; nothing here depends on the clock. */
  ghost predicate Vouches(env: Env, trust: SigningTrustBundle, m: Snapshot, key: SigningTrustKey) {
    && SigningTrust.BundleValid(env.crypto, trust) && key in trust.keys
    && m.mapSignature.Some? && key.keyId == m.mapSignature.value.keyId
    && SignedUnder(env, m, key.publicKey)
  }

  /** The key is trusted and the windows of the signature and of all leases are open. */
  predicate Open(m: Snapshot, key: SigningTrustKey, now: Time) {
    SigningTrust.TrustedAt(key, now) && m.mapSignature.Some? && Opens(m) <= now < Closes(m)
  }

  lemma VerifiableIff(env: Env, trust: SigningTrustBundle, m: Snapshot, key: SigningTrustKey, now: Time)
    requires LawfulCrypto(env.crypto) && MapAccepted(env, m) && Vouches(env, trust, m, key)
    ensures ResultVerified(env, m, trust, now) <==> Open(m, key, now)
  {
    hide MapAccepted, VerifiedAt, Canonical, TrimSpace, Trimmed, Opens, Closes;
    hide SigningTrust.Resolve, SigningTrust.BundleValid, SigningTrust.TrustedAt, Sharing.SharesAccepted;
    SharesAreAccepted(env, m);
    var keyId := m.mapSignature.value.keyId;
    TrimSpaceIdempotent(keyId);
    SigningTrust.ResolveIsUnique(env.crypto, trust, keyId, now, key);
    VerificationWindow(env, m, key.publicKey);
    var found := SigningTrust.Resolve(env.crypto, trust, keyId, now);
    if found.Some? {
      SigningTrust.ResolveIsUnique(env.crypto, trust, keyId, now, found.value);
      assert SigningTrust.TrimmedKeyId(key) == keyId;
    }
  }

  lemma SharesAreAccepted(env: Env, m: Snapshot)
    requires MapAccepted(env, m)
    ensures Sharing.SharesAccepted(env.net, m)
  {
    hide Sharing.SharesAccepted;
  }

  // ----- one delivery -----

  /** `e` carries the producer's `j`-th map whole. */
  ghost predicate FullMapOf(h: History, e: Event, j: nat) {
    && j < |h.maps|
    && EventAccepted(e) && (e.kind == "snapshot" || e.kind == "resync")
    && SameUpToOrder(Sealed(e.snapshot.value, e), h.maps[j])
  }

  /** A delivery the network may make: a delta of the history, one of its maps whole, or any heartbeat
      or checkpoint at all. */
  ghost predicate FromHistory(h: History, e: Event) {
    e in h.events || IsBeat(e) || exists j: nat :: FullMapOf(h, e, j)
  }

  /** From the producer's map `k` an event takes the client nowhere, a delta to the next map, and a
      full map to that map. */
  ghost predicate Moves(h: History, e: Event, k: nat, next: nat) {
    next == k || (e in h.events && next == k + 1) || FullMapOf(h, e, next)
  }

  lemma AtRevision(h: History, cache: Snapshot, k: nat)
    requires At(h, cache, k)
    ensures cache.revision == h.maps[k].revision && cache.mapSignature == h.maps[k].mapSignature
    ensures CurrentHash(cache) == CurrentHash(h.maps[k])
  {
    hide TrimSpace, SamePermutation;
  }

  /** Safety of one step: the client is at one of the producer's maps again. */
  lemma StepTracks(env: Env, h: History, trust: SigningTrustBundle, cache: Snapshot, k: nat, d: Delivery) returns (next: nat)
    requires LawfulRelays(env.fields) && Valid(env, h) && At(h, cache, k) && FromHistory(h, d.event)
    ensures At(h, Next(env, cache, d.event, trust, d.now), next) && Moves(h, d.event, k, next)
  {
    hide Next, Valid, SameUpToOrder, EventAccepted, LawfulRelays, Connects;
    var e := d.event;
    if IsBeat(e) {
      BeatsKeepCache(env, cache, e, trust, d.now);
      next := k;
    } else if j: nat :| FullMapOf(h, e, j) {
      FullMapStep(env, cache, e, trust, d.now);
      next := if Next(env, cache, e, trust, d.now) == cache then k else j;
    } else {
      next := DeltaStep(env, h, trust, cache, k, d);
    }
  }

  lemma DeltaStep(env: Env, h: History, trust: SigningTrustBundle, cache: Snapshot, k: nat, d: Delivery) returns (next: nat)
    requires LawfulRelays(env.fields) && Valid(env, h) && At(h, cache, k) && d.event in h.events
    ensures At(h, Next(env, cache, d.event, trust, d.now), next) && (next == k || next == k + 1)
  {
    hide ApplyDelta, Next, Valid, Published, Connects, SamePermutation, EventAccepted, LawfulRelays, TrimSpace, CurrentHash, Sealed;
    var e := d.event;
    var j := HistoryEvent(env, h, e);
    ConnectsIsDelta(e, h.maps[j], h.maps[j + 1]);
    DeltaOutcome(env, cache, e, trust, d.now);
    next := k;
    if Next(env, cache, e, trust, d.now) != cache {
      AtRevision(h, cache, k);
      HistoryMaps(env, h, j, k);
      DeltaReachesNext(env, e, h.maps[k], h.maps[k + 1], cache);
      next := k + 1;
    }
  }

  lemma DeltaOutcome(env: Env, cache: Snapshot, e: Event, trust: SigningTrustBundle, now: Time)
    requires e.delta.Some? && e.kind == "delta"
    ensures Next(env, cache, e, trust, now) == cache ||
            (&& cache.revision == e.from && CurrentHash(cache) == e.baseHash && ApplyDelta(cache, e.delta.value).Ok?
             && Next(env, cache, e, trust, now) == Sealed(ApplyDelta(cache, e.delta.value).value, e))
  {
    hide TrimSpace, ResultVerified, ApplyDelta, CurrentHash;
  }

  lemma FullMapStep(env: Env, cache: Snapshot, e: Event, trust: SigningTrustBundle, now: Time)
    requires EventAccepted(e) && (e.kind == "snapshot" || e.kind == "resync")
    ensures e.snapshot.Some?
    ensures Next(env, cache, e, trust, now) == cache || Next(env, cache, e, trust, now) == Sealed(e.snapshot.value, e)
    ensures !Repeats(cache, e) ==>
              (Apply(env, cache, e, trust, now).Accepted? <==> ResultVerified(env, Sealed(e.snapshot.value, e), trust, now))
    ensures Apply(env, cache, e, trust, now).Accepted? ==> Next(env, cache, e, trust, now) == Sealed(e.snapshot.value, e)
    ensures Repeats(cache, e) ==> Next(env, cache, e, trust, now) == cache
  {
    hide TrimSpace, ResultVerified, ApplyDelta;
  }

  /** Progress: the producer's next delta is accepted exactly while its key is trusted and its windows
      are open, and it yields the producer's next map up to order. */
  lemma NextDeltaIsAccepted(env: Env, h: History, trust: SigningTrustBundle, cache: Snapshot, j: nat, key: SigningTrustKey, now: Time)
    requires Lawful(env) && Valid(env, h) && At(h, cache, j) && j < |h.events|
    requires Vouches(env, trust, h.maps[j + 1], key)
    ensures Apply(env, cache, h.events[j], trust, now).Accepted? <==> Open(h.maps[j + 1], key, now)
    ensures Open(h.maps[j + 1], key, now) ==> At(h, Next(env, cache, h.events[j], trust, now), j + 1)
  {
    hide ApplyDelta, ResultVerified, Vouches, Open, CurrentHash, Repeats, Distinguished, LawfulNet, LawfulSorters, LawfulCrypto, MapAccepted, TrimSpace, SamePermutation;
    var e, to := h.events[j], h.maps[j + 1];
    assert Connects(e, h.maps[j], to);
    AtRevision(h, cache, j);
    ConnectsIsDelta(e, h.maps[j], to);
    DeltaReachesNext(env, e, h.maps[j], to, cache);
    var next := Sealed(ApplyDelta(cache, e.delta.value).value, e);
    SameUpToOrderSymmetric(next, to);
    ResultIgnoresOrderIff(env, to, next, trust, now);
    HistoryMaps(env, h, j, j + 1);
    DistinguishedNotRepeated(cache, h.maps[j], to, e);
    VerifiableIff(env, trust, to, key, now);
  }

  lemma ResultIgnoresOrderIff(env: Env, a: Snapshot, b: Snapshot, trust: SigningTrustBundle, now: Time)
    requires Lawful(env) && SameUpToOrder(a, b)
    ensures ResultVerified(env, a, trust, now) <==> ResultVerified(env, b, trust, now)
  {
    hide Lawful, ResultVerified, SamePermutation;
    SameUpToOrderSymmetric(a, b);
    if ResultVerified(env, a, trust, now) {
      ResultIgnoresOrder(env, a, b, trust, now);
    }
    if ResultVerified(env, b, trust, now) {
      ResultIgnoresOrder(env, b, a, trust, now);
    }
  }

  /** Recovery: a full map takes a client at any other map to it exactly while its key is trusted and
      its windows are open; a client that is there already stays. */
  lemma FullMapIsAccepted(env: Env, h: History, trust: SigningTrustBundle, cache: Snapshot, k: nat, e: Event, n: nat, key: SigningTrustKey, now: Time)
    requires Lawful(env) && Valid(env, h) && At(h, cache, k) && FullMapOf(h, e, n)
    requires Vouches(env, trust, h.maps[n], key)
    ensures k != n ==> (Apply(env, cache, e, trust, now).Accepted? <==> Open(h.maps[n], key, now))
    ensures k == n || Open(h.maps[n], key, now) ==> At(h, Next(env, cache, e, trust, now), n)
  {
    hide ResultVerified, Vouches, Open, CurrentHash, Repeats, Distinguished, TrimSpace, Lawful, LawfulCrypto, LawfulRelays, MapAccepted, SamePermutation, EventAccepted, Apply, Next, Valid;
    AtRevision(h, cache, k);
    FullMapStep(env, cache, e, trust, now);
    LawfulParts(env);
    HistoryMaps(env, h, k, n);
    if k != n {
      DistinguishedNotRepeated(cache, h.maps[k], h.maps[n], e);
    }
    ResultIgnoresOrderIff(env, Sealed(e.snapshot.value, e), h.maps[n], trust, now);
    VerifiableIff(env, trust, h.maps[n], key, now);
  }

  /** An event that leads to another map of the history is not taken for a repetition. */
  lemma DistinguishedNotRepeated(cache: Snapshot, from: Snapshot, to: Snapshot, e: Event)
    requires Distinguished(from, to)
    requires cache.revision == from.revision && cache.mapSignature == from.mapSignature
    requires e.to == to.revision && e.resultSignature == to.mapSignature
    ensures !Repeats(cache, e)
  {
    hide TrimSpace;
  }

  lemma HistoryEvent(env: Env, h: History, e: Event) returns (j: nat)
    requires Valid(env, h) && e in h.events
    ensures j < |h.events| && |h.maps| == |h.events| + 1 && e == h.events[j]
    ensures Published(env, h.maps[j]) && Connects(e, h.maps[j], h.maps[j + 1])
  {
    hide Published, Connects;
    j :| 0 <= j < |h.events| && h.events[j] == e;
  }

  lemma HistoryMaps(env: Env, h: History, k: nat, n: nat)
    requires Valid(env, h) && k < |h.maps| && n < |h.maps|
    ensures MapAccepted(env, h.maps[n]) && h.maps[n].mapSignature.Some?
    ensures k != n ==> Distinguished(h.maps[k], h.maps[n])
  {
    hide Published, MapAccepted, Connects, Distinguished;
    PublishedMap(env, h.maps[n]);
    if k < n {
      assert Distinguished(h.maps[k], h.maps[n]);
    } else if n < k {
      DistinguishedSymmetric(h.maps[n], h.maps[k]);
    }
  }

  lemma PublishedMap(env: Env, m: Snapshot)
    requires Published(env, m)
    ensures MapAccepted(env, m) && m.mapSignature.Some?
  {
    hide MapAccepted, Canonical;
  }

  lemma DistinguishedSymmetric(a: Snapshot, b: Snapshot)
    requires Distinguished(a, b)
    ensures Distinguished(b, a)
  {
    hide CurrentHash;
  }

  lemma LawfulParts(env: Env)
    requires Lawful(env)
    ensures LawfulCrypto(env.crypto) && LawfulRelays(env.fields)
  {
    hide LawfulNet, LawfulSorters, LawfulCrypto, LawfulRelays;
  }

  // ----- what the client answers -----

  /** A heartbeat or checkpoint that announces the producer's map `n`, with its hash or without one, and
      with its signature or without one. */
  ghost predicate Announces(h: History, e: Event, n: nat) {
    && n < |h.maps|
    && EventAccepted(e) && IsBeat(e)
    && e.to == h.maps[n].revision && (e.baseHash == "" || e.baseHash == CurrentHash(h.maps[n]))
    && (e.resultSignature.None? || e.resultSignature == h.maps[n].mapSignature)
  }

  /** A beat is taken by the clients at the map it announces; every other client is told to resync.
      Without a hash a beat announces a revision only. */
  lemma BeatOutcome(env: Env, h: History, trust: SigningTrustBundle, cache: Snapshot, k: nat, e: Event, n: nat, now: Time)
    requires LawfulCrypto(env.crypto) && Valid(env, h) && At(h, cache, k) && Announces(h, e, n)
    ensures k == n ==> Apply(env, cache, e, trust, now) == if e.resultSignature.None? then Accepted(cache) else AlreadyApplied(cache)
    ensures k != n ==>
              Apply(env, cache, e, trust, now) ==
              if e.baseHash == "" && h.maps[k].revision == h.maps[n].revision then Accepted(cache) else ResyncRequired
  {
    hide Valid, TrimSpace, CurrentHash, ResultVerified, ApplyDelta, EventAccepted, SamePermutation, MapAccepted, LawfulCrypto, Canonical;
    AtRevision(h, cache, k);
    HistoryMaps(env, h, k, n);
    PublishedHash(env, h, n);
    if k != n {
      DistinguishedNotRepeated(cache, h.maps[k], h.maps[n], e.(resultSignature := h.maps[n].mapSignature));
    }
  }

  lemma PublishedHash(env: Env, h: History, n: nat)
    requires LawfulCrypto(env.crypto) && Valid(env, h) && n < |h.maps|
    ensures CurrentHash(h.maps[n]) != ""
  {
    hide MapAccepted, Canonical, TrimSpace, Connects, Distinguished, Trimmed;
    assert Published(env, h.maps[n]);
    var sig := h.maps[n].mapSignature.value;
    TrimSpaceIdempotent(sig.payloadHash);
  }

  /** The delta from map `j` is applied by the clients at map `j` while it can be verified and rejected
      otherwise, is a repetition at map `j + 1`, and tells every other client to resync. */
  lemma DeltaOutcomeAt(env: Env, h: History, trust: SigningTrustBundle, cache: Snapshot, k: nat, j: nat, key: SigningTrustKey, now: Time)
    requires Lawful(env) && Valid(env, h) && At(h, cache, k) && j < |h.events|
    requires Vouches(env, trust, h.maps[j + 1], key)
    ensures var o := Apply(env, cache, h.events[j], trust, now);
            && (k == j ==> if Open(h.maps[j + 1], key, now) then o.Accepted? else o == Rejected)
            && (k == j + 1 ==> o == AlreadyApplied(cache))
            && (k != j && k != j + 1 ==> o == ResyncRequired)
  {
    hide Valid, Vouches, Open, Lawful, SamePermutation, CurrentHash, TrimSpace, ApplyDelta, ResultVerified, EventAccepted, Published, Connects;
    var e := h.events[j];
    HistoryStep(env, h, j);
    ConnectsIsDelta(e, h.maps[j], h.maps[j + 1]);
    AtRevision(h, cache, k);
    HistoryMaps(env, h, k, j);
    HistoryMaps(env, h, k, j + 1);
    if k == j {
      NextDeltaIsAccepted(env, h, trust, cache, j, key, now);
      HistoryMaps(env, h, j, j + 1);
      DistinguishedNotRepeated(cache, h.maps[j], h.maps[j + 1], e);
    } else if k != j + 1 {
      DistinguishedNotRepeated(cache, h.maps[k], h.maps[j + 1], e);
    }
  }

  lemma HistoryStep(env: Env, h: History, j: nat)
    requires Valid(env, h) && j < |h.events|
    ensures |h.maps| == |h.events| + 1 && Connects(h.events[j], h.maps[j], h.maps[j + 1])
  {
    hide Published, Connects, Distinguished;
  }

  /** A full map is a repetition for the clients that have it; the others apply it while it can be
      verified and reject it otherwise. */
  lemma FullMapOutcome(env: Env, h: History, trust: SigningTrustBundle, cache: Snapshot, k: nat, e: Event, n: nat, key: SigningTrustKey, now: Time)
    requires Lawful(env) && Valid(env, h) && At(h, cache, k) && FullMapOf(h, e, n)
    requires Vouches(env, trust, h.maps[n], key)
    ensures var o := Apply(env, cache, e, trust, now);
            && (k == n ==> o == AlreadyApplied(cache))
            && (k != n ==> if Open(h.maps[n], key, now) then o.Accepted? else o == Rejected)
  {
    hide Valid, Vouches, Open, Lawful, SamePermutation, CurrentHash, TrimSpace, ApplyDelta, ResultVerified;
    AtRevision(h, cache, k);
    HistoryMaps(env, h, k, n);
    FullMapIsAccepted(env, h, trust, cache, k, e, n, key, now);
    if k != n {
      DistinguishedNotRepeated(cache, h.maps[k], h.maps[n], e);
    }
  }

  // ----- whole runs -----

  ghost predicate AllFromHistory(h: History, ds: seq<Delivery>) {
    forall i | 0 <= i < |ds| :: FromHistory(h, ds[i].event)
  }

  /** The indices of the producer's maps a client is at: one per moment of the run. */
  ghost predicate Tracks(env: Env, h: History, trust: SigningTrustBundle, initial: Snapshot, ds: seq<Delivery>, ks: seq<nat>) {
    && |ks| == |ds| + 1
    && (forall i | 0 <= i <= |ds| :: At(h, Run(env, trust, initial, ds[..i]), ks[i]))
    && (forall i | 0 <= i < |ds| :: Moves(h, ds[i].event, ks[i], ks[i + 1]))
  }

  /** Convergence safety: whatever is lost, repeated, reordered or late, at every moment the cache is
      one of the producer's maps up to order, a delta keeps it or advances it by one, and a full map
      keeps it or takes it to that map. */
  lemma {:induction false} RunTracksHistory(env: Env, h: History, trust: SigningTrustBundle, initial: Snapshot, k: nat, ds: seq<Delivery>)
    returns (ks: seq<nat>)
    requires LawfulRelays(env.fields) && Valid(env, h) && At(h, initial, k) && AllFromHistory(h, ds)
    ensures Tracks(env, h, trust, initial, ds, ks) && ks[0] == k
  {
    hide Valid, At, Next, FromHistory, LawfulRelays, Moves;
    if ds == [] {
      ks := [k];
    } else {
      var n := |ds| - 1;
      var before := RunTracksHistory(env, h, trust, initial, k, ds[..n]);
      assert ds[..n][..n] == ds[..n] && ds[..n + 1] == ds;
      var next := StepTracks(env, h, trust, Run(env, trust, initial, ds[..n]), before[n], ds[n]);
      ks := before + [next];
      forall i | 0 <= i <= |ds|
        ensures At(h, Run(env, trust, initial, ds[..i]), ks[i])
      {
        if i <= n {
          assert ds[..n][..i] == ds[..i];
        }
      }
    }
  }

  lemma {:induction false} RunAppend(env: Env, trust: SigningTrustBundle, initial: Snapshot, a: seq<Delivery>, b: seq<Delivery>)
    ensures Run(env, trust, initial, a + b) == Run(env, trust, Run(env, trust, initial, a), b)
  {
    hide Next;
    if b == [] {
      assert a + b == a;
    } else {
      var n := |b| - 1;
      RunAppend(env, trust, initial, a, b[..n]);
      assert (a + b)[..|a + b| - 1] == a + b[..n];
    }
  }

  /** No full map older than `n` is delivered. */
  ghost predicate NoOlder(h: History, ds: seq<Delivery>, n: nat) {
    forall i, j: nat | 0 <= i < |ds| && FullMapOf(h, ds[i].event, j) :: n <= j
  }

  /** While no older full map arrives, a client never falls back below map `n`. */
  lemma {:induction false} RunNeverFallsBack(env: Env, h: History, trust: SigningTrustBundle, initial: Snapshot, k: nat, ds: seq<Delivery>, n: nat)
    returns (end: nat)
    requires LawfulRelays(env.fields) && Valid(env, h) && At(h, initial, k) && AllFromHistory(h, ds)
    requires n <= k && NoOlder(h, ds, n)
    ensures n <= end && At(h, Run(env, trust, initial, ds), end)
  {
    hide Valid, At, LawfulRelays, FromHistory, FullMapOf, Next;
    if ds == [] {
      end := k;
    } else {
      var m := |ds| - 1;
      var before := RunNeverFallsBack(env, h, trust, initial, k, ds[..m], n);
      end := StepTracks(env, h, trust, Run(env, trust, initial, ds[..m]), before, ds[m]);
    }
  }

  /** The delta to map `n`, delivered while that map can be verified. */
  ghost predicate DeltaInTime(env: Env, h: History, trust: SigningTrustBundle, d: Delivery, n: nat)
    requires |h.maps| == |h.events| + 1
  {
    && 0 < n < |h.maps| && d.event == h.events[n - 1]
    && exists key :: Vouches(env, trust, h.maps[n], key) && Open(h.maps[n], key, d.now)
  }

  /** Map `n` whole, delivered while it can be verified. */
  ghost predicate FullMapInTime(env: Env, h: History, trust: SigningTrustBundle, d: Delivery, n: nat) {
    && FullMapOf(h, d.event, n)
    && exists key :: Vouches(env, trust, h.maps[n], key) && Open(h.maps[n], key, d.now)
  }

  /** `ds` brings a client from map `k` to map `n`: it is there, or map `n` is delivered whole and in
      time, or its delta is, after what brings the client to the map before. Anything may come between,
      before and after, except that no older full map comes after. */
  ghost predicate Delivers(env: Env, h: History, trust: SigningTrustBundle, ds: seq<Delivery>, k: nat, n: nat)
    requires |h.maps| == |h.events| + 1
    decreases n
  {
    || (n <= k && NoOlder(h, ds, n))
    || (exists p | 0 <= p < |ds| :: FullMapInTime(env, h, trust, ds[p], n) && NoOlder(h, ds[p + 1..], n))
    || (n > 0 && exists p | 0 <= p < |ds| ::
          DeltaInTime(env, h, trust, ds[p], n) && NoOlder(h, ds[p + 1..], n) && Delivers(env, h, trust, ds[..p], k, n - 1))
  }

  /** Convergence: a client that is handed every missing delta once in order and in time, or one full map
      in time and the deltas after it, is at the producer's map `n` or later, amid any amount of loss,
      repetition and reordering of the rest. */
  lemma {:induction false} ClientCatchesUp(env: Env, h: History, trust: SigningTrustBundle, initial: Snapshot, k: nat, ds: seq<Delivery>, n: nat)
    returns (end: nat)
    requires Lawful(env) && Valid(env, h) && At(h, initial, k) && AllFromHistory(h, ds)
    requires Delivers(env, h, trust, ds, k, n)
    ensures n <= end && At(h, Run(env, trust, initial, ds), end)
    decreases n
  {
    hide At, Run, FromHistory, Valid, Lawful, LawfulCrypto, LawfulRelays, NoOlder, DeltaInTime, FullMapInTime, Distinguished, Next;
    LawfulParts(env);
    HistoryLengths(env, h);
    if n <= k && NoOlder(h, ds, n) {
      end := RunNeverFallsBack(env, h, trust, initial, k, ds, n);
    } else if p :| 0 <= p < |ds| && FullMapInTime(env, h, trust, ds[p], n) && NoOlder(h, ds[p + 1..], n) {
      var ks := RunTracksHistory(env, h, trust, initial, k, ds[..p]);
      assert ds[..p][..p] == ds[..p];
      var next := AfterFullMap(env, h, trust, Run(env, trust, initial, ds[..p]), ks[p], ds[p], n);
      end := FromMoment(env, h, trust, initial, ds, p, next, n);
    } else {
      var p :| 0 <= p < |ds| && DeltaInTime(env, h, trust, ds[p], n) && NoOlder(h, ds[p + 1..], n) && Delivers(env, h, trust, ds[..p], k, n - 1);
      var at := ClientCatchesUp(env, h, trust, initial, k, ds[..p], n - 1);
      var next := AfterDelta(env, h, trust, Run(env, trust, initial, ds[..p]), at, ds[p], n);
      end := FromMoment(env, h, trust, initial, ds, p, next, n);
    }
  }

  lemma HistoryLengths(env: Env, h: History)
    requires Valid(env, h)
    ensures |h.maps| == |h.events| + 1
  {
  }

  lemma AfterFullMap(env: Env, h: History, trust: SigningTrustBundle, cache: Snapshot, k: nat, d: Delivery, n: nat) returns (next: nat)
    requires Lawful(env) && Valid(env, h) && At(h, cache, k) && FullMapInTime(env, h, trust, d, n)
    ensures n <= next && At(h, Next(env, cache, d.event, trust, d.now), next)
  {
    hide At, Valid, Lawful, Vouches, Next;
    var key :| Vouches(env, trust, h.maps[n], key) && Open(h.maps[n], key, d.now);
    FullMapIsAccepted(env, h, trust, cache, k, d.event, n, key, d.now);
    next := n;
  }

  lemma AfterDelta(env: Env, h: History, trust: SigningTrustBundle, cache: Snapshot, at: nat, d: Delivery, n: nat) returns (next: nat)
    requires Lawful(env) && Valid(env, h) && At(h, cache, at) && n <= at + 1 && DeltaInTime(env, h, trust, d, n)
    ensures n <= next && At(h, Next(env, cache, d.event, trust, d.now), next)
  {
    hide At, Lawful, Vouches, Next, Published, Connects, CurrentHash, TrimSpace, Open, EventAccepted;
    LawfulParts(env);
    if at + 1 == n {
      var key :| Vouches(env, trust, h.maps[n], key) && Open(h.maps[n], key, d.now);
      NextDeltaIsAccepted(env, h, trust, cache, at, key, d.now);
      next := n;
    } else {
      next := DeltaStep(env, h, trust, cache, at, d);
    }
  }

  /** From the moment after delivery `p`, which left the client at map `next`. */
  lemma FromMoment(env: Env, h: History, trust: SigningTrustBundle, initial: Snapshot, ds: seq<Delivery>, p: nat, next: nat, n: nat)
    returns (end: nat)
    requires LawfulRelays(env.fields) && Valid(env, h) && AllFromHistory(h, ds)
    requires p < |ds| && NoOlder(h, ds[p + 1..], n)
    requires n <= next && At(h, Next(env, Run(env, trust, initial, ds[..p]), ds[p].event, trust, ds[p].now), next)
    ensures n <= end && At(h, Run(env, trust, initial, ds), end)
  {
    hide At, Next, LawfulRelays, Valid, FromHistory, NoOlder;
    var before, rest := ds[..p + 1], ds[p + 1..];
    assert before[..p] == ds[..p];
    end := RunNeverFallsBack(env, h, trust, Run(env, trust, initial, before), next, rest, n);
    RunAppend(env, trust, initial, before, rest);
    assert ds == before + rest;
  }
}
