/** Applying one event of the map stream: clientapi/v1/mapstream.go, with the shape checks of
    `validateMapStreamEvent` in clientapi/v1/api.go. */
module MapStream {
  import opened Outcomes
  import opened Text
  import opened NetworkMap
  import opened Environment
  import opened Merge
  import opened MapValidation
  import opened MapSign
  import SigningTrust
  import Sharing

  // ----- events -----

  predicate HasFullMap(e: Event) {
    && e.snapshot.Some?
    && TrimSpace(e.snapshot.value.network.id) != "" && TrimSpace(e.snapshot.value.node.id) != ""
  }

  predicate EventAccepted(e: Event) {
    && TrimSpace(e.eventId) != ""
    && (if e.kind == "heartbeat" || e.kind == "checkpoint" then e.snapshot.None? && e.delta.None?
        else if e.kind == "snapshot" || e.kind == "resync" then HasFullMap(e) && e.delta.None? && e.resultSignature.Some?
        else if e.kind == "delta" then
          e.delta.Some? && e.snapshot.None? && TrimSpace(e.baseHash) != "" && e.resultSignature.Some?
        else false)
  }

  /** An event carries what its kind needs and nothing else. */
  lemma EventAcceptedIff(e: Event)
    ensures EventAccepted(e) <==>
              && TrimSpace(e.eventId) != ""
              && e.kind in {"heartbeat", "checkpoint", "snapshot", "resync", "delta"}
              && (e.snapshot.Some? <==> e.kind in {"snapshot", "resync"})
              && (e.delta.Some? <==> e.kind == "delta")
              && (e.kind in {"snapshot", "resync", "delta"} ==> e.resultSignature.Some?)
              && (e.kind == "delta" ==> TrimSpace(e.baseHash) != "")
              && (e.snapshot.Some? ==>
                    TrimSpace(e.snapshot.value.network.id) != "" && TrimSpace(e.snapshot.value.node.id) != "")
  {
    hide TrimSpace;
  }

  /** Events that carry no map. */
  predicate IsBeat(e: Event) {
    e.kind == "heartbeat" || e.kind == "checkpoint"
  }

  function CurrentHash(s: Snapshot): string {
    if s.mapSignature.None? then "" else TrimSpace(s.mapSignature.value.payloadHash)
  }

  // ----- one delta -----

  function TrimmedPeerId(p: Peer): string { TrimSpace(p.id) }
  function TrimmedRelayId(r: Relay): string { TrimSpace(r.id) }

  /** The map without its lists of peers and relays, after the plain fields of a delta. */
  function Replaced(current: Snapshot, delta: Delta): Snapshot {
    current.(
      network := if delta.network.Some? then delta.network.value else current.network,
      node := if delta.node.Some? then delta.node.value else current.node,
      stunEndpoints := if delta.stunEndpoints.Some? then delta.stunEndpoints.value else current.stunEndpoints,
      relayCredential := if delta.relayCredential.Some? then delta.relayCredential else current.relayCredential)
  }

  function ApplyDelta(current: Snapshot, delta: Delta): Result<Snapshot, IdError> {
    match Merged(current.peers, delta.peerUpserts, delta.peerRemoveIds, PeerId, TrimmedPeerId)
    case Err(e) => Err(e)
    case Ok(peers) =>
      match Merged(current.relays, delta.relayUpserts, delta.relayRemoveIds, RelayId, TrimmedRelayId)
      case Err(e) => Err(e)
      case Ok(relays) => Ok(Replaced(current, delta).(peers := peers, relays := relays))
  }

  /** The delta of the difference between two maps: every field that differs, the records that are new
      or different, and the IDs that are gone. */
  function Difference(a: Snapshot, b: Snapshot): Delta {
    Delta(
      if a.network == b.network then None else Some(b.network),
      if a.node == b.node then None else Some(b.node),
      Changed(a.peers, b.peers), Gone(a.peers, b.peers, PeerId),
      if a.stunEndpoints == b.stunEndpoints then None else Some(b.stunEndpoints),
      Changed(a.relays, b.relays), Gone(a.relays, b.relays, RelayId),
      if a.relayCredential == b.relayCredential then None else b.relayCredential)
  }

  ghost predicate CleanLists(s: Snapshot) {
    CleanRecords(s.peers, PeerId) && CleanRecords(s.relays, RelayId)
  }

  /** A delta can express every change but the loss of the relay credential and another registration
      binding: applied to `a`, the difference to `b` gives `b`, up to the order of peers and relays,
      under the revision and signature of `a`. */
  lemma DifferenceReaches(a: Snapshot, b: Snapshot)
    requires CleanLists(a) && CleanLists(b)
    requires a.registrationBinding == b.registrationBinding
    requires b.relayCredential.None? ==> a.relayCredential.None?
    ensures ApplyDelta(a, Difference(a, b)).Ok?
    ensures SameUpToOrder(
              ApplyDelta(a, Difference(a, b)).value.(revision := b.revision, mapSignature := b.mapSignature), b)
    ensures ApplyDelta(a, Difference(a, b)).value.revision == a.revision
    ensures ApplyDelta(a, Difference(a, b)).value.mapSignature == a.mapSignature
  {
    hide Merged, Changed, Gone, CleanRecords, TrimSpace;
    ChangeIsMerge(a.peers, b.peers, PeerId, TrimmedPeerId);
    ChangeIsMerge(a.relays, b.relays, RelayId, TrimmedRelayId);
  }

  /** What a delta leaves out stays as it is. */
  lemma AbsentFieldsStay(a: Snapshot, d: Delta)
    requires ApplyDelta(a, d).Ok?
    ensures var r := ApplyDelta(a, d).value;
            && (d.network.None? ==> r.network == a.network) && (d.node.None? ==> r.node == a.node)
            && (d.stunEndpoints.None? ==> r.stunEndpoints == a.stunEndpoints)
            && (d.relayCredential.None? ==> r.relayCredential == a.relayCredential)
            && (d.peerUpserts == [] && d.peerRemoveIds == [] ==> r.peers == a.peers)
            && (d.relayUpserts == [] && d.relayRemoveIds == [] ==> r.relays == a.relays)
            && r.registrationBinding == a.registrationBinding
  {
    hide TrimSpace, Merged;
    if d.peerUpserts == [] && d.peerRemoveIds == [] {
      MergeNothing(a.peers, PeerId, TrimmedPeerId);
    }
    if d.relayUpserts == [] && d.relayRemoveIds == [] {
      MergeNothing(a.relays, RelayId, TrimmedRelayId);
    }
  }

  // ----- one event -----

  datatype Outcome<+Map> =
    | Accepted(result: Map)       // no error
    | AlreadyApplied(cached: Map) // ErrMapStreamEventAlreadyApplied
    | ResyncRequired              // ErrMapStreamResyncRequired
    | Rejected                    // any other error

  /** The map the event claims to result in, before it is checked. */
  function Sealed(s: Snapshot, e: Event): Snapshot {
    s.(revision := e.to, mapSignature := e.resultSignature)
  }

  /** `verifyMapStreamResult` succeeds: full validation, a trusted key, a verified signature. */
  ghost predicate ResultVerified(env: Env, s: Snapshot, trust: SigningTrustBundle, now: Time) {
    && MapAccepted(env, s)
    && s.mapSignature.Some?
    && var key := SigningTrust.Resolve(env.crypto, trust, s.mapSignature.value.keyId, now);
       key.Some? && VerifiedAt(env, s, key.value.publicKey, now)
  }

  predicate Repeats(current: Snapshot, e: Event) {
    && current.revision == e.to && current.mapSignature.Some? && e.resultSignature.Some?
    && current.mapSignature.value.payloadHash == e.resultSignature.value.payloadHash
  }

  ghost function Apply(env: Env, current: Snapshot, e: Event, trust: SigningTrustBundle, now: Time): Outcome<Snapshot> {
    if !EventAccepted(e) then Rejected
    else if Repeats(current, e) then AlreadyApplied(current)
    else if IsBeat(e) then
      if current.revision != e.to then ResyncRequired
      else if e.baseHash != "" && e.baseHash != CurrentHash(current) then ResyncRequired
      else Accepted(current)
    else if e.kind == "delta" then
      if current.revision != e.from then ResyncRequired
      else if e.baseHash != CurrentHash(current) then ResyncRequired
      else match ApplyDelta(current, e.delta.value)
           case Err(_) => Rejected
           case Ok(next) => if ResultVerified(env, Sealed(next, e), trust, now) then Accepted(Sealed(next, e)) else Rejected
    else
      var next := Sealed(e.snapshot.value, e);
      if ResultVerified(env, next, trust, now) then Accepted(next) else Rejected
  }

  method VerifyResult(env: Env, s: Snapshot, trust: SigningTrustBundle, now: Time) returns (ok: bool)
    requires LawfulNet(env.net)
    ensures ok <==> ResultVerified(env, s, trust, now)
  {
    hide MapAccepted, VerifiedAt, LawfulNet;
    hide SigningTrust.Resolve;
    ok := ValidateSnapshot(env, s);
    if !ok || s.mapSignature.None? {
      return false;
    }
    var key := SigningTrust.ResolveKey(env.crypto, trust, s.mapSignature.value.keyId, now);
    if key.None? {
      return false;
    }
    ok := VerifySignatureAt(env, s, key.value.publicKey, now);
  }

  /** The cache after an event: replaced only when the event was accepted. */
  ghost function Next(env: Env, cache: Snapshot, e: Event, trust: SigningTrustBundle, now: Time): Snapshot {
    match Apply(env, cache, e, trust, now)
    case Accepted(m) => m
    case AlreadyApplied(_) => cache
    case ResyncRequired => cache
    case Rejected => cache
  }

  // ----- runs -----

  datatype Delivery = Delivery(event: Event, now: Time)

  ghost function Run(env: Env, trust: SigningTrustBundle, initial: Snapshot, ds: seq<Delivery>): Snapshot {
    if ds == [] then initial
    else
      var last := ds[|ds| - 1];
      Next(env, Run(env, trust, initial, ds[..|ds| - 1]), last.event, trust, last.now)
  }

  /** Heartbeats and checkpoints never change the cache, so they never move its verification window. */
  lemma BeatsKeepCache(env: Env, cache: Snapshot, e: Event, trust: SigningTrustBundle, now: Time)
    requires IsBeat(e)
    ensures Next(env, cache, e, trust, now) == cache
  {
    hide TrimSpace, ResultVerified, ApplyDelta;
  }

  /** What a changed cache is: the verified result of the event, under the event's revision and signature. */
  lemma ChangedCacheIsVerified(env: Env, cache: Snapshot, e: Event, trust: SigningTrustBundle, now: Time)
    ensures Next(env, cache, e, trust, now) == cache ||
            (&& ResultVerified(env, Next(env, cache, e, trust, now), trust, now)
             && Next(env, cache, e, trust, now).revision == e.to
             && Next(env, cache, e, trust, now).mapSignature == e.resultSignature && e.resultSignature.Some?)
  {
    hide TrimSpace, ResultVerified, ApplyDelta;
  }

  // ----- authenticity -----

  /** `signed(key, payload)` says the holder of `key` signed `payload`; signatures cannot be forged. */
  ghost predicate Unforgeable(c: Crypto, signed: (Bytes, Payload) -> bool) {
    forall key, payload, raw | c.verify(key, payload, raw) :: signed(key, payload)
  }

  /** The trust key fingerprints to `keyId`, and its holder signed `payload`. */
  predicate SignedWith(c: Crypto, key: SigningTrustKey, keyId: string, signed: (Bytes, Payload) -> bool, payload: Payload) {
    match c.decodeKey(TrimSpace(key.publicKey))
    case None => false
    case Some(raw) => c.keyId(raw) == keyId && signed(raw, payload)
  }

  ghost predicate OnlyKeyWithId(trust: SigningTrustBundle, key: SigningTrustKey, keyId: string) {
    key in trust.keys && forall other | other in trust.keys && SigningTrust.TrimmedKeyId(other) == keyId :: other == key
  }

  /** A validated map whose revision and contents are what the one bundle key with its key ID signed,
      stored with the hash of its own canonical payload. */
  ghost predicate Authentic(env: Env, trust: SigningTrustBundle, signed: (Bytes, Payload) -> bool, s: Snapshot) {
    && MapAccepted(env, s)
    && s.mapSignature.Some?
    && var sig := s.mapSignature.value;
       var payload := Canonical(env, s, sig.keyId, sig.issuedAt, sig.expiresAt);
       && sig.version == 5 && sig.algorithm == "ed25519-network-map-v5" && sig.issuedAt < sig.expiresAt
       && sig.payloadHash == env.crypto.hash(payload)
       && exists key :: OnlyKeyWithId(trust, key, sig.keyId) && SignedWith(env.crypto, key, sig.keyId, signed, payload)
  }

  lemma VerifiedIsAuthentic(env: Env, trust: SigningTrustBundle, signed: (Bytes, Payload) -> bool, s: Snapshot, now: Time)
    requires LawfulCrypto(env.crypto) && Unforgeable(env.crypto, signed)
    requires ResultVerified(env, s, trust, now)
    ensures Authentic(env, trust, signed, s)
  {
    hide MapAccepted, Canonical, TrimSpace, Trimmed;
    hide Sharing.SharesAcceptedAt;
    hide SigningTrust.Resolve;
    var sig := s.mapSignature.value;
    var key := SigningTrust.Resolve(env.crypto, trust, sig.keyId, now).value;
    SigningTrust.ResolveIsUnique(env.crypto, trust, sig.keyId, now, key);
    TrimSpaceIdempotent(sig.keyId);
    TrimSpaceIdempotent(env.crypto.keyId(env.crypto.decodeKey(TrimSpace(key.publicKey)).value));
    assert OnlyKeyWithId(trust, key, sig.keyId);
    assert SignedWith(env.crypto, key, sig.keyId, signed, Canonical(env, s, sig.keyId, sig.issuedAt, sig.expiresAt));
  }

  /** Safety of every run, whatever the events, their order and the clock readings: the cache is the
      initial one or authentic. */
  lemma {:induction false} EveryRunIsAuthentic(env: Env, trust: SigningTrustBundle, signed: (Bytes, Payload) -> bool,
                                               initial: Snapshot, ds: seq<Delivery>)
    requires LawfulCrypto(env.crypto) && Unforgeable(env.crypto, signed)
    ensures Run(env, trust, initial, ds) == initial || Authentic(env, trust, signed, Run(env, trust, initial, ds))
  {
    hide Next, Authentic, ResultVerified, LawfulCrypto, Unforgeable;
    if ds != [] {
      var n := |ds| - 1;
      EveryRunIsAuthentic(env, trust, signed, initial, ds[..n]);
      var before := Run(env, trust, initial, ds[..n]);
      ChangedCacheIsVerified(env, before, ds[n].event, trust, ds[n].now);
      var after := Next(env, before, ds[n].event, trust, ds[n].now);
      if after != before {
        VerifiedIsAuthentic(env, trust, signed, after, ds[n].now);
      }
    }
  }

  /** Some key of the bundle is the raw key `raw`. */
  ghost predicate Trusts(c: Crypto, trust: SigningTrustBundle, raw: Bytes) {
    exists key | key in trust.keys :: c.decodeKey(TrimSpace(key.publicKey)) == Some(raw)
  }

  /** If the trusted keys only ever signed the producer's maps, then under any events at all, forged,
      replayed or reordered, the cache agrees with one of those maps on everything that is signed.
      Nothing is assumed of what other keys signed. */
  lemma CacheIsAProducerMap(env: Env, trust: SigningTrustBundle, signed: (Bytes, Payload) -> bool,
                            initial: Snapshot, ds: seq<Delivery>, produced: seq<Snapshot>)
    requires LawfulCrypto(env.crypto) && LawfulSorters(env.sorters) && Unforgeable(env.crypto, signed)
    requires forall key, payload | signed(key, payload) && Trusts(env.crypto, trust, key) ::
               exists m, keyId, from, to | m in produced :: payload == Canonical(env, m, keyId, from, to)
    ensures var cache := Run(env, trust, initial, ds);
            cache == initial || exists m | m in produced :: SameSigned(cache, m)
  {
    hide Run, Canonical, LawfulCrypto, LawfulSorters, Unforgeable, MapAccepted, SameSigned, TrimSpace;
    var cache := Run(env, trust, initial, ds);
    EveryRunIsAuthentic(env, trust, signed, initial, ds);
    if cache != initial {
      var sig := cache.mapSignature.value;
      var payload := Canonical(env, cache, sig.keyId, sig.issuedAt, sig.expiresAt);
      var key :| OnlyKeyWithId(trust, key, sig.keyId) && SignedWith(env.crypto, key, sig.keyId, signed, payload);
      assert Trusts(env.crypto, trust, env.crypto.decodeKey(TrimSpace(key.publicKey)).value);
      var m, keyId, from, to :| m in produced && payload == Canonical(env, m, keyId, from, to);
      PayloadDeterminesContents(env, cache, m, sig.keyId, keyId, sig.issuedAt, from, sig.expiresAt, to);
    }
  }

  // ----- peers that no delta reaches -----

  /** A cached peer whose ID has space around it outlives every event but a full map: no delta removes
      or replaces it. */
  lemma UntrimmedPeerStays(env: Env, cache: Snapshot, e: Event, trust: SigningTrustBundle, now: Time, p: Peer)
    requires p in cache.peers && !Trimmed(p.id)
    requires e.kind != "snapshot" && e.kind != "resync"
    ensures p in Next(env, cache, e, trust, now).peers
  {
    hide TrimSpace, Trimmed, ResultVerified, Merged;
    if EventAccepted(e) && e.kind == "delta" && ApplyDelta(cache, e.delta.value).Ok? {
      var d := e.delta.value;
      UntrimmedStays(cache.peers, d.peerUpserts, d.peerRemoveIds, PeerId, TrimmedPeerId, p);
    }
  }

  lemma {:induction false} UntrimmedPeerOutlivesRuns(env: Env, trust: SigningTrustBundle, initial: Snapshot, ds: seq<Delivery>, p: Peer)
    requires p in initial.peers && !Trimmed(p.id)
    requires forall d | d in ds :: d.event.kind != "snapshot" && d.event.kind != "resync"
    ensures p in Run(env, trust, initial, ds).peers
  {
    hide Trimmed, Next;
    if ds != [] {
      var n := |ds| - 1;
      assert ds[n] in ds && forall d | d in ds[..n] :: d in ds;
      UntrimmedPeerOutlivesRuns(env, trust, initial, ds[..n], p);
      UntrimmedPeerStays(env, Run(env, trust, initial, ds[..n]), ds[n].event, trust, ds[n].now, p);
    }
  }

  // ----- replay -----

  /** Once an event has been accepted, receiving it again, at any time, is idle. */
  lemma ReplayIsIdle(env: Env, cache: Snapshot, e: Event, trust: SigningTrustBundle, first: Time, now: Time)
    requires Apply(env, cache, e, trust, first).Accepted?
    ensures var after := Next(env, cache, e, trust, first);
            && Next(env, after, e, trust, now) == after
            && (Apply(env, after, e, trust, now) == AlreadyApplied(after) || (IsBeat(e) && Apply(env, after, e, trust, now) == Accepted(after)))
  {
    hide TrimSpace, ResultVerified, ApplyDelta;
  }

  function Replays(e: Event, times: seq<Time>): (r: seq<Delivery>)
    ensures |r| == |times| && forall i | 0 <= i < |r| :: r[i] == Delivery(e, times[i])
  {
    seq(|times|, i requires 0 <= i < |times| => Delivery(e, times[i]))
  }

  lemma {:induction false} ReplaysAreIdle(env: Env, cache: Snapshot, e: Event, trust: SigningTrustBundle, first: Time, times: seq<Time>)
    requires Apply(env, cache, e, trust, first).Accepted?
    ensures var after := Next(env, cache, e, trust, first);
            Run(env, trust, after, Replays(e, times)) == after
  {
    hide Apply;
    var after := Next(env, cache, e, trust, first);
    var ds := Replays(e, times);
    if times != [] {
      var n := |times| - 1;
      ReplaysAreIdle(env, cache, e, trust, first, times[..n]);
      assert ds[..n] == Replays(e, times[..n]);
      ReplayIsIdle(env, cache, e, trust, first, times[n]);
    }
  }
}
