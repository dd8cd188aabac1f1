/** The client of the stream with its maps in memory: `ApplyMapStreamEvent`, `applyMapDelta` and
    `mergePeers` of clientapi/v1/mapstream.go on slices and pointers. Between its two copies a delta's
    result shares memory with the event; what the client ends up with shares none. */
module MapMemory {
  import opened Outcomes
  import opened Text
  import opened Ordering
  import opened NetworkMap
  import opened Environment
  import opened Merge
  import opened MapStream
  import opened SnapshotClone

  // ----- events in memory -----

  ghost function NetworkCellMemory(c: Cell?<NetworkRef>): set<object>
    reads c, if c == null then {} else NetworkMemory(c.value)
  {
    if c == null then {} else {c} + NetworkMemory(c.value)
  }

  function NetworkCellValue(c: Cell?<NetworkRef>): Option<Network>
    reads NetworkCellMemory(c)
  {
    if c == null then None else Some(NetworkValue(c.value))
  }

  ghost function NodeCellMemory(c: Cell?<NodeRef>): set<object>
    reads c
  {
    if c == null then {} else {c} + NodeMemory(c.value)
  }

  function NodeCellValue(c: Cell?<NodeRef>): Option<Node>
    reads NodeCellMemory(c)
  {
    if c == null then None else Some(NodeValue(c.value))
  }

  ghost function StunCellMemory(c: Cell?<Slice<StunEndpoint>>): set<object>
    reads c
  {
    if c == null then {} else {c as object, c.value}
  }

  function StunCellValue(c: Cell?<Slice<StunEndpoint>>): Option<seq<StunEndpoint>>
    reads StunCellMemory(c)
  {
    if c == null then None else Some(c.value.items)
  }

  datatype DeltaRef = DeltaRef(
    network: Cell?<NetworkRef>, node: Cell?<NodeRef>, peerUpserts: Slice<PeerRef>, peerRemoveIds: Slice<string>,
    stunEndpoints: Cell?<Slice<StunEndpoint>>, relayUpserts: Slice<Relay>, relayRemoveIds: Slice<string>,
    relayCredential: Cell?<RelayCredential>)

  ghost function DeltaMemory(d: DeltaRef): set<object>
    reads NetworkCellMemory(d.network), NodeCellMemory(d.node), StunCellMemory(d.stunEndpoints), PeerSliceMemory(d.peerUpserts)
  {
    {d.peerRemoveIds as object, d.relayUpserts, d.relayRemoveIds} + CellMemory(d.relayCredential)
    + NetworkCellMemory(d.network) + NodeCellMemory(d.node) + StunCellMemory(d.stunEndpoints) + PeerSliceMemory(d.peerUpserts)
  }

  function DeltaValue(d: DeltaRef): Delta
    reads DeltaMemory(d)
  {
    Delta(NetworkCellValue(d.network), NodeCellValue(d.node), PeerSliceValue(d.peerUpserts), d.peerRemoveIds.items,
          StunCellValue(d.stunEndpoints), d.relayUpserts.items, d.relayRemoveIds.items, Pointee(d.relayCredential))
  }

  twostate lemma DeltaKept(d: DeltaRef)
    requires forall o: object | old(allocated(o)) && o in old(DeltaMemory(d)) :: Same(o)
    ensures DeltaMemory(d) == old(DeltaMemory(d)) && DeltaValue(d) == old(DeltaValue(d))
  {
    hide NetworkMemory, NetworkValue, NodeMemory, NodeValue, PeerSliceMemory, PeerSliceValue;
    assert Same(d.peerRemoveIds) && Same(d.relayUpserts) && Same(d.relayRemoveIds);
    assert d.relayCredential != null ==> Same(d.relayCredential);
    PeerSliceKept(d.peerUpserts);
    if d.network != null {
      assert Same(d.network);
      NetworkKept(old(d.network.value));
    }
    if d.node != null {
      assert Same(d.node);
      NodeKept(old(d.node.value));
    }
    if d.stunEndpoints != null {
      assert Same(d.stunEndpoints) && Same(old(d.stunEndpoints.value));
    }
  }

  datatype EventRef = EventRef(
    kind: string, eventId: string, from: MapRevision, to: MapRevision, baseHash: string,
    snapshot: Cell?<SnapshotRef>, delta: Cell?<DeltaRef>, resultSignature: Cell?<MapSignature>)

  ghost function EventMemory(e: EventRef): set<object>
    reads e.snapshot, if e.snapshot == null then {} else SnapshotMemory(e.snapshot.value)
    reads e.delta, if e.delta == null then {} else DeltaMemory(e.delta.value)
  {
    CellMemory(e.snapshot) + (if e.snapshot == null then {} else SnapshotMemory(e.snapshot.value))
    + CellMemory(e.delta) + (if e.delta == null then {} else DeltaMemory(e.delta.value)) + CellMemory(e.resultSignature)
  }

  function EventValue(e: EventRef): Event
    reads EventMemory(e)
  {
    Event(e.kind, e.eventId, e.from, e.to, e.baseHash,
          if e.snapshot == null then None else Some(SnapshotValue(e.snapshot.value)),
          if e.delta == null then None else Some(DeltaValue(e.delta.value)),
          Pointee(e.resultSignature))
  }

  twostate lemma EventKept(e: EventRef)
    requires forall o: object | old(allocated(o)) && o in old(EventMemory(e)) :: Same(o)
    ensures EventValue(e) == old(EventValue(e))
  {
    hide SnapshotMemory, SnapshotValue, DeltaMemory, DeltaValue;
    assert e.resultSignature != null ==> Same(e.resultSignature);
    if e.snapshot != null {
      assert Same(e.snapshot);
      SnapshotKept(old(e.snapshot.value));
    }
    if e.delta != null {
      assert Same(e.delta);
      DeltaKept(old(e.delta.value));
    }
  }

  // ----- one delta -----

  function RefId(p: PeerRef): string { p.id }
  function TrimmedRefId(p: PeerRef): string { TrimSpace(p.id) }

  lemma PeersMapped(s: seq<PeerRef>, f: PeerRef -> Peer)
    requires forall i | 0 <= i < |s| :: f(s[i]) == PeerValue(s[i])
    ensures PeersValue(s) == Map(s, f)
    ensures KeepsIds(s, f, RefId, TrimmedRefId, PeerId, TrimmedPeerId)
  {
    hide PeerMemory, PeersMemory;
  }

  /** `mergePeers`: the result shares the records of the current list and of the upserts. */
  method MergePeers(current: Slice<PeerRef>, upserts: Slice<PeerRef>, removeIds: Slice<string>)
    returns (r: Result<Slice<PeerRef>, IdError>)
    ensures match Merged(PeerSliceValue(current), PeerSliceValue(upserts), removeIds.items, PeerId, TrimmedPeerId)
            case Err(e) => r == Err(e)
            case Ok(peers) => r.Ok? && fresh(r.value) && PeerSliceValue(r.value) == peers
  {
    hide PeerMemory, PeerValue, PeersMemory, PeersValue, Merged;
    var merged := MergeRecords(current.items, upserts.items, removeIds.items, RefId, TrimmedRefId);
    r := Err(EmptyId);
    if merged.Err? {
      r := Err(merged.error);
    } else {
      var peers := new Slice(merged.value);
      r := Ok(peers);
    }
    MergedValues(current.items, upserts.items, removeIds.items);
  }

  /** The value of merged references is the merge of their values. */
  lemma MergedValues(current: seq<PeerRef>, upserts: seq<PeerRef>, removeIds: seq<string>)
    ensures Merged(PeersValue(current), PeersValue(upserts), removeIds, PeerId, TrimmedPeerId) ==
            match Merged(current, upserts, removeIds, RefId, TrimmedRefId)
            case Err(e) => Err(e)
            case Ok(peers) => Ok(PeersValue(peers))
  {
    hide PeerMemory, PeerValue, PeersMemory, PeersValue, Merged, TrimSpace;
    var all := current + upserts;
    var values := map p | p in all :: PeerValue(p);
    var other: Peer :| true;
    var f := (p: PeerRef) => if p in values then values[p] else other;
    PeersMapped(current, f);
    PeersMapped(upserts, f);
    MergeMapped(current, upserts, removeIds, f, RefId, TrimmedRefId, PeerId, TrimmedPeerId);
    var merged := Merged(current, upserts, removeIds, RefId, TrimmedRefId);
    if merged.Ok? {
      MergedFrom(current, upserts, removeIds, RefId, TrimmedRefId);
      PeersMapped(merged.value, f);
    }
  }

  /** The plain fields of a delta: the network and the node are taken over as they are, sharing the
      event's memory; endpoints and credential are copied. */
  method ReplaceFields(current: SnapshotRef, d: DeltaRef) returns (r: SnapshotRef)
    ensures SnapshotValue(r) == Replaced(SnapshotValue(current), DeltaValue(d))
    ensures r.peers == current.peers && r.relays == current.relays
  {
    hide NetworkMemory, NetworkValue, NodeMemory, NodeValue, PeerSliceMemory, PeerSliceValue;
    label Start:
    var stun, credential := current.stunEndpoints, current.relayCredential;
    if d.stunEndpoints != null {
      stun := CopySlice(d.stunEndpoints.value);
    }
    if d.relayCredential != null {
      credential := CopyCell(d.relayCredential);
    }
    r := current.(
      network := if d.network != null then d.network.value else current.network,
      node := if d.node != null then d.node.value else current.node,
      stunEndpoints := stun, relayCredential := credential);
  }

  /** Both merges; the result shares the memory of the map and of the event. */
  method MergeLists(current: SnapshotRef, d: DeltaRef) returns (r: Result<SnapshotRef, IdError>)
    ensures match Merged(SnapshotValue(current).peers, DeltaValue(d).peerUpserts, DeltaValue(d).peerRemoveIds, PeerId, TrimmedPeerId)
            case Err(e) => r == Err(e)
            case Ok(peers) =>
              match Merged(SnapshotValue(current).relays, DeltaValue(d).relayUpserts, DeltaValue(d).relayRemoveIds, RelayId, TrimmedRelayId)
              case Err(e) => r == Err(e)
              case Ok(relays) => r.Ok? && SnapshotValue(r.value) == SnapshotValue(current).(peers := peers, relays := relays)
  {
    hide NetworkMemory, NetworkValue, NodeMemory, NodeValue, PeerSliceMemory, PeerSliceValue, Merged;
    hide NetworkCellMemory, NetworkCellValue, NodeCellMemory, NodeCellValue, StunCellMemory, StunCellValue;
    var peers := MergePeers(current.peers, d.peerUpserts, d.peerRemoveIds);
    label Peers:
    if peers.Err? {
      return Err(peers.error);
    }
    var relays := MergeRecords(current.relays.items, d.relayUpserts.items, d.relayRemoveIds.items, RelayId, TrimmedRelayId);
    PeerSliceKept@Peers(current.peers);
    PeerSliceKept@Peers(d.peerUpserts);
    if relays.Err? {
      return Err(relays.error);
    }
    var slice := new Slice(relays.value);
    PeerSliceKept@Peers(peers.value);
    SnapshotKept@Peers(current);
    DeltaKept@Peers(d);
    r := Ok(current.(peers := peers.value, relays := slice));
  }

  /** `applyMapDelta`: the value of the result is the delta applied to the value of the map, and all
      its memory is new. */
  method ApplyMapDelta(current: SnapshotRef, d: DeltaRef) returns (r: Result<SnapshotRef, IdError>)
    ensures match ApplyDelta(old(SnapshotValue(current)), old(DeltaValue(d)))
            case Err(e) => r == Err(e)
            case Ok(next) => r.Ok? && fresh(SnapshotMemory(r.value)) && SnapshotValue(r.value) == next
  {
    hide SnapshotMemory, SnapshotValue, DeltaMemory, DeltaValue, Merged;
    var copy := CloneNetworkMapSnapshot(current);
    label Copied:
    SnapshotKept(current);
    var next := ReplaceFields(copy, d);
    label Replaced:
    SnapshotKept@Copied(copy);
    DeltaKept(d);
    var merged := MergeLists(next, d);
    SnapshotKept@Replaced(next);
    DeltaKept(d);
    if merged.Err? {
      return Err(merged.error);
    }
    label Merged:
    var result := CloneNetworkMapSnapshot(merged.value);
    SnapshotKept@Merged(merged.value);
    r := Ok(result);
  }

  // ----- one event -----

  /** The outcome in memory has the value `v`. */
  ghost predicate Holds(o: Outcome<SnapshotRef>, v: Outcome<Snapshot>)
    reads if o.Accepted? then SnapshotMemory(o.result) else if o.AlreadyApplied? then SnapshotMemory(o.cached) else {}
  {
    match o
    case Accepted(m) => v == Accepted(SnapshotValue(m))
    case AlreadyApplied(m) => v == AlreadyApplied(SnapshotValue(m))
    case ResyncRequired => v == ResyncRequired
    case Rejected => v == Rejected
  }

  /** Everything an outcome hands out is newly allocated. */
  ghost function OutcomeMemory(o: Outcome<SnapshotRef>): set<object>
    reads if o.Accepted? then SnapshotMemory(o.result) else if o.AlreadyApplied? then SnapshotMemory(o.cached) else {}
  {
    if o.Accepted? then SnapshotMemory(o.result) else if o.AlreadyApplied? then SnapshotMemory(o.cached) else {}
  }

  /** The full map of an event, or the delta applied to the current one, under the event's revision and
      a copy of its signature; `ok` is false if the delta cannot be applied. */
  method Candidate(current: SnapshotRef, e: EventRef) returns (ok: bool, next: SnapshotRef)
    requires EventAccepted(EventValue(e)) && !IsBeat(EventValue(e))
    ensures e.kind != "delta" ==> ok && old(EventValue(e)).snapshot.Some? && SnapshotValue(next) == Sealed(old(EventValue(e)).snapshot.value, old(EventValue(e)))
    ensures e.kind == "delta" ==>
              && old(EventValue(e)).delta.Some?
              && var applied := ApplyDelta(old(SnapshotValue(current)), old(EventValue(e)).delta.value);
                 ok == applied.Ok? && (ok ==> SnapshotValue(next) == Sealed(applied.value, old(EventValue(e))))
    ensures ok ==> fresh(SnapshotMemory(next))
  {
    hide TrimSpace, ApplyDelta, DeltaMemory, DeltaValue, NetworkMemory, NetworkValue, NodeMemory, NodeValue, PeerSliceMemory, PeerSliceValue;
    next := current;
    if e.kind == "delta" {
      var applied := ApplyMapDelta(current, e.delta.value);
      if applied.Err? {
        return false, current;
      }
      next := applied.value;
    } else {
      label Start:
      next := CloneNetworkMapSnapshot(e.snapshot.value);
      SnapshotKept@Start(e.snapshot.value);
    }
    label Built:
    var signature := CopyCell(e.resultSignature);
    SnapshotKept@Built(next);
    next := next.(revision := e.to, mapSignature := signature);
    ok := true;
  }

  /** `ApplyMapStreamEvent` in memory has the outcome the values determine, and whatever map it returns
      shares nothing with the event or the current map. */
  method ApplyMapStreamEvent(env: Env, current: SnapshotRef, e: EventRef, trust: SigningTrustBundle, now: Time)
    returns (o: Outcome<SnapshotRef>)
    requires LawfulNet(env.net)
    ensures Holds(o, Apply(env, old(SnapshotValue(current)), old(EventValue(e)), trust, now))
    ensures fresh(OutcomeMemory(o))
  {
    hide ResultVerified, LawfulNet, ApplyDelta, TrimSpace, SnapshotMemory, SnapshotValue, EventMemory;
    var event, cached := EventValue(e), SnapshotValue(current);
    if !EventAccepted(event) {
      return Rejected;
    }
    if Repeats(cached, event) {
      var copy := CloneNetworkMapSnapshot(current);
      SnapshotKept(current);
      return AlreadyApplied(copy);
    }
    if IsBeat(event) {
      if cached.revision != event.to || (event.baseHash != "" && event.baseHash != CurrentHash(cached)) {
        return ResyncRequired;
      }
      var copy := CloneNetworkMapSnapshot(current);
      SnapshotKept(current);
      return Accepted(copy);
    }
    if event.kind == "delta" && (cached.revision != event.from || event.baseHash != CurrentHash(cached)) {
      return ResyncRequired;
    }
    var built, next := Candidate(current, e);
    if !built {
      return Rejected;
    }
    label Built:
    var ok := VerifyResult(env, SnapshotValue(next), trust, now);
    SnapshotKept@Built(next);
    return if ok then Accepted(next) else Rejected;
  }

  // ----- the client -----

  /** A consumer of the stream, which replaces its cache only after an event was applied successfully. */
  class MapClient {
    const env: Env
    const trust: SigningTrustBundle
    var cache: SnapshotRef

    constructor (env: Env, trust: SigningTrustBundle, initial: SnapshotRef)
      ensures this.env == env && this.trust == trust && cache == initial
    {
      this.env, this.trust, this.cache := env, trust, initial;
    }

    method Receive(e: EventRef, now: Time) returns (o: Outcome<SnapshotRef>)
      requires LawfulNet(env.net)
      modifies this
      ensures Holds(o, Apply(env, old(SnapshotValue(cache)), old(EventValue(e)), trust, now))
      ensures if o.Accepted? then cache == o.result && fresh(SnapshotMemory(cache)) else cache == old(cache)
    {
      hide Apply, LawfulNet, SnapshotMemory, SnapshotValue, EventMemory, EventValue;
      o := ApplyMapStreamEvent(env, cache, e, trust, now);
      if o.Accepted? {
        label Applied:
        cache := o.result;
        SnapshotKept@Applied(o.result);
      }
    }
  }

  /** Separation: once an event is accepted, overwriting any list that existed before, in the event, in
      the old cache or anywhere else, leaves the new cache as it is. */
  method ReceiveThenOverwrite<T>(client: MapClient, e: EventRef, now: Time, store: Slice<T>, items: seq<T>)
    returns (o: Outcome<SnapshotRef>)
    requires LawfulNet(client.env.net)
    modifies client, store
    ensures store.items == items
    ensures o.Accepted? ==>
              SnapshotValue(client.cache) == Next(client.env, old(SnapshotValue(client.cache)), old(EventValue(e)), client.trust, now)
  {
    hide Apply, LawfulNet, SnapshotMemory, SnapshotValue, EventMemory, EventValue;
    o := client.Receive(e, now);
    label Received:
    store.items := items;
    if o.Accepted? {
      SnapshotKept@Received(client.cache);
    }
  }

  /** The same for a cell, such as one that holds a time, a signature or a credential. */
  method ReceiveThenReplace<T>(client: MapClient, e: EventRef, now: Time, cell: Cell<T>, value: T)
    returns (o: Outcome<SnapshotRef>)
    requires LawfulNet(client.env.net)
    modifies client, cell
    ensures cell.value == value
    ensures o.Accepted? ==>
              SnapshotValue(client.cache) == Next(client.env, old(SnapshotValue(client.cache)), old(EventValue(e)), client.trust, now)
  {
    hide Apply, LawfulNet, SnapshotMemory, SnapshotValue, EventMemory, EventValue;
    o := client.Receive(e, now);
    label Received:
    cell.value := value;
    if o.Accepted? {
      SnapshotKept@Received(client.cache);
    }
  }

  // ----- whole runs -----

  /** A consumer's loop over the stream: the cache ends with the value of the run, in memory of its own. */
  method ReceiveAll(env: Env, trust: SigningTrustBundle, initial: SnapshotRef, es: seq<EventRef>, times: seq<Time>, ghost ds: seq<Delivery>)
    returns (cache: SnapshotRef)
    requires LawfulNet(env.net) && |es| == |times| == |ds|
    requires forall i | 0 <= i < |es| :: ds[i] == Delivery(EventValue(es[i]), times[i])
    ensures SnapshotValue(cache) == Run(env, trust, old(SnapshotValue(initial)), ds)
    ensures cache == initial || fresh(SnapshotMemory(cache))
  {
    hide Apply, LawfulNet, SnapshotMemory, SnapshotValue, EventMemory, EventValue;
    cache := initial;
    for i := 0 to |es|
      invariant SnapshotValue(cache) == Run(env, trust, old(SnapshotValue(initial)), ds[..i])
      invariant cache == initial || fresh(SnapshotMemory(cache))
    {
      label Before:
      EventKept(es[i]);
      assert ds[..i + 1][..i] == ds[..i];
      var o := ApplyMapStreamEvent(env, cache, es[i], trust, times[i]);
      SnapshotKept@Before(cache);
      if o.Accepted? {
        cache := o.result;
      }
    }
    assert ds[..|es|] == ds;
  }
}
