/** Copying a snapshot in memory: `cloneNetworkMapSnapshot` and its helpers in
    clientapi/v1/mapstream.go and `cloneSharePeerGrants` in clientapi/v1/sharing.go.
    Here a Go slice is a reference to a mutable store and a pointer a reference to a cell, so that
    two snapshots can share memory. The memory of a record is the set of stores and cells it reaches;
    its value is the record of `NetworkMap` that these hold at the moment. */
module SnapshotClone {
  import opened Outcomes
  import opened NetworkMap

  class Slice<T> {
    var items: seq<T>

    constructor (items: seq<T>)
      ensures this.items == items
    {
      this.items := items;
    }
  }

  class Cell<T> {
    var value: T

    constructor (value: T)
      ensures this.value == value
    {
      this.value := value;
    }
  }

  /** What a pointer points to. */
  function Pointee<T>(c: Cell?<T>): Option<T>
    reads c
  {
    if c == null then None else Some(c.value)
  }

  ghost function CellMemory<T>(c: Cell?<T>): set<object> {
    if c == null then {} else {c}
  }

  /** `append([]T(nil), s...)`. */
  method CopySlice<T>(s: Slice<T>) returns (r: Slice<T>)
    ensures fresh(r) && r.items == s.items
  {
    r := new Slice(s.items);
  }

  /** Copying what a pointer points to, nil to nil. */
  method CopyCell<T>(c: Cell?<T>) returns (r: Cell?<T>)
    ensures fresh(CellMemory(r)) && Pointee(r) == Pointee(c)
  {
    r := null;
    if c != null {
      r := new Cell(c.value);
    }
  }

  // The lemmas named `Kept` say that writes elsewhere are invisible: while the memory of a record is
  // left alone, neither its memory nor its value changes. Allocating is such a write.

  twostate predicate Same(o: object)
    reads o
  {
    unchanged(o)
  }

  // ----- peers and their grants -----

  datatype GrantRef = GrantRef(destinationCidrs: Slice<string>, allowedPorts: Slice<AclPort>)

  ghost function GrantMemory(g: GrantRef): set<object> {
    {g.destinationCidrs, g.allowedPorts}
  }

  function GrantValue(g: GrantRef): AclGrant
    reads GrantMemory(g)
  {
    AclGrant(g.destinationCidrs.items, g.allowedPorts.items)
  }

  method CloneGrant(g: GrantRef) returns (r: GrantRef)
    ensures fresh(GrantMemory(r)) && GrantValue(r) == GrantValue(g)
  {
    var cidrs := CopySlice(g.destinationCidrs);
    var ports := CopySlice(g.allowedPorts);
    r := GrantRef(cidrs, ports);
  }

  ghost function GrantsMemory(s: seq<GrantRef>): set<object> {
    if s == [] then {} else
      GrantsMemory(s[..|s| - 1]) + GrantMemory(s[|s| - 1])
  }

  function GrantsValue(s: seq<GrantRef>): (r: seq<AclGrant>)
    reads GrantsMemory(s)
    ensures |r| == |s| && forall i | 0 <= i < |s| :: r[i] == GrantValue(s[i])
  {
    if s == [] then [] else GrantsValue(s[..|s| - 1]) + [GrantValue(s[|s| - 1])]
  }

  twostate lemma {:induction false} GrantsKept(s: seq<GrantRef>)
    requires forall o: object | old(allocated(o)) && o in GrantsMemory(s) :: Same(o)
    ensures GrantsValue(s) == old(GrantsValue(s))
  {
    if s != [] {
      GrantsKept(s[..|s| - 1]);
      var last := s[|s| - 1];
      assert Same(last.destinationCidrs) && Same(last.allowedPorts);
    }
  }

  method CloneGrants(s: Slice<GrantRef>) returns (r: Slice<GrantRef>)
    ensures fresh(r) && fresh(GrantsMemory(r.items)) && GrantsValue(r.items) == GrantsValue(s.items)
  {
    var items: seq<GrantRef> := [];
    for i := 0 to |s.items|
      invariant |items| == i && fresh(GrantsMemory(items)) && GrantsValue(items) == GrantsValue(s.items[..i])
    {
      label Before:
      var copy := CloneGrant(s.items[i]);
      GrantsKept@Before(items);
      GrantsKept@Before(s.items[..i]);
      assert s.items[..i + 1][..i] == s.items[..i] && (items + [copy])[..i] == items;
      items := items + [copy];
    }
    assert s.items[..|s.items|] == s.items;
    label Copied:
    r := new Slice(items);
    GrantsKept@Copied(items);
    GrantsKept@Copied(s.items);
  }

  datatype PeerRef = PeerRef(
    id: string, networkId: string, hostname: string, publicKey: string, endpoint: string, endpointGeneration: nat,
    endpointCandidates: Slice<string>, endpointExpiresAt: Cell?<Time>, status: string, allowedIps: Slice<string>,
    allowedPorts: Slice<AclPort>, aclRestricted: bool, aclGrants: Slice<GrantRef>, tags: Slice<string>)

  ghost function PeerMemory(p: PeerRef): set<object>
    reads p.aclGrants
  {
    {p.endpointCandidates as object, p.allowedIps, p.allowedPorts, p.aclGrants, p.tags} + CellMemory(p.endpointExpiresAt)
    + GrantsMemory(p.aclGrants.items)
  }

  function PeerValue(p: PeerRef): Peer
    reads PeerMemory(p)
  {
    Peer(p.id, p.networkId, p.hostname, p.publicKey, p.endpoint, p.endpointGeneration, p.endpointCandidates.items,
         Pointee(p.endpointExpiresAt), p.status, p.allowedIps.items, p.allowedPorts.items, p.aclRestricted,
         GrantsValue(p.aclGrants.items), p.tags.items)
  }

  twostate lemma PeerKept(p: PeerRef)
    requires forall o: object | old(allocated(o)) && o in old(PeerMemory(p)) :: Same(o)
    ensures PeerMemory(p) == old(PeerMemory(p)) && PeerValue(p) == old(PeerValue(p))
  {
    hide GrantsMemory, GrantsValue;
    assert Same(p.endpointCandidates) && Same(p.allowedIps) && Same(p.allowedPorts) && Same(p.aclGrants) && Same(p.tags);
    assert p.endpointExpiresAt != null ==> Same(p.endpointExpiresAt);
    GrantsKept(old(p.aclGrants.items));
  }

  method ClonePeer(p: PeerRef) returns (r: PeerRef)
    ensures fresh(PeerMemory(r)) && PeerValue(r) == PeerValue(p)
  {
    hide GrantsMemory, GrantsValue;
    var candidates := CopySlice(p.endpointCandidates);
    var ips := CopySlice(p.allowedIps);
    var ports := CopySlice(p.allowedPorts);
    var tags := CopySlice(p.tags);
    var expires := CopyCell(p.endpointExpiresAt);
    var grants := CloneGrants(p.aclGrants);
    r := p.(endpointCandidates := candidates, allowedIps := ips, allowedPorts := ports, tags := tags,
            endpointExpiresAt := expires, aclGrants := grants);
  }

  ghost function PeersMemory(s: seq<PeerRef>): (m: set<object>)
    reads set p | p in s :: p.aclGrants
    ensures forall p | p in s :: p.aclGrants in m
  {
    if s == [] then {} else
      assert s == s[..|s| - 1] + [s[|s| - 1]];
      PeersMemory(s[..|s| - 1]) + PeerMemory(s[|s| - 1])
  }

  function PeersValue(s: seq<PeerRef>): (r: seq<Peer>)
    reads PeersMemory(s)
    ensures |r| == |s| && forall i | 0 <= i < |s| :: r[i] == PeerValue(s[i])
  {
    if s == [] then [] else PeersValue(s[..|s| - 1]) + [PeerValue(s[|s| - 1])]
  }

  twostate lemma {:induction false} PeersKept(s: seq<PeerRef>)
    requires forall o: object | old(allocated(o)) && o in old(PeersMemory(s)) :: Same(o)
    ensures PeersMemory(s) == old(PeersMemory(s)) && PeersValue(s) == old(PeersValue(s))
  {
    hide PeerMemory, PeerValue;
    if s != [] {
      PeersKept(s[..|s| - 1]);
      PeerKept(s[|s| - 1]);
    }
  }

  ghost function PeerSliceMemory(s: Slice<PeerRef>): set<object>
    reads s, set p | p in s.items :: p.aclGrants
  {
    {s} + PeersMemory(s.items)
  }

  function PeerSliceValue(s: Slice<PeerRef>): seq<Peer>
    reads PeerSliceMemory(s)
  {
    PeersValue(s.items)
  }

  twostate lemma PeerSliceKept(s: Slice<PeerRef>)
    requires forall o: object | old(allocated(o)) && o in old(PeerSliceMemory(s)) :: Same(o)
    ensures PeerSliceMemory(s) == old(PeerSliceMemory(s)) && PeerSliceValue(s) == old(PeerSliceValue(s))
  {
    hide PeersMemory, PeersValue;
    assert Same(s);
    PeersKept(old(s.items));
  }

  lemma EmptyPeers(s: seq<PeerRef>)
    ensures s == [] ==> PeersMemory(s) == {} && PeersValue(s) == []
  {
  }

  lemma PeersSnoc(s: seq<PeerRef>, last: PeerRef)
    ensures PeersMemory(s + [last]) == PeersMemory(s) + PeerMemory(last)
    ensures PeersValue(s + [last]) == PeersValue(s) + [PeerValue(last)]
  {
    hide PeerMemory, PeerValue;
    assert (s + [last])[..|s|] == s;
  }

  method ClonePeerItems(s: seq<PeerRef>) returns (items: seq<PeerRef>)
    ensures fresh(PeersMemory(items)) && PeersValue(items) == PeersValue(s)
  {
    hide PeerMemory, PeerValue, PeersMemory, PeersValue;
    items := [];
    EmptyPeers(items);
    for i := 0 to |s|
      invariant |items| == i && fresh(PeersMemory(items)) && PeersValue(items) == PeersValue(s[..i])
    {
      label Before:
      var copy := ClonePeer(s[i]);
      PeersKept@Before(items);
      PeersKept@Before(s[..i]);
      PeersSnoc(s[..i], s[i]);
      PeersSnoc(items, copy);
      assert s[..i + 1] == s[..i] + [s[i]];
      items := items + [copy];
    }
    assert s[..|s|] == s;
  }

  method ClonePeers(s: Slice<PeerRef>) returns (r: Slice<PeerRef>)
    ensures fresh(PeerSliceMemory(r)) && PeerSliceValue(r) == PeerSliceValue(s)
  {
    hide PeerMemory, PeerValue, PeersMemory, PeersValue;
    var items := ClonePeerItems(s.items);
    label Copied:
    r := new Slice(items);
    PeersKept@Copied(items);
    PeersKept@Copied(s.items);
  }

  // ----- applications and their routes -----

  datatype RouteRef = RouteRef(connector: ServiceHost, cidrs: Slice<string>, expiresAt: Time)

  ghost function RouteMemory(r: RouteRef): set<object> {
    {r.cidrs}
  }

  function RouteValue(r: RouteRef): ApplicationRoute
    reads RouteMemory(r)
  {
    ApplicationRoute(r.connector, r.cidrs.items, r.expiresAt)
  }

  method CloneRoute(r: RouteRef) returns (copy: RouteRef)
    ensures fresh(RouteMemory(copy)) && RouteValue(copy) == RouteValue(r)
  {
    var cidrs := CopySlice(r.cidrs);
    copy := r.(cidrs := cidrs);
  }

  ghost function RoutesMemory(s: seq<RouteRef>): set<object> {
    if s == [] then {} else
      RoutesMemory(s[..|s| - 1]) + RouteMemory(s[|s| - 1])
  }

  function RoutesValue(s: seq<RouteRef>): (r: seq<ApplicationRoute>)
    reads RoutesMemory(s)
    ensures |r| == |s| && forall i | 0 <= i < |s| :: r[i] == RouteValue(s[i])
  {
    if s == [] then [] else RoutesValue(s[..|s| - 1]) + [RouteValue(s[|s| - 1])]
  }

  twostate lemma {:induction false} RoutesKept(s: seq<RouteRef>)
    requires forall o: object | old(allocated(o)) && o in RoutesMemory(s) :: Same(o)
    ensures RoutesValue(s) == old(RoutesValue(s))
  {
    if s != [] {
      RoutesKept(s[..|s| - 1]);
      var last := s[|s| - 1];
      assert Same(last.cidrs);
    }
  }

  method CloneRoutes(s: Slice<RouteRef>) returns (r: Slice<RouteRef>)
    ensures fresh(r) && fresh(RoutesMemory(r.items)) && RoutesValue(r.items) == RoutesValue(s.items)
  {
    var items: seq<RouteRef> := [];
    for i := 0 to |s.items|
      invariant |items| == i && fresh(RoutesMemory(items)) && RoutesValue(items) == RoutesValue(s.items[..i])
    {
      label Before:
      var copy := CloneRoute(s.items[i]);
      RoutesKept@Before(items);
      RoutesKept@Before(s.items[..i]);
      assert s.items[..i + 1][..i] == s.items[..i] && (items + [copy])[..i] == items;
      items := items + [copy];
    }
    assert s.items[..|s.items|] == s.items;
    label Copied:
    r := new Slice(items);
    RoutesKept@Copied(items);
    RoutesKept@Copied(s.items);
  }

  datatype ApplicationRef = ApplicationRef(
    id: string, name: string, target: string, targetType: string, dnsEnabled: bool, policyHash: string,
    sources: Slice<ServiceHost>, connectors: Slice<ServiceHost>, routes: Slice<RouteRef>)

  ghost function ApplicationMemory(a: ApplicationRef): set<object>
    reads a.routes
  {
    {a.sources as object, a.connectors, a.routes} + RoutesMemory(a.routes.items)
  }

  function ApplicationValue(a: ApplicationRef): Application
    reads ApplicationMemory(a)
  {
    Application(a.id, a.name, a.target, a.targetType, a.dnsEnabled, a.policyHash, a.sources.items, a.connectors.items,
                RoutesValue(a.routes.items))
  }

  twostate lemma ApplicationKept(a: ApplicationRef)
    requires forall o: object | old(allocated(o)) && o in old(ApplicationMemory(a)) :: Same(o)
    ensures ApplicationMemory(a) == old(ApplicationMemory(a)) && ApplicationValue(a) == old(ApplicationValue(a))
  {
    hide RoutesMemory, RoutesValue;
    assert Same(a.sources) && Same(a.connectors) && Same(a.routes);
    RoutesKept(old(a.routes.items));
  }

  method CloneApplication(a: ApplicationRef) returns (r: ApplicationRef)
    ensures fresh(ApplicationMemory(r)) && ApplicationValue(r) == ApplicationValue(a)
  {
    hide RoutesMemory, RoutesValue;
    var sources := CopySlice(a.sources);
    var connectors := CopySlice(a.connectors);
    var routes := CloneRoutes(a.routes);
    r := a.(sources := sources, connectors := connectors, routes := routes);
  }

  ghost function ApplicationsMemory(s: seq<ApplicationRef>): (m: set<object>)
    reads set a | a in s :: a.routes
    ensures forall a | a in s :: a.routes in m
  {
    if s == [] then {} else
      assert s == s[..|s| - 1] + [s[|s| - 1]];
      ApplicationsMemory(s[..|s| - 1]) + ApplicationMemory(s[|s| - 1])
  }

  function ApplicationsValue(s: seq<ApplicationRef>): (r: seq<Application>)
    reads ApplicationsMemory(s)
    ensures |r| == |s| && forall i | 0 <= i < |s| :: r[i] == ApplicationValue(s[i])
  {
    if s == [] then [] else ApplicationsValue(s[..|s| - 1]) + [ApplicationValue(s[|s| - 1])]
  }

  twostate lemma {:induction false} ApplicationsKept(s: seq<ApplicationRef>)
    requires forall o: object | old(allocated(o)) && o in old(ApplicationsMemory(s)) :: Same(o)
    ensures ApplicationsMemory(s) == old(ApplicationsMemory(s)) && ApplicationsValue(s) == old(ApplicationsValue(s))
  {
    hide ApplicationMemory, ApplicationValue;
    if s != [] {
      ApplicationsKept(s[..|s| - 1]);
      ApplicationKept(s[|s| - 1]);
    }
  }

  ghost function ApplicationSliceMemory(s: Slice<ApplicationRef>): set<object>
    reads s, set a | a in s.items :: a.routes
  {
    {s} + ApplicationsMemory(s.items)
  }

  function ApplicationSliceValue(s: Slice<ApplicationRef>): seq<Application>
    reads ApplicationSliceMemory(s)
  {
    ApplicationsValue(s.items)
  }

  twostate lemma ApplicationSliceKept(s: Slice<ApplicationRef>)
    requires forall o: object | old(allocated(o)) && o in old(ApplicationSliceMemory(s)) :: Same(o)
    ensures ApplicationSliceMemory(s) == old(ApplicationSliceMemory(s)) && ApplicationSliceValue(s) == old(ApplicationSliceValue(s))
  {
    hide ApplicationsMemory, ApplicationsValue;
    assert Same(s);
    ApplicationsKept(old(s.items));
  }

  lemma EmptyApplications(s: seq<ApplicationRef>)
    ensures s == [] ==> ApplicationsMemory(s) == {} && ApplicationsValue(s) == []
  {
  }

  lemma ApplicationsSnoc(s: seq<ApplicationRef>, last: ApplicationRef)
    ensures ApplicationsMemory(s + [last]) == ApplicationsMemory(s) + ApplicationMemory(last)
    ensures ApplicationsValue(s + [last]) == ApplicationsValue(s) + [ApplicationValue(last)]
  {
    hide ApplicationMemory, ApplicationValue;
    assert (s + [last])[..|s|] == s;
  }

  method CloneApplicationItems(s: seq<ApplicationRef>) returns (items: seq<ApplicationRef>)
    ensures fresh(ApplicationsMemory(items)) && ApplicationsValue(items) == ApplicationsValue(s)
  {
    hide ApplicationMemory, ApplicationValue, ApplicationsMemory, ApplicationsValue;
    items := [];
    EmptyApplications(items);
    for i := 0 to |s|
      invariant |items| == i && fresh(ApplicationsMemory(items)) && ApplicationsValue(items) == ApplicationsValue(s[..i])
    {
      label Before:
      var copy := CloneApplication(s[i]);
      ApplicationsKept@Before(items);
      ApplicationsKept@Before(s[..i]);
      ApplicationsSnoc(s[..i], s[i]);
      ApplicationsSnoc(items, copy);
      assert s[..i + 1] == s[..i] + [s[i]];
      items := items + [copy];
    }
    assert s[..|s|] == s;
  }

  method CloneApplications(s: Slice<ApplicationRef>) returns (r: Slice<ApplicationRef>)
    ensures fresh(ApplicationSliceMemory(r)) && ApplicationSliceValue(r) == ApplicationSliceValue(s)
  {
    hide ApplicationMemory, ApplicationValue, ApplicationsMemory, ApplicationsValue;
    var items := CloneApplicationItems(s.items);
    label Copied:
    r := new Slice(items);
    ApplicationsKept@Copied(items);
    ApplicationsKept@Copied(s.items);
  }

  // ----- services and share grants -----

  datatype ServiceRef = ServiceRef(
    id: string, name: string, description: string, dnsName: string, ports: Slice<ServicePort>, tags: Slice<string>,
    eligibleTags: Slice<string>, approvalMode: string, approvalStatus: string, health: string, hosts: Slice<ServiceHost>)

  ghost function ServiceMemory(v: ServiceRef): set<object> {
    {v.ports, v.tags, v.eligibleTags, v.hosts}
  }

  function ServiceValue(v: ServiceRef): AdvertisedService
    reads ServiceMemory(v)
  {
    AdvertisedService(v.id, v.name, v.description, v.dnsName, v.ports.items, v.tags.items, v.eligibleTags.items,
                      v.approvalMode, v.approvalStatus, v.health, v.hosts.items)
  }

  method CloneService(v: ServiceRef) returns (r: ServiceRef)
    ensures fresh(ServiceMemory(r)) && ServiceValue(r) == ServiceValue(v)
  {
    var ports := CopySlice(v.ports);
    var hosts := CopySlice(v.hosts);
    var tags := CopySlice(v.tags);
    var eligible := CopySlice(v.eligibleTags);
    r := v.(ports := ports, hosts := hosts, tags := tags, eligibleTags := eligible);
  }

  ghost function ServicesMemory(s: seq<ServiceRef>): set<object> {
    if s == [] then {} else
      ServicesMemory(s[..|s| - 1]) + ServiceMemory(s[|s| - 1])
  }

  function ServicesValue(s: seq<ServiceRef>): (r: seq<AdvertisedService>)
    reads ServicesMemory(s)
    ensures |r| == |s| && forall i | 0 <= i < |s| :: r[i] == ServiceValue(s[i])
  {
    if s == [] then [] else ServicesValue(s[..|s| - 1]) + [ServiceValue(s[|s| - 1])]
  }

  twostate lemma {:induction false} ServicesKept(s: seq<ServiceRef>)
    requires forall o: object | old(allocated(o)) && o in ServicesMemory(s) :: Same(o)
    ensures ServicesValue(s) == old(ServicesValue(s))
  {
    if s != [] {
      ServicesKept(s[..|s| - 1]);
      var last := s[|s| - 1];
      assert Same(last.ports) && Same(last.hosts) && Same(last.tags) && Same(last.eligibleTags);
    }
  }

  method CloneServices(s: Slice<ServiceRef>) returns (r: Slice<ServiceRef>)
    ensures fresh(r) && fresh(ServicesMemory(r.items)) && ServicesValue(r.items) == ServicesValue(s.items)
  {
    var items: seq<ServiceRef> := [];
    for i := 0 to |s.items|
      invariant |items| == i && fresh(ServicesMemory(items)) && ServicesValue(items) == ServicesValue(s.items[..i])
    {
      label Before:
      var copy := CloneService(s.items[i]);
      ServicesKept@Before(items);
      ServicesKept@Before(s.items[..i]);
      assert s.items[..i + 1][..i] == s.items[..i] && (items + [copy])[..i] == items;
      items := items + [copy];
    }
    assert s.items[..|s.items|] == s.items;
    label Copied:
    r := new Slice(items);
    ServicesKept@Copied(items);
    ServicesKept@Copied(s.items);
  }

  datatype ShareRef = ShareRef(
    grantId: string,
    recipientNetworkId: string, recipientNodeId: string, recipientPublicKey: string, recipientAllowedIps: Slice<string>,
    sourceNetworkId: string, sourceNodeId: string, sourcePublicKey: string, sourceAllowedIps: Slice<string>,
    rights: Slice<ShareTraffic>, initiation: string, revision: nat, issuedAt: Time, expiresAt: Time)

  ghost function ShareMemory(g: ShareRef): set<object> {
    {g.recipientAllowedIps, g.sourceAllowedIps, g.rights}
  }

  function ShareValue(g: ShareRef): SharePeerGrant
    reads ShareMemory(g)
  {
    SharePeerGrant(
      g.grantId, g.recipientNetworkId, g.recipientNodeId, g.recipientPublicKey, g.recipientAllowedIps.items,
      g.sourceNetworkId, g.sourceNodeId, g.sourcePublicKey, g.sourceAllowedIps.items,
      g.rights.items, g.initiation, g.revision, g.issuedAt, g.expiresAt)
  }

  method CloneShare(g: ShareRef) returns (r: ShareRef)
    ensures fresh(ShareMemory(r)) && ShareValue(r) == ShareValue(g)
  {
    var sources := CopySlice(g.sourceAllowedIps);
    var recipients := CopySlice(g.recipientAllowedIps);
    var rights := CopySlice(g.rights);
    r := g.(sourceAllowedIps := sources, recipientAllowedIps := recipients, rights := rights);
  }

  ghost function SharesMemory(s: seq<ShareRef>): set<object> {
    if s == [] then {} else
      SharesMemory(s[..|s| - 1]) + ShareMemory(s[|s| - 1])
  }

  function SharesValue(s: seq<ShareRef>): (r: seq<SharePeerGrant>)
    reads SharesMemory(s)
    ensures |r| == |s| && forall i | 0 <= i < |s| :: r[i] == ShareValue(s[i])
  {
    if s == [] then [] else SharesValue(s[..|s| - 1]) + [ShareValue(s[|s| - 1])]
  }

  twostate lemma {:induction false} SharesKept(s: seq<ShareRef>)
    requires forall o: object | old(allocated(o)) && o in SharesMemory(s) :: Same(o)
    ensures SharesValue(s) == old(SharesValue(s))
  {
    if s != [] {
      SharesKept(s[..|s| - 1]);
      var last := s[|s| - 1];
      assert Same(last.sourceAllowedIps) && Same(last.recipientAllowedIps) && Same(last.rights);
    }
  }

  method CloneShares(s: Slice<ShareRef>) returns (r: Slice<ShareRef>)
    ensures fresh(r) && fresh(SharesMemory(r.items)) && SharesValue(r.items) == SharesValue(s.items)
  {
    var items: seq<ShareRef> := [];
    for i := 0 to |s.items|
      invariant |items| == i && fresh(SharesMemory(items)) && SharesValue(items) == SharesValue(s.items[..i])
    {
      label Before:
      var copy := CloneShare(s.items[i]);
      SharesKept@Before(items);
      SharesKept@Before(s.items[..i]);
      assert s.items[..i + 1][..i] == s.items[..i] && (items + [copy])[..i] == items;
      items := items + [copy];
    }
    assert s.items[..|s.items|] == s.items;
    label Copied:
    r := new Slice(items);
    SharesKept@Copied(items);
    SharesKept@Copied(s.items);
  }

  // ----- DNS configuration -----

  datatype NameserverRef = NameserverRef(id: string, address: string, scope: string, priority: nat, splitDomains: Slice<string>)

  ghost function NameserverMemory(n: NameserverRef): set<object> {
    {n.splitDomains}
  }

  function NameserverValue(n: NameserverRef): DnsNameserver
    reads NameserverMemory(n)
  {
    DnsNameserver(n.id, n.address, n.scope, n.priority, n.splitDomains.items)
  }

  method CloneNameserver(n: NameserverRef) returns (r: NameserverRef)
    ensures fresh(NameserverMemory(r)) && NameserverValue(r) == NameserverValue(n)
  {
    var domains := CopySlice(n.splitDomains);
    r := n.(splitDomains := domains);
  }

  ghost function NameserversMemory(s: seq<NameserverRef>): set<object> {
    if s == [] then {} else
      NameserversMemory(s[..|s| - 1]) + NameserverMemory(s[|s| - 1])
  }

  function NameserversValue(s: seq<NameserverRef>): (r: seq<DnsNameserver>)
    reads NameserversMemory(s)
    ensures |r| == |s| && forall i | 0 <= i < |s| :: r[i] == NameserverValue(s[i])
  {
    if s == [] then [] else NameserversValue(s[..|s| - 1]) + [NameserverValue(s[|s| - 1])]
  }

  twostate lemma {:induction false} NameserversKept(s: seq<NameserverRef>)
    requires forall o: object | old(allocated(o)) && o in NameserversMemory(s) :: Same(o)
    ensures NameserversValue(s) == old(NameserversValue(s))
  {
    if s != [] {
      NameserversKept(s[..|s| - 1]);
      var last := s[|s| - 1];
      assert Same(last.splitDomains);
    }
  }

  method CloneNameservers(s: Slice<NameserverRef>) returns (r: Slice<NameserverRef>)
    ensures fresh(r) && fresh(NameserversMemory(r.items)) && NameserversValue(r.items) == NameserversValue(s.items)
  {
    var items: seq<NameserverRef> := [];
    for i := 0 to |s.items|
      invariant |items| == i && fresh(NameserversMemory(items)) && NameserversValue(items) == NameserversValue(s.items[..i])
    {
      label Before:
      var copy := CloneNameserver(s.items[i]);
      NameserversKept@Before(items);
      NameserversKept@Before(s.items[..i]);
      assert s.items[..i + 1][..i] == s.items[..i] && (items + [copy])[..i] == items;
      items := items + [copy];
    }
    assert s.items[..|s.items|] == s.items;
    label Copied:
    r := new Slice(items);
    NameserversKept@Copied(items);
    NameserversKept@Copied(s.items);
  }

  datatype DnsRef = DnsRef(
    magicDnsEnabled: bool, httpsCertsEnabled: bool, overrideLocalDns: bool, suffix: string,
    nameservers: Slice<NameserverRef>, searchDomains: Slice<string>)

  ghost function DnsMemory(c: Cell?<DnsRef>): set<object>
    reads c, if c == null then {} else {c.value.nameservers}
  {
    if c == null then {}
    else {c as object, c.value.nameservers, c.value.searchDomains} + NameserversMemory(c.value.nameservers.items)
  }

  function DnsValue(c: Cell?<DnsRef>): Option<DnsConfig>
    reads DnsMemory(c)
  {
    if c == null then None
    else
      var d := c.value;
      Some(DnsConfig(d.magicDnsEnabled, d.httpsCertsEnabled, d.overrideLocalDns, d.suffix,
                     NameserversValue(d.nameservers.items), d.searchDomains.items))
  }

  twostate lemma DnsKept(c: Cell?<DnsRef>)
    requires forall o: object | old(allocated(o)) && o in old(DnsMemory(c)) :: Same(o)
    ensures DnsMemory(c) == old(DnsMemory(c)) && DnsValue(c) == old(DnsValue(c))
  {
    hide NameserversMemory, NameserversValue;
    if c != null {
      assert Same(c) && Same(old(c.value).nameservers) && Same(old(c.value).searchDomains);
      NameserversKept(old(c.value.nameservers.items));
    }
  }

  method CloneDnsConfig(c: Cell?<DnsRef>) returns (r: Cell?<DnsRef>)
    ensures fresh(DnsMemory(r)) && DnsValue(r) == DnsValue(c)
  {
    hide NameserversMemory, NameserversValue;
    r := null;
    if c != null {
      var domains := CopySlice(c.value.searchDomains);
      var nameservers := CloneNameservers(c.value.nameservers);
      label Copied:
      r := new Cell(c.value.(searchDomains := domains, nameservers := nameservers));
      NameserversKept@Copied(nameservers.items);
      NameserversKept@Copied(c.value.nameservers.items);
    }
  }

  // ----- the whole snapshot -----

  datatype NetworkRef = NetworkRef(
    id: string, name: string, cidr: string, ipv6Cidr: string, dns: Slice<string>, dnsConfig: Cell?<DnsRef>,
    applications: Slice<ApplicationRef>, services: Slice<ServiceRef>, sharePeerGrants: Slice<ShareRef>,
    cellId: string, authoritativeCellId: string, migratingToCellId: string, revision: nat,
    ownerId: string, accountId: string, createdAt: Time)

  ghost function NetworkMemory(n: NetworkRef): set<object>
    reads n.dnsConfig, if n.dnsConfig == null then {} else {n.dnsConfig.value.nameservers}
    reads n.applications, set a | a in n.applications.items :: a.routes
    reads n.services, n.sharePeerGrants
  {
    {n.dns as object, n.services, n.sharePeerGrants} + DnsMemory(n.dnsConfig) + ApplicationSliceMemory(n.applications)
    + ServicesMemory(n.services.items) + SharesMemory(n.sharePeerGrants.items)
  }

  function NetworkValue(n: NetworkRef): Network
    reads NetworkMemory(n)
  {
    Network(n.id, n.name, n.cidr, n.ipv6Cidr, n.dns.items, DnsValue(n.dnsConfig), ApplicationSliceValue(n.applications),
            ServicesValue(n.services.items), SharesValue(n.sharePeerGrants.items), n.cellId, n.authoritativeCellId,
            n.migratingToCellId, n.revision, n.ownerId, n.accountId, n.createdAt)
  }

  twostate lemma NetworkKept(n: NetworkRef)
    requires forall o: object | old(allocated(o)) && o in old(NetworkMemory(n)) :: Same(o)
    ensures NetworkMemory(n) == old(NetworkMemory(n)) && NetworkValue(n) == old(NetworkValue(n))
  {
    hide DnsMemory, DnsValue, ApplicationSliceMemory, ApplicationSliceValue, ServicesMemory, ServicesValue, SharesMemory, SharesValue;
    assert Same(n.dns) && Same(n.services) && Same(n.sharePeerGrants);
    DnsKept(n.dnsConfig);
    ApplicationSliceKept(n.applications);
    ServicesKept(old(n.services.items));
    SharesKept(old(n.sharePeerGrants.items));
  }

  method CloneNetwork(n: NetworkRef) returns (r: NetworkRef)
    ensures fresh(NetworkMemory(r)) && NetworkValue(r) == NetworkValue(n)
  {
    hide DnsMemory, DnsValue, ApplicationSliceMemory, ApplicationSliceValue, ServicesMemory, ServicesValue, SharesMemory, SharesValue;
    var dns := CopySlice(n.dns);
    var config := CloneDnsConfig(n.dnsConfig);
    label Config:
    var applications := CloneApplications(n.applications);
    label Applications:
    var services := CloneServices(n.services);
    label Services:
    var grants := CloneShares(n.sharePeerGrants);
    DnsKept@Config(config);
    DnsKept@Config(n.dnsConfig);
    ApplicationSliceKept@Applications(applications);
    ApplicationSliceKept@Applications(n.applications);
    ServicesKept@Services(services.items);
    ServicesKept@Services(n.services.items);
    r := n.(dns := dns, dnsConfig := config, applications := applications, services := services, sharePeerGrants := grants);
  }

  datatype NodeRef = NodeRef(
    id: string, networkId: string, userId: string, hostname: string, identityPublicKey: string, publicKey: string,
    deviceFingerprint: string, assignedIp: string, assignedIpv6: string, endpoint: string, endpointGeneration: nat,
    endpointCandidates: Slice<string>, endpointExpiresAt: Cell?<Time>, status: string, advertisedIps: Slice<string>,
    requestedTags: Slice<string>, tags: Slice<string>, approvalState: string, ephemeral: bool, keyExpiryEnabled: bool,
    keyExpiresAt: Cell?<Time>, createdAt: Time, updatedAt: Time, lastSeen: Time)

  ghost function NodeMemory(n: NodeRef): set<object> {
    {n.endpointCandidates, n.advertisedIps, n.requestedTags, n.tags} + CellMemory(n.endpointExpiresAt) + CellMemory(n.keyExpiresAt)
  }

  function NodeValue(n: NodeRef): Node
    reads NodeMemory(n)
  {
    Node(n.id, n.networkId, n.userId, n.hostname, n.identityPublicKey, n.publicKey, n.deviceFingerprint, n.assignedIp,
         n.assignedIpv6, n.endpoint, n.endpointGeneration, n.endpointCandidates.items, Pointee(n.endpointExpiresAt),
         n.status, n.advertisedIps.items, n.requestedTags.items, n.tags.items, n.approvalState, n.ephemeral,
         n.keyExpiryEnabled, Pointee(n.keyExpiresAt), n.createdAt, n.updatedAt, n.lastSeen)
  }

  twostate lemma NodeKept(n: NodeRef)
    requires forall o: object | old(allocated(o)) && o in NodeMemory(n) :: Same(o)
    ensures NodeValue(n) == old(NodeValue(n))
  {
    assert Same(n.endpointCandidates) && Same(n.advertisedIps) && Same(n.requestedTags) && Same(n.tags);
    assert n.endpointExpiresAt != null ==> Same(n.endpointExpiresAt);
    assert n.keyExpiresAt != null ==> Same(n.keyExpiresAt);
  }

  method CloneNode(n: NodeRef) returns (r: NodeRef)
    ensures fresh(NodeMemory(r)) && NodeValue(r) == NodeValue(n)
  {
    var candidates := CopySlice(n.endpointCandidates);
    var ips := CopySlice(n.advertisedIps);
    var requested := CopySlice(n.requestedTags);
    var tags := CopySlice(n.tags);
    var endpointExpires := CopyCell(n.endpointExpiresAt);
    var keyExpires := CopyCell(n.keyExpiresAt);
    r := n.(endpointCandidates := candidates, advertisedIps := ips, requestedTags := requested, tags := tags,
            endpointExpiresAt := endpointExpires, keyExpiresAt := keyExpires);
  }

  datatype SnapshotRef = SnapshotRef(
    revision: MapRevision, network: NetworkRef, node: NodeRef, peers: Slice<PeerRef>, registrationBinding: string,
    stunEndpoints: Slice<StunEndpoint>, relays: Slice<Relay>, relayCredential: Cell?<RelayCredential>,
    mapSignature: Cell?<MapSignature>)

  ghost function SnapshotMemory(s: SnapshotRef): set<object>
    reads NetworkMemory(s.network), PeerSliceMemory(s.peers)
  {
    {s.stunEndpoints as object, s.relays} + NetworkMemory(s.network) + NodeMemory(s.node) + PeerSliceMemory(s.peers)
    + CellMemory(s.relayCredential) + CellMemory(s.mapSignature)
  }

  function SnapshotValue(s: SnapshotRef): Snapshot
    reads SnapshotMemory(s)
  {
    Snapshot(s.revision, NetworkValue(s.network), NodeValue(s.node), PeerSliceValue(s.peers), s.registrationBinding,
             s.stunEndpoints.items, s.relays.items, Pointee(s.relayCredential), Pointee(s.mapSignature))
  }

  twostate lemma SnapshotKept(s: SnapshotRef)
    requires forall o: object | old(allocated(o)) && o in old(SnapshotMemory(s)) :: Same(o)
    ensures SnapshotMemory(s) == old(SnapshotMemory(s)) && SnapshotValue(s) == old(SnapshotValue(s))
  {
    hide NetworkMemory, NetworkValue, NodeMemory, NodeValue, PeerSliceMemory, PeerSliceValue;
    assert Same(s.stunEndpoints) && Same(s.relays);
    assert s.relayCredential != null ==> Same(s.relayCredential);
    assert s.mapSignature != null ==> Same(s.mapSignature);
    NetworkKept(s.network);
    NodeKept(s.node);
    PeerSliceKept(s.peers);
  }

  /** The copy reaches nothing but newly allocated memory, at every level, and has the same value. */
  method CloneNetworkMapSnapshot(s: SnapshotRef) returns (r: SnapshotRef)
    ensures fresh(SnapshotMemory(r)) && SnapshotValue(r) == SnapshotValue(s)
  {
    hide NetworkMemory, NetworkValue, NodeMemory, NodeValue, PeerSliceMemory, PeerSliceValue;
    var network := CloneNetwork(s.network);
    label Network:
    var node := CloneNode(s.node);
    label Node:
    var peers := ClonePeers(s.peers);
    label Peers:
    var stun := CopySlice(s.stunEndpoints);
    var relays := CopySlice(s.relays);
    var credential := CopyCell(s.relayCredential);
    var signature := CopyCell(s.mapSignature);
    NetworkKept@Network(network);
    NetworkKept@Network(s.network);
    NodeKept@Node(node);
    NodeKept@Node(s.node);
    PeerSliceKept@Peers(peers);
    PeerSliceKept@Peers(s.peers);
    r := s.(network := network, node := node, peers := peers, stunEndpoints := stun, relays := relays,
            relayCredential := credential, mapSignature := signature);
  }
}
