/** Effective applications of a map and the routes they authorise: clientapi/v1/application.go. */
module Applications {
  import opened Outcomes
  import opened Ordering
  import opened Cidr
  import opened NetworkMap
  import opened Environment

  /** The ten blocks no application may reach, IPv4 first:
      0.0.0.0/8, 127.0.0.0/8, 169.254.0.0/16, 224.0.0.0/4, 240.0.0.0/4,
      ::/128, ::1/128, ::ffff:0:0/96, fe80::/10, ff00::/8. */
  function Forbidden(): seq<Prefix> {
    ForbiddenIpv4() + ForbiddenIpv6()
  }

  function ForbiddenIpv4(): seq<Prefix> {
    UnitsBelow(V4, 24, 8);
    UnitsBelow(V4, 16, 16);
    [Block(V4, 0, 24, 8), Block(V4, 127, 24, 8), Block(V4, 0xa9fe, 16, 16), Block(V4, 224, 24, 4), Block(V4, 240, 24, 4)]
  }

  function ForbiddenIpv6(): seq<Prefix> {
    UnitsBelow(V6, 0, 16);
    UnitsBelow(V6, 32, 16);
    UnitsBelow(V6, 112, 16);
    [Block(V6, 0, 0, 128), Block(V6, 1, 0, 128), Block(V6, 0xffff, 32, 96), Block(V6, 0xfe80, 112, 10), Block(V6, 0xff00, 112, 8)]
  }

  /** Enough room above `shift` for units of 8 or 16 bits. */
  lemma UnitsBelow(f: Family, shift: nat, unit: nat)
    requires unit == 8 || unit == 16
    requires shift + unit <= Width(f)
    ensures Pow2(Width(f) - shift) >= if unit == 8 then 256 else 65536
  {
    hide Pow2;
    Pow2Values();
    Pow2Add(unit, Width(f) - shift - unit);
    MulLe(1, Pow2(Width(f) - shift - unit), Pow2(unit));
  }

  /** The address lies in a forbidden block. */
  ghost predicate ForbiddenAddress(a: Addr) {
    exists block | block in Forbidden() :: Contains(block, a)
  }

  predicate PrefixAllowed(p: Prefix) {
    && !Is4In6(p.addr) && p.bits != 0
    && forall block | block in Forbidden() :: !Overlaps(p, block)
  }

  lemma AnyPrefixOfLengthZero(p: Prefix, a: Addr)
    requires p.bits == 0 && p.addr.family == a.family
    ensures Contains(p, a)
  {
    WholeFamily(p.addr);
    WholeFamily(a);
  }

  lemma MappedIsForbidden(a: Addr)
    requires Is4In6(a)
    ensures ForbiddenAddress(a)
  {
    hide Pow2, Contains;
    hide Block;
    UnitsBelow(V6, 32, 16);
    BlockContains(V6, 0xffff, 32, a);
    var block := Block(V6, 0xffff, 32, 96);
    assert Forbidden()[7] == ForbiddenIpv6()[2] == block;
  }

  /** The three tests together say exactly that no address of the prefix is forbidden; the length
      and mapped-address tests follow from the list of blocks. */
  lemma PrefixAllowedIff(p: Prefix)
    ensures PrefixAllowed(p) <==> forall a: Addr | Contains(p, a) :: !ForbiddenAddress(a)
  {
    hide Forbidden, Overlaps, Is4In6;
    if Is4In6(p.addr) {
      MappedIsForbidden(p.addr);
      assert Contains(p, p.addr);
    } else if p.bits == 0 {
      var block := SameFamilyBlock(p.addr.family);
      AnyPrefixOfLengthZero(p, block.addr);
      assert Contains(block, block.addr);
    } else {
      forall block | block in Forbidden()
        ensures Overlaps(p, block) <==> exists a: Addr :: Contains(p, a) && Contains(block, a)
      {
        OverlapsIffShared(p, block);
      }
    }
  }

  /** The blocks in terms of leading bits. */
  ghost predicate ForbiddenBits(a: Addr) {
    match a.family
    case V4 =>
      a.num / Pow2(24) == 0 || a.num / Pow2(24) == 127 || a.num / Pow2(16) == 0xa9fe || a.num / Pow2(28) == 14 || a.num / Pow2(28) == 15
    case V6 =>
      a.num == 0 || a.num == 1 || a.num / Pow2(32) == 0xffff || a.num / Pow2(118) == 0x3fa || a.num / Pow2(120) == 0xff
  }

  lemma ForbiddenIff(a: Addr)
    ensures ForbiddenAddress(a) <==> ForbiddenBits(a)
  {
    hide Pow2, Contains;
    hide Block;
    if a.family == V4 {
      ForbiddenIpv4Iff(a);
    } else {
      ForbiddenIpv6Iff(a);
    }
    ForbiddenParts(a);
  }

  lemma ForbiddenParts(a: Addr)
    ensures ForbiddenAddress(a) <==> exists block | block in (if a.family == V4 then ForbiddenIpv4() else ForbiddenIpv6()) :: Contains(block, a)
  {
    hide ForbiddenIpv4, ForbiddenIpv6;
    FamiliesOfBlocks();
  }

  lemma FamiliesOfBlocks()
    ensures forall b | b in ForbiddenIpv4() :: b.addr.family == V4
    ensures forall b | b in ForbiddenIpv6() :: b.addr.family == V6
  {
    hide Pow2;
  }

  lemma ForbiddenIpv4Iff(a: Addr)
    requires a.family == V4
    ensures (exists block | block in ForbiddenIpv4() :: Contains(block, a)) <==> ForbiddenBits(a)
  {
    hide Pow2, Contains;
    hide Block;
    UnitsBelow(V4, 24, 8);
    UnitsBelow(V4, 16, 16);
    Pow2Values();
    BlockContains(V4, 0, 24, a);
    BlockContains(V4, 127, 24, a);
    BlockContains(V4, 0xa9fe, 16, a);
    ShortBlockContains(V4, 224, 24, 4, 14, a);
    ShortBlockContains(V4, 240, 24, 4, 15, a);
    var blocks := ForbiddenIpv4();
    assert blocks[0] in blocks && blocks[1] in blocks && blocks[2] in blocks && blocks[3] in blocks && blocks[4] in blocks;
  }

  lemma Ipv6Room()
    ensures 1 < Pow2(128) && 0xffff < Pow2(96) && 0xfe80 < Pow2(16) && 0xff00 < Pow2(16)
  {
    hide Pow2;
    UnitsBelow(V6, 0, 16);
    UnitsBelow(V6, 32, 16);
    UnitsBelow(V6, 112, 16);
  }

  lemma LowIpv6(a: Addr)
    requires a.family == V6 && 1 < Pow2(128) && 0xffff < Pow2(96)
    ensures Contains(Block(V6, 0, 0, 128), a) <==> a.num == 0
    ensures Contains(Block(V6, 1, 0, 128), a) <==> a.num == 1
    ensures Contains(Block(V6, 0xffff, 32, 96), a) <==> a.num / Pow2(32) == 0xffff
  {
    hide Pow2, Contains;
    hide Block;
    BlockContains(V6, 0, 0, a);
    BlockContains(V6, 1, 0, a);
    BlockContains(V6, 0xffff, 32, a);
    assert a.num / Pow2(0) == a.num by { Pow2Zero(); }
  }

  lemma HighIpv6(a: Addr)
    requires a.family == V6 && 0xfe80 < Pow2(16) && 0xff00 < Pow2(16)
    ensures Contains(Block(V6, 0xfe80, 112, 10), a) <==> a.num / Pow2(118) == 0x3fa
    ensures Contains(Block(V6, 0xff00, 112, 8), a) <==> a.num / Pow2(120) == 0xff
  {
    hide Pow2, Contains;
    hide Block;
    assert Pow2(6) == 64 by { SixBits(); }
    Pow2Values();
    ShortBlockContains(V6, 0xfe80, 112, 10, 0x3fa, a);
    ShortBlockContains(V6, 0xff00, 112, 8, 0xff, a);
  }

  lemma SixBits()
    ensures Pow2(6) == 64
  {
  }

  lemma ForbiddenIpv6Iff(a: Addr)
    requires a.family == V6
    ensures (exists block | block in ForbiddenIpv6() :: Contains(block, a)) <==> ForbiddenBits(a)
  {
    hide Pow2, Contains;
    hide Block;
    Ipv6Room();
    LowIpv6(a);
    HighIpv6(a);
    var blocks := ForbiddenIpv6();
    assert blocks[0] in blocks && blocks[1] in blocks && blocks[2] in blocks && blocks[3] in blocks && blocks[4] in blocks;
  }

  lemma Pow2Zero()
    ensures Pow2(0) == 1
  {
  }

  /** Forbidden are the mapped, unspecified, loopback, multicast and link-local addresses, the rest of
      0.0.0.0/8 and 240.0.0.0/4, and nothing else. */
  lemma ForbiddenKinds(a: Addr)
    ensures ForbiddenAddress(a) <==>
            || Is4In6(a) || IsUnspecified(a) || IsLoopback(a) || IsMulticast(a) || IsLinkLocalUnicast(a)
            || (a.family == V4 && (a.num / Pow2(24) == 0 || a.num / Pow2(28) == 15))
  {
    hide Pow2, ForbiddenAddress;
    ForbiddenIff(a);
    if a.num == 0 {
      QuotientUnique(0, Pow2(24), 0, 0);
    }
  }

  lemma SameFamilyBlock(f: Family) returns (block: Prefix)
    ensures block in Forbidden() && block.addr.family == f
  {
    block := if f == V4 then Forbidden()[0] else Forbidden()[5];
    assert block in Forbidden();
  }

  // ----- targets -----

  /** What an application's target scopes its routes to. */
  datatype Target = Invalid | Hosts | Range(prefix: Prefix)

  predicate CanonicalCidr(net: Net, text: string) {
    net.parsePrefix(text).Some? && net.showPrefix(Masked(net.parsePrefix(text).value)) == text
  }

  function ParseTarget(net: Net, kind: string, target: string): Target {
    if kind == "cidr" then
      if CanonicalCidr(net, target) && PrefixAllowed(net.parsePrefix(target).value)
      then Range(net.parsePrefix(target).value) else Invalid
    else if kind == "domain" then
      if net.domain(target) then Hosts else Invalid
    else if kind == "url" then
      if net.urlOrigin(target) then Hosts else Invalid
    else Invalid
  }

  lemma CanonicalIsMasked(net: Net, text: string)
    requires LawfulNet(net) && CanonicalCidr(net, text)
    ensures net.parsePrefix(text).value == Masked(net.parsePrefix(text).value)
  {
  }

  // ----- acceptance -----

  function HostNode(h: ServiceHost): string { h.nodeId }
  function RouteNode(r: ApplicationRoute): string { r.connector.nodeId }

  /** The key each identity of the map currently has; a peer overrides an earlier entry of the same ID. */
  function Identities(node: Node, peers: seq<Peer>): map<string, string> {
    if peers == [] then map[node.id := node.publicKey]
    else
      var last := peers[|peers| - 1];
      Identities(node, peers[..|peers| - 1])[last.id := last.publicKey]
  }

  predicate HostBound(identities: map<string, string>, h: ServiceHost) {
    h.nodeId != "" && h.publicKey != "" && h.nodeId in identities && identities[h.nodeId] == h.publicKey
  }

  ghost predicate HostsBound(identities: map<string, string>, hosts: seq<ServiceHost>) {
    (forall h | h in hosts :: HostBound(identities, h)) && DistinctBy(hosts, HostNode)
  }

  /** Shares no address with an overlay range that parses. */
  predicate OutsideOverlay(net: Net, overlay: string, p: Prefix) {
    net.parsePrefix(overlay).None? || !Overlaps(p, net.parsePrefix(overlay).value)
  }

  predicate WithinTarget(target: Target, p: Prefix) {
    match target
    case Invalid => false
    case Hosts => IsHost(p)
    case Range(t) => p == t
  }

  predicate RouteCidrAccepted(net: Net, network: Network, target: Target, text: string) {
    && CanonicalCidr(net, text)
    && var p := net.parsePrefix(text).value;
       PrefixAllowed(p) && OutsideOverlay(net, network.cidr, p) && OutsideOverlay(net, network.ipv6Cidr, p)
       && WithinTarget(target, p)
  }

  ghost predicate RouteAccepted(net: Net, network: Network, app: Application, target: Target, route: ApplicationRoute) {
    && route.connector in app.connectors
    && route.expiresAt != 0
    && 1 <= |route.cidrs| <= 64
    && (forall text | text in route.cidrs :: RouteCidrAccepted(net, network, target, text))
    && DistinctBy(route.cidrs, Itself)
  }

  ghost predicate ApplicationAccepted(net: Net, network: Network, identities: map<string, string>, app: Application) {
    var target := ParseTarget(net, app.targetType, app.target);
    && net.policyHash(app.policyHash)
    && HostsBound(identities, app.sources) && HostsBound(identities, app.connectors)
    && target != Invalid
    && (forall r | r in app.routes :: RouteAccepted(net, network, app, target, r))
    && DistinctBy(app.routes, RouteNode)
  }

  ghost predicate ApplicationsAccepted(net: Net, s: Snapshot) {
    forall app | app in s.network.applications :: ApplicationAccepted(net, s.network, Identities(s.node, s.peers), app)
  }

  // ----- the loops -----

  method CollectIdentities(node: Node, peers: seq<Peer>) returns (identities: map<string, string>)
    ensures identities == Identities(node, peers)
  {
    identities := map[node.id := node.publicKey];
    for i := 0 to |peers|
      invariant identities == Identities(node, peers[..i])
    {
      assert peers[..i + 1][..i] == peers[..i];
      identities := identities[peers[i].id := peers[i].publicKey];
    }
    assert peers[..|peers|] == peers;
  }

  method CheckHosts(identities: map<string, string>, hosts: seq<ServiceHost>) returns (ok: bool)
    ensures ok <==> HostsBound(identities, hosts)
  {
    var seen: set<string> := {};
    for i := 0 to |hosts|
      invariant forall j | 0 <= j < i :: HostBound(identities, hosts[j]) && hosts[j].nodeId in seen
      invariant forall k | k in seen :: exists j | 0 <= j < i :: hosts[j].nodeId == k
      invariant DistinctBy(hosts[..i], HostNode)
    {
      var host := hosts[i];
      assert host in hosts;
      if !HostBound(identities, host) || host.nodeId in seen {
        return false;
      }
      seen := seen + {host.nodeId};
    }
    assert hosts[..|hosts|] == hosts;
    return true;
  }

  method CheckRouteCidrs(net: Net, network: Network, target: Target, cidrs: seq<string>) returns (ok: bool)
    ensures ok <==> (forall text | text in cidrs :: RouteCidrAccepted(net, network, target, text)) && DistinctBy(cidrs, Itself)
  {
    hide RouteCidrAccepted;
    var prefixes: set<string> := {};
    for i := 0 to |cidrs|
      invariant forall j | 0 <= j < i :: RouteCidrAccepted(net, network, target, cidrs[j]) && cidrs[j] in prefixes
      invariant forall k | k in prefixes :: exists j | 0 <= j < i :: cidrs[j] == k
      invariant DistinctBy(cidrs[..i], Itself)
    {
      assert cidrs[i] in cidrs;
      if !RouteCidrAccepted(net, network, target, cidrs[i]) || cidrs[i] in prefixes {
        return false;
      }
      prefixes := prefixes + {cidrs[i]};
    }
    assert cidrs[..|cidrs|] == cidrs;
    return true;
  }

  method CheckRoute(net: Net, network: Network, app: Application, target: Target, route: ApplicationRoute) returns (ok: bool)
    ensures ok <==> RouteAccepted(net, network, app, target, route)
  {
    hide RouteCidrAccepted;
    if route.connector !in app.connectors || route.expiresAt == 0 || |route.cidrs| == 0 || |route.cidrs| > 64 {
      return false;
    }
    ok := CheckRouteCidrs(net, network, target, route.cidrs);
  }

  method CheckRoutes(net: Net, network: Network, app: Application, target: Target) returns (ok: bool)
    ensures ok <==> (forall r | r in app.routes :: RouteAccepted(net, network, app, target, r)) && DistinctBy(app.routes, RouteNode)
  {
    hide RouteAccepted;
    var seen: set<string> := {};
    for i := 0 to |app.routes|
      invariant forall j | 0 <= j < i :: RouteAccepted(net, network, app, target, app.routes[j]) && RouteNode(app.routes[j]) in seen
      invariant forall k | k in seen :: exists j | 0 <= j < i :: RouteNode(app.routes[j]) == k
      invariant DistinctBy(app.routes[..i], RouteNode)
    {
      var route := app.routes[i];
      assert route in app.routes;
      var good := CheckRoute(net, network, app, target, route);
      if !good || RouteNode(route) in seen {
        return false;
      }
      seen := seen + {RouteNode(route)};
    }
    assert app.routes[..|app.routes|] == app.routes;
    return true;
  }

  method ValidateApplicationBindings(net: Net, s: Snapshot) returns (ok: bool)
    ensures ok <==> ApplicationsAccepted(net, s)
  {
    hide HostsBound, RouteAccepted, Identities, DistinctBy, ParseTarget;
    var identities := CollectIdentities(s.node, s.peers);
    for i := 0 to |s.network.applications|
      invariant forall j | 0 <= j < i :: ApplicationAccepted(net, s.network, identities, s.network.applications[j])
    {
      var app := s.network.applications[i];
      assert app in s.network.applications;
      if !net.policyHash(app.policyHash) {
        return false;
      }
      var sources := CheckHosts(identities, app.sources);
      var connectors := CheckHosts(identities, app.connectors);
      var target := ParseTarget(net, app.targetType, app.target);
      if !sources || !connectors || target == Invalid {
        return false;
      }
      var routes := CheckRoutes(net, s.network, app, target);
      if !routes {
        return false;
      }
    }
    return true;
  }

  // ----- what acceptance means for traffic -----

  /** The prefixes an accepted application authorises: each is the target range itself, or one host
      when the target is a name; none of its addresses is forbidden or belongs to the overlay; and
      it is carried by a connector whose key is the one the map gives that identity. */
  lemma RoutesStayInScope(net: Net, s: Snapshot, app: Application, route: ApplicationRoute, text: string)
    requires LawfulNet(net) && ApplicationsAccepted(net, s)
    requires app in s.network.applications && route in app.routes && text in route.cidrs
    ensures net.parsePrefix(text).Some?
    ensures var p := net.parsePrefix(text).value;
            && p == Masked(p)
            && (app.targetType == "cidr" ==> net.parsePrefix(app.target) == Some(p))
            && (app.targetType != "cidr" ==> IsHost(p) && forall a: Addr :: Contains(p, a) <==> a == p.addr)
            && forall a: Addr | Contains(p, a) ::
                 !ForbiddenAddress(a) && !InRange(net, s.network.cidr, a) && !InRange(net, s.network.ipv6Cidr, a)
    ensures HostBound(Identities(s.node, s.peers), route.connector)
    ensures forall other | other in app.routes && RouteNode(other) == RouteNode(route) :: other == route
  {
    hide Forbidden, PrefixAllowed, Overlaps, ForbiddenAddress, Contains;
    var target := ParseTarget(net, app.targetType, app.target);
    assert ApplicationAccepted(net, s.network, Identities(s.node, s.peers), app);
    assert RouteAccepted(net, s.network, app, target, route);
    assert RouteCidrAccepted(net, s.network, target, text);
    var p := net.parsePrefix(text).value;
    CanonicalIsMasked(net, text);
    PrefixAllowedIff(p);
    forall a: Addr | Contains(p, a)
      ensures !InRange(net, s.network.cidr, a) && !InRange(net, s.network.ipv6Cidr, a)
    {
      OutsideOverlayMeans(net, s.network.cidr, p, a);
      OutsideOverlayMeans(net, s.network.ipv6Cidr, p, a);
    }
    if app.targetType != "cidr" {
      forall a: Addr
        ensures Contains(p, a) <==> a == p.addr
      {
        HostIsItself(p, a);
      }
    }
    forall other | other in app.routes && RouteNode(other) == RouteNode(route)
      ensures other == route
    {
      SameId(app.routes, RouteNode, other, route);
    }
  }

  lemma OutsideOverlayMeans(net: Net, overlay: string, p: Prefix, a: Addr)
    requires OutsideOverlay(net, overlay, p) && Contains(p, a)
    ensures !InRange(net, overlay, a)
  {
    if net.parsePrefix(overlay).Some? {
      OverlapsIffShared(p, net.parsePrefix(overlay).value);
    }
  }

  // ----- identities up to order -----

  lemma {:induction false} IdentitiesOf(node: Node, peers: seq<Peer>)
    requires DistinctBy(peers, PeerId)
    ensures forall p | p in peers :: p.id in Identities(node, peers) && Identities(node, peers)[p.id] == p.publicKey
    ensures forall k :: k in Identities(node, peers) <==> k == node.id || exists p | p in peers :: p.id == k
    ensures (forall p | p in peers :: p.id != node.id) ==> Identities(node, peers)[node.id] == node.publicKey
  {
    if peers != [] {
      var n := |peers| - 1;
      DistinctInit(peers, PeerId);
      IdentitiesOf(node, peers[..n]);
      assert peers == peers[..n] + [peers[n]];
    }
  }

  /** With distinct peer IDs the identities do not depend on the order of the peers. */
  lemma IdentitiesIgnoreOrder(node: Node, a: seq<Peer>, b: seq<Peer>)
    requires DistinctBy(a, PeerId) && SamePermutation(a, b)
    ensures Identities(node, a) == Identities(node, b)
  {
    hide Identities, DistinctBy, SamePermutation;
    DistinctPermutation(a, b, PeerId);
    MembersOfPermutation(a, b);
    IdentitiesOf(node, a);
    IdentitiesOf(node, b);
    assert Identities(node, a).Keys == Identities(node, b).Keys;
    forall k | k in Identities(node, a)
      ensures Identities(node, a)[k] == Identities(node, b)[k]
    {
      if p :| p in a && p.id == k {
        assert p in b;
      }
    }
  }

  // ----- acceptance, in terms of peers and addresses -----

  /** The identity is a peer with that key, or this node, unless a peer has its ID. */
  ghost predicate Current(node: Node, peers: seq<Peer>, h: ServiceHost) {
    && h.nodeId != "" && h.publicKey != ""
    && (|| (exists p | p in peers :: p.id == h.nodeId && p.publicKey == h.publicKey)
        || (h == ServiceHost(node.id, node.publicKey) && forall p | p in peers :: p.id != node.id))
  }

  lemma BoundIffCurrent(node: Node, peers: seq<Peer>, h: ServiceHost)
    requires DistinctBy(peers, PeerId)
    ensures HostBound(Identities(node, peers), h) <==> Current(node, peers, h)
  {
    hide Identities;
    IdentitiesOf(node, peers);
  }

  /** Known hosts, each once. */
  ghost predicate HostsCurrent(node: Node, peers: seq<Peer>, hosts: seq<ServiceHost>) {
    (forall h | h in hosts :: Current(node, peers, h)) && DistinctBy(hosts, HostNode)
  }

  lemma HostsBoundIffCurrent(node: Node, peers: seq<Peer>, hosts: seq<ServiceHost>)
    requires DistinctBy(peers, PeerId)
    ensures HostsBound(Identities(node, peers), hosts) <==> HostsCurrent(node, peers, hosts)
  {
    hide Identities, Current, HostBound, DistinctBy;
    forall h | h in hosts
      ensures HostBound(Identities(node, peers), h) <==> Current(node, peers, h)
    {
      BoundIffCurrent(node, peers, h);
    }
  }

  /** The canonical text of a block none of whose addresses is forbidden or in the overlay. */
  ghost predicate Reachable(net: Net, network: Network, text: string) {
    && net.parsePrefix(text).Some? && net.showPrefix(Masked(net.parsePrefix(text).value)) == text
    && forall a: Addr | Contains(net.parsePrefix(text).value, a) ::
         !ForbiddenAddress(a) && !InRange(net, network.cidr, a) && !InRange(net, network.ipv6Cidr, a)
  }

  lemma OutsideOverlayIff(net: Net, overlay: string, p: Prefix)
    ensures OutsideOverlay(net, overlay, p) <==> forall a: Addr | Contains(p, a) :: !InRange(net, overlay, a)
  {
    if net.parsePrefix(overlay).Some? {
      OverlapsIffShared(p, net.parsePrefix(overlay).value);
    }
  }

  lemma RouteCidrIff(net: Net, network: Network, target: Target, text: string)
    ensures RouteCidrAccepted(net, network, target, text) <==>
            && Reachable(net, network, text)
            && (match target case Invalid => false case Hosts => IsHost(net.parsePrefix(text).value) case Range(t) => net.parsePrefix(text) == Some(t))
  {
    hide PrefixAllowed, ForbiddenAddress, OutsideOverlay, Contains, Masked, InRange, IsHost;
    if net.parsePrefix(text).Some? {
      var p := net.parsePrefix(text).value;
      PrefixAllowedIff(p);
      OutsideOverlayIff(net, network.cidr, p);
      OutsideOverlayIff(net, network.ipv6Cidr, p);
    }
  }

  /** The kinds of target: a canonical block without a forbidden address, or a name. */
  lemma TargetIff(net: Net, kind: string, target: string)
    ensures ParseTarget(net, kind, target) ==
            if kind == "cidr" && CanonicalCidr(net, target) && (forall a: Addr | Contains(net.parsePrefix(target).value, a) :: !ForbiddenAddress(a))
            then Range(net.parsePrefix(target).value)
            else if (kind == "domain" && net.domain(target)) || (kind == "url" && net.urlOrigin(target)) then Hosts
            else Invalid
  {
    hide PrefixAllowed, ForbiddenAddress, Contains;
    if CanonicalCidr(net, target) {
      PrefixAllowedIff(net.parsePrefix(target).value);
    }
  }

  /** One connector's route: it belongs to the application, ends some time, and leads to the target. */
  ghost predicate RouteScoped(net: Net, network: Network, app: Application, route: ApplicationRoute) {
    && route.connector in app.connectors && route.expiresAt != 0
    && 1 <= |route.cidrs| <= 64 && DistinctBy(route.cidrs, Itself)
    && forall text | text in route.cidrs ::
         Reachable(net, network, text) && InTarget(net, app, text)
  }

  /** The text names the target block itself or, for a target with a name, one host. */
  predicate InTarget(net: Net, app: Application, text: string) {
    && net.parsePrefix(text).Some?
    && (if app.targetType == "cidr" then net.parsePrefix(text) == net.parsePrefix(app.target) else IsHost(net.parsePrefix(text).value))
  }

  ghost predicate ApplicationScoped(net: Net, network: Network, node: Node, peers: seq<Peer>, app: Application) {
    && net.policyHash(app.policyHash)
    && HostsCurrent(node, peers, app.sources) && HostsCurrent(node, peers, app.connectors)
    && ParseTarget(net, app.targetType, app.target) != Invalid
    && (forall r | r in app.routes :: RouteScoped(net, network, app, r)) && DistinctBy(app.routes, RouteNode)
  }

  /** An application is accepted exactly if its policy hash is one, its hosts are known by their current
      keys and named once, its target is a block without forbidden addresses, a domain or an origin, and
      its routes, one for each connector, lead to reachable blocks of the target. */
  lemma ApplicationAcceptedIff(net: Net, network: Network, node: Node, peers: seq<Peer>, app: Application)
    requires DistinctBy(peers, PeerId)
    ensures ApplicationAccepted(net, network, Identities(node, peers), app) <==> ApplicationScoped(net, network, node, peers, app)
  {
    hide Identities, HostsCurrent, HostsBound, DistinctBy, RouteCidrAccepted, Reachable, ForbiddenAddress, Contains, IsHost, CanonicalCidr, ParseTarget;
    HostsBoundIffCurrent(node, peers, app.sources);
    HostsBoundIffCurrent(node, peers, app.connectors);
    var target := ParseTarget(net, app.targetType, app.target);
    TargetIff(net, app.targetType, app.target);
    if target != Invalid {
      forall r | r in app.routes
        ensures RouteAccepted(net, network, app, target, r) <==> RouteScoped(net, network, app, r)
      {
        RouteScopedIff(net, network, app, target, r);
      }
    }
  }

  lemma RouteScopedIff(net: Net, network: Network, app: Application, target: Target, route: ApplicationRoute)
    requires target == ParseTarget(net, app.targetType, app.target) != Invalid
    ensures RouteAccepted(net, network, app, target, route) <==> RouteScoped(net, network, app, route)
  {
    hide DistinctBy, RouteCidrAccepted, Reachable, ForbiddenAddress, Contains, IsHost, PrefixAllowed;
    forall text | text in route.cidrs
      ensures RouteCidrAccepted(net, network, target, text) <==>
              Reachable(net, network, text) && InTarget(net, app, text)
    {
      RouteCidrIff(net, network, target, text);
      if net.parsePrefix(text).Some? {
        TargetTest(net, app, target, text);
      } else {
        NotReachable(net, network, text);
      }
    }
  }

  lemma NotReachable(net: Net, network: Network, text: string)
    requires net.parsePrefix(text).None?
    ensures !Reachable(net, network, text)
  {
  }

  lemma TargetTest(net: Net, app: Application, target: Target, text: string)
    requires target == ParseTarget(net, app.targetType, app.target) != Invalid && net.parsePrefix(text).Some?
    ensures InTarget(net, app, text) <==> match target case Invalid => false case Hosts => IsHost(net.parsePrefix(text).value) case Range(t) => net.parsePrefix(text) == Some(t)
  {
    hide PrefixAllowed, IsHost;
  }
}
