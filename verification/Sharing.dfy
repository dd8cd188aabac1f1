/** Signed machine sharing: clientapi/v1/sharing.go. */
module Sharing {
  import opened Outcomes
  import opened Text
  import opened Ordering
  import opened Cidr
  import opened NetworkMap
  import opened Environment

  const RECIPIENT_ONLY: string := "recipient_only"
  const MAX_LEASE: int := 2 * MINUTE

  // ----- one grant -----

  predicate PlainUnicast(a: Addr) {
    !Is4In6(a) && !IsUnspecified(a) && !IsLoopback(a) && !IsMulticast(a) && !IsLinkLocalUnicast(a)
  }

  /** A canonical unicast host prefix. */
  predicate HostText(net: Net, text: string) {
    && net.parsePrefix(text).Some?
    && var p := net.parsePrefix(text).value;
       IsHost(p) && net.showPrefix(p) == text && PlainUnicast(p.addr)
  }

  function HostOf(net: Net, text: string): Addr
    requires HostText(net, text)
  {
    net.parsePrefix(text).value.addr
  }

  /** One or two exact hosts, at most one of each family. */
  ghost predicate HostsAccepted(net: Net, texts: seq<string>) {
    && 1 <= |texts| <= 2
    && (forall t | t in texts :: HostText(net, t))
    && (forall i, j | 0 <= i < j < |texts| :: HostOf(net, texts[i]).family != HostOf(net, texts[j]).family)
  }

  predicate RightAccepted(r: ShareTraffic) {
    if r.protocol == "tcp" || r.protocol == "udp" then 1 <= r.firstPort <= r.lastPort <= 65535
    else r.protocol == "icmp" && r.firstPort == 0 && r.lastPort == 0
  }

  predicate RightsOverlap(r: ShareTraffic, o: ShareTraffic) {
    r.protocol == o.protocol && r.firstPort <= o.lastPort && o.firstPort <= r.lastPort
  }

  ghost predicate RightsAccepted(rights: seq<ShareTraffic>) {
    && 1 <= |rights| <= 128
    && (forall r | r in rights :: RightAccepted(r))
    && (forall i, j | 0 <= i < j < |rights| :: !RightsOverlap(rights[j], rights[i]))
  }

  predicate LeaseAccepted(g: SharePeerGrant) {
    g.issuedAt != 0 && g.issuedAt < g.expiresAt && g.expiresAt - g.issuedAt <= MAX_LEASE
  }

  predicate IdentityText(net: Net, text: string) {
    text != "" && text == TrimSpace(text) && net.identifier(text)
  }

  /** Everything but the address lists and the rights. */
  predicate HeaderAccepted(net: Net, g: SharePeerGrant) {
    && IdentityText(net, g.grantId)
    && IdentityText(net, g.recipientNetworkId) && IdentityText(net, g.recipientNodeId)
    && IdentityText(net, g.sourceNetworkId) && IdentityText(net, g.sourceNodeId)
    && g.sourceNodeId != g.recipientNodeId && g.sourcePublicKey != g.recipientPublicKey
    && net.wireGuardKey(g.sourcePublicKey) && net.wireGuardKey(g.recipientPublicKey)
    && g.initiation == RECIPIENT_ONLY && g.revision != 0
    && LeaseAccepted(g)
  }

  ghost predicate Apart(net: Net, left: seq<string>, right: seq<string>) {
    forall l, r | l in left && r in right && net.parsePrefix(l).Some? && net.parsePrefix(r).Some? ::
      !Overlaps(net.parsePrefix(l).value, net.parsePrefix(r).value)
  }

  ghost predicate GrantAccepted(net: Net, g: SharePeerGrant) {
    && HeaderAccepted(net, g)
    && HostsAccepted(net, g.sourceAllowedIps) && HostsAccepted(net, g.recipientAllowedIps)
    && Apart(net, g.sourceAllowedIps, g.recipientAllowedIps)
    && RightsAccepted(g.rights)
  }

  method HostPrefixes(net: Net, texts: seq<string>) returns (r: Option<seq<Prefix>>)
    ensures r.Some? <==> HostsAccepted(net, texts)
    ensures r.Some? ==> |r.value| == |texts| && forall i | 0 <= i < |texts| :: net.parsePrefix(texts[i]) == Some(r.value[i])
  {
    hide PlainUnicast, IsHost;
    if |texts| < 1 || |texts| > 2 {
      return None;
    }
    var result: seq<Prefix> := [];
    for i := 0 to |texts|
      invariant |result| == i
      invariant forall j | 0 <= j < i :: HostText(net, texts[j]) && net.parsePrefix(texts[j]) == Some(result[j])
      invariant forall j, k | 0 <= j < k < i :: result[j].addr.family != result[k].addr.family
    {
      assert texts[i] in texts;
      if !HostText(net, texts[i]) {
        return None;
      }
      var prefix := net.parsePrefix(texts[i]).value;
      for j := 0 to |result|
        invariant forall k | 0 <= k < j :: result[k].addr.family != prefix.addr.family
      {
        if result[j].addr.family == prefix.addr.family {
          assert HostOf(net, texts[j]).family == HostOf(net, texts[i]).family;
          return None;
        }
      }
      result := result + [prefix];
    }
    return Some(result);
  }

  method CheckApart(net: Net, left: seq<string>, right: seq<string>, ls: seq<Prefix>, rs: seq<Prefix>) returns (ok: bool)
    requires |ls| == |left| && forall i | 0 <= i < |left| :: net.parsePrefix(left[i]) == Some(ls[i])
    requires |rs| == |right| && forall i | 0 <= i < |right| :: net.parsePrefix(right[i]) == Some(rs[i])
    ensures ok <==> Apart(net, left, right)
  {
    hide Overlaps;
    for i := 0 to |ls|
      invariant forall k, j | 0 <= k < i && 0 <= j < |rs| :: !Overlaps(ls[k], rs[j])
    {
      for j := 0 to |rs|
        invariant forall k | 0 <= k < j :: !Overlaps(ls[i], rs[k])
      {
        if Overlaps(ls[i], rs[j]) {
          assert left[i] in left && right[j] in right;
          return false;
        }
      }
    }
    return true;
  }

  method CheckRights(rights: seq<ShareTraffic>) returns (ok: bool)
    ensures ok <==> RightsAccepted(rights)
  {
    if |rights| == 0 || |rights| > 128 {
      return false;
    }
    for i := 0 to |rights|
      invariant forall j | 0 <= j < i :: RightAccepted(rights[j])
      invariant forall j, k | 0 <= j < k < i :: !RightsOverlap(rights[k], rights[j])
    {
      assert rights[i] in rights;
      if !RightAccepted(rights[i]) {
        return false;
      }
      for j := 0 to i
        invariant forall k | 0 <= k < j :: !RightsOverlap(rights[i], rights[k])
      {
        if RightsOverlap(rights[i], rights[j]) {
          return false;
        }
      }
    }
    return true;
  }

  method ValidateGrant(net: Net, g: SharePeerGrant) returns (ok: bool)
    ensures ok <==> GrantAccepted(net, g)
  {
    if !HeaderAccepted(net, g) {
      return false;
    }
    var left := HostPrefixes(net, g.sourceAllowedIps);
    var right := HostPrefixes(net, g.recipientAllowedIps);
    if left.None? || right.None? {
      return false;
    }
    var apart := CheckApart(net, g.sourceAllowedIps, g.recipientAllowedIps, left.value, right.value);
    if !apart {
      return false;
    }
    ok := CheckRights(g.rights);
  }

  /** An ordinary address: not unspecified, loopback, link-local, multicast or IPv4-mapped. */
  predicate Ordinary(a: Addr) {
    && a.num != 0
    && (a.family == V4 ==> a.num / Pow2(24) != 127 && a.num / Pow2(16) != 0xa9fe && a.num / Pow2(28) != 14)
    && (a.family == V6 ==>
          a.num != 1 && a.num / Pow2(118) != 0x3fa && a.num / Pow2(120) != 0xff && a.num / Pow2(32) != 0xffff)
  }

  /** Texts of one or two ordinary hosts of different families. */
  ghost predicate HostsSound(net: Net, texts: seq<string>) {
    && texts != [] && |texts| < 3
    && (forall t | t in texts ::
          && net.parsePrefix(t).Some?
          && var p := net.parsePrefix(t).value;
             p == Prefix(p.addr, Width(p.addr.family)) && t == net.showPrefix(p) && Ordinary(p.addr))
    && (|texts| == 2 ==> net.parsePrefix(texts[0]).value.addr.family != net.parsePrefix(texts[1]).value.addr.family)
  }

  lemma HostsAcceptedIff(net: Net, texts: seq<string>)
    ensures HostsAccepted(net, texts) <==> HostsSound(net, texts)
  {
    hide Pow2;
    forall t | t in texts
      ensures HostText(net, t) <==>
              && net.parsePrefix(t).Some?
              && var p := net.parsePrefix(t).value;
                 p == Prefix(p.addr, Width(p.addr.family)) && t == net.showPrefix(p) && Ordinary(p.addr)
    {
      if net.parsePrefix(t).Some? {
        OrdinaryIff(net.parsePrefix(t).value.addr);
      }
    }
  }

  lemma OrdinaryIff(a: Addr)
    ensures PlainUnicast(a) <==> Ordinary(a)
  {
    hide Pow2;
    if Is4In6(a) {
      MappedIsIpv6(a);
    }
  }

  lemma MappedIsIpv6(a: Addr)
    requires Is4In6(a)
    ensures a.family == V6
  {
  }

  /** One right: TCP or UDP ports in order, or ICMP. */
  predicate RightSound(r: ShareTraffic) {
    (r.protocol in {"tcp", "udp"} && 0 < r.firstPort && r.firstPort < r.lastPort + 1 && r.lastPort < 65536) || r == ShareTraffic("icmp", 0, 0)
  }

  /** Some protocol and port is matched by both rights. */
  ghost predicate MatchAlike(r: ShareTraffic, o: ShareTraffic) {
    exists port :: RightMatches(r, r.protocol, port) && RightMatches(o, r.protocol, port)
  }

  /** Up to 128 rights, no two of which match one protocol and port. */
  ghost predicate RightsSound(rights: seq<ShareTraffic>) {
    && rights != [] && |rights| < 129
    && (forall r | r in rights :: RightSound(r))
    && forall i, j | 0 <= i < j < |rights| :: !MatchAlike(rights[i], rights[j])
  }

  lemma RightsAcceptedIff(rights: seq<ShareTraffic>)
    ensures RightsAccepted(rights) <==> RightsSound(rights)
  {
    hide RightsOverlap, MatchAlike;
    assert forall r | r in rights :: RightAccepted(r) <==> RightSound(r);
    if forall i | 0 <= i < |rights| :: RightSound(rights[i]) {
      forall i, j | 0 <= i < j < |rights|
        ensures RightsOverlap(rights[j], rights[i]) <==> MatchAlike(rights[i], rights[j])
      {
        RangesMeet(rights[i], rights[j]);
      }
    }
  }

  lemma RangesMeet(r: ShareTraffic, o: ShareTraffic)
    requires r.firstPort <= r.lastPort && o.firstPort <= o.lastPort
    ensures RightsOverlap(o, r) <==> MatchAlike(r, o)
  {
    var port := if r.firstPort <= o.firstPort then o.firstPort else r.firstPort;
    if RightsOverlap(o, r) {
      assert RightMatches(r, r.protocol, port) && RightMatches(o, r.protocol, port);
    }
  }

  /** The ends of a grant have different identities and keys, no address in common, and a lease. */
  ghost predicate EndsSound(net: Net, g: SharePeerGrant) {
    && (forall text | text in {g.grantId, g.sourceNetworkId, g.sourceNodeId, g.recipientNetworkId, g.recipientNodeId} ::
          text != "" && Trimmed(text) && net.identifier(text))
    && g.sourceNodeId != g.recipientNodeId && g.sourcePublicKey != g.recipientPublicKey
    && net.wireGuardKey(g.sourcePublicKey) && net.wireGuardKey(g.recipientPublicKey)
    && g.initiation == "recipient_only" && g.revision > 0
    && g.issuedAt != 0 && 0 < g.expiresAt - g.issuedAt < 120_000_000_001
  }

  /** A grant is accepted exactly if its ends are sound and have no address in common, and its rights
      are sound. */
  lemma GrantAcceptedIff(net: Net, g: SharePeerGrant)
    ensures GrantAccepted(net, g) <==>
            && EndsSound(net, g)
            && HostsSound(net, g.sourceAllowedIps) && HostsSound(net, g.recipientAllowedIps)
            && (forall l, r, a: Addr | l in g.sourceAllowedIps && r in g.recipientAllowedIps :: !(InRange(net, l, a) && InRange(net, r, a)))
            && RightsSound(g.rights)
  {
    hide HostsAccepted, HostsSound, RightsAccepted, RightsSound, Contains, Overlaps, TrimSpace, Trimmed;
    HostsAcceptedIff(net, g.sourceAllowedIps);
    HostsAcceptedIff(net, g.recipientAllowedIps);
    RightsAcceptedIff(g.rights);
    HeaderIff(net, g);
    ApartIff(net, g.sourceAllowedIps, g.recipientAllowedIps);
  }

  lemma HeaderIff(net: Net, g: SharePeerGrant)
    ensures HeaderAccepted(net, g) <==> EndsSound(net, g)
  {
    hide TrimSpace, Trimmed;
    TrimSpaceIdempotent(g.grantId);
    TrimSpaceIdempotent(g.sourceNetworkId);
    TrimSpaceIdempotent(g.sourceNodeId);
    TrimSpaceIdempotent(g.recipientNetworkId);
    TrimSpaceIdempotent(g.recipientNodeId);
  }

  lemma ApartIff(net: Net, left: seq<string>, right: seq<string>)
    ensures Apart(net, left, right) <==> forall l, r, a: Addr | l in left && r in right :: !(InRange(net, l, a) && InRange(net, r, a))
  {
    hide Contains, Overlaps;
    forall l, r | l in left && r in right && net.parsePrefix(l).Some? && net.parsePrefix(r).Some?
      ensures Overlaps(net.parsePrefix(l).value, net.parsePrefix(r).value) <==> exists a: Addr :: InRange(net, l, a) && InRange(net, r, a)
    {
      OverlapsIffShared(net.parsePrefix(l).value, net.parsePrefix(r).value);
      if a: Addr :| Contains(net.parsePrefix(l).value, a) && Contains(net.parsePrefix(r).value, a) {
        assert InRange(net, l, a) && InRange(net, r, a);
      }
    }
  }

  // ----- a grant in its map -----

  datatype Endpoint = Endpoint(network: string, node: string, key: string, ips: seq<string>)

  predicate IsSource(s: Snapshot, g: SharePeerGrant) {
    s.node.id == g.sourceNodeId && s.network.id == g.sourceNetworkId
  }

  function Source(g: SharePeerGrant): Endpoint {
    Endpoint(g.sourceNetworkId, g.sourceNodeId, g.sourcePublicKey, g.sourceAllowedIps)
  }

  function Recipient(g: SharePeerGrant): Endpoint {
    Endpoint(g.recipientNetworkId, g.recipientNodeId, g.recipientPublicKey, g.recipientAllowedIps)
  }

  /** This node's end of the grant, and the other end. */
  function Local(s: Snapshot, g: SharePeerGrant): Endpoint { if IsSource(s, g) then Source(g) else Recipient(g) }
  function Remote(s: Snapshot, g: SharePeerGrant): Endpoint { if IsSource(s, g) then Recipient(g) else Source(g) }

  /** The node's own addresses as host prefixes, unless one does not parse. */
  function LocalTexts(net: Net, node: Node): Option<seq<string>> {
    var v4 := AddressText(net, node.assignedIp);
    var v6 := AddressText(net, node.assignedIpv6);
    if v4.None? || v6.None? then None else Some(v4.value + v6.value)
  }

  function AddressText(net: Net, text: string): Option<seq<string>> {
    if text == "" then Some([])
    else match net.parseAddr(text)
         case None => None
         case Some(a) => Some([net.showPrefix(Prefix(a, Width(a.family)))])
  }

  ghost predicate LocalBound(net: Net, s: Snapshot, local: Endpoint) {
    && local.network == s.network.id && local.node == s.node.id && local.key == s.node.publicKey
    && LocalTexts(net, s.node).Some? && SamePermutation(LocalTexts(net, s.node).value, local.ips)
  }

  ghost predicate PeerMatches(peer: Peer, remote: Endpoint) {
    peer.networkId == remote.network && peer.publicKey == remote.key && SamePermutation(peer.allowedIps, remote.ips)
  }

  /** The granted peer is present, and whatever carries its ID is that peer. */
  ghost predicate RemoteBound(peers: seq<Peer>, remote: Endpoint) {
    && (exists p | p in peers :: p.id == remote.node)
    && (forall p | p in peers && p.id == remote.node :: PeerMatches(p, remote))
  }

  predicate NoOverlap(net: Net, text: string, prefix: Prefix) {
    net.parsePrefix(text).None? || !Overlaps(net.parsePrefix(text).value, prefix)
  }

  ghost predicate OtherPeerApart(net: Net, peer: Peer, remote: Endpoint, prefix: Prefix) {
    peer.publicKey != remote.key && forall other | other in peer.allowedIps :: NoOverlap(net, other, prefix)
  }

  ghost predicate AddressExclusive(net: Net, s: Snapshot, local: Endpoint, remote: Endpoint, prefix: Prefix) {
    && (remote.network != local.network ==> NoOverlap(net, s.network.cidr, prefix) && NoOverlap(net, s.network.ipv6Cidr, prefix))
    && forall p | p in s.peers && p.id != remote.node :: OtherPeerApart(net, p, remote, prefix)
  }

  ghost predicate GrantBound(net: Net, s: Snapshot, g: SharePeerGrant) {
    && LocalBound(net, s, Local(s, g))
    && RemoteBound(s.peers, Remote(s, g))
    && forall t | t in Remote(s, g).ips && net.parsePrefix(t).Some? ::
         AddressExclusive(net, s, Local(s, g), Remote(s, g), net.parsePrefix(t).value)
  }

  /** A peer of this network, or the remote end of some grant. */
  ghost predicate PeerExplained(s: Snapshot, peer: Peer) {
    || peer.networkId == "" || peer.networkId == s.network.id
    || exists g | g in s.network.sharePeerGrants :: Remote(s, g).node == peer.id
  }

  ghost predicate GrantOk(net: Net, s: Snapshot, g: SharePeerGrant) {
    GrantAccepted(net, g) && GrantBound(net, s, g)
  }

  ghost predicate SharesAccepted(net: Net, s: Snapshot) {
    && (forall g | g in s.network.sharePeerGrants :: GrantOk(net, s, g))
    && DistinctBy(s.network.sharePeerGrants, GrantId)
    && forall p | p in s.peers :: PeerExplained(s, p)
  }

  // ----- the loops -----

  /** Comparing sorted copies compares up to order. */
  method SameIps(net: Net, left: seq<string>, right: seq<string>) returns (same: bool)
    requires LawfulNet(net)
    ensures same <==> SamePermutation(left, right)
  {
    SortForgetsOrder(net.sortStrings, TextKey, left, right);
    return net.sortStrings(left) == net.sortStrings(right);
  }

  method CheckLocal(net: Net, s: Snapshot, local: Endpoint) returns (ok: bool)
    requires LawfulNet(net)
    ensures ok <==> LocalBound(net, s, local)
  {
    if local.network != s.network.id || local.node != s.node.id || local.key != s.node.publicKey {
      return false;
    }
    var texts := LocalTexts(net, s.node);
    if texts.None? {
      return false;
    }
    ok := SameIps(net, texts.value, local.ips);
  }

  method CheckRemote(net: Net, peers: seq<Peer>, remote: Endpoint) returns (ok: bool)
    requires LawfulNet(net)
    ensures ok <==> RemoteBound(peers, remote)
  {
    hide LawfulNet;
    var found := false;
    for i := 0 to |peers|
      invariant found <==> exists j | 0 <= j < i :: peers[j].id == remote.node
      invariant forall j | 0 <= j < i && peers[j].id == remote.node :: PeerMatches(peers[j], remote)
    {
      if peers[i].id == remote.node {
        assert peers[i] in peers;
        var same := SameIps(net, peers[i].allowedIps, remote.ips);
        if peers[i].networkId != remote.network || peers[i].publicKey != remote.key || !same {
          return false;
        }
        found := true;
      }
    }
    if found {
      var j :| 0 <= j < |peers| && peers[j].id == remote.node;
      assert peers[j] in peers;
    }
    return found;
  }

  method CheckOtherPeers(net: Net, peers: seq<Peer>, remote: Endpoint, prefix: Prefix) returns (ok: bool)
    ensures ok <==> forall p | p in peers && p.id != remote.node :: OtherPeerApart(net, p, remote, prefix)
  {
    hide NoOverlap;
    for i := 0 to |peers|
      invariant forall j | 0 <= j < i && peers[j].id != remote.node :: OtherPeerApart(net, peers[j], remote, prefix)
    {
      var peer := peers[i];
      assert peer in peers;
      if peer.id != remote.node {
        if peer.publicKey == remote.key {
          return false;
        }
        for j := 0 to |peer.allowedIps|
          invariant forall k | 0 <= k < j :: NoOverlap(net, peer.allowedIps[k], prefix)
        {
          if !NoOverlap(net, peer.allowedIps[j], prefix) {
            assert peer.allowedIps[j] in peer.allowedIps;
            return false;
          }
        }
      }
    }
    return true;
  }

  method CheckBound(net: Net, s: Snapshot, g: SharePeerGrant) returns (ok: bool)
    requires LawfulNet(net) && GrantAccepted(net, g)
    ensures ok <==> GrantBound(net, s, g)
  {
    hide LawfulNet, NoOverlap, LocalTexts, OtherPeerApart, HostText, Apart, RightsAccepted, HeaderAccepted, SamePermutation;
    var local, remote := Local(s, g), Remote(s, g);
    assert HostsAccepted(net, remote.ips);
    ok := CheckLocal(net, s, local);
    if !ok {
      return;
    }
    ok := CheckRemote(net, s.peers, remote);
    if !ok {
      return;
    }
    for i := 0 to |remote.ips|
      invariant forall j | 0 <= j < i && net.parsePrefix(remote.ips[j]).Some? ::
                  AddressExclusive(net, s, local, remote, net.parsePrefix(remote.ips[j]).value)
    {
      assert remote.ips[i] in remote.ips;
      HostTextParses(net, remote.ips[i]);
      var prefix := net.parsePrefix(remote.ips[i]).value;
      if remote.network != local.network && !(NoOverlap(net, s.network.cidr, prefix) && NoOverlap(net, s.network.ipv6Cidr, prefix)) {
        return false;
      }
      var others := CheckOtherPeers(net, s.peers, remote, prefix);
      if !others {
        return false;
      }
    }
    return true;
  }

  lemma HostTextParses(net: Net, text: string)
    requires HostText(net, text)
    ensures net.parsePrefix(text).Some?
  {
  }

  method CheckGrant(net: Net, s: Snapshot, g: SharePeerGrant) returns (ok: bool)
    requires LawfulNet(net)
    ensures ok <==> GrantOk(net, s, g)
  {
    hide LawfulNet, GrantAccepted, GrantBound;
    ok := ValidateGrant(net, g);
    if ok {
      ok := CheckBound(net, s, g);
    }
  }

  function RemoteNodes(s: Snapshot, grants: seq<SharePeerGrant>): set<string> {
    set g | g in grants :: Remote(s, g).node
  }

  lemma RemoteNodesSnoc(s: Snapshot, grants: seq<SharePeerGrant>, i: nat)
    requires i < |grants|
    ensures RemoteNodes(s, grants[..i + 1]) == RemoteNodes(s, grants[..i]) + {Remote(s, grants[i]).node}
  {
    hide Remote;
    assert grants[..i + 1] == grants[..i] + [grants[i]];
  }

  method CheckGrants(net: Net, s: Snapshot, grants: seq<SharePeerGrant>) returns (ok: bool, bound: set<string>)
    requires LawfulNet(net)
    ensures ok <==> (forall g | g in grants :: GrantOk(net, s, g)) && DistinctBy(grants, GrantId)
    ensures ok ==> bound == RemoteNodes(s, grants)
  {
    hide LawfulNet, GrantOk, RemoteNodes, Remote;
    bound := {};
    NoRemoteNodes(s);
    assert grants[..0] == [];
    var seen: set<string> := {};
    for i := 0 to |grants|
      invariant forall j | 0 <= j < i :: GrantOk(net, s, grants[j]) && GrantId(grants[j]) in seen
      invariant forall k | k in seen :: exists j | 0 <= j < i :: GrantId(grants[j]) == k
      invariant forall j, k | 0 <= j < k < i :: GrantId(grants[j]) != GrantId(grants[k])
      invariant bound == RemoteNodes(s, grants[..i])
    {
      assert grants[i] in grants;
      var good := CheckGrant(net, s, grants[i]);
      if !good || GrantId(grants[i]) in seen {
        return false, bound;
      }
      seen := seen + {GrantId(grants[i])};
      bound := bound + {Remote(s, grants[i]).node};
      RemoteNodesSnoc(s, grants, i);
    }
    assert grants[..|grants|] == grants;
    ok := true;
  }

  lemma NoRemoteNodes(s: Snapshot)
    ensures RemoteNodes(s, []) == {}
  {
  }

  method ValidateSharePeerGrants(net: Net, s: Snapshot) returns (ok: bool)
    requires LawfulNet(net)
    ensures ok <==> SharesAccepted(net, s)
  {
    hide LawfulNet, GrantAccepted, GrantBound, PeerExplained;
    var bound;
    ok, bound := CheckGrants(net, s, s.network.sharePeerGrants);
    if ok {
      ok := CheckExplained(s, bound);
    }
  }

  method CheckExplained(s: Snapshot, bound: set<string>) returns (ok: bool)
    requires bound == RemoteNodes(s, s.network.sharePeerGrants)
    ensures ok <==> forall p | p in s.peers :: PeerExplained(s, p)
  {
    hide Remote;
    for i := 0 to |s.peers|
      invariant forall j | 0 <= j < i :: PeerExplained(s, s.peers[j])
    {
      var peer := s.peers[i];
      assert peer in s.peers;
      if peer.networkId != "" && peer.networkId != s.network.id && peer.id !in bound {
        return false;
      }
    }
    return true;
  }

  // ----- leases -----

  predicate LeaseOpen(g: SharePeerGrant, now: Time) {
    g.issuedAt <= now < g.expiresAt
  }

  ghost predicate SharesAcceptedAt(net: Net, s: Snapshot, now: Time) {
    SharesAccepted(net, s) && forall g | g in s.network.sharePeerGrants :: LeaseOpen(g, now)
  }

  method ValidateSharePeerGrantsAt(net: Net, s: Snapshot, now: Time) returns (ok: bool)
    requires LawfulNet(net)
    ensures ok <==> SharesAcceptedAt(net, s, now)
  {
    hide SharesAccepted, LawfulNet;
    ok := ValidateSharePeerGrants(net, s);
    if !ok {
      return;
    }
    for i := 0 to |s.network.sharePeerGrants|
      invariant forall j | 0 <= j < i :: LeaseOpen(s.network.sharePeerGrants[j], now)
    {
      if !LeaseOpen(s.network.sharePeerGrants[i], now) {
        assert s.network.sharePeerGrants[i] in s.network.sharePeerGrants;
        return false;
      }
    }
  }

  // ----- rights -----

  predicate RightMatches(r: ShareTraffic, protocol: string, port: nat) {
    r.protocol == protocol && r.firstPort <= port <= r.lastPort
  }

  /** The ports the rights open for a protocol, as a set, and the widths of their ranges added up. */
  ghost function Ports(rights: seq<ShareTraffic>, protocol: string): set<nat> {
    if rights == [] then {}
    else Ports(rights[1..], protocol) + (if rights[0].protocol == protocol then Range(rights[0].firstPort, rights[0].lastPort) else {})
  }

  function Range(first: nat, last: nat): (r: set<nat>)
    ensures forall p :: p in r <==> first <= p <= last
    decreases last + 1 - first
  {
    if first > last then {} else {first} + Range(first + 1, last)
  }

  function Widths(rights: seq<ShareTraffic>, protocol: string): nat {
    if rights == [] then 0
    else Widths(rights[1..], protocol) +
         (if rights[0].protocol == protocol && rights[0].firstPort <= rights[0].lastPort
          then rights[0].lastPort - rights[0].firstPort + 1 else 0)
  }

  lemma {:induction false} RangeSize(first: nat, last: nat)
    requires first <= last + 1
    ensures |Range(first, last)| == last + 1 - first
    decreases last + 1 - first
  {
    if first == last + 1 {
      assert Range(first, last) == {};
    } else {
      RangeSize(first + 1, last);
      assert Range(first, last) == {first} + Range(first + 1, last);
    }
  }

  lemma {:induction false} PortsMembers(rights: seq<ShareTraffic>, protocol: string, port: nat)
    ensures port in Ports(rights, protocol) <==> exists i | 0 <= i < |rights| :: RightMatches(rights[i], protocol, port)
  {
    if rights != [] {
      PortsMembers(rights[1..], protocol, port);
      if i :| 0 <= i < |rights| && RightMatches(rights[i], protocol, port) {
        assert i == 0 || rights[1..][i - 1] == rights[i];
      }
      if port in Ports(rights[1..], protocol) {
        var i :| 0 <= i < |rights[1..]| && RightMatches(rights[1..][i], protocol, port);
        assert rights[i + 1] == rights[1..][i];
      }
    }
  }

  ghost predicate Separate(rights: seq<ShareTraffic>) {
    && (forall i | 0 <= i < |rights| :: RightAccepted(rights[i]))
    && (forall i, j | 0 <= i < j < |rights| :: !RightsOverlap(rights[j], rights[i]))
  }

  lemma FirstIsApart(rights: seq<ShareTraffic>, protocol: string)
    requires Separate(rights) && rights != [] && rights[0].protocol == protocol
    ensures Ports(rights[1..], protocol) !! Range(rights[0].firstPort, rights[0].lastPort)
  {
    hide Range, Ports;
    var first, rest := rights[0], rights[1..];
    forall port | port in Ports(rest, protocol)
      ensures port !in Range(first.firstPort, first.lastPort)
    {
      PortsMembers(rest, protocol, port);
      var i :| 0 <= i < |rest| && RightMatches(rest[i], protocol, port);
      assert rest[i] == rights[i + 1] && !RightsOverlap(rights[i + 1], rights[0]);
    }
  }

  lemma {:induction false} WidthsCountPorts(rights: seq<ShareTraffic>, protocol: string)
    requires Separate(rights)
    ensures Widths(rights, protocol) == |Ports(rights, protocol)|
  {
    if rights != [] {
      var first, rest := rights[0], rights[1..];
      assert Separate(rest) by {
        assert forall i | 0 <= i < |rest| :: rest[i] == rights[i + 1];
      }
      WidthsCountPorts(rest, protocol);
      if first.protocol == protocol {
        RangeSize(first.firstPort, first.lastPort);
        FirstIsApart(rights, protocol);
      }
    }
  }

  /** In a valid grant no port is opened twice: a (protocol, port) is matched by at most one right,
      the ranges of a protocol together are as wide as the set of ports they open, and that is never
      more than all ports; ICMP is granted at most once. */
  lemma RightsBound(net: Net, g: SharePeerGrant, protocol: string)
    requires GrantAccepted(net, g)
    ensures forall i, j, port: nat | 0 <= i < |g.rights| && 0 <= j < |g.rights| &&
              RightMatches(g.rights[i], protocol, port) && RightMatches(g.rights[j], protocol, port) :: i == j
    ensures Widths(g.rights, protocol) == |Ports(g.rights, protocol)|
    ensures protocol == "tcp" || protocol == "udp" ==> Widths(g.rights, protocol) <= 65535
    ensures forall i, j | 0 <= i < j < |g.rights| :: !(g.rights[i].protocol == "icmp" && g.rights[j].protocol == "icmp")
  {
    var rights := g.rights;
    assert Separate(rights) by {
      assert forall i | 0 <= i < |rights| :: rights[i] in rights;
    }
    forall i, j, port: nat | 0 <= i < |rights| && 0 <= j < |rights| &&
      RightMatches(rights[i], protocol, port) && RightMatches(rights[j], protocol, port)
      ensures i == j
    {
      assert i < j ==> !RightsOverlap(rights[j], rights[i]);
      assert j < i ==> !RightsOverlap(rights[i], rights[j]);
    }
    forall i, j | 0 <= i < j < |rights|
      ensures !(rights[i].protocol == "icmp" && rights[j].protocol == "icmp")
    {
      assert !RightsOverlap(rights[j], rights[i]);
    }
    WidthsCountPorts(rights, protocol);
    if protocol == "tcp" || protocol == "udp" {
      forall port | port in Ports(rights, protocol)
        ensures port in Range(1, 65535)
      {
        PortsMembers(rights, protocol, port);
      }
      RangeSize(1, 65535);
      SubsetSize(Ports(rights, protocol), Range(1, 65535));
    }
  }

  lemma {:induction false} SubsetSize(a: set<nat>, b: set<nat>)
    requires a <= b
    ensures |a| <= |b|
  {
    if a != {} {
      var x :| x in a;
      SubsetSize(a - {x}, b - {x});
    }
  }

  // ----- routing -----

  lemma NoOverlapMeans(net: Net, text: string, prefix: Prefix, a: Addr)
    requires NoOverlap(net, text, prefix) && Contains(prefix, a)
    ensures !InRange(net, text, a)
  {
    if net.parsePrefix(text).Some? {
      OverlapsIffShared(net.parsePrefix(text).value, prefix);
    }
  }

  lemma OtherPeerDoesNotCarry(net: Net, peer: Peer, remote: Endpoint, prefix: Prefix, a: Addr)
    requires OtherPeerApart(net, peer, remote, prefix) && Contains(prefix, a)
    ensures !Carries(net, peer, a) && peer.publicKey != remote.key
  {
    hide NoOverlap, Contains;
    forall t | t in peer.allowedIps
      ensures !InRange(net, t, a)
    {
      NoOverlapMeans(net, t, prefix, a);
    }
  }

  lemma ApartMeans(net: Net, left: seq<string>, right: seq<string>, l: string, r: string)
    requires Apart(net, left, right) && l in left && r in right && HostText(net, l) && HostText(net, r)
    ensures HostOf(net, l) != HostOf(net, r)
  {
    var p, q := net.parsePrefix(l).value, net.parsePrefix(r).value;
    OverlapsIffShared(p, q);
    HostIsItself(p, p.addr);
    HostIsItself(q, p.addr);
  }

  /** One of the addresses the map assigns to this node. */
  ghost predicate Own(net: Net, node: Node, a: Addr) {
    (node.assignedIp != "" && net.parseAddr(node.assignedIp) == Some(a)) || (node.assignedIpv6 != "" && net.parseAddr(node.assignedIpv6) == Some(a))
  }

  /** The local end of a grant is this node, under its current key, with exactly its assigned addresses. */
  lemma LocalEndIsThisNode(net: Net, s: Snapshot, local: Endpoint)
    requires LawfulNet(net) && LocalBound(net, s, local)
    ensures local.network == s.network.id && local.node == s.node.id && local.key == s.node.publicKey
    ensures s.node.assignedIp != "" ==> net.parseAddr(s.node.assignedIp).Some?
    ensures s.node.assignedIpv6 != "" ==> net.parseAddr(s.node.assignedIpv6).Some?
    ensures forall a: Addr :: Own(net, s.node, a) <==> exists t | t in local.ips :: net.parsePrefix(t) == Some(Prefix(a, Width(a.family)))
  {
    var texts := LocalTexts(net, s.node).value;
    MembersOfPermutation(texts, local.ips);
    forall a: Addr
      ensures Own(net, s.node, a) <==> exists t | t in texts :: net.parsePrefix(t) == Some(Prefix(a, Width(a.family)))
    {
      var text := net.showPrefix(Prefix(a, Width(a.family)));
      assert net.parsePrefix(text) == Some(Prefix(a, Width(a.family)));
      if Own(net, s.node, a) {
        assert text in texts;
      }
    }
  }

  /** The local end is the end with this node's identity in this network, whichever it is. */
  lemma LocalIsThisNode(s: Snapshot, g: SharePeerGrant)
    requires g.sourceNodeId != g.recipientNodeId
    ensures g.sourceNodeId == s.node.id && g.sourceNetworkId == s.network.id ==> Local(s, g) == Source(g) && Remote(s, g) == Recipient(g)
    ensures g.recipientNodeId == s.node.id && g.recipientNetworkId == s.network.id ==> Local(s, g) == Recipient(g) && Remote(s, g) == Source(g)
  {
  }

  /** The local end is accepted exactly if it is this node under its current key, and its texts are
      those of the node's assigned addresses, which parse and differ. */
  lemma LocalBoundIff(net: Net, s: Snapshot, local: Endpoint)
    requires LawfulNet(net) && HostsAccepted(net, local.ips)
    ensures LocalBound(net, s, local) <==>
            && local.network == s.network.id && local.node == s.node.id && local.key == s.node.publicKey
            && (s.node.assignedIp != "" ==> net.parseAddr(s.node.assignedIp).Some?)
            && (s.node.assignedIpv6 != "" ==> net.parseAddr(s.node.assignedIpv6).Some?)
            && (s.node.assignedIp != "" && s.node.assignedIpv6 != "" ==> net.parseAddr(s.node.assignedIp) != net.parseAddr(s.node.assignedIpv6))
            && (forall a: Addr :: Own(net, s.node, a) <==> exists t | t in local.ips :: net.parsePrefix(t) == Some(Prefix(a, Width(a.family))))
  {
    hide HostText, LawfulNet, Own, SamePermutation;
    if LocalTexts(net, s.node).Some? && local.network == s.network.id && local.node == s.node.id && local.key == s.node.publicKey {
      HostsDistinct(net, local.ips);
      if LocalBound(net, s, local) {
        LocalEndIsThisNode(net, s, local);
        TwoAddresses(net, s.node, local.ips);
      } else if net.parseAddr(s.node.assignedIp) != net.parseAddr(s.node.assignedIpv6) || s.node.assignedIp == "" || s.node.assignedIpv6 == "" {
        if forall a: Addr :: Own(net, s.node, a) <==> exists t | t in local.ips :: net.parsePrefix(t) == Some(Prefix(a, Width(a.family))) {
          OwnTextsPermute(net, s.node, local.ips);
        }
      }
    }
  }

  lemma HostsDistinct(net: Net, texts: seq<string>)
    requires HostsAccepted(net, texts)
    ensures DistinctBy(texts, Itself)
  {
    hide HostText;
  }

  lemma ShowsDifferently(net: Net, a: Addr, b: Addr)
    requires LawfulNet(net) && a != b
    ensures net.showPrefix(Prefix(a, Width(a.family))) != net.showPrefix(Prefix(b, Width(b.family)))
  {
    assert net.parsePrefix(net.showPrefix(Prefix(a, Width(a.family)))) == Some(Prefix(a, Width(a.family)));
    assert net.parsePrefix(net.showPrefix(Prefix(b, Width(b.family)))) == Some(Prefix(b, Width(b.family)));
  }

  /** Two assigned addresses with one text would make the local end repeat it. */
  lemma TwoAddresses(net: Net, node: Node, texts: seq<string>)
    requires LocalTexts(net, node).Some? && SamePermutation(LocalTexts(net, node).value, texts) && DistinctBy(texts, Itself)
    ensures node.assignedIp != "" && node.assignedIpv6 != "" ==> net.parseAddr(node.assignedIp) != net.parseAddr(node.assignedIpv6)
  {
    var own := LocalTexts(net, node).value;
    DistinctPermutation(texts, own, Itself);
    if node.assignedIp != "" && node.assignedIpv6 != "" {
      assert |own| == 2 && Itself(own[0]) != Itself(own[1]);
    }
  }

  lemma OwnTextsPermute(net: Net, node: Node, texts: seq<string>)
    requires LawfulNet(net) && HostsAccepted(net, texts) && DistinctBy(texts, Itself) && LocalTexts(net, node).Some?
    requires node.assignedIp != "" && node.assignedIpv6 != "" ==> net.parseAddr(node.assignedIp) != net.parseAddr(node.assignedIpv6)
    requires forall a: Addr :: Own(net, node, a) <==> exists t | t in texts :: net.parsePrefix(t) == Some(Prefix(a, Width(a.family)))
    ensures SamePermutation(LocalTexts(net, node).value, texts)
  {
    hide PlainUnicast, LawfulNet, SamePermutation;
    var own := LocalTexts(net, node).value;
    if node.assignedIp != "" && node.assignedIpv6 != "" {
      ShowsDifferently(net, net.parseAddr(node.assignedIp).value, net.parseAddr(node.assignedIpv6).value);
    }
    assert DistinctBy(own, Itself);
    forall x
      ensures x in own <==> x in texts
    {
      OwnText(net, node, texts, x);
    }
    SameMembersPermute(own, texts, Itself);
  }

  lemma OwnText(net: Net, node: Node, texts: seq<string>, x: string)
    requires LawfulNet(net) && HostsAccepted(net, texts) && LocalTexts(net, node).Some?
    requires forall a: Addr :: Own(net, node, a) <==> exists t | t in texts :: net.parsePrefix(t) == Some(Prefix(a, Width(a.family)))
    ensures x in LocalTexts(net, node).value <==> x in texts
  {
    hide PlainUnicast;
    var own := LocalTexts(net, node).value;
    if x in own {
      var a: Addr := net.parsePrefix(x).value.addr;
      assert exists a: Addr :: Own(net, node, a) && x == net.showPrefix(Prefix(a, Width(a.family)));
      var b: Addr :| Own(net, node, b) && x == net.showPrefix(Prefix(b, Width(b.family)));
      var t :| t in texts && net.parsePrefix(t) == Some(Prefix(b, Width(b.family)));
      assert HostText(net, t);
    }
    if x in texts {
      assert HostText(net, x);
      var a := HostOf(net, x);
      assert net.parsePrefix(x) == Some(Prefix(a, Width(a.family)));
      assert Own(net, node, a);
    }
  }

  /** The address is carried by exactly one peer, the remote end of the grant, whose key no other peer
      has; it is neither one of this node's assigned addresses nor, when the remote end is another network,
      inside this network's ranges. */
  ghost predicate Unambiguous(net: Net, s: Snapshot, g: SharePeerGrant, text: string) {
    && HostText(net, text)
    && (exists peer | peer in s.peers ::
          && peer.id == Remote(s, g).node && peer.networkId == Remote(s, g).network
          && peer.publicKey == Remote(s, g).key && peer.id != s.node.id
          && Carries(net, peer, HostOf(net, text))
          && (forall q | q in s.peers && Carries(net, q, HostOf(net, text)) :: q == peer)
          && (forall q | q in s.peers && q.publicKey == Remote(s, g).key :: q == peer))
    && !Own(net, s.node, HostOf(net, text))
    && (Remote(s, g).network != s.network.id ==>
          !InRange(net, s.network.cidr, HostOf(net, text)) && !InRange(net, s.network.ipv6Cidr, HostOf(net, text)))
  }

  /** Shared routing is unambiguous in every accepted map. */
  lemma SharedAddressHasOnePeer(net: Net, s: Snapshot, g: SharePeerGrant, text: string)
    requires LawfulNet(net) && SharesAccepted(net, s) && DistinctBy(s.peers, PeerId)
    requires g in s.network.sharePeerGrants && text in Remote(s, g).ips
    ensures Unambiguous(net, s, g, text)
  {
    hide RightsAccepted, HeaderAccepted, PlainUnicast, Overlaps, Contains, PeerExplained, LocalTexts, NoOverlap, Apart, LawfulNet, Own;
    assert GrantOk(net, s, g);
    var local, remote := Local(s, g), Remote(s, g);
    EndsDiffer(net, s, g);
    assert HostsAccepted(net, remote.ips) && HostsAccepted(net, local.ips);
    var prefix, a := net.parsePrefix(text).value, HostOf(net, text);
    assert Contains(prefix, a) by { ContainsOwnAddress(prefix); }
    assert AddressExclusive(net, s, local, remote, prefix);
    var peer :| peer in s.peers && peer.id == remote.node;
    assert PeerMatches(peer, remote);
    MembersOfPermutation(peer.allowedIps, remote.ips);
    assert Carries(net, peer, a) by { assert text in peer.allowedIps; }
    forall q | q in s.peers && (Carries(net, q, a) || q.publicKey == remote.key)
      ensures q == peer
    {
      if q.id != remote.node {
        OtherPeerDoesNotCarry(net, q, remote, prefix, a);
      } else {
        SameId(s.peers, PeerId, q, peer);
      }
    }
    LocalEndIsThisNode(net, s, local);
    if Own(net, s.node, a) {
      var own :| own in local.ips && net.parsePrefix(own) == Some(Prefix(a, Width(a.family)));
      OwnAddressDiffers(net, s, g, own, text);
    }
    if remote.network != s.network.id {
      NoOverlapMeans(net, s.network.cidr, prefix, a);
      NoOverlapMeans(net, s.network.ipv6Cidr, prefix, a);
    }
  }

  lemma EndsDiffer(net: Net, s: Snapshot, g: SharePeerGrant)
    requires GrantAccepted(net, g) && LocalBound(net, s, Local(s, g))
    ensures Remote(s, g).node != s.node.id && Remote(s, g).key != s.node.publicKey
  {
  }

  lemma OwnAddressDiffers(net: Net, s: Snapshot, g: SharePeerGrant, own: string, text: string)
    requires GrantAccepted(net, g) && own in Local(s, g).ips && text in Remote(s, g).ips
    ensures HostText(net, own) && HostText(net, text) && HostOf(net, own) != HostOf(net, text)
  {
    hide PlainUnicast, Apart;
    if IsSource(s, g) {
      ApartMeans(net, g.sourceAllowedIps, g.recipientAllowedIps, own, text);
    } else {
      ApartMeans(net, g.sourceAllowedIps, g.recipientAllowedIps, text, own);
    }
  }

  /** No peer but the granted one has its key or is routed one of its addresses, and the ranges of this
      network hold none of them when it is another network. */
  ghost predicate Exclusive(net: Net, s: Snapshot, remote: Endpoint) {
    && (forall q | q in s.peers && q.id != remote.node :: q.publicKey != remote.key)
    && (forall q, t, a: Addr | q in s.peers && q.id != remote.node && t in remote.ips && InRange(net, t, a) :: !Carries(net, q, a))
    && (remote.network != s.network.id ==>
          forall t, a: Addr | t in remote.ips && InRange(net, t, a) :: !InRange(net, s.network.cidr, a) && !InRange(net, s.network.ipv6Cidr, a))
  }

  /** A sound grant is bound exactly if its local end is this node, its remote end is a peer of the map
      with exactly its network, key and addresses, and that peer is exclusive. */
  lemma GrantBoundIff(net: Net, s: Snapshot, g: SharePeerGrant)
    requires GrantAccepted(net, g) && DistinctBy(s.peers, PeerId)
    ensures GrantBound(net, s, g) <==>
            && LocalBound(net, s, Local(s, g))
            && (exists peer | peer in s.peers :: peer.id == Remote(s, g).node && PeerMatches(peer, Remote(s, g)))
            && Exclusive(net, s, Remote(s, g))
  {
    hide PeerMatches, LocalTexts, HostText, NoOverlap, OtherPeerApart, RightsAccepted, HeaderAccepted, Apart, Contains, InRange, Carries;
    var remote := Remote(s, g);
    if peer :| peer in s.peers && peer.id == remote.node && PeerMatches(peer, remote) {
      forall p | p in s.peers && p.id == remote.node
        ensures p == peer
      {
        SameId(s.peers, PeerId, p, peer);
      }
    }
    assert HostsAccepted(net, remote.ips);
    assert remote.ips[0] in remote.ips;
    assert (exists peer | peer in s.peers :: peer.id == remote.node && PeerMatches(peer, remote)) <==> RemoteBound(s.peers, remote);
    if LocalBound(net, s, Local(s, g)) {
      forall t | t in remote.ips
        ensures net.parsePrefix(t).Some?
        ensures AddressExclusive(net, s, Local(s, g), remote, net.parsePrefix(t).value) <==>
                && (forall q | q in s.peers && q.id != remote.node :: q.publicKey != remote.key)
                && (forall q, a: Addr | q in s.peers && q.id != remote.node && InRange(net, t, a) :: !Carries(net, q, a))
                && (remote.network != s.network.id ==>
                      forall a: Addr | InRange(net, t, a) :: !InRange(net, s.network.cidr, a) && !InRange(net, s.network.ipv6Cidr, a))
      {
        HostTextParses(net, t);
        AddressExclusiveIff(net, s, Local(s, g), remote, t);
      }
    }
  }

  lemma AddressExclusiveIff(net: Net, s: Snapshot, local: Endpoint, remote: Endpoint, t: string)
    requires net.parsePrefix(t).Some? && local.network == s.network.id
    ensures AddressExclusive(net, s, local, remote, net.parsePrefix(t).value) <==>
            && (forall q | q in s.peers && q.id != remote.node :: q.publicKey != remote.key)
            && (forall q, a: Addr | q in s.peers && q.id != remote.node && InRange(net, t, a) :: !Carries(net, q, a))
            && (remote.network != s.network.id ==>
                  forall a: Addr | InRange(net, t, a) :: !InRange(net, s.network.cidr, a) && !InRange(net, s.network.ipv6Cidr, a))
  {
    hide NoOverlap, Contains;
    var prefix := net.parsePrefix(t).value;
    NoOverlapIff(net, s.network.cidr, prefix);
    NoOverlapIff(net, s.network.ipv6Cidr, prefix);
    forall q | q in s.peers
      ensures (forall other | other in q.allowedIps :: NoOverlap(net, other, prefix)) <==>
              forall a: Addr | Contains(prefix, a) :: !Carries(net, q, a)
    {
      CarriesNone(net, q, prefix);
    }
  }

  lemma CarriesNone(net: Net, q: Peer, prefix: Prefix)
    ensures (forall other | other in q.allowedIps :: NoOverlap(net, other, prefix)) <==>
            forall a: Addr | Contains(prefix, a) :: !Carries(net, q, a)
  {
    hide NoOverlap, Contains;
    forall other | other in q.allowedIps
      ensures NoOverlap(net, other, prefix) <==> forall a: Addr | Contains(prefix, a) :: !InRange(net, other, a)
    {
      NoOverlapIff(net, other, prefix);
    }
  }

  lemma NoOverlapIff(net: Net, text: string, prefix: Prefix)
    ensures NoOverlap(net, text, prefix) <==> forall a: Addr | Contains(prefix, a) :: !InRange(net, text, a)
  {
    hide Contains, Overlaps;
    if net.parsePrefix(text).Some? {
      OverlapsIffShared(net.parsePrefix(text).value, prefix);
    }
  }

  /** What every grant of an accepted map says: it ties this node, in this network and under its
      current key, to another identity with another key, for at most two minutes, and only the recipient
      may start a connection; each end has one or two addresses, at most one of each family. */
  ghost predicate TiedHere(net: Net, s: Snapshot, g: SharePeerGrant) {
    && Local(s, g).network == s.network.id && Local(s, g).node == s.node.id && Local(s, g).key == s.node.publicKey
    && Remote(s, g).node != s.node.id && Remote(s, g).key != s.node.publicKey
    && net.wireGuardKey(Local(s, g).key) && net.wireGuardKey(Remote(s, g).key)
    && (forall text | text in {g.grantId, g.sourceNetworkId, g.sourceNodeId, g.recipientNetworkId, g.recipientNodeId} ::
          text != "" && Trimmed(text) && net.identifier(text))
    && g.initiation == "recipient_only" && g.revision > 0
    && g.issuedAt != 0 && 0 < g.expiresAt - g.issuedAt <= 120_000_000_000
    && 1 <= |g.rights| <= 128
    && 1 <= |Local(s, g).ips| <= 2 && 1 <= |Remote(s, g).ips| <= 2
    && (forall ips, a, b | ips in [Local(s, g).ips, Remote(s, g).ips] && a in ips && b in ips && a != b ::
          HostText(net, a) && HostText(net, b) && HostOf(net, a).family != HostOf(net, b).family)
  }

  lemma GrantIsTiedHere(net: Net, s: Snapshot, g: SharePeerGrant)
    requires LawfulNet(net) && SharesAccepted(net, s) && g in s.network.sharePeerGrants
    ensures TiedHere(net, s, g)
    ensures forall other | other in s.network.sharePeerGrants && other.grantId == g.grantId :: other == g
  {
    hide HostText, Apart, LocalTexts, AddressExclusive, SamePermutation, TrimSpace, LawfulNet;
    assert GrantOk(net, s, g);
    EndsDiffer(net, s, g);
    IdentitiesTrimmed(net, g);
    FamiliesDiffer(net, g.sourceAllowedIps);
    FamiliesDiffer(net, g.recipientAllowedIps);
    forall other | other in s.network.sharePeerGrants && other.grantId == g.grantId
      ensures other == g
    {
      SameId(s.network.sharePeerGrants, GrantId, other, g);
    }
  }

  lemma IdentitiesTrimmed(net: Net, g: SharePeerGrant)
    requires HeaderAccepted(net, g)
    ensures forall text | text in {g.grantId, g.sourceNetworkId, g.sourceNodeId, g.recipientNetworkId, g.recipientNodeId} ::
              text != "" && Trimmed(text) && net.identifier(text)
  {
    hide TrimSpace, Trimmed;
    forall text | text in {g.grantId, g.sourceNetworkId, g.sourceNodeId, g.recipientNetworkId, g.recipientNodeId}
      ensures text != "" && Trimmed(text) && net.identifier(text)
    {
      assert IdentityText(net, text);
      TrimSpaceIdempotent(text);
    }
  }

  lemma FamiliesDiffer(net: Net, texts: seq<string>)
    requires HostsAccepted(net, texts)
    ensures forall a, b | a in texts && b in texts && a != b ::
              HostText(net, a) && HostText(net, b) && HostOf(net, a).family != HostOf(net, b).family
  {
    hide HostText;
    forall a, b | a in texts && b in texts && a != b
      ensures HostText(net, a) && HostText(net, b) && HostOf(net, a).family != HostOf(net, b).family
    {
      var i :| 0 <= i < |texts| && texts[i] == a;
      var j :| 0 <= j < |texts| && texts[j] == b;
      if i < j {
        assert HostOf(net, texts[i]).family != HostOf(net, texts[j]).family;
      } else {
        assert HostOf(net, texts[j]).family != HostOf(net, texts[i]).family;
      }
    }
  }

  /** The peer is the remote end of a grant of another network, and has the network, key and exact
      addresses that grant names. */
  ghost predicate Granted(s: Snapshot, peer: Peer) {
    exists g | g in s.network.sharePeerGrants ::
      Remote(s, g).node == peer.id && PeerMatches(peer, Remote(s, g)) && Remote(s, g).network != s.network.id
  }

  /** Every peer of another network is granted. */
  lemma ForeignPeerIsGranted(net: Net, s: Snapshot, peer: Peer)
    requires SharesAccepted(net, s) && peer in s.peers
    requires peer.networkId != "" && peer.networkId != s.network.id
    ensures Granted(s, peer)
  {
    hide GrantAccepted, Remote, LocalBound, AddressExclusive, SamePermutation;
    assert PeerExplained(s, peer);
    var g :| g in s.network.sharePeerGrants && Remote(s, g).node == peer.id;
    assert GrantOk(net, s, g);
    assert PeerMatches(peer, Remote(s, g));
  }

  // ----- order -----

  /** The sharing checks look at the peers as a collection, not as a list. */
  lemma SharesIgnoreOrder(net: Net, a: Snapshot, b: Snapshot)
    requires a.network == b.network && a.node == b.node && SamePermutation(a.peers, b.peers)
    requires SharesAccepted(net, a)
    ensures SharesAccepted(net, b)
  {
    hide GrantAccepted, LocalTexts, OtherPeerApart, NoOverlap, PeerMatches;
    MembersOfPermutation(a.peers, b.peers);
    forall g | g in b.network.sharePeerGrants
      ensures GrantOk(net, b, g)
    {
      assert GrantOk(net, a, g);
      assert Local(a, g) == Local(b, g) && Remote(a, g) == Remote(b, g);
      assert GrantBound(net, a, g);
    }
    forall p | p in b.peers
      ensures PeerExplained(b, p)
    {
      assert PeerExplained(a, p);
    }
  }
}
