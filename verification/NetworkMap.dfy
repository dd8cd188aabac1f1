/** The records of a signed network map and of the stream that keeps it up to date
    (clientapi/v1/types.go, clientapi/v1/sharing.go, clientapi/v1/signing_trust.go).
    Go slices are sequences, pointers are options, and an instant is a number of nanoseconds
    since the zero time. */
module NetworkMap {
  import opened Outcomes

  type Time = int

  const SECOND: int := 1_000_000_000
  const MINUTE: int := 60 * SECOND

  datatype MapRevision = MapRevision(network: nat, global: nat)

  datatype DnsNameserver = DnsNameserver(id: string, address: string, scope: string, priority: nat, splitDomains: seq<string>)

  datatype DnsConfig = DnsConfig(
    magicDnsEnabled: bool, httpsCertsEnabled: bool, overrideLocalDns: bool, suffix: string,
    nameservers: seq<DnsNameserver>, searchDomains: seq<string>)

  /** An identity bound by its current key. */
  datatype ServiceHost = ServiceHost(nodeId: string, publicKey: string)

  datatype ApplicationRoute = ApplicationRoute(connector: ServiceHost, cidrs: seq<string>, expiresAt: Time)

  datatype Application = Application(
    id: string, name: string, target: string, targetType: string, dnsEnabled: bool, policyHash: string,
    sources: seq<ServiceHost>, connectors: seq<ServiceHost>, routes: seq<ApplicationRoute>)

  datatype ServicePort = ServicePort(protocol: string, port: nat)

  datatype AdvertisedService = AdvertisedService(
    id: string, name: string, description: string, dnsName: string, ports: seq<ServicePort>, tags: seq<string>,
    eligibleTags: seq<string>, approvalMode: string, approvalStatus: string, health: string, hosts: seq<ServiceHost>)

  datatype ShareTraffic = ShareTraffic(protocol: string, firstPort: nat, lastPort: nat)

  datatype SharePeerGrant = SharePeerGrant(
    grantId: string,
    recipientNetworkId: string, recipientNodeId: string, recipientPublicKey: string, recipientAllowedIps: seq<string>,
    sourceNetworkId: string, sourceNodeId: string, sourcePublicKey: string, sourceAllowedIps: seq<string>,
    rights: seq<ShareTraffic>, initiation: string, revision: nat, issuedAt: Time, expiresAt: Time)

  datatype Network = Network(
    id: string, name: string, cidr: string, ipv6Cidr: string, dns: seq<string>, dnsConfig: Option<DnsConfig>,
    applications: seq<Application>, services: seq<AdvertisedService>, sharePeerGrants: seq<SharePeerGrant>,
    cellId: string, authoritativeCellId: string, migratingToCellId: string, revision: nat,
    ownerId: string, accountId: string, createdAt: Time)

  datatype Node = Node(
    id: string, networkId: string, userId: string, hostname: string, identityPublicKey: string, publicKey: string,
    deviceFingerprint: string, assignedIp: string, assignedIpv6: string, endpoint: string, endpointGeneration: nat,
    endpointCandidates: seq<string>, endpointExpiresAt: Option<Time>, status: string, advertisedIps: seq<string>,
    requestedTags: seq<string>, tags: seq<string>, approvalState: string, ephemeral: bool, keyExpiryEnabled: bool,
    keyExpiresAt: Option<Time>, createdAt: Time, updatedAt: Time, lastSeen: Time)

  datatype AclPort = AclPort(protocol: string, port: int)

  datatype AclGrant = AclGrant(destinationCidrs: seq<string>, allowedPorts: seq<AclPort>)

  datatype Peer = Peer(
    id: string, networkId: string, hostname: string, publicKey: string, endpoint: string, endpointGeneration: nat,
    endpointCandidates: seq<string>, endpointExpiresAt: Option<Time>, status: string, allowedIps: seq<string>,
    allowedPorts: seq<AclPort>, aclRestricted: bool, aclGrants: seq<AclGrant>, tags: seq<string>)

  datatype StunEndpoint = StunEndpoint(id: string, addr: string)

  /** The fields of the relay module's records that this module reads; `rest` stands for the others. */
  datatype Relay = Relay(id: string, addr: string, protocol: string, region: string, rest: string)

  datatype RelayCredential = RelayCredential(networkId: string, nodeId: string, rest: string)

  datatype MapSignature = MapSignature(
    version: int, keyId: string, algorithm: string, issuedAt: Time, expiresAt: Time, payloadHash: string, signature: string)

  datatype Snapshot = Snapshot(
    revision: MapRevision, network: Network, node: Node, peers: seq<Peer>, registrationBinding: string,
    stunEndpoints: seq<StunEndpoint>, relays: seq<Relay>, relayCredential: Option<RelayCredential>,
    mapSignature: Option<MapSignature>)

  datatype Delta = Delta(
    network: Option<Network>, node: Option<Node>, peerUpserts: seq<Peer>, peerRemoveIds: seq<string>,
    stunEndpoints: Option<seq<StunEndpoint>>, relayUpserts: seq<Relay>, relayRemoveIds: seq<string>,
    relayCredential: Option<RelayCredential>)

  datatype Event = Event(
    kind: string, eventId: string, from: MapRevision, to: MapRevision, baseHash: string,
    snapshot: Option<Snapshot>, delta: Option<Delta>, resultSignature: Option<MapSignature>)

  /** What a map signature covers, before it is encoded. */
  datatype Payload = Payload(
    schema: int, keyId: string, issuedAt: Time, expiresAt: Time, revision: MapRevision, registrationBinding: string,
    network: Network, node: Node, peers: seq<Peer>, stunEndpoints: seq<StunEndpoint>, relays: seq<Relay>)

  datatype SigningTrustKey = SigningTrustKey(
    keyId: string, algorithm: string, publicKey: string, notBefore: Option<Time>, notAfter: Option<Time>)

  datatype SigningTrustBundle = SigningTrustBundle(version: int, activeKeyId: string, keys: seq<SigningTrustKey>)

  // Sort keys and identifiers.

  function PeerId(p: Peer): string { p.id }
  function PeerKey(p: Peer): (string, string) { (p.id, p.hostname) }
  function RelayId(r: Relay): string { r.id }
  function RelayKey(r: Relay): (string, string) { (r.id, r.addr) }
  function StunKey(e: StunEndpoint): (string, string) { (e.id, e.addr) }
  function GrantId(g: SharePeerGrant): string { g.grantId }
}

/** The library calls the client makes, as parameters: whatever holds below holds for every parser,
    sort, hash and signature scheme that obeys the laws stated here. */
module Environment {
  import opened Outcomes
  import opened Text
  import opened Ordering
  import opened Cidr
  import opened NetworkMap

  type Bytes = seq<bv8>

  /** `net/netip` text and the field checks of clientapi/wireguard/validate.go. */
  datatype Net = Net(
    parsePrefix: string -> Option<Prefix>,
    showPrefix: Prefix -> string,
    parseAddr: string -> Option<Addr>,
    sortStrings: seq<string> -> seq<string>,
    identifier: string -> bool,
    wireGuardKey: string -> bool,
    domain: string -> bool,
    urlOrigin: string -> bool,
    policyHash: string -> bool)

  /** Field checks of whole records that look at one record only. */
  datatype Fields = Fields(
    network: Network -> bool,
    registrationBinding: string -> bool,
    node: Node -> bool,
    peer: Peer -> bool,
    stun: StunEndpoint -> bool,
    relay: Relay -> bool,
    relays: seq<Relay> -> bool,
    credential: RelayCredential -> bool,
    signature: MapSignature -> bool)

  /** Ed25519, SHA-256 and the base64 texts around them. */
  datatype Crypto = Crypto(
    decodeKey: string -> Option<Bytes>,
    keyId: Bytes -> string,
    decodeSignature: string -> Option<Bytes>,
    verify: (Bytes, Payload, Bytes) -> bool,
    hash: Payload -> string)

  datatype Sorters = Sorters(
    peers: seq<Peer> -> seq<Peer>,
    stun: seq<StunEndpoint> -> seq<StunEndpoint>,
    relays: seq<Relay> -> seq<Relay>)

  datatype Env = Env(net: Net, fields: Fields, crypto: Crypto, sorters: Sorters)

  /** The text names a prefix that holds the address. */
  ghost predicate InRange(net: Net, text: string, a: Addr) {
    net.parsePrefix(text).Some? && Contains(net.parsePrefix(text).value, a)
  }

  /** The peer is routed the address. */
  ghost predicate Carries(net: Net, peer: Peer, a: Addr) {
    exists t | t in peer.allowedIps :: InRange(net, t, a)
  }

  /** Printing a prefix and parsing it again gives it back, and sorting strings sorts. */
  ghost predicate LawfulNet(net: Net) {
    && (forall p: Prefix :: net.parsePrefix(net.showPrefix(p)) == Some(p))
    && Sorts(net.sortStrings, TextKey)
  }

  ghost predicate LawfulSorters(s: Sorters) {
    Sorts(s.peers, PeerKey) && Sorts(s.stun, StunKey) && Sorts(s.relays, RelayKey)
  }

  /** Hashes and key IDs are printed without surrounding space, and the key ID is a fingerprint. */
  ghost predicate LawfulCrypto(c: Crypto) {
    && (forall p :: Trimmed(c.hash(p)) && c.hash(p) != "")
    && (forall k :: Trimmed(c.keyId(k)) && c.keyId(k) != "")
    && (forall j, k | c.keyId(j) == c.keyId(k) :: j == k)
  }

  /** The relay module's own check does not depend on the order of the relays and leaves no two with one ID. */
  ghost predicate LawfulRelays(f: Fields) {
    && (forall a, b | SamePermutation(a, b) && f.relays(a) :: f.relays(b))
    && (forall a | f.relays(a) :: DistinctBy(a, RelayId))
  }

  ghost predicate Lawful(env: Env) {
    LawfulNet(env.net) && LawfulSorters(env.sorters) && LawfulCrypto(env.crypto) && LawfulRelays(env.fields)
  }
}
