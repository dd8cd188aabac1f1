/** The whole acceptance predicate for a network map: `ValidateNetworkMapSnapshot` and
    `validateServiceHosts` of clientapi/v1/networkmap_validate.go. */
module MapValidation {
  import opened Text
  import opened Ordering
  import opened NetworkMap
  import opened Environment
  import opened Applications
  import Acl
  import Sharing

  predicate ApprovalAccepted(service: AdvertisedService) {
    service.hosts == [] || service.approvalStatus == "approved"
  }

  ghost predicate ServiceHostsAccepted(s: Snapshot) {
    forall service | service in s.network.services ::
      ApprovalAccepted(service) && HostsBound(Identities(s.node, s.peers), service.hosts)
  }

  predicate NodeAccepted(env: Env, s: Snapshot) {
    && TrimSpace(s.node.id) != "" && TrimSpace(s.node.networkId) == TrimSpace(s.network.id)
    && env.fields.node(s.node)
  }

  ghost predicate PeerAccepted(env: Env, peer: Peer) {
    && TrimSpace(peer.id) != "" && env.fields.peer(peer)
    && (forall port | port in peer.allowedPorts :: Acl.PortAccepted(port))
    && Acl.AclAccepted(env.net, peer)
  }

  predicate StunAccepted(env: Env, e: StunEndpoint) {
    TrimSpace(e.id) != "" && env.fields.stun(e)
  }

  predicate RelayAccepted(env: Env, r: Relay) {
    TrimSpace(r.id) != "" && env.fields.relay(r)
  }

  predicate CredentialAccepted(env: Env, s: Snapshot) {
    s.relayCredential.Some? ==>
      var c := s.relayCredential.value;
      && env.fields.credential(c)
      && TrimSpace(c.networkId) == TrimSpace(s.network.id) && TrimSpace(c.nodeId) == TrimSpace(s.node.id)
  }

  /** The parts of a map that do not mention its lists of peers, STUN endpoints and relays. */
  predicate HeaderAccepted(env: Env, s: Snapshot) {
    && TrimSpace(s.network.id) != ""
    && env.fields.network(s.network) && env.fields.registrationBinding(s.registrationBinding)
    && NodeAccepted(env, s)
    && CredentialAccepted(env, s)
    && (s.mapSignature.Some? ==> env.fields.signature(s.mapSignature.value))
  }

  ghost predicate ListsAccepted(env: Env, s: Snapshot) {
    && (forall p | p in s.peers :: PeerAccepted(env, p)) && DistinctBy(s.peers, PeerId)
    && (forall e | e in s.stunEndpoints :: StunAccepted(env, e))
    && env.fields.relays(s.relays) && (forall r | r in s.relays :: RelayAccepted(env, r))
  }

  ghost predicate MapAccepted(env: Env, s: Snapshot) {
    && HeaderAccepted(env, s)
    && ServiceHostsAccepted(s)
    && ApplicationsAccepted(env.net, s)
    && Sharing.SharesAccepted(env.net, s)
    && ListsAccepted(env, s)
  }

  // ----- the loops -----

  method ValidateServiceHosts(s: Snapshot) returns (ok: bool)
    ensures ok <==> ServiceHostsAccepted(s)
  {
    hide HostsBound, Identities;
    var identities := CollectIdentities(s.node, s.peers);
    for i := 0 to |s.network.services|
      invariant forall j | 0 <= j < i ::
                  ApprovalAccepted(s.network.services[j]) && HostsBound(identities, s.network.services[j].hosts)
    {
      var service := s.network.services[i];
      assert service in s.network.services;
      if |service.hosts| > 0 && service.approvalStatus != "approved" {
        return false;
      }
      var good := CheckHosts(identities, service.hosts);
      if !good {
        return false;
      }
    }
    return true;
  }

  method ValidatePeer(env: Env, peer: Peer) returns (ok: bool)
    ensures ok <==> PeerAccepted(env, peer)
  {
    hide TrimSpace, Acl.AclAccepted, Acl.PortAccepted;
    if TrimSpace(peer.id) == "" || !env.fields.peer(peer) {
      return false;
    }
    for i := 0 to |peer.allowedPorts|
      invariant forall j | 0 <= j < i :: Acl.PortAccepted(peer.allowedPorts[j])
    {
      if !Acl.PortAccepted(peer.allowedPorts[i]) {
        assert peer.allowedPorts[i] in peer.allowedPorts;
        return false;
      }
    }
    ok := Acl.ValidateAclGrants(env.net, peer);
  }

  method ValidatePeers(env: Env, peers: seq<Peer>) returns (ok: bool)
    ensures ok <==> (forall p | p in peers :: PeerAccepted(env, p)) && DistinctBy(peers, PeerId)
  {
    hide PeerAccepted;
    var seen: set<string> := {};
    for i := 0 to |peers|
      invariant forall j | 0 <= j < i :: PeerAccepted(env, peers[j]) && PeerId(peers[j]) in seen
      invariant forall k | k in seen :: exists j | 0 <= j < i :: PeerId(peers[j]) == k
      invariant forall j, k | 0 <= j < k < i :: PeerId(peers[j]) != PeerId(peers[k])
    {
      assert peers[i] in peers;
      var good := ValidatePeer(env, peers[i]);
      if !good || PeerId(peers[i]) in seen {
        return false;
      }
      seen := seen + {PeerId(peers[i])};
    }
    return true;
  }

  method ValidateEndpoints(env: Env, s: Snapshot) returns (ok: bool)
    ensures ok <==> (forall e | e in s.stunEndpoints :: StunAccepted(env, e)) && env.fields.relays(s.relays) &&
                    (forall r | r in s.relays :: RelayAccepted(env, r))
  {
    hide StunAccepted, RelayAccepted;
    for i := 0 to |s.stunEndpoints|
      invariant forall j | 0 <= j < i :: StunAccepted(env, s.stunEndpoints[j])
    {
      if !StunAccepted(env, s.stunEndpoints[i]) {
        assert s.stunEndpoints[i] in s.stunEndpoints;
        return false;
      }
    }
    if !env.fields.relays(s.relays) {
      return false;
    }
    for i := 0 to |s.relays|
      invariant forall j | 0 <= j < i :: RelayAccepted(env, s.relays[j])
    {
      if !RelayAccepted(env, s.relays[i]) {
        assert s.relays[i] in s.relays;
        return false;
      }
    }
    return true;
  }

  method ValidateSnapshot(env: Env, s: Snapshot) returns (ok: bool)
    requires LawfulNet(env.net)
    ensures ok <==> MapAccepted(env, s)
  {
    hide HeaderAccepted, ServiceHostsAccepted, ApplicationsAccepted, PeerAccepted, StunAccepted, RelayAccepted, LawfulNet;
    hide Sharing.SharesAccepted;
    ok := HeaderAccepted(env, s);
    if ok { ok := ValidateServiceHosts(s); }
    if ok { ok := ValidateApplicationBindings(env.net, s); }
    if ok { ok := Sharing.ValidateSharePeerGrants(env.net, s); }
    if ok { ok := ValidatePeers(env, s.peers); }
    if ok { ok := ValidateEndpoints(env, s); }
  }

  // ----- maps up to order -----

  /** Two maps that differ at most in the order of their peers, STUN endpoints and relays. */
  ghost predicate SameUpToOrder(a: Snapshot, b: Snapshot) {
    && a.revision == b.revision && a.network == b.network && a.node == b.node
    && a.registrationBinding == b.registrationBinding
    && a.relayCredential == b.relayCredential && a.mapSignature == b.mapSignature
    && SamePermutation(a.peers, b.peers)
    && SamePermutation(a.stunEndpoints, b.stunEndpoints)
    && SamePermutation(a.relays, b.relays)
  }

  /** Acceptance does not depend on the order of the lists. */
  lemma AcceptanceIgnoresOrder(env: Env, a: Snapshot, b: Snapshot)
    requires LawfulRelays(env.fields) && SameUpToOrder(a, b) && MapAccepted(env, a)
    ensures MapAccepted(env, b)
  {
    hide PeerAccepted, StunAccepted, RelayAccepted, ApprovalAccepted, HostsBound, ApplicationAccepted, Identities, TrimSpace, SamePermutation;
    hide Sharing.SharesAccepted;
    Sharing.SharesIgnoreOrder(env.net, a, b);
    IdentitiesIgnoreOrder(a.node, a.peers, b.peers);
    MembersOfPermutation(a.peers, b.peers);
    MembersOfPermutation(a.stunEndpoints, b.stunEndpoints);
    MembersOfPermutation(a.relays, b.relays);
    DistinctPermutation(a.peers, b.peers, PeerId);
    assert ListsAccepted(env, b);
    assert HeaderAccepted(env, b);
  }
}
