/** What a client may rely on about its cache after any run: the guarantees of the single validators,
    stated for every cache the stream can put there (clientapi/v1/networkmap_validate.go:12-146). */
module MapSafety {
  import opened Text
  import opened Ordering
  import opened Cidr
  import opened NetworkMap
  import opened Environment
  import opened MapValidation
  import opened MapStream
  import Acl
  import Applications
  import Sharing

  /** The map is about this node in its network, names every peer, endpoint and relay, and carries no
      relay credential of another node. */
  ghost predicate WellIdentified(s: Snapshot) {
    && TrimSpace(s.network.id) != "" && TrimSpace(s.node.id) != "" && TrimSpace(s.node.networkId) == TrimSpace(s.network.id)
    && (forall p | p in s.peers :: TrimSpace(p.id) != "") && DistinctBy(s.peers, PeerId)
    && (forall e | e in s.stunEndpoints :: TrimSpace(e.id) != "")
    && (forall r | r in s.relays :: TrimSpace(r.id) != "") && DistinctBy(s.relays, RelayId)
    && (s.relayCredential.Some? ==>
          && TrimSpace(s.relayCredential.value.networkId) == TrimSpace(s.network.id)
          && TrimSpace(s.relayCredential.value.nodeId) == TrimSpace(s.node.id))
  }

  /** Every record passes the check of its fields. */
  ghost predicate FieldsAccepted(f: Fields, s: Snapshot) {
    && f.network(s.network) && f.registrationBinding(s.registrationBinding) && f.node(s.node)
    && (forall p | p in s.peers :: f.peer(p)) && (forall e | e in s.stunEndpoints :: f.stun(e))
    && f.relays(s.relays) && (forall r | r in s.relays :: f.relay(r))
    && (s.relayCredential.Some? ==> f.credential(s.relayCredential.value))
    && (s.mapSignature.Some? ==> f.signature(s.mapSignature.value))
  }

  /** Only approved services have hosts, known by their current keys and named once. */
  ghost predicate ServicesHosted(s: Snapshot) {
    forall service | service in s.network.services ::
      && (service.hosts != [] ==> service.approvalStatus == "approved")
      && Applications.HostsCurrent(s.node, s.peers, service.hosts)
  }

  ghost predicate PortsAccepted(s: Snapshot) {
    forall peer, p | peer in s.peers && p in peer.allowedPorts ::
      (p.protocol in {"tcp", "udp"} && 0 < p.port < 65536) || p == AclPort("icmp", 0)
  }

  /** Access-control grants reach only what is routed to their peer. */
  ghost predicate GrantsConfined(net: Net, s: Snapshot) {
    forall peer, a: Addr, protocol, port | peer in s.peers && Acl.Permits(net, peer, a, protocol, port) :: Carries(net, peer, a)
  }

  /** Application routes reach neither a forbidden address nor the overlay. */
  ghost predicate RouteConfined(net: Net, s: Snapshot, text: string) {
    && net.parsePrefix(text).Some?
    && forall a: Addr | Contains(net.parsePrefix(text).value, a) ::
         && !Applications.ForbiddenAddress(a)
         && !InRange(net, s.network.cidr, a) && !InRange(net, s.network.ipv6Cidr, a)
  }

  ghost predicate ApplicationsConfined(net: Net, s: Snapshot) {
    && (forall app | app in s.network.applications :: Applications.ApplicationScoped(net, s.network, s.node, s.peers, app))
    && (forall app, route, text | app in s.network.applications && route in app.routes && text in route.cidrs ::
          RouteConfined(net, s, text))
  }

  /** Every grant ties this node to another, every shared address leads to one peer, and every peer of
      another network is granted. */
  ghost predicate SharingUnambiguous(net: Net, s: Snapshot) {
    && (forall g | g in s.network.sharePeerGrants :: Sharing.TiedHere(net, s, g))
    && (forall g, text | g in s.network.sharePeerGrants && text in Sharing.Remote(s, g).ips :: Sharing.Unambiguous(net, s, g, text))
    && (forall p | p in s.peers && p.networkId != "" && p.networkId != s.network.id :: Sharing.Granted(s, p))
  }

  ghost predicate Safe(env: Env, s: Snapshot) {
    && WellIdentified(s) && FieldsAccepted(env.fields, s) && ServicesHosted(s) && PortsAccepted(s)
    && GrantsConfined(env.net, s) && ApplicationsConfined(env.net, s) && SharingUnambiguous(env.net, s)
  }

  lemma AcceptedIsSafe(env: Env, s: Snapshot)
    requires LawfulNet(env.net) && LawfulRelays(env.fields) && MapAccepted(env, s)
    ensures Safe(env, s)
  {
    hide LawfulNet, LawfulRelays, MapAccepted;
    hide WellIdentified, FieldsAccepted, ServicesHosted, PortsAccepted, GrantsConfined, ApplicationsConfined, SharingUnambiguous;
    AcceptedIsIdentified(env, s);
    AcceptedServices(env, s);
    AcceptedIsConfined(env, s);
  }

  lemma AcceptedIsIdentified(env: Env, s: Snapshot)
    requires LawfulRelays(env.fields) && MapAccepted(env, s)
    ensures WellIdentified(s) && FieldsAccepted(env.fields, s) && PortsAccepted(s)
  {
    hide ServiceHostsAccepted, TrimSpace, DistinctBy;
    hide Applications.ApplicationsAccepted, Sharing.SharesAccepted, Acl.AclAccepted;
    assert forall p | p in s.peers :: PeerAccepted(env, p);
    assert forall r | r in s.relays :: RelayAccepted(env, r);
    assert forall e | e in s.stunEndpoints :: StunAccepted(env, e);
  }

  lemma AcceptedServices(env: Env, s: Snapshot)
    requires MapAccepted(env, s)
    ensures ServicesHosted(s)
  {
    hide HeaderAccepted, PeerAccepted, DistinctBy;
    hide Applications.ApplicationsAccepted, Sharing.SharesAccepted, Applications.HostsBound, Applications.HostsCurrent, Applications.Identities;
    forall service | service in s.network.services
      ensures service.hosts != [] ==> service.approvalStatus == "approved"
      ensures Applications.HostsCurrent(s.node, s.peers, service.hosts)
    {
      assert ApprovalAccepted(service);
      Applications.HostsBoundIffCurrent(s.node, s.peers, service.hosts);
    }
  }

  lemma AcceptedIsConfined(env: Env, s: Snapshot)
    requires LawfulNet(env.net) && MapAccepted(env, s)
    ensures GrantsConfined(env.net, s) && ApplicationsConfined(env.net, s) && SharingUnambiguous(env.net, s)
  {
    hide LawfulNet, HeaderAccepted, ServiceHostsAccepted, RouteConfined, Carries;
    hide Applications.ApplicationScoped, Applications.ApplicationAccepted, Applications.Identities;
    hide Applications.ApplicationsAccepted;
    hide Sharing.SharesAccepted, Sharing.Unambiguous, Sharing.Granted, Sharing.Remote, Sharing.TiedHere;
    hide Acl.Permits, Acl.AclAccepted;
    forall peer, a: Addr, protocol, port | peer in s.peers && Acl.Permits(env.net, peer, a, protocol, port)
      ensures Carries(env.net, peer, a)
    {
      assert PeerAccepted(env, peer);
      Acl.GrantsStayInsideRoutes(env.net, peer, a, protocol, port);
    }
    forall app | app in s.network.applications
      ensures Applications.ApplicationScoped(env.net, s.network, s.node, s.peers, app)
    {
      AcceptedApplication(env.net, s, app);
      Applications.ApplicationAcceptedIff(env.net, s.network, s.node, s.peers, app);
    }
    forall app, route, text | app in s.network.applications && route in app.routes && text in route.cidrs
      ensures RouteConfined(env.net, s, text)
    {
      AcceptedRouteIsConfined(env.net, s, app, route, text);
    }
    forall g, text | g in s.network.sharePeerGrants && text in Sharing.Remote(s, g).ips
      ensures Sharing.Unambiguous(env.net, s, g, text)
    {
      Sharing.SharedAddressHasOnePeer(env.net, s, g, text);
    }
    forall g | g in s.network.sharePeerGrants
      ensures Sharing.TiedHere(env.net, s, g)
    {
      Sharing.GrantIsTiedHere(env.net, s, g);
    }
    forall p | p in s.peers && p.networkId != "" && p.networkId != s.network.id
      ensures Sharing.Granted(s, p)
    {
      Sharing.ForeignPeerIsGranted(env.net, s, p);
    }
  }

  /** Nothing more is asked of a map. */
  lemma NothingElseIsAsked(env: Env, s: Snapshot)
    requires WellIdentified(s) && FieldsAccepted(env.fields, s) && ServicesHosted(s) && PortsAccepted(s)
    requires forall peer | peer in s.peers :: Acl.AclAccepted(env.net, peer)
    requires forall app | app in s.network.applications :: Applications.ApplicationScoped(env.net, s.network, s.node, s.peers, app)
    requires Sharing.SharesAccepted(env.net, s)
    ensures MapAccepted(env, s)
  {
    hide TrimSpace, DistinctBy;
    hide Applications.ApplicationScoped, Applications.ApplicationAccepted, Applications.Identities, Acl.AclAccepted, Sharing.SharesAccepted;
    hide Applications.HostsBound, Applications.HostsCurrent;
    forall app | app in s.network.applications
      ensures Applications.ApplicationAccepted(env.net, s.network, Applications.Identities(s.node, s.peers), app)
    {
      Applications.ApplicationAcceptedIff(env.net, s.network, s.node, s.peers, app);
    }
    forall service | service in s.network.services
      ensures ApprovalAccepted(service) && Applications.HostsBound(Applications.Identities(s.node, s.peers), service.hosts)
    {
      Applications.HostsBoundIffCurrent(s.node, s.peers, service.hosts);
    }
    assert HeaderAccepted(env, s);
    assert forall p | p in s.peers :: PeerAccepted(env, p);
    assert ListsAccepted(env, s);
  }

  lemma AcceptedApplication(net: Net, s: Snapshot, app: Application)
    requires Applications.ApplicationsAccepted(net, s) && app in s.network.applications
    ensures Applications.ApplicationAccepted(net, s.network, Applications.Identities(s.node, s.peers), app)
  {
    hide Applications.ApplicationAccepted;
  }

  lemma AcceptedRouteIsConfined(net: Net, s: Snapshot, app: Application, route: ApplicationRoute, text: string)
    requires LawfulNet(net) && Applications.ApplicationsAccepted(net, s)
    requires app in s.network.applications && route in app.routes && text in route.cidrs
    ensures RouteConfined(net, s, text)
  {
    hide LawfulNet;
    hide Applications.ApplicationsAccepted, Applications.ForbiddenAddress;
    Applications.RoutesStayInScope(net, s, app, route, text);
  }

  /** Whatever events arrive, in whatever order and at whatever times, and even if every signature
      could be forged: the cache is the initial one, or an accepted map with all these guarantees. */
  lemma {:induction false} EveryRunIsSafe(env: Env, trust: SigningTrustBundle, initial: Snapshot, ds: seq<Delivery>)
    requires LawfulNet(env.net) && LawfulRelays(env.fields)
    ensures var cache := Run(env, trust, initial, ds);
            cache == initial || (MapAccepted(env, cache) && Safe(env, cache))
  {
    hide Next, LawfulNet, LawfulRelays, MapAccepted, Safe;
    if ds != [] {
      var n := |ds| - 1;
      EveryRunIsSafe(env, trust, initial, ds[..n]);
      var before := Run(env, trust, initial, ds[..n]);
      ChangedCacheIsVerified(env, before, ds[n].event, trust, ds[n].now);
      var after := Run(env, trust, initial, ds);
      if after != before {
        AcceptedIsSafe(env, after);
      }
    }
  }
}
