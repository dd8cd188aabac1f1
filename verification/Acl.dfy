/** Access-control grants of a peer: clientapi/v1/acl_grants.go. */
module Acl {
  import opened Outcomes
  import opened Cidr
  import opened NetworkMap
  import opened Environment

  predicate PortAccepted(port: AclPort) {
    && (port.protocol == "tcp" || port.protocol == "udp" || port.protocol == "icmp")
    && (if port.protocol == "icmp" then port.port == 0 else 1 <= port.port <= 65535)
  }

  /** The peer's routes, when every one of them parses. */
  ghost predicate RoutesParse(net: Net, peer: Peer) {
    forall r | r in peer.allowedIps :: net.parsePrefix(r).Some?
  }

  /** Some route of the peer covers the destination. */
  ghost predicate Covered(net: Net, peer: Peer, dest: Prefix) {
    exists r | r in peer.allowedIps :: net.parsePrefix(r).Some? && Covers(Masked(net.parsePrefix(r).value), dest)
  }

  ghost predicate DestinationAccepted(net: Net, peer: Peer, cidr: string) {
    var p := net.parsePrefix(cidr);
    p.Some? && !Is4In6(p.value.addr) && p.value == Masked(p.value) && Covered(net, peer, p.value)
  }

  ghost predicate GrantAccepted(net: Net, peer: Peer, grant: AclGrant) {
    && 1 <= |grant.destinationCidrs| <= 1000
    && |grant.allowedPorts| <= 65535
    && (forall cidr | cidr in grant.destinationCidrs :: DestinationAccepted(net, peer, cidr))
    && (forall port | port in grant.allowedPorts :: PortAccepted(port))
  }

  ghost predicate AclAccepted(net: Net, peer: Peer) {
    peer.aclGrants == [] ||
    (&& peer.aclRestricted && peer.allowedPorts == [] && |peer.aclGrants| <= 1000
     && RoutesParse(net, peer)
     && forall g | g in peer.aclGrants :: GrantAccepted(net, peer, g))
  }

  // ----- the loops -----

  method ParseRoutes(net: Net, peer: Peer) returns (routes: Option<seq<Prefix>>)
    ensures routes.Some? <==> RoutesParse(net, peer)
    ensures routes.Some? ==> forall dest: Prefix :: (exists r | r in routes.value :: Covers(r, dest)) <==> Covered(net, peer, dest)
  {
    var result: seq<Prefix> := [];
    for i := 0 to |peer.allowedIps|
      invariant |result| == i
      invariant forall j | 0 <= j < i :: net.parsePrefix(peer.allowedIps[j]).Some?
      invariant forall j | 0 <= j < i :: result[j] == Masked(net.parsePrefix(peer.allowedIps[j]).value)
    {
      var parsed := net.parsePrefix(peer.allowedIps[i]);
      if parsed.None? {
        assert peer.allowedIps[i] in peer.allowedIps;
        return None;
      }
      result := result + [Masked(parsed.value)];
    }
    forall dest: Prefix
      ensures (exists r | r in result :: Covers(r, dest)) <==> Covered(net, peer, dest)
    {
      if r :| r in result && Covers(r, dest) {
        var j :| 0 <= j < |result| && result[j] == r;
        assert peer.allowedIps[j] in peer.allowedIps;
      }
      if r :| r in peer.allowedIps && net.parsePrefix(r).Some? && Covers(Masked(net.parsePrefix(r).value), dest) {
        var j :| 0 <= j < |peer.allowedIps| && peer.allowedIps[j] == r;
        assert result[j] in result;
      }
    }
    return Some(result);
  }

  method FindCover(routes: seq<Prefix>, dest: Prefix) returns (covered: bool)
    ensures covered <==> exists r | r in routes :: Covers(r, dest)
  {
    covered := false;
    for i := 0 to |routes|
      invariant !covered
      invariant forall j | 0 <= j < i :: !Covers(routes[j], dest)
    {
      if Covers(routes[i], dest) {
        assert routes[i] in routes;
        return true;
      }
    }
  }

  method CheckGrant(net: Net, peer: Peer, routes: seq<Prefix>, grant: AclGrant) returns (ok: bool)
    requires forall dest: Prefix :: (exists r | r in routes :: Covers(r, dest)) <==> Covered(net, peer, dest)
    ensures ok <==> GrantAccepted(net, peer, grant)
  {
    if |grant.destinationCidrs| == 0 || |grant.destinationCidrs| > 1000 || |grant.allowedPorts| > 65535 {
      return false;
    }
    for i := 0 to |grant.destinationCidrs|
      invariant forall j | 0 <= j < i :: DestinationAccepted(net, peer, grant.destinationCidrs[j])
    {
      assert grant.destinationCidrs[i] in grant.destinationCidrs;
      var parsed := net.parsePrefix(grant.destinationCidrs[i]);
      if parsed.None? || Is4In6(parsed.value.addr) || parsed.value != Masked(parsed.value) {
        return false;
      }
      var covered := FindCover(routes, parsed.value);
      if !covered {
        return false;
      }
    }
    for i := 0 to |grant.allowedPorts|
      invariant forall j | 0 <= j < i :: PortAccepted(grant.allowedPorts[j])
    {
      if !PortAccepted(grant.allowedPorts[i]) {
        assert grant.allowedPorts[i] in grant.allowedPorts;
        return false;
      }
    }
    return true;
  }

  method ValidateAclGrants(net: Net, peer: Peer) returns (ok: bool)
    ensures ok <==> AclAccepted(net, peer)
  {
    if |peer.aclGrants| == 0 {
      return true;
    }
    if !peer.aclRestricted || |peer.allowedPorts| != 0 || |peer.aclGrants| > 1000 {
      return false;
    }
    var routes := ParseRoutes(net, peer);
    if routes.None? {
      return false;
    }
    for i := 0 to |peer.aclGrants|
      invariant forall j | 0 <= j < i :: GrantAccepted(net, peer, peer.aclGrants[j])
    {
      assert peer.aclGrants[i] in peer.aclGrants;
      var good := CheckGrant(net, peer, routes.value, peer.aclGrants[i]);
      if !good {
        return false;
      }
    }
    return true;
  }

  // ----- what acceptance means for traffic -----

  /** Traffic one grant permits: to its destinations, on its ports, where no ports means any protocol. */
  ghost predicate GrantPermits(net: Net, g: AclGrant, a: Addr, protocol: string, port: int) {
    && (exists cidr | cidr in g.destinationCidrs :: InRange(net, cidr, a))
    && (g.allowedPorts == [] || AclPort(protocol, port) in g.allowedPorts)
  }

  /** Grants are unioned. */
  ghost predicate Permits(net: Net, peer: Peer, a: Addr, protocol: string, port: int) {
    exists g | g in peer.aclGrants :: GrantPermits(net, g, a, protocol, port)
  }

  lemma MaskKeepsBlock(p: Prefix, a: Addr)
    ensures Contains(Masked(p), a) <==> Contains(p, a)
  {
    RoundDownIsQuotient(p.addr.num, Size(p.addr.family, p.bits));
  }

  /** A canonical destination is accepted exactly when all its addresses lie inside one route. */
  lemma DestinationAcceptedIff(net: Net, peer: Peer, cidr: string)
    requires net.parsePrefix(cidr).Some?
    requires var p := net.parsePrefix(cidr).value; p == Masked(p) && !Is4In6(p.addr)
    ensures DestinationAccepted(net, peer, cidr) <==>
            exists r | r in peer.allowedIps ::
              && net.parsePrefix(r).Some?
              && forall a: Addr | Contains(net.parsePrefix(cidr).value, a) :: Contains(net.parsePrefix(r).value, a)
  {
    var dest := net.parsePrefix(cidr).value;
    forall r | r in peer.allowedIps && net.parsePrefix(r).Some?
      ensures Covers(Masked(net.parsePrefix(r).value), dest) <==>
              forall a: Addr | Contains(dest, a) :: Contains(net.parsePrefix(r).value, a)
    {
      var route := net.parsePrefix(r).value;
      CoversIffSubset(Masked(route), dest);
      forall a: Addr
        ensures Contains(Masked(route), a) <==> Contains(route, a)
      {
        MaskKeepsBlock(route, a);
      }
    }
  }

  /** A destination: a canonical block that lies inside one route. */
  ghost predicate Routable(net: Net, peer: Peer, cidr: string) {
    && net.parsePrefix(cidr).Some?
    && net.parsePrefix(cidr).value == Masked(net.parsePrefix(cidr).value) && !Is4In6(net.parsePrefix(cidr).value.addr)
    && exists r | r in peer.allowedIps ::
         && net.parsePrefix(r).Some?
         && forall a: Addr | Contains(net.parsePrefix(cidr).value, a) :: Contains(net.parsePrefix(r).value, a)
  }

  /** A peer's grants are accepted exactly if there are none, or the peer is restricted, has no ports of
      its own and only routes that parse, and every grant names routable destinations and good ports. */
  lemma AclAcceptedIff(net: Net, peer: Peer)
    ensures AclAccepted(net, peer) <==>
            peer.aclGrants == [] ||
            (&& peer.aclRestricted && peer.allowedPorts == [] && |peer.aclGrants| <= 1000
             && (forall r | r in peer.allowedIps :: net.parsePrefix(r).Some?)
             && forall g | g in peer.aclGrants ::
                  && 1 <= |g.destinationCidrs| <= 1000 && |g.allowedPorts| <= 65535
                  && (forall cidr | cidr in g.destinationCidrs :: Routable(net, peer, cidr))
                  && (forall p | p in g.allowedPorts ::
                        (p.protocol in {"tcp", "udp"} && 0 < p.port < 65536) || p == AclPort("icmp", 0)))
  {
    hide Contains, Masked, DestinationAccepted, Routable;
    forall g, cidr | g in peer.aclGrants && cidr in g.destinationCidrs
      ensures DestinationAccepted(net, peer, cidr) <==> Routable(net, peer, cidr)
    {
      RoutableIff(net, peer, cidr);
    }
  }

  lemma RoutableIff(net: Net, peer: Peer, cidr: string)
    ensures DestinationAccepted(net, peer, cidr) <==> Routable(net, peer, cidr)
  {
    hide Contains, Masked, Covered;
    if net.parsePrefix(cidr).Some? {
      var p := net.parsePrefix(cidr).value;
      if p == Masked(p) && !Is4In6(p.addr) {
        DestinationAcceptedIff(net, peer, cidr);
      }
    }
  }

  /** In an accepted peer no grant, alone or with the others, reaches an address outside the peer's
      routes, and what is permitted there is a well-formed protocol and port, or permitted by a grant
      that has this address among its destinations and names no ports. */
  lemma GrantsStayInsideRoutes(net: Net, peer: Peer, a: Addr, protocol: string, port: int)
    requires AclAccepted(net, peer) && Permits(net, peer, a, protocol, port)
    ensures Carries(net, peer, a)
    ensures peer.aclRestricted && peer.allowedPorts == []
    ensures PortAccepted(AclPort(protocol, port)) ||
            exists g | g in peer.aclGrants :: g.allowedPorts == [] && GrantPermits(net, g, a, protocol, port)
  {
    var g :| g in peer.aclGrants && GrantPermits(net, g, a, protocol, port);
    assert GrantAccepted(net, peer, g);
    var cidr :| cidr in g.destinationCidrs && InRange(net, cidr, a);
    assert DestinationAccepted(net, peer, cidr);
    DestinationAcceptedIff(net, peer, cidr);
  }
}
