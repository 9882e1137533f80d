/** One server state, two enforcement points: what the server shows and what a node lets in agree. */
module Enforcement {
  import opened Net
  import opened Store
  import opened Api
  import opened Node
  import A = Acl
  import I = Ipam
  import P = AddressPlan
  import T = Table

  lemma {:induction false} ConnectedSymmetric(c: Config, a: string, b: string)
    ensures A.Connected(c.policy, a, b) <==> A.Connected(c.policy, b, a)
  {
  }

  /** m gives a local address to everything about the service. */
  predicate ServiceTranslates(sv: Service, m: Option<map<Addr, Addr>>) {
    Look(m, sv.nodeIP).Some? && (sv.vip.Some? ==> Look(m, sv.vip.value).Some?)
  }

  /** The groups a host ends up with: the translated address of a member is known exactly when the
      member is in the host's list, and then with its own group. */
  lemma {:induction false} HostKnows(c: Config, s: Api.State, host: Member, client: Member, ps: seq<Peer>,
                                     m: Option<map<Addr, Addr>>)
    requires Inv(c, s) && Injective(m)
    requires client.uuid in s.net.members && s.net.members[client.uuid] == client
    requires ListsPeers(c, s, host, ps) && Look(m, client.ip).Some?
    ensures var groups := GroupsOf(RestatedPeers(ps, m));
      var src := Look(m, client.ip).value;
      && (src in groups <==> SeesPeer(c, host, client))
      && (src in groups ==> groups[src] == client.group)
  {
    hide Inv, SeesPeer;
    assert forall d, e :: d in s.net.members && e in s.net.members && s.net.members[d].ip == s.net.members[e].ip ==>
        d == e by {
      AddressesUnique(c, s);
    }
    var rs, src := RestatedPeers(ps, m), Look(m, client.ip).value;
    RestatedPeersSpec(ps, m);
    forall x | x in rs && x.ip == src ensures SeesPeer(c, host, client) && x.group == client.group {
      var p :| p in ps && x in RestatePeer(p, m);
      var d :| d in s.net.members && SeesPeer(c, host, s.net.members[d]) && p == Listed(s.net.members[d]);
      assert p.ip == client.ip && d == client.uuid;
    }
    OneGroupEach(ps, m, rs);
    GroupsOfSpec(rs);
    if SeesPeer(c, host, client) {
      assert Listed(client) in ps && RestatePeer(Listed(client), m) == [Listed(client).(ip := src)];
      assert Listed(client).(ip := src) in RestatePeer(Listed(client), m);
      assert Listed(client).(ip := src) in rs;
    }
  }

  lemma {:induction false} OneGroupEach(ps: seq<Peer>, m: Option<map<Addr, Addr>>, rs: seq<Peer>)
    requires Injective(m) && rs == RestatedPeers(ps, m)
    requires forall i, j :: 0 <= i < j < |ps| ==> ps[i].ip != ps[j].ip
    ensures forall x, y :: x in rs && y in rs && x.ip == y.ip ==> x.group == y.group
  {
    RestatedPeersSpec(ps, m);
    forall x, y | x in rs && y in rs && x.ip == y.ip ensures x.group == y.group {
      var p :| p in ps && x in RestatePeer(p, m);
      var q :| q in ps && y in RestatePeer(q, m);
      assert p.ip == q.ip;
      var i :| 0 <= i < |ps| && ps[i] == p;
      var j :| 0 <= j < |ps| && ps[j] == q;
    }
  }

  /** The lists a host ends up with for a service it hosts: the service's own. */
  lemma {:induction false} HostOffers(c: Config, s: Api.State, host: Member, sv: Service, svs: seq<Service>,
                                      m: Option<map<Addr, Addr>>)
    requires ListsServices(c, s, host, svs) && ServiceTranslates(sv, m)
    requires sv.name in s.net.services && s.net.services[sv.name] == sv && sv.nodeIP == host.ip
    ensures var allow := ListsOf(RestatedServices(svs, m));
      sv.name in allow && allow[sv.name] == sv.allowGroups
  {
    var rs := RestatedServices(svs, m);
    RestatedServicesSpec(svs, m);
    assert sv in svs;
    RestatedKeepsName(sv, m);
    var restated :| restated in RestateService(sv, m);
    assert restated in rs;
    hide RestateService, Visible;
    forall x | x in rs ensures x.name in s.net.services && x.allowGroups == s.net.services[x.name].allowGroups {
      var a :| a in svs && x in RestateService(a, m);
      RestatedKeepsName(a, m);
    }
    ListsOfSpec(rs);
  }

  /** A service the table has no local addresses for is not offered at all. */
  lemma {:induction false} NotOffered(c: Config, s: Api.State, host: Member, sv: Service, svs: seq<Service>,
                                      m: Option<map<Addr, Addr>>)
    requires ListsServices(c, s, host, svs) && !ServiceTranslates(sv, m)
    requires sv.name in s.net.services && s.net.services[sv.name] == sv
    ensures sv.name !in ListsOf(RestatedServices(svs, m))
  {
    var rs := RestatedServices(svs, m);
    RestatedServicesSpec(svs, m);
    TranslatesIffRestated(sv, m);
    hide RestateService, Visible;
    forall x | x in rs
      ensures x.name in s.net.services && x.allowGroups == s.net.services[x.name].allowGroups && x.name != sv.name
    {
      var a :| a in svs && x in RestateService(a, m);
      RestatedKeepsName(a, m);
    }
    ListsOfSpec(rs);
  }

  lemma {:induction false} TranslatesIffRestated(sv: Service, m: Option<map<Addr, Addr>>)
    ensures ServiceTranslates(sv, m) <==> RestateService(sv, m) != []
  {
  }

  lemma {:induction false} RestatedKeepsName(sv: Service, m: Option<map<Addr, Addr>>)
    ensures forall x :: x in RestateService(sv, m) ==> x.name == sv.name && x.allowGroups == sv.allowGroups
    ensures ServiceTranslates(sv, m) ==> exists x :: x in RestateService(sv, m)
  {
    if ServiceTranslates(sv, m) { assert RestateService(sv, m)[0] in RestateService(sv, m); }
  }

  /** In one server state, a member's translated address passes the check of the node hosting a
      service exactly when the server shows the member the service, or the service is open to everyone
      (its list is empty), and the node has local addresses for the service. */
  lemma {:induction false} EnforcementAgrees(c: Config, s: Api.State, host: Member, client: Member, sv: Service,
                                             ps: seq<Peer>, svs: seq<Service>, m: Option<map<Addr, Addr>>)
    requires Inv(c, s) && Injective(m)
    requires host.uuid in s.net.members && s.net.members[host.uuid] == host
    requires client.uuid in s.net.members && s.net.members[client.uuid] == client && client.uuid != host.uuid
    requires sv.name in s.net.services && s.net.services[sv.name] == sv && sv.nodeIP == host.ip
    requires ListsPeers(c, s, host, ps) && ListsServices(c, s, host, svs)
    requires Look(m, client.ip).Some?
    ensures Permits(GroupsOf(RestatedPeers(ps, m)), ListsOf(RestatedServices(svs, m)), sv.name,
                    Look(m, client.ip).value)
       <==> ServiceTranslates(sv, m) && (Visible(c, s, client, sv) || sv.allowGroups == [])
  {
    HostKnows(c, s, host, client, ps, m);
    if ServiceTranslates(sv, m) {
      HostOffers(c, s, host, sv, svs, m);
    } else {
      NotOffered(c, s, host, sv, svs, m);
    }
    hide ServiceTranslates, ListsOf, GroupsOf, RestatedPeers, RestatedServices, Inv, Visible, A.Connected,
      A.AllowsGroup;
    ConnectedSymmetric(c, host.group, client.group);
    VisibleMeans(c, s, host, client, sv);
  }

  lemma {:induction false} VisibleMeans(c: Config, s: Api.State, host: Member, client: Member, sv: Service)
    requires Inv(c, s)
    requires host.uuid in s.net.members && s.net.members[host.uuid] == host
    requires client.uuid in s.net.members && s.net.members[client.uuid] == client && client.uuid != host.uuid
    requires sv.nodeIP == host.ip
    ensures Visible(c, s, client, sv)
       <==> A.Connected(c.policy, client.group, host.group) && A.AllowsGroup(sv.allowGroups, client.group)
  {
    AddressesUnique(c, s);
    hide Inv, A.Connected, A.AllowsGroup;
  }

  /** Whom the server shows a service of another node, and whom that node admits, said over the groups:
      those the policy links with the node's, if the service's list is empty or covers them. So a group
      not on a service's list neither sees it nor gets past the check. */
  lemma {:induction false} ServiceIsFor(c: Config, s: Api.State, host: Member, client: Member, sv: Service,
                                        seen: seq<Service>)
    requires Inv(c, s)
    requires host.uuid in s.net.members && s.net.members[host.uuid] == host
    requires client.uuid in s.net.members && s.net.members[client.uuid] == client && client.uuid != host.uuid
    requires sv.name in s.net.services && s.net.services[sv.name] == sv && sv.nodeIP == host.ip
    requires ListsServices(c, s, client, seen)
    ensures sv in seen
       <==> A.Linked(c.policy, client.group, host.group)
            && (sv.allowGroups == [] || A.Covers(sv.allowGroups, client.group))
  {
    VisibleMeans(c, s, host, client, sv);
    A.ConnectedIff(c.policy, client.group, host.group);
    A.AllowsGroupIff(sv.allowGroups, client.group);
    hide Inv, Visible, A.Connected, A.AllowsGroup, A.Linked, A.Covers;
  }

  lemma {:induction false} CheckIsFor(c: Config, s: Api.State, host: Member, client: Member, sv: Service,
                                      ps: seq<Peer>, svs: seq<Service>, m: Option<map<Addr, Addr>>)
    requires Inv(c, s) && Injective(m)
    requires host.uuid in s.net.members && s.net.members[host.uuid] == host
    requires client.uuid in s.net.members && s.net.members[client.uuid] == client && client.uuid != host.uuid
    requires sv.name in s.net.services && s.net.services[sv.name] == sv && sv.nodeIP == host.ip
    requires ListsPeers(c, s, host, ps) && ListsServices(c, s, host, svs)
    requires Look(m, client.ip).Some?
    ensures Permits(GroupsOf(RestatedPeers(ps, m)), ListsOf(RestatedServices(svs, m)), sv.name,
                    Look(m, client.ip).value)
       <==> && ServiceTranslates(sv, m)
            && (|| sv.allowGroups == []
                || (A.Linked(c.policy, client.group, host.group) && A.Covers(sv.allowGroups, client.group)))
  {
    EnforcementAgrees(c, s, host, client, sv, ps, svs, m);
    VisibleMeans(c, s, host, client, sv);
    A.ConnectedIff(c.policy, client.group, host.group);
    A.AllowsGroupIff(sv.allowGroups, client.group);
    hide Inv, Visible, A.Connected, A.AllowsGroup, A.Linked, A.Covers, Permits, GroupsOf, ListsOf, RestatedPeers,
      RestatedServices, ServiceTranslates;
  }

  /** Whom the server lists to a caller: itself, and everyone the policy links its group with. */
  lemma {:induction false} PeerIsListedIff(c: Config, s: Api.State, caller: Member, m: Member, ps: seq<Peer>)
    requires Inv(c, s) && ListsPeers(c, s, caller, ps)
    requires m.uuid in s.net.members && s.net.members[m.uuid] == m
    ensures (exists p :: p in ps && p.ip == m.ip)
       <==> m.uuid == caller.uuid || A.Linked(c.policy, caller.group, m.group)
    ensures forall p :: p in ps && p.ip == m.ip ==>
      p.hostname == m.hostname && p.publicKey == m.publicKey && p.endpoint == m.endpoint && p.group == m.group
  {
    AddressesUnique(c, s);
    A.ConnectedIff(c.policy, caller.group, m.group);
    hide Inv, A.Connected, A.Linked;
    if SeesPeer(c, caller, m) { assert Listed(m) in ps; }
    forall p | p in ps && p.ip == m.ip ensures p == Listed(m) && SeesPeer(c, caller, m) {
      var d :| d in s.net.members && SeesPeer(c, caller, s.net.members[d]) && p == Listed(s.net.members[d]);
      assert d == m.uuid;
    }
  }

  /** An open service admits what the server hides: a member the policy does not connect with the host
      is not shown the service, yet passes the host's check. */
  lemma {:induction false} OpenServiceAdmitsStrangers(c: Config, s: Api.State, host: Member, client: Member,
                                                      sv: Service, ps: seq<Peer>, svs: seq<Service>,
                                                      m: Option<map<Addr, Addr>>)
    requires Inv(c, s) && Injective(m)
    requires host.uuid in s.net.members && s.net.members[host.uuid] == host
    requires client.uuid in s.net.members && s.net.members[client.uuid] == client && client.uuid != host.uuid
    requires sv.name in s.net.services && s.net.services[sv.name] == sv && sv.nodeIP == host.ip
    requires ListsPeers(c, s, host, ps) && ListsServices(c, s, host, svs)
    requires Look(m, client.ip).Some? && ServiceTranslates(sv, m)
    requires sv.allowGroups == [] && !A.Connected(c.policy, client.group, host.group)
    ensures !Visible(c, s, client, sv)
    ensures Permits(GroupsOf(RestatedPeers(ps, m)), ListsOf(RestatedServices(svs, m)), sv.name,
                    Look(m, client.ip).value)
  {
    VisibleMeans(c, s, host, client, sv);
    HostOffers(c, s, host, sv, svs, m);
  }

  /** Among the host's peers the two points agree on every service the host can offer. */
  lemma {:induction false} PeersAreTreatedAlike(c: Config, s: Api.State, host: Member, client: Member, sv: Service,
                                                ps: seq<Peer>, svs: seq<Service>, m: Option<map<Addr, Addr>>)
    requires Inv(c, s) && Injective(m)
    requires host.uuid in s.net.members && s.net.members[host.uuid] == host
    requires client.uuid in s.net.members && s.net.members[client.uuid] == client && client.uuid != host.uuid
    requires sv.name in s.net.services && s.net.services[sv.name] == sv && sv.nodeIP == host.ip
    requires ListsPeers(c, s, host, ps) && ListsServices(c, s, host, svs)
    requires Look(m, client.ip).Some?
    requires exists p :: p in ps && p.ip == client.ip
    ensures Permits(GroupsOf(RestatedPeers(ps, m)), ListsOf(RestatedServices(svs, m)), sv.name,
                    Look(m, client.ip).value)
       <==> ServiceTranslates(sv, m) && Visible(c, s, client, sv)
  {
    EnforcementAgrees(c, s, host, client, sv, ps, svs, m);
    VisibleMeans(c, s, host, client, sv);
    ConnectedSymmetric(c, host.group, client.group);
    AddressesUnique(c, s);
    hide Inv, A.Connected, Visible, ServiceTranslates, ListsOf, GroupsOf, RestatedPeers, RestatedServices;
    var p :| p in ps && p.ip == client.ip;
    var d :| d in s.net.members && SeesPeer(c, host, s.net.members[d]) && p == Listed(s.net.members[d]);
  }

  // ----- the translation never stands in the way -----

  /** Every address in either list was handed out by the server's allocators. */
  lemma {:induction false} ListedAddressesHandedOut(c: Config, s: Api.State)
    requires Inv(c, s)
    ensures forall d :: d in s.net.members ==> s.net.members[d].ip in P.HandedOut(s.nodes, s.services)
    ensures forall n :: n in s.net.services ==> ServiceAddresses(s.net.services[n]) <= P.HandedOut(s.nodes, s.services)
  {
    forall d | d in s.net.members ensures s.net.members[d].ip in P.HandedOut(s.nodes, s.services) {
      assert MemberOk(s, d);
      assert s.nodes.byKey[d] in s.nodes.byKey.Values;
    }
    forall n | n in s.net.services ensures ServiceAddresses(s.net.services[n]) <= P.HandedOut(s.nodes, s.services) {
      assert ServiceOk(s, n);
      var d :| d in s.net.members && s.net.members[d].ip == s.net.services[n].nodeIP;
      assert MemberOk(s, d);
      assert s.nodes.byKey[d] in s.nodes.byKey.Values && s.services.byKey[n] in s.services.byKey.Values;
    }
  }

  function ServiceAddresses(sv: Service): set<Addr> {
    {sv.nodeIP} + if sv.vip.Some? then {sv.vip.value} else {}
  }

  /** The local range has room for the requests: it is larger than the network, or as large and asked
      only for addresses the server handed out. P.ServedIff is the condition for other requests. */
  predicate RoomFor(c: Config, s: Api.State, local: Prefix, reqs: seq<Addr>) {
    && 1 <= local.bits <= 30 && Size(c.cidr) <= Size(local)
    && (Size(c.cidr) == Size(local) ==> forall r :: r in reqs ==> r in P.HandedOut(s.nodes, s.services))
  }

  lemma {:induction false} RoomServes(c: Config, s: Api.State, local: Prefix, reqs: seq<Addr>, a: Addr)
    requires Inv(c, s) && RoomFor(c, s, local, reqs + [a]) && Contains(c.cidr, a)
    ensures T.Request(T.Run(T.Fresh(local, c.cidr), reqs), a).1.Some?
  {
    hide T.Run, T.Request, T.Fresh, Contains, Size, P.HandedOut, P.ServerState;
    if Size(c.cidr) < Size(local) {
      P.LargerServes(local, c.cidr, reqs, a);
    } else {
      var all := reqs + [a];
      assert all[..|reqs|] == reqs && all[|reqs|] == a;
      P.NeverExhausts(c.cidr, s.nodes, s.services, local, all, |reqs|);
    }
  }

  /** A table with room maps every overlay address it is asked for, injectively. */
  lemma {:induction false} EverythingTranslates(c: Config, s: Api.State, local: Prefix, reqs: seq<Addr>)
    requires Inv(c, s) && RoomFor(c, s, local, reqs)
    ensures var m := Some(T.Run(T.Fresh(local, c.cidr), reqs).toLocal);
      Injective(m) && forall r :: r in reqs && Contains(c.cidr, r) ==> Look(m, r).Some?
  {
    T.FreshInv(local, c.cidr);
    T.RunKeeps(T.Fresh(local, c.cidr), reqs);
    var t := T.Run(T.Fresh(local, c.cidr), reqs);
    TableInjective(t);
    hide T.Run, T.Request, T.Fresh, T.Inv, Contains, Size, P.HandedOut, Inv;
    forall r | r in reqs && Contains(c.cidr, r) ensures r in t.toLocal {
      var k :| 0 <= k < |reqs| && reqs[k] == r;
      assert forall q :: q in reqs[..k] + [r] ==> q in reqs;
      RoomServes(c, s, local, reqs[..k], r);
      T.AnswersAreFinal(T.Fresh(local, c.cidr), reqs, k);
    }
  }

  /** So a host whose translator has room, whatever it was asked and in whatever order, decides as the
      server does. */
  lemma {:induction false} TranslatingHostAgrees(c: Config, s: Api.State, host: Member, client: Member, sv: Service,
                                                 ps: seq<Peer>, svs: seq<Service>, local: Prefix, reqs: seq<Addr>)
    requires Inv(c, s) && RoomFor(c, s, local, reqs)
    requires host.uuid in s.net.members && s.net.members[host.uuid] == host
    requires client.uuid in s.net.members && s.net.members[client.uuid] == client && client.uuid != host.uuid
    requires sv.name in s.net.services && s.net.services[sv.name] == sv && sv.nodeIP == host.ip
    requires ListsPeers(c, s, host, ps) && ListsServices(c, s, host, svs)
    requires client.ip in reqs && forall a :: a in ServiceAddresses(sv) ==> a in reqs
    ensures var m := Some(T.Run(T.Fresh(local, c.cidr), reqs).toLocal);
      && Look(m, client.ip).Some?
      && (Permits(GroupsOf(RestatedPeers(ps, m)), ListsOf(RestatedServices(svs, m)), sv.name, Look(m, client.ip).value)
          <==> Visible(c, s, client, sv) || sv.allowGroups == [])
  {
    EverythingTranslates(c, s, local, reqs);
    ListedAddresses(c, s);
    var m := Some(T.Run(T.Fresh(local, c.cidr), reqs).toLocal);
    hide Inv, T.Run, T.Fresh, Permits, Visible, ListsPeers, ListsServices, Injective, P.HandedOut, Size, Contains;
    assert sv.nodeIP in ServiceAddresses(sv);
    assert ServiceTranslates(sv, m);
    EnforcementAgrees(c, s, host, client, sv, ps, svs, m);
  }

  lemma {:induction false} ListedAddresses(c: Config, s: Api.State)
    requires Inv(c, s)
    ensures forall d :: d in s.net.members ==> Contains(c.cidr, s.net.members[d].ip)
    ensures forall n, a :: n in s.net.services && a in ServiceAddresses(s.net.services[n]) ==> Contains(c.cidr, a)
  {
    ListedAddressesHandedOut(c, s);
    P.HandedOutBound(c.cidr, s.nodes, s.services);
    hide Contains, P.HandedOut, ServiceAddresses;
  }

  /** The requests a node makes when it restates its lists are for addresses the server handed out. */
  lemma {:induction false} RestatingAsks(c: Config, s: Api.State, host: Member, ps: seq<Peer>, svs: seq<Service>,
                                         t: T.State)
    requires Inv(c, s) && ListsPeers(c, s, host, ps) && ListsServices(c, s, host, svs)
    ensures forall a :: a in PeerAsks(ps) ==> a in P.HandedOut(s.nodes, s.services)
    ensures forall a :: a in ServiceAsks(t, svs) ==> a in P.HandedOut(s.nodes, s.services)
  {
    ListedAddressesHandedOut(c, s);
    AskedPeersIsRun(t, ps);
    AskedServicesIsRun(t, svs);
    hide P.HandedOut, ServiceAsks, PeerAsks, T.Run, Inv, Visible;
    forall a | a in PeerAsks(ps) ensures a in P.HandedOut(s.nodes, s.services) {
      var p :| p in ps && p.ip == a;
      var d :| d in s.net.members && SeesPeer(c, host, s.net.members[d]) && p == Listed(s.net.members[d]);
    }
    forall a | a in ServiceAsks(t, svs) ensures a in P.HandedOut(s.nodes, s.services) {
      var sv :| sv in svs && (a == sv.nodeIP || Some(a) == sv.vip);
      assert sv.name in s.net.services && s.net.services[sv.name] == sv;
      assert a in ServiceAddresses(sv);
    }
  }

  /** The table over one refresh: asked before, then for the peers, then for the services, then more. */
  function Requests(before: seq<Addr>, ps: seq<Peer>, svs: seq<Service>, local: Prefix, cidr: Prefix,
                    later: seq<Addr>): seq<Addr>
    requires local.bits <= 30
  {
    before + PeerAsks(ps) + ServiceAsks(AskedPeers(T.Run(T.Fresh(local, cidr), before), ps), svs) + later
  }

  lemma {:induction false} RefreshIsRun(before: seq<Addr>, ps: seq<Peer>, svs: seq<Service>, local: Prefix,
                                        cidr: Prefix, later: seq<Addr>)
    requires local.bits <= 30
    ensures var t := AskedPeers(T.Run(T.Fresh(local, cidr), before), ps);
      T.Run(AskedServices(t, svs), later) == T.Run(T.Fresh(local, cidr), Requests(before, ps, svs, local, cidr, later))
  {
    hide T.Run, T.Fresh, AskedPeers, AskedServices, PeerAsks, ServiceAsks;
    var f := T.Fresh(local, cidr);
    var t := AskedPeers(T.Run(f, before), ps);
    AskedPeersIsRun(T.Run(f, before), ps);
    AskedServicesIsRun(t, svs);
    T.RunConcat(f, before, PeerAsks(ps));
    T.RunConcat(f, before + PeerAsks(ps), ServiceAsks(t, svs));
    T.RunConcat(f, before + PeerAsks(ps) + ServiceAsks(t, svs), later);
  }

  /** What was restated during the refresh is what the table at the end would make of the lists. */
  lemma {:induction false} RefreshKeeps(s: T.State, ps: seq<Peer>, svs: seq<Service>, later: seq<Addr>)
    requires T.Inv(s)
    ensures var t := AskedPeers(s, ps);
      var u := AskedServices(t, svs);
      var end := T.Run(u, later);
      && T.Inv(u) && T.Inv(end)
      && RestatedPeers(ps, Some(t.toLocal)) == RestatedPeers(ps, Some(end.toLocal))
      && RestatedServices(svs, Some(u.toLocal)) == RestatedServices(svs, Some(end.toLocal))
      && forall sv :: sv in svs ==>
        ServiceSettled(end, sv)
        && (ServiceTranslates(sv, Some(end.toLocal)) <==> ServiceTranslates(sv, Some(u.toLocal)))
  {
    hide ServiceTranslates, RestateService, T.Run, T.Inv, T.Extends, T.Settled, ServiceSettled, AskedPeers,
      AskedServices, RestatedPeers, RestatedServices;
    var t := AskedPeers(s, ps);
    var u := AskedServices(t, svs);
    var end := T.Run(u, later);
    AskedPeersKeeps(s, ps);
    AskedServicesKeeps(t, svs);
    T.RunKeeps(u, later);
    T.ExtendsTransitive(t, u, end);
    RestatedPeersStay(ps, t, end);
    RestatedServicesStay(svs, u, end);
    forall sv | sv in svs
      ensures ServiceSettled(end, sv)
      ensures ServiceTranslates(sv, Some(end.toLocal)) <==> ServiceTranslates(sv, Some(u.toLocal))
    {
      ServiceSettledStays(u, end, sv);
      TranslatesIffRestated(sv, Some(u.toLocal));
      TranslatesIffRestated(sv, Some(end.toLocal));
    }
  }

  lemma {:induction false} RefreshHasRoom(c: Config, s: Api.State, host: Member, client: Member, ps: seq<Peer>,
                                          svs: seq<Service>, local: Prefix,
                                          before: seq<Addr>, later: seq<Addr>, a: Addr)
    requires Inv(c, s) && RoomFor(c, s, local, before + later)
    requires client.uuid in s.net.members && s.net.members[client.uuid] == client
    requires ListsPeers(c, s, host, ps) && ListsServices(c, s, host, svs)
    requires a in P.HandedOut(s.nodes, s.services)
    ensures RoomFor(c, s, local, Requests(before, ps, svs, local, c.cidr, later + [client.ip]) + [a])
  {
    hide Size, P.HandedOut, PeerAsks, ServiceAsks, T.Run, T.Fresh, AskedPeers;
    ListedAddressesHandedOut(c, s);
    RestatingAsks(c, s, host, ps, svs, AskedPeers(T.Run(T.Fresh(local, c.cidr), before), ps));
    hide Inv, ListsPeers, ListsServices;
    assert forall r :: r in before + later <==> r in before || r in later;
  }

  /** With room, a settled service is a translated one. */
  lemma {:induction false} SettledTranslates(c: Config, s: Api.State, sv: Service, local: Prefix, reqs: seq<Addr>)
    requires Inv(c, s) && sv.nodeIP in reqs && Contains(c.cidr, sv.nodeIP)
    requires RoomFor(c, s, local, reqs) && ServiceSettled(T.Run(T.Fresh(local, c.cidr), reqs), sv)
    requires sv.vip.Some? ==> Contains(c.cidr, sv.vip.value) && RoomFor(c, s, local, reqs + [sv.vip.value])
    ensures ServiceTranslates(sv, Some(T.Run(T.Fresh(local, c.cidr), reqs).toLocal))
  {
    hide T.Run, T.Fresh, T.Request, Inv, RoomFor, Contains, Injective;
    EverythingTranslates(c, s, local, reqs);
    if sv.vip.Some? {
      RoomServes(c, s, local, reqs, sv.vip.value);
    }
  }

  /** The agreement for the lists a node really holds, from any table whatever it was asked: the peers
      restated under the table of one moment, the services under a later one, and a packet of the client
      arriving after yet more requests. */
  lemma {:induction false} RefreshedHostAgrees(c: Config, s: Api.State, host: Member, client: Member, sv: Service,
                                               ps: seq<Peer>, svs: seq<Service>, start: T.State, later: seq<Addr>)
    requires Inv(c, s) && T.Inv(start)
    requires host.uuid in s.net.members && s.net.members[host.uuid] == host
    requires client.uuid in s.net.members && s.net.members[client.uuid] == client && client.uuid != host.uuid
    requires sv.name in s.net.services && s.net.services[sv.name] == sv && sv.nodeIP == host.ip
    requires ListsPeers(c, s, host, ps) && ListsServices(c, s, host, svs)
    ensures var t := AskedPeers(start, ps);
      var u := AskedServices(t, svs);
      var src := T.Request(T.Run(u, later), client.ip).1;
      src.Some? ==>
        (Permits(GroupsOf(RestatedPeers(ps, Some(t.toLocal))), ListsOf(RestatedServices(svs, Some(u.toLocal))),
                 sv.name, src.value)
         <==> ServiceTranslates(sv, Some(u.toLocal)) && (Visible(c, s, client, sv) || sv.allowGroups == []))
  {
    hide T.Run, T.Request, T.Inv, Inv, AskedPeers, AskedServices, ListsPeers, ListsServices, Visible, Permits,
      GroupsOf, ListsOf, RestatedPeers, RestatedServices, Injective, ServiceSettled, ServiceTranslates;
    var u := AskedServices(AskedPeers(start, ps), svs);
    var end := T.Run(u, later + [client.ip]);
    OwnServiceListed(c, s, host, sv, svs);
    RefreshKeeps(start, ps, svs, later + [client.ip]);
    LastAnswer(u, later, client.ip);
    TableInjective(end);
    if client.ip in end.toLocal {
      EnforcementAgrees(c, s, host, client, sv, ps, svs, Some(end.toLocal));
    }
  }

  /** With room, from a fresh table on, the packet has a local address and the service is offered, so the
      host decides as the server does. */
  lemma {:induction false} RoomyHostAgrees(c: Config, s: Api.State, host: Member, client: Member, sv: Service,
                                           ps: seq<Peer>, svs: seq<Service>, local: Prefix,
                                           before: seq<Addr>, later: seq<Addr>)
    requires Inv(c, s) && RoomFor(c, s, local, before + later)
    requires host.uuid in s.net.members && s.net.members[host.uuid] == host
    requires client.uuid in s.net.members && s.net.members[client.uuid] == client && client.uuid != host.uuid
    requires sv.name in s.net.services && s.net.services[sv.name] == sv && sv.nodeIP == host.ip
    requires ListsPeers(c, s, host, ps) && ListsServices(c, s, host, svs)
    ensures var t := AskedPeers(T.Run(T.Fresh(local, c.cidr), before), ps);
      var u := AskedServices(t, svs);
      var src := T.Request(T.Run(u, later), client.ip).1;
      && src.Some? && ServiceTranslates(sv, Some(u.toLocal))
      && (Permits(GroupsOf(RestatedPeers(ps, Some(t.toLocal))), ListsOf(RestatedServices(svs, Some(u.toLocal))),
                  sv.name, src.value)
          <==> Visible(c, s, client, sv) || sv.allowGroups == [])
  {
    hide T.Run, T.Fresh, T.Request, T.Inv, Inv, Size, P.HandedOut, AskedPeers, AskedServices, PeerAsks, ServiceAsks,
      ListsPeers, ListsServices, Visible, Permits, GroupsOf, ListsOf, RestatedPeers, RestatedServices, Injective,
      Contains, ServiceSettled, ServiceTranslates, Requests, ServiceAddresses;
    var f := T.Fresh(local, c.cidr);
    var start := T.Run(f, before);
    var u := AskedServices(AskedPeers(start, ps), svs);
    var reqs := Requests(before, ps, svs, local, c.cidr, later + [client.ip]);
    OwnServiceListed(c, s, host, sv, svs);
    FreshRunInv(local, c.cidr, before);
    RefreshIsRun(before, ps, svs, local, c.cidr, later + [client.ip]);
    RefreshKeeps(start, ps, svs, later + [client.ip]);
    LastAnswer(u, later, client.ip);
    RefreshAsks(before, ps, svs, local, c.cidr, later + [client.ip], sv);
    ListedAddresses(c, s);
    ListedAddressesHandedOut(c, s);
    AddressesOf(sv);
    RefreshHasRoom(c, s, host, client, ps, svs, local, before, later, client.ip);
    RoomForFewer(c, s, local, reqs, client.ip);
    EverythingTranslates(c, s, local, reqs);
    if sv.vip.Some? {
      RefreshHasRoom(c, s, host, client, ps, svs, local, before, later, sv.vip.value);
    }
    SettledTranslates(c, s, sv, local, reqs);
    RefreshedHostAgrees(c, s, host, client, sv, ps, svs, start, later);
  }

  lemma {:induction false} AddressesOf(sv: Service)
    ensures sv.nodeIP in ServiceAddresses(sv) && (sv.vip.Some? ==> sv.vip.value in ServiceAddresses(sv))
  {
  }

  lemma {:induction false} RoomForFewer(c: Config, s: Api.State, local: Prefix, reqs: seq<Addr>, a: Addr)
    requires RoomFor(c, s, local, reqs + [a])
    ensures RoomFor(c, s, local, reqs)
  {
    hide Size, P.HandedOut;
    assert forall r :: r in reqs ==> r in reqs + [a];
  }

  lemma {:induction false} OwnServiceListed(c: Config, s: Api.State, host: Member, sv: Service, svs: seq<Service>)
    requires sv.name in s.net.services && s.net.services[sv.name] == sv && sv.nodeIP == host.ip
    requires ListsServices(c, s, host, svs)
    ensures sv in svs
  {
  }

  lemma {:induction false} FreshRunInv(local: Prefix, cidr: Prefix, reqs: seq<Addr>)
    requires local.bits <= 30
    ensures T.Inv(T.Run(T.Fresh(local, cidr), reqs))
  {
    T.FreshInv(local, cidr);
    T.RunKeeps(T.Fresh(local, cidr), reqs);
  }

  /** The answer to the last request is in the table it leaves. */
  lemma {:induction false} LastAnswer(s: T.State, later: seq<Addr>, a: Addr)
    requires T.Inv(s)
    ensures T.Request(T.Run(s, later), a).1 == Look(Some(T.Run(s, later + [a]).toLocal), a)
  {
    hide T.Request, T.Inv;
    T.RunKeeps(s, later);
    T.LocalKeeps(T.Run(s, later), a);
    T.RunConcat(s, later, [a]);
    OneAsk(T.Run(s, later), a);
  }

  lemma {:induction false} RefreshAsks(before: seq<Addr>, ps: seq<Peer>, svs: seq<Service>, local: Prefix, cidr: Prefix,
                                       later: seq<Addr>, sv: Service)
    requires local.bits <= 30 && sv in svs
    ensures var reqs := Requests(before, ps, svs, local, cidr, later);
      sv.nodeIP in reqs && forall a :: a in later ==> a in reqs
  {
    hide T.Run, T.Fresh, AskedPeers, PeerAsks, ServiceAsks;
    AskedServicesIsRun(AskedPeers(T.Run(T.Fresh(local, cidr), before), ps), svs);
  }

  // ----- the tunnel's own table -----

  /** Lists in which every address has one meaning. */
  ghost predicate OneMeaning(ps: seq<Peer>, svs: seq<Service>) {
    && (forall i, j :: 0 <= i < j < |ps| ==> ps[i].ip != ps[j].ip)
    && (forall i, j :: 0 <= i < j < |svs| && svs[i].vip.Some? ==> svs[i].vip != svs[j].vip)
    && (forall p, sv :: p in ps && sv in svs ==> sv.vip != Some(p.ip))
  }

  /** Lists from reachable states of one server have it, even when the peers were read in one state
      and the services in another. */
  lemma {:induction false} ListsHaveOneMeaning(c: Config, s: Api.State, t: Api.State, caller: Member, me: Member,
                                               ps: seq<Peer>, svs: seq<Service>)
    requires Inv(c, s) && Inv(c, t) && ListsPeers(c, s, caller, ps) && ListsServices(c, t, me, svs)
    ensures OneMeaning(ps, svs)
  {
    hide Base, Size, Floor, Masked, P.HandedOut, Visible, SeesPeer, I.Upper, I.Lower;
    P.HandedOutBound(c.cidr, s.nodes, s.services);
    P.HandedOutBound(c.cidr, t.nodes, t.services);
    I.HalvesPartition(c.cidr);
    forall p, sv | p in ps && sv in svs ensures sv.vip != Some(p.ip) {
      var d :| d in s.net.members && SeesPeer(c, caller, s.net.members[d]) && p == Listed(s.net.members[d]);
      assert MemberOk(s, d) && ServiceOk(t, sv.name);
      assert Contains(I.Lower(c.cidr), p.ip) by { assert s.nodes.byKey[d] in s.nodes.used; }
      assert Contains(I.Upper(c.cidr), sv.vip.value) by { assert t.services.byKey[sv.name] in t.services.used; }
    }
    hide Contains, P.HandedOut;
    hide I.Counted;
    forall i, j | 0 <= i < j < |svs| && svs[i].vip.Some? ensures svs[i].vip != svs[j].vip {
      assert svs[i] in svs && svs[j] in svs;
      assert ServiceOk(t, svs[i].name) && ServiceOk(t, svs[j].name);
    }
  }

  /** So with lists read in any two states a server reaches. */
  lemma {:induction false} ReachableListsHaveOneMeaning(c: Config, ops: seq<Op>, more: seq<Op>, caller: Member,
                                                        me: Member, ps: seq<Peer>, svs: seq<Service>)
    requires c.cidr.bits <= 28 && FreshRun(c, Initial(c), ops) && FreshRun(c, Initial(c), more)
    requires ListsPeers(c, Run(c, Initial(c), ops), caller, ps)
    requires ListsServices(c, Run(c, Initial(c), more), me, svs)
    ensures OneMeaning(ps, svs)
  {
    hide Inv, Run, Initial, FreshRun, OneMeaning, ListsPeers, ListsServices;
    ReachableInv(c, ops);
    ReachableInv(c, more);
    ListsHaveOneMeaning(c, Run(c, Initial(c), ops), Run(c, Initial(c), more), caller, me, ps, svs);
  }

  lemma {:induction false} HostedMeans(svs: seq<Service>, node: Addr)
    ensures forall a :: a in Hosted(svs, node) <==> exists sv :: sv in svs && sv.vip == Some(a) && sv.nodeIP == node
  {
    if svs != [] {
      var front, last := svs[..|svs| - 1], svs[|svs| - 1];
      HostedMeans(front, node);
      assert forall sv :: sv in svs <==> sv in front || sv == last;
    }
  }

  lemma {:induction false} EntriesMean(ps: seq<Peer>, svs: seq<Service>, self: Addr, keys: map<string, string>,
                                       relay: bool)
    ensures forall e :: e in Entries(ps, svs, self, keys, relay) <==>
      exists p :: p in ps && e in Entry(p, svs, self, keys, relay)
  {
    hide Entry;
    if ps != [] {
      var front, p := ps[..|ps| - 1], ps[|ps| - 1];
      EntriesMean(front, svs, self, keys, relay);
      assert forall q :: q in ps <==> q in front || q == p;
    }
  }

  /** The entry of a peer, by the address it leads with. */
  lemma {:induction false} EntryOf(ps: seq<Peer>, svs: seq<Service>, self: Addr, keys: map<string, string>,
                                   relay: bool, e: WgPeer) returns (p: Peer)
    requires e in Entries(ps, svs, self, keys, relay)
    ensures p in ps && e.allowed == [p.ip] + Hosted(svs, p.ip)
  {
    EntriesMean(ps, svs, self, keys, relay);
    p :| p in ps && e in Entry(p, svs, self, keys, relay);
  }

  function Leads(e: WgPeer): Option<Addr> { if e.allowed == [] then None else Some(e.allowed[0]) }

  /** Entries come from distinct peers. */
  lemma {:induction false} EntriesDistinct(ps: seq<Peer>, svs: seq<Service>, self: Addr, keys: map<string, string>,
                                           relay: bool, i: nat, j: nat)
    requires forall i, j :: 0 <= i < j < |ps| ==> ps[i].ip != ps[j].ip
    requires i < j < |Entries(ps, svs, self, keys, relay)|
    ensures Leads(Entries(ps, svs, self, keys, relay)[i]) != Leads(Entries(ps, svs, self, keys, relay)[j])
  {
    hide Hosted;
    var front, p := ps[..|ps| - 1], ps[|ps| - 1];
    var fs := Entries(front, svs, self, keys, relay);
    if j < |fs| {
      EntriesDistinct(front, svs, self, keys, relay, i, j);
    } else {
      assert fs[i] in fs;
      var q := EntryOf(front, svs, self, keys, relay, fs[i]);
      var k :| 0 <= k < |front| && front[k] == q;
      assert ps[k] == q && Leads(Entry(p, svs, self, keys, relay)[j - |fs|]) == Some(p.ip);
    }
  }

  /** Every overlay address is claimed by at most one tunnel peer. */
  lemma {:induction false} ClaimedOnce(ps: seq<Peer>, svs: seq<Service>, self: Addr, keys: map<string, string>,
                                       relay: bool, i: nat, j: nat, a: Addr)
    requires OneMeaning(ps, svs)
    requires var es := Entries(ps, svs, self, keys, relay);
      i < |es| && j < |es| && a in es[i].allowed && a in es[j].allowed
    ensures i == j
  {
    hide Entries, Hosted;
    var es := Entries(ps, svs, self, keys, relay);
    var p := EntryOf(ps, svs, self, keys, relay, es[i]);
    var q := EntryOf(ps, svs, self, keys, relay, es[j]);
    HostedMeans(svs, p.ip);
    HostedMeans(svs, q.ip);
    OneHome(ps, svs, p, q, a);
    assert Leads(es[i]) == Leads(es[j]);
    if i < j { EntriesDistinct(ps, svs, self, keys, relay, i, j); }
    if j < i { EntriesDistinct(ps, svs, self, keys, relay, j, i); }
  }

  lemma {:induction false} OneHome(ps: seq<Peer>, svs: seq<Service>, p: Peer, q: Peer, a: Addr)
    requires OneMeaning(ps, svs) && p in ps && q in ps
    requires a == p.ip || exists sv :: sv in svs && sv.vip == Some(a) && sv.nodeIP == p.ip
    requires a == q.ip || exists sv :: sv in svs && sv.vip == Some(a) && sv.nodeIP == q.ip
    ensures p.ip == q.ip
  {
    if a != p.ip && a != q.ip {
      var x :| x in svs && x.vip == Some(a) && x.nodeIP == p.ip;
      var y :| y in svs && y.vip == Some(a) && y.nodeIP == q.ip;
      var i :| 0 <= i < |svs| && svs[i] == x;
      var j :| 0 <= j < |svs| && svs[j] == y;
    }
  }

  /** From lists taken in one state, the address of every visible service of another node sits in that
      node's entry, if its key parses. */
  lemma {:induction false} ServicesAreCarried(c: Config, s: Api.State, caller: Member, ps: seq<Peer>, svs: seq<Service>,
                                              keys: map<string, string>, relay: bool, sv: Service)
    requires Inv(c, s) && caller.uuid in s.net.members && s.net.members[caller.uuid] == caller
    requires ListsPeers(c, s, caller, ps) && ListsServices(c, s, caller, svs)
    requires sv in svs && sv.nodeIP != caller.ip && sv.vip.Some?
    requires forall p :: p in ps && p.ip == sv.nodeIP ==> p.publicKey != "" && p.publicKey in keys
    ensures exists e ::
      e in Entries(ps, svs, caller.ip, keys, relay) && sv.nodeIP in e.allowed && sv.vip.value in e.allowed
  {
    HostsAreListed(c, s, caller, ps, svs, sv);
    hide *;
    var p :| p in ps && p.ip == sv.nodeIP;
    EntryCarries(ps, svs, caller.ip, keys, relay, p, sv);
  }

  lemma {:induction false} EntryCarries(ps: seq<Peer>, svs: seq<Service>, self: Addr, keys: map<string, string>,
                                        relay: bool, p: Peer, sv: Service)
    requires p in ps && sv in svs && sv.nodeIP == p.ip && p.ip != self && sv.vip.Some?
    requires p.publicKey != "" && p.publicKey in keys
    ensures exists e :: e in Entries(ps, svs, self, keys, relay) && p.ip in e.allowed && sv.vip.value in e.allowed
  {
    EntriesMean(ps, svs, self, keys, relay);
    HostedMeans(svs, p.ip);
    hide Entries, Hosted;
    var e := Entry(p, svs, self, keys, relay)[0];
    assert e in Entry(p, svs, self, keys, relay) && e.allowed == [p.ip] + Hosted(svs, p.ip);
  }

  /** Services this node publishes itself change nothing in its tunnel table. */
  lemma {:induction false} RepublishingIsLocal(ps: seq<Peer>, have: seq<Service>, want: seq<string>,
                                               answers: seq<Option<Service>>,
                                               self: Addr, keys: map<string, string>, relay: bool)
    requires |answers| == |want| && forall a :: a in answers && a.Some? ==> a.value.nodeIP == self
    ensures Entries(ps, Republished(have, want, answers), self, keys, relay) == Entries(ps, have, self, keys, relay)
  {
    if ps != [] {
      RepublishingIsLocal(ps[..|ps| - 1], have, want, answers, self, keys, relay);
      if ps[|ps| - 1].ip != self { RepublishedHosted(have, want, answers, self, ps[|ps| - 1].ip); }
    }
  }

  lemma {:induction false} RepublishedHosted(have: seq<Service>, want: seq<string>, answers: seq<Option<Service>>,
                                             self: Addr, node: Addr)
    requires |answers| == |want| && node != self && forall a :: a in answers && a.Some? ==> a.value.nodeIP == self
    ensures Hosted(Republished(have, want, answers), node) == Hosted(have, node)
  {
    if want != [] {
      var n := |want| - 1;
      RepublishedHosted(have, want[..n], answers[..n], self, node);
      assert answers[n] in answers;
      var before, after := Republished(have, want[..n], answers[..n]), Republished(have, want, answers);
      if after != before { assert after[..|after| - 1] == before; }
    }
  }
}
