/** What a node makes of the lists the server gives it: its tunnel peers, its restated lists, and its
    own check on every connection to a service it hosts. */
module Node {
  import opened Net
  import opened Store
  import opened Api
  import A = Acl
  import T = Table

  // ----- lists restated in local addresses -----

  /** The translation of one address: the identity when translating is off (no mapping at all). */
  function Look(m: Option<map<Addr, Addr>>, a: Addr): Option<Addr> {
    match m
    case None => Some(a)
    case Some(f) => if a in f then Some(f[a]) else None
  }

  predicate Injective(m: Option<map<Addr, Addr>>) {
    m.Some? ==> forall a, b :: a in m.value && b in m.value && m.value[a] == m.value[b] ==> a == b
  }

  function RestatePeer(p: Peer, m: Option<map<Addr, Addr>>): seq<Peer> {
    match Look(m, p.ip)
    case None => []
    case Some(l) => [p.(ip := l)]
  }

  /** Peers without a local address are left out. */
  function RestatedPeers(ps: seq<Peer>, m: Option<map<Addr, Addr>>): seq<Peer> {
    if ps == [] then [] else RestatedPeers(ps[..|ps| - 1], m) + RestatePeer(ps[|ps| - 1], m)
  }

  /** So are services whose node, or whose own address if any, has none. */
  function RestateService(sv: Service, m: Option<map<Addr, Addr>>): seq<Service> {
    match Look(m, sv.nodeIP)
    case None => []
    case Some(l) =>
      match sv.vip
      case None => [sv.(nodeIP := l)]
      case Some(v) => (match Look(m, v) case None => [] case Some(w) => [sv.(nodeIP := l, vip := Some(w))])
  }

  function RestatedServices(svs: seq<Service>, m: Option<map<Addr, Addr>>): seq<Service> {
    if svs == [] then [] else RestatedServices(svs[..|svs| - 1], m) + RestateService(svs[|svs| - 1], m)
  }

  lemma {:induction false} RestatedPeersSpec(ps: seq<Peer>, m: Option<map<Addr, Addr>>)
    ensures forall x :: x in RestatedPeers(ps, m) <==> exists p :: p in ps && x in RestatePeer(p, m)
  {
    if ps != [] {
      RestatedPeersSpec(ps[..|ps| - 1], m);
      assert forall p :: p in ps <==> p in ps[..|ps| - 1] || p == ps[|ps| - 1];
    }
  }

  lemma {:induction false} RestatedServicesSpec(svs: seq<Service>, m: Option<map<Addr, Addr>>)
    ensures forall x :: x in RestatedServices(svs, m) <==> exists sv :: sv in svs && x in RestateService(sv, m)
  {
    hide RestateService;
    if svs != [] {
      RestatedServicesSpec(svs[..|svs| - 1], m);
      assert forall p :: p in svs <==> p in svs[..|svs| - 1] || p == svs[|svs| - 1];
    }
  }

  /** Which addresses a translator asks its table for, in order: a service's own address only once
      its node's has been found. */
  function AskedPeers(s: T.State, ps: seq<Peer>): T.State {
    if ps == [] then s else T.Request(AskedPeers(s, ps[..|ps| - 1]), ps[|ps| - 1].ip).0
  }

  function AskedService(s: T.State, sv: Service): T.State {
    var (t, got) := T.Request(s, sv.nodeIP);
    if got.Some? && sv.vip.Some? then T.Request(t, sv.vip.value).0 else t
  }

  function AskedServices(s: T.State, svs: seq<Service>): T.State {
    if svs == [] then s else AskedService(AskedServices(s, svs[..|svs| - 1]), svs[|svs| - 1])
  }

  /** The same requests as plain sequences. */
  function PeerAsks(ps: seq<Peer>): seq<Addr> {
    if ps == [] then [] else PeerAsks(ps[..|ps| - 1]) + [ps[|ps| - 1].ip]
  }

  function ServiceAsk(s: T.State, sv: Service): seq<Addr> {
    [sv.nodeIP] + if T.Request(s, sv.nodeIP).1.Some? && sv.vip.Some? then [sv.vip.value] else []
  }

  function ServiceAsks(s: T.State, svs: seq<Service>): seq<Addr> {
    if svs == [] then []
    else
      var front, sv := svs[..|svs| - 1], svs[|svs| - 1];
      ServiceAsks(s, front) + ServiceAsk(AskedServices(s, front), sv)
  }

  lemma {:induction false} AskedPeersIsRun(s: T.State, ps: seq<Peer>)
    ensures AskedPeers(s, ps) == T.Run(s, PeerAsks(ps))
    ensures forall a :: a in PeerAsks(ps) <==> exists p :: p in ps && p.ip == a
  {
    hide T.Request;
    if ps != [] {
      var front, p := ps[..|ps| - 1], ps[|ps| - 1];
      AskedPeersIsRun(s, front);
      T.RunConcat(s, PeerAsks(front), [p.ip]);
      OneAsk(AskedPeers(s, front), p.ip);
      assert forall q :: q in ps <==> q in front || q == p;
    }
  }

  lemma {:induction false} OneAsk(s: T.State, a: Addr)
    ensures T.Run(s, [a]) == T.Request(s, a).0
  {
    hide T.Request;
    assert [a][1..] == [];
  }

  lemma {:induction false} AskedServicesIsRun(s: T.State, svs: seq<Service>)
    ensures AskedServices(s, svs) == T.Run(s, ServiceAsks(s, svs))
    ensures forall sv :: sv in svs ==> sv.nodeIP in ServiceAsks(s, svs)
    ensures forall a :: a in ServiceAsks(s, svs) ==> exists sv :: sv in svs && (a == sv.nodeIP || Some(a) == sv.vip)
  {
    hide T.Request;
    if svs != [] {
      var front, sv := svs[..|svs| - 1], svs[|svs| - 1];
      AskedServicesIsRun(s, front);
      AskedServiceIsRun(AskedServices(s, front), sv);
      hide T.Run, ServiceAsk, AskedService;
      T.RunConcat(s, ServiceAsks(s, front), ServiceAsk(AskedServices(s, front), sv));
      assert forall q :: q in svs <==> q in front || q == sv;
    }
  }

  lemma {:induction false} AskedServiceIsRun(s: T.State, sv: Service)
    ensures AskedService(s, sv) == T.Run(s, ServiceAsk(s, sv))
    ensures sv.nodeIP in ServiceAsk(s, sv)
    ensures forall a :: a in ServiceAsk(s, sv) ==> a == sv.nodeIP || Some(a) == sv.vip
  {
    hide T.Request;
    var t := T.Request(s, sv.nodeIP).0;
    OneAsk(s, sv.nodeIP);
    if T.Request(s, sv.nodeIP).1.Some? && sv.vip.Some? {
      OneAsk(t, sv.vip.value);
      T.RunConcat(s, [sv.nodeIP], [sv.vip.value]);
    }
  }

  // ----- the access check -----

  function GroupsOf(ps: seq<Peer>): map<Addr, string> {
    if ps == [] then map[] else GroupsOf(ps[..|ps| - 1])[ps[|ps| - 1].ip := ps[|ps| - 1].group]
  }

  function ListsOf(svs: seq<Service>): map<string, seq<string>> {
    if svs == [] then map[] else ListsOf(svs[..|svs| - 1])[svs[|svs| - 1].name := svs[|svs| - 1].allowGroups]
  }

  predicate Permits(groups: map<Addr, string>, allow: map<string, seq<string>>, service: string, src: Addr) {
    && service in allow
    && (allow[service] == [] || (src in groups && A.AllowsGroup(allow[service], groups[src])))
  }

  class AccessPolicy {
    var groups: map<Addr, string>
    var allow: map<string, seq<string>>

    constructor ()
      ensures groups == map[] && allow == map[]
    {
      groups, allow := map[], map[];
    }

    method Set(ps: seq<Peer>, svs: seq<Service>)
      modifies this
      ensures groups == GroupsOf(ps) && allow == ListsOf(svs)
    {
      var gs: map<Addr, string> := map[];
      for i := 0 to |ps|
        invariant gs == GroupsOf(ps[..i])
      {
        assert ps[..i + 1][..i] == ps[..i];
        gs := gs[ps[i].ip := ps[i].group];
      }
      var ls: map<string, seq<string>> := map[];
      for i := 0 to |svs|
        invariant ls == ListsOf(svs[..i])
      {
        assert svs[..i + 1][..i] == svs[..i];
        ls := ls[svs[i].name := svs[i].allowGroups];
      }
      assert ps[..|ps|] == ps && svs[..|svs|] == svs;
      groups, allow := gs, ls;
    }

    /** Refuses a service no longer in view and, unless the service is open, an unknown source. */
    method Check(service: string, src: Addr) returns (ok: bool)
      ensures ok <==> Permits(groups, allow, service, src)
    {
      if service !in allow { return false; }
      if allow[service] == [] { return true; }
      if src !in groups { return false; }
      ok := A.AllowsGroup(allow[service], groups[src]);
    }
  }

  lemma {:induction false} GroupsOfSpec(ps: seq<Peer>)
    requires forall p, q :: p in ps && q in ps && p.ip == q.ip ==> p.group == q.group
    ensures forall p :: p in ps ==> p.ip in GroupsOf(ps) && GroupsOf(ps)[p.ip] == p.group
    ensures forall a :: a in GroupsOf(ps) ==> exists p :: p in ps && p.ip == a
  {
    if ps != [] {
      GroupsOfSpec(ps[..|ps| - 1]);
      assert ps[|ps| - 1] in ps;
      assert forall p :: p in ps <==> p in ps[..|ps| - 1] || p == ps[|ps| - 1];
    }
  }

  lemma {:induction false} ListsOfSpec(svs: seq<Service>)
    requires forall x, y :: x in svs && y in svs && x.name == y.name ==> x.allowGroups == y.allowGroups
    ensures forall x :: x in svs ==> x.name in ListsOf(svs) && ListsOf(svs)[x.name] == x.allowGroups
    ensures forall n :: n in ListsOf(svs) ==> exists x :: x in svs && x.name == n
  {
    if svs != [] {
      ListsOfSpec(svs[..|svs| - 1]);
      assert svs[|svs| - 1] in svs;
      assert forall p :: p in svs <==> p in svs[..|svs| - 1] || p == svs[|svs| - 1];
    }
  }

  // ----- tunnel peers -----

  datatype Endpoint = Direct(hostPort: string) | Relayed(ip: Addr)

  /** A tunnel peer, with the /32s it may carry. */
  datatype WgPeer = WgPeer(key: string, endpoint: Endpoint, allowed: seq<Addr>)

  /** The addresses of the services a node hosts, in list order. */
  function Hosted(svs: seq<Service>, node: Addr): seq<Addr> {
    if svs == [] then []
    else
      var sv := svs[|svs| - 1];
      Hosted(svs[..|svs| - 1], node) + if sv.vip.Some? && sv.nodeIP == node then [sv.vip.value] else []
  }

  /** One peer's entry; keys holds the public keys that parse. */
  function Entry(p: Peer, svs: seq<Service>, self: Addr, keys: map<string, string>, relay: bool): seq<WgPeer> {
    if p.ip == self || p.publicKey == "" || p.publicKey !in keys then []
    else [WgPeer(keys[p.publicKey], if relay then Relayed(p.ip) else Direct(p.endpoint), [p.ip] + Hosted(svs, p.ip))]
  }

  function Entries(ps: seq<Peer>, svs: seq<Service>, self: Addr, keys: map<string, string>, relay: bool): seq<WgPeer> {
    if ps == [] then []
    else Entries(ps[..|ps| - 1], svs, self, keys, relay) + Entry(ps[|ps| - 1], svs, self, keys, relay)
  }

  lemma {:induction false} NoEntries(svs: seq<Service>, self: Addr, keys: map<string, string>, relay: bool)
    ensures Entries([], svs, self, keys, relay) == [] && forall a :: Hosted([], a) == []
  {
  }

  lemma {:induction false} HostedStep(svs: seq<Service>, i: nat)
    requires i < |svs|
    ensures forall a {:trigger Hosted(svs[..i + 1], a)} ::
      Hosted(svs[..i + 1], a)
      == Hosted(svs[..i], a) + if svs[i].vip.Some? && svs[i].nodeIP == a then [svs[i].vip.value] else []
  {
    assert svs[..i + 1][..i] == svs[..i];
  }

  lemma {:induction false} EntriesStep(ps: seq<Peer>, i: nat, svs: seq<Service>, self: Addr, keys: map<string, string>,
                                       relay: bool)
    requires i < |ps|
    ensures Entries(ps[..i + 1], svs, self, keys, relay)
         == Entries(ps[..i], svs, self, keys, relay) + Entry(ps[i], svs, self, keys, relay)
  {
    hide Entry;
    assert ps[..i + 1][..i] == ps[..i];
  }

  method BuildPeers(ps: seq<Peer>, svs: seq<Service>, self: Addr, keys: map<string, string>,
                    relay: bool) returns (wg: seq<WgPeer>)
    ensures wg == Entries(ps, svs, self, keys, relay)
  {
    hide Hosted, Entries;
    var hosted: map<Addr, seq<Addr>> := map[];
    NoEntries(svs, self, keys, relay);
    for i := 0 to |svs|
      invariant forall a: Addr :: (if a in hosted then hosted[a] else []) == Hosted(svs[..i], a)
    {
      HostedStep(svs, i);
      var sv := svs[i];
      if sv.vip.Some? {
        var before := if sv.nodeIP in hosted then hosted[sv.nodeIP] else [];
        hosted := hosted[sv.nodeIP := before + [sv.vip.value]];
      }
    }
    assert svs[..|svs|] == svs;
    wg := [];
    for i := 0 to |ps|
      invariant wg == Entries(ps[..i], svs, self, keys, relay)
    {
      EntriesStep(ps, i, svs, self, keys, relay);
      var p := ps[i];
      if p.ip == self || p.publicKey == "" { continue; }
      if p.publicKey !in keys { continue; }
      var endpoint := if relay then Relayed(p.ip) else Direct(p.endpoint);
      var allowed := [p.ip] + if p.ip in hosted then hosted[p.ip] else [];
      wg := wg + [WgPeer(keys[p.publicKey], endpoint, allowed)];
    }
    assert ps[..|ps|] == ps;
  }

  /** What republish returns: the list, and after it the wanted services not in it, each as the server
      stored it when asked; no answer means it refused. A name wanted twice is published twice. */
  function Republished(have: seq<Service>, want: seq<string>, answers: seq<Option<Service>>): seq<Service>
    requires |answers| == |want|
  {
    if want == [] then have
    else
      var n := |want| - 1;
      Republished(have, want[..n], answers[..n])
      + if (exists s :: s in have && s.name == want[n]) || answers[n].None? then [] else [answers[n].value]
  }

  method Republish(have: seq<Service>, want: seq<string>, answers: seq<Option<Service>>) returns (out: seq<Service>)
    requires |answers| == |want|
    ensures out == Republished(have, want, answers)
  {
    var listed: set<string> := set s | s in have :: s.name;
    out := have;
    for i := 0 to |want|
      invariant out == Republished(have, want[..i], answers[..i])
    {
      assert want[..i + 1][..i] == want[..i] && answers[..i + 1][..i] == answers[..i];
      if want[i] in listed { continue; }
      if answers[i].None? { continue; }
      out := out + [answers[i].value];
    }
    assert want[..|want|] == want && answers[..|want|] == answers;
  }

  // ----- the translator -----

  class Translator {
    const table: Option<T.Mapping>

    constructor (table: Option<T.Mapping>)
      ensures this.table == table
    {
      this.table := table;
    }

    ghost predicate Ok()
      reads this, if table.Some? then {table.value} else {}
    {
      table.Some? ==> table.value.Ok()
    }

    ghost function Now(): Option<map<Addr, Addr>>
      reads this, if table.Some? then {table.value} else {}
    {
      if table.Some? then Some(table.value.toLocal) else None
    }

    method Local(overlay: Addr) returns (got: Option<Addr>)
      requires Ok()
      modifies if table.Some? then {table.value} else {}
      ensures Ok()
      ensures table.None? ==> got == Some(overlay)
      ensures table.Some? ==> (table.value.Now(), got) == T.Request(old(table.value.Now()), overlay)
    {
      if table.None? { return Some(overlay); }
      got := table.value.Local(overlay);
    }

    /** The peer list in local addresses, each as the table at the end has it. */
    method Peers(ps: seq<Peer>) returns (out: seq<Peer>)
      requires Ok()
      modifies if table.Some? then {table.value} else {}
      ensures Ok()
      ensures out == RestatedPeers(ps, Now())
      ensures table.Some? ==> table.value.Now() == AskedPeers(old(table.value.Now()), ps)
    {
      if table.None? {
        IdentityPeers(ps);
        return ps;
      }
      hide T.Inv, T.Extends, T.Request, RestatePeer;
      ghost var s := table.value.Now();
      out := [];
      for i := 0 to |ps|
        invariant Ok() && table.value.Now() == AskedPeers(s, ps[..i])
        invariant out == RestatedPeers(ps[..i], Now())
      {
        PeerStep(s, ps, i);
        assert ps[..i + 1][..i] == ps[..i];
        var local := Local(ps[i].ip);
        if local.Some? {
          out := out + [ps[i].(ip := local.value)];
        }
      }
      assert ps[..|ps|] == ps;
    }

    /** Tunnel state re-keyed by local addresses; the keys are taken in no particular order. */
    method Handshakes(hs: map<Addr, bool>) returns (out: map<Addr, bool>)
      requires Ok()
      modifies if table.Some? then {table.value} else {}
      ensures Ok()
      ensures table.None? ==> out == hs
      ensures table.Some? ==> Rekeyed(hs, hs.Keys, table.value.toLocal, out)
    {
      if table.None? { return hs; }
      hide T.Inv, T.Extends, T.Request, T.Settled, Rekeyed;
      out := map[];
      var rest: set<Addr> := hs.Keys;
      NothingRekeyed(hs, table.value.toLocal);
      assert hs.Keys - rest == {};
      while rest != {}
        invariant Ok() && rest <= hs.Keys
        invariant forall b :: b in hs.Keys - rest ==> T.Settled(table.value.Now(), b)
        invariant Rekeyed(hs, hs.Keys - rest, table.value.toLocal, out)
        decreases |rest|
      {
        var a :| a in rest;
        ghost var s := table.value.Now();
        T.LocalKeeps(s, a);
        T.RequestSettles(s, a);
        RekeyedMore(hs, hs.Keys - rest, s, T.Request(s, a).0, out, a);
        assert hs.Keys - rest + {a} == hs.Keys - (rest - {a});
        rest := rest - {a};
        var local := Local(a);
        if local.Some? { out := out[local.value := hs[a]]; }
      }
      assert hs.Keys - rest == hs.Keys;
    }

    method Services(svs: seq<Service>) returns (out: seq<Service>)
      requires Ok()
      modifies if table.Some? then {table.value} else {}
      ensures Ok()
      ensures out == RestatedServices(svs, Now())
      ensures table.Some? ==> table.value.Now() == AskedServices(old(table.value.Now()), svs)
    {
      if table.None? {
        IdentityServices(svs);
        return svs;
      }
      hide T.Inv, T.Extends, T.Request, RestateService, AskedService;
      ghost var s := table.value.Now();
      out := [];
      for i := 0 to |svs|
        invariant Ok() && table.value.Now() == AskedServices(s, svs[..i])
        invariant out == RestatedServices(svs[..i], Now())
      {
        ServiceStep(s, svs, i);
        assert svs[..i + 1][..i] == svs[..i];
        var one := RestateOne(svs[i]);
        out := out + one;
      }
      assert svs[..|svs|] == svs;
    }

    /** One service, with its own address looked up only after its node's; empty when not offered. */
    method RestateOne(sv: Service) returns (one: seq<Service>)
      requires Ok() && table.Some?
      modifies if table.Some? then {table.value} else {}
      ensures Ok()
      ensures table.value.Now() == AskedService(old(table.value.Now()), sv)
      ensures one == RestateService(sv, Now())
    {
      ServiceSettles(table.value.Now(), sv);
      hide T.Inv, T.Extends, T.Request;
      var local := Local(sv.nodeIP);
      if local.None? { return []; }
      if sv.vip.None? { return [sv.(nodeIP := local.value)]; }
      var vip := Local(sv.vip.value);
      if vip.None? { return []; }
      one := [sv.(nodeIP := local.value, vip := vip)];
    }
  }

  /** What a refresh makes of the server's lists: peers restated, then services, with whatever the table
      holds at each moment, and both handed to the access check. */
  method Refresh(xlate: Translator, access: AccessPolicy, ps: seq<Peer>, svs: seq<Service>)
    requires xlate.Ok()
    modifies access, if xlate.table.Some? then {xlate.table.value} else {}
    ensures xlate.Ok()
    ensures xlate.table.None? ==> access.groups == GroupsOf(ps) && access.allow == ListsOf(svs)
    ensures xlate.table.Some? ==>
      var t := AskedPeers(old(xlate.table.value.Now()), ps);
      var u := AskedServices(t, svs);
      && access.groups == GroupsOf(RestatedPeers(ps, Some(t.toLocal)))
      && access.allow == ListsOf(RestatedServices(svs, Some(u.toLocal)))
      && xlate.table.value.Now() == u
  {
    IdentityPeers(ps);
    IdentityServices(svs);
    var shownPeers := xlate.Peers(ps);
    var shownServices := xlate.Services(svs);
    access.Set(shownPeers, shownServices);
  }

  lemma {:induction false} NothingRekeyed(hs: map<Addr, bool>, m: map<Addr, Addr>)
    ensures Rekeyed(hs, {}, m, map[])
  {
  }

  /** The part of a re-keyed map that a set of keys accounts for. */
  ghost predicate Rekeyed(hs: map<Addr, bool>, done: set<Addr>, m: map<Addr, Addr>, out: map<Addr, bool>) {
    && (forall a :: a in done && a in hs && a in m ==> m[a] in out && out[m[a]] == hs[a])
    && (forall l :: l in out ==> exists a :: a in done && a in hs && a in m && m[a] == l)
  }

  lemma {:induction false} RekeyedMore(hs: map<Addr, bool>, done: set<Addr>, s: T.State, t: T.State,
                                       out: map<Addr, bool>, a: Addr)
    requires T.Inv(s) && T.Inv(t) && T.Extends(s, t) && a in hs && a !in done
    requires forall b :: b in done ==> T.Settled(s, b)
    requires Rekeyed(hs, done, s.toLocal, out) && T.Settled(t, a)
    ensures Rekeyed(hs, done + {a}, t.toLocal, if a in t.toLocal then out[t.toLocal[a] := hs[a]] else out)
    ensures forall b :: b in done + {a} ==> T.Settled(t, b)
  {
    TableInjective(t);
    forall b | b in done
      ensures T.Settled(t, b) && (b in t.toLocal <==> b in s.toLocal)
      ensures b in s.toLocal ==> t.toLocal[b] == s.toLocal[b]
    {
      T.SettledStays(s, t, b);
    }
    hide T.Inv, T.Extends, T.Settled;
    RekeyedStep(hs, done, s.toLocal, t.toLocal, out, a);
  }

  lemma {:induction false} TableInjective(t: T.State)
    requires T.Inv(t)
    ensures Injective(Some(t.toLocal))
  {
  }

  lemma {:induction false} RekeyedStep(hs: map<Addr, bool>, done: set<Addr>, f: map<Addr, Addr>, g: map<Addr, Addr>,
                                       out: map<Addr, bool>, a: Addr)
    requires forall b :: b in done ==> (b in g <==> b in f) && (b in f ==> g[b] == f[b])
    requires Injective(Some(g)) && Rekeyed(hs, done, f, out) && a in hs && a !in done
    ensures Rekeyed(hs, done + {a}, g, if a in g then out[g[a] := hs[a]] else out)
  {
  }

  lemma {:induction false} IdentityPeers(ps: seq<Peer>)
    ensures RestatedPeers(ps, None) == ps
  {
    if ps != [] { IdentityPeers(ps[..|ps| - 1]); }
  }

  lemma {:induction false} IdentityServices(svs: seq<Service>)
    ensures RestatedServices(svs, None) == svs
  {
    if svs != [] {
      var front, last := svs[..|svs| - 1], svs[|svs| - 1];
      IdentityServices(front);
      IdentityService(last);
      hide RestateService;
      assert front + [last] == svs;
    }
  }

  lemma {:induction false} IdentityService(sv: Service)
    ensures RestateService(sv, None) == [sv]
  {
    assert Look(None, sv.nodeIP) == Some(sv.nodeIP);
    assert sv.vip.Some? ==> Look(None, sv.vip.value) == sv.vip;
  }

  // ----- answers are final -----

  lemma {:induction false} AskedPeersKeeps(s: T.State, ps: seq<Peer>)
    requires T.Inv(s)
    ensures T.Inv(AskedPeers(s, ps)) && T.Extends(s, AskedPeers(s, ps))
    ensures forall p :: p in ps ==> T.Settled(AskedPeers(s, ps), p.ip)
  {
    hide T.Inv, T.Extends, T.Request, T.Settled;
    if ps == [] {
      T.ExtendsReflexive(s);
    } else {
      var front, p := ps[..|ps| - 1], ps[|ps| - 1];
      var t := AskedPeers(s, front);
      AskedPeersKeeps(s, front);
      T.LocalKeeps(t, p.ip);
      T.RequestSettles(t, p.ip);
      T.ExtendsTransitive(s, t, T.Request(t, p.ip).0);
      forall q | q in front ensures T.Settled(T.Request(t, p.ip).0, q.ip) {
        T.SettledStays(t, T.Request(t, p.ip).0, q.ip);
      }
      assert forall q :: q in ps <==> q in front || q == p;
    }
  }

  lemma {:induction false} RestatedPeersStay(ps: seq<Peer>, s: T.State, t: T.State)
    requires T.Inv(s) && T.Inv(t) && T.Extends(s, t) && forall p :: p in ps ==> T.Settled(s, p.ip)
    ensures RestatedPeers(ps, Some(t.toLocal)) == RestatedPeers(ps, Some(s.toLocal))
  {
    if ps != [] {
      var front, p := ps[..|ps| - 1], ps[|ps| - 1];
      assert forall q :: q in front ==> q in ps;
      RestatedPeersStay(front, s, t);
      assert p in ps;
      T.SettledStays(s, t, p.ip);
    }
  }

  /** One more peer: what the list is restated to afterwards. */
  lemma {:induction false} PeerStep(s: T.State, ps: seq<Peer>, i: nat)
    requires T.Inv(s) && i < |ps|
    ensures var t := AskedPeers(s, ps[..i]);
      var (u, got) := T.Request(t, ps[i].ip);
      && AskedPeers(s, ps[..i + 1]) == u
      && RestatedPeers(ps[..i + 1], Some(u.toLocal))
      == RestatedPeers(ps[..i], Some(t.toLocal)) + (if got.Some? then [ps[i].(ip := got.value)] else [])
  {
    var t := AskedPeers(s, ps[..i]);
    assert ps[..i + 1][..i] == ps[..i];
    AskedPeersKeeps(s, ps[..i]);
    T.LocalKeeps(t, ps[i].ip);
    hide T.Inv, T.Extends, T.Request;
    RestatedPeersStay(ps[..i], t, T.Request(t, ps[i].ip).0);
  }

  predicate ServiceSettled(s: T.State, sv: Service) {
    && T.Settled(s, sv.nodeIP)
    && (sv.nodeIP in s.toLocal && sv.vip.Some? ==> T.Settled(s, sv.vip.value))
  }

  lemma {:induction false} ServiceSettledStays(s: T.State, t: T.State, sv: Service)
    requires T.Inv(s) && T.Inv(t) && T.Extends(s, t) && ServiceSettled(s, sv)
    ensures ServiceSettled(t, sv)
    ensures RestateService(sv, Some(t.toLocal)) == RestateService(sv, Some(s.toLocal))
  {
    T.SettledStays(s, t, sv.nodeIP);
    if sv.nodeIP in s.toLocal && sv.vip.Some? { T.SettledStays(s, t, sv.vip.value); }
  }

  lemma {:induction false} ServiceSettles(s: T.State, sv: Service)
    requires T.Inv(s)
    ensures var t := AskedService(s, sv);
      && T.Inv(t) && T.Extends(s, t) && ServiceSettled(t, sv)
      && var (u, got) := T.Request(s, sv.nodeIP);
         var (v, vip) := T.Request(u, if sv.vip.Some? then sv.vip.value else 0);
         RestateService(sv, Some(t.toLocal))
         == if got.None? then []
            else if sv.vip.None? then [sv.(nodeIP := got.value)]
            else if vip.None? then [] else [sv.(nodeIP := got.value, vip := vip)]
  {
    var u := T.Request(s, sv.nodeIP).0;
    T.LocalKeeps(s, sv.nodeIP);
    T.RequestSettles(s, sv.nodeIP);
    if T.Request(s, sv.nodeIP).1.Some? && sv.vip.Some? {
      var v := T.Request(u, sv.vip.value).0;
      T.LocalKeeps(u, sv.vip.value);
      T.RequestSettles(u, sv.vip.value);
      T.ExtendsTransitive(s, u, v);
      T.SettledStays(u, v, sv.nodeIP);
    }
  }

  lemma {:induction false} AskedServicesKeeps(s: T.State, svs: seq<Service>)
    requires T.Inv(s)
    ensures T.Inv(AskedServices(s, svs)) && T.Extends(s, AskedServices(s, svs))
    ensures forall sv :: sv in svs ==> ServiceSettled(AskedServices(s, svs), sv)
  {
    hide T.Inv, T.Extends, T.Request, ServiceSettled, AskedService;
    if svs == [] {
      T.ExtendsReflexive(s);
    } else {
      var front, sv := svs[..|svs| - 1], svs[|svs| - 1];
      var t := AskedServices(s, front);
      AskedServicesKeeps(s, front);
      ServiceSettles(t, sv);
      T.ExtendsTransitive(s, t, AskedService(t, sv));
      forall q | q in front ensures ServiceSettled(AskedService(t, sv), q) {
        ServiceSettledStays(t, AskedService(t, sv), q);
      }
      assert forall q :: q in svs <==> q in front || q == sv;
    }
  }

  lemma {:induction false} RestatedServicesStay(svs: seq<Service>, s: T.State, t: T.State)
    requires T.Inv(s) && T.Inv(t) && T.Extends(s, t) && forall sv :: sv in svs ==> ServiceSettled(s, sv)
    ensures RestatedServices(svs, Some(t.toLocal)) == RestatedServices(svs, Some(s.toLocal))
  {
    hide T.Inv, T.Extends, ServiceSettled, RestateService;
    if svs != [] {
      var front, sv := svs[..|svs| - 1], svs[|svs| - 1];
      assert forall q :: q in front ==> q in svs;
      RestatedServicesStay(front, s, t);
      assert sv in svs;
      ServiceSettledStays(s, t, sv);
    }
  }

  lemma {:induction false} ServiceStep(s: T.State, svs: seq<Service>, i: nat)
    requires T.Inv(s) && i < |svs|
    ensures var t := AskedServices(s, svs[..i]);
      var u := AskedService(t, svs[i]);
      && T.Inv(t) && AskedServices(s, svs[..i + 1]) == u
      && RestatedServices(svs[..i + 1], Some(u.toLocal))
      == RestatedServices(svs[..i], Some(t.toLocal)) + RestateService(svs[i], Some(u.toLocal))
  {
    var t := AskedServices(s, svs[..i]);
    assert svs[..i + 1][..i] == svs[..i];
    AskedServicesKeeps(s, svs[..i]);
    ServiceSettles(t, svs[i]);
    hide T.Inv, T.Extends, T.Request, AskedService, RestateService;
    RestatedServicesStay(svs[..i], t, AskedService(t, svs[i]));
  }
}
