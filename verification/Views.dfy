/** What registering and publishing come to for everyone else, said over the requests themselves. */
module Views {
  import opened Net
  import opened Text
  import opened Store
  import opened Api
  import opened Node
  import A = Acl
  import I = Ipam
  import P = AddressPlan
  import E = Enforcement

  // ----- registration -----

  /** The allocator has nothing for the key: it is new, and every address but the first is taken. */
  predicate NothingLeft(s: I.State, key: string) {
    key !in s.byKey && |s.byKey| == Size(s.prefix) - 1
  }

  lemma {:induction false} NothingLeftIff(s: I.State, key: string)
    requires I.Inv(s) && I.Counted(s)
    ensures I.Request(s, key).1.None? <==> NothingLeft(s, key)
  {
    I.RequestCounts(s, key);
  }

  /** Which registrations succeed, in which order the others fail, and that a failing one changes no
      member, token or service. */
  lemma {:induction false} RegisterOutcome(c: Config, s: Api.State, req: RegisterRequest, minted: Option<string>)
    requires Inv(c, s)
    ensures var (t, r) := AfterRegister(c, s, req, minted);
      && r.Ok? == (req.token != "" && req.token in c.tokens && req.uuid != "" && req.publicKey != ""
                   && !NothingLeft(s.nodes, req.uuid) && minted.Some?)
      && (r.Err? ==> t.net == s.net)
      && (req.token == "" || req.token !in c.tokens ==> r == Err(Unauthorized) && t == s)
      && (r == Err(Unauthorized) ==> req.token == "" || req.token !in c.tokens)
      && (r == Err(BadRequest) <==> req.token != "" && req.token in c.tokens && (req.uuid == "" || req.publicKey == ""))
      && (r == Err(MintFailed) ==> minted.None?)
      && (r == Err(Exhausted) ==> NothingLeft(s.nodes, req.uuid))
  {
    A.GroupOfMeans(c.tokens, req.token);
    NothingLeftIff(s.nodes, req.uuid);
    hide A.GroupOf, I.Request, I.Inv, I.Counted, NothingLeft, AfterUpsert;
  }

  /** The member stored is the one the request describes, under the group its join token names. */
  lemma {:induction false} RegisteredAsAsked(c: Config, s: Api.State, req: RegisterRequest, minted: Option<string>)
    requires Inv(c, s) && FreshOp(s, Op.Register(req, minted)) && AfterRegister(c, s, req, minted).1.Ok?
    ensures var (t, r) := AfterRegister(c, s, req, minted);
      && req.uuid in t.net.members && t.net.members[req.uuid] == r.value
      && r.value.uuid == req.uuid && r.value.hostname == req.hostname && r.value.publicKey == req.publicKey
      && r.value.endpoint == req.endpoint && Some(r.value.token) == minted
      && req.token in c.tokens && r.value.group == A.GroupOf(c.tokens, req.token).0
  {
    hide A.GroupOf, I.Request, Inv, AfterUpsert;
    RegisteredIsKnown(c, s, req, minted);
    A.GroupOfMeans(c.tokens, req.token);
  }

  /** The run registers the device no more. */
  predicate Leaves(ops: seq<Op>, uuid: string) {
    forall i :: 0 <= i < |ops| ==> !(ops[i].Register? && ops[i].req.uuid == uuid)
  }

  /** Nobody else's registration or publication touches a member. */
  lemma {:induction false} MemberStands(c: Config, s: Api.State, ops: seq<Op>, uuid: string)
    requires uuid in s.net.members && Leaves(ops, uuid)
    ensures var t := Run(c, s, ops); uuid in t.net.members && t.net.members[uuid] == s.net.members[uuid]
  {
    if ops != [] {
      var front, op := ops[..|ops| - 1], ops[|ops| - 1];
      assert forall i :: 0 <= i < |front| ==> front[i] == ops[i];
      MemberStands(c, s, front, uuid);
      OneLeaves(c, Run(c, s, front), op, uuid);
      hide Apply, Run;
      assert Run(c, s, ops) == Apply(c, Run(c, s, front), op) by { RunLast(c, s, ops); }
    }
  }

  lemma {:induction false} RunLast(c: Config, s: Api.State, ops: seq<Op>)
    requires ops != []
    ensures Run(c, s, ops) == Apply(c, Run(c, s, ops[..|ops| - 1]), ops[|ops| - 1])
  {
  }

  lemma {:induction false} OneLeaves(c: Config, s: Api.State, op: Op, uuid: string)
    requires uuid in s.net.members && !(op.Register? && op.req.uuid == uuid)
    ensures var t := Apply(c, s, op); uuid in t.net.members && t.net.members[uuid] == s.net.members[uuid]
  {
    hide A.GroupOf, I.Request, CleanGroups;
  }

  /** From then on, whatever others do, every list that shows the device shows the name, key and
      endpoint it registered with; and it is shown to itself and to the groups linked with its own. */
  lemma {:induction false} RegisteredIsListed(c: Config, s: Api.State, req: RegisterRequest, minted: Option<string>,
                                              ops: seq<Op>, caller: Member, ps: seq<Peer>)
    requires Inv(c, s) && FreshOp(s, Op.Register(req, minted)) && AfterRegister(c, s, req, minted).1.Ok?
    requires FreshRun(c, AfterRegister(c, s, req, minted).0, ops) && Leaves(ops, req.uuid)
    requires ListsPeers(c, Run(c, AfterRegister(c, s, req, minted).0, ops), caller, ps)
    ensures var m := AfterRegister(c, s, req, minted).1.value;
      && ((exists p :: p in ps && p.ip == m.ip)
          <==> req.uuid == caller.uuid || A.Linked(c.policy, caller.group, m.group))
      && (forall p :: p in ps && p.ip == m.ip ==>
            p.hostname == req.hostname && p.publicKey == req.publicKey && p.endpoint == req.endpoint)
  {
    var (t, r) := AfterRegister(c, s, req, minted);
    RegisteredAsAsked(c, s, req, minted);
    RegisterKeeps(c, s, req, minted);
    hide Inv, Continues, AfterRegister, ListsPeers, A.Linked, FreshRun, Run, Leaves;
    RunKeeps(c, t, ops);
    MemberStands(c, t, ops, req.uuid);
    E.PeerIsListedIff(c, Run(c, t, ops), caller, r.value, ps);
  }

  /** A listed peer with a key that parses gets a tunnel: to that key, at its endpoint or through the
      relay, for its address first. */
  lemma {:induction false} PeerIsTunnelled(ps: seq<Peer>, svs: seq<Service>, self: Addr, keys: map<string, string>,
                                           relay: bool, p: Peer)
    requires p in ps && p.ip != self && p.publicKey != "" && p.publicKey in keys
    ensures exists e :: e in Entries(ps, svs, self, keys, relay) && Tunnels(e, p, svs, keys, relay)
  {
    E.EntriesMean(ps, svs, self, keys, relay);
    hide Entries, Hosted;
    var e := Entry(p, svs, self, keys, relay)[0];
    TunnelFor(p, svs, self, keys, relay);
    assert e in Entry(p, svs, self, keys, relay);
  }

  /** The entry carries the peer's key and endpoint, its address, and those of the services on it. */
  ghost predicate Tunnels(e: WgPeer, p: Peer, svs: seq<Service>, keys: map<string, string>, relay: bool) {
    && p.publicKey in keys && e.key == keys[p.publicKey]
    && (relay ==> e.endpoint == Relayed(p.ip)) && (!relay ==> e.endpoint == Direct(p.endpoint))
    && |e.allowed| > 0 && e.allowed[0] == p.ip
    && forall a :: a in e.allowed[1..] <==> exists sv :: sv in svs && sv.vip == Some(a) && sv.nodeIP == p.ip
  }

  lemma {:induction false} TunnelFor(p: Peer, svs: seq<Service>, self: Addr, keys: map<string, string>, relay: bool)
    requires p.ip != self && p.publicKey != "" && p.publicKey in keys
    ensures var es := Entry(p, svs, self, keys, relay);
      |es| == 1 && Tunnels(es[0], p, svs, keys, relay)
  {
    E.HostedMeans(svs, p.ip);
    hide Hosted;
    var e := Entry(p, svs, self, keys, relay)[0];
    assert e.allowed[1..] == Hosted(svs, p.ip);
  }

  /** And nobody else gets one. */
  lemma {:induction false} TunnelsAreForPeers(ps: seq<Peer>, svs: seq<Service>, self: Addr, keys: map<string, string>,
                                              relay: bool, e: WgPeer)
    requires e in Entries(ps, svs, self, keys, relay)
    ensures exists p :: p in ps && p.ip != self && p.publicKey != "" && Tunnels(e, p, svs, keys, relay)
  {
    E.EntriesMean(ps, svs, self, keys, relay);
    hide Entries, Hosted, Tunnels;
    var p :| p in ps && e in Entry(p, svs, self, keys, relay);
    TunnelFor(p, svs, self, keys, relay);
  }

  /** Together: a node that is listed the device, and can parse its key, tunnels to the key and endpoint
      of the registration. */
  lemma {:induction false} RegisteredIsTunnelled(c: Config, s: Api.State, req: RegisterRequest, minted: Option<string>,
                                                 ops: seq<Op>, caller: Member, ps: seq<Peer>, svs: seq<Service>,
                                                 keys: map<string, string>)
    requires Inv(c, s) && FreshOp(s, Op.Register(req, minted)) && AfterRegister(c, s, req, minted).1.Ok?
    requires FreshRun(c, AfterRegister(c, s, req, minted).0, ops) && Leaves(ops, req.uuid)
    requires ListsPeers(c, Run(c, AfterRegister(c, s, req, minted).0, ops), caller, ps)
    requires exists p :: p in ps && p.ip == AfterRegister(c, s, req, minted).1.value.ip
    requires req.publicKey in keys && caller.ip != AfterRegister(c, s, req, minted).1.value.ip
    ensures var ip := AfterRegister(c, s, req, minted).1.value.ip;
      && (exists e :: e in Entries(ps, svs, caller.ip, keys, false)
            && e.key == keys[req.publicKey] && e.endpoint == Direct(req.endpoint)
            && |e.allowed| > 0 && e.allowed[0] == ip)
      && (exists e :: e in Entries(ps, svs, caller.ip, keys, true)
            && e.key == keys[req.publicKey] && e.endpoint == Relayed(ip)
            && |e.allowed| > 0 && e.allowed[0] == ip)
  {
    RegisterOutcome(c, s, req, minted);
    RegisteredIsListed(c, s, req, minted, ops, caller, ps);
    hide Inv, FreshRun, Run, ListsPeers, A.Linked, AfterRegister, Leaves, Entries;
    var p :| p in ps && p.ip == AfterRegister(c, s, req, minted).1.value.ip;
    PeerIsTunnelled(ps, svs, caller.ip, keys, false, p);
    PeerIsTunnelled(ps, svs, caller.ip, keys, true, p);
  }

  // ----- publication -----

  /** The groups a publication is for: the cores of those that are not blank. */
  lemma {:induction false} CleanGroupsMean(gs: seq<string>)
    ensures forall g :: g in CleanGroups(gs) <==> g != "" && exists raw :: raw in gs && Core(raw, g)
    ensures CleanGroups(gs) == [] <==> forall raw :: raw in gs ==> Core(raw, "")
  {
    hide Core, Trim;
    forall raw, g ensures Core(raw, g) <==> Trim(raw) == g {
      TrimIsCore(raw);
      if Core(raw, g) { CoreUnique(raw, g); }
    }
    if gs != [] {
      var first, rest := gs[0], gs[1..];
      CleanGroupsMean(rest);
      assert forall raw :: raw in gs <==> raw == first || raw in rest;
      assert forall g :: g in CleanGroups(gs) <==> (g == Trim(first) && g != "") || g in CleanGroups(rest);
      forall g ensures g in CleanGroups(gs) <==> g != "" && exists raw :: raw in gs && Core(raw, g) {
        if g == Trim(first) && g != "" { assert first in gs && Core(first, g); }
        if g in CleanGroups(rest) {
          var raw :| raw in rest && Core(raw, g);
          assert raw in gs;
        }
      }
      if CleanGroups(gs) == [] {
        assert Core(first, "");
        assert CleanGroups(rest) == [];
      } else {
        assert CleanGroups(gs)[0] in CleanGroups(gs);
        var raw :| raw in gs && Core(raw, CleanGroups(gs)[0]);
        assert !Core(raw, "");
      }
    }
  }

  /** Which publications succeed, and in which order the others fail. */
  lemma {:induction false} PublishOutcome(c: Config, s: Api.State, token: string, req: PublishRequest)
    requires Inv(c, s)
    ensures var (t, r) := AfterPublish(s, token, req);
      var known := token != "" && token in s.net.byToken;
      && r.Ok? == (known && req.name != "" && req.port != 0
                   && (req.nodeIP.None? || req.nodeIP.value == s.net.byToken[token].ip)
                   && !NothingLeft(s.services, req.name))
      && (r.Err? ==> t.net == s.net)
      && (r == Err(Unauthorized) <==> !known)
      && (r == Err(BadRequest) <==> known && (req.name == "" || req.port == 0))
      && (r == Err(Forbidden) <==> known && req.name != "" && req.port != 0
                                   && req.nodeIP.Some? && req.nodeIP.value != s.net.byToken[token].ip)
  {
    NothingLeftIff(s.services, req.name);
    hide I.Request, I.Inv, I.Counted, NothingLeft, CleanGroups;
  }

  /** The service stored, and listed to whoever is shown it, is the one the request describes, on the
      caller's node; a request without a protocol means tcp. */
  lemma {:induction false} PublishedAsAsked(c: Config, s: Api.State, token: string, req: PublishRequest,
                                            caller: Member, svs: seq<Service>, x: Service)
    requires Inv(c, s) && AfterPublish(s, token, req).1.Ok?
    requires ListsServices(c, AfterPublish(s, token, req).0, caller, svs) && x in svs && x.name == req.name
    ensures x == AfterPublish(s, token, req).1.value
    ensures x.port == req.port && x.backendPort == req.backendPort && token in s.net.byToken
    ensures x.nodeIP == s.net.byToken[token].ip && x.vip.Some?
    ensures x.proto == if req.proto == "" then "tcp" else req.proto
    ensures forall g :: g in x.allowGroups <==> g != "" && exists raw :: raw in req.allowGroups && Core(raw, g)
    ensures x.allowGroups == [] <==> forall raw :: raw in req.allowGroups ==> Core(raw, "")
  {
    CleanGroupsMean(req.allowGroups);
    hide I.Request, Inv, CleanGroups, Visible, Core;
  }

  // ----- what a node makes of the lists -----

  /** A restated peer is the peer with its address looked up, and nothing else changed. */
  lemma {:induction false} RestatedPeerMeans(p: Peer, m: Option<map<Addr, Addr>>, x: Peer)
    ensures x in RestatePeer(p, m) <==>
      && Look(m, p.ip) == Some(x.ip)
      && x.hostname == p.hostname && x.publicKey == p.publicKey && x.endpoint == p.endpoint && x.group == p.group
  {
    if Look(m, p.ip) == Some(x.ip) { assert RestatePeer(p, m)[0] == p.(ip := x.ip); }
  }

  /** A restated service is the service with both its addresses looked up, each in its own place. */
  lemma {:induction false} RestatedServiceMeans(sv: Service, m: Option<map<Addr, Addr>>, x: Service)
    ensures x in RestateService(sv, m) <==>
      && Look(m, sv.nodeIP) == Some(x.nodeIP)
      && (if sv.vip.Some? then x.vip.Some? && Look(m, sv.vip.value) == x.vip else x.vip.None?)
      && x.name == sv.name && x.proto == sv.proto && x.port == sv.port && x.backendPort == sv.backendPort
      && x.allowGroups == sv.allowGroups
  {
    if Look(m, sv.nodeIP) == Some(x.nodeIP) && (sv.vip.Some? ==> Look(m, sv.vip.value).Some?) {
      assert RestateService(sv, m)[0] == sv.(nodeIP := x.nodeIP, vip := RestateService(sv, m)[0].vip);
    }
  }

  /** The access check takes a peer's group, and a service's list, from its last entry. */
  lemma {:induction false} LastPeerWins(ps: seq<Peer>, a: Addr)
    ensures a in GroupsOf(ps) <==> exists p :: p in ps && p.ip == a
    ensures forall k :: 0 <= k < |ps| && ps[k].ip == a && (forall j :: k < j < |ps| ==> ps[j].ip != a) ==>
      GroupsOf(ps)[a] == ps[k].group
  {
    if ps != [] {
      var front, last := ps[..|ps| - 1], ps[|ps| - 1];
      LastPeerWins(front, a);
      assert forall p :: p in ps <==> p in front || p == last;
      forall k | 0 <= k < |ps| && ps[k].ip == a && (forall j :: k < j < |ps| ==> ps[j].ip != a)
        ensures GroupsOf(ps)[a] == ps[k].group
      {
        if k < |front| {
          assert ps[|ps| - 1].ip != a && front[k] == ps[k];
          forall j | k < j < |front| ensures front[j].ip != a { assert front[j] == ps[j]; }
        }
      }
    }
  }

  lemma {:induction false} LastServiceWins(svs: seq<Service>, name: string)
    ensures name in ListsOf(svs) <==> exists sv :: sv in svs && sv.name == name
    ensures forall k ::
      0 <= k < |svs| && svs[k].name == name && (forall j :: k < j < |svs| ==> svs[j].name != name) ==>
        ListsOf(svs)[name] == svs[k].allowGroups
  {
    if svs != [] {
      var front, last := svs[..|svs| - 1], svs[|svs| - 1];
      LastServiceWins(front, name);
      assert forall sv :: sv in svs <==> sv in front || sv == last;
      forall k | 0 <= k < |svs| && svs[k].name == name && (forall j :: k < j < |svs| ==> svs[j].name != name)
        ensures ListsOf(svs)[name] == svs[k].allowGroups
      {
        if k < |front| {
          assert svs[|svs| - 1].name != name && front[k] == svs[k];
          forall j | k < j < |front| ensures front[j].name != name { assert front[j] == svs[j]; }
        }
      }
    }
  }

  /** The wanted entry is published: not listed under its name, and the server took it. */
  predicate Taken(have: seq<Service>, want: seq<string>, answers: seq<Option<Service>>, i: nat)
    requires |answers| == |want|
  {
    i < |want| && answers[i].Some? && forall h :: h in have ==> h.name != want[i]
  }

  /** Republishing returns the list as it was, followed by one entry for each wanted entry published. */
  lemma {:induction false} RepublishedMeans(have: seq<Service>, want: seq<string>, answers: seq<Option<Service>>)
    requires |answers| == |want|
    ensures var out := Republished(have, want, answers);
      && |out| >= |have| && out[..|have|] == have
      && (forall x :: x in out[|have|..] <==> exists i: nat :: Taken(have, want, answers, i) && answers[i].value == x)
      && |out| == |have| + |TakenBelow(have, want, answers, |want|)|
  {
    RepublishedAll(have, want, answers);
    RepublishedCount(have, want, answers, |want|);
    assert want[..|want|] == want && answers[..|want|] == answers;
  }

  lemma {:induction false} RepublishedAll(have: seq<Service>, want: seq<string>, answers: seq<Option<Service>>)
    requires |answers| == |want|
    ensures var out := Republished(have, want, answers);
      && |out| >= |have| && out[..|have|] == have
      && forall x :: x in out[|have|..] <==> exists i: nat :: Taken(have, want, answers, i) && answers[i].value == x
  {
    if want != [] {
      var n := |want| - 1;
      var out, before := Republished(have, want, answers), Republished(have, want[..n], answers[..n]);
      RepublishedAll(have, want[..n], answers[..n]);
      LastPublished(have, want, answers);
      FrontTaken(have, want, answers);
      hide Republished, Taken;
      var tail := before[|have|..];
      assert out[|have|..] == tail + if Taken(have, want, answers, n) then [answers[n].value] else [];
      forall x ensures x in out[|have|..] <==> exists i: nat :: Taken(have, want, answers, i) && answers[i].value == x {
        if x in tail {
          var i: nat :| Taken(have, want[..n], answers[..n], i) && answers[..n][i].value == x;
          assert Taken(have, want, answers, i) && answers[i].value == x;
        }
        if i: nat :| Taken(have, want, answers, i) && answers[i].value == x && i < n {
          assert Taken(have, want[..n], answers[..n], i) && answers[..n][i].value == x;
        }
      }
    }
  }

  function TakenBelow(have: seq<Service>, want: seq<string>, answers: seq<Option<Service>>, n: nat): set<nat>
    requires |answers| == |want|
  {
    set i: nat | i < n && Taken(have, want, answers, i)
  }

  lemma {:induction false} OneMoreTaken(have: seq<Service>, want: seq<string>, answers: seq<Option<Service>>, n: nat)
    requires |answers| == |want|
    ensures |TakenBelow(have, want, answers, n + 1)|
         == |TakenBelow(have, want, answers, n)| + if Taken(have, want, answers, n) then 1 else 0
  {
    hide Taken;
    var was := TakenBelow(have, want, answers, n);
    assert TakenBelow(have, want, answers, n + 1) == was + if Taken(have, want, answers, n) then {n} else {};
  }

  lemma {:induction false} RepublishedCount(have: seq<Service>, want: seq<string>, answers: seq<Option<Service>>,
                                            n: nat)
    requires |answers| == |want| && n <= |want|
    ensures |Republished(have, want[..n], answers[..n])| == |have| + |TakenBelow(have, want, answers, n)|
  {
    if n > 0 {
      RepublishedCount(have, want, answers, n - 1);
      LastPublished(have, want[..n], answers[..n]);
      assert want[..n][..n - 1] == want[..n - 1] && answers[..n][..n - 1] == answers[..n - 1];
      OneMoreTaken(have, want, answers, n - 1);
      hide Republished, TakenBelow;
      assert Taken(have, want[..n], answers[..n], n - 1) <==> Taken(have, want, answers, n - 1);
    }
  }

  lemma {:induction false} FrontTaken(have: seq<Service>, want: seq<string>, answers: seq<Option<Service>>)
    requires |answers| == |want| > 0
    ensures var n := |want| - 1;
      forall i: nat {:trigger Taken(have, want[..n], answers[..n], i)} {:trigger Taken(have, want, answers, i)} ::
        Taken(have, want[..n], answers[..n], i) <==> Taken(have, want, answers, i) && i < n
  {
  }

  lemma {:induction false} LastPublished(have: seq<Service>, want: seq<string>, answers: seq<Option<Service>>)
    requires |answers| == |want| > 0
    ensures var n := |want| - 1;
      Republished(have, want, answers) == Republished(have, want[..n], answers[..n])
        + if Taken(have, want, answers, n) then [answers[n].value] else []
    ensures Taken(have, want, answers, |want| - 1) ==> answers[|want| - 1].Some?
    ensures forall i: nat :: Taken(have, want, answers, i) ==> i < |want|
  {
  }
}
