/** The control plane: registration, publication, and the views it gives each caller. */
module Api {
  import opened Net
  import opened Text
  import opened Store
  import A = Acl
  import I = Ipam
  import P = AddressPlan

  datatype Config = Config(cidr: Prefix, tokens: map<string, string>, policy: A.Policy)

  /** issued is the history of node tokens ever handed out; the server does not store it. */
  datatype State = State(net: Store.State, nodes: I.State, services: I.State, issued: set<string>)

  datatype RegisterRequest = RegisterRequest(token: string, uuid: string, hostname: string, publicKey: string,
      endpoint: string)
  datatype PublishRequest = PublishRequest(name: string, proto: string, port: int, backendPort: int,
      nodeIP: Option<Addr>, allowGroups: seq<string>)

  datatype Error = Unauthorized | BadRequest | Exhausted | MintFailed | Forbidden
  datatype Result<T> = Ok(value: T) | Err(error: Error)

  // ----- transitions -----

  /** Registration; minted is the fresh node token, or None when minting fails. The address is
      allocated before the token is minted. */
  function AfterRegister(c: Config, s: State, req: RegisterRequest, minted: Option<string>): (State, Result<Member>) {
    var (group, ok) := A.GroupOf(c.tokens, req.token);
    if !ok then (s, Err(Unauthorized))
    else if req.uuid == "" || req.publicKey == "" then (s, Err(BadRequest))
    else
      var (nodes, ip) := I.Request(s.nodes, req.uuid);
      var t := s.(nodes := nodes);
      if ip.None? then (t, Err(Exhausted))
      else if minted.None? then (t, Err(MintFailed))
      else
        var m := Member(req.uuid, req.hostname, req.publicKey, ip.value, req.endpoint, minted.value, group);
        (t.(net := AfterUpsert(s.net, m), issued := s.issued + {minted.value}), Ok(m))
  }

  function CleanGroups(gs: seq<string>): seq<string> {
    if gs == [] then [] else (if Trim(gs[0]) == "" then [] else [Trim(gs[0])]) + CleanGroups(gs[1..])
  }

  function AfterPublish(s: State, token: string, req: PublishRequest): (State, Result<Service>) {
    if token == "" || token !in s.net.byToken then (s, Err(Unauthorized))
    else
      var caller := s.net.byToken[token];
      if req.name == "" || req.port == 0 then (s, Err(BadRequest))
      else if req.nodeIP.Some? && req.nodeIP.value != caller.ip then (s, Err(Forbidden))
      else
        var (services, vip) := I.Request(s.services, req.name);
        var t := s.(services := services);
        if vip.None? then (t, Err(Exhausted))
        else
          var proto := if req.proto == "" then "tcp" else req.proto;
          var sv := Service(req.name, proto, req.port, req.backendPort, caller.ip, vip, CleanGroups(req.allowGroups));
          (t.(net := s.net.(services := s.net.services[sv.name := sv])), Ok(sv))
  }

  datatype Op = Register(req: RegisterRequest, minted: Option<string>) | Publish(token: string, pub: PublishRequest)

  function Apply(c: Config, s: State, op: Op): State {
    match op
    case Register(req, minted) => AfterRegister(c, s, req, minted).0
    case Publish(token, pub) => AfterPublish(s, token, pub).0
  }

  function Initial(c: Config): State
    requires c.cidr.bits <= 28
  {
    State.State(Store.State.State(map[], map[], map[]), I.Fresh(I.Lower(c.cidr)), I.Fresh(I.Upper(c.cidr)), {})
  }

  function Run(c: Config, s: State, ops: seq<Op>): State {
    if ops == [] then s else Apply(c, Run(c, s, ops[..|ops| - 1]), ops[|ops| - 1])
  }

  /** A minted token is new and not empty: 256 random bits. */
  predicate FreshOp(s: State, op: Op) {
    op.Register? && op.minted.Some? ==> op.minted.value != "" && op.minted.value !in s.issued
  }

  predicate FreshRun(c: Config, s: State, ops: seq<Op>) {
    ops == [] || (FreshRun(c, s, ops[..|ops| - 1]) && FreshOp(Run(c, s, ops[..|ops| - 1]), ops[|ops| - 1]))
  }

  // ----- the invariant -----

  predicate MemberOk(s: State, d: string) {
    && d in s.net.members && d in s.nodes.byKey && s.net.members[d].ip == s.nodes.byKey[d]
    && s.net.members[d].token != "" && s.net.members[d].token in s.issued
  }

  ghost predicate ServiceOk(s: State, n: string) {
    && n in s.net.services && n in s.services.byKey
    && s.net.services[n].name == n && s.net.services[n].vip == Some(s.services.byKey[n])
    && exists d :: d in s.net.members && s.net.members[d].ip == s.net.services[n].nodeIP
  }

  ghost predicate Inv(c: Config, s: State) {
    && P.ServerState(c.cidr, s.nodes, s.services)
    && Indexed(s.net)
    && (forall d :: d in s.net.members ==> MemberOk(s, d))
    && (forall n :: n in s.net.services ==> ServiceOk(s, n))
  }

  /** What every transition leaves in place: members and their addresses, services and theirs, and
      the death of every token that is no longer live. */
  predicate Continues(s: State, t: State) {
    && (forall d :: d in s.net.members ==> d in t.net.members && t.net.members[d].ip == s.net.members[d].ip)
    && (forall n :: n in s.net.services ==> n in t.net.services && t.net.services[n].vip == s.net.services[n].vip)
    && s.issued <= t.issued
    && (forall k :: k in s.issued && k !in s.net.byToken ==> k !in t.net.byToken)
  }

  lemma {:induction false} InitialInv(c: Config)
    requires c.cidr.bits <= 28
    ensures Inv(c, Initial(c))
  {
    hide I.Inv;
    P.ServerReachable(c.cidr, [], []);
  }

  lemma {:induction false} NodesAdvance(c: Config, s: State, key: string)
    requires P.ServerState(c.cidr, s.nodes, s.services)
    ensures var (nodes, ip) := I.Request(s.nodes, key);
      && P.ServerState(c.cidr, nodes, s.services) && I.Extends(s.nodes, nodes)
      && (ip.Some? ==> key in nodes.byKey && nodes.byKey[key] == ip.value)
  {
    hide I.Inv, I.Counted, I.Request;
    I.RequestKeeps(s.nodes, key);
    I.RequestCounts(s.nodes, key);
  }

  lemma {:induction false} ServicesAdvance(c: Config, s: State, key: string)
    requires P.ServerState(c.cidr, s.nodes, s.services)
    ensures var (services, vip) := I.Request(s.services, key);
      && P.ServerState(c.cidr, s.nodes, services) && I.Extends(s.services, services)
      && (vip.Some? ==> key in services.byKey && services.byKey[key] == vip.value)
  {
    hide I.Inv, I.Counted, I.Request;
    I.RequestKeeps(s.services, key);
    I.RequestCounts(s.services, key);
  }

  lemma {:induction false} RegisterKeeps(c: Config, s: State, req: RegisterRequest, minted: Option<string>)
    requires Inv(c, s) && FreshOp(s, Register(req, minted))
    ensures var t := AfterRegister(c, s, req, minted).0;
      Inv(c, t) && Continues(s, t)
  {
    hide P.ServerState, I.Request, Indexed, AfterUpsert, I.Extends;
    NodesAdvance(c, s, req.uuid);
    KeptAddress(s, req.uuid);
    var (t, r) := AfterRegister(c, s, req, minted);
    if r.Ok? {
      var (nodes, ip) := I.Request(s.nodes, req.uuid);
      assert t.nodes == nodes && ip == Some(r.value.ip) && r.value.uuid == req.uuid;
      IndexFacts(s);
      UpsertKeepsIndexIff(s.net, r.value);
      MemberAdded(s, t, r.value);
    } else {
      MembersUntouched(s, t);
    }
  }

  /** A registered device asking again is given the address it has. */
  lemma {:induction false} KeptAddress(s: State, uuid: string)
    ensures var (nodes, ip) := I.Request(s.nodes, uuid);
      (uuid in s.net.members && MemberOk(s, uuid) ==> ip == Some(s.net.members[uuid].ip))
  {
  }

  lemma {:induction false} MemberAdded(s: State, t: State, m: Member)
    requires forall d :: d in s.net.members ==> MemberOk(s, d)
    requires forall n :: n in s.net.services ==> ServiceOk(s, n)
    requires t.net == AfterUpsert(s.net, m) && t.services == s.services && t.issued == s.issued + {m.token}
    requires I.Extends(s.nodes, t.nodes) && m.uuid in t.nodes.byKey && m.ip == t.nodes.byKey[m.uuid]
    requires m.uuid in s.net.members ==> m.ip == s.net.members[m.uuid].ip
    requires m.token != "" && m.token !in s.issued
    ensures forall d :: d in t.net.members ==> MemberOk(t, d)
    ensures forall n :: n in t.net.services ==> ServiceOk(t, n)
    ensures Continues(s, t)
  {
    forall d | d in t.net.members ensures MemberOk(t, d) {
      assert d in s.net.members ==> MemberOk(s, d);
    }
    assert forall d :: d in s.net.members ==> d in t.net.members && t.net.members[d].ip == s.net.members[d].ip;
    forall n | n in t.net.services ensures ServiceOk(t, n) { assert ServiceOk(s, n); }
  }

  lemma {:induction false} MembersUntouched(s: State, t: State)
    requires forall d :: d in s.net.members ==> MemberOk(s, d)
    requires forall n :: n in s.net.services ==> ServiceOk(s, n)
    requires t.net == s.net && t.issued == s.issued && I.Extends(s.nodes, t.nodes) && I.Extends(s.services, t.services)
    ensures forall d :: d in t.net.members ==> MemberOk(t, d)
    ensures forall n :: n in t.net.services ==> ServiceOk(t, n)
    ensures Continues(s, t)
  {
    forall d | d in t.net.members ensures MemberOk(t, d) { assert MemberOk(s, d); }
    forall n | n in t.net.services ensures ServiceOk(t, n) { assert ServiceOk(s, n); }
  }

  lemma {:induction false} IndexFacts(s: State)
    requires Indexed(s.net) && forall d :: d in s.net.members ==> MemberOk(s, d)
    ensures forall k :: k in s.net.byToken ==> k in s.issued
    ensures forall d :: d in s.net.members ==> s.net.members[d].uuid == d
  {
    forall k | k in s.net.byToken ensures k in s.issued {
      assert Finds(s.net, k, s.net.byToken[k].uuid);
      assert MemberOk(s, s.net.byToken[k].uuid);
    }
  }

  lemma {:induction false} PublishKeeps(c: Config, s: State, token: string, req: PublishRequest)
    requires Inv(c, s)
    ensures var t := AfterPublish(s, token, req).0;
      Inv(c, t) && Continues(s, t)
  {
    hide P.ServerState, I.Request, CleanGroups, Indexed, I.Extends;
    ServicesAdvance(c, s, req.name);
    KeptServiceAddress(s, req.name);
    var (t, r) := AfterPublish(s, token, req);
    if r.Ok? {
      CallerIsMember(s, token);
      ServiceAdded(s, t, r.value);
    } else {
      MembersUntouched(s, t);
    }
  }

  lemma {:induction false} KeptServiceAddress(s: State, name: string)
    ensures var (services, vip) := I.Request(s.services, name);
      (name in s.net.services && ServiceOk(s, name) ==> vip == s.net.services[name].vip)
    ensures I.Extends(s.nodes, s.nodes) && I.Extends(s.services, s.services)
  {
  }

  lemma {:induction false} CallerIsMember(s: State, token: string)
    requires Indexed(s.net) && token in s.net.byToken
    ensures var m := s.net.byToken[token];
      m.uuid in s.net.members && s.net.members[m.uuid] == m && m.token == token
  {
    assert Finds(s.net, token, s.net.byToken[token].uuid);
  }

  lemma {:induction false} ServiceAdded(s: State, t: State, sv: Service)
    requires forall d :: d in s.net.members ==> MemberOk(s, d)
    requires forall n :: n in s.net.services ==> ServiceOk(s, n)
    requires t.net == s.net.(services := s.net.services[sv.name := sv]) && t.nodes == s.nodes && t.issued == s.issued
    requires I.Extends(s.services, t.services) && sv.name in t.services.byKey
      && sv.vip == Some(t.services.byKey[sv.name])
    requires sv.name in s.net.services ==> sv.vip == s.net.services[sv.name].vip
    requires exists d :: d in s.net.members && s.net.members[d].ip == sv.nodeIP
    ensures Indexed(s.net) ==> Indexed(t.net)
    ensures forall d :: d in t.net.members ==> MemberOk(t, d)
    ensures forall n :: n in t.net.services ==> ServiceOk(t, n)
    ensures Continues(s, t)
  {
    assert forall k, d :: Finds(t.net, k, d) <==> Finds(s.net, k, d);
    forall d | d in t.net.members ensures MemberOk(t, d) { assert MemberOk(s, d); }
    forall n | n in t.net.services ensures ServiceOk(t, n) { assert n in s.net.services ==> ServiceOk(s, n); }
  }

  lemma {:induction false} ApplyKeeps(c: Config, s: State, op: Op)
    requires Inv(c, s) && FreshOp(s, op)
    ensures Inv(c, Apply(c, s, op)) && Continues(s, Apply(c, s, op))
  {
    hide Inv, Continues, AfterRegister, AfterPublish;
    match op
    case Register(req, minted) => RegisterKeeps(c, s, req, minted);
    case Publish(token, pub) => PublishKeeps(c, s, token, pub);
  }

  lemma {:induction false} ContinuesTransitive(r: State, s: State, t: State)
    requires Continues(r, s) && Continues(s, t)
    ensures Continues(r, t)
  {
  }

  /** Every run with fresh tokens keeps the invariant and continues what was there. */
  lemma {:induction false} RunKeeps(c: Config, s: State, ops: seq<Op>)
    requires Inv(c, s) && FreshRun(c, s, ops)
    ensures Inv(c, Run(c, s, ops)) && Continues(s, Run(c, s, ops))
  {
    hide Inv, Apply, FreshOp;
    if ops != [] {
      hide Continues;
      var prefix := ops[..|ops| - 1];
      RunKeeps(c, s, prefix);
      ApplyKeeps(c, Run(c, s, prefix), ops[|ops| - 1]);
      ContinuesTransitive(s, Run(c, s, prefix), Run(c, s, ops));
    }
  }

  // ----- what identities mean in every reachable state -----

  /** Device addresses are unambiguous, service addresses are, and the two never meet; and a token
      names the one member that holds it. */
  ghost predicate Unambiguous(s: State) {
    && (forall d, e ::
          d in s.net.members && e in s.net.members && s.net.members[d].ip == s.net.members[e].ip ==> d == e)
    && (forall n, k ::
          n in s.net.services && k in s.net.services && s.net.services[n].vip == s.net.services[k].vip ==> n == k)
    && (forall d, n :: d in s.net.members && n in s.net.services ==>
          Some(s.net.members[d].ip) != s.net.services[n].vip)
    && (forall d, e ::
          d in s.net.members && e in s.net.members && s.net.members[d].token == s.net.members[e].token ==> d == e)
    && (forall t :: t in s.net.byToken <==> exists d :: d in s.net.members && s.net.members[d].token == t)
  }

  lemma {:induction false} ReachableInv(c: Config, ops: seq<Op>)
    requires c.cidr.bits <= 28 && FreshRun(c, Initial(c), ops)
    ensures Inv(c, Run(c, Initial(c), ops))
  {
    hide Inv, Run, Initial, FreshRun;
    InitialInv(c);
    RunKeeps(c, Initial(c), ops);
  }

  /** So it is in every state a server reaches from its start. */
  lemma {:induction false} ReachableIdentities(c: Config, ops: seq<Op>)
    requires c.cidr.bits <= 28 && FreshRun(c, Initial(c), ops)
    ensures Unambiguous(Run(c, Initial(c), ops))
  {
    hide Inv, Run, Initial, FreshRun, Unambiguous;
    ReachableInv(c, ops);
    IdentitiesUnique(c, Run(c, Initial(c), ops));
  }

  lemma {:induction false} IdentitiesUnique(c: Config, s: State)
    requires Inv(c, s)
    ensures Unambiguous(s)
  {
    hide Base, Size, Floor, Masked;
    P.HandedOutBound(c.cidr, s.nodes, s.services);
    forall d, n | d in s.net.members && n in s.net.services ensures Some(s.net.members[d].ip) != s.net.services[n].vip {
      assert MemberOk(s, d) && ServiceOk(s, n);
      assert s.nodes.byKey[d] in s.nodes.byKey.Values && s.services.byKey[n] in s.services.byKey.Values;
    }
    hide P.HandedOut, Contains;
    forall d, e | d in s.net.members && e in s.net.members && s.net.members[d].token == s.net.members[e].token
      ensures d == e {
      assert MemberOk(s, d) && Finds(s.net, s.net.members[d].token, d) && Finds(s.net, s.net.members[e].token, e);
    }
    forall d, e | d in s.net.members && e in s.net.members && s.net.members[d].ip == s.net.members[e].ip
      ensures d == e {
      assert MemberOk(s, d) && MemberOk(s, e);
    }
    forall n, k | n in s.net.services && k in s.net.services && s.net.services[n].vip == s.net.services[k].vip
      ensures n == k {
      assert ServiceOk(s, n) && ServiceOk(s, k);
    }
    forall t | t in s.net.byToken ensures exists d :: d in s.net.members && s.net.members[d].token == t {
      assert Finds(s.net, t, s.net.byToken[t].uuid);
    }
    forall d | d in s.net.members ensures s.net.members[d].token in s.net.byToken {
      assert MemberOk(s, d) && Finds(s.net, s.net.members[d].token, d);
    }
  }

  /** A successful registration: the minted token authenticates as the device, with the address it
      had if it was registered, in the group its join token decides; nobody else's record changes. */
  lemma {:induction false} RegisteredIsKnown(c: Config, s: State, req: RegisterRequest, minted: Option<string>)
    requires Inv(c, s) && FreshOp(s, Register(req, minted)) && AfterRegister(c, s, req, minted).1.Ok?
    ensures var (t, r) := AfterRegister(c, s, req, minted);
      && minted.Some? && minted.value in t.net.byToken && t.net.byToken[minted.value] == r.value
      && t.net.members == s.net.members[req.uuid := r.value]
      && r.value.group == A.GroupOf(c.tokens, req.token).0
      && (req.uuid in s.net.members ==> r.value.ip == s.net.members[req.uuid].ip)
      && t.net.services == s.net.services
      && (forall k :: k in s.net.byToken && s.net.byToken[k].uuid != req.uuid
           ==> k in t.net.byToken && t.net.byToken[k] == s.net.byToken[k])
  {
    KeptAddress(s, req.uuid);
    assert req.uuid in s.net.members ==> MemberOk(s, req.uuid) && Finds(s.net, s.net.members[req.uuid].token, req.uuid);
    hide P.ServerState, I.Request, A.GroupOf;
    IndexFacts(s);
  }

  /** A successful publication: on the caller's own node, at the address the name already had if it
      had one; no other service and no member changes. */
  lemma {:induction false} PublishedOnOwnNode(c: Config, s: State, token: string, req: PublishRequest)
    requires Inv(c, s) && AfterPublish(s, token, req).1.Ok?
    ensures var (t, r) := AfterPublish(s, token, req);
      && token in s.net.byToken && r.value.nodeIP == s.net.byToken[token].ip
      && t.net == s.net.(services := s.net.services[req.name := r.value])
      && (req.name in s.net.services ==> r.value.vip == s.net.services[req.name].vip)
  {
    KeptServiceAddress(s, req.name);
    hide P.ServerState, I.Request, CleanGroups, Indexed;
  }

  /** A device that registers again kills its previous token for good. */
  lemma {:induction false} OldTokenStaysDead(c: Config, s: State, req: RegisterRequest, minted: Option<string>,
                                             ops: seq<Op>)
    requires Inv(c, s) && FreshOp(s, Register(req, minted)) && req.uuid in s.net.members
    requires AfterRegister(c, s, req, minted).1.Ok?
    requires FreshRun(c, AfterRegister(c, s, req, minted).0, ops)
    ensures s.net.members[req.uuid].token !in Run(c, AfterRegister(c, s, req, minted).0, ops).net.byToken
  {
    var (t, r) := AfterRegister(c, s, req, minted);
    assert MemberOk(s, req.uuid);
    assert r.value.uuid == req.uuid && r.value.token == minted.value;
    OldTokenDies(s.net, r.value);
    RegisterKeeps(c, s, req, minted);
    hide Inv, AfterRegister;
    RunKeeps(c, t, ops);
  }

  // ----- the views -----

  /** A member's entry in a listing. */
  datatype Peer = Peer(hostname: string, publicKey: string, ip: Addr, endpoint: string, group: string)

  function Listed(m: Member): Peer { Peer(m.hostname, m.publicKey, m.ip, m.endpoint, m.group) }

  /** A member sees itself, and everyone its group is connected with. */
  predicate SeesPeer(c: Config, caller: Member, m: Member) {
    m.uuid == caller.uuid || A.Connected(c.policy, caller.group, m.group)
  }

  /** A member may use a service when it is its own, or when its group is connected with the host's
      and is on the service's list. */
  ghost predicate Visible(c: Config, s: State, caller: Member, sv: Service) {
    || sv.nodeIP == caller.ip
    || exists d :: d in s.net.members && s.net.members[d].ip == sv.nodeIP
         && A.Connected(c.policy, caller.group, s.net.members[d].group) && A.AllowsGroup(sv.allowGroups, caller.group)
  }

  /** xs lists exactly the members among `done` the caller sees, none twice. */
  ghost predicate ListsAmong(c: Config, s: State, caller: Member, done: set<string>, xs: seq<Peer>) {
    && (forall d :: d in done && d in s.net.members && SeesPeer(c, caller, s.net.members[d])
         ==> Listed(s.net.members[d]) in xs)
    && (forall x :: x in xs ==>
          exists d ::
            d in done && d in s.net.members && SeesPeer(c, caller, s.net.members[d]) && x == Listed(s.net.members[d]))
    && (forall i, j :: 0 <= i < j < |xs| ==> xs[i].ip != xs[j].ip)
  }

  ghost predicate ListsPeers(c: Config, s: State, caller: Member, xs: seq<Peer>) {
    ListsAmong(c, s, caller, s.net.members.Keys, xs)
  }

  lemma {:induction false} ListsMore(c: Config, s: State, caller: Member, done: set<string>, xs: seq<Peer>, d: string)
    requires forall d, e ::
      d in s.net.members && e in s.net.members && s.net.members[d].ip == s.net.members[e].ip ==> d == e
    requires ListsAmong(c, s, caller, done, xs) && d in s.net.members && d !in done
    ensures ListsAmong(c, s, caller, done + {d},
                       if SeesPeer(c, caller, s.net.members[d]) then xs + [Listed(s.net.members[d])] else xs)
  {
    hide SeesPeer;
    var ys := xs + [Listed(s.net.members[d])];
    assert Listed(s.net.members[d]) in ys && forall x :: x in xs ==> x in ys;
    forall i | 0 <= i < |xs| ensures xs[i].ip != s.net.members[d].ip {
      assert xs[i] in xs;
      var e :| e in done && e in s.net.members && SeesPeer(c, caller, s.net.members[e])
          && xs[i] == Listed(s.net.members[e]);
    }
  }

  ghost predicate OffersAmong(c: Config, s: State, caller: Member, done: set<string>, xs: seq<Service>) {
    && (forall n :: n in done && n in s.net.services && Visible(c, s, caller, s.net.services[n])
         ==> s.net.services[n] in xs)
    && (forall x :: x in xs ==>
          x.name in done && x.name in s.net.services && x == s.net.services[x.name] && Visible(c, s, caller, x))
    && (forall i, j :: 0 <= i < j < |xs| ==> xs[i].name != xs[j].name)
  }

  ghost predicate ListsServices(c: Config, s: State, caller: Member, xs: seq<Service>) {
    OffersAmong(c, s, caller, s.net.services.Keys, xs)
  }

  lemma {:induction false} OffersMore(c: Config, s: State, caller: Member, done: set<string>, xs: seq<Service>,
                                      n: string)
    requires n in s.net.services && s.net.services[n].name == n && n !in done
    requires OffersAmong(c, s, caller, done, xs)
    ensures OffersAmong(c, s, caller, done + {n},
                        if Visible(c, s, caller, s.net.services[n]) then xs + [s.net.services[n]] else xs)
  {
    hide Visible;
    assert forall i :: 0 <= i < |xs| ==> xs[i] in xs;
  }

  /** Lists taken in one state fit together: the host of every listed service is a listed peer. */
  lemma {:induction false} HostsAreListed(c: Config, s: State, caller: Member, ps: seq<Peer>, svs: seq<Service>,
                                          sv: Service)
    requires Inv(c, s) && caller.uuid in s.net.members && s.net.members[caller.uuid] == caller
    requires ListsPeers(c, s, caller, ps) && ListsServices(c, s, caller, svs) && sv in svs
    ensures exists p :: p in ps && p.ip == sv.nodeIP
  {
    if sv.nodeIP == caller.ip {
      assert Listed(s.net.members[caller.uuid]) in ps;
    } else {
      var d :| d in s.net.members && s.net.members[d].ip == sv.nodeIP
        && A.Connected(c.policy, caller.group, s.net.members[d].group) && A.AllowsGroup(sv.allowGroups, caller.group);
      assert Listed(s.net.members[d]) in ps;
    }
  }

  // ----- the server -----

  class Server {
    const c: Config
    const net: Store.Network
    const nodeIPs: I.Allocator
    const serviceIPs: I.Allocator
    ghost var issued: set<string>

    ghost function Now(): State
      reads this, net, nodeIPs, serviceIPs
    {
      State.State(net.Now(), nodeIPs.Now(), serviceIPs.Now(), issued)
    }

    ghost predicate Ok()
      reads this, net, nodeIPs, serviceIPs
    {
      nodeIPs != serviceIPs && Inv(c, Now())
    }

    constructor (c: Config, net: Store.Network, nodeIPs: I.Allocator, serviceIPs: I.Allocator)
      requires c.cidr.bits <= 28 && nodeIPs != serviceIPs
      requires net.Now() == Store.State.State(map[], map[], map[])
      requires nodeIPs.Now() == I.Fresh(I.Lower(c.cidr)) && serviceIPs.Now() == I.Fresh(I.Upper(c.cidr))
      ensures Ok() && Now() == Initial(c) && this.c == c
    {
      this.c, this.net, this.nodeIPs, this.serviceIPs := c, net, nodeIPs, serviceIPs;
      issued := {};
      new;
      InitialInv(c);
    }

    method Register(req: RegisterRequest, minted: Option<string>) returns (r: Result<Member>)
      requires Ok() && FreshOp(Now(), Op.Register(req, minted))
      modifies this`issued, net, nodeIPs
      ensures (Now(), r) == AfterRegister(c, old(Now()), req, minted)
      ensures Ok() && Continues(old(Now()), Now())
    {
      RegisterKeeps(c, Now(), req, minted);
      hide Inv, Continues, I.Request, AfterUpsert, A.GroupOf;
      var (group, ok) := A.GroupOf(c.tokens, req.token);
      if !ok { return Err(Unauthorized); }
      if req.uuid == "" || req.publicKey == "" { return Err(BadRequest); }
      var ip := nodeIPs.Allocate(req.uuid);
      if ip.None? { return Err(Exhausted); }
      if minted.None? { return Err(MintFailed); }
      var m := Member(req.uuid, req.hostname, req.publicKey, ip.value, req.endpoint, minted.value, group);
      net.Upsert(m);
      issued := issued + {minted.value};
      r := Result.Ok(m);
    }

    method Publish(token: string, req: PublishRequest) returns (r: Result<Service>)
      requires Ok()
      modifies net, serviceIPs
      ensures (Now(), r) == AfterPublish(old(Now()), token, req)
      ensures Ok() && Continues(old(Now()), Now())
    {
      PublishKeeps(c, Now(), token, req);
      ghost var s := Now();
      hide Inv, Continues, I.Request, Indexed, CleanGroups;
      var caller := Caller(token);
      if caller.None? { return Err(Unauthorized); }
      if req.name == "" || req.port == 0 { return Err(BadRequest); }
      if req.nodeIP.Some? && req.nodeIP.value != caller.value.ip { return Err(Forbidden); }
      var proto := if req.proto == "" then "tcp" else req.proto;
      var vip := serviceIPs.Allocate(req.name);
      if vip.None? { return Err(Exhausted); }
      var sv := Service(req.name, proto, req.port, req.backendPort, caller.value.ip, vip, CleanGroups(req.allowGroups));
      net.UpsertService(sv);
      r := Result.Ok(sv);
    }

    /** The member a node token belongs to. */
    method Caller(token: string) returns (r: Option<Member>)
      requires Ok()
      ensures r.Some? <==> token != "" && token in net.byToken
      ensures r.Some? ==>
        r.value == net.byToken[token] && r.value.uuid in net.members && net.members[r.value.uuid] == r.value
    {
      r := net.MemberByToken(token);
      TokenDecides(Now(), token);
    }

    /** GET /v1/peers. */
    method Peers(token: string) returns (r: Result<seq<Peer>>)
      requires Ok()
      ensures r.Ok? <==> token != "" && token in net.byToken
      ensures r.Ok? ==> ListsPeers(c, Now(), net.byToken[token], r.value)
    {
      AddressesUnique(c, Now());
      var caller := Caller(token);
      if caller.None? { return Err(Unauthorized); }
      hide *;
      var out := ListMembers(c, Now(), net.members, caller.value);
      r := Result.Ok(out);
    }

    /** The decision behind both the service list and the host's own check. */
    method VisibleService(caller: Member, sv: Service) returns (b: bool)
      requires Ok()
      ensures b <==> Visible(c, Now(), caller, sv)
    {
      IdentitiesUnique(c, Now());
      hide Inv, A.Connected, A.AllowsGroup;
      if sv.nodeIP == caller.ip { return true; }
      var host := net.MemberByIP(sv.nodeIP);
      if host.None? { return false; }
      if !A.Connected(c.policy, caller.group, host.value.group) { return false; }
      b := A.AllowsGroup(sv.allowGroups, caller.group);
    }

    /** GET /v1/services. */
    method Services(token: string) returns (r: Result<seq<Service>>)
      requires Ok()
      ensures r.Ok? <==> token != "" && token in net.byToken
      ensures r.Ok? ==> ListsServices(c, Now(), net.byToken[token], r.value)
    {
      ServiceNames(c, Now());
      var caller := Caller(token);
      if caller.None? { return Err(Unauthorized); }
      hide *;
      var out := ListVisible(caller.value, Now());
      r := Result.Ok(out);
    }

    method ListVisible(caller: Member, ghost s: State) returns (out: seq<Service>)
      requires Ok() && s == Now() && forall n :: n in net.services ==> net.services[n].name == n
      ensures ListsServices(c, s, caller, out)
    {
      hide Inv, Visible, OffersAmong, Indexed;
      var rest: set<string> := net.services.Keys;
      out := [];
      NoneListed(c, s, caller);
      while rest != {}
        invariant rest <= net.services.Keys
        invariant OffersAmong(c, s, caller, net.services.Keys - rest, out)
        decreases |rest|
      {
        var n :| n in rest;
        OffersMore(c, s, caller, net.services.Keys - rest, out, n);
        assert net.services.Keys - rest + {n} == net.services.Keys - (rest - {n});
        rest := rest - {n};
        var ok := VisibleService(caller, net.services[n]);
        if ok { out := out + [net.services[n]]; }
      }
      assert net.services.Keys - rest == net.services.Keys;
    }
  }

  /** The members a caller sees, taken in no particular order. */
  method ListMembers(c: Config, ghost s: State, members: map<string, Member>, caller: Member) returns (out: seq<Peer>)
    requires members == s.net.members
    requires forall d, e :: d in members && e in members && members[d].ip == members[e].ip ==> d == e
    ensures ListsPeers(c, s, caller, out)
  {
    hide ListsAmong, SeesPeer;
    var rest: set<string> := members.Keys;
    out := [];
    NoneListed(c, s, caller);
    while rest != {}
      invariant rest <= members.Keys
      invariant ListsAmong(c, s, caller, members.Keys - rest, out)
      decreases |rest|
    {
      var d :| d in rest;
      ListsMore(c, s, caller, members.Keys - rest, out, d);
      assert members.Keys - rest + {d} == members.Keys - (rest - {d});
      rest := rest - {d};
      if SeesPeer(c, caller, members[d]) {
        out := out + [Listed(members[d])];
      }
    }
    assert members.Keys - rest == members.Keys;
  }

  lemma {:induction false} NoneListed(c: Config, s: State, caller: Member)
    ensures ListsAmong(c, s, caller, s.net.members.Keys - s.net.members.Keys, [])
    ensures OffersAmong(c, s, caller, s.net.services.Keys - s.net.services.Keys, [])
  {
  }

  lemma {:induction false} AddressesUnique(c: Config, s: State)
    requires Inv(c, s)
    ensures forall d, e ::
      d in s.net.members && e in s.net.members && s.net.members[d].ip == s.net.members[e].ip ==> d == e
  {
    IdentitiesUnique(c, s);
  }

  lemma {:induction false} ServiceNames(c: Config, s: State)
    requires Inv(c, s)
    ensures forall n :: n in s.net.services ==> s.net.services[n].name == n
  {
    forall n | n in s.net.services ensures s.net.services[n].name == n { assert ServiceOk(s, n); }
  }

  lemma {:induction false} TokenDecides(s: State, token: string)
    requires Indexed(s.net)
    ensures (exists d :: d in s.net.members && s.net.members[d].token == token && token != "")
       <==> token in s.net.byToken
    ensures token in s.net.byToken ==>
      forall d :: d in s.net.members && s.net.members[d].token == token ==> s.net.members[d] == s.net.byToken[token]
  {
    if token in s.net.byToken { assert Finds(s.net, token, s.net.byToken[token].uuid); }
    forall d | d in s.net.members && s.net.members[d].token == token && token != ""
      ensures token in s.net.byToken && s.net.members[d] == s.net.byToken[token] {
      assert Finds(s.net, s.net.members[d].token, d);
    }
  }
}
