/** The control server's members, their token index, and the services. */
module Store {
  import opened Net

  datatype Member = Member(uuid: string, hostname: string, publicKey: string, ip: Addr, endpoint: string,
      token: string, group: string)
  datatype Service = Service(name: string, proto: string, port: int, backendPort: int, nodeIP: Addr,
      vip: Option<Addr>, allowGroups: seq<string>)

  datatype State = State(members: map<string, Member>, byToken: map<string, Member>, services: map<string, Service>)

  /** Insert or replace by device, keeping the index in step. */
  function AfterUpsert(s: State, m: Member): State {
    var pruned := if m.uuid in s.members && s.members[m.uuid].token != ""
                  then s.byToken - {s.members[m.uuid].token} else s.byToken;
    s.(members := s.members[m.uuid := m], byToken := if m.token != "" then pruned[m.token := m] else pruned)
  }

  /** The index and the member map are exact inverses: a token finds the member that holds it. */
  predicate Indexed(s: State) {
    && (forall d :: d in s.members ==> Finds(s, s.members[d].token, d) && s.members[d].uuid == d)
    && (forall t :: t in s.byToken ==> t != "" && Finds(s, t, s.byToken[t].uuid) && s.byToken[t].token == t)
  }

  /** Looking a token up finds exactly what the member map holds for the device. */
  predicate Finds(s: State, token: string, device: string) {
    device in s.members && (token != "" ==> token in s.byToken && s.byToken[token] == s.members[device])
  }

  /** The upsert keeps the index exact if and only if the token is not another device's. */
  lemma {:induction false} UpsertKeepsIndexIff(s: State, m: Member)
    requires Indexed(s)
    ensures Indexed(AfterUpsert(s, m)) <==> (m.token in s.byToken ==> s.byToken[m.token].uuid == m.uuid)
  {
    hide Indexed, AfterUpsert;
    if m.token in s.byToken && s.byToken[m.token].uuid != m.uuid {
      SharedTokenBreaks(s, m);
    } else {
      OwnTokenKeeps(s, m);
    }
  }

  lemma {:induction false} SharedTokenBreaks(s: State, m: Member)
    requires Indexed(s) && m.token in s.byToken && s.byToken[m.token].uuid != m.uuid
    ensures !Indexed(AfterUpsert(s, m))
  {
    var t := AfterUpsert(s, m);
    var other := s.byToken[m.token].uuid;
    assert t.members[other] == s.members[other] && t.members[other].token == m.token;
    assert !Finds(t, m.token, other);
  }

  lemma {:induction false} OwnTokenKeeps(s: State, m: Member)
    requires Indexed(s) && (m.token in s.byToken ==> s.byToken[m.token].uuid == m.uuid)
    ensures Indexed(AfterUpsert(s, m))
  {
    var t := AfterUpsert(s, m);
    forall d | d in t.members ensures Finds(t, t.members[d].token, d) && t.members[d].uuid == d {
      if d != m.uuid { assert Finds(s, s.members[d].token, d); }
    }
    forall k | k in t.byToken ensures k != "" && Finds(t, k, t.byToken[k].uuid) && t.byToken[k].token == k {
      if k != m.token { assert Finds(s, k, s.byToken[k].uuid); }
    }
  }

  /** The device's previous token dies with the upsert. */
  lemma {:induction false} OldTokenDies(s: State, m: Member)
    requires Indexed(s) && m.uuid in s.members && s.members[m.uuid].token != m.token
    ensures s.members[m.uuid].token !in AfterUpsert(s, m).byToken
  {
  }

  class Network {
    var members: map<string, Member>
    var byToken: map<string, Member>
    var services: map<string, Service>

    ghost function Now(): State
      reads this
    {
      State(members, byToken, services)
    }

    constructor ()
      ensures Now() == State(map[], map[], map[]) && Indexed(Now())
    {
      members, byToken, services := map[], map[], map[];
    }

    method Upsert(m: Member)
      modifies this
      ensures Now() == AfterUpsert(old(Now()), m)
    {
      if m.uuid in members && members[m.uuid].token != "" {
        byToken := byToken - {members[m.uuid].token};
      }
      members := members[m.uuid := m];
      if m.token != "" {
        byToken := byToken[m.token := m];
      }
    }

    /** With an exact index, a token finds the one member holding it, and only then. */
    method MemberByToken(token: string) returns (r: Option<Member>)
      requires Indexed(Now())
      ensures r.Some? <==> token != "" && exists d :: d in members && members[d].token == token
      ensures r.Some? ==> r.value.uuid in members && members[r.value.uuid] == r.value && r.value.token == token
    {
      if token == "" || token !in byToken { return None; }
      r := Some(byToken[token]);
      assert members[r.value.uuid].token == token;
    }

    /** Scans the members in no particular order. */
    method MemberByIP(ip: Addr) returns (r: Option<Member>)
      ensures r.Some? <==> exists d :: d in members && members[d].ip == ip
      ensures r.Some? ==> r.value.ip == ip && exists d :: d in members && members[d] == r.value
    {
      var rest := members.Keys;
      while rest != {}
        invariant rest <= members.Keys
        invariant forall d :: d in members && d !in rest ==> members[d].ip != ip
        decreases |rest|
      {
        var d :| d in rest;
        if members[d].ip == ip { return Some(members[d]); }
        rest := rest - {d};
      }
      r := None;
    }

    method UpsertService(s: Service)
      modifies this`services
      ensures services == old(services)[s.name := s]
    {
      services := services[s.name := s];
    }
  }
}
