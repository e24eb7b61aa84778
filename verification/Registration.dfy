/** Agent registration, enroll tokens and the loopback address correction, as code on the tables. */
module Registration {
  import opened Options
  import opened Tables

  datatype TokenKind = OneTime | Automation

  /** A row of enroll_tokens, keyed by the hash of the token. */
  datatype Token = Token(
    kind: TokenKind, policy: Policy,
    enabled: bool, revoked: bool, used: bool, usedCount: nat)

  /** What a rotation hands on unchanged. `maxUses` 0 means no limit; no CIDRs means any address. */
  datatype Policy = Policy(tenant: int, expires: Option<int>, maxUses: nat, cidrs: seq<string>)

  datatype Registry = Registry(db: Database, tokens: map<string, Token>, nextHost: int)

  /** Whether an address lies in a network: `inet <<= cidr`, which is false for an unparsable address. */
  type Contains = (string, string) -> bool

  datatype Request = Request(
    needToken: bool,      // whether the settings require an enroll token
    token: string,        // hash of the token sent along; "" if none was
    ip: string,           // the observed source address
    agentId: string,      // the fresh random agent id
    row: Option<int>,     // the host row that the unique index on ip finds
    now: int,
    fault: bool)          // some statement, or the commit, fails

  // ----- Tokens -----

  predicate Usable(t: Token, ip: string, now: int, contains: Contains) {
    && t.enabled && !t.revoked
    && (t.policy.expires.Some? ==> t.policy.expires.value > now)
    && (match t.kind
        case OneTime => !t.used && t.policy.maxUses == 1
        case Automation => t.policy.maxUses == 0 || t.usedCount < t.policy.maxUses)
    && (|t.policy.cidrs| == 0 || exists i :: 0 <= i < |t.policy.cidrs| && contains(ip, t.policy.cidrs[i]))
  }

  function Consumed(t: Token): Token {
    match t.kind
    case OneTime => t.(used := true)
    case Automation => t.(usedCount := t.usedCount + 1)
  }

  /** The tenant a registration acts for, or none if its token is not accepted. */
  function TenantOf(g: Registry, q: Request, contains: Contains): Option<int> {
    if !q.needToken then Some(1)
    else if q.token == "" || q.token !in g.tokens then None
    else if !Usable(g.tokens[q.token], q.ip, q.now, contains) || g.tokens[q.token].policy.tenant <= 0 then None
    else Some(g.tokens[q.token].policy.tenant)
  }

  // ----- The registration transaction -----

  predicate Accepted(g: Registry, q: Request, contains: Contains) {
    && !q.fault
    && TenantOf(g, q, contains).Some?
    && (q.row.Some? && q.row.value in g.db.hosts ==> g.db.hosts[q.row.value].tenant == TenantOf(g, q, contains).value)
  }

  function HostIdOf(g: Registry, q: Request): int { if q.row.Some? then q.row.value else g.nextHost }

  /** Everything a committed registration changes. */
  function Registered(g: Registry, q: Request, contains: Contains): Registry
    requires Accepted(g, q, contains)
  {
    var tenant, h := TenantOf(g, q, contains).value, HostIdOf(g, q);
    var kept :=
      map a | a in g.db.agents && g.db.agents[a].ip != q.ip && g.db.agents[a].hostId != Some(h) :: g.db.agents[a];
    Registry(
      g.db.(hosts := g.db.hosts[h := Host(q.ip, q.agentId, tenant)],
            agents := kept[q.agentId := Agent(Some(h), q.ip)]),
      if q.needToken then g.tokens[q.token := Consumed(g.tokens[q.token])] else g.tokens,
      if q.row.Some? then g.nextHost else g.nextHost + 1)
  }

  /** A registration that is not accepted leaves nothing behind, not even a consumed token. */
  function Register(g: Registry, q: Request, contains: Contains): Registry {
    if Accepted(g, q, contains) then Registered(g, q, contains) else g
  }

  /** Column by column, which registrations are accepted. */
  lemma AcceptedExactly(g: Registry, q: Request, contains: Contains)
    ensures Accepted(g, q, contains) <==>
      (&& !q.fault
       && (q.needToken ==>
             && q.token != "" && q.token in g.tokens
             && var t := g.tokens[q.token];
                && t.enabled && !t.revoked && t.policy.tenant > 0
                && (t.policy.expires.None? || q.now < t.policy.expires.value)
                && (t.kind == OneTime ==> !t.used && t.policy.maxUses == 1)
                && (t.kind == Automation ==> t.policy.maxUses == 0 || t.usedCount < t.policy.maxUses)
                && (t.policy.cidrs == [] || exists net :: net in t.policy.cidrs && contains(q.ip, net)))
       && (q.row.Some? && q.row.value in g.db.hosts ==>
             g.db.hosts[q.row.value].tenant == if q.needToken then g.tokens[q.token].policy.tenant else 1))
  {
    if q.token in g.tokens {
      var nets := g.tokens[q.token].policy.cidrs;
      if net :| net in nets && contains(q.ip, net) {
        var i :| 0 <= i < |nets| && nets[i] == net;
        assert contains(q.ip, nets[i]);
      }
      if i :| 0 <= i < |nets| && contains(q.ip, nets[i]) {
        assert nets[i] in nets;
      }
    }
  }

  /**
   * What a committed registration changes: the host row at the address, in the token's tenant (1 without
   * one), the credentials of that address or host, which one new credential replaces, and one use of the token.
   */
  lemma RegisteredExactly(g: Registry, q: Request, contains: Contains)
    requires Accepted(g, q, contains) && (q.needToken ==> q.token in g.tokens)
    ensures var after := Registered(g, q, contains);
      var h := if q.row.Some? then q.row.value else g.nextHost;
      && after.db.hosts == g.db.hosts[h :=
           Host(q.ip, q.agentId, if q.needToken then g.tokens[q.token].policy.tenant else 1)]
      && (forall a :: a in after.db.agents <==>
            a == q.agentId || (a in g.db.agents && g.db.agents[a].ip != q.ip && g.db.agents[a].hostId != Some(h)))
      && (forall a :: a in after.db.agents ==>
            after.db.agents[a] == if a == q.agentId then Agent(Some(h), q.ip) else g.db.agents[a])
      && after.db.taskHosts == g.db.taskHosts && after.db.commands == g.db.commands
      && after.nextHost == (if q.row.Some? then g.nextHost else g.nextHost + 1)
      && after.tokens == (
           if !q.needToken then g.tokens
           else g.tokens[q.token :=
             if g.tokens[q.token].kind == OneTime then g.tokens[q.token].(used := true)
             else g.tokens[q.token].(usedCount := g.tokens[q.token].usedCount + 1)])
  {
  }

  // ----- The loopback correction -----

  predicate Loopback(ip: string) { ip == "127.0.0.1" || ip == "::1" }

  /** UPDATE hosts SET ip = ... WHERE agent_id = ... AND ip is loopback. */
  function HostsMoved(db: Database, agentId: string, ip: string): Database {
    db.(hosts := map h | h in db.hosts ::
      if db.hosts[h].agentId == agentId && Loopback(db.hosts[h].ip) then db.hosts[h].(ip := ip) else db.hosts[h])
  }

  /** UPDATE agents SET ip = ... WHERE agent_id = ... AND ip is loopback. */
  function AgentMoved(db: Database, agentId: string, ip: string): Database {
    if agentId in db.agents && Loopback(db.agents[agentId].ip)
    then db.(agents := db.agents[agentId := db.agents[agentId].(ip := ip)]) else db
  }

  /** hosts.ip is unique: the first UPDATE fails as a whole if two rows would share the address. */
  ghost predicate DistinctAddresses(db: Database) {
    forall g, h :: g in db.hosts && h in db.hosts && g != h ==> db.hosts[g].ip != db.hosts[h].ip
  }

  // ----- Revoking and rotating -----

  datatype Actor = Actor(tenant: int, superadmin: bool)

  predicate MayManage(a: Actor, t: Token) {
    t.kind.Automation? && (a.superadmin || t.policy.tenant == (if a.tenant <= 0 then 1 else a.tenant))
  }

  function Revoke(g: Registry, token: string, a: Actor): Registry {
    if token in g.tokens && MayManage(a, g.tokens[token])
    then g.(tokens := g.tokens[token := g.tokens[token].(enabled := false, revoked := true)]) else g
  }

  predicate Rotatable(g: Registry, token: string, a: Actor, now: int) {
    && token in g.tokens && MayManage(a, g.tokens[token])
    && g.tokens[token].enabled && !g.tokens[token].revoked
    && (g.tokens[token].policy.expires.Some? ==> g.tokens[token].policy.expires.value > now)
  }

  function Rotate(g: Registry, token: string, newToken: string, a: Actor, now: int): Registry {
    if Rotatable(g, token, a, now)
    then g.(tokens := g.tokens[newToken := Token(Automation, g.tokens[token].policy, true, false, false, 0)]
                              [token := g.tokens[token].(enabled := false, revoked := true)])
    else g
  }

  datatype ListStatus = ActiveToken | RevokedToken | ExpiredToken | ExhaustedToken

  /** The status that the list of automation tokens shows. */
  function StatusOf(t: Token, now: int): ListStatus {
    if !t.enabled || t.revoked then RevokedToken
    else if t.policy.expires.Some? && t.policy.expires.value <= now then ExpiredToken
    else if t.policy.maxUses > 0 && t.usedCount >= t.policy.maxUses then ExhaustedToken
    else ActiveToken
  }

  /** A token is listed as active exactly if an agent at some allowed address could register with it. */
  lemma ActiveMeansUsable(t: Token, ip: string, now: int, contains: Contains)
    requires t.kind.Automation?
    requires |t.policy.cidrs| == 0 || exists i :: 0 <= i < |t.policy.cidrs| && contains(ip, t.policy.cidrs[i])
    ensures StatusOf(t, now) == ActiveToken <==> Usable(t, ip, now, contains)
  {
  }

  /** Exactly which tokens can be rotated: listed active or exhausted, and managed by the actor. */
  lemma RotatableByStatus(g: Registry, token: string, a: Actor, now: int)
    requires token in g.tokens
    ensures Rotatable(g, token, a, now) <==>
      MayManage(a, g.tokens[token]) && StatusOf(g.tokens[token], now) in {ActiveToken, ExhaustedToken}
  {
  }

  // ----- The code -----

  class Service {
    var state: Registry
    const contains: Contains

    constructor (state: Registry, contains: Contains)
      ensures this.state == state && this.contains == contains
    {
      this.state, this.contains := state, contains;
    }

    /** consumeEnrollTokenTx: one conditional UPDATE on the transaction's view. */
    method ConsumeToken(view: Registry, token: string, ip: string, now: int)
      returns (tenant: Option<int>, after: Registry)
      ensures tenant.Some? <==>
        (token != "" && token in view.tokens
         && Usable(view.tokens[token], ip, now, contains) && view.tokens[token].policy.tenant > 0)
      ensures tenant.Some? ==> tenant.value == view.tokens[token].policy.tenant
      ensures tenant.Some? ==> after == view.(tokens := view.tokens[token := Consumed(view.tokens[token])])
    {
      after := view;
      if token == "" { return None, after; }
      if token !in view.tokens || !Usable(view.tokens[token], ip, now, contains) { return None, after; }
      after := view.(tokens := view.tokens[token := Consumed(view.tokens[token])]);
      if view.tokens[token].policy.tenant <= 0 { return None, after; }
      tenant := Some(view.tokens[token].policy.tenant);
    }

    /** AgentRegister: the statements of the transaction in order; any refusal rolls everything back. */
    method AgentRegister(q: Request) returns (ok: bool)
      requires q.row.Some? ==> q.row.value in state.db.hosts && state.db.hosts[q.row.value].ip == q.ip
      requires q.row.None? ==> forall h :: h in state.db.hosts ==> state.db.hosts[h].ip != q.ip
      modifies `state
      ensures ok <==> Accepted(old(state), q, contains)
      ensures ok && q.needToken ==> q.token in old(state).tokens
      ensures ok ==>
        var h := if q.row.Some? then q.row.value else old(state).nextHost;
        state.db.hosts == old(state).db.hosts[h :=
          Host(q.ip, q.agentId, if q.needToken then old(state).tokens[q.token].policy.tenant else 1)]
      ensures state == Register(old(state), q, contains)
    {
      var view := state;
      var tenant := 1;
      if q.needToken {
        var t, after := ConsumeToken(view, q.token, q.ip, q.now);
        if t.None? { return false; }
        tenant, view := t.value, after;
      }
      var hostId := view.nextHost;
      if q.row.Some? {
        hostId := q.row.value;
        if view.db.hosts[hostId].tenant != tenant { return false; }
      } else {
        view := view.(nextHost := view.nextHost + 1);
      }
      view := view.(db := view.db.(hosts := view.db.hosts[hostId := Host(q.ip, q.agentId, tenant)]));
      var gone :=
        set a | a in view.db.agents && (view.db.agents[a].ip == q.ip || view.db.agents[a].hostId == Some(hostId));
      view := view.(db := view.db.(agents := view.db.agents - gone));
      view := view.(db := view.db.(agents := view.db.agents[q.agentId := Agent(Some(hostId), q.ip)]));
      if q.fault { return false; }
      assert view.db.agents == Registered(state, q, contains).db.agents;
      state := view;
      return true;
    }

    /** AutomationEnrollTokenRevoke: one conditional UPDATE. */
    method RevokeToken(token: string, a: Actor) returns (found: bool)
      modifies `state
      ensures found <==> token in old(state).tokens && MayManage(a, old(state).tokens[token])
      ensures found <==>
        (&& token in old(state).tokens && old(state).tokens[token].kind == Automation
         && (a.superadmin || old(state).tokens[token].policy.tenant == if a.tenant > 0 then a.tenant else 1))
      ensures state == Revoke(old(state), token, a)
      ensures state == if !found then old(state) else old(state).(tokens :=
        old(state).tokens[token := old(state).tokens[token].(enabled := false, revoked := true)])
    {
      if token !in state.tokens || !MayManage(a, state.tokens[token]) { return false; }
      state := state.(tokens := state.tokens[token := state.tokens[token].(enabled := false, revoked := true)]);
      return true;
    }

    /** AutomationEnrollTokenRotate: read the row locked, insert its successor, disable it. */
    method RotateToken(token: string, newToken: string, a: Actor, now: int) returns (ok: bool)
      requires newToken !in state.tokens
      modifies `state
      ensures ok <==> Rotatable(old(state), token, a, now)
      ensures ok <==>
        (&& token in old(state).tokens && old(state).tokens[token].kind == Automation
         && (a.superadmin || old(state).tokens[token].policy.tenant == if a.tenant > 0 then a.tenant else 1)
         && old(state).tokens[token].enabled && !old(state).tokens[token].revoked
         && (old(state).tokens[token].policy.expires.None? || now < old(state).tokens[token].policy.expires.value))
      ensures state == Rotate(old(state), token, newToken, a, now)
      ensures state == if !ok then old(state) else old(state).(tokens :=
        old(state).tokens[newToken := Token(Automation, old(state).tokens[token].policy, true, false, false, 0)]
                         [token := old(state).tokens[token].(enabled := false, revoked := true)])
    {
      if token !in state.tokens || !MayManage(a, state.tokens[token]) { return false; }
      var row := state.tokens[token];
      if !row.enabled || row.revoked { return false; }
      if row.policy.expires.Some? && !(row.policy.expires.value > now) { return false; }
      var tokens := state.tokens[newToken := Token(Automation, row.policy, true, false, false, 0)];
      tokens := tokens[token := row.(enabled := false, revoked := true)];
      state := state.(tokens := tokens);
      return true;
    }

    /**
     * migrateLoopbackHostIP, undisturbed. `routable`: the address parses and is not a loopback one;
     * `clash`: the first UPDATE violates the unique index.
     */
    method MigrateLoopback(agentId: string, ip: string, routable: bool, clash: bool)
      requires routable ==> ip != "" && !Loopback(ip)
      requires clash <==> !DistinctAddresses(HostsMoved(state.db, agentId, ip))
      modifies `state
      ensures state ==
        (if agentId == "" || !routable || clash then old(state)
         else old(state).(db := AgentMoved(HostsMoved(old(state).db, agentId, ip), agentId, ip)))
      ensures forall h :: h in state.db.hosts <==> h in old(state).db.hosts
      ensures forall h :: h in state.db.hosts ==>
        state.db.hosts[h] ==
          if agentId != "" && routable && !clash && old(state).db.hosts[h].agentId == agentId
             && old(state).db.hosts[h].ip in {"127.0.0.1", "::1"}
          then old(state).db.hosts[h].(ip := ip) else old(state).db.hosts[h]
      ensures forall g :: g in state.db.agents <==> g in old(state).db.agents
      ensures forall g :: g in state.db.agents ==>
        state.db.agents[g] ==
          if agentId != "" && routable && !clash && g == agentId && old(state).db.agents[g].ip in {"127.0.0.1", "::1"}
          then old(state).db.agents[g].(ip := ip) else old(state).db.agents[g]
    {
      if agentId == "" || ip == "" { return; }
      if !routable { return; }
      if clash { return; }
      state := state.(db := HostsMoved(state.db, agentId, ip));
      state := state.(db := AgentMoved(state.db, agentId, ip));
    }
  }
}
