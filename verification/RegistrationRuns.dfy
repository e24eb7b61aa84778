/**
 * Runs of registrations, host deletions, address corrections and token management in any order.
 * The two UPDATE statements of an address correction are separate steps here: other transactions
 * can fall between them.
 */
module RegistrationRuns {
  import opened Options
  import opened Tables
  import opened HostDelete
  import opened Registration

  /** What is remembered of every token ever created, also after its row is gone. */
  datatype Issue = Issue(kind: TokenKind, policy: Policy, serial: nat)

  datatype World = World(
    g: Registry,
    commits: multiset<string>,        // the token of every committed registration that used one
    issued: map<string, Issue>,
    successor: map<string, string>)   // what a token was rotated into

  datatype Step =
    | RegisterAgent(q: Request)
    | RemoveHost(sc: Scope, id: int, p: Probe)
    | Import(ip: string, tenant: int)
    | MoveHost(agentId: string, ip: string)
    | MoveAgent(agentId: string, ip: string)
    | MoveBoth(agentId: string, ip: string)
    | Work(taskHosts: map<int, TaskHost>, commands: map<int, Command>)
    | CreateToken(token: string, kind: TokenKind, policy: Policy)
    | RevokeOne(token: string, a: Actor)
    | RotateOne(token: string, newToken: string, a: Actor, now: int)
    | DropToken(token: string, a: Actor)

  predicate Known(db: Database, agentId: string) {
    agentId in db.agents || exists h :: h in db.hosts && db.hosts[h].agentId == agentId
  }

  /** Random ids and tokens are new; the unique index on addresses answers the upsert and refuses clashes. */
  ghost predicate Enabled(w: World, step: Step) {
    match step
    case RegisterAgent(q) =>
      && q.agentId != "" && !Known(w.g.db, q.agentId)
      && (match q.row
          case Some(h) => h in w.g.db.hosts && w.g.db.hosts[h].ip == q.ip
          case None => forall h :: h in w.g.db.hosts ==> w.g.db.hosts[h].ip != q.ip)
    case Import(ip, _) => forall h :: h in w.g.db.hosts ==> w.g.db.hosts[h].ip != ip
    case MoveHost(a, ip) => a != "" && !Loopback(ip) && DistinctAddresses(HostsMoved(w.g.db, a, ip))
    case MoveAgent(a, ip) => a != "" && !Loopback(ip)
    case MoveBoth(a, ip) => a != "" && !Loopback(ip) && DistinctAddresses(HostsMoved(w.g.db, a, ip))
    case CreateToken(t, _, _) => t !in w.issued
    case RotateOne(_, t, _, _) => t !in w.issued
    case _ => true
  }

  function Create(g: Registry, token: string, kind: TokenKind, policy: Policy): Registry {
    g.(tokens := g.tokens[token := Token(kind, policy, true, false, false, 0)])
  }

  function Apply(w: World, step: Step, contains: Contains): World {
    match step
    case RegisterAgent(q) =>
      var used := if Accepted(w.g, q, contains) && q.needToken then multiset{q.token} else multiset{};
      w.(g := Register(w.g, q, contains), commits := w.commits + used)
    case RemoveHost(sc, id, p) => w.(g := w.g.(db := DeleteOne(w.g.db, sc, id, p)))
    case Import(ip, tenant) =>
      var hosts := w.g.db.hosts[w.g.nextHost := Host(ip, "", tenant)];
      w.(g := w.g.(db := w.g.db.(hosts := hosts), nextHost := w.g.nextHost + 1))
    case MoveHost(a, ip) => w.(g := w.g.(db := HostsMoved(w.g.db, a, ip)))
    case MoveAgent(a, ip) => w.(g := w.g.(db := AgentMoved(w.g.db, a, ip)))
    case MoveBoth(a, ip) => w.(g := w.g.(db := AgentMoved(HostsMoved(w.g.db, a, ip), a, ip)))
    case Work(taskHosts, commands) => w.(g := w.g.(db := w.g.db.(taskHosts := taskHosts, commands := commands)))
    case CreateToken(t, kind, policy) =>
      w.(g := Create(w.g, t, kind, policy), issued := w.issued[t := Issue(kind, policy, |w.issued|)])
    case RevokeOne(t, a) => w.(g := Revoke(w.g, t, a))
    case RotateOne(t, t', a, now) =>
      if !Rotatable(w.g, t, a, now) then w else
        w.(g := Rotate(w.g, t, t', a, now),
           issued := w.issued[t' := Issue(Automation, w.g.tokens[t].policy, |w.issued|)],
           successor := w.successor[t := t'])
    case DropToken(t, a) =>
      if t in w.g.tokens && MayManage(a, w.g.tokens[t]) then w.(g := w.g.(tokens := w.g.tokens - {t})) else w
  }

  const START := World(Registry(Database(map[], map[], map[], map[]), map[], 1), multiset{}, map[], map[])

  ghost predicate Run(w: World, steps: seq<Step>, contains: Contains)
    decreases |steps|
  {
    steps != [] ==> Enabled(w, steps[0]) && Run(Apply(w, steps[0], contains), steps[1..], contains)
  }

  function After(w: World, steps: seq<Step>, contains: Contains): World
    decreases |steps|
  {
    if steps == [] then w else After(Apply(w, steps[0], contains), steps[1..], contains)
  }

  // ----- Hosts and credentials -----

  /** Distinct addresses, distinct agents, ids that are never handed out twice, credentials of live hosts. */
  ghost predicate Attached(g: Registry) {
    var db := g.db;
    && DistinctAddresses(db)
    && (forall h :: h in db.hosts ==> h < g.nextHost)
    && (forall h, k :: h in db.hosts && k in db.hosts && h != k && db.hosts[h].agentId != "" ==>
          db.hosts[h].agentId != db.hosts[k].agentId)
    && (forall a :: a in db.agents ==> Attaches(db, a))
  }

  predicate Attaches(db: Database, a: string)
    requires a in db.agents
  {
    && a != "" && db.agents[a].hostId.Some?
    && db.agents[a].hostId.value in db.hosts && db.hosts[db.agents[a].hostId.value].agentId == a
  }

  /** The credential row of an agent carries the address of its host. */
  predicate AddressAgrees(db: Database, a: string) {
    a in db.agents && db.agents[a].hostId.Some? && db.agents[a].hostId.value in db.hosts ==>
      db.agents[a].ip == db.hosts[db.agents[a].hostId.value].ip
  }

  ghost predicate AllAgree(db: Database) { forall a :: a in db.agents ==> AddressAgrees(db, a) }

  lemma RegisterKeepsAttached(g: Registry, q: Request, contains: Contains)
    requires Attached(g) && Accepted(g, q, contains)
    requires q.agentId != "" && !Known(g.db, q.agentId)
    requires q.row.Some? ==> q.row.value in g.db.hosts && g.db.hosts[q.row.value].ip == q.ip
    requires q.row.None? ==> forall h :: h in g.db.hosts ==> g.db.hosts[h].ip != q.ip
    ensures Attached(Registered(g, q, contains))
  {
  }

  lemma DeleteKeepsAttached(g: Registry, sc: Scope, id: int, p: Probe)
    requires Attached(g)
    ensures Attached(g.(db := DeleteOne(g.db, sc, id, p)))
  {
    hide Verdict;
    DeleteOneHosts(g.db, sc, id, p);
  }

  lemma MoveKeepsAttached(g: Registry, agentId: string, ip: string)
    requires Attached(g) && agentId != ""
    ensures DistinctAddresses(HostsMoved(g.db, agentId, ip)) ==> Attached(g.(db := HostsMoved(g.db, agentId, ip)))
    ensures Attached(g.(db := AgentMoved(g.db, agentId, ip)))
  {
  }

  lemma StepKeepsAttached(w: World, step: Step, contains: Contains)
    requires Attached(w.g) && Enabled(w, step)
    ensures Attached(Apply(w, step, contains).g)
  {
    match step
    case RegisterAgent(q) =>
      if Accepted(w.g, q, contains) {
        RegisterKeepsAttached(w.g, q, contains);
      }
    case RemoveHost(sc, id, p) => DeleteKeepsAttached(w.g, sc, id, p);
    case MoveHost(a, ip) => MoveKeepsAttached(w.g, a, ip);
    case MoveAgent(a, ip) => MoveKeepsAttached(w.g, a, ip);
    case MoveBoth(a, ip) =>
      MoveKeepsAttached(w.g, a, ip);
      MoveKeepsAttached(w.g.(db := HostsMoved(w.g.db, a, ip)), a, ip);
    case _ =>
  }

  /** Every step but the halves of an address correction also keeps the addresses in agreement. */
  lemma StepKeepsAgreement(w: World, step: Step, contains: Contains)
    requires Attached(w.g) && AllAgree(w.g.db) && Enabled(w, step) && !step.MoveHost? && !step.MoveAgent?
    ensures AllAgree(Apply(w, step, contains).g.db)
  {
  }

  ghost predicate Whole(steps: seq<Step>) {
    forall i :: 0 <= i < |steps| ==> !steps[i].MoveHost? && !steps[i].MoveAgent?
  }

  lemma {:induction false} RunKeepsAttached(w: World, steps: seq<Step>, contains: Contains)
    requires Attached(w.g) && Run(w, steps, contains)
    ensures Attached(After(w, steps, contains).g)
    ensures AllAgree(w.g.db) && Whole(steps) ==> AllAgree(After(w, steps, contains).g.db)
    decreases |steps|
  {
    if steps != [] {
      StepKeepsAttached(w, steps[0], contains);
      if AllAgree(w.g.db) && Whole(steps) {
        StepKeepsAgreement(w, steps[0], contains);
      }
      RunKeepsAttached(Apply(w, steps[0], contains), steps[1..], contains);
    }
  }

  /** No host ever has two credentials. */
  lemma OneCredentialPerHost(steps: seq<Step>, contains: Contains, a: string, b: string)
    requires Run(START, steps, contains)
    ensures var db := After(START, steps, contains).g.db;
      (a in db.agents && b in db.agents && db.agents[a].hostId == db.agents[b].hostId ==> a == b)
  {
    RunKeepsAttached(START, steps, contains);
  }

  /** A host keeps its tenant for as long as it exists, and an id that is gone never comes back. */
  lemma {:induction false} TenantsNeverChange(w: World, steps: seq<Step>, contains: Contains, h: int)
    requires Attached(w.g) && Run(w, steps, contains) && h < w.g.nextHost
    ensures var end := After(w, steps, contains).g.db;
      (h in end.hosts ==> h in w.g.db.hosts && end.hosts[h].tenant == w.g.db.hosts[h].tenant)
    decreases |steps|
  {
    if steps != [] {
      var next := Apply(w, steps[0], contains);
      StepKeepsAttached(w, steps[0], contains);
      StepKeepsTenant(w, steps[0], contains, h);
      TenantsNeverChange(next, steps[1..], contains, h);
    }
  }

  lemma StepKeepsTenant(w: World, step: Step, contains: Contains, h: int)
    requires Attached(w.g) && Enabled(w, step) && h < w.g.nextHost
    ensures var next := Apply(w, step, contains).g;
      && h < next.nextHost
      && (h in next.db.hosts ==> h in w.g.db.hosts && next.db.hosts[h].tenant == w.g.db.hosts[h].tenant)
  {
  }

  /** While addresses agree, registering and deleting take away no credential of another host. */
  lemma RegisterDropsOwnCredentials(g: Registry, q: Request, contains: Contains, a: string)
    requires Attached(g) && AllAgree(g.db) && a in g.db.agents
    requires q.row.Some? ==> q.row.value in g.db.hosts && g.db.hosts[q.row.value].ip == q.ip
    requires q.row.None? ==> forall h :: h in g.db.hosts ==> g.db.hosts[h].ip != q.ip
    ensures a !in Register(g, q, contains).db.agents ==> q.row.Some? && g.db.agents[a].hostId == q.row
  {
    var h := g.db.agents[a].hostId.value;
    assert Attaches(g.db, a) && AddressAgrees(g.db, a) && h in g.db.hosts;
    if g.db.hosts[h].ip == q.ip {
      assert q.row.value == h;
    }
  }

  lemma DeleteDropsOwnCredentials(g: Registry, sc: Scope, id: int, p: Probe, a: string)
    requires Attached(g) && AllAgree(g.db) && a in g.db.agents
    ensures a !in DeleteOne(g.db, sc, id, p).agents ==> g.db.agents[a].hostId == Some(id)
  {
    var h := g.db.agents[a].hostId.value;
    assert Attaches(g.db, a) && AddressAgrees(g.db, a) && h in g.db.hosts;
    if id in g.db.hosts && BelongsTo(a, g.db.agents[a], id, g.db.hosts[id]) {
      assert h == id;
    }
  }

  // ----- Runs of address corrections -----

  predicate Corrections(steps: seq<Step>) {
    forall i :: 0 <= i < |steps| ==> steps[i].MoveHost? || steps[i].MoveAgent? || steps[i].MoveBoth?
  }

  /** The address that the first correction of the agent's host carries, whole or half. */
  function FirstHost(steps: seq<Step>, a: string): Option<string> {
    if steps == [] then None
    else match steps[0]
      case MoveHost(id, ip) => if id == a then Some(ip) else FirstHost(steps[1..], a)
      case MoveBoth(id, ip) => if id == a then Some(ip) else FirstHost(steps[1..], a)
      case _ => FirstHost(steps[1..], a)
  }

  /** The address that the first correction of the agent's own row carries. */
  function FirstAgent(steps: seq<Step>, a: string): Option<string> {
    if steps == [] then None
    else match steps[0]
      case MoveAgent(id, ip) => if id == a then Some(ip) else FirstAgent(steps[1..], a)
      case MoveBoth(id, ip) => if id == a then Some(ip) else FirstAgent(steps[1..], a)
      case _ => FirstAgent(steps[1..], a)
  }

  function Moved(ip: string, to: Option<string>): string {
    if Loopback(ip) && to.Some? then to.value else ip
  }

  /** The agent stays with its host, and either row takes the first address it is offered. */
  predicate MovesTo(db: Database, after: Database, a: string, host: Option<string>, own: Option<string>) {
    && a in db.agents && a in after.agents && after.agents[a].hostId == db.agents[a].hostId
    && db.agents[a].hostId.Some?
    && var h := db.agents[a].hostId.value;
       h in db.hosts && h in after.hosts
       && after.hosts[h].ip == Moved(db.hosts[h].ip, host) && after.agents[a].ip == Moved(db.agents[a].ip, own)
  }

  lemma CorrectionMoves(w: World, step: Step, contains: Contains, a: string)
    requires Attached(w.g) && a in w.g.db.agents && Enabled(w, step) && Corrections([step])
    ensures MovesTo(w.g.db, Apply(w, step, contains).g.db, a, FirstHost([step], a), FirstAgent([step], a))
    ensures FirstHost([step], a).Some? ==> !Loopback(FirstHost([step], a).value)
    ensures FirstAgent([step], a).Some? ==> !Loopback(FirstAgent([step], a).value)
  {
    assert [step][0] == step && [step][1..] == [];
    assert Attaches(w.g.db, a);
  }

  lemma {:induction false} CorrectionsMove(w: World, steps: seq<Step>, contains: Contains, a: string)
    requires Attached(w.g) && a in w.g.db.agents && Run(w, steps, contains) && Corrections(steps)
    ensures MovesTo(w.g.db, After(w, steps, contains).g.db, a, FirstHost(steps, a), FirstAgent(steps, a))
    decreases |steps|
  {
    if steps == [] {
      assert Attaches(w.g.db, a);
    } else {
      StepKeepsAttached(w, steps[0], contains);
      assert [steps[0]][0] == steps[0];
      CorrectionMoves(w, steps[0], contains, a);
      FirstOfMore(steps, a);
      hide Apply, Enabled, Attached, FirstHost, FirstAgent, Loopback;
      CorrectionsMove(Apply(w, steps[0], contains), steps[1..], contains, a);
    }
  }

  lemma FirstOfMore(steps: seq<Step>, a: string)
    requires steps != []
    ensures FirstHost(steps, a) ==
      (if FirstHost([steps[0]], a).Some? then FirstHost([steps[0]], a) else FirstHost(steps[1..], a))
    ensures FirstAgent(steps, a) ==
      (if FirstAgent([steps[0]], a).Some? then FirstAgent([steps[0]], a) else FirstAgent(steps[1..], a))
  {
    assert [steps[0]][1..] == [];
  }

  /**
   * Corrections of any agents, whole or half, in any order: an agent that agreed with its host still
   * does at the end exactly if it was not at a loopback address, or the first correction of its host
   * and the first one of its own row carry the same address, or neither was corrected.
   */
  lemma CorrectionsAgreeExactly(w: World, steps: seq<Step>, contains: Contains, a: string)
    requires Attached(w.g) && a in w.g.db.agents && AddressAgrees(w.g.db, a)
    requires Run(w, steps, contains) && Corrections(steps)
    ensures a in After(w, steps, contains).g.db.agents
    ensures AddressAgrees(After(w, steps, contains).g.db, a) <==>
      !Loopback(w.g.db.agents[a].ip) || FirstHost(steps, a) == FirstAgent(steps, a)
  {
    hide Run, Corrections, After, Attached;
    CorrectionsMove(w, steps, contains, a);
    FirstIsNotLoopback(w, steps, contains, a);
  }

  lemma {:induction false} FirstIsNotLoopback(w: World, steps: seq<Step>, contains: Contains, a: string)
    requires Run(w, steps, contains)
    ensures FirstHost(steps, a).Some? ==> !Loopback(FirstHost(steps, a).value)
    ensures FirstAgent(steps, a).Some? ==> !Loopback(FirstAgent(steps, a).value)
    decreases |steps|
  {
    hide Apply;
    if steps != [] {
      FirstIsNotLoopback(Apply(w, steps[0], contains), steps[1..], contains, a);
    }
  }

  /**
   * Two heartbeats of one agent, seen at two addresses, that interleave: the agent's row ends up at
   * the second address, its host at the first. Whoever registers at the second address next takes the
   * agent's credential away, although it belongs to another host.
   */
  lemma InterleavedCorrectionsDisagree(contains: Contains)
    ensures var register := RegisterAgent(Request(false, "", "127.0.0.1", "a", None, 0, false));
      var run := [register, MoveHost("a", "10.0.0.1"), MoveHost("a", "10.0.0.2"), MoveAgent("a", "10.0.0.2")];
      var other := RegisterAgent(Request(false, "", "10.0.0.2", "b", None, 0, false));
      var before, after := After(START, run, contains).g.db, After(START, run + [other], contains).g.db;
      && Run(START, run + [other], contains)
      && before.agents == map["a" := Agent(Some(1), "10.0.0.2")] && before.hosts == map[1 := Host("10.0.0.1", "a", 1)]
      && "a" !in after.agents && 1 in after.hosts
  {
    var register := RegisterAgent(Request(false, "", "127.0.0.1", "a", None, 0, false));
    var run := [register, MoveHost("a", "10.0.0.1"), MoveHost("a", "10.0.0.2"), MoveAgent("a", "10.0.0.2")];
    var other := RegisterAgent(Request(false, "", "10.0.0.2", "b", None, 0, false));
    hide Run, After;
    var s1, s2, s3 := [register], run[..2], run[..3];
    StartOfRun(contains);
    OneMoreStep(START, [], register, contains);
    assert [] + [register] == s1;
    FirstRegistration(contains);
    OneMoreStep(START, s1, run[1], contains);
    assert s1 + [run[1]] == s2;
    OneMoreStep(START, s2, run[2], contains);
    assert s2 + [run[2]] == s3;
    OneMoreStep(START, s3, run[3], contains);
    assert s3 + [run[3]] == run;
    OneMoreStep(START, run, other, contains);
    CorrectionsOfOne(After(START, s1, contains), contains);
  }

  lemma StartOfRun(contains: Contains)
    ensures Run(START, [], contains) && After(START, [], contains) == START
  {
  }

  lemma {:induction false} OneMoreStep(w: World, steps: seq<Step>, step: Step, contains: Contains)
    ensures After(w, steps + [step], contains) == Apply(After(w, steps, contains), step, contains)
    ensures Run(w, steps + [step], contains) <==> Run(w, steps, contains) && Enabled(After(w, steps, contains), step)
    decreases |steps|
  {
    hide Apply, Enabled;
    if steps == [] {
      assert [step][1..] == [];
    } else {
      assert (steps + [step])[1..] == steps[1..] + [step];
      OneMoreStep(Apply(w, steps[0], contains), steps[1..], step, contains);
    }
  }

  lemma FirstRegistration(contains: Contains)
    ensures var register := RegisterAgent(Request(false, "", "127.0.0.1", "a", None, 0, false));
      var w := Apply(START, register, contains);
      && Enabled(START, register) && w.g.nextHost == 2
      && w.g.db.hosts == map[1 := Host("127.0.0.1", "a", 1)] && w.g.db.agents == map["a" := Agent(Some(1), "127.0.0.1")]
  {
    var w := Apply(START, RegisterAgent(Request(false, "", "127.0.0.1", "a", None, 0, false)), contains);
    assert w.g.db.hosts == map[1 := Host("127.0.0.1", "a", 1)];
    assert w.g.db.agents == map["a" := Agent(Some(1), "127.0.0.1")];
  }

  lemma CorrectionsOfOne(w: World, contains: Contains)
    requires w.g.nextHost == 2
    requires w.g.db.hosts == map[1 := Host("127.0.0.1", "a", 1)]
    requires w.g.db.agents == map["a" := Agent(Some(1), "127.0.0.1")]
    ensures var m1, m2, m3 := MoveHost("a", "10.0.0.1"), MoveHost("a", "10.0.0.2"), MoveAgent("a", "10.0.0.2");
      var other := RegisterAgent(Request(false, "", "10.0.0.2", "b", None, 0, false));
      var w1 := Apply(w, m1, contains); var w2 := Apply(w1, m2, contains); var w3 := Apply(w2, m3, contains);
      && Enabled(w, m1) && Enabled(w1, m2) && Enabled(w2, m3) && Enabled(w3, other)
      && w3.g.db.agents == map["a" := Agent(Some(1), "10.0.0.2")] && w3.g.db.hosts == map[1 := Host("10.0.0.1", "a", 1)]
      && var after := Apply(w3, other, contains).g.db; "a" !in after.agents && 1 in after.hosts
  {
    hide Register, DeleteOne, Rotate, Revoke, Known, HostsMoved;
    assert "a" != "";
    var w1 := Apply(w, MoveHost("a", "10.0.0.1"), contains);
    MoveHostOnce(w.g.db);
    var w2 := Apply(w1, MoveHost("a", "10.0.0.2"), contains);
    var w3 := Apply(w2, MoveAgent("a", "10.0.0.2"), contains);
    assert w3.g.db.agents == map["a" := Agent(Some(1), "10.0.0.2")];
    LastRegistration(w3, contains);
  }

  /** Registering a new agent at a new address. */
  lemma RegistersNew(w: World, ip: string, agentId: string, contains: Contains)
    requires forall h :: h in w.g.db.hosts ==> w.g.db.hosts[h].ip != ip && w.g.db.hosts[h].agentId != agentId
    requires forall a :: a in w.g.db.agents ==>
      a != agentId && w.g.db.agents[a].ip != ip && w.g.db.agents[a].hostId != Some(w.g.nextHost)
    requires agentId != ""
    ensures var step := RegisterAgent(Request(false, "", ip, agentId, None, 0, false));
      var db := Apply(w, step, contains).g.db;
      && Enabled(w, step) && Apply(w, step, contains).g.nextHost == w.g.nextHost + 1
      && db.hosts == w.g.db.hosts[w.g.nextHost := Host(ip, agentId, 1)]
      && db.agents == w.g.db.agents[agentId := Agent(Some(w.g.nextHost), ip)]
  {
    var q := Request(false, "", ip, agentId, None, 0, false);
    assert Accepted(w.g, q, contains);
  }

  /** The first half of one correction and the second half of another, which meets the address of a third party. */
  lemma CorrectionMeetsAnotherHost(contains: Contains) returns (steps: seq<Step>)
    ensures Run(START, steps, contains)
    ensures var db := After(START, steps, contains).g.db;
      && db.hosts == map[1 := Host("10.0.0.2", "b", 1), 2 := Host("10.0.0.1", "a", 1)]
      && db.agents == map["b" := Agent(Some(1), "10.0.0.2"), "a" := Agent(Some(2), "10.0.0.2")]
  {
    var b := RegisterAgent(Request(false, "", "10.0.0.2", "b", None, 0, false));
    var a := RegisterAgent(Request(false, "", "127.0.0.1", "a", None, 0, false));
    var w1 := Apply(START, b, contains);
    RegistersNew(START, "10.0.0.2", "b", contains);
    var w2 := Apply(w1, a, contains);
    RegistersNew(w1, "127.0.0.1", "a", contains);
    var w5 := HalvesOfTwo(w2, contains);
    hide Run, After, Enabled, Apply;
    StartOfRun(contains);
    OneMoreStep(START, [], b, contains);
    OneMoreStep(START, [] + [b], a, contains);
    OneMoreStep(START, [] + [b] + [a], MoveHost("a", "10.0.0.1"), contains);
    OneMoreStep(START, [] + [b] + [a] + [MoveHost("a", "10.0.0.1")], MoveHost("a", "10.0.0.2"), contains);
    steps := [] + [b] + [a] + [MoveHost("a", "10.0.0.1")] + [MoveHost("a", "10.0.0.2")];
    OneMoreStep(START, steps, MoveAgent("a", "10.0.0.2"), contains);
    steps := steps + [MoveAgent("a", "10.0.0.2")];
  }

  lemma HalvesOfTwo(w: World, contains: Contains) returns (end: World)
    requires w.g.db.hosts == map[1 := Host("10.0.0.2", "b", 1), 2 := Host("127.0.0.1", "a", 1)]
    requires w.g.db.agents == map["b" := Agent(Some(1), "10.0.0.2"), "a" := Agent(Some(2), "127.0.0.1")]
    ensures var m1, m2, m3 := MoveHost("a", "10.0.0.1"), MoveHost("a", "10.0.0.2"), MoveAgent("a", "10.0.0.2");
      var w1 := Apply(w, m1, contains); var w2 := Apply(w1, m2, contains);
      Enabled(w, m1) && Enabled(w1, m2) && Enabled(w2, m3) && end == Apply(w2, m3, contains)
    ensures end.g.db.hosts == map[1 := Host("10.0.0.2", "b", 1), 2 := Host("10.0.0.1", "a", 1)]
    ensures end.g.db.agents == map["b" := Agent(Some(1), "10.0.0.2"), "a" := Agent(Some(2), "10.0.0.2")]
  {
    hide Register, DeleteOne, Rotate, Revoke, Known, HostsMoved;
    HostsOfTwo(w.g.db);
    assert "a" != "";
    var w1 := Apply(w, MoveHost("a", "10.0.0.1"), contains);
    var w2 := Apply(w1, MoveHost("a", "10.0.0.2"), contains);
    end := Apply(w2, MoveAgent("a", "10.0.0.2"), contains);
    assert end.g.db.agents == map["b" := Agent(Some(1), "10.0.0.2"), "a" := Agent(Some(2), "10.0.0.2")];
  }

  lemma HostsOfTwo(db: Database)
    requires db.hosts == map[1 := Host("10.0.0.2", "b", 1), 2 := Host("127.0.0.1", "a", 1)]
    ensures HostsMoved(db, "a", "10.0.0.1")
      == db.(hosts := map[1 := Host("10.0.0.2", "b", 1), 2 := Host("10.0.0.1", "a", 1)])
    ensures HostsMoved(HostsMoved(db, "a", "10.0.0.1"), "a", "10.0.0.2") == HostsMoved(db, "a", "10.0.0.1")
  {
    assert HostsMoved(db, "a", "10.0.0.1").hosts == map[1 := Host("10.0.0.2", "b", 1), 2 := Host("10.0.0.1", "a", 1)];
  }

  lemma MoveHostOnce(db: Database)
    requires db.hosts == map[1 := Host("127.0.0.1", "a", 1)]
    ensures HostsMoved(db, "a", "10.0.0.1").hosts == map[1 := Host("10.0.0.1", "a", 1)]
    ensures HostsMoved(HostsMoved(db, "a", "10.0.0.1"), "a", "10.0.0.2") == HostsMoved(db, "a", "10.0.0.1")
    ensures HostsMoved(db, "a", "10.0.0.1").agents == db.agents
  {
  }

  lemma LastRegistration(w: World, contains: Contains)
    requires w.g.nextHost == 2 && w.g.db.hosts == map[1 := Host("10.0.0.1", "a", 1)]
    requires w.g.db.agents == map["a" := Agent(Some(1), "10.0.0.2")]
    ensures var other := RegisterAgent(Request(false, "", "10.0.0.2", "b", None, 0, false));
      var after := Apply(w, other, contains).g.db;
      Enabled(w, other) && "a" !in after.agents && 1 in after.hosts
  {
  }

  // ----- Tokens -----

  type Tokens = map<string, Token>
  type Issues = map<string, Issue>

  predicate RowCounts(row: Token, uses: nat, i: Issue) {
    && i.kind == row.kind && i.policy == row.policy
    && (match row.kind
        case OneTime => row.usedCount == 0 && uses == (if row.used then 1 else 0)
        case Automation => !row.used && row.usedCount == uses)
  }

  predicate WithinLimit(i: Issue, uses: nat) {
    match i.kind
    case OneTime => uses <= 1
    case Automation => i.policy.maxUses > 0 ==> uses <= i.policy.maxUses
  }

  /** A token's row agrees with the registrations that committed with it, and its limit holds. */
  ghost predicate CountedIn(tokens: Tokens, commits: multiset<string>, issued: Issues) {
    && (forall t :: t in tokens ==> t in issued && RowCounts(tokens[t], commits[t], issued[t]))
    && (forall t :: t in issued ==> WithinLimit(issued[t], commits[t]))
    && (forall t :: t in commits ==> t in issued)
  }

  ghost predicate Counted(w: World) { CountedIn(w.g.tokens, w.commits, w.issued) }

  lemma ConsumeKeepsCounted(tokens: Tokens, commits: multiset<string>, issued: Issues,
                            t: string, ip: string, now: int, contains: Contains)
    requires CountedIn(tokens, commits, issued) && t in tokens && Usable(tokens[t], ip, now, contains)
    ensures CountedIn(tokens[t := Consumed(tokens[t])], commits + multiset{t}, issued)
  {
  }

  lemma CreateKeepsCounted(
      tokens: Tokens, commits: multiset<string>, issued: Issues, t: string, row: Token, serial: nat)
    requires CountedIn(tokens, commits, issued) && t !in issued
    requires !row.used && row.usedCount == 0
    ensures CountedIn(tokens[t := row], commits, issued[t := Issue(row.kind, row.policy, serial)])
  {
    assert commits[t] == 0;
  }

  lemma RevokeKeepsCounted(tokens: Tokens, commits: multiset<string>, issued: Issues, t: string)
    requires CountedIn(tokens, commits, issued) && t in tokens
    ensures CountedIn(tokens[t := tokens[t].(enabled := false, revoked := true)], commits, issued)
  {
  }

  lemma StepKeepsCounted(w: World, step: Step, contains: Contains)
    requires Counted(w) && Enabled(w, step)
    ensures Counted(Apply(w, step, contains))
  {
    hide CountedIn, Usable, Consumed, Verdict, DistinctAddresses, MayManage;
    match step
    case RegisterAgent(q) =>
      assert w.commits + multiset{} == w.commits;
      if Accepted(w.g, q, contains) && q.needToken {
        ConsumeKeepsCounted(w.g.tokens, w.commits, w.issued, q.token, q.ip, q.now, contains);
      }
    case CreateToken(t, kind, policy) =>
      CreateKeepsCounted(w.g.tokens, w.commits, w.issued, t, Token(kind, policy, true, false, false, 0), |w.issued|);
    case RevokeOne(t, a) =>
      if t in w.g.tokens {
        RevokeKeepsCounted(w.g.tokens, w.commits, w.issued, t);
      }
    case RotateOne(t, t', a, now) =>
      if Rotatable(w.g, t, a, now) {
        RotateKeepsCounted(w, t, t');
      }
    case DropToken(t, a) => DropKeepsCounted(w.g.tokens, w.commits, w.issued, t);
    case _ =>
  }

  lemma DropKeepsCounted(tokens: Tokens, commits: multiset<string>, issued: Issues, t: string)
    requires CountedIn(tokens, commits, issued)
    ensures CountedIn(tokens - {t}, commits, issued)
  {
  }

  lemma RotateKeepsCounted(w: World, t: string, t': string)
    requires Counted(w) && t in w.g.tokens && t' !in w.issued
    ensures var row := Token(Automation, w.g.tokens[t].policy, true, false, false, 0);
      CountedIn(w.g.tokens[t' := row][t := w.g.tokens[t].(enabled := false, revoked := true)], w.commits,
                w.issued[t' := Issue(Automation, row.policy, |w.issued|)])
  {
    var row := Token(Automation, w.g.tokens[t].policy, true, false, false, 0);
    CreateKeepsCounted(w.g.tokens, w.commits, w.issued, t', row, |w.issued|);
    RevokeKeepsCounted(w.g.tokens[t' := row], w.commits, w.issued[t' := Issue(Automation, row.policy, |w.issued|)], t);
  }

  predicate CommitsIn(w: World, step: Step, contains: Contains, t: string) {
    step.RegisterAgent? && step.q.needToken && step.q.token == t && Accepted(w.g, step.q, contains)
  }

  lemma StepCommits(w: World, step: Step, contains: Contains, t: string)
    ensures Apply(w, step, contains).commits[t] == w.commits[t] + (if CommitsIn(w, step, contains, t) then 1 else 0)
  {
    hide Accepted, Register, Rotate, Rotatable, Revoke, DeleteOne, MayManage;
  }

  /** The registrations of a run that committed with a given token. */
  function CommitsWith(w: World, steps: seq<Step>, contains: Contains, t: string): nat
    decreases |steps|
  {
    if steps == [] then 0 else
      (if CommitsIn(w, steps[0], contains, t) then 1 else 0)
      + CommitsWith(Apply(w, steps[0], contains), steps[1..], contains, t)
  }

  lemma {:induction false} RunCounts(w: World, steps: seq<Step>, contains: Contains, t: string)
    requires Counted(w) && Run(w, steps, contains)
    ensures Counted(After(w, steps, contains))
    ensures After(w, steps, contains).commits[t] == w.commits[t] + CommitsWith(w, steps, contains, t)
    decreases |steps|
  {
    hide Apply, CountedIn, CommitsIn, Enabled;
    if steps != [] {
      StepKeepsCounted(w, steps[0], contains);
      var next := Apply(w, steps[0], contains);
      StepCommits(w, steps[0], contains, t);
      RunCounts(next, steps[1..], contains, t);
    }
  }

  /**
   * For every token there ever was, in every run: registrations that committed with it stay within
   * its limit, and `used_count` is their number, except that a used one-time token shows 0.
   */
  lemma TokensAccountForRegistrations(steps: seq<Step>, contains: Contains, t: string)
    requires Run(START, steps, contains)
    ensures var w, n := After(START, steps, contains), CommitsWith(START, steps, contains, t);
      && (t in w.g.tokens ==> (w.g.tokens[t].usedCount == n <==> !w.g.tokens[t].used))
      && (t in w.g.tokens && w.g.tokens[t].kind.OneTime? ==> (w.g.tokens[t].used <==> n == 1))
      && (t in w.issued && w.issued[t].kind.OneTime? ==> n <= 1)
      && (t in w.issued && w.issued[t].policy.maxUses > 0 && w.issued[t].kind.Automation? ==>
            n <= w.issued[t].policy.maxUses)
      && (t !in w.issued ==> n == 0)
  {
    RunCounts(START, steps, contains, t);
  }

  /** A one-time token that was used, and still shows a count of 0. */
  lemma UsedTokenShowsZero(contains: Contains)
    ensures var steps := [CreateToken("t", OneTime, Policy(1, None, 1, [])),
                          RegisterAgent(Request(true, "t", "10.0.0.1", "a", None, 0, false))];
      var tokens := After(START, steps, contains).g.tokens;
      && Run(START, steps, contains) && CommitsWith(START, steps, contains, "t") == 1
      && "t" in tokens && tokens["t"].used && tokens["t"].usedCount == 0
  {
    var create := CreateToken("t", OneTime, Policy(1, None, 1, []));
    var register := RegisterAgent(Request(true, "t", "10.0.0.1", "a", None, 0, false));
    var steps := [create, register];
    var w1 := Apply(START, create, contains);
    assert Usable(w1.g.tokens["t"], "10.0.0.1", 0, contains);
    assert Accepted(w1.g, register.q, contains) && Enabled(w1, register) && Enabled(START, create);
    assert steps[1..] == [register] && steps[1..][1..] == [];
    var w2 := Apply(w1, register, contains);
    assert w2.g.tokens["t"] == w1.g.tokens["t"].(used := true);
    assert CommitsIn(w1, register, contains, "t") && !CommitsIn(START, create, contains, "t");
    hide Apply, Enabled, CommitsIn;
    assert After(START, steps, contains) == After(w1, [register], contains) == After(w2, [], contains) == w2;
    assert Run(w2, [], contains) && Run(w1, [register], contains);
    assert CommitsWith(w2, [], contains, "t") == 0 && CommitsWith(w1, [register], contains, "t") == 1;
  }

  // ----- Rotation -----

  predicate DeadIn(tokens: Tokens, issued: Issues, t: string) {
    t in issued && (t in tokens ==> tokens[t].revoked)
  }

  predicate Dead(w: World, t: string) { DeadIn(w.g.tokens, w.issued, t) }

  predicate Succeeds(tokens: Tokens, issued: Issues, t: string, t': string) {
    && DeadIn(tokens, issued, t) && t' in issued && issued[t].serial < issued[t'].serial
    && issued[t'].policy == issued[t].policy
  }

  /** Every successor is younger, has the same policy and no second predecessor, and its predecessor is dead. */
  ghost predicate LinearIn(tokens: Tokens, issued: Issues, successor: map<string, string>) {
    && (forall t :: t in issued ==> issued[t].serial < |issued|)
    && (forall t :: t in successor ==> Succeeds(tokens, issued, t, successor[t]))
    && (forall t, u :: t in successor && u in successor && t != u ==> successor[t] != successor[u])
  }

  ghost predicate Linear(w: World) { LinearIn(w.g.tokens, w.issued, w.successor) }

  /** Nothing that has been seen of tokens so far is taken back. */
  ghost predicate Later(tokens: Tokens, issued: Issues, tokens': Tokens, issued': Issues) {
    && (forall t :: t in issued ==> t in issued' && issued'[t] == issued[t])
    && (forall t :: DeadIn(tokens, issued, t) ==> DeadIn(tokens', issued', t))
  }

  lemma RowKeepsLinear(tokens: Tokens, issued: Issues, successor: map<string, string>, t: string, row: Token)
    requires LinearIn(tokens, issued, successor) && t in tokens && (tokens[t].revoked ==> row.revoked)
    ensures LinearIn(tokens[t := row], issued, successor) && Later(tokens, issued, tokens[t := row], issued)
    ensures LinearIn(tokens - {t}, issued, successor) && Later(tokens, issued, tokens - {t}, issued)
  {
  }

  lemma NewKeepsLinear(tokens: Tokens, issued: Issues, successor: map<string, string>, t: string, row: Token)
    requires LinearIn(tokens, issued, successor) && t !in issued
    ensures var issued' := issued[t := Issue(row.kind, row.policy, |issued|)];
      LinearIn(tokens[t := row], issued', successor) && Later(tokens, issued, tokens[t := row], issued')
  {
    assert issued[t := Issue(row.kind, row.policy, |issued|)].Keys == issued.Keys + {t};
  }

  lemma LinkKeepsLinear(tokens: Tokens, issued: Issues, successor: map<string, string>, t: string, t': string)
    requires LinearIn(tokens, issued, successor)
    requires Succeeds(tokens, issued, t, t')
    requires forall u :: u in successor ==> successor[u] != t'
    ensures LinearIn(tokens, issued, successor[t := t'])
  {
  }

  lemma RotateKeepsLinear(w: World, t: string, t': string, a: Actor, now: int, contains: Contains)
    requires Counted(w) && Linear(w) && t' !in w.issued && Rotatable(w.g, t, a, now)
    ensures var w' := Apply(w, RotateOne(t, t', a, now), contains);
      Linear(w') && Later(w.g.tokens, w.issued, w'.g.tokens, w'.issued)
  {
    var parent, row := w.g.tokens[t], Token(Automation, w.g.tokens[t].policy, true, false, false, 0);
    NewKeepsLinear(w.g.tokens, w.issued, w.successor, t', row);
    var tokens, issued := w.g.tokens[t' := row], w.issued[t' := Issue(row.kind, row.policy, |w.issued|)];
    RowKeepsLinear(tokens, issued, w.successor, t, parent.(enabled := false, revoked := true));
    LinkKeepsLinear(tokens[t := parent.(enabled := false, revoked := true)], issued, w.successor, t, t');
  }

  lemma StepKeepsLinear(w: World, step: Step, contains: Contains)
    requires Counted(w) && Linear(w) && Enabled(w, step)
    ensures var w' := Apply(w, step, contains);
      Linear(w') && Later(w.g.tokens, w.issued, w'.g.tokens, w'.issued)
  {
    hide LinearIn, Later, CountedIn, Usable, Verdict, DistinctAddresses, MayManage;
    SameIsLater(w.g.tokens, w.issued);
    match step
    case RegisterAgent(q) =>
      if Accepted(w.g, q, contains) && q.needToken {
        RowKeepsLinear(w.g.tokens, w.issued, w.successor, q.token, Consumed(w.g.tokens[q.token]));
      }
    case CreateToken(t, kind, policy) =>
      NewKeepsLinear(w.g.tokens, w.issued, w.successor, t, Token(kind, policy, true, false, false, 0));
    case RevokeOne(t, a) =>
      if t in w.g.tokens {
        RowKeepsLinear(w.g.tokens, w.issued, w.successor, t, w.g.tokens[t].(enabled := false, revoked := true));
      }
    case RotateOne(t, t', a, now) =>
      if Rotatable(w.g, t, a, now) {
        RotateKeepsLinear(w, t, t', a, now, contains);
      }
    case DropToken(t, a) =>
      if t in w.g.tokens {
        RowKeepsLinear(w.g.tokens, w.issued, w.successor, t, w.g.tokens[t]);
      }
    case _ =>
  }

  lemma SameIsLater(tokens: Tokens, issued: Issues)
    ensures Later(tokens, issued, tokens, issued)
  {
  }

  lemma {:induction false} RunKeepsLinear(w: World, steps: seq<Step>, contains: Contains)
    requires Counted(w) && Linear(w) && Run(w, steps, contains)
    ensures var w' := After(w, steps, contains);
      Counted(w') && Linear(w') && Later(w.g.tokens, w.issued, w'.g.tokens, w'.issued)
    decreases |steps|
  {
    hide CountedIn, LinearIn;
    if steps == [] {
      SameIsLater(w.g.tokens, w.issued);
    } else {
      StepKeepsCounted(w, steps[0], contains);
      StepKeepsLinear(w, steps[0], contains);
      RunKeepsLinear(Apply(w, steps[0], contains), steps[1..], contains);
    }
  }

  /** Tokens each of which was rotated into the next. */
  predicate Lineage(w: World, chain: seq<string>) {
    forall i :: 0 <= i < |chain| - 1 ==> chain[i] in w.successor && w.successor[chain[i]] == chain[i + 1]
  }

  /**
   * In a rotation lineage no token occurs twice, all have the policy of the first, and no token but
   * the last can be used: neither now nor after anything that may still happen.
   */
  lemma {:induction false} LineageEndsInItsOnlyLiveToken(
      w: World, steps: seq<Step>, contains: Contains, chain: seq<string>, i: nat, j: nat, ip: string, now: int)
    requires Counted(w) && Linear(w) && Run(w, steps, contains) && Lineage(w, chain) && i < j < |chain|
    ensures chain[i] in w.issued && chain[j] in w.issued && w.issued[chain[i]].serial < w.issued[chain[j]].serial
    ensures w.issued[chain[i]].policy == w.issued[chain[j]].policy && chain[i] != chain[j]
    ensures var g := After(w, steps, contains).g;
      chain[i] in g.tokens ==> !Usable(g.tokens[chain[i]], ip, now, contains)
    decreases j - i
  {
    RunKeepsLinear(w, steps, contains);
    var t := chain[i];
    assert Succeeds(w.g.tokens, w.issued, t, w.successor[t]) && w.successor[t] == chain[i + 1];
    assert Dead(After(w, steps, contains), t);
    if i + 1 < j {
      LineageEndsInItsOnlyLiveToken(w, steps, contains, chain, i + 1, j, ip, now);
    }
  }

  /** Two lineages that share a token run together: none ever branches, and none ever joins another. */
  lemma {:induction false} LineagesNeverBranch(w: World, c: seq<string>, d: seq<string>, i: nat, j: nat, k: nat)
    requires Linear(w) && Lineage(w, c) && Lineage(w, d) && i < |c| && j < |d| && c[i] == d[j]
    ensures i + k < |c| && j + k < |d| ==> c[i + k] == d[j + k]
    ensures k <= i && k <= j ==> c[i - k] == d[j - k]
    decreases k
  {
    if k > 0 {
      LineagesNeverBranch(w, c, d, i, j, k - 1);
    }
  }

  /** Everything above holds in every state that can be reached. */
  lemma ReachableStates(steps: seq<Step>, contains: Contains)
    requires Run(START, steps, contains)
    ensures var w := After(START, steps, contains);
      Attached(w.g) && Counted(w) && Linear(w) && (Whole(steps) ==> AllAgree(w.g.db))
  {
    RunKeepsAttached(START, steps, contains);
    RunKeepsLinear(START, steps, contains);
  }

  // ----- Where a host's tenant comes from -----

  /** The step creates this host, in the tenant of an import, of the token, or in tenant 1 where none is required. */
  predicate CreatesHost(w: World, step: Step, h: int, tenant: int) {
    && h == w.g.nextHost
    && match step
       case Import(_, t) => t == tenant
       case RegisterAgent(q) =>
         q.row.None?
         && (if q.needToken then q.token in w.g.tokens && w.g.tokens[q.token].policy.tenant == tenant else tenant == 1)
       case _ => false
  }

  lemma StepCreatesHost(w: World, step: Step, contains: Contains, h: int)
    requires Attached(w.g) && Enabled(w, step) && h !in w.g.db.hosts && h in Apply(w, step, contains).g.db.hosts
    ensures CreatesHost(w, step, h, Apply(w, step, contains).g.db.hosts[h].tenant)
  {
    if step.RegisterAgent? {
      AcceptedExactly(w.g, step.q, contains);
    }
    hide Usable, Verdict, DistinctAddresses, Known;
  }

  /** Every host was created by some step of the run, and its tenant is that of the import or token of that step. */
  lemma TenantsComeFromTheirCreation(steps: seq<Step>, contains: Contains, h: int)
    requires Run(START, steps, contains) && h in After(START, steps, contains).g.db.hosts
    ensures exists i: nat :: i < |steps| && CreatesHost(
      After(START, steps[..i], contains), steps[i], h, After(START, steps, contains).g.db.hosts[h].tenant)
  {
    var i := CreatedAt(START, steps, contains, h);
  }

  lemma {:induction false} CreatedAt(w: World, steps: seq<Step>, contains: Contains, h: int) returns (i: nat)
    requires Attached(w.g) && Run(w, steps, contains)
    requires h !in w.g.db.hosts && h in After(w, steps, contains).g.db.hosts
    ensures i < |steps|
    ensures CreatesHost(After(w, steps[..i], contains), steps[i], h, After(w, steps, contains).g.db.hosts[h].tenant)
    decreases |steps|
  {
    var next := Apply(w, steps[0], contains);
    StepKeepsAttached(w, steps[0], contains);
    if h in next.g.db.hosts {
      StepCreatesHost(w, steps[0], contains, h);
      TenantsNeverChange(next, steps[1..], contains, h);
      i := 0;
      assert steps[..0] == [];
    } else {
      hide Apply, Enabled, Attached, CreatesHost;
      var k := CreatedAt(next, steps[1..], contains, h);
      i := k + 1;
      assert steps[..i][1..] == steps[1..][..k] && steps[..i][0] == steps[0];
    }
  }

  // ----- What is gone stays gone -----

  /** A deletion that succeeds removes the host for good. */
  lemma DeletedHostsStayGone(w: World, sc: Scope, id: int, p: Probe, steps: seq<Step>, contains: Contains)
    requires Attached(w.g) && Verdict(w.g.db, sc, id, p).Deleted?
    requires Run(Apply(w, RemoveHost(sc, id, p), contains), steps, contains)
    ensures id in w.g.db.hosts && id !in Apply(w, RemoveHost(sc, id, p), contains).g.db.hosts
    ensures id !in After(Apply(w, RemoveHost(sc, id, p), contains), steps, contains).g.db.hosts
  {
    DeleteOneHosts(w.g.db, sc, id, p);
    StepKeepsAttached(w, RemoveHost(sc, id, p), contains);
    hide Verdict;
    TenantsNeverChange(Apply(w, RemoveHost(sc, id, p), contains), steps, contains, id);
  }

  /** No registration commits with a dead token. */
  lemma {:induction false} DeadTokensRegisterNobody(w: World, steps: seq<Step>, contains: Contains, t: string)
    requires Counted(w) && Linear(w) && Run(w, steps, contains) && Dead(w, t)
    ensures CommitsWith(w, steps, contains, t) == 0
    decreases |steps|
  {
    if steps != [] {
      StepKeepsCounted(w, steps[0], contains);
      StepKeepsLinear(w, steps[0], contains);
      var next := Apply(w, steps[0], contains);
      assert Dead(next, t);
      assert !CommitsIn(w, steps[0], contains, t);
      hide Apply, Enabled, Counted, Linear, Dead, CommitsIn;
      DeadTokensRegisterNobody(next, steps[1..], contains, t);
    }
  }

  /** A token row appears only by being created, as asked for, or by rotation, with the policy of its predecessor. */
  lemma TokenAppearsOnlyBy(w: World, step: Step, contains: Contains, t: string)
    requires Counted(w) && Enabled(w, step) && t !in w.g.tokens && t in Apply(w, step, contains).g.tokens
    ensures step.CreateToken? || step.RotateOne?
    ensures var row := Apply(w, step, contains).g.tokens[t];
      && (step.CreateToken? ==> t == step.token && row == Token(step.kind, step.policy, true, false, false, 0))
      && (step.RotateOne? ==>
            && t == step.newToken && step.token in w.g.tokens
            && row == Token(Automation, w.g.tokens[step.token].policy, true, false, false, 0))
  {
    hide Accepted, Verdict, Known, DistinctAddresses, HostsMoved, AgentMoved;
    if step.RegisterAgent? {
      AcceptedExactly(w.g, step.q, contains);
    }
  }

  /** And changes only by being used, revoked or rotated; its kind and policy never change. */
  lemma TokenChangesOnlyBy(w: World, step: Step, contains: Contains, t: string)
    requires Counted(w) && Enabled(w, step) && t in w.g.tokens
    ensures var after := Apply(w, step, contains).g.tokens;
      && (t !in after ==> step.DropToken? && step.token == t)
      && (t in after ==>
            && after[t].kind == w.g.tokens[t].kind && after[t].policy == w.g.tokens[t].policy
            && (after[t] != w.g.tokens[t] ==>
                  (step.RegisterAgent? && step.q.needToken && step.q.token == t)
                  || (step.RevokeOne? && step.token == t) || (step.RotateOne? && step.token == t)))
  {
    hide Accepted, Verdict, Known, DistinctAddresses, HostsMoved, AgentMoved;
    if step.RegisterAgent? {
      AcceptedExactly(w.g, step.q, contains);
    }
  }

  /** The actor may manage the token: an automation token of its own tenant, or any if it is a superadmin. */
  predicate Manages(a: Actor, t: Token) {
    t.kind == Automation && (a.superadmin || t.policy.tenant == if a.tenant > 0 then a.tenant else 1)
  }

  /** Revoking, rotating or dropping a token ends all registrations with it, for good. */
  lemma NobodyRegistersAfterwards(
      before: seq<Step>, w: World, step: Step, t: string, steps: seq<Step>, contains: Contains)
    requires Run(START, before, contains) && w == After(START, before, contains) && Enabled(w, step)
    requires t in w.g.tokens
    requires match step
      case RevokeOne(t', a) => t' == t && Manages(a, w.g.tokens[t])
      case DropToken(t', a) => t' == t && Manages(a, w.g.tokens[t])
      case RotateOne(t', _, a, now) =>
        t' == t && Manages(a, w.g.tokens[t]) && w.g.tokens[t].enabled && !w.g.tokens[t].revoked
        && (w.g.tokens[t].policy.expires.None? || now < w.g.tokens[t].policy.expires.value)
      case _ => false
    requires Run(Apply(w, step, contains), steps, contains)
    ensures CommitsWith(Apply(w, step, contains), steps, contains, t) == 0
  {
    RunKeepsLinear(START, before, contains);
    StepKeepsCounted(w, step, contains);
    StepKeepsLinear(w, step, contains);
    assert t in w.issued;
    assert Dead(Apply(w, step, contains), t);
    hide Apply, Enabled, Counted, Linear, Dead;
    DeadTokensRegisterNobody(Apply(w, step, contains), steps, contains, t);
  }
}
