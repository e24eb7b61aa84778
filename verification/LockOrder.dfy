/**
 * The locks that transactions take, in what order, and when they can deadlock. Which credential rows a
 * DELETE on agents locks is decided by the tables at that moment.
 */
module LockOrder {
  import opened Options
  import opened Tables
  import opened HostDelete
  import opened DeleteJobs
  import opened Registration
  import RegistrationRuns

  type World = RegistrationRuns.World

  /** What a transaction waits for: a row, an advisory lock, or a host's rows in one table. */
  datatype Lock =
    | JobRow(id: int)
    | Address(key: int)
    | TokenRow(id: int)
    | TaskRows(host: int)
    | CommandRows(host: int)
    | HostRow(host: int)
    | CredentialRows(host: int)

  /** A statement that locks: a known row, or the agents that go with a host, or those at an address. */
  datatype LockRequest = Ask(lock: Lock) | Clear(host: int) | ClearAddress(ip: string)

  datatype Transaction =
    | Registering(key: int, ip: string, token: Option<int>, known: Option<int>)  // none: the host is inserted
    | Deleting(host: int)
    | JobBatch(job: int, ids: seq<int>)
    | Sweeping(ids: seq<int>)          // the synchronizer removing hosts its source no longer has
    | Single(lock: Lock)               // one statement: heartbeat, cancel, revoke, rotate, correction

  function DeleteRequests(host: int, agents: bool): seq<LockRequest> {
    [Ask(TaskRows(host)), Ask(CommandRows(host)), Ask(HostRow(host))] + (if agents then [Clear(host)] else [])
  }

  function EachDelete(ids: seq<int>, agents: bool): seq<LockRequest> {
    if ids == [] then [] else DeleteRequests(ids[0], agents) + EachDelete(ids[1..], agents)
  }

  /** The locking statements of a transaction in order. */
  function Requests(t: Transaction): seq<LockRequest> {
    match t
    case Registering(key, ip, token, known) =>
      [Ask(Address(key))] + (if token.Some? then [Ask(TokenRow(token.value))] else [])
      + (if known.Some? then [Ask(HostRow(known.value)), Clear(known.value)] else [ClearAddress(ip)])
    case Deleting(host) => DeleteRequests(host, true)
    case JobBatch(job, ids) => [Ask(JobRow(job))] + EachDelete(ids, true)
    case Sweeping(ids) => EachDelete(ids, false)
    case Single(lock) => [Ask(lock)]
  }

  predicate WellFormed(t: Transaction) {
    match t
    case JobBatch(_, ids) => Ascending(ids)
    case Sweeping(ids) => Ascending(ids)
    case _ => true
  }

  /** Statement by statement, what the transactions ask for. */
  lemma RequestsListed(key: int, ip: string, token: int, host: int)
    ensures Requests(Registering(key, ip, Some(token), Some(host)))
         == [Ask(Address(key)), Ask(TokenRow(token)), Ask(HostRow(host)), Clear(host)]
    ensures Requests(Registering(key, ip, None, Some(host))) == [Ask(Address(key)), Ask(HostRow(host)), Clear(host)]
    ensures Requests(Registering(key, ip, Some(token), None))
         == [Ask(Address(key)), Ask(TokenRow(token)), ClearAddress(ip)]
    ensures Requests(Registering(key, ip, None, None)) == [Ask(Address(key)), ClearAddress(ip)]
    ensures Requests(Deleting(host)) == [Ask(TaskRows(host)), Ask(CommandRows(host)), Ask(HostRow(host)), Clear(host)]
  {
  }

  /** And host by host in a batch, and in the synchronizer's removal, which leaves the agents out. */
  lemma BatchListed(job: int, ids: seq<int>, i: nat)
    ensures |Requests(JobBatch(job, ids))| == 1 + 4 * |ids| && |Requests(Sweeping(ids))| == 3 * |ids|
    ensures Requests(JobBatch(job, ids))[0] == Ask(JobRow(job))
    ensures i < |ids| ==>
      var rs, k := Requests(JobBatch(job, ids)), 1 + 4 * i;
      && rs[k] == Ask(TaskRows(ids[i])) && rs[k + 1] == Ask(CommandRows(ids[i]))
      && rs[k + 2] == Ask(HostRow(ids[i])) && rs[k + 3] == Clear(ids[i])
    ensures i < |ids| ==>
      var rs, k := Requests(Sweeping(ids)), 3 * i;
      rs[k] == Ask(TaskRows(ids[i])) && rs[k + 1] == Ask(CommandRows(ids[i])) && rs[k + 2] == Ask(HostRow(ids[i]))
  {
    EachDeleteListed(ids, true, i);
    EachDeleteListed(ids, false, i);
    var batch, each := Requests(JobBatch(job, ids)), EachDelete(ids, true);
    assert batch == [Ask(JobRow(job))] + each && Requests(Sweeping(ids)) == EachDelete(ids, false);
    hide EachDelete, Requests;
    if i < |ids| {
      assert batch[4 * i + 1] == each[4 * i] && batch[4 * i + 2] == each[4 * i + 1];
      assert batch[4 * i + 3] == each[4 * i + 2] && batch[4 * i + 4] == each[4 * i + 3];
    }
  }

  lemma {:induction false} EachDeleteListed(ids: seq<int>, agents: bool, i: nat)
    ensures var n := if agents then 4 else 3;
      && |EachDelete(ids, agents)| == n * |ids|
      && (i < |ids| ==>
            var rs := EachDelete(ids, agents);
            && n * i + n <= |rs|
            && rs[n * i] == Ask(TaskRows(ids[i])) && rs[n * i + 1] == Ask(CommandRows(ids[i]))
            && rs[n * i + 2] == Ask(HostRow(ids[i])) && (agents ==> rs[n * i + 3] == Clear(ids[i])))
  {
    if ids != [] {
      EachDeleteListed(ids[1..], agents, if i > 0 then i - 1 else 0);
    }
  }

  // ----- The order -----

  function Group(l: Lock): nat {
    match l
    case JobRow(_) => 0
    case Address(_) => 1
    case TokenRow(_) => 2
    case _ => 3
  }

  function Key(l: Lock): int {
    match l
    case JobRow(id) => id
    case Address(key) => key
    case TokenRow(id) => id
    case TaskRows(host) => host
    case CommandRows(host) => host
    case HostRow(host) => host
    case CredentialRows(host) => host
  }

  function Slot(l: Lock): nat {
    match l
    case CommandRows(_) => 1
    case HostRow(_) => 2
    case CredentialRows(_) => 3
    case _ => 0
  }

  predicate Below(a: Lock, b: Lock) {
    Group(a) < Group(b)
    || (Group(a) == Group(b) && (Key(a) < Key(b) || (Key(a) == Key(b) && Slot(a) < Slot(b))))
  }

  lemma BelowIsTotal(a: Lock, b: Lock)
    ensures !Below(a, a)
    ensures a == b || Below(a, b) || Below(b, a)
  {
  }

  lemma BelowIsTransitive(a: Lock, b: Lock, c: Lock)
    ensures Below(a, b) && Below(b, c) ==> Below(a, c)
    ensures Below(a, b) && !Below(c, b) ==> Below(a, c)
  {
  }

  /** Whatever the request may lock while credentials are kept apart lies above the lock. */
  predicate Ahead(l: Lock, r: LockRequest) {
    match r
    case Ask(m) => Below(l, m)
    case Clear(h) => Below(l, CredentialRows(h))
    case ClearAddress(_) => Group(l) < 3
  }

  predicate Precedes(q: LockRequest, r: LockRequest) {
    match q
    case Ask(l) => Ahead(l, r)
    case Clear(h) => Ahead(CredentialRows(h), r)
    case ClearAddress(_) => false
  }

  predicate Ordered(rs: seq<LockRequest>) { forall i, j :: 0 <= i < j < |rs| ==> Precedes(rs[i], rs[j]) }

  predicate OfHosts(r: LockRequest, ids: seq<int>) {
    match r
    case Ask(l) => Group(l) == 3 && Key(l) in ids
    case Clear(h) => h in ids
    case ClearAddress(_) => false
  }

  lemma OrderedJoin(qs: seq<LockRequest>, rs: seq<LockRequest>)
    requires Ordered(qs) && Ordered(rs)
    requires forall i, j :: 0 <= i < |qs| && 0 <= j < |rs| ==> Precedes(qs[i], rs[j])
    ensures Ordered(qs + rs)
  {
    hide Precedes;
  }

  lemma LaterHost(host: int, agents: bool, r: LockRequest, ids: seq<int>)
    requires OfHosts(r, ids) && forall id :: id in ids ==> host < id
    ensures Ordered(DeleteRequests(host, agents))
    ensures forall i :: 0 <= i < |DeleteRequests(host, agents)| ==> Precedes(DeleteRequests(host, agents)[i], r)
  {
  }

  lemma {:induction false} BatchOrdered(ids: seq<int>, agents: bool)
    requires Ascending(ids)
    ensures Ordered(EachDelete(ids, agents))
    ensures forall i :: 0 <= i < |EachDelete(ids, agents)| ==> OfHosts(EachDelete(ids, agents)[i], ids)
  {
    if ids != [] {
      BatchOrdered(ids[1..], agents);
      var first, rest := DeleteRequests(ids[0], agents), EachDelete(ids[1..], agents);
      LaterHost(ids[0], agents, Clear(ids[0] + 1), [ids[0] + 1]);
      assert forall i :: 0 <= i < |first| ==> OfHosts(first[i], ids);
      hide Precedes, DeleteRequests;
      forall i, j | 0 <= i < |first| && 0 <= j < |rest| ensures Precedes(first[i], rest[j]) {
        assert OfHosts(rest[j], ids[1..]);
        LaterHost(ids[0], agents, rest[j], ids[1..]);
      }
      OrderedJoin(first, rest);
      assert forall j :: 0 <= j < |rest| ==> OfHosts(rest[j], ids);
    }
  }

  lemma JobOrdered(job: int, ids: seq<int>)
    requires Ascending(ids)
    ensures Ordered([Ask(JobRow(job))] + EachDelete(ids, true))
  {
    hide EachDelete, Precedes;
    var rest := EachDelete(ids, true);
    BatchOrdered(ids, true);
    forall j | 0 <= j < |rest| ensures Precedes(Ask(JobRow(job)), rest[j]) {
      assert OfHosts(rest[j], ids);
      JobPrecedes(job, rest[j], ids);
    }
    OrderedJoin([Ask(JobRow(job))], rest);
  }

  lemma JobPrecedes(job: int, r: LockRequest, ids: seq<int>)
    requires OfHosts(r, ids)
    ensures Precedes(Ask(JobRow(job)), r)
  {
  }

  /** Every transaction asks in increasing order, as far as the order is its own doing. */
  lemma RequestsOrdered(t: Transaction)
    requires WellFormed(t)
    ensures Ordered(Requests(t))
  {
    hide EachDelete;
    match t
    case JobBatch(job, ids) => JobOrdered(job, ids);
    case Sweeping(ids) => BatchOrdered(ids, false);
    case _ =>
  }

  // ----- What the tables add to it -----

  predicate Matches(db: Database, a: string, r: LockRequest) {
    a in db.agents &&
    match r
    case Ask(_) => false
    case Clear(h) => h in db.hosts && BelongsTo(a, db.agents[a], h, db.hosts[h])
    case ClearAddress(ip) => db.agents[a].ip == ip
  }

  function OwnerOf(db: Database, a: string): int {
    if a in db.agents && db.agents[a].hostId.Some? then db.agents[a].hostId.value else 0
  }

  /** The locks of the matching credentials, in the order in which the statement comes upon them. */
  function RowsIn(db: Database, order: seq<string>, r: LockRequest): seq<Lock> {
    if order == [] then []
    else (if Matches(db, order[0], r) then [CredentialRows(OwnerOf(db, order[0]))] else []) + RowsIn(db, order[1..], r)
  }

  predicate Distinct(order: seq<string>) { forall i, j :: 0 <= i < j < |order| ==> order[i] != order[j] }

  ghost predicate Enumerates(order: seq<string>, db: Database) {
    Distinct(order) && forall a :: a in order <==> a in db.agents
  }

  /** No credential is at the address of another host. */
  ghost predicate AtHome(db: Database) {
    forall a, h :: a in db.agents && h in db.hosts && db.agents[a].ip == db.hosts[h].ip ==> OwnerOf(db, a) == h
  }

  /** Nor at that of another credential. */
  ghost predicate Separate(db: Database) {
    && AtHome(db)
    && (forall a, b :: a in db.agents && b in db.agents && a != b ==> db.agents[a].ip != db.agents[b].ip)
  }

  lemma AgreementSeparates(g: Registry)
    requires RegistrationRuns.Attached(g) && RegistrationRuns.AllAgree(g.db)
    ensures Separate(g.db)
  {
    forall a | a in g.db.agents
      ensures OwnerOf(g.db, a) in g.db.hosts && g.db.hosts[OwnerOf(g.db, a)].ip == g.db.agents[a].ip
      ensures g.db.hosts[OwnerOf(g.db, a)].agentId == a
    {
      assert RegistrationRuns.Attaches(g.db, a) && RegistrationRuns.AddressAgrees(g.db, a);
    }
  }

  /** While credentials are apart, a deletion locks its own host's only, and any statement at most one. */
  lemma MatchIsOwn(g: Registry, a: string, b: string, r: LockRequest)
    requires RegistrationRuns.Attached(g) && Separate(g.db) && Matches(g.db, a, r)
    ensures r.Clear? ==> OwnerOf(g.db, a) == r.host
    ensures Matches(g.db, b, r) ==> a == b
  {
    assert RegistrationRuns.Attaches(g.db, a);
    if Matches(g.db, b, r) {
      assert RegistrationRuns.Attaches(g.db, b);
    }
  }

  lemma {:induction false} FewRows(g: Registry, order: seq<string>, r: LockRequest)
    requires RegistrationRuns.Attached(g) && Separate(g.db) && Distinct(order)
    ensures |RowsIn(g.db, order, r)| <= 1
    ensures forall i :: 0 <= i < |RowsIn(g.db, order, r)| ==>
      RowsIn(g.db, order, r)[i].CredentialRows? && (r.Clear? ==> RowsIn(g.db, order, r)[i] == CredentialRows(r.host))
    ensures RowsIn(g.db, order, r) != [] ==> exists i :: 0 <= i < |order| && Matches(g.db, order[i], r)
  {
    if order != [] {
      FewRows(g, order[1..], r);
      if Matches(g.db, order[0], r) {
        MatchIsOwn(g, order[0], order[0], r);
        if i :| 0 <= i < |order[1..]| && Matches(g.db, order[1..][i], r) {
          MatchIsOwn(g, order[0], order[i + 1], r);
        }
      }
    }
  }

  // ----- Any number of transactions -----

  /** `next` of its statements have been reached; `rows` are what the last one still has to lock. */
  datatype Progress = Progress(tx: Transaction, next: nat, rows: seq<Lock>, held: set<Lock>)

  datatype State = State(w: World, txs: map<int, Progress>)

  datatype Step =
    | Start(t: int, tx: Transaction)
    | Take(t: int)
    | Skip(t: int)                         // there is no such row
    | Scan(t: int, order: seq<string>)     // the statement on agents finds its rows
    | Refuse(t: int, to: nat)              // a refused deletion goes on with the next host
    | RollBackTo(t: int, kept: set<Lock>)  // to a savepoint: later locks are released
    | End(t: int)                          // commit or rollback
    | Change(step: RegistrationRuns.Step)  // what commits does to the tables

  function Idle(w: World): State { State(w, map[]) }

  function Wanted(p: Progress): Option<Lock> {
    if p.rows != [] then Some(p.rows[0])
    else if p.next < |Requests(p.tx)| && Requests(p.tx)[p.next].Ask? then Some(Requests(p.tx)[p.next].lock)
    else None
  }

  predicate Waiting(s: State, t: int) { t in s.txs && Wanted(s.txs[t]).Some? }

  ghost predicate Free(s: State, t: int, l: Lock) { forall u :: u in s.txs && u != t ==> l !in s.txs[u].held }

  ghost predicate Missing(db: Database, l: Lock) {
    match l
    case TaskRows(h) => forall k :: k in db.taskHosts ==> db.taskHosts[k].hostId != h
    case CommandRows(h) => forall k :: k in db.commands ==> db.commands[k].hostId != Some(h)
    case HostRow(h) => h !in db.hosts
    case CredentialRows(h) => forall a :: a in db.agents ==> db.agents[a].hostId != Some(h)
    case _ => false
  }

  /** The host row is locked by then, so it is there; a registration inserts a host only at a free address. */
  predicate Scannable(db: Database, p: Progress) {
    && p.rows == [] && p.next < |Requests(p.tx)|
    && match Requests(p.tx)[p.next]
       case Ask(_) => false
       case Clear(h) => h in db.hosts
       case ClearAddress(ip) => forall h :: h in db.hosts ==> db.hosts[h].ip != ip
  }

  ghost predicate Enabled(s: State, step: Step) {
    match step
    case Start(t, tx) => t !in s.txs && WellFormed(tx)
    case Take(t) => Waiting(s, t) && Free(s, t, Wanted(s.txs[t]).value)
    case Skip(t) => Waiting(s, t) && Missing(s.w.g.db, Wanted(s.txs[t]).value)
    case Scan(t, order) => t in s.txs && Scannable(s.w.g.db, s.txs[t]) && Enumerates(order, s.w.g.db)
    case Refuse(t, to) => t in s.txs && s.txs[t].next <= to <= |Requests(s.txs[t].tx)|
    case RollBackTo(t, kept) => t in s.txs && kept <= s.txs[t].held
    case End(t) => t in s.txs
    case Change(step) => RegistrationRuns.Enabled(s.w, step)
  }

  /** Past the lock that was wanted. */
  function Passed(p: Progress): Progress {
    if p.rows != [] then p.(rows := p.rows[1..]) else p.(next := p.next + 1)
  }

  function Apply(s: State, step: Step, contains: Contains): State {
    match step
    case Start(t, tx) => s.(txs := s.txs[t := Progress(tx, 0, [], {})])
    case Take(t) =>
      if !Waiting(s, t) then s
      else s.(txs := s.txs[t := Passed(s.txs[t]).(held := s.txs[t].held + {Wanted(s.txs[t]).value})])
    case Skip(t) => if t in s.txs then s.(txs := s.txs[t := Passed(s.txs[t])]) else s
    case Scan(t, order) =>
      if t !in s.txs || s.txs[t].next >= |Requests(s.txs[t].tx)| then s
      else
        var p := s.txs[t];
        s.(txs := s.txs[t := p.(rows := RowsIn(s.w.g.db, order, Requests(p.tx)[p.next]), next := p.next + 1)])
    case Refuse(t, to) => if t in s.txs then s.(txs := s.txs[t := s.txs[t].(next := to, rows := [])]) else s
    case RollBackTo(t, kept) => if t in s.txs then s.(txs := s.txs[t := s.txs[t].(held := kept)]) else s
    case End(t) => s.(txs := s.txs - {t})
    case Change(step) => s.(w := RegistrationRuns.Apply(s.w, step, contains))
  }

  ghost predicate Run(s: State, steps: seq<Step>, contains: Contains, end: State)
    decreases |steps|
  {
    if steps == [] then s == end
    else Enabled(s, steps[0]) && Run(Apply(s, steps[0], contains), steps[1..], contains, end)
  }

  /** Whenever a statement on agents is carried out in this run, credentials are apart. */
  ghost predicate Tidy(s: State, steps: seq<Step>, contains: Contains)
    decreases |steps|
  {
    steps != [] ==>
      (steps[0].Scan? ==> Separate(s.w.g.db)) && Tidy(Apply(s, steps[0], contains), steps[1..], contains)
  }

  // ----- The invariant -----

  predicate AheadOf(l: Lock, p: Progress) {
    && (forall j :: p.next <= j < |Requests(p.tx)| ==> Ahead(l, Requests(p.tx)[j]))
  }

  /** All that is held lies below all that is still to come. */
  ghost predicate Orderly(p: Progress) {
    && WellFormed(p.tx) && p.next <= |Requests(p.tx)| && |p.rows| <= 1
    && (forall l :: l in p.held ==> AheadOf(l, p))
    && (p.rows != [] ==> AheadOf(p.rows[0], p) && forall l :: l in p.held ==> Below(l, p.rows[0]))
  }

  ghost predicate Inv(s: State) {
    && RegistrationRuns.Attached(s.w.g)
    && (forall t :: t in s.txs ==> Orderly(s.txs[t]))
    && (forall t, u, l :: t in s.txs && u in s.txs && t != u && l in s.txs[t].held ==> l !in s.txs[u].held)
  }

  lemma PassedOrderly(p: Progress, take: bool)
    requires Orderly(p) && Wanted(p).Some?
    ensures Orderly(Passed(p).(held := if take then p.held + {Wanted(p).value} else p.held))
  {
    RequestsOrdered(p.tx);
    hide Requests, Ahead, WellFormed, Below;
    var rs, q := Requests(p.tx), Passed(p);
    if p.rows == [] {
      forall j | p.next < j < |rs| ensures Ahead(Wanted(p).value, rs[j]) {
        assert Precedes(rs[p.next], rs[j]);
      }
    }
  }

  lemma ScanOrderly(g: Registry, p: Progress, order: seq<string>)
    requires RegistrationRuns.Attached(g) && Separate(g.db) && Distinct(order)
    requires Orderly(p) && Scannable(g.db, p)
    ensures Orderly(p.(rows := RowsIn(g.db, order, Requests(p.tx)[p.next]), next := p.next + 1))
  {
    var rs := Requests(p.tx);
    RequestsOrdered(p.tx);
    FewRows(g, order, rs[p.next]);
    var rows := RowsIn(g.db, order, rs[p.next]);
    hide Requests, WellFormed, RowsIn, RegistrationRuns.Attached, Separate;
    if rows != [] {
      forall j | p.next < j < |rs| ensures Ahead(rows[0], rs[j]) {
        assert Precedes(rs[p.next], rs[j]);
      }
      forall l | l in p.held ensures Below(l, rows[0]) {
        assert AheadOf(l, p) && Ahead(l, rs[p.next]);
      }
    }
  }

  lemma StepKeepsInv(s: State, step: Step, contains: Contains)
    requires Inv(s) && Enabled(s, step) && (step.Scan? ==> Separate(s.w.g.db))
    ensures Inv(Apply(s, step, contains))
  {
    hide Requests, Ahead, WellFormed, Below, RowsIn, RegistrationRuns.Attached, Separate, Orderly;
    match step
    case Start(t, tx) => NothingHeld(tx);
    case Take(t) => PassedOrderly(s.txs[t], true);
    case Skip(t) => PassedOrderly(s.txs[t], false);
    case Scan(t, order) => ScanOrderly(s.w.g, s.txs[t], order);
    case Refuse(t, to) => LessOrderly(s.txs[t], to, s.txs[t].held);
    case RollBackTo(t, kept) => LessOrderly(s.txs[t], s.txs[t].next, kept);
    case End(t) =>
    case Change(step) => RegistrationRuns.StepKeepsAttached(s.w, step, contains);
  }

  lemma NothingHeld(tx: Transaction)
    requires WellFormed(tx)
    ensures Orderly(Progress(tx, 0, [], {}))
  {
  }

  lemma LessOrderly(p: Progress, to: nat, kept: set<Lock>)
    requires Orderly(p) && kept <= p.held
    ensures Orderly(p.(held := kept))
    ensures p.next <= to <= |Requests(p.tx)| ==> Orderly(p.(next := to, rows := [], held := kept))
  {
  }

  lemma {:induction false} RunKeepsInv(s: State, steps: seq<Step>, contains: Contains, end: State)
    requires Inv(s) && Run(s, steps, contains, end) && Tidy(s, steps, contains)
    ensures Inv(end)
    decreases |steps|
  {
    hide Inv, Apply, Enabled, Separate;
    if steps != [] {
      StepKeepsInv(s, steps[0], contains);
      RunKeepsInv(Apply(s, steps[0], contains), steps[1..], contains, end);
    }
  }

  // ----- No deadlock in tidy runs -----

  function Want(s: State, t: int): Lock
    requires Waiting(s, t)
  {
    Wanted(s.txs[t]).value
  }

  /** A transaction that is stuck behind another one. */
  predicate BlockedBy(s: State, t: int, u: int) {
    Waiting(s, t) && u in s.txs && u != t && Want(s, t) in s.txs[u].held
  }

  ghost predicate BlockedWithin(s: State, stuck: set<int>, t: int) {
    Waiting(s, t) && exists u :: u in stuck && BlockedBy(s, t, u)
  }

  /** A deadlock: transactions each of which waits for another one of them. */
  ghost predicate Deadlock(s: State, stuck: set<int>) {
    (exists t :: t in stuck) && forall t :: t in stuck ==> BlockedWithin(s, stuck, t)
  }

  /** Waiting goes upwards: what a transaction waits for lies above all that it holds. */
  lemma WaitsAboveItsLocks(p: Progress, l: Lock)
    requires Orderly(p) && Wanted(p).Some? && l in p.held
    ensures Below(l, Wanted(p).value)
  {
    assert AheadOf(l, p);
  }

  lemma {:induction false} HighestWaiter(s: State, ts: set<int>) returns (top: int)
    requires (exists t :: t in ts) && forall t :: t in ts ==> Waiting(s, t)
    ensures top in ts && forall t :: t in ts ==> !Below(Want(s, top), Want(s, t))
    decreases |ts|
  {
    hide Want, Below;
    top :| top in ts;
    BelowIsTotal(Want(s, top), Want(s, top));
    if other :| other in ts && other != top {
      assert other in ts - {top};
      var rest := HighestWaiter(s, ts - {top});
      BelowIsTotal(Want(s, top), Want(s, rest));
      if Below(Want(s, top), Want(s, rest)) {
        forall t | t in ts ensures !Below(Want(s, rest), Want(s, t)) {
          BelowIsTransitive(Want(s, rest), Want(s, t), Want(s, rest));
          BelowIsTotal(Want(s, rest), Want(s, rest));
        }
        top := rest;
      } else {
        forall t | t in ts ensures !Below(Want(s, top), Want(s, t)) {
          if t != top {
            BelowIsTransitive(Want(s, top), Want(s, t), Want(s, rest));
          }
        }
      }
    }
  }

  lemma NotTheHighest(s: State, stuck: set<int>, t: int)
    requires Inv(s) && BlockedWithin(s, stuck, t) && forall u :: u in stuck ==> Waiting(s, u)
    ensures exists u :: u in stuck && Waiting(s, u) && Below(Want(s, t), Want(s, u))
  {
    hide Orderly, Below, Wanted, RegistrationRuns.Attached;
    var u :| u in stuck && BlockedBy(s, t, u);
    WaitsAboveItsLocks(s.txs[u], Want(s, t));
  }

  lemma InvExcludesDeadlock(s: State, stuck: set<int>)
    requires Inv(s)
    ensures !Deadlock(s, stuck)
  {
    hide Inv, Below, Wanted, BlockedBy;
    if Deadlock(s, stuck) {
      var top := HighestWaiter(s, stuck);
      NotTheHighest(s, stuck, top);
    }
  }

  /**
   * From any tables with attached credentials: as long as credentials are apart whenever a statement
   * on agents is carried out, no reachable state of any number of transactions contains a deadlock.
   */
  lemma TidyRunsNeverDeadlock(w: World, steps: seq<Step>, contains: Contains, s: State, stuck: set<int>)
    requires RegistrationRuns.Attached(w.g)
    requires Run(Idle(w), steps, contains, s) && Tidy(Idle(w), steps, contains)
    ensures !Deadlock(s, stuck)
  {
    hide Deadlock, Enabled, Separate;
    RunKeepsInv(Idle(w), steps, contains, s);
    InvExcludesDeadlock(s, stuck);
  }

  /** No step of the run is half of an address correction. */
  predicate Whole(steps: seq<Step>) {
    forall i :: 0 <= i < |steps| && steps[i].Change? ==> !steps[i].step.MoveHost? && !steps[i].step.MoveAgent?
  }

  lemma {:induction false} WholeRunsAreTidy(s: State, steps: seq<Step>, contains: Contains, end: State)
    requires RegistrationRuns.Attached(s.w.g) && RegistrationRuns.AllAgree(s.w.g.db)
    requires Run(s, steps, contains, end) && Whole(steps)
    ensures Tidy(s, steps, contains)
    decreases |steps|
  {
    hide RegistrationRuns.Attached, RegistrationRuns.AllAgree, Separate;
    if steps != [] {
      AgreementSeparates(s.w.g);
      var next := Apply(s, steps[0], contains);
      if steps[0].Change? {
        RegistrationRuns.StepKeepsAttached(s.w, steps[0].step, contains);
        RegistrationRuns.StepKeepsAgreement(s.w, steps[0].step, contains);
      }
      WholeRunsAreTidy(next, steps[1..], contains, end);
    }
  }

  /**
   * In particular, if address corrections are carried out as a whole, no state that can be reached from
   * the empty tables, by any number of transactions and any changes, contains a deadlock.
   */
  lemma NeverDeadlocked(steps: seq<Step>, contains: Contains, s: State, stuck: set<int>)
    requires Run(Idle(RegistrationRuns.START), steps, contains, s) && Whole(steps)
    ensures !Deadlock(s, stuck)
  {
    hide Deadlock, Run, Tidy, Whole;
    WholeRunsAreTidy(Idle(RegistrationRuns.START), steps, contains, s);
    TidyRunsNeverDeadlock(RegistrationRuns.START, steps, contains, s, stuck);
  }

  lemma InvLetsSomeoneGoOn(s: State, t: int) returns (u: int)
    requires Inv(s) && Waiting(s, t)
    ensures (Waiting(s, u) && Free(s, u, Want(s, u)))
      || (u in s.txs && !Waiting(s, u) && exists v :: BlockedBy(s, v, u))
  {
    hide Wanted, Below, Orderly, RegistrationRuns.Attached;
    var waiting := set v | v in s.txs && Waiting(s, v);
    assert t in waiting;
    u := HighestWaiter(s, waiting);
    if !Free(s, u, Want(s, u)) {
      var holder :| holder in s.txs && holder != u && Want(s, u) in s.txs[holder].held;
      if Waiting(s, holder) {
        WaitsAboveItsLocks(s.txs[holder], Want(s, u));
      }
      assert BlockedBy(s, u, holder);
      u := holder;
    }
  }

  /** As long as any transaction waits, one can take its lock, or the one in its way does not wait itself. */
  lemma SomeoneCanTakeItsLock(w: World, steps: seq<Step>, contains: Contains, s: State, t: int) returns (u: int)
    requires RegistrationRuns.Attached(w.g)
    requires Run(Idle(w), steps, contains, s) && Tidy(Idle(w), steps, contains) && Waiting(s, t)
    ensures Enabled(s, Take(u)) || (u in s.txs && !Waiting(s, u) && exists v :: BlockedBy(s, v, u))
  {
    RunKeepsInv(Idle(w), steps, contains, s);
    hide Run, Tidy, Wanted, Inv, BlockedBy, Free;
    u := InvLetsSomeoneGoOn(s, t);
  }
}
