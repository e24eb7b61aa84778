/** Exactly which tables let transactions deadlock, and how such tables come about. */
module Deadlocks {
  import opened Options
  import opened Tables
  import opened HostDelete
  import opened Registration
  import opened LockOrder
  import RegistrationRuns

  // ----- Runs that leave hosts and credentials alone -----

  predicate OnlyWork(steps: seq<Step>) {
    forall i :: 0 <= i < |steps| && steps[i].Change? ==> steps[i].step.Work?
  }

  /** By locking alone, with nothing but upgrade tasks and commands changing meanwhile. */
  ghost predicate Reaches(s: State, contains: Contains, end: State) {
    exists steps :: Run(s, steps, contains, end) && OnlyWork(steps)
  }

  lemma {:induction false} RunAppend(s: State, steps: seq<Step>, contains: Contains, end: State, step: Step)
    requires Run(s, steps, contains, end) && Enabled(end, step)
    ensures Run(s, steps + [step], contains, Apply(end, step, contains))
    decreases |steps|
  {
    hide Enabled, Apply;
    if steps == [] {
      assert [step][1..] == [];
    } else {
      assert (steps + [step])[1..] == steps[1..] + [step];
      RunAppend(Apply(s, steps[0], contains), steps[1..], contains, end, step);
    }
  }

  lemma OneStep(s: State, contains: Contains, end: State, step: Step)
    requires Reaches(s, contains, end) && Enabled(end, step) && (step.Change? ==> step.step.Work?)
    ensures Reaches(s, contains, Apply(end, step, contains))
  {
    hide Run, Enabled, Apply;
    var steps :| Run(s, steps, contains, end) && OnlyWork(steps);
    RunAppend(s, steps, contains, end, step);
    assert OnlyWork(steps + [step]);
  }

  lemma Nowhere(s: State, contains: Contains)
    ensures Reaches(s, contains, s)
  {
    assert Run(s, [], contains, s) && OnlyWork([]);
  }

  function With(s: State, t: int, p: Progress): (r: State)
    ensures r.w == s.w && t in r.txs && r.txs[t] == p
    ensures forall u :: u != t ==> (u in r.txs <==> u in s.txs) && (u in s.txs ==> r.txs[u] == s.txs[u])
  {
    s.(txs := s.txs[t := p])
  }

  lemma WithTwice(s: State, t: int, p: Progress, q: Progress)
    ensures With(With(s, t, p), t, q) == With(s, t, q)
  {
  }

  lemma Begins(s0: State, contains: Contains, s: State, t: int, tx: Transaction)
    requires Reaches(s0, contains, s) && t !in s.txs && WellFormed(tx)
    ensures Reaches(s0, contains, With(s, t, Progress(tx, 0, [], {})))
  {
    OneStep(s0, contains, s, Start(t, tx));
  }

  lemma Takes(s0: State, contains: Contains, s: State, t: int, l: Lock)
    requires Reaches(s0, contains, s) && t in s.txs && Wanted(s.txs[t]) == Some(l) && Free(s, t, l)
    ensures Reaches(s0, contains, With(s, t, Passed(s.txs[t]).(held := s.txs[t].held + {l})))
  {
    hide Reaches, Wanted;
    OneStep(s0, contains, s, Take(t));
  }

  lemma Skips(s0: State, contains: Contains, s: State, t: int, l: Lock)
    requires Reaches(s0, contains, s) && t in s.txs && Wanted(s.txs[t]) == Some(l) && Missing(s.w.g.db, l)
    ensures Reaches(s0, contains, With(s, t, Passed(s.txs[t])))
  {
    hide Reaches, Wanted;
    OneStep(s0, contains, s, Skip(t));
  }

  lemma Scans(s0: State, contains: Contains, s: State, t: int, order: seq<string>, r: LockRequest)
    requires Reaches(s0, contains, s) && t in s.txs && Enumerates(order, s.w.g.db)
    requires Scannable(s.w.g.db, s.txs[t]) && Requests(s.txs[t].tx)[s.txs[t].next] == r
    ensures Reaches(s0, contains, With(s, t, s.txs[t].(rows := RowsIn(s.w.g.db, order, r), next := s.txs[t].next + 1)))
  {
    hide Reaches, RowsIn, Requests;
    OneStep(s0, contains, s, Scan(t, order));
  }

  // ----- Deleting a host that has no tasks and commands -----

  predicate Quiet(db: Database) { db.taskHosts == map[] && db.commands == map[] }

  /** Statement k of the transaction is the first of those that delete the host. */
  predicate DeletesAt(tx: Transaction, k: nat, host: int) {
    k + 4 <= |Requests(tx)| && Requests(tx)[k..k + 4] == DeleteRequests(host, true)
  }

  lemma StatementsAt(tx: Transaction, k: nat, host: int)
    requires DeletesAt(tx, k, host)
    ensures Requests(tx)[k] == Ask(TaskRows(host)) && Requests(tx)[k + 1] == Ask(CommandRows(host))
    ensures Requests(tx)[k + 2] == Ask(HostRow(host)) && Requests(tx)[k + 3] == Clear(host)
  {
    var rs := Requests(tx);
    assert rs[k..k + 4][0] == rs[k] && rs[k..k + 4][1] == rs[k + 1];
    assert rs[k..k + 4][2] == rs[k + 2] && rs[k..k + 4][3] == rs[k + 3];
  }

  lemma SkipsToHost(s0: State, contains: Contains, s: State, t: int, host: int)
    requires Reaches(s0, contains, s) && Quiet(s.w.g.db) && t in s.txs && s.txs[t].rows == []
    requires DeletesAt(s.txs[t].tx, s.txs[t].next, host)
    ensures Reaches(s0, contains, With(s, t, s.txs[t].(next := s.txs[t].next + 2)))
    ensures Wanted(s.txs[t].(next := s.txs[t].next + 2)) == Some(HostRow(host))
  {
    var p := s.txs[t];
    StatementsAt(p.tx, p.next, host);
    hide Reaches, Requests, DeletesAt, With;
    Skips(s0, contains, s, t, TaskRows(host));
    var s1 := With(s, t, p.(next := p.next + 1));
    Skips(s0, contains, s1, t, CommandRows(host));
    WithTwice(s, t, p.(next := p.next + 1), p.(next := p.next + 2));
  }

  lemma DeletesToRows(s0: State, contains: Contains, s: State, t: int, host: int, order: seq<string>)
    requires Reaches(s0, contains, s) && Quiet(s.w.g.db) && t in s.txs && s.txs[t].rows == []
    requires DeletesAt(s.txs[t].tx, s.txs[t].next, host) && host in s.w.g.db.hosts
    requires Free(s, t, HostRow(host)) && Enumerates(order, s.w.g.db)
    ensures Reaches(s0, contains, With(s, t, Progress(
      s.txs[t].tx, s.txs[t].next + 4, RowsIn(s.w.g.db, order, Clear(host)), s.txs[t].held + {HostRow(host)})))
  {
    var p := s.txs[t];
    StatementsAt(p.tx, p.next, host);
    SkipsToHost(s0, contains, s, t, host);
    hide Reaches, Requests, DeletesAt, RowsIn, With;
    var s1 := With(s, t, p.(next := p.next + 2));
    Takes(s0, contains, s1, t, HostRow(host));
    var p2 := p.(next := p.next + 3, held := p.held + {HostRow(host)});
    var s2 := With(s, t, p2);
    WithTwice(s, t, p.(next := p.next + 2), p2);
    Scans(s0, contains, s2, t, order, Clear(host));
    var p3 := p2.(rows := RowsIn(s.w.g.db, order, Clear(host)), next := p.next + 4);
    WithTwice(s, t, p2, p3);
  }

  lemma {:induction false} TakesRows(s0: State, contains: Contains, s: State, t: int)
    requires Reaches(s0, contains, s) && t in s.txs
    requires forall l :: l in s.txs[t].rows ==> Free(s, t, l)
    ensures Reaches(s0, contains, With(s, t, s.txs[t].(rows := [], held := s.txs[t].held + SetOf(s.txs[t].rows))))
    decreases |s.txs[t].rows|
  {
    var p := s.txs[t];
    hide Reaches;
    if p.rows == [] {
      assert p.held + SetOf(p.rows) == p.held;
      assert s.txs[t := p] == s.txs;
    } else {
      Takes(s0, contains, s, t, p.rows[0]);
      var p1 := p.(rows := p.rows[1..], held := p.held + {p.rows[0]});
      var s1 := With(s, t, p1);
      forall l | l in p1.rows ensures Free(s1, t, l) {
        assert l in p.rows && Free(s, t, l);
      }
      TakesRows(s0, contains, s1, t);
      assert SetOf(p.rows) == {p.rows[0]} + SetOf(p.rows[1..]);
      var p2 := p.(rows := [], held := p.held + SetOf(p.rows));
      assert p2.held == p1.held + SetOf(p1.rows);
      WithTwice(s, t, p1, p2);
    }
  }

  function SetOf(rows: seq<Lock>): set<Lock> { set l | l in rows }

  // ----- The order in which rows are found is anything -----

  lemma {:induction false} Listing(keys: set<string>) returns (order: seq<string>)
    ensures Distinct(order) && forall a :: a in order <==> a in keys
  {
    if keys == {} {
      order := [];
    } else {
      var a :| a in keys;
      var rest := Listing(keys - {a});
      order := [a] + rest;
    }
  }

  lemma Beginning(db: Database, first: seq<string>) returns (order: seq<string>)
    requires Distinct(first) && forall a :: a in first ==> a in db.agents
    ensures Enumerates(order, db) && |first| <= |order| && order[..|first|] == first
  {
    var rest := Listing(db.agents.Keys - set a | a in first);
    order := first + rest;
    forall i, j | 0 <= i < j < |order| ensures order[i] != order[j] {
      if i < |first| <= j {
        assert order[i] in first && order[j] in rest;
      } else if j < |first| {
        assert first[i] != first[j];
      } else {
        assert rest[i - |first|] != rest[j - |first|];
      }
    }
  }

  lemma FirstRow(db: Database, order: seq<string>, r: LockRequest)
    requires order != [] && Matches(db, order[0], r)
    ensures RowsIn(db, order, r) == [CredentialRows(OwnerOf(db, order[0]))] + RowsIn(db, order[1..], r)
  {
  }

  lemma {:induction false} OnlyCredentials(db: Database, order: seq<string>, r: LockRequest)
    ensures forall l :: l in RowsIn(db, order, r) ==> l.CredentialRows?
  {
    if order != [] {
      OnlyCredentials(db, order[1..], r);
    }
  }

  // ----- Two deletions that cross -----

  /** A credential that goes with two hosts: deleting the one alone, and both in one batch, can deadlock. */
  lemma CrossedDeletions(s0: State, contains: Contains, s: State, a: string, lo: int, hi: int) returns (end: State)
    requires Reaches(s0, contains, s) && s.txs == map[] && Quiet(s.w.g.db)
    requires lo < hi && lo in s.w.g.db.hosts && hi in s.w.g.db.hosts
    requires Matches(s.w.g.db, a, Clear(lo)) && Matches(s.w.g.db, a, Clear(hi))
    ensures Reaches(s0, contains, end) && end.w == s.w && Deadlock(end, {1, 2})
  {
    var order := Beginning(s.w.g.db, [a]);
    assert order[0] == a;
    FirstRow(s.w.g.db, order, Clear(lo));
    FirstRow(s.w.g.db, order, Clear(hi));
    hide Reaches, RowsIn, Matches, OwnerOf, Enumerates, With, Deadlock;
    var rows := RowsIn(s.w.g.db, order, Clear(hi));
    var p := Progress(Deleting(hi), 4, rows, {HostRow(hi)});
    FirstOfTwo(s0, contains, s, hi, order);
    end := SecondOfTwo(s0, contains, With(s, 1, p), p, lo, hi, order);
    assert rows[0] in RowsIn(s.w.g.db, order, Clear(lo));
    Stuck(end, HostRow(hi), rows[0]);
  }

  lemma FirstOfTwo(s0: State, contains: Contains, s: State, hi: int, order: seq<string>)
    requires Reaches(s0, contains, s) && s.txs == map[] && Quiet(s.w.g.db)
    requires hi in s.w.g.db.hosts && Enumerates(order, s.w.g.db)
    ensures Reaches(s0, contains, With(s, 1, Progress(
      Deleting(hi), 4, RowsIn(s.w.g.db, order, Clear(hi)), {HostRow(hi)})))
  {
    TwoDeletes(hi - 1, hi);
    hide Reaches, Requests, RowsIn, DeletesAt, Enumerates, With;
    var p0 := Progress(Deleting(hi), 0, [], {});
    var p1 := Progress(Deleting(hi), 4, RowsIn(s.w.g.db, order, Clear(hi)), {HostRow(hi)});
    Begins(s0, contains, s, 1, Deleting(hi));
    DeletesToRows(s0, contains, With(s, 1, p0), 1, hi, order);
    WithTwice(s, 1, p0, p1);
    assert p0.held + {HostRow(hi)} == p1.held;
  }

  /** Each of the first two transactions waits for a lock that the other one holds. */
  lemma Stuck(s: State, l: Lock, m: Lock)
    requires 1 in s.txs && Wanted(s.txs[1]) == Some(m) && l in s.txs[1].held
    requires 2 in s.txs && Wanted(s.txs[2]) == Some(l) && m in s.txs[2].held
    ensures Deadlock(s, {1, 2})
  {
    hide Wanted;
    assert BlockedBy(s, 1, 2) && BlockedBy(s, 2, 1);
    assert 1 in {1, 2} && 2 in {1, 2};
  }

  lemma TwoDeletes(lo: int, hi: int)
    ensures var two := JobBatch(1, [lo, hi]);
      && Requests(two) == [Ask(JobRow(1))] + DeleteRequests(lo, true) + DeleteRequests(hi, true)
      && DeletesAt(Deleting(hi), 0, hi) && DeletesAt(two, 1, lo) && DeletesAt(two, 5, hi)
  {
    assert EachDelete([hi], true) == DeleteRequests(hi, true) by {
      assert [hi][1..] == [];
    }
    assert [lo, hi][1..] == [hi];
    var rs := Requests(JobBatch(1, [lo, hi]));
    assert rs == [Ask(JobRow(1))] + DeleteRequests(lo, true) + DeleteRequests(hi, true);
    assert rs[1..5] == DeleteRequests(lo, true) && rs[5..9] == DeleteRequests(hi, true);
    assert Requests(Deleting(hi))[0..4] == DeleteRequests(hi, true);
  }

  /** The batch gets the first host and all the rows that go with it, if the other transaction is not in its way. */
  lemma BatchThroughFirst(s0: State, contains: Contains, s: State, p: Progress, lo: int, hi: int, order: seq<string>)
    returns (q: Progress)
    requires Reaches(s0, contains, s) && s.txs.Keys == {1} && s.txs[1] == p && Quiet(s.w.g.db)
    requires lo < hi && lo in s.w.g.db.hosts && Enumerates(order, s.w.g.db)
    requires JobRow(1) !in p.held && HostRow(lo) !in p.held
    requires forall l :: l in RowsIn(s.w.g.db, order, Clear(lo)) ==> l !in p.held
    ensures Reaches(s0, contains, With(s, 2, q)) && q.tx == JobBatch(1, [lo, hi]) && q.next == 5 && q.rows == []
    ensures forall l :: l in RowsIn(s.w.g.db, order, Clear(lo)) ==> l in q.held
    ensures forall l :: l in q.held ==> l == JobRow(1) || l == HostRow(lo) || l in RowsIn(s.w.g.db, order, Clear(lo))
  {
    var two, rows := JobBatch(1, [lo, hi]), RowsIn(s.w.g.db, order, Clear(lo));
    TwoDeletes(lo, hi);
    assert Wanted(Progress(two, 0, [], {})) == Some(JobRow(1));
    hide Reaches, Requests, RowsIn, DeletesAt, Wanted, Enumerates, With;
    Begins(s0, contains, s, 2, two);
    var p0, p1, p2 := Progress(two, 0, [], {}), Progress(two, 1, [], {JobRow(1)}),
                      Progress(two, 5, rows, {JobRow(1), HostRow(lo)});
    Takes(s0, contains, With(s, 2, p0), 2, JobRow(1));
    WithTwice(s, 2, p0, p1);
    assert p0.held + {JobRow(1)} == p1.held;
    DeletesToRows(s0, contains, With(s, 2, p1), 2, lo, order);
    WithTwice(s, 2, p1, p2);
    assert p1.held + {HostRow(lo)} == p2.held;
    TakesRows(s0, contains, With(s, 2, p2), 2);
    q := p2.(rows := [], held := p2.held + SetOf(rows));
    WithTwice(s, 2, p2, q);
  }

  /** The batch, while the other transaction holds the second host. */
  lemma SecondOfTwo(s0: State, contains: Contains, s: State, p: Progress, lo: int, hi: int, order: seq<string>)
    returns (end: State)
    requires Reaches(s0, contains, s) && s.txs.Keys == {1} && s.txs[1] == p && p.held == {HostRow(hi)}
    requires Quiet(s.w.g.db) && lo < hi && lo in s.w.g.db.hosts && Enumerates(order, s.w.g.db)
    ensures Reaches(s0, contains, end) && end.w == s.w && 1 in end.txs && end.txs[1] == p && 2 in end.txs
    ensures Wanted(end.txs[2]) == Some(HostRow(hi))
    ensures forall l :: l in RowsIn(s.w.g.db, order, Clear(lo)) ==> l in end.txs[2].held
  {
    TwoDeletes(lo, hi);
    OnlyCredentials(s.w.g.db, order, Clear(lo));
    hide Reaches, Requests, RowsIn, DeletesAt, Wanted, Enumerates, With;
    var q := BatchThroughFirst(s0, contains, s, p, lo, hi, order);
    SkipsToHost(s0, contains, With(s, 2, q), 2, hi);
    end := With(With(s, 2, q), 2, q.(next := 7));
  }

  // ----- A registration and a batch that cross -----

  lemma {:induction false} OwnRows(g: Registry, order: seq<string>, host: int)
    requires RegistrationRuns.Attached(g) && AtHome(g.db) && host in g.db.hosts
    ensures forall l :: l in RowsIn(g.db, order, Clear(host)) ==> l == CredentialRows(host)
  {
    if order != [] {
      OwnRows(g, order[1..], host);
      if Matches(g.db, order[0], Clear(host)) {
        assert RegistrationRuns.Attaches(g.db, order[0]);
      }
    }
  }

  /** The credentials that a registration finds at its address, two of them first. */
  lemma RowsAtAddress(db: Database, ip: string, a: string, b: string) returns (order: seq<string>, more: seq<Lock>)
    requires a != b && a in db.agents && b in db.agents && db.agents[a].ip == ip && db.agents[b].ip == ip
    ensures Enumerates(order, db)
    ensures RowsIn(db, order, ClearAddress(ip))
      == [CredentialRows(OwnerOf(db, b)), CredentialRows(OwnerOf(db, a))] + more
  {
    order := Beginning(db, [b, a]);
    assert order[..2] == [b, a] && order[1..][0] == a;
    FirstRow(db, order, ClearAddress(ip));
    FirstRow(db, order[1..], ClearAddress(ip));
    more := RowsIn(db, order[1..][1..], ClearAddress(ip));
  }

  /** A registration that has locked the one of two old credentials at its address and waits for the other. */
  lemma FirstRegisters(s0: State, contains: Contains, s: State, ip: string, a: string, b: string) returns (p: Progress)
    requires Reaches(s0, contains, s) && s.txs == map[] && a != b && a in s.w.g.db.agents && b in s.w.g.db.agents
    requires s.w.g.db.agents[a].ip == ip && s.w.g.db.agents[b].ip == ip
    requires forall h :: h in s.w.g.db.hosts ==> s.w.g.db.hosts[h].ip != ip
    ensures Reaches(s0, contains, With(s, 1, p)) && Wanted(p) == Some(CredentialRows(OwnerOf(s.w.g.db, a)))
    ensures p.held == {Address(0), CredentialRows(OwnerOf(s.w.g.db, b))}
  {
    var tx, r := Registering(0, ip, None, None), ClearAddress(ip);
    var order, more := RowsAtAddress(s.w.g.db, ip, a, b);
    hide Reaches, RowsIn, Matches, OwnerOf, Enumerates, With;
    var l, m := CredentialRows(OwnerOf(s.w.g.db, b)), CredentialRows(OwnerOf(s.w.g.db, a));
    var p0, p1 := Progress(tx, 0, [], {}), Progress(tx, 1, [], {Address(0)});
    var p2 := Progress(tx, 2, [l, m] + more, {Address(0)});
    assert Requests(tx) == [Ask(Address(0)), r];
    p := Progress(tx, 2, [m] + more, {Address(0), l});
    assert ([l, m] + more)[1..] == [m] + more;
    Begins(s0, contains, s, 1, tx);
    Takes(s0, contains, With(s, 1, p0), 1, Address(0));
    WithTwice(s, 1, p0, p1);
    assert p0.held + {Address(0)} == p1.held;
    Scans(s0, contains, With(s, 1, p1), 1, order, r);
    WithTwice(s, 1, p1, p2);
    Takes(s0, contains, With(s, 1, p2), 1, l);
    WithTwice(s, 1, p2, p);
    assert p2.held + {l} == p.held;
  }

  /** Two credentials at an address that no host has: a registration there and a batch over their hosts can deadlock. */
  lemma CrossedRegistration(s0: State, contains: Contains, s: State, a: string, b: string) returns (end: State)
    requires Reaches(s0, contains, s) && s.txs == map[] && Quiet(s.w.g.db)
    requires RegistrationRuns.Attached(s.w.g) && AtHome(s.w.g.db) && a in s.w.g.db.agents && b in s.w.g.db.agents
    requires s.w.g.db.agents[a].ip == s.w.g.db.agents[b].ip && OwnerOf(s.w.g.db, a) < OwnerOf(s.w.g.db, b)
    ensures Reaches(s0, contains, end) && Deadlock(end, {1, 2})
  {
    var lo, hi := OwnerOf(s.w.g.db, a), OwnerOf(s.w.g.db, b);
    assert RegistrationRuns.Attaches(s.w.g.db, a) && RegistrationRuns.Attaches(s.w.g.db, b);
    var order := OwnRowFirst(s.w.g, a);
    var order' := OwnRowFirst(s.w.g, b);
    hide Reaches, RowsIn, Enumerates, With, Deadlock, RegistrationRuns.Attached;
    var p := FirstRegisters(s0, contains, s, s.w.g.db.agents[a].ip, a, b);
    end := SecondMeetsIt(s0, contains, With(s, 1, p), p, lo, hi, order, order');
    Stuck(end, CredentialRows(hi), CredentialRows(lo));
  }

  lemma OwnRowFirst(g: Registry, a: string) returns (order: seq<string>)
    requires RegistrationRuns.Attached(g) && AtHome(g.db) && a in g.db.agents
    ensures Enumerates(order, g.db) && OwnerOf(g.db, a) in g.db.hosts
    ensures var rows := RowsIn(g.db, order, Clear(OwnerOf(g.db, a)));
      rows != [] && forall l :: l in rows ==> l == CredentialRows(OwnerOf(g.db, a))
  {
    assert RegistrationRuns.Attaches(g.db, a);
    order := Beginning(g.db, [a]);
    assert order[0] == a;
    FirstRow(g.db, order, Clear(OwnerOf(g.db, a)));
    OwnRows(g, order, OwnerOf(g.db, a));
  }

  /** The batch against that registration: it gets the first host's credential and waits for the second's. */
  lemma SecondMeetsIt(s0: State, contains: Contains, s: State, p: Progress, lo: int, hi: int,
                      order: seq<string>, order': seq<string>) returns (end: State)
    requires Reaches(s0, contains, s) && s.txs.Keys == {1} && s.txs[1] == p && Quiet(s.w.g.db)
    requires lo < hi && lo in s.w.g.db.hosts && hi in s.w.g.db.hosts
    requires Enumerates(order, s.w.g.db) && Enumerates(order', s.w.g.db)
    requires p.held == {Address(0), CredentialRows(hi)}
    requires var rows := RowsIn(s.w.g.db, order, Clear(lo));
      rows != [] && forall l :: l in rows ==> l == CredentialRows(lo)
    requires var rows := RowsIn(s.w.g.db, order', Clear(hi));
      rows != [] && forall l :: l in rows ==> l == CredentialRows(hi)
    ensures Reaches(s0, contains, end) && 1 in end.txs && end.txs[1] == p && 2 in end.txs
    ensures Wanted(end.txs[2]) == Some(CredentialRows(hi)) && CredentialRows(lo) in end.txs[2].held
  {
    TwoDeletes(lo, hi);
    hide Reaches, RowsIn, Enumerates, With, DeletesAt, Requests;
    assert RowsIn(s.w.g.db, order, Clear(lo))[0] in RowsIn(s.w.g.db, order, Clear(lo));
    var rows := RowsIn(s.w.g.db, order', Clear(hi));
    assert rows[0] in rows;
    var q := BatchThroughFirst(s0, contains, s, p, lo, hi, order);
    DeletesToRows(s0, contains, With(s, 2, q), 2, hi, order');
    end := With(With(s, 2, q), 2, Progress(q.tx, 9, rows, q.held + {HostRow(hi)}));
  }

  // ----- Exactly when -----

  /** From tables where credentials are not apart a deadlock can be reached by locking alone. */
  lemma DeadlockReachable(w: World, contains: Contains) returns (end: State)
    requires RegistrationRuns.Attached(w.g) && !Separate(w.g.db)
    ensures Reaches(Idle(w), contains, end) && Deadlock(end, {1, 2})
  {
    var s := Quieted(w, contains);
    hide Reaches, Deadlock;
    if !AtHome(s.w.g.db) {
      end := DeadlockAtForeignHost(Idle(w), contains, s);
    } else {
      end := DeadlockAtSharedAddress(Idle(w), contains, s);
    }
  }

  /** All upgrade tasks and commands are gone, nothing else has changed. */
  lemma Quieted(w: World, contains: Contains) returns (s: State)
    requires RegistrationRuns.Attached(w.g)
    ensures Reaches(Idle(w), contains, s) && s.txs == map[] && Quiet(s.w.g.db) && RegistrationRuns.Attached(s.w.g)
    ensures Separate(s.w.g.db) <==> Separate(w.g.db)
  {
    var step := RegistrationRuns.Work(map[], map[]);
    s := Idle(RegistrationRuns.Apply(w, step, contains));
    Nowhere(Idle(w), contains);
    OneStep(Idle(w), contains, Idle(w), Change(step));
    RegistrationRuns.StepKeepsAttached(w, step, contains);
    SameSeparation(w.g.db, s.w.g.db);
  }

  lemma SameSeparation(db: Database, db': Database)
    requires db.hosts == db'.hosts && db.agents == db'.agents
    ensures Separate(db) <==> Separate(db')
  {
    assert forall a :: OwnerOf(db, a) == OwnerOf(db', a);
  }

  lemma DeadlockAtForeignHost(s0: State, contains: Contains, s: State) returns (end: State)
    requires Reaches(s0, contains, s) && s.txs == map[] && Quiet(s.w.g.db)
    requires RegistrationRuns.Attached(s.w.g) && !AtHome(s.w.g.db)
    ensures Reaches(s0, contains, end) && Deadlock(end, {1, 2})
  {
    hide Reaches, Deadlock;
    var db := s.w.g.db;
    var a, h :| a in db.agents && h in db.hosts && db.agents[a].ip == db.hosts[h].ip && OwnerOf(db, a) != h;
    assert RegistrationRuns.Attaches(db, a);
    var o := OwnerOf(db, a);
    assert Matches(db, a, Clear(h)) && Matches(db, a, Clear(o));
    end := CrossedDeletions(s0, contains, s, a, if h < o then h else o, if h < o then o else h);
  }

  lemma DeadlockAtSharedAddress(s0: State, contains: Contains, s: State) returns (end: State)
    requires Reaches(s0, contains, s) && s.txs == map[] && Quiet(s.w.g.db)
    requires RegistrationRuns.Attached(s.w.g) && AtHome(s.w.g.db) && !Separate(s.w.g.db)
    ensures Reaches(s0, contains, end) && Deadlock(end, {1, 2})
  {
    hide Reaches, Deadlock;
    var db := s.w.g.db;
    var a, b :| a in db.agents && b in db.agents && a != b && db.agents[a].ip == db.agents[b].ip;
    assert RegistrationRuns.Attaches(db, a) && RegistrationRuns.Attaches(db, b);
    if OwnerOf(db, a) < OwnerOf(db, b) {
      end := CrossedRegistration(s0, contains, s, a, b);
    } else {
      end := CrossedRegistration(s0, contains, s, b, a);
    }
  }

  lemma OnlyWorkKeeps(s: State, step: Step, contains: Contains)
    requires Separate(s.w.g.db) && (step.Change? ==> step.step.Work?)
    ensures Separate(Apply(s, step, contains).w.g.db)
  {
    hide Separate;
    SameSeparation(s.w.g.db, Apply(s, step, contains).w.g.db);
  }

  lemma {:induction false} OnlyWorkIsTidy(s: State, steps: seq<Step>, contains: Contains, end: State)
    requires Separate(s.w.g.db) && Run(s, steps, contains, end) && OnlyWork(steps)
    ensures Tidy(s, steps, contains)
    decreases |steps|
  {
    hide Enabled, Separate;
    if steps != [] {
      var next := Apply(s, steps[0], contains);
      OnlyWorkKeeps(s, steps[0], contains);
      hide Apply;
      OnlyWorkIsTidy(next, steps[1..], contains, end);
    }
  }

  /**
   * Exactly which tables are safe: without any change to hosts and credentials, transactions can
   * deadlock if and only if some credential is at the address of another host or another credential.
   */
  lemma DeadlockExactly(w: World, contains: Contains)
    requires RegistrationRuns.Attached(w.g)
    ensures Separate(w.g.db) <==>
      forall end, stuck :: Reaches(Idle(w), contains, end) ==> !Deadlock(end, stuck)
  {
    hide Deadlock, Separate;
    if Separate(w.g.db) {
      forall end, stuck | Reaches(Idle(w), contains, end) ensures !Deadlock(end, stuck) {
        var steps :| Run(Idle(w), steps, contains, end) && OnlyWork(steps);
        OnlyWorkIsTidy(Idle(w), steps, contains, end);
        TidyRunsNeverDeadlock(w, steps, contains, end, stuck);
      }
    } else {
      var end := DeadlockReachable(w, contains);
    }
  }

  // ----- How such tables come about -----

  function Changes(steps: seq<RegistrationRuns.Step>): seq<Step> {
    if steps == [] then [] else [Change(steps[0])] + Changes(steps[1..])
  }

  lemma {:induction false} RunsAndThen(
      w: World, before: seq<RegistrationRuns.Step>, contains: Contains, steps: seq<Step>, end: State)
    requires RegistrationRuns.Run(w, before, contains)
    requires Run(Idle(RegistrationRuns.After(w, before, contains)), steps, contains, end)
    ensures Run(Idle(w), Changes(before) + steps, contains, end)
    decreases |before|
  {
    hide RegistrationRuns.Apply, RegistrationRuns.Enabled, Run;
    if before == [] {
      assert Changes(before) + steps == steps;
    } else {
      assert (Changes(before) + steps)[1..] == Changes(before[1..]) + steps;
      RunsAndThen(RegistrationRuns.Apply(w, before[0], contains), before[1..], contains, steps, end);
      FirstChange(w, before[0], contains, Changes(before[1..]) + steps, end);
      assert Changes(before) + steps == [Change(before[0])] + (Changes(before[1..]) + steps);
    }
  }

  lemma FirstChange(w: World, step: RegistrationRuns.Step, contains: Contains, rest: seq<Step>, end: State)
    requires RegistrationRuns.Enabled(w, step)
    requires Run(Idle(RegistrationRuns.Apply(w, step, contains)), rest, contains, end)
    ensures Run(Idle(w), [Change(step)] + rest, contains, end)
  {
    hide RegistrationRuns.Apply, RegistrationRuns.Enabled;
    assert ([Change(step)] + rest)[1..] == rest;
  }

  /**
   * Two address corrections of one agent that interleave leave its credential at the address of another
   * host. From then on deleting the one host and a batch over both can deadlock.
   */
  lemma InterleavedCorrectionsDeadlock(contains: Contains) returns (steps: seq<Step>, end: State)
    ensures Run(Idle(RegistrationRuns.START), steps, contains, end) && Deadlock(end, {1, 2})
  {
    var before := RegistrationRuns.CorrectionMeetsAnotherHost(contains);
    var w := RegistrationRuns.After(RegistrationRuns.START, before, contains);
    RegistrationRuns.RunKeepsAttached(RegistrationRuns.START, before, contains);
    assert "a" in w.g.db.agents && 1 in w.g.db.hosts && !AtHome(w.g.db);
    end := DeadlockReachable(w, contains);
    var rest :| Run(Idle(w), rest, contains, end) && OnlyWork(rest);
    hide Run, RegistrationRuns.Run, RegistrationRuns.After, Deadlock;
    RunsAndThen(RegistrationRuns.START, before, contains, rest, end);
    steps := Changes(before) + rest;
  }

  // ----- The locks of a batch against given tables -----

  predicate Increasing(ls: seq<Lock>) { forall i, j :: 0 <= i < j < |ls| ==> Below(ls[i], ls[j]) }

  function KnownLocks(id: int): seq<Lock> { [TaskRows(id), CommandRows(id), HostRow(id)] }

  /** All that a batch locks, if the tables stay as they are. */
  function BatchLocks(db: Database, order: seq<string>, ids: seq<int>): seq<Lock> {
    if ids == [] then []
    else KnownLocks(ids[0]) + RowsIn(db, order, Clear(ids[0])) + BatchLocks(db, order, ids[1..])
  }

  predicate Between(rows: seq<Lock>, id: int, next: Option<int>) {
    forall i :: 0 <= i < |rows| ==> id <= Key(rows[i]) && (next.Some? ==> Key(rows[i]) < next.value)
  }

  function Following(ids: seq<int>): Option<int> { if |ids| > 1 then Some(ids[1]) else None }

  /** The hosts whose credentials go with each host are in order, none before it and none from the next host on. */
  predicate RowsFit(db: Database, order: seq<string>, ids: seq<int>) {
    ids != [] ==>
      (var rows := RowsIn(db, order, Clear(ids[0]));
       Increasing(rows) && Between(rows, ids[0], Following(ids)) && RowsFit(db, order, ids[1..]))
  }

  predicate AllFrom(ls: seq<Lock>, id: int) {
    forall i :: 0 <= i < |ls| ==> Group(ls[i]) == 3 && id <= Key(ls[i])
  }

  /** Exactly which tables and ids let a batch lock in increasing order. */
  lemma {:induction false} BatchIncreasesExactly(db: Database, order: seq<string>, ids: seq<int>)
    requires forall i, j :: 0 <= i < j < |ids| ==> ids[i] < ids[j]
    ensures Increasing(BatchLocks(db, order, ids)) <==> RowsFit(db, order, ids)
    ensures ids != [] && RowsFit(db, order, ids) ==> AllFrom(BatchLocks(db, order, ids), ids[0])
  {
    hide Increasing, Between, AllFrom, RowsIn, KnownLocks;
    if ids == [] {
      NothingIncreases();
    } else {
      var rows, rest := RowsIn(db, order, Clear(ids[0])), BatchLocks(db, order, ids[1..]);
      BatchIncreasesExactly(db, order, ids[1..]);
      OnlyCredentials(db, order, Clear(ids[0]));
      assert forall i :: 0 <= i < |rows| ==> rows[i] in rows;
      if |ids| > 1 {
        BatchBegins(db, order, ids[1..]);
        OneHostThenMore(ids[0], rows, ids[1], rest);
      } else {
        OneHostOnly(ids[0], rows);
        assert KnownLocks(ids[0]) + rows + rest == KnownLocks(ids[0]) + rows;
      }
    }
  }

  lemma NothingIncreases()
    ensures Increasing([])
  {
  }

  lemma BatchBegins(db: Database, order: seq<string>, ids: seq<int>)
    requires ids != []
    ensures BatchLocks(db, order, ids) != [] && BatchLocks(db, order, ids)[0] == TaskRows(ids[0])
  {
  }

  lemma OneHostOnly(id: int, rows: seq<Lock>)
    requires forall i :: 0 <= i < |rows| ==> rows[i].CredentialRows?
    ensures Increasing(KnownLocks(id) + rows) <==> Increasing(rows) && Between(rows, id, None)
    ensures Between(rows, id, None) ==> AllFrom(KnownLocks(id) + rows, id)
  {
    IncreasingJoin(KnownLocks(id), rows);
    assert Increasing(KnownLocks(id));
    hide Increasing;
    if i :| 0 <= i < |rows| && id > Key(rows[i]) {
      assert !Below(KnownLocks(id)[0], rows[i]);
    }
  }

  lemma OneHostThenMore(id: int, rows: seq<Lock>, next: int, rest: seq<Lock>)
    requires forall i :: 0 <= i < |rows| ==> rows[i].CredentialRows?
    requires id < next && rest != [] && rest[0] == TaskRows(next)
    ensures Increasing(KnownLocks(id) + rows + rest) ==>
      Increasing(rows) && Between(rows, id, Some(next)) && Increasing(rest)
    ensures Increasing(rows) && Between(rows, id, Some(next)) && Increasing(rest) && AllFrom(rest, next) ==>
      Increasing(KnownLocks(id) + rows + rest) && AllFrom(KnownLocks(id) + rows + rest, id)
  {
    var ls := KnownLocks(id) + rows;
    OneHostOnly(id, rows);
    IncreasingJoin(ls, rest);
    hide Increasing;
    assert forall i :: 0 <= i < |rows| ==> ls[i + 3] == rows[i];
    if Increasing(ls + rest) {
      forall i | 0 <= i < |rows| ensures Key(rows[i]) < next {
        assert Below(ls[i + 3], rest[0]);
      }
    }
  }

  lemma IncreasingJoin(ls: seq<Lock>, ms: seq<Lock>)
    ensures Increasing(ls + ms) <==>
      (Increasing(ls) && Increasing(ms) && forall i, j :: 0 <= i < |ls| && 0 <= j < |ms| ==> Below(ls[i], ms[j]))
  {
    hide Below;
    var all := ls + ms;
    if Increasing(all) {
      forall i, j | 0 <= i < j < |ls| ensures Below(ls[i], ls[j]) {
        assert Below(all[i], all[j]);
      }
      forall i, j | 0 <= i < j < |ms| ensures Below(ms[i], ms[j]) {
        assert Below(all[|ls| + i], all[|ls| + j]);
      }
      forall i, j | 0 <= i < |ls| && 0 <= j < |ms| ensures Below(ls[i], ms[j]) {
        assert Below(all[i], all[|ls| + j]);
      }
    }
  }
}
