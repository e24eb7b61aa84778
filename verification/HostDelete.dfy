/** Deleting hosts: the single transaction, and the batch with one savepoint per host. */
module HostDelete {
  import opened Options
  import opened Sequences
  import opened Tables

  /** The statements of one deletion at which the database may report an error. */
  datatype Statement = FirstLook | LockTasks | LockCommands | LockHost | CountActive | DropAgents | DropHost | CommitOne

  /**
   * What one deletion meets: the row its unlocked first look returned (which other transactions may
   * have changed by the time the row is locked), and the statement that fails, if any.
   */
  datatype Probe = Probe(first: Option<Host>, fault: Option<Statement>)

  datatype Error = NotFound | StillBusy | Internal

  datatype Outcome = Deleted(ip: string) | Failed(ip: string, error: Error)

  // ----- What a deletion does -----

  /** The credentials that go with a host: by host, by address, or by its current agent. */
  predicate BelongsTo(agentId: string, a: Agent, id: int, h: Host) {
    a.hostId == Some(id) || a.ip == h.ip || agentId == h.agentId
  }

  function WithoutAgents(db: Database, id: int, h: Host): Database {
    db.(agents := map a | a in db.agents && !BelongsTo(a, db.agents[a], id, h) :: db.agents[a])
  }

  /** The row and everything that references it with ON DELETE CASCADE or SET NULL. */
  function WithoutRow(db: Database, id: int): Database {
    var tasks := map t | t in db.taskHosts && db.taskHosts[t].hostId != id :: db.taskHosts[t];
    Database(
      db.hosts - {id},
      map a | a in db.agents :: if db.agents[a].hostId == Some(id) then db.agents[a].(hostId := None) else db.agents[a],
      tasks,
      map c | c in db.commands && db.commands[c].hostId != Some(id)
           && !(db.commands[c].taskHostId.Some? && db.commands[c].taskHostId.value in db.taskHosts
                && db.taskHosts[db.commands[c].taskHostId.value].hostId == id) :: db.commands[c])
  }

  function WithoutHost(db: Database, id: int): Database
    requires id in db.hosts
  {
    WithoutRow(WithoutAgents(db, id, db.hosts[id]), id)
  }

  /** How a deletion ends. */
  function Verdict(db: Database, sc: Scope, id: int, p: Probe): Outcome {
    if p.fault == Some(FirstLook) then Failed("", Internal)
    else if p.first.None? || !sc.Allows(p.first.value.tenant) then Failed("", NotFound)
    else if p.fault in {Some(LockTasks), Some(LockCommands), Some(LockHost)} then Failed(p.first.value.ip, Internal)
    else if !Visible(db, sc, id) then Failed("", NotFound)
    else if p.fault == Some(CountActive) then Failed(db.hosts[id].ip, Internal)
    else if Busy(db, id) then Failed(db.hosts[id].ip, StillBusy)
    else if p.fault.Some? then Failed(db.hosts[id].ip, Internal)
    else Deleted(db.hosts[id].ip)
  }

  /** One deletion as a transaction of its own: all of it or nothing. */
  function DeleteOne(db: Database, sc: Scope, id: int, p: Probe): Database {
    if Verdict(db, sc, id, p).Deleted? then WithoutHost(db, id) else db
  }

  /** Deletions one after another, each as a transaction of its own. */
  function DeleteEach(db: Database, sc: Scope, ids: seq<int>, probes: seq<Probe>): (Database, seq<Outcome>)
    requires |ids| == |probes|
  {
    if ids == [] then (db, []) else
      var n := |ids| - 1;
      var (before, outs) := DeleteEach(db, sc, ids[..n], probes[..n]);
      (DeleteOne(before, sc, ids[n], probes[n]), outs + [Verdict(before, sc, ids[n], probes[n])])
  }

  /** What keeps a host busy: a pending or running upgrade task, or a command that has not ended. */
  lemma BusyExactly(db: Database, id: int)
    ensures Busy(db, id) <==>
      ((exists t :: t in db.taskHosts && db.taskHosts[t].hostId == id
          && db.taskHosts[t].status in {TaskPending, TaskRunning})
       || (exists c :: c in db.commands && db.commands[c].hostId == Some(id)
             && db.commands[c].status in {CmdPending, CmdDispatched, CmdAccepted, CmdRunning}))
  {
    if t :| t in db.taskHosts && db.taskHosts[t].hostId == id && db.taskHosts[t].status in {TaskPending, TaskRunning} {
      assert t in ActiveTasks(db, id);
    }
    if c :| (c in db.commands && db.commands[c].hostId == Some(id)
             && db.commands[c].status in {CmdPending, CmdDispatched, CmdAccepted, CmdRunning}) {
      assert c in ActiveCommands(db, id);
    }
    SomeMember(ActiveTasks(db, id));
    SomeMember(ActiveCommands(db, id));
  }

  lemma SomeMember(s: set<int>)
    ensures |s| > 0 <==> exists x :: x in s
  {
    if forall x :: x !in s {
      assert s == {};
    }
  }

  predicate Seen(h: Option<Host>, sc: Scope) { h.Some? && (sc.cross || h.value.tenant == sc.tenant) }

  function RowOf(db: Database, id: int): Option<Host> { if id in db.hosts then Some(db.hosts[id]) else None }

  /** Exactly the visible, idle hosts are deleted, barring faults; the first look can only refuse. */
  lemma DeletedExactly(db: Database, sc: Scope, id: int, p: Probe)
    ensures Verdict(db, sc, id, p).Deleted? <==>
      p.fault.None? && Seen(p.first, sc) && Seen(RowOf(db, id), sc) && !Busy(db, id)
    ensures Verdict(db, sc, id, p).Deleted? ==> Verdict(db, sc, id, p) == Deleted(db.hosts[id].ip)
  {
  }

  /** And how it fails otherwise: the first thing that goes wrong decides, and which address is known by then. */
  lemma FailedExactly(db: Database, sc: Scope, id: int, p: Probe)
    ensures var out, early := Verdict(db, sc, id, p), {Some(LockTasks), Some(LockCommands), Some(LockHost)};
      && (out == Failed("", NotFound) <==>
            p.fault != Some(FirstLook)
            && (!Seen(p.first, sc) || (p.fault !in early && !Seen(RowOf(db, id), sc))))
      && (out.Failed? && out.error == StillBusy <==>
            p.fault !in early + {Some(FirstLook), Some(CountActive)}
            && Seen(p.first, sc) && Seen(RowOf(db, id), sc) && Busy(db, id))
      && (out.Failed? && out.error == Internal ==> p.fault.Some?)
      && (out.Failed? && out.error == NotFound ==> out.ip == "")
      && (out.Failed? && out.error == StillBusy ==> id in db.hosts && out.ip == db.hosts[id].ip)
  {
  }

  /** Afterwards nothing refers to the host any more, and no credential of its address or agent is left. */
  lemma NothingLeft(db: Database, id: int)
    requires id in db.hosts
    ensures var after := WithoutHost(db, id);
      && after.hosts == db.hosts - {id}
      && (forall a :: a in after.agents ==>
            (after.agents[a].hostId != Some(id) && after.agents[a].ip != db.hosts[id].ip && a != db.hosts[id].agentId))
      && (forall t :: t in after.taskHosts ==> after.taskHosts[t].hostId != id)
      && (forall c :: c in after.commands ==> after.commands[c].hostId != Some(id))
  {
  }

  /**
   * Exactly what stays, and it stays as it is: credentials that differ from the host in all three columns,
   * per-host records of other hosts, and commands that are neither the host's own nor those of one of its
   * per-host records.
   */
  lemma OthersUntouched(db: Database, id: int)
    requires id in db.hosts
    ensures var after, h := WithoutHost(db, id), db.hosts[id];
      && (forall a :: a in after.agents <==>
            a in db.agents && db.agents[a].hostId != Some(id) && db.agents[a].ip != h.ip && a != h.agentId)
      && (forall a :: a in after.agents ==> after.agents[a] == db.agents[a])
      && (forall t :: t in after.taskHosts <==> t in db.taskHosts && db.taskHosts[t].hostId != id)
      && (forall t :: t in after.taskHosts ==> after.taskHosts[t] == db.taskHosts[t])
      && (forall c :: c in after.commands <==>
            c in db.commands && db.commands[c].hostId != Some(id)
            && (db.commands[c].taskHostId.Some? && db.commands[c].taskHostId.value in db.taskHosts ==>
                  db.taskHosts[db.commands[c].taskHostId.value].hostId != id))
      && (forall c :: c in after.commands ==> after.commands[c] == db.commands[c])
  {
  }

  // ----- Whole sequences -----

  lemma {:induction false} DeleteEachLength(db: Database, sc: Scope, ids: seq<int>, probes: seq<Probe>)
    requires |ids| == |probes|
    ensures |DeleteEach(db, sc, ids, probes).1| == |ids|
  {
    if ids != [] {
      DeleteEachLength(db, sc, ids[..|ids| - 1], probes[..|ids| - 1]);
    }
  }

  /** The hosts are taken in turn: a deletion has its whole effect, a failure none, on what those before have left. */
  lemma {:induction false} EachInTurn(db: Database, sc: Scope, ids: seq<int>, probes: seq<Probe>, i: nat)
    requires |ids| == |probes| && i < |ids|
    ensures DeleteEach(db, sc, ids[..0], probes[..0]) == (db, [])
    ensures |DeleteEach(db, sc, ids, probes).1| == |ids|
    ensures var before := DeleteEach(db, sc, ids[..i], probes[..i]).0;
      var after := DeleteEach(db, sc, ids[..i + 1], probes[..i + 1]).0;
      var out := DeleteEach(db, sc, ids, probes).1[i];
      && out == Verdict(before, sc, ids[i], probes[i])
      && (out.Failed? ==> after == before)
      && (out.Deleted? ==> ids[i] in before.hosts && after == WithoutHost(before, ids[i]))
    decreases |ids|
  {
    var n := |ids| - 1;
    DeleteEachLength(db, sc, ids, probes);
    DeleteEachLength(db, sc, ids[..n], probes[..n]);
    if i < n {
      EachInTurn(db, sc, ids[..n], probes[..n], i);
      assert ids[..n][..i] == ids[..i] && probes[..n][..i] == probes[..i];
      assert ids[..n][..i + 1] == ids[..i + 1] && probes[..n][..i + 1] == probes[..i + 1];
    } else {
      assert ids[..i + 1] == ids && probes[..i + 1] == probes;
      DeleteOneHosts(DeleteEach(db, sc, ids[..n], probes[..n]).0, sc, ids[n], probes[n]);
    }
  }

  /** In the end exactly the hosts reported as deleted are gone, and no other. */
  lemma {:induction false} HostsGoneAreThoseReported(db: Database, sc: Scope, ids: seq<int>, probes: seq<Probe>)
    requires |ids| == |probes|
    ensures var (after, outs) := DeleteEach(db, sc, ids, probes);
      && |outs| == |ids|
      && after.hosts == db.hosts - Reported(ids, outs)
  {
    DeleteEachLength(db, sc, ids, probes);
    if ids != [] {
      hide Verdict, WithoutAgents, WithoutRow;
      var n := |ids| - 1;
      var (before, outs) := DeleteEach(db, sc, ids[..n], probes[..n]);
      HostsGoneAreThoseReported(db, sc, ids[..n], probes[..n]);
      var out := Verdict(before, sc, ids[n], probes[n]);
      ReportedOneMore(ids[..n], outs, ids[n], out);
      assert ids == ids[..n] + [ids[n]];
      DeleteOneHosts(before, sc, ids[n], probes[n]);
    }
  }

  /** The hosts that the outcomes call deleted. */
  function Reported(ids: seq<int>, outs: seq<Outcome>): set<int>
    requires |ids| == |outs|
  {
    set i | 0 <= i < |ids| && outs[i].Deleted? :: ids[i]
  }

  lemma ReportedOneMore(ids: seq<int>, outs: seq<Outcome>, id: int, out: Outcome)
    requires |ids| == |outs|
    ensures Reported(ids + [id], outs + [out]) == Reported(ids, outs) + (if out.Deleted? then {id} else {})
  {
    var ids', outs' := ids + [id], outs + [out];
    forall h | h in Reported(ids, outs) ensures h in Reported(ids', outs') {
      var i :| 0 <= i < |ids| && outs[i].Deleted? && ids[i] == h;
      assert outs'[i].Deleted? && ids'[i] == h;
    }
    if out.Deleted? {
      assert outs'[|ids|].Deleted? && ids'[|ids|] == id;
    }
  }

  lemma DeleteOneHosts(db: Database, sc: Scope, id: int, p: Probe)
    ensures DeleteOne(db, sc, id, p).hosts == db.hosts - (if Verdict(db, sc, id, p).Deleted? then {id} else {})
    ensures Verdict(db, sc, id, p).Deleted? ==> id in db.hosts
  {
  }

  /** A host is reported as deleted at most once, however often it is listed. */
  lemma {:induction false} DeletedAtMostOnce(db: Database, sc: Scope, ids: seq<int>, probes: seq<Probe>, i: nat, j: nat)
    requires |ids| == |probes| && i < j < |ids| && ids[i] == ids[j]
    ensures |DeleteEach(db, sc, ids, probes).1| == |ids|
    ensures !(DeleteEach(db, sc, ids, probes).1[i].Deleted? && DeleteEach(db, sc, ids, probes).1[j].Deleted?)
    decreases |ids|
  {
    hide Verdict, WithoutAgents, WithoutRow;
    var n := |ids| - 1;
    var (before, outs) := DeleteEach(db, sc, ids[..n], probes[..n]);
    DeleteEachLength(db, sc, ids[..n], probes[..n]);
    if j < n {
      DeletedAtMostOnce(db, sc, ids[..n], probes[..n], i, j);
    } else if outs[i].Deleted? {
      HostsGoneAreThoseReported(db, sc, ids[..n], probes[..n]);
      assert ids[..n][i] in Reported(ids[..n], outs);
      DeleteOneHosts(before, sc, ids[n], probes[n]);
    }
  }

  // ----- The code -----

  /** One database connection: the committed tables, and the view of the transaction in progress. */
  class Connection {
    var committed: Database
    var view: Database
    var saved: Option<Database>

    constructor (db: Database)
      ensures committed == db && view == db && saved == None
    {
      committed, view, saved := db, db, None;
    }

    /**
     * deleteHostTx: works on the transaction's view and commits nothing. When the last statement
     * fails, the credentials are already gone from the view; undoing that is the caller's part.
     */
    method DeleteHostTx(sc: Scope, id: int, p: Probe) returns (out: Outcome)
      requires p.fault != Some(CommitOne)
      modifies `view
      ensures out == Verdict(old(view), sc, id, p)
      ensures out.Deleted? ==> view == WithoutHost(old(view), id)
      ensures out.Failed? ==>
        view == old(view) || (id in old(view).hosts && view == WithoutAgents(old(view), id, old(view).hosts[id]))
    {
      if p.fault == Some(FirstLook) { return Failed("", Internal); }
      if p.first.None? || !sc.Allows(p.first.value.tenant) { return Failed("", NotFound); }
      var ip := p.first.value.ip;
      if p.fault == Some(LockTasks) { return Failed(ip, Internal); }
      if p.fault == Some(LockCommands) { return Failed(ip, Internal); }
      // The host row is locked last and looked at again.
      if p.fault == Some(LockHost) { return Failed(ip, Internal); }
      if !Visible(view, sc, id) { return Failed("", NotFound); }
      var h := view.hosts[id];
      if p.fault == Some(CountActive) { return Failed(h.ip, Internal); }
      if |ActiveTasks(view, id)| > 0 || |ActiveCommands(view, id)| > 0 { return Failed(h.ip, StillBusy); }
      if p.fault == Some(DropAgents) { return Failed(h.ip, Internal); }
      view := WithoutAgents(view, id, h);
      if p.fault.Some? { return Failed(h.ip, Internal); }  // only DropHost is left
      view := WithoutRow(view, id);
      return Deleted(h.ip);
    }

    /** deleteHost: one host in a transaction of its own. */
    method DeleteHost(sc: Scope, id: int, p: Probe) returns (out: Outcome)
      modifies this
      ensures out == Verdict(old(committed), sc, id, p)
      ensures committed == DeleteOne(old(committed), sc, id, p) && view == committed
    {
      view := committed;
      var commitFails := p.fault == Some(CommitOne);
      out := DeleteHostTx(sc, id, if commitFails then p.(fault := None) else p);
      if out.Failed? {
        view := committed;
        return;
      }
      if commitFails {
        view := committed;
        return Failed(out.ip, Internal);
      }
      committed := view;
    }

    /**
     * The loop of a job batch: a savepoint before every host, released on success and rolled back to
     * on failure. The transaction's view ends up as if each host had had a transaction of its own.
     */
    method DeleteChunk(sc: Scope, chunk: seq<int>, probes: seq<Probe>) returns (results: seq<Outcome>)
      requires |chunk| == |probes| && forall i :: 0 <= i < |probes| ==> probes[i].fault != Some(CommitOne)
      modifies `view, `saved
      ensures (view, results) == DeleteEach(old(view), sc, chunk, probes)
      ensures saved == None
    {
      results := [];
      saved := None;
      for i := 0 to |chunk|
        invariant saved == None
        invariant (view, results) == DeleteEach(old(view), sc, chunk[..i], probes[..i])
      {
        assert chunk[..i + 1][..i] == chunk[..i] && probes[..i + 1][..i] == probes[..i];
        saved := Some(view);
        var out := DeleteHostTx(sc, chunk[i], probes[i]);
        if out.Failed? {
          view := saved.value;
        }
        saved := None;
        results := results + [out];
      }
      assert chunk[..|chunk|] == chunk && probes[..|probes|] == probes;
    }

    /** HostBatchDelete: one transaction per host; from `canceledAt` on the request is gone. */
    method HostBatchDelete(sc: Scope, ids: seq<int>, probes: seq<Probe>, canceledAt: nat)
      returns (deleted: seq<int>, failed: seq<int>, ghost n: nat)
      requires |ids| == |probes|
      modifies this
      ensures n == if canceledAt < |ids| then canceledAt else |ids|
      ensures var (after, outs) := DeleteEach(old(committed), sc, ids[..n], probes[..n]);
        && committed == after
        && deleted == Chosen(ids[..n], outs, true)
        && failed == Chosen(ids[..n], outs, false) + ids[n..]
    {
      hide DeleteOne, Verdict, Chosen;
      deleted, failed, n := [], [], 0;
      ghost var db, outs := committed, [];
      ChosenNone();
      for i := 0 to |ids|
        invariant n == if canceledAt < i then canceledAt else i
        invariant DeleteEach(db, sc, ids[..n], probes[..n]) == (committed, outs) && |outs| == n
        invariant deleted == Chosen(ids[..n], outs, true)
        invariant failed == Chosen(ids[..n], outs, false) + ids[n..i]
      {
        if i >= canceledAt {
          failed := failed + [ids[i]];
          continue;
        }
        assert ids[..i + 1][..i] == ids[..i] && probes[..i + 1][..i] == probes[..i];
        var out := DeleteHost(sc, ids[i], probes[i]);
        ChosenOneMore(ids[..i], outs, ids[i], out);
        assert ids[..i + 1] == ids[..i] + [ids[i]];
        outs := outs + [out];
        if out.Failed? {
          failed := failed + [ids[i]];
        } else {
          deleted := deleted + [ids[i]];
        }
        n := i + 1;
      }
    }
  }

  lemma ChosenNone()
    ensures Chosen([], [], true) == Chosen([], [], false) == []
  {
  }

  lemma ChosenOneMore(ids: seq<int>, outs: seq<Outcome>, id: int, out: Outcome)
    requires |ids| == |outs|
    ensures Chosen(ids + [id], outs + [out], true) == Chosen(ids, outs, true) + (if out.Deleted? then [id] else [])
    ensures Chosen(ids + [id], outs + [out], false) == Chosen(ids, outs, false) + (if out.Failed? then [id] else [])
  {
    assert (ids + [id])[..|ids|] == ids && (outs + [out])[..|ids|] == outs;
  }

  /** The ids whose deletion succeeded, or those whose deletion failed, in order. */
  function Chosen(ids: seq<int>, outs: seq<Outcome>, deleted: bool): seq<int> {
    if ids == [] || |outs| != |ids| then [] else
      var n := |ids| - 1;
      Chosen(ids[..n], outs[..n], deleted) + (if outs[n].Deleted? == deleted then [ids[n]] else [])
  }

  /** Listed as deleted are exactly the ids whose deletion succeeded, as failed exactly those whose deletion failed. */
  lemma {:induction false} ChosenExactly(ids: seq<int>, outs: seq<Outcome>, deleted: bool, id: int)
    requires |ids| == |outs|
    ensures id in Chosen(ids, outs, deleted) <==>
      exists i :: 0 <= i < |ids| && ids[i] == id && outs[i].Deleted? == deleted
  {
    if ids != [] {
      var n := |ids| - 1;
      ChosenExactly(ids[..n], outs[..n], deleted, id);
      if i :| 0 <= i < n && ids[..n][i] == id && outs[..n][i].Deleted? == deleted {
        assert ids[i] == id && outs[i].Deleted? == deleted;
      }
      if i :| 0 <= i < |ids| && ids[i] == id && outs[i].Deleted? == deleted {
        assert i < n ==> ids[..n][i] == id && outs[..n][i].Deleted? == deleted;
      }
    }
  }

  /** Every id of a request is reported exactly once, as deleted or as failed. */
  lemma {:induction false} EveryIdReported(ids: seq<int>, outs: seq<Outcome>)
    requires |ids| == |outs|
    ensures multiset(Chosen(ids, outs, true)) + multiset(Chosen(ids, outs, false)) == multiset(ids)
  {
    if ids == [] {
      ChosenNone();
    } else {
      hide Chosen;
      var n := |ids| - 1;
      EveryIdReported(ids[..n], outs[..n]);
      ChosenOneMore(ids[..n], outs[..n], ids[n], outs[n]);
      assert ids == ids[..n] + [ids[n]] && outs == outs[..n] + [outs[n]];
      OneMoreOnEitherSide(Chosen(ids[..n], outs[..n], true), Chosen(ids[..n], outs[..n], false), ids[..n], ids[n]);
    }
  }

  lemma OneMoreOnEitherSide(yes: seq<int>, no: seq<int>, all: seq<int>, x: int)
    requires multiset(yes) + multiset(no) == multiset(all)
    ensures multiset(yes + [x]) + multiset(no + []) == multiset(all + [x])
    ensures multiset(yes + []) + multiset(no + [x]) == multiset(all + [x])
  {
    assert yes + [] == yes && no + [] == no;
  }

  // ----- uniquePositiveIDs -----

  /** First occurrences of positive numbers, in input order. */
  ghost predicate FirstPositives(input: seq<int>, out: seq<int>) {
    && (forall x :: x in out <==> x in input && x > 0)
    && (forall i, j :: 0 <= i < j < |out| ==> out[i] != out[j])
    && (forall i, j :: 0 <= i < j < |out| ==> FirstAt(input, out[i]) < FirstAt(input, out[j]))
  }

  method UniquePositiveIDs(input: seq<int>) returns (out: seq<int>)
    ensures FirstPositives(input, out)
  {
    var seen: set<int> := {};
    out := [];
    for i := 0 to |input|
      invariant forall x :: x in out <==> x in seen
      invariant forall x :: x in seen <==> x in input[..i] && x > 0
      invariant forall j, k :: 0 <= j < k < |out| ==> out[j] != out[k]
      invariant forall j, k :: 0 <= j < k < |out| ==> FirstAt(input, out[j]) < FirstAt(input, out[k])
      invariant forall j :: 0 <= j < |out| ==> FirstAt(input, out[j]) < i
    {
      var id := input[i];
      if id > 0 && id !in seen {
        FirstAtIs(input, i);
        seen := seen + {id};
        out := out + [id];
      }
      assert input[..i + 1] == input[..i] + [id];
    }
    assert input[..|input|] == input;
  }
}
