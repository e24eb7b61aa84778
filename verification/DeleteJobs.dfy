/**
 * Asynchronous host-deletion jobs: the job row, one run of the background loop, and any number of
 * replicas running it side by side with cancel requests, crashes and clean-up.
 */
module DeleteJobs {
  import opened Options
  import opened Tables
  import opened HostDelete

  const MAX_JOB := 5000
  const CHUNK := 100
  const MAX_FAILURES := 200

  datatype Status = Pending | Running | Done | Canceled

  datatype Failure = Failure(id: int, ip: string, error: Error)

  datatype Job = Job(
    scope: Scope, createdBy: string, ids: seq<int>,
    processed: nat, deleted: nat, failedCount: nat, failed: seq<Failure>,
    status: Status, cancel: bool)

  predicate Active(j: Job) { j.status.Pending? || j.status.Running? }

  function NewJob(sc: Scope, createdBy: string, ids: seq<int>): Job {
    Job(sc, createdBy, ids, 0, 0, 0, [], Pending, false)
  }

  // ----- Creating a job -----

  predicate Ascending(ids: seq<int>) {
    forall i, j :: 0 <= i < j < |ids| ==> ids[i] < ids[j]
  }

  /** What a created job holds: one to MAX_JOB distinct positive ids in ascending order. */
  predicate JobIds(ids: seq<int>) {
    0 < |ids| <= MAX_JOB && Ascending(ids) && forall i :: 0 <= i < |ids| ==> ids[i] > 0
  }

  function Insert(x: int, ids: seq<int>): seq<int> {
    if ids == [] || x <= ids[0] then [x] + ids else [ids[0]] + Insert(x, ids[1..])
  }

  /** sort.Slice by ascending id. */
  function Sorted(ids: seq<int>): seq<int> {
    if ids == [] then [] else Insert(ids[0], Sorted(ids[1..]))
  }

  lemma {:induction false} InsertKeeps(x: int, ids: seq<int>)
    requires Ascending(ids) && x !in ids
    ensures Ascending(Insert(x, ids)) && |Insert(x, ids)| == |ids| + 1
    ensures forall y :: y in Insert(x, ids) <==> y == x || y in ids
  {
    if ids != [] && x > ids[0] {
      InsertKeeps(x, ids[1..]);
      assert ids == [ids[0]] + ids[1..];
      var rest := Insert(x, ids[1..]);
      forall i | 0 <= i < |rest| ensures ids[0] < rest[i] {
        assert rest[i] in rest;
      }
    }
  }

  lemma {:induction false} SortedKeeps(ids: seq<int>)
    requires forall i, j :: 0 <= i < j < |ids| ==> ids[i] != ids[j]
    ensures Ascending(Sorted(ids)) && |Sorted(ids)| == |ids|
    ensures forall y :: y in Sorted(ids) <==> y in ids
  {
    if ids != [] {
      SortedKeeps(ids[1..]);
      assert ids == [ids[0]] + ids[1..];
      InsertKeeps(ids[0], Sorted(ids[1..]));
    }
  }

  /** The id list of HostDeleteJobCreate: none if the request names no host, or too many. */
  method PrepareIds(input: seq<int>) returns (ids: Option<seq<int>>)
    ensures ids.Some? ==> JobIds(ids.value) && forall x :: x in ids.value <==> x in input && x > 0
    ensures ids.None? ==> (forall x :: x in input ==> x <= 0) || |set x | x in input && x > 0| > 5000
  {
    var unique := UniquePositiveIDs(input);
    ghost var positives := set x | x in input && x > 0;
    DistinctCount(unique);
    assert forall x :: x in input && x > 0 ==> x in unique;
    assert (set x | x in unique) == positives;
    if |unique| == 0 { return None; }
    if |unique| > MAX_JOB { return None; }
    SortedKeeps(unique);
    ids := Some(Sorted(unique));
    assert forall i :: 0 <= i < |ids.value| ==> ids.value[i] in unique;
  }

  lemma {:induction false} DistinctCount(ids: seq<int>)
    requires forall i, j :: 0 <= i < j < |ids| ==> ids[i] != ids[j]
    ensures |set x | x in ids| == |ids|
  {
    if ids != [] {
      DistinctCount(ids[1..]);
      assert (set x | x in ids) == {ids[0]} + (set x | x in ids[1..]);
    }
  }

  // ----- What requests and the clean-up do to the job table -----

  /** Two rows that the unique index on unfinished jobs does not let stand side by side. */
  predicate SameOwner(a: Job, b: Job) {
    a.scope.tenant == b.scope.tenant && a.createdBy == b.createdBy
  }

  /** A job that the user who sends the request may stop. */
  predicate Stoppable(jobs: map<int, Job>, id: int, user: string, viewer: Scope) {
    id in jobs && Active(jobs[id]) && viewer.Allows(jobs[id].scope.tenant) && jobs[id].createdBy == user
  }

  function Stopped(jobs: map<int, Job>, id: int, user: string, viewer: Scope): map<int, Job> {
    if Stoppable(jobs, id, user, viewer) then jobs[id := jobs[id].(cancel := true)] else jobs
  }

  // ----- One batch -----

  function ChunkEnd(j: Job): nat {
    if j.processed + CHUNK > |j.ids| then |j.ids| else j.processed + CHUNK
  }

  /** The hosts of the next batch. */
  function Chunk(j: Job): seq<int> {
    if j.processed <= |j.ids| then j.ids[j.processed..ChunkEnd(j)] else []
  }

  /** The run only closes the job: it was canceled, or nothing is left to do. */
  predicate OnlyCloses(j: Job) { j.cancel || j.processed >= |j.ids| }

  function DeletedCount(outs: seq<Outcome>): nat {
    if outs == [] then 0 else
      DeletedCount(outs[..|outs| - 1]) + (if outs[|outs| - 1].Deleted? then 1 else 0)
  }

  function FailuresOf(ids: seq<int>, outs: seq<Outcome>): (fs: seq<Failure>)
    requires |ids| == |outs|
  {
    if ids == [] then [] else
      var n := |ids| - 1;
      FailuresOf(ids[..n], outs[..n])
      + (if outs[n].Failed? then [Failure(ids[n], outs[n].ip, outs[n].error)] else [])
  }

  lemma {:induction false} FailuresOfAppend(a: seq<int>, x: seq<Outcome>, b: seq<int>, y: seq<Outcome>)
    requires |a| == |x| && |b| == |y|
    ensures FailuresOf(a + b, x + y) == FailuresOf(a, x) + FailuresOf(b, y)
  {
    if b == [] {
      assert a + b == a && x + y == x;
    } else {
      var n := |b| - 1;
      FailuresOfAppend(a, x, b[..n], y[..n]);
      assert (a + b)[..|a| + n] == a + b[..n] && (x + y)[..|a| + n] == x + y[..n];
    }
  }

  lemma {:induction false} DeletedCountAppend(x: seq<Outcome>, y: seq<Outcome>)
    ensures DeletedCount(x + y) == DeletedCount(x) + DeletedCount(y)
  {
    if y == [] {
      assert x + y == x;
    } else {
      DeletedCountAppend(x, y[..|y| - 1]);
      assert (x + y)[..|x + y| - 1] == x + y[..|y| - 1];
    }
  }

  /** Every attempt is counted once, as a deletion or as a failure. */
  lemma {:induction false} EveryAttemptCounted(ids: seq<int>, outs: seq<Outcome>)
    requires |ids| == |outs|
    ensures DeletedCount(outs) + |FailuresOf(ids, outs)| == |ids|
  {
    if ids != [] {
      EveryAttemptCounted(ids[..|ids| - 1], outs[..|ids| - 1]);
    }
  }

  /** The k-th failure is that of attempt at[k], in order, and every failed attempt is among them. */
  predicate Records(ids: seq<int>, outs: seq<Outcome>, fs: seq<Failure>, at: seq<nat>)
    requires |ids| == |outs|
  {
    && |at| == |fs|
    && (forall k :: 0 <= k < |at| ==> at[k] < |ids|)
    && (forall k, l :: 0 <= k < l < |at| ==> at[k] < at[l])
    && (forall k :: 0 <= k < |at| ==>
          outs[at[k]].Failed? && fs[k] == Failure(ids[at[k]], outs[at[k]].ip, outs[at[k]].error))
    && (forall i: nat :: i < |outs| && outs[i].Failed? ==> i in at)
  }

  lemma RecordsOneMore(ids: seq<int>, outs: seq<Outcome>, fs: seq<Failure>, at: seq<nat>, id: int, out: Outcome)
    requires |ids| == |outs| && Records(ids, outs, fs, at)
    ensures out.Deleted? ==> Records(ids + [id], outs + [out], fs, at)
    ensures out.Failed? ==>
      Records(ids + [id], outs + [out], fs + [Failure(id, out.ip, out.error)], at + [|ids|])
  {
  }

  /** Failures are recorded in order, each with its host, address and reason, and nothing else is. */
  lemma {:induction false} FailuresInOrder(ids: seq<int>, outs: seq<Outcome>) returns (at: seq<nat>)
    requires |ids| == |outs|
    ensures Records(ids, outs, FailuresOf(ids, outs), at)
  {
    if ids == [] {
      at := [];
    } else {
      var n := |ids| - 1;
      var front := FailuresInOrder(ids[..n], outs[..n]);
      RecordsOneMore(ids[..n], outs[..n], FailuresOf(ids[..n], outs[..n]), front, ids[n], outs[n]);
      assert ids[..n] + [ids[n]] == ids && outs[..n] + [outs[n]] == outs;
      at := if outs[n].Failed? then front + [n] else front;
      hide Records;
      assert FailuresOf(ids[..n], outs[..n]) + [] == FailuresOf(ids[..n], outs[..n]);
    }
  }

  /** A batch is the next hundred ids, or what is left of them. */
  lemma ChunkIsNext(j: Job)
    requires j.processed <= |j.ids|
    ensures |Chunk(j)| == (if |j.ids| - j.processed > 100 then 100 else |j.ids| - j.processed)
    ensures forall i :: 0 <= i < |Chunk(j)| ==> Chunk(j)[i] == j.ids[j.processed + i]
  {
  }

  /** At most `n` items. */
  function Take(fs: seq<Failure>, n: nat): seq<Failure> { if |fs| <= n then fs else fs[..n] }

  /** The final UPDATE of a batch, computed from the row read at the start of the transaction. */
  function Advance(current: Job, row: Job, outs: seq<Outcome>): Job
    requires |outs| == |Chunk(row)|
  {
    var failures := FailuresOf(Chunk(row), outs);
    current.(
      processed := ChunkEnd(row),
      deleted := current.deleted + DeletedCount(outs),
      failedCount := current.failedCount + |failures|,
      failed := Take(row.failed + failures, if |row.failed| > MAX_FAILURES then |row.failed| else MAX_FAILURES),
      status := if ChunkEnd(row) >= |row.ids| then Done else Running)
  }

  function Close(current: Job, row: Job): Job {
    current.(status := if row.cancel && row.processed < |row.ids| then Canceled else Done)
  }

  // ----- The code of one run -----

  ghost predicate Free(jobs: map<int, Job>, locked: set<int>, id: int) {
    id in jobs && Active(jobs[id]) && id !in locked
  }

  /** SELECT ... ORDER BY id LIMIT 1 FOR UPDATE SKIP LOCKED */
  ghost predicate Claimable(jobs: map<int, Job>, locked: set<int>, id: int) {
    Free(jobs, locked, id) && forall other :: Free(jobs, locked, other) ==> id <= other
  }

  class Store {
    var tables: Database
    var jobs: map<int, Job>

    /** Appends failures until the stored list is full. */
    method StoreFailures(row: seq<Failure>, more: seq<Failure>) returns (stored: seq<Failure>)
      ensures stored == Take(row + more, if |row| > MAX_FAILURES then |row| else MAX_FAILURES)
      ensures var room := if |row| > 200 then |row| else 200;
        stored == if |row + more| <= room then row + more else (row + more)[..room]
    {
      stored := row;
      for i := 0 to |more|
        invariant stored == Take(row + more[..i], if |row| > MAX_FAILURES then |row| else MAX_FAILURES)
      {
        if |stored| >= MAX_FAILURES {
          assert (row + more)[..|stored|] == stored;
          return;
        }
        stored := stored + [more[i]];
        assert row + more[..i + 1] == row + more[..i] + [more[i]];
      }
      assert more[..|more|] == more;
    }

    /**
     * runHostDeleteJobOnce. `claim` is what the claiming SELECT returns when other replicas hold the
     * rows `locked`; `probes` is what each deletion meets; `aborted` is whether the service stops or
     * the commit fails, which undoes the whole batch.
     */
    method RunOnce(claim: Option<int>, ghost locked: set<int>, probes: seq<Probe>, aborted: bool) returns (did: bool)
      requires claim.Some? ==> Claimable(jobs, locked, claim.value)
      requires claim.None? ==> forall id :: !Free(jobs, locked, id)
      requires |probes| >= CHUNK && forall i :: 0 <= i < |probes| ==> probes[i].fault != Some(CommitOne)
      requires forall id :: id in jobs && Active(jobs[id]) ==> jobs[id].processed <= |jobs[id].ids|
      modifies this
      ensures did <==> claim.Some? && !aborted
      ensures !did ==> tables == old(tables) && jobs == old(jobs)
      ensures did ==>
        var row := old(jobs)[claim.value];
        if OnlyCloses(row) then tables == old(tables) && jobs == old(jobs)[claim.value := Close(row, row)]
        else var chunk := Chunk(row);
          var (after, outs) := DeleteEach(old(tables), row.scope, chunk, probes[..|chunk|]);
          && tables == after && |outs| == |chunk|
          && jobs == old(jobs)[claim.value := Advance(row, row, outs)]
      ensures did ==>
        var row := old(jobs)[claim.value];
        var end := if row.processed + 100 > |row.ids| then |row.ids| else row.processed + 100;
        if row.cancel || row.processed >= |row.ids| then
          tables == old(tables) && jobs == old(jobs)[claim.value :=
            row.(status := if row.cancel && row.processed < |row.ids| then Canceled else Done)]
        else
          var chunk := row.ids[row.processed..end];
          var (after, outs) := DeleteEach(old(tables), row.scope, chunk, probes[..|chunk|]);
          tables == after && |outs| == |chunk| &&
          var failures := FailuresOf(chunk, outs);
          var room := if |row.failed| > 200 then |row.failed| else 200;
          jobs == old(jobs)[claim.value := row.(
            processed := end, deleted := row.deleted + DeletedCount(outs),
            failedCount := row.failedCount + |failures|,
            failed :=
              if |row.failed + failures| <= room then row.failed + failures else (row.failed + failures)[..room],
            status := if end == |row.ids| then Done else Running)]
    {
      hide DeleteEach, DeletedCount, FailuresOf, Take;
      if claim.None? { return false; }
      var row := jobs[claim.value];
      if row.cancel || row.processed >= |row.ids| {
        var status := Done;
        if row.cancel && row.processed < |row.ids| { status := Canceled; }
        if aborted { return false; }
        jobs := jobs[claim.value := row.(status := status)];
        return true;
      }
      var end := row.processed + CHUNK;
      if end > |row.ids| { end := |row.ids|; }
      var chunk := row.ids[row.processed..end];
      var tx := new Connection(tables);
      var results := tx.DeleteChunk(row.scope, chunk, probes[..|chunk|]);
      DeleteEachLength(tables, row.scope, chunk, probes[..|chunk|]);
      if aborted { return false; }
      var deleted, chunkFailed := CountResults(chunk, results);
      var stored := StoreFailures(row.failed, chunkFailed);
      var status := Running;
      if end >= |row.ids| { status := Done; }
      jobs := jobs[claim.value := row.(processed := end, deleted := row.deleted + deleted,
        failedCount := row.failedCount + |chunkFailed|, failed := stored, status := status)];
      tables := tx.view;
      return true;
    }

    /**
     * HostDeleteJobCreate: `clash` is whether the unique index finds an unfinished job of the same user
     * and tenant, `id` the new serial number.
     */
    method CreateJob(sc: Scope, user: string, input: seq<int>, id: int) returns (ok: bool, ghost ids: Option<seq<int>>)
      requires id !in jobs
      modifies `jobs
      ensures ids.Some? ==> JobIds(ids.value) && forall x :: x in ids.value <==> x in input && x > 0
      ensures ids.None? ==> (forall x :: x in input ==> x <= 0) || |set x | x in input && x > 0| > 5000
      ensures ok <==> ids.Some? && forall j :: j in old(jobs) && old(jobs)[j].status in {Pending, Running} ==>
        !(old(jobs)[j].scope.tenant == sc.tenant && old(jobs)[j].createdBy == user)
      ensures jobs == if ok then old(jobs)[id := Job(sc, user, ids.value, 0, 0, 0, [], Pending, false)] else old(jobs)
    {
      var list := PrepareIds(input);
      ids := list;
      if list.None? { return false, ids; }
      var job := NewJob(sc, user, list.value);
      if exists j :: j in jobs && Active(jobs[j]) && SameOwner(jobs[j], job) { return false, ids; }
      jobs := jobs[id := job];
      return true, ids;
    }

    /** HostDeleteJobCancel: one conditional UPDATE of an unfinished job of the user. */
    method CancelJob(id: int, user: string, viewer: Scope)
      modifies `jobs
      ensures jobs == Stopped(old(jobs), id, user, viewer)
      ensures jobs == if id in old(jobs)
          && old(jobs)[id].status in {Pending, Running} && old(jobs)[id].createdBy == user
          && (viewer.cross || old(jobs)[id].scope.tenant == viewer.tenant)
        then old(jobs)[id := old(jobs)[id].(cancel := true)] else old(jobs)
    {
      if Stoppable(jobs, id, user, viewer) {
        jobs := jobs[id := jobs[id].(cancel := true)];
      }
    }

    method CountResults(chunk: seq<int>, results: seq<Outcome>) returns (deleted: nat, failures: seq<Failure>)
      requires |chunk| == |results|
      ensures deleted == DeletedCount(results) && failures == FailuresOf(chunk, results)
    {
      deleted, failures := 0, [];
      for i := 0 to |chunk|
        invariant deleted == DeletedCount(results[..i]) && failures == FailuresOf(chunk[..i], results[..i])
      {
        assert chunk[..i + 1][..i] == chunk[..i] && results[..i + 1][..i] == results[..i];
        if results[i].Failed? {
          failures := failures + [Failure(chunk[i], results[i].ip, results[i].error)];
        } else {
          deleted := deleted + 1;
        }
      }
      assert chunk[..|chunk|] == chunk && results[..|results|] == results;
    }
  }
}
