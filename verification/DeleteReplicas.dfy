/**
 * Any number of replicas running the background loop side by side. A claimed job row stays locked
 * until its transaction commits or is rolled back; between those two moments other replicas, cancel
 * requests, new jobs and the clean-up go on.
 */
module DeleteReplicas {
  import opened Options
  import opened Tables
  import opened HostDelete
  import opened DeleteJobs

  /** A transaction in progress: the job row as it was read, and the outcomes so far. */
  datatype Claim = Claim(job: int, row: Job, outs: seq<Outcome>)

  /** A committed attempt at a host, and the number of the batch that made it. */
  datatype Entry = Entry(id: int, outcome: Outcome, batch: nat)

  /** What committed batches did for a job: the attempts in order, and how many batches there were. */
  datatype History = History(log: seq<Entry>, batches: nat)

  datatype System = System(
    jobs: map<int, Job>,
    nextId: int,
    claims: map<int, Claim>,       // by replica
    history: map<int, History>)    // by job, kept even when the job row is purged

  datatype Step =
    | Create(sc: Scope, user: string, ids: seq<int>)
    | Begin(replica: int, job: int)
    | Attempt(replica: int, outcome: Outcome)
    | Commit(replica: int)
    | Crash(replica: int)
    | Cancel(job: int, user: string, viewer: Scope)
    | Purge(job: int)

  const START := System(map[], 1, map[], map[])

  ghost function Locked(s: System): set<int> {
    set r | r in s.claims :: s.claims[r].job
  }

  function Entries(chunk: seq<int>, outs: seq<Outcome>, batch: nat): (es: seq<Entry>)
    requires |chunk| == |outs|
    ensures |es| == |chunk| && forall i :: 0 <= i < |es| ==> es[i] == Entry(chunk[i], outs[i], batch)
  {
    seq(|chunk|, i requires 0 <= i < |chunk| => Entry(chunk[i], outs[i], batch))
  }

  ghost predicate Enabled(s: System, step: Step) {
    match step
    case Create(sc, user, ids) =>
      JobIds(ids) && forall j :: j in s.jobs && Active(s.jobs[j]) ==> !SameOwner(s.jobs[j], NewJob(sc, user, ids))
    case Begin(r, j) => r !in s.claims && Claimable(s.jobs, Locked(s), j)
    case Attempt(r, _) =>
      && r in s.claims && !OnlyCloses(s.claims[r].row)
      && |s.claims[r].outs| < |Chunk(s.claims[r].row)|
    case Commit(r) =>
      && r in s.claims && s.claims[r].job in s.jobs
      && (OnlyCloses(s.claims[r].row) || |s.claims[r].outs| == |Chunk(s.claims[r].row)|)
    case Crash(r) => r in s.claims
    case Cancel(j, _, _) => j !in Locked(s)
    case Purge(j) => j in s.jobs && !Active(s.jobs[j])
  }

  ghost function Apply(s: System, step: Step): System
    requires Enabled(s, step)
  {
    match step
    case Create(sc, user, ids) =>
      s.(jobs := s.jobs[s.nextId := NewJob(sc, user, ids)], nextId := s.nextId + 1,
         history := s.history[s.nextId := History([], 0)])
    case Begin(r, j) => s.(claims := s.claims[r := Claim(j, s.jobs[j], [])])
    case Attempt(r, out) =>
      s.(claims := s.claims[r := s.claims[r].(outs := s.claims[r].outs + [out])])
    case Commit(r) =>
      var c := s.claims[r];
      if OnlyCloses(c.row) then
        s.(jobs := s.jobs[c.job := Close(s.jobs[c.job], c.row)], claims := s.claims - {r})
      else
        var h := if c.job in s.history then s.history[c.job] else History([], 0);
        s.(jobs := s.jobs[c.job := Advance(s.jobs[c.job], c.row, c.outs)], claims := s.claims - {r},
           history := s.history[c.job := History(h.log + Entries(Chunk(c.row), c.outs, h.batches), h.batches + 1)])
    case Crash(r) => s.(claims := s.claims - {r})
    case Cancel(j, user, viewer) => s.(jobs := Stopped(s.jobs, j, user, viewer))
    case Purge(j) => s.(jobs := s.jobs - {j})
  }

  // ----- The invariant -----

  function Ids(log: seq<Entry>): (ids: seq<int>)
    ensures |ids| == |log| && forall i :: 0 <= i < |log| ==> ids[i] == log[i].id
  {
    seq(|log|, i requires 0 <= i < |log| => log[i].id)
  }

  function Outcomes(log: seq<Entry>): (outs: seq<Outcome>)
    ensures |outs| == |log| && forall i :: 0 <= i < |log| ==> outs[i] == log[i].outcome
  {
    seq(|log|, i requires 0 <= i < |log| => log[i].outcome)
  }

  /** Rounded up. */
  function BatchesFor(n: nat): nat { (n + CHUNK - 1) / CHUNK }

  /** The job row tells the truth about the attempts committed for it. */
  ghost predicate Accounted(j: Job, h: History) {
    && JobIds(j.ids)
    && j.processed == |h.log| <= |j.ids|
    && (forall i :: 0 <= i < |h.log| ==> h.log[i].id == j.ids[i] && h.log[i].batch == i / CHUNK)
    && j.deleted == DeletedCount(Outcomes(h.log))
    && j.deleted + j.failedCount == j.processed
    && j.failed == Take(FailuresOf(Ids(h.log), Outcomes(h.log)), MAX_FAILURES)
    && j.failedCount == |FailuresOf(Ids(h.log), Outcomes(h.log))|
    && h.batches == BatchesFor(j.processed)
    && match j.status
       case Pending => j.processed == 0
       case Running => 0 < j.processed < |j.ids| && j.processed == CHUNK * h.batches
       case Done => j.processed == |j.ids|
       case Canceled => j.cancel && j.processed < |j.ids|
  }

  ghost predicate ClaimOk(s: System, c: Claim) {
    && c.job in s.jobs && Active(s.jobs[c.job]) && c.row == s.jobs[c.job]
    && |c.outs| <= |Chunk(c.row)|
    && (OnlyCloses(c.row) ==> c.outs == [])
  }

  ghost predicate Inv(s: System) {
    && (forall j :: j in s.jobs ==> j < s.nextId && j in s.history && Accounted(s.jobs[j], s.history[j]))
    && (forall j :: j in s.history ==> j < s.nextId)
    && (forall r :: r in s.claims ==> ClaimOk(s, s.claims[r]))
    && (forall r, q :: r in s.claims && q in s.claims && r != q ==> s.claims[r].job != s.claims[q].job)
    && (forall j, k :: j in s.jobs && k in s.jobs && j != k && Active(s.jobs[j]) && Active(s.jobs[k]) ==>
          !SameOwner(s.jobs[j], s.jobs[k]))
  }

  // ----- One committed run keeps the account -----

  lemma EntriesPlaced(j: Job, h: History, outs: seq<Outcome>)
    requires Accounted(j, h) && Active(j) && !OnlyCloses(j) && |outs| == |Chunk(j)|
    ensures var log := h.log + Entries(Chunk(j), outs, h.batches);
      && |log| == ChunkEnd(j) <= |j.ids|
      && (forall i :: 0 <= i < |log| ==> log[i].id == j.ids[i] && log[i].batch == i / CHUNK)
      && Ids(log) == Ids(h.log) + Chunk(j) && Outcomes(log) == Outcomes(h.log) + outs
  {
    hide FailuresOf, DeletedCount, JobIds, Take;
    assert j.processed == CHUNK * h.batches;
  }

  lemma TakeTwice(fs: seq<Failure>, gs: seq<Failure>, n: nat)
    ensures Take(Take(fs, n) + gs, if |Take(fs, n)| > n then |Take(fs, n)| else n) == Take(fs + gs, n)
  {
  }

  lemma AdvanceAccounted(j: Job, h: History, outs: seq<Outcome>)
    requires Accounted(j, h) && Active(j) && !OnlyCloses(j) && |outs| == |Chunk(j)|
    ensures Accounted(Advance(j, j, outs), History(h.log + Entries(Chunk(j), outs, h.batches), h.batches + 1))
  {
    hide FailuresOf, DeletedCount, JobIds, Take, Chunk, Entries, Ids, Outcomes;
    EntriesPlaced(j, h, outs);
    FailuresOfAppend(Ids(h.log), Outcomes(h.log), Chunk(j), outs);
    DeletedCountAppend(Outcomes(h.log), outs);
    EveryAttemptCounted(Chunk(j), outs);
    ChunkLength(j);
    TakeTwice(FailuresOf(Ids(h.log), Outcomes(h.log)), FailuresOf(Chunk(j), outs), MAX_FAILURES);
  }

  lemma ChunkLength(j: Job)
    requires j.processed <= |j.ids|
    ensures |Chunk(j)| == ChunkEnd(j) - j.processed
  {
  }

  lemma CloseAccounted(j: Job, h: History)
    requires Accounted(j, h) && Active(j) && OnlyCloses(j)
    ensures Accounted(Close(j, j), h) && Close(j, j).status == Canceled
  {
  }

  // ----- Every step keeps the invariant -----

  lemma InvAtStart()
    ensures Inv(START)
  {
  }

  lemma ReleaseKeepsInv(s: System, r: int)
    requires Inv(s) && r in s.claims
    ensures Inv(s.(claims := s.claims - {r}))
  {
  }

  lemma CreateKeepsInv(s: System, step: Step)
    requires Inv(s) && step.Create? && Enabled(s, step)
    ensures Inv(Apply(s, step))
  {
    hide FailuresOf, DeletedCount, Ascending;
    assert Accounted(NewJob(step.sc, step.user, step.ids), History([], 0)) by {
      assert Ids([]) == [] && Outcomes([]) == [];
      NothingYet();
    }
  }

  lemma NothingYet()
    ensures FailuresOf([], []) == [] && DeletedCount([]) == 0
  {
  }

  lemma BeginKeepsInv(s: System, step: Step)
    requires Inv(s) && step.Begin? && Enabled(s, step)
    ensures Inv(Apply(s, step))
  {
    hide Accounted;
    assert forall r :: r in s.claims ==> s.claims[r].job in Locked(s);
  }

  lemma AttemptKeepsInv(s: System, step: Step)
    requires Inv(s) && step.Attempt? && Enabled(s, step)
    ensures Inv(Apply(s, step))
  {
    hide Accounted;
  }

  lemma CommitKeepsInv(s: System, step: Step)
    requires Inv(s) && step.Commit? && Enabled(s, step)
    ensures Inv(Apply(s, step))
  {
    hide Accounted, Chunk, FailuresOf;
    var c := s.claims[step.replica];
    assert ClaimOk(s, c);
    if OnlyCloses(c.row) {
      CloseAccounted(c.row, s.history[c.job]);
    } else {
      AdvanceAccounted(c.row, s.history[c.job], c.outs);
    }
  }

  lemma CancelAccounted(j: Job, h: History)
    requires Accounted(j, h) && Active(j)
    ensures Accounted(j.(cancel := true), h)
  {
    hide FailuresOf, DeletedCount, JobIds, Take, Ids, Outcomes;
  }

  lemma CancelKeepsInv(s: System, step: Step)
    requires Inv(s) && step.Cancel? && Enabled(s, step)
    ensures Inv(Apply(s, step))
  {
    hide Accounted;
    if step.job in s.jobs && Active(s.jobs[step.job]) {
      CancelAccounted(s.jobs[step.job], s.history[step.job]);
    }
    assert forall r :: r in s.claims ==> s.claims[r].job in Locked(s);
  }

  lemma PurgeKeepsInv(s: System, step: Step)
    requires Inv(s) && step.Purge? && Enabled(s, step)
    ensures Inv(Apply(s, step))
  {
    hide Accounted;
  }

  lemma StepKeepsInv(s: System, step: Step)
    requires Inv(s) && Enabled(s, step)
    ensures Inv(Apply(s, step))
  {
    hide Inv;
    match step
    case Create(_, _, _) => CreateKeepsInv(s, step);
    case Begin(_, _) => BeginKeepsInv(s, step);
    case Attempt(_, _) => AttemptKeepsInv(s, step);
    case Commit(_) => CommitKeepsInv(s, step);
    case Crash(r) => ReleaseKeepsInv(s, r);
    case Cancel(_, _, _) => CancelKeepsInv(s, step);
    case Purge(_) => PurgeKeepsInv(s, step);
  }

  // ----- Whole runs -----

  ghost predicate Run(s: System, steps: seq<Step>, t: System)
    decreases |steps|
  {
    if steps == [] then s == t
    else Enabled(s, steps[0]) && Run(Apply(s, steps[0]), steps[1..], t)
  }

  lemma {:induction false} RunKeepsInv(s: System, steps: seq<Step>, t: System)
    requires Inv(s) && Run(s, steps, t)
    ensures Inv(t)
    decreases |steps|
  {
    if steps != [] {
      hide Inv;
      StepKeepsInv(s, steps[0]);
      RunKeepsInv(Apply(s, steps[0]), steps[1..], t);
    }
  }

  /**
   * In every reachable state, for any number of replicas, crashes and cancel requests, every job row
   * accounts for exactly the attempts that were committed: nothing is lost and nothing counted twice.
   */
  lemma JobsAccounted(steps: seq<Step>, t: System, j: int)
    requires Run(START, steps, t) && j in t.jobs
    ensures j in t.history
    ensures var job, h := t.jobs[j], t.history[j];
      && job.processed == |h.log| <= |job.ids|
      && job.deleted + job.failedCount == job.processed
      && job.deleted == DeletedCount(Outcomes(h.log))
      && (var all := FailuresOf(Ids(h.log), Outcomes(h.log)); job.failed == if |all| <= 200 then all else all[..200])
      && (job.status == Done ==> job.processed == |job.ids|)
      && (job.status == Canceled ==> job.processed < |job.ids| && job.cancel)
  {
    InvAtStart();
    RunKeepsInv(START, steps, t);
  }

  /**
   * The processed ids of a job are exactly those with a committed attempt, each of them has exactly one,
   * and it was made by one of the job's committed batches.
   */
  ghost predicate AttemptedOnce(job: Job, h: History) {
    && (forall a, b :: 0 <= a < b < |h.log| ==> h.log[a].id != h.log[b].id)
    && (forall a :: 0 <= a < |h.log| ==> h.log[a].batch < h.batches)
    && (forall i :: 0 <= i < |job.ids| ==>
          (i < job.processed <==> exists a :: 0 <= a < |h.log| && h.log[a].id == job.ids[i]))
  }

  lemma AccountedAttempts(job: Job, h: History)
    requires Accounted(job, h)
    ensures AttemptedOnce(job, h)
  {
    forall a, b | 0 <= a < b < |h.log| ensures h.log[a].id != h.log[b].id {
      assert job.ids[a] < job.ids[b];
    }
    forall a | 0 <= a < |h.log| ensures h.log[a].batch < h.batches {
      assert h.log[a].batch == a / CHUNK;
    }
    forall i | 0 <= i < |job.ids|
      ensures i < job.processed <==> exists a :: 0 <= a < |h.log| && h.log[a].id == job.ids[i]
    {
      if i < job.processed {
        assert h.log[i].id == job.ids[i];
      } else {
        forall a | 0 <= a < |h.log| ensures h.log[a].id != job.ids[i] {
          assert job.ids[a] < job.ids[i];
        }
      }
    }
  }

  /** Each id of a job is attempted in exactly one committed batch, once it is processed at all. */
  lemma EachIdAttemptedOnce(steps: seq<Step>, t: System, j: int)
    requires Run(START, steps, t) && j in t.jobs
    ensures j in t.history && AttemptedOnce(t.jobs[j], t.history[j])
  {
    InvAtStart();
    RunKeepsInv(START, steps, t);
    hide Accounted, Run, ClaimOk, AttemptedOnce;
    AccountedAttempts(t.jobs[j], t.history[j]);
  }

  /** A job that was not canceled ends after exactly as many batches as its ids fill, and not before. */
  lemma BatchesUntilDone(steps: seq<Step>, t: System, j: int)
    requires Run(START, steps, t) && j in t.jobs && !t.jobs[j].cancel
    ensures j in t.history
    ensures if Active(t.jobs[j]) then t.history[j].batches < (|t.jobs[j].ids| + 99) / 100
            else t.jobs[j].status == Done && t.history[j].batches == (|t.jobs[j].ids| + 99) / 100
  {
    InvAtStart();
    RunKeepsInv(START, steps, t);
    assert Accounted(t.jobs[j], t.history[j]);
  }

  function Remaining(j: Job): nat
    requires j.processed <= |j.ids|
  {
    |j.ids| - j.processed + (if Active(j) then 1 else 0)
  }

  /** Every committed run makes progress on its job, so no job is worked on for ever. */
  lemma CommitMakesProgress(s: System, r: int)
    requires Inv(s) && Enabled(s, Commit(r))
    ensures var j, t := s.claims[r].job, Apply(s, Commit(r));
      && j in t.jobs && s.jobs[j].processed <= |s.jobs[j].ids| && t.jobs[j].processed <= |t.jobs[j].ids|
      && Remaining(t.jobs[j]) < Remaining(s.jobs[j])
      && (forall k :: k in s.jobs && k != j ==> k in t.jobs && t.jobs[k] == s.jobs[k])
  {
    hide FailuresOf, DeletedCount;
    var c := s.claims[r];
    assert ClaimOk(s, c) && Accounted(s.jobs[c.job], s.history[c.job]);
  }

  lemma StepAfterCancel(s: System, step: Step, j: int)
    requires Inv(s) && Enabled(s, step) && j in s.jobs && s.jobs[j].cancel
    ensures var t := Apply(s, step);
      && j in t.history && t.history[j] == s.history[j]
      && (j in t.jobs ==>
            && t.jobs[j].cancel && t.jobs[j].deleted == s.jobs[j].deleted
            && t.jobs[j].processed == s.jobs[j].processed)
      && j < t.nextId
  {
    hide Accounted;
    if step.Commit? {
      assert ClaimOk(s, s.claims[step.replica]);
    }
  }

  lemma StepAfterPurge(s: System, step: Step, j: int)
    requires Inv(s) && Enabled(s, step) && j in s.history && j !in s.jobs
    ensures j !in Apply(s, step).jobs && j in Apply(s, step).history && Apply(s, step).history[j] == s.history[j]
  {
    hide Accounted;
    if step.Commit? {
      assert ClaimOk(s, s.claims[step.replica]);
    }
  }

  /** From the moment a cancel request has committed, no further host is deleted for the job. */
  lemma {:induction false} NothingAfterCancel(s: System, steps: seq<Step>, t: System, j: int)
    requires Inv(s) && Run(s, steps, t) && j in s.history && (j in s.jobs ==> s.jobs[j].cancel)
    ensures j in t.history && t.history[j] == s.history[j]
    ensures j in t.jobs ==> j in s.jobs && t.jobs[j].cancel && t.jobs[j].deleted == s.jobs[j].deleted
    decreases |steps|
  {
    if steps != [] {
      var next := Apply(s, steps[0]);
      if j in s.jobs {
        StepAfterCancel(s, steps[0], j);
      } else {
        StepAfterPurge(s, steps[0], j);
      }
      StepKeepsInv(s, steps[0]);
      hide Inv, Apply;
      NothingAfterCancel(next, steps[1..], t, j);
    }
  }

  lemma StepAfterFinish(s: System, step: Step, j: int)
    requires Inv(s) && Enabled(s, step) && j in s.jobs && !Active(s.jobs[j])
    ensures var t := Apply(s, step);
      j in t.history && t.history[j] == s.history[j] && (j in t.jobs ==> t.jobs[j] == s.jobs[j])
  {
    hide Accounted;
    if step.Commit? {
      assert ClaimOk(s, s.claims[step.replica]);
    }
  }

  /** A finished job never changes again; it can only be purged. */
  lemma {:induction false} FinishedForGood(s: System, steps: seq<Step>, t: System, j: int)
    requires Inv(s) && Run(s, steps, t) && j in s.history && (j in s.jobs ==> !Active(s.jobs[j]))
    ensures j in t.history && t.history[j] == s.history[j]
    ensures j in t.jobs ==> j in s.jobs && t.jobs[j] == s.jobs[j]
    decreases |steps|
  {
    if steps != [] {
      var next := Apply(s, steps[0]);
      if j in s.jobs {
        StepAfterFinish(s, steps[0], j);
      } else {
        StepAfterPurge(s, steps[0], j);
      }
      StepKeepsInv(s, steps[0]);
      hide Inv, Apply;
      FinishedForGood(next, steps[1..], t, j);
    }
  }

  /** No job is claimed by two replicas, and the row a replica works from is the row as it stands. */
  lemma ClaimsAreExclusive(steps: seq<Step>, t: System, r: int, q: int)
    requires Run(START, steps, t) && r in t.claims && q in t.claims
    ensures r != q ==> t.claims[r].job != t.claims[q].job
    ensures t.claims[r].job in t.jobs && t.jobs[t.claims[r].job] == t.claims[r].row && Active(t.claims[r].row)
  {
    InvAtStart();
    RunKeepsInv(START, steps, t);
    assert ClaimOk(t, t.claims[r]);
  }

  // ----- From the request on -----

  /**
   * A request to stop a job: if it is sent by the user who created the unfinished job, and sees its tenant,
   * then from that step on nothing more is attempted for the job, whatever replicas do, and it never
   * counts as done.
   */
  lemma CancelStopsTheJob(
      before: seq<Step>, s: System, j: int, user: string, viewer: Scope, steps: seq<Step>, t: System)
    requires Run(START, before, s) && Enabled(s, Cancel(j, user, viewer))
    requires Run(Apply(s, Cancel(j, user, viewer)), steps, t)
    requires j in s.jobs && s.jobs[j].status in {Pending, Running}
    requires s.jobs[j].createdBy == user && (viewer.cross || s.jobs[j].scope.tenant == viewer.tenant)
    ensures j in s.history && j in t.history && t.history[j] == s.history[j]
    ensures j in t.jobs ==> t.jobs[j].cancel && t.jobs[j].deleted == s.jobs[j].deleted && t.jobs[j].status != Done
  {
    InvAtStart();
    RunKeepsInv(START, before, s);
    StepKeepsInv(s, Cancel(j, user, viewer));
    var next := Apply(s, Cancel(j, user, viewer));
    assert j in next.history && next.history[j] == s.history[j] && next.jobs[j].cancel;
    NothingAfterCancel(next, steps, t, j);
    RunKeepsInv(next, steps, t);
    assert Accounted(next.jobs[j], next.history[j]);
    if j in t.jobs {
      assert Accounted(t.jobs[j], t.history[j]);
      OwnerStays(next, steps, t, j);
    }
  }

  /** One step changes a job row only by committing a batch of it, by stopping it, or by purging it. */
  lemma RowChangesOnlyBy(s: System, step: Step, j: int)
    requires Inv(s) && Enabled(s, step) && j in s.jobs
    ensures var t := Apply(s, step);
      && (j !in t.jobs ==> step == Purge(j) && s.jobs[j].status in {Done, Canceled})
      && (j in t.jobs ==>
            && t.jobs[j].scope == s.jobs[j].scope && t.jobs[j].createdBy == s.jobs[j].createdBy
            && t.jobs[j].ids == s.jobs[j].ids
            && (t.jobs[j].cancel != s.jobs[j].cancel ==>
                  t.jobs[j].cancel && step.Cancel? && step.job == j && step.user == s.jobs[j].createdBy
                  && (step.viewer.cross || s.jobs[j].scope.tenant == step.viewer.tenant))
            && (t.jobs[j].(cancel := s.jobs[j].cancel) != s.jobs[j] ==>
                  step.Commit? && step.replica in s.claims && s.claims[step.replica].job == j))
  {
    hide Accounted;
    if step.Commit? {
      assert ClaimOk(s, s.claims[step.replica]);
    }
  }

  /** A job row appears only when it is created, and then as a job of that request with nothing done. */
  lemma RowAppearsOnlyBy(s: System, step: Step, j: int)
    requires Inv(s) && Enabled(s, step) && j !in s.jobs && j in Apply(s, step).jobs
    ensures step.Create? && j == s.nextId
    ensures Apply(s, step).jobs[j] == Job(step.sc, step.user, step.ids, 0, 0, 0, [], Pending, false)
  {
    hide Accounted;
  }

  lemma {:induction false} OwnerStays(s: System, steps: seq<Step>, t: System, j: int)
    requires Inv(s) && Run(s, steps, t) && j < s.nextId && j in t.jobs
    ensures j in s.jobs && t.jobs[j].scope == s.jobs[j].scope && t.jobs[j].createdBy == s.jobs[j].createdBy
    ensures t.jobs[j].ids == s.jobs[j].ids
    decreases |steps|
  {
    if steps != [] {
      var next := Apply(s, steps[0]);
      StepKeepsInv(s, steps[0]);
      if j in s.jobs {
        RowChangesOnlyBy(s, steps[0], j);
      } else if j in next.jobs {
        RowAppearsOnlyBy(s, steps[0], j);
      }
      NextIdGrows(s, steps[0]);
      hide Inv, Apply, Enabled;
      OwnerStays(next, steps[1..], t, j);
    }
  }

  lemma NextIdGrows(s: System, step: Step)
    requires Enabled(s, step)
    ensures s.nextId <= Apply(s, step).nextId
  {
  }

  predicate StopsIt(step: Step, j: int, row: Job) {
    && step.Cancel? && step.job == j && step.user == row.createdBy
    && (step.viewer.cross || row.scope.tenant == step.viewer.tenant)
  }

  /** And only so: a job is marked for stopping only if its creator, seeing its tenant, asked for it. */
  lemma CancelOnlyByCreator(steps: seq<Step>, t: System, j: int)
    requires Run(START, steps, t) && j in t.jobs && t.jobs[j].cancel
    ensures exists i :: 0 <= i < |steps| && StopsIt(steps[i], j, t.jobs[j])
  {
    InvAtStart();
    MarkedBySomeStep(START, steps, t, j);
  }

  lemma {:induction false} MarkedBySomeStep(s: System, steps: seq<Step>, t: System, j: int)
    requires Inv(s) && Run(s, steps, t) && j in t.jobs && t.jobs[j].cancel && (j in s.jobs ==> !s.jobs[j].cancel)
    ensures exists i :: 0 <= i < |steps| && StopsIt(steps[i], j, t.jobs[j])
    decreases |steps|
  {
    if steps != [] {
      var next := Apply(s, steps[0]);
      StepKeepsInv(s, steps[0]);
      if j in s.jobs {
        RowChangesOnlyBy(s, steps[0], j);
      } else if j in next.jobs {
        RowAppearsOnlyBy(s, steps[0], j);
      }
      if j in next.jobs && next.jobs[j].cancel {
        assert j < next.nextId;
        OwnerStays(next, steps[1..], t, j);
        assert StopsIt(steps[0], j, t.jobs[j]);
      } else {
        hide Inv, Apply, Enabled;
        MarkedBySomeStep(next, steps[1..], t, j);
        var i :| 0 <= i < |steps[1..]| && StopsIt(steps[1..][i], j, t.jobs[j]);
        assert StopsIt(steps[i + 1], j, t.jobs[j]);
      }
    }
  }

  // ----- The code of one run is one committed claim -----

  function Attempts(r: int, outs: seq<Outcome>): seq<Step> {
    if outs == [] then [] else [Attempt(r, outs[0])] + Attempts(r, outs[1..])
  }

  lemma {:induction false} RunAppend(s: System, a: seq<Step>, m: System, b: seq<Step>, t: System)
    requires Run(s, a, m) && Run(m, b, t)
    ensures Run(s, a + b, t)
    decreases |a|
  {
    if a == [] {
      assert a + b == b;
    } else {
      assert (a + b)[1..] == a[1..] + b;
      RunAppend(Apply(s, a[0]), a[1..], m, b, t);
    }
  }

  lemma RunBetween(s: System, first: Step, a: System, middle: seq<Step>, b: System, last: Step)
    requires Enabled(s, first) && a == Apply(s, first) && Run(a, middle, b) && Enabled(b, last)
    ensures Run(s, [first] + (middle + [last]), Apply(b, last))
  {
    hide Enabled, Apply;
    var t := Apply(b, last);
    assert Run(t, [], t);
    assert [last][1..] == [] && Run(b, [last], t);
    RunAppend(a, middle, b, [last], t);
    assert ([first] + (middle + [last]))[1..] == middle + [last];
  }

  lemma {:induction false} AttemptsRun(s: System, r: int, outs: seq<Outcome>)
    requires r in s.claims && !OnlyCloses(s.claims[r].row)
    requires |s.claims[r].outs| + |outs| <= |Chunk(s.claims[r].row)|
    ensures Run(s, Attempts(r, outs), s.(claims := s.claims[r := s.claims[r].(outs := s.claims[r].outs + outs)]))
    decreases |outs|
  {
    var c := s.claims[r];
    if outs == [] {
      assert c.outs + outs == c.outs && s.claims[r := c] == s.claims;
    } else {
      hide Chunk;
      var next := Apply(s, Attempt(r, outs[0]));
      AttemptsRun(next, r, outs[1..]);
      assert c.outs + [outs[0]] + outs[1..] == c.outs + outs;
      assert next.claims[r := c.(outs := c.outs + outs)] == s.claims[r := c.(outs := c.outs + outs)];
    }
  }

  /**
   * What the method RunOnce does to the job table is what a free replica does to it by claiming the
   * job, attempting its chunk and committing, whatever the other replicas hold meanwhile.
   */
  lemma RunOnceIsARun(s: System, r: int, j: int, outs: seq<Outcome>) returns (steps: seq<Step>, t: System)
    requires Inv(s) && r !in s.claims && Claimable(s.jobs, Locked(s), j)
    requires OnlyCloses(s.jobs[j]) ==> outs == []
    requires !OnlyCloses(s.jobs[j]) ==> |outs| == |Chunk(s.jobs[j])|
    ensures Run(s, steps, t) && t.claims == s.claims
    ensures t.jobs == s.jobs[j := if OnlyCloses(s.jobs[j]) then Close(s.jobs[j], s.jobs[j])
                                  else Advance(s.jobs[j], s.jobs[j], outs)]
  {
    hide Inv, Advance, Chunk;
    var begun := Apply(s, Begin(r, j));
    var tried := begun.(claims := begun.claims[r := Claim(j, s.jobs[j], outs)]);
    if OnlyCloses(s.jobs[j]) {
      assert begun.claims[r := Claim(j, s.jobs[j], outs)] == begun.claims;
      assert Run(begun, Attempts(r, outs), tried);
    } else {
      AttemptsRun(begun, r, outs);
      assert [] + outs == outs;
    }
    t := Apply(tried, Commit(r));
    assert t.claims == s.claims;
    steps := [Begin(r, j)] + (Attempts(r, outs) + [Commit(r)]);
    RunBetween(s, Begin(r, j), begun, Attempts(r, outs), tried, Commit(r));
  }
}
