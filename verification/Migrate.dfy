/** Schema migrations: one replica at a time under an advisory lock, with crashes between scripts. */
module Migrate {
  import opened Options
  import opened Sequences

  datatype Migration = Migration(version: int, up: string, down: string)

  /** The list as it is loaded: one entry a version, in ascending order. */
  predicate Sorted(migs: seq<Migration>) {
    forall i, j :: 0 <= i < j < |migs| ==> migs[i].version < migs[j].version
  }

  datatype Script = UpScript(version: int) | DownScript(version: int)

  /** COALESCE(MAX(version), 0). */
  predicate IsCurrent(versions: set<int>, c: int) {
    if versions == {} then c == 0 else c in versions && forall v :: v in versions ==> v <= c
  }

  predicate Due(m: Migration, current: int) { m.version > current && m.up != "" }

  /** The versions that are due, in the order of the list. */
  function Pending(migs: seq<Migration>, current: int): seq<int> {
    if migs == [] then []
    else (if Due(migs[0], current) then [migs[0].version] else []) + Pending(migs[1..], current)
  }

  predicate Ascending(vs: seq<int>) { forall i, j :: 0 <= i < j < |vs| ==> vs[i] < vs[j] }

  predicate Runnable(migs: seq<Migration>, v: int, current: int) {
    exists i :: 0 <= i < |migs| && migs[i].version == v && v > current && migs[i].up != ""
  }

  lemma {:induction false} PendingMembers(migs: seq<Migration>, current: int, v: int)
    ensures v in Pending(migs, current) <==> Runnable(migs, v, current)
  {
    if migs != [] {
      PendingMembers(migs[1..], current, v);
      if Runnable(migs[1..], v, current) {
        var i :| 0 <= i < |migs[1..]| && migs[1..][i].version == v && migs[1..][i].up != "";
        assert migs[i + 1].version == v;
      }
      if Runnable(migs, v, current) {
        var i :| 0 <= i < |migs| && migs[i].version == v && migs[i].up != "";
        assert i > 0 ==> migs[1..][i - 1].version == v;
      }
    }
  }

  lemma {:induction false} PendingAscends(migs: seq<Migration>, current: int)
    requires Sorted(migs)
    ensures Ascending(Pending(migs, current))
    ensures forall i :: 0 <= i < |Pending(migs, current)| ==> Pending(migs, current)[i] > current
    ensures forall i :: 0 <= i < |Pending(migs, current)| ==> Pending(migs, current)[i] >= migs[0].version
  {
    if |migs| > 1 {
      PendingAscends(migs[1..], current);
    }
  }

  /** What is due is exactly the versions above the current one that have an up script, in ascending order. */
  lemma PendingExactly(migs: seq<Migration>, current: int)
    requires Sorted(migs)
    ensures Ascending(Pending(migs, current))
    ensures forall v :: v in Pending(migs, current) <==> Runnable(migs, v, current)
    ensures forall v :: v in Pending(migs, current) ==> v > current
  {
    PendingAscends(migs, current);
    forall v ensures v in Pending(migs, current) <==> Runnable(migs, v, current) {
      PendingMembers(migs, current, v);
    }
  }

  function SetOf(vs: seq<int>): set<int> { set v | v in vs }

  function Ups(vs: seq<int>): (s: seq<Script>)
    ensures |s| == |vs| && forall i :: 0 <= i < |s| ==> s[i] == UpScript(vs[i])
  {
    seq(|vs|, i requires 0 <= i < |vs| => UpScript(vs[i]))
  }

  // ----- The code -----

  class Migrator {
    var versions: set<int>       // the rows of schema_migrations
    var log: seq<Script>         // the scripts whose transactions committed
    const migrations: seq<Migration>

    constructor (migrations: seq<Migration>, versions: set<int>)
      ensures this.migrations == migrations && this.versions == versions && log == []
    {
      this.migrations, this.versions, log := migrations, versions, [];
    }

    /** applyMigration: the script and its version row in one transaction; the row's key is unique. */
    method ApplyMigration(mig: Migration, fails: bool) returns (ok: bool)
      modifies `versions, `log
      ensures ok <==> !fails && mig.version !in old(versions)
      ensures versions == (if ok then old(versions) + {mig.version} else old(versions))
      ensures log == (if ok then old(log) + [UpScript(mig.version)] else old(log))
    {
      if fails || mig.version in versions { return false; }
      versions := versions + {mig.version};
      log := log + [UpScript(mig.version)];
      return true;
    }

    /** Up, once the lock is held: `current` was read under it; one version's transaction may fail. */
    method Up(current: int, failing: Option<int>) returns (ok: bool)
      requires Sorted(migrations) && IsCurrent(versions, current)
      modifies `versions, `log
      ensures var due := Pending(migrations, current);
        var n := if failing.Some? then FirstAt(due, failing.value) else |due|;
        && ok == (n == |due|)
        && versions == old(versions) + SetOf(due[..n])
        && log == old(log) + Ups(due[..n])
    {
      hide Pending, Ascending, SetOf, FirstAt;
      ghost var due := Pending(migrations, current);
      ghost var done: seq<int> := [];
      PendingExactly(migrations, current);
      NothingDone(migrations, current);
      for i := 0 to |migrations|
        invariant due == done + Pending(migrations[i..], current)
        invariant versions == old(versions) + SetOf(done) && log == old(log) + Ups(done)
        invariant failing.Some? ==> failing.value !in done
        invariant forall v :: v in done ==> v in versions
        invariant forall v :: v in versions ==> v <= current || v in done
      {
        PendingOneMore(migrations, i, current);
        var mig := migrations[i];
        if mig.version <= current { continue; }
        if mig.up == "" { continue; }
        DoneSoFar(done, mig.version, Pending(migrations[i + 1..], current), due, failing);
        var applied := ApplyMigration(mig, failing == Some(mig.version));
        if !applied { return false; }
        done := done + [mig.version];
      }
      AllDone(migrations, current, done, failing);
      return true;
    }

    /** Down: takes no lock. */
    method Down(current: int, fails: bool) returns (ok: bool)
      requires IsCurrent(versions, current)
      modifies `versions, `log
      ensures ok <==> CanGoDown(migrations, current) && !fails
      ensures ok ==> current in old(versions)
      ensures ok ==> exists i :: 0 <= i < |migrations| && migrations[i].version == current && migrations[i].down != ""
      ensures versions == (if ok then old(versions) - {current} else old(versions))
      ensures log == (if ok then old(log) + [DownScript(current)] else old(log))
    {
      if current == 0 { return false; }
      var target: Option<Migration> := None;
      var i := 0;
      while i < |migrations| && target.None?
        invariant 0 <= i <= |migrations|
        invariant target.None? ==> forall j :: 0 <= j < i ==> migrations[j].version != current
        invariant target.Some? ==> 0 < i && migrations[i - 1] == target.value && target.value.version == current
        invariant target.Some? ==> forall j :: 0 <= j < i - 1 ==> migrations[j].version != current
      {
        if migrations[i].version == current { target := Some(migrations[i]); }
        i := i + 1;
      }
      if target.None? { return false; }
      if target.value.down == "" { return false; }
      if fails { return false; }
      versions := versions - {current};
      log := log + [DownScript(current)];
      return true;
    }
  }

  lemma NothingDone(migs: seq<Migration>, current: int)
    ensures Pending(migs[0..], current) == Pending(migs, current) && SetOf([]) == {}
  {
    assert migs[0..] == migs;
  }

  lemma PendingOneMore(migs: seq<Migration>, i: nat, current: int)
    requires i < |migs|
    ensures Pending(migs[i..], current)
      == (if Due(migs[i], current) then [migs[i].version] else []) + Pending(migs[i + 1..], current)
  {
    assert migs[i..][1..] == migs[i + 1..];
  }

  lemma AllDone(migs: seq<Migration>, current: int, done: seq<int>, failing: Option<int>)
    requires Pending(migs, current) == done + Pending(migs[|migs|..], current)
    requires failing.Some? ==> failing.value !in done
    ensures var due := Pending(migs, current);
      due == done && done[..|done|] == done && (failing.Some? ==> FirstAt(due, failing.value) == |due|)
  {
    assert migs[|migs|..] == [];
    if failing.Some? {
      NowhereAt(done, failing.value);
    }
  }

  lemma DoneSoFar(done: seq<int>, v: int, rest: seq<int>, due: seq<int>, failing: Option<int>)
    requires due == done + ([v] + rest) && Ascending(due) && (failing.Some? ==> failing.value !in done)
    ensures due == (done + [v]) + rest && due[..|done|] == done
    ensures SetOf(done + [v]) == SetOf(done) + {v} && Ups(done + [v]) == Ups(done) + [UpScript(v)]
    ensures v !in done && |done| < |due| && (failing == Some(v) ==> FirstAt(due, failing.value) == |done|)
  {
    assert due[|done|] == v;
    forall i | 0 <= i < |done| ensures done[i] != v {
      assert due[i] < due[|done|];
    }
    FirstAtIs(due, |done|);
  }

  /** The first entry with the current version has a down script. */
  predicate CanGoDown(migs: seq<Migration>, current: int) {
    current != 0
    && exists i :: (0 <= i < |migs| && migs[i].version == current && migs[i].down != ""
                    && forall j :: 0 <= j < i ==> migs[j].version != current)
  }

  /** The versions recorded once Up has gone through. */
  function Upgraded(versions: set<int>, migs: seq<Migration>, current: int): set<int> {
    versions + SetOf(Pending(migs, current))
  }

  /** Running Up again finds nothing to do. */
  lemma UpIsIdempotent(versions: set<int>, migs: seq<Migration>, current: int, next: int)
    requires Sorted(migs) && IsCurrent(versions, current) && IsCurrent(Upgraded(versions, migs, current), next)
    ensures Pending(migs, next) == []
  {
    PendingExactly(migs, current);
    PendingExactly(migs, next);
    assert versions != {} ==> current in Upgraded(versions, migs, current);
    assert next >= current;
    assert forall v :: Runnable(migs, v, next) ==> Runnable(migs, v, current);
    assert forall v :: v in Pending(migs, next) ==> v in Upgraded(versions, migs, current);
    HasMember(Pending(migs, next));
  }

  lemma HasMember(vs: seq<int>)
    ensures vs != [] ==> exists v :: v in vs
  {
    if vs != [] {
      var v := vs[0];
      assert v in vs;
    }
  }

  /**
   * Rolling back the last version and going up again restores the recorded versions exactly if the
   * last version has an up script in the list and nothing else is due after the rollback. What else
   * can be due are versions that were never recorded, left out because they came into the list late.
   */
  lemma DownThenUpExactly(versions: set<int>, migs: seq<Migration>, current: int, below: int)
    requires Sorted(migs) && current > 0 && IsCurrent(versions, current) && IsCurrent(versions - {current}, below)
    ensures Upgraded(versions - {current}, migs, below) == versions <==>
      (Runnable(migs, current, 0) && forall v :: Runnable(migs, v, below) ==> v == current)
  {
    PendingExactly(migs, below);
    var due := Pending(migs, below);
    var end := Upgraded(versions - {current}, migs, below);
    assert below in versions - {current} || below == 0;
    assert Runnable(migs, current, 0) <==> Runnable(migs, current, below);
    assert current in end <==> current in due;
    if v :| Runnable(migs, v, below) && v != current {
      assert v in due && v in end;
      assert v !in versions;
    } else if current in due {
      assert SetOf(due) == {current};
      assert versions - {current} + {current} == versions;
    }
  }

  /** In particular if the database was brought up from nothing with this very list. */
  lemma DownThenUpFromScratch(migs: seq<Migration>, current: int, below: int)
    requires Sorted(migs) && current > 0
    requires IsCurrent(Upgraded({}, migs, 0), current) && IsCurrent(Upgraded({}, migs, 0) - {current}, below)
    ensures Upgraded(Upgraded({}, migs, 0) - {current}, migs, below) == Upgraded({}, migs, 0)
  {
    var versions := Upgraded({}, migs, 0);
    PendingExactly(migs, 0);
    assert current in Pending(migs, 0);
    assert below == 0 || below in Pending(migs, 0);
    forall v | Runnable(migs, v, below) ensures v == current {
      assert Runnable(migs, v, 0);
      assert v in versions && v > below;
      assert v != current ==> v in versions - {current};
    }
    DownThenUpExactly(versions, migs, current, below);
  }

  /** A version that came into the list late: rolling back and going up records one version more than before. */
  lemma LateVersionAppearsAfterDown()
    ensures var migs := [Migration(1, "a", "-a"), Migration(2, "b", "-b"), Migration(3, "c", "-c")];
      && Sorted(migs) && IsCurrent({1, 3}, 3) && CanGoDown(migs, 3) && IsCurrent({1, 3} - {3}, 1)
      && Pending(migs, 3) == [] && Upgraded({1, 3} - {3}, migs, 1) == {1, 2, 3}
  {
    var migs := [Migration(1, "a", "-a"), Migration(2, "b", "-b"), Migration(3, "c", "-c")];
    assert migs[2].version == 3 && migs[2].down != "";
    assert migs[1..] == [Migration(2, "b", "-b"), Migration(3, "c", "-c")];
    assert migs[1..][1..] == [Migration(3, "c", "-c")];
    assert Pending(migs[1..][1..], 3) == [] && Pending(migs[1..][1..], 1) == [3];
    assert Pending(migs[1..], 3) == [] && Pending(migs[1..], 1) == [2, 3];
    assert Pending(migs, 1) == [2, 3];
    assert {1, 3} - {3} == {1} && 1 in {1, 3} - {3};
  }

  // ----- Replicas -----

  /** Who holds the lock, and how far it has come: the version it read and the entries still to look at. */
  datatype Holder = Holder(replica: int, current: Option<int>, todo: seq<Migration>)

  datatype State = State(versions: set<int>, log: seq<Script>, lock: Option<Holder>, finished: set<int>)

  datatype Step =
    | Lock(replica: int)
    | ReadVersion(current: int)
    | Next                        // the next entry of the list: skipped, or applied and committed
    | Crash                       // or an error: the connection, and with it the lock, is gone
    | Finish

  predicate Enabled(s: State, step: Step) {
    match step
    case Lock(_) => s.lock.None?
    case ReadVersion(c) => s.lock.Some? && s.lock.value.current.None? && IsCurrent(s.versions, c)
    case Next =>
      && s.lock.Some? && s.lock.value.current.Some? && s.lock.value.todo != []
      && (Due(s.lock.value.todo[0], s.lock.value.current.value) ==> s.lock.value.todo[0].version !in s.versions)
    case Crash => s.lock.Some?
    case Finish => s.lock.Some? && s.lock.value.current.Some? && s.lock.value.todo == []
  }

  function Apply(s: State, step: Step, migs: seq<Migration>): State
    requires Enabled(s, step)
  {
    match step
    case Lock(r) => s.(lock := Some(Holder(r, None, migs)))
    case ReadVersion(c) => s.(lock := Some(s.lock.value.(current := Some(c))))
    case Next =>
      var m, rest := s.lock.value.todo[0], s.lock.value.(todo := s.lock.value.todo[1..]);
      if Due(m, s.lock.value.current.value)
      then s.(versions := s.versions + {m.version}, log := s.log + [UpScript(m.version)], lock := Some(rest))
      else s.(lock := Some(rest))
    case Crash => s.(lock := None)
    case Finish => s.(lock := None, finished := s.finished + {s.lock.value.replica})
  }

  predicate Run(s: State, steps: seq<Step>, migs: seq<Migration>, end: State)
    decreases |steps|
  {
    if steps == [] then s == end
    else Enabled(s, steps[0]) && Run(Apply(s, steps[0], migs), steps[1..], migs, end)
  }

  /** The log is the beginning of what was due at first, and what the holder still has to do is the rest. */
  ghost predicate Inv(s: State, versions: set<int>, due: seq<int>, migs: seq<Migration>) {
    && |s.log| <= |due| && s.log == Ups(due[..|s.log|])
    && s.versions == versions + SetOf(due[..|s.log|])
    && (s.lock.Some? && s.lock.value.current.Some? ==>
          Pending(s.lock.value.todo, s.lock.value.current.value) == due[|s.log|..])
    && (s.lock.Some? && s.lock.value.current.None? ==> s.lock.value.todo == migs)
    && (s.finished != {} ==> |s.log| == |due|)
  }

  /** Reading the version again later leaves exactly the rest of what was due. */
  lemma PendingLater(migs: seq<Migration>, versions: set<int>, current: int, k: nat, later: int)
    requires Sorted(migs) && IsCurrent(versions, current)
    requires k <= |Pending(migs, current)| && IsCurrent(versions + SetOf(Pending(migs, current)[..k]), later)
    ensures Pending(migs, later) == Pending(migs, current)[k..]
  {
    var due := Pending(migs, current);
    PendingAscends(migs, current);
    var now := versions + SetOf(due[..k]);
    assert forall i :: 0 <= i < k ==> due[i] in due[..k] && due[i] in now;
    assert versions != {} ==> current in now;
    assert later in versions || later in due[..k] || later == current;
    PendingRest(migs, current, later, k);
  }

  lemma {:induction false} PendingRest(migs: seq<Migration>, current: int, later: int, k: nat)
    requires current <= later && k <= |Pending(migs, current)|
    requires forall i :: 0 <= i < k ==> Pending(migs, current)[i] <= later
    requires forall i :: k <= i < |Pending(migs, current)| ==> Pending(migs, current)[i] > later
    ensures Pending(migs, later) == Pending(migs, current)[k..]
  {
    if migs != [] {
      var due, rest := Pending(migs, current), Pending(migs[1..], current);
      if Due(migs[0], current) {
        assert due[0] == migs[0].version && forall i :: 0 <= i < |rest| ==> rest[i] == due[i + 1];
        PendingRest(migs[1..], current, later, if k > 0 then k - 1 else 0);
      } else {
        assert due == rest;
        PendingRest(migs[1..], current, later, k);
      }
    }
  }

  lemma StepKeepsInv(s: State, step: Step, versions: set<int>, current: int, migs: seq<Migration>)
    requires Sorted(migs) && IsCurrent(versions, current)
    requires Inv(s, versions, Pending(migs, current), migs) && Enabled(s, step)
    ensures Inv(Apply(s, step, migs), versions, Pending(migs, current), migs)
  {
    var due, k := Pending(migs, current), |s.log|;
    match step
    case ReadVersion(c) => PendingLater(migs, versions, current, k, c);
    case Next =>
      if Due(s.lock.value.todo[0], s.lock.value.current.value) {
        assert due[k..][0] == s.lock.value.todo[0].version && due[k..][1..] == due[k + 1..];
        assert due[..k + 1] == due[..k] + [due[k]];
      }
    case _ =>
  }

  lemma {:induction false} RunKeepsInv(
      s: State, steps: seq<Step>, end: State, versions: set<int>, current: int, migs: seq<Migration>)
    requires Sorted(migs) && IsCurrent(versions, current)
    requires Inv(s, versions, Pending(migs, current), migs) && Run(s, steps, migs, end)
    ensures Inv(end, versions, Pending(migs, current), migs)
    decreases |steps|
  {
    hide Inv, Apply, Enabled;
    if steps != [] {
      StepKeepsInv(s, steps[0], versions, current, migs);
      RunKeepsInv(Apply(s, steps[0], migs), steps[1..], end, versions, current, migs);
    }
  }

  /**
   * Whatever replicas run and crash, the committed scripts are the first of those that were due, each
   * once and in ascending order; the recorded versions are the ones before and theirs; and once any
   * replica has gone through, all of them are.
   */
  lemma EachScriptCommitsOnce(versions: set<int>, current: int, migs: seq<Migration>, steps: seq<Step>, s: State)
    requires Sorted(migs) && IsCurrent(versions, current) && Run(State(versions, [], None, {}), steps, migs, s)
    ensures var due := Pending(migs, current);
      && Ascending(due) && |s.log| <= |due| && s.log == Ups(due[..|s.log|])
      && s.versions == versions + SetOf(due[..|s.log|])
      && (s.finished != {} ==> s.log == Ups(due) && s.versions == Upgraded(versions, migs, current))
  {
    var due := Pending(migs, current);
    PendingExactly(migs, current);
    assert versions + SetOf(due[..0]) == versions && due[..|due|] == due;
    RunKeepsInv(State(versions, [], None, {}), steps, s, versions, current, migs);
  }

  lemma InvLetsHolderGoOn(s: State, versions: set<int>, current: int, migs: seq<Migration>)
    requires Sorted(migs) && IsCurrent(versions, current) && Inv(s, versions, Pending(migs, current), migs)
    requires s.lock.Some? && s.lock.value.current.Some? && s.lock.value.todo != []
    ensures Enabled(s, Next)
  {
    var due, k := Pending(migs, current), |s.log|;
    PendingAscends(migs, current);
    hide Sorted;
    var m := s.lock.value.todo[0];
    if Due(m, s.lock.value.current.value) {
      assert due[k..][0] == m.version;
      assert forall i :: 0 <= i < k ==> due[i] < due[k];
    }
  }

  /** The uniqueness of the version rows is never what stops a replica: nobody else gets in its way. */
  lemma HolderNeverCollides(versions: set<int>, current: int, migs: seq<Migration>, steps: seq<Step>, s: State)
    requires Sorted(migs) && IsCurrent(versions, current) && Run(State(versions, [], None, {}), steps, migs, s)
    requires s.lock.Some? && s.lock.value.current.Some? && s.lock.value.todo != []
    ensures Enabled(s, Next)
  {
    assert versions + SetOf(Pending(migs, current)[..0]) == versions;
    RunKeepsInv(State(versions, [], None, {}), steps, s, versions, current, migs);
    hide Inv, Run, Enabled;
    InvLetsHolderGoOn(s, versions, current, migs);
  }
}
