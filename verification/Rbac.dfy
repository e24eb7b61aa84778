/** Managing accounts: who may create, change and delete whom, and what other requests can do meanwhile. */
module Rbac {
  import opened Options
  import opened Sequences

  const USER := "user"
  const ADMIN := "admin"
  const SUPERADMIN := "superadmin"

  function Trimmed(s: string): string { Trim(s, Space) }

  // ----- Roles -----

  predicate Valid(role: string) { role == USER || role == ADMIN || role == SUPERADMIN }

  predicate HasAdmin(roles: seq<string>) { ADMIN in roles || SUPERADMIN in roles }

  function TrimAll(roles: seq<string>): (r: seq<string>)
    ensures |r| == |roles| && forall i :: 0 <= i < |r| ==> r[i] == Trimmed(roles[i])
  {
    seq(|roles|, i requires 0 <= i < |roles| => Trimmed(roles[i]))
  }

  /** What normalizing makes of a list of roles: each once, trimmed, in order of appearance; "user" if there is none. */
  ghost predicate Normalized(roles: seq<string>, out: seq<string>) {
    var all := TrimAll(roles);
    if forall r :: r in all ==> r == "" then out == [USER]
    else
      && (forall r :: r in out <==> r in all && r != "")
      && (forall i, j :: 0 <= i < j < |out| ==> FirstAt(all, out[i]) < FirstAt(all, out[j]))
  }

  ghost predicate Illegal(roles: seq<string>) {
    exists r :: r in TrimAll(roles) && r != "" && !Valid(r)
  }

  /** normalizeRoles. */
  method NormalizeRoles(roles: seq<string>) returns (out: Option<seq<string>>)
    ensures out.None? <==> Illegal(roles)
    ensures out.None? <==>
      exists i :: 0 <= i < |roles| && Trimmed(roles[i]) !in {"", "user", "admin", "superadmin"}
    ensures out.Some? ==> Normalized(roles, out.value)
    ensures out.Some? ==> forall r :: r in out.value ==> r in {"user", "admin", "superadmin"}
  {
    hide Trimmed, FirstAt;
    ghost var all := TrimAll(roles);
    if |roles| == 0 {
      return Some([USER]);
    }
    var seen: set<string> := {};
    var result: seq<string> := [];
    for i := 0 to |roles|
      invariant forall r :: r in result <==> r in seen
      invariant forall r :: r in seen <==> r in all[..i] && r != ""
      invariant forall r :: r in all[..i] ==> r == "" || Valid(r)
      invariant forall j, k :: 0 <= j < k < |result| ==> FirstAt(all, result[j]) < FirstAt(all, result[k])
      invariant forall j :: 0 <= j < |result| ==> FirstAt(all, result[j]) < i
    {
      assert all[..i + 1] == all[..i] + [all[i]];
      var r := Trimmed(roles[i]);
      if r == "" { continue; }
      if !Valid(r) {
        assert all[i] in all;
        return None;
      }
      if r !in seen {
        FirstAtIs(all, i);
        seen := seen + {r};
        result := result + [r];
      }
    }
    assert all[..|roles|] == all;
    assert forall i :: 0 <= i < |roles| ==> all[i] in all && all[i] == Trimmed(roles[i]);
    if |result| == 0 { return Some([USER]); }
    assert result[0] in result;
    return Some(result);
  }

  // ----- Accounts and requests -----

  datatype Account = Account(id: int, tenant: int, roles: seq<string>, isAdmin: bool, disabled: bool, password: string)

  type Users = map<string, Account>

  datatype Table = Table(users: Users, nextId: int)

  /** The signed-in user that makes a request. */
  datatype Actor = Actor(name: string, tenant: int, super: bool)

  predicate Super(a: Option<Actor>) { a.Some? && a.value.super }

  datatype Request =
    | Create(name: string, password: string, tenant: int, roles: Option<seq<string>>)
    | Assign(name: string, tenant: int, roles: Option<seq<string>>)
    | SetDisabled(name: string, disabled: bool)
    | Delete(name: string)
    | ResetPassword(name: string, password: string)

  /** The statement that a request ends in, once its checks have passed. `guard` is written into its WHERE clause. */
  datatype Update =
    | Insert(name: string, password: string, tenant: int, roles: seq<string>)
    | UpdateRoles(name: string, tenant: int, roles: seq<string>, guard: Option<int>)
    | UpdateDisabled(name: string, disabled: bool, guard: Option<int>)
    | Remove(name: string)
    | UpdatePassword(name: string, password: string)

  predicate Acceptable(password: string) { 8 <= |password| <= 72 }

  /** resolveTarget: the tenant that the account is to belong to. */
  function ResolveTarget(a: Option<Actor>, wanted: int, roles: seq<string>, tenants: set<int>): Option<int> {
    if Super(a) then
      var t := if wanted <= 0 then a.value.tenant else wanted;
      if t in tenants then Some(t) else None
    else if SUPERADMIN in roles || a.None? then None
    else if wanted > 0 && wanted != a.value.tenant then None
    else Some(a.value.tenant)
  }

  /** The account is a plain one of the actor's tenant. */
  predicate Plain(u: Users, name: string, tenant: int) {
    name in u && u[name].tenant == tenant && !HasAdmin(u[name].roles)
  }

  predicate MayTouch(u: Users, a: Option<Actor>, name: string) {
    name in u && (Super(a) || (a.Some? && Plain(u, name, a.value.tenant)))
  }

  function Guard(a: Option<Actor>): Option<int> {
    if Super(a) || a.None? then None else Some(a.value.tenant)
  }

  /** The checks of a request against the accounts as they are now; `roles` come normalized. */
  function Checked(u: Users, tenants: set<int>, a: Option<Actor>, q: Request): Option<Update> {
    match q
    case Create(name, password, tenant, roles) =>
      if Trimmed(name) == "" || password == "" || !Acceptable(password) || roles.None? then None
      else
        var target := ResolveTarget(a, tenant, roles.value, tenants);
        if target.None? then None else Some(Insert(name, password, target.value, roles.value))
    case Assign(name, tenant, roles) =>
      if roles.None? || name !in u then None
      else
        var target := ResolveTarget(a, tenant, roles.value, tenants);
        if target.None? || !MayTouch(u, a, name) then None
        else Some(UpdateRoles(name, target.value, roles.value, Guard(a)))
    case SetDisabled(name, disabled) =>
      if (a.Some? && a.value.name == name && disabled) || (!Super(a) && !MayTouch(u, a, name)) then None
      else Some(UpdateDisabled(name, disabled, Guard(a)))
    case Delete(name) =>
      var n := Trimmed(name);
      if n == "" || (a.Some? && a.value.name == n) || !MayTouch(u, a, n) then None else Some(Remove(n))
    case ResetPassword(name, password) =>
      var n := Trimmed(name);
      if n == "" || !Acceptable(password) || !MayTouch(u, a, n) then None else Some(UpdatePassword(n, password))
  }

  predicate Passes(u: Users, name: string, guard: Option<int>) {
    name in u && (guard.Some? ==> Plain(u, name, guard.value))
  }

  /** Whether the statement finds its row, or for an INSERT the name free. */
  predicate Applies(t: Table, w: Update) {
    match w
    case Insert(name, _, _, _) => name !in t.users
    case UpdateRoles(name, _, _, guard) => Passes(t.users, name, guard)
    case UpdateDisabled(name, _, guard) => Passes(t.users, name, guard)
    case Remove(name) => name in t.users
    case UpdatePassword(name, _) => name in t.users
  }

  function Written(t: Table, w: Update): Table {
    if !Applies(t, w) then t else
      match w
      case Insert(name, password, tenant, roles) =>
        Table(t.users[name := Account(t.nextId, tenant, roles, HasAdmin(roles), false, password)], t.nextId + 1)
      case UpdateRoles(name, tenant, roles, _) =>
        t.(users := t.users[name := t.users[name].(tenant := tenant, roles := roles, isAdmin := HasAdmin(roles))])
      case UpdateDisabled(name, disabled, _) => t.(users := t.users[name := t.users[name].(disabled := disabled)])
      case Remove(name) => t.(users := t.users - {name})
      case UpdatePassword(name, password) => t.(users := t.users[name := t.users[name].(password := password)])
  }

  /** A request that nothing interferes with. */
  function Served(t: Table, tenants: set<int>, a: Option<Actor>, q: Request): Table {
    var w := Checked(t.users, tenants, a, q);
    if w.None? then t else Written(t, w.value)
  }

  function Without(rows: set<(int, string)>, user: string): set<(int, string)> {
    set r | r in rows && r.1 != user
  }

  // ----- The code -----

  class Service {
    var table: Table
    var memberships: set<(int, string)>     // team_members: team and user
    var fieldValues: set<(int, string)>     // user_field_values: field and user
    const tenants: set<int>

    constructor (table: Table, memberships: set<(int, string)>, fieldValues: set<(int, string)>, tenants: set<int>)
      ensures this.table == table && this.tenants == tenants
      ensures this.memberships == memberships && this.fieldValues == fieldValues
    {
      this.table, this.tenants := table, tenants;
      this.memberships, this.fieldValues := memberships, fieldValues;
    }

    method Create(a: Option<Actor>, name: string, password: string, tenant: int, roles: seq<string>)
      returns (id: Option<int>, ghost norm: Option<seq<string>>)
      modifies `table
      ensures norm.None? <==> Illegal(roles)
      ensures norm.Some? ==> Normalized(roles, norm.value)
      ensures table == Served(old(table), tenants, a, Request.Create(name, password, tenant, norm))
      ensures id.Some? <==>
        (&& Trimmed(name) != "" && 8 <= |password| <= 72 && norm.Some? && name !in old(table).users && a.Some?
         && (if a.value.super then (if tenant <= 0 then a.value.tenant else tenant) in tenants
             else "superadmin" !in norm.value && (tenant <= 0 || tenant == a.value.tenant)))
      ensures id.Some? ==> table == Table(
        old(table).users[name := Account(
          old(table).nextId, if tenant <= 0 then a.value.tenant else tenant, norm.value,
          "admin" in norm.value || "superadmin" in norm.value, false, password)],
        old(table).nextId + 1)
      ensures id.Some? <==> table != old(table)
      ensures id.Some? ==> name in table.users && table.users[name].id == id.value
    {
      var n := NormalizeRoles(roles);
      norm := n;
      if Trimmed(name) == "" || password == "" { return None, norm; }
      if !Acceptable(password) { return None, norm; }
      if n.None? { return None, norm; }
      var target := ResolveTarget(a, tenant, n.value, tenants);
      if target.None? { return None, norm; }
      var isAdmin := ADMIN in n.value || SUPERADMIN in n.value;
      if name in table.users { return None, norm; }
      id := Some(table.nextId);
      table := Table(
        table.users[name := Account(table.nextId, target.value, n.value, isAdmin, false, password)], table.nextId + 1);
    }

    method SetTenantRoles(a: Option<Actor>, name: string, tenant: int, roles: seq<string>)
      returns (ok: bool, ghost norm: Option<seq<string>>)
      modifies `table
      ensures norm.None? <==> Illegal(roles)
      ensures norm.Some? ==> Normalized(roles, norm.value)
      ensures table == Served(old(table), tenants, a, Assign(name, tenant, norm))
      ensures ok <==>
        (&& norm.Some? && name in old(table).users && a.Some?
         && (if a.value.super then (if tenant <= 0 then a.value.tenant else tenant) in tenants
             else
               && "superadmin" !in norm.value && (tenant <= 0 || tenant == a.value.tenant)
               && old(table).users[name].tenant == a.value.tenant
               && "admin" !in old(table).users[name].roles && "superadmin" !in old(table).users[name].roles))
      ensures table == if !ok then old(table) else old(table).(users := old(table).users[name :=
        old(table).users[name].(
          tenant := if tenant <= 0 then a.value.tenant else tenant, roles := norm.value,
          isAdmin := "admin" in norm.value || "superadmin" in norm.value)])
      ensures ok <==> Checked(old(table).users, tenants, a, Assign(name, tenant, norm)).Some?
    {
      var n := NormalizeRoles(roles);
      norm := n;
      if n.None? { return false, norm; }
      if name !in table.users { return false, norm; }
      var row := table.users[name];
      var target := ResolveTarget(a, tenant, n.value, tenants);
      if target.None? { return false, norm; }
      var nonSuper := a.None? || !a.value.super;
      if nonSuper {
        if a.None? || row.tenant != a.value.tenant { return false, norm; }
        if HasAdmin(row.roles) { return false, norm; }
      }
      var isAdmin := ADMIN in n.value || SUPERADMIN in n.value;
      table := table.(users := table.users[name := row.(tenant := target.value, roles := n.value, isAdmin := isAdmin)]);
      return true, norm;
    }

    method SetDisabled(a: Option<Actor>, name: string, disabled: bool) returns (ok: bool)
      modifies `table
      ensures table == Served(old(table), tenants, a, Request.SetDisabled(name, disabled))
      ensures ok <==> MayTouch(old(table).users, a, name) && !(disabled && a.Some? && a.value.name == name)
      ensures ok <==>
        (&& name in old(table).users && a.Some? && !(disabled && a.value.name == name)
         && (a.value.super
             || (old(table).users[name].tenant == a.value.tenant
                 && "admin" !in old(table).users[name].roles && "superadmin" !in old(table).users[name].roles)))
      ensures table == if !ok then old(table) else
        old(table).(users := old(table).users[name := old(table).users[name].(disabled := disabled)])
    {
      if a.Some? && a.value.name == name && disabled { return false; }
      var nonSuper := a.None? || !a.value.super;
      if nonSuper {
        if name !in table.users { return false; }
        if a.None? || table.users[name].tenant != a.value.tenant { return false; }
        if HasAdmin(table.users[name].roles) { return false; }
      }
      if name !in table.users { return false; }
      table := table.(users := table.users[name := table.users[name].(disabled := disabled)]);
      return true;
    }

    /** Memberships and field values go with the account; other users keep theirs. */
    method Delete(a: Option<Actor>, name: string) returns (ok: bool)
      modifies `table, `memberships, `fieldValues
      ensures memberships == (if ok then Without(old(memberships), Trimmed(name)) else old(memberships))
      ensures fieldValues == (if ok then Without(old(fieldValues), Trimmed(name)) else old(fieldValues))
      ensures table == Served(old(table), tenants, a, Request.Delete(name))
      ensures ok <==>
        (MayTouch(old(table).users, a, Trimmed(name)) && Trimmed(name) != ""
         && !(a.Some? && a.value.name == Trimmed(name)))
      ensures ok <==>
        (var n, users := Trimmed(name), old(table).users;
         && n != "" && n in users && a.Some? && a.value.name != n
         && (a.value.super
             || (users[n].tenant == a.value.tenant && "admin" !in users[n].roles && "superadmin" !in users[n].roles)))
      ensures table == if !ok then old(table) else old(table).(users := old(table).users - {Trimmed(name)})
    {
      var n := Trimmed(name);
      if n == "" { return false; }
      if a.Some? && a.value.name == n { return false; }
      if n !in table.users { return false; }
      if a.None? || !a.value.super {
        if a.None? || table.users[n].tenant != a.value.tenant { return false; }
        if HasAdmin(table.users[n].roles) { return false; }
      }
      memberships := Without(memberships, n);
      fieldValues := Without(fieldValues, n);
      table := table.(users := table.users - {n});
      return true;
    }

    method ResetPassword(a: Option<Actor>, name: string, password: string) returns (ok: bool)
      modifies `table
      ensures table == Served(old(table), tenants, a, Request.ResetPassword(name, password))
      ensures ok <==> Trimmed(name) != "" && Acceptable(password) && MayTouch(old(table).users, a, Trimmed(name))
      ensures ok <==>
        (var n, users := Trimmed(name), old(table).users;
         && n != "" && 8 <= |password| <= 72 && n in users && a.Some?
         && (a.value.super
             || (users[n].tenant == a.value.tenant && "admin" !in users[n].roles && "superadmin" !in users[n].roles)))
      ensures table == if !ok then old(table) else old(table).(users :=
        old(table).users[Trimmed(name) := old(table).users[Trimmed(name)].(password := password)])
    {
      var n := Trimmed(name);
      if n == "" || !Acceptable(password) { return false; }
      if n !in table.users { return false; }
      if a.None? || !a.value.super {
        if a.None? || table.users[n].tenant != a.value.tenant { return false; }
        if HasAdmin(table.users[n].roles) { return false; }
      }
      table := table.(users := table.users[n := table.users[n].(password := password)]);
      return true;
    }
  }

  // ----- Runs: other requests fall between the checks of a request and its statement -----

  /** A request whose checks have passed. */
  datatype Pending = Pending(actor: Option<Actor>, update: Update)

  datatype State = State(table: Table, pending: map<int, Pending>)

  datatype Step =
    | Check(call: int, actor: Option<Actor>, q: Request)
    | Write(call: int)

  function Apply(s: State, step: Step, tenants: set<int>): State {
    match step
    case Check(call, a, q) =>
      var w := Checked(s.table.users, tenants, a, q);
      if w.None? || call in s.pending then s else s.(pending := s.pending[call := Pending(a, w.value)])
    case Write(call) =>
      if call !in s.pending then s else State(Written(s.table, s.pending[call].update), s.pending - {call})
  }

  function After(s: State, steps: seq<Step>, tenants: set<int>): State
    decreases |steps|
  {
    if steps == [] then s else After(Apply(s, steps[0], tenants), steps[1..], tenants)
  }

  /** An undisturbed request is its check followed at once by its statement. */
  lemma ServedIsCheckThenWrite(s: State, call: int, a: Option<Actor>, q: Request, tenants: set<int>)
    requires call !in s.pending
    ensures After(s, [Check(call, a, q), Write(call)], tenants) == s.(table := Served(s.table, tenants, a, q))
  {
    var steps := [Check(call, a, q), Write(call)];
    assert steps[1..] == [Write(call)] && steps[1..][1..] == [];
    var s1 := Apply(s, steps[0], tenants);
    var s2 := Apply(s1, Write(call), tenants);
    assert After(s, steps, tenants) == After(s1, [Write(call)], tenants) == After(s2, [], tenants);
    assert s2.pending == s.pending;
  }

  /** is_admin says what the roles say, and ids are not handed out twice. */
  ghost predicate Consistent(t: Table) {
    forall n :: n in t.users ==>
      && (t.users[n].isAdmin <==> "admin" in t.users[n].roles || "superadmin" in t.users[n].roles)
      && t.users[n].id < t.nextId
  }

  lemma {:induction false} RunKeepsConsistent(s: State, steps: seq<Step>, tenants: set<int>)
    requires Consistent(s.table)
    ensures Consistent(After(s, steps, tenants).table)
    decreases |steps|
  {
    if steps != [] {
      RunKeepsConsistent(Apply(s, steps[0], tenants), steps[1..], tenants);
    }
  }

  /** All actors of a run, and of the requests in progress, are non-superadmins of the given tenants. */
  predicate ActsFrom(a: Option<Actor>, home: set<int>) { a.Some? ==> !a.value.super && a.value.tenant in home }

  ghost predicate ActorsFrom(s: State, steps: seq<Step>, home: set<int>) {
    && (forall i :: 0 <= i < |steps| && steps[i].Check? ==> ActsFrom(steps[i].actor, home))
    && (forall c :: c in s.pending ==> Harmless(s.table.users, s.pending[c].update, home))
  }

  predicate IsSuper(a: Account) { "superadmin" in a.roles }

  /** The statement can only touch accounts of these tenants that are no superadmins, and makes none. */
  predicate Harmless(u: Users, w: Update, home: set<int>) {
    match w
    case Insert(_, _, tenant, roles) => tenant in home && SUPERADMIN !in roles
    case UpdateRoles(_, tenant, roles, guard) =>
      SUPERADMIN !in roles && guard.Some? && guard.value == tenant && tenant in home
    case UpdateDisabled(_, _, guard) => guard.Some? && guard.value in home
    case Remove(name) => Exposed(u, name, home)
    case UpdatePassword(name, _) => Exposed(u, name, home)
  }

  predicate Exposed(u: Users, name: string, home: set<int>) {
    name in u ==> u[name].tenant in home && !IsSuper(u[name])
  }

  predicate OutOfReach(u: Users, name: string, home: set<int>) {
    name in u && (IsSuper(u[name]) || u[name].tenant !in home)
  }

  /** Superadmins and accounts of tenants outside `home` are the same in both. */
  ghost predicate SameElsewhere(u: Users, v: Users, home: set<int>) {
    forall n :: OutOfReach(u, n, home) || OutOfReach(v, n, home) ==> n in u && n in v && u[n] == v[n]
  }

  lemma CheckedIsHarmless(u: Users, tenants: set<int>, a: Option<Actor>, q: Request, home: set<int>)
    requires ActsFrom(a, home) && Checked(u, tenants, a, q).Some?
    ensures Harmless(u, Checked(u, tenants, a, q).value, home)
  {
  }

  lemma WriteIsHarmless(t: Table, w: Update, home: set<int>)
    requires Harmless(t.users, w, home)
    ensures SameElsewhere(t.users, Written(t, w).users, home)
    ensures forall w' :: Harmless(t.users, w', home) ==> Harmless(Written(t, w).users, w', home)
  {
  }

  /**
   * While only non-superadmins act, and however their checks and statements interleave, no superadmin
   * appears, disappears or is changed, and neither does any account of a tenant that none of them is in.
   */
  lemma {:induction false} OthersStayUntouched(s: State, steps: seq<Step>, tenants: set<int>, home: set<int>)
    requires ActorsFrom(s, steps, home)
    ensures SameElsewhere(s.table.users, After(s, steps, tenants).table.users, home)
    decreases |steps|
  {
    if steps != [] {
      var next := Apply(s, steps[0], tenants);
      StepIsHarmless(s, steps[0], steps[1..], tenants, home);
      OthersStayUntouched(next, steps[1..], tenants, home);
    }
  }

  lemma StepIsHarmless(s: State, step: Step, rest: seq<Step>, tenants: set<int>, home: set<int>)
    requires ActorsFrom(s, [step] + rest, home)
    ensures ActorsFrom(Apply(s, step, tenants), rest, home)
    ensures SameElsewhere(s.table.users, Apply(s, step, tenants).table.users, home)
  {
    hide Checked, Written, Harmless;
    assert ([step] + rest)[0] == step && forall i :: 0 <= i < |rest| ==> rest[i] == ([step] + rest)[i + 1];
    match step
    case Check(call, a, q) =>
      if Checked(s.table.users, tenants, a, q).Some? {
        CheckedIsHarmless(s.table.users, tenants, a, q, home);
      }
    case Write(call) =>
      if call in s.pending {
        WriteIsHarmless(s.table, s.pending[call].update, home);
      }
  }

  /** An account never changes its tenant in such a run; a name can, if it is deleted and created anew. */
  lemma {:induction false} TenantsStay(
      s: State, steps: seq<Step>, tenants: set<int>, home: set<int>, name: string, id: int)
    requires ActorsFrom(s, steps, home) && Consistent(s.table) && id < s.table.nextId
    ensures var v := After(s, steps, tenants).table.users;
      name in v && v[name].id == id ==>
        name in s.table.users && s.table.users[name].id == id && v[name].tenant == s.table.users[name].tenant
    decreases |steps|
  {
    if steps != [] {
      var next := Apply(s, steps[0], tenants);
      assert steps == [steps[0]] + steps[1..];
      StepIsHarmless(s, steps[0], steps[1..], tenants, home);
      TenantsStay(next, steps[1..], tenants, home, name, id);
    }
  }

  /** The guard makes the check unnecessary: the statement touches a plain account of the actor's tenant, or nothing. */
  lemma GuardedWritesNeedNoCheck(t: Table, u: Users, tenants: set<int>, a: Actor, q: Request, name: string)
    requires !a.super && (q.Assign? || q.SetDisabled?) && Checked(u, tenants, Some(a), q).Some?
    requires name in t.users || name in Written(t, Checked(u, tenants, Some(a), q).value).users
    ensures var v := Written(t, Checked(u, tenants, Some(a), q).value).users;
      && name in t.users && name in v
      && (v[name] != t.users[name] ==>
            && name == q.name && t.users[name].tenant == a.tenant && v[name].tenant == a.tenant
            && "admin" !in t.users[name].roles && "superadmin" !in t.users[name].roles)
  {
  }

  // ----- What can happen to a name between a check and its statement -----

  /** What the steps of a run did to a name: nothing to its tenant and roles, removed it, or gave it these. */
  datatype Fate = Kept | Gone | Given(tenant: int, roles: seq<string>)

  /** What one step does to a name; statements that do not take effect do nothing. */
  function FateOf(s: State, step: Step, name: string): Fate {
    if !step.Write? || step.call !in s.pending || !Applies(s.table, s.pending[step.call].update) then Kept
    else match s.pending[step.call].update
      case Insert(n, _, tenant, roles) => if n == name then Given(tenant, roles) else Kept
      case UpdateRoles(n, tenant, roles, _) => if n == name then Given(tenant, roles) else Kept
      case Remove(n) => if n == name then Gone else Kept
      case _ => Kept
  }

  /** The last of these effects in a run. */
  function LastFate(s: State, steps: seq<Step>, tenants: set<int>, name: string): Fate
    decreases |steps|
  {
    if steps == [] then Kept
    else
      var later := LastFate(Apply(s, steps[0], tenants), steps[1..], tenants, name);
      if later.Kept? then FateOf(s, steps[0], name) else later
  }

  predicate Shows(before: Users, after: Users, name: string, f: Fate) {
    match f
    case Kept =>
      (name in after <==> name in before)
      && (name in after ==> after[name].tenant == before[name].tenant && after[name].roles == before[name].roles)
    case Gone => name !in after
    case Given(tenant, roles) => name in after && after[name].tenant == tenant && after[name].roles == roles
  }

  lemma StepShowsFate(s: State, step: Step, tenants: set<int>, name: string)
    ensures Shows(s.table.users, Apply(s, step, tenants).table.users, name, FateOf(s, step, name))
  {
    hide Checked;
  }

  lemma {:induction false} RunShowsFate(s: State, steps: seq<Step>, tenants: set<int>, name: string)
    ensures Shows(s.table.users, After(s, steps, tenants).table.users, name, LastFate(s, steps, tenants, name))
    decreases |steps|
  {
    hide Apply, FateOf;
    if steps != [] {
      StepShowsFate(s, steps[0], tenants, name);
      RunShowsFate(Apply(s, steps[0], tenants), steps[1..], tenants, name);
    }
  }

  lemma {:induction false} PendingWaits(s: State, steps: seq<Step>, tenants: set<int>, call: int)
    requires call in s.pending && forall i :: 0 <= i < |steps| ==> steps[i] != Write(call)
    ensures call in After(s, steps, tenants).pending && After(s, steps, tenants).pending[call] == s.pending[call]
    decreases |steps|
  {
    if steps != [] {
      PendingWaits(Apply(s, steps[0], tenants), steps[1..], tenants, call);
    }
  }

  /** The statement finds an account, though its actor may not touch it. */
  predicate Trespasses(u: Users, a: Actor, w: Update) {
    (w.Remove? || w.UpdatePassword?) && w.name in u && !MayTouch(u, Some(a), w.name)
  }

  /**
   * Delete and ResetPassword do not check again. Whatever other requests do between the check of a
   * non-superadmin and the statement, the statement hits an account that this actor may not touch
   * exactly if the last thing that was done to the name meanwhile, of creating or removing the account
   * or changing its tenant and roles, gave it another tenant or an admin role.
   */
  lemma TrespassExactly(s: State, call: int, a: Actor, q: Request, steps: seq<Step>, tenants: set<int>)
    requires !a.super && (q.Delete? || q.ResetPassword?) && call !in s.pending
    requires Checked(s.table.users, tenants, Some(a), q).Some?
    requires forall i :: 0 <= i < |steps| ==> steps[i] != Write(call)
    ensures var first := Apply(s, Check(call, Some(a), q), tenants);
      var end, w := After(first, steps, tenants), Checked(s.table.users, tenants, Some(a), q).value;
      var f := LastFate(first, steps, tenants, w.name);
      && call in end.pending && end.pending[call] == Pending(Some(a), w)
      && (Trespasses(end.table.users, a, w) <==> 
            f.Given? && (f.tenant != a.tenant || "admin" in f.roles || "superadmin" in f.roles))
  {
    var first := Apply(s, Check(call, Some(a), q), tenants);
    var w := Checked(s.table.users, tenants, Some(a), q).value;
    PendingWaits(first, steps, tenants, call);
    RunShowsFate(first, steps, tenants, w.name);
  }

  /** A deletion that passes its check in one tenant and removes an account of another. */
  lemma DeleteHitsAnotherTenant(tenants: set<int>)
    ensures var s := State(Table(map["bob" := Account(1, 1, [USER], false, false, "password")], 2), map[]);
      var one, two := Some(Actor("ann", 1, false)), Some(Actor("eve", 2, false));
      var before := [Check(1, one, Delete("bob")), Check(2, one, Delete("bob")), Write(2),
                     Check(3, two, Create("bob", "password", 2, Some([USER]))), Write(3)];
      && After(s, before, tenants).table.users == map["bob" := Account(2, 2, [USER], false, false, "password")]
      && After(s, before + [Write(1)], tenants).table.users == map[]
  {
    var s := State(Table(map["bob" := Account(1, 1, [USER], false, false, "password")], 2), map[]);
    var one, two := Some(Actor("ann", 1, false)), Some(Actor("eve", 2, false));
    var create := Request.Create("bob", "password", 2, Some([USER]));
    NamesAreTrimmed();
    var w := Pending(one, Remove("bob"));
    var s1 := s.(pending := map[1 := w]);
    var s2 := s.(pending := map[1 := w, 2 := w]);
    var s3 := State(Table(map[], 2), map[1 := w]);
    var s4 := s3.(pending := map[1 := w, 3 := Pending(two, Insert("bob", "password", 2, [USER]))]);
    var s5 := State(Table(map["bob" := Account(2, 2, [USER], false, false, "password")], 3), map[1 := w]);
    assert Apply(s, Check(1, one, Delete("bob")), tenants) == s1;
    assert Apply(s1, Check(2, one, Delete("bob")), tenants) == s2;
    assert Apply(s2, Write(2), tenants) == s3;
    assert Apply(s3, Check(3, two, create), tenants) == s4;
    assert Apply(s4, Write(3), tenants) == s5;
    assert Apply(s5, Write(1), tenants).table.users == map[];
    FiveThenOne(s, Check(1, one, Delete("bob")), Check(2, one, Delete("bob")), Write(2),
                Check(3, two, create), Write(3), Write(1), tenants);
  }

  lemma NamesAreTrimmed()
    ensures Trimmed("bob") == "bob"
  {
    TrimKeepsExactly("bob", Space);
  }

  lemma FiveThenOne(s: State, a: Step, b: Step, c: Step, d: Step, e: Step, f: Step, tenants: set<int>)
    ensures var end := Apply(Apply(Apply(Apply(Apply(s, a, tenants), b, tenants), c, tenants), d, tenants), e, tenants);
      && After(s, [a, b, c, d, e], tenants) == end
      && After(s, [a, b, c, d, e] + [f], tenants) == Apply(end, f, tenants)
  {
    assert After(s, [], tenants) == s;
    OneMore(s, [], a, tenants);
    OneMore(s, [a], b, tenants);
    OneMore(s, [a, b], c, tenants);
    OneMore(s, [a, b, c], d, tenants);
    OneMore(s, [a, b, c, d], e, tenants);
    OneMore(s, [a, b, c, d, e], f, tenants);
    hide Apply, After;
    assert [] + [a] == [a] && [a] + [b] == [a, b] && [a, b] + [c] == [a, b, c];
    assert [a, b, c] + [d] == [a, b, c, d] && [a, b, c, d] + [e] == [a, b, c, d, e];
  }

  lemma {:induction false} OneMore(s: State, steps: seq<Step>, step: Step, tenants: set<int>)
    ensures After(s, steps + [step], tenants) == Apply(After(s, steps, tenants), step, tenants)
    decreases |steps|
  {
    hide Apply;
    if steps == [] {
      assert ([] + [step])[1..] == [];
    } else {
      assert (steps + [step])[1..] == steps[1..] + [step];
      OneMore(Apply(s, steps[0], tenants), steps[1..], step, tenants);
    }
  }

  /**
   * Names are stored as given but trimmed when an account is deleted or its password reset: an account
   * whose name has outer blanks can be created, and from then on neither request can ever reach it.
   */
  lemma PaddedNamesAreOutOfReach(
      t: Table, tenants: set<int>, a: Option<Actor>, name: string, other: string, password: string)
    requires name in t.users
    ensures OuterBlank(name, Space) ==>
      var deleted := Served(t, tenants, a, Delete(other)).users;
      var reset := Served(t, tenants, a, ResetPassword(other, password)).users;
      name in deleted && name in reset && deleted[name] == reset[name] == t.users[name]
  {
    TrimKeepsExactly(other, Space);
  }

  /** And only such names: an account that the actor may touch is deleted, or gets its password, unless it is padded. */
  lemma OtherNamesAreInReach(t: Table, tenants: set<int>, a: Actor, name: string, password: string)
    requires MayTouch(t.users, Some(a), name) && name != "" && a.name != name
    requires Acceptable(password) && password != t.users[name].password
    ensures name !in Served(t, tenants, Some(a), Delete(name)).users <==> !OuterBlank(name, Space)
    ensures var after := Served(t, tenants, Some(a), ResetPassword(name, password)).users;
      name in after && (after[name].password == password <==> !OuterBlank(name, Space))
  {
    TrimKeepsExactly(name, Space);
  }
}
