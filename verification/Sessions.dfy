/** Built-in sessions: issue times, the 30 second cache of account rows, and password changes. Times are nanoseconds. */
module Sessions {
  import opened Options
  import opened Sequences

  const MILLISECOND: nat := 1_000_000
  const SECOND: nat := 1_000_000_000
  const TTL: nat := 30 * SECOND
  const MAX_AGE: nat := 7 * 24 * 3600 * SECOND

  type Profile = string    // display name, role and tenant columns

  datatype Row = Row(hash: string, disabled: bool, profile: Profile, updatedAt: nat)

  datatype Entry = Entry(row: Row, cachedAt: nat)

  /** A session whose signature holds: expiry in seconds, issue time in milliseconds (0 in old ones). */
  datatype Session = Session(user: string, exp: nat, iat: nat)

  // ----- Issue times -----

  function IssuedAt(s: Session): int {
    if s.iat > 0 then s.iat * MILLISECOND else s.exp * SECOND - MAX_AGE
  }

  /** signAt: the issue time rounded up to a millisecond. */
  function SignAt(user: string, issue: nat, now: nat): Session {
    Session(user, (now + MAX_AGE) / SECOND, (issue + 999_999) / MILLISECOND)
  }

  predicate Expired(s: Session, now: nat) { now / SECOND > s.exp }

  /** Rounding never makes a session look older than it is, nor a whole millisecond younger. */
  lemma IssueTimeRounding(user: string, issue: nat, now: nat)
    requires issue > 0
    ensures issue <= IssuedAt(SignAt(user, issue, now)) < issue + 1_000_000
    ensures now <= MAX_AGE + issue ==> !Expired(SignAt(user, issue, issue), now)
  {
    var ms := (issue + 999_999) / MILLISECOND;
    assert issue <= ms * MILLISECOND < issue + MILLISECOND;
  }

  /** What a looked-up row says about a session. */
  predicate Admits(row: Option<Row>, s: Session) {
    row.Some? && !row.value.disabled && IssuedAt(s) >= row.value.updatedAt
  }

  // ----- Tokens -----

  /** How payloads are written, and the keyed hash over what is written. */
  datatype Codec = Codec(encode: Session -> string, decode: string -> Option<Session>, mac: string -> string)

  ghost predicate Proper(k: Codec) {
    forall s :: k.decode(k.encode(s)) == Some(s) && '.' !in k.encode(s)
  }

  function Sign(k: Codec, s: Session): string { k.encode(s) + "." + k.mac(k.encode(s)) }

  /** verifyPayload: split at the first dot, check the hash, and only then decode. */
  function Verify(k: Codec, token: string, now: nat): Option<Session> {
    var i := FirstAt(token, '.');
    if i == |token| then None
    else if token[i + 1..] != k.mac(token[..i]) then None
    else
      var s := k.decode(token[..i]);
      if s.None? || Expired(s.value, now) then None else s
  }

  /** Accepted are exactly the unexpired payloads, without a dot, that carry their own hash. */
  lemma VerifiedExactly(k: Codec, token: string, now: nat, s: Session)
    ensures Verify(k, token, now) == Some(s) <==>
      exists p :: '.' !in p && token == p + "." + k.mac(p) && k.decode(p) == Some(s) && now / 1_000_000_000 <= s.exp
  {
    hide Expired;
    if p :| '.' !in p && token == p + "." + k.mac(p) && k.decode(p) == Some(s) && now / 1_000_000_000 <= s.exp {
      DotAfter(p, k.mac(p));
      NotExpired(s, now);
    }
    if Verify(k, token, now) == Some(s) {
      VerifiedParts(k, token, now, s);
    }
  }

  lemma NotExpired(s: Session, now: nat)
    ensures Expired(s, now) <==> now / 1_000_000_000 > s.exp
  {
  }

  lemma VerifiedParts(k: Codec, token: string, now: nat, s: Session)
    requires Verify(k, token, now) == Some(s)
    ensures var p := token[..FirstAt(token, '.')];
      '.' !in p && token == p + "." + k.mac(p) && k.decode(p) == Some(s) && now / 1_000_000_000 <= s.exp
  {
    NotExpired(s, now);
    if '.' !in token {
      NowhereAt(token, '.');
    }
    hide FirstAt, Expired;
    var i := FirstAt(token, '.');
    assert token == token[..i] + "." + token[i + 1..] && '.' !in token[..i];
  }

  lemma DotAfter(p: string, rest: string)
    requires '.' !in p
    ensures FirstAt(p + "." + rest, '.') == |p|
    ensures (p + "." + rest)[..|p|] == p && (p + "." + rest)[|p| + 1..] == rest
  {
    var token := p + "." + rest;
    assert token[|p|] == '.' && token[..|p|] == p;
    FirstAtIs(token, |p|);
  }

  /** A token that was signed gives back its payload until it expires. */
  lemma SignedVerifies(k: Codec, s: Session, now: nat)
    requires Proper(k)
    ensures Verify(k, Sign(k, s), now) == (if now / 1_000_000_000 <= s.exp then Some(s) else None)
  {
    DotAfter(k.encode(s), k.mac(k.encode(s)));
  }

  /** In times: a token minted at a moment is good for seven days, and no more than a second longer. */
  lemma SevenDays(k: Codec, user: string, issue: nat, minted: nat, now: nat)
    requires Proper(k)
    ensures now <= minted + 604_800 * 1_000_000_000 ==>
      Verify(k, Sign(k, SignAt(user, issue, minted)), now) == Some(SignAt(user, issue, minted))
    ensures now >= minted + 604_801 * 1_000_000_000 ==> Verify(k, Sign(k, SignAt(user, issue, minted)), now) == None
  {
    SignedVerifies(k, SignAt(user, issue, minted), now);
  }

  // ----- The code -----

  type Rows = map<string, Row>
  type Cache = map<string, Entry>

  predicate Hit(cache: Cache, user: string, now: nat) {
    user in cache && now - cache[user].cachedAt < TTL
  }

  function RowOf(rows: Rows, user: string): Option<Row> { if user in rows then Some(rows[user]) else None }

  /** The row that a lookup returns. */
  function Answer(rows: Rows, cache: Cache, user: string, now: nat): Option<Row> {
    if Hit(cache, user, now) then Some(cache[user].row) else RowOf(rows, user)
  }

  /** The cache that a lookup leaves behind. */
  function Looked(rows: Rows, cache: Cache, user: string, now: nat): Cache {
    if Hit(cache, user, now) || user !in rows then cache else cache[user := Entry(rows[user], now)]
  }

  function Evicted(cache: Cache, now: nat): Cache {
    map u | u in cache && !(now - cache[u].cachedAt > 2 * TTL) :: cache[u]
  }

  /** Evicting entries never changes an answer, now or later. */
  lemma EvictionIsInvisible(rows: Rows, cache: Cache, user: string, now: nat, later: nat)
    requires now <= later
    ensures Answer(rows, Evicted(cache, now), user, later) == Answer(rows, cache, user, later)
  {
  }

  datatype ChangeError = Weak | Unknown | WrongPassword | Conflict

  class Builtin {
    var rows: Rows
    var cache: Cache
    const matches: (string, string) -> bool      // bcrypt: hash, password

    constructor (rows: Rows, matches: (string, string) -> bool)
      ensures this.rows == rows && cache == map[] && this.matches == matches
    {
      this.rows, cache, this.matches := rows, map[], matches;
    }

    method Lookup(user: string, now: nat) returns (row: Option<Row>)
      modifies `cache
      ensures row == Answer(rows, old(cache), user, now)
      ensures cache == Looked(rows, old(cache), user, now)
      ensures row == if user in old(cache) && now - old(cache)[user].cachedAt < 30_000_000_000
        then Some(old(cache)[user].row) else if user in rows then Some(rows[user]) else None
      ensures cache == if user !in rows || (user in old(cache) && now - old(cache)[user].cachedAt < 30_000_000_000)
        then old(cache) else old(cache)[user := Entry(rows[user], now)]
    {
      if user in cache && now - cache[user].cachedAt < TTL {
        return Some(cache[user].row);
      }
      if user !in rows { return None; }
      cache := cache[user := Entry(rows[user], now)];
      return Some(rows[user]);
    }

    method Authenticate(s: Session, now: nat) returns (profile: Option<Profile>)
      modifies `cache
      ensures profile.Some? <==>
        (var row := Answer(rows, old(cache), s.user, now);
         var issued := if s.iat > 0 then s.iat * 1_000_000 else (s.exp - 604_800) * 1_000_000_000;
         now / 1_000_000_000 <= s.exp && row.Some? && !row.value.disabled && issued >= row.value.updatedAt)
      ensures profile.Some? ==> profile.value == Answer(rows, old(cache), s.user, now).value.profile
      ensures cache == if now / 1_000_000_000 > s.exp then old(cache) else Looked(rows, old(cache), s.user, now)
    {
      if now / SECOND > s.exp { return None; }
      var row := Lookup(s.user, now);
      if row.None? { return None; }
      if row.value.disabled { return None; }
      if IssuedAt(s) < row.value.updatedAt { return None; }
      return Some(row.value.profile);
    }

    /** Login: always reads the row, and caches it. */
    method Login(user: string, password: string, now: nat) returns (s: Option<Session>)
      modifies `cache
      ensures s.Some? <==>
        user in rows && rows[user].hash != "" && !rows[user].disabled && matches(rows[user].hash, password)
      ensures s.Some? ==> s.value == SignAt(user, now, now)
      ensures s.Some? ==>
        s.value == Session(user, (now + 604_800 * 1_000_000_000) / 1_000_000_000, (now + 999_999) / 1_000_000)
      ensures cache == if s.Some? then old(cache)[user := Entry(rows[user], now)] else old(cache)
    {
      if user !in rows || rows[user].hash == "" { return None; }
      if rows[user].disabled { return None; }
      if !matches(rows[user].hash, password) { return None; }
      cache := cache[user := Entry(rows[user], now)];
      return Some(SignAt(user, now, now));
    }

    /**
     * ChangePassword. `valid` is the password policy, `hash` the new hash, and `meanwhile` are the rows
     * as other requests have left them when the UPDATE is carried out, which compares the hash again.
     */
    method ChangePassword(user: string, password: string, hash: string, valid: bool, meanwhile: Rows, now: nat)
      returns (error: Option<ChangeError>, s: Session)
      modifies `rows, `cache
      ensures var checked :=
        valid && user in old(rows) && !old(rows)[user].disabled && matches(old(rows)[user].hash, password);
        && (error.None? <==> checked && user in meanwhile && meanwhile[user].hash == old(rows)[user].hash)
        && (error == Some(Conflict) <==>
              checked && !(user in meanwhile && meanwhile[user].hash == old(rows)[user].hash))
        && rows == (if error.None? then meanwhile[user := meanwhile[user].(hash := hash, updatedAt := now)]
                    else if checked then meanwhile else old(rows))
      ensures error.None? ==> cache == old(cache)[user := Entry(rows[user], now)] && s == SignAt(user, now, now)
      ensures error.Some? ==> cache == old(cache)
    {
      s := Session(user, 0, 0);
      if !valid { return Some(Weak), s; }
      if user !in rows || rows[user].disabled { return Some(Unknown), s; }
      var current := rows[user].hash;
      if !matches(current, password) { return Some(WrongPassword), s; }
      rows := meanwhile;
      if user !in rows || rows[user].hash != current { return Some(Conflict), s; }
      rows := rows[user := rows[user].(hash := hash, updatedAt := now)];
      cache := cache - {user};
      var row := Lookup(user, now);
      return None, SignAt(user, rows[user].updatedAt, now);
    }

    method InvalidateUser(user: string)
      modifies `cache
      ensures cache == old(cache) - {user}
    {
      cache := cache - {user};
    }

    method EvictCache(now: nat)
      modifies `cache
      ensures cache == Evicted(old(cache), now)
      ensures forall u :: u in cache <==> u in old(cache) && now - old(cache)[u].cachedAt <= 60_000_000_000
      ensures forall u :: u in cache ==> cache[u] == old(cache)[u]
    {
      cache := cache - set u | u in cache && now - cache[u].cachedAt > 2 * TTL;
    }
  }

  /**
   * The session that a password change returns passes against the row it wrote, against every older
   * row of that account that a cache may still hold unless that row is disabled, and for seven days.
   */
  lemma ChangedPasswordSessionPasses(user: string, row: Row, issue: nat, now: nat)
    requires 0 < issue && row.updatedAt <= issue && issue <= now <= issue + MAX_AGE
    ensures var s := SignAt(user, issue, issue);
      !Expired(s, now) && (Admits(Some(row), s) <==> !row.disabled)
  {
    IssueTimeRounding(user, issue, now);
  }

  // ----- Runs: the cache can lag behind the accounts -----

  /** An account and the moment its last change became visible; deleting is a change too. */
  datatype Account = Account(row: Option<Row>, changedAt: nat)

  /** A row that has been read but not yet stored in the cache. */
  datatype Pending = Pending(user: string, row: Row, readAt: nat)

  datatype State = State(now: nat, accounts: map<string, Account>, cache: Cache, pending: map<int, Pending>)

  datatype Step =
    | Tick(d: nat)
    | Change(user: string, row: Option<Row>)
    | Drop(user: string)
    | Evict
    | Read(call: int, user: string)
    | Store(call: int)

  const START := State(0, map[], map[], map[])

  /**
   * How far apart things can be that the code does one after the other: `lag` for reading a row and
   * storing it in the cache, `gap` for the NOW() that stamps a change and the change becoming visible.
   */
  datatype Delays = Delays(lag: nat, gap: nat)

  predicate Enabled(s: State, step: Step, d: Delays) {
    match step
    case Change(_, row) => row.Some? ==> row.value.updatedAt <= s.now <= row.value.updatedAt + d.gap
    case Read(call, user) => call !in s.pending && user in s.accounts && s.accounts[user].row.Some?
    case Store(call) => call in s.pending && s.now <= s.pending[call].readAt + d.lag
    case _ => true
  }

  function Apply(s: State, step: Step): State {
    match step
    case Tick(d) => s.(now := s.now + d)
    case Change(user, row) => s.(accounts := s.accounts[user := Account(row, s.now)])
    case Drop(user) => s.(cache := s.cache - {user})
    case Evict => s.(cache := Evicted(s.cache, s.now))
    case Read(call, user) =>
      if user in s.accounts && s.accounts[user].row.Some?
      then s.(pending := s.pending[call := Pending(user, s.accounts[user].row.value, s.now)]) else s
    case Store(call) =>
      if call in s.pending
      then s.(cache := s.cache[s.pending[call].user := Entry(s.pending[call].row, s.now)],
              pending := s.pending - {call})
      else s
  }

  ghost predicate Run(s: State, steps: seq<Step>, d: Delays, end: State)
    decreases |steps|
  {
    if steps == [] then s == end
    else Enabled(s, steps[0], d) && Run(Apply(s, steps[0]), steps[1..], d, end)
  }

  /** The row that a lookup started now returns. */
  function Seen(s: State, user: string): Option<Row> {
    if Hit(s.cache, user, s.now) then Some(s.cache[user].row)
    else if user in s.accounts then s.accounts[user].row else None
  }

  /** A lookup that nothing comes between is, in a run, a read and a store, or neither. */
  lemma LookupIsReadThenStore(s: State, rows: Rows, user: string, call: int, d: Delays)
    requires call !in s.pending
    requires forall u :: u in rows <==> u in s.accounts && s.accounts[u].row.Some?
    requires forall u :: u in rows ==> s.accounts[u].row == Some(rows[u])
    ensures Seen(s, user) == Answer(rows, s.cache, user, s.now)
    ensures !Hit(s.cache, user, s.now) && user in rows ==>
      Enabled(s, Read(call, user), d) && Enabled(Apply(s, Read(call, user)), Store(call), d)
      && Apply(Apply(s, Read(call, user)), Store(call)) == s.(cache := Looked(rows, s.cache, user, s.now))
  {
    if user in rows {
      assert s.accounts[user].row == Some(rows[user]);
    }
    var next := Apply(Apply(s, Read(call, user)), Store(call));
    if user in rows {
      assert next.pending == s.pending;
    }
  }

  /** A copy of an account's row is the current one, or was made before the last change. */
  predicate Copies(s: State, user: string, row: Row, before: int) {
    && user in s.accounts && row.updatedAt <= s.accounts[user].changedAt
    && (s.accounts[user].row == Some(row) || before <= s.accounts[user].changedAt)
  }

  predicate Stamped(a: Account, now: nat, d: Delays) {
    && a.changedAt <= now
    && (a.row.Some? ==> a.row.value.updatedAt <= a.changedAt <= a.row.value.updatedAt + d.gap)
  }

  ghost predicate Inv(s: State, d: Delays) {
    && (forall u :: u in s.accounts ==> Stamped(s.accounts[u], s.now, d))
    && (forall u :: u in s.cache ==>
          s.cache[u].cachedAt <= s.now && Copies(s, u, s.cache[u].row, s.cache[u].cachedAt - d.lag))
    && (forall c :: c in s.pending ==>
          s.pending[c].readAt <= s.now && Copies(s, s.pending[c].user, s.pending[c].row, s.pending[c].readAt))
  }

  lemma StepKeepsInv(s: State, step: Step, d: Delays)
    requires Inv(s, d) && Enabled(s, step, d)
    ensures Inv(Apply(s, step), d)
  {
  }

  lemma {:induction false} RunKeepsInv(s: State, steps: seq<Step>, d: Delays, end: State)
    requires Inv(s, d) && Run(s, steps, d, end)
    ensures Inv(end, d)
    decreases |steps|
  {
    if steps != [] {
      StepKeepsInv(s, steps[0], d);
      RunKeepsInv(Apply(s, steps[0]), steps[1..], d, end);
    }
  }

  /** 30 seconds (and the lag) after its last change, an account is seen by everyone exactly as it is. */
  lemma SeenAsItIs(steps: seq<Step>, d: Delays, s: State, user: string)
    requires Run(START, steps, d, s)
    requires user in s.accounts && s.now >= s.accounts[user].changedAt + 30_000_000_000 + d.lag
    ensures Seen(s, user) == s.accounts[user].row
  {
    RunKeepsInv(START, steps, d, s);
  }

  /** A change became visible at time `at`, and what may be from before it was read by then. */
  ghost predicate ChangedSince(s: State, user: string, at: int, d: Delays) {
    && user in s.accounts && s.accounts[user].changedAt >= at
    && (user in s.cache ==> s.cache[user].row.updatedAt >= at - d.gap || s.cache[user].cachedAt <= at + d.lag)
    && (forall c :: c in s.pending && s.pending[c].user == user ==>
          s.pending[c].row.updatedAt >= at - d.gap || s.pending[c].readAt <= at)
  }

  lemma StepKeepsChangedSince(s: State, step: Step, d: Delays, user: string, at: int)
    requires Inv(s, d) && Enabled(s, step, d)
    ensures ChangedSince(s, user, at, d) ==> ChangedSince(Apply(s, step), user, at, d)
    ensures step.Change? && step.user == user && s.now == at ==> ChangedSince(Apply(s, step), user, at, d)
  {
  }

  lemma {:induction false} RunKeepsChangedSince(
      s: State, steps: seq<Step>, d: Delays, end: State, user: string, at: int)
    requires Inv(s, d) && Run(s, steps, d, end) && ChangedSince(s, user, at, d)
    ensures Inv(end, d) && ChangedSince(end, user, at, d)
    decreases |steps|
  {
    if steps != [] {
      StepKeepsInv(s, steps[0], d);
      StepKeepsChangedSince(s, steps[0], d, user, at);
      RunKeepsChangedSince(Apply(s, steps[0]), steps[1..], d, end, user, at);
    }
  }

  /**
   * After a change, whatever it was, every session that counts as issued before it (and the gap) is
   * rejected by each authentication that starts 30 seconds (and the lag) later, whatever happens in
   * between. By IssueTimeRounding these are all sessions signed at least a millisecond before, and
   * those of the old kind that carry no issue time count by their expiry.
   */
  lemma OldSessionsRejectedInTime(
      before: seq<Step>, s: State, row: Option<Row>, steps: seq<Step>, d: Delays, end: State, session: Session)
    requires Run(START, before, d, s) && Enabled(s, Change(session.user, row), d)
    requires Run(Apply(s, Change(session.user, row)), steps, d, end)
    requires IssuedAt(session) < s.now - d.gap && end.now >= s.now + 30_000_000_000 + d.lag
    ensures !Admits(Seen(end, session.user), session)
  {
    RunKeepsInv(START, before, d, s);
    StepKeepsInv(s, Change(session.user, row), d);
    StepKeepsChangedSince(s, Change(session.user, row), d, session.user, s.now);
    RunKeepsChangedSince(Apply(s, Change(session.user, row)), steps, d, end, session.user, s.now);
  }

  // ----- Dropping the cache entry -----

  /** Issue times are whole milliseconds; this is the first one from `t` on. */
  function RoundedUp(t: nat): nat { (t + 999_999) / MILLISECOND * MILLISECOND }

  lemma IssuedOnMilliseconds(s: Session, t: nat)
    ensures IssuedAt(s) >= t <==> IssuedAt(s) >= RoundedUp(t)
  {
    var k := (t + 999_999) / MILLISECOND;
    assert k * MILLISECOND - MILLISECOND < t <= k * MILLISECOND;
    var m := if s.iat > 0 then s.iat as int else s.exp * 1000 - MAX_AGE / MILLISECOND;
    assert IssuedAt(s) == m * MILLISECOND;
    assert m >= k <==> m * MILLISECOND >= k * MILLISECOND;
    assert m <= k - 1 ==> m * MILLISECOND <= k * MILLISECOND - MILLISECOND;
  }

  lemma IssuedExactlyAt(user: string, t: nat) returns (s: Session)
    ensures s.user == user && IssuedAt(s) == RoundedUp(t)
  {
    var k := (t + 999_999) / MILLISECOND;
    s := if k > 0 then Session(user, 0, k) else Session(user, MAX_AGE / SECOND, 0);
  }

  /** The row admits some session issued before `t`. */
  predicate Opens(row: Row, t: int) { !row.disabled && RoundedUp(row.updatedAt) < t }

  /** A lookup that can still store such a row. */
  predicate CanReopen(s: State, user: string, t: int, d: Delays, c: int) {
    c in s.pending && s.pending[c].user == user && Opens(s.pending[c].row, t) && s.now <= s.pending[c].readAt + d.lag
  }

  /** Nothing in the state can ever admit a session of the user issued before `t`. */
  ghost predicate Shut(s: State, user: string, t: int, d: Delays) {
    && user in s.accounts && s.accounts[user].changedAt - d.gap >= t
    && (user in s.cache ==> !Opens(s.cache[user].row, t))
    && (forall c :: !CanReopen(s, user, t, d, c))
  }

  lemma StepKeepsShut(s: State, step: Step, d: Delays, user: string, t: int)
    requires Inv(s, d) && Enabled(s, step, d) && Shut(s, user, t, d)
    ensures Shut(Apply(s, step), user, t, d)
  {
    RoundedUpIsLater();
    hide RoundedUp;
    var next := Apply(s, step);
    forall c | c in next.pending ensures !CanReopen(next, user, t, d, c) {
      assert !CanReopen(s, user, t, d, c);
    }
    if step.Store? {
      assert !CanReopen(s, user, t, d, step.call);
    }
  }

  lemma RoundedUpIsLater()
    ensures forall t: nat :: RoundedUp(t) >= t
  {
    forall t: nat ensures RoundedUp(t) >= t {
      var k := (t + 999_999) / MILLISECOND;
      assert t <= k * MILLISECOND;
    }
  }

  lemma {:induction false} RunKeepsShut(s: State, steps: seq<Step>, d: Delays, end: State, user: string, t: int)
    requires Inv(s, d) && Run(s, steps, d, end) && Shut(s, user, t, d)
    ensures Inv(end, d) && Shut(end, user, t, d)
    decreases |steps|
  {
    hide Inv, Shut;
    if steps != [] {
      StepKeepsInv(s, steps[0], d);
      StepKeepsShut(s, steps[0], d, user, t);
      RunKeepsShut(Apply(s, steps[0]), steps[1..], d, end, user, t);
    }
  }

  lemma ShutRejects(s: State, d: Delays, session: Session, t: int)
    requires Inv(s, d) && Shut(s, session.user, t, d) && IssuedAt(session) < t
    ensures !Admits(Seen(s, session.user), session)
  {
    if Seen(s, session.user).Some? {
      IssuedOnMilliseconds(session, Seen(s, session.user).value.updatedAt);
    }
  }

  /** However the run goes on, no session of the user issued before `t` is admitted again. */
  ghost predicate NeverAdmitted(s: State, user: string, t: int, d: Delays) {
    forall steps, end, session: Session ::
      Run(s, steps, d, end) && session.user == user && IssuedAt(session) < t ==> !Admits(Seen(end, user), session)
  }

  /**
   * Exactly when dropping the cache entry of a changed account shuts out, at once and for good, every
   * session issued before the change: if no lookup still has to store a row of the account that is not
   * disabled and admits such a session.
   */
  lemma DropShutsOutExactly(before: seq<Step>, d: Delays, s: State, user: string, t: int)
    requires Run(START, before, d, s) && user in s.accounts && t <= s.accounts[user].changedAt - d.gap
    ensures NeverAdmitted(Apply(s, Drop(user)), user, t, d) <==> forall c :: !CanReopen(s, user, t, d, c)
  {
    RunKeepsInv(START, before, d, s);
    var dropped := Apply(s, Drop(user));
    StepKeepsInv(s, Drop(user), d);
    hide Inv;
    if c :| CanReopen(s, user, t, d, c) {
      var session := IssuedExactlyAt(user, s.pending[c].row.updatedAt);
      RoundedUpIsLater();
      var end := Apply(dropped, Store(c));
      NoStep(end, d);
      OneStep(dropped, Store(c), [], d, end, end);
      assert Admits(Seen(end, user), session) && Run(dropped, [Store(c)] + [], d, end);
    } else {
      assert forall c :: CanReopen(dropped, user, t, d, c) ==> CanReopen(s, user, t, d, c);
      forall steps, end, session: Session | Run(dropped, steps, d, end) && session.user == user && IssuedAt(session) < t
        ensures !Admits(Seen(end, user), session)
      {
        RunKeepsShut(dropped, steps, d, end, user, t);
        ShutRejects(end, d, session, t);
      }
    }
  }

  /** A run in which it does not: a lookup that read before the change stores its row after the drop. */
  lemma StaleRowStoredAfterDrop(d: Delays) returns (end: State)
    ensures var first, second := Row("h1", false, "p", SECOND), Row("h2", false, "p", 2 * SECOND);
      Run(START, [Tick(SECOND), Change("u", Some(first)), Tick(SECOND), Read(1, "u"),
                  Change("u", Some(second)), Drop("u"), Store(1)], d, end)
    ensures "u" in end.accounts && end.accounts["u"] == Account(Some(Row("h2", false, "p", 2 * SECOND)), 2 * SECOND)
    ensures Admits(Seen(end, "u"), SignAt("u", SECOND, SECOND))
    ensures !Admits(end.accounts["u"].row, SignAt("u", SECOND, SECOND))
  {
    var first, second := Row("h1", false, "p", SECOND), Row("h2", false, "p", 2 * SECOND);
    var s4 := State(2 * SECOND, map["u" := Account(Some(first), SECOND)], map[],
                    map[1 := Pending("u", first, 2 * SECOND)]);
    end := State(2 * SECOND, map["u" := Account(Some(second), 2 * SECOND)],
                 map["u" := Entry(first, 2 * SECOND)], map[]);
    ReadFirst(d, first, s4);
    DropThenStore(d, first, second, s4, end);
    var begin := [Tick(SECOND), Change("u", Some(first)), Tick(SECOND), Read(1, "u")];
    var rest := [Change("u", Some(second)), Drop("u"), Store(1)];
    RunsJoin(START, begin, s4, rest, d, end);
    assert begin + rest == [Tick(SECOND), Change("u", Some(first)), Tick(SECOND), Read(1, "u"),
                            Change("u", Some(second)), Drop("u"), Store(1)];
  }

  lemma {:induction false} RunsJoin(s: State, one: seq<Step>, middle: State, two: seq<Step>, d: Delays, end: State)
    requires Run(s, one, d, middle) && Run(middle, two, d, end)
    ensures Run(s, one + two, d, end)
    decreases |one|
  {
    hide Apply, Enabled;
    if one == [] {
      assert one + two == two;
    } else {
      assert (one + two)[1..] == one[1..] + two;
      RunsJoin(Apply(s, one[0]), one[1..], middle, two, d, end);
    }
  }

  lemma OneStep(s: State, step: Step, rest: seq<Step>, d: Delays, next: State, end: State)
    requires Enabled(s, step, d) && Apply(s, step) == next && Run(next, rest, d, end)
    ensures Run(s, [step] + rest, d, end)
  {
    hide Apply, Enabled;
    assert ([step] + rest)[1..] == rest;
  }

  lemma ReadFirst(d: Delays, first: Row, end: State)
    requires first.updatedAt == SECOND
    requires end == State(2 * SECOND, map["u" := Account(Some(first), SECOND)], map[],
                          map[1 := Pending("u", first, 2 * SECOND)])
    ensures Run(START, [Tick(SECOND), Change("u", Some(first)), Tick(SECOND), Read(1, "u")], d, end)
  {
    hide Run;
    assert [Tick(SECOND)] + [Change("u", Some(first)), Tick(SECOND), Read(1, "u")]
      == [Tick(SECOND), Change("u", Some(first)), Tick(SECOND), Read(1, "u")];
    assert [Change("u", Some(first))] + [Tick(SECOND), Read(1, "u")]
      == [Change("u", Some(first)), Tick(SECOND), Read(1, "u")];
    assert [Tick(SECOND)] + [Read(1, "u")] == [Tick(SECOND), Read(1, "u")];
    assert [Read(1, "u")] + [] == [Read(1, "u")];
    var accounts := map["u" := Account(Some(first), SECOND)];
    NoStep(end, d);
    OneStep(State(2 * SECOND, accounts, map[], map[]), Read(1, "u"), [], d, end, end);
    OneStep(State(SECOND, accounts, map[], map[]), Tick(SECOND), [Read(1, "u")], d,
            State(2 * SECOND, accounts, map[], map[]), end);
    OneStep(State(SECOND, map[], map[], map[]), Change("u", Some(first)), [Tick(SECOND), Read(1, "u")], d,
            State(SECOND, accounts, map[], map[]), end);
    OneStep(START, Tick(SECOND), [Change("u", Some(first)), Tick(SECOND), Read(1, "u")], d,
            State(SECOND, map[], map[], map[]), end);
  }

  lemma DropThenStore(d: Delays, first: Row, second: Row, s: State, end: State)
    requires second.updatedAt == 2 * SECOND
    requires s == State(2 * SECOND, map["u" := Account(Some(first), SECOND)], map[],
                        map[1 := Pending("u", first, 2 * SECOND)])
    requires end == State(2 * SECOND, map["u" := Account(Some(second), 2 * SECOND)],
                          map["u" := Entry(first, 2 * SECOND)], map[])
    ensures Run(s, [Change("u", Some(second)), Drop("u"), Store(1)], d, end)
  {
    hide Run;
    assert [Change("u", Some(second))] + [Drop("u"), Store(1)] == [Change("u", Some(second)), Drop("u"), Store(1)];
    assert [Drop("u")] + [Store(1)] == [Drop("u"), Store(1)];
    assert [Store(1)] + [] == [Store(1)];
    var s5 := s.(accounts := map["u" := Account(Some(second), 2 * SECOND)]);
    NoStep(end, d);
    assert Apply(s5, Store(1)).pending == map[];
    OneStep(s5, Store(1), [], d, end, end);
    OneStep(s5, Drop("u"), [Store(1)], d, s5, end);
    OneStep(s, Change("u", Some(second)), [Drop("u"), Store(1)], d, s5, end);
  }

  lemma NoStep(s: State, d: Delays)
    ensures Run(s, [], d, s)
  {
  }
}
