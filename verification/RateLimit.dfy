/** The per-address request limiter, its periodic cleanup, and its variant with a limit that can change. */
module RateLimit {
  import opened Options

  datatype Bucket = Bucket(count: nat, reset: int)

  type Limits = map<string, Bucket>

  datatype Config = Config(max: int, window: nat)

  /** A bucket that no longer counts, or none. */
  predicate Expired(b: Option<Bucket>, now: int) { b.Some? ==> now > b.value.reset }

  predicate Admits(b: Option<Bucket>, now: int, c: Config) { Expired(b, now) || b.value.count < c.max }

  function Served(b: Option<Bucket>, now: int, c: Config): Bucket {
    if Expired(b, now) then Bucket(1, now + c.window)
    else if b.value.count < c.max then b.value.(count := b.value.count + 1) else b.value
  }

  function At(l: Limits, key: string): Option<Bucket> { if key in l then Some(l[key]) else None }

  function Cleaned(l: Limits, now: int): Limits {
    map k | k in l && !(now > l[k].reset) :: l[k]
  }

  // ----- The code -----

  class RateLimiter {
    var limits: Limits
    const config: Config

    constructor (config: Config)
      ensures limits == map[] && this.config == config
    {
      limits, this.config := map[], config;
    }

    method Allow(key: string, now: int) returns (ok: bool)
      modifies `limits
      ensures ok == Admits(At(old(limits), key), now, config)
      ensures limits == old(limits)[key := Served(At(old(limits), key), now, config)]
      ensures ok <==>
        key !in old(limits) || now > old(limits)[key].reset || old(limits)[key].count < config.max
      ensures limits == old(limits)[key :=
        if key !in old(limits) || now > old(limits)[key].reset then Bucket(1, now + config.window)
        else if old(limits)[key].count < config.max then Bucket(old(limits)[key].count + 1, old(limits)[key].reset)
        else old(limits)[key]]
    {
      if key !in limits || now > limits[key].reset {
        limits := limits[key := Bucket(1, now + config.window)];
        return true;
      }
      var b := limits[key];
      if b.count >= config.max {
        assert limits == limits[key := b];
        return false;
      }
      limits := limits[key := b.(count := b.count + 1)];
      return true;
    }

    method Cleanup(now: int)
      modifies `limits
      ensures limits == Cleaned(old(limits), now)
      ensures forall k :: k in limits <==> k in old(limits) && now <= old(limits)[k].reset
      ensures forall k :: k in limits ==> limits[k] == old(limits)[k]
    {
      var todo := limits.Keys;
      while todo != {}
        invariant todo <= limits.Keys
        invariant forall k :: k in limits <==> k in old(limits) && (k in todo || !(now > old(limits)[k].reset))
        invariant forall k :: k in limits ==> limits[k] == old(limits)[k]
        decreases |todo|
      {
        var k :| k in todo;
        if now > limits[k].reset {
          limits := limits - {k};
        }
        todo := todo - {k};
      }
    }
  }

  // ----- Runs -----

  datatype Event = Request(key: string, at: int) | Clean(at: int)

  predicate Ordered(es: seq<Event>) { forall i, j :: 0 <= i < j < |es| ==> es[i].at <= es[j].at }

  function LimitsAfter(es: seq<Event>, c: Config): Limits {
    if es == [] then map[] else
      var l, e := LimitsAfter(es[..|es| - 1], c), es[|es| - 1];
      match e
      case Request(key, at) => l[key := Served(At(l, key), at, c)]
      case Clean(at) => Cleaned(l, at)
  }

  /** When requests of a key were admitted. */
  function Admitted(es: seq<Event>, key: string, c: Config): seq<int> {
    if es == [] then [] else
      var before, e := es[..|es| - 1], es[|es| - 1];
      Admitted(before, key, c)
      + (if e.Request? && e.key == key && Admits(At(LimitsAfter(before, c), key), e.at, c) then [e.at] else [])
  }

  /** When requests of a key came in. */
  function Arrivals(es: seq<Event>, key: string): seq<int> {
    if es == [] then [] else
      var e := es[|es| - 1];
      Arrivals(es[..|es| - 1], key) + (if e.Request? && e.key == key then [e.at] else [])
  }

  /** One key alone, without any cleanup. */
  function BucketAfter(ts: seq<int>, c: Config): Option<Bucket> {
    if ts == [] then None else Some(Served(BucketAfter(ts[..|ts| - 1], c), ts[|ts| - 1], c))
  }

  function AdmittedAlone(ts: seq<int>, c: Config): seq<int> {
    if ts == [] then [] else
      var before, t := ts[..|ts| - 1], ts[|ts| - 1];
      AdmittedAlone(before, c) + (if Admits(BucketAfter(before, c), t, c) then [t] else [])
  }

  /**
   * Which requests of a key are admitted depends on when they came in and on nothing else: not on the
   * requests of others, and not on when, or whether, expired buckets were removed.
   */
  lemma {:induction false} OnlyOwnArrivalsMatter(es: seq<Event>, key: string, c: Config, now: int)
    requires Ordered(es) && (es != [] ==> es[|es| - 1].at <= now)
    ensures Admitted(es, key, c) == AdmittedAlone(Arrivals(es, key), c)
    ensures SameUntil(At(LimitsAfter(es, c), key), BucketAfter(Arrivals(es, key), c), now)
  {
    if es != [] {
      var before, e := es[..|es| - 1], es[|es| - 1];
      OnlyOwnArrivalsMatter(before, key, c, e.at);
      if e.Request? && e.key == key {
        var ts := Arrivals(es, key);
        assert ts[..|ts| - 1] == Arrivals(before, key) && ts[|ts| - 1] == e.at;
      } else {
        assert Arrivals(es, key) == Arrivals(before, key);
      }
    }
  }

  /** The same bucket, or an expired one that has been removed. */
  predicate SameUntil(kept: Option<Bucket>, alone: Option<Bucket>, now: int) {
    kept == alone || (kept.None? && Expired(alone, now))
  }

  /** How many of these moments fall into the closed interval. */
  function Count(ts: seq<int>, from: int, to: int): nat {
    if ts == [] then 0 else
      Count(ts[..|ts| - 1], from, to) + (if from <= ts[|ts| - 1] <= to then 1 else 0)
  }

  lemma CountOneMore(ts: seq<int>, t: int, from: int, to: int)
    ensures Count(ts + [t], from, to) == Count(ts, from, to) + (if from <= t <= to then 1 else 0)
  {
    assert (ts + [t])[..|ts|] == ts;
  }

  lemma {:induction false} CountSplits(ts: seq<int>, from: int, middle: int, to: int)
    ensures from <= middle <= to + 1 ==> Count(ts, from, to) == Count(ts, from, middle - 1) + Count(ts, middle, to)
    ensures from <= middle ==> Count(ts, middle, to) <= Count(ts, from, to)
  {
    if ts != [] {
      CountSplits(ts[..|ts| - 1], from, middle, to);
    }
  }

  lemma {:induction false} CountAfterAll(ts: seq<int>, from: int, to: int, last: int)
    requires forall i :: 0 <= i < |ts| ==> ts[i] <= last
    ensures to >= last ==> Count(ts, from, to) == Count(ts, from, last)
    ensures from > last ==> Count(ts, from, to) == 0
  {
    if ts != [] {
      CountAfterAll(ts[..|ts| - 1], from, to, last);
    }
  }

  function Most(c: Config): nat { if c.max < 1 then 1 else c.max }

  function InStretch(ts: seq<int>, from: int, length: nat): nat { Count(ts, from, from + length) }

  function InFrom(ts: seq<int>, from: int, before: int): nat { Count(ts, from, before - 1) }

  /** The current window's count is right, and no stretch of a window's length has too many. */
  ghost predicate Bounded(granted: seq<int>, b: Bucket, c: Config) {
    var s := b.reset - c.window;
    && (forall i :: 0 <= i < |granted| ==> granted[i] <= b.reset)
    && Count(granted, s, b.reset) == b.count && 1 <= b.count <= Most(c) && Count(granted, s + 1, b.reset) <= b.count - 1
    && (forall a :: a + c.window >= s ==> InFrom(granted, a, s) <= Most(c) - 1)
    && (forall a :: InStretch(granted, a, c.window) <= 2 * Most(c) - 1)
  }

  lemma AdmittingKeepsBounded(granted: seq<int>, b: Bucket, t: int, c: Config)
    requires Bounded(granted, b, c) && b.reset - c.window <= t <= b.reset && b.count < c.max
    ensures Bounded(granted + [t], b.(count := b.count + 1), c)
  {
    var s, m := b.reset - c.window, Most(c);
    CountOneMore(granted, t, s, b.reset);
    CountOneMore(granted, t, s + 1, b.reset);
    CountSplits(granted, s, s + 1, b.reset);
    forall a | a + c.window >= s ensures InFrom(granted + [t], a, s) <= m - 1 {
      assert InFrom(granted, a, s) <= m - 1;
      CountOneMore(granted, t, a, s - 1);
    }
    forall a ensures InStretch(granted + [t], a, c.window) <= 2 * m - 1 {
      assert InStretch(granted, a, c.window) <= 2 * m - 1;
      CountOneMore(granted, t, a, a + c.window);
      if a <= t <= a + c.window {
        assert InFrom(granted, a, s) <= m - 1;
        CountSplits(granted, a, s, a + c.window);
        CountSplits(granted, s, a, b.reset);
        CountAfterAll(granted, a, a + c.window, b.reset);
        CountToGrows(granted, s, a + c.window, b.reset);
      }
    }
  }

  lemma {:induction false} CountToGrows(ts: seq<int>, from: int, to: int, later: int)
    ensures to <= later ==> Count(ts, from, to) <= Count(ts, from, later)
  {
    if ts != [] {
      CountToGrows(ts[..|ts| - 1], from, to, later);
    }
  }

  /** Of the window before, an interval that reaches a new one misses at least the first request. */
  lemma WindowBefore(granted: seq<int>, b: Bucket, t: int, c: Config, a: int, to: int)
    requires Bounded(granted, b, c) && t > b.reset && a + c.window >= t
    ensures Count(granted, a, to) <= Most(c) - 1
    ensures Count(granted, t, to) == 0
  {
    CountSplits(granted, b.reset - c.window + 1, a, b.reset);
    CountAfterAll(granted, a, to, b.reset);
    CountAfterAll(granted, t, to, b.reset);
    CountToGrows(granted, a, to, b.reset);
  }

  lemma NewWindowKeepsBounded(granted: seq<int>, b: Bucket, t: int, c: Config)
    requires Bounded(granted, b, c) && t > b.reset
    ensures Bounded(granted + [t], Bucket(1, t + c.window), c)
  {
    var m := Most(c);
    WindowBefore(granted, b, t, c, t, t + c.window);
    CountOneMore(granted, t, t, t + c.window);
    CountSplits(granted, t, t + 1, t + c.window);
    CountOneMore(granted, t, t + 1, t + c.window);
    forall a | a + c.window >= t ensures InFrom(granted + [t], a, t) <= m - 1 {
      CountOneMore(granted, t, a, t - 1);
      WindowBefore(granted, b, t, c, a, t - 1);
    }
    forall a ensures InStretch(granted + [t], a, c.window) <= 2 * m - 1 {
      assert InStretch(granted, a, c.window) <= 2 * m - 1;
      CountOneMore(granted, t, a, a + c.window);
      if a <= t <= a + c.window {
        WindowBefore(granted, b, t, c, a, a + c.window);
      }
    }
  }

  lemma FirstIsBounded(t: int, c: Config)
    ensures Bounded([t], Bucket(1, t + c.window), c)
  {
    var none: seq<int> := [];
    assert none + [t] == [t];
    CountOneMore(none, t, t, t + c.window);
    CountOneMore(none, t, t + 1, t + c.window);
    forall a ensures InStretch([t], a, c.window) <= 1 {
      CountOneMore(none, t, a, a + c.window);
    }
    forall a ensures InFrom([t], a, t) == 0 {
      CountOneMore(none, t, a, t - 1);
    }
  }

  predicate Rising(ts: seq<int>) { forall i, j :: 0 <= i < j < |ts| ==> ts[i] <= ts[j] }

  lemma {:induction false} AloneIsBounded(ts: seq<int>, c: Config)
    requires Rising(ts) && ts != []
    ensures BucketAfter(ts, c).Some? && BucketAfter(ts, c).value.reset - c.window <= ts[|ts| - 1]
    ensures Bounded(AdmittedAlone(ts, c), BucketAfter(ts, c).value, c)
  {
    hide Bounded, Count;
    var before, t := ts[..|ts| - 1], ts[|ts| - 1];
    if before == [] {
      FirstIsBounded(t, c);
      assert AdmittedAlone(ts, c) == [t];
    } else {
      AloneIsBounded(before, c);
      var b, granted := BucketAfter(before, c).value, AdmittedAlone(before, c);
      if t > b.reset {
        NewWindowKeepsBounded(granted, b, t, c);
      } else if b.count < c.max {
        AdmittingKeepsBounded(granted, b, t, c);
      } else {
        assert AdmittedAlone(ts, c) == granted;
      }
    }
  }

  lemma {:induction false} ArrivalsRise(es: seq<Event>, key: string)
    requires Ordered(es)
    ensures Rising(Arrivals(es, key))
    ensures forall i :: 0 <= i < |Arrivals(es, key)| ==> es != [] && Arrivals(es, key)[i] <= es[|es| - 1].at
  {
    if es != [] {
      ArrivalsRise(es[..|es| - 1], key);
    }
  }

  /**
   * However requests and cleanups follow one another, no closed interval of a window's length admits
   * 2 * max requests of one key (with a limit below 1 counting as 1).
   */
  lemma NeverTwiceTheLimit(es: seq<Event>, key: string, c: Config, from: int)
    requires Ordered(es)
    ensures Count(Admitted(es, key, c), from, from + c.window) <= 2 * Most(c) - 1
  {
    hide LimitsAfter, Admitted, Arrivals, BucketAfter, Bounded, SameUntil, Count;
    OnlyOwnArrivalsMatter(es, key, c, if es == [] then 0 else es[|es| - 1].at);
    ArrivalsRise(es, key);
    var ts := Arrivals(es, key);
    if ts != [] {
      AloneIsBounded(ts, c);
      StretchIsBounded(AdmittedAlone(ts, c), BucketAfter(ts, c).value, c, from);
    } else {
      NothingCounts(from, from + c.window);
    }
  }

  lemma NothingCounts(from: int, to: int)
    ensures Count([], from, to) == 0
  {
  }

  lemma StretchIsBounded(granted: seq<int>, b: Bucket, c: Config, from: int)
    requires Bounded(granted, b, c)
    ensures Count(granted, from, from + c.window) <= 2 * Most(c) - 1
  {
    assert InStretch(granted, from, c.window) <= 2 * Most(c) - 1;
  }

  // ----- One window -----

  /** Where the bucket of a window that opened at `t` stands later: still counting it, or a later window. */
  predicate SinceWindow(granted: seq<int>, b: Bucket, t: int, c: Config) {
    && Count(granted, t, t + c.window) <= Most(c)
    && (b.reset == t + c.window ==> Count(granted, t, t + c.window) == b.count <= Most(c))
    && (b.reset == t + c.window || b.reset - c.window > t + c.window)
  }

  lemma {:induction false} WindowAlone(before: seq<int>, t: int, later: seq<int>, c: Config)
    requires Rising(before + [t] + later) && Expired(BucketAfter(before, c), t)
    ensures BucketAfter(before + [t] + later, c).Some?
    ensures SinceWindow(AdmittedAlone(before + [t] + later, c), BucketAfter(before + [t] + later, c).value, t, c)
    decreases |later|
  {
    hide BucketAfter, AdmittedAlone, Count, SinceWindow, Served, Expired, Bounded;
    if later == [] {
      assert before + [t] + later == before + [t];
      WindowOpens(before, t, c);
    } else {
      var n, u := |later| - 1, later[|later| - 1];
      var most := before + [t] + later[..n];
      assert before + [t] + later == most + [u];
      RisingParts(most, u, |before|);
      WindowAlone(before, t, later[..n], c);
      AloneIsBounded(most, c);
      OneMoreAlone(most, u, c);
      WindowStep(AdmittedAlone(most, c), BucketAfter(most, c).value, t, u, c);
    }
  }

  lemma RisingParts(ts: seq<int>, u: int, k: nat)
    requires Rising(ts + [u]) && k < |ts|
    ensures Rising(ts) && ts[k] <= u && ts[|ts| - 1] <= u
  {
    var all := ts + [u];
    assert all[|ts|] == u && forall i :: 0 <= i < |ts| ==> all[i] == ts[i];
  }

  lemma OneMoreAlone(ts: seq<int>, u: int, c: Config)
    ensures BucketAfter(ts + [u], c) == Some(Served(BucketAfter(ts, c), u, c))
    ensures AdmittedAlone(ts + [u], c) == AdmittedAlone(ts, c) + (if Admits(BucketAfter(ts, c), u, c) then [u] else [])
  {
    assert (ts + [u])[..|ts|] == ts;
  }

  lemma WindowOpens(before: seq<int>, t: int, c: Config)
    requires Rising(before + [t]) && Expired(BucketAfter(before, c), t)
    ensures BucketAfter(before + [t], c).Some?
    ensures SinceWindow(AdmittedAlone(before + [t], c), BucketAfter(before + [t], c).value, t, c)
  {
    hide BucketAfter, AdmittedAlone, Count, Rising;
    OneMoreAlone(before, t, c);
    NewWindowCounts(before, t, c);
  }

  lemma WindowStep(granted: seq<int>, b: Bucket, t: int, u: int, c: Config)
    requires SinceWindow(granted, b, t, c) && t <= u && b.reset - c.window <= u
    ensures SinceWindow(granted + (if Admits(Some(b), u, c) then [u] else []), Served(Some(b), u, c), t, c)
  {
    CountOneMore(granted, u, t, t + c.window);
    assert granted + [] == granted;
  }

  lemma NewWindowCounts(before: seq<int>, t: int, c: Config)
    requires Rising(before + [t]) && Expired(BucketAfter(before, c), t)
    ensures Count(AdmittedAlone(before, c) + [t], t, t + c.window) == 1
  {
    var granted := AdmittedAlone(before, c);
    CountOneMore(granted, t, t, t + c.window);
    if before == [] {
      NothingCounts(t, t + c.window);
    } else {
      assert forall i, j :: 0 <= i < j < |before| ==> before[i] == (before + [t])[i] && before[j] == (before + [t])[j];
      AloneIsBounded(before, c);
      CountAfterAll(granted, t, t + c.window, BucketAfter(before, c).value.reset);
    }
  }

  lemma {:induction false} ArrivalsJoin(es: seq<Event>, more: seq<Event>, key: string)
    ensures Arrivals(es + more, key) == Arrivals(es, key) + Arrivals(more, key)
  {
    if more == [] {
      assert es + more == es;
    } else {
      ArrivalsJoin(es, more[..|more| - 1], key);
      assert (es + more)[..|es + more| - 1] == es + more[..|more| - 1];
    }
  }

  /** A window, opened by a request that finds no bucket still counting, admits the limit at most, come what may. */
  lemma WindowHoldsTheLimit(es: seq<Event>, key: string, t: int, later: seq<Event>, c: Config)
    requires Ordered(es + [Request(key, t)] + later) && Expired(At(LimitsAfter(es, c), key), t)
    ensures Count(Admitted(es + [Request(key, t)] + later, key, c), t, t + c.window) <= Most(c)
  {
    var one := [Request(key, t)];
    var all := es + one + later;
    OrderedParts(es, Request(key, t), later);
    ArrivalsJoin(es + one, later, key);
    ArrivalsJoin(es, one, key);
    assert one[..0] == [] && Arrivals(one, key) == [] + [t];
    hide LimitsAfter, Admitted, Arrivals, BucketAfter, Count, AdmittedAlone, Ordered, Rising;
    hide Expired, SinceWindow, SameUntil;
    OnlyOwnArrivalsMatter(es, key, c, t);
    ExpiredAlone(At(LimitsAfter(es, c), key), BucketAfter(Arrivals(es, key), c), t);
    OnlyOwnArrivalsMatter(all, key, c, all[|all| - 1].at);
    ArrivalsRise(all, key);
    WindowAlone(Arrivals(es, key), t, Arrivals(later, key), c);
    WindowCount(AdmittedAlone(Arrivals(all, key), c), BucketAfter(Arrivals(all, key), c).value, t, c);
  }

  lemma ExpiredAlone(kept: Option<Bucket>, alone: Option<Bucket>, now: int)
    requires SameUntil(kept, alone, now)
    ensures Expired(kept, now) <==> Expired(alone, now)
  {
  }

  lemma WindowCount(granted: seq<int>, b: Bucket, t: int, c: Config)
    requires SinceWindow(granted, b, t, c)
    ensures Count(granted, t, t + c.window) <= Most(c)
  {
  }

  lemma OrderedParts(es: seq<Event>, e: Event, later: seq<Event>)
    requires Ordered(es + [e] + later)
    ensures Ordered(es) && (es != [] ==> es[|es| - 1].at <= e.at)
  {
    var all := es + [e] + later;
    assert all[|es|] == e && forall i :: 0 <= i < |es| ==> es[i] == all[i];
  }

  /** A request is turned away only if, in the window's length up to it, as many as the limit were admitted. */
  lemma TurnedAwayOnlyWhenFull(es: seq<Event>, key: string, at: int, c: Config)
    requires Ordered(es) && (es != [] ==> es[|es| - 1].at <= at)
    requires !Admits(At(LimitsAfter(es, c), key), at, c)
    ensures Count(Admitted(es, key, c), at - c.window, at) >= Most(c)
  {
    hide LimitsAfter, Admitted, Arrivals, Bounded, Count, Served, AdmittedAlone;
    OnlyOwnArrivalsMatter(es, key, c, at);
    ArrivalsRise(es, key);
    var ts := Arrivals(es, key);
    assert ts == [] ==> BucketAfter(ts, c).None?;
    if ts != [] {
      AloneIsBounded(ts, c);
      AdmittedOfArrivals(ts, c, at);
      FullWindow(AdmittedAlone(ts, c), BucketAfter(ts, c).value, at, c);
    }
  }

  lemma {:induction false} AdmittedOfArrivals(ts: seq<int>, c: Config, last: int)
    requires forall i :: 0 <= i < |ts| ==> ts[i] <= last
    ensures forall i :: 0 <= i < |AdmittedAlone(ts, c)| ==> AdmittedAlone(ts, c)[i] <= last
  {
    if ts != [] {
      AdmittedOfArrivals(ts[..|ts| - 1], c, last);
    }
  }

  lemma FullWindow(granted: seq<int>, b: Bucket, at: int, c: Config)
    requires Bounded(granted, b, c) && b.reset - c.window <= at <= b.reset && b.count >= c.max
    requires forall i :: 0 <= i < |granted| ==> granted[i] <= at
    ensures Count(granted, at - c.window, at) >= Most(c)
  {
    CountAfterAll(granted, b.reset - c.window, b.reset, at);
    CountSplits(granted, at - c.window, b.reset - c.window, at);
  }

  // ----- The bound is met -----

  /** One request, then at the end of its window all that are left, then a whole window's worth. */
  function Burst(c: Config, n: nat): seq<Event> {
    if n == 0 then []
    else Burst(c, n - 1) + [Request("k", if n == 1 then 0 else if n <= c.max then c.window else c.window + 1)]
  }

  lemma {:induction false} BurstIsOrdered(c: Config, n: nat)
    ensures |Burst(c, n)| == n && Ordered(Burst(c, n))
    ensures n > 0 ==> Burst(c, n)[n - 1].at == (if n == 1 then 0 else if n <= c.max then c.window else c.window + 1)
  {
    if n > 0 {
      BurstIsOrdered(c, n - 1);
      var before := Burst(c, n - 1);
      assert forall i :: 0 <= i < n - 1 ==> Burst(c, n)[i] == before[i];
      if n > 1 {
        assert forall i :: 0 <= i < n - 1 ==> before[i].at <= before[n - 2].at;
      }
    }
  }

  lemma OneMoreRequest(es: seq<Event>, key: string, t: int, c: Config)
    ensures var es' := es + [Request(key, t)]; var b := At(LimitsAfter(es, c), key);
      && At(LimitsAfter(es', c), key) == Some(Served(b, t, c))
      && Admitted(es', key, c) == Admitted(es, key, c) + (if Admits(b, t, c) then [t] else [])
  {
    var es' := es + [Request(key, t)];
    assert es'[..|es|] == es;
  }

  function BurstBucket(c: Config, n: nat): Option<Bucket> {
    if n == 0 then None
    else Some(if n <= c.max then Bucket(n, c.window) else Bucket(n - c.max, 2 * c.window + 1))
  }

  lemma {:induction false} BurstIsAdmitted(c: Config, n: nat)
    requires c.max >= 1 && c.window >= 1 && n <= 2 * c.max
    ensures At(LimitsAfter(Burst(c, n), c), "k") == BurstBucket(c, n)
    ensures Count(Admitted(Burst(c, n), "k", c), c.window, 2 * c.window) == (if n == 0 then 0 else n - 1)
  {
    hide LimitsAfter, Admitted, Count, At;
    if n == 0 {
      EmptyRun(c);
      NothingCounts(c.window, 2 * c.window);
    } else {
      var t := if n == 1 then 0 else if n <= c.max then c.window else c.window + 1;
      BurstIsAdmitted(c, n - 1);
      OneMoreRequest(Burst(c, n - 1), "k", t, c);
      CountOneMore(Admitted(Burst(c, n - 1), "k", c), t, c.window, 2 * c.window);
    }
  }

  lemma EmptyRun(c: Config)
    ensures At(LimitsAfter([], c), "k") == None && Admitted([], "k", c) == []
  {
  }

  /** So 2 * max - 1 cannot be improved: with a window of at least 1 this many are admitted in [window, 2 * window]. */
  lemma BoundIsMet(c: Config)
    requires c.max >= 1 && c.window >= 1
    ensures var es := Burst(c, 2 * c.max);
      Ordered(es) && Count(Admitted(es, "k", c), c.window, 2 * c.window) == 2 * c.max - 1
  {
    BurstIsOrdered(c, 2 * c.max);
    BurstIsAdmitted(c, 2 * c.max);
  }

  // ----- A limit that can change -----

  /** The limiter in use and its limit; a new limit starts with empty buckets. */
  datatype Dynamic = Dynamic(limits: Limits, limit: Option<int>, stopped: bool)

  function Prepared(d: Dynamic, limit: int): Dynamic {
    if d.limit == Some(limit) then d else d.(limits := map[], limit := Some(limit))
  }

  class DynamicRateLimiter {
    var state: Dynamic
    const window: nat

    constructor (window: nat)
      ensures state == Dynamic(map[], None, false) && this.window == window
    {
      state, this.window := Dynamic(map[], None, false), window;
    }

    method Allow(key: string, limit: int, now: int) returns (ok: bool)
      modifies `state
      ensures limit <= 0 || old(state).stopped ==> ok && state == old(state)
      ensures limit > 0 && !old(state).stopped ==>
        var d := Prepared(old(state), limit);
        var c := Config(limit, window);
        && ok == Admits(At(d.limits, key), now, c)
        && state == d.(limits := d.limits[key := Served(At(d.limits, key), now, c)])
      ensures limit > 0 && !old(state).stopped ==>
        var kept := if old(state).limit == Some(limit) then old(state).limits else map[];
        && (ok <==> key !in kept || now > kept[key].reset || kept[key].count < limit)
        && state == Dynamic(
          kept[key :=
            if key !in kept || now > kept[key].reset then Bucket(1, now + window)
            else if kept[key].count < limit then Bucket(kept[key].count + 1, kept[key].reset) else kept[key]],
          Some(limit), false)
    {
      if limit <= 0 { return true; }
      if state.stopped { return true; }
      if state.limit.None? || state.limit.value != limit {
        state := state.(limits := map[], limit := Some(limit));
      }
      var b := At(state.limits, key);
      ok := b.None? || now > b.value.reset || b.value.count < limit;
      state := state.(limits := state.limits[key := Served(b, now, Config(limit, window))]);
    }

    method Stop()
      modifies `state
      ensures state.stopped && (old(state).stopped ==> state == old(state))
    {
      if state.stopped { return; }
      state := Dynamic(map[], None, true);
    }
  }
}
