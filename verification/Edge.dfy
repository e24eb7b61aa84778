/** The edge's routing table: exact host names, and wildcards over their subdomains. */
module Edge {
  import opened Options

  /** Host "" stands for a TCP route, which this table ignores. */
  datatype Route = Route(host: string, target: string)

  /** What a rule is filed under: a name, or what follows the "*." of a wildcard. */
  datatype Key = Exact(name: string) | Wild(suffix: string)

  /** How a name is written in lower case. Nothing depends on which letters that changes. */
  type Fold = string -> string

  function KeyOf(lower: Fold, host: string): Key {
    var h := lower(host);
    if |h| >= 2 && h[0] == '*' && h[1] == '.' then Wild(h[2..]) else Exact(h)
  }

  /** The target of the last rule of the list that is filed under a key. */
  function LastRule(lower: Fold, routes: seq<Route>, key: Key): Option<string> {
    if routes == [] then None else
      var r := routes[|routes| - 1];
      if r.host != "" && KeyOf(lower, r.host) == key then Some(r.target)
      else LastRule(lower, routes[..|routes| - 1], key)
  }

  /** A dot in the name after which a wildcard rule of the list applies. */
  predicate WildAt(lower: Fold, routes: seq<Route>, name: string, i: nat) {
    i < |name| && name[i] == '.' && LastRule(lower, routes, Wild(name[i + 1..])).Some?
  }

  /** What a lookup has to answer: the exact rule, or else the wildcard with the longest suffix, or else nothing. */
  ghost predicate Answers(lower: Fold, routes: seq<Route>, name: string, r: Option<string>) {
    if LastRule(lower, routes, Exact(name)).Some? then r == LastRule(lower, routes, Exact(name))
    else if exists i: nat :: WildAt(lower, routes, name, i) then
      exists i: nat :: WildAt(lower, routes, name, i) && (forall j: nat :: j < i ==> !WildAt(lower, routes, name, j))
        && r == LastRule(lower, routes, Wild(name[i + 1..]))
    else r.None?
  }

  /** There is only one answer: tables of the same rules, fresh or rebuilt, cannot answer differently. */
  lemma OneAnswer(lower: Fold, routes: seq<Route>, name: string, r: Option<string>, r': Option<string>)
    requires Answers(lower, routes, name, r) && Answers(lower, routes, name, r')
    ensures r == r'
  {
  }

  /** The longest suffix wins over every shorter one. */
  lemma LongestSuffixWins(lower: Fold, routes: seq<Route>, name: string, r: Option<string>, i: nat)
    requires Answers(lower, routes, name, r) && WildAt(lower, routes, name, i)
    requires LastRule(lower, routes, Exact(name)).None?
    ensures exists j: nat ::
      j <= i && WildAt(lower, routes, name, j) && r == LastRule(lower, routes, Wild(name[j + 1..]))
  {
  }

  /** The last rule of a list for a name is filed under it, exactly or as "*." before it. */
  lemma LastRuleCounts(lower: Fold, routes: seq<Route>, r: Route, name: string)
    requires r.host != ""
    ensures lower(r.host) == name && !(|name| >= 2 && name[..2] == "*.") ==>
      LastRule(lower, routes + [r], Exact(name)) == Some(r.target)
    ensures lower(r.host) == "*." + name ==> LastRule(lower, routes + [r], Wild(name)) == Some(r.target)
  {
    assert (routes + [r])[..|routes|] == routes;
    assert ("*." + name)[2..] == name;
    if |name| >= 2 {
      assert name[..2] == [name[0], name[1]];
    }
  }

  /** So a wildcard rule answers for every subdomain that no other rule knows, whatever stands before the dot. */
  lemma WildcardServesSubdomains(lower: Fold, r: Route, name: string, front: string, answer: Option<string>)
    requires lower(r.host) == "*." + name && r.host != "" && '.' !in front
    requires Answers(lower, [r], front + "." + name, answer)
    ensures answer == Some(r.target)
  {
    var sub := front + "." + name;
    assert [] + [r] == [r];
    LastRuleCounts(lower, [], r, name);
    OneRule(lower, r, name);
    assert sub[|front| + 1..] == name && sub[|front|] == '.';
    assert WildAt(lower, [r], sub, |front|);
    forall j: nat | j < |front| ensures !WildAt(lower, [r], sub, j) {
      assert sub[j] == front[j];
    }
  }

  lemma OneRule(lower: Fold, r: Route, name: string)
    requires lower(r.host) == "*." + name
    ensures forall n :: LastRule(lower, [r], Exact(n)).None?
    ensures forall s :: LastRule(lower, [r], Wild(s)).Some? ==>
      s == name && LastRule(lower, [r], Wild(s)).value == r.target
  {
    assert [r][..0] == [];
    assert ("*." + name)[2..] == name;
  }

  /** Writing the hosts of the rules in another case changes nothing. */
  lemma {:induction false} CaseOfRulesIrrelevant(lower: Fold, routes: seq<Route>, routes': seq<Route>, key: Key)
    requires |routes| == |routes'|
    requires forall i :: 0 <= i < |routes| ==>
      && routes[i].target == routes'[i].target && lower(routes[i].host) == lower(routes'[i].host)
      && (routes[i].host == "" <==> routes'[i].host == "")
    ensures LastRule(lower, routes, key) == LastRule(lower, routes', key)
  {
    if routes != [] {
      var n := |routes| - 1;
      CaseOfRulesIrrelevant(lower, routes[..n], routes'[..n], key);
      assert lower(routes[n].host) == lower(routes'[n].host);
    }
  }

  // ----- The code -----

  function At(m: map<string, string>, k: string): Option<string> { if k in m then Some(m[k]) else None }

  ghost predicate Filed(lower: Fold, routes: seq<Route>, exact: map<string, string>, wildcard: map<string, string>) {
    && (forall n :: At(exact, n) == LastRule(lower, routes, Exact(n)))
    && (forall s :: At(wildcard, s) == LastRule(lower, routes, Wild(s)))
  }

  class Table {
    var exact: map<string, string>
    var wildcard: map<string, string>
    const lower: Fold
    ghost var routes: seq<Route>

    ghost predicate Valid() reads this { Filed(lower, routes, exact, wildcard) }

    /** NewTable. */
    constructor (routes: seq<Route>, lower: Fold)
      ensures Valid() && this.routes == routes && this.lower == lower
    {
      exact, wildcard, this.routes, this.lower := map[], map[], [], lower;
      new;
      for i := 0 to |routes|
        invariant Valid() && this.routes == routes[..i]
      {
        assert routes[..i + 1] == routes[..i] + [routes[i]];
        Add(routes[i]);
      }
      assert routes[..|routes|] == routes;
    }

    /** One turn of the loops that fill the table. */
    method Add(r: Route)
      requires Valid()
      modifies this
      ensures Valid() && routes == old(routes) + [r]
    {
      OneMoreRule(lower, routes, r);
      routes := routes + [r];
      if r.host != "" {
        AddLocked(r.host, r.target);
      }
    }

    method AddLocked(host: string, target: string)
      modifies `exact, `wildcard
      ensures match KeyOf(lower, host)
        case Exact(n) => exact == old(exact)[n := target] && wildcard == old(wildcard)
        case Wild(s) => exact == old(exact) && wildcard == old(wildcard)[s := target]
      ensures var h := lower(host);
        if |h| >= 2 && h[..2] == "*." then exact == old(exact) && wildcard == old(wildcard)[h[2..] := target]
        else exact == old(exact)[h := target] && wildcard == old(wildcard)
    {
      var h := lower(host);
      if |h| >= 2 && h[0] == '*' && h[1] == '.' {
        wildcard := wildcard[h[2..] := target];
      } else {
        exact := exact[h := target];
      }
    }

    /** Set: replaces the whole table, whatever it was. */
    method Set(rs: seq<Route>)
      modifies this
      ensures Valid() && routes == rs
    {
      exact, wildcard, routes := map[], map[], [];
      for i := 0 to |rs|
        invariant Valid() && routes == rs[..i]
      {
        assert rs[..i + 1] == rs[..i] + [rs[i]];
        Add(rs[i]);
      }
      assert rs[..|rs|] == rs;
    }

    method Lookup(host: string) returns (r: Option<string>)
      requires Valid()
      ensures Answers(lower, routes, lower(host), r)
    {
      hide Answers, WildAt, LastRule, Filed;
      var name := lower(host);
      FiledExact(lower, routes, exact, wildcard, name);
      if name in exact { return Some(exact[name]); }
      var rest := name;
      ghost var from: nat := 0;
      while true
        invariant from <= |name| && rest == name[from..]
        invariant forall j: nat :: j < from ==> !WildAt(lower, routes, name, j)
        decreases |rest|
      {
        var i := IndexOf(rest, '.');
        if i.None? { break; }
        var suffix := rest[i.value + 1..];
        NextDot(lower, routes, exact, wildcard, name, from, i.value);
        if suffix in wildcard { return Some(wildcard[suffix]); }
        rest, from := suffix, from + i.value + 1;
      }
      NoMoreDots(lower, routes, name, from);
      return None;
    }
  }

  lemma FiledExact(
      lower: Fold, routes: seq<Route>, exact: map<string, string>, wildcard: map<string, string>, name: string)
    requires Filed(lower, routes, exact, wildcard)
    ensures name in exact <==> LastRule(lower, routes, Exact(name)).Some?
    ensures name in exact ==> Answers(lower, routes, name, Some(exact[name]))
  {
    assert At(exact, name) == LastRule(lower, routes, Exact(name));
  }

  lemma NextDot(
      lower: Fold, routes: seq<Route>, exact: map<string, string>, wildcard: map<string, string>,
      name: string, from: nat, i: nat)
    requires Filed(lower, routes, exact, wildcard) && LastRule(lower, routes, Exact(name)).None?
    requires from + i < |name| && name[from + i] == '.' && forall j :: 0 <= j < i ==> name[from..][j] != '.'
    requires forall j: nat :: j < from ==> !WildAt(lower, routes, name, j)
    ensures var suffix := name[from..][i + 1..];
      && suffix == name[from + i + 1..]
      && (suffix in wildcard ==> Answers(lower, routes, name, Some(wildcard[suffix])))
      && (suffix !in wildcard ==> forall j: nat :: j < from + i + 1 ==> !WildAt(lower, routes, name, j))
  {
    var suffix := name[from..][i + 1..];
    assert suffix == name[from + i + 1..];
    assert At(wildcard, suffix) == LastRule(lower, routes, Wild(suffix));
    forall j: nat | j < from + i ensures !WildAt(lower, routes, name, j) {
      assert j >= from ==> name[j] == name[from..][j - from];
    }
    assert suffix in wildcard ==> WildAt(lower, routes, name, from + i);
  }

  lemma NoMoreDots(lower: Fold, routes: seq<Route>, name: string, from: nat)
    requires LastRule(lower, routes, Exact(name)).None? && from <= |name|
    requires forall j: nat :: j < from ==> !WildAt(lower, routes, name, j)
    requires forall j :: 0 <= j < |name[from..]| ==> name[from..][j] != '.'
    ensures Answers(lower, routes, name, None)
  {
    forall j: nat ensures !WildAt(lower, routes, name, j) {
      assert from <= j < |name| ==> name[j] == name[from..][j - from];
    }
  }

  method IndexOf(s: string, c: char) returns (i: Option<nat>)
    ensures i.Some? ==> i.value < |s| && s[i.value] == c && forall j :: 0 <= j < i.value ==> s[j] != c
    ensures i.None? ==> forall j :: 0 <= j < |s| ==> s[j] != c
  {
    for k := 0 to |s|
      invariant forall j :: 0 <= j < k ==> s[j] != c
    {
      if s[k] == c { return Some(k); }
    }
    return None;
  }

  lemma OneMoreRule(lower: Fold, routes: seq<Route>, r: Route)
    ensures forall key :: LastRule(lower, routes + [r], key) ==
              (if r.host != "" && KeyOf(lower, r.host) == key then Some(r.target) else LastRule(lower, routes, key))
  {
    assert (routes + [r])[..|routes|] == routes;
  }
}
