/** Allocation of overlay addresses. */
module Ipam {
  import opened Arith
  import opened Options

  // ----- Addresses and prefixes -----

  datatype Family = IPv4 | IPv6

  function Width(f: Family): nat { if f.IPv4? then 32 else 128 }

  datatype AddressData = Address(family: Family, value: nat)
  type Address = a: AddressData | a.value < Pow2(Width(a.family)) witness (assert Pow2(32) >= 1; Address(IPv4, 0))

  datatype PrefixData = Prefix(addr: Address, bits: nat)
  type Prefix = p: PrefixData | p.bits <= Width(p.addr.family) witness Prefix(Address(IPv4, 0), 0)

  /** How many addresses share the prefix. */
  function Size(p: Prefix): (n: nat)
    ensures n >= 1
  {
    Pow2(Width(p.addr.family) - p.bits)
  }

  function Masked(p: Prefix): Prefix {
    RemainderBelow(p.addr.value, Size(p));
    p.(addr := Address(p.addr.family, p.addr.value - p.addr.value % Size(p)))
  }

  predicate Contains(p: Prefix, a: Address) {
    a.family == p.addr.family && a.value / Size(p) == p.addr.value / Size(p)
  }

  /** The following address; there is none after the last of the family. */
  function Next(a: Address): Option<Address> {
    if a.value + 1 < Pow2(Width(a.family)) then Some(Address(a.family, a.value + 1)) else None
  }

  // Unsigned 32-bit arithmetic.
  const TWO32: nat := 0x1_0000_0000

  function Shl32(x: nat, n: nat): nat { x * Pow2(n) % TWO32 }
  function Add32(x: nat, y: nat): nat { (x + y) % TWO32 }
  function Sub32(x: nat, y: nat): nat
    requires x < TWO32 && y < TWO32
  {
    (x - y) % TWO32
  }

  /** lastIPv4: the address plus 1 << hostBits minus 1, all in 32 bits. */
  function LastIPv4(p: Prefix): Address
    requires p.addr.family.IPv4?
  {
    PowersOfTwo();
    Address(IPv4, Add32(p.addr.value, Sub32(Shl32(1, 32 - p.bits), 1)))
  }

  lemma PowersOfTwo()
    ensures Pow2(32) == TWO32
  {
    assert Pow2(8) == 256;
    PowAdds(8, 8);
    PowAdds(16, 16);
  }

  lemma {:induction false} PowAdds(m: nat, n: nat)
    ensures Pow2(m + n) == Pow2(m) * Pow2(n)
  {
    if m > 0 {
      PowAdds(m - 1, n);
      assert 2 * (Pow2(m - 1) * Pow2(n)) == (2 * Pow2(m - 1)) * Pow2(n);
    }
  }

  /** A masked prefix starts at a multiple of its size and ends inside the address space. */
  lemma MaskedFits(p: Prefix)
    ensures var m := Masked(p);
      && Size(m) == Size(p) && m.addr.value % Size(m) == 0
      && m.addr.value + Size(m) <= Pow2(Width(m.addr.family))
      && m.addr.value <= p.addr.value < m.addr.value + Size(m)
  {
    hide Pow2;
    var n, w := Size(p), Width(p.addr.family);
    var k := p.addr.value / n;
    assert p.addr.value == k * n + p.addr.value % n;
    var base := p.addr.value - p.addr.value % n;
    assert base == k * n + 0;
    DivModOf(k, 0, n);
    PowAdds(p.bits, w - p.bits);
    var m := Pow2(p.bits);
    assert m * n == Pow2(w);
    assert k * n == (k - m) * n + m * n;
    if k >= m {
      MulNonNegative(k - m, n);
    }
    MulNonNegative(m - k - 1, n);
    assert m * n == (m - k - 1) * n + k * n + n;
  }

  /** Masking only names the prefix by its first address: the addresses in it are the same, one after another. */
  lemma ContainsIsRange(p: Prefix, a: Address)
    ensures var m := Masked(p);
      && (Contains(m, a) <==> Contains(p, a))
      && (Contains(m, a) <==> a.family == m.addr.family && m.addr.value <= a.value < m.addr.value + Size(m))
  {
    hide Pow2;
    MaskedFits(p);
    var n, base := Size(p), Masked(p).addr.value;
    assert base == (base / n) * n + 0;
    assert p.addr.value == (base / n) * n + (p.addr.value - base);
    DivModOf(base / n, p.addr.value - base, n);
    assert a.value == (a.value / n) * n + a.value % n;
    if base <= a.value < base + n {
      assert a.value == (base / n) * n + (a.value - base);
      DivModOf(base / n, a.value - base, n);
    }
  }

  /** lastIPv4 is the last address of the prefix, for every length from /0 (where 1 << 32 is 0) to /32. */
  lemma LastIsBroadcast(p: Prefix, a: Address)
    requires p.addr.family.IPv4? && p == Masked(p)
    ensures LastIPv4(p).value == p.addr.value + Size(p) - 1
    ensures Contains(p, LastIPv4(p)) && (Contains(p, a) ==> a.value <= LastIPv4(p).value)
  {
    hide Pow2, Contains, Masked, Shl32, Size;
    MaskedFits(p);
    OneShifted(p);
    PowersOfTwo();
    ContainsIsRange(p, a);
    ContainsIsRange(p, LastIPv4(p));
  }

  lemma OneShifted(p: Prefix)
    requires p.addr.family.IPv4?
    ensures Size(p) <= TWO32
    ensures Shl32(1, 32 - p.bits) == if p.bits == 0 then 0 else Size(p)
    ensures p.bits == 0 <==> Size(p) == TWO32
  {
    hide Pow2;
    PowersOfTwo();
    if p.bits > 0 {
      Halves(p.bits, 32 - p.bits);
    }
  }

  lemma Halves(m: nat, n: nat)
    requires m > 0
    ensures Pow2(n) < Pow2(m + n)
  {
    PowAdds(m, n);
    var a, b := Pow2(m - 1), Pow2(n);
    assert Pow2(m) == 2 * a;
    MulAtLeast(a, b);
    assert Pow2(m) * b == 2 * (a * b);
  }

  // ----- The allocation table -----

  datatype Key = Key(network: int, ip: Address)
  datatype Row = Row(node: Option<int>)
  type Table = map<Key, Row>

  /** Addresses that are never handed out: the first, the IPv4 broadcast address and the excluded ones. */
  predicate Reserved(p: Prefix, exclude: set<Address>, a: Address) {
    || a in exclude || a == p.addr
    || (p.addr.family.IPv4? && p.bits < 32 && a == LastIPv4(p))
  }

  predicate Candidate(cidr: Prefix, exclude: set<Address>, a: Address) {
    Contains(cidr, a) && !Reserved(Masked(cidr), exclude, a)
  }

  datatype Wish = AnyAddress | Unreadable | This(ip: Address)

  datatype Error = BadCidr | BadAddress | Outside | Taken | Exhausted | Database

  datatype Result = Allocated(ip: Address) | Refused(error: Error)

  /** Which statements of one call fail: reading the table, and inserting certain addresses. */
  datatype Faults = Faults(select: bool, inserts: set<Address>)

  class Allocator {
    var table: Table

    constructor (table: Table)
      ensures this.table == table
    {
      this.table := table;
    }

    /** `allocated`: an unreadable table reads as empty. */
    method Snapshot(network: int, fails: bool) returns (ips: set<Address>)
      ensures fails ==> ips == {}
      ensures !fails ==> forall a :: a in ips <==> Key(network, a) in table
    {
      if fails { return {}; }
      ips := set k | k in table && k.network == network :: k.ip;
    }

    /** insert: ON CONFLICT DO NOTHING. */
    method Insert(network: int, ip: Address, fails: bool) returns (error: Option<Error>)
      modifies `table
      ensures error.None? <==> !fails && Key(network, ip) !in old(table)
      ensures error == Some(Taken) <==> !fails && Key(network, ip) in old(table)
      ensures error == Some(Database) <==> fails
      ensures table == if error.None? then old(table)[Key(network, ip) := Row(None)] else old(table)
    {
      if fails { return Some(Database); }
      if Key(network, ip) in table { return Some(Taken); }
      table := table[Key(network, ip) := Row(None)];
      return None;
    }

    /** Allocate, undisturbed by others. */
    method Allocate(network: int, cidr: Option<Prefix>, wish: Wish, exclude: set<Address>, f: Faults)
      returns (r: Result)
      modifies `table
      ensures AllocatesRightly(old(table), network, cidr, wish, exclude, f.inserts, r)
      ensures table == if r.Allocated? then old(table)[Key(network, r.ip) := Row(None)] else old(table)
    {
      hide Pow2, Contains, Masked, Size, LastIPv4;
      if cidr.None? { return Refused(BadCidr); }
      var prefix := Masked(cidr.value);
      var reserved := exclude + {prefix.addr};
      if prefix.addr.family.IPv4? && prefix.bits < 32 {
        reserved := reserved + {LastIPv4(prefix)};
      }
      var taken := Snapshot(network, f.select);
      reserved := reserved + taken;
      if wish.Unreadable? { return Refused(BadAddress); }
      if wish.This? {
        ContainsIsRange(cidr.value, wish.ip);
        if !Contains(prefix, wish.ip) { return Refused(Outside); }
        if wish.ip in reserved { return Refused(Taken); }
        var error := Insert(network, wish.ip, wish.ip in f.inserts);
        return if error.Some? then Refused(error.value) else Allocated(wish.ip);
      }
      r := Search(network, cidr.value, exclude, reserved, taken, f.inserts);
    }

    /** The search loop of Allocate. */
    method Search(network: int, cidr: Prefix, exclude: set<Address>, reserved: set<Address>,
                  ghost taken: set<Address>, failing: set<Address>)
      returns (r: Result)
      requires forall a :: a in reserved <==> Reserved(Masked(cidr), exclude, a) || a in taken
      requires forall a :: a in taken ==> Key(network, a) in table
      modifies `table
      ensures AllocatesRightly(old(table), network, Some(cidr), AnyAddress, exclude, failing, r)
      ensures table == if r.Allocated? then old(table)[Key(network, r.ip) := Row(None)] else old(table)
    {
      hide Pow2, Contains, Masked, Size, LastIPv4, Reserved;
      var prefix := Masked(cidr);
      FirstIsReserved(cidr, exclude);
      var ip := Next(prefix.addr);
      ghost var at := prefix.addr.value + 1;
      while ip.Some? && Contains(prefix, ip.value)
        invariant ip == AtValue(prefix.addr.family, at)
        invariant at <= prefix.addr.value + Size(prefix)
        invariant table == old(table)
        invariant forall a: Address ::
          Candidate(cidr, exclude, a) && a.value < at ==> Key(network, a) in table || a in failing
        decreases prefix.addr.value + Size(prefix) - at
      {
        ContainsIsRange(cidr, ip.value);
        if ip.value !in reserved {
          var error := Insert(network, ip.value, ip.value in failing);
          if error.None? { return Allocated(ip.value); }
        }
        SameValue(cidr, exclude, ip.value);
        ip := Next(ip.value);
        at := at + 1;
      }
      EndOfRange(cidr, exclude, ip, at);
      return Refused(Exhausted);
    }

    /** BindNode: no row, no effect. */
    method BindNode(network: int, ip: Address, node: int)
      modifies `table
      ensures table == Bound(old(table), network, ip, node)
      ensures table ==
        if Key(network, ip) in old(table) then old(table)[Key(network, ip) := Row(Some(node))] else old(table)
    {
      if Key(network, ip) in table {
        table := table[Key(network, ip) := Row(Some(node))];
      }
    }

    method ReleaseIP(network: int, ip: Address)
      modifies `table
      ensures table == old(table) - {Key(network, ip)}
    {
      table := table - {Key(network, ip)};
    }

    method ReleaseNode(node: int)
      modifies `table
      ensures table == Released(old(table), node)
      ensures forall k :: k in table <==> k in old(table) && old(table)[k].node != Some(node)
      ensures forall k :: k in table ==> table[k] == old(table)[k]
    {
      table := table - set k | k in table && table[k].node == Some(node);
    }
  }

  function Bound(t: Table, network: int, ip: Address, node: int): Table {
    if Key(network, ip) in t then t[Key(network, ip) := Row(Some(node))] else t
  }

  function Released(t: Table, node: int): Table {
    map k | k in t && t[k].node != Some(node) :: t[k]
  }

  /**
   * What a call promises about the table it met: an allocated address was free and allowed, and, unless
   * it was asked for by name, every lower address was taken, reserved or could not be inserted; a search
   * gives up only if that holds of all of them.
   */
  ghost predicate AllocatesRightly(
      t: Table, network: int, cidr: Option<Prefix>, wish: Wish, exclude: set<Address>, failing: set<Address>,
      r: Result) {
    match r
    case Allocated(ip) =>
      && cidr.Some? && Candidate(cidr.value, exclude, ip) && Key(network, ip) !in t && ip !in failing
      && (wish.AnyAddress? || wish == This(ip))
      && (wish.AnyAddress? ==> NoneFreeBelow(t, network, cidr.value, exclude, failing, Some(ip.value)))
    case Refused(BadCidr) => cidr.None?
    case Refused(BadAddress) => cidr.Some? && wish.Unreadable?
    case Refused(Outside) => cidr.Some? && wish.This? && !Contains(cidr.value, wish.ip)
    case Refused(Taken) =>
      && cidr.Some? && wish.This? && Contains(cidr.value, wish.ip)
      && (Reserved(Masked(cidr.value), exclude, wish.ip) || Key(network, wish.ip) in t)
    case Refused(Database) => cidr.Some? && wish.This? && wish.ip in failing
    case Refused(Exhausted) =>
      cidr.Some? && wish.AnyAddress? && NoneFreeBelow(t, network, cidr.value, exclude, failing, None)
  }

  ghost predicate NoneFreeBelow(
      t: Table, network: int, cidr: Prefix, exclude: set<Address>, failing: set<Address>, limit: Option<nat>) {
    forall a: Address :: Candidate(cidr, exclude, a) && (limit.Some? ==> a.value < limit.value) ==>
      Key(network, a) in t || a in failing
  }

  function AtValue(family: Family, v: nat): Option<Address> {
    if v < Pow2(Width(family)) then Some(Address(family, v)) else None
  }

  lemma FirstIsReserved(cidr: Prefix, exclude: set<Address>)
    ensures forall a: Address :: Candidate(cidr, exclude, a) ==> a.value >= Masked(cidr).addr.value + 1
    ensures Next(Masked(cidr).addr) == AtValue(cidr.addr.family, Masked(cidr).addr.value + 1)
    ensures Masked(cidr).addr.family == cidr.addr.family
  {
    forall a: Address | Candidate(cidr, exclude, a) ensures a.value >= Masked(cidr).addr.value + 1 {
      hide Pow2;
      ContainsIsRange(cidr, a);
      assert a == Address(a.family, a.value);
    }
  }

  lemma SameValue(cidr: Prefix, exclude: set<Address>, a: Address)
    ensures forall b: Address :: Candidate(cidr, exclude, b) && b.value == a.value && Contains(cidr, a) ==> b == a
  {
  }

  lemma EndOfRange(cidr: Prefix, exclude: set<Address>, ip: Option<Address>, at: nat)
    requires ip == AtValue(cidr.addr.family, at) && (ip.Some? ==> !Contains(Masked(cidr), ip.value))
    requires Masked(cidr).addr.value <= at <= Masked(cidr).addr.value + Size(Masked(cidr))
    ensures forall a: Address :: Candidate(cidr, exclude, a) ==> a.value < at
  {
    forall a: Address | Candidate(cidr, exclude, a) ensures a.value < at {
      hide Pow2;
      MaskedFits(cidr);
      ContainsIsRange(cidr, a);
      if ip.Some? {
        ContainsIsRange(cidr, ip.value);
      }
    }
  }

  /** Absent failures the promise leaves no choice: the least free address, or the one refusal that applies. */
  lemma ResultIsDetermined(
      t: Table, network: int, cidr: Option<Prefix>, wish: Wish, exclude: set<Address>, r: Result, r': Result)
    requires AllocatesRightly(t, network, cidr, wish, exclude, {}, r)
    requires AllocatesRightly(t, network, cidr, wish, exclude, {}, r')
    ensures r == r'
  {
    hide Pow2, LastIPv4, Masked, Size, Reserved;
    if r.Allocated? && r'.Allocated? && wish.AnyAddress? {
      assert r.ip.value == r'.ip.value;
    }
  }

  /** Taking an address and releasing it again, or binding it to a node and releasing the node, restores the table. */
  lemma ReleaseUndoesAllocate(t: Table, network: int, ip: Address, node: int)
    requires Key(network, ip) !in t && forall k :: k in t ==> t[k].node != Some(node)
    ensures t[Key(network, ip) := Row(None)] - {Key(network, ip)} == t
    ensures Released(Bound(t[Key(network, ip) := Row(None)], network, ip, node), node) == t
  {
  }

  lemma MaskedTwice(p: Prefix)
    ensures Masked(Masked(p)) == Masked(p)
  {
    hide Pow2;
    MaskedFits(p);
  }

  /**
   * Which addresses a call may give out, as numbers: all of the prefix but the first, the last of an IPv4
   * prefix shorter than 32 bits, and the excluded ones.
   */
  lemma CandidateExactly(cidr: Prefix, exclude: set<Address>, a: Address)
    ensures var n := Pow2((if cidr.addr.family.IPv4? then 32 else 128) - cidr.bits);
      var first := cidr.addr.value - cidr.addr.value % n;
      Candidate(cidr, exclude, a) <==>
        && a.family == cidr.addr.family && a !in exclude && first < a.value < first + n
        && (cidr.addr.family.IPv4? && cidr.bits < 32 ==> a.value != first + n - 1)
  {
    hide Pow2, LastIPv4;
    ContainsIsRange(cidr, a);
    MaskedTwice(cidr);
    if cidr.addr.family.IPv4? {
      LastIsBroadcast(Masked(cidr), a);
      assert a == Address(a.family, a.value);
    }
    hide Contains;
  }

  // ----- Concurrent calls -----

  /** A call in progress: what its SELECT returned, where its search is, and which inserts were refused. */
  datatype Call = Call(
    network: int, cidr: Prefix, wish: Wish, exclude: set<Address>,
    snapshot: set<Address>, at: nat, refused: set<Address>, result: Option<Result>)

  /** `holds` are the addresses that calls have returned and nobody has released since. */
  datatype State = State(table: Table, calls: map<int, Call>, holds: map<int, Key>)

  datatype Step =
    | Begin(c: int, network: int, cidr: Prefix, wish: Wish, exclude: set<Address>, readable: bool)
    | Try(c: int, fails: bool)         // one insert, or one turn of the search loop
    | Bind(network: int, ip: Address, node: int)
    | Release(network: int, ip: Address)
    | ReleaseAll(node: int)

  predicate Skips(call: Call, ip: Address) {
    Reserved(Masked(call.cidr), call.exclude, ip) || ip in call.snapshot
  }

  /** The address that the call looks at next, if it has one. */
  function Target(call: Call): Option<Address> {
    match call.wish
    case AnyAddress =>
      var ip := AtValue(call.cidr.addr.family, call.at);
      if ip.Some? && Contains(Masked(call.cidr), ip.value) then ip else None
    case This(ip) => if Contains(Masked(call.cidr), ip) && !Skips(call, ip) then Some(ip) else None
    case Unreadable => None
  }

  function GivesUpWith(call: Call): Error {
    match call.wish
    case AnyAddress => Exhausted
    case Unreadable => BadAddress
    case This(ip) => if Contains(Masked(call.cidr), ip) then Taken else Outside
  }

  ghost predicate Enabled(s: State, step: Step) {
    match step
    case Begin(c, _, _, _, _, _) => c !in s.calls
    case Try(c, _) => c in s.calls && s.calls[c].result.None?
    case _ => true
  }

  function Turn(s: State, c: int, fails: bool): State
    requires c in s.calls
  {
    var call := s.calls[c];
    var ip := Target(call);
    if ip.None? then
      s.(calls := s.calls[c := call.(result := Some(Refused(GivesUpWith(call))))])
    else if Skips(call, ip.value) then
      s.(calls := s.calls[c := call.(at := call.at + 1)])
    else
      var key := Key(call.network, ip.value);
      if !fails && key !in s.table then
        State(s.table[key := Row(None)], s.calls[c := call.(result := Some(Allocated(ip.value)))], s.holds[c := key])
      else if call.wish.AnyAddress? then
        s.(calls := s.calls[c := call.(at := call.at + 1, refused := call.refused + {ip.value})])
      else
        s.(calls := s.calls[c := call.(result := Some(Refused(if fails then Database else Taken)))])
  }

  /** After a deletion only calls whose address is still in the table hold it. */
  function Remaining(s: State, table: Table): State {
    s.(table := table, holds := map c | c in s.holds && s.holds[c] in table :: s.holds[c])
  }

  function Apply(s: State, step: Step): State {
    match step
    case Begin(c, network, cidr, wish, exclude, readable) =>
      var snapshot := if readable then (set k | k in s.table && k.network == network :: k.ip) else {};
      s.(calls := s.calls[c := Call(network, cidr, wish, exclude, snapshot, Masked(cidr).addr.value + 1, {}, None)])
    case Try(c, fails) => if c in s.calls then Turn(s, c, fails) else s
    case Bind(network, ip, node) => s.(table := Bound(s.table, network, ip, node))
    case Release(network, ip) => Remaining(s, s.table - {Key(network, ip)})
    case ReleaseAll(node) => Remaining(s, Released(s.table, node))
  }

  /** Held addresses are in the table, each is held once, and all that a search passed over it saw taken. */
  ghost predicate Inv(s: State) {
    && (forall c :: c in s.holds ==> c in s.calls && s.holds[c] in s.table && Returned(s.calls[c], s.holds[c]))
    && (forall c, d :: c in s.holds && d in s.holds && c != d ==> s.holds[c] != s.holds[d])
    && (forall c :: c in s.calls ==> Searched(s.calls[c]))
  }

  predicate Returned(call: Call, k: Key) {
    && call.result == Some(Allocated(k.ip)) && call.network == k.network
    && Candidate(call.cidr, call.exclude, k.ip) && (call.wish.AnyAddress? || call.wish == This(k.ip))
  }

  ghost predicate Searched(call: Call) {
    && Masked(call.cidr).addr.value + 1 <= call.at <= Masked(call.cidr).addr.value + Size(Masked(call.cidr))
    && (call.wish.AnyAddress? ==> SawTakenBelow(call, Some(call.at)))
    && (call.result == Some(Refused(Exhausted)) ==> SawTakenBelow(call, None))
  }

  /** Every candidate below the limit was in the table when the call read it, or its insert was refused. */
  ghost predicate SawTakenBelow(call: Call, limit: Option<nat>) {
    forall a: Address :: Candidate(call.cidr, call.exclude, a) && (limit.Some? ==> a.value < limit.value) ==>
      a in call.snapshot || a in call.refused
  }

  lemma BeginSearched(call: Call)
    requires call.at == Masked(call.cidr).addr.value + 1 && call.result.None?
    ensures Searched(call)
  {
    FirstIsReserved(call.cidr, call.exclude);
  }

  lemma PassedOver(call: Call, next: Call, ip: Address)
    requires Searched(call) && Target(call) == Some(ip) && call.wish.AnyAddress? && call.result.None?
    requires (next == call.(at := call.at + 1) && Skips(call, ip))
      || next == call.(at := call.at + 1, refused := call.refused + {ip})
    ensures Searched(next)
  {
    ContainsIsRange(call.cidr, ip);
    SameValue(call.cidr, call.exclude, ip);
    assert ip.value == call.at;
    hide Contains, Masked, Size, LastIPv4, Pow2;
  }

  lemma GaveUp(call: Call)
    requires Searched(call) && Target(call).None? && call.result.None?
    ensures Searched(call.(result := Some(Refused(GivesUpWith(call)))))
  {
    if call.wish.AnyAddress? {
      EndOfRange(call.cidr, call.exclude, AtValue(call.cidr.addr.family, call.at), call.at);
    }
  }

  lemma TurnSearches(s: State, c: int, fails: bool)
    requires c in s.calls && Searched(s.calls[c]) && s.calls[c].result.None?
    ensures Searched(Turn(s, c, fails).calls[c])
  {
    var call := s.calls[c];
    var ip := Target(call);
    if ip.None? {
      GaveUp(call);
    } else if call.wish.AnyAddress? {
      if Skips(call, ip.value) {
        PassedOver(call, call.(at := call.at + 1), ip.value);
      }
      PassedOver(call, call.(at := call.at + 1, refused := call.refused + {ip.value}), ip.value);
    }
  }

  lemma TargetIsCandidate(call: Call)
    requires Target(call).Some? && !Skips(call, Target(call).value)
    ensures Candidate(call.cidr, call.exclude, Target(call).value)
  {
    ContainsIsRange(call.cidr, Target(call).value);
  }

  lemma TurnKeepsInv(s: State, c: int, fails: bool)
    requires Inv(s) && c in s.calls && s.calls[c].result.None?
    ensures Inv(Turn(s, c, fails))
  {
    TurnSearches(s, c, fails);
    var call := s.calls[c];
    if Target(call).Some? && !Skips(call, Target(call).value) {
      TargetIsCandidate(call);
    }
    hide Searched, Candidate, Skips, Contains, Masked;
  }

  lemma StepKeepsInv(s: State, step: Step)
    requires Inv(s) && Enabled(s, step)
    ensures Inv(Apply(s, step))
  {
    match step
    case Try(c, fails) => TurnKeepsInv(s, c, fails);
    case Begin(c, network, cidr, wish, exclude, readable) => BeginSearched(Apply(s, step).calls[c]);
    case _ =>
  }

  ghost predicate Run(s: State, steps: seq<Step>, end: State)
    decreases |steps|
  {
    if steps == [] then s == end
    else Enabled(s, steps[0]) && Run(Apply(s, steps[0]), steps[1..], end)
  }

  lemma {:induction false} RunKeepsInv(s: State, steps: seq<Step>, end: State)
    requires Inv(s) && Run(s, steps, end)
    ensures Inv(end)
    decreases |steps|
  {
    hide Inv, Apply;
    if steps != [] {
      StepKeepsInv(s, steps[0]);
      RunKeepsInv(Apply(s, steps[0]), steps[1..], end);
    }
  }

  /** Whatever runs side by side, no two calls ever hold the same address of a network. */
  lemma NoAddressHeldTwice(table: Table, steps: seq<Step>, s: State, c: int, d: int)
    requires Run(State(table, map[], map[]), steps, s) && c in s.holds && d in s.holds && c != d
    ensures s.holds[c] != s.holds[d] && s.holds[c] in s.table
    ensures c in s.calls && Candidate(s.calls[c].cidr, s.calls[c].exclude, s.holds[c].ip)
  {
    RunKeepsInv(State(table, map[], map[]), steps, s);
  }

  // ----- A call that nothing disturbs -----

  /** A call that has read the table, which is as it was until the call has its result. */
  ghost predicate Alone(s: State, table: Table, c: int) {
    && c in s.calls && Searched(s.calls[c])
    && (forall a :: a in s.calls[c].snapshot <==> Key(s.calls[c].network, a) in table)
    && (forall a :: a in s.calls[c].refused ==> Key(s.calls[c].network, a) in table)
    && match s.calls[c].result
       case None => s.table == table
       case Some(r) =>
         var call := s.calls[c];
         && AllocatesRightly(table, call.network, Some(call.cidr), call.wish, call.exclude, {}, r)
         && s.table == if r.Allocated? then table[Key(call.network, r.ip) := Row(None)] else table
  }

  lemma TurnStaysAlone(s: State, table: Table, c: int)
    requires Alone(s, table, c) && s.calls[c].result.None?
    ensures Alone(Turn(s, c, false), table, c)
    ensures var call := Turn(s, c, false).calls[c]; call.result.Some? || call.at == s.calls[c].at + 1
  {
    var call := s.calls[c];
    TurnSearches(s, c, false);
    var ip := Target(call);
    if ip.Some? {
      ContainsIsRange(call.cidr, ip.value);
      if !Skips(call, ip.value) {
        TargetIsCandidate(call);
      }
    } else {
      GaveUp(call);
      if call.wish.This? {
        ContainsIsRange(call.cidr, call.wish.ip);
      }
    }
    hide Pow2, Masked, Contains, Reserved;
  }

  /** At most n turns of a call. */
  function TurnsOf(s: State, c: int, n: nat): State
    requires c in s.calls
    decreases n
  {
    if n == 0 || s.calls[c].result.Some? then s else TurnsOf(Turn(s, c, false), c, n - 1)
  }

  /**
   * So a call that takes its turns undisturbed does what Allocate does, and comes to an end: each turn of
   * its search that brings no result moves on by one address.
   */
  lemma {:induction false} UndisturbedCallAllocates(s: State, table: Table, c: int, n: nat)
    requires Alone(s, table, c)
    ensures Alone(TurnsOf(s, c, n), table, c)
    ensures n > Masked(s.calls[c].cidr).addr.value + Size(Masked(s.calls[c].cidr)) - s.calls[c].at ==>
      TurnsOf(s, c, n).calls[c].result.Some?
    decreases n
  {
    if n > 0 && s.calls[c].result.None? {
      TurnStaysAlone(s, table, c);
      TurnKeepsCidr(s, c);
      UndisturbedCallAllocates(Turn(s, c, false), table, c, n - 1);
    }
  }

  lemma TurnKeepsCidr(s: State, c: int)
    requires c in s.calls
    ensures Turn(s, c, false).calls[c].cidr == s.calls[c].cidr
  {
    hide Target, Skips, Masked, GivesUpWith;
  }

  lemma BeginIsAlone(s: State, c: int, network: int, cidr: Prefix, wish: Wish, exclude: set<Address>)
    requires c !in s.calls
    ensures Alone(Apply(s, Begin(c, network, cidr, wish, exclude, true)), s.table, c)
  {
    BeginSearched(Apply(s, Begin(c, network, cidr, wish, exclude, true)).calls[c]);
  }

  // ----- What a search has met -----

  function After(s: State, steps: seq<Step>): State
    decreases |steps|
  {
    if steps == [] then s else After(Apply(s, steps[0]), steps[1..])
  }

  lemma {:induction false} RunEndsAfter(s: State, steps: seq<Step>, end: State)
    requires Run(s, steps, end)
    ensures end == After(s, steps)
    decreases |steps|
  {
    hide Apply;
    if steps != [] {
      RunEndsAfter(Apply(s, steps[0]), steps[1..], end);
    }
  }

  lemma {:induction false} AfterOneMore(s: State, steps: seq<Step>, step: Step)
    ensures After(s, steps + [step]) == Apply(After(s, steps), step)
    decreases |steps|
  {
    hide Apply;
    if steps == [] {
      assert [step][1..] == [];
    } else {
      assert (steps + [step])[1..] == steps[1..] + [step];
      AfterOneMore(Apply(s, steps[0]), steps[1..], step);
    }
  }

  /** After the first i steps the call is under way, and the address is in the table or is failing to be inserted. */
  predicate MetAt(s: State, steps: seq<Step>, c: int, a: Address, i: nat) {
    && i <= |steps|
    && var now := After(s, steps[..i]);
       c in now.calls && now.calls[c].result.None?
       && (Key(now.calls[c].network, a) in now.table
           || (i < |steps| && steps[i] == Try(c, true) && Target(now.calls[c]) == Some(a)))
  }

  ghost predicate Met(s: State, steps: seq<Step>, c: int, a: Address) { exists i: nat :: MetAt(s, steps, c, a, i) }

  lemma MetStays(s: State, steps: seq<Step>, step: Step, c: int, a: Address)
    requires Met(s, steps, c, a)
    ensures Met(s, steps + [step], c, a)
  {
    hide After, Target;
    var i: nat :| MetAt(s, steps, c, a, i);
    assert (steps + [step])[..i] == steps[..i];
    assert MetAt(s, steps + [step], c, a, i);
  }

  /** All that the call has noted down, as taken or as refused, it has met. */
  ghost predicate NotesMet(s: State, steps: seq<Step>, c: int) {
    c in After(s, steps).calls ==>
      var call := After(s, steps).calls[c];
      forall a :: a in call.snapshot || a in call.refused ==> Met(s, steps, c, a)
  }

  /** What a step adds to the notes of a call. */
  lemma NewNotes(now: State, step: Step, c: int, a: Address)
    requires Enabled(now, step) && c in Apply(now, step).calls
    requires a in Apply(now, step).calls[c].snapshot || a in Apply(now, step).calls[c].refused
    ensures (c in now.calls && (a in now.calls[c].snapshot || a in now.calls[c].refused))
      || (step.Begin? && Apply(now, step).calls[c].result.None?
          && Key(Apply(now, step).calls[c].network, a) in Apply(now, step).table)
      || (step.Try? && step.c == c && c in now.calls && now.calls[c].result.None? && Target(now.calls[c]) == Some(a)
          && (step.fails || Key(now.calls[c].network, a) in now.table))
  {
    hide Target, Skips, Masked, GivesUpWith;
  }

  lemma StepKeepsNotesMet(s: State, steps: seq<Step>, step: Step, c: int)
    requires Enabled(After(s, steps), step) && NotesMet(s, steps, c)
    ensures NotesMet(s, steps + [step], c)
  {
    var now, more, n := After(s, steps), steps + [step], |steps|;
    AfterOneMore(s, steps, step);
    assert more[..n] == steps && more[..n + 1] == more && more[n] == step;
    hide After, Apply, Target, Enabled;
    if c in Apply(now, step).calls {
      var call := Apply(now, step).calls[c];
      forall a | a in call.snapshot || a in call.refused ensures Met(s, more, c, a) {
        NewNotes(now, step, c, a);
        if c in now.calls && (a in now.calls[c].snapshot || a in now.calls[c].refused) {
          MetStays(s, steps, step, c, a);
        } else if step.Begin? {
          assert MetAt(s, more, c, a, n + 1);
        } else {
          assert MetAt(s, more, c, a, n);
        }
      }
    }
  }

  lemma {:induction false} RunKeepsNotesMet(s: State, done: seq<Step>, steps: seq<Step>, end: State, c: int)
    requires Run(After(s, done), steps, end) && NotesMet(s, done, c)
    ensures NotesMet(s, done + steps, c)
    decreases |steps|
  {
    hide After, Apply, Enabled, NotesMet;
    if steps == [] {
      assert done + steps == done;
    } else {
      StepKeepsNotesMet(s, done, steps[0], c);
      AfterOneMore(s, done, steps[0]);
      RunKeepsNotesMet(s, done + [steps[0]], steps[1..], end, c);
      assert done + [steps[0]] + steps[1..] == done + steps;
    }
  }

  /**
   * A call that reports exhaustion has met every address it may give out: at some moment of the run
   * while the call was under way the address was in the table, or the call's own insert of it failed.
   */
  lemma ExhaustedMetAll(table: Table, steps: seq<Step>, s: State, c: int, a: Address)
    requires Run(State(table, map[], map[]), steps, s) && c in s.calls && s.calls[c].result == Some(Refused(Exhausted))
    requires Candidate(s.calls[c].cidr, s.calls[c].exclude, a)
    ensures Met(State(table, map[], map[]), steps, c, a)
  {
    var start := State(table, map[], map[]);
    RunKeepsInv(start, steps, s);
    RunEndsAfter(start, steps, s);
    assert After(start, []) == start && [] + steps == steps;
    hide Run, Met, After, Candidate;
    RunKeepsNotesMet(start, [], steps, s, c);
    assert SawTakenBelow(s.calls[c], None);
  }
}
