/**
`classifyInventory` of cmd/kakt/spoke_match_inventory.go: every relationship between the machines
a hub holds and the servers the provider has, and the rule that releases a recovered cluster.
*/
module Inventory {
  import opened Options
  import opened Digits
  import opened Text
  import opened Sorting

  datatype Machine = Machine(name: string, providerID: string)

  /** A server; its label is the machine name the controller stamped on it, or empty. */
  datatype Server = Server(id: int, tag: string)

  datatype State = Matched | ObjectWithoutServer | ServerWithoutObject | Ambiguous | Conflicting | Unattributable

  datatype Row = Row(machine: string, servers: seq<int>, state: State)

  const PREFIX_ID := "hcloud://"
  const MAX_INT64 := 0x7FFF_FFFF_FFFF_FFFF

  /** `strconv.ParseInt(s, 10, 64)` */
  function ParseInt64(s: string): Option<int> {
    var negative := s != "" && s[0] == '-';
    var digits := if s != "" && (s[0] == '-' || s[0] == '+') then s[1..] else s;
    if digits == "" || !AllDigits(digits) then None
    else
      var n := DecimalValue(digits);
      if negative && n <= MAX_INT64 + 1 then Some(0 - n)
      else if !negative && n <= MAX_INT64 then Some(n)
      else None
  }

  function ServerIDFromProviderID(p: string): Option<int> {
    if |p| >= |PREFIX_ID| && p[..|PREFIX_ID|] == PREFIX_ID then ParseInt64(p[|PREFIX_ID|..]) else None
  }

  predicate Agrees(m: Machine, id: int) {
    ServerIDFromProviderID(m.providerID).Some? ==> ServerIDFromProviderID(m.providerID).value == id
  }

  /** `strconv.FormatInt(n, 10)` */
  function Print(n: int): string {
    if n < 0 then "-" + Decimal(-n) else Decimal(n)
  }

  /** A sign or none, and digits. */
  predicate IsSigned(s: string) {
    s != "" &&
    var digits := if s[0] == '-' || s[0] == '+' then s[1..] else s;
    digits != "" && AllDigits(digits)
  }

  /** What is read is a signed number of 64 bits. */
  lemma ParsedIsSigned(s: string)
    requires ParseInt64(s).Some?
    ensures IsSigned(s) && -MAX_INT64 - 1 <= ParseInt64(s).value <= MAX_INT64
  {
    assert s != "";
  }

  lemma ParseDigits(sign: string, d: string)
    requires sign == "" || sign == "-"
    requires d != "" && AllDigits(d)
    ensures ParseInt64(sign + d) ==
      if sign == "-" then (if DecimalValue(d) <= MAX_INT64 + 1 then Some(0 - DecimalValue(d)) else None)
      else if DecimalValue(d) <= MAX_INT64 then Some(DecimalValue(d)) else None
  {
    var s := sign + d;
    assert IsDigit(d[0]) && d[0] != '-' && d[0] != '+';
    if sign == "" {
      assert s == d;
    } else {
      assert s[0] == '-' && s[1..] == d;
    }
  }

  /** A number that 64 bits hold is read back from its decimal form, and no other is. */
  lemma ParsesWhatIsPrinted(n: int)
    ensures ParseInt64(Print(n)) == if -MAX_INT64 - 1 <= n <= MAX_INT64 then Some(n) else None
  {
    var m := if n < 0 then -n else n;
    DecimalRoundTrip(m);
    ParseDigits(if n < 0 then "-" else "", Decimal(m));
    assert "" + Decimal(m) == Decimal(m);
  }

  /** The provider id `hcloud://<n>` names server n; an id without that beginning names none. */
  lemma ProviderIDNamesItsServer(n: int, p: string)
    requires -MAX_INT64 - 1 <= n <= MAX_INT64
    ensures ServerIDFromProviderID(PREFIX_ID + Print(n)) == Some(n)
    ensures !StartsWith(p, PREFIX_ID) ==> ServerIDFromProviderID(p) == None
  {
    var q := PREFIX_ID + Print(n);
    assert q[..|PREFIX_ID|] == PREFIX_ID && q[|PREFIX_ID|..] == Print(n);
    ParsesWhatIsPrinted(n);
  }

  /** So a machine that names a server agrees with that one alone, and one that names none with any. */
  lemma AgreesExactly(m: Machine, n: int, id: int)
    requires -MAX_INT64 - 1 <= n <= MAX_INT64
    ensures m.providerID == PREFIX_ID + Print(n) ==> (Agrees(m, id) <==> id == n)
    ensures !StartsWith(m.providerID, PREFIX_ID) ==> Agrees(m, id)
  {
    ProviderIDNamesItsServer(n, m.providerID);
  }

  // ----- The specification, by counting -----

  function Count<T>(s: seq<T>, p: T -> bool): nat {
    if s == [] then 0 else Count(s[..|s| - 1], p) + if p(s[|s| - 1]) then 1 else 0
  }

  function Carriers(servers: seq<Server>, name: string): nat {
    Count(servers, (s: Server) => s.tag == name)
  }

  predicate IsMatched(m: Machine, servers: seq<Server>) {
    && m.name != "" && Carriers(servers, m.name) == 1
    && forall s :: s in servers && s.tag == m.name ==> Agrees(m, s.id)
  }

  predicate IsClaimed(s: Server, machines: seq<Machine>) {
    s.tag != "" && exists m :: m in machines && m.name == s.tag
  }

  function MatchedCount(machines: seq<Machine>, servers: seq<Server>): nat {
    Count(machines, (m: Machine) => IsMatched(m, servers))
  }

  function UnclaimedCount(machines: seq<Machine>, servers: seq<Server>): nat {
    Count(servers, (s: Server) => !IsClaimed(s, machines))
  }

  lemma {:induction false} CountAtMost<T>(s: seq<T>, p: T -> bool)
    ensures Count(s, p) <= |s|
    ensures Count(s, p) == |s| <==> forall i :: 0 <= i < |s| ==> p(s[i])
    ensures Count(s, p) == 0 <==> forall i :: 0 <= i < |s| ==> !p(s[i])
  {
    if s != [] {
      CountAtMost(s[..|s| - 1], p);
    }
  }

  lemma {:induction false} CountConcat<T>(a: seq<T>, b: seq<T>, p: T -> bool)
    ensures Count(a + b, p) == Count(a, p) + Count(b, p)
    decreases |b|
  {
    if b == [] {
      assert a + b == a;
    } else {
      assert (a + b)[..|a + b| - 1] == a + b[..|b| - 1];
      CountConcat(a, b[..|b| - 1], p);
    }
  }

  lemma Take<T>(b: seq<T>, x: T) returns (c: seq<T>)
    requires x in b
    ensures multiset(b) == multiset(c) + multiset{x} && |c| == |b| - 1
    ensures forall p: T -> bool :: Count(b, p) == Count(c, p) + if p(x) then 1 else 0
  {
    var i :| 0 <= i < |b| && b[i] == x;
    c := b[..i] + b[i + 1..];
    assert b == b[..i] + [x] + b[i + 1..];
    forall p: T -> bool ensures Count(b, p) == Count(c, p) + if p(x) then 1 else 0 {
      CountConcat(b[..i], b[i + 1..], p);
      CountConcat(b[..i] + [x], b[i + 1..], p);
      CountConcat(b[..i], [x], p);
      assert Count([x], p) == if p(x) then 1 else 0;
    }
  }

  /** A count over a list does not depend on its order. */
  lemma {:induction false} CountPermuted<T>(a: seq<T>, b: seq<T>, p: T -> bool)
    requires multiset(a) == multiset(b)
    ensures Count(a, p) == Count(b, p)
    decreases |a|
  {
    if a == [] {
      assert |multiset(b)| == 0;
    } else {
      var front, x := a[..|a| - 1], a[|a| - 1];
      assert a == front + [x];
      assert x in multiset(b);
      var c := Take(b, x);
      assert multiset(front) == multiset(a) - multiset{x};
      CountPermuted(front, c, p);
    }
  }

  lemma {:induction false} CountSame<T>(s: seq<T>, p: T -> bool, q: T -> bool)
    requires forall i :: 0 <= i < |s| ==> p(s[i]) == q(s[i])
    ensures Count(s, p) == Count(s, q)
  {
    if s != [] {
      CountSame(s[..|s| - 1], p, q);
    }
  }

  /** Neither count changes when either inventory is listed in another order. */
  lemma CountsIgnoreOrder(m: seq<Machine>, m': seq<Machine>, s: seq<Server>, s': seq<Server>)
    requires multiset(m) == multiset(m') && multiset(s) == multiset(s')
    ensures MatchedCount(m, s) == MatchedCount(m', s')
    ensures UnclaimedCount(m, s) == UnclaimedCount(m', s')
  {
    forall x: Machine ensures IsMatched(x, s) <==> IsMatched(x, s') {
      CountPermuted(s, s', (t: Server) => t.tag == x.name);
      forall t: Server ensures t in s <==> t in s' {
        SameMembers(s, s', t);
      }
    }
    CountPermuted(m, m', (x: Machine) => IsMatched(x, s));
    CountSame(m', (x: Machine) => IsMatched(x, s), (x: Machine) => IsMatched(x, s'));
    forall t: Server ensures IsClaimed(t, m) <==> IsClaimed(t, m') {
      forall x: Machine ensures x in m <==> x in m' {
        SameMembers(m, m', x);
      }
    }
    CountPermuted(s, s', (t: Server) => !IsClaimed(t, m));
    CountSame(s', (t: Server) => !IsClaimed(t, m), (t: Server) => !IsClaimed(t, m'));
  }

  // ----- The classifier -----

  /** The servers stamped with a name, in listing order. */
  function Stamped(servers: seq<Server>, name: string): seq<Server> {
    if servers == [] then []
    else
      var last := servers[|servers| - 1];
      Stamped(servers[..|servers| - 1], name) + if last.tag == name then [last] else []
  }

  lemma {:induction false} StampedIsCarriers(servers: seq<Server>, name: string)
    ensures |Stamped(servers, name)| == Carriers(servers, name)
    ensures forall s :: s in Stamped(servers, name) <==> s in servers && s.tag == name
  {
    if servers != [] {
      var front, last := servers[..|servers| - 1], servers[|servers| - 1];
      StampedIsCarriers(front, name);
      assert servers == front + [last];
    }
  }

  /** The index by stamped name; servers without one are not in it. */
  method ByMachineName(servers: seq<Server>) returns (index: map<string, seq<Server>>)
    ensures "" !in index
    ensures forall n :: n != "" ==> Stamped(servers, n) == if n in index then index[n] else []
  {
    index := map[];
    for i := 0 to |servers|
      invariant "" !in index
      invariant forall n :: n != "" ==> Stamped(servers[..i], n) == if n in index then index[n] else []
    {
      var s := servers[i];
      assert servers[..i + 1][..i] == servers[..i];
      if s.tag != "" {
        index := index[s.tag := (if s.tag in index then index[s.tag] else []) + [s]];
      }
    }
    assert servers[..|servers|] == servers;
  }

  /** The row of one machine, from the servers found under its name. */
  function MachineRow(m: Machine, found: seq<Server>): (r: Row)
    ensures r.machine == m.name
  {
    var ids := seq(|found|, i requires 0 <= i < |found| => found[i].id);
    if |found| == 0 then Row(m.name, [], ObjectWithoutServer)
    else if |found| > 1 then Row(m.name, ids, Ambiguous)
    else if !Agrees(m, found[0].id) then Row(m.name, ids, Conflicting)
    else Row(m.name, ids, Matched)
  }

  /**
  A machine's row says matched exactly when one server carries its name and no id contradicts it,
  missing when none does, ambiguous when several do, and conflicting when only the id is against it.
  */
  lemma MachineRowIsRight(m: Machine, servers: seq<Server>)
    ensures var row := RowOf(m, servers);
      && (row.state == Matched <==> IsMatched(m, servers))
      && (row.state == ObjectWithoutServer <==> m.name == "" || Carriers(servers, m.name) == 0)
      && (row.state == Ambiguous <==> m.name != "" && Carriers(servers, m.name) > 1)
      && (row.state == Conflicting <==> m.name != "" && Carriers(servers, m.name) == 1 && !IsMatched(m, servers))
  {
    StampedIsCarriers(servers, m.name);
    if m.name != "" && Carriers(servers, m.name) == 1 {
      OnlyCarrierDecides(m, servers);
    }
  }

  /** A machine whose name one server carries is matched exactly when its id is not against that server. */
  lemma OnlyCarrierDecides(m: Machine, servers: seq<Server>)
    requires m.name != "" && |Stamped(servers, m.name)| == 1
    ensures IsMatched(m, servers) <==> Agrees(m, Stamped(servers, m.name)[0].id)
  {
    StampedIsCarriers(servers, m.name);
    OnlyMember(servers, m.name, Stamped(servers, m.name));
  }

  lemma OnlyMember(servers: seq<Server>, name: string, found: seq<Server>)
    requires |found| == 1 && forall s :: s in found <==> s in servers && s.tag == name
    ensures found[0] in servers && found[0].tag == name
    ensures forall s :: s in servers && s.tag == name ==> s == found[0]
  {
    assert found[0] in found;
    assert found == [found[0]];
  }

  lemma IdsInRow(m: Machine, found: seq<Server>)
    ensures |MachineRow(m, found).servers| == |found|
    ensures forall id :: id in MachineRow(m, found).servers <==> exists s :: s in found && s.id == id
  {
    var ids := MachineRow(m, found).servers;
    forall s | s in found ensures s.id in ids {
      var i :| 0 <= i < |found| && found[i] == s;
      assert ids[i] == s.id;
    }
    forall id | id in ids ensures exists s :: s in found && s.id == id {
      var i :| 0 <= i < |ids| && ids[i] == id;
      assert found[i] in found && found[i].id == id;
    }
  }

  /** And it lists the servers that carry the machine's name, all of them and no other. */
  lemma MachineRowListsItsServers(m: Machine, servers: seq<Server>, id: int)
    ensures |RowOf(m, servers).servers| == if m.name == "" then 0 else Carriers(servers, m.name)
    ensures id in RowOf(m, servers).servers <==>
      m.name != "" && exists s :: s in servers && s.tag == m.name && s.id == id
  {
    StampedIsCarriers(servers, m.name);
    IdsInRow(m, if m.name == "" then [] else Stamped(servers, m.name));
  }

  function RowOf(m: Machine, servers: seq<Server>): Row {
    MachineRow(m, if m.name == "" then [] else Stamped(servers, m.name))
  }

  function RowsOf(machines: seq<Machine>, servers: seq<Server>): (rows: seq<Row>)
    ensures |rows| == |machines|
  {
    if machines == [] then []
    else RowsOf(machines[..|machines| - 1], servers) + [RowOf(machines[|machines| - 1], servers)]
  }

  function Matches(servers: seq<Server>): Machine -> bool {
    (m: Machine) => IsMatched(m, servers)
  }

  function Unanswered(machines: seq<Machine>): Server -> bool {
    (s: Server) => !IsClaimed(s, machines)
  }

  /** The body of the first loop. */
  method RowFor(m: Machine, byMachineName: map<string, seq<Server>>, ghost servers: seq<Server>) returns (row: Row)
    requires "" !in byMachineName
    requires forall n :: n != "" ==> Stamped(servers, n) == if n in byMachineName then byMachineName[n] else []
    ensures row == RowOf(m, servers)
    ensures row.state == Matched <==> Matches(servers)(m)
  {
    var found := if m.name in byMachineName then byMachineName[m.name] else [];
    MachineRowIsRight(m, servers);
    row := MachineRow(m, found);
  }

  lemma CountSnoc<T>(s: seq<T>, x: T, p: T -> bool)
    ensures Count(s + [x], p) == Count(s, p) + if p(x) then 1 else 0
  {
    assert (s + [x])[..|s|] == s;
  }

  lemma RowsSnoc(machines: seq<Machine>, m: Machine, servers: seq<Server>)
    ensures RowsOf(machines + [m], servers) == RowsOf(machines, servers) + [RowOf(m, servers)]
  {
    assert (machines + [m])[..|machines|] == machines;
  }

  /** The names that some machine carries. */
  ghost predicate ClaimedBy(machines: seq<Machine>, claimed: set<string>) {
    forall n :: n in claimed <==> exists m :: m in machines && m.name == n
  }

  lemma ClaimedSnoc(machines: seq<Machine>, m: Machine, claimed: set<string>)
    requires ClaimedBy(machines, claimed)
    ensures ClaimedBy(machines + [m], claimed + {m.name})
  {
    assert m in machines + [m];
  }

  /** The first loop: one row per machine, and the names that are claimed. */
  method ClassifyMachines(machines: seq<Machine>, servers: seq<Server>)
    returns (rows: seq<Row>, claimed: set<string>, matched: nat, unresolved: nat)
    ensures matched == Count(machines, Matches(servers))
    ensures matched + unresolved == |machines| == |rows|
    ensures rows == RowsOf(machines, servers)
    ensures ClaimedBy(machines, claimed)
  {
    var byMachineName := ByMachineName(servers);
    ghost var matches := Matches(servers);
    claimed := {};
    rows, matched, unresolved := [], 0, 0;
    for i := 0 to |machines|
      invariant ClaimedBy(machines[..i], claimed)
      invariant matched == Count(machines[..i], matches)
      invariant matched + unresolved == i == |rows|
      invariant rows == RowsOf(machines[..i], servers)
    {
      var m := machines[i];
      assert machines[..i + 1] == machines[..i] + [m];
      ClaimedSnoc(machines[..i], m, claimed);
      CountSnoc(machines[..i], m, matches);
      RowsSnoc(machines[..i], m, servers);
      claimed := claimed + {m.name};
      var row := RowFor(m, byMachineName, servers);
      rows := rows + [row];
      if row.state == Matched {
        matched := matched + 1;
      } else {
        unresolved := unresolved + 1;
      }
    }
    assert machines[..|machines|] == machines;
  }

  /** A row for each server no machine answers for: unattributable without a name, otherwise objectless. */
  function RowsOfUnclaimed(machines: seq<Machine>, servers: seq<Server>): (rows: seq<Row>)
    ensures forall i :: 0 <= i < |rows| ==> rows[i].state != Matched
  {
    if servers == [] then []
    else
      var rest, s := RowsOfUnclaimed(machines, servers[..|servers| - 1]), servers[|servers| - 1];
      if s.tag == "" then rest + [Row("-", [s.id], Unattributable)]
      else if !IsClaimed(s, machines) then rest + [Row("-", [s.id], ServerWithoutObject)]
      else rest
  }

  /** The row of a server no machine answers for: it has no name, or its name is no object's. */
  predicate IsUnclaimedRow(machines: seq<Machine>, s: Server, row: Row) {
    && !IsClaimed(s, machines) && row.machine == "-" && row.servers == [s.id]
    && (row.state == Unattributable <==> s.tag == "") && (row.state == ServerWithoutObject <==> s.tag != "")
  }

  /** Every such server has its row, and every row is one's. */
  lemma {:induction false} UnclaimedRowsAreRight(machines: seq<Machine>, servers: seq<Server>)
    ensures forall s :: s in servers && !IsClaimed(s, machines) ==>
      exists row :: row in RowsOfUnclaimed(machines, servers) && IsUnclaimedRow(machines, s, row)
    ensures forall row :: row in RowsOfUnclaimed(machines, servers) ==>
      exists s :: s in servers && IsUnclaimedRow(machines, s, row)
  {
    if servers != [] {
      var front, last := servers[..|servers| - 1], servers[|servers| - 1];
      var rest, all := RowsOfUnclaimed(machines, front), RowsOfUnclaimed(machines, servers);
      UnclaimedRowsAreRight(machines, front);
      assert servers == front + [last];
      if !IsClaimed(last, machines) {
        var row := all[|all| - 1];
        assert all == rest + [row] && IsUnclaimedRow(machines, last, row);
        assert row in all;
      }
    }
  }

  /** The second loop: a row for each server that no machine answers for. */
  method ClassifyServers(machines: seq<Machine>, servers: seq<Server>, claimed: set<string>)
    returns (rows: seq<Row>, unresolved: nat)
    requires ClaimedBy(machines, claimed)
    ensures unresolved == |rows| == Count(servers, Unanswered(machines))
    ensures rows == RowsOfUnclaimed(machines, servers)
  {
    rows, unresolved := [], 0;
    for i := 0 to |servers|
      invariant unresolved == |rows| == Count(servers[..i], Unanswered(machines))
      invariant rows == RowsOfUnclaimed(machines, servers[..i])
    {
      var s := servers[i];
      assert servers[..i + 1][..i] == servers[..i];
      if s.tag == "" || s.tag !in claimed {
        unresolved := unresolved + 1;
        rows := rows + [Row("-", [s.id], if s.tag == "" then Unattributable else ServerWithoutObject)];
      }
    }
    assert servers[..|servers|] == servers;
  }

  function StateName(s: State): string {
    match s
    case Matched => "matched"
    case ObjectWithoutServer => "object-without-server"
    case ServerWithoutObject => "server-without-object"
    case Ambiguous => "ambiguous"
    case Conflicting => "conflicting"
    case Unattributable => "unattributable"
  }

  /** The order rows are shown in: by the name of their state, then by object. */
  predicate RowBefore(a: Row, b: Row) {
    if StateName(a.state) != StateName(b.state) then Less(StateName(a.state), StateName(b.state))
    else NotAfter(a.machine, b.machine)
  }

  lemma RowOrder()
    ensures IsPreorder(RowBefore)
  {
    forall a, b ensures RowBefore(a, b) || RowBefore(b, a) {
      LessIsTotal(StateName(a.state), StateName(b.state));
      LessIsTotal(a.machine, b.machine);
    }
    forall a, b, c | RowBefore(a, b) && RowBefore(b, c) ensures RowBefore(a, c) {
      RowOrderIsTransitive(a, b, c);
    }
  }

  lemma RowOrderIsTransitive(a: Row, b: Row, c: Row)
    requires RowBefore(a, b) && RowBefore(b, c)
    ensures RowBefore(a, c)
  {
    var x, y, z := StateName(a.state), StateName(b.state), StateName(c.state);
    if x != y && y != z {
      LessIsTransitive(x, y, z);
      LessIsAsymmetric(x, z);
    } else if x == y == z && a.machine != b.machine && b.machine != c.machine {
      LessIsTransitive(a.machine, b.machine, c.machine);
    }
  }

  /** By the name of the state, and within one state by object. */
  predicate AreShownInOrder(rows: seq<Row>) {
    forall i, j :: 0 <= i < j < |rows| ==>
      || Less(StateName(rows[i].state), StateName(rows[j].state))
      || (rows[i].state == rows[j].state && NotAfter(rows[i].machine, rows[j].machine))
  }

  lemma SortedIsShownInOrder(rows: seq<Row>)
    requires Sorted(rows, RowBefore)
    ensures AreShownInOrder(rows)
  {
    forall i, j | 0 <= i < j < |rows|
      ensures || Less(StateName(rows[i].state), StateName(rows[j].state))
              || (rows[i].state == rows[j].state && NotAfter(rows[i].machine, rows[j].machine))
    {
      assert RowBefore(rows[i], rows[j]);
    }
  }

  /**
  `classifyInventory`: one row per machine, one more per server no machine answers for, shown by state
  and object, and the two counts the release decision is made on.
  */
  method ClassifyInventory(machines: seq<Machine>, servers: seq<Server>)
    returns (rows: seq<Row>, matched: nat, unresolved: nat)
    ensures matched == MatchedCount(machines, servers)
    ensures unresolved == |machines| - matched + UnclaimedCount(machines, servers)
    ensures |rows| == matched + unresolved == |machines| + UnclaimedCount(machines, servers)
    ensures multiset(rows) == multiset(RowsOf(machines, servers) + RowsOfUnclaimed(machines, servers))
    ensures AreShownInOrder(rows)
  {
    var claimed, more, extra;
    rows, claimed, matched, unresolved := ClassifyMachines(machines, servers);
    more, extra := ClassifyServers(machines, servers, claimed);
    var shown := rows + more;
    unresolved := unresolved + extra;
    RowOrder();
    rows := Sort(shown, RowBefore);
    SortedIsShownInOrder(rows);
    assert |rows| == |multiset(rows)| == |shown|;
    CountSame(machines, Matches(servers), (m: Machine) => IsMatched(m, servers));
    CountSame(servers, Unanswered(machines), (s: Server) => !IsClaimed(s, machines));
  }

  // ----- Zero unresolved means a bijection -----

  function UnresolvedCount(machines: seq<Machine>, servers: seq<Server>): int {
    |machines| - MatchedCount(machines, servers) + UnclaimedCount(machines, servers)
  }

  predicate DistinctNames(machines: seq<Machine>) {
    forall i, j :: 0 <= i < j < |machines| ==> machines[i].name != machines[j].name
  }

  /** f pairs every machine with the server stamped with its name, each server with one machine. */
  predicate IsPairing(machines: seq<Machine>, servers: seq<Server>, f: seq<nat>) {
    && |f| == |machines|
    && (forall i :: 0 <= i < |f| ==> f[i] < |servers| && Pairs(machines[i], servers[f[i]]))
    && (forall i, j :: 0 <= i < j < |f| ==> f[i] != f[j])
    && (forall k :: 0 <= k < |servers| ==> IsHit(f, k))
  }

  predicate IsHit(f: seq<nat>, k: int) {
    exists i :: 0 <= i < |f| && f[i] == k
  }

  predicate Pairs(m: Machine, s: Server) {
    m.name != "" && s.tag == m.name && Agrees(m, s.id)
  }

  lemma AllAnswered(machines: seq<Machine>, servers: seq<Server>)
    ensures UnresolvedCount(machines, servers) >= 0
    ensures UnresolvedCount(machines, servers) == 0 <==>
      && (forall i :: 0 <= i < |machines| ==> IsMatched(machines[i], servers))
      && (forall k :: 0 <= k < |servers| ==> IsClaimed(servers[k], machines))
  {
    CountAtMost(machines, (m: Machine) => IsMatched(m, servers));
    CountAtMost(servers, (s: Server) => !IsClaimed(s, machines));
  }

  lemma {:induction false} OneCarrier(servers: seq<Server>, name: string, j: nat, k: nat)
    requires j < |servers| && k < |servers| && servers[j].tag == name && servers[k].tag == name
    requires Carriers(servers, name) == 1
    ensures j == k
    decreases |servers|
  {
    var front, n := servers[..|servers| - 1], |servers| - 1;
    var p := (s: Server) => s.tag == name;
    CountAtMost(front, p);
    if j < n {
      assert front[j] == servers[j] && p(front[j]);
    }
    if k < n {
      assert front[k] == servers[k] && p(front[k]);
    }
    if j < n && k < n {
      OneCarrier(front, name, j, k);
    }
  }

  lemma {:induction false} FindCarrier(servers: seq<Server>, name: string) returns (k: nat)
    requires Carriers(servers, name) > 0
    ensures k < |servers| && servers[k].tag == name
  {
    if servers[|servers| - 1].tag == name {
      k := |servers| - 1;
    } else {
      k := FindCarrier(servers[..|servers| - 1], name);
    }
  }

  lemma PairingFromMatches(machines: seq<Machine>, servers: seq<Server>, n: nat) returns (f: seq<nat>)
    requires n <= |machines|
    requires forall i :: 0 <= i < |machines| ==> IsMatched(machines[i], servers)
    ensures |f| == n && forall i :: 0 <= i < n ==> f[i] < |servers| && Pairs(machines[i], servers[f[i]])
  {
    f := [];
    for i := 0 to n
      invariant |f| == i && forall j :: 0 <= j < i ==> f[j] < |servers| && Pairs(machines[j], servers[f[j]])
    {
      var k := FindCarrier(servers, machines[i].name);
      assert servers[k] in servers;
      f := f + [k];
    }
  }

  lemma ClaimedIsHit(machines: seq<Machine>, servers: seq<Server>, f: seq<nat>, k: nat)
    requires |f| == |machines| && k < |servers| && IsClaimed(servers[k], machines)
    requires forall i :: 0 <= i < |f| ==> f[i] < |servers| && Pairs(machines[i], servers[f[i]])
    requires forall i :: 0 <= i < |machines| ==> Carriers(servers, machines[i].name) == 1
    ensures IsHit(f, k)
  {
    var m :| m in machines && m.name == servers[k].tag;
    var i :| 0 <= i < |machines| && machines[i] == m;
    OneCarrier(servers, m.name, k, f[i]);
  }

  lemma MatchedGivesPairing(machines: seq<Machine>, servers: seq<Server>) returns (f: seq<nat>)
    requires DistinctNames(machines) && UnresolvedCount(machines, servers) == 0
    ensures IsPairing(machines, servers, f)
  {
    AllAnswered(machines, servers);
    f := PairingFromMatches(machines, servers, |machines|);
    forall k: nat | k < |servers| ensures IsHit(f, k) {
      ClaimedIsHit(machines, servers, f, k);
    }
  }

  lemma {:induction false} ExactlyOneCarrier(servers: seq<Server>, name: string, k: nat)
    requires k < |servers| && servers[k].tag == name
    requires forall j :: 0 <= j < |servers| && servers[j].tag == name ==> j == k
    ensures Carriers(servers, name) == 1
    decreases |servers|
  {
    var front, n := servers[..|servers| - 1], |servers| - 1;
    assert forall j :: 0 <= j < n ==> front[j] == servers[j];
    if k < n {
      ExactlyOneCarrier(front, name, k);
    } else {
      CountAtMost(front, (s: Server) => s.tag == name);
    }
  }

  lemma PairingIsMatched(machines: seq<Machine>, servers: seq<Server>, f: seq<nat>)
    requires DistinctNames(machines) && IsPairing(machines, servers, f)
    ensures UnresolvedCount(machines, servers) == 0
  {
    forall i | 0 <= i < |machines| ensures IsMatched(machines[i], servers) {
      forall k | 0 <= k < |servers| && servers[k].tag == machines[i].name ensures k == f[i] {
        assert IsHit(f, k);
        var j :| 0 <= j < |f| && f[j] == k;
        assert Pairs(machines[j], servers[k]);
        assert machines[j].name == machines[i].name;
        assert j == i;
      }
      ExactlyOneCarrier(servers, machines[i].name, f[i]);
    }
    forall k | 0 <= k < |servers| ensures IsClaimed(servers[k], machines) {
      assert IsHit(f, k);
      var j :| 0 <= j < |f| && f[j] == k;
      assert machines[j] in machines;
    }
    AllAnswered(machines, servers);
  }

  /** Zero unresolved is exactly a one-to-one pairing of machines and servers by name and id. */
  lemma ZeroUnresolvedIsBijection(machines: seq<Machine>, servers: seq<Server>)
    requires DistinctNames(machines)
    ensures UnresolvedCount(machines, servers) == 0 <==> exists f :: IsPairing(machines, servers, f)
  {
    if UnresolvedCount(machines, servers) == 0 {
      var f := MatchedGivesPairing(machines, servers);
    }
    if f :| IsPairing(machines, servers, f) {
      PairingIsMatched(machines, servers, f);
    }
  }

  /** Zero unresolved is a bijection exactly when the machine names are distinct. */
  lemma ResolvedIsBijectionExactlyForDistinctNames(machines: seq<Machine>, servers: seq<Server>)
    requires UnresolvedCount(machines, servers) == 0
    ensures DistinctNames(machines) <==> exists f :: IsPairing(machines, servers, f)
  {
    if DistinctNames(machines) {
      ZeroUnresolvedIsBijection(machines, servers);
    }
    if f :| IsPairing(machines, servers, f) {
      AllAnswered(machines, servers);
      forall i, j | 0 <= i < j < |machines| ensures machines[i].name != machines[j].name {
        assert Pairs(machines[i], servers[f[i]]) && Pairs(machines[j], servers[f[j]]);
        SharedNameSharesServer(machines, servers, f[i], f[j], i, j);
      }
    }
  }

  lemma SharedNameSharesServer(machines: seq<Machine>, servers: seq<Server>, k: nat, l: nat, i: nat, j: nat)
    requires i < |machines| && j < |machines| && k < |servers| && l < |servers| && IsMatched(machines[i], servers)
    requires servers[k].tag == machines[i].name && servers[l].tag == machines[j].name
    ensures machines[i].name == machines[j].name ==> k == l
  {
    if machines[i].name == machines[j].name {
      OneCarrier(servers, machines[i].name, k, l);
    }
  }

  /** Distinct names are needed: two objects of one name share a server, and nothing is unresolved. */
  lemma DuplicateNamesHideAMissingServer(m: Machine, s: Server)
    requires Pairs(m, s)
    ensures UnresolvedCount([m, m], [s]) == 0
    ensures !exists f :: IsPairing([m, m], [s], f)
  {
    ExactlyOneCarrier([s], m.name, 0);
    assert IsMatched([m, m][0], [s]) && IsMatched([m, m][1], [s]);
    assert m in [m, m];
    AllAnswered([m, m], [s]);
    forall f: seq<nat> ensures !IsPairing([m, m], [s], f) {
      if |f| == 2 && f[0] < 1 && f[1] < 1 {
        assert f[0] == f[1];
      }
    }
  }

  /** The guards of the command: an empty comparison is not a match. */
  method MayRelease(machines: seq<Machine>, servers: seq<Server>) returns (ok: bool)
    ensures ok <==> machines != [] && UnresolvedCount(machines, servers) == 0
    ensures DistinctNames(machines) ==>
      (ok <==> machines != [] && exists f :: IsPairing(machines, servers, f))
  {
    var rows, matched, unresolved := ClassifyInventory(machines, servers);
    if DistinctNames(machines) {
      ZeroUnresolvedIsBijection(machines, servers);
    }
    if |machines| == 0 {
      return false;
    }
    if unresolved > 0 {
      return false;
    }
    return true;
  }
}
