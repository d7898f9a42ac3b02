/**
The runner: `contractFor`, `runBoundary` and the bootstrap calling them for 1..N in order.
Every external call may fail; what succeeded is recorded, in order, in a log.
*/
module BoundaryRun {
  import opened Options
  import opened CycleSearch
  import opened Boundaries

  datatype Event =
    | Met(boundary: int, check: Check)      // a precondition was checked and held
    | Activated(boundary: int)
    | Refreshed(boundary: int)
    | Inventoried(boundary: int)
    | Prepared(boundary: int)
    | Ready(boundary: int, check: Check)    // a readiness check held

  /** Where the first contract of a number is listed. */
  function FirstOf(cs: Table, n: int): (i: nat)
    ensures i <= |cs| && (i < |cs| ==> cs[i].number == n)
    ensures forall j :: 0 <= j < i ==> cs[j].number != n
  {
    if cs == [] || cs[0].number == n then 0 else 1 + FirstOf(cs[1..], n)
  }

  function ContractFor(cs: Table, n: int): (c: Option<Contract>)
    ensures c.Some? ==> c.value in cs && c.value.number == n
  {
    var i := FirstOf(cs, n);
    if i < |cs| then Some(cs[i]) else None
  }

  /** A number has a contract exactly when it is in the table. */
  lemma ContractForExactly(cs: Table, n: int)
    ensures ContractFor(cs, n).None? <==> n !in Numbers(cs)
  {
    if n in Numbers(cs) {
      var c :| c in cs && c.number == n;
      var i :| 0 <= i < |cs| && cs[i] == c;
      assert FirstOf(cs, n) <= i;
    }
  }

  predicate AllMet(c: Contract, log: seq<Event>) {
    forall j :: 0 <= j < |c.needs.checks| ==> Met(c.number, c.needs.checks[j]) in log
  }

  predicate AllReady(c: Contract, log: seq<Event>) {
    forall j :: 0 <= j < |c.offers.checks| ==> Ready(c.number, c.offers.checks[j]) in log
  }

  /** Nothing the contract declares was skipped. */
  predicate Completed(c: Contract, log: seq<Event>) {
    && AllMet(c, log) && Opened(c, log)
    && (c.prepares ==> Prepared(c.number) in log)
    && AllReady(c, log)
  }

  predicate Opened(c: Contract, log: seq<Event>) {
    && (c.activates ==> Activated(c.number) in log)
    && (c.refreshesSchema ==> Refreshed(c.number) in log)
    && Inventoried(c.number) in log
  }

  lemma CompletedGrows(c: Contract, log: seq<Event>, more: seq<Event>)
    requires log <= more
    ensures AllMet(c, log) ==> AllMet(c, more)
    ensures Completed(c, log) ==> Completed(c, more)
  {
    assert forall e :: e in log ==> e in more;
  }

  // ----- What a contract asks for, in order -----

  function NeedsOf(c: Contract): seq<Event> {
    seq(|c.needs.checks|, j requires 0 <= j < |c.needs.checks| => Met(c.number, c.needs.checks[j]))
  }

  function OpeningOf(c: Contract): seq<Event> {
    (if c.activates then [Activated(c.number)] else [])
    + (if c.refreshesSchema then [Refreshed(c.number)] else [])
    + [Inventoried(c.number)]
  }

  function RepairsOf(c: Contract): seq<Event> {
    if c.prepares then [Prepared(c.number)] else []
  }

  function OffersOf(c: Contract): seq<Event> {
    seq(|c.offers.checks|, j requires 0 <= j < |c.offers.checks| => Ready(c.number, c.offers.checks[j]))
  }

  /** Everything a contract declares, and nothing else. */
  function Script(c: Contract): seq<Event> {
    NeedsOf(c) + OpeningOf(c) + RepairsOf(c) + OffersOf(c)
  }

  /** The script of each boundary of a table, in numeric order. */
  function Scripts(cs: Table): (scripts: seq<seq<Event>>)
    ensures |scripts| == |cs|
  {
    seq(|cs|, i requires 0 <= i < |cs| =>
      var c := ContractFor(cs, i + 1); if c.None? then [] else Script(c.value))
  }

  /** The first n scripts, one after the other. */
  function Upto(scripts: seq<seq<Event>>, n: nat): seq<Event>
    requires n <= |scripts|
  {
    if n == 0 then [] else Upto(scripts, n - 1) + scripts[n - 1]
  }

  /** Work goes along a script, and is done exactly when all of it has happened. */
  predicate Along(log: seq<Event>, script: seq<Event>, ok: bool) {
    log <= script && (ok <==> log == script)
  }

  /** From here on, it is this script. */
  predicate Follows(before: seq<Event>, log: seq<Event>, script: seq<Event>, ok: bool) {
    before <= log && Along(log, before + script, ok)
  }

  lemma FollowsOn(before: seq<Event>, middle: seq<Event>, log: seq<Event>, a: seq<Event>, b: seq<Event>, ok: bool)
    requires Follows(before, middle, a, true) && Follows(middle, log, b, ok)
    ensures Follows(before, log, a + b, ok)
  {
    assert before + a + b == before + (a + b);
  }

  lemma StopsShort(before: seq<Event>, log: seq<Event>, a: seq<Event>, b: seq<Event>)
    requires Follows(before, log, a, false)
    ensures Follows(before, log, a + b, false)
  {
    assert before + a + b == before + (a + b);
  }

  /** Some check naming the capability has already held at boundary p. */
  predicate Proved(p: int, cap: string, log: seq<Event>) {
    exists i :: 0 <= i < |log| && log[i].Ready? && log[i].boundary == p && log[i].check.capability == cap
  }

  /** Everything this contract names has been produced, by a boundary below it, in this run. */
  predicate Supplied(cs: Table, c: Contract, log: seq<Event>) {
    forall j :: 0 <= j < |c.needs.checks| ==>
      var cap := c.needs.checks[j].capability;
      cap != "" && Producer(cs, cap).Some? ==>
        Producer(cs, cap).value < c.number && Proved(Producer(cs, cap).value, cap, log)
  }

  /** An event is one its contract declares, and what must come before it has. */
  ghost predicate InOrder(cs: Table, log: seq<Event>, e: Event) {
    forall c :: c in cs && c.number == e.boundary ==> IsNext(c, log, e)
  }

  predicate IsNext(c: Contract, log: seq<Event>, e: Event) {
    match e
    case Met(_, check) => check in c.needs.checks
    case Activated(_) => c.activates && AllMet(c, log)
    case Refreshed(_) => c.refreshesSchema && AllMet(c, log) && (c.activates ==> Activated(c.number) in log)
    case Inventoried(_) =>
      && AllMet(c, log) && (c.activates ==> Activated(c.number) in log)
      && (c.refreshesSchema ==> Refreshed(c.number) in log)
    case Prepared(_) => c.prepares && Opened(c, log)
    case Ready(_, check) => check in c.offers.checks && Opened(c, log) && (c.prepares ==> Prepared(c.number) in log)
  }

  /** Every event of the log happened in the order its contract prescribes. */
  ghost predicate SafeLog(cs: Table, log: seq<Event>) {
    forall i :: 0 <= i < |log| ==> InOrder(cs, log[..i], log[i])
  }

  /** And only after everything its contract names had been produced, below it and in this run. */
  ghost predicate SuppliedLog(cs: Table, log: seq<Event>) {
    forall i :: 0 <= i < |log| ==> SuppliedFor(cs, log[..i], log[i].boundary)
  }

  predicate SuppliedFor(cs: Table, log: seq<Event>, n: int) {
    forall c :: c in cs && c.number == n ==> Supplied(cs, c, log)
  }

  /** What was logged since is this boundary's doing. */
  predicate OnlyOf(c: Contract, before: nat, log: seq<Event>) {
    forall i :: before <= i < |log| ==> log[i].boundary == c.number
  }

  lemma OnlyContract(cs: Table, c: Contract, d: Contract)
    requires UniqueNumbers(cs) && c in cs && d in cs && c.number == d.number
    ensures c == d
  {
    var i :| 0 <= i < |cs| && cs[i] == c;
    var j :| 0 <= j < |cs| && cs[j] == d;
  }

  lemma SuppliedGrows(cs: Table, c: Contract, log: seq<Event>, more: seq<Event>)
    requires Supplied(cs, c, log) && log <= more
    ensures Supplied(cs, c, more)
  {
    forall p, cap | Proved(p, cap, log) ensures Proved(p, cap, more) {
      var i :| 0 <= i < |log| && log[i].Ready? && log[i].boundary == p && log[i].check.capability == cap;
      assert more[i] == log[i];
    }
  }

  /** A boundary that starts supplied stays so, whatever it does. */
  lemma SuppliedExtends(cs: Table, c: Contract, log: seq<Event>, more: seq<Event>)
    requires c in cs && UniqueNumbers(cs) && Supplied(cs, c, log) && SuppliedLog(cs, log)
    requires log <= more && OnlyOf(c, |log|, more)
    ensures SuppliedLog(cs, more)
  {
    forall i | 0 <= i < |more| ensures SuppliedFor(cs, more[..i], more[i].boundary) {
      if i < |log| {
        assert more[..i] == log[..i] && more[i] == log[i];
      } else {
        forall d | d in cs && d.number == more[i].boundary ensures Supplied(cs, d, more[..i]) {
          OnlyContract(cs, c, d);
          SuppliedGrows(cs, c, log, more[..i]);
        }
      }
    }
  }

  /** Once every boundary below k is ready, an accepted graph leaves nothing k names unproduced. */
  lemma ReadyBelowSupplies(cs: Table, c: Contract, log: seq<Event>)
    requires UniqueNumbers(cs) && DependenciesPointForwards(cs) && c in cs
    requires forall d :: d in cs && d.number < c.number ==> AllReady(d, log)
    requires forall d :: d in cs ==> d.number >= 1
    ensures Supplied(cs, c, log)
  {
    forall j | 0 <= j < |c.needs.checks|
      ensures var cap := c.needs.checks[j].capability;
        cap != "" && Producer(cs, cap).Some? ==>
          Producer(cs, cap).value < c.number && Proved(Producer(cs, cap).value, cap, log)
    {
      var cap := c.needs.checks[j].capability;
      if cap != "" && Producer(cs, cap).Some? {
        var p := Producer(cs, cap).value;
        var k :| 0 <= k < |cs| && cs[k] == c;
        assert DependsBy(cs, Edge(p, c.number, cap), cs[k]);
        ProducerOffers(cs, cap);
        var i: nat :| OffersLast(cs, cap, i) && cs[i].number == p;
        var l :| 0 <= l < |cs[i].offers.checks| && cs[i].offers.checks[l].capability == cap;
        assert AllReady(cs[i], log);
        assert Ready(p, cs[i].offers.checks[l]) in log;
      }
    }
  }

  /** What a run of one boundary leaves in the log, declared or not. */
  predicate Leaves(c: Contract, before: seq<Event>, log: seq<Event>, ok: bool) {
    if !c.needs.declared then !ok && log == before
    else if !c.offers.declared then !ok && before <= log <= before + (NeedsOf(c) + OpeningOf(c) + RepairsOf(c))
    else Follows(before, log, Script(c), ok)
  }

  lemma BeginsScript(c: Contract, before: seq<Event>, log: seq<Event>, ok: bool)
    requires Leaves(c, before, log, ok)
    ensures before <= log <= before + Script(c) && (ok ==> log == before + Script(c))
  {
    var begin := NeedsOf(c) + OpeningOf(c) + RepairsOf(c);
    assert before + begin + OffersOf(c) == before + Script(c);
  }

  lemma ScriptIsOwn(c: Contract, before: seq<Event>, log: seq<Event>)
    requires before <= log <= before + Script(c)
    ensures OnlyOf(c, |before|, log)
  {
    forall i | |before| <= i < |log| ensures log[i].boundary == c.number {
      assert log[i] == (before + Script(c))[i] == Script(c)[i - |before|];
    }
  }

  // ----- A script keeps its contract's order -----

  /** The script, section by section. */
  lemma ScriptSections(c: Contract, k: nat)
    requires k < |Script(c)|
    ensures var a := |c.needs.checks|;
      var b := a + |OpeningOf(c)|;
      var r := b + |RepairsOf(c)|;
      Script(c)[k] ==
        if k < a then NeedsOf(c)[k] else if k < b then OpeningOf(c)[k - a]
        else if k < r then RepairsOf(c)[k - b] else OffersOf(c)[k - r]
  {
  }

  lemma Happened(c: Contract, before: seq<Event>, k: nat, j: nat)
    requires j < k <= |Script(c)|
    ensures Script(c)[j] in before + Script(c)[..k]
  {
    assert (before + Script(c)[..k])[|before| + j] == Script(c)[j];
  }

  lemma NeedsHappened(c: Contract, before: seq<Event>, k: nat)
    requires |c.needs.checks| <= k <= |Script(c)|
    ensures AllMet(c, before + Script(c)[..k])
  {
    forall j | 0 <= j < |c.needs.checks| ensures Met(c.number, c.needs.checks[j]) in before + Script(c)[..k] {
      ScriptSections(c, j);
      Happened(c, before, k, j);
    }
  }

  lemma OpeningHappened(c: Contract, before: seq<Event>, k: nat, e: Event, i: nat)
    requires i < |OpeningOf(c)| && OpeningOf(c)[i] == e && |c.needs.checks| + i < k <= |Script(c)|
    ensures e in before + Script(c)[..k]
  {
    ScriptSections(c, |c.needs.checks| + i);
    Happened(c, before, k, |c.needs.checks| + i);
  }

  lemma OpenedHappened(c: Contract, before: seq<Event>, k: nat)
    requires |c.needs.checks| + |OpeningOf(c)| <= k <= |Script(c)|
    ensures Opened(c, before + Script(c)[..k])
  {
    var o := OpeningOf(c);
    OpeningHappened(c, before, k, Inventoried(c.number), |o| - 1);
    if c.activates {
      OpeningHappened(c, before, k, Activated(c.number), 0);
    }
    if c.refreshesSchema {
      OpeningHappened(c, before, k, Refreshed(c.number), if c.activates then 1 else 0);
    }
  }

  lemma RepairHappened(c: Contract, before: seq<Event>, k: nat)
    requires |c.needs.checks| + |OpeningOf(c)| + |RepairsOf(c)| <= k <= |Script(c)| && c.prepares
    ensures Prepared(c.number) in before + Script(c)[..k]
  {
    var b := |c.needs.checks| + |OpeningOf(c)|;
    ScriptSections(c, b);
    Happened(c, before, k, b);
  }

  lemma NextIsInOrder(c: Contract, before: seq<Event>, k: nat)
    requires k < |Script(c)|
    ensures IsNext(c, before + Script(c)[..k], Script(c)[k])
  {
    var a := |c.needs.checks|;
    var b := a + |OpeningOf(c)|;
    ScriptSections(c, k);
    if k >= a {
      NeedsHappened(c, before, k);
    }
    if a <= k < b {
      OpeningIsInOrder(c, before, k);
    } else if k >= b {
      OpenedHappened(c, before, k);
      if k >= b + |RepairsOf(c)| && c.prepares {
        RepairHappened(c, before, k);
      }
    }
  }

  lemma OpeningIsInOrder(c: Contract, before: seq<Event>, k: nat)
    requires |c.needs.checks| <= k < |c.needs.checks| + |OpeningOf(c)| <= |Script(c)|
    ensures IsNext(c, before + Script(c)[..k], OpeningOf(c)[k - |c.needs.checks|])
  {
    var i := k - |c.needs.checks|;
    NeedsHappened(c, before, k);
    if c.activates && i > 0 {
      OpeningHappened(c, before, k, Activated(c.number), 0);
    }
    var f := if c.activates then 1 else 0;
    if c.refreshesSchema && i > f {
      OpeningHappened(c, before, k, Refreshed(c.number), f);
    }
  }

  /** Whatever is done of a script, each event is declared and comes after what it waits for. */
  lemma ScriptIsSafe(cs: Table, c: Contract, before: seq<Event>, log: seq<Event>)
    requires c in cs && UniqueNumbers(cs) && SafeLog(cs, before) && before <= log <= before + Script(c)
    ensures SafeLog(cs, log)
  {
    forall i | 0 <= i < |log| ensures InOrder(cs, log[..i], log[i]) {
      if i < |before| {
        assert log[..i] == before[..i] && log[i] == before[i];
      } else {
        var k := i - |before|;
        assert log[i] == (before + Script(c))[i] == Script(c)[k];
        assert log[..i] == (before + Script(c))[..i] == before + Script(c)[..k];
        NextIsInOrder(c, before, k);
        ScriptIsOwn(c, before, log);
        OwnIsInOrder(cs, c, log[..i], log[i]);
      }
    }
  }

  /** With unique numbers, what holds of this contract is all an event of it needs. */
  lemma OwnIsInOrder(cs: Table, c: Contract, log: seq<Event>, e: Event)
    requires c in cs && UniqueNumbers(cs) && e.boundary == c.number && IsNext(c, log, e)
    ensures InOrder(cs, log, e)
  {
    forall d | d in cs && d.number == e.boundary ensures IsNext(d, log, e) {
      OnlyContract(cs, c, d);
    }
  }

  lemma ScriptCompletes(c: Contract, before: seq<Event>)
    ensures Completed(c, before + Script(c))
  {
    var n, log := |Script(c)|, before + Script(c);
    assert Script(c)[..n] == Script(c);
    NeedsHappened(c, before, n);
    OpenedHappened(c, before, n);
    if c.prepares {
      RepairHappened(c, before, n);
    }
    var r := |c.needs.checks| + |OpeningOf(c)| + |RepairsOf(c)|;
    forall j | 0 <= j < |c.offers.checks| ensures Ready(c.number, c.offers.checks[j]) in log {
      ScriptSections(c, r + j);
      Happened(c, before, n, r + j);
    }
  }

  lemma UptoNext(scripts: seq<seq<Event>>, n: nat)
    requires n < |scripts|
    ensures Upto(scripts, n + 1) == Upto(scripts, n) + scripts[n] && Upto(scripts, n) <= Upto(scripts, n + 1)
  {
  }

  lemma {:induction false} UptoGrows(scripts: seq<seq<Event>>, n: nat, m: nat)
    requires n <= m <= |scripts|
    ensures Upto(scripts, n) <= Upto(scripts, m)
    decreases m - n
  {
    if n < m {
      UptoGrows(scripts, n, m - 1);
      UptoNext(scripts, m - 1);
    }
  }

  /** What a whole run leaves: the script of the table from its beginning, all of it exactly on success. */
  ghost predicate HasRun(cs: Table, log: seq<Event>, ok: bool) {
    && SafeLog(cs, log) && SuppliedLog(cs, log)
    && Along(log, Upto(Scripts(cs), |cs|), ok)
    && (ok ==> forall c :: c in cs ==> Completed(c, log))
  }

  /** What stops short of one boundary's script stops short of the whole. */
  lemma StopsBefore(scripts: seq<seq<Event>>, n: nat, log: seq<Event>)
    requires n <= |scripts| && log < Upto(scripts, n)
    ensures Along(log, Upto(scripts, |scripts|), false)
  {
    UptoGrows(scripts, n, |scripts|);
  }

  /** Boundary n + 1 has a well-declared contract, and the n-th script is its. */
  predicate HasScript(cs: Table, scripts: seq<seq<Event>>, n: nat) {
    var c := ContractFor(cs, n + 1);
    c.Some? && WellDeclared(c.value) && n < |scripts| && scripts[n] == Script(c.value)
  }

  predicate AreScripts(cs: Table, scripts: seq<seq<Event>>) {
    |scripts| == |cs| && forall n: nat :: n < |cs| ==> HasScript(cs, scripts, n)
  }

  /** An accepted table has a well-declared contract for each of its numbers. */
  lemma AcceptedHas(cs: Table, n: int)
    requires Accepts(cs) && 1 <= n <= |cs|
    ensures ContractFor(cs, n).Some? && WellDeclared(ContractFor(cs, n).value)
  {
    ContractForExactly(cs, n);
    var c := ContractFor(cs, n).value;
    var i :| 0 <= i < |cs| && cs[i] == c;
    assert WellDeclared(cs[i]);
  }

  lemma AcceptedScripts(cs: Table)
    requires Accepts(cs)
    ensures AreScripts(cs, Scripts(cs))
  {
    forall n: nat | n < |cs| ensures HasScript(cs, Scripts(cs), n) {
      AcceptedHas(cs, n + 1);
    }
  }

  /** One boundary's work keeps the log safe, adds only its own events, and on success leaves nothing out. */
  ghost predicate IsKept(cs: Table, c: Contract, before: seq<Event>, log: seq<Event>, ok: bool) {
    && before <= log && OnlyOf(c, |before|, log)
    && (SafeLog(cs, before) ==> SafeLog(cs, log))
    && (SuppliedLog(cs, before) && Supplied(cs, c, before) ==> SuppliedLog(cs, log))
    && (ok ==> Completed(c, log))
  }

  lemma BoundaryIsKept(cs: Table, c: Contract, before: seq<Event>, log: seq<Event>, ok: bool)
    requires c in cs && UniqueNumbers(cs) && Leaves(c, before, log, ok)
    ensures IsKept(cs, c, before, log, ok)
  {
    BeginsScript(c, before, log, ok);
    ScriptIsOwn(c, before, log);
    if SafeLog(cs, before) {
      ScriptIsSafe(cs, c, before, log);
    }
    if ok {
      ScriptCompletes(c, before);
    }
    if SuppliedLog(cs, before) && Supplied(cs, c, before) {
      SuppliedExtends(cs, c, before, log);
    }
  }

  /** Everything of boundaries 1..n is in the log, safely. */
  ghost predicate IsSafeAt(cs: Table, log: seq<Event>, n: nat) {
    && SafeLog(cs, log) && SuppliedLog(cs, log)
    && forall d :: d in cs && d.number <= n ==> Completed(d, log)
  }

  lemma NumbersInRange(cs: Table)
    requires Accepts(cs)
    ensures forall d :: d in cs ==> 1 <= d.number <= |cs|
  {
    AcceptedNumbersArePermutation(cs);
  }

  /** What has been done of the next boundary on top of that is safe, too. */
  lemma NextIsSafe(cs: Table, n: nat, c: Contract, before: seq<Event>, log: seq<Event>)
    requires Accepts(cs) && DependenciesPointForwards(cs) && c in cs && c.number == n + 1
    requires IsSafeAt(cs, before, n) && before <= log <= before + Script(c)
    ensures SafeLog(cs, log) && SuppliedLog(cs, log)
  {
    NumbersInRange(cs);
    ReadyBelowSupplies(cs, c, before);
    ScriptIsOwn(c, before, log);
    ScriptIsSafe(cs, c, before, log);
    SuppliedExtends(cs, c, before, log);
  }

  lemma NextCompletes(cs: Table, n: nat, c: Contract, before: seq<Event>)
    requires Accepts(cs) && c in cs && c.number == n + 1
    requires forall d :: d in cs && d.number <= n ==> Completed(d, before)
    ensures forall d :: d in cs && d.number <= n + 1 ==> Completed(d, before + Script(c))
  {
    ScriptCompletes(c, before);
    forall d | d in cs && d.number <= n + 1 ensures Completed(d, before + Script(c)) {
      if d.number == n + 1 {
        OnlyContract(cs, c, d);
      } else {
        CompletedGrows(d, before, before + Script(c));
      }
    }
  }

  lemma {:induction false} AllIsSafe(cs: Table, scripts: seq<seq<Event>>, n: nat)
    requires Accepts(cs) && DependenciesPointForwards(cs) && n <= |cs| && AreScripts(cs, scripts)
    ensures IsSafeAt(cs, Upto(scripts, n), n)
  {
    if n == 0 {
      NothingIsSafe(cs);
    } else {
      AllIsSafe(cs, scripts, n - 1);
      OneMoreIsSafe(cs, scripts, n);
    }
  }

  lemma NothingIsSafe(cs: Table)
    requires Accepts(cs)
    ensures IsSafeAt(cs, [], 0)
  {
    NumbersInRange(cs);
  }

  lemma OneMoreIsSafe(cs: Table, scripts: seq<seq<Event>>, n: nat)
    requires Accepts(cs) && DependenciesPointForwards(cs) && 0 < n <= |scripts| && HasScript(cs, scripts, n - 1)
    requires IsSafeAt(cs, Upto(scripts, n - 1), n - 1)
    ensures IsSafeAt(cs, Upto(scripts, n), n)
  {
    var c, before := ContractFor(cs, n).value, Upto(scripts, n - 1);
    NextIsSafe(cs, n - 1, c, before, before + Script(c));
    NextCompletes(cs, n - 1, c, before);
  }

  /** Wherever it stops, it stops inside some boundary's script. */
  lemma {:induction false} StopsWithin(scripts: seq<seq<Event>>, n: nat, log: seq<Event>) returns (k: nat)
    requires n <= |scripts| && log <= Upto(scripts, n)
    ensures k <= n && Upto(scripts, k) <= log && (k == n || log <= Upto(scripts, k) + scripts[k])
  {
    if n == 0 {
      k := 0;
    } else {
      UptoNext(scripts, n - 1);
      if Upto(scripts, n - 1) <= log {
        k := n - 1;
      } else {
        ShorterPrefix(log, Upto(scripts, n - 1), Upto(scripts, n));
        k := StopsWithin(scripts, n - 1, log);
      }
    }
  }

  lemma ShorterPrefix(log: seq<Event>, a: seq<Event>, b: seq<Event>)
    requires log <= b && a <= b
    ensures a <= log || log <= a
  {
    if |a| <= |log| {
      assert a == b[..|a|] == log[..|a|];
    } else {
      assert log == b[..|log|] == a[..|log|];
    }
  }

  /** Every run along the script of an accepted table is safe, wherever it stops. */
  lemma FollowingIsSafe(cs: Table, log: seq<Event>, ok: bool)
    requires Accepts(cs) && DependenciesPointForwards(cs) && Along(log, Upto(Scripts(cs), |cs|), ok)
    ensures HasRun(cs, log, ok)
  {
    var scripts := Scripts(cs);
    AcceptedScripts(cs);
    var k := StopsWithin(scripts, |cs|, log);
    AllIsSafe(cs, scripts, k);
    if k < |cs| {
      assert HasScript(cs, scripts, k);
      NextIsSafe(cs, k, ContractFor(cs, k + 1).value, Upto(scripts, k), log);
    }
    if ok {
      AllIsSafe(cs, scripts, |cs|);
      NumbersInRange(cs);
    }
  }

  class Orchestrator {
    const cs: Table
    var log: seq<Event>
    ghost var faults: nat // external calls that failed

    constructor (cs: Table)
      ensures this.cs == cs && log == [] && faults == 0
    {
      this.cs := cs;
      log, faults := [], 0;
    }

    /** An external call: it succeeds and is recorded, or it fails and nothing is. */
    method Call(e: Event) returns (ok: bool)
      modifies this
      ensures Follows(old(log), log, [e], ok)
      ensures log == if ok then old(log) + [e] else old(log)
      ensures faults == if ok then old(faults) else old(faults) + 1
    {
      ok := *;
      if ok {
        log := log + [e];
      } else {
        faults := faults + 1;
      }
    }

    /** The precondition loop: before any work, before activation. */
    method MeetAll(c: Contract) returns (ok: bool)
      modifies this
      ensures Follows(old(log), log, NeedsOf(c), ok)
      ensures faults == if ok then old(faults) else old(faults) + 1
    {
      for j := 0 to |c.needs.checks|
        invariant faults == old(faults) && log == old(log) + NeedsOf(c)[..j]
      {
        ok := Call(Met(c.number, c.needs.checks[j]));
        if !ok {
          return;
        }
      }
      return true;
    }

    /** The readiness loop: after repairs, before the next boundary. */
    method AwaitAll(c: Contract) returns (ok: bool)
      modifies this
      ensures Follows(old(log), log, OffersOf(c), ok)
      ensures faults == if ok then old(faults) else old(faults) + 1
    {
      for j := 0 to |c.offers.checks|
        invariant faults == old(faults) && log == old(log) + OffersOf(c)[..j]
      {
        ok := Call(Ready(c.number, c.offers.checks[j]));
        if !ok {
          return;
        }
      }
      return true;
    }

    /** The repair, once the boundary is open and has generated what the repair acts on. */
    method Repair(c: Contract) returns (ok: bool)
      modifies this
      ensures Follows(old(log), log, RepairsOf(c), ok)
      ensures faults == if ok then old(faults) else old(faults) + 1
    {
      if !c.prepares {
        return true;
      }
      ok := Call(Prepared(c.number));
    }

    /** Activation, schema refresh and inventory, in that order. */
    method Open(c: Contract) returns (ok: bool)
      modifies this
      ensures Follows(old(log), log, OpeningOf(c), ok)
      ensures faults == if ok then old(faults) else old(faults) + 1
    {
      if c.activates {
        ok := Call(Activated(c.number));
        if !ok {
          return;
        }
      }
      if c.refreshesSchema {
        ok := Call(Refreshed(c.number));
        if !ok {
          return;
        }
      }
      ok := Call(Inventoried(c.number));
    }

    method RunSteps(c: Contract) returns (ok: bool)
      modifies this
      ensures Leaves(c, old(log), log, ok)
      ensures WellDeclared(c) ==> faults == if ok then old(faults) else old(faults) + 1
    {
      if !c.needs.declared {
        return false;
      }
      ghost var needs, opening, repairs, offers := NeedsOf(c), OpeningOf(c), RepairsOf(c), OffersOf(c);
      ok := MeetAll(c);
      if !ok {
        StopsShort(old(log), log, needs, opening);
        StopsShort(old(log), log, needs + opening, repairs);
        StopsShort(old(log), log, needs + opening + repairs, offers);
        return;
      }
      ghost var met := log;
      ok := Open(c);
      FollowsOn(old(log), met, log, needs, opening, ok);
      if !ok {
        StopsShort(old(log), log, needs + opening, repairs);
        StopsShort(old(log), log, needs + opening + repairs, offers);
        return;
      }
      ghost var atOpening := log;
      ok := Repair(c);
      FollowsOn(old(log), atOpening, log, needs + opening, repairs, ok);
      if !ok {
        StopsShort(old(log), log, needs + opening + repairs, offers);
        return;
      }
      if !c.offers.declared {
        return false;
      }
      ghost var repaired := log;
      ok := AwaitAll(c);
      FollowsOn(old(log), repaired, log, needs + opening + repairs, offers, ok);
    }

    /**
    `runBoundary`.  What happens is the contract's script from its beginning, all of it exactly on
    success.  It does not ask who produces what it requires; that every event of it comes after its
    producers were proved ready is then a matter of when it is called.
    */
    method RunBoundary(c: Contract) returns (ok: bool)
      modifies this
      ensures Leaves(c, old(log), log, ok)
      ensures c in cs && UniqueNumbers(cs) ==> IsKept(cs, c, old(log), log, ok)
      ensures WellDeclared(c) ==> faults == if ok then old(faults) else old(faults) + 1
    {
      ok := RunSteps(c);
      if c in cs && UniqueNumbers(cs) {
        BoundaryIsKept(cs, c, old(log), log, ok);
      }
    }

    /** The phase of boundary n + 1. */
    method RunPhase(n: nat, ghost scripts: seq<seq<Event>>) returns (ok: bool)
      requires n < |cs| == |scripts| && HasScript(cs, scripts, n) && log == Upto(scripts, n)
      modifies this
      ensures ok ==> log == Upto(scripts, n + 1)
      ensures !ok ==> Along(log, Upto(scripts, |cs|), false)
      ensures faults == if ok then old(faults) else old(faults) + 1
    {
      UptoNext(scripts, n);
      var c := ContractFor(cs, n + 1).value;
      ok := RunBoundary(c);
      if !ok {
        StopsBefore(scripts, n + 1, log);
      }
    }

    /** The bootstrap phases: boundaries 1..N in numeric order, stopping at the first failure. */
    method RunInOrder(ghost scripts: seq<seq<Event>>) returns (ok: bool)
      requires log == [] && AreScripts(cs, scripts)
      modifies this
      ensures Along(log, Upto(scripts, |cs|), ok)
      ensures faults == if ok then old(faults) else old(faults) + 1
    {
      for n := 0 to |cs|
        invariant log == Upto(scripts, n) && faults == old(faults)
      {
        assert HasScript(cs, scripts, n);
        ok := RunPhase(n, scripts);
        if !ok {
          return;
        }
      }
      return true;
    }

    method RunAll() returns (ok: bool)
      requires log == [] && Accepts(cs) && DependenciesPointForwards(cs)
      modifies this
      ensures HasRun(cs, log, ok)
      ensures faults == if ok then old(faults) else old(faults) + 1
    {
      AcceptedScripts(cs);
      ok := RunInOrder(Scripts(cs));
      FollowingIsSafe(cs, log, ok);
    }
  }

  /**
  The static check implies run-time safety.  Whatever table the process is built with and
  whichever external call fails: a rejected table runs nothing, and in an accepted one every
  activation, repair and readiness check happens only after everything it depends on.
  */
  method Bootstrap(cs: Table) returns (o: Orchestrator, ok: bool)
    ensures o.cs == cs && SafeLog(cs, o.log) && SuppliedLog(cs, o.log)
    ensures !(Accepts(cs) && DependenciesPointForwards(cs)) ==> !ok && o.log == []
    ensures Accepts(cs) && DependenciesPointForwards(cs) ==> HasRun(cs, o.log, ok)
    ensures ok ==> forall c :: c in cs ==> Completed(c, o.log)
    ensures Accepts(cs) && DependenciesPointForwards(cs) ==> o.faults == if ok then 0 else 1
  {
    o := new Orchestrator(cs);
    ok := ValidateContracts(cs);
    if ok {
      var verdict := ValidateGraph(cs);
      ok := verdict.Satisfiable?;
    }
    if ok {
      ok := o.RunAll();
    }
  }
}
