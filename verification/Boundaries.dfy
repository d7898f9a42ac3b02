/**
The boundary contract table and the two validators that run at process start: one over the
declarations, one over the dependency graph they imply.
*/
module Boundaries {
  import opened Options
  import opened CycleSearch
  import opened Sorting

  /** A named check; an empty capability is a check no other boundary can name. */
  datatype Check = Check(capability: string, what: string)

  datatype Readiness = Readiness(checks: seq<Check>, because: string, declared: bool)

  datatype Contract = Contract(
    number: int,
    title: string,
    activates: bool,
    refreshesSchema: bool,
    prepares: bool,
    needs: Readiness,
    offers: Readiness)

  type Table = seq<Contract>

  // ----- validateBoundaryContracts -----

  /** A declaration answers with checks or with a reason, never with both or neither. */
  predicate Answered(r: Readiness) {
    r.declared && (r.checks == [] <==> r.because != "")
  }

  predicate WellDeclared(c: Contract) {
    c.number >= 1 && c.title != "" && Answered(c.needs) && Answered(c.offers)
  }

  predicate UniqueNumbers(cs: Table) {
    forall i, j :: 0 <= i < j < |cs| ==> cs[i].number != cs[j].number
  }

  function Numbers(cs: Table): set<int> {
    set c | c in cs :: c.number
  }

  predicate Accepts(cs: Table) {
    && (forall i :: 0 <= i < |cs| ==> WellDeclared(cs[i]))
    && UniqueNumbers(cs)
    && (forall n :: 1 <= n <= |cs| ==> n in Numbers(cs))
  }

  method ValidateContracts(cs: Table) returns (ok: bool)
    ensures ok <==> Accepts(cs)
  {
    var seen: set<int> := {};
    for i := 0 to |cs|
      invariant forall n :: n in seen <==> exists j :: 0 <= j < i && cs[j].number == n
      invariant forall j :: 0 <= j < i ==> WellDeclared(cs[j])
      invariant UniqueNumbers(cs[..i])
    {
      var c := cs[i];
      if c.number < 1 || c.number in seen || c.title == ""
         || !c.needs.declared
         || (|c.needs.checks| == 0 && c.needs.because == "")
         || (|c.needs.checks| > 0 && c.needs.because != "")
         || !c.offers.declared
         || (|c.offers.checks| == 0 && c.offers.because == "")
         || (|c.offers.checks| > 0 && c.offers.because != "") {
        return false;
      }
      seen := seen + {c.number};
    }
    forall n ensures n in seen <==> n in Numbers(cs) {
      if n in Numbers(cs) {
        var c :| c in cs && c.number == n;
      }
    }
    for n := 1 to |cs| + 1
      invariant forall m :: 1 <= m < n ==> m in Numbers(cs)
    {
      if n !in seen {
        return false;
      }
    }
    return true;
  }

  /** Enough distinct numbers to fill 1..N leave no room for any other. */
  lemma {:induction false} CountNumbers(cs: Table)
    requires UniqueNumbers(cs)
    ensures |Numbers(cs)| == |cs|
  {
    if cs != [] {
      var front, last := cs[..|cs| - 1], cs[|cs| - 1];
      CountNumbers(front);
      assert Numbers(cs) == Numbers(front) + {last.number} by {
        forall c | c in cs ensures c in front || c == last {
        }
      }
      assert last.number !in Numbers(front);
    }
  }

  /** The numbers 1..n. */
  function UpTo(n: nat): (s: set<int>)
    ensures forall i :: i in s <==> 1 <= i <= n
    ensures |s| == n
  {
    if n == 0 then {} else UpTo(n - 1) + {n}
  }

  lemma FullSubset(a: set<int>, b: set<int>)
    requires a <= b && |a| == |b|
    ensures a == b
  {
    assert b == a + (b - a);
    assert |b - a| == 0;
  }

  /** An accepted table numbers its boundaries exactly 1..N, each once. */
  lemma AcceptedNumbersArePermutation(cs: Table)
    requires Accepts(cs)
    ensures Numbers(cs) == UpTo(|cs|)
    ensures forall i :: 0 <= i < |cs| ==> 1 <= cs[i].number <= |cs|
  {
    CountNumbers(cs);
    FullSubset(UpTo(|cs|), Numbers(cs));
    forall i | 0 <= i < |cs| ensures 1 <= cs[i].number <= |cs| {
      assert cs[i] in cs && cs[i].number in Numbers(cs);
    }
  }

  // ----- dependencyEdges and validateBoundaryGraph -----

  predicate Names(checks: seq<Check>, cap: string) {
    exists i :: 0 <= i < |checks| && checks[i].capability == cap
  }

  /** The boundary recorded as producing a capability: the last one listed that offers it. */
  function Producer(cs: Table, cap: string): Option<int> {
    if cs == [] then None
    else if Names(cs[|cs| - 1].offers.checks, cap) then Some(cs[|cs| - 1].number)
    else Producer(cs[..|cs| - 1], cap)
  }

  /** The i-th contract offers the capability, and no later one does. */
  predicate OffersLast(cs: Table, cap: string, i: nat) {
    && i < |cs| && Names(cs[i].offers.checks, cap)
    && forall j :: i < j < |cs| ==> !Names(cs[j].offers.checks, cap)
  }

  /** A producer is the last contract listed that offers the capability, and there is none only when nobody does. */
  lemma {:induction false} ProducerOffers(cs: Table, cap: string)
    ensures match Producer(cs, cap)
      case Some(p) => exists i: nat :: OffersLast(cs, cap, i) && cs[i].number == p
      case None => forall i :: 0 <= i < |cs| ==> !Names(cs[i].offers.checks, cap)
  {
    if cs != [] {
      var front, last := cs[..|cs| - 1], cs[|cs| - 1];
      ProducerOffers(front, cap);
      assert forall i :: 0 <= i < |front| ==> front[i] == cs[i];
      if Names(last.offers.checks, cap) {
        assert OffersLast(cs, cap, |cs| - 1);
      } else if Producer(front, cap).Some? {
        var i: nat :| OffersLast(front, cap, i) && front[i].number == Producer(front, cap).value;
        assert OffersLast(cs, cap, i);
      }
    }
  }

  /** The edges into a contract: one per named requirement some contract offers. */
  predicate DependsBy(cs: Table, e: Edge, c: Contract) {
    e.via != "" && e.to == c.number && Names(c.needs.checks, e.via) && Producer(cs, e.via) == Some(e.from)
  }

  predicate IsDependency(cs: Table, e: Edge) {
    exists i :: 0 <= i < |cs| && DependsBy(cs, e, cs[i])
  }

  /** What one requirement adds. */
  function EdgeFor(cs: Table, c: Contract, check: Check): seq<Edge> {
    var cap := check.capability;
    if cap != "" && Producer(cs, cap).Some? then [Edge(Producer(cs, cap).value, c.number, cap)] else []
  }

  function EdgesInto(cs: Table, c: Contract, j: nat): seq<Edge>
    requires j <= |c.needs.checks|
  {
    if j == 0 then []
    else EdgesInto(cs, c, j - 1) + EdgeFor(cs, c, c.needs.checks[j - 1])
  }

  function AllEdges(cs: Table, k: nat): seq<Edge>
    requires k <= |cs|
  {
    if k == 0 then [] else AllEdges(cs, k - 1) + EdgesInto(cs, cs[k - 1], |cs[k - 1].needs.checks|)
  }

  lemma EdgeForMembers(cs: Table, c: Contract, check: Check, e: Edge)
    ensures e in EdgeFor(cs, c, check) <==>
      e.via != "" && e.via == check.capability && e.to == c.number && Producer(cs, e.via) == Some(e.from)
  {
  }

  lemma {:induction false} EdgesIntoAreDependencies(cs: Table, c: Contract, j: nat, e: Edge)
    requires j <= |c.needs.checks|
    ensures e in EdgesInto(cs, c, j) <==>
      e.via != "" && e.to == c.number && Names(c.needs.checks[..j], e.via) && Producer(cs, e.via) == Some(e.from)
  {
    if j > 0 {
      EdgesIntoAreDependencies(cs, c, j - 1, e);
      NamesSnoc(c.needs.checks, j - 1, e.via);
      EdgeForMembers(cs, c, c.needs.checks[j - 1], e);
    }
  }

  lemma {:induction false} AllEdgesAreDependencies(cs: Table, k: nat, e: Edge)
    requires k <= |cs|
    ensures e in AllEdges(cs, k) <==> exists i :: 0 <= i < k && DependsBy(cs, e, cs[i])
  {
    if k > 0 {
      var c := cs[k - 1];
      AllEdgesAreDependencies(cs, k - 1, e);
      EdgesIntoContract(cs, c, e);
      InEither(AllEdges(cs, k - 1), EdgesInto(cs, c, |c.needs.checks|), e);
    }
  }

  lemma EdgesIntoContract(cs: Table, c: Contract, e: Edge)
    ensures e in EdgesInto(cs, c, |c.needs.checks|) <==> DependsBy(cs, e, c)
  {
    EdgesIntoAreDependencies(cs, c, |c.needs.checks|, e);
    assert c.needs.checks[..|c.needs.checks|] == c.needs.checks;
  }

  lemma InEither(a: seq<Edge>, b: seq<Edge>, e: Edge)
    ensures e in a + b <==> e in a || e in b
  {
  }

  /** The `producer` map: later contracts overwrite earlier ones. */
  method Producers(cs: Table) returns (producer: map<string, int>)
    ensures forall cap :: cap != "" ==>
      Producer(cs, cap) == if cap in producer then Some(producer[cap]) else None
    ensures "" !in producer
  {
    producer := map[];
    for i := 0 to |cs|
      invariant "" !in producer
      invariant forall cap :: cap != "" ==>
        Producer(cs[..i], cap) == if cap in producer then Some(producer[cap]) else None
    {
      ghost var before := producer;
      var checks := cs[i].offers.checks;
      for j := 0 to |checks|
        invariant "" !in producer
        invariant forall cap :: cap != "" ==>
          (if cap in producer then Some(producer[cap]) else None)
          == if Names(checks[..j], cap) then Some(cs[i].number)
             else if cap in before then Some(before[cap]) else None
      {
        forall cap ensures Names(checks[..j + 1], cap) <==> Names(checks[..j], cap) || checks[j].capability == cap {
          NamesSnoc(checks, j, cap);
        }
        if checks[j].capability != "" {
          producer := producer[checks[j].capability := cs[i].number];
        }
      }
      assert checks[..|checks|] == checks;
      assert cs[..i + 1][..i] == cs[..i];
    }
    assert cs[..|cs|] == cs;
  }

  lemma NamesSnoc(checks: seq<Check>, j: nat, cap: string)
    requires j < |checks|
    ensures Names(checks[..j + 1], cap) <==> Names(checks[..j], cap) || checks[j].capability == cap
  {
    var longer, shorter := checks[..j + 1], checks[..j];
    assert longer[j] == checks[j];
    if Names(shorter, cap) {
      var k :| 0 <= k < |shorter| && shorter[k].capability == cap;
      assert longer[k] == shorter[k];
    }
    if Names(longer, cap) {
      var k :| 0 <= k < |longer| && longer[k].capability == cap;
      if k < j {
        assert shorter[k] == longer[k];
      }
    }
  }

  predicate Before(d: Edge, e: Edge) {
    d.from < e.from || (d.from == e.from && d.to <= e.to)
  }

  /** The inner loop: the edges into one contract, after those already collected. */
  method CollectInto(cs: Table, c: Contract, producer: map<string, int>, soFar: seq<Edge>) returns (raw: seq<Edge>)
    requires forall cap :: cap != "" ==>
      Producer(cs, cap) == if cap in producer then Some(producer[cap]) else None
    ensures raw == soFar + EdgesInto(cs, c, |c.needs.checks|)
  {
    raw := soFar;
    for j := 0 to |c.needs.checks|
      invariant raw == soFar + EdgesInto(cs, c, j)
    {
      var check := c.needs.checks[j];
      ghost var edge := EdgeFor(cs, c, check);
      if check.capability != "" && check.capability in producer {
        assert edge == [Edge(producer[check.capability], c.number, check.capability)];
        raw := raw + [Edge(producer[check.capability], c.number, check.capability)];
      } else {
        assert edge == [];
      }
    }
  }

  method CollectEdges(cs: Table, producer: map<string, int>) returns (raw: seq<Edge>)
    requires forall cap :: cap != "" ==>
      Producer(cs, cap) == if cap in producer then Some(producer[cap]) else None
    ensures raw == AllEdges(cs, |cs|)
  {
    raw := [];
    for i := 0 to |cs|
      invariant raw == AllEdges(cs, i)
    {
      raw := CollectInto(cs, cs[i], producer, raw);
    }
  }

  /** The dependencies, one edge for each requirement that names one, sorted by (from, to). */
  method DependencyEdges(cs: Table) returns (edges: seq<Edge>)
    ensures forall e :: e in edges <==> IsDependency(cs, e)
    ensures multiset(edges) == multiset(AllEdges(cs, |cs|))
    ensures forall i, j :: 0 <= i < j < |edges| ==>
      edges[i].from < edges[j].from || (edges[i].from == edges[j].from && edges[i].to <= edges[j].to)
  {
    var producer := Producers(cs);
    var raw := CollectEdges(cs, producer);
    edges := Sort(raw, Before);
    assert forall i, j :: 0 <= i < j < |edges| ==> Before(edges[i], edges[j]);
    forall e ensures e in edges <==> IsDependency(cs, e) {
      AllEdgesAreDependencies(cs, |cs|, e);
      SameMembers(edges, raw, e);
    }
  }

  /** Every dependency points forwards in the numeric order the boundaries run in. */
  ghost predicate DependenciesPointForwards(cs: Table) {
    forall e :: IsDependency(cs, e) ==> e.from < e.to
  }

  lemma {:induction false} ForwardWalkClimbs(edges: seq<Edge>, c: seq<int>, k: nat)
    requires IsCycle(edges, c) && k < |c|
    requires forall i :: 0 <= i < |edges| ==> edges[i].from < edges[i].to
    ensures c[0] <= c[k]
  {
    if k > 0 {
      ForwardWalkClimbs(edges, c, k - 1);
      assert HasEdge(edges, c[k - 1], c[k]);
    }
  }

  /** A closed walk along dependencies. */
  ghost predicate IsDependencyCycle(cs: Table, c: seq<int>) {
    && c != []
    && (forall i :: 0 <= i < |c| - 1 ==> DirectlyAfter(cs, c[i + 1], c[i]))
    && DirectlyAfter(cs, c[0], c[|c| - 1])
  }

  ghost predicate DirectlyAfter(cs: Table, later: int, earlier: int) {
    exists e :: IsDependency(cs, e) && e.from == earlier && e.to == later
  }

  lemma EdgesAreDirect(cs: Table, edges: seq<Edge>, a: int, b: int)
    requires forall e :: e in edges <==> IsDependency(cs, e)
    ensures HasEdge(edges, a, b) <==> DirectlyAfter(cs, b, a)
  {
    if HasEdge(edges, a, b) {
      var i :| 0 <= i < |edges| && edges[i].from == a && edges[i].to == b;
      assert edges[i] in edges;
    }
  }

  lemma CyclesAreDependencyCycles(cs: Table, edges: seq<Edge>, c: seq<int>)
    requires forall e :: e in edges <==> IsDependency(cs, e)
    ensures IsCycle(edges, c) <==> IsDependencyCycle(cs, c)
  {
    forall a, b ensures HasEdge(edges, a, b) <==> DirectlyAfter(cs, b, a) {
      EdgesAreDirect(cs, edges, a, b);
    }
  }

  datatype GraphVerdict =
    | Satisfiable
    | Cyclic(cycle: seq<int>)  // no ordering could satisfy it
    | Backward(edge: Edge)     // some ordering could, but not the numeric one

  /**
  The graph is accepted exactly when every dependency points forwards. A refusal names a cycle of
  dependencies exactly when there is one, and otherwise a dependency that points backwards.
  */
  method ValidateGraph(cs: Table) returns (r: GraphVerdict)
    ensures r.Satisfiable? <==> DependenciesPointForwards(cs)
    ensures r.Cyclic? <==> exists c :: IsDependencyCycle(cs, c)
    ensures r.Cyclic? ==> IsDependencyCycle(cs, r.cycle) && NoRepeats(r.cycle)
    ensures r.Backward? ==> IsDependency(cs, r.edge) && r.edge.from >= r.edge.to
  {
    var edges := DependencyEdges(cs);
    var cycle := FindCycle(edges);
    forall c ensures IsCycle(edges, c) <==> IsDependencyCycle(cs, c) {
      CyclesAreDependencyCycles(cs, edges, c);
    }
    if cycle != [] {
      CycleHasBackwardEdge(cs, edges, cycle);
      return Cyclic(cycle);
    }
    for i := 0 to |edges|
      invariant forall j :: 0 <= j < i ==> edges[j].from < edges[j].to
    {
      if edges[i].from >= edges[i].to {
        assert edges[i] in edges;
        return Backward(edges[i]);
      }
    }
    return Satisfiable;
  }

  lemma CycleHasBackwardEdge(cs: Table, edges: seq<Edge>, cycle: seq<int>)
    requires forall e :: e in edges <==> IsDependency(cs, e)
    requires IsCycle(edges, cycle)
    ensures !DependenciesPointForwards(cs)
  {
    if forall i :: 0 <= i < |edges| ==> edges[i].from < edges[i].to {
      ForwardWalkClimbs(edges, cycle, |cycle| - 1);
      assert false;
    }
    var i :| 0 <= i < |edges| && edges[i].from >= edges[i].to;
    assert edges[i] in edges;
  }
}
