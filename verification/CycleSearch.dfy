/**
`findCycle` of internal/kakt-cli/bootstrap/boundary_graph.go: a three-colour depth-first search
over an arbitrary finite edge list, proved sound, complete and terminating.
*/
module CycleSearch {
  import opened Sorting

  /** "from must complete before to starts", because of the capability `via`. */
  datatype Edge = Edge(from: int, to: int, via: string)

  /** The adjacency lists the search walks; every endpoint of an edge is a key. */
  type Graph = map<int, seq<int>>

  predicate HasEdge(edges: seq<Edge>, a: int, b: int) {
    exists i :: 0 <= i < |edges| && edges[i].from == a && edges[i].to == b
  }

  predicate Linked(adj: Graph, a: int, b: int) {
    a in adj && b in adj[a]
  }

  predicate Closed(adj: Graph) {
    forall a :: a in adj ==> forall i :: 0 <= i < |adj[a]| ==> adj[a][i] in adj
  }

  /** A closed walk: every consecutive pair is an edge, and the last leads back to the first. */
  predicate IsCycle(edges: seq<Edge>, c: seq<int>) {
    && c != []
    && (forall i :: 0 <= i < |c| - 1 ==> HasEdge(edges, c[i], c[i + 1]))
    && HasEdge(edges, c[|c| - 1], c[0])
  }

  predicate IsLinkedCycle(adj: Graph, c: seq<int>) {
    && c != []
    && (forall i :: 0 <= i < |c| - 1 ==> Linked(adj, c[i], c[i + 1]))
    && Linked(adj, c[|c| - 1], c[0])
  }

  ghost predicate Acyclic(edges: seq<Edge>) {
    !exists c :: IsCycle(edges, c)
  }

  // ----- Why an empty answer means there is no cycle -----

  /** A rank that strictly falls along every edge. */
  ghost predicate Ranks(adj: Graph, rank: map<int, nat>) {
    forall a, b :: Linked(adj, a, b) ==> a in rank && b in rank && rank[b] < rank[a]
  }

  lemma {:induction false} RankFallsAlongWalk(adj: Graph, rank: map<int, nat>, c: seq<int>, k: nat)
    requires Ranks(adj, rank) && IsLinkedCycle(adj, c) && k < |c|
    ensures c[0] in rank && c[k] in rank && (k > 0 ==> rank[c[k]] < rank[c[0]])
  {
    if k > 0 {
      RankFallsAlongWalk(adj, rank, c, k - 1);
      assert Linked(adj, c[k - 1], c[k]);
    }
  }

  lemma RankedIsAcyclic(edges: seq<Edge>, adj: Graph, rank: map<int, nat>)
    requires forall a, b :: Linked(adj, a, b) <==> HasEdge(edges, a, b)
    requires Ranks(adj, rank)
    ensures Acyclic(edges)
  {
    forall c | IsCycle(edges, c) ensures false {
      RankFallsAlongWalk(adj, rank, c, |c| - 1);
    }
  }

  // ----- The search -----

  datatype Colour = White | Grey | Black

  /** A colour never written is white, as Go's zero value makes it. */
  function ColourIn(colour: map<int, Colour>, n: int): Colour {
    if n in colour then colour[n] else White
  }

  /** The stack is the grey path from the root of this search to the node being visited. */
  ghost predicate StackOk(adj: Graph, colour: map<int, Colour>, stack: seq<int>) {
    && NoRepeats(stack)
    && (forall n :: n in stack <==> ColourIn(colour, n).Grey?)
    && (forall n :: n in colour ==> !colour[n].White?)
    && (forall i :: 0 <= i < |stack| - 1 ==> Linked(adj, stack[i], stack[i + 1]))
  }

  /** Black nodes are closed under edges, and were finished in an order that ranks them. */
  ghost predicate RankOk(adj: Graph, colour: map<int, Colour>, rank: map<int, nat>, clock: nat) {
    && (forall n :: n in rank <==> ColourIn(colour, n).Black?)
    && (forall n :: n in rank ==> rank[n] < clock)
    && (forall a, b :: a in rank && Linked(adj, a, b) ==> b in rank && rank[b] < rank[a])
  }

  lemma PushKeepsStack(adj: Graph, colour: map<int, Colour>, stack: seq<int>, n: int)
    requires StackOk(adj, colour, stack) && ColourIn(colour, n).White?
    requires stack != [] ==> Linked(adj, stack[|stack| - 1], n)
    ensures StackOk(adj, colour[n := Grey], stack + [n])
  {
  }

  lemma PopKeepsStack(adj: Graph, colour: map<int, Colour>, stack: seq<int>, n: int)
    requires StackOk(adj, colour, stack + [n])
    ensures StackOk(adj, colour[n := Black], stack)
  {
    var longer := stack + [n];
    assert longer[|stack|] == n;
    forall i | 0 <= i < |stack| - 1 ensures Linked(adj, stack[i], stack[i + 1]) {
      assert longer[i] == stack[i] && longer[i + 1] == stack[i + 1];
    }
    forall i, j | 0 <= i < j < |stack| ensures stack[i] != stack[j] {
      assert longer[i] == stack[i] && longer[j] == stack[j];
    }
    forall m ensures m in stack <==> m in longer && m != n {
      if m in stack {
        var i :| 0 <= i < |stack| && stack[i] == m;
        assert longer[i] == m;
      }
    }
  }

  lemma CutIsCycle(adj: Graph, colour: map<int, Colour>, stack: seq<int>, i: nat)
    requires StackOk(adj, colour, stack) && i < |stack|
    requires Linked(adj, stack[|stack| - 1], stack[i])
    ensures IsLinkedCycle(adj, stack[i..]) && NoRepeats(stack[i..])
  {
    var c := stack[i..];
    forall j | 0 <= j < |c| - 1 ensures Linked(adj, c[j], c[j + 1]) {
      assert c[j] == stack[i + j] && c[j + 1] == stack[i + j + 1];
    }
  }

  /** The variables `findCycle` shares with its recursive closure. */
  class Search {
    const adj: Graph
    var colour: map<int, Colour>
    var stack: seq<int>
    var found: seq<int>
    ghost var rank: map<int, nat>
    ghost var clock: nat

    constructor (adj: Graph)
      requires Closed(adj)
      ensures this.adj == adj && Valid() && stack == []
    {
      this.adj := adj;
      colour, stack, found := map[], [], [];
      rank, clock := map[], 0;
    }

    ghost predicate Valid()
      reads this
    {
      Closed(adj) && StackOk(adj, colour, stack) && RankOk(adj, colour, rank, clock)
    }

    /** The `grey` case: take the stack from m onwards. */
    method Cut(m: int)
      requires Valid() && m in stack && Linked(adj, stack[|stack| - 1], m)
      modifies this`found
      ensures IsLinkedCycle(adj, found) && NoRepeats(found)
    {
      ghost var k :| 0 <= k < |stack| && stack[k] == m;
      var i := 0;
      while stack[i] != m
        invariant 0 <= i <= k
        decreases k - i
      {
        i := i + 1;
      }
      CutIsCycle(adj, colour, stack, i);
      found := stack[i..];
    }

    /** `colour[n] = grey; stack = append(stack, n)` */
    method Enter(n: int)
      requires Valid() && ColourIn(colour, n).White?
      requires stack != [] ==> Linked(adj, stack[|stack| - 1], n)
      modifies this`colour, this`stack
      ensures Valid() && stack == old(stack) + [n] && colour.Keys == old(colour).Keys + {n}
    {
      PushKeepsStack(adj, colour, stack, n);
      colour := colour[n := Grey];
      stack := stack + [n];
    }

    /** `stack = stack[:len(stack)-1]; colour[n] = black` */
    method Leave(n: int)
      requires Valid() && n in adj && stack != [] && stack[|stack| - 1] == n
      requires forall j :: 0 <= j < |adj[n]| ==> adj[n][j] in rank
      modifies this`colour, this`stack, this`rank, this`clock
      ensures Valid() && stack == old(stack)[..|old(stack)| - 1]
      ensures colour.Keys == old(colour).Keys && rank.Keys == old(rank).Keys + {n}
    {
      var below := stack[..|stack| - 1];
      assert stack == below + [n];
      assert n in stack && ColourIn(colour, n).Grey? && n in colour;
      PopKeepsStack(adj, colour, below, n);
      stack := below;
      colour := colour[n := Black];
      rank, clock := rank[n := clock], clock + 1;
    }

    /** What one more visit leaves behind when it found nothing. */
    twostate predicate Explored(stack0: seq<int>)
      reads this
    {
      && Valid() && stack == stack0
      && old(rank).Keys <= rank.Keys && old(colour).Keys <= colour.Keys
    }

    method Visit(n: int) returns (cyclic: bool)
      requires Valid() && n in adj && ColourIn(colour, n).White?
      requires stack != [] ==> Linked(adj, stack[|stack| - 1], n)
      modifies this
      ensures cyclic ==> IsLinkedCycle(adj, found) && NoRepeats(found)
      ensures !cyclic ==> Explored(old(stack)) && n in rank
      decreases adj.Keys - colour.Keys
    {
      Enter(n);
      var i := 0;
      while i < |adj[n]|
        invariant 0 <= i <= |adj[n]|
        invariant Explored(old(stack) + [n]) && n in colour
        invariant forall j :: 0 <= j < i ==> adj[n][j] in rank
      {
        var m := adj[n][i];
        assert Linked(adj, n, m);
        match ColourIn(colour, m) {
          case Grey =>
            Cut(m);
            return true;
          case White =>
            assert n in adj.Keys - old(colour).Keys;
            var deeper := Visit(m);
            if deeper {
              return true;
            }
          case Black =>
        }
        i := i + 1;
      }
      Leave(n);
      return false;
    }
  }

  // ----- From an edge list to a graph and back -----

  lemma HasEdgeSnoc(edges: seq<Edge>, i: nat, a: int, b: int)
    requires i < |edges|
    ensures HasEdge(edges[..i + 1], a, b) <==>
      HasEdge(edges[..i], a, b) || (edges[i].from == a && edges[i].to == b)
  {
    var longer, shorter := edges[..i + 1], edges[..i];
    if HasEdge(longer, a, b) {
      var j :| 0 <= j < |longer| && longer[j].from == a && longer[j].to == b;
      if j < i {
        assert shorter[j] == longer[j];
      }
    }
    if HasEdge(shorter, a, b) {
      var j :| 0 <= j < |shorter| && shorter[j].from == a && shorter[j].to == b;
      assert longer[j] == shorter[j];
    }
    assert longer[i] == edges[i];
  }

  function AddEdge(adj: Graph, e: Edge): (r: Graph)
    requires Closed(adj)
    ensures Closed(r) && adj.Keys <= r.Keys && e.from in r && e.to in r
    ensures forall a, b :: Linked(r, a, b) <==> Linked(adj, a, b) || (e.from == a && e.to == b)
  {
    var known := if e.from in adj then adj[e.from] else [];
    var with := adj[e.from := known + [e.to]];
    if e.to in with then with else with[e.to := []]
  }

  method Adjacency(edges: seq<Edge>) returns (adj: Graph)
    ensures Closed(adj)
    ensures forall a, b :: Linked(adj, a, b) <==> HasEdge(edges, a, b)
  {
    adj := map[];
    for i := 0 to |edges|
      invariant Closed(adj)
      invariant forall a, b :: Linked(adj, a, b) <==> HasEdge(edges[..i], a, b)
    {
      adj := AddEdge(adj, edges[i]);
      forall a, b ensures Linked(adj, a, b) <==> HasEdge(edges[..i + 1], a, b) {
        HasEdgeSnoc(edges, i, a, b);
      }
    }
    assert edges[..|edges|] == edges;
  }

  predicate Ascending(s: seq<int>) {
    forall i, j :: 0 <= i < j < |s| ==> s[i] < s[j]
  }

  /** The nodes of the edges, each once. */
  method Nodes(edges: seq<Edge>, ghost adj: Graph) returns (nodes: seq<int>)
    requires Closed(adj) && forall a, b :: Linked(adj, a, b) <==> HasEdge(edges, a, b)
    ensures NoRepeats(nodes)
    ensures forall a, b :: HasEdge(edges, a, b) ==> a in nodes && b in nodes
    ensures forall n :: n in nodes ==> n in adj
  {
    nodes := [];
    for i := 0 to |edges|
      invariant NoRepeats(nodes)
      invariant forall j :: 0 <= j < i ==> edges[j].from in nodes && edges[j].to in nodes
      invariant forall n :: n in nodes ==> n in adj
    {
      assert Linked(adj, edges[i].from, edges[i].to) by {
        assert HasEdge(edges, edges[i].from, edges[i].to);
      }
      nodes := if edges[i].from in nodes then nodes else nodes + [edges[i].from];
      nodes := if edges[i].to in nodes then nodes else nodes + [edges[i].to];
    }
    forall a, b | HasEdge(edges, a, b) ensures a in nodes && b in nodes {
      var j :| 0 <= j < |edges| && edges[j].from == a && edges[j].to == b;
    }
  }

  predicate NotAbove(a: int, b: int) {
    a <= b
  }

  lemma SortedOnceIsStrict(s: seq<int>)
    requires NoRepeats(s) && Sorted(s, NotAbove)
    ensures Ascending(s)
  {
    forall i, j | 0 <= i < j < |s| ensures s[i] < s[j] {
      assert NotAbove(s[i], s[j]);
    }
  }

  /** The node set in the order `sort.Ints` leaves it. */
  method Ordered(edges: seq<Edge>, ghost adj: Graph) returns (ordered: seq<int>)
    requires Closed(adj) && forall a, b :: Linked(adj, a, b) <==> HasEdge(edges, a, b)
    ensures Ascending(ordered)
    ensures forall a, b :: HasEdge(edges, a, b) ==> a in ordered && b in ordered
    ensures forall n :: n in ordered ==> n in adj
  {
    var nodes := Nodes(edges, adj);
    ordered := Sort(nodes, NotAbove);
    PermutedHasNoRepeats(nodes, ordered);
    SortedOnceIsStrict(ordered);
    forall n ensures n in ordered <==> n in nodes {
      SameMembers(nodes, ordered, n);
    }
  }

  /**
  `findCycle`: empty exactly when the graph has no closed walk of any length; otherwise a cycle
  that visits no node twice.  A self-loop is a cycle of one.
  */
  method FindCycle(edges: seq<Edge>) returns (cycle: seq<int>)
    ensures cycle == [] <==> Acyclic(edges)
    ensures cycle != [] ==> IsCycle(edges, cycle) && NoRepeats(cycle)
  {
    var adj := Adjacency(edges);
    var search := new Search(adj);
    var ordered := Ordered(edges, adj);
    for i := 0 to |ordered|
      invariant search.Valid() && search.adj == adj && search.stack == []
      invariant forall j :: 0 <= j < i ==> ordered[j] in search.rank
    {
      if ColourIn(search.colour, ordered[i]).White? {
        var cyclic := search.Visit(ordered[i]);
        if cyclic {
          assert IsCycle(edges, search.found);
          return search.found;
        }
      }
    }
    RankedIsAcyclic(edges, adj, search.rank);
    return [];
  }
}
