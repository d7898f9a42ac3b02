/**
Boundary activation (ADR-055): the deny sync windows on the six AppProjects, as `applySeed`,
`activateBoundary`, `deployBoundary` and `ReapplySeed` of internal/kakt-cli/bootstrap/seed.go
change them.  What every kubectl call answers is an input: any call may fail, a failed apply may
have restated some of the projects, and a connection fault may hide a patch that landed.
*/
module Activation {
  import opened Options

  datatype Mode = Sequenced | Converged

  /** What happens to one patch attempt on a project that exists. */
  datatype Answer = Done | Rejected | Dropped | LandedButDropped

  const BOUNDARY_COUNT: nat := 6
  const ATTEMPTS: nat := 5

  /** The boundaries 1..n. */
  function Prefix(n: int): (s: set<int>)
    ensures forall i :: i in s <==> 1 <= i <= n
    decreases if n < 0 then 0 else n
  {
    if n <= 0 then {} else Prefix(n - 1) + {n}
  }

  lemma PrefixInjective(m: int, n: int)
    requires 0 <= m && 0 <= n && Prefix(m) == Prefix(n)
    ensures m == n
  {
    assert m > 0 ==> m in Prefix(n);
    assert n > 0 ==> n in Prefix(m);
  }

  // ----- One patch and its retries -----

  /** A patch succeeds when the first attempt that is not a connection fault does. */
  predicate Succeeds(answers: seq<Answer>) {
    answers != [] && (answers[0].Done? || (!answers[0].Rejected? && Succeeds(answers[1..])))
  }

  /** Some attempt landed behind a connection fault before any attempt was answered. */
  predicate Lands(answers: seq<Answer>) {
    answers != [] && (answers[0].LandedButDropped? || (answers[0].Dropped? && Lands(answers[1..])))
  }

  /** Opened although the patch was reported as failed. */
  predicate Hides(answers: seq<Answer>) {
    Lands(answers) && !Succeeds(answers)
  }

  predicate IsFault(a: Answer) {
    a.Dropped? || a.LandedButDropped?
  }

  /** The k-th answer is the first that is no connection fault. */
  predicate IsFirstHeard(answers: seq<Answer>, k: nat) {
    k < |answers| && !IsFault(answers[k]) && forall j :: 0 <= j < k ==> IsFault(answers[j])
  }

  /** Before anything was heard, the k-th attempt landed. */
  predicate LandedUnheard(answers: seq<Answer>, k: nat) {
    k < |answers| && answers[k].LandedButDropped? && forall j :: 0 <= j < k ==> IsFault(answers[j])
  }

  /** A patch succeeds if and only if the first answer that is no connection fault is a success. */
  lemma {:induction false} SucceedsExactly(answers: seq<Answer>)
    ensures Succeeds(answers) <==> exists k: nat :: IsFirstHeard(answers, k) && answers[k].Done?
  {
    if answers != [] {
      var rest := answers[1..];
      SucceedsExactly(rest);
      assert answers[0].Done? ==> IsFirstHeard(answers, 0);
      if k: nat :| IsFirstHeard(rest, k) && rest[k].Done? {
        assert answers[k + 1] == rest[k];
        assert IsFault(answers[0]) ==> IsFirstHeard(answers, k + 1);
      }
      if k: nat :| IsFirstHeard(answers, k) && answers[k].Done? {
        if k > 0 {
          assert rest[k - 1] == answers[k] && IsFault(answers[0]);
          assert forall j :: 0 <= j < k - 1 ==> rest[j] == answers[j + 1];
          assert IsFirstHeard(rest, k - 1);
        }
      }
    }
  }

  /** And it opens the boundary unseen if and only if an attempt landed before that. */
  lemma {:induction false} LandsExactly(answers: seq<Answer>)
    ensures Lands(answers) <==> exists k: nat :: LandedUnheard(answers, k)
  {
    if answers != [] {
      var rest := answers[1..];
      LandsExactly(rest);
      assert answers[0].LandedButDropped? ==> LandedUnheard(answers, 0);
      if k: nat :| LandedUnheard(rest, k) {
        assert answers[k + 1] == rest[k];
        assert IsFault(answers[0]) ==> LandedUnheard(answers, k + 1);
      }
      if k: nat :| LandedUnheard(answers, k) {
        if k > 0 {
          assert rest[k - 1] == answers[k] && IsFault(answers[0]);
          assert forall j :: 0 <= j < k - 1 ==> rest[j] == answers[j + 1];
          assert LandedUnheard(rest, k - 1);
        }
      }
    }
  }

  /** What five answers per boundary, for as many boundaries as are asked for, look like. */
  type Table = seq<seq<Answer>>

  predicate Covers(table: Table, n: int) {
    n <= |table| && forall k :: 0 <= k < |table| ==> |table[k]| == ATTEMPTS
  }

  /** The patch of boundary k succeeds: its project exists, and an attempt got through. */
  predicate Opens(table: Table, k: int)
    requires Covers(table, k) && k >= 1
  {
    k <= BOUNDARY_COUNT && Succeeds(table[k - 1])
  }

  predicate OpensUpTo(table: Table, n: int)
    requires Covers(table, n)
  {
    forall k :: 1 <= k <= n ==> Opens(table, k)
  }

  /** The last patch asked for is the first to fail, and landed all the same. */
  predicate LastOneHides(table: Table, n: int)
    requires Covers(table, n)
  {
    1 <= n <= BOUNDARY_COUNT && OpensUpTo(table, n - 1) && Hides(table[n - 1])
  }

  /** How far a run of patches from i on gets, with everything below i open. */
  function Reach(table: Table, i: int, n: int): (r: int)
    requires Covers(table, n) && 1 <= i
    ensures i <= n + 1 ==> i - 1 <= r <= n
    decreases n - i
  {
    if i > n then i - 1
    else if Opens(table, i) then Reach(table, i + 1, n)
    else if i <= BOUNDARY_COUNT && Lands(table[i - 1]) then i
    else i - 1
  }

  /** All n boundaries end up open if and only if every patch succeeds, or all but the last do and it hides. */
  lemma {:induction false} ReachIsFullExactly(table: Table, i: int, n: int)
    requires Covers(table, n) && 1 <= i <= n + 1 && OpensUpTo(table, i - 1)
    ensures Reach(table, i, n) == n <==> OpensUpTo(table, n) || LastOneHides(table, n)
    decreases n - i
  {
    if i <= n && Opens(table, i) {
      ReachIsFullExactly(table, i + 1, n);
    } else if i <= n {
      assert !OpensUpTo(table, n);
      assert i < n ==> !OpensUpTo(table, n - 1);
    }
  }

  /** The first patch that does not succeed is that of boundary f. */
  predicate FailsFirstAt(table: Table, n: int, f: int)
    requires Covers(table, n)
  {
    1 <= f <= n && OpensUpTo(table, f - 1) && !Opens(table, f)
  }

  /** Everything is open up to the first failure, and that boundary too if it has a project and landed unheard. */
  lemma {:induction false} ReachExactly(table: Table, i: int, n: int)
    requires Covers(table, n) && 1 <= i <= n + 1 && OpensUpTo(table, i - 1)
    ensures OpensUpTo(table, n) ==> Reach(table, i, n) == n
    ensures forall f :: FailsFirstAt(table, n, f) ==>
      Reach(table, i, n) == if f <= BOUNDARY_COUNT && Lands(table[f - 1]) then f else f - 1
    decreases n - i
  {
    if i <= n && Opens(table, i) {
      ReachExactly(table, i + 1, n);
    } else if i <= n {
      assert FailsFirstAt(table, n, i);
      forall f | FailsFirstAt(table, n, f) ensures f == i {
      }
    }
  }

  // ----- Operations and their outcomes -----

  /** What the apply of the six AppProjects answers; a failed one may have restated any of them. */
  datatype Applied = AllApplied | SomeApplied(restated: set<int>)

  datatype Operation =
    | Deploy(n: int, projects: Applied, seedOk: bool, table: Table)
    | Reseed(seedOk: bool)

  datatype Outcome = Opened | ProjectsFailed | SeedFailed | PatchFailed

  predicate WellAnswered(op: Operation) {
    op.Deploy? ==> Covers(op.table, op.n)
  }

  /** Nothing went wrong that the deployment was told about. */
  predicate Works(mode: Mode, op: Operation)
    requires WellAnswered(op) && op.Deploy?
  {
    op.projects.AllApplied? && op.seedOk && (mode.Sequenced? ==> OpensUpTo(op.table, op.n))
  }

  /** The boundary the last deployment settled on, however many re-seeds followed it. */
  function Settled(mode: Mode, ops: seq<Operation>): Option<int>
    requires forall k :: 0 <= k < |ops| ==> WellAnswered(ops[k])
  {
    if ops == [] then None
    else
      var last := ops[|ops| - 1];
      if last.Reseed? then Settled(mode, ops[..|ops| - 1])
      else if Works(mode, last) then Some(last.n) else None
  }

  /** The projects an apply has restated, whatever it answered. */
  function Restated(answer: Applied): set<int> {
    if answer.AllApplied? then Prefix(BOUNDARY_COUNT) else answer.restated * Prefix(BOUNDARY_COUNT)
  }

  /** What one operation leaves open. */
  function OpenAfter(mode: Mode, open: set<int>, op: Operation): set<int>
    requires WellAnswered(op)
  {
    if op.Reseed? then open
    else if mode.Converged? then open + Restated(op.projects)
    else if op.projects.SomeApplied? then open - Restated(op.projects)
    else if !op.seedOk then {}
    else Prefix(Reach(op.table, 1, op.n))
  }

  function OpenAfterAll(mode: Mode, open: set<int>, ops: seq<Operation>): set<int>
    requires forall k :: 0 <= k < |ops| ==> WellAnswered(ops[k])
  {
    if ops == [] then open
    else OpenAfter(mode, OpenAfterAll(mode, open, ops[..|ops| - 1]), ops[|ops| - 1])
  }

  /** Some deployment asked for this boundary or a later one. */
  predicate WasAsked(ops: seq<Operation>, i: int) {
    exists k :: 0 <= k < |ops| && ops[k].Deploy? && i <= ops[k].n
  }

  /** Whatever fails, nothing is open in sequenced mode that no deployment has asked for. */
  lemma {:induction false} OpenOnlyWhatWasAsked(ops: seq<Operation>, i: int)
    requires forall k :: 0 <= k < |ops| ==> WellAnswered(ops[k])
    requires i in OpenAfterAll(Sequenced, {}, ops)
    ensures WasAsked(ops, i)
    decreases |ops|
  {
    var front, last := ops[..|ops| - 1], ops[|ops| - 1];
    if last.Deploy? && last.projects.AllApplied? {
      assert i <= last.n;
    } else {
      OpenOnlyWhatWasAsked(front, i);
      var k :| 0 <= k < |front| && front[k].Deploy? && i <= front[k].n;
      assert ops[k] == front[k];
    }
  }

  ghost predicate IsPrefix(open: set<int>) {
    exists n :: 0 <= n && open == Prefix(n)
  }

  /** As long as every apply of the projects is answered, what is open is a prefix, however the rest goes. */
  lemma {:induction false} OpenIsAPrefix(ops: seq<Operation>)
    requires forall k :: 0 <= k < |ops| ==> WellAnswered(ops[k])
    requires forall k :: 0 <= k < |ops| && ops[k].Deploy? ==> ops[k].projects.AllApplied?
    ensures IsPrefix(OpenAfterAll(Sequenced, {}, ops))
    decreases |ops|
  {
    assert Prefix(0) == {};
    if ops != [] {
      var last := ops[|ops| - 1];
      if last.Reseed? {
        OpenIsAPrefix(ops[..|ops| - 1]);
      } else if last.seedOk {
        assert Reach(last.table, 1, last.n) >= 0;
      }
    }
  }

  /** Whatever it closed of the open boundaries, it closed all the open ones behind that. */
  predicate ClosesAnEnd(m: int, restated: set<int>) {
    forall i, j :: 1 <= i < j <= m && i in restated ==> j in restated
  }

  lemma {:induction false} EndIsCutOff(m: int, restated: set<int>) returns (n: int)
    requires 0 <= m && ClosesAnEnd(m, restated)
    ensures 0 <= n <= m && Prefix(m) - restated == Prefix(n)
    decreases m
  {
    if m == 0 || m !in restated {
      n := m;
      assert forall i :: 1 <= i < m && i in restated ==> m in restated;
      assert Prefix(m) - restated == Prefix(m);
    } else {
      n := EndIsCutOff(m - 1, restated);
      assert Prefix(m) - restated == Prefix(m - 1) - restated;
    }
  }

  /** A failed apply of the projects leaves a prefix of 1..m open if and only if it closed an end of it. */
  lemma FailedApplyKeepsAPrefixExactly(m: int, restated: set<int>)
    requires 0 <= m
    ensures IsPrefix(Prefix(m) - restated) <==> ClosesAnEnd(m, restated)
  {
    var open := Prefix(m) - restated;
    if ClosesAnEnd(m, restated) {
      var n := EndIsCutOff(m, restated);
    } else {
      var i, j :| 1 <= i < j <= m && i in restated && j !in restated;
      forall n | 0 <= n ensures open != Prefix(n) {
        assert j in open && i !in open;
        assert j in Prefix(n) ==> i in Prefix(n);
      }
    }
  }

  /** An apply that fails half-way closes some boundaries and leaves later ones open. */
  lemma FailedApplyLeavesAGap(table: Table) returns (ops: seq<Operation>)
    requires Covers(table, 3) && OpensUpTo(table, 3)
    ensures ops == [Deploy(3, AllApplied, true, table), Deploy(3, SomeApplied({2}), true, table)]
    ensures OpenAfterAll(Sequenced, {}, ops) == {1, 3} && !IsPrefix({1, 3})
  {
    ops := [Deploy(3, AllApplied, true, table), Deploy(3, SomeApplied({2}), true, table)];
    ReachIsFullExactly(table, 1, 3);
    assert ops[..1] == [ops[0]] && ops[..1][..0] == [];
    assert OpenAfterAll(Sequenced, {}, ops[..1]) == Prefix(3) == {1, 2, 3};
    assert {2} * Prefix(BOUNDARY_COUNT) == {2};
    forall n | 0 <= n ensures Prefix(n) != {1, 3} {
      assert 3 in Prefix(n) ==> 2 in Prefix(n);
    }
  }

  class Cluster {
    const mode: Mode
    var projects: set<int> // the AppProjects that exist
    var closed: set<int>   // those carrying a deny window

    ghost predicate Valid()
      reads this
    {
      && closed <= projects <= Prefix(BOUNDARY_COUNT)
      && (mode.Converged? ==> closed == {})
    }

    constructor (mode: Mode)
      ensures Valid() && this.mode == mode && projects == {}
    {
      this.mode := mode;
      projects, closed := {}, {};
    }

    /** Boundaries whose Applications may sync. */
    function Open(): set<int>
      reads this
    {
      projects - closed
    }

    /** `kubectl apply` of the six AppProjects, with their deny windows in sequenced mode. */
    method ApplyProjects(answer: Applied) returns (ok: bool)
      requires Valid()
      modifies this
      ensures Valid() && ok == answer.AllApplied?
      ensures projects == old(projects) + Restated(answer)
      ensures closed == if mode.Sequenced? then old(closed) + Restated(answer) else {}
    {
      ok := answer.AllApplied?;
      projects := projects + Restated(answer);
      if mode.Sequenced? {
        closed := closed + Restated(answer);
      }
    }

    /**
    `patchWithTransportRetry`: at most five attempts, retrying only a connection fault.  A project
    that does not exist is rejected, and opening an open one changes nothing.  The boundary is open
    afterwards if the patch succeeded, or if it hides that it did.
    */
    method PatchWithRetry(i: int, answers: seq<Answer>) returns (ok: bool)
      requires Valid() && |answers| == ATTEMPTS
      modifies this`closed
      ensures Valid()
      ensures ok <==> i in projects && Succeeds(answers)
      ensures closed ==
        if i in projects && (Succeeds(answers) || Hides(answers)) then old(closed) - {i} else old(closed)
    {
      ok := false;
      var attempt := 1;
      ghost var landed := false;
      while attempt <= ATTEMPTS
        invariant 1 <= attempt <= ATTEMPTS + 1 && Valid()
        invariant i in projects ==> (Succeeds(answers) <==> Succeeds(answers[attempt - 1..]))
        invariant i in projects ==> (Lands(answers) <==> landed || Lands(answers[attempt - 1..]))
        invariant landed ==> i in projects
        invariant closed == if landed then old(closed) - {i} else old(closed)
      {
        var answer := answers[attempt - 1];
        assert answers[attempt - 1..][1..] == answers[attempt..];
        if i !in projects && (answer.Done? || answer.LandedButDropped?) {
          answer := Rejected;
        }
        match answer {
          case Done =>
            closed := closed - {i};
            return true;
          case Rejected =>
            return false;
          case Dropped =>
          case LandedButDropped =>
            closed := closed - {i};
            landed := true;
        }
        attempt := attempt + 1;
      }
    }

    /** `activateBoundary`: cumulative, boundaries 1..n in order, stopping at the first failure. */
    method Activate(n: int, table: Table) returns (ok: bool)
      requires Valid() && projects == Prefix(BOUNDARY_COUNT) && Covers(table, n)
      requires mode.Sequenced? ==> closed == projects
      modifies this`closed
      ensures Valid()
      ensures mode.Converged? ==> ok && closed == old(closed)
      ensures mode.Sequenced? ==> (ok <==> OpensUpTo(table, n))
      ensures mode.Sequenced? ==> Open() == Prefix(Reach(table, 1, n))
    {
      if mode.Converged? {
        return true;
      }
      var i := 1;
      while i <= n
        invariant 1 <= i && Valid() && (i <= n + 1 || i == 1)
        invariant i - 1 <= BOUNDARY_COUNT && OpensUpTo(table, i - 1)
        invariant Reach(table, 1, n) == Reach(table, i, n)
        invariant closed == projects - Prefix(i - 1)
      {
        ok := PatchWithRetry(i, table[i - 1]);
        if !ok {
          assert !Opens(table, i);
          return;
        }
        i := i + 1;
      }
      return true;
    }

    /**
    `deployBoundary`: restate every AppProject, then the seed Application, then open 1..n.  After the
    projects were applied, what is open is always a prefix: all of 1..n on success, nothing when the
    seed failed, and on a failed patch less than 1..n -- unless the n-th patch is the first to fail
    and hides that it landed.
    */
    method DeployBoundary(n: int, applied: Applied, seedOk: bool, table: Table) returns (r: Outcome)
      requires Valid() && Covers(table, n)
      modifies this
      ensures Valid()
      ensures Open() == OpenAfter(mode, old(Open()), Deploy(n, applied, seedOk, table))
      ensures r.ProjectsFailed? <==> applied.SomeApplied?
      ensures r.SeedFailed? <==> applied.AllApplied? && !seedOk
      ensures r.Opened? <==> applied.AllApplied? && seedOk && (mode.Sequenced? ==> OpensUpTo(table, n))
      ensures mode.Sequenced? && r.Opened? ==> Open() == Prefix(n)
      ensures mode.Sequenced? && r.ProjectsFailed? ==> Open() == old(Open()) - Restated(applied)
      ensures mode.Sequenced? && r.SeedFailed? ==> Open() == {}
      ensures mode.Sequenced? && r.PatchFailed? ==> Open() == Prefix(Reach(table, 1, n)) && Reach(table, 1, n) <= n
      ensures mode.Sequenced? && r.PatchFailed? ==> (Open() == Prefix(n) <==> LastOneHides(table, n))
    {
      var ok := ApplyProjects(applied);
      if !ok {
        return ProjectsFailed;
      }
      if !seedOk { // applySeedApplication carries no activation state
        return SeedFailed;
      }
      ok := Activate(n, table);
      if mode.Sequenced? && n >= 0 {
        ReachIsFullExactly(table, 1, n);
        if Prefix(Reach(table, 1, n)) == Prefix(n) {
          PrefixInjective(Reach(table, 1, n), n);
        }
      }
      return if ok then Opened else PatchFailed;
    }

    /** `ReapplySeed` applies the seed Application alone. */
    method ReapplySeed(seedOk: bool) returns (ok: bool)
      requires Valid()
      ensures Valid() && ok == seedOk && Open() == old(Open())
    {
      ok := seedOk;
    }

    /**
    Any sequence of operations, in any order, with any of them failing.  `settled` is the boundary of
    the last deployment, if that deployment succeeded.
    */
    method Replay(ops: seq<Operation>) returns (settled: Option<int>)
      requires Valid() && forall k :: 0 <= k < |ops| ==> WellAnswered(ops[k])
      modifies this
      ensures Valid()
      ensures settled == Settled(mode, ops)
      ensures Open() == OpenAfterAll(mode, old(Open()), ops)
      ensures mode.Sequenced? && settled.Some? ==> Open() == Prefix(settled.value)
      ensures mode.Converged? ==> closed == {} && old(Open()) <= Open()
    {
      settled := None;
      for k := 0 to |ops|
        invariant Valid()
        invariant settled == Settled(mode, ops[..k])
        invariant Open() == OpenAfterAll(mode, old(Open()), ops[..k])
        invariant mode.Sequenced? && settled.Some? ==> Open() == Prefix(settled.value)
        invariant mode.Converged? ==> old(Open()) <= Open()
      {
        assert ops[..k + 1] == ops[..k] + [ops[k]] && ops[..k + 1][..k] == ops[..k];
        match ops[k] {
          case Deploy(n, applied, seedOk, table) =>
            var r := DeployBoundary(n, applied, seedOk, table);
            settled := if r.Opened? then Some(n) else None;
          case Reseed(seedOk) =>
            var _ := ReapplySeed(seedOk);
        }
      }
      assert ops[..|ops|] == ops;
    }
  }

  /** A deployment that fails and leaves its own boundary open: the first patch lands and is never heard of. */
  method FailureLeavesLastBoundaryOpen() returns (c: Cluster, r: Outcome)
    ensures c.mode.Sequenced? && r.PatchFailed? && c.Open() == Prefix(1)
  {
    c := new Cluster(Sequenced);
    var answers := [LandedButDropped, Dropped, Dropped, Dropped, Dropped];
    assert answers[1..] == [Dropped, Dropped, Dropped, Dropped] && answers[1..][1..] == [Dropped, Dropped, Dropped];
    assert !Succeeds([Dropped]) && !Succeeds([Dropped, Dropped]) && !Succeeds([Dropped, Dropped, Dropped]);
    assert Hides(answers);
    assert Covers([answers], 1) && LastOneHides([answers], 1) && !Opens([answers], 1);
    r := c.DeployBoundary(1, AllApplied, true, [answers]);
  }
}
