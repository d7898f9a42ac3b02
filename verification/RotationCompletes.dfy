/**
A rotation can always be completed: from every state any run can reach, whatever was interrupted,
there is a way to roll, rewrite and finalize, and it keeps every object.  The obligations that
guard `--finalize` are therefore never a dead end.
*/
module RotationCompletes {
  import opened Options
  import opened KeyNames
  import opened Rotation

  /** One step in front of a run. */
  lemma RunCons(s: State, step: Step, rest: seq<Step>)
    requires Enabled(s, step) && CanRun(Do(s, step), rest)
    ensures CanRun(s, [step] + rest) && Run(s, [step] + rest) == Run(Do(s, step), rest)
  {
    assert ([step] + rest)[1..] == rest;
  }

  lemma {:induction false} RunConcat(s: State, a: seq<Step>, b: seq<Step>)
    requires CanRun(s, a) && CanRun(Run(s, a), b)
    ensures CanRun(s, a + b) && Run(s, a + b) == Run(Run(s, a), b)
    decreases |a|
  {
    if a == [] {
      assert a + b == b;
    } else {
      RunConcat(Do(s, a[0]), a[1..], b);
      assert (a + b)[1..] == a[1..] + b;
    }
  }

  /** The servers still on another configuration. */
  ghost function Lagging(s: State): set<Server> {
    set v | v in s.servers && s.servers[v] != s.live
  }

  /** Roll whatever lags, one server at a time. */
  lemma {:induction false} RollAll(s: State) returns (steps: seq<Step>)
    requires s.live.Config?
    ensures CanRun(s, steps)
    ensures var t := Run(s, steps);
      && t == s.(servers := t.servers) && t.servers.Keys == s.servers.Keys && RolledOnto(t, s.live)
    decreases |Lagging(s)|
  {
    if v :| v in s.servers && s.servers[v] != s.live {
      var t := Do(s, Roll(v));
      assert v in Lagging(s) && Lagging(t) == Lagging(s) - {v};
      var rest := RollAll(t);
      RunCons(s, Roll(v), rest);
      steps := [Roll(v)] + rest;
      assert t.servers.Keys == s.servers.Keys;
    } else {
      steps := [];
    }
  }

  /** The objects not yet sealed under the primary key. */
  ghost function Stale(s: State): set<Object>
    requires s.live.Config?
  {
    set o | o in s.store && s.store[o] != Sealed(s.live.primary)
  }

  ghost predicate AllSealedUnder(s: State, e: Entry) {
    forall o :: o in s.store ==> s.store[o] == Sealed(e)
  }

  /** Rewrite whatever is stale through a server that has rolled; it can read all of it. */
  lemma {:induction false} RewriteAll(s: State, v: Server) returns (steps: seq<Step>)
    requires s.live.Config? && v in s.servers && s.servers[v] == s.live && StoreReadsUnderLive(s)
    ensures CanRun(s, steps)
    ensures var t := Run(s, steps);
      && t == s.(store := t.store) && t.store.Keys == s.store.Keys && AllSealedUnder(t, s.live.primary)
    decreases |Stale(s)|
  {
    if o :| o in s.store && s.store[o] != Sealed(s.live.primary) {
      var t := Do(s, Rewrite(v, o));
      assert o in Stale(s) && Stale(t) == Stale(s) - {o};
      var rest := RewriteAll(t, v);
      RunCons(s, Rewrite(v, o), rest);
      steps := [Rewrite(v, o)] + rest;
      assert t.store.Keys == s.store.Keys;
    } else {
      steps := [];
    }
  }

  /** The retained key's name is not the primary's. */
  lemma NamesDiffer(s: State)
    requires Inv(s) && s.live.Config? && s.live.fallback.Some?
    ensures s.live.primary.Name() != s.live.fallback.value.Name()
  {
    assert s.live.primary in s.applied && s.live.fallback.value in s.applied;
    KeyNameInjective(s.live.primary.generation, s.live.fallback.value.generation);
  }

  /** What a completed rotation leaves: the new key alone, every object still there and sealed under it. */
  ghost predicate Completed(s: State, t: State) {
    && s.live.Config? && t.live == FinalConfig(s.live) && t.phase.Idle?
    && t.store.Keys == s.store.Keys && AllSealedUnder(t, s.live.primary)
    && t.servers.Keys == s.servers.Keys
  }

  lemma FinishFrom(s: State, v: Server) returns (steps: seq<Step>)
    requires Inv(s) && s.live.Config? && s.live.fallback.Some? && v in s.servers
    ensures CanRun(s, steps) && Completed(s, Run(s, steps))
  {
    var idle := Do(s, Abandon);
    var rolls := RollAll(idle);
    var rolled := Run(idle, rolls);
    assert v in rolled.servers.Keys;
    var rewrites := RewriteAll(rolled, v);
    var rewritten := Run(rolled, rewrites);
    NamesDiffer(s);
    assert Enabled(rewritten, FinalizeApply);
    RunConcat(idle, rolls, rewrites);
    RunSnoc(idle, rolls + rewrites, FinalizeApply);
    RunCons(s, Abandon, rolls + rewrites + [FinalizeApply]);
    steps := [Abandon] + (rolls + rewrites + [FinalizeApply]);
  }

  /**
  From every reachable state with a rotation staged and an API server left, some continuation
  completes it; and it too is a run, so nothing is lost on the way.
  */
  lemma RotationCanAlwaysFinish(init: State, steps: seq<Step>, v: Server) returns (more: seq<Step>)
    requires Init(init) && CanRun(init, steps)
    requires var s := Run(init, steps); s.live.Config? && s.live.fallback.Some? && v in s.servers
    ensures CanRun(init, steps + more) && Completed(Run(init, steps), Run(init, steps + more))
  {
    RunKeepsInv(init, steps);
    more := FinishFrom(Run(init, steps), v);
    RunConcat(init, steps, more);
  }
}
