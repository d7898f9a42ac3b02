/**
The at-rest key rotation protocol: `kakt encryption enable`, `kakt encryption rotate` and
`kakt encryption rotate --finalize`, together with everything that happens around them.

Five pieces of state are involved: the provider configuration Secret (`live`), the
configuration each API server started with (`servers`), the objects in etcd (`store`) and the
two escrow slots.  Every escrow write and every `kubectl apply` is one step, a command may be
abandoned after any of them, and API servers roll, write, rewrite and leave at any moment in
between.  An apply that landed but reported an error is the step followed by `Abandon`.
*/
module Rotation {
  import opened Options
  import opened KeyNames
  import opened Encodings

  /** Key material.  Sealing is uninterpreted: an object remembers the key it was sealed under. */
  type Key = Bytes
  type Server = nat
  type Object = nat

  /** One key of a configuration.  Its name there, and on every object it seals, is `Name()`. */
  datatype Entry = Entry(generation: nat, key: Key) {
    function Name(): string { KeyName(generation) }
  }

  /**
  What an API server can be started with: no provider at all, or what the template renders --
  a primary key that writes, maybe a fallback key that only reads, maybe `identity`.
  */
  datatype Config = Unencrypted | Config(primary: Entry, fallback: Option<Entry>, plaintext: bool) {
    predicate Holds(e: Entry) {
      Config? && (primary == e || fallback == Some(e))
    }
    predicate ReadsPlain() {
      Unencrypted? || plaintext
    }
  }

  /** An object in etcd: plaintext, or sealed and prefixed with the sealing key's name. */
  datatype Stored = Plain | Sealed(under: Entry)

  /** Where a command stands between two of its writes. */
  datatype Phase =
    | Idle
    | Enabling(key: Key, noFallback: bool)           // escrowed, not yet applied
    | OutgoingEscrowed(outgoing: Entry, newKey: Key) // old key in the previous slot
    | BothEscrowed(outgoing: Entry, newKey: Key)     // new key in the current slot too

  datatype State = State(
    live: Config, // Unencrypted: there is no configuration Secret
    servers: map<Server, Config>,
    store: map<Object, Stored>,
    current: Option<Key>,
    previous: Option<Key>,
    phase: Phase,
    minted: set<Key>,    // every key ever generated
    applied: set<Entry>) // every entry of every configuration ever applied

  datatype Step =
    | EnableEscrow(newKey: Key, noFallback: bool)
    | EnableApply
    | StagePrevious(newKey: Key)
    | StageCurrent
    | StageApply
    | FinalizeApply
    | Abandon
    | Roll(server: Server)
    | Leave(server: Server)
    | Write(server: Server, id: Object)
    | Rewrite(server: Server, id: Object)
    | Delete(id: Object)

  predicate Readable(c: Config, o: Stored) {
    match o
    case Plain => c.ReadsPlain()
    case Sealed(e) => c.Holds(e)
  }

  function SealedBy(c: Config): Stored {
    if c.Config? then Sealed(c.primary) else Plain
  }

  /** First adoption: nothing applied yet, or a re-run for the very key already in force. */
  predicate IsAdoption(s: State) {
    s.live.Config? ==>
      s.current.Some? && s.live.primary == Entry(1, s.current.value) && s.live.fallback.None?
  }

  /** Step 8 of the runbook for the plaintext fallback: every writer encrypts, nothing is plain. */
  predicate FullyEncrypted(s: State) {
    && (forall v :: v in s.servers ==> s.servers[v].Config?)
    && (forall o :: o in s.store ==> s.store[o].Sealed?)
  }

  predicate NoneCarries(s: State, name: string) {
    forall o :: o in s.store && s.store[o].Sealed? ==> s.store[o].under.Name() != name
  }

  predicate RolledOnto(s: State, c: Config) {
    forall v :: v in s.servers ==> s.servers[v] == c
  }

  /** No API server still writes under this key. */
  predicate NoneWritesUnder(s: State, e: Entry) {
    forall v :: v in s.servers && s.servers[v].Config? ==> s.servers[v].primary != e
  }

  /**
  The obligation stage 2 prints, as far as the data needs it: no object carries the old name, and
  no server has yet to be rolled off the old key.
  */
  predicate MayFinalize(s: State)
    requires s.live.Config? && s.live.fallback.Some?
  {
    NoneCarries(s, s.live.fallback.value.Name()) && NoneWritesUnder(s, s.live.fallback.value)
  }

  /** What `enable` renders: always generation 1, never a fallback key. */
  function EnableConfig(k: Key, noFallback: bool): Config {
    Config(Entry(1, k), None, !noFallback)
  }

  /** What stage 1 applies: the new key writes, the old one still reads. */
  function StagedConfig(outgoing: Entry, newKey: Key): Config {
    Config(Entry(outgoing.generation + 1, newKey), Some(outgoing), true)
  }

  /** What stage 2 applies: the primary alone. */
  function FinalConfig(c: Config): Config
    requires c.Config?
  {
    Config(c.primary, None, true)
  }

  /** 32 random bytes: no key is generated twice. */
  predicate IsNew(s: State, k: Key) {
    |k| == KEY_LENGTH && k !in s.minted
  }

  /** What the commands themselves check, and what a cluster can do at all. */
  predicate Possible(s: State, step: Step) {
    match step
    case EnableEscrow(newKey, noFallback) => s.phase.Idle? && IsNew(s, newKey)
    case EnableApply => s.phase.Enabling?
    case StagePrevious(newKey) =>
      s.phase.Idle? && IsNew(s, newKey) && s.live.Config? && s.live.fallback.None?
    case StageCurrent => s.phase.OutgoingEscrowed?
    case StageApply => s.phase.BothEscrowed?
    case FinalizeApply => s.phase.Idle? && s.live.Config? && s.live.fallback.Some?
    case Abandon => true
    case Roll(v) => s.live.Config?
    case Leave(v) => v in s.servers
    case Write(v, o) => v in s.servers
    case Rewrite(v, o) => v in s.servers && o in s.store && Readable(s.servers[v], s.store[o])
    case Delete(o) => o in s.store
  }

  /**
  What the commands leave to the operator: `enable` is for first adoption, the plaintext fallback
  goes only once nothing is plain, and stage 2 waits for the roll and the zero count.
  */
  predicate Obliged(s: State, step: Step)
    requires Possible(s, step)
  {
    match step
    case EnableEscrow(_, _) => IsAdoption(s)
    case EnableApply => s.phase.noFallback ==> FullyEncrypted(s)
    case FinalizeApply => MayFinalize(s)
    case _ => true
  }

  predicate Enabled(s: State, step: Step) {
    Possible(s, step) && Obliged(s, step)
  }

  function Entries(c: Config): set<Entry> {
    if c.Unencrypted? then {}
    else if c.fallback.None? then {c.primary}
    else {c.primary, c.fallback.value}
  }

  function Land(s: State, c: Config): State {
    s.(live := c, phase := Idle, applied := s.applied + Entries(c))
  }

  function Put(s: State, v: Server, o: Object): State
    requires v in s.servers
  {
    s.(store := s.store[o := SealedBy(s.servers[v])])
  }

  function Do(s: State, step: Step): State
    requires Possible(s, step)
  {
    match step
    case EnableEscrow(newKey, noFallback) =>
      // A key is minted only when the escrow holds none.
      var k := if s.current.Some? then s.current.value else newKey;
      s.(current := Some(k), minted := s.minted + {newKey}, phase := Enabling(k, noFallback))
    case EnableApply => Land(s, EnableConfig(s.phase.key, s.phase.noFallback))
    case StagePrevious(newKey) =>
      s.(previous := Some(s.live.primary.key), minted := s.minted + {newKey},
         phase := OutgoingEscrowed(s.live.primary, newKey))
    case StageCurrent =>
      s.(current := Some(s.phase.newKey), phase := BothEscrowed(s.phase.outgoing, s.phase.newKey))
    case StageApply => Land(s, StagedConfig(s.phase.outgoing, s.phase.newKey))
    case FinalizeApply => Land(s, FinalConfig(s.live))
    case Abandon => s.(phase := Idle)
    case Roll(v) => s.(servers := s.servers[v := s.live])
    case Leave(v) => s.(servers := s.servers - {v})
    case Write(v, o) => Put(s, v, o)
    case Rewrite(v, o) => Put(s, v, o)
    case Delete(o) => s.(store := s.store - {o})
  }

  /** A cluster that has never been encrypted, whatever it already stores. */
  predicate Init(s: State) {
    && s.live.Unencrypted? && s.current.None? && s.previous.None? && s.phase.Idle?
    && s.minted == {} && s.applied == {}
    && (forall v :: v in s.servers ==> s.servers[v].Unencrypted?)
    && (forall o :: o in s.store ==> s.store[o].Plain?)
  }

  predicate CanRun(s: State, steps: seq<Step>)
    decreases |steps|
  {
    steps == [] || (Enabled(s, steps[0]) && CanRun(Do(s, steps[0]), steps[1..]))
  }

  function Run(s: State, steps: seq<Step>): State
    requires CanRun(s, steps)
    decreases |steps|
  {
    if steps == [] then s else Run(Do(s, steps[0]), steps[1..])
  }

  // ----- What every step keeps -----

  predicate Escrowed(s: State, k: Key) {
    s.current == Some(k) || s.previous == Some(k)
  }

  /** A generation is bound to one key and a key to one generation, over everything ever applied. */
  ghost predicate NamesIdentifyKeys(s: State) {
    forall e, f :: e in s.applied && f in s.applied ==> (e.generation == f.generation <==> e.key == f.key)
  }

  /** The live primary carries the highest generation any applied configuration ever held. */
  ghost predicate PrimaryIsNewest(s: State) {
    && Entries(s.live) <= s.applied
    && (forall e :: e in s.applied ==> e.generation >= 1)
    && (s.live.Unencrypted? ==> s.applied == {})
    && (s.live.Config? ==> forall e :: e in s.applied ==> e.generation <= s.live.primary.generation)
  }

  ghost predicate LiveIsEscrowed(s: State) {
    s.live.Config? ==>
      if s.live.fallback.None? then Escrowed(s, s.live.primary.key)
      else
        && s.current == Some(s.live.primary.key)
        && s.previous == Some(s.live.fallback.value.key)
        && s.live.primary != s.live.fallback.value
  }

  /** Nothing ever generated is generated again, so a new key has sealed nothing. */
  ghost predicate KeysAreMinted(s: State) {
    && (forall e :: e in s.applied ==> e.key in s.minted)
    && (s.current.Some? ==> s.current.value in s.minted)
    && (forall k :: k in s.minted ==> |k| == KEY_LENGTH)
  }

  ghost predicate PhaseHolds(s: State) {
    match s.phase
    case Idle => true
    case Enabling(k, _) => s.current == Some(k) && IsAdoption(s)
    case OutgoingEscrowed(outgoing, newKey) => Staging(s, outgoing, newKey)
    case BothEscrowed(outgoing, newKey) => Staging(s, outgoing, newKey) && s.current == Some(newKey)
  }

  ghost predicate Staging(s: State, outgoing: Entry, newKey: Key) {
    && s.live.Config? && s.live.primary == outgoing && s.live.fallback.None?
    && s.previous == Some(outgoing.key)
    && newKey in s.minted && (forall e :: e in s.applied ==> e.key != newKey)
  }

  ghost predicate StoreReadsUnderLive(s: State) {
    forall o :: o in s.store ==> Readable(s.live, s.store[o])
  }

  /** Whatever a server writes next, the live configuration will read. */
  ghost predicate ServersWriteReadably(s: State) {
    forall v :: v in s.servers ==> Readable(s.live, SealedBy(s.servers[v]))
  }

  /** A configuration without `identity` exists only where nothing is, or becomes, plaintext. */
  ghost predicate PlainIsCovered(s: State) {
    && (s.live.ReadsPlain() || FullyEncrypted(s))
    && (forall v :: v in s.servers ==> s.servers[v].ReadsPlain() || FullyEncrypted(s))
  }

  ghost predicate Inv(s: State) {
    && NamesIdentifyKeys(s) && PrimaryIsNewest(s) && LiveIsEscrowed(s) && KeysAreMinted(s)
    && PhaseHolds(s) && StoreReadsUnderLive(s) && ServersWriteReadably(s) && PlainIsCovered(s)
  }

  lemma EscrowStepKeepsInv(s: State, step: Step)
    requires Inv(s) && Enabled(s, step)
    requires step.EnableEscrow? || step.StagePrevious? || step.StageCurrent? || step.Abandon?
    ensures Inv(Do(s, step))
  {
  }

  lemma ApplyStepKeepsInv(s: State, step: Step)
    requires Inv(s) && Enabled(s, step)
    requires step.EnableApply? || step.StageApply?
    ensures Inv(Do(s, step))
  {
  }

  lemma FinalizeKeepsInv(s: State)
    requires Inv(s) && Enabled(s, FinalizeApply)
    ensures Inv(Do(s, FinalizeApply))
  {
  }

  lemma RollKeepsInv(s: State, v: Server)
    requires Inv(s) && Enabled(s, Roll(v))
    ensures Inv(Do(s, Roll(v)))
  {
  }

  lemma LeaveKeepsInv(s: State, v: Server)
    requires Inv(s) && Enabled(s, Leave(v))
    ensures Inv(Do(s, Leave(v)))
  {
  }

  lemma StoreStepKeepsInv(s: State, step: Step)
    requires Inv(s) && Enabled(s, step)
    requires step.Write? || step.Rewrite? || step.Delete?
    ensures Inv(Do(s, step))
  {
  }

  lemma StepKeepsInv(s: State, step: Step)
    requires Inv(s) && Enabled(s, step)
    ensures Inv(Do(s, step))
  {
    match step
    case FinalizeApply => FinalizeKeepsInv(s);
    case Roll(v) => RollKeepsInv(s, v);
    case Leave(v) => LeaveKeepsInv(s, v);
    case Write(_, _) => StoreStepKeepsInv(s, step);
    case Rewrite(_, _) => StoreStepKeepsInv(s, step);
    case Delete(_) => StoreStepKeepsInv(s, step);
    case EnableApply => ApplyStepKeepsInv(s, step);
    case StageApply => ApplyStepKeepsInv(s, step);
    case _ => EscrowStepKeepsInv(s, step);
  }

  lemma {:induction false} RunKeepsInv(s: State, steps: seq<Step>)
    requires Inv(s) && CanRun(s, steps)
    ensures Inv(Run(s, steps))
    decreases |steps|
  {
    if steps != [] {
      StepKeepsInv(s, steps[0]);
      RunKeepsInv(Do(s, steps[0]), steps[1..]);
    }
  }

  lemma {:induction false} RunSnoc(s: State, steps: seq<Step>, step: Step)
    requires CanRun(s, steps) && Enabled(Run(s, steps), step)
    ensures CanRun(s, steps + [step]) && Run(s, steps + [step]) == Do(Run(s, steps), step)
    decreases |steps|
  {
    if steps == [] {
      assert (steps + [step])[1..] == [];
    } else {
      RunSnoc(Do(s, steps[0]), steps[1..], step);
      assert (steps + [step])[1..] == steps[1..] + [step];
    }
  }

  // ----- The theorems -----

  /**
  No data and no key is ever lost: after any run, wherever it was interrupted, the live
  configuration reads every stored object, and the two escrow slots hold every key that is
  live or seals anything.
  */
  lemma RotationNeverLosesData(init: State, steps: seq<Step>)
    requires Init(init) && CanRun(init, steps)
    ensures var s := Run(init, steps);
      && (forall o :: o in s.store ==> Readable(s.live, s.store[o]))
      && (forall e :: e in Entries(s.live) ==> Escrowed(s, e.key))
      && (forall o :: o in s.store && s.store[o].Sealed? ==> Escrowed(s, s.store[o].under.key))
  {
    RunKeepsInv(init, steps);
  }

  /** Over everything ever applied, equal names mean equal keys, and the live primary is newest. */
  lemma NamesIdentifyKeysForEver(init: State, steps: seq<Step>)
    requires Init(init) && CanRun(init, steps)
    ensures var s := Run(init, steps);
      && (forall e, f :: e in s.applied && f in s.applied ==> (e.Name() == f.Name() <==> e.key == f.key))
      && (s.live.Config? ==>
            s.live.primary in s.applied
            && forall e :: e in s.applied ==> e.generation <= s.live.primary.generation)
  {
    RunKeepsInv(init, steps);
    var s := Run(init, steps);
    forall e, f | e in s.applied && f in s.applied
      ensures e.Name() == f.Name() <==> e.key == f.key
    {
      KeyNameInjective(e.generation, f.generation);
    }
  }

  /** So the count the runbook makes by name is exactly the count by key that finalizing needs. */
  lemma OldNameCountIsExact(init: State, steps: seq<Step>)
    requires Init(init) && CanRun(init, steps)
    requires Run(init, steps).live.Config? && Run(init, steps).live.fallback.Some?
    ensures var s := Run(init, steps); var old_ := s.live.fallback.value;
      NoneCarries(s, old_.Name()) <==>
        (forall o :: o in s.store && s.store[o].Sealed? ==> s.store[o].under.key != old_.key)
  {
    RunKeepsInv(init, steps);
    var s := Run(init, steps);
    forall o | o in s.store && s.store[o].Sealed?
      ensures s.store[o].under.Name() == s.live.fallback.value.Name()
         <==> s.store[o].under.key == s.live.fallback.value.key
    {
      assert s.store[o].under in Entries(s.live);
      KeyNameInjective(s.store[o].under.generation, s.live.fallback.value.generation);
    }
  }

  /**
  Removing the retained key leaves everything readable exactly when that count is zero: the
  obligation the command prints is necessary as well as sufficient.
  */
  lemma FinalizeIsSafeExactlyWhenCountIsZero(s: State)
    requires Inv(s) && s.live.Config? && s.live.fallback.Some?
    ensures StoreReadsUnderLive(Land(s, FinalConfig(s.live)))
       <==> NoneCarries(s, s.live.fallback.value.Name())
  {
    var t := Land(s, FinalConfig(s.live));
    forall o | o in s.store && s.store[o].Sealed?
      ensures Readable(t.live, s.store[o])
         <==> s.store[o].under.Name() != s.live.fallback.value.Name()
    {
      assert s.store[o].under in Entries(s.live);
      KeyNameInjective(s.store[o].under.generation, s.live.fallback.value.generation);
    }
  }

  /**
  Stage 2 keeps everything this protocol promises -- now and for whatever is written next -- if and
  only if the operator's two obligations hold: the zero count alone is not enough, and nothing more
  is needed.
  */
  lemma FinalizeKeepsInvExactly(s: State)
    requires Inv(s) && s.live.Config? && s.live.fallback.Some?
    ensures Inv(Land(s, FinalConfig(s.live))) <==> MayFinalize(s)
  {
    var t := Land(s, FinalConfig(s.live));
    FinalizeIsSafeExactlyWhenCountIsZero(s);
    forall v | v in s.servers
      ensures Readable(t.live, SealedBy(s.servers[v])) <==>
        (s.servers[v].Config? ==> s.servers[v].primary != s.live.fallback.value)
    {
      assert Readable(s.live, SealedBy(s.servers[v]));
    }
  }

  /**
  `enable` always names generation 1.  Running it keeps one name for one key, and the newest
  generation first, exactly when it is the first adoption (or repeats it).
  */
  lemma EnableIsSafeExactlyOnAdoption(s: State, newKey: Key, noFallback: bool)
    requires Inv(s) && s.phase.Idle? && IsNew(s, newKey)
    ensures var k := if s.current.Some? then s.current.value else newKey;
      var t := Land(s.(current := Some(k)), EnableConfig(k, noFallback));
      (NamesIdentifyKeys(t) && PrimaryIsNewest(t)) <==> IsAdoption(s)
  {
    var k := if s.current.Some? then s.current.value else newKey;
    var t := Land(s.(current := Some(k)), EnableConfig(k, noFallback));
    assert Entry(1, k) in t.applied;
    if s.live.Config? {
      assert s.live.primary in s.applied;
      assert s.live.fallback.Some? ==> s.live.fallback.value in s.applied;
      if IsAdoption(s) {
        assert t.applied == s.applied;
      }
    }
  }

  /**
  And whether what is stored stays readable: exactly when no object carries the name of a live key
  other than the one `enable` renders, and nothing is plain where the fallback is left out.
  */
  lemma EnableReadsExactly(s: State, newKey: Key, noFallback: bool)
    requires Inv(s) && s.phase.Idle? && IsNew(s, newKey)
    ensures var k := if s.current.Some? then s.current.value else newKey;
      StoreReadsUnderLive(Land(s.(current := Some(k)), EnableConfig(k, noFallback))) <==>
        && (noFallback ==> forall o :: o in s.store ==> s.store[o].Sealed?)
        && forall e :: e in Entries(s.live) && e != Entry(1, k) ==> NoneCarries(s, e.Name())
  {
    var k := if s.current.Some? then s.current.value else newKey;
    var c := EnableConfig(k, noFallback);
    forall o | o in s.store && s.store[o].Sealed? ensures s.store[o].under in Entries(s.live) {
      assert Readable(s.live, s.store[o]);
    }
    forall e, o | e in Entries(s.live) && o in s.store && s.store[o].Sealed?
      ensures s.store[o].under.Name() == e.Name() <==> s.store[o].under == e
    {
      KeyNameInjective(s.store[o].under.generation, e.generation);
    }
  }

  // ----- What a step leaves alone, whether or not the operator met his obligations -----

  /** What a map holds under a key, if anything. */
  function Under<K, V>(m: map<K, V>, k: K): Option<V> {
    if k in m then Some(m[k]) else None
  }

  predicate Touches(step: Step, o: Object) {
    (step.Write? && step.id == o) || (step.Rewrite? && step.id == o) || (step.Delete? && step.id == o)
  }

  /** Every object a step does not name, every server it does not name and every slot it does not write stay. */
  lemma StepTouchesOnly(s: State, step: Step)
    requires Possible(s, step)
    ensures var t := Do(s, step);
      && (forall o :: !Touches(step, o) ==> Under(t.store, o) == Under(s.store, o))
      && (forall v :: step != Roll(v) && step != Leave(v) ==> Under(t.servers, v) == Under(s.servers, v))
      && (step.StagePrevious? || t.previous == s.previous)
      && (step.StageCurrent? || (step.EnableEscrow? && s.current.None?) || t.current == s.current)
      && (step.EnableApply? || step.StageApply? || step.FinalizeApply? || t.live == s.live)
      && s.minted <= t.minted && s.applied <= t.applied
  {
  }

  /** A server reads back what it has just written, and a rolled one has what is live. */
  lemma StepDoesItsWork(s: State, step: Step)
    requires Possible(s, step)
    ensures var t := Do(s, step);
      && (step.Write? || step.Rewrite? ==>
            step.id in t.store && t.servers == s.servers && Readable(s.servers[step.server], t.store[step.id])
            && (t.store[step.id].Plain? <==> s.servers[step.server].Unencrypted?))
      && (step.Roll? ==> Under(t.servers, step.server) == Some(s.live))
      && (step.Leave? ==> step.server !in t.servers)
      && (step.Delete? ==> step.id !in t.store)
  {
  }

  /** Over every run, an object goes only by being deleted, and keeps its seal until it is written again. */
  lemma {:induction false} ObjectsStay(s: State, steps: seq<Step>, o: Object)
    requires CanRun(s, steps)
    ensures o in s.store && (forall i :: 0 <= i < |steps| ==> steps[i] != Delete(o)) ==> o in Run(s, steps).store
    ensures (forall i :: 0 <= i < |steps| ==> !Touches(steps[i], o)) ==>
      Under(Run(s, steps).store, o) == Under(s.store, o)
    decreases |steps|
  {
    if steps != [] {
      StepTouchesOnly(s, steps[0]);
      StepDoesItsWork(s, steps[0]);
      ObjectsStay(Do(s, steps[0]), steps[1..], o);
      assert forall i :: 0 <= i < |steps| - 1 ==> steps[1..][i] == steps[i + 1];
    }
  }

  /** And an escrow slot that was ever filled is never emptied. */
  lemma {:induction false} EscrowIsNeverEmptied(s: State, steps: seq<Step>)
    requires CanRun(s, steps)
    ensures s.current.Some? ==> Run(s, steps).current.Some?
    ensures s.previous.Some? ==> Run(s, steps).previous.Some?
    decreases |steps|
  {
    if steps != [] {
      StepTouchesOnly(s, steps[0]);
      EscrowIsNeverEmptied(Do(s, steps[0]), steps[1..]);
    }
  }

  // ----- The plaintext fallback -----

  /** Which command applied the live configuration. */
  datatype Applied = ByNobody | ByEnable(noFallback: bool) | ByStage | ByFinalize

  function AppliedBy(s: State, step: Step, last: Applied): Applied
    requires Possible(s, step)
  {
    match step
    case EnableApply => ByEnable(s.phase.noFallback)
    case StageApply => ByStage
    case FinalizeApply => ByFinalize
    case _ => last
  }

  function LastApply(s: State, steps: seq<Step>, last: Applied): Applied
    requires CanRun(s, steps)
    decreases |steps|
  {
    if steps == [] then last
    else LastApply(Do(s, steps[0]), steps[1..], AppliedBy(s, steps[0], last))
  }

  lemma {:induction false} PlaintextFollowsLastApply(s: State, steps: seq<Step>, last: Applied)
    requires CanRun(s, steps) && (s.live.ReadsPlain() <==> last != ByEnable(true))
    ensures Run(s, steps).live.ReadsPlain() <==> LastApply(s, steps, last) != ByEnable(true)
    decreases |steps|
  {
    if steps != [] {
      PlaintextFollowsLastApply(Do(s, steps[0]), steps[1..], AppliedBy(s, steps[0], last));
    }
  }

  /**
  The live configuration lacks the plaintext fallback exactly when the last command to apply one was
  `enable` without it: both stages of a rotation put it back.
  */
  lemma PlaintextIsRefusedExactly(init: State, steps: seq<Step>)
    requires Init(init) && CanRun(init, steps)
    ensures !Run(init, steps).live.ReadsPlain() <==> LastApply(init, steps, ByNobody) == ByEnable(true)
  {
    PlaintextFollowsLastApply(init, steps, ByNobody);
  }

  /** What one API server can read, counted the way the runbook counts: by name, in etcd. */
  lemma ServerReadsExactly(s: State, v: Server)
    requires Inv(s) && v in s.servers
    ensures (forall o :: o in s.store ==> Readable(s.servers[v], s.store[o]))
       <==> (forall e :: e in Entries(s.live) ==> s.servers[v].Holds(e) || NoneCarries(s, e.Name()))
  {
    forall e, o | e in Entries(s.live) && o in s.store && s.store[o].Sealed?
      ensures s.store[o].under in Entries(s.live)
      ensures s.store[o].under.Name() == e.Name() <==> s.store[o].under == e
    {
      KeyNameInjective(s.store[o].under.generation, e.generation);
    }
  }

  // ----- One API server, and several -----

  ghost predicate Alone(s: State, v: Server) {
    s.servers.Keys == {v}
  }

  ghost predicate AloneThroughout(s: State, steps: seq<Step>, v: Server)
    requires CanRun(s, steps)
    decreases |steps|
  {
    Alone(s, v) && (steps == [] || AloneThroughout(Do(s, steps[0]), steps[1..], v))
  }

  lemma SoleServerStep(s: State, step: Step, v: Server)
    requires StoreReadsUnderLive(s) && Enabled(s, step) && Alone(s, v) && Alone(Do(s, step), v)
    requires forall o :: o in s.store ==> Readable(s.servers[v], s.store[o])
    ensures var t := Do(s, step); forall o :: o in t.store ==> Readable(t.servers[v], t.store[o])
  {
    assert v in Do(s, step).servers.Keys;
    if step.Roll? {
      assert step.server in Do(s, step).servers.Keys;
    }
  }

  lemma {:induction false} SoleServerKeepsReading(s: State, steps: seq<Step>, v: Server)
    requires Inv(s) && CanRun(s, steps) && AloneThroughout(s, steps, v)
    requires forall o :: o in s.store ==> Readable(s.servers[v], s.store[o])
    ensures var t := Run(s, steps);
      v in t.servers && forall o :: o in t.store ==> Readable(t.servers[v], t.store[o])
    decreases |steps|
  {
    if steps != [] {
      StepKeepsInv(s, steps[0]);
      SoleServerStep(s, steps[0], v);
      SoleServerKeepsReading(Do(s, steps[0]), steps[1..], v);
    }
  }

  /** On a control plane of one API server nothing is unreadable at any point of any run. */
  lemma SoleServerAlwaysReads(init: State, steps: seq<Step>, v: Server)
    requires Init(init) && CanRun(init, steps) && AloneThroughout(init, steps, v)
    ensures var s := Run(init, steps);
      v in s.servers && forall o :: o in s.store ==> Readable(s.servers[v], s.store[o])
  {
    SoleServerKeepsReading(init, steps, v);
  }

  /** A key to show something with. */
  function Sample(b: Byte): (k: Key)
    ensures |k| == KEY_LENGTH && k[0] == b
  {
    seq(KEY_LENGTH, _ => b)
  }

  function Cluster(servers: set<Server>): State {
    State(Unencrypted, map v | v in servers :: Unencrypted, map[], None, None, Idle, {}, {})
  }

  /** A run and the state it reaches, kept together so that concrete runs can be spelled out. */
  lemma Take(init: State, steps: seq<Step>, s: State, step: Step) returns (more: seq<Step>, t: State)
    requires Init(init) && CanRun(init, steps) && s == Run(init, steps) && Enabled(s, step)
    ensures more == steps + [step] && CanRun(init, more) && t == Run(init, more) && t == Do(s, step)
  {
    RunSnoc(init, steps, step);
    more, t := steps + [step], Do(s, step);
  }

  /** `enable` from nothing, uninterrupted. */
  lemma EnableFully(init: State, steps: seq<Step>, s: State, k: Key) returns (more: seq<Step>, t: State)
    requires Init(init) && CanRun(init, steps) && s == Run(init, steps)
    requires s.phase.Idle? && s.live.Unencrypted? && s.current.None? && IsNew(s, k)
    ensures CanRun(init, more) && t == Run(init, more)
    ensures t == s.(live := EnableConfig(k, false), current := Some(k), minted := s.minted + {k},
                    applied := s.applied + {Entry(1, k)})
  {
    more, t := Take(init, steps, s, EnableEscrow(k, false));
    more, t := Take(init, more, t, EnableApply);
  }

  /** Stage 1, uninterrupted. */
  lemma StageFully(init: State, steps: seq<Step>, s: State, k: Key) returns (more: seq<Step>, t: State)
    requires Init(init) && CanRun(init, steps) && s == Run(init, steps)
    requires s.phase.Idle? && s.live.Config? && s.live.fallback.None? && IsNew(s, k)
    ensures CanRun(init, more) && t == Run(init, more) && steps <= more
    ensures t == Land(s.(current := Some(k), previous := Some(s.live.primary.key), minted := s.minted + {k}),
                      StagedConfig(s.live.primary, k))
  {
    more, t := Take(init, steps, s, StagePrevious(k));
    more, t := Take(init, more, t, StageCurrent);
    more, t := Take(init, more, t, StageApply);
  }

  /**
  With two API servers the help text's "nothing is unreadable at any point" does not hold: while
  the control plane rolls, the rolled server writes under the new key and the other one cannot
  read what it wrote (`ServerReadsExactly` says precisely when).
  */
  lemma RollingTwoServersHasAReadGap() returns (init: State, steps: seq<Step>, s: State)
    ensures Init(init) && CanRun(init, steps) && s == Run(init, steps)
    ensures 0 in s.store && 2 in s.servers && !Readable(s.servers[2], s.store[0])
  {
    init, steps := Cluster({1, 2}), [];
    s := init;
    steps, s := EnableFully(init, steps, s, Sample(10));
    steps, s := Take(init, steps, s, Roll(1));
    steps, s := Take(init, steps, s, Roll(2));
    steps, s := StageFully(init, steps, s, Sample(11));
    steps, s := Take(init, steps, s, Roll(1));
    steps, s := Take(init, steps, s, Write(1, 0));
  }

  /** A cluster that had given up the plaintext fallback gets it back from a rotation. */
  lemma RotationRestoresPlaintext() returns (init: State, steps: seq<Step>, s: State, t: State, more: seq<Step>)
    ensures Init(init) && CanRun(init, steps) && s == Run(init, steps) && !s.live.ReadsPlain()
    ensures CanRun(init, more) && t == Run(init, more) && t.live.ReadsPlain()
    ensures steps <= more && t.live == StagedConfig(s.live.primary, Sample(11))
  {
    init, steps := Cluster({1}), [];
    s := init;
    steps, s := EnableFully(init, steps, s, Sample(10));
    steps, s := Take(init, steps, s, Roll(1));
    steps, s := Take(init, steps, s, EnableEscrow(Sample(12), true));
    steps, s := Take(init, steps, s, EnableApply);
    more, t := StageFully(init, steps, s, Sample(11));
  }

  /**
  Counting zero objects is not enough without the roll: a server still on the old configuration
  seals the next object under the key that was just removed.
  */
  lemma FinalizeBeforeRollLosesAnObject() returns (init: State, steps: seq<Step>, s: State)
    ensures Init(init) && CanRun(init, steps) && s == Run(init, steps)
    ensures s.phase.Idle? && s.live.Config? && s.live.fallback.Some? && NoneCarries(s, s.live.fallback.value.Name())
    ensures 1 in s.servers && !Readable(FinalConfig(s.live), SealedBy(s.servers[1]))
  {
    init, steps := Cluster({1}), [];
    s := init;
    steps, s := EnableFully(init, steps, s, Sample(10));
    steps, s := Take(init, steps, s, Roll(1));
    steps, s := StageFully(init, steps, s, Sample(11));
  }

  /**
  `enable` re-run after a stage 1 that failed before its apply restores the unused new key from
  the escrow, names it `key1`, and leaves every object sealed under the real `key1` unreadable.
  */
  lemma EnableAfterFailedStageLosesAnObject() returns (init: State, steps: seq<Step>, s: State)
    ensures Init(init) && CanRun(init, steps) && s == Run(init, steps)
    ensures s.phase.Idle? && s.current.Some? && !IsAdoption(s)
    ensures 0 in s.store && Readable(s.live, s.store[0])
         && !Readable(EnableConfig(s.current.value, false), s.store[0])
         && s.store[0].Sealed?
         && s.store[0].under.Name() == EnableConfig(s.current.value, false).primary.Name()
  {
    init, steps := Cluster({1}), [];
    s := init;
    steps, s := EnableFully(init, steps, s, Sample(10));
    steps, s := Take(init, steps, s, Roll(1));
    steps, s := Take(init, steps, s, Write(1, 0));
    steps, s := Take(init, steps, s, StagePrevious(Sample(11)));
    steps, s := Take(init, steps, s, StageCurrent);
    steps, s := Take(init, steps, s, Abandon);
  }
}
