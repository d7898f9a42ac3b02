/**
The commands themselves, as the ordered series of writes they are, refining the protocol of
module `Rotation`: whatever each write answers and whatever the cluster does in between, a
command only ever takes steps of the protocol, so `RotationNeverLosesData` covers every way it
can end.
*/
module RotateCommand {
  import opened Options
  import opened Digits
  import opened KeyNames
  import opened Encodings
  import opened Fingerprint
  import opened ProviderConfig
  import opened Rotation

  /** How one external write answers; an error may hide a write that landed. */
  datatype Answer = Done | Refused | LandedButFailed

  datatype Outcome = Applied | DryRun | Rejected | Failed

  /** One parsed `- name:` / `secret:` pair. */
  datatype LiveKey = LiveKey(name: string, generation: nat, b64: string)

  predicate Parses(text: string) {
    var names, secrets := Captures(text, NAME), Captures(text, SECRET);
    0 < |names| == |secrets| && forall i :: 0 <= i < |names| ==> Generation(names[i]).Some?
  }

  /** `readLiveKeys`: what the patterns find, refusing unpaired entries and names that are not `keyN`. */
  method ReadLiveKeys(text: string) returns (live: Option<seq<LiveKey>>)
    ensures live.Some? <==> Parses(text)
    ensures live.Some? ==> |live.value| == |Captures(text, NAME)| == |Captures(text, SECRET)|
    ensures live.Some? ==> forall i :: 0 <= i < |live.value| ==>
      var name := Captures(text, NAME)[i];
      Generation(name).Some? && live.value[i] == LiveKey(name, Generation(name).value, Captures(text, SECRET)[i])
  {
    var names, secrets := Captures(text, NAME), Captures(text, SECRET);
    if |names| == 0 || |names| != |secrets| {
      return None;
    }
    var out: seq<LiveKey> := [];
    for i := 0 to |names|
      invariant |out| == i
      invariant forall j :: 0 <= j < i ==> Generation(names[j]).Some?
      invariant forall j :: 0 <= j < i ==> out[j] == LiveKey(names[j], Generation(names[j]).value, secrets[j])
    {
      var g := Generation(names[i]);
      if g.None? {
        return None;
      }
      out := out + [LiveKey(names[i], g.value, secrets[i])];
    }
    return Some(out);
  }

  /** The key list the template prints: the primary first, the fallback after it. */
  function KeyList(c: Config): seq<Entry> {
    if c.Unencrypted? then []
    else if c.fallback.None? then [c.primary]
    else [c.primary, c.fallback.value]
  }

  /** No key is empty: what an API server would not start with. */
  predicate HasKeys(c: Config) {
    forall i :: 0 <= i < |KeyList(c)| ==> KeyList(c)[i].key != []
  }

  function EntryText(e: Entry): KeyText {
    KeyText(e.Name(), B64Encode(e.key))
  }

  /** The configuration as `renderConfig` writes it, under a template with these comments. */
  function ConfigLines(c: Config, order: seq<Line>, retained: seq<Line>): seq<Line>
    requires c.Config?
  {
    var fallback := if c.fallback.None? then None else Some(EntryText(c.fallback.value));
    Rendered(EntryText(c.primary), fallback, c.plaintext, order, retained)
  }

  function ConfigText(c: Config, order: seq<Line>, retained: seq<Line>): string
    requires c.Config?
  {
    Join(ConfigLines(c, order, retained))
  }

  lemma SecretIsWord(key: Key)
    requires key != []
    ensures IsWord(B64Encode(key))
  {
    B64EncodeShape(key);
    var s := B64Encode(key);
    forall i | 0 <= i < |s| ensures !IsSpace(s[i]) {
      assert B64Value(s[i]).Some? || s[i] == '=';
    }
  }

  lemma EntryIsKeyText(e: Entry)
    requires e.key != []
    ensures IsKeyText(EntryText(e))
  {
    SecretIsWord(e.key);
    var name := e.Name();
    forall i | 0 <= i < |name| ensures !IsSpace(name[i]) {
      assert i < 3 || IsDigit(Decimal(e.generation)[i - 3]);
    }
  }

  /** What `readLiveKeys` finds in a text is this list of keys, in this order. */
  ghost predicate ReadsAs(text: string, keys: seq<Entry>) {
    var names, secrets := Captures(text, NAME), Captures(text, SECRET);
    && |names| == |secrets| == |keys|
    && forall i :: 0 <= i < |keys| ==>
         && names[i] == keys[i].Name() && Generation(names[i]) == Some(keys[i].generation)
         && secrets[i] == B64Encode(keys[i].key) && B64Decode(secrets[i]) == Some(keys[i].key)
  }

  /** The texts of the keys that are printed, in order. */
  lemma PrintedKeys(c: Config)
    requires c.Config? && HasKeys(c)
    ensures var fallback := if c.fallback.None? then None else Some(EntryText(c.fallback.value));
      var keys := KeysOf(EntryText(c.primary), fallback);
      && |keys| == |KeyList(c)| && (forall i :: 0 <= i < |keys| ==> keys[i] == EntryText(KeyList(c)[i]))
      && IsKeyText(EntryText(c.primary)) && (fallback.Some? ==> IsKeyText(fallback.value))
  {
    assert KeyList(c)[0] == c.primary && (c.fallback.Some? ==> KeyList(c)[1] == c.fallback.value);
    EntryIsKeyText(c.primary);
    if c.fallback.Some? {
      EntryIsKeyText(c.fallback.value);
    }
  }

  /** What the two patterns find in the rendered text. */
  lemma PrintedIsFound(c: Config, order: seq<Line>, retained: seq<Line>)
    requires c.Config? && HasKeys(c) && AreComments(order) && AreComments(retained)
    ensures var text := ConfigText(c, order, retained);
      && |Captures(text, NAME)| == |Captures(text, SECRET)| == |KeyList(c)|
      && forall i :: 0 <= i < |KeyList(c)| ==>
           Captures(text, NAME)[i] == KeyList(c)[i].Name() && Captures(text, SECRET)[i] == B64Encode(KeyList(c)[i].key)
  {
    var fallback := if c.fallback.None? then None else Some(EntryText(c.fallback.value));
    PrintedKeys(c);
    RenderedIsRead(EntryText(c.primary), fallback, c.plaintext, order, retained, NAME);
    RenderedIsRead(EntryText(c.primary), fallback, c.plaintext, order, retained, SECRET);
  }

  /**
  What was rendered parses: whatever the template's comments, exactly the primary and the fallback are
  read back, each with its generation and its key.
  */
  lemma RenderedConfigParses(c: Config, order: seq<Line>, retained: seq<Line>)
    requires c.Config? && HasKeys(c) && AreComments(order) && AreComments(retained)
    ensures Parses(ConfigText(c, order, retained)) && ReadsAs(ConfigText(c, order, retained), KeyList(c))
    ensures IDENTITY in ConfigLines(c, order, retained) <==> c.plaintext
  {
    PrintedIsFound(c, order, retained);
    RenderedPlaintext(c, order, retained);
    forall i | 0 <= i < |KeyList(c)|
      ensures Generation(KeyList(c)[i].Name()) == Some(KeyList(c)[i].generation)
      ensures B64Decode(B64Encode(KeyList(c)[i].key)) == Some(KeyList(c)[i].key)
    {
      GenerationOfKeyName(KeyList(c)[i].generation);
      B64RoundTrip(KeyList(c)[i].key);
    }
  }

  lemma RenderedPlaintext(c: Config, order: seq<Line>, retained: seq<Line>)
    requires c.Config? && AreComments(order) && AreComments(retained)
    ensures IDENTITY in ConfigLines(c, order, retained) <==> c.plaintext
  {
    var fallback := if c.fallback.None? then None else Some(EntryText(c.fallback.value));
    PlaintextIsRendered(EntryText(c.primary), fallback, c.plaintext, order, retained);
  }

  /** Steps the cluster takes on its own while a command is between two writes. */
  predicate IsClusterStep(step: Step) {
    step.Roll? || step.Leave? || step.Write? || step.Rewrite? || step.Delete?
  }

  /** Stage 1 goes on to its writes: one key is live, of 32 bytes, and this is not a dry run. */
  predicate Proceeds(s: State, dryRun: bool) {
    s.live.Config? && s.live.fallback.None? && !dryRun && |s.live.primary.key| == KEY_LENGTH
  }

  /** What `enable` may be asked for without harm: first adoption, and no plaintext left behind. */
  predicate MayEnable(s: State, noFallback: bool) {
    IsAdoption(s) && (noFallback ==> FullyEncrypted(s))
  }

  /**
  One cluster and its escrow.  `Lawful()` says that it is in a run of the protocol; the commands keep
  it so as long as the operator meets the obligations they print, and run all the same if not.
  */
  class Box {
    const order: seq<Line>    // the template's comments on the order of the keys
    const retained: seq<Line> // and on the retained one
    var s: State
    ghost const init: State
    ghost var steps: seq<Step>

    /** The configuration Secret is one that was rendered, with keys in it. */
    ghost predicate Valid()
      reads this
    {
      AreComments(order) && AreComments(retained) && HasKeys(s.live)
    }

    ghost predicate Lawful()
      reads this
    {
      Init(init) && CanRun(init, steps) && s == Run(init, steps)
    }

    constructor (servers: map<Server, Config>, store: map<Object, Stored>, order: seq<Line>, retained: seq<Line>)
      requires forall v :: v in servers ==> servers[v].Unencrypted?
      requires forall o :: o in store ==> store[o].Plain?
      requires AreComments(order) && AreComments(retained)
      ensures Valid() && Lawful() && s.servers == servers && s.store == store && steps == []
    {
      this.order, this.retained := order, retained;
      s := State(Unencrypted, servers, store, None, None, Idle, {}, {});
      init := State(Unencrypted, servers, store, None, None, Idle, {}, {});
      steps := [];
    }

    method Perform(step: Step)
      requires Possible(s, step)
      modifies this
      ensures s == Do(old(s), step) && steps == old(steps) + [step]
      ensures old(Lawful()) && Obliged(old(s), step) ==> Lawful()
    {
      if Lawful() && Obliged(s, step) {
        RunSnoc(init, steps, step);
      }
      s := Do(s, step);
      steps := steps + [step];
    }

    /** Any number of cluster steps: rolls, writes, rewrites, deletions, servers leaving. */
    method Meanwhile()
      modifies this
      ensures old(Lawful()) ==> Lawful()
      ensures s == old(s).(servers := s.servers, store := s.store)
      ensures FullyEncrypted(old(s)) ==> FullyEncrypted(s)
    {
      var n: int := *;
      for i := 0 to if n < 0 then 0 else n
        invariant old(Lawful()) ==> Lawful()
        invariant s == old(s).(servers := s.servers, store := s.store)
        invariant FullyEncrypted(old(s)) ==> FullyEncrypted(s)
      {
        var step: Step := *;
        if IsClusterStep(step) && Possible(s, step) {
          Perform(step);
        }
      }
    }

    /** One write that is one protocol step; true when the command saw it succeed. */
    method Attempt(step: Step, answer: Answer) returns (ok: bool)
      requires Possible(s, step)
      modifies this
      ensures ok == answer.Done?
      ensures s == match answer
                   case Done => Do(old(s), step)
                   case Refused => old(s).(phase := Idle)
                   case LandedButFailed => Do(old(s), step).(phase := Idle)
      ensures old(Lawful()) && (answer.Refused? || Obliged(old(s), step)) ==> Lawful()
    {
      if !answer.Refused? {
        Perform(step);
      }
      if !answer.Done? {
        Perform(Abandon);
      }
      ok := answer.Done?;
    }

    /** What the rotation finds in the configuration Secret, which is there. */
    method ReadLive() returns (live: seq<LiveKey>)
      requires Valid() && s.live.Config?
      ensures |live| == |KeyList(s.live)|
      ensures forall i :: 0 <= i < |live| ==>
        var e := KeyList(s.live)[i]; live[i] == LiveKey(e.Name(), e.generation, B64Encode(e.key))
    {
      RenderedConfigParses(s.live, order, retained);
      var read := ReadLiveKeys(ConfigText(s.live, order, retained));
      live := read.value;
    }

    /** The writes of stage 1: each is reached only after the one before it, and may land though it failed. */
    method StageWrites(newKey: Key, toPrevious: Answer, toCurrent: Answer, apply: Answer) returns (ok: bool)
      requires Valid() && s.phase.Idle? && IsNew(s, newKey) && s.live.Config? && s.live.fallback.None?
      modifies this
      ensures Valid() && (old(Lawful()) ==> Lawful())
      ensures s.phase.Idle? && (ok <==> toPrevious.Done? && toCurrent.Done? && apply.Done?)
      ensures s.previous == (if toPrevious.Refused? then old(s).previous else Some(old(s).live.primary.key))
      ensures s.current == (if toPrevious.Done? && !toCurrent.Refused? then Some(newKey) else old(s).current)
      ensures s.live == (if toPrevious.Done? && toCurrent.Done? && !apply.Refused?
                         then StagedConfig(old(s).live.primary, newKey) else old(s).live)
      ensures s.minted == old(s).minted + (if toPrevious.Refused? then {} else {newKey})
      ensures s.applied == old(s).applied + (if s.live == old(s).live then {} else Entries(s.live))
    {
      assert KeyList(s.live)[0] == s.live.primary; // so it is not empty, nor is the fallback it becomes
      ok := Attempt(StagePrevious(newKey), toPrevious);
      if !ok {
        return;
      }
      Meanwhile();
      ok := Attempt(StageCurrent, toCurrent);
      if !ok {
        return;
      }
      Meanwhile();
      ok := Attempt(StageApply, apply);
    }

    /** `kakt encryption rotate`: escrow the outgoing key, escrow the new one, then apply both. */
    method Stage(newKey: Key, dryRun: bool, toPrevious: Answer, toCurrent: Answer, apply: Answer)
      returns (r: Outcome)
      requires Valid() && s.phase.Idle?
      requires IsNew(s, newKey) // 32 random bytes
      modifies this
      ensures Valid() && (old(Lawful()) ==> Lawful())
      ensures s.phase.Idle?
      ensures r.Rejected? <==> old(s).live.Unencrypted? || old(s).live.fallback.Some?
      ensures r.DryRun? <==> !r.Rejected? && dryRun
      ensures !Proceeds(old(s), dryRun) ==> s == old(s) && !r.Applied?
      ensures r.Applied? <==> Proceeds(old(s), dryRun) && toPrevious.Done? && toCurrent.Done? && apply.Done?
      // Each write is reached only after the one before it was seen to succeed, and may land though it failed.
      ensures Proceeds(old(s), dryRun) ==>
        && s.previous == (if toPrevious.Refused? then old(s).previous else Some(old(s).live.primary.key))
        && s.current == (if toPrevious.Done? && !toCurrent.Refused? then Some(newKey) else old(s).current)
        && s.live == (if toPrevious.Done? && toCurrent.Done? && !apply.Refused?
                      then StagedConfig(old(s).live.primary, newKey) else old(s).live)
        && s.minted == old(s).minted + (if toPrevious.Refused? then {} else {newKey})
        && s.applied == old(s).applied + (if s.live == old(s).live then {} else Entries(s.live))
    {
      if s.live.Unencrypted? { // there is no configuration Secret to read
        return Rejected;
      }
      var live := ReadLive();
      if |live| > 1 {
        return Rejected;
      }
      if dryRun {
        return DryRun;
      }
      RenderedKeyComesBack(s.live.primary.key);
      var oldHex := DecodeKeyToHex(live[0].b64);
      if oldHex.None? {
        return Failed;
      }
      HexRoundTrip(s.live.primary.key);
      assert HexDecode(oldHex.value) == Some(s.live.primary.key); // what goes to the previous slot
      assert live[0].generation + 1 == StagedConfig(s.live.primary, newKey).primary.generation;
      var ok := StageWrites(newKey, toPrevious, toCurrent, apply);
      return if ok then Applied else Failed;
    }

    /**
    `kakt encryption rotate --finalize`.  It runs whether or not the obligation it prints was met;
    once it has landed, the protocol's invariant holds exactly if it was.
    */
    method Finalize(dryRun: bool, apply: Answer) returns (r: Outcome)
      requires Valid() && s.phase.Idle?
      modifies this
      ensures Valid() && s.phase.Idle?
      ensures r.Rejected? <==> old(s).live.Unencrypted? || old(s).live.fallback.None?
      ensures r.DryRun? <==> !r.Rejected? && dryRun
      ensures r.Rejected? || r.DryRun? || apply.Refused? ==> s == old(s)
      ensures r.Applied? <==> !r.Rejected? && !dryRun && apply.Done?
      ensures !r.Rejected? && !dryRun && !apply.Refused? ==> s == Land(old(s), FinalConfig(old(s).live))
      ensures s.current == old(s).current && s.previous == old(s).previous // the escrow keeps both keys
      ensures old(Lawful()) && (s == old(s) || MayFinalize(old(s))) ==> Lawful()
      ensures Inv(old(s)) && !r.Rejected? && !dryRun && !apply.Refused? ==> (Inv(s) <==> MayFinalize(old(s)))
    {
      if s.live.Unencrypted? {
        return Rejected;
      }
      var live := ReadLive();
      if |live| < 2 {
        return Rejected;
      }
      if dryRun {
        return DryRun;
      }
      if Inv(s) {
        FinalizeKeepsInvExactly(s);
      }
      assert KeyList(s.live)[0] == s.live.primary;
      var ok := Attempt(FinalizeApply, apply);
      return if ok then Applied else Failed;
    }

    /** The escrow holds something that is no key. */
    predicate IsSpoilt(s: State) {
      s.current.Some? && |s.current.value| != KEY_LENGTH
    }

    /**
    `kakt encryption enable`: the escrow before anything is applied, generation 1 whatever came before.
    An escrowed value that is not 32 bytes is refused, and a dry run changes nothing.
    */
    method Enable(newKey: Key, noFallback: bool, dryRun: bool, toEscrow: Answer, apply: Answer) returns (r: Outcome)
      requires Valid() && s.phase.Idle? && IsNew(s, newKey)
      modifies this
      ensures Valid() && s.phase.Idle?
      ensures r.Rejected? <==> IsSpoilt(old(s))
      ensures r.DryRun? <==> !r.Rejected? && dryRun
      ensures r.Rejected? || r.DryRun? ==> s == old(s)
      ensures r.Applied? <==> !r.Rejected? && !dryRun && toEscrow.Done? && apply.Done?
      ensures !r.Rejected? && !dryRun ==>
        && (toEscrow.Done? && !apply.Refused? ==>
              s.current.Some? && s.live == EnableConfig(s.current.value, noFallback))
        && (!toEscrow.Done? || apply.Refused? ==> s.live == old(s).live) // nothing is applied unescrowed
        && s.current == if old(s).current.Some? || toEscrow.Refused? then old(s).current else Some(newKey)
      ensures s.previous == old(s).previous // whatever the outcome, also in the middle of a rotation
      ensures s.minted <= old(s).minted + {newKey}
      ensures s.applied == old(s).applied
        || (s.current.Some? && s.applied == old(s).applied + {Entry(1, s.current.value)})
      ensures old(Lawful()) && MayEnable(old(s), noFallback) ==> Lawful()
    {
      if IsSpoilt(s) {
        return Rejected;
      }
      if dryRun {
        return DryRun;
      }
      var ok := Attempt(EnableEscrow(newKey, noFallback), toEscrow);
      if !ok {
        return Failed;
      }
      Meanwhile();
      ok := Attempt(EnableApply, apply);
      return if ok then Applied else Failed;
    }

    /** In a run of the protocol the escrow is never spoilt, and the live key always decodes. */
    lemma KeysAreWhole()
      requires Lawful()
      ensures !IsSpoilt(s) && (s.live.Config? ==> |s.live.primary.key| == KEY_LENGTH)
    {
      RunKeepsInv(init, steps);
    }

    /** At every moment between two operations the whole safety theorem holds of the box. */
    lemma SafeAtEveryMoment()
      requires Lawful()
      ensures forall o :: o in s.store ==> Readable(s.live, s.store[o])
      ensures forall e :: e in Entries(s.live) ==> Escrowed(s, e.key)
      ensures forall o :: o in s.store && s.store[o].Sealed? ==> Escrowed(s, s.store[o].under.key)
    {
      RotationNeverLosesData(init, steps);
      assert s == Run(init, steps);
      forall e | e in Entries(s.live) ensures Escrowed(s, e.key) {
        assert e in Entries(Run(init, steps).live);
      }
    }
  }
}
