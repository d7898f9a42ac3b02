/**
The declaration loop of scripts/package/templated-fields.py: which documents become templates,
what is done to each, and what is emitted.
*/
module Declarations {
  import opened Options
  import opened Text
  import opened Sorting
  import opened Escaping
  import opened Marking
  import opened Dumping
  import opened Templating
  import opened Operations
  import opened Drafts
  import opened Literals

  /** One entry of the declaration file. */
  datatype Spec = Spec(kind: string, name: string, operations: seq<Operation>, when: Option<string>)

  function Named(s: Spec): Identity {
    (Some(Str(s.kind)), Some(Str(s.name)))
  }

  /** The document a declaration names: the last one loaded with that kind and name. */
  function IndexOf(docs: seq<Node>, id: Identity): (r: Option<nat>)
    ensures r.Some? ==> r.value < |docs| && Identify(docs[r.value]) == id
    ensures r.Some? ==> forall i :: r.value < i < |docs| ==> Identify(docs[i]) != id
    ensures r.None? ==> forall i :: 0 <= i < |docs| ==> Identify(docs[i]) != id
  {
    if docs == [] then None
    else if Identify(docs[|docs| - 1]) == id then Some(|docs| - 1)
    else IndexOf(docs[..|docs| - 1], id)
  }

  /** A declaration with its document looked up. */
  datatype Declared = Declared(target: Option<nat>, operations: seq<Operation>, when: Option<string>)

  function Resolve(docs: seq<Node>, wanted: seq<Spec>): (ds: seq<Declared>)
    ensures |ds| == |wanted|
    ensures forall k :: 0 <= k < |ds| && ds[k].target.Some? ==> ds[k].target.value < |docs|
  {
    seq(|wanted|, k requires 0 <= k < |wanted| =>
      Declared(IndexOf(docs, Named(wanted[k])), wanted[k].operations, wanted[k].when))
  }

  predicate Selected(ds: seq<Declared>, i: nat) {
    exists k :: 0 <= k < |ds| && ds[k].target == Some(i)
  }

  /** Everything declared for one document, in declaration order, however many entries name it. */
  function OperationsFor(ds: seq<Declared>, i: nat): seq<Operation> {
    if ds == [] then []
    else
      var last := ds[|ds| - 1];
      OperationsFor(ds[..|ds| - 1], i) + if last.target == Some(i) then last.operations else []
  }

  /** A document on its way through the loop. */
  datatype Working = Working(node: Node, escaped: bool)

  /** What one declaration does to its document: escape it unless it already is, then its fields. */
  function Advance(w: Working, ops: seq<Operation>): Option<Working> {
    var next := ApplyAll(if w.escaped then w.node else ProtectNode(w.node), ops);
    if next.None? then None else Some(Working(next.value, true))
  }

  /** The document after the declarations so far; None once one of them matched nothing in it. */
  function Progress(doc: Node, ds: seq<Declared>, i: nat): Option<Working> {
    if ds == [] then Some(Working(doc, false))
    else
      var before, last := Progress(doc, ds[..|ds| - 1], i), ds[|ds| - 1];
      if before.None? || last.target != Some(i) then before else Advance(before.value, last.operations)
  }

  lemma SelectedSnoc(ds: seq<Declared>, d: Declared, i: nat)
    ensures Selected(ds + [d], i) <==> Selected(ds, i) || d.target == Some(i)
  {
    var longer := ds + [d];
    assert longer[|ds|] == d;
    if Selected(ds, i) {
      var j :| 0 <= j < |ds| && ds[j].target == Some(i);
      assert longer[j] == ds[j];
    }
  }

  /**
  However many declarations name a document, it is escaped exactly once, before any of their
  fields, and then carries all of their fields in declaration order.
  */
  lemma {:induction false} EscapedOnceThenDeclared(doc: Node, ds: seq<Declared>, i: nat)
    ensures Progress(doc, ds, i) ==
      if Selected(ds, i) then Advance(Working(doc, false), OperationsFor(ds, i)) else Some(Working(doc, false))
    ensures !Selected(ds, i) ==> OperationsFor(ds, i) == []
    decreases |ds|
  {
    if ds != [] {
      var front, last := ds[..|ds| - 1], ds[|ds| - 1];
      assert ds == front + [last];
      EscapedOnceThenDeclared(doc, front, i);
      SelectedSnoc(front, last, i);
      AdvanceTwice(Working(doc, false), OperationsFor(front, i), last.operations);
    }
  }

  lemma AdvanceTwice(w: Working, a: seq<Operation>, b: seq<Operation>)
    ensures Advance(w, a + b) == if Advance(w, a).None? then None else Advance(Advance(w, a).value, b)
    ensures [] + b == b && a + [] == a
  {
    ApplyAllAppend(if w.escaped then w.node else ProtectNode(w.node), a, b);
  }

  predicate Matches(docs: seq<Node>, ds: seq<Declared>) {
    && (forall k :: 0 <= k < |ds| ==> ds[k].target.Some?)
    && (forall i :: 0 <= i < |docs| ==> Progress(docs[i], ds, i).Some?)
  }

  // ----- The loop -----

  /** The fields of one declaration, applied in order; an error is noted and the rest go on. */
  method ApplyFields(n: Node, ops: seq<Operation>) returns (m: Node, missing: bool)
    ensures missing <==> ApplyAll(n, ops).None?
    ensures !missing ==> ApplyAll(n, ops) == Some(m)
  {
    m, missing := n, false;
    for j := 0 to |ops|
      invariant missing <==> ApplyAll(n, ops[..j]).None?
      invariant !missing ==> ApplyAll(n, ops[..j]) == Some(m)
    {
      assert ops[..j + 1][..j] == ops[..j];
      var next := Apply(m, ops[j]);
      if next.None? {
        missing := true;
      } else {
        m := next.value;
      }
    }
    assert ops[..|ops|] == ops;
  }

  lemma ProgressSnoc(doc: Node, ds: seq<Declared>, d: Declared, i: nat)
    ensures Progress(doc, ds + [d], i) ==
      var before := Progress(doc, ds, i);
      if before.None? || d.target != Some(i) then before else Advance(before.value, d.operations)
  {
    assert (ds + [d])[..|ds|] == ds;
  }

  ghost predicate Tracks(docs: seq<Node>, ds: seq<Declared>, work: seq<Working>) {
    |work| == |docs| && forall i :: 0 <= i < |docs| ==> Progress(docs[i], ds, i) == Some(work[i])
  }

  lemma MatchesSnoc(docs: seq<Node>, ds: seq<Declared>, d: Declared)
    requires d.target.Some? ==> d.target.value < |docs|
    ensures Matches(docs, ds + [d]) <==>
      && Matches(docs, ds) && d.target.Some?
      && Progress(docs[d.target.value], ds + [d], d.target.value).Some?
  {
    forall i | 0 <= i < |docs|
      ensures Progress(docs[i], ds + [d], i).Some? ==> Progress(docs[i], ds, i).Some?
      ensures d.target != Some(i) ==> Progress(docs[i], ds + [d], i) == Progress(docs[i], ds, i)
    {
      ProgressSnoc(docs[i], ds, d, i);
    }
    if Matches(docs, ds + [d]) {
      assert (ds + [d])[|ds|] == d;
      assert forall k :: 0 <= k < |ds| ==> (ds + [d])[k] == ds[k];
    }
  }

  /** One turn of the loop, for a declaration whose document exists. */
  method DeclareOne(docs: seq<Node>, ds: seq<Declared>, d: Declared, work: seq<Working>)
    returns (next: seq<Working>, failed: bool)
    requires d.target.Some? && d.target.value < |docs|
    requires Matches(docs, ds) && Tracks(docs, ds, work)
    ensures failed <==> !Matches(docs, ds + [d])
    ensures !failed ==> Tracks(docs, ds + [d], next)
  {
    var t := d.target.value;
    MatchesSnoc(docs, ds, d);
    ProgressSnoc(docs[t], ds, d, t);
    var changed;
    changed, failed := ApplyFields(if work[t].escaped then work[t].node else ProtectNode(work[t].node), d.operations);
    next := work[t := Working(changed, true)];
    if !failed {
      forall i | 0 <= i < |docs| ensures Progress(docs[i], ds + [d], i) == Some(next[i]) {
        ProgressSnoc(docs[i], ds, d, i);
      }
    }
  }

  /**
  The loop over the declarations.  A declaration that matches nothing refuses the whole package;
  otherwise every document is what `Progress` says, and those named are collected once each.
  */
  method Declare(docs: seq<Node>, ds: seq<Declared>) returns (ok: bool, work: seq<Working>, templated: seq<nat>)
    requires forall k :: 0 <= k < |ds| && ds[k].target.Some? ==> ds[k].target.value < |docs|
    ensures ok <==> Matches(docs, ds)
    ensures ok ==> Tracks(docs, ds, work)
    ensures ok ==> NoRepeats(templated) && forall i: nat :: i in templated <==> Selected(ds, i)
  {
    ok, templated := true, [];
    work := seq(|docs|, i requires 0 <= i < |docs| => Working(docs[i], false));
    for k := 0 to |ds|
      invariant ok <==> Matches(docs, ds[..k])
      invariant ok ==> Tracks(docs, ds[..k], work)
      invariant NoRepeats(templated)
      invariant ok ==> forall i: nat :: i in templated <==> Selected(ds[..k], i)
    {
      assert ds[..k + 1] == ds[..k] + [ds[k]];
      MatchesSnoc(docs, ds[..k], ds[k]);
      if ok && ds[k].target.Some? {
        forall i: nat ensures Selected(ds[..k + 1], i) <==> Selected(ds[..k], i) || ds[k].target == Some(i) {
          SelectedSnoc(ds[..k], ds[k], i);
        }
        var failed;
        work, failed := DeclareOne(docs, ds[..k], ds[k], work);
        ok := !failed;
        if ds[k].target.value !in templated {
          templated := templated + [ds[k].target.value];
        }
      } else {
        ok := false;
      }
    }
    assert ds[..|ds|] == ds;
  }

  predicate Conflict(a: Declared, b: Declared) {
    a.target.Some? && a.target == b.target && a.when.Some? && b.when.Some? && a.when != b.when
  }

  predicate Conflicting(ds: seq<Declared>) {
    exists j, k :: 0 <= j < k < |ds| && Conflict(ds[j], ds[k])
  }

  /** A condition the declaration carries is the one its object is wrapped in. */
  predicate GuardKept(d: Declared, guards: map<nat, string>) {
    d.target.Some? && d.when.Some? ==> d.target.value in guards && guards[d.target.value] == d.when.value
  }

  predicate AllKept(ds: seq<Declared>, guards: map<nat, string>) {
    forall k :: 0 <= k < |ds| ==> GuardKept(ds[k], guards)
  }

  /** Some declaration puts this condition on this object. */
  predicate Guarded(ds: seq<Declared>, d: nat, when: string) {
    exists j :: 0 <= j < |ds| && ds[j].target == Some(d) && ds[j].when == Some(when)
  }

  predicate AllGuarded(ds: seq<Declared>, guards: map<nat, string>) {
    forall d :: d in guards ==> Guarded(ds, d, guards[d])
  }

  predicate Clashes(d: Declared, guards: map<nat, string>) {
    && d.target.Some? && d.when.Some?
    && d.target.value in guards && guards[d.target.value] != d.when.value
  }

  function AddGuard(d: Declared, guards: map<nat, string>): map<nat, string> {
    if d.target.Some? && d.when.Some? then guards[d.target.value := d.when.value] else guards
  }

  /** The map is enough to tell whether one more declaration conflicts with any before it. */
  lemma ConflictStep(ds: seq<Declared>, d: Declared, guards: map<nat, string>)
    requires AllGuarded(ds, guards) && (Conflicting(ds) || AllKept(ds, guards))
    ensures Conflicting(ds + [d]) <==> Conflicting(ds) || Clashes(d, guards)
  {
    var more := ds + [d];
    if Conflicting(ds) {
      var j, k :| 0 <= j < k < |ds| && Conflict(ds[j], ds[k]);
      assert Conflict(more[j], more[k]);
    } else if Clashes(d, guards) {
      var j :| 0 <= j < |ds| && ds[j].target == d.target && ds[j].when == Some(guards[d.target.value]);
      assert Conflict(more[j], more[|ds|]);
    } else {
      forall j, k | 0 <= j < k < |more| ensures !Conflict(more[j], more[k]) {
        if k < |ds| {
          assert more[j] == ds[j] && more[k] == ds[k];
        } else {
          assert GuardKept(ds[j], guards);
        }
      }
    }
  }

  lemma GuardStep(ds: seq<Declared>, d: Declared, guards: map<nat, string>)
    requires AllGuarded(ds, guards)
    ensures AllGuarded(ds + [d], AddGuard(d, guards))
    ensures AllKept(ds, guards) && !Clashes(d, guards) ==> AllKept(ds + [d], AddGuard(d, guards))
  {
    var more, now := ds + [d], AddGuard(d, guards);
    forall x | x in now ensures Guarded(more, x, now[x]) {
      if d.target == Some(x) && d.when == Some(now[x]) {
        assert more[|ds|] == d;
      } else {
        var j :| 0 <= j < |ds| && ds[j].target == Some(x) && ds[j].when == Some(guards[x]);
        assert more[j] == ds[j];
      }
    }
    if AllKept(ds, guards) && !Clashes(d, guards) {
      forall k | 0 <= k < |more| ensures GuardKept(more[k], now) {
        if k < |ds| {
          assert more[k] == ds[k] && GuardKept(ds[k], guards);
        }
      }
    }
  }

  /** The `guards` map: two different conditions on one object are a conflict, not a choice. */
  method Guards(ds: seq<Declared>) returns (guards: map<nat, string>, conflict: bool)
    ensures conflict <==> Conflicting(ds)
    ensures !conflict ==> AllKept(ds, guards)
    ensures AllGuarded(ds, guards)
  {
    guards, conflict := map[], false;
    for k := 0 to |ds|
      invariant conflict <==> Conflicting(ds[..k])
      invariant !conflict ==> AllKept(ds[..k], guards)
      invariant AllGuarded(ds[..k], guards)
    {
      assert ds[..k + 1] == ds[..k] + [ds[k]];
      ConflictStep(ds[..k], ds[k], guards);
      GuardStep(ds[..k], ds[k], guards);
      if ds[k].target.Some? && ds[k].when.Some? {
        var d := ds[k].target.value;
        if d in guards && guards[d] != ds[k].when.value {
          conflict := true;
        }
        guards := guards[d := ds[k].when.value];
      }
    }
    assert ds[..|ds|] == ds;
  }

  // ----- What is emitted -----

  datatype Result =
    | Refused
    | Packaged(docs: seq<Node>, written: seq<Node>, templated: seq<nat>, verbatim: seq<nat>, guards: map<nat, string>)

  predicate Unclaimed(docs: seq<Node>, claimed: set<Identity>, i: nat) {
    i < |docs| && Identify(docs[i]) !in claimed
  }

  /** `remaining`: whatever no declaration claimed, by the identity it has now. */
  method Remaining(docs: seq<Node>, claimed: set<Identity>) returns (verbatim: seq<nat>)
    ensures NoRepeats(verbatim)
    ensures forall i: nat :: i in verbatim <==> Unclaimed(docs, claimed, i)
  {
    verbatim := [];
    for i := 0 to |docs|
      invariant NoRepeats(verbatim) && forall j :: 0 <= j < |verbatim| ==> verbatim[j] < i
      invariant forall j: nat :: j in verbatim <==> j < i && Unclaimed(docs, claimed, j)
    {
      if Identify(docs[i]) !in claimed {
        verbatim := verbatim + [i];
      }
    }
  }

  function Claimed(wanted: seq<Spec>): set<Identity> {
    set s | s in wanted :: Named(s)
  }

  // ----- Emitted once, and exactly when -----

  /** No declared identity is carried by two documents. */
  predicate NoSharedClaim(docs: seq<Node>, wanted: seq<Spec>) {
    forall i, j :: 0 <= i < j < |docs| && Identify(docs[i]) == Identify(docs[j]) ==>
      Identify(docs[i]) !in Claimed(wanted)
  }

  lemma ClaimedHasSpec(docs: seq<Node>, wanted: seq<Spec>, i: nat) returns (k: nat)
    requires i < |docs| && Identify(docs[i]) in Claimed(wanted)
    ensures k < |wanted| && Named(wanted[k]) == Identify(docs[i])
    ensures var t := Resolve(docs, wanted)[k].target;
      t.Some? && i <= t.value && Identify(docs[t.value]) == Identify(docs[i])
  {
    var s :| s in wanted && Named(s) == Identify(docs[i]);
    k :| 0 <= k < |wanted| && wanted[k] == s;
  }

  /** A document is selected exactly when it is the last to carry a declared identity. */
  lemma SelectedExactly(docs: seq<Node>, wanted: seq<Spec>, i: nat)
    requires i < |docs|
    ensures Selected(Resolve(docs, wanted), i) <==>
      && Identify(docs[i]) in Claimed(wanted)
      && forall j :: i < j < |docs| ==> Identify(docs[j]) != Identify(docs[i])
  {
    var ds := Resolve(docs, wanted);
    if Selected(ds, i) {
      var k :| 0 <= k < |ds| && ds[k].target == Some(i);
      assert wanted[k] in wanted;
    }
    if Identify(docs[i]) in Claimed(wanted) {
      var k := ClaimedHasSpec(docs, wanted, i);
      if forall j :: i < j < |docs| ==> Identify(docs[j]) != Identify(docs[i]) {
        assert ds[k].target == Some(i);
      }
    }
  }

  /** The identity a document has once it is escaped. */
  function EscapedIdentity(id: Identity): Identity {
    (if id.0.Some? then Some(ProtectNode(id.0.value)) else None,
     if id.1.Some? then Some(ProtectNode(id.1.value)) else None)
  }

  lemma GetEscaped(n: Node, k: string)
    ensures Get(ProtectNode(n), k) == if Get(n, k).Some? then Some(ProtectNode(Get(n, k).value)) else None
  {
    if n.Dict? {
      FindSameKeys(n.fields, ProtectNode(n).fields, k);
    }
  }

  lemma IdentifyEscaped(n: Node)
    ensures Identify(ProtectNode(n)) == EscapedIdentity(Identify(n))
  {
    GetEscaped(n, "kind");
    GetEscaped(n, "metadata");
    if Get(n, "metadata").Some? {
      GetEscaped(Get(n, "metadata").value, "name");
    }
  }

  /** The identity the packager leaves a selected document with, told from the declarations alone. */
  function ShippedIdentity(docs: seq<Node>, wanted: seq<Spec>, i: nat): Identity
    requires i < |docs|
  {
    FinalIdentity(EscapedIdentity(Identify(docs[i])), OperationsFor(Resolve(docs, wanted), i))
  }

  lemma ShippedIdentityIsRight(docs: seq<Node>, wanted: seq<Spec>, i: nat)
    requires i < |docs| && Selected(Resolve(docs, wanted), i) && Progress(docs[i], Resolve(docs, wanted), i).Some?
    ensures Identify(Progress(docs[i], Resolve(docs, wanted), i).value.node) == ShippedIdentity(docs, wanted, i)
  {
    var ds := Resolve(docs, wanted);
    var k :| 0 <= k < |ds| && ds[k].target == Some(i);
    assert Identify(docs[i]) == Named(wanted[k]);
    EscapedOnceThenDeclared(docs[i], ds, i);
    IdentifyEscaped(docs[i]);
    ApplyAllIdentity(ProtectNode(docs[i]), OperationsFor(ds, i));
  }

  /** In exactly one of the two halves: among the templates, or verbatim. */
  predicate EmittedOnce(docs: seq<Node>, wanted: seq<Spec>, out: seq<Node>, i: nat) {
    Selected(Resolve(docs, wanted), i) <==> !Unclaimed(out, Claimed(wanted), i)
  }

  /** What the packager leaves of each document. */
  ghost predicate IsShipped(docs: seq<Node>, wanted: seq<Spec>, out: seq<Node>) {
    && |out| == |docs|
    && forall i :: 0 <= i < |docs| ==>
         Progress(docs[i], Resolve(docs, wanted), i) == Some(Working(out[i], Selected(Resolve(docs, wanted), i)))
  }

  /** No template is renamed out of the declared identities. */
  predicate NoneRenamed(docs: seq<Node>, wanted: seq<Spec>) {
    forall i: nat :: i < |docs| && Selected(Resolve(docs, wanted), i) ==>
      ShippedIdentity(docs, wanted, i) in Claimed(wanted)
  }

  lemma OneIsEmittedOnce(docs: seq<Node>, wanted: seq<Spec>, out: seq<Node>, i: nat)
    requires IsShipped(docs, wanted, out) && i < |docs|
    ensures EmittedOnce(docs, wanted, out, i) <==>
      if Selected(Resolve(docs, wanted), i) then ShippedIdentity(docs, wanted, i) in Claimed(wanted)
      else Identify(docs[i]) !in Claimed(wanted)
  {
    if Selected(Resolve(docs, wanted), i) {
      ShippedIdentityIsRight(docs, wanted, i);
    } else {
      EscapedOnceThenDeclared(docs[i], Resolve(docs, wanted), i);
    }
  }

  /**
  Every document is emitted exactly once if and only if no declared identity is shared by two
  documents and no declaration renames its document out of the declared identities -- both told from
  documents and declarations, before anything is packaged.  Otherwise something is lost or doubled:
  of two documents sharing a declared identity the earlier is dropped, and a template that was renamed
  is shipped verbatim as well.
  */
  lemma EmittedExactlyOnce(docs: seq<Node>, wanted: seq<Spec>, out: seq<Node>)
    requires IsShipped(docs, wanted, out)
    ensures (forall i: nat :: i < |docs| ==> EmittedOnce(docs, wanted, out, i)) <==>
      NoSharedClaim(docs, wanted) && NoneRenamed(docs, wanted)
  {
    var ds := Resolve(docs, wanted);
    forall i: nat | i < |docs|
      ensures EmittedOnce(docs, wanted, out, i) <==>
        if Selected(ds, i) then ShippedIdentity(docs, wanted, i) in Claimed(wanted)
        else Identify(docs[i]) !in Claimed(wanted)
      ensures Selected(ds, i) <==>
        Identify(docs[i]) in Claimed(wanted) && forall j :: i < j < |docs| ==> Identify(docs[j]) != Identify(docs[i])
    {
      OneIsEmittedOnce(docs, wanted, out, i);
      SelectedExactly(docs, wanted, i);
    }
    if forall i: nat :: i < |docs| ==> EmittedOnce(docs, wanted, out, i) {
      forall i, j | 0 <= i < j < |docs| && Identify(docs[i]) == Identify(docs[j])
        ensures Identify(docs[i]) !in Claimed(wanted)
      {
        assert !Selected(ds, i);
        assert EmittedOnce(docs, wanted, out, i);
      }
    }
  }

  /** Declarations that leave kind, metadata and name alone, of objects named without delimiters. */
  predicate AllSteady(wanted: seq<Spec>) {
    forall k :: 0 <= k < |wanted| ==>
      && IsPlain(wanted[k].kind) && IsPlain(wanted[k].name)
      && forall j :: 0 <= j < |wanted[k].operations| ==> IsSteady(wanted[k].operations[j])
  }

  lemma {:induction false} OperationsAreSteady(ds: seq<Declared>, i: nat)
    requires forall k, j :: 0 <= k < |ds| && 0 <= j < |ds[k].operations| ==> IsSteady(ds[k].operations[j])
    ensures forall j :: 0 <= j < |OperationsFor(ds, i)| ==> IsSteady(OperationsFor(ds, i)[j])
  {
    if ds != [] {
      OperationsAreSteady(ds[..|ds| - 1], i);
      var last := ds[|ds| - 1].operations;
      assert forall j :: 0 <= j < |last| ==> IsSteady(last[j]);
    }
  }

  /** Then no document changes its identity on the way. */
  lemma SteadyIdentity(docs: seq<Node>, wanted: seq<Spec>, i: nat)
    requires AllSteady(wanted) && i < |docs| && Selected(Resolve(docs, wanted), i)
    ensures ShippedIdentity(docs, wanted, i) == Identify(docs[i]) && Identify(docs[i]) in Claimed(wanted)
  {
    var ds := Resolve(docs, wanted);
    var k :| 0 <= k < |ds| && ds[k].target == Some(i);
    assert Identify(docs[i]) == Named(wanted[k]) && wanted[k] in wanted;
    PlainStays(wanted[k].kind);
    PlainStays(wanted[k].name);
    OperationsAreSteady(ds, i);
    SteadyKeepsIdentity(EscapedIdentity(Identify(docs[i])), OperationsFor(ds, i));
  }

  /** And every document is emitted exactly once if and only if no declared identity is shared. */
  lemma SteadyIsEmittedExactlyOnce(docs: seq<Node>, wanted: seq<Spec>, out: seq<Node>)
    requires IsShipped(docs, wanted, out) && AllSteady(wanted)
    ensures (forall i: nat :: i < |docs| ==> EmittedOnce(docs, wanted, out, i)) <==> NoSharedClaim(docs, wanted)
  {
    EmittedExactlyOnce(docs, wanted, out);
    forall i: nat | i < |docs| && Selected(Resolve(docs, wanted), i)
      ensures ShippedIdentity(docs, wanted, i) in Claimed(wanted)
    {
      SteadyIdentity(docs, wanted, i);
    }
  }

  /** What goes through the dumper: an untouched document comes out as it is exactly when it is settled. */
  ghost predicate IsWritten(docs: seq<Node>, ds: seq<Declared>, out: seq<Node>, written: seq<Node>) {
    && |written| == |out| == |docs|
    && forall i :: 0 <= i < |docs| ==>
         && written[i] == DumpNode(out[i])
         && (!Selected(ds, i) ==> (written[i] == docs[i] <==> AllSettled(docs[i])))
  }

  lemma DumpedIsWritten(docs: seq<Node>, wanted: seq<Spec>, out: seq<Node>, written: seq<Node>)
    requires IsShipped(docs, wanted, out) && |written| == |out|
    requires forall i :: 0 <= i < |out| ==> written[i] == DumpNode(out[i])
    ensures IsWritten(docs, Resolve(docs, wanted), out, written)
  {
    forall i | 0 <= i < |docs| && !Selected(Resolve(docs, wanted), i)
      ensures written[i] == docs[i] <==> AllSettled(docs[i])
    {
      EscapedOnceThenDeclared(docs[i], Resolve(docs, wanted), i);
      WrittenAsItIsExactly(docs[i]);
    }
  }

  /** The packager: refuse, or write each templated document once and what is left over. */
  method Package(docs: seq<Node>, wanted: seq<Spec>) returns (r: Result)
    ensures var ds := Resolve(docs, wanted);
      && (r.Packaged? <==> Matches(docs, ds) && !Conflicting(ds))
      && (r.Packaged? ==>
            && |r.docs| == |docs|
            && (forall i :: 0 <= i < |docs| ==> Progress(docs[i], ds, i) == Some(Working(r.docs[i], Selected(ds, i))))
            && NoRepeats(r.templated) && (forall i: nat :: i in r.templated <==> Selected(ds, i))
            && NoRepeats(r.verbatim) && (forall i: nat :: i in r.verbatim <==> Unclaimed(r.docs, Claimed(wanted), i))
            && IsWritten(docs, ds, r.docs, r.written)
            && AllKept(ds, r.guards) && AllGuarded(ds, r.guards))
    ensures r.Packaged? ==>
      ((forall i: nat :: i < |docs| ==> (i in r.templated <==> i !in r.verbatim)) <==>
         NoSharedClaim(docs, wanted) && NoneRenamed(docs, wanted))
  {
    var ds := Resolve(docs, wanted);
    var guards, conflict := Guards(ds);
    var ok, work, templated := Declare(docs, ds);
    if conflict || !ok {
      return Refused;
    }
    var out := seq(|work|, i requires 0 <= i < |work| => work[i].node);
    var verbatim := Remaining(out, Claimed(wanted));
    var written := seq(|out|, i requires 0 <= i < |out| => DumpNode(out[i]));
    forall i | 0 <= i < |docs| ensures work[i] == Working(out[i], Selected(ds, i)) {
      EscapedOnceThenDeclared(docs[i], ds, i);
    }
    DumpedIsWritten(docs, wanted, out, written);
    EmittedExactlyOnce(docs, wanted, out);
    assert forall i: nat :: i < |docs| ==>
      ((i in templated <==> i !in verbatim) <==> EmittedOnce(docs, wanted, out, i));
    r := Packaged(out, written, templated, verbatim, guards);
  }

  // ----- A document lost, and one doubled -----

  /** An object of kind K. */
  function Thing(name: string, more: string): Node {
    Dict([Entry("kind", Str("K")), Entry("metadata", Dict([Entry("name", Str(name))])), Entry("spec", Str(more))])
  }

  lemma ThingIdentity(name: string, more: string)
    ensures Identify(Thing(name, more)) == (Some(Str("K")), Some(Str(name)))
  {
    var n := Thing(name, more);
    assert Find(n.fields, "kind") == 0;
    FindIs(n.fields, "metadata", 1);
    assert Find(n.fields[1].value.fields, "name") == 0;
  }

  /** With one declaration, what ships follows from that declaration alone. */
  lemma SoleDeclaration(docs: seq<Node>, spec: Spec, i: nat)
    requires i < |docs|
    ensures var ds := Resolve(docs, [spec]);
      && (Selected(ds, i) <==> ds[0].target == Some(i))
      && (Selected(ds, i) ==> OperationsFor(ds, i) == spec.operations)
  {
    var ds := Resolve(docs, [spec]);
    assert ds == [ds[0]] && ds[..0] == [];
    assert OperationsFor(ds[..0], i) == [];
    assert [] + spec.operations == spec.operations;
  }

  /** Two objects of one name, declared: the first of them is in neither half. */
  lemma SharedIdentityIsLost() returns (docs: seq<Node>, wanted: seq<Spec>, out: seq<Node>)
    ensures IsShipped(docs, wanted, out) && |docs| == 2
    ensures !Selected(Resolve(docs, wanted), 0) && !Unclaimed(out, Claimed(wanted), 0)
  {
    docs, wanted := [Thing("n", "a"), Thing("n", "b")], [Spec("K", "n", [], None)];
    ThingIdentity("n", "a");
    ThingIdentity("n", "b");
    assert Identify(docs[1]) == Identify(docs[0]);
    assert wanted[0] in wanted && Named(wanted[0]) in Claimed(wanted);
    var ds := Resolve(docs, wanted);
    SelectedExactly(docs, wanted, 0);
    SelectedExactly(docs, wanted, 1);
    SoleDeclaration(docs, wanted[0], 1);
    EscapedOnceThenDeclared(docs[0], ds, 0);
    EscapedOnceThenDeclared(docs[1], ds, 1);
    out := [docs[0], ProtectNode(docs[1])];
    OneIsEmittedOnce(docs, wanted, out, 0);
  }

  lemma CanRename(n: Node, v: Node)
    requires Get(n, "metadata").Some? && Get(n, "metadata").value.Dict?
    ensures Assign(n, NAME, v).Some?
  {
    IdentityByPath(n);
    assert NAME[..1] == METADATA && NAME[1] == Key("name");
    AssignSucceedsExactly(n, NAME, v);
  }

  lemma RenamedIdentity(id: Identity, op: Operation, expression: string)
    requires op == Assigns(Field(NAME, Str(expression)))
    ensures FinalIdentity(id, [op]).1 == Some(Str(expression))
  {
    assert [op][..0] == [] && FinalIdentity(id, []) == id;
    assert NAME != KIND;
  }

  lemma RenamedShips(thing: Node, spec: Spec, expression: string) returns (out: seq<Node>)
    requires Identify(thing) == Named(spec) && spec.operations == [Assigns(Field(NAME, Str(expression)))]
    requires Get(thing, "metadata").Some? && Get(thing, "metadata").value.Dict?
    ensures Selected(Resolve([thing], [spec]), 0) && IsShipped([thing], [spec], out)
  {
    var docs, wanted, op := [thing], [spec], spec.operations[0];
    assert spec in wanted && Named(spec) in Claimed(wanted);
    SelectedExactly(docs, wanted, 0);
    SoleDeclaration(docs, spec, 0);
    GetEscaped(thing, "metadata");
    CanRename(ProtectNode(thing), Str(expression));
    var t := Assign(ProtectNode(thing), NAME, Str(expression));
    assert [op][..0] == [] && ApplyAll(ProtectNode(thing), []) == Some(ProtectNode(thing));
    assert ApplyAll(ProtectNode(thing), [op]) == Apply(ProtectNode(thing), op) == t;
    EscapedOnceThenDeclared(thing, Resolve(docs, wanted), 0);
    out := [t.value];
  }

  lemma RenamedIsUnclaimed(thing: Node, spec: Spec, expression: string, out: seq<Node>)
    requires spec.operations == [Assigns(Field(NAME, Str(expression)))] && expression != spec.name
    requires Selected(Resolve([thing], [spec]), 0) && IsShipped([thing], [spec], out)
    ensures Unclaimed(out, Claimed([spec]), 0)
  {
    SoleDeclaration([thing], spec, 0);
    OneIsEmittedOnce([thing], [spec], out, 0);
    RenamedIdentity(EscapedIdentity(Identify(thing)), spec.operations[0], expression);
    assert ShippedIdentity([thing], [spec], 0).1 == Some(Str(expression));
    assert Named(spec).1 == Some(Str(spec.name));
    forall id | id in Claimed([spec]) ensures id == Named(spec) {
    }
  }

  /** A declaration that gives its object another name ships it in both halves. */
  lemma RenamedIsDoubled() returns (docs: seq<Node>, wanted: seq<Spec>, out: seq<Node>)
    ensures IsShipped(docs, wanted, out) && |docs| == 1
    ensures Selected(Resolve(docs, wanted), 0) && Unclaimed(out, Claimed(wanted), 0)
  {
    var thing, spec := Thing("n", "a"), Spec("K", "n", [Assigns(Field(NAME, Str("x")))], None);
    ThingIdentity("n", "a");
    FindIs(thing.fields, "metadata", 1);
    docs, wanted := [thing], [spec];
    out := RenamedShips(thing, spec, "x");
    RenamedIsUnclaimed(thing, spec, "x", out);
  }

  // ----- What ships means what was declared -----

  /**
  However many declarations name a document, with `value`, `replace` and `replaceAll` in any mixture:
  the template emitted for it is its escaped form with all their operations applied in order, and means
  what the operations say -- as long as no literal overlaps a text put in before it.  Where only texts
  within a line are put in among others, nothing the dumper strips spoils that.
  */
  lemma PackagedDocumentMeans(docs: seq<Node>, wanted: seq<Spec>, i: nat, values: Values)
    requires i < |docs| && Parsed(docs[i]) && KeysRender(docs[i], values) && Selected(Resolve(docs, wanted), i)
    requires AllValued(OperationsFor(Resolve(docs, wanted), i), values)
    requires Compatible(OperationsFor(Resolve(docs, wanted), i))
    ensures var ops := OperationsFor(Resolve(docs, wanted), i);
      var shipped := ApplyAll(ProtectNode(docs[i]), ops);
      && Progress(docs[i], Resolve(docs, wanted), i) ==
           (if shipped.None? then None else Some(Working(shipped.value, true)))
      && ShipsMeaning(docs[i], ops, values)
      && (PutsInline(ops) && shipped.Some? ==> AllShippable(DraftAll(MarkNode(docs[i]), ops).value))
  {
    var ops := OperationsFor(Resolve(docs, wanted), i);
    EscapedOnceThenDeclared(docs[i], Resolve(docs, wanted), i);
    CompatibleOperationsPreserveMeaning(docs[i], ops, values);
    if PutsInline(ops) && DraftAll(MarkNode(docs[i]), ops).Some? {
      InlineIsShippable(docs[i], ops);
    }
  }
}
