/**
When the theorem on drafts applies, told from the declarations alone: no literal overlaps a text that
an earlier operation put in.
*/
module Literals {
  import opened Options
  import opened Text
  import opened Escaping
  import opened Marking
  import opened Dumping
  import opened Templating
  import opened Operations
  import opened Drafts

  /** The literal an operation looks for. */
  function Literal(op: Operation): Option<string> {
    if op.Assigns? then None else Some(op.from)
  }

  /** Some string of the value is this text. */
  predicate HasText(v: Node, s: string) {
    match v
    case Str(t) => t == s
    case List(items) => exists i :: 0 <= i < |items| && HasText(items[i], s)
    case Dict(fields) => exists i :: 0 <= i < |fields| && HasText(fields[i].value, s)
    case _ => false
  }

  /** No string of the value holds the literal. */
  predicate NoneHolds(v: Node, lit: string) {
    match v
    case Str(t) => !Contains(t, lit)
    case List(items) => forall i :: 0 <= i < |items| ==> NoneHolds(items[i], lit)
    case Dict(fields) => forall i :: 0 <= i < |fields| ==> NoneHolds(fields[i].value, lit)
    case _ => true
  }

  /** An operation's literal does not meet what another one put in: as whole strings, or among other text. */
  predicate Avoids(earlier: Operation, lit: string) {
    if earlier.Assigns? then NoneHolds(earlier.field.value, lit) else Apart(earlier.with, lit)
  }

  /** No literal overlaps anything put in before it. */
  predicate Compatible(ops: seq<Operation>) {
    forall j :: 0 <= j < |ops| && Literal(ops[j]).Some? ==>
      IsLiteral(Literal(ops[j]).value) && forall i :: 0 <= i < j ==> Avoids(ops[i], Literal(ops[j]).value)
  }

  // ----- Everything in a draft was put there by some operation -----

  predicate WasAssigned(text: string, ops: seq<Operation>) {
    exists k :: 0 <= k < |ops| && ops[k].Assigns? && HasText(ops[k].field.value, text)
  }

  predicate IsWhole(m: Marked, ops: seq<Operation>) {
    IsWholeField(m) && WasAssigned(m[0].text, ops)
  }

  predicate WasPutIn(text: string, ops: seq<Operation>) {
    exists k :: 0 <= k < |ops| && !ops[k].Assigns? && ops[k].with == text
  }

  predicate IsFed(m: Marked, ops: seq<Operation>) {
    IsWhole(m, ops) || forall i :: 0 <= i < |m| && m[i].Live? ==> WasPutIn(m[i].text, ops)
  }

  predicate AllFed(d: Draft, ops: seq<Operation>) {
    match d
    case Str(m) => IsFed(m, ops)
    case List(items) => forall i :: 0 <= i < |items| ==> AllFed(items[i], ops)
    case Dict(fields) => forall i :: 0 <= i < |fields| ==> AllFed(fields[i].value, ops)
    case _ => true
  }

  lemma FedByMore(m: Marked, ops: seq<Operation>, op: Operation)
    requires IsFed(m, ops)
    ensures IsFed(m, ops + [op])
  {
    var more := ops + [op];
    if IsWhole(m, ops) {
      var k :| 0 <= k < |ops| && ops[k].Assigns? && HasText(ops[k].field.value, m[0].text);
      assert more[k] == ops[k];
    } else {
      forall i | 0 <= i < |m| && m[i].Live? ensures WasPutIn(m[i].text, more) {
        var k :| 0 <= k < |ops| && !ops[k].Assigns? && ops[k].with == m[i].text;
        assert more[k] == ops[k];
      }
    }
  }

  lemma {:induction false} AllFedByMore(d: Draft, ops: seq<Operation>, op: Operation)
    requires AllFed(d, ops)
    ensures AllFed(d, ops + [op])
  {
    match d
    case Str(m) => FedByMore(m, ops, op);
    case List(items) =>
      forall i | 0 <= i < |items| ensures AllFed(items[i], ops + [op]) {
        AllFedByMore(items[i], ops, op);
      }
    case Dict(fields) =>
      forall i | 0 <= i < |fields| ensures AllFed(fields[i].value, ops + [op]) {
        AllFedByMore(fields[i].value, ops, op);
      }
    case _ =>
  }

  lemma {:induction false} MarkedIsFed(n: Node)
    ensures AllFed(MarkNode(n), [])
  {
    match n
    case List(items) =>
      forall i | 0 <= i < |items| ensures AllFed(MarkNode(n).items[i], []) {
        MarkedIsFed(items[i]);
      }
    case Dict(fields) =>
      forall i | 0 <= i < |fields| ensures AllFed(MarkNode(n).fields[i].value, []) {
        MarkedIsFed(fields[i].value);
      }
    case _ =>
  }

  lemma {:induction false} AssignedIsFed(d: Draft, path: seq<Step>, v: Draft, ops: seq<Operation>)
    requires AllFed(d, ops) && AllFed(v, ops) && Assign(d, path, v).Some?
    ensures AllFed(Assign(d, path, v).value, ops)
    decreases |path|
  {
    if d.Dict? && |path| > 1 {
      AssignedIsFed(d.fields[Find(d.fields, path[0].key)].value, path[1..], v, ops);
    } else if d.List? && |path| > 1 {
      AssignedIsFed(d.items[Position(path[0].index, |d.items|)], path[1..], v, ops);
    }
  }

  lemma {:induction false} LookedUpIsFed(d: Draft, path: seq<Step>, ops: seq<Operation>)
    requires AllFed(d, ops) && Lookup(d, path).Some?
    ensures AllFed(Lookup(d, path).value, ops)
    decreases |path|
  {
    if path != [] && d.Dict? {
      LookedUpIsFed(d.fields[Find(d.fields, path[0].key)].value, path[1..], ops);
    } else if path != [] {
      LookedUpIsFed(d.items[Position(path[0].index, |d.items|)], path[1..], ops);
    }
  }

  lemma ReplacedIsFed(m: Marked, lit: string, w: string, ops: seq<Operation>)
    requires IsFed(m, ops) && WasPutIn(w, ops)
    ensures IsFed(ReplacingRaw(lit, w)(m), ops)
  {
    if lit == "" {
    } else if IsWhole(m, ops) {
      assert m == [Live(m[0].text)];
      WholeStays(m[0].text, lit, w);
    } else {
      var r := ReplaceRaw(m, lit, w);
      forall i | 0 <= i < |r| && r[i].Live? ensures WasPutIn(r[i].text, ops) {
        LiveAfterReplace(m, lit, w, i);
        if r[i] != Live(w) {
          var j :| 0 <= j < |m| && m[j] == r[i];
        }
      }
    }
  }

  lemma {:induction false} ChangedIsFed(d: Draft, inMetadata: bool, lit: string, w: string, ops: seq<Operation>)
    requires AllFed(d, ops) && WasPutIn(w, ops)
    ensures AllFed(ChangeAll(d, inMetadata, ReplacingRaw(lit, w)), ops)
  {
    match d
    case Str(m) => ReplacedIsFed(m, lit, w, ops);
    case List(items) =>
      forall i | 0 <= i < |items| ensures AllFed(ChangeAll(items[i], false, ReplacingRaw(lit, w)), ops) {
        ChangedIsFed(items[i], false, lit, w, ops);
      }
    case Dict(fields) =>
      forall i | 0 <= i < |fields|
        ensures AllFed(ChangeAll(fields[i].value, IsMetadata(fields[i]), ReplacingRaw(lit, w)), ops)
      {
        ChangedIsFed(fields[i].value, IsMetadata(fields[i]), lit, w, ops);
      }
    case _ =>
  }

  lemma {:induction false} DrawnIsFed(v: Node, ops: seq<Operation>)
    requires forall s :: HasText(v, s) ==> WasAssigned(s, ops)
    ensures AllFed(Draw(v), ops)
  {
    match v
    case Str(s) => assert HasText(v, s);
    case List(items) =>
      forall i | 0 <= i < |items| ensures AllFed(Draw(v).items[i], ops) {
        assert forall s :: HasText(items[i], s) ==> HasText(v, s);
        DrawnIsFed(items[i], ops);
      }
    case Dict(fields) =>
      forall i | 0 <= i < |fields| ensures AllFed(Draw(v).fields[i].value, ops) {
        assert forall s :: HasText(fields[i].value, s) ==> HasText(v, s);
        DrawnIsFed(fields[i].value, ops);
      }
    case _ =>
  }

  lemma AppliedIsFed(d: Draft, ops: seq<Operation>, op: Operation)
    requires AllFed(d, ops) && DraftApply(d, op).Some?
    ensures AllFed(DraftApply(d, op).value, ops + [op])
  {
    var more := ops + [op];
    AllFedByMore(d, ops, op);
    assert more[|ops|] == op;
    match op
    case Assigns(f) =>
      DrawnIsFed(f.value, more);
      AssignedIsFed(d, f.path, Draw(f.value), more);
    case Substitutes(path, from, with) =>
      LookedUpIsFed(d, path, more);
      var m := Lookup(d, path).value.text;
      ReplacedIsFed(m, from, with, more);
      AssignedIsFed(d, path, Str(ReplacingRaw(from, with)(m)), more);
    case SubstitutesAll(from, with) => ChangedIsFed(d, false, from, with, more);
  }

  lemma {:induction false} DraftIsFed(n: Node, ops: seq<Operation>)
    requires DraftAll(MarkNode(n), ops).Some?
    ensures AllFed(DraftAll(MarkNode(n), ops).value, ops)
    decreases |ops|
  {
    if ops == [] {
      MarkedIsFed(n);
    } else {
      var front, last := ops[..|ops| - 1], ops[|ops| - 1];
      DraftIsFed(n, front);
      AppliedIsFed(DraftAll(MarkNode(n), front).value, front, last);
      assert ops == front + [last];
    }
  }

  // ----- So a compatible literal is clear of it all -----

  predicate AllAvoid(ops: seq<Operation>, lit: string) {
    forall i :: 0 <= i < |ops| ==> Avoids(ops[i], lit)
  }

  lemma {:induction false} NoneHoldsText(v: Node, lit: string)
    ensures NoneHolds(v, lit) <==> forall s :: HasText(v, s) ==> !Contains(s, lit)
  {
    match v
    case Str(t) => assert HasText(v, t);
    case List(items) =>
      forall i | 0 <= i < |items|
        ensures NoneHolds(items[i], lit) <==> forall s :: HasText(items[i], s) ==> !Contains(s, lit)
        ensures forall s :: HasText(items[i], s) ==> HasText(v, s)
      {
        NoneHoldsText(items[i], lit);
      }
    case Dict(fields) =>
      forall i | 0 <= i < |fields|
        ensures NoneHolds(fields[i].value, lit) <==> forall s :: HasText(fields[i].value, s) ==> !Contains(s, lit)
        ensures forall s :: HasText(fields[i].value, s) ==> HasText(v, s)
      {
        NoneHoldsText(fields[i].value, lit);
      }
    case _ =>
  }

  lemma FedIsClear(m: Marked, ops: seq<Operation>, lit: string)
    requires IsFed(m, ops) && IsLiteral(lit) && AllAvoid(ops, lit)
    ensures Clear(m, lit)
  {
    if IsWhole(m, ops) {
      assert m == [Live(m[0].text)];
      var k :| 0 <= k < |ops| && ops[k].Assigns? && HasText(ops[k].field.value, m[0].text);
      assert Avoids(ops[k], lit);
      NoneHoldsText(ops[k].field.value, lit);
      ClearOfWhole(m[0].text, lit);
    } else {
      forall i | 0 <= i < |m| && m[i].Live? ensures Apart(m[i].text, lit) {
        var k :| 0 <= k < |ops| && !ops[k].Assigns? && ops[k].with == m[i].text;
        assert Avoids(ops[k], lit);
      }
      ClearOfOthers(m, lit);
    }
  }

  lemma {:induction false} AllFedIsClear(d: Draft, inMetadata: bool, ops: seq<Operation>, lit: string)
    requires AllFed(d, ops) && IsLiteral(lit) && AllAvoid(ops, lit)
    ensures AllReached(d, inMetadata, lit)
  {
    match d
    case Str(m) => FedIsClear(m, ops, lit);
    case List(items) =>
      forall i | 0 <= i < |items| ensures AllReached(items[i], false, lit) {
        AllFedIsClear(items[i], false, ops, lit);
      }
    case Dict(fields) =>
      forall i | 0 <= i < |fields| ensures AllReached(fields[i].value, IsMetadata(fields[i]), lit) {
        AllFedIsClear(fields[i].value, IsMetadata(fields[i]), ops, lit);
      }
    case _ =>
  }

  lemma NextIsClear(d: Draft, ops: seq<Operation>, op: Operation)
    requires AllFed(d, ops) && (Literal(op).Some? ==> IsLiteral(Literal(op).value) && AllAvoid(ops, Literal(op).value))
    ensures IsClear(d, op)
  {
    match op
    case Assigns(_) =>
    case Substitutes(path, from, _) =>
      if Lookup(d, path).Some? && Lookup(d, path).value.Str? {
        LookedUpIsFed(d, path, ops);
        FedIsClear(Lookup(d, path).value.text, ops, from);
      }
    case SubstitutesAll(from, _) => AllFedIsClear(d, false, ops, from);
  }

  lemma {:induction false} CompatibleIsClear(n: Node, ops: seq<Operation>)
    requires Compatible(ops)
    ensures AllClear(MarkNode(n), ops)
    decreases |ops|
  {
    if ops != [] {
      var front, last := ops[..|ops| - 1], ops[|ops| - 1];
      CompatibleIsClear(n, front);
      if DraftAll(MarkNode(n), front).Some? {
        DraftIsFed(n, front);
        NextIsClear(DraftAll(MarkNode(n), front).value, front, last);
      }
    }
  }

  /**
  What ships means what was declared, for every document and every compatible list of operations:
  `value`, `replace` and `replaceAll` in any mixture and any number, on one path or on many.
  */
  lemma CompatibleOperationsPreserveMeaning(n: Node, ops: seq<Operation>, values: Values)
    requires Parsed(n) && KeysRender(n, values) && AllValued(ops, values) && Compatible(ops)
    ensures ShipsMeaning(n, ops, values)
  {
    CompatibleIsClear(n, ops);
    OperationsPreserveMeaning(n, ops, values);
  }

  // ----- Declarations that put actions in -----

  /** `{{ .. }}`, from end to end. */
  predicate IsActions(w: string) {
    StartsWith(w, OPEN) && EndsWith(w, CLOSE)
  }

  /** What an operation puts in among other text is actions, and holds no literal of a later one. */
  predicate Withholds(earlier: Operation, lit: string) {
    if earlier.Assigns? then NoneHolds(earlier.field.value, lit)
    else IsActions(earlier.with) && !Contains(earlier.with, lit)
  }

  /** Actions may stand among other text, and so may any text that neither begins nor ends with a brace. */
  lemma ActionsAreInsertable(w: string)
    requires w != ""
    ensures IsActions(w) || (w[0] != '{' && w[|w| - 1] != '{') ==> Insertable(w)
  {
    if IsActions(w) {
      assert w[|w| - 2..][1] == w[|w| - 1] == '}';
    }
  }

  /** Where only actions are put in, it is enough that none holds the literal of a later operation. */
  lemma ActionsAreCompatible(ops: seq<Operation>)
    requires forall j :: 0 <= j < |ops| && Literal(ops[j]).Some? ==> IsLiteral(Literal(ops[j]).value)
    requires forall i, j :: 0 <= i < j < |ops| && Literal(ops[j]).Some? ==> Withholds(ops[i], Literal(ops[j]).value)
    ensures Compatible(ops)
  {
    forall i, j | 0 <= i < j < |ops| && Literal(ops[j]).Some? ensures Avoids(ops[i], Literal(ops[j]).value) {
      if !ops[i].Assigns? {
        ActionsAreApart(ops[i].with, Literal(ops[j]).value);
      }
    }
  }

  // ----- What the dumper strips -----

  /** Among other text, only texts within a line are put in. */
  predicate PutsInline(ops: seq<Operation>) {
    forall k :: 0 <= k < |ops| && !ops[k].Assigns? ==> IsInline(ops[k].with)
  }

  lemma {:induction false} FedInlineIsShippable(d: Draft, ops: seq<Operation>)
    requires AllFed(d, ops) && PutsInline(ops)
    ensures AllShippable(d)
  {
    match d
    case Str(m) =>
    case List(items) =>
      forall i | 0 <= i < |items| ensures AllShippable(items[i]) {
        FedInlineIsShippable(items[i], ops);
      }
    case Dict(fields) =>
      forall i | 0 <= i < |fields| ensures AllShippable(fields[i].value) {
        FedInlineIsShippable(fields[i].value, ops);
      }
    case _ =>
  }

  /** Then what is shipped has its meaning without looking at the strings it ends up in. */
  lemma InlineIsShippable(n: Node, ops: seq<Operation>)
    requires PutsInline(ops) && DraftAll(MarkNode(n), ops).Some?
    ensures AllShippable(DraftAll(MarkNode(n), ops).value)
  {
    DraftIsFed(n, ops);
    FedInlineIsShippable(DraftAll(MarkNode(n), ops).value, ops);
  }
}
