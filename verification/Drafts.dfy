/**
What a whole list of field operations means.  A draft is a document whose strings remember which of
their text is original and which was put in; on drafts, a literal is replaced in original text only
and what was put in stands for its value.  The packager works on the emitted text instead, and this
module proves that it comes to the same: the template it writes renders to what the draft means.
*/
module Drafts {
  import opened Options
  import opened Text
  import opened Escaping
  import opened Marking
  import opened Dumping
  import opened Templating
  import opened Operations

  type Draft = Tree<Marked>

  function MarkNode(n: Node): Draft {
    MapText(n, Mark)
  }

  function EmitNode(d: Draft): Node {
    MapText(d, Emit)
  }

  function EmitOption(d: Option<Draft>): Option<Node> {
    if d.None? then None else Some(EmitNode(d.value))
  }

  /** An untouched document is emitted as `protect` leaves it. */
  lemma {:induction false} EmitMarkNode(n: Node)
    ensures EmitNode(MarkNode(n)) == ProtectNode(n)
  {
    match n
    case Str(s) => EmitMark(s);
    case List(items) =>
      forall i | 0 <= i < |items| ensures EmitNode(MarkNode(n)).items[i] == ProtectNode(n).items[i] {
        EmitMarkNode(items[i]);
      }
    case Dict(fields) =>
      forall i | 0 <= i < |fields| ensures EmitNode(MarkNode(n)).fields[i] == ProtectNode(n).fields[i] {
        EmitMarkNode(fields[i].value);
      }
    case _ =>
  }

  // ----- Paths are the same in a draft and in what it emits -----

  lemma FindEmitted(d: Draft, k: string)
    requires d.Dict?
    ensures Find(EmitNode(d).fields, k) == Find(d.fields, k)
  {
    FindSameKeys(d.fields, EmitNode(d).fields, k);
  }

  lemma {:induction false} LookupEmitted(d: Draft, path: seq<Step>)
    ensures Lookup(EmitNode(d), path) == EmitOption(Lookup(d, path))
    decreases |path|
  {
    if path != [] && d.Dict? && path[0].Key? {
      FindEmitted(d, path[0].key);
      var i := Find(d.fields, path[0].key);
      if i < |d.fields| {
        LookupEmitted(d.fields[i].value, path[1..]);
      }
    } else if path != [] && d.List? && path[0].Index? {
      var i := Position(path[0].index, |d.items|);
      if 0 <= i < |d.items| {
        LookupEmitted(d.items[i], path[1..]);
      }
    }
  }

  lemma PutFieldEmitted(d: Draft, i: nat, k: string, v: Draft)
    requires d.Dict? && i <= |d.fields|
    ensures EmitNode(PutField(d, i, Entry(k, v))) == PutField(EmitNode(d), i, Entry(k, EmitNode(v)))
  {
    var a, b := EmitNode(PutField(d, i, Entry(k, v))), PutField(EmitNode(d), i, Entry(k, EmitNode(v)));
    assert |a.fields| == |b.fields|;
    forall j | 0 <= j < |a.fields| ensures a.fields[j] == b.fields[j] {
    }
    assert a.fields == b.fields;
  }

  lemma PutItemEmitted(d: Draft, i: nat, v: Draft)
    requires d.List? && i < |d.items|
    ensures EmitNode(PutItem(d, i, v)) == PutItem(EmitNode(d), i, EmitNode(v))
  {
    assert EmitNode(PutItem(d, i, v)).items == PutItem(EmitNode(d), i, EmitNode(v)).items;
  }

  lemma {:induction false} AssignEmitted(d: Draft, path: seq<Step>, v: Draft)
    ensures Assign(EmitNode(d), path, EmitNode(v)) == EmitOption(Assign(d, path, v))
    decreases |path|
  {
    if path != [] && d.Dict? && path[0].Key? {
      FindEmitted(d, path[0].key);
      var i := Find(d.fields, path[0].key);
      if |path| == 1 {
        PutFieldEmitted(d, i, path[0].key, v);
      } else if i < |d.fields| {
        AssignEmitted(d.fields[i].value, path[1..], v);
        var inner := Assign(d.fields[i].value, path[1..], v);
        if inner.Some? {
          PutFieldEmitted(d, i, path[0].key, inner.value);
        }
      }
    } else if path != [] && d.List? && path[0].Index? {
      AssignItemEmitted(d, path, v);
    }
  }

  lemma {:induction false} AssignItemEmitted(d: Draft, path: seq<Step>, v: Draft)
    requires path != [] && d.List? && path[0].Index?
    ensures Assign(EmitNode(d), path, EmitNode(v)) == EmitOption(Assign(d, path, v))
    decreases |path|, 0
  {
    var i := Position(path[0].index, |d.items|);
    if 0 <= i < |d.items| && |path| == 1 {
      PutItemEmitted(d, i, v);
    } else if 0 <= i < |d.items| {
      AssignEmitted(d.items[i], path[1..], v);
      var inner := Assign(d.items[i], path[1..], v);
      if inner.Some? {
        PutItemEmitted(d, i, inner.value);
      }
    }
  }

  // ----- Operations on drafts -----

  /** A value that is put in: all of its strings are. */
  function Draw(v: Node): Draft {
    MapText(v, (s: string) => [Live(s)])
  }

  function ReplacingRaw(from: string, with: string): Marked -> Marked {
    (m: Marked) => if from == "" then m else ReplaceRaw(m, from, with)
  }

  function HoldingRaw(from: string): Marked -> bool {
    (m: Marked) => ContainsRaw(m, from)
  }

  /** The operation on a draft: the same, but in original text only. */
  function DraftApply(d: Draft, op: Operation): Option<Draft> {
    match op
    case Assigns(f) => Assign(d, f.path, Draw(f.value))
    case Substitutes(path, from, with) =>
      var at := Lookup(d, path);
      if path == [] || at.None? || !at.value.Str? || !ContainsRaw(at.value.text, from) then None
      else Assign(d, path, Str(ReplacingRaw(from, with)(at.value.text)))
    case SubstitutesAll(from, with) =>
      if d.Str? || !AnyReached(d, false, HoldingRaw(from)) then None
      else Some(ChangeAll(d, false, ReplacingRaw(from, with)))
  }

  function DraftAll(d: Draft, ops: seq<Operation>): Option<Draft>
    decreases |ops|
  {
    if ops == [] then Some(d)
    else
      var before := DraftAll(d, ops[..|ops| - 1]);
      if before.None? then None else DraftApply(before.value, ops[|ops| - 1])
  }

  predicate AllReached(d: Draft, inMetadata: bool, lit: string)
    requires lit != ""
  {
    match d
    case Str(m) => Clear(m, lit)
    case List(items) => forall i :: 0 <= i < |items| ==> AllReached(items[i], false, lit)
    case Dict(fields) =>
      forall i :: 0 <= i < |fields| && !Exempt(fields[i].key, inMetadata) ==>
        AllReached(fields[i].value, IsMetadata(fields[i]), lit)
    case _ => true
  }

  /** Where the operation looks for its literal, every occurrence stands in original text. */
  predicate IsClear(d: Draft, op: Operation) {
    match op
    case Assigns(_) => true
    case Substitutes(path, from, _) =>
      IsSolid(from) && (Lookup(d, path).Some? && Lookup(d, path).value.Str? ==> Clear(Lookup(d, path).value.text, from))
    case SubstitutesAll(from, _) => IsSolid(from) && AllReached(d, false, from)
  }

  predicate AllClear(d: Draft, ops: seq<Operation>)
    decreases |ops|
  {
    ops == [] ||
    var front := ops[..|ops| - 1];
    AllClear(d, front) && (DraftAll(d, front).Some? ==> IsClear(DraftAll(d, front).value, ops[|ops| - 1]))
  }

  lemma {:induction false} AnyReachedEmitted(d: Draft, inMetadata: bool, lit: string)
    requires IsSolid(lit) && AllReached(d, inMetadata, lit)
    ensures AnyReached(EmitNode(d), inMetadata, Holding(lit)) <==> AnyReached(d, inMetadata, HoldingRaw(lit))
  {
    var n := EmitNode(d);
    match d
    case Str(m) => ContainsEmitted(m, lit);
    case List(items) =>
      forall i | 0 <= i < |items|
        ensures AnyReached(n.items[i], false, Holding(lit)) <==> AnyReached(items[i], false, HoldingRaw(lit))
      {
        AnyReachedEmitted(items[i], false, lit);
      }
    case Dict(fields) =>
      forall i | 0 <= i < |fields|
        ensures n.fields[i].key == fields[i].key
        ensures !Exempt(fields[i].key, inMetadata) ==>
          (AnyReached(n.fields[i].value, IsMetadata(n.fields[i]), Holding(lit)) <==>
           AnyReached(fields[i].value, IsMetadata(fields[i]), HoldingRaw(lit)))
      {
        if !Exempt(fields[i].key, inMetadata) {
          AnyReachedEmitted(fields[i].value, IsMetadata(fields[i]), lit);
        }
      }
    case _ =>
  }

  lemma {:induction false} ChangeAllEmitted(d: Draft, inMetadata: bool, lit: string, w: string)
    requires IsSolid(lit) && AllReached(d, inMetadata, lit)
    ensures ChangeAll(EmitNode(d), inMetadata, Replacing(lit, w)) ==
      EmitNode(ChangeAll(d, inMetadata, ReplacingRaw(lit, w)))
  {
    var a := ChangeAll(EmitNode(d), inMetadata, Replacing(lit, w));
    var b := EmitNode(ChangeAll(d, inMetadata, ReplacingRaw(lit, w)));
    match d
    case Str(m) => ReplaceEmitted(m, lit, w);
    case List(items) =>
      forall i | 0 <= i < |items| ensures a.items[i] == b.items[i] {
        ChangeAllEmitted(items[i], false, lit, w);
      }
      assert a.items == b.items;
    case Dict(fields) =>
      forall i | 0 <= i < |fields| ensures a.fields[i] == b.fields[i] {
        if !Exempt(fields[i].key, inMetadata) {
          ChangeAllEmitted(fields[i].value, IsMetadata(fields[i]), lit, w);
        }
      }
      assert a.fields == b.fields;
    case _ =>
  }

  lemma {:induction false} DrawEmitted(v: Node)
    ensures EmitNode(Draw(v)) == v
  {
    var n := EmitNode(Draw(v));
    match v
    case Str(s) => EmitWholeField(s);
    case List(items) =>
      forall i | 0 <= i < |items| ensures n.items[i] == items[i] {
        DrawEmitted(items[i]);
      }
      assert n.items == items;
    case Dict(fields) =>
      forall i | 0 <= i < |fields| ensures n.fields[i] == fields[i] {
        DrawEmitted(fields[i].value);
      }
      assert n.fields == fields;
    case _ =>
  }

  /** The packager's operation on the emitted document is the draft's operation, emitted. */
  lemma ApplyEmitted(d: Draft, op: Operation)
    requires IsClear(d, op)
    ensures Apply(EmitNode(d), op) == EmitOption(DraftApply(d, op))
  {
    match op
    case Assigns(f) =>
      DrawEmitted(f.value);
      AssignEmitted(d, f.path, Draw(f.value));
    case Substitutes(path, from, with) =>
      LookupEmitted(d, path);
      var at := Lookup(d, path);
      if at.Some? && at.value.Str? {
        ContainsEmitted(at.value.text, from);
        ReplaceEmitted(at.value.text, from, with);
        AssignEmitted(d, path, Str(ReplacingRaw(from, with)(at.value.text)));
      }
    case SubstitutesAll(from, with) =>
      AnyReachedEmitted(d, false, from);
      ChangeAllEmitted(d, false, from, with);
  }

  lemma {:induction false} ApplyAllEmitted(d: Draft, ops: seq<Operation>)
    requires AllClear(d, ops)
    ensures ApplyAll(EmitNode(d), ops) == EmitOption(DraftAll(d, ops))
    decreases |ops|
  {
    if ops != [] {
      var front := ops[..|ops| - 1];
      ApplyAllEmitted(d, front);
      if DraftAll(d, front).Some? {
        ApplyEmitted(DraftAll(d, front).value, ops[|ops| - 1]);
      }
    }
  }

  // ----- What a draft renders to -----

  /** What was put into a string has a value, whole or among other text. */
  predicate IsFit(m: Marked, values: Values) {
    if IsWholeField(m) then Render(Dump(m[0].text), values).Some? else AllInsertable(m, values)
  }

  lemma {:induction false} LiveAfterStrip(m: Marked, i: nat)
    requires i < |StripRawLines(m)| && StripRawLines(m)[i].Live?
    ensures StripRawLines(m)[i] in m
  {
    var rest := StripRawLines(m[1..]);
    if StripRawLines(m) == rest {
      LiveAfterStrip(m[1..], i);
    } else if i > 0 {
      LiveAfterStrip(m[1..], i - 1);
    }
  }

  lemma {:induction false} TailOfNewlines(m: Marked) returns (k: nat)
    ensures k <= |m| && StripRawNewlines(m) == m[k..]
  {
    if m != [] && m[0] == Raw('\n') {
      var j := TailOfNewlines(m[1..]);
      k := j + 1;
    } else {
      k := 0;
    }
  }

  lemma TidyKeepsInsertable(m: Marked, values: Values)
    requires AllInsertable(m, values)
    ensures AllInsertable(TidyRaw(m), values)
  {
    var l := StripRawLines(m);
    var k := TailOfNewlines(l);
    forall i | 0 <= i < |TidyRaw(m)| && TidyRaw(m)[i].Live?
      ensures Render(TidyRaw(m)[i].text, values).Some? && Insertable(TidyRaw(m)[i].text)
    {
      assert TidyRaw(m)[i] == l[k + i];
      LiveAfterStrip(m, k + i);
      var j :| 0 <= j < |m| && m[j] == l[k + i];
    }
  }

  lemma FitIsPlaced(m: Marked, values: Values)
    requires IsFit(m, values)
    ensures Placed(Settle(m), values)
  {
    if IsWholeField(m) {
      assert m == [Live(m[0].text)];
      EmitWholeField(m[0].text);
      DumpedAsItIsExactly(m[0].text);
    } else {
      TidyKeepsInsertable(m, values);
    }
  }

  /** Everything in the draft has a value, keys included: they are emitted as they stand, and rendered. */
  predicate HasMeaning(d: Draft, values: Values) {
    match d
    case Str(m) => IsFit(m, values)
    case Bare(e) => Render(e, values).Some? && ReadInt(Render(e, values).value).Some?
    case List(items) => forall i :: 0 <= i < |items| ==> HasMeaning(items[i], values)
    case Dict(fields) =>
      forall i :: 0 <= i < |fields| ==> Render(Dump(fields[i].key), values).Some? && HasMeaning(fields[i].value, values)
    case _ => true
  }

  /** No string leaves a brace in front of an action. */
  predicate NoStrays(d: Draft) {
    match d
    case Str(m) => NoStray(Settle(m))
    case List(items) => forall i :: 0 <= i < |items| ==> NoStrays(items[i])
    case Dict(fields) => forall i :: 0 <= i < |fields| ==> NoStrays(fields[i].value)
    case _ => true
  }

  /** No string is one whose white space the dumper would strip from original and put-in text alike. */
  predicate AllShippable(d: Draft) {
    match d
    case Str(m) => IsShippable(m)
    case List(items) => forall i :: 0 <= i < |items| ==> AllShippable(items[i])
    case Dict(fields) => forall i :: 0 <= i < |fields| ==> AllShippable(fields[i].value)
    case _ => true
  }

  /** The document a draft stands for. */
  function Means(d: Draft, values: Values): Node
    requires HasMeaning(d, values)
  {
    match d
    case Str(m) =>
      FitIsPlaced(m, values);
      Str(Meaning(Settle(m), values))
    case Int(v) => Int(v)
    case Opaque(t) => Opaque(t)
    case Bare(e) => ReadInt(Render(e, values).value).value
    case List(items) => List(seq(|items|, i requires 0 <= i < |items| => Means(items[i], values)))
    case Dict(fields) =>
      Dict(seq(|fields|, i requires 0 <= i < |fields| =>
        Entry(Render(Dump(fields[i].key), values).value, Means(fields[i].value, values))))
  }

  /** The written draft renders if and only if it leaves no stray brace, and then to what it means. */
  ghost predicate RendersToMeaning(d: Draft, values: Values)
    requires HasMeaning(d, values)
  {
    var t := DumpNode(EmitNode(d));
    && (Renders(t, values) <==> NoStrays(d))
    && (NoStrays(d) ==> Rendered(t, values) == Means(d, values))
  }

  lemma ListRendersToMeaning(d: Draft, values: Values)
    requires d.List? && HasMeaning(d, values)
    requires forall i :: 0 <= i < |d.items| ==> RendersToMeaning(d.items[i], values)
    ensures RendersToMeaning(d, values)
  {
    var t := DumpNode(EmitNode(d));
    forall i | 0 <= i < |d.items|
      ensures t.items[i] == DumpNode(EmitNode(d.items[i])) && (Renders(t.items[i], values) <==> NoStrays(d.items[i]))
    {
      assert RendersToMeaning(d.items[i], values);
    }
    if NoStrays(d) {
      forall i | 0 <= i < |d.items| ensures Rendered(t, values).items[i] == Means(d, values).items[i] {
        assert RendersToMeaning(d.items[i], values);
      }
      assert Rendered(t, values).items == Means(d, values).items;
    }
  }

  lemma DictRendersToMeaning(d: Draft, values: Values)
    requires d.Dict? && HasMeaning(d, values)
    requires forall i :: 0 <= i < |d.fields| ==> RendersToMeaning(d.fields[i].value, values)
    ensures RendersToMeaning(d, values)
  {
    var t := DumpNode(EmitNode(d));
    forall i | 0 <= i < |d.fields|
      ensures t.fields[i] == Entry(Dump(d.fields[i].key), DumpNode(EmitNode(d.fields[i].value)))
      ensures Renders(t.fields[i].value, values) <==> NoStrays(d.fields[i].value)
    {
      assert EmitNode(d).fields[i] == Entry(d.fields[i].key, EmitNode(d.fields[i].value));
      assert RendersToMeaning(d.fields[i].value, values);
    }
    if NoStrays(d) {
      forall i | 0 <= i < |d.fields| ensures Rendered(t, values).fields[i] == Means(d, values).fields[i] {
        assert RendersToMeaning(d.fields[i].value, values);
      }
      assert Rendered(t, values).fields == Means(d, values).fields;
    }
  }

  lemma {:induction false} DraftRenders(d: Draft, values: Values)
    requires HasMeaning(d, values) && AllShippable(d)
    ensures RendersToMeaning(d, values)
  {
    match d
    case Str(m) =>
      DumpEmitted(m);
      FitIsPlaced(m, values);
      RenderEmitted(Settle(m), values);
    case List(items) =>
      forall i | 0 <= i < |items| ensures RendersToMeaning(items[i], values) {
        DraftRenders(items[i], values);
      }
      ListRendersToMeaning(d, values);
    case Dict(fields) =>
      forall i | 0 <= i < |fields| ensures RendersToMeaning(fields[i].value, values) {
        DraftRenders(fields[i].value, values);
      }
      DictRendersToMeaning(d, values);
    case _ =>
  }

  // ----- Operations keep what rendering needs -----

  predicate KeysRender<T>(n: Tree<T>, values: Values) {
    match n
    case List(items) => forall i :: 0 <= i < |items| ==> KeysRender(items[i], values)
    case Dict(fields) =>
      forall i :: 0 <= i < |fields| ==> Render(Dump(fields[i].key), values).Some? && KeysRender(fields[i].value, values)
    case _ => true
  }

  predicate PathRenders(path: seq<Step>, values: Values) {
    forall i :: 0 <= i < |path| && path[i].Key? ==> Render(Dump(path[i].key), values).Some?
  }

  predicate MayStand(with: string, values: Values) {
    Insertable(with) && Render(with, values).Some? && Render(Dump(with), values).Some?
  }

  /** What an operation puts in has a value and may stand where it is put. */
  predicate IsValued(op: Operation, values: Values) {
    match op
    case Assigns(f) => PathRenders(f.path, values) && Renders(DumpNode(f.value), values)
    case Substitutes(path, _, with) => PathRenders(path, values) && MayStand(with, values)
    case SubstitutesAll(_, with) => MayStand(with, values)
  }

  lemma {:induction false} MarkedHasMeaning(n: Node, values: Values)
    requires Parsed(n) && KeysRender(n, values)
    ensures HasMeaning(MarkNode(n), values)
  {
    match n
    case List(items) =>
      forall i | 0 <= i < |items| ensures HasMeaning(MarkNode(n).items[i], values) {
        MarkedHasMeaning(items[i], values);
      }
    case Dict(fields) =>
      forall i | 0 <= i < |fields| ensures HasMeaning(MarkNode(n).fields[i].value, values) {
        MarkedHasMeaning(fields[i].value, values);
      }
    case _ =>
  }

  lemma {:induction false} AssignedHasMeaning(d: Draft, path: seq<Step>, v: Draft, values: Values)
    requires HasMeaning(d, values) && HasMeaning(v, values) && PathRenders(path, values) && Assign(d, path, v).Some?
    ensures HasMeaning(Assign(d, path, v).value, values)
    decreases |path|
  {
    if d.Dict? && |path| > 1 {
      AssignedHasMeaning(d.fields[Find(d.fields, path[0].key)].value, path[1..], v, values);
    } else if d.List? && |path| > 1 {
      AssignedHasMeaning(d.items[Position(path[0].index, |d.items|)], path[1..], v, values);
    }
  }

  lemma {:induction false} LookedUpHasMeaning(d: Draft, path: seq<Step>, values: Values)
    requires HasMeaning(d, values) && Lookup(d, path).Some?
    ensures HasMeaning(Lookup(d, path).value, values)
    decreases |path|
  {
    if path != [] && d.Dict? {
      LookedUpHasMeaning(d.fields[Find(d.fields, path[0].key)].value, path[1..], values);
    } else if path != [] {
      LookedUpHasMeaning(d.items[Position(path[0].index, |d.items|)], path[1..], values);
    }
  }

  lemma ReplacedIsFit(m: Marked, lit: string, w: string, values: Values)
    requires lit != "" && IsFit(m, values) && MayStand(w, values)
    ensures IsFit(ReplaceRaw(m, lit, w), values)
  {
    if IsWholeField(m) {
      assert m == [Live(m[0].text)];
      WholeStays(m[0].text, lit, w);
    } else {
      var r := ReplaceRaw(m, lit, w);
      forall i | 0 <= i < |r| && r[i].Live?
        ensures Render(r[i].text, values).Some? && Insertable(r[i].text)
        ensures r[i] == Live(w) || r[i] in m
      {
        LiveAfterReplace(m, lit, w, i);
        if r[i] != Live(w) {
          var j :| 0 <= j < |m| && m[j] == r[i];
        }
      }
      if IsWholeField(r) {
        OnlyLiteralBecomesWhole(m, lit, w);
      }
    }
  }

  /** A string that was not one put-in text becomes one only by being the literal. */
  lemma {:induction false} OnlyLiteralBecomesWhole(m: Marked, lit: string, w: string)
    requires lit != "" && !IsWholeField(m) && IsWholeField(ReplaceRaw(m, lit, w))
    ensures ReplaceRaw(m, lit, w) == [Live(w)]
  {
    if !RawStarts(m, lit) {
      if |m| > 1 {
        ReplaceHead(m[1..], lit, w);
      }
      assert false;
    }
  }

  lemma {:induction false} ChangedHasMeaning(d: Draft, inMetadata: bool, lit: string, w: string, values: Values)
    requires HasMeaning(d, values) && lit != "" && MayStand(w, values)
    ensures HasMeaning(ChangeAll(d, inMetadata, ReplacingRaw(lit, w)), values)
  {
    match d
    case Str(m) => ReplacedIsFit(m, lit, w, values);
    case List(items) =>
      forall i | 0 <= i < |items| ensures HasMeaning(ChangeAll(items[i], false, ReplacingRaw(lit, w)), values) {
        ChangedHasMeaning(items[i], false, lit, w, values);
      }
    case Dict(fields) =>
      forall i | 0 <= i < |fields|
        ensures HasMeaning(ChangeAll(fields[i].value, IsMetadata(fields[i]), ReplacingRaw(lit, w)), values)
      {
        ChangedHasMeaning(fields[i].value, IsMetadata(fields[i]), lit, w, values);
      }
    case _ =>
  }

  lemma WholeMeans(w: string, values: Values)
    requires Render(w, values).Some?
    ensures Placed([Live(w)], values) && Meaning([Live(w)], values) == Render(w, values).value
  {
    assert [Live(w)][1..] == [] && Meaning([], values) == "";
    assert Render(w, values).value + "" == Render(w, values).value;
  }

  ghost predicate DrawnHasItsValue(v: Node, values: Values) {
    Renders(DumpNode(v), values) ==>
      HasMeaning(Draw(v), values) && Means(Draw(v), values) == Rendered(DumpNode(v), values)
  }

  lemma DrawnString(s: string, values: Values)
    ensures DrawnHasItsValue(Str(s), values)
  {
    if Render(Dump(s), values).Some? {
      EmitWholeField(s);
      DumpedAsItIsExactly(s);
      assert Settle([Live(s)]) == [Live(Dump(s))];
      WholeMeans(Dump(s), values);
    }
  }

  lemma DrawnList(v: Node, values: Values)
    requires v.List? && forall i :: 0 <= i < |v.items| ==> DrawnHasItsValue(v.items[i], values)
    ensures DrawnHasItsValue(v, values)
  {
    var d, t := Draw(v), DumpNode(v);
    if Renders(t, values) {
      forall i | 0 <= i < |v.items|
        ensures d.items[i] == Draw(v.items[i]) && t.items[i] == DumpNode(v.items[i])
        ensures HasMeaning(d.items[i], values) && Means(d.items[i], values) == Rendered(t.items[i], values)
      {
        assert DrawnHasItsValue(v.items[i], values);
        assert Renders(t.items[i], values);
      }
      assert Means(d, values).items == Rendered(t, values).items;
    }
  }

  lemma DrawnDict(v: Node, values: Values)
    requires v.Dict? && forall i :: 0 <= i < |v.fields| ==> DrawnHasItsValue(v.fields[i].value, values)
    ensures DrawnHasItsValue(v, values)
  {
    var d, t := Draw(v), DumpNode(v);
    if Renders(t, values) {
      forall i | 0 <= i < |v.fields|
        ensures d.fields[i] == Entry(v.fields[i].key, Draw(v.fields[i].value))
        ensures t.fields[i] == Entry(Dump(v.fields[i].key), DumpNode(v.fields[i].value))
        ensures HasMeaning(d.fields[i].value, values) && Render(Dump(d.fields[i].key), values).Some?
        ensures Means(d.fields[i].value, values) == Rendered(t.fields[i].value, values)
      {
        assert DrawnHasItsValue(v.fields[i].value, values);
        assert Renders(t.fields[i].value, values);
      }
      assert Means(d, values).fields == Rendered(t, values).fields;
    }
  }

  /** A value that is put in means what it renders to by itself. */
  lemma {:induction false} DrawnMeans(v: Node, values: Values)
    ensures DrawnHasItsValue(v, values)
  {
    match v
    case Str(s) => DrawnString(s, values);
    case List(items) =>
      forall i | 0 <= i < |items| ensures DrawnHasItsValue(items[i], values) {
        DrawnMeans(items[i], values);
      }
      DrawnList(v, values);
    case Dict(fields) =>
      forall i | 0 <= i < |fields| ensures DrawnHasItsValue(fields[i].value, values) {
        DrawnMeans(fields[i].value, values);
      }
      DrawnDict(v, values);
    case _ =>
  }

  lemma AppliedHasMeaning(d: Draft, op: Operation, values: Values)
    requires HasMeaning(d, values) && IsValued(op, values) && IsClear(d, op) && DraftApply(d, op).Some?
    ensures HasMeaning(DraftApply(d, op).value, values)
  {
    match op
    case Assigns(f) =>
      DrawnMeans(f.value, values);
      AssignedHasMeaning(d, f.path, Draw(f.value), values);
    case Substitutes(path, from, with) =>
      LookedUpHasMeaning(d, path, values);
      var m := Lookup(d, path).value.text;
      ReplacedIsFit(m, from, with, values);
      AssignedHasMeaning(d, path, Str(ReplacingRaw(from, with)(m)), values);
    case SubstitutesAll(from, with) => ChangedHasMeaning(d, false, from, with, values);
  }

  predicate AllValued(ops: seq<Operation>, values: Values) {
    forall k :: 0 <= k < |ops| ==> IsValued(ops[k], values)
  }

  lemma {:induction false} DraftHasMeaning(d: Draft, ops: seq<Operation>, values: Values)
    requires HasMeaning(d, values) && AllValued(ops, values) && AllClear(d, ops) && DraftAll(d, ops).Some?
    ensures HasMeaning(DraftAll(d, ops).value, values)
    decreases |ops|
  {
    if ops != [] {
      var front := ops[..|ops| - 1];
      DraftHasMeaning(d, front, values);
      AppliedHasMeaning(DraftAll(d, front).value, ops[|ops| - 1], values);
    }
  }

  // ----- The theorem -----

  /** What is shipped for a document: refused, not a template, or a template with a meaning. */
  ghost predicate ShipsMeaning(n: Node, ops: seq<Operation>, values: Values) {
    var t, d := ApplyAll(ProtectNode(n), ops), DraftAll(MarkNode(n), ops);
    && (t.Some? <==> d.Some?)
    && (d.Some? ==> HasMeaning(d.value, values))
    && (d.Some? && AllShippable(d.value) ==>
          && (Renders(DumpNode(t.value), values) <==> NoStrays(d.value))
          && (NoStrays(d.value) ==> Rendered(DumpNode(t.value), values) == Means(d.value, values)))
  }

  /**
  For every document and every list of operations, in any mixture, with values of any shape: as long as
  each literal occurs in original text only where it is looked for, the escaped document with the
  operations applied is refused exactly when the draft is, and as it is written renders exactly when
  the draft leaves no stray brace, to what the draft means.
  */
  lemma OperationsPreserveMeaning(n: Node, ops: seq<Operation>, values: Values)
    requires Parsed(n) && KeysRender(n, values) && AllValued(ops, values) && AllClear(MarkNode(n), ops)
    ensures ShipsMeaning(n, ops, values)
  {
    EmitMarkNode(n);
    ApplyAllEmitted(MarkNode(n), ops);
    MarkedHasMeaning(n, values);
    var d := DraftAll(MarkNode(n), ops);
    if d.Some? {
      DraftHasMeaning(MarkNode(n), ops, values);
      if AllShippable(d.value) {
        DraftRenders(d.value, values);
      }
    }
  }
}
