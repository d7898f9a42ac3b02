/**
What the meaning of a draft comes to in terms of plain documents: an untouched document means itself,
a `value:` means setting its value -- exactly where no key in front renders to the same as the key the
path names -- and a `replaceAll:` means replacing the literal by the value of its text.
*/
module Meanings {
  import opened Options
  import opened Text
  import opened Escaping
  import opened Marking
  import opened Dumping
  import opened Templating
  import opened Operations
  import opened Drafts

  /** A string the dumper writes as it is means what it says. */
  lemma PlainKeyMeansItself(k: string, values: Values)
    requires NoOpen(k)
    ensures Render(Dump(k), values) == Some(k)
  {
    PlainIsWrittenAsItIs(k);
    PlainRendersItself(k, values);
  }

  /** An untouched document means itself, as long as it is written as it is. */
  lemma {:induction false} MarkedMeansItself(n: Node, values: Values)
    requires Parsed(n) && PlainKeys(n) && AllSettled(ProtectNode(n))
    ensures HasMeaning(MarkNode(n), values) && Means(MarkNode(n), values) == n
  {
    var d := MarkNode(n);
    match n
    case Str(s) =>
      EmitMark(s);
      MeaningOfMark(s, values);
    case List(items) =>
      forall i | 0 <= i < |items|
        ensures HasMeaning(d.items[i], values) && Means(d.items[i], values) == items[i]
      {
        assert d.items[i] == MarkNode(items[i]) && ProtectNode(n).items[i] == ProtectNode(items[i]);
        MarkedMeansItself(items[i], values);
      }
      assert Means(d, values).items == items;
    case Dict(fields) =>
      forall i | 0 <= i < |fields|
        ensures Render(Dump(d.fields[i].key), values) == Some(fields[i].key)
        ensures HasMeaning(d.fields[i].value, values) && Means(d.fields[i].value, values) == fields[i].value
      {
        assert d.fields[i] == Entry(fields[i].key, MarkNode(fields[i].value));
        assert ProtectNode(n).fields[i] == Entry(fields[i].key, ProtectNode(fields[i].value));
        PlainKeyMeansItself(fields[i].key, values);
        MarkedMeansItself(fields[i].value, values);
      }
      assert Means(d, values).fields == fields;
    case _ =>
  }

  // ----- A `value:` -----

  function RenderStep(s: Step, values: Values): Step
    requires s.Key? ==> Render(Dump(s.key), values).Some?
  {
    if s.Key? then Key(Render(Dump(s.key), values).value) else s
  }

  /** The path as it reads in the rendered document. */
  function RenderPath(path: seq<Step>, values: Values): seq<Step>
    requires PathRenders(path, values)
  {
    seq(|path|, i requires 0 <= i < |path| => RenderStep(path[i], values))
  }

  lemma RenderPathStep(path: seq<Step>, values: Values)
    requires PathRenders(path, values) && path != []
    ensures PathRenders(path[1..], values)
    ensures RenderPath(path, values)[0] == RenderStep(path[0], values)
    ensures RenderPath(path, values)[1..] == RenderPath(path[1..], values)
  {
  }

  /** The step leads to the same place before rendering and after: no key in front renders to the same. */
  predicate StepAgrees(d: Draft, k: string, values: Values)
    requires d.Dict? && HasMeaning(d, values) && Render(Dump(k), values).Some?
  {
    Find(Means(d, values).fields, Render(Dump(k), values).value) == Find(d.fields, k)
  }

  /** And so does every step of the path. */
  predicate PathAgrees(d: Draft, path: seq<Step>, values: Values)
    requires HasMeaning(d, values) && PathRenders(path, values)
    decreases |path|
  {
    if path == [] then true
    else if d.Dict? && path[0].Key? then
      var i := Find(d.fields, path[0].key);
      StepAgrees(d, path[0].key, values) && (i < |d.fields| ==> PathAgrees(d.fields[i].value, path[1..], values))
    else if d.List? && path[0].Index? then
      var i := Position(path[0].index, |d.items|);
      0 <= i < |d.items| ==> PathAgrees(d.items[i], path[1..], values)
    else true
  }

  lemma PutFieldHasMeaning(d: Draft, i: nat, e: Entry<Marked>, values: Values)
    requires d.Dict? && i <= |d.fields| && HasMeaning(d, values) && HasMeaning(e.value, values)
    requires Render(Dump(e.key), values).Some?
    ensures HasMeaning(PutField(d, i, e), values)
  {
    var p := PutField(d, i, e);
    assert forall j :: 0 <= j < |p.fields| ==> p.fields[j] == if j == i then e else d.fields[j];
  }

  lemma FieldMeans(d: Draft, j: nat, values: Values)
    requires d.Dict? && HasMeaning(d, values) && j < |d.fields|
    ensures Render(Dump(d.fields[j].key), values).Some? && HasMeaning(d.fields[j].value, values)
    ensures |Means(d, values).fields| == |d.fields|
    ensures Means(d, values).fields[j] ==
      Entry(Render(Dump(d.fields[j].key), values).value, Means(d.fields[j].value, values))
  {
  }

  lemma PutFieldMeans(d: Draft, i: nat, k: string, v: Draft, values: Values)
    requires d.Dict? && i <= |d.fields| && HasMeaning(d, values) && HasMeaning(v, values)
    requires Render(Dump(k), values).Some?
    ensures HasMeaning(PutField(d, i, Entry(k, v)), values)
    ensures Means(PutField(d, i, Entry(k, v)), values) ==
      PutField(Means(d, values), i, Entry(Render(Dump(k), values).value, Means(v, values)))
  {
    PutFieldHasMeaning(d, i, Entry(k, v), values);
    var p := PutField(d, i, Entry(k, v));
    var a, b := Means(p, values), PutField(Means(d, values), i, Entry(Render(Dump(k), values).value, Means(v, values)));
    assert |a.fields| == |b.fields|;
    forall j | 0 <= j < |a.fields| ensures a.fields[j] == b.fields[j] {
      FieldMeans(p, j, values);
      if j != i {
        assert p.fields[j] == d.fields[j];
        FieldMeans(d, j, values);
      }
    }
    assert a.fields == b.fields;
  }

  lemma PutItemMeans(d: Draft, i: nat, v: Draft, values: Values)
    requires d.List? && i < |d.items| && HasMeaning(d, values) && HasMeaning(v, values)
    ensures HasMeaning(PutItem(d, i, v), values)
    ensures Means(PutItem(d, i, v), values) == PutItem(Means(d, values), i, Means(v, values))
  {
    assert Means(PutItem(d, i, v), values).items == PutItem(Means(d, values), i, Means(v, values)).items;
  }

  /** Setting v at the path means setting what v means at what the path reads. */
  ghost predicate AssignMeans(d: Draft, path: seq<Step>, v: Draft, values: Values)
    requires HasMeaning(d, values) && HasMeaning(v, values) && PathRenders(path, values)
  {
    var a, b := Assign(d, path, v), Assign(Means(d, values), RenderPath(path, values), Means(v, values));
    && (a.None? <==> b.None?)
    && (a.Some? ==> HasMeaning(a.value, values) && b.value == Means(a.value, values))
  }

  /** A `value:` means setting its value, whatever was done to the document before. */
  lemma {:induction false} ValueMeansItsValue(d: Draft, path: seq<Step>, v: Draft, values: Values)
    requires HasMeaning(d, values) && HasMeaning(v, values) && PathRenders(path, values) && PathAgrees(d, path, values)
    ensures AssignMeans(d, path, v, values)
    decreases |path|, 1
  {
    if path != [] && d.Dict? && path[0].Key? {
      FieldMeansItsValue(d, path, v, values);
    } else if path != [] && d.List? && path[0].Index? {
      ItemMeansItsValue(d, path, v, values);
    }
  }

  lemma {:induction false} FieldMeansItsValue(d: Draft, path: seq<Step>, v: Draft, values: Values)
    requires HasMeaning(d, values) && HasMeaning(v, values) && PathRenders(path, values) && PathAgrees(d, path, values)
    requires path != [] && d.Dict? && path[0].Key?
    ensures AssignMeans(d, path, v, values)
    decreases |path|, 0
  {
    RenderPathStep(path, values);
    var i := Find(d.fields, path[0].key);
    if |path| == 1 {
      PutFieldMeans(d, i, path[0].key, v, values);
    } else if i < |d.fields| {
      ValueMeansItsValue(d.fields[i].value, path[1..], v, values);
      var inner := Assign(d.fields[i].value, path[1..], v);
      if inner.Some? {
        PutFieldMeans(d, i, path[0].key, inner.value, values);
      }
    }
  }

  lemma {:induction false} ItemMeansItsValue(d: Draft, path: seq<Step>, v: Draft, values: Values)
    requires HasMeaning(d, values) && HasMeaning(v, values) && PathRenders(path, values) && PathAgrees(d, path, values)
    requires path != [] && d.List? && path[0].Index?
    ensures AssignMeans(d, path, v, values)
    decreases |path|, 0
  {
    RenderPathStep(path, values);
    var i := Position(path[0].index, |d.items|);
    assert RenderPath(path, values)[0] == path[0] && |Means(d, values).items| == |d.items|;
    if 0 <= i < |d.items| && |path| == 1 {
      PutItemMeans(d, i, v, values);
    } else if 0 <= i < |d.items| {
      ValueMeansItsValue(d.items[i], path[1..], v, values);
      var inner := Assign(d.items[i], path[1..], v);
      if inner.Some? {
        PutItemMeans(d, i, inner.value, values);
      }
    }
  }

  // ----- And exactly where it does -----

  /** One of two values that can be told apart wherever they are set. */
  function Probe(b: bool): Draft {
    Opaque(if b then 1 else 0)
  }

  ghost predicate Told(d: Draft, path: seq<Step>, values: Values)
    requires HasMeaning(d, values) && PathRenders(path, values)
  {
    var x, y := Assign(d, path, Probe(false)), Assign(d, path, Probe(true));
    && x.Some? && y.Some? && HasMeaning(x.value, values) && HasMeaning(y.value, values)
    && Means(x.value, values) != Means(y.value, values)
  }

  /** What is set shows in what the document means. */
  lemma {:induction false} ProbesAreTold(d: Draft, path: seq<Step>, values: Values)
    requires HasMeaning(d, values) && PathRenders(path, values) && Assign(d, path, Probe(false)).Some?
    ensures Told(d, path, values)
    decreases |path|, 1
  {
    AssignSucceedsExactly(d, path, Probe(false));
    AssignSucceedsExactly(d, path, Probe(true));
    if d.Dict? {
      FieldIsTold(d, path, values);
    } else {
      var i := Position(path[0].index, |d.items|);
      var x, y := Probe(false), Probe(true);
      if |path| > 1 {
        ProbesAreTold(d.items[i], path[1..], values);
        x := Assign(d.items[i], path[1..], Probe(false)).value;
        y := Assign(d.items[i], path[1..], Probe(true)).value;
      }
      PutItemMeans(d, i, x, values);
      PutItemMeans(d, i, y, values);
      assert Means(PutItem(d, i, x), values).items[i] != Means(PutItem(d, i, y), values).items[i];
    }
  }

  /** In a mapping, it shows in the field the first step leads to. */
  ghost predicate ToldAt(d: Draft, path: seq<Step>, i: nat, values: Values)
    requires d.Dict? && HasMeaning(d, values) && PathRenders(path, values)
  {
    Told(d, path, values) &&
    var a := Means(Assign(d, path, Probe(false)).value, values);
    var b := Means(Assign(d, path, Probe(true)).value, values);
    FieldsDiffer(a, b, i)
  }

  lemma {:induction false} FieldIsTold(d: Draft, path: seq<Step>, values: Values)
    requires HasMeaning(d, values) && PathRenders(path, values) && d.Dict? && Assign(d, path, Probe(false)).Some?
    ensures ToldAt(d, path, Find(d.fields, path[0].key), values)
    decreases |path|, 0
  {
    AssignSucceedsExactly(d, path, Probe(false));
    AssignSucceedsExactly(d, path, Probe(true));
    var k, i := path[0].key, Find(d.fields, path[0].key);
    var x, y := Probe(false), Probe(true);
    if |path| > 1 {
      ProbesAreTold(d.fields[i].value, path[1..], values);
      x := Assign(d.fields[i].value, path[1..], Probe(false)).value;
      y := Assign(d.fields[i].value, path[1..], Probe(true)).value;
    }
    PutIsTold(d, i, k, x, y, values);
    assert Assign(d, path, Probe(false)).value == PutField(d, i, Entry(k, x));
    assert Assign(d, path, Probe(true)).value == PutField(d, i, Entry(k, y));
  }

  ghost predicate FieldsDiffer(a: Node, b: Node, i: nat) {
    a.Dict? && b.Dict? && i < |a.fields| && i < |b.fields| && a.fields[i] != b.fields[i]
  }

  lemma PutIsTold(d: Draft, i: nat, k: string, x: Draft, y: Draft, values: Values)
    requires d.Dict? && i <= |d.fields| && HasMeaning(d, values) && Render(Dump(k), values).Some?
    requires HasMeaning(x, values) && HasMeaning(y, values) && Means(x, values) != Means(y, values)
    ensures var a, b := PutField(d, i, Entry(k, x)), PutField(d, i, Entry(k, y));
      HasMeaning(a, values) && HasMeaning(b, values) && FieldsDiffer(Means(a, values), Means(b, values), i)
  {
    PutFieldMeans(d, i, k, x, values);
    PutFieldMeans(d, i, k, y, values);
    var a, b := Means(PutField(d, i, Entry(k, x)), values), Means(PutField(d, i, Entry(k, y)), values);
    assert a.fields[i].value == Means(x, values) && b.fields[i].value == Means(y, values);
  }

  ghost predicate BothMean(d: Draft, path: seq<Step>, values: Values)
    requires HasMeaning(d, values) && PathRenders(path, values)
  {
    AssignMeans(d, path, Probe(false), values) && AssignMeans(d, path, Probe(true), values)
  }

  /** A step that leads elsewhere after rendering leaves what was set unnoticed there. */
  lemma {:induction false} OnlyAgreeingStepMeans(d: Draft, path: seq<Step>, values: Values)
    requires HasMeaning(d, values) && PathRenders(path, values) && Assign(d, path, Probe(false)).Some?
    requires d.Dict? && BothMean(d, path, values)
    ensures StepAgrees(d, path[0].key, values)
  {
    var n, i, p := Means(d, values), Find(d.fields, path[0].key), RenderPath(path, values);
    RenderPathStep(path, values);
    FieldIsTold(d, path, values);
    SetElsewhere(n, p, Means(Probe(false), values), i);
    SetElsewhere(n, p, Means(Probe(true), values), i);
  }

  lemma SetElsewhere(n: Node, path: seq<Step>, v: Node, i: nat)
    requires n.Dict? && path != [] && path[0].Key? && Assign(n, path, v).Some?
    ensures var after := Assign(n, path, v).value;
      i != Find(n.fields, path[0].key) && i < |after.fields| ==> i < |n.fields| && after.fields[i] == n.fields[i]
  {
  }

  /** Where the first step agrees, the rest of the path means what it says if the whole does. */
  lemma {:induction false} InnerFieldMeans(d: Draft, path: seq<Step>, v: Draft, values: Values)
    requires HasMeaning(d, values) && HasMeaning(v, values) && PathRenders(path, values)
    requires d.Dict? && Assign(d, path, v).Some? && |path| > 1
    requires StepAgrees(d, path[0].key, values) && AssignMeans(d, path, v, values)
    ensures var i := Find(d.fields, path[0].key);
      i < |d.fields| && AssignMeans(d.fields[i].value, path[1..], v, values)
  {
    var i := Find(d.fields, path[0].key);
    RenderPathStep(path, values);
    var inner := Assign(d.fields[i].value, path[1..], v).value;
    AssignedHasMeaning(d.fields[i].value, path[1..], v, values);
    PutFieldMeans(d, i, path[0].key, inner, values);
    var b := Assign(Means(d, values), RenderPath(path, values), Means(v, values)).value;
    assert b.fields[i].value == Means(inner, values);
  }

  lemma {:induction false} InnerItemMeans(d: Draft, path: seq<Step>, v: Draft, values: Values)
    requires HasMeaning(d, values) && HasMeaning(v, values) && PathRenders(path, values)
    requires d.List? && Assign(d, path, v).Some? && |path| > 1
    requires AssignMeans(d, path, v, values)
    ensures var i := Position(path[0].index, |d.items|);
      0 <= i < |d.items| && AssignMeans(d.items[i], path[1..], v, values)
  {
    var i := Position(path[0].index, |d.items|);
    RenderPathStep(path, values);
    var inner := Assign(d.items[i], path[1..], v).value;
    AssignedHasMeaning(d.items[i], path[1..], v, values);
    PutItemMeans(d, i, inner, values);
    var b := Assign(Means(d, values), RenderPath(path, values), Means(v, values)).value;
    assert b.items[i] == Means(inner, values);
  }

  lemma {:induction false} OnlyAgreeingPathMeans(d: Draft, path: seq<Step>, values: Values)
    requires HasMeaning(d, values) && PathRenders(path, values) && Assign(d, path, Probe(false)).Some?
    requires BothMean(d, path, values)
    ensures PathAgrees(d, path, values)
    decreases |path|
  {
    AssignSucceedsExactly(d, path, Probe(false));
    AssignSucceedsExactly(d, path, Probe(true));
    if d.Dict? {
      OnlyAgreeingStepMeans(d, path, values);
      if |path| > 1 {
        InnerFieldMeans(d, path, Probe(false), values);
        InnerFieldMeans(d, path, Probe(true), values);
        OnlyAgreeingPathMeans(d.fields[Find(d.fields, path[0].key)].value, path[1..], values);
      }
    } else if |path| > 1 {
      InnerItemMeans(d, path, Probe(false), values);
      InnerItemMeans(d, path, Probe(true), values);
      OnlyAgreeingPathMeans(d.items[Position(path[0].index, |d.items|)], path[1..], values);
    }
  }

  /** Whatever is set there means being set there. */
  ghost predicate EveryValueMeans(d: Draft, path: seq<Step>, values: Values)
    requires HasMeaning(d, values) && PathRenders(path, values)
  {
    forall v: Draft :: HasMeaning(v, values) ==> AssignMeans(d, path, v, values)
  }

  /**
  Where a path can be set at all, values set there mean what they say if and only if no step of it
  follows a key behind another one that renders to the same.
  */
  lemma ValuesMeanTheirValuesExactly(d: Draft, path: seq<Step>, values: Values)
    requires HasMeaning(d, values) && PathRenders(path, values) && Assign(d, path, Probe(false)).Some?
    ensures EveryValueMeans(d, path, values) <==> PathAgrees(d, path, values)
  {
    if PathAgrees(d, path, values) {
      forall v: Draft | HasMeaning(v, values) ensures AssignMeans(d, path, v, values) {
        ValueMeansItsValue(d, path, v, values);
      }
    } else if EveryValueMeans(d, path, values) {
      OnlyAgreeingPathMeans(d, path, values);
    }
  }

  /** A mapping, put in by a `value:`, with a live key and behind it the key it renders to. */
  function Hiding(e: string, k: string): Node {
    Dict([Entry(e, Opaque(0)), Entry(k, Opaque(1))])
  }

  /** What is set at the second key is not what is read there. */
  ghost predicate Hides(v: Node, path: seq<Step>, values: Values) {
    && Renders(DumpNode(v), values) && HasMeaning(Draw(v), values) && PathRenders(path, values)
    && Assign(Draw(v), path, Probe(false)).Some? && !EveryValueMeans(Draw(v), path, values)
  }

  lemma DrawnHiding(e: string, k: string)
    ensures var d := Draw(Hiding(e, k));
      d.Dict? && |d.fields| == 2 && d.fields[0] == Entry(e, Opaque(0)) && d.fields[1] == Entry(k, Opaque(1))
  {
    var v := Hiding(e, k);
    assert Draw(v.fields[0].value) == Opaque(0) && Draw(v.fields[1].value) == Opaque(1);
    assert forall i :: 0 <= i < 2 ==> Draw(v).fields[i] == Entry(v.fields[i].key, Draw(v.fields[i].value));
  }

  lemma HiddenBehind(e: string, k: string, values: Values)
    requires e != k && NoOpen(k) && Render(Dump(e), values) == Some(k)
    ensures Hides(Hiding(e, k), [Key(k)], values)
  {
    var d, path := Draw(Hiding(e, k)), [Key(k)];
    DrawnHiding(e, k);
    PlainKeyMeansItself(k, values);
    HiddenStep(d, e, k, values);
    ValuesMeanTheirValuesExactly(d, path, values);
  }

  lemma HiddenStep(d: Draft, e: string, k: string, values: Values)
    requires d.Dict? && |d.fields| == 2 && d.fields[0] == Entry(e, Opaque(0)) && d.fields[1] == Entry(k, Opaque(1))
    requires e != k && Render(Dump(k), values) == Some(k) && Render(Dump(e), values) == Some(k)
    ensures HasMeaning(d, values) && !PathAgrees(d, [Key(k)], values)
  {
    FindIs(d.fields, k, 1);
    var fields := Means(d, values).fields;
    assert fields[0].key == k;
    assert Find(fields, k) == 0;
    assert !StepAgrees(d, k, values);
  }

  lemma ExpressionRenders(body: string, value: string)
    requires IsBody(body) && KindOf(body).Plain? && |body| == 2 && body[0] == '.' && body[1] != '\n'
    ensures Render(Dump(Action(body)), map[body := value]) == Some(value)
  {
    var e, values := Action(body), map[body := value];
    RenderAction(body, "", values);
    assert e + "" == e && Render("", values) == Some("") && value + "" == value;
    assert '\n' !in e;
  }

  lemma ExpressionIsBody(c: char)
    requires 'a' <= c <= 'z'
    ensures IsBody(['.', c]) && KindOf(['.', c]).Plain?
  {
    BodyStep(c, CLOSE, false, 0);
    BodyStep('.', [c] + CLOSE, false, 1);
    assert ['.', c] + CLOSE == ['.'] + ([c] + CLOSE);
  }

  /** Such a mapping: `{{.x}}` in front of `k`, and a release that sets x to k. */
  lemma LiveKeyHidesAPath() returns (v: Node, path: seq<Step>, values: Values)
    ensures Hides(v, path, values)
  {
    var body, k := ['.', 'x'], ['k'];
    ExpressionIsBody('x');
    ExpressionRenders(body, k);
    assert Action(body)[0] == '{';
    assert k[1..] == [] && NoOpen(k);
    v, path, values := Hiding(Action(body), k), [Key(k)], map[body := k];
    HiddenBehind(Action(body), k, values);
  }

  // ----- Paths through plain keys agree -----

  predicate PlainPath(path: seq<Step>) {
    forall i :: 0 <= i < |path| && path[i].Key? ==> NoOpen(path[i].key)
  }

  lemma PlainPathReadsTheSame(path: seq<Step>, values: Values)
    requires PlainPath(path)
    ensures PathRenders(path, values) && RenderPath(path, values) == path
  {
    forall i | 0 <= i < |path| && path[i].Key? ensures Render(Dump(path[i].key), values) == Some(path[i].key) {
      PlainKeyMeansItself(path[i].key, values);
    }
  }

  /** No mapping the path passes has a key that is template text. */
  predicate PlainAlong<T>(d: Tree<T>, path: seq<Step>)
    decreases |path|
  {
    if path == [] then true
    else if d.Dict? then
      && (forall i :: 0 <= i < |d.fields| ==> NoOpen(d.fields[i].key))
      && (path[0].Key? && Find(d.fields, path[0].key) < |d.fields| ==>
            PlainAlong(d.fields[Find(d.fields, path[0].key)].value, path[1..]))
    else if d.List? && path[0].Index? then
      var i := Position(path[0].index, |d.items|);
      0 <= i < |d.items| ==> PlainAlong(d.items[i], path[1..])
    else true
  }

  lemma {:induction false} PlainKeysAlong<T>(d: Tree<T>, path: seq<Step>)
    requires PlainKeys(d)
    ensures PlainAlong(d, path)
    decreases |path|
  {
    if path != [] && d.Dict? && path[0].Key? && Find(d.fields, path[0].key) < |d.fields| {
      PlainKeysAlong(d.fields[Find(d.fields, path[0].key)].value, path[1..]);
    } else if path != [] && d.List? && path[0].Index? && 0 <= Position(path[0].index, |d.items|) < |d.items| {
      PlainKeysAlong(d.items[Position(path[0].index, |d.items|)], path[1..]);
    }
  }

  lemma PlainStepAgrees(d: Draft, k: string, values: Values)
    requires d.Dict? && HasMeaning(d, values) && NoOpen(k)
    requires forall i :: 0 <= i < |d.fields| ==> NoOpen(d.fields[i].key)
    ensures Render(Dump(k), values) == Some(k) && StepAgrees(d, k, values)
  {
    PlainKeyMeansItself(k, values);
    forall i | 0 <= i < |d.fields| ensures Means(d, values).fields[i].key == d.fields[i].key {
      PlainKeyMeansItself(d.fields[i].key, values);
    }
    FindSameKeys(d.fields, Means(d, values).fields, k);
  }

  lemma {:induction false} PlainAlongAgrees(d: Draft, path: seq<Step>, values: Values)
    requires HasMeaning(d, values) && PlainPath(path) && PathRenders(path, values) && PlainAlong(d, path)
    ensures PathAgrees(d, path, values)
    decreases |path|
  {
    if path != [] && d.Dict? && path[0].Key? {
      PlainStepAgrees(d, path[0].key, values);
      if Find(d.fields, path[0].key) < |d.fields| {
        PlainAlongAgrees(d.fields[Find(d.fields, path[0].key)].value, path[1..], values);
      }
    } else if path != [] && d.List? && path[0].Index? && 0 <= Position(path[0].index, |d.items|) < |d.items| {
      PlainAlongAgrees(d.items[Position(path[0].index, |d.items|)], path[1..], values);
    }
  }

  /** What is set elsewhere, or has no live key itself, brings none onto a path. */
  predicate KeepsPlain<T>(path: seq<Step>, v: Tree<T>, q: seq<Step>) {
    PlainPath(path) && (Diverge(path, q) || PlainKeys(v))
  }

  lemma KeepsPlainBelow<T>(path: seq<Step>, v: Tree<T>, q: seq<Step>)
    requires path != [] && q != [] && KeepsPlain(path, v, q) && !StepsApart(path[0], q[0])
    ensures if |path| == 1 then PlainKeys(v) else KeepsPlain(path[1..], v, q[1..])
  {
    assert Diverge(path, q) ==> Diverge(path[1..], q[1..]);
    assert |path| == 1 ==> path[1..] == [] && !Diverge(path[1..], q[1..]);
  }

  lemma {:induction false} SetStaysPlain<T>(d: Tree<T>, path: seq<Step>, v: Tree<T>, q: seq<Step>)
    requires PlainAlong(d, q) && KeepsPlain(path, v, q) && Assign(d, path, v).Some?
    ensures PlainAlong(Assign(d, path, v).value, q)
    decreases |path|, 1
  {
    if q == [] {
    } else if d.Dict? {
      FieldStaysPlain(d, path, v, q);
    } else if q[0].Index? && Position(path[0].index, |d.items|) == Position(q[0].index, |d.items|) {
      KeepsPlainBelow(path, v, q);
      if |path| > 1 {
        SetStaysPlain(d.items[Position(path[0].index, |d.items|)], path[1..], v, q[1..]);
      } else {
        PlainKeysAlong(v, q[1..]);
      }
    }
  }

  lemma {:induction false} FieldStaysPlain<T>(d: Tree<T>, path: seq<Step>, v: Tree<T>, q: seq<Step>)
    requires PlainAlong(d, q) && KeepsPlain(path, v, q) && Assign(d, path, v).Some? && d.Dict? && q != []
    ensures PlainAlong(Assign(d, path, v).value, q)
    decreases |path|, 0
  {
    var i := Find(d.fields, path[0].key);
    var inner := if |path| == 1 then v else Assign(d.fields[i].value, path[1..], v).value;
    if path[0] == q[0] {
      KeepsPlainBelow(path, v, q);
      if |path| > 1 {
        SetStaysPlain(d.fields[i].value, path[1..], v, q[1..]);
      } else {
        PlainKeysAlong(v, q[1..]);
      }
    }
    PutStaysPlain(d, Entry(path[0].key, inner), q);
  }

  lemma PutStaysPlain<T>(d: Tree<T>, e: Entry<T>, q: seq<Step>)
    requires d.Dict? && q != [] && PlainAlong(d, q) && NoOpen(e.key)
    requires q[0] == Key(e.key) ==> PlainAlong(e.value, q[1..])
    ensures PlainAlong(PutField(d, Find(d.fields, e.key), e), q)
  {
    if q[0].Key? {
      PutFieldThenFind(d, e, q[0].key);
    }
  }

  // ----- Any number of values -----

  /** The declarations as operations. */
  function Assigning(fields: seq<Field>): (ops: seq<Operation>)
    ensures |ops| == |fields|
  {
    seq(|fields|, i requires 0 <= i < |fields| => Assigns(fields[i]))
  }

  lemma AssigningFront(fields: seq<Field>)
    requires fields != []
    ensures Assigning(fields)[..|fields| - 1] == Assigning(fields[..|fields| - 1])
    ensures Assigning(fields)[|fields| - 1] == Assigns(fields[|fields| - 1])
  {
  }

  /** The reference: each rendered value set at its rendered path, in a document that holds no template at all. */
  function SetAll(n: Node, fields: seq<Field>, values: Values): Option<Node>
    requires AllValued(Assigning(fields), values)
    decreases |fields|
  {
    if fields == [] then Some(n)
    else
      var last := fields[|fields| - 1];
      AssigningFront(fields);
      assert IsValued(Assigning(fields)[|fields| - 1], values);
      var before := SetAll(n, fields[..|fields| - 1], values);
      if before.None? then None
      else Assign(before.value, RenderPath(last.path, values), Rendered(DumpNode(last.value), values))
  }

  /** Every declared path agrees with the document as it then is. */
  ghost predicate PathsAgree(n: Node, fields: seq<Field>, values: Values)
    decreases |fields|
  {
    if fields == [] then true
    else
      var front, path := fields[..|fields| - 1], fields[|fields| - 1].path;
      var before := DraftAll(MarkNode(n), Assigning(front));
      && PathsAgree(n, front, values)
      && (before.Some? ==>
            HasMeaning(before.value, values) && PathRenders(path, values) && PathAgrees(before.value, path, values))
  }

  /** Nothing is stripped from it that matters, and no brace is left in front of an action. */
  predicate IsSound(d: Draft) {
    AllShippable(d) && NoStrays(d)
  }

  lemma {:induction false} DrawnIsSound(v: Node)
    ensures IsSound(Draw(v))
  {
    match v
    case Str(s) => assert forall w :: [Live(w)][1..] == [] && NoStray([Live(w)]);
    case List(items) =>
      forall i | 0 <= i < |items| ensures IsSound(Draw(v).items[i]) {
        DrawnIsSound(items[i]);
      }
    case Dict(fields) =>
      forall i | 0 <= i < |fields| ensures IsSound(Draw(v).fields[i].value) {
        DrawnIsSound(fields[i].value);
      }
    case _ =>
  }

  lemma {:induction false} MarkedIsSound(n: Node)
    requires Escapable(n)
    ensures IsSound(MarkNode(n)) && AllSettled(ProtectNode(n)) && PlainKeys(n) && Parsed(n)
  {
    var d := MarkNode(n);
    match n
    case Str(s) =>
      EmitMark(s);
      NoStrayMark(s);
      LeavesBraceIsOddRun(s);
    case List(items) =>
      forall i | 0 <= i < |items|
        ensures IsSound(d.items[i]) && AllSettled(ProtectNode(n).items[i]) && PlainKeys(items[i]) && Parsed(items[i])
      {
        MarkedIsSound(items[i]);
      }
    case Dict(fields) =>
      forall i | 0 <= i < |fields|
        ensures IsSound(d.fields[i].value) && AllSettled(ProtectNode(n).fields[i].value)
        ensures PlainKeys(fields[i].value) && Parsed(fields[i].value) && IsSettled(fields[i].key)
      {
        MarkedIsSound(fields[i].value);
        PlainIsWrittenAsItIs(fields[i].key);
        DumpedAsItIsExactly(fields[i].key);
      }
    case _ =>
  }

  lemma PutFieldIsSound(d: Draft, i: nat, e: Entry<Marked>)
    requires d.Dict? && i <= |d.fields| && IsSound(d) && IsSound(e.value)
    ensures IsSound(PutField(d, i, e))
  {
  }

  lemma PutItemIsSound(d: Draft, i: nat, v: Draft)
    requires d.List? && i < |d.items| && IsSound(d) && IsSound(v)
    ensures IsSound(PutItem(d, i, v))
  {
  }

  lemma {:induction false} AssignedIsSound(d: Draft, path: seq<Step>, v: Draft)
    requires IsSound(d) && IsSound(v) && Assign(d, path, v).Some?
    ensures IsSound(Assign(d, path, v).value)
    decreases |path|
  {
    if d.Dict? {
      var i := Find(d.fields, path[0].key);
      if |path| > 1 {
        AssignedIsSound(d.fields[i].value, path[1..], v);
      }
      var inner := if |path| == 1 then v else Assign(d.fields[i].value, path[1..], v).value;
      PutFieldIsSound(d, i, Entry(path[0].key, inner));
    } else {
      var i := Position(path[0].index, |d.items|);
      if |path| > 1 {
        AssignedIsSound(d.items[i], path[1..], v);
      }
      PutItemIsSound(d, i, if |path| == 1 then v else Assign(d.items[i], path[1..], v).value);
    }
  }

  /** The draft is refused exactly when the reference is, and otherwise means it. */
  ghost predicate MeansReference(n: Node, fields: seq<Field>, values: Values)
    requires AllValued(Assigning(fields), values)
  {
    var d, r := DraftAll(MarkNode(n), Assigning(fields)), SetAll(n, fields, values);
    && (d.Some? <==> r.Some?)
    && (d.Some? ==> StandsFor(d.value, r.value, values))
  }

  /** The draft stands for this document and can be shipped. */
  ghost predicate StandsFor(d: Draft, n: Node, values: Values) {
    IsSound(d) && HasMeaning(d, values) && Means(d, values) == n
  }

  lemma OneMoreMeans(d: Draft, n: Node, f: Field, values: Values)
    requires StandsFor(d, n, values) && PathRenders(f.path, values) && PathAgrees(d, f.path, values)
    requires Renders(DumpNode(f.value), values)
    ensures var a := Assign(d, f.path, Draw(f.value));
      var b := Assign(n, RenderPath(f.path, values), Rendered(DumpNode(f.value), values));
      (a.Some? <==> b.Some?) && (a.Some? ==> StandsFor(a.value, b.value, values))
  {
    DrawnMeans(f.value, values);
    DrawnIsSound(f.value);
    ValueMeansItsValue(d, f.path, Draw(f.value), values);
    if Assign(d, f.path, Draw(f.value)).Some? {
      AssignedIsSound(d, f.path, Draw(f.value));
    }
  }

  lemma LastAssigned(d: Draft, fields: seq<Field>)
    requires fields != []
    ensures DraftAll(d, Assigning(fields)) ==
      var before, last := DraftAll(d, Assigning(fields[..|fields| - 1])), fields[|fields| - 1];
      if before.None? then None else Assign(before.value, last.path, Draw(last.value))
  {
    AssigningFront(fields);
  }

  lemma FrontIsValued(fields: seq<Field>, values: Values)
    requires fields != [] && AllValued(Assigning(fields), values)
    ensures AllValued(Assigning(fields[..|fields| - 1]), values)
    ensures IsValued(Assigns(fields[|fields| - 1]), values)
  {
    AssigningFront(fields);
    assert IsValued(Assigning(fields)[|fields| - 1], values);
  }

  lemma {:induction false} DraftMeansReference(n: Node, fields: seq<Field>, values: Values)
    requires Escapable(n) && AllValued(Assigning(fields), values) && PathsAgree(n, fields, values)
    ensures MeansReference(n, fields, values)
    decreases |fields|
  {
    if fields == [] {
      MarkedIsSound(n);
      MarkedMeansItself(n, values);
    } else {
      var front, last := fields[..|fields| - 1], fields[|fields| - 1];
      FrontIsValued(fields, values);
      LastAssigned(MarkNode(n), fields);
      DraftMeansReference(n, front, values);
      var before := DraftAll(MarkNode(n), Assigning(front));
      if before.Some? {
        OneMoreMeans(before.value, SetAll(n, front, values).value, last, values);
      }
    }
  }

  lemma {:induction false} AssigningIsClear(d: Draft, fields: seq<Field>)
    ensures AllClear(d, Assigning(fields))
    decreases |fields|
  {
    if fields != [] {
      AssigningFront(fields);
      AssigningIsClear(d, fields[..|fields| - 1]);
    }
  }

  /** What ships renders to what the reference sets, or is refused where the reference is. */
  ghost predicate ShipsReference(n: Node, fields: seq<Field>, values: Values)
    requires AllValued(Assigning(fields), values)
  {
    var t, r := ApplyAll(ProtectNode(n), Assigning(fields)), SetAll(n, fields, values);
    && (t.Some? <==> r.Some?)
    && (t.Some? ==> Renders(DumpNode(t.value), values) && Rendered(DumpNode(t.value), values) == r.value)
  }

  /**
  Templating preserves meaning: escaping a document, assigning any values to any paths, writing and
  rendering it gives the document with each rendered value set at its rendered path, as long as every
  path agrees.
  */
  lemma TemplatingPreservesMeaning(n: Node, fields: seq<Field>, values: Values)
    requires Escapable(n) && AllValued(Assigning(fields), values) && PathsAgree(n, fields, values)
    ensures ShipsReference(n, fields, values)
  {
    DraftMeansReference(n, fields, values);
    MarkedIsSound(n);
    EmitMarkNode(n);
    AssigningIsClear(MarkNode(n), fields);
    ApplyAllEmitted(MarkNode(n), Assigning(fields));
    var d := DraftAll(MarkNode(n), Assigning(fields));
    if d.Some? {
      DraftRenders(d.value, values);
    }
  }

  // ----- When every path agrees, told from the declarations -----

  /** A path runs into no value with live keys that was set before. */
  predicate Undisturbed(fields: seq<Field>, q: seq<Step>) {
    forall i :: 0 <= i < |fields| ==> KeepsPlain(fields[i].path, fields[i].value, q)
  }

  predicate AllUndisturbed(fields: seq<Field>) {
    forall j :: 0 <= j < |fields| ==> PlainPath(fields[j].path) && Undisturbed(fields[..j], fields[j].path)
  }

  lemma {:induction false} DrawnKeepsKeys(v: Node)
    ensures PlainKeys(Draw(v)) <==> PlainKeys(v)
  {
    match v
    case List(items) =>
      forall i | 0 <= i < |items| ensures PlainKeys(Draw(v).items[i]) <==> PlainKeys(items[i]) {
        DrawnKeepsKeys(items[i]);
      }
    case Dict(fields) =>
      forall i | 0 <= i < |fields| ensures PlainKeys(Draw(v).fields[i].value) <==> PlainKeys(fields[i].value) {
        DrawnKeepsKeys(fields[i].value);
      }
    case _ =>
  }

  lemma {:induction false} MarkedKeepsKeys(n: Node)
    requires PlainKeys(n)
    ensures PlainKeys(MarkNode(n))
  {
    match n
    case List(items) =>
      forall i | 0 <= i < |items| ensures PlainKeys(MarkNode(n).items[i]) {
        MarkedKeepsKeys(items[i]);
      }
    case Dict(fields) =>
      forall i | 0 <= i < |fields| ensures PlainKeys(MarkNode(n).fields[i].value) {
        MarkedKeepsKeys(fields[i].value);
      }
    case _ =>
  }

  lemma {:induction false} DraftStaysPlain(n: Node, fields: seq<Field>, q: seq<Step>)
    requires PlainKeys(n) && Undisturbed(fields, q) && DraftAll(MarkNode(n), Assigning(fields)).Some?
    ensures PlainAlong(DraftAll(MarkNode(n), Assigning(fields)).value, q)
    decreases |fields|
  {
    if fields == [] {
      MarkedKeepsKeys(n);
      PlainKeysAlong(MarkNode(n), q);
    } else {
      var last := fields[|fields| - 1];
      AssigningFront(fields);
      DraftStaysPlain(n, fields[..|fields| - 1], q);
      DrawnKeepsKeys(last.value);
      SetStaysPlain(DraftAll(MarkNode(n), Assigning(fields[..|fields| - 1])).value, last.path, Draw(last.value), q);
    }
  }

  lemma {:induction false} UndisturbedPathsAgree(n: Node, fields: seq<Field>, values: Values)
    requires Escapable(n) && AllValued(Assigning(fields), values) && AllUndisturbed(fields)
    ensures PathsAgree(n, fields, values)
    decreases |fields|
  {
    if fields != [] {
      var front, path := fields[..|fields| - 1], fields[|fields| - 1].path;
      AssigningFront(fields);
      assert forall k :: 0 <= k < |front| ==> Assigning(front)[k] == Assigning(fields)[k];
      assert forall j :: 0 <= j < |front| ==> front[j] == fields[j] && front[..j] == fields[..j];
      UndisturbedPathsAgree(n, front, values);
      MarkedIsSound(n);
      DraftMeansReference(n, front, values);
      var before := DraftAll(MarkNode(n), Assigning(front));
      if before.Some? {
        PlainPathReadsTheSame(path, values);
        DraftStaysPlain(n, front, path);
        PlainAlongAgrees(before.value, path, values);
      }
    }
  }

  // ----- The rendered document, path by path -----

  predicate AllDiverge(fields: seq<Field>) {
    forall i, j :: 0 <= i < j < |fields| ==> Diverge(fields[i].path, fields[j].path)
  }

  predicate DivergesFromAll(fields: seq<Field>, q: seq<Step>) {
    forall i :: 0 <= i < |fields| ==> Diverge(fields[i].path, q)
  }

  predicate PlainPaths(fields: seq<Field>) {
    forall i :: 0 <= i < |fields| ==> PlainPath(fields[i].path)
  }

  lemma {:induction false} SetAllElsewhere(n: Node, fields: seq<Field>, values: Values, q: seq<Step>)
    requires AllValued(Assigning(fields), values) && SetAll(n, fields, values).Some?
    requires PlainPaths(fields) && DivergesFromAll(fields, q)
    ensures Lookup(SetAll(n, fields, values).value, q) == Lookup(n, q)
    decreases |fields|
  {
    if fields != [] {
      var front, last := fields[..|fields| - 1], fields[|fields| - 1];
      AssigningFront(fields);
      assert IsValued(Assigning(fields)[|fields| - 1], values);
      SetAllElsewhere(n, front, values, q);
      PlainPathReadsTheSame(last.path, values);
      AssignKeepsTheRest(SetAll(n, front, values).value, last.path, Rendered(DumpNode(last.value), values), q);
    }
  }

  lemma {:induction false} SetAllSets(n: Node, fields: seq<Field>, values: Values, k: nat)
    requires AllValued(Assigning(fields), values) && SetAll(n, fields, values).Some?
    requires PlainPaths(fields) && AllDiverge(fields) && k < |fields| && Renders(DumpNode(fields[k].value), values)
    ensures Lookup(SetAll(n, fields, values).value, fields[k].path) == Some(Rendered(DumpNode(fields[k].value), values))
    decreases |fields|
  {
    var front, last := fields[..|fields| - 1], fields[|fields| - 1];
    AssigningFront(fields);
    assert IsValued(Assigning(fields)[|fields| - 1], values);
    PlainPathReadsTheSame(last.path, values);
    var v := Rendered(DumpNode(last.value), values);
    if k == |fields| - 1 {
      AssignSetsThePath(SetAll(n, front, values).value, last.path, v);
    } else {
      SetAllSets(n, front, values, k);
      DivergeIsSymmetric(fields[k].path, last.path);
      AssignKeepsTheRest(SetAll(n, front, values).value, last.path, v, fields[k].path);
    }
  }

  lemma DivergingAreUndisturbed(fields: seq<Field>)
    requires PlainPaths(fields) && AllDiverge(fields)
    ensures AllUndisturbed(fields)
  {
  }

  /**
  The document a chart renders, path by path, for values of any shape set at paths that all part from
  one another: at each declared path its rendered value, and everywhere else the original document.
  */
  lemma RenderedDocumentByPath(n: Node, fields: seq<Field>, values: Values, k: nat, q: seq<Step>)
    requires Escapable(n) && AllValued(Assigning(fields), values) && PlainPaths(fields) && AllDiverge(fields)
    requires ApplyAll(ProtectNode(n), Assigning(fields)).Some?
    ensures Renders(DumpNode(ApplyAll(ProtectNode(n), Assigning(fields)).value), values)
    ensures k < |fields| ==> Renders(DumpNode(fields[k].value), values)
    ensures var r := Rendered(DumpNode(ApplyAll(ProtectNode(n), Assigning(fields)).value), values);
      && (k < |fields| ==> Lookup(r, fields[k].path) == Some(Rendered(DumpNode(fields[k].value), values)))
      && (DivergesFromAll(fields, q) ==> Lookup(r, q) == Lookup(n, q))
  {
    DivergingAreUndisturbed(fields);
    UndisturbedPathsAgree(n, fields, values);
    TemplatingPreservesMeaning(n, fields, values);
    if k < |fields| {
      assert IsValued(Assigning(fields)[k], values);
      SetAllSets(n, fields, values, k);
    }
    if DivergesFromAll(fields, q) {
      SetAllElsewhere(n, fields, values, q);
    }
  }

  // ----- A `replaceAll:` -----

  /** A `replaceAll:` on an untouched document means replacing the literal by its text's value. */
  ghost predicate MeansReplacing(n: Node, inMetadata: bool, lit: string, w: string, values: Values)
    requires Render(w, values).Some?
  {
    var d := ChangeAll(MarkNode(n), inMetadata, ReplacingRaw(lit, w));
    && HasMeaning(d, values)
    && Means(d, values) == ChangeAll(n, inMetadata, Replacing(lit, Render(w, values).value))
  }

  lemma ReplacedStringMeans(s: string, lit: string, w: string, values: Values)
    requires lit != "" && MayStand(w, values) && IsSettled(Emit(ReplaceRaw(Mark(s), lit, w)))
    ensures MeansReplacing(Str(s), false, lit, w, values)
  {
    var m := ReplaceRaw(Mark(s), lit, w);
    ReplacedIsFit(Mark(s), lit, w, values);
    FitIsPlaced(m, values);
    MeaningOfReplaced(s, lit, w, values);
  }

  lemma {:induction false} ReplaceAllMeansReplacing(n: Node, inMetadata: bool, lit: string, w: string, values: Values)
    requires Parsed(n) && PlainKeys(n) && lit != "" && MayStand(w, values)
    requires AllSettled(EmitNode(ChangeAll(MarkNode(n), inMetadata, ReplacingRaw(lit, w))))
    ensures MeansReplacing(n, inMetadata, lit, w, values)
  {
    var f, g := ReplacingRaw(lit, w), Replacing(lit, Render(w, values).value);
    var d, t := ChangeAll(MarkNode(n), inMetadata, f), ChangeAll(n, inMetadata, g);
    match n
    case Str(s) => ReplacedStringMeans(s, lit, w, values);
    case List(items) =>
      forall i | 0 <= i < |items| ensures HasMeaning(d.items[i], values) && Means(d.items[i], values) == t.items[i] {
        assert d.items[i] == ChangeAll(MarkNode(items[i]), false, f);
        assert EmitNode(d).items[i] == EmitNode(d.items[i]);
        ReplaceAllMeansReplacing(items[i], false, lit, w, values);
      }
      assert Means(d, values).items == t.items;
    case Dict(fields) =>
      forall i | 0 <= i < |fields|
        ensures Render(Dump(d.fields[i].key), values) == Some(t.fields[i].key)
        ensures HasMeaning(d.fields[i].value, values) && Means(d.fields[i].value, values) == t.fields[i].value
      {
        var e, m := fields[i], MarkNode(n).fields[i];
        assert m == Entry(e.key, MarkNode(e.value));
        assert EmitNode(d).fields[i] == Entry(e.key, EmitNode(d.fields[i].value));
        PlainKeyMeansItself(e.key, values);
        if Exempt(e.key, inMetadata) {
          EmitMarkNode(e.value);
          MarkedMeansItself(e.value, values);
        } else {
          assert d.fields[i].value == ChangeAll(m.value, IsMetadata(m), f);
          ReplaceAllMeansReplacing(e.value, IsMetadata(e), lit, w, values);
        }
      }
      assert Means(d, values).fields == t.fields;
    case _ =>
  }
}
