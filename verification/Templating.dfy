/**
Documents as scripts/package/templated-fields.py handles them: parsed YAML that is escaped, changed
at paths, written and rendered.
*/
module Templating {
  import opened Options
  import opened Text
  import opened Digits
  import opened Escaping
  import opened Marking
  import opened Dumping

  /**
  A parsed YAML document, or one that is being turned into a template.  `Bare` is an integer
  field: an expression emitted without quotes, so that it renders to a number.
  */
  datatype Tree<T> =
    | Str(text: T)
    | Int(value: int)
    | Opaque(tag: nat) // booleans, nulls, floats: nothing here touches them
    | Bare(expression: string)
    | List(items: seq<Tree<T>>)
    | Dict(fields: seq<Entry<T>>)

  datatype Entry<T> = Entry(key: string, value: Tree<T>)

  type Node = Tree<string>

  /** The same tree with every string changed; keys are left alone. */
  function MapText<T, U>(n: Tree<T>, f: T -> U): Tree<U> {
    match n
    case Str(s) => Str(f(s))
    case Int(v) => Int(v)
    case Opaque(t) => Opaque(t)
    case Bare(e) => Bare(e)
    case List(items) => List(seq(|items|, i requires 0 <= i < |items| => MapText(items[i], f)))
    case Dict(fields) =>
      Dict(seq(|fields|, i requires 0 <= i < |fields| => Entry(fields[i].key, MapText(fields[i].value, f))))
  }

  function ProtectNode(n: Node): Node {
    MapText(n, Protect)
  }

  /** The content as it is written: every string and every key through the dumper. */
  function DumpNode(n: Node): Node {
    match n
    case Str(s) => Str(Dump(s))
    case List(items) => List(seq(|items|, i requires 0 <= i < |items| => DumpNode(items[i])))
    case Dict(fields) =>
      Dict(seq(|fields|, i requires 0 <= i < |fields| => Entry(Dump(fields[i].key), DumpNode(fields[i].value))))
    case _ => n
  }

  /** Every string and key is one the dumper writes as it is. */
  predicate AllSettled(n: Node) {
    match n
    case Str(s) => IsSettled(s)
    case List(items) => forall i :: 0 <= i < |items| ==> AllSettled(items[i])
    case Dict(fields) => forall i :: 0 <= i < |fields| ==> IsSettled(fields[i].key) && AllSettled(fields[i].value)
    case _ => true
  }

  /** A document is written as it is exactly when that is so. */
  lemma {:induction false} WrittenAsItIsExactly(n: Node)
    ensures DumpNode(n) == n <==> AllSettled(n)
  {
    match n
    case Str(s) => DumpedAsItIsExactly(s);
    case List(items) =>
      forall i | 0 <= i < |items| ensures DumpNode(items[i]) == items[i] <==> AllSettled(items[i]) {
        WrittenAsItIsExactly(items[i]);
      }
      assert (DumpNode(n) == n) ==> forall i :: 0 <= i < |items| ==> DumpNode(n).items[i] == n.items[i];
      assert (forall i :: 0 <= i < |items| ==> DumpNode(items[i]) == items[i]) ==> DumpNode(n).items == items;
    case Dict(fields) =>
      forall i | 0 <= i < |fields|
        ensures DumpNode(fields[i].value) == fields[i].value <==> AllSettled(fields[i].value)
        ensures Dump(fields[i].key) == fields[i].key <==> IsSettled(fields[i].key)
      {
        WrittenAsItIsExactly(fields[i].value);
        DumpedAsItIsExactly(fields[i].key);
      }
      assert (DumpNode(n) == n) ==> forall i :: 0 <= i < |fields| ==> DumpNode(n).fields[i] == n.fields[i];
      if AllSettled(n) {
        assert DumpNode(n).fields == fields;
      }
    case _ =>
  }

  /** A document that nothing is declared for, and that is not written as it is. */
  lemma VerbatimLosesANewline()
    ensures DumpNode(Str("\n" + OPEN)) != Str("\n" + OPEN)
  {
    var s := "\n" + OPEN;
    assert s[0] == '\n' && s[1..][..2] == OPEN;
    BlockBeginsWithNewline(s);
    WrittenAsItIsExactly(Str(s));
  }

  /** A rendered integer field, read back from the output as YAML would. */
  function ReadInt(s: string): Option<Node> {
    if s != "" && AllDigits(s) then Some(Int(DecimalValue(s))) else None
  }

  /** An integer field whose expression renders to a number's decimal form renders to that number. */
  lemma IntegerFieldIsItsNumber(e: string, n: nat, values: Values)
    requires Render(e, values) == Some(Decimal(n))
    ensures Renders(Bare(e), values) && Rendered(Bare(e), values) == Int(n)
  {
    DecimalRoundTrip(n);
  }

  predicate Renders(n: Node, values: Values) {
    match n
    case Str(s) => Render(s, values).Some?
    case Bare(e) => Render(e, values).Some? && ReadInt(Render(e, values).value).Some?
    case List(items) => forall i :: 0 <= i < |items| ==> Renders(items[i], values)
    case Dict(fields) =>
      forall i :: 0 <= i < |fields| ==> Render(fields[i].key, values).Some? && Renders(fields[i].value, values)
    case _ => true
  }

  /** What Helm renders the document to; keys are template text like everything else. */
  function Rendered(n: Node, values: Values): Node
    requires Renders(n, values)
  {
    match n
    case Str(s) => Str(Render(s, values).value)
    case Bare(e) => ReadInt(Render(e, values).value).value
    case List(items) => List(seq(|items|, i requires 0 <= i < |items| => Rendered(items[i], values)))
    case Dict(fields) =>
      Dict(seq(|fields|, i requires 0 <= i < |fields| =>
        Entry(Render(fields[i].key, values).value, Rendered(fields[i].value, values))))
    case _ => n
  }

  /** No `{{` anywhere: text that Helm passes through whatever the values. */
  predicate NoOpen(s: string) {
    s == "" || (!StartsWith(s, OPEN) && NoOpen(s[1..]))
  }

  predicate PlainKeys<T>(n: Tree<T>) {
    match n
    case List(items) => forall i :: 0 <= i < |items| ==> PlainKeys(items[i])
    case Dict(fields) => forall i :: 0 <= i < |fields| ==> NoOpen(fields[i].key) && PlainKeys(fields[i].value)
    case _ => true
  }

  /** Every string escapes cleanly and is written as it is, and no key needs escaping: `protect` skips keys. */
  predicate Escapable(n: Node) {
    match n
    case Str(s) => !OddRunCloses(s) && IsSettled(Protect(s))
    case Bare(_) => false
    case List(items) => forall i :: 0 <= i < |items| ==> Escapable(items[i])
    case Dict(fields) => forall i :: 0 <= i < |fields| ==> NoOpen(fields[i].key) && Escapable(fields[i].value)
    case _ => true
  }

  lemma {:induction false} PlainRendersItself(s: string, values: Values)
    requires NoOpen(s)
    ensures Render(s, values) == Some(s)
  {
    if s != "" {
      PlainRendersItself(s[1..], values);
      assert s == [s[0]] + s[1..];
    }
  }

  lemma {:induction false} OpenIsContained(s: string)
    ensures NoOpen(s) <==> !Contains(s, OPEN)
  {
    ContainsStep(s, OPEN);
    if s != "" {
      OpenIsContained(s[1..]);
    }
  }

  lemma PlainIsWrittenAsItIs(s: string)
    requires NoOpen(s)
    ensures Dump(s) == s
  {
    OpenIsContained(s);
  }

  /** With no values at all, rendering can only lose characters, and loses some at every `{{`. */
  lemma {:induction false} RenderingShrinks(s: string)
    ensures Render(s, map[]).Some? ==> |Render(s, map[]).value| <= |s|
    ensures Render(s, map[]).Some? && |Render(s, map[]).value| == |s| ==> NoOpen(s)
    decreases |s|
  {
    if s == "" {
    } else if StartsWith(s, OPEN) {
      if Leading(s, map[]).Some? {
        RenderingShrinks(Leading(s, map[]).value.1);
      }
    } else {
      RenderingShrinks(s[1..]);
    }
  }

  lemma {:induction false} EscapedRendersBack(n: Node, values: Values)
    requires Escapable(n)
    ensures Renders(DumpNode(ProtectNode(n)), values) && Rendered(DumpNode(ProtectNode(n)), values) == n
  {
    match n
    case Str(s) => WrittenRoundTrip(s, values);
    case List(items) =>
      forall i | 0 <= i < |items|
        ensures Renders(DumpNode(ProtectNode(items[i])), values)
        ensures Rendered(DumpNode(ProtectNode(items[i])), values) == items[i]
      {
        EscapedRendersBack(items[i], values);
      }
    case Dict(fields) =>
      forall i | 0 <= i < |fields|
        ensures Renders(DumpNode(ProtectNode(fields[i].value)), values)
        ensures Rendered(DumpNode(ProtectNode(fields[i].value)), values) == fields[i].value
        ensures Render(Dump(fields[i].key), values) == Some(fields[i].key)
      {
        EscapedRendersBack(fields[i].value, values);
        PlainIsWrittenAsItIs(fields[i].key);
        PlainRendersItself(fields[i].key, values);
      }
    case _ =>
  }

  /** A parsed document: no placeholder in it yet. */
  predicate Parsed<T>(n: Tree<T>) {
    match n
    case Bare(_) => false
    case List(items) => forall i :: 0 <= i < |items| ==> Parsed(items[i])
    case Dict(fields) => forall i :: 0 <= i < |fields| ==> Parsed(fields[i].value)
    case _ => true
  }

  /** Only a key without `{{` renders to itself when there are no values. */
  lemma KeyRendersItself(k: string)
    requires Render(Dump(k), map[]) == Some(k)
    ensures NoOpen(k)
  {
    RenderingShrinks(Dump(k));
    DumpedAsItIsExactly(k);
    SameLengthIsUnchanged(k);
  }

  lemma {:induction false} OnlyEscapableRendersBack(n: Node)
    requires Parsed(n)
    requires Renders(DumpNode(ProtectNode(n)), map[]) && Rendered(DumpNode(ProtectNode(n)), map[]) == n
    ensures Escapable(n)
  {
    var t := DumpNode(ProtectNode(n));
    match n
    case Str(s) => WrittenRoundTrip(s, map[]);
    case List(items) =>
      forall i | 0 <= i < |items| ensures Escapable(items[i]) {
        assert t.items[i] == DumpNode(ProtectNode(items[i]));
        assert Rendered(t, map[]).items[i] == Rendered(t.items[i], map[]);
        OnlyEscapableRendersBack(items[i]);
      }
    case Dict(fields) =>
      forall i | 0 <= i < |fields| ensures NoOpen(fields[i].key) && Escapable(fields[i].value) {
        var e := t.fields[i];
        assert e == Entry(Dump(fields[i].key), DumpNode(ProtectNode(fields[i].value)));
        assert Rendered(t, map[]).fields[i] == Entry(Render(e.key, map[]).value, Rendered(e.value, map[]));
        OnlyEscapableRendersBack(fields[i].value);
        KeyRendersItself(fields[i].key);
      }
    case _ =>
  }

  predicate RoundTrips(n: Node, values: Values) {
    Renders(DumpNode(ProtectNode(n)), values) && Rendered(DumpNode(ProtectNode(n)), values) == n
  }

  /**
  A document survives being escaped, written and rendered under every set of values exactly when each
  of its strings does and none of its keys carries a `{{`.
  */
  lemma DocumentRoundTrip(n: Node)
    requires Parsed(n)
    ensures Escapable(n) <==> forall values: Values :: RoundTrips(n, values)
  {
    if Escapable(n) {
      forall values: Values ensures RoundTrips(n, values) {
        EscapedRendersBack(n, values);
      }
    } else if RoundTrips(n, map[]) {
      OnlyEscapableRendersBack(n);
    }
  }

  /** A key is never escaped: one that holds `{{` does not come back. */
  lemma OpenKeyDoesNotComeBack(v: Node)
    requires Parsed(v)
    ensures !forall values: Values :: RoundTrips(Dict([Entry(OPEN, v)]), values)
  {
    var n := Dict([Entry(OPEN, v)]);
    assert !NoOpen(n.fields[0].key);
    DocumentRoundTrip(n);
  }

  // ----- Assigning declared paths -----

  datatype Step = Key(key: string) | Index(index: int)

  function Find<T>(fields: seq<Entry<T>>, k: string): (i: nat)
    ensures i <= |fields|
    ensures i < |fields| ==> fields[i].key == k
    ensures forall j :: 0 <= j < i ==> fields[j].key != k
  {
    if fields == [] || fields[0].key == k then 0 else 1 + Find(fields[1..], k)
  }

  /** Where a Python list index points; negative indices count from the end. */
  function Position(index: int, length: nat): int {
    if index < 0 then index + length else index
  }

  /** Replace the i-th field, or add one after the last. */
  function PutField<T>(n: Tree<T>, i: nat, e: Entry<T>): Tree<T>
    requires n.Dict? && i <= |n.fields|
  {
    Dict(if i < |n.fields| then n.fields[i := e] else n.fields + [e])
  }

  function PutItem<T>(n: Tree<T>, i: nat, v: Tree<T>): Tree<T>
    requires n.List? && i < |n.items|
  {
    List(n.items[i := v])
  }

  /**
  `assign`: follow the path and set its last step.  A missing key on the way, a list index out of
  range and a step into a scalar are errors; a missing last key is added.
  */
  function Assign<T>(n: Tree<T>, path: seq<Step>, v: Tree<T>): Option<Tree<T>>
    decreases |path|
  {
    if path == [] then None
    else if n.Dict? && path[0].Key? then
      var i := Find(n.fields, path[0].key);
      if |path| == 1 then
        Some(PutField(n, i, Entry(path[0].key, v)))
      else if i == |n.fields| then None
      else
        var inner := Assign(n.fields[i].value, path[1..], v);
        if inner.None? then None else Some(PutField(n, i, Entry(path[0].key, inner.value)))
    else if n.List? && path[0].Index? then
      var i := Position(path[0].index, |n.items|);
      if i < 0 || i >= |n.items| then None
      else if |path| == 1 then Some(PutItem(n, i, v))
      else
        var inner := Assign(n.items[i], path[1..], v);
        if inner.None? then None else Some(PutItem(n, i, inner.value))
    else None
  }

  /** What stands at a path, if anything. */
  function Lookup<T>(n: Tree<T>, path: seq<Step>): Option<Tree<T>>
    decreases |path|
  {
    if path == [] then Some(n)
    else if n.Dict? && path[0].Key? then
      var i := Find(n.fields, path[0].key);
      if i == |n.fields| then None else Lookup(n.fields[i].value, path[1..])
    else if n.List? && path[0].Index? then
      var i := Position(path[0].index, |n.items|);
      if i < 0 || i >= |n.items| then None else Lookup(n.items[i], path[1..])
    else None
  }

  /** A list index means the element at that place, and a negative one counts from the end; others are refused. */
  lemma IndexMeansItsPlace<T>(items: seq<Tree<T>>, k: int, v: Tree<T>)
    ensures 0 <= k < |items| ==>
      && Lookup(List(items), [Index(k)]) == Some(items[k])
      && Assign(List(items), [Index(k)], v) == Some(List(items[k := v]))
      && Lookup(List(items), [Index(k - |items|)]) == Some(items[k])
      && Assign(List(items), [Index(k - |items|)], v) == Some(List(items[k := v]))
    ensures k >= |items| || k < -|items| ==>
      Lookup(List(items), [Index(k)]).None? && Assign(List(items), [Index(k)], v).None?
  {
    assert [Index(k)][1..] == [] && [Index(k - |items|)][1..] == [];
    assert forall n: Tree<T> :: Lookup(n, []) == Some(n);
  }

  /** A key means the first field of that name; a missing one cannot be read, and is added at the end. */
  lemma KeyMeansItsField<T>(fields: seq<Entry<T>>, i: nat, k: string, v: Tree<T>)
    ensures i < |fields| && fields[i].key == k && (forall j :: 0 <= j < i ==> fields[j].key != k) ==>
      && Lookup(Dict(fields), [Key(k)]) == Some(fields[i].value)
      && Assign(Dict(fields), [Key(k)], v) == Some(Dict(fields[i := Entry(k, v)]))
    ensures (forall j :: 0 <= j < |fields| ==> fields[j].key != k) ==>
      && Lookup(Dict(fields), [Key(k)]).None?
      && Assign(Dict(fields), [Key(k)], v) == Some(Dict(fields + [Entry(k, v)]))
  {
    assert [Key(k)][1..] == [];
    assert forall n: Tree<T> :: Lookup(n, []) == Some(n);
    if i < |fields| && fields[i].key == k && (forall j :: 0 <= j < i ==> fields[j].key != k) {
      FindIs(fields, k, i);
    }
  }

  /** A path is followed step by step: the rest of it in what the first step leads to. */
  lemma StepByStep<T>(n: Tree<T>, step: Step, rest: seq<Step>, v: Tree<T>)
    requires rest != []
    ensures Lookup(n, [step] + rest) ==
      if Lookup(n, [step]).None? then None else Lookup(Lookup(n, [step]).value, rest)
    ensures Assign(n, [step] + rest, v) ==
      if Lookup(n, [step]).None? || Assign(Lookup(n, [step]).value, rest, v).None? then None
      else Assign(n, [step], Assign(Lookup(n, [step]).value, rest, v).value)
  {
    assert ([step] + rest)[1..] == rest && [step][1..] == [];
    assert forall m: Tree<T> :: Lookup(m, []) == Some(m);
  }

  lemma PutFieldThenFind<T>(n: Tree<T>, e: Entry<T>, k: string)
    requires n.Dict?
    ensures var fields := PutField(n, Find(n.fields, e.key), e).fields;
      && Find(fields, e.key) < |fields| && fields[Find(fields, e.key)] == e
      && (k != e.key ==>
            && (Find(fields, k) < |fields| <==> Find(n.fields, k) < |n.fields|)
            && (Find(n.fields, k) < |n.fields| ==> fields[Find(fields, k)] == n.fields[Find(n.fields, k)]))
  {
    var i := Find(n.fields, e.key);
    var fields := PutField(n, i, e).fields;
    FindIs(fields, e.key, i);
    if k != e.key && Find(n.fields, k) < |n.fields| {
      FindIs(fields, k, Find(n.fields, k));
    } else if k != e.key {
      assert forall j :: 0 <= j < |n.fields| ==> n.fields[j].key != k;
      assert forall j :: 0 <= j < |fields| ==> fields[j].key != k;
    }
  }

  lemma FindIs<T>(fields: seq<Entry<T>>, k: string, i: nat)
    requires i < |fields| && fields[i].key == k && forall j :: 0 <= j < i ==> fields[j].key != k
    ensures Find(fields, k) == i
  {
  }

  /** What was assigned is what stands at the path afterwards. */
  lemma {:induction false} AssignSetsThePath<T>(n: Tree<T>, path: seq<Step>, v: Tree<T>)
    requires Assign(n, path, v).Some?
    ensures Lookup(Assign(n, path, v).value, path) == Some(v)
    decreases |path|
  {
    if n.Dict? {
      var i := Find(n.fields, path[0].key);
      var inner := if |path| == 1 then v else Assign(n.fields[i].value, path[1..], v).value;
      PutFieldThenFind(n, Entry(path[0].key, inner), path[0].key);
      if |path| > 1 {
        AssignSetsThePath(n.fields[i].value, path[1..], v);
      }
    } else if |path| > 1 {
      AssignSetsThePath(n.items[Position(path[0].index, |n.items|)], path[1..], v);
    }
  }

  /** Two steps that never lead to the same place. */
  predicate StepsApart(a: Step, b: Step) {
    a != b && (a.Index? && b.Index? ==> a.index >= 0 && b.index >= 0)
  }

  /** The paths part somewhere: neither is an end of the other. */
  predicate Diverge(p: seq<Step>, q: seq<Step>) {
    p != [] && q != [] && (StepsApart(p[0], q[0]) || (p[0] == q[0] && Diverge(p[1..], q[1..])))
  }

  lemma {:induction false} DivergeIsSymmetric(p: seq<Step>, q: seq<Step>)
    requires Diverge(p, q)
    ensures Diverge(q, p)
  {
    if !StepsApart(p[0], q[0]) {
      DivergeIsSymmetric(p[1..], q[1..]);
    }
  }

  /** Nothing off the path changes. */
  lemma {:induction false} AssignKeepsTheRest<T>(n: Tree<T>, path: seq<Step>, v: Tree<T>, q: seq<Step>)
    requires Assign(n, path, v).Some? && Diverge(path, q)
    ensures Lookup(Assign(n, path, v).value, q) == Lookup(n, q)
    decreases |path|, 1
  {
    if n.Dict? && q[0].Key? {
      AssignKeepsOtherFields(n, path, v, q);
    } else if n.List? && path[0] == q[0] {
      AssignKeepsTheRest(n.items[Position(path[0].index, |n.items|)], path[1..], v, q[1..]);
    }
  }

  lemma {:induction false} AssignKeepsOtherFields<T>(n: Tree<T>, path: seq<Step>, v: Tree<T>, q: seq<Step>)
    requires Assign(n, path, v).Some? && Diverge(path, q) && n.Dict? && q[0].Key?
    ensures Lookup(Assign(n, path, v).value, q) == Lookup(n, q)
    decreases |path|, 0
  {
    var i := Find(n.fields, path[0].key);
    var inner := if |path| == 1 then v else Assign(n.fields[i].value, path[1..], v).value;
    PutFieldThenFind(n, Entry(path[0].key, inner), q[0].key);
    if path[0] == q[0] {
      AssignKeepsTheRest(n.fields[i].value, path[1..], v, q[1..]);
    }
  }

  /** The last step fits the container it is taken in; a key need not be there yet. */
  predicate Fits<T>(n: Tree<T>, last: Step) {
    || (n.Dict? && last.Key?)
    || (n.List? && last.Index? && 0 <= Position(last.index, |n.items|) < |n.items|)
  }

  /** Assigning succeeds exactly when everything up to the last step exists and that step fits. */
  lemma {:induction false} AssignSucceedsExactly<T>(n: Tree<T>, path: seq<Step>, v: Tree<T>)
    ensures Assign(n, path, v).Some? <==>
      && path != [] && Lookup(n, path[..|path| - 1]).Some?
      && Fits(Lookup(n, path[..|path| - 1]).value, path[|path| - 1])
    decreases |path|
  {
    if |path| > 1 {
      assert path[..|path| - 1][1..] == path[1..][..|path| - 2];
      assert path[1..][|path| - 2] == path[|path| - 1];
      if n.Dict? && path[0].Key? && Find(n.fields, path[0].key) < |n.fields| {
        AssignSucceedsExactly(n.fields[Find(n.fields, path[0].key)].value, path[1..], v);
      } else if n.List? && path[0].Index? && 0 <= Position(path[0].index, |n.items|) < |n.items| {
        AssignSucceedsExactly(n.items[Position(path[0].index, |n.items|)], path[1..], v);
      }
    }
  }

  lemma {:induction false} FindSameKeys<T, U>(a: seq<Entry<T>>, b: seq<Entry<U>>, k: string)
    requires |a| == |b| && forall i :: 0 <= i < |a| ==> a[i].key == b[i].key
    ensures Find(a, k) == Find(b, k)
  {
    if a != [] && a[0].key != k {
      FindSameKeys(a[1..], b[1..], k);
    }
  }

  /** Setting something below a place is setting it in what stands there. */
  lemma {:induction false} AssignBelow<T>(n: Tree<T>, p: seq<Step>, q: seq<Step>, v: Tree<T>)
    requires q != [] && Assign(n, p + q, v).Some?
    ensures Lookup(n, p).Some? && Assign(Lookup(n, p).value, q, v).Some?
    ensures Lookup(Assign(n, p + q, v).value, p) == Assign(Lookup(n, p).value, q, v)
    decreases |p|
  {
    if p == [] {
      assert p + q == q;
    } else {
      assert (p + q)[0] == p[0] && (p + q)[1..] == p[1..] + q;
      if n.Dict? {
        var i := Find(n.fields, p[0].key);
        AssignBelow(n.fields[i].value, p[1..], q, v);
        PutFieldThenFind(n, Entry(p[0].key, Assign(n.fields[i].value, p[1..] + q, v).value), p[0].key);
      } else {
        AssignBelow(n.items[Position(p[0].index, |n.items|)], p[1..], q, v);
      }
    }
  }

  /** One `value:` entry: whatever YAML it holds, all of it live; `type: int` makes it a bare expression. */
  datatype Field = Field(path: seq<Step>, value: Node)
}
