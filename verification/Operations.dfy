/**
What one entry of `fields:` does to a document (scripts/package/templated-fields.py): set a path,
replace a literal in one string, or replace it everywhere but in what identifies the object -- and
what that makes of the identity itself.
*/
module Operations {
  import opened Options
  import opened Text
  import opened Escaping
  import opened Marking
  import opened Templating

  /** One entry of `fields:`. */
  datatype Operation =
    | Assigns(field: Field)
    | Substitutes(path: seq<Step>, from: string, with: string)
    | SubstitutesAll(from: string, with: string)

  // ----- substitute_all: every string except what identifies the object -----

  /** Keys that name a type or an instance, wherever they occur. */
  predicate Exempt(k: string, inMetadata: bool) {
    if inMetadata then k == "name" else k == "apiVersion" || k == "kind"
  }

  predicate IsMetadata<T>(e: Entry<T>) {
    e.key == "metadata" && e.value.Dict?
  }

  /** A change to every string the operation reaches. */
  function ChangeAll<T>(n: Tree<T>, inMetadata: bool, f: T -> T): Tree<T> {
    match n
    case Str(s) => Str(f(s))
    case List(items) => List(seq(|items|, i requires 0 <= i < |items| => ChangeAll(items[i], false, f)))
    case Dict(fields) =>
      Dict(seq(|fields|, i requires 0 <= i < |fields| =>
        Entry(fields[i].key,
              if Exempt(fields[i].key, inMetadata) then fields[i].value
              else ChangeAll(fields[i].value, IsMetadata(fields[i]), f))))
    case _ => n
  }

  predicate AnyReached<T>(n: Tree<T>, inMetadata: bool, p: T -> bool) {
    match n
    case Str(s) => p(s)
    case List(items) => exists i :: 0 <= i < |items| && AnyReached(items[i], false, p)
    case Dict(fields) =>
      exists i :: 0 <= i < |fields| && !Exempt(fields[i].key, inMetadata)
        && AnyReached(fields[i].value, IsMetadata(fields[i]), p)
    case _ => false
  }

  // ----- What it reaches, path by path -----

  /**
  A path leads to what identifies an object's type, or the object itself: `apiVersion` or `kind` of any
  mapping that is no metadata, or the `name` of one that is.
  */
  predicate Spares(path: seq<Step>, inMetadata: bool) {
    path != [] &&
    (|| (if inMetadata then path[0] == Key("name") else path[0] == Key("apiVersion") || path[0] == Key("kind"))
     || Spares(path[1..], path[0] == Key("metadata")))
  }

  predicate IsLeaf<T>(n: Tree<T>) {
    !n.List? && !n.Dict?
  }

  function ChangedLeaf<T>(n: Tree<T>, spared: bool, f: T -> T): Tree<T> {
    if n.Str? && !spared then Str(f(n.text)) else n
  }

  lemma ChangedField<T>(fields: seq<Entry<T>>, inMetadata: bool, f: T -> T, k: string)
    ensures Find(ChangeAll(Dict(fields), inMetadata, f).fields, k) == Find(fields, k)
    ensures Find(fields, k) < |fields| ==>
      var e := fields[Find(fields, k)];
      ChangeAll(Dict(fields), inMetadata, f).fields[Find(fields, k)] ==
        Entry(k, if Exempt(k, inMetadata) then e.value else ChangeAll(e.value, IsMetadata(e), f))
  {
    FindSameKeys(fields, ChangeAll(Dict(fields), inMetadata, f).fields, k);
  }

  /** Below a leaf there is nothing; elsewhere the kind of mapping does not matter to a list or a leaf. */
  lemma SparedBelow<T>(n: Tree<T>, path: seq<Step>, inMetadata: bool)
    requires !n.Dict? && Lookup(n, path).Some?
    ensures Spares(path, inMetadata) <==> Spares(path, false)
  {
  }

  /** Every string is changed at every path, except where the path leads to what identifies an object. */
  lemma {:induction false} ChangedAtPath<T>(n: Tree<T>, inMetadata: bool, f: T -> T, path: seq<Step>)
    requires Lookup(n, path).Some? && IsLeaf(Lookup(n, path).value)
    ensures Lookup(ChangeAll(n, inMetadata, f), path) ==
      Some(ChangedLeaf(Lookup(n, path).value, Spares(path, inMetadata), f))
    decreases |path|
  {
    if path != [] && n.Dict? {
      var k := path[0].key;
      ChangedField(n.fields, inMetadata, f, k);
      var e := n.fields[Find(n.fields, k)];
      if Exempt(k, inMetadata) {
        assert Spares(path, inMetadata);
      } else {
        ChangedAtPath(e.value, IsMetadata(e), f, path[1..]);
        if !e.value.Dict? {
          SparedBelow(e.value, path[1..], path[0] == Key("metadata"));
        }
      }
    } else if path != [] {
      ChangedAtPath(n.items[Position(path[0].index, |n.items|)], false, f, path[1..]);
    }
  }

  /** What a path leads to a string that holds p, and is not spared. */
  predicate FindsAt<T>(n: Tree<T>, inMetadata: bool, p: T -> bool, path: seq<Step>) {
    var at := Lookup(n, path);
    at.Some? && at.value.Str? && p(at.value.text) && !Spares(path, inMetadata)
  }

  lemma {:induction false} FoundIsReached<T>(n: Tree<T>, inMetadata: bool, p: T -> bool, path: seq<Step>)
    requires FindsAt(n, inMetadata, p, path)
    ensures AnyReached(n, inMetadata, p)
    decreases |path|
  {
    if path != [] && n.Dict? {
      var i := Find(n.fields, path[0].key);
      var e := n.fields[i];
      if !e.value.Dict? {
        SparedBelow(e.value, path[1..], path[0] == Key("metadata"));
      }
      FoundIsReached(e.value, IsMetadata(e), p, path[1..]);
    } else if path != [] {
      FoundIsReached(n.items[Position(path[0].index, |n.items|)], false, p, path[1..]);
    }
  }

  /** As in any parsed document, no mapping has a key twice. */
  predicate UniqueKeys<T>(n: Tree<T>) {
    match n
    case List(items) => forall i :: 0 <= i < |items| ==> UniqueKeys(items[i])
    case Dict(fields) =>
      && (forall i, j :: 0 <= i < j < |fields| ==> fields[i].key != fields[j].key)
      && (forall i :: 0 <= i < |fields| ==> UniqueKeys(fields[i].value))
    case _ => true
  }

  lemma {:induction false} ReachedIsFound<T>(n: Tree<T>, inMetadata: bool, p: T -> bool) returns (path: seq<Step>)
    requires UniqueKeys(n) && AnyReached(n, inMetadata, p)
    ensures FindsAt(n, inMetadata, p, path)
  {
    match n
    case Str(_) => path := [];
    case List(items) =>
      var i :| 0 <= i < |items| && AnyReached(items[i], false, p);
      var rest := ReachedIsFound(items[i], false, p);
      path := [Index(i)] + rest;
      assert path[1..] == rest;
    case Dict(fields) =>
      var i :| 0 <= i < |fields| && !Exempt(fields[i].key, inMetadata)
        && AnyReached(fields[i].value, IsMetadata(fields[i]), p);
      var rest := ReachedIsFound(fields[i].value, IsMetadata(fields[i]), p);
      path := [Key(fields[i].key)] + rest;
      assert path[1..] == rest;
      FindIs(fields, fields[i].key, i);
      if !fields[i].value.Dict? {
        SparedBelow(fields[i].value, rest, path[0] == Key("metadata"));
      }
  }

  // ----- Applying a declaration -----

  function Replacing(from: string, with: string): string -> string {
    (s: string) => Replace(s, from, with)
  }

  function Holding(from: string): string -> bool {
    (s: string) => Contains(s, from)
  }

  /** None: the declaration names content the document does not have. */
  function Apply(n: Node, op: Operation): Option<Node> {
    match op
    case Assigns(f) => Assign(n, f.path, f.value)
    case Substitutes(path, from, with) =>
      var at := Lookup(n, path);
      if path == [] || at.None? || !at.value.Str? || !Contains(at.value.text, from) then None
      else Assign(n, path, Str(Replacing(from, with)(at.value.text)))
    case SubstitutesAll(from, with) =>
      if n.Str? || !AnyReached(n, false, Holding(from)) then None
      else Some(ChangeAll(n, false, Replacing(from, with)))
  }

  /** A `replace` is refused unless its path leads to a string that holds the literal; it edits that string only. */
  lemma SubstituteExactly(n: Node, path: seq<Step>, from: string, with: string, q: seq<Step>)
    ensures var r := Apply(n, Substitutes(path, from, with));
      && (r.Some? <==>
            && path != [] && Lookup(n, path).Some? && Lookup(n, path).value.Str?
            && Contains(Lookup(n, path).value.text, from))
      && (r.Some? ==> Lookup(r.value, path) == Some(Str(Replace(Lookup(n, path).value.text, from, with))))
      && (r.Some? && Diverge(path, q) ==> Lookup(r.value, q) == Lookup(n, q))
  {
    var at := Lookup(n, path);
    if path != [] && at.Some? && at.value.Str? && Contains(at.value.text, from) {
      var v := Str(Replace(at.value.text, from, with));
      FoundCanBeSet(n, path, v);
      AssignSetsThePath(n, path, v);
      if Diverge(path, q) {
        AssignKeepsTheRest(n, path, v, q);
      }
    }
  }

  /** What can be read can be set. */
  lemma {:induction false} FoundCanBeSet<T>(n: Tree<T>, path: seq<Step>, v: Tree<T>)
    requires path != [] && Lookup(n, path).Some?
    ensures Assign(n, path, v).Some?
    decreases |path|
  {
    if |path| > 1 && n.Dict? {
      FoundCanBeSet(n.fields[Find(n.fields, path[0].key)].value, path[1..], v);
    } else if |path| > 1 {
      FoundCanBeSet(n.items[Position(path[0].index, |n.items|)], path[1..], v);
    }
  }

  /** A `replaceAll` is refused unless some string it reaches holds the literal; it edits every such string. */
  lemma SubstituteAllExactly(n: Node, from: string, with: string, q: seq<Step>)
    requires UniqueKeys(n)
    ensures var r := Apply(n, SubstitutesAll(from, with));
      && (r.Some? <==> !n.Str? && exists path :: FindsAt(n, false, Holding(from), path))
      && (r.Some? && Lookup(n, q).Some? && IsLeaf(Lookup(n, q).value) ==>
            Lookup(r.value, q) == Some(ChangedLeaf(Lookup(n, q).value, Spares(q, false), Replacing(from, with))))
  {
    if AnyReached(n, false, Holding(from)) {
      var path := ReachedIsFound(n, false, Holding(from));
    }
    if path :| FindsAt(n, false, Holding(from), path) {
      FoundIsReached(n, false, Holding(from), path);
    }
    if Lookup(n, q).Some? && IsLeaf(Lookup(n, q).value) {
      ChangedAtPath(n, false, Replacing(from, with), q);
    }
  }

  function ApplyAll(n: Node, ops: seq<Operation>): Option<Node>
    decreases |ops|
  {
    if ops == [] then Some(n)
    else
      var before := ApplyAll(n, ops[..|ops| - 1]);
      if before.None? then None else Apply(before.value, ops[|ops| - 1])
  }

  lemma {:induction false} ApplyAllAppend(n: Node, a: seq<Operation>, b: seq<Operation>)
    ensures ApplyAll(n, a + b) ==
      if ApplyAll(n, a).None? then None else ApplyAll(ApplyAll(n, a).value, b)
    decreases |b|
  {
    if b == [] {
      assert a + b == a;
    } else {
      assert (a + b)[..|a + b| - 1] == a + b[..|b| - 1];
      ApplyAllAppend(n, a, b[..|b| - 1]);
    }
  }

  // ----- What identifies an object -----

  type Identity = (Option<Node>, Option<Node>)

  function Get<T>(n: Tree<T>, k: string): Option<Tree<T>> {
    if n.Dict? && Find(n.fields, k) < |n.fields| then Some(n.fields[Find(n.fields, k)].value) else None
  }

  /** (kind, metadata.name) */
  function Identify(n: Node): Identity {
    (Get(n, "kind"), if Get(n, "metadata").Some? then Get(Get(n, "metadata").value, "name") else None)
  }

  const KIND := [Key("kind")]
  const METADATA := [Key("metadata")]
  const NAME := [Key("metadata"), Key("name")]

  lemma LookupOne(n: Node, k: string)
    ensures Lookup(n, [Key(k)]) == Get(n, k)
  {
    assert [Key(k)][1..] == [];
    assert forall m: Node :: Lookup(m, []) == Some(m);
  }

  lemma IdentityByPath(n: Node)
    ensures Identify(n) == (Lookup(n, KIND), Lookup(n, NAME))
    ensures Lookup(n, METADATA) == Get(n, "metadata")
  {
    LookupOne(n, "kind");
    LookupOne(n, "metadata");
    assert NAME[1..] == [Key("name")];
    if Get(n, "metadata").Some? {
      LookupOne(Get(n, "metadata").value, "name");
    }
  }

  predicate IsKindPath(path: seq<Step>) {
    path != [] && path[0] == Key("kind")
  }

  predicate IsNamePath(path: seq<Step>) {
    |path| >= 2 && path[0] == Key("metadata") && path[1] == Key("name")
  }

  function SetBelow(at: Option<Node>, rest: seq<Step>, v: Node): Option<Node> {
    if rest == [] then Some(v) else if at.None? then None else Assign(at.value, rest, v)
  }

  /** What an identity becomes when something is set at a path: on it, inside it, or in place of the metadata. */
  function SetIdentity(id: Identity, path: seq<Step>, v: Node): Identity {
    if IsKindPath(path) then (SetBelow(id.0, path[1..], v), id.1)
    else if IsNamePath(path) then (id.0, SetBelow(id.1, path[2..], v))
    else if path == METADATA then (id.0, Get(v, "name"))
    else id
  }

  /** The string a path leads to within an identity. */
  function TextAt(id: Identity, path: seq<Step>): Option<string> {
    var at :=
      if IsKindPath(path) && id.0.Some? then Lookup(id.0.value, path[1..])
      else if IsNamePath(path) && id.1.Some? then Lookup(id.1.value, path[2..])
      else None;
    if at.Some? && at.value.Str? then Some(at.value.text) else None
  }

  /** What an identity becomes under one operation, whatever document carries it. */
  function IdentityAfter(id: Identity, op: Operation): Identity {
    match op
    case Assigns(f) => SetIdentity(id, f.path, f.value)
    case Substitutes(path, from, with) =>
      if TextAt(id, path).Some? then SetIdentity(id, path, Str(Replace(TextAt(id, path).value, from, with))) else id
    case SubstitutesAll(_, _) => id
  }

  function FinalIdentity(id: Identity, ops: seq<Operation>): Identity {
    if ops == [] then id else IdentityAfter(FinalIdentity(id, ops[..|ops| - 1]), ops[|ops| - 1])
  }

  /** A path either bears on the identity or parts from both the kind and the name. */
  lemma OtherPathsDiverge(path: seq<Step>)
    requires path != [] && !IsKindPath(path) && !IsNamePath(path) && path != METADATA
    ensures Diverge(path, KIND) && Diverge(path, NAME)
  {
    assert NAME[1..] == [Key("name")];
    assert path == [path[0]] + path[1..];
    if path[0] == Key("metadata") {
      assert path[1..] != [];
    }
  }

  lemma KindPathsPart(path: seq<Step>)
    requires path != []
    ensures IsKindPath(path) ==> Diverge(path, NAME)
    ensures path[0] == Key("metadata") ==> Diverge(path, KIND)
  {
  }

  lemma SetNothing(n: Node, path: seq<Step>, v: Node)
    requires Assign(n, path, v).Some? && Diverge(path, KIND) && Diverge(path, NAME)
    ensures Identify(Assign(n, path, v).value) == Identify(n)
  {
    AssignKeepsTheRest(n, path, v, KIND);
    AssignKeepsTheRest(n, path, v, NAME);
    IdentityByPath(n);
    IdentityByPath(Assign(n, path, v).value);
  }

  lemma LookupAfter(n: Node, p: seq<Step>, rest: seq<Step>, v: Node)
    requires Assign(n, p + rest, v).Some?
    ensures Lookup(Assign(n, p + rest, v).value, p) == SetBelow(Lookup(n, p), rest, v)
  {
    if rest == [] {
      assert p + rest == p;
      AssignSetsThePath(n, p, v);
    } else {
      AssignBelow(n, p, rest, v);
    }
  }

  lemma SetInKind(n: Node, path: seq<Step>, v: Node)
    requires IsKindPath(path) && Assign(n, path, v).Some?
    ensures Identify(Assign(n, path, v).value) == SetIdentity(Identify(n), path, v)
  {
    assert path == KIND + path[1..];
    LookupAfter(n, KIND, path[1..], v);
    KindPathsPart(path);
    AssignKeepsTheRest(n, path, v, NAME);
    IdentityByPath(n);
    IdentityByPath(Assign(n, path, v).value);
  }

  lemma SetInName(n: Node, path: seq<Step>, v: Node)
    requires IsNamePath(path) && Assign(n, path, v).Some?
    ensures Identify(Assign(n, path, v).value) == SetIdentity(Identify(n), path, v)
  {
    assert path == NAME + path[2..];
    LookupAfter(n, NAME, path[2..], v);
    KindPathsPart(path);
    AssignKeepsTheRest(n, path, v, KIND);
    IdentityByPath(n);
    IdentityByPath(Assign(n, path, v).value);
  }

  lemma SetMetadata(n: Node, v: Node)
    requires Assign(n, METADATA, v).Some?
    ensures Identify(Assign(n, METADATA, v).value) == (Identify(n).0, Get(v, "name"))
  {
    KindPathsPart(METADATA);
    AssignSetsThePath(n, METADATA, v);
    AssignKeepsTheRest(n, METADATA, v, KIND);
    IdentityByPath(n);
    IdentityByPath(Assign(n, METADATA, v).value);
  }

  /** Setting anything at any path changes the identity exactly as `SetIdentity` says. */
  lemma AssignIdentity(n: Node, path: seq<Step>, v: Node)
    requires Assign(n, path, v).Some?
    ensures Identify(Assign(n, path, v).value) == SetIdentity(Identify(n), path, v)
  {
    if IsKindPath(path) {
      SetInKind(n, path, v);
    } else if IsNamePath(path) {
      SetInName(n, path, v);
    } else if path == METADATA {
      SetMetadata(n, v);
    } else {
      OtherPathsDiverge(path);
      SetNothing(n, path, v);
    }
  }

  lemma {:induction false} LookupConcat<T>(n: Tree<T>, p: seq<Step>, q: seq<Step>)
    ensures Lookup(n, p + q) == if Lookup(n, p).None? then None else Lookup(Lookup(n, p).value, q)
    decreases |p|
  {
    if p == [] {
      assert p + q == q;
    } else {
      assert (p + q)[0] == p[0] && (p + q)[1..] == p[1..] + q;
      if n.Dict? && p[0].Key? && Find(n.fields, p[0].key) < |n.fields| {
        LookupConcat(n.fields[Find(n.fields, p[0].key)].value, p[1..], q);
      } else if n.List? && p[0].Index? && 0 <= Position(p[0].index, |n.items|) < |n.items| {
        LookupConcat(n.items[Position(p[0].index, |n.items|)], p[1..], q);
      }
    }
  }

  lemma ExemptKeyIsKept<T>(n: Tree<T>, inMetadata: bool, k: string, f: T -> T)
    requires n.Dict? && Exempt(k, inMetadata)
    ensures Get(ChangeAll(n, inMetadata, f), k) == Get(n, k)
  {
    FindSameKeys(n.fields, ChangeAll(n, inMetadata, f).fields, k);
  }

  lemma ChangedMetadata(n: Node, f: string -> string)
    requires n.Dict? && Get(n, "metadata").Some?
    ensures var m := Get(n, "metadata").value;
      Get(ChangeAll(n, false, f), "metadata") == Some(ChangeAll(m, m.Dict?, f))
  {
    FindSameKeys(n.fields, ChangeAll(n, false, f).fields, "metadata");
    var i := Find(n.fields, "metadata");
    assert n.fields[i].key == "metadata" && !Exempt("metadata", false);
  }

  lemma ChangedName(m: Node, f: string -> string)
    ensures Get(ChangeAll(m, m.Dict?, f), "name") == Get(m, "name")
  {
    if m.Dict? {
      ExemptKeyIsKept(m, true, "name", f);
    }
  }

  lemma AbsentMetadata(n: Node, f: string -> string)
    requires Get(n, "metadata").None?
    ensures Get(ChangeAll(n, false, f), "metadata").None?
  {
    if n.Dict? {
      FindSameKeys(n.fields, ChangeAll(n, false, f).fields, "metadata");
    }
  }

  /** Replacing a literal throughout an object never renames it and never changes its type. */
  lemma ChangeAllKeepsIdentity(n: Node, f: string -> string)
    ensures Identify(ChangeAll(n, false, f)) == Identify(n)
    ensures Get(ChangeAll(n, false, f), "apiVersion") == Get(n, "apiVersion")
  {
    if n.Dict? {
      ExemptKeyIsKept(n, false, "kind", f);
      ExemptKeyIsKept(n, false, "apiVersion", f);
    }
    if Get(n, "metadata").Some? {
      ChangedMetadata(n, f);
      ChangedName(Get(n, "metadata").value, f);
    } else {
      AbsentMetadata(n, f);
    }
  }

  lemma TextOfIdentity(n: Node, path: seq<Step>, text: string)
    requires Lookup(n, path) == Some(Str(text))
    ensures IsKindPath(path) || IsNamePath(path) ==> TextAt(Identify(n), path) == Some(text)
    ensures path == METADATA ==> Identify(n).1 == None
  {
    IdentityByPath(n);
    if IsKindPath(path) {
      assert path == KIND + path[1..];
      LookupConcat(n, KIND, path[1..]);
    } else if IsNamePath(path) {
      assert path == NAME + path[2..];
      LookupConcat(n, NAME, path[2..]);
    }
  }

  /** What an operation makes of a document's identity can be told from the identity alone. */
  lemma ApplyIdentity(n: Node, op: Operation)
    requires Apply(n, op).Some?
    ensures Identify(Apply(n, op).value) == IdentityAfter(Identify(n), op)
  {
    match op
    case Assigns(f) => AssignIdentity(n, f.path, f.value);
    case Substitutes(path, from, with) =>
      var text := Lookup(n, path).value.text;
      TextOfIdentity(n, path, text);
      AssignIdentity(n, path, Str(Replace(text, from, with)));
    case SubstitutesAll(from, with) => ChangeAllKeepsIdentity(n, Replacing(from, with));
  }

  lemma {:induction false} ApplyAllIdentity(n: Node, ops: seq<Operation>)
    requires ApplyAll(n, ops).Some?
    ensures Identify(ApplyAll(n, ops).value) == FinalIdentity(Identify(n), ops)
    decreases |ops|
  {
    if ops != [] {
      var front := ops[..|ops| - 1];
      ApplyAllIdentity(n, front);
      ApplyIdentity(ApplyAll(n, front).value, ops[|ops| - 1]);
    }
  }

  predicate BearsOnIdentity(path: seq<Step>) {
    IsKindPath(path) || IsNamePath(path) || path == METADATA
  }

  /** An operation that neither sets nor edits the kind, the metadata or the name. */
  predicate IsSteady(op: Operation) {
    match op
    case Assigns(f) => !BearsOnIdentity(f.path)
    case Substitutes(path, _, _) => !BearsOnIdentity(path)
    case SubstitutesAll(_, _) => true
  }

  lemma {:induction false} SteadyKeepsIdentity(id: Identity, ops: seq<Operation>)
    requires forall k :: 0 <= k < |ops| ==> IsSteady(ops[k])
    ensures FinalIdentity(id, ops) == id
  {
    if ops != [] {
      SteadyKeepsIdentity(id, ops[..|ops| - 1]);
    }
  }
}
