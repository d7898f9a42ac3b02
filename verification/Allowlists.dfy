/**
The allowlist of evidence collectors: what a document must satisfy to be accepted, and the tenant's
subtraction from it.
*/
module Allowlists {
  import opened Text
  import opened Sorting

  /** `kind` is free text, as it arrives. */
  datatype Source = Source(kind: string, ns: string, service: string, port: int, query: string, path: string)

  datatype Collector = Collector(name: string, source: Source, schema: seq<string>, emit: seq<string>)

  type Allowlist = seq<Collector>

  const METRICS := "metrics"
  const ARTEFACT := "artefact"

  // ----- What a reviewed document must satisfy -----

  predicate WellFormed(c: Collector) {
    && c.name != ""
    && (c.source.kind == METRICS || c.source.kind == ARTEFACT)
    && c.schema != []
    && (forall f :: f in c.emit ==> f in c.schema)
    && (c.source.kind == METRICS ==> c.source.port > 0 && c.source.query != "")
  }

  predicate Distinct(a: Allowlist) {
    forall i, j :: 0 <= i < j < |a| ==> a[i].name != a[j].name
  }

  predicate Reviewed(a: Allowlist) {
    Distinct(a) && forall i :: 0 <= i < |a| ==> WellFormed(a[i])
  }

  datatype Fault =
    | NoCollectors
    | NoName(at: nat)
    | DeclaredTwice(at: nat)
    | UnknownKind(at: nat)
    | NoSchema(at: nat)
    | OutsideSchema(at: nat, field: string)
    | NoPort(at: nat)
    | NoQuery(at: nat)

  /** What the reported fault claims about the document, and that nothing before it was wrong. */
  predicate Faulty(a: Allowlist, f: Fault) {
    if f.NoCollectors? then a == []
    else
      && f.at < |a| && Reviewed(a[..f.at])
      && var c := a[f.at];
         match f
         case NoName(_) => c.name == ""
         case DeclaredTwice(_) => exists i :: 0 <= i < f.at && a[i].name == c.name
         case UnknownKind(_) => c.source.kind != METRICS && c.source.kind != ARTEFACT
         case NoSchema(_) => c.schema == []
         case OutsideSchema(_, x) => x in c.emit && x !in c.schema
         case NoPort(_) => c.source.kind == METRICS && c.source.port <= 0
         case NoQuery(_) => c.source.kind == METRICS && c.source.query == ""
  }

  datatype Parsed = Accepted(list: Allowlist) | Refused(fault: Fault)

  /** The first emitted field outside the schema, by position; the length when there is none. */
  method FirstOutside(c: Collector) returns (k: nat)
    ensures k <= |c.emit|
    ensures forall i :: 0 <= i < k ==> c.emit[i] in c.schema
    ensures k < |c.emit| ==> c.emit[k] !in c.schema
  {
    var inSchema: set<string> := {};
    for i := 0 to |c.schema|
      invariant forall f :: f in inSchema <==> f in c.schema[..i]
    {
      inSchema := inSchema + {c.schema[i]};
      assert c.schema[..i + 1] == c.schema[..i] + [c.schema[i]];
    }
    assert c.schema[..|c.schema|] == c.schema;
    k := 0;
    while k < |c.emit| && c.emit[k] in inSchema
      invariant k <= |c.emit|
      invariant forall i :: 0 <= i < k ==> c.emit[i] in c.schema
    {
      k := k + 1;
    }
  }

  lemma ReviewedSnoc(a: Allowlist, i: nat)
    requires i < |a| && Reviewed(a[..i]) && WellFormed(a[i])
    requires forall j :: 0 <= j < i ==> a[j].name != a[i].name
    ensures Reviewed(a[..i + 1])
  {
    var b := a[..i + 1];
    forall j | 0 <= j < |b| ensures WellFormed(b[j]) {
      if j < i {
        assert b[j] == a[..i][j];
      }
    }
    forall j, k | 0 <= j < k < |b| ensures b[j].name != b[k].name {
      if k < i {
        assert b[j] == a[..i][j] && b[k] == a[..i][k];
      }
    }
  }

  lemma FaultyIsNotReviewed(a: Allowlist, f: Fault)
    requires Faulty(a, f)
    ensures a == [] || !Reviewed(a)
  {
    if a != [] {
      assert WellFormed(a[f.at]) ==> f.DeclaredTwice?;
    }
  }

  /** A document is accepted, unchanged, exactly when it is non-empty and every clause holds of it; a
      refusal names the first collector at fault and something true of it. */
  method Parse(raw: Allowlist) returns (r: Parsed)
    ensures r.Accepted? <==> raw != [] && Reviewed(raw)
    ensures r.Accepted? ==> r.list == raw
    ensures r.Refused? ==> Faulty(raw, r.fault)
  {
    if |raw| == 0 {
      return Refused(NoCollectors);
    }
    var seen: set<string> := {};
    for i := 0 to |raw|
      invariant Reviewed(raw[..i])
      invariant forall j :: 0 <= j < i ==> raw[j].name in seen
      invariant forall n :: n in seen ==> exists j :: 0 <= j < i && raw[j].name == n
    {
      var fault := CheckOne(raw, i, seen);
      if fault.Refused? {
        FaultyIsNotReviewed(raw, fault.fault);
        return fault;
      }
      ReviewedSnoc(raw, i);
      seen := seen + {raw[i].name};
    }
    assert raw[..|raw|] == raw;
    return Accepted(raw);
  }

  /** The clauses for one collector, in the order they are tried. */
  method CheckOne(raw: Allowlist, i: nat, seen: set<string>) returns (r: Parsed)
    requires i < |raw| && Reviewed(raw[..i])
    requires forall n :: n in seen <==> exists j :: 0 <= j < i && raw[j].name == n
    ensures r.Accepted? <==> WellFormed(raw[i]) && raw[i].name !in seen
    ensures r.Refused? ==> Faulty(raw, r.fault) && !r.fault.NoCollectors?
  {
    var c := raw[i];
    if c.name == "" {
      return Refused(NoName(i));
    } else if c.name in seen {
      return Refused(DeclaredTwice(i));
    } else if c.source.kind != METRICS && c.source.kind != ARTEFACT {
      return Refused(UnknownKind(i));
    } else if c.schema == [] {
      return Refused(NoSchema(i));
    }
    var k := FirstOutside(c);
    if k < |c.emit| {
      return Refused(OutsideSchema(i, c.emit[k]));
    }
    if c.source.kind == METRICS && c.source.port <= 0 {
      return Refused(NoPort(i));
    }
    if c.source.kind == METRICS && c.source.query == "" {
      return Refused(NoQuery(i));
    }
    return Accepted(raw);
  }

  // ----- The tenant's subtraction -----

  function Trim(s: string): string {
    if s != "" && IsGoSpace(s[0]) then Trim(s[1..])
    else if s != "" && IsGoSpace(s[|s| - 1]) then Trim(s[..|s| - 1])
    else s
  }

  predicate AllSpace(s: string) {
    forall i :: 0 <= i < |s| ==> IsGoSpace(s[i])
  }

  /** No space at either end. */
  predicate IsTrimmed(s: string) {
    s != "" ==> !IsGoSpace(s[0]) && !IsGoSpace(s[|s| - 1])
  }

  /** An entry is taken without the space around it. */
  lemma {:induction false} TrimExactly(pre: string, core: string, post: string)
    requires AllSpace(pre) && AllSpace(post) && IsTrimmed(core)
    ensures Trim(pre + core + post) == core
    decreases |pre| + |post|
  {
    var s := pre + core + post;
    if pre != "" {
      assert s[0] == pre[0] && s[1..] == pre[1..] + core + post;
      TrimExactly(pre[1..], core, post);
    } else if post != "" {
      TrimExactly(pre, core, post[..|post| - 1]);
      assert s[|s| - 1] == post[|post| - 1] && s[..|s| - 1] == pre + core + post[..|post| - 1];
      if core == "" {
        assert s == post && s[1..] == post[1..];
        TrimExactly("", "", post[1..]);
        assert "" + "" + post[1..] == post[1..];
      }
    } else {
      assert s == core;
    }
  }

  lemma {:induction false} TrimmedHasNoSpaceAround(s: string)
    ensures IsTrimmed(Trim(s))
    decreases |s|
  {
    if s != "" && IsGoSpace(s[0]) {
      TrimmedHasNoSpaceAround(s[1..]);
    } else if s != "" && IsGoSpace(s[|s| - 1]) {
      TrimmedHasNoSpaceAround(s[..|s| - 1]);
    }
  }

  /** So a denied name counts however it is spaced. */
  lemma SpacedEntryDenies(deny: seq<string>, pre: string, name: string, post: string)
    requires pre + name + post in deny && AllSpace(pre) && AllSpace(post) && IsTrimmed(name)
    ensures name in Denied(deny)
  {
    TrimExactly(pre, name, post);
  }

  function Denied(deny: seq<string>): set<string> {
    set d | d in deny :: Trim(d)
  }

  predicate FieldDenied(name: string, f: string, d: set<string>) {
    f in d || name + "." + f in d
  }

  /** The emitted fields left, in order. */
  function Kept(name: string, emit: seq<string>, d: set<string>): seq<string> {
    if emit == [] then []
    else
      var rest, f := Kept(name, emit[..|emit| - 1], d), emit[|emit| - 1];
      if FieldDenied(name, f, d) then rest else rest + [f]
  }

  function KeptOf(c: Collector, d: set<string>): Collector {
    c.(emit := Kept(c.name, c.emit, d))
  }

  predicate Dropped(c: Collector, d: set<string>) {
    c.name in d || Kept(c.name, c.emit, d) == []
  }

  /** The effective scope. */
  function Scope(a: Allowlist, d: set<string>): Allowlist {
    if a == [] then []
    else
      var rest, c := Scope(a[..|a| - 1], d), a[|a| - 1];
      if Dropped(c, d) then rest else rest + [KeptOf(c, d)]
  }

  method Effective(a: Allowlist, deny: seq<string>) returns (out: Allowlist)
    ensures out == Scope(a, Denied(deny))
  {
    var denied: set<string> := {};
    for i := 0 to |deny|
      invariant denied == Denied(deny[..i])
    {
      DeniedSnoc(deny, i);
      denied := denied + {Trim(deny[i])};
    }
    assert deny[..|deny|] == deny;
    out := [];
    for i := 0 to |a|
      invariant out == Scope(a[..i], denied)
    {
      assert a[..i + 1][..i] == a[..i];
      var c := a[i];
      if c.name !in denied {
        var emit: seq<string> := [];
        for j := 0 to |c.emit|
          invariant emit == Kept(c.name, c.emit[..j], denied)
        {
          assert c.emit[..j + 1][..j] == c.emit[..j];
          var f := c.emit[j];
          if !(f in denied || c.name + "." + f in denied) {
            emit := emit + [f];
          }
        }
        assert c.emit[..|c.emit|] == c.emit;
        if emit != [] {
          out := out + [c.(emit := emit)];
        }
      }
    }
    assert a[..|a|] == a;
  }

  lemma DeniedSnoc(deny: seq<string>, i: nat)
    requires i < |deny|
    ensures Denied(deny[..i + 1]) == Denied(deny[..i]) + {Trim(deny[i])}
  {
    assert deny[..i + 1] == deny[..i] + [deny[i]];
  }

  lemma DeniedConcat(d1: seq<string>, d2: seq<string>)
    ensures Denied(d1 + d2) == Denied(d1) + Denied(d2)
  {
    forall t | t in Denied(d1) + Denied(d2) ensures t in Denied(d1 + d2) {
      var d :| (d in d1 || d in d2) && Trim(d) == t;
      assert d in d1 + d2;
    }
  }

  lemma {:induction false} KeptTwice(name: string, emit: seq<string>, d1: set<string>, d2: set<string>)
    ensures Kept(name, Kept(name, emit, d1), d2) == Kept(name, emit, d1 + d2)
  {
    if emit != [] {
      var init, f := emit[..|emit| - 1], emit[|emit| - 1];
      KeptTwice(name, init, d1, d2);
      assert (Kept(name, init, d1) + [f])[..|Kept(name, init, d1)|] == Kept(name, init, d1);
    }
  }

  lemma {:induction false} ScopeTwice(a: Allowlist, d1: set<string>, d2: set<string>)
    ensures Scope(Scope(a, d1), d2) == Scope(a, d1 + d2)
  {
    if a != [] {
      var init, c := a[..|a| - 1], a[|a| - 1];
      ScopeTwice(init, d1, d2);
      KeptTwice(c.name, c.emit, d1, d2);
      var rest := Scope(init, d1);
      assert (rest + [KeptOf(c, d1)])[..|rest|] == rest;
    }
  }

  /** Subtracting twice is subtracting the joined denylist once, for every allowlist. */
  lemma SubtractionComposes(a: Allowlist, d1: seq<string>, d2: seq<string>)
    ensures Scope(Scope(a, Denied(d1)), Denied(d2)) == Scope(a, Denied(d1 + d2))
  {
    DeniedConcat(d1, d2);
    ScopeTwice(a, Denied(d1), Denied(d2));
  }

  // ----- What a scope lets out -----

  /** A collector of this name emits this field. */
  predicate MayLeave(a: Allowlist, name: string, f: string) {
    exists i :: 0 <= i < |a| && a[i].name == name && f in a[i].emit
  }

  lemma {:induction false} KeptMembers(name: string, emit: seq<string>, d: set<string>, f: string)
    ensures f in Kept(name, emit, d) <==> f in emit && !FieldDenied(name, f, d)
  {
    if emit != [] {
      KeptMembers(name, emit[..|emit| - 1], d, f);
      assert emit == emit[..|emit| - 1] + [emit[|emit| - 1]];
    }
  }

  lemma MayLeaveSnoc(a: Allowlist, c: Collector, name: string, f: string)
    ensures MayLeave(a + [c], name, f) <==> MayLeave(a, name, f) || (c.name == name && f in c.emit)
  {
    if MayLeave(a, name, f) {
      var i :| 0 <= i < |a| && a[i].name == name && f in a[i].emit;
      assert (a + [c])[i] == a[i];
    }
    assert (a + [c])[|a|] == c;
  }

  /** The effective scope is the allowlist less the denylist, field by field: by the collector's name,
      by the bare field or by the qualified one. Nothing else goes and nothing is added. */
  lemma {:induction false} ScopeIsSubtraction(a: Allowlist, d: set<string>, name: string, f: string)
    ensures MayLeave(Scope(a, d), name, f) <==>
            MayLeave(a, name, f) && name !in d && !FieldDenied(name, f, d)
  {
    if a != [] {
      var init, c := a[..|a| - 1], a[|a| - 1];
      ScopeIsSubtraction(init, d, name, f);
      assert a == init + [c];
      MayLeaveSnoc(init, c, name, f);
      KeptMembers(c.name, c.emit, d, f);
      MayLeaveSnoc(Scope(init, d), KeptOf(c, d), name, f);
    }
  }

  predicate ComesFrom(c: Collector, a: Allowlist, d: set<string>) {
    exists i :: 0 <= i < |a| && c == KeptOf(a[i], d) && !Dropped(a[i], d)
  }

  lemma {:induction false} ScopeComesFrom(a: Allowlist, d: set<string>, k: nat)
    requires k < |Scope(a, d)|
    ensures ComesFrom(Scope(a, d)[k], a, d)
  {
    var init, c := a[..|a| - 1], a[|a| - 1];
    if k < |Scope(init, d)| {
      ScopeComesFrom(init, d, k);
      var i :| 0 <= i < |init| && Scope(init, d)[k] == KeptOf(init[i], d) && !Dropped(init[i], d);
      assert a[i] == init[i];
    } else {
      assert a[|a| - 1] == c;
    }
  }

  lemma {:induction false} ScopeKeepsDistinct(a: Allowlist, d: set<string>)
    requires Distinct(a)
    ensures Distinct(Scope(a, d))
  {
    if a != [] {
      var init, c := a[..|a| - 1], a[|a| - 1];
      assert Distinct(init);
      ScopeKeepsDistinct(init, d);
      var rest := Scope(init, d);
      forall k | 0 <= k < |rest| ensures rest[k].name != c.name {
        ScopeComesFrom(init, d, k);
        var i :| 0 <= i < |init| && rest[k] == KeptOf(init[i], d) && !Dropped(init[i], d);
        assert a[i] == init[i];
      }
    }
  }

  /** Subtraction never turns a reviewed allowlist into one the parser would have refused, other than
      by leaving nothing; and every collector left has something to emit. */
  lemma ScopeStaysReviewed(a: Allowlist, d: set<string>)
    requires Reviewed(a)
    ensures Reviewed(Scope(a, d))
    ensures forall k :: 0 <= k < |Scope(a, d)| ==> Scope(a, d)[k].emit != []
  {
    ScopeKeepsDistinct(a, d);
    var s := Scope(a, d);
    forall k | 0 <= k < |s| ensures WellFormed(s[k]) && s[k].emit != [] {
      ScopeComesFrom(a, d, k);
      var i :| 0 <= i < |a| && s[k] == KeptOf(a[i], d) && !Dropped(a[i], d);
      assert WellFormed(a[i]);
      forall f | f in s[k].emit ensures f in s[k].schema {
        KeptMembers(a[i].name, a[i].emit, d, f);
      }
    }
  }

  // ----- The listing of what may leave -----

  ghost function Qualified(c: Collector, k: nat): set<string>
    requires k <= |c.emit|
  {
    set j | 0 <= j < k :: c.name + "." + c.emit[j]
  }

  ghost function QualifiedBelow(a: Allowlist, i: nat): set<string>
    requires i <= |a|
  {
    set k, j | 0 <= k < i && 0 <= j < |a[k].emit| :: a[k].name + "." + a[k].emit[j]
  }

  ghost predicate IsQualified(a: Allowlist, q: string) {
    exists n, f :: q == n + "." + f && MayLeave(a, n, f)
  }

  lemma QualifiedIsMayLeave(a: Allowlist, q: string)
    ensures q in QualifiedBelow(a, |a|) <==> IsQualified(a, q)
  {
    if IsQualified(a, q) {
      var n, f :| q == n + "." + f && MayLeave(a, n, f);
      var k :| 0 <= k < |a| && a[k].name == n && f in a[k].emit;
      var j :| 0 <= j < |a[k].emit| && a[k].emit[j] == f;
    }
    if q in QualifiedBelow(a, |a|) {
      var k, j :| 0 <= k < |a| && 0 <= j < |a[k].emit| && q == a[k].name + "." + a[k].emit[j];
      assert MayLeave(a, a[k].name, a[k].emit[j]);
    }
  }

  /** A set and a listing of it without repeats. */
  ghost predicate Lists(seen: set<string>, list: seq<string>) {
    (forall q :: q in seen <==> q in list) && |seen| == |list|
  }

  lemma ListsOneMore(seen: set<string>, list: seq<string>, q: string)
    requires Lists(seen, list) && q !in seen
    ensures Lists(seen + {q}, list + [q])
  {
  }

  /** The inner loop: the emitted fields of one collector. */
  method AddFields(c: Collector, known: set<string>, listed: seq<string>) returns (seen: set<string>, list: seq<string>)
    requires Lists(known, listed)
    ensures seen == known + Qualified(c, |c.emit|) && Lists(seen, list)
  {
    seen, list := known, listed;
    for j := 0 to |c.emit|
      invariant seen == known + Qualified(c, j) && Lists(seen, list)
    {
      var q := c.name + "." + c.emit[j];
      assert Qualified(c, j + 1) == Qualified(c, j) + {q};
      if q !in seen {
        ListsOneMore(seen, list, q);
        list := list + [q];
        seen := seen + {q};
      }
    }
  }

  method CollectFields(a: Allowlist) returns (seen: set<string>, list: seq<string>)
    ensures seen == QualifiedBelow(a, |a|) && Lists(seen, list)
  {
    seen, list := {}, [];
    for i := 0 to |a|
      invariant seen == QualifiedBelow(a, i) && Lists(seen, list)
    {
      assert QualifiedBelow(a, i + 1) == QualifiedBelow(a, i) + Qualified(a[i], |a[i].emit|);
      seen, list := AddFields(a[i], seen, list);
    }
  }

  /** A listing as long as its set has no repeats. */
  lemma ListedOnce(seen: set<string>, list: seq<string>)
    requires Lists(seen, list)
    ensures NoRepeats(list)
  {
    forall i, j | 0 <= i < j < |list| ensures list[i] != list[j] {
      OneIsListedOnce(seen, list, i, j);
    }
  }

  lemma OneIsListedOnce(seen: set<string>, list: seq<string>, i: nat, j: nat)
    requires Lists(seen, list) && i < j < |list|
    ensures list[i] != list[j]
  {
    if list[i] == list[j] {
      var shorter := list[..j] + list[j + 1..];
      forall q ensures q in seen <==> q in shorter {
        if q in list {
          var k :| 0 <= k < |list| && list[k] == q;
          var l := if k == j then i else k;
          assert list[l] == q && l != j;
          assert shorter[if l < j then l else l - 1] == q;
        }
      }
      CardinalityAtMost(seen, shorter);
      assert false;
    }
  }

  lemma {:induction false} CardinalityAtMost(s: set<string>, list: seq<string>)
    requires forall q :: q in s ==> q in list
    ensures |s| <= |list|
    decreases |list|
  {
    if list != [] {
      CardinalityAtMost(s - {list[0]}, list[1..]);
    } else {
      assert s == {};
    }
  }

  /** The qualified names of everything that may leave, each once and in order. */
  method Fields(a: Allowlist) returns (out: seq<string>)
    ensures forall q :: q in out <==> IsQualified(a, q)
    ensures Ascending(out)
  {
    var seen, list := CollectFields(a);
    NotAfterIsPreorder();
    out := Sort(list, NotAfter);
    forall q ensures q in out <==> IsQualified(a, q) {
      SameMembers(out, list, q);
      QualifiedIsMayLeave(a, q);
    }
    ListedOnce(seen, list);
    PermutedHasNoRepeats(list, out);
    SortedOnceAscends(out);
  }
}
