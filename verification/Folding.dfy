/**
Folding the variants of a component into one subchart: the deduplication block of
scripts/package/distribution.py and the selection its SUBCHART_TEMPLATE makes at render time.
A digest stands for the document it was taken from.
*/
module Folding {
  import opened Options
  import opened Sorting

  datatype Variant = Variant(name: string, docs: seq<string>)

  predicate DistinctNames(vs: seq<Variant>) {
    forall i, j :: 0 <= i < j < |vs| ==> vs[i].name != vs[j].name
  }

  predicate InAll(vs: seq<Variant>, d: string) {
    forall i :: 0 <= i < |vs| ==> d in vs[i].docs
  }

  // ----- What is shared -----

  /** In how many of the first n variants a document occurs, each variant counted once. */
  function Occurrences(vs: seq<Variant>, n: nat, d: string): nat
    requires n <= |vs|
  {
    if n == 0 then 0 else Occurrences(vs, n - 1, d) + if d in vs[n - 1].docs then 1 else 0
  }

  lemma {:induction false} CountedInAll(vs: seq<Variant>, n: nat, d: string)
    requires n <= |vs|
    ensures Occurrences(vs, n, d) <= n
    ensures Occurrences(vs, n, d) == n <==> forall i :: 0 <= i < n ==> d in vs[i].docs
  {
    if n > 0 {
      CountedInAll(vs, n - 1, d);
    }
  }

  function At(counts: map<string, nat>, d: string): nat {
    if d in counts then counts[d] else 0
  }

  /** The `counts` dictionary, built variant by variant over the set of its digests. */
  method Counts(vs: seq<Variant>) returns (counts: map<string, nat>)
    ensures forall d :: Occurrences(vs, |vs|, d) == At(counts, d)
  {
    counts := map[];
    for i := 0 to |vs|
      invariant forall d :: Occurrences(vs, i, d) == At(counts, d)
    {
      ghost var before := counts;
      var docs := vs[i].docs;
      var seen: set<string> := {};
      for j := 0 to |docs|
        invariant forall d :: d in seen <==> d in docs[..j]
        invariant forall d :: At(counts, d) == At(before, d) + if d in seen then 1 else 0
      {
        assert docs[..j + 1] == docs[..j] + [docs[j]];
        if docs[j] !in seen {
          counts := counts[docs[j] := At(counts, docs[j]) + 1];
          seen := seen + {docs[j]};
        }
      }
      assert docs[..|docs|] == docs;
    }
  }

  /** The documents of a list that every variant carries, or those that not every one does. */
  function Keep(docs: seq<string>, vs: seq<Variant>, shared: bool): seq<string> {
    if docs == [] then []
    else Keep(docs[..|docs| - 1], vs, shared) + if InAll(vs, docs[|docs| - 1]) == shared then [docs[|docs| - 1]] else []
  }

  /** What the subchart holds: `files/_shared`, and a directory per variant with documents of its own. */
  datatype Subchart = Subchart(shared: seq<string>, own: map<string, seq<string>>)

  function Own(chart: Subchart, name: string): seq<string> {
    if name in chart.own then chart.own[name] else []
  }

  /** One of the first i variants has this name. */
  predicate IsVariant(vs: seq<Variant>, i: nat, name: string) {
    exists j :: 0 <= j < i <= |vs| && vs[j].name == name
  }

  ghost predicate IsFold(vs: seq<Variant>, chart: Subchart)
    requires vs != []
  {
    && chart.shared == Keep(vs[0].docs, vs, true)
    && (forall i :: 0 <= i < |vs| ==> Own(chart, vs[i].name) == Keep(vs[i].docs, vs, false))
    && (forall n :: n in chart.own ==> chart.own[n] != [] && IsVariant(vs, |vs|, n))
  }

  /** `[d for d in docs if (sha(d) in shared) == want]` */
  method Filter(docs: seq<string>, vs: seq<Variant>, counts: map<string, nat>, want: bool) returns (kept: seq<string>)
    requires forall d :: Occurrences(vs, |vs|, d) == At(counts, d)
    ensures kept == Keep(docs, vs, want)
  {
    kept := [];
    for j := 0 to |docs|
      invariant kept == Keep(docs[..j], vs, want)
    {
      CountedInAll(vs, |vs|, docs[j]);
      assert docs[..j + 1][..j] == docs[..j];
      if (At(counts, docs[j]) == |vs|) == want {
        kept := kept + [docs[j]];
      }
    }
    assert docs[..|docs|] == docs;
  }

  /** The deduplication block, over variants in name order. */
  method FoldVariants(vs: seq<Variant>) returns (chart: Subchart)
    requires vs != [] && DistinctNames(vs)
    ensures IsFold(vs, chart)
  {
    var counts := Counts(vs);
    var shared := Filter(vs[0].docs, vs, counts, true);
    var own: map<string, seq<string>> := map[];
    for i := 0 to |vs|
      invariant forall n :: n in own ==> own[n] != [] && IsVariant(vs, i, n)
      invariant forall j :: 0 <= j < i ==> Own(Subchart(shared, own), vs[j].name) == Keep(vs[j].docs, vs, false)
    {
      var rest := Filter(vs[i].docs, vs, counts, false);
      assert forall n :: IsVariant(vs, i, n) ==> IsVariant(vs, i + 1, n) && n != vs[i].name;
      assert IsVariant(vs, i + 1, vs[i].name);
      if rest != [] { // write_docs creates no directory for nothing
        own := own[vs[i].name := rest];
      }
    }
    chart := Subchart(shared, own);
  }

  // ----- What a topology emits -----

  /** The directory names a cluster's environment and provider could mean, most specific first. */
  function Candidates(env: string, provider: string): seq<string> {
    (if env != "" && provider != "" then [env + "-" + provider] else [])
    + (if env != "" then [env] else [])
    + (if provider != "" then [provider] else [])
  }

  /** The environment with the provider, then the environment, then the provider, as far as they are known. */
  lemma CandidatesExactly(env: string, provider: string, name: string)
    ensures name in Candidates(env, provider) <==>
      || (env != "" && provider != "" && name == env + "-" + provider)
      || (env != "" && name == env)
      || (provider != "" && name == provider)
    ensures env != "" && provider != "" ==>
      |Candidates(env, provider)| == 3 && Candidates(env, provider)[0] == env + "-" + provider
      && Candidates(env, provider)[1] == env && Candidates(env, provider)[2] == provider
    ensures env == "" || provider == "" ==> |Candidates(env, provider)| <= 1
  {
    var c := Candidates(env, provider);
    if env != "" && provider != "" {
      assert c[0] in c && c[1] in c && c[2] in c;
    } else if env != "" {
      assert c == [env];
    } else if provider != "" {
      assert c == [provider];
    }
  }

  /** The first candidate that has a directory is emitted; a directory always holds a file. */
  function FirstOwn(chart: Subchart, candidates: seq<string>): seq<string> {
    if candidates == [] then []
    else if candidates[0] in chart.own then chart.own[candidates[0]]
    else FirstOwn(chart, candidates[1..])
  }

  function Emission(chart: Subchart, env: string, provider: string): seq<string> {
    chart.shared + FirstOwn(chart, Candidates(env, provider))
  }

  lemma {:induction false} KeepCounts(docs: seq<string>, vs: seq<Variant>, shared: bool, d: string)
    ensures multiset(Keep(docs, vs, shared))[d] == if InAll(vs, d) == shared then multiset(docs)[d] else 0
  {
    if docs != [] {
      KeepCounts(docs[..|docs| - 1], vs, shared, d);
      assert docs == docs[..|docs| - 1] + [docs[|docs| - 1]];
    }
  }

  /** With one packaged variant among the candidates, that variant's own documents are selected. */
  lemma {:induction false} OnlyVariantIsSelected(vs: seq<Variant>, chart: Subchart, candidates: seq<string>, k: nat)
    requires vs != [] && k < |vs| && IsFold(vs, chart)
    requires forall i :: 0 <= i < |vs| && vs[i].name in candidates ==> vs[i].name == vs[k].name
    ensures FirstOwn(chart, candidates) == if vs[k].name in candidates then Keep(vs[k].docs, vs, false) else []
  {
    if candidates != [] {
      assert forall c :: c in candidates <==> c == candidates[0] || c in candidates[1..];
      OnlyVariantIsSelected(vs, chart, candidates[1..], k);
      if candidates[0] in chart.own {
        var i :| 0 <= i < |vs| && vs[i].name == candidates[0];
      } else if candidates[0] == vs[k].name {
        assert Own(chart, vs[k].name) == [];
      }
    }
  }

  lemma EmissionCounts(vs: seq<Variant>, chart: Subchart, env: string, provider: string, k: nat, d: string)
    requires vs != [] && k < |vs| && IsFold(vs, chart)
    requires vs[k].name in Candidates(env, provider)
    requires forall i :: 0 <= i < |vs| && vs[i].name in Candidates(env, provider) ==> vs[i].name == vs[k].name
    ensures multiset(Emission(chart, env, provider))[d] ==
      if InAll(vs, d) then multiset(vs[0].docs)[d] else multiset(vs[k].docs)[d]
  {
    OnlyVariantIsSelected(vs, chart, Candidates(env, provider), k);
    KeepCounts(vs[0].docs, vs, true, d);
    KeepCounts(vs[k].docs, vs, false, d);
  }

  lemma SharedByBoth(vs: seq<Variant>, k: nat, d: string)
    requires k < |vs| && InAll(vs, d)
    ensures d in vs[0].docs && d in vs[k].docs
  {
  }

  lemma CountsMembers(docs: seq<string>, d: string)
    ensures d in docs <==> multiset(docs)[d] > 0
  {
  }

  lemma SameCounts(a: multiset<string>, b: multiset<string>)
    ensures a == b <==> forall d :: a[d] == b[d]
  {
  }

  /**
  Deduplication loses nothing: a topology whose candidates include exactly one packaged variant
  emits exactly the documents that variant carried alone -- as a set always, and with the same
  multiplicities exactly when the shared documents occur as often in it as in the first variant.
  */
  lemma FoldingLosesNothing(vs: seq<Variant>, chart: Subchart, env: string, provider: string, k: nat)
    requires vs != [] && k < |vs| && IsFold(vs, chart)
    requires vs[k].name in Candidates(env, provider)
    requires forall i :: 0 <= i < |vs| && vs[i].name in Candidates(env, provider) ==> vs[i].name == vs[k].name
    ensures forall d :: d in Emission(chart, env, provider) <==> d in vs[k].docs
    ensures multiset(Emission(chart, env, provider)) == multiset(vs[k].docs) <==>
      forall d :: InAll(vs, d) ==> multiset(vs[0].docs)[d] == multiset(vs[k].docs)[d]
  {
    var out := Emission(chart, env, provider);
    forall d
      ensures multiset(out)[d] == if InAll(vs, d) then multiset(vs[0].docs)[d] else multiset(vs[k].docs)[d]
    {
      EmissionCounts(vs, chart, env, provider, k, d);
    }
    forall d ensures d in out <==> d in vs[k].docs {
      if InAll(vs, d) {
        SharedByBoth(vs, k, d);
      }
      CountsMembers(out, d);
      CountsMembers(vs[k].docs, d);
      CountsMembers(vs[0].docs, d);
    }
    SameCounts(multiset(out), multiset(vs[k].docs));
  }

  /** So when no variant repeats a document, the emission is the variant itself, reordered. */
  lemma FoldingIsAPermutation(vs: seq<Variant>, chart: Subchart, env: string, provider: string, k: nat)
    requires vs != [] && k < |vs| && IsFold(vs, chart)
    requires vs[k].name in Candidates(env, provider)
    requires forall i :: 0 <= i < |vs| && vs[i].name in Candidates(env, provider) ==> vs[i].name == vs[k].name
    requires NoRepeats(vs[0].docs) && NoRepeats(vs[k].docs)
    ensures multiset(Emission(chart, env, provider)) == multiset(vs[k].docs)
  {
    FoldingLosesNothing(vs, chart, env, provider, k);
    forall d | InAll(vs, d) ensures multiset(vs[0].docs)[d] == multiset(vs[k].docs)[d] {
      NoRepeatsCounts(vs[0].docs, d);
      NoRepeatsCounts(vs[k].docs, d);
    }
  }

  lemma KeepMembers(docs: seq<string>, vs: seq<Variant>, shared: bool, d: string)
    ensures d in Keep(docs, vs, shared) <==> d in docs && InAll(vs, d) == shared
  {
    KeepCounts(docs, vs, shared, d);
    assert d in docs <==> multiset(docs)[d] > 0;
    assert d in Keep(docs, vs, shared) <==> multiset(Keep(docs, vs, shared))[d] > 0;
  }

  /** Candidates without a directory are passed over. */
  lemma {:induction false} FirstOwnSkips(chart: Subchart, candidates: seq<string>, j: nat)
    requires j <= |candidates| && forall i :: 0 <= i < j ==> candidates[i] !in chart.own
    ensures FirstOwn(chart, candidates) == FirstOwn(chart, candidates[j..])
  {
    if j == 0 {
      assert candidates[0..] == candidates;
    } else {
      FirstOwnSkips(chart, candidates[1..], j - 1);
      assert candidates[1..][j - 1..] == candidates[j..];
    }
  }

  lemma {:induction false} FirstOwnComesFrom(chart: Subchart, candidates: seq<string>)
    requires forall n :: n in chart.own ==> chart.own[n] != []
    ensures FirstOwn(chart, candidates) == [] <==> forall i :: 0 <= i < |candidates| ==> candidates[i] !in chart.own
    ensures FirstOwn(chart, candidates) != [] ==>
      exists i ::
        && 0 <= i < |candidates| && candidates[i] in chart.own
        && FirstOwn(chart, candidates) == chart.own[candidates[i]]
  {
    if candidates != [] && candidates[0] !in chart.own {
      FirstOwnComesFrom(chart, candidates[1..]);
      if FirstOwn(chart, candidates[1..]) != [] {
        var i :| 0 <= i < |candidates[1..]| && candidates[1..][i] in chart.own
          && FirstOwn(chart, candidates[1..]) == chart.own[candidates[1..][i]];
        assert candidates[i + 1] == candidates[1..][i];
      }
    }
  }

  /** A variant has documents that not every variant carries. */
  predicate HasOwn(vs: seq<Variant>, k: nat)
    requires k < |vs|
  {
    exists d :: d in vs[k].docs && !InAll(vs, d)
  }

  lemma OwnDocuments(vs: seq<Variant>, chart: Subchart, k: nat)
    requires vs != [] && k < |vs| && IsFold(vs, chart)
    ensures forall d :: d in Own(chart, vs[k].name) <==> d in vs[k].docs && !InAll(vs, d)
    ensures forall d :: d in chart.shared <==> InAll(vs, d)
    ensures vs[k].name in chart.own <==> HasOwn(vs, k)
  {
    forall d
      ensures d in chart.shared <==> InAll(vs, d)
      ensures d in Own(chart, vs[k].name) <==> d in vs[k].docs && !InAll(vs, d)
    {
      KeepMembers(vs[0].docs, vs, true, d);
      KeepMembers(vs[k].docs, vs, false, d);
    }
    if vs[k].name in chart.own {
      assert chart.own[vs[k].name][0] in Own(chart, vs[k].name);
    }
  }

  /** The variant meant: the first candidate that was packaged at all. */
  predicate IsMeant(vs: seq<Variant>, candidates: seq<string>, j: nat, k: nat) {
    && j < |candidates| && k < |vs| && candidates[j] == vs[k].name
    && forall i, l :: 0 <= i < j && 0 <= l < |vs| ==> vs[l].name != candidates[i]
  }

  /** A less specific candidate that was packaged has documents of its own. */
  predicate LaterHasOwn(vs: seq<Variant>, candidates: seq<string>, j: nat) {
    exists i, l :: j < i < |candidates| && 0 <= l < |vs| && vs[l].name == candidates[i] && HasOwn(vs, l)
  }

  lemma LaterDirectory(vs: seq<Variant>, chart: Subchart, candidates: seq<string>, j: nat)
    requires vs != [] && IsFold(vs, chart) && j < |candidates|
    ensures FirstOwn(chart, candidates[j + 1..]) != [] <==> LaterHasOwn(vs, candidates, j)
  {
    var rest := candidates[j + 1..];
    FirstOwnComesFrom(chart, rest);
    if FirstOwn(chart, rest) != [] {
      var i :| 0 <= i < |rest| && rest[i] in chart.own;
      var l :| 0 <= l < |vs| && vs[l].name == rest[i];
      OwnDocuments(vs, chart, l);
      assert candidates[j + 1 + i] == vs[l].name;
    }
    if LaterHasOwn(vs, candidates, j) {
      var i, l :| j < i < |candidates| && 0 <= l < |vs| && vs[l].name == candidates[i] && HasOwn(vs, l);
      OwnDocuments(vs, chart, l);
      assert rest[i - j - 1] == candidates[i];
    }
  }

  lemma SelectedOwn(vs: seq<Variant>, chart: Subchart, candidates: seq<string>, j: nat, k: nat)
    requires vs != [] && IsFold(vs, chart) && IsMeant(vs, candidates, j, k)
    ensures FirstOwn(chart, candidates) ==
      if HasOwn(vs, k) then Own(chart, vs[k].name) else FirstOwn(chart, candidates[j + 1..])
  {
    FirstOwnSkips(chart, candidates, j);
    OwnDocuments(vs, chart, k);
    assert candidates[j..][1..] == candidates[j + 1..];
  }

  /**
  Where less specific variants are packaged beside the one that is meant, the right documents are
  emitted if and only if that one has documents of its own or none of the others has: a variant that
  is entirely shared leaves no directory, and the selection falls through to one that was not meant.
  */
  lemma MeantVariantIsEmittedExactly(vs: seq<Variant>, chart: Subchart, env: string, provider: string, j: nat, k: nat)
    requires vs != [] && IsFold(vs, chart) && IsMeant(vs, Candidates(env, provider), j, k)
    ensures (forall d :: d in Emission(chart, env, provider) <==> d in vs[k].docs) <==>
      HasOwn(vs, k) || !LaterHasOwn(vs, Candidates(env, provider), j)
  {
    var candidates := Candidates(env, provider);
    var first := FirstOwn(chart, candidates);
    SelectedOwn(vs, chart, candidates, j, k);
    LaterDirectory(vs, chart, candidates, j);
    OwnDocuments(vs, chart, k);
    assert forall d :: d in Emission(chart, env, provider) <==> d in chart.shared || d in first;
    if !HasOwn(vs, k) && LaterHasOwn(vs, candidates, j) {
      FirstOwnComesFrom(chart, candidates[j + 1..]);
      var i :| 0 <= i < |candidates[j + 1..]| && candidates[j + 1..][i] in chart.own
        && first == chart.own[candidates[j + 1..][i]];
      var l :| 0 <= l < |vs| && vs[l].name == candidates[j + 1..][i];
      OwnDocuments(vs, chart, l);
      assert first[0] in first && !InAll(vs, first[0]);
      assert first[0] !in vs[k].docs;
    }
  }

  /** Two variants, of which the one meant is entirely shared. */
  predicate SharedBeside(vs: seq<Variant>, env: string, provider: string, s: string, x: string) {
    && env != "" && provider != "" && s != x && |vs| == 2
    && vs[0] == Variant(env + "-" + provider, [s]) && vs[1] == Variant(env, [s, x])
  }

  lemma SharedBesideIsMeant(vs: seq<Variant>, env: string, provider: string, s: string, x: string)
    requires SharedBeside(vs, env, provider, s, x)
    ensures IsMeant(vs, Candidates(env, provider), 0, 0)
    ensures !HasOwn(vs, 0) && LaterHasOwn(vs, Candidates(env, provider), 0)
  {
    var candidates := Candidates(env, provider);
    assert candidates[0] == env + "-" + provider && candidates[1] == env;
    assert x !in vs[0].docs && x in vs[1].docs;
    assert HasOwn(vs, 1);
    assert s in vs[0].docs && s in vs[1].docs;
    assert InAll(vs, s);
  }

  /** A cluster that gets another variant's document: the one it means is entirely shared. */
  lemma SharedVariantFallsThrough(
      vs: seq<Variant>, env: string, provider: string, s: string, x: string, chart: Subchart)
    requires SharedBeside(vs, env, provider, s, x) && IsFold(vs, chart)
    ensures !forall d :: d in Emission(chart, env, provider) <==> d in vs[0].docs
  {
    SharedBesideIsMeant(vs, env, provider, s, x);
    MeantVariantIsEmittedExactly(vs, chart, env, provider, 0, 0);
  }
}
