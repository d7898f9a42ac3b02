/**
`Upstream.newest` and `Upstream.releases` of scripts/release/release-data.py: the newest version of
a component as of a moment, read page by page and stopping as soon as the half-year window before
that moment has been covered, with everything read kept for later calls.
*/
module Releases {
  import opened Options
  import opened Text

  const PAGE := 100
  const WINDOW := 183 * 24 * 60 * 60 // seconds

  /** A published release; `stable` means neither draft nor prerelease. */
  datatype Release = Release(tag: string, at: int, stable: bool)

  type Version = seq<nat>

  /** A tag pattern: the numbers it captures, or None when it does not match. */
  type Pattern = string -> Option<Version>

  datatype Found = Found(version: Version, tag: string)

  // ----- Python's order on (version, tag) pairs -----

  predicate LexLE(a: seq<nat>, b: seq<nat>) {
    a == [] || (b != [] && (a[0] < b[0] || (a[0] == b[0] && LexLE(a[1..], b[1..]))))
  }

  /** At the first place where they differ, a is below b. */
  predicate VersionBelowAt(a: seq<nat>, b: seq<nat>, k: nat) {
    k < |a| && k < |b| && a[..k] == b[..k] && a[k] < b[k]
  }

  /** Not above: a is how b begins, or is below it where they first differ. */
  ghost predicate UpToOrBelow(a: seq<nat>, b: seq<nat>) {
    a <= b || exists k: nat :: VersionBelowAt(a, b, k)
  }

  lemma DifferAtOnce(a: seq<nat>, b: seq<nat>)
    requires a != [] && b != [] && a[0] != b[0]
    ensures !(a <= b) && forall k: nat :: VersionBelowAt(a, b, k) ==> k == 0
  {
    forall k: nat | VersionBelowAt(a, b, k) ensures k == 0 {
      assert a[..k] == b[..k];
      if k > 0 {
        assert false;
      }
    }
  }

  lemma {:induction false} LexExactly(a: seq<nat>, b: seq<nat>)
    ensures LexLE(a, b) <==> UpToOrBelow(a, b)
  {
    if a != [] && b != [] {
      if a[0] == b[0] {
        LexExactly(a[1..], b[1..]);
        assert a == [a[0]] + a[1..] && b == [b[0]] + b[1..];
        if k: nat :| VersionBelowAt(a[1..], b[1..], k) {
          assert a[..k + 1] == [a[0]] + a[1..][..k] && b[..k + 1] == [b[0]] + b[1..][..k];
          assert VersionBelowAt(a, b, k + 1);
        }
        if k: nat :| VersionBelowAt(a, b, k) {
          assert k > 0;
          assert a[1..][..k - 1] == a[..k][1..] && b[1..][..k - 1] == b[..k][1..];
          assert VersionBelowAt(a[1..], b[1..], k - 1);
        }
      } else {
        assert a[..0] == b[..0];
        assert a[0] < b[0] ==> VersionBelowAt(a, b, 0);
        DifferAtOnce(a, b);
      }
    }
  }

  function Codes(s: string): seq<nat> {
    seq(|s|, i requires 0 <= i < |s| => s[i] as nat)
  }

  /** Tags are compared as strings are. */
  lemma {:induction false} CodesKeepOrder(a: string, b: string)
    ensures LexLE(Codes(a), Codes(b)) <==> NotAfter(a, b)
    decreases |a|
  {
    if a != "" && b != "" {
      assert Codes(a)[1..] == Codes(a[1..]) && Codes(b)[1..] == Codes(b[1..]);
      CodesKeepOrder(a[1..], b[1..]);
      assert a == [a[0]] + a[1..] && b == [b[0]] + b[1..];
    }
  }

  predicate NotHigher(f: Found, g: Found) {
    LexLE(f.version, g.version) && (f.version == g.version ==> LexLE(Codes(f.tag), Codes(g.tag)))
  }

  lemma {:induction false} LexTotal(a: seq<nat>, b: seq<nat>)
    ensures LexLE(a, b) || LexLE(b, a)
    ensures LexLE(a, b) && LexLE(b, a) ==> a == b
  {
    if a != [] && b != [] && a[0] == b[0] {
      LexTotal(a[1..], b[1..]);
      assert a == [a[0]] + a[1..] && b == [b[0]] + b[1..];
    }
  }

  lemma {:induction false} LexTransitive(a: seq<nat>, b: seq<nat>, c: seq<nat>)
    requires LexLE(a, b) && LexLE(b, c)
    ensures LexLE(a, c)
  {
    if a != [] && a[0] == b[0] == c[0] {
      LexTransitive(a[1..], b[1..], c[1..]);
    }
  }

  lemma NotHigherTotal(f: Found, g: Found)
    ensures NotHigher(f, g) || NotHigher(g, f)
  {
    LexTotal(f.version, g.version);
    LexTotal(Codes(f.tag), Codes(g.tag));
  }

  lemma NotHigherTransitive(f: Found, g: Found, h: Found)
    requires NotHigher(f, g) && NotHigher(g, h)
    ensures NotHigher(f, h)
  {
    LexTransitive(f.version, g.version, h.version);
    LexTotal(f.version, g.version);
    LexTotal(g.version, h.version);
    if f.version == h.version {
      LexTransitive(Codes(f.tag), Codes(g.tag), Codes(h.tag));
    }
  }

  // ----- The newest of a list -----

  /** A release the question is about: published by then, and named as a version. */
  predicate Counts(r: Release, pattern: Pattern, before: int) {
    r.stable && r.at <= before && pattern(r.tag).Some?
  }

  function AsFound(r: Release, pattern: Pattern): Found
    requires pattern(r.tag).Some?
  {
    Found(pattern(r.tag).value, r.tag)
  }

  /** f is the highest of the releases in a list that count. */
  ghost predicate IsNewest(list: seq<Release>, pattern: Pattern, before: int, f: Option<Found>) {
    && (f.None? ==> forall i :: 0 <= i < |list| ==> !Counts(list[i], pattern, before))
    && (f.Some? ==>
          exists i :: 0 <= i < |list| && Counts(list[i], pattern, before) && AsFound(list[i], pattern) == f.value)
    && (f.Some? ==> forall i :: 0 <= i < |list| && Counts(list[i], pattern, before) ==>
          NotHigher(AsFound(list[i], pattern), f.value))
  }

  /** No release that counts has a version above the newest, nor an equal version with a tag above its. */
  lemma NewestIsHighest(list: seq<Release>, pattern: Pattern, before: int, f: Found, i: nat)
    requires IsNewest(list, pattern, before, Some(f)) && i < |list| && Counts(list[i], pattern, before)
    ensures var g := AsFound(list[i], pattern);
      && UpToOrBelow(g.version, f.version)
      && (g.version == f.version ==> NotAfter(g.tag, f.tag))
  {
    var g := AsFound(list[i], pattern);
    assert NotHigher(g, f);
    LexExactly(g.version, f.version);
    CodesKeepOrder(g.tag, f.tag);
  }

  /** `newest`, over what has been read so far (stable releases only). */
  method Newest(seen: seq<Release>, pattern: Pattern, before: int) returns (best: Option<Found>)
    requires forall i :: 0 <= i < |seen| ==> seen[i].stable
    ensures IsNewest(seen, pattern, before, best)
  {
    best := None;
    for i := 0 to |seen|
      invariant IsNewest(seen[..i], pattern, before, best)
    {
      ghost var was := best;
      if pattern(seen[i].tag).Some? && seen[i].at <= before {
        var f := AsFound(seen[i], pattern);
        if best.None? || !NotHigher(f, best.value) {
          best := Some(f);
        }
      }
      NewestSnoc(seen, i, pattern, before, was, best);
    }
    assert seen[..|seen|] == seen;
  }

  lemma NewestSnoc(seen: seq<Release>, i: nat, pattern: Pattern, before: int, was: Option<Found>, best: Option<Found>)
    requires i < |seen| && IsNewest(seen[..i], pattern, before, was)
    requires best ==
      if !Counts(seen[i], pattern, before) then was
      else if was.None? || !NotHigher(AsFound(seen[i], pattern), was.value) then Some(AsFound(seen[i], pattern))
      else was
    ensures IsNewest(seen[..i + 1], pattern, before, best)
  {
    var list, longer := seen[..i], seen[..i + 1];
    assert longer[i] == seen[i];
    assert forall j :: 0 <= j < i ==> longer[j] == list[j];
    if best.Some? {
      var k :=
        if best != was then i
        else
          var j :| 0 <= j < i && Counts(list[j], pattern, before) && AsFound(list[j], pattern) == best.value;
          j;
      assert Counts(longer[k], pattern, before) && AsFound(longer[k], pattern) == best.value;
      forall j | 0 <= j < |longer| && Counts(longer[j], pattern, before)
        ensures NotHigher(AsFound(longer[j], pattern), best.value)
      {
        NotHigherTotal(AsFound(longer[j], pattern), best.value);
        if j < i && best != was {
          NotHigherTotal(AsFound(seen[i], pattern), was.value);
          NotHigherTransitive(AsFound(list[j], pattern), was.value, best.value);
        }
      }
    }
  }

  // ----- Reading page by page -----

  function Stable(list: seq<Release>): (s: seq<Release>)
    ensures forall i :: 0 <= i < |s| ==> s[i].stable
  {
    if list == [] then []
    else Stable(list[..|list| - 1]) + if list[|list| - 1].stable then [list[|list| - 1]] else []
  }

  lemma {:induction false} StableConcat(a: seq<Release>, b: seq<Release>)
    ensures Stable(a + b) == Stable(a) + Stable(b)
    decreases |b|
  {
    if b == [] {
      assert a + b == a;
    } else {
      assert (a + b)[..|a + b| - 1] == a + b[..|b| - 1];
      StableConcat(a, b[..|b| - 1]);
    }
  }

  lemma {:induction false} StableMembers(list: seq<Release>, r: Release)
    ensures r in Stable(list) <==> r in list && r.stable
  {
    if list != [] {
      StableMembers(list[..|list| - 1], r);
      assert list == list[..|list| - 1] + [list[|list| - 1]];
    }
  }

  /** Listed newest first, as far as the stable releases go. */
  predicate NewestFirst(all: seq<Release>) {
    forall i, j :: 0 <= i < j < |all| && all[i].stable && all[j].stable ==> all[i].at >= all[j].at
  }

  function Upto(pages: nat, n: nat): nat {
    if PAGE * pages <= n then PAGE * pages else n
  }

  /** What the cache remembers of one repository. */
  datatype Read = Read(pages: nat, seen: seq<Release>, end: bool)

  ghost predicate IsRead(all: seq<Release>, r: Read) {
    && r.seen == Stable(all[..Upto(r.pages, |all|)])
    && (r.end ==> PAGE * r.pages > |all|)
  }

  /** Everything not yet read is older than everything read. */
  lemma UnreadIsOlder(all: seq<Release>, n: nat, i: nat)
    requires NewestFirst(all) && n <= i < |all| && all[i].stable && Stable(all[..n]) != []
    ensures all[i].at <= Stable(all[..n])[|Stable(all[..n])| - 1].at
  {
    var last := Stable(all[..n])[|Stable(all[..n])| - 1];
    StableMembers(all[..n], last);
    var j :| 0 <= j < n && all[..n][j] == last;
    assert all[j] == last;
  }

  /**
  The answer a call promises: published by then and at least as high as every stable release of
  the window; None only if nothing published by then matches at all.
  */
  ghost predicate CoversWindow(all: seq<Release>, pattern: Pattern, before: int, f: Option<Found>) {
    && (f.None? ==> forall i :: 0 <= i < |all| ==> !Counts(all[i], pattern, before))
    && (f.Some? ==>
          exists i :: 0 <= i < |all| && Counts(all[i], pattern, before) && AsFound(all[i], pattern) == f.value)
    && (f.Some? ==> forall i :: 0 <= i < |all| && Counts(all[i], pattern, before) && all[i].at >= before - WINDOW ==>
          NotHigher(AsFound(all[i], pattern), f.value))
  }

  /** The same of the answer of a call, for the releases of the window. */
  lemma AnswerIsHighestOfWindow(all: seq<Release>, pattern: Pattern, before: int, f: Found, i: nat)
    requires CoversWindow(all, pattern, before, Some(f))
    requires i < |all| && Counts(all[i], pattern, before) && all[i].at >= before - WINDOW
    ensures var g := AsFound(all[i], pattern);
      && UpToOrBelow(g.version, f.version)
      && (g.version == f.version ==> NotAfter(g.tag, f.tag))
  {
    var g := AsFound(all[i], pattern);
    assert NotHigher(g, f);
    LexExactly(g.version, f.version);
    CodesKeepOrder(g.tag, f.tag);
  }

  lemma StoppingCovers(all: seq<Release>, r: Read, pattern: Pattern, before: int, f: Option<Found>)
    requires NewestFirst(all) && IsRead(all, r) && IsNewest(r.seen, pattern, before, f)
    requires r.end || (f.Some? && r.seen != [] && r.seen[|r.seen| - 1].at < before - WINDOW)
    ensures CoversWindow(all, pattern, before, f)
  {
    var n := Upto(r.pages, |all|);
    forall i | 0 <= i < |all| && Counts(all[i], pattern, before) && (r.end || all[i].at >= before - WINDOW)
      ensures f.Some? && NotHigher(AsFound(all[i], pattern), f.value)
    {
      if i >= n {
        UnreadIsOlder(all, n, i);
      }
      StableMembers(all[..n], all[i]);
      assert all[..n][i] == all[i];
      var k :| 0 <= k < |r.seen| && r.seen[k] == all[i];
    }
    if f.Some? {
      var k :| 0 <= k < |r.seen| && Counts(r.seen[k], pattern, before) && AsFound(r.seen[k], pattern) == f.value;
      StableMembers(all[..n], r.seen[k]);
      var i :| 0 <= i < n && all[..n][i] == r.seen[k];
      assert all[i] == r.seen[k];
    }
  }

  /** Reading everything: the specification the paging is measured against. */
  lemma WindowIsEnough(all: seq<Release>, pattern: Pattern, before: int, f: Found, full: Found)
    requires CoversWindow(all, pattern, before, Some(f)) && IsNewest(all, pattern, before, Some(full))
    ensures NotHigher(f, full)
    ensures f == full <==>
      forall i :: 0 <= i < |all| && Counts(all[i], pattern, before) && all[i].at < before - WINDOW ==>
        NotHigher(AsFound(all[i], pattern), f)
  {
    if forall i :: 0 <= i < |all| && Counts(all[i], pattern, before) && all[i].at < before - WINDOW ==>
      NotHigher(AsFound(all[i], pattern), f)
    {
      var j :| 0 <= j < |all| && Counts(all[j], pattern, before) && AsFound(all[j], pattern) == full;
      assert NotHigher(full, f);
      LexTotal(f.version, full.version);
      LexTotal(Codes(f.tag), Codes(full.tag));
      CodesInjective(f.tag, full.tag);
    }
  }

  lemma CodesInjective(a: string, b: string)
    requires Codes(a) == Codes(b)
    ensures a == b
  {
    forall i | 0 <= i < |a| ensures |a| == |b| && a[i] == b[i] {
      assert |Codes(a)| == |Codes(b)|;
      assert Codes(a)[i] == Codes(b)[i];
    }
    assert |Codes(a)| == |Codes(b)|;
  }

  /** What has been read is enough: it holds a version, and goes back beyond the window. */
  predicate MayStop(seen: seq<Release>, pattern: Pattern, before: int) {
    && seen != [] && seen[|seen| - 1].at < before - WINDOW
    && exists i :: 0 <= i < |seen| && Counts(seen[i], pattern, before) && AsFound(seen[i], pattern).version != []
  }

  lemma NotYetEnough(seen: seq<Release>, pattern: Pattern, before: int, found: Option<Found>)
    requires IsNewest(seen, pattern, before, found)
    ensures MayStop(seen, pattern, before) ==> found.Some? && found.value.version != []
  {
    if MayStop(seen, pattern, before) {
      var i :| 0 <= i < |seen| && Counts(seen[i], pattern, before) && AsFound(seen[i], pattern).version != [];
      assert NotHigher(AsFound(seen[i], pattern), found.value);
    }
  }

  /** What the first pages of a repository hold. */
  function SeenAfter(all: seq<Release>, pages: nat): seq<Release> {
    Stable(all[..Upto(pages, |all|)])
  }

  /** No page was read that was not needed. */
  ghost predicate NoneInVain(all: seq<Release>, from: nat, to: nat, pattern: Pattern, before: int) {
    forall p :: from <= p < to ==> !MayStop(SeenAfter(all, p), pattern, before)
  }

  class Upstream {
    const published: map<string, seq<Release>> // what each repository lists
    var read: map<string, Read>

    constructor (published: map<string, seq<Release>>)
      requires forall repo :: repo in published ==> NewestFirst(published[repo])
      ensures Valid() && this.published == published && read == map[]
    {
      this.published := published;
      read := map[];
    }

    ghost predicate Valid()
      reads this
    {
      && (forall repo :: repo in published ==> NewestFirst(published[repo]))
      && (forall repo :: repo in read ==> repo in published && IsRead(published[repo], read[repo]))
    }

    /** `releases`: whatever earlier calls left in the cache, the window is covered. */
    method Releases(repo: string, pattern: Pattern, before: int) returns (found: Option<Found>)
      requires Valid() && repo in published
      modifies this
      ensures Valid() && repo in read && read == old(read)[repo := read[repo]]
      ensures CoversWindow(published[repo], pattern, before, found)
      ensures var from := if repo in old(read) then old(read)[repo].pages else 0;
        from <= read[repo].pages && NoneInVain(published[repo], from, read[repo].pages, pattern, before)
    {
      var r := if repo in read then read[repo] else Read(0, [], false);
      assert IsRead(published[repo], r);
      r, found := ReadPages(published[repo], r, pattern, before);
      read := read[repo := r];
    }
  }

  /** One page of a listing. */
  function Page(all: seq<Release>, page: nat): seq<Release>
    requires page >= 1
  {
    all[Upto(page - 1, |all|)..Upto(page, |all|)]
  }

  /** The loop: read on until the end, or until a match is found and the window is behind us. */
  method ReadPages(all: seq<Release>, start: Read, pattern: Pattern, before: int)
    returns (r: Read, found: Option<Found>)
    requires NewestFirst(all) && IsRead(all, start)
    ensures IsRead(all, r) && CoversWindow(all, pattern, before, found)
    ensures start.pages <= r.pages && NoneInVain(all, start.pages, r.pages, pattern, before)
  {
    var oldest := before - WINDOW;
    r := start;
    found := Newest(r.seen, pattern, before);
    // A pattern without groups finds the empty version, which does not stop the reading.
    while !(r.end || (found.Some? && found.value.version != [] && r.seen[|r.seen| - 1].at < oldest))
      invariant IsRead(all, r) && IsNewest(r.seen, pattern, before, found)
      invariant start.pages <= r.pages && NoneInVain(all, start.pages, r.pages, pattern, before)
      decreases if r.end then 0 else 1, |all| - PAGE * r.pages + PAGE
    {
      NotYetEnough(r.seen, pattern, before, found);
      var batch := Page(all, r.pages + 1);
      ReadMore(all, r, batch);
      r := Read(r.pages + 1, r.seen + Stable(batch), |batch| < PAGE);
      found := Newest(r.seen, pattern, before);
    }
    StoppingCovers(all, r, pattern, before, found);
  }

  lemma ReadMore(all: seq<Release>, r: Read, batch: seq<Release>)
    requires IsRead(all, r) && batch == all[Upto(r.pages, |all|)..Upto(r.pages + 1, |all|)]
    ensures IsRead(all, Read(r.pages + 1, r.seen + Stable(batch), |batch| < PAGE))
    ensures |batch| < PAGE || PAGE * (r.pages + 1) <= |all|
  {
    var m, n := Upto(r.pages, |all|), Upto(r.pages + 1, |all|);
    PageLength(r.pages, |all|);
    StableMore(all, m, n);
  }

  /** A page is full, or it is the last. */
  lemma PageLength(pages: nat, n: nat)
    ensures Upto(pages, n) <= Upto(pages + 1, n) <= n
    ensures Upto(pages + 1, n) - Upto(pages, n) < PAGE <==> PAGE * (pages + 1) > n
  {
  }

  lemma StableMore(all: seq<Release>, m: nat, n: nat)
    requires m <= n <= |all|
    ensures Stable(all[..n]) == Stable(all[..m]) + Stable(all[m..n])
  {
    assert all[..n] == all[..m] + all[m..n];
    StableConcat(all[..m], all[m..n]);
  }
}
