/**
`expand_kustomize` of scripts/validate/architecture-consistency.py: which directories are applied
once `resources:`, `bases:` and `components:` are followed from the declared paths.
*/
module Kustomize {
  import opened Options

  type Path = string

  /** One entry of a kustomization, as the script sees it. */
  datatype Ref =
    | Remote                // a URL or a git@ address
    | Outside               // leaves the repository
    | Directory(path: Path) // already normalised against the referring directory
    | File(parent: Path)    // a file stands for the directory it is in

  /** The repository: its directories, and the references of those that hold a kustomization -- none
      for one that does not parse. */
  datatype Repo = Repo(dirs: set<Path>, refs: map<Path, seq<Ref>>)

  function Target(r: Ref): Option<Path> {
    match r
    case Directory(p) => Some(p)
    case File(p) => Some(p)
    case _ => None
  }

  /** x lists y; a path without a kustomization lists nothing. */
  predicate Lists(repo: Repo, x: Path, y: Path) {
    x in repo.refs && exists i :: 0 <= i < |repo.refs[x]| && Target(repo.refs[x][i]) == Some(y)
  }

  /** A kustomization lists the directories it names and those of the files it names, and nothing else. */
  lemma ListsExactly(repo: Repo, x: Path, y: Path)
    ensures Lists(repo, x, y) <==> x in repo.refs && (Directory(y) in repo.refs[x] || File(y) in repo.refs[x])
  {
    if x in repo.refs {
      var refs := repo.refs[x];
      if r :| r in refs && (r == Directory(y) || r == File(y)) {
        var i :| 0 <= i < |refs| && refs[i] == r;
        assert Target(refs[i]) == Some(y);
      }
      if Lists(repo, x, y) {
        var i :| 0 <= i < |refs| && Target(refs[i]) == Some(y);
        assert refs[i] in refs;
      }
    }
  }

  predicate Below(sub: Path, top: Path) {
    sub == top || (|sub| > |top| && sub[..|top|] == top && sub[|top|] == '/')
  }

  /** Below means the same, or further down. */
  lemma BelowExactly(sub: Path, top: Path, rest: string)
    ensures Below(top, top) && Below(top + "/" + rest, top)
    ensures Below(sub, top) && sub != top ==> sub == top + "/" + sub[|top| + 1..]
  {
    var longer := top + "/" + rest;
    assert longer[..|top|] == top && longer[|top|] == '/';
    if Below(sub, top) && sub != top {
      assert sub == sub[..|top|] + [sub[|top|]] + sub[|top| + 1..];
    }
  }

  /** The declared paths, and every kustomization below a declared directory that holds none itself. */
  predicate IsSeed(repo: Repo, paths: set<Path>, x: Path) {
    || x in paths
    || (x in repo.refs && exists p :: p in paths && p in repo.dirs && p !in repo.refs && Below(x, p))
  }

  function Seeds(repo: Repo, paths: set<Path>): (s: set<Path>)
    ensures forall x :: x in s <==> IsSeed(repo, paths, x)
  {
    paths + (set x | x in repo.refs && IsSeed(repo, paths, x))
  }

  function AsSet(declared: seq<Path>): set<Path> {
    set p | p in declared
  }

  /** The first loop: `walk` is every kustomization there is, in the order the file system lists them. */
  method CollectSeeds(repo: Repo, declared: seq<Path>, walk: seq<Path>) returns (seeds: set<Path>)
    requires forall x :: x in walk <==> x in repo.refs
    ensures forall x :: x in seeds <==> IsSeed(repo, AsSet(declared), x)
  {
    seeds := {};
    for i := 0 to |declared|
      invariant forall x :: x in seeds <==>
        exists j :: 0 <= j < i && (x == declared[j] || IsWalked(repo, walk, declared[j], x))
    {
      var cur := declared[i];
      if cur in repo.dirs && cur !in repo.refs {
        for k := 0 to |walk|
          invariant forall x :: x in seeds <==>
            || (exists j :: 0 <= j < i && (x == declared[j] || IsWalked(repo, walk, declared[j], x)))
            || (x in walk[..k] && Below(x, cur))
        {
          assert walk[..k + 1] == walk[..k] + [walk[k]];
          if Below(walk[k], cur) {
            seeds := seeds + {walk[k]};
          }
        }
        assert walk[..|walk|] == walk;
      }
      seeds := seeds + {cur};
    }
    WalkedIsSeed(repo, declared, walk);
  }

  /** A kustomization below a declared directory that holds none itself. */
  predicate IsWalked(repo: Repo, walk: seq<Path>, cur: Path, x: Path) {
    cur in repo.dirs && cur !in repo.refs && x in walk && Below(x, cur)
  }

  lemma WalkedIsSeed(repo: Repo, declared: seq<Path>, walk: seq<Path>)
    requires forall x :: x in walk <==> x in repo.refs
    ensures forall x :: IsSeed(repo, AsSet(declared), x) <==>
      exists j :: 0 <= j < |declared| && (x == declared[j] || IsWalked(repo, walk, declared[j], x))
  {
    var paths := AsSet(declared);
    forall x ensures IsSeed(repo, paths, x) <==>
      exists j :: 0 <= j < |declared| && (x == declared[j] || IsWalked(repo, walk, declared[j], x))
    {
      if j :| 0 <= j < |declared| && (x == declared[j] || IsWalked(repo, walk, declared[j], x)) {
        assert declared[j] in paths;
      }
      if IsSeed(repo, paths, x) {
        if x in paths {
          var j :| 0 <= j < |declared| && declared[j] == x;
        } else {
          var p :| p in paths && p in repo.dirs && p !in repo.refs && Below(x, p);
          var j :| 0 <= j < |declared| && declared[j] == p;
          assert IsWalked(repo, walk, declared[j], x);
        }
      }
    }
  }

  ghost predicate Closed(repo: Repo, s: set<Path>) {
    forall x, y :: x in s && Lists(repo, x, y) ==> y in s
  }

  /** Every path that is a seed or that any kustomization names: what the search can ever meet. */
  function Universe(repo: Repo, seeds: set<Path>): (u: set<Path>)
    ensures seeds <= u && forall x, y :: Lists(repo, x, y) ==> y in u
  {
    var named := set x, i | x in repo.refs && 0 <= i < |repo.refs[x]| && Target(repo.refs[x][i]).Some? ::
      Target(repo.refs[x][i]).value;
    assert forall x, y :: Lists(repo, x, y) ==> y in named;
    seeds + named
  }

  /** A chain of references from a seed. */
  predicate IsChain(repo: Repo, seeds: set<Path>, chain: seq<Path>) {
    && chain != [] && chain[0] in seeds
    && forall i :: 0 <= i < |chain| - 1 ==> Lists(repo, chain[i], chain[i + 1])
  }

  ghost predicate Reached(repo: Repo, seeds: set<Path>, x: Path) {
    exists chain :: IsChain(repo, seeds, chain) && chain[|chain| - 1] == x
  }

  lemma ReachStep(repo: Repo, seeds: set<Path>, x: Path, y: Path)
    requires Reached(repo, seeds, x) && Lists(repo, x, y)
    ensures Reached(repo, seeds, y)
  {
    var chain :| IsChain(repo, seeds, chain) && chain[|chain| - 1] == x;
    var longer := chain + [y];
    forall i | 0 <= i < |longer| - 1 ensures Lists(repo, longer[i], longer[i + 1]) {
      if i < |chain| - 1 {
        assert longer[i] == chain[i] && longer[i + 1] == chain[i + 1];
      }
    }
    assert IsChain(repo, seeds, longer) && longer[|longer| - 1] == y;
  }

  lemma ReachSeed(repo: Repo, seeds: set<Path>, x: Path)
    requires x in seeds
    ensures Reached(repo, seeds, x)
  {
    assert IsChain(repo, seeds, [x]) && [x][|[x]| - 1] == x;
  }

  /** A closed set holding the seeds holds every chain from them. */
  lemma {:induction false} ClosedHoldsChain(repo: Repo, seeds: set<Path>, s: set<Path>, chain: seq<Path>, k: nat)
    requires Closed(repo, s) && seeds <= s && IsChain(repo, seeds, chain) && k < |chain|
    ensures chain[k] in s
  {
    if k > 0 {
      ClosedHoldsChain(repo, seeds, s, chain, k - 1);
      assert Lists(repo, chain[k - 1], chain[k]);
    }
  }

  /** A closed set of reached paths that holds the seeds is all of them, and the least such set. */
  lemma ClosedAndReachedIsLeast(repo: Repo, seeds: set<Path>, seen: set<Path>)
    requires seeds <= seen && Closed(repo, seen) && forall x :: x in seen ==> Reached(repo, seeds, x)
    ensures forall x :: Reached(repo, seeds, x) ==> x in seen
    ensures forall s :: seeds <= s && Closed(repo, s) ==> seen <= s
  {
    forall s, x | seeds <= s && Closed(repo, s) && Reached(repo, seeds, x) ensures x in s {
      var chain :| IsChain(repo, seeds, chain) && chain[|chain| - 1] == x;
      ClosedHoldsChain(repo, seeds, s, chain, |chain| - 1);
    }
  }

  /** The paths one kustomization adds, in order, without those already seen. */
  method Follow(repo: Repo, cur: Path, seen: set<Path>, queue: seq<Path>)
    returns (seen': set<Path>, queue': seq<Path>)
    requires cur in repo.refs
    ensures forall y :: y in seen' <==> y in seen || Lists(repo, cur, y)
    ensures queue <= queue' && forall y :: y in queue' <==> y in queue || (y in seen' && y !in seen)
    ensures seen' == seen ==> queue' == queue
  {
    seen', queue' := seen, queue;
    var refs := repo.refs[cur];
    for i := 0 to |refs|
      invariant forall y :: y in seen' <==> y in seen || exists j :: 0 <= j < i && Target(refs[j]) == Some(y)
      invariant queue <= queue' && forall y :: y in queue' <==> y in queue || (y in seen' && y !in seen)
      invariant seen <= seen' && (seen' == seen ==> queue' == queue)
    {
      var next := Target(refs[i]);
      if next.Some? && next.value !in seen' {
        assert next.value !in seen;
        seen' := seen' + {next.value};
        queue' := queue' + [next.value];
      }
    }
  }

  /** Whatever has been seen and is not waiting has been followed. */
  ghost predicate Followed(repo: Repo, seen: set<Path>, queue: seq<Path>) {
    forall x, y :: x in seen && x !in queue && Lists(repo, x, y) ==> y in seen
  }

  ghost predicate AllReached(repo: Repo, seeds: set<Path>, seen: set<Path>) {
    forall x :: x in seen ==> Reached(repo, seeds, x)
  }

  /** One round of the loop: the last waiting path is taken off and what it lists is queued. */
  lemma RoundKeeps(repo: Repo, seeds: set<Path>, seen: set<Path>, queue: seq<Path>, seen': set<Path>, queue': seq<Path>)
    requires queue != [] && queue[|queue| - 1] in seen
    requires Followed(repo, seen, queue) && AllReached(repo, seeds, seen)
    requires forall y :: y in seen' <==> y in seen || Lists(repo, queue[|queue| - 1], y)
    requires forall y :: y in queue' <==> y in queue[..|queue| - 1] || (y in seen' && y !in seen)
    ensures Followed(repo, seen', queue') && AllReached(repo, seeds, seen')
  {
    var cur := queue[|queue| - 1];
    forall x | x in seen' ensures Reached(repo, seeds, x) {
      if x !in seen {
        ReachStep(repo, seeds, cur, x);
      }
    }
    forall x | x in queue ensures x in queue[..|queue| - 1] || x == cur {
    }
  }

  lemma Shrinks(universe: set<Path>, seen: set<Path>, seen': set<Path>)
    requires seen <= seen' <= universe && seen != seen'
    ensures universe - seen' < universe - seen
  {
    assert exists y :: y in seen' && y !in seen;
  }

  /**
  The worklist.  Whatever order the seeds are listed in, it terminates with exactly the paths some
  chain of local references leads to: the least closed set holding the seeds.
  */
  method ExpandKustomize(repo: Repo, paths: set<Path>, listing: seq<Path>) returns (seen: set<Path>)
    requires forall x :: x in listing <==> x in Seeds(repo, paths)
    ensures forall x :: x in seen <==> Reached(repo, Seeds(repo, paths), x)
    ensures Seeds(repo, paths) <= seen && Closed(repo, seen)
    ensures forall x, p :: x in seen && x in repo.refs && (Directory(p) in repo.refs[x] || File(p) in repo.refs[x]) ==>
      p in seen
    ensures forall s :: Seeds(repo, paths) <= s && Closed(repo, s) ==> seen <= s
  {
    ghost var seeds := Seeds(repo, paths);
    ghost var universe := Universe(repo, seeds);
    seen := Seeds(repo, paths);
    var queue := listing;
    assert AllReached(repo, seeds, seen) by {
      forall x | x in seen ensures Reached(repo, seeds, x) {
        ReachSeed(repo, seeds, x);
      }
    }
    while queue != []
      invariant seeds <= seen <= universe
      invariant forall x :: x in queue ==> x in seen
      invariant Followed(repo, seen, queue) && AllReached(repo, seeds, seen)
      decreases universe - seen, |queue|
    {
      var cur := queue[|queue| - 1];
      ghost var before, waiting := seen, queue;
      queue := queue[..|queue| - 1];
      if cur in repo.refs {
        seen, queue := Follow(repo, cur, seen, queue);
        if seen != before {
          Shrinks(universe, before, seen);
        }
      }
      RoundKeeps(repo, seeds, before, waiting, seen, queue);
    }
    ClosedAndReachedIsLeast(repo, seeds, seen);
    forall x, p | x in seen && x in repo.refs && (Directory(p) in repo.refs[x] || File(p) in repo.refs[x])
      ensures p in seen
    {
      ListsExactly(repo, x, p);
    }
  }
}
