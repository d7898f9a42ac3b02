/**
Secret delivery under concurrency: `kakt spoke restore-pki` and
`kakt escrow deliver-backup-credentials`.

Both read, decide, write and re-read through kubectl while anything else may create, change or
delete any Secret between two calls.  The API server is modelled with the one guarantee it gives:
every write gets a resourceVersion no object ever had.
*/
module Delivery {
  import opened Options

  type Name = (string, string) // namespace, name
  type Data = map<string, string>

  datatype Secret = Secret(
    data: Data,
    version: nat,
    labels: map<string, string>,
    annotations: map<string, string>,
    owners: set<string>) // ownerReferences and finalizers

  type Secrets = map<Name, Secret>

  /** What a read hands the command: not the owners, and possibly no resourceVersion. */
  datatype Live = Live(data: Data, version: Option<nat>, labels: map<string, string>, annotations: map<string, string>)

  datatype GetResult = GetFailed | NotFound | Found(live: Live)
  datatype CreateResult = Created | AlreadyExists | CreateFailed

  /** A write one of the commands made: what it had read, what it replaced, what it left. */
  datatype OwnWrite = OwnWrite(name: Name, read: Option<Secret>, before: Option<Secret>, after: Secret)

  function Lookup(s: Secrets, n: Name): Option<Secret> {
    if n in s then Some(s[n]) else None
  }

  /** Anything the rest of the world may do: new content only ever under new versions. */
  predicate Environment(s: Secrets, r: nat, s': Secrets, r': nat) {
    && r <= r'
    && forall n :: n in s' ==> s'[n].version < r' && (s'[n].version < r ==> n in s && s[n] == s'[n])
  }

  predicate Matches(l: Live, s: Secret) {
    && l.data == s.data && l.labels == s.labels && l.annotations == s.annotations
    && (l.version.Some? ==> l.version.value == s.version)
  }

  /** The object a replace sends, made from what was read; it lands under a new version. */
  function Replacement(live: Live, data: Data, version: nat): Secret {
    Secret(data, version, live.labels, live.annotations, {})
  }

  /** A replace keeps everything else of the Secret if and only if that had no owners. */
  lemma ReplaceKeepsTheRestExactly(s: Secret, live: Live, data: Data, version: nat)
    requires Matches(live, s)
    ensures Replacement(live, data, version) == s.(data := data, version := version) <==> s.owners == {}
  {
  }

  /** An owner reference that was there before a replace is gone after it. */
  lemma OwnersAreDropped() returns (s: Secret, live: Live, data: Data)
    ensures Matches(live, s) && s.owners == {"owner"} && Replacement(live, data, 2).owners == {}
    ensures Replacement(live, data, 2) != s.(data := data, version := 2)
  {
    s := Secret(map["key" := "old"], 1, map[], map[], {"owner"});
    live, data := Live(s.data, Some(1), s.labels, s.annotations), map["key" := "new"];
    assert "owner" in s.owners;
  }

  ghost predicate HeldIn(history: seq<Secrets>, from: nat, n: Name, data: Data) {
    exists i :: from <= i < |history| && n in history[i] && history[i][n].data == data
  }

  lemma HeldGrows(h: seq<Secrets>, h': seq<Secrets>, from: nat, from': nat, n: Name, data: Data)
    requires HeldIn(h, from, n, data) && h <= h' && from' <= from
    ensures HeldIn(h', from', n, data)
  {
    var i :| from <= i < |h| && n in h[i] && h[i][n].data == data;
    assert h'[i] == h[i];
  }

  /** At some moment there was no Secret of that name. */
  ghost predicate AbsentIn(history: seq<Secrets>, from: nat, n: Name) {
    exists i :: from <= i < |history| && n !in history[i]
  }

  lemma AbsentGrows(h: seq<Secrets>, h': seq<Secrets>, from: nat, from': nat, n: Name)
    requires AbsentIn(h, from, n) && h <= h' && from' <= from
    ensures AbsentIn(h', from', n)
  {
    var i :| from <= i < |h| && n !in h[i];
    assert h'[i] == h[i];
  }

  /** At some moment the name held a Secret with other data. */
  ghost predicate HeldOther(history: seq<Secrets>, from: nat, n: Name, data: Data) {
    exists i :: from <= i < |history| && n in history[i] && history[i][n].data != data
  }

  /** The Secret of that name changed, appeared or went away between two moments. */
  ghost predicate Contended(history: seq<Secrets>, from: nat, n: Name) {
    exists i, j :: from <= i < j < |history| && Lookup(history[i], n) != Lookup(history[j], n)
  }

  lemma TroubleGrows(h: seq<Secrets>, h': seq<Secrets>, from: nat, from': nat, n: Name, data: Data)
    requires h <= h' && from' <= from
    ensures HeldOther(h, from, n, data) ==> HeldOther(h', from', n, data)
    ensures Contended(h, from, n) ==> Contended(h', from', n)
  {
    if HeldOther(h, from, n, data) {
      var i :| from <= i < |h| && n in h[i] && h[i][n].data != data;
      assert h'[i] == h[i];
    }
    if Contended(h, from, n) {
      var i, j :| from <= i < j < |h| && Lookup(h[i], n) != Lookup(h[j], n);
      assert h'[i] == h[i] && h'[j] == h[j];
    }
  }

  lemma ChangeIsContention(h: seq<Secrets>, from: nat, i: nat, n: Name)
    requires from <= i < |h| && Lookup(h[i], n) != Lookup(h[|h| - 1], n)
    ensures Contended(h, from, n)
  {
    assert i < |h| - 1;
  }

  /**
  Why the conditional replace cannot lose an update: however long the environment acts, a Secret
  found under a version that was already taken when it was read has not changed in between.
  */
  lemma {:induction false} SameVersionMeansUntouched(ss: seq<Secrets>, rs: seq<nat>, i: nat, k: nat, j: nat, n: Name)
    requires |ss| == |rs| && i <= k <= j < |ss|
    requires forall t :: 0 <= t < |ss| - 1 ==> Environment(ss[t], rs[t], ss[t + 1], rs[t + 1])
    requires n in ss[j] && ss[j][n].version < rs[i]
    ensures n in ss[k] && ss[k][n] == ss[j][n]
    decreases j - k
  {
    if k < j {
      RevisionsGrow(ss, rs, i, j - 1);
      assert Environment(ss[j - 1], rs[j - 1], ss[j], rs[j]);
      SameVersionMeansUntouched(ss, rs, i, k, j - 1, n);
    }
  }

  lemma {:induction false} RevisionsGrow(ss: seq<Secrets>, rs: seq<nat>, i: nat, j: nat)
    requires |ss| == |rs| && i <= j < |ss|
    requires forall t :: 0 <= t < |ss| - 1 ==> Environment(ss[t], rs[t], ss[t + 1], rs[t + 1])
    ensures rs[i] <= rs[j]
    decreases j - i
  {
    if i < j {
      assert Environment(ss[i], rs[i], ss[i + 1], rs[i + 1]);
      RevisionsGrow(ss, rs, i + 1, j);
    }
  }

  /** The cluster as kubectl reaches it; `history`, `writes` and `faults` only record. */
  class ApiServer {
    var secrets: Secrets
    var revision: nat
    ghost var history: seq<Secrets>
    ghost var writes: seq<OwnWrite>
    ghost var faults: nat // calls that failed of themselves

    ghost predicate Valid()
      reads this
    {
      && (forall n :: n in secrets ==> secrets[n].version < revision)
      && history != [] && history[|history| - 1] == secrets
    }

    constructor (secrets: Secrets, revision: nat)
      requires forall n :: n in secrets ==> secrets[n].version < revision
      ensures Valid() && this.secrets == secrets && writes == [] && faults == 0
    {
      this.secrets, this.revision := secrets, revision;
      history, writes, faults := [secrets], [], 0;
    }

    /** What any call leaves of the past: nothing forgotten, nothing already versioned rewritten. */
    twostate predicate Continues()
      reads this
    {
      && Valid() && old(history) <= history && old(writes) <= writes
      && old(revision) <= revision && old(faults) <= faults
    }

    /** Concurrent activity between two kubectl calls. */
    method Interfere()
      requires Valid()
      modifies this
      ensures Continues() && writes == old(writes) && faults == old(faults)
      ensures Environment(old(secrets), old(revision), secrets, revision)
    {
      var s: Secrets := *;
      var r: nat := *;
      if 0 <= r && Environment(secrets, revision, s, r) {
        secrets, revision := s, r;
        history := history + [s];
      }
    }

    method Land(n: Name, s: Secret, ghost read: Option<Secret>)
      requires Valid() && s.version == revision
      modifies this
      ensures Continues() && secrets == old(secrets)[n := s] && revision == old(revision) + 1
      ensures history == old(history) + [secrets] && faults == old(faults)
      ensures writes == old(writes) + [OwnWrite(n, read, Lookup(old(secrets), n), s)]
    {
      writes := writes + [OwnWrite(n, read, Lookup(secrets, n), s)];
      secrets := secrets[n := s];
      revision := revision + 1;
      history := history + [secrets];
    }

    /** `kubectl get secret -o json`; any failure other than NotFound is a failure, not absence. */
    method Get(n: Name) returns (r: GetResult, ghost seen: Option<Secret>)
      requires Valid()
      modifies this
      ensures Continues() && writes == old(writes)
      ensures seen == Lookup(secrets, n)
      ensures r.NotFound? ==> seen.None?
      ensures r.Found? ==> seen.Some? && Matches(r.live, seen.value)
      ensures r.GetFailed? || (r.Found? && r.live.version.None?) ==> faults > old(faults)
    {
      Interfere();
      seen := Lookup(secrets, n);
      var fails: bool := *;
      if fails {
        faults := faults + 1;
        return GetFailed, seen;
      }
      if n !in secrets {
        return NotFound, seen;
      }
      var versioned: bool := *;
      var s := secrets[n];
      if !versioned {
        faults := faults + 1;
      }
      return Found(Live(s.data, if versioned then Some(s.version) else None, s.labels, s.annotations)), seen;
    }

    /** `kubectl create`: never touches a name that is taken; an error may hide a create that landed. */
    method Create(n: Name, data: Data, labels: map<string, string>) returns (r: CreateResult)
      requires Valid()
      modifies this
      ensures Continues()
      ensures writes == old(writes) ||
        exists s ::
          && writes == old(writes) + [OwnWrite(n, None, None, s)]
          && s.data == data && s.labels == labels && s.owners == {}
      ensures r.Created? ==> n in secrets && secrets[n].data == data && |writes| == |old(writes)| + 1
      ensures r.AlreadyExists? ==> writes == old(writes) && n in secrets
      ensures r.CreateFailed? ==> faults > old(faults)
    {
      Interfere();
      var fails: bool := *;
      if fails {
        faults := faults + 1;
      }
      if n in secrets {
        return if fails then CreateFailed else AlreadyExists;
      }
      var lands: bool := *;
      if fails && !lands {
        return CreateFailed;
      }
      Land(n, Secret(data, revision, labels, map[], {}), None);
      return if fails then CreateFailed else Created;
    }

    /**
    `kubectl replace` conditional on the resourceVersion that was read.  The whole object is sent,
    so the labels and annotations read are sent back and everything not read is dropped.
    */
    method Replace(n: Name, data: Data, live: Live, ghost seen: Secret) returns (ok: bool)
      requires Valid() && Lookup(secrets, n) == Some(seen) && Matches(live, seen)
      modifies this
      ensures Continues()
      ensures writes == old(writes) ||
        exists version ::
          writes == old(writes) + [OwnWrite(n, Some(seen), Some(seen), Replacement(live, data, version))]
      ensures ok ==> n in secrets && secrets[n].data == data
      ensures live.version.None? ==> !ok && writes == old(writes)
      ensures !ok ==> live.version.None? || faults > old(faults) || Lookup(secrets, n) != Some(seen)
    {
      if live.version.None? {
        return false;
      }
      Interfere();
      var fails: bool := *;
      var lands: bool := *;
      if fails {
        faults := faults + 1;
      }
      if n !in secrets || secrets[n].version != live.version.value || (fails && !lands) {
        return false;
      }
      assert secrets[n] == seen;
      Land(n, Replacement(live, data, revision), Some(seen));
      return !fails;
    }
  }
}
