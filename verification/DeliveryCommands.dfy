/**
The two commands over the API server of module `Delivery`, with their decisions.  What they
promise holds in every interleaving: each call starts with arbitrary concurrent activity.
*/
module DeliveryCommands {
  import opened Options
  import opened Delivery

  // ----- kakt spoke restore-pki -----

  datatype Decision = Restore | AlreadyPresent | Conflict | Missing

  /** `decidePKI`: from the material alone. */
  function DecidePKI(escrowed: Data, live: Option<Data>): Decision {
    if escrowed == map[] then Missing
    else if live.None? then Restore
    else if live.value == escrowed then AlreadyPresent
    else Conflict
  }

  /** What the escrow answers for one purpose; an empty payload is empty data. */
  datatype EscrowRead = Unreadable | Payload(data: Data)

  /** What reading the Cluster object answers before anything is written. */
  datatype ClusterRead = ClusterUnreadable | ClusterAbsent | ClusterPresent(specPaused: bool, annotated: bool)

  predicate MayWrite(c: ClusterRead) {
    c.ClusterAbsent? || (c.ClusterPresent? && (c.specPaused || c.annotated))
  }

  /** A write that only ever filled an empty name, with the data it was asked to deliver and no owner. */
  predicate FillsEmptyName(w: OwnWrite, n: Name, data: Data, labels: map<string, string>) {
    && w.name == n && w.before.None?
    && w.after.data == data && w.after.labels == labels && w.after.owners == {}
  }

  /** Why a purpose may be left unresolved when every call worked: nothing escrowed, or a Secret that
      differs, or someone else at work on that very name. */
  ghost predicate Excused(history: seq<Secrets>, from: nat, n: Name, escrow: EscrowRead) {
    || escrow.Unreadable? || escrow.data == map[]
    || HeldOther(history, from, n, escrow.data) || Contended(history, from, n)
  }

  datatype PurposeResult = Restored | Present | WouldRestore | Failed

  /** One turn of the per-purpose loop. */
  method RestoreOne(api: ApiServer, n: Name, escrow: EscrowRead, labels: map<string, string>, dryRun: bool)
    returns (r: PurposeResult)
    requires api.Valid()
    modifies api
    ensures api.Continues()
    ensures r.WouldRestore? ==>
      dryRun && escrow.Payload? && escrow.data != map[] && AbsentIn(api.history, |old(api.history)| - 1, n)
    ensures dryRun ==> !r.Restored? && api.writes == old(api.writes)
    ensures r.Restored? ==> |api.writes| == |old(api.writes)| + 1
    ensures r.Present? ==> api.writes == old(api.writes)
    ensures api.writes == old(api.writes) ||
      (escrow.Payload? && |api.writes| == |old(api.writes)| + 1
       && FillsEmptyName(api.writes[|old(api.writes)|], n, escrow.data, labels))
    ensures r.Restored? || r.Present? ==>
      escrow.Payload? && escrow.data != map[] && HeldIn(api.history, |old(api.history)| - 1, n, escrow.data)
    ensures escrow.Unreadable? || (escrow.Payload? && escrow.data == map[]) ==>
      r.Failed? && api.writes == old(api.writes) // recovery never generates a replacement
    ensures r.Failed? ==> api.faults > old(api.faults) || Excused(api.history, |old(api.history)| - 1, n, escrow)
  {
    if escrow.Unreadable? {
      return Failed;
    }
    var got, seen := api.Get(n);
    if got.GetFailed? {
      return Failed;
    }
    match DecidePKI(escrow.data, if got.Found? then Some(got.live.data) else None) {
      case Missing => return Failed;
      case Conflict =>
        assert api.history[|api.history| - 1] == api.secrets;
        return Failed;
      case AlreadyPresent =>
        assert api.history[|api.history| - 1] == api.secrets;
        return Present;
      case Restore =>
    }
    ghost var absent := |api.history| - 1;
    assert api.history[absent] == api.secrets && n !in api.history[absent];
    if dryRun {
      return WouldRestore;
    }
    var created := api.Create(n, escrow.data, labels);
    match created {
      case Created =>
        assert api.history[|api.history| - 1] == api.secrets;
        return Restored;
      case CreateFailed => return Failed;
      case AlreadyExists =>
    }
    // Appeared in the window: re-read and re-decide.
    ChangeIsContention(api.history, |old(api.history)| - 1, absent, n);
    ghost var taken := api.history;
    got, seen := api.Get(n);
    TroubleGrows(taken, api.history, |old(api.history)| - 1, |old(api.history)| - 1, n, escrow.data);
    if got.GetFailed? {
      return Failed;
    }
    if DecidePKI(escrow.data, if got.Found? then Some(got.live.data) else None).AlreadyPresent? {
      assert api.history[|api.history| - 1] == api.secrets;
      return Present;
    }
    return Failed;
  }

  /** Every write since `from` filled an empty name with the escrowed data of its purpose. */
  ghost predicate OnlyFills(writes: seq<OwnWrite>, from: nat, names: seq<Name>, escrow: seq<EscrowRead>,
                            labels: map<string, string>)
    requires |names| == |escrow|
  {
    forall i :: from <= i < |writes| ==>
      exists k :: 0 <= k < |names| && escrow[k].Payload? && FillsEmptyName(writes[i], names[k], escrow[k].data, labels)
  }

  ghost predicate SomeExcused(history: seq<Secrets>, from: nat, names: seq<Name>, escrow: seq<EscrowRead>)
    requires |names| == |escrow|
  {
    exists k :: 0 <= k < |names| && Excused(history, from, names[k], escrow[k])
  }

  lemma ExcusedGrows(h: seq<Secrets>, h': seq<Secrets>, from: nat, from': nat, names: seq<Name>,
                     escrow: seq<EscrowRead>, k: nat)
    requires |names| == |escrow| && h <= h' && from' <= from && k < |names|
    ensures SomeExcused(h, from', names, escrow) ==> SomeExcused(h', from', names, escrow)
    ensures Excused(h', from, names[k], escrow[k]) ==> SomeExcused(h', from', names, escrow)
  {
    if SomeExcused(h, from', names, escrow) {
      var j :| 0 <= j < |names| && Excused(h, from', names[j], escrow[j]);
      if escrow[j].Payload? {
        TroubleGrows(h, h', from', from', names[j], escrow[j].data);
      }
      assert Excused(h', from', names[j], escrow[j]);
    }
    if Excused(h', from, names[k], escrow[k]) {
      if escrow[k].Payload? {
        TroubleGrows(h', h', from, from', names[k], escrow[k].data);
      }
      assert Excused(h', from', names[k], escrow[k]);
    }
  }

  /** What a purpose was found to be: in place, or, for a dry run, still to be filled. */
  ghost predicate IsResolved(history: seq<Secrets>, from: nat, n: Name, escrow: EscrowRead, dryRun: bool) {
    && escrow.Payload? && escrow.data != map[]
    && (HeldIn(history, from, n, escrow.data) || (dryRun && AbsentIn(history, from, n)))
  }

  lemma ResolvedGrows(h: seq<Secrets>, h': seq<Secrets>, from: nat, from': nat, n: Name, escrow: EscrowRead,
                      dryRun: bool)
    requires h <= h' && from' <= from && IsResolved(h, from, n, escrow, dryRun)
    ensures IsResolved(h', from', n, escrow, dryRun)
  {
    if HeldIn(h, from, n, escrow.data) {
      HeldGrows(h, h', from, from', n, escrow.data);
    } else {
      AbsentGrows(h, h', from, from', n);
    }
  }

  /** The first n purposes were all found so. */
  ghost predicate AllResolved(history: seq<Secrets>, from: nat, names: seq<Name>, escrow: seq<EscrowRead>, dryRun: bool,
                              n: nat)
    requires |names| == |escrow| && n <= |names|
  {
    forall j :: 0 <= j < n ==> IsResolved(history, from, names[j], escrow[j], dryRun)
  }

  lemma AllResolvedGrows(h: seq<Secrets>, h': seq<Secrets>, from: nat, names: seq<Name>, escrow: seq<EscrowRead>,
                         dryRun: bool, n: nat)
    requires |names| == |escrow| && n < |names| && h <= h' && from <= |h| - 1
    requires AllResolved(h, from, names, escrow, dryRun, n)
    requires IsResolved(h', |h| - 1, names[n], escrow[n], dryRun)
    ensures AllResolved(h', from, names, escrow, dryRun, n + 1)
  {
    forall j | 0 <= j < n ensures IsResolved(h', from, names[j], escrow[j], dryRun) {
      ResolvedGrows(h, h', from, from, names[j], escrow[j], dryRun);
    }
    ResolvedGrows(h', h', |h| - 1, from, names[n], escrow[n], dryRun);
  }

  /**
  `runSpokeRestorePKI`: never modifies a Secret that exists, whatever happens concurrently, and
  reports success only if every trust root equalled the escrowed one at some moment of the run.
  */
  method RestorePKI(api: ApiServer, cluster: ClusterRead, names: seq<Name>, escrow: seq<EscrowRead>,
                    labels: map<string, string>, dryRun: bool)
    returns (ok: bool, restored: nat, present: nat, failed: nat)
    requires api.Valid() && |names| == |escrow|
    modifies api
    ensures api.Continues()
    ensures OnlyFills(api.writes, |old(api.writes)|, names, escrow, labels)
    ensures MayWrite(cluster) && !ok ==>
      api.faults > old(api.faults) || SomeExcused(api.history, |old(api.history)| - 1, names, escrow)
    ensures dryRun || !MayWrite(cluster) ==> api.writes == old(api.writes)
    ensures ok <==> MayWrite(cluster) && failed == 0
    ensures cluster.ClusterUnreadable? || (cluster.ClusterPresent? && !cluster.specPaused && !cluster.annotated) ==>
      !ok && api.writes == old(api.writes) && restored == present == failed == 0
    ensures cluster.ClusterAbsent? || (cluster.ClusterPresent? && (cluster.specPaused || cluster.annotated)) ==>
      (ok <==> failed == 0)
    ensures MayWrite(cluster) && !dryRun ==> restored + present + failed == |names|
    ensures dryRun ==> restored == 0 && present + failed <= |names|
    ensures restored <= |api.writes| - |old(api.writes)| <= restored + failed
    ensures ok ==> AllResolved(api.history, |old(api.history)| - 1, names, escrow, dryRun, |names|)
  {
    restored, present, failed := 0, 0, 0;
    if !MayWrite(cluster) {
      return false, 0, 0, 0;
    }
    for k := 0 to |names|
      invariant api.Continues()
      invariant OnlyFills(api.writes, |old(api.writes)|, names, escrow, labels)
      invariant failed > 0 ==>
        api.faults > old(api.faults) || SomeExcused(api.history, |old(api.history)| - 1, names, escrow)
      invariant dryRun ==> api.writes == old(api.writes) && restored == 0 && present + failed <= k
      invariant !dryRun ==> restored + present + failed == k
      invariant restored <= |api.writes| - |old(api.writes)| <= restored + failed
      invariant failed == 0 ==> AllResolved(api.history, |old(api.history)| - 1, names, escrow, dryRun, k)
    {
      ghost var before, written := api.history, api.writes;
      var r := RestoreOne(api, names[k], escrow[k], labels, dryRun);
      if failed == 0 && !r.Failed? {
        AllResolvedGrows(before, api.history, |old(api.history)| - 1, names, escrow, dryRun, k);
      }
      OnlyFillsGrows(written, api.writes, |old(api.writes)|, names, escrow, labels, k);
      ExcusedGrows(before, api.history, |before| - 1, |old(api.history)| - 1, names, escrow, k);
      match r {
        case Restored => restored := restored + 1;
        case Present => present := present + 1;
        case WouldRestore =>
        case Failed => failed := failed + 1;
      }
    }
    ok := failed == 0;
  }

  lemma OnlyFillsGrows(w: seq<OwnWrite>, w': seq<OwnWrite>, from: nat, names: seq<Name>, escrow: seq<EscrowRead>,
                       labels: map<string, string>, k: nat)
    requires |names| == |escrow| && k < |names| && from <= |w|
    requires OnlyFills(w, from, names, escrow, labels) && w <= w'
    requires w' == w
      || (escrow[k].Payload? && |w'| == |w| + 1 && FillsEmptyName(w'[|w|], names[k], escrow[k].data, labels))
    ensures OnlyFills(w', from, names, escrow, labels)
  {
    forall i | from <= i < |w'|
      ensures exists k ::
        && 0 <= k < |names| && escrow[k].Payload?
        && FillsEmptyName(w'[i], names[k], escrow[k].data, labels)
    {
      if i < |w| {
        assert w'[i] == w[i];
      }
    }
  }

  // ----- kakt escrow deliver-backup-credentials -----

  /** A replacement of exactly what was read: only the data (and what kubectl never sent) changes. */
  predicate ReplacesWhatWasRead(w: OwnWrite, n: Name, data: Data) {
    && w.name == n && w.before.Some? && w.read == w.before && w.before.value.data != data
    && w.after == w.before.value.(data := data, version := w.after.version, owners := {})
  }

  predicate Delivers(w: OwnWrite, n: Name, data: Data, rotatable: bool) {
    FillsEmptyName(w, n, data, map[]) || (rotatable && ReplacesWhatWasRead(w, n, data))
  }

  /** Why a delivery may be refused when every call worked. */
  ghost predicate Trouble(history: seq<Secrets>, from: nat, n: Name, data: Data, rotatable: bool) {
    (!rotatable && HeldOther(history, from, n, data)) || Contended(history, from, n)
  }

  /** What a dry run goes by: the name was free, held the data already, or held something it may replace. */
  ghost predicate IsPlanned(history: seq<Secrets>, from: nat, n: Name, data: Data, rotatable: bool) {
    AbsentIn(history, from, n) || HeldIn(history, from, n, data) || (rotatable && HeldOther(history, from, n, data))
  }

  /** `deliverTo` */
  method DeliverTo(api: ApiServer, n: Name, data: Data, rotatable: bool, dryRun: bool) returns (ok: bool)
    requires api.Valid()
    modifies api
    ensures api.Continues()
    ensures dryRun ==> api.writes == old(api.writes)
    ensures api.writes == old(api.writes) ||
      (|api.writes| == |old(api.writes)| + 1 && Delivers(api.writes[|old(api.writes)|], n, data, rotatable))
    ensures ok && !dryRun ==> HeldIn(api.history, |old(api.history)| - 1, n, data)
    ensures ok && dryRun ==> IsPlanned(api.history, |old(api.history)| - 1, n, data, rotatable)
    ensures !ok ==> api.faults > old(api.faults) || Trouble(api.history, |old(api.history)| - 1, n, data, rotatable)
  {
    var got, seen := api.Get(n);
    if got.GetFailed? {
      return false;
    }
    ghost var at := |api.history| - 1;
    assert api.history[at] == api.secrets;
    if got.Found? {
      if got.live.data == data {
        assert api.history[|api.history| - 1] == api.secrets;
        return true;
      }
      if !rotatable {
        return false;
      }
      if dryRun {
        return true;
      }
      ok := api.Replace(n, data, got.live, seen.value);
      if ok {
        assert api.history[|api.history| - 1] == api.secrets;
      } else if Lookup(api.secrets, n) != seen {
        ChangeIsContention(api.history, |old(api.history)| - 1, at, n);
      }
      return;
    }
    if dryRun {
      return true;
    }
    var created := api.Create(n, data, map[]);
    match created {
      case Created =>
        assert api.history[|api.history| - 1] == api.secrets;
        return true;
      case CreateFailed => return false;
      case AlreadyExists =>
    }
    ChangeIsContention(api.history, |old(api.history)| - 1, at, n);
    ghost var taken := api.history;
    got, seen := api.Get(n);
    TroubleGrows(taken, api.history, |old(api.history)| - 1, |old(api.history)| - 1, n, data);
    if got.Found? && got.live.data == data {
      assert api.history[|api.history| - 1] == api.secrets;
      return true;
    }
    return false;
  }

  const SSE_C_NAME := "velero-sse-c-key"
  const STORE_NAME := "velero-backup-store"
  const CNPG_NAME := "s3-credentials-escrowed"

  /** What every write of one run is allowed to be; the encryption key has no rotation at all. */
  predicate AllowedWrite(w: OwnWrite, rotateStore: bool) {
    && (w.before.Some? ==> rotateStore && w.name.1 != SSE_C_NAME
                           && ReplacesWhatWasRead(w, w.name, w.after.data))
  }

  ghost predicate AllowedSince(writes: seq<OwnWrite>, from: nat, rotateStore: bool) {
    forall i :: from <= i < |writes| ==> AllowedWrite(writes[i], rotateStore)
  }

  lemma AllowedGrows(w: seq<OwnWrite>, w': seq<OwnWrite>, from: nat, rotateStore: bool, n: Name, data: Data,
                     rotatable: bool)
    requires from <= |w| && w <= w' && AllowedSince(w, from, rotateStore)
    requires w' == w || (|w'| == |w| + 1 && Delivers(w'[|w|], n, data, rotatable))
    requires rotatable ==> rotateStore && n.1 != SSE_C_NAME
    ensures AllowedSince(w', from, rotateStore)
  {
    forall i | from <= i < |w'| ensures AllowedWrite(w'[i], rotateStore) {
      if i < |w| {
        assert w'[i] == w[i];
      }
    }
  }

  /** What the verdict on one Secret stands for. */
  ghost predicate Explained(ok: bool, faulted: bool, dryRun: bool, history: seq<Secrets>, from: nat, n: Name,
                            data: Option<Data>, rotatable: bool) {
    && (ok ==> data.Some?)
    && (ok && dryRun ==> IsPlanned(history, from, n, data.value, rotatable))
    && (ok && !dryRun ==> HeldIn(history, from, n, data.value))
    && (!ok ==> data.None? || faulted || Trouble(history, from, n, data.value, rotatable))
  }

  lemma ExplainedGrows(ok: bool, faulted: bool, faulted': bool, dryRun: bool, h: seq<Secrets>, h': seq<Secrets>,
                       from: nat, from': nat, n: Name, data: Option<Data>, rotatable: bool)
    requires Explained(ok, faulted, dryRun, h, from, n, data, rotatable)
    requires h <= h' && from' <= from && (faulted ==> faulted')
    ensures Explained(ok, faulted', dryRun, h', from', n, data, rotatable)
  {
    if data.Some? {
      TroubleGrows(h, h', from, from', n, data.value);
      if AbsentIn(h, from, n) {
        AbsentGrows(h, h', from, from', n);
      }
      if HeldIn(h, from, n, data.value) {
        HeldGrows(h, h', from, from', n, data.value);
      }
    }
  }

  /** One Secret of the run; None when its artefact was missing, unreadable or undecodable. */
  method DeliverOne(api: ApiServer, n: Name, data: Option<Data>, rotatable: bool, dryRun: bool, ghost rotateStore: bool,
                    ghost start: nat)
    returns (ok: bool)
    requires api.Valid() && start <= |api.writes| && AllowedSince(api.writes, start, rotateStore)
    requires rotatable ==> rotateStore && n.1 != SSE_C_NAME
    modifies api
    ensures api.Continues()
    ensures dryRun ==> api.writes == old(api.writes)
    ensures AllowedSince(api.writes, start, rotateStore)
    ensures Explained(ok, api.faults > old(api.faults), dryRun, api.history, |old(api.history)| - 1, n, data, rotatable)
  {
    if data.None? {
      return false;
    }
    ok := DeliverTo(api, n, data.value, rotatable, dryRun);
    AllowedGrows(old(api.writes), api.writes, start, rotateStore, n, data.value, rotatable);
  }

  /**
  `runDeliverBackupCredentials`.  Each input is what the escrow and the decoders answered: the
  SSE-C key, the store credential, and that credential in CloudNativePG's shape, each None when
  it was missing, unreadable or undecodable.  Success means each Secret held the escrowed data at
  some moment of the run; a refusal has a missing artefact, a failed call, or a Secret that differs
  or was being changed behind it.
  */
  method DeliverBackupCredentials(api: ApiServer, ns: string, cnpgNs: string, sseC: Option<Data>,
                                  store: Option<Data>, cnpg: Option<Data>, rotateStore: bool, dryRun: bool)
    returns (ok: bool, sseCOk: bool, storeOk: bool, cnpgOk: bool)
    requires api.Valid()
    modifies api
    ensures api.Continues()
    ensures AllowedSince(api.writes, |old(api.writes)|, rotateStore)
    ensures dryRun ==> api.writes == old(api.writes)
    ensures ok == (sseCOk && storeOk && cnpgOk)
    ensures var faulted, from := api.faults > old(api.faults), |old(api.history)| - 1;
      && Explained(sseCOk, faulted, dryRun, api.history, from, (ns, SSE_C_NAME), sseC, false)
      && Explained(storeOk, faulted, dryRun, api.history, from, (ns, STORE_NAME), store, rotateStore)
      && (store.Some? ==> Explained(cnpgOk, faulted, dryRun, api.history, from, (cnpgNs, CNPG_NAME), cnpg, rotateStore))
  {
    ghost var start, from := |api.writes|, |api.history| - 1;
    sseCOk := DeliverOne(api, (ns, SSE_C_NAME), sseC, false, dryRun, rotateStore, start);
    ghost var h1, f1 := api.history, api.faults;
    storeOk := DeliverOne(api, (ns, STORE_NAME), store, rotateStore, dryRun, rotateStore, start);
    ghost var h2, f2 := api.history, api.faults;
    cnpgOk := false;
    if store.Some? { // the second shape is only made from a credential that was read
      cnpgOk := DeliverOne(api, (cnpgNs, CNPG_NAME), cnpg, rotateStore, dryRun, rotateStore, start);
    }
    ghost var faulted := api.faults > old(api.faults);
    ExplainedGrows(sseCOk, f1 > old(api.faults), faulted, dryRun, h1, api.history, from, from,
                   (ns, SSE_C_NAME), sseC, false);
    ExplainedGrows(storeOk, f2 > f1, faulted, dryRun, h2, api.history, |h1| - 1, from,
                   (ns, STORE_NAME), store, rotateStore);
    if store.Some? {
      ExplainedGrows(cnpgOk, api.faults > f2, faulted, dryRun, api.history, api.history, |h2| - 1, from,
                     (cnpgNs, CNPG_NAME), cnpg, rotateStore);
    }
    ok := sseCOk && storeOk && cnpgOk;
  }
}
