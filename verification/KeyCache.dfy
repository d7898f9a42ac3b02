/**
`JWTValidator.getKey` of internal/auth-proxy/jwt.go with any number of calls at once.  The first look-up
and the deletion of an expired entry happen outside the mutex, also while another call that holds it
is storing the keys of a set one by one; so the steps here are the single operations on what the
calls share: each Load, Delete and Store of the `sync.Map`, the mutex, and the request for the set.
*/
module KeyCache {
  import opened Options
  import opened Jwks

  /** Where a call stands between two such operations. */
  datatype Call =
    | Looking(kid: string)
    | Deleting(kid: string) // it has seen an expired entry
    | Waiting(kid: string)
    | Checking(kid: string) // from here on it holds the mutex
    | Limiting(kid: string, checked: int)
    | Asking(kid: string, checked: int, started: int)
    | Storing(kid: string, checked: int, fetch: Fetch, next: nat)
    | Done(kid: string, answer: Option<PublicKey>)
  {
    predicate InSection() { Checking? || Limiting? || Asking? || Storing? }
  }

  /** A change to the map. */
  datatype Change = Stored(kid: string, cached: Cached) | Deleted(kid: string)

  datatype State = State(
    ttl: int,
    interval: int,
    cache: map<string, Cached>,
    lastRefresh: Option<int>,
    holder: Option<nat>,
    calls: seq<Call>,
    attempts: seq<Attempt>,
    changes: seq<Change>)

  function Init(ttl: int, interval: int): State {
    State(ttl, interval, map[], None, None, [], [], [])
  }

  datatype Action =
    | Enter(kid: string)
    | Take(call: nat, now: int)
    | Receive(call: nat, response: Option<seq<Jwk>>, refreshed: int, stamped: int)

  function Goes(s: State, i: nat, c: Call): State
    requires i < |s.calls|
  {
    s.(calls := s.calls[i := c])
  }

  function Answers(s: State, i: nat, key: Option<PublicKey>): State
    requires i < |s.calls|
  {
    Goes(s, i, Done(s.calls[i].kid, key))
  }

  /** Answer and give the mutex back. */
  function Leaves(s: State, i: nat, key: Option<PublicKey>): State
    requires i < |s.calls|
  {
    Answers(s, i, key).(holder := None)
  }

  function KeyAt(cache: map<string, Cached>, kid: string): Option<PublicKey> {
    if kid in cache then Some(cache[kid].key) else None
  }

  function Look(s: State, i: nat, now: int): State
    requires i < |s.calls| && s.calls[i].Looking?
  {
    var kid := s.calls[i].kid;
    if Fresh(s.cache, kid, now) then Answers(s, i, KeyAt(s.cache, kid))
    else Goes(s, i, if kid in s.cache then Deleting(kid) else Waiting(kid))
  }

  function Delete(s: State, i: nat): State
    requires i < |s.calls| && s.calls[i].Deleting?
  {
    var kid := s.calls[i].kid;
    Goes(s, i, Waiting(kid)).(cache := s.cache - {kid}, changes := s.changes + [Deleted(kid)])
  }

  function Check(s: State, i: nat, now: int): State
    requires i < |s.calls| && s.calls[i].Checking?
  {
    var kid := s.calls[i].kid;
    if Fresh(s.cache, kid, now) then Leaves(s, i, KeyAt(s.cache, kid)) else Goes(s, i, Limiting(kid, now))
  }

  function Limit(s: State, i: nat, now: int): State
    requires i < |s.calls| && s.calls[i].Limiting?
  {
    var c := s.calls[i];
    if Due(s.lastRefresh, now, s.interval) then Goes(s, i, Asking(c.kid, c.checked, now)) else Leaves(s, i, None)
  }

  /** The next key of the set, if it converts. */
  function Store(s: State, i: nat): State
    requires i < |s.calls| && s.calls[i].Storing? && s.calls[i].next < |s.calls[i].fetch.keys|
  {
    var c := s.calls[i];
    var jwk, on := c.fetch.keys[c.next], Goes(s, i, c.(next := c.next + 1));
    if Convert(jwk).None? then on
    else
      var cached := Cached(Convert(jwk).value, c.fetch.stamped + s.ttl);
      on.(cache := s.cache[jwk.kid := cached], changes := s.changes + [Stored(jwk.kid, cached)])
  }

  /** An answered request sets `lastRefresh`; a failed one leaves no trace. */
  function Hear(s: State, i: nat, response: Option<seq<Jwk>>, refreshed: int, stamped: int): State
    requires i < |s.calls| && s.calls[i].Asking?
  {
    var c := s.calls[i];
    if response.None? then Leaves(s, i, None).(attempts := s.attempts + [Unanswered(c.started)])
    else
      var f := Fetch(c.started, refreshed, stamped, response.value);
      Goes(s, i, Storing(c.kid, c.checked, f, 0))
        .(lastRefresh := Some(refreshed), attempts := s.attempts + [Answered(f)])
  }

  /** One operation of one call; None where it has to wait. */
  function Next(s: State, a: Action): Option<State> {
    match a
    case Enter(kid) => Some(s.(calls := s.calls + [Looking(kid)]))
    case Receive(i, response, refreshed, stamped) =>
      if i < |s.calls| && s.calls[i].Asking? then Some(Hear(s, i, response, refreshed, stamped)) else None
    case Take(i, now) =>
      if i >= |s.calls| then None
      else
        match s.calls[i]
        case Looking(_) => Some(Look(s, i, now))
        case Deleting(_) => Some(Delete(s, i))
        case Waiting(kid) => if s.holder.Some? then None else Some(Goes(s, i, Checking(kid)).(holder := Some(i)))
        case Checking(_) => Some(Check(s, i, now))
        case Limiting(_, _) => Some(Limit(s, i, now))
        case Asking(_, _, _) => None
        case Storing(kid, _, f, next) =>
          Some(if next < |f.keys| then Store(s, i) else Leaves(s, i, KeyAt(s.cache, kid)))
        case Done(_, _) => None
  }

  function Run(s: State, actions: seq<Action>): Option<State>
    decreases |actions|
  {
    if actions == [] then Some(s)
    else
      var before := Run(s, actions[..|actions| - 1]);
      if before.None? then None else Next(before.value, actions[|actions| - 1])
  }

  // ----- What is known to the calls -----

  /** The last change to a kid removed it. */
  predicate Dropped(changes: seq<Change>, kid: string) {
    changes != [] &&
    var last := changes[|changes| - 1];
    if last.kid == kid then last.Deleted? else Dropped(changes[..|changes| - 1], kid)
  }

  /** The call that is storing a set right now. */
  function Refilling(s: State): Option<Call> {
    if s.holder.Some? && s.holder.value < |s.calls| && s.calls[s.holder.value].Storing?
    then Some(s.calls[s.holder.value]) else None
  }

  /** The sets fetched so far; of one that is being stored, only the keys that have been. */
  function Known(s: State): seq<Fetch> {
    var fetches, c := Successes(s.attempts), Refilling(s);
    if fetches == [] || c.None? || c.value.next > |c.value.fetch.keys| then fetches
    else fetches[..|fetches| - 1] + [c.value.fetch.(keys := c.value.fetch.keys[..c.value.next])]
  }

  /** The key most recently published under a kid, stamped when its set was fetched. */
  function Backing(known: seq<Fetch>, ttl: int, kid: string): Option<Cached> {
    if known == [] then None
    else
      var last := known[|known| - 1];
      if Published(last.keys, kid).Some? then Some(Cached(Published(last.keys, kid).value, last.stamped + ttl))
      else Backing(known[..|known| - 1], ttl, kid)
  }

  lemma {:induction false} BackingIsLatest(known: seq<Fetch>, ttl: int, kid: string)
    ensures Backing(known, ttl, kid).Some? ==> Backed(known, ttl, kid, Backing(known, ttl, kid).value)
    ensures Backing(known, ttl, kid).None? ==> Latest(known, kid).None?
  {
    if known != [] {
      BackingIsLatest(known[..|known| - 1], ttl, kid);
    }
  }

  lemma BackingSnoc(known: seq<Fetch>, f: Fetch, ttl: int, kid: string)
    ensures Backing(known + [f], ttl, kid) ==
      if Published(f.keys, kid).Some? then Some(Cached(Published(f.keys, kid).value, f.stamped + ttl))
      else Backing(known, ttl, kid)
  {
    assert (known + [f])[..|known|] == known;
  }

  lemma DroppedSnoc(changes: seq<Change>, c: Change, kid: string)
    ensures Dropped(changes + [c], kid) <==> if c.kid == kid then c.Deleted? else Dropped(changes, kid)
  {
    assert (changes + [c])[..|changes|] == changes;
  }

  // ----- What every step keeps -----

  /** Only the holder is in the section, and it is. */
  ghost predicate MutexHeld(s: State) {
    && (s.holder.Some? ==> s.holder.value < |s.calls| && s.calls[s.holder.value].InSection())
    && forall i :: 0 <= i < |s.calls| && s.calls[i].InSection() ==> s.holder == Some(i)
  }

  /** What the holder has found out so far still stands. */
  ghost predicate Prepared(s: State, c: Call) {
    match c
    case Asking(_, _, started) => Due(s.lastRefresh, started, s.interval)
    case Storing(_, _, f, next) =>
      && Successes(s.attempts) != [] && Successes(s.attempts)[|Successes(s.attempts)| - 1] == f
      && next <= |f.keys|
    case _ => true
  }

  /** The holder's kid is missing, or expired since before it was checked, or just stored. */
  ghost predicate StillMissing(s: State, c: Call) {
    c.kid in s.cache ==>
      match c
      case Limiting(kid, checked) => s.cache[kid].expiresAt <= checked
      case Asking(kid, checked, _) => s.cache[kid].expiresAt <= checked
      case Storing(kid, checked, f, next) =>
        next <= |f.keys| && (s.cache[kid].expiresAt <= checked || Published(f.keys[..next], kid).Some?)
      case _ => true
  }

  ghost predicate CachesAt(s: State, kid: string) {
    At(s.cache, kid) == if Dropped(s.changes, kid) then None else Backing(Known(s), s.ttl, kid)
  }

  /** The map holds, under every kid, the latest key known -- unless that was deleted since. */
  ghost predicate CachesExactly(s: State) {
    forall kid :: CachesAt(s, kid)
  }

  ghost predicate Paced(s: State) {
    s.lastRefresh == Refreshed(Successes(s.attempts)) && Limited(s.attempts, s.interval)
  }

  ghost predicate Inv(s: State) {
    && MutexHeld(s) && Paced(s) && CachesExactly(s)
    && forall i :: 0 <= i < |s.calls| ==> Prepared(s, s.calls[i]) && StillMissing(s, s.calls[i])
  }

  lemma InitInv(ttl: int, interval: int)
    ensures Inv(Init(ttl, interval))
  {
  }

  /** A step that changes neither the map nor what is known. */
  lemma QuietKeepsCache(s: State, t: State)
    requires CachesExactly(s) && t.cache == s.cache && t.changes == s.changes && t.ttl == s.ttl
    requires Known(t) == Known(s)
    ensures CachesExactly(t)
  {
    forall kid ensures CachesAt(t, kid) {
      assert CachesAt(s, kid);
    }
  }

  lemma EnterKeeps(s: State, kid: string)
    requires Inv(s)
    ensures Inv(s.(calls := s.calls + [Looking(kid)]))
  {
    var t := s.(calls := s.calls + [Looking(kid)]);
    assert forall i :: 0 <= i < |s.calls| ==> t.calls[i] == s.calls[i];
    assert Refilling(t) == Refilling(s);
    QuietKeepsCache(s, t);
  }

  /** A call outside the section that goes on outside it. */
  lemma OutsideKeeps(s: State, i: nat, c: Call)
    requires Inv(s) && i < |s.calls| && !s.calls[i].InSection() && !c.InSection()
    ensures Inv(Goes(s, i, c))
  {
    var t := Goes(s, i, c);
    assert forall j :: 0 <= j < |s.calls| && j != i ==> t.calls[j] == s.calls[j];
    assert s.holder != Some(i) && Refilling(t) == Refilling(s);
    QuietKeepsCache(s, t);
  }

  lemma LockKeeps(s: State, i: nat)
    requires Inv(s) && i < |s.calls| && s.calls[i].Waiting? && s.holder.None?
    ensures Inv(Goes(s, i, Checking(s.calls[i].kid)).(holder := Some(i)))
  {
    var t := Goes(s, i, Checking(s.calls[i].kid)).(holder := Some(i));
    assert forall j :: 0 <= j < |s.calls| && j != i ==> t.calls[j] == s.calls[j];
    assert Refilling(t) == Refilling(s) == None;
    QuietKeepsCache(s, t);
  }

  lemma LeaveKeeps(s: State, i: nat, key: Option<PublicKey>)
    requires Inv(s) && i < |s.calls| && s.calls[i].InSection()
    requires s.calls[i].Storing? ==> s.calls[i].next == |s.calls[i].fetch.keys|
    ensures Inv(Leaves(s, i, key))
  {
    var t, fetches := Leaves(s, i, key), Successes(s.attempts);
    assert forall j :: 0 <= j < |s.calls| && j != i ==> t.calls[j] == s.calls[j];
    assert s.holder == Some(i) && Known(t) == fetches;
    if s.calls[i].Storing? {
      var f := s.calls[i].fetch;
      assert Prepared(s, s.calls[i]);
      assert f.keys[..|f.keys|] == f.keys;
      assert fetches == fetches[..|fetches| - 1] + [f];
    }
    QuietKeepsCache(s, t);
  }

  /** The holder goes on, without having stored anything yet. */
  lemma HolderKeeps(s: State, i: nat, c: Call)
    requires Inv(s) && i < |s.calls| && s.calls[i].InSection() && !s.calls[i].Storing?
    requires c.InSection() && !c.Storing? && Prepared(s, c) && StillMissing(s, c)
    ensures Inv(Goes(s, i, c))
  {
    var t := Goes(s, i, c);
    assert forall j :: 0 <= j < |s.calls| && j != i ==> t.calls[j] == s.calls[j];
    assert s.holder == Some(i);
    QuietKeepsCache(s, t);
  }

  lemma DeleteKeeps(s: State, i: nat)
    requires Inv(s) && i < |s.calls| && s.calls[i].Deleting?
    ensures Inv(Delete(s, i))
  {
    var t, kid := Delete(s, i), s.calls[i].kid;
    assert forall j :: 0 <= j < |s.calls| && j != i ==> t.calls[j] == s.calls[j];
    assert s.holder != Some(i) && Refilling(t) == Refilling(s) && Known(t) == Known(s);
    forall k ensures CachesAt(t, k) {
      assert CachesAt(s, k);
      DroppedSnoc(s.changes, Deleted(kid), k);
    }
    forall j | 0 <= j < |t.calls| ensures Prepared(t, t.calls[j]) && StillMissing(t, t.calls[j]) {
      if j != i {
        assert Prepared(s, s.calls[j]) && StillMissing(s, s.calls[j]);
      }
    }
  }

  lemma FailKeeps(s: State, i: nat)
    requires Inv(s) && i < |s.calls| && s.calls[i].Asking?
    ensures Inv(Leaves(s, i, None).(attempts := s.attempts + [Unanswered(s.calls[i].started)]))
  {
    var a, u := Unanswered(s.calls[i].started), Leaves(s, i, None);
    var t := u.(attempts := s.attempts + [a]);
    LeaveKeeps(s, i, None);
    assert Prepared(s, s.calls[i]);
    SuccessesSnoc(s.attempts, a);
    LimitedSnoc(s.attempts, a, s.interval);
    assert Known(t) == Known(u);
    QuietKeepsCache(u, t);
  }

  lemma HearKeeps(s: State, i: nat, keys: seq<Jwk>, refreshed: int, stamped: int)
    requires Inv(s) && i < |s.calls| && s.calls[i].Asking?
    ensures Inv(Hear(s, i, Some(keys), refreshed, stamped))
  {
    var t, f := Hear(s, i, Some(keys), refreshed, stamped), Fetch(s.calls[i].started, refreshed, stamped, keys);
    var fetches := Successes(s.attempts);
    assert forall j :: 0 <= j < |s.calls| && j != i ==> t.calls[j] == s.calls[j];
    assert s.holder == Some(i) && Prepared(s, s.calls[i]) && StillMissing(s, s.calls[i]);
    SuccessesSnoc(s.attempts, Answered(f));
    LimitedSnoc(s.attempts, Answered(f), s.interval);
    var start := f.(keys := keys[..0]);
    assert Known(s) == fetches && Known(t) == fetches + [start];
    forall kid ensures CachesAt(t, kid) {
      assert CachesAt(s, kid);
      BackingSnoc(fetches, start, s.ttl, kid);
    }
  }

  lemma KnownWhileStoring(s: State, i: nat)
    requires Inv(s) && i < |s.calls| && s.calls[i].Storing?
    ensures var fetches, c := Successes(s.attempts), s.calls[i];
      && fetches != [] && c.next <= |c.fetch.keys| && fetches[|fetches| - 1] == c.fetch
      && Known(s) == fetches[..|fetches| - 1] + [c.fetch.(keys := c.fetch.keys[..c.next])]
  {
    assert s.holder == Some(i) && Prepared(s, s.calls[i]);
  }

  lemma StoreCaches(s: State, i: nat, kid: string)
    requires Inv(s) && i < |s.calls| && s.calls[i].Storing? && s.calls[i].next < |s.calls[i].fetch.keys|
    ensures CachesAt(Store(s, i), kid)
  {
    var c, t := s.calls[i], Store(s, i);
    var fetches, jwk := Successes(s.attempts), c.fetch.keys[c.next];
    KnownWhileStoring(s, i);
    var before := fetches[..|fetches| - 1];
    var held, more := c.fetch.(keys := c.fetch.keys[..c.next]), c.fetch.(keys := c.fetch.keys[..c.next + 1]);
    assert s.holder == Some(i) && Known(t) == before + [more];
    assert CachesAt(s, kid);
    BackingSnoc(before, held, s.ttl, kid);
    BackingSnoc(before, more, s.ttl, kid);
    PublishedSnoc(c.fetch.keys, c.next, kid);
    if Convert(jwk).Some? {
      DroppedSnoc(s.changes, Stored(jwk.kid, Cached(Convert(jwk).value, c.fetch.stamped + s.ttl)), kid);
    }
  }

  lemma StoreKeeps(s: State, i: nat)
    requires Inv(s) && i < |s.calls| && s.calls[i].Storing? && s.calls[i].next < |s.calls[i].fetch.keys|
    ensures Inv(Store(s, i))
  {
    var c, t := s.calls[i], Store(s, i);
    assert forall j :: 0 <= j < |s.calls| && j != i ==> t.calls[j] == s.calls[j];
    assert s.holder == Some(i) && Prepared(s, c) && StillMissing(s, c);
    forall kid ensures CachesAt(t, kid) {
      StoreCaches(s, i, kid);
    }
    PublishedSnoc(c.fetch.keys, c.next, c.kid);
    forall j | 0 <= j < |t.calls| ensures Prepared(t, t.calls[j]) && StillMissing(t, t.calls[j]) {
      if j != i {
        assert Prepared(s, s.calls[j]) && StillMissing(s, s.calls[j]) && !s.calls[j].InSection();
      }
    }
  }

  lemma TakeKeepsInv(s: State, i: nat, now: int)
    requires Inv(s) && Next(s, Take(i, now)).Some?
    ensures Inv(Next(s, Take(i, now)).value)
  {
    var c := s.calls[i];
    match c
    case Looking(kid) =>
      OutsideKeeps(s, i, if Fresh(s.cache, kid, now) then Done(kid, KeyAt(s.cache, kid))
                         else if kid in s.cache then Deleting(kid) else Waiting(kid));
    case Deleting(_) => DeleteKeeps(s, i);
    case Waiting(_) => LockKeeps(s, i);
    case Checking(kid) =>
      if Fresh(s.cache, kid, now) {
        LeaveKeeps(s, i, KeyAt(s.cache, kid));
      } else {
        HolderKeeps(s, i, Limiting(kid, now));
      }
    case Limiting(kid, checked) =>
      assert StillMissing(s, c);
      if Due(s.lastRefresh, now, s.interval) {
        HolderKeeps(s, i, Asking(kid, checked, now));
      } else {
        LeaveKeeps(s, i, None);
      }
    case Storing(kid, _, f, next) =>
      assert Prepared(s, c);
      if next < |f.keys| {
        StoreKeeps(s, i);
      } else {
        LeaveKeeps(s, i, KeyAt(s.cache, kid));
      }
    case _ =>
  }

  lemma StepKeepsInv(s: State, a: Action)
    requires Inv(s) && Next(s, a).Some?
    ensures Inv(Next(s, a).value)
  {
    match a
    case Enter(kid) => EnterKeeps(s, kid);
    case Take(i, now) => TakeKeepsInv(s, i, now);
    case Receive(i, response, refreshed, stamped) =>
      if response.None? {
        FailKeeps(s, i);
      } else {
        HearKeeps(s, i, response.value, refreshed, stamped);
      }
  }

  lemma {:induction false} RunKeepsInv(s: State, actions: seq<Action>)
    requires Inv(s) && Run(s, actions).Some?
    ensures Inv(Run(s, actions).value)
    decreases |actions|
  {
    if actions != [] {
      RunKeepsInv(s, actions[..|actions| - 1]);
      StepKeepsInv(Run(s, actions[..|actions| - 1]).value, actions[|actions| - 1]);
    }
  }

  // ----- Over every run -----

  /** Some run of some calls, in some order, leads here. */
  ghost predicate Reachable(s: State) {
    exists actions :: Run(Init(s.ttl, s.interval), actions) == Some(s)
  }

  lemma ReachableInv(s: State)
    requires Reachable(s)
    ensures Inv(s)
  {
    var actions :| Run(Init(s.ttl, s.interval), actions) == Some(s);
    InitInv(s.ttl, s.interval);
    RunKeepsInv(Init(s.ttl, s.interval), actions);
  }

  /**
  Whatever the interleaving, no request for the set starts within the refresh interval of the last
  successful one before it, and no two are under way at once.
  */
  lemma RateIsLimitedOverEveryRun(s: State)
    requires Reachable(s)
    ensures forall i :: 0 <= i < |s.attempts| ==>
      Due(Refreshed(Successes(s.attempts[..i])), s.attempts[i].Started(), s.interval)
    ensures forall i, j :: 0 <= i < j < |s.calls| ==> !(s.calls[i].Asking? && s.calls[j].Asking?)
  {
    ReachableInv(s);
    forall i | 0 <= i < |s.attempts|
      ensures Due(Refreshed(Successes(s.attempts[..i])), s.attempts[i].Started(), s.interval)
    {
      LimitedEach(s.attempts, s.interval, i);
    }
  }

  lemma BackingKey(known: seq<Fetch>, ttl: int, kid: string, key: PublicKey)
    ensures IsLatest(known, kid, key) <==> Backing(known, ttl, kid).Some? && Backing(known, ttl, kid).value.key == key
  {
    BackingIsLatest(known, ttl, kid);
  }

  /** A Load finds exactly the latest key among those stored so far, unless that was deleted since. */
  lemma LoadIsExactly(s: State, kid: string, key: PublicKey)
    requires Reachable(s)
    ensures KeyAt(s.cache, kid) == Some(key) <==> !Dropped(s.changes, kid) && IsLatest(Known(s), kid, key)
  {
    ReachableInv(s);
    assert CachesAt(s, kid);
    BackingKey(Known(s), s.ttl, kid, key);
  }

  /** What call i answers in this step. */
  ghost predicate AnswersIn(s: State, a: Action, i: nat, answer: Option<PublicKey>) {
    && Next(s, a).Some? && i < |s.calls| && !s.calls[i].Done?
    && i < |Next(s, a).value.calls| && Next(s, a).value.calls[i] == Done(s.calls[i].kid, answer)
  }

  /**
  Every key that any call hands out, in any run, is the latest one published under its kid among the
  keys stored by then, and unexpired when it was read -- unless it comes from the look-up after a
  refill, which does not ask.
  */
  lemma AnswersAreKnownKeys(s: State, a: Action, i: nat, key: PublicKey)
    requires Reachable(s) && AnswersIn(s, a, i, Some(key))
    ensures !Dropped(s.changes, s.calls[i].kid) && IsLatest(Known(s), s.calls[i].kid, key)
    ensures s.calls[i].Storing? || (a.Take? && Fresh(s.cache, s.calls[i].kid, a.now))
  {
    assert a.Take? && a.call == i && KeyAt(s.cache, s.calls[i].kid) == Some(key);
    LoadIsExactly(s, s.calls[i].kid, key);
  }

  /** The set being stored holds another key under the kid, which is yet to come. */
  ghost predicate IsOvertaken(s: State, kid: string, key: PublicKey) {
    var c := Refilling(s);
    c.Some? && Published(c.value.fetch.keys, kid).Some? && Published(c.value.fetch.keys, kid) != Some(key)
  }

  lemma IsLatestSnoc(known: seq<Fetch>, f: Fetch, kid: string, key: PublicKey)
    ensures IsLatest(known + [f], kid, key) <==>
      if Published(f.keys, kid).Some? then Published(f.keys, kid) == Some(key) else IsLatest(known, kid, key)
  {
    BackingSnoc(known, f, 0, kid);
    BackingKey(known + [f], 0, kid, key);
    BackingKey(known, 0, kid, key);
  }

  lemma {:induction false} NonePublishedInFront(keys: seq<Jwk>, n: nat, kid: string)
    requires n <= |keys| && Published(keys, kid).None?
    ensures Published(keys[..n], kid).None?
    decreases |keys|
  {
    if n < |keys| {
      NonePublishedInFront(keys[..|keys| - 1], n, kid);
      assert keys[..|keys| - 1][..n] == keys[..n];
    } else {
      assert keys[..n] == keys;
    }
  }

  /**
  So a key that is found is the latest published in the sets fetched by then if and only if no set is
  being stored that holds another key under its kid.
  */
  lemma FoundIsLatestExactly(s: State, kid: string, key: PublicKey)
    requires Reachable(s) && KeyAt(s.cache, kid) == Some(key)
    ensures IsLatest(Successes(s.attempts), kid, key) <==> !IsOvertaken(s, kid, key)
  {
    ReachableInv(s);
    LoadIsExactly(s, kid, key);
    if Refilling(s).Some? {
      var i, fetches := s.holder.value, Successes(s.attempts);
      var c := s.calls[i];
      KnownWhileStoring(s, i);
      var before := fetches[..|fetches| - 1];
      assert fetches == before + [c.fetch];
      IsLatestSnoc(before, c.fetch, kid, key);
      IsLatestSnoc(before, c.fetch.(keys := c.fetch.keys[..c.next]), kid, key);
      if Published(c.fetch.keys, kid).None? {
        NonePublishedInFront(c.fetch.keys, c.next, kid);
      }
    }
  }

  /** A call that has stored its whole set and looks for its key. */
  ghost predicate IsLastLook(s: State, i: nat) {
    i < |s.calls| && s.calls[i].Storing? && s.calls[i].next == |s.calls[i].fetch.keys|
  }

  /**
  The look-up after a refill.  A key the set publishes is answered, or refused -- exactly when another
  call's deletion came after the last Store of its kid.  A kid the set does not publish is refused,
  or answered -- exactly when an entry is there that had expired before the set was asked for.
  */
  lemma LastLookExactly(s: State, i: nat, now: int, answer: Option<PublicKey>)
    requires Reachable(s) && IsLastLook(s, i) && AnswersIn(s, Take(i, now), i, answer)
    ensures var c := s.calls[i];
      if Published(c.fetch.keys, c.kid).Some? then
        answer == if Dropped(s.changes, c.kid) then None else Published(c.fetch.keys, c.kid)
      else
        && (answer.Some? <==> c.kid in s.cache)
        && (c.kid in s.cache ==> s.cache[c.kid].expiresAt <= c.checked)
  {
    ReachableInv(s);
    var c := s.calls[i];
    var fetches := Successes(s.attempts);
    KnownWhileStoring(s, i);
    assert c.fetch.keys[..|c.fetch.keys|] == c.fetch.keys;
    assert StillMissing(s, c) && CachesAt(s, c.kid);
    BackingSnoc(fetches[..|fetches| - 1], c.fetch, s.ttl, c.kid);
  }

  /** As long as some call has not answered, some call can take a step. */
  lemma NeverStuck(s: State, i: nat) returns (a: Action)
    requires Reachable(s) && i < |s.calls| && !s.calls[i].Done?
    ensures !a.Enter? && Next(s, a).Some?
  {
    ReachableInv(s);
    var j := if s.holder.Some? then s.holder.value else i;
    a := if s.calls[j].Asking? then Receive(j, None, 0, 0) else Take(j, 0);
  }

  // ----- Two races, and an expired key -----

  lemma Extends(s: State, a: Action) returns (t: State)
    requires Reachable(s) && Next(s, a).Some?
    ensures Next(s, a) == Some(t) && Reachable(t)
  {
    t := Next(s, a).value;
    var actions :| Run(Init(s.ttl, s.interval), actions) == Some(s);
    var longer := actions + [a];
    assert longer[..|longer| - 1] == actions && longer[|longer| - 1] == a;
    StepKeepsConfiguration(s, a);
    assert Run(Init(t.ttl, t.interval), longer) == Some(t);
  }

  lemma StepKeepsConfiguration(s: State, a: Action)
    requires Next(s, a).Some?
    ensures Next(s, a).value.ttl == s.ttl && Next(s, a).value.interval == s.interval
  {
  }

  lemma InitIsReachable(ttl: int, interval: int)
    ensures Reachable(Init(ttl, interval))
  {
    assert Run(Init(ttl, interval), []) == Some(Init(ttl, interval));
  }

  /** A key under kid k. */
  function Rsa(k: string, modulus: nat): Jwk {
    Jwk(k, "RSA", Some(modulus), Some([]))
  }

  lemma RsaConverts(k: string, modulus: nat)
    ensures Convert(Rsa(k, modulus)) == Some(PublicKey(modulus, 0))
  {
    assert Fold([]) == 0;
  }

  /** A call that finds nothing fresh, takes the mutex and asks. */
  lemma ComesToAsk(s: State, i: nat, now: int) returns (t: State)
    requires Reachable(s) && i < |s.calls| && s.calls[i].Waiting? && s.holder.None?
    requires !Fresh(s.cache, s.calls[i].kid, now) && Due(s.lastRefresh, now, s.interval)
    ensures Reachable(t) && t == Goes(s, i, Asking(s.calls[i].kid, now, now)).(holder := Some(i))
  {
    var a := Extends(s, Take(i, now));
    var b := Extends(a, Take(i, now));
    t := Extends(b, Take(i, now));
    assert t.calls == s.calls[i := Asking(s.calls[i].kid, now, now)];
  }

  function Filled(s: State, i: nat, f: Fetch, key: PublicKey): State
    requires i < |s.calls| && s.calls[i].Asking? && |f.keys| > 0
  {
    var c, jwk, cached := s.calls[i], f.keys[0], Cached(key, f.stamped + s.ttl);
    State(s.ttl, s.interval, s.cache[jwk.kid := cached], Some(f.refreshed), s.holder,
          s.calls[i := Storing(c.kid, c.checked, f, 1)],
          s.attempts + [Answered(f)], s.changes + [Stored(jwk.kid, cached)])
  }

  /** Its request is answered, and the first key of the set stored. */
  lemma StoresFirst(s: State, i: nat, f: Fetch, key: PublicKey) returns (t: State)
    requires Reachable(s) && i < |s.calls| && s.calls[i].Asking? && f.started == s.calls[i].started
    requires |f.keys| > 0 && Convert(f.keys[0]) == Some(key)
    ensures Reachable(t) && t == Filled(s, i, f, key)
  {
    var a := Extends(s, Receive(i, Some(f.keys), f.refreshed, f.stamped));
    FillsInOneStore(s, i, f, key);
    t := Extends(a, Take(i, 0));
  }

  lemma FillsInOneStore(s: State, i: nat, f: Fetch, key: PublicKey)
    requires i < |s.calls| && s.calls[i].Asking? && f.started == s.calls[i].started
    requires |f.keys| > 0 && Convert(f.keys[0]) == Some(key)
    ensures var a := Hear(s, i, Some(f.keys), f.refreshed, f.stamped);
      Next(a, Take(i, 0)) == Some(Filled(s, i, f, key))
  {
    var c, a := s.calls[i], Hear(s, i, Some(f.keys), f.refreshed, f.stamped);
    assert a.calls[i] == Storing(c.kid, c.checked, f, 0);
    assert a.calls[i := Storing(c.kid, c.checked, f, 1)] == s.calls[i := Storing(c.kid, c.checked, f, 1)];
  }

  lemma PublishedAlone(k: string, modulus: nat)
    ensures Published([Rsa(k, modulus)], k) == Some(PublicKey(modulus, 0))
  {
    RsaConverts(k, modulus);
  }

  lemma PublishedTwice(k: string, first: nat, second: nat)
    ensures Published([Rsa(k, first), Rsa(k, second)], k) == Some(PublicKey(second, 0))
  {
    RsaConverts(k, second);
  }

  /** Between the two Stores of a kid published twice, a look-up answers the first. */
  lemma OvertakenKeyIsAnswered(k: string) returns (s: State, a: Action, key: PublicKey)
    ensures Reachable(s) && AnswersIn(s, a, 1, Some(key))
    ensures !IsLatest(Successes(s.attempts), s.calls[1].kid, key)
  {
    InitIsReachable(3600, 10);
    s := Extends(Init(3600, 10), Enter(k));
    s := Extends(s, Take(0, 0));
    s := ComesToAsk(s, 0, 0);
    key := PublicKey(7, 0);
    RsaConverts(k, 7);
    s := StoresFirst(s, 0, Fetch(0, 0, 0, [Rsa(k, 7), Rsa(k, 9)]), key);
    s := Extends(s, Enter(k));
    a := Take(1, 0);
    assert s.calls[1] == Looking(k) && Fresh(s.cache, k, 0);
    PublishedTwice(k, 7, 9);
    FoundIsLatestExactly(s, k, key);
  }

  /** A state in which k is cached until 50, and another call may be waiting. */
  predicate Holds(s: State, k: string, waiting: nat) {
    && s.ttl == 50 && s.interval == 10 && s.cache == map[k := Cached(PublicKey(7, 0), 50)]
    && s.lastRefresh == Some(0) && s.holder == None && |s.calls| == waiting + 1
    && forall i :: 0 <= i < waiting ==> s.calls[i] == Waiting(k)
  }

  /** The last of the calls fetches the key and is done. */
  lemma Fetches(s: State, k: string, waiting: nat) returns (t: State)
    requires Reachable(s) && s.ttl == 50 && s.interval == 10
    requires s.cache == map[] && s.lastRefresh.None? && s.holder.None?
    requires |s.calls| == waiting + 1 && forall i :: 0 <= i <= waiting ==> s.calls[i] == Waiting(k)
    ensures Reachable(t) && Holds(t, k, waiting)
  {
    t := ComesToAsk(s, waiting, 0);
    RsaConverts(k, 7);
    t := StoresFirst(t, waiting, Fetch(0, 0, 0, [Rsa(k, 7)]), PublicKey(7, 0));
    t := Extends(t, Take(waiting, 0));
  }

  /** A call that saw the expired key deletes the one stored since: the set publishes it, and it is refused. */
  lemma PublishedKeyIsRefused(k: string) returns (s: State, now: int)
    ensures Reachable(s) && IsLastLook(s, 2) && AnswersIn(s, Take(2, now), 2, None)
    ensures Published(s.calls[2].fetch.keys, s.calls[2].kid).Some?
  {
    now := 100;
    InitIsReachable(50, 10);
    s := Extends(Init(50, 10), Enter(k));
    s := Extends(s, Take(0, 0));
    s := Fetches(s, k, 0);
    s := Extends(s, Enter(k));
    s := Extends(s, Take(1, now)); // sees the expired entry
    s := SecondRefill(s, k, now);
    s := Extends(s, Take(1, now)); // deletes the new one
    PublishedAlone(k, 9);
  }

  /** A third call deletes the expired entry, asks, and stores the key that is now published. */
  lemma SecondRefill(s: State, k: string, now: int) returns (t: State)
    requires Reachable(s) && |s.calls| == 2 && s.calls[1] == Deleting(k) && s.holder.None?
    requires s.cache == map[k := Cached(PublicKey(7, 0), 50)] && s.lastRefresh == Some(0) && s.interval == 10
    requires now >= 50
    ensures Reachable(t) && |t.calls| == 3 && t.calls[1] == Deleting(k) && IsLastLook(t, 2)
    ensures t.calls[2].kid == k && t.calls[2].fetch.keys == [Rsa(k, 9)]
  {
    t := Extends(s, Enter(k));
    t := Extends(t, Take(2, now));
    t := Extends(t, Take(2, now));
    t := ComesToAsk(t, 2, now);
    RsaConverts(k, 9);
    t := StoresFirst(t, 2, Fetch(now, now, now, [Rsa(k, 9)]), PublicKey(9, 0));
  }

  /**
  A first call finds nothing and waits for the mutex; a second one fetches the key meanwhile; by the
  time the first gets the mutex the key has expired and is no longer published, and is answered.
  */
  lemma ExpiredKeyIsAnswered(k: string) returns (s: State, now: int, key: PublicKey)
    ensures Reachable(s) && AnswersIn(s, Take(0, now), 0, Some(key))
    ensures s.calls[0].kid in s.cache && s.cache[s.calls[0].kid].expiresAt < now
  {
    now, key := 100, PublicKey(7, 0);
    InitIsReachable(50, 10);
    s := Extends(Init(50, 10), Enter(k));
    s := Extends(s, Take(0, 0));
    s := Extends(s, Enter(k));
    s := Extends(s, Take(1, 0));
    s := Fetches(s, k, 1);
    s := ComesToAsk(s, 0, now);
    s := Extends(s, Receive(0, Some([]), now, now));
  }
}
