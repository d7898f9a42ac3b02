/**
`JWTValidator.getKey` of internal/auth-proxy/jwt.go: a cache of signing keys by `kid` (section 4.5
of RFC 7517) with a time to live, refilled from the published key set under a rate limit.
*/
module Jwks {
  import opened Options

  datatype PublicKey = PublicKey(modulus: nat, exponent: int)

  /** A published key; modulus and exponent are None where the base64url text does not decode. */
  datatype Jwk = Jwk(kid: string, kty: string, modulus: Option<nat>, exponent: Option<seq<nat>>)

  const TWO_64 := 0x1_0000_0000_0000_0000
  const TWO_63 := 0x8000_0000_0000_0000

  /** `eInt = eInt<<8 | uint64(b)` over the exponent's bytes. */
  function Fold(bytes: seq<nat>): nat {
    if bytes == [] then 0 else (Fold(bytes[..|bytes| - 1]) * 256 + bytes[|bytes| - 1] % 256) % TWO_64
  }

  /** `jwkToPublicKey`: only RSA keys whose numbers decode; the exponent is cast to an int64. */
  function Convert(k: Jwk): Option<PublicKey> {
    if k.kty != "RSA" || k.modulus.None? || k.exponent.None? then None
    else
      var e := Fold(k.exponent.value);
      Some(PublicKey(k.modulus.value, if e < TWO_63 then e else e - TWO_64))
  }

  /** The last key of a set that is published under a kid and converts. */
  function Published(keys: seq<Jwk>, kid: string): Option<PublicKey> {
    if keys == [] then None
    else
      var last := keys[|keys| - 1];
      if last.kid == kid && Convert(last).Some? then Convert(last) else Published(keys[..|keys| - 1], kid)
  }

  // ----- What conversion and publication mean -----

  function Power(n: nat): (p: nat)
    ensures p > 0
  {
    if n == 0 then 1 else 256 * Power(n - 1)
  }

  /** The number a byte string stands for, its first byte weighing most. */
  function BigEndian(bytes: seq<nat>): nat {
    if bytes == [] then 0 else bytes[0] % 256 * Power(|bytes| - 1) + BigEndian(bytes[1..])
  }

  lemma {:induction false} BigEndianSnoc(bytes: seq<nat>, b: nat)
    ensures BigEndian(bytes + [b]) == BigEndian(bytes) * 256 + b % 256
  {
    if bytes == [] {
      assert [] + [b] == [b] && [b][1..] == [] && Power(0) == 1;
    } else {
      var longer, n := bytes + [b], |bytes|;
      assert longer[1..] == bytes[1..] + [b];
      BigEndianSnoc(bytes[1..], b);
      assert Power(n) == 256 * Power(n - 1);
      Weigh(bytes[0] % 256, Power(n - 1), BigEndian(bytes[1..]), b % 256);
    }
  }

  lemma Weigh(x: nat, p: nat, rest: nat, b: nat)
    ensures x * (256 * p) + (rest * 256 + b) == (x * p + rest) * 256 + b
  {
  }

  /** The exponent's bytes give their big-endian value, as far as 64 bits hold it. */
  lemma {:induction false} FoldIsBigEndian(bytes: seq<nat>)
    ensures Fold(bytes) == BigEndian(bytes) % TWO_64
  {
    if bytes != [] {
      var front, last := bytes[..|bytes| - 1], bytes[|bytes| - 1];
      assert bytes == front + [last];
      FoldIsBigEndian(front);
      BigEndianSnoc(front, last);
      WrapStep(BigEndian(front), last % 256);
    }
  }

  lemma WrapStep(x: nat, b: nat)
    ensures (x % TWO_64 * 256 + b) % TWO_64 == (x * 256 + b) % TWO_64
  {
    var q, r := x / TWO_64, x % TWO_64;
    assert x == q * TWO_64 + r;
    assert x * 256 + b == (q * 256) * TWO_64 + (r * 256 + b);
    Wraps(q * 256, r * 256 + b);
  }

  lemma {:induction false} Wraps(q: nat, r: nat)
    ensures (q * TWO_64 + r) % TWO_64 == r % TWO_64
  {
    if q > 0 {
      Wraps(q - 1, r);
      assert q * TWO_64 + r == ((q - 1) * TWO_64 + r) + TWO_64;
    }
  }

  /** Only an RSA key whose numbers decode converts, to its modulus and the 64-bit signed form of its exponent. */
  lemma ConvertExactly(k: Jwk)
    ensures Convert(k).Some? <==> k.kty == "RSA" && k.modulus.Some? && k.exponent.Some?
    ensures Convert(k).Some? ==>
      var p, e := Convert(k).value, BigEndian(k.exponent.value);
      && p.modulus == k.modulus.value && -TWO_63 <= p.exponent < TWO_63
      && (p.exponent == e % TWO_64 || p.exponent == e % TWO_64 - TWO_64)
      && (e < TWO_63 ==> p.exponent == e)
  {
    if k.exponent.Some? {
      FoldIsBigEndian(k.exponent.value);
    }
  }

  /** The i-th key is published under this kid, converts, and no later one does both. */
  predicate IsLastOf(keys: seq<Jwk>, kid: string, i: nat) {
    && i < |keys| && keys[i].kid == kid && Convert(keys[i]).Some?
    && forall j :: i < j < |keys| && keys[j].kid == kid ==> Convert(keys[j]).None?
  }

  lemma {:induction false} PublishedIsLast(keys: seq<Jwk>, kid: string)
    ensures match Published(keys, kid)
      case Some(key) => exists i: nat :: IsLastOf(keys, kid, i) && Convert(keys[i]) == Some(key)
      case None => forall i :: 0 <= i < |keys| && keys[i].kid == kid ==> Convert(keys[i]).None?
  {
    if keys != [] {
      var front, last := keys[..|keys| - 1], keys[|keys| - 1];
      PublishedIsLast(front, kid);
      assert forall i :: 0 <= i < |front| ==> front[i] == keys[i];
      if last.kid == kid && Convert(last).Some? {
        assert IsLastOf(keys, kid, |keys| - 1);
      } else if Published(front, kid).Some? {
        var i: nat :| IsLastOf(front, kid, i) && Convert(front[i]) == Published(front, kid);
        assert IsLastOf(keys, kid, i);
      }
    }
  }

  datatype Cached = Cached(key: PublicKey, expiresAt: int)

  /** A successful fetch: when it started, when `lastRefresh` was set, when its keys were stamped. */
  datatype Fetch = Fetch(started: int, refreshed: int, stamped: int, keys: seq<Jwk>)

  /** The most recent fetch that published a kid. */
  function Latest(fetches: seq<Fetch>, kid: string): Option<nat> {
    if fetches == [] then None
    else if Published(fetches[|fetches| - 1].keys, kid).Some? then Some(|fetches| - 1)
    else Latest(fetches[..|fetches| - 1], kid)
  }

  lemma {:induction false} LatestPublishes(fetches: seq<Fetch>, kid: string)
    ensures Latest(fetches, kid).Some? ==>
      var i := Latest(fetches, kid).value;
      i < |fetches| && Published(fetches[i].keys, kid).Some?
    ensures forall i :: 0 <= i < |fetches| && Published(fetches[i].keys, kid).Some? ==>
      Latest(fetches, kid).Some? && i <= Latest(fetches, kid).value
  {
    if fetches != [] && Published(fetches[|fetches| - 1].keys, kid).None? {
      LatestPublishes(fetches[..|fetches| - 1], kid);
    }
  }

  /** One request for the published set; only an answered one becomes a fetch. */
  datatype Attempt = Answered(fetch: Fetch) | Unanswered(at: int) {
    function Started(): int { if Answered? then fetch.started else at }
  }

  /** The fetches among the attempts. */
  function Successes(attempts: seq<Attempt>): seq<Fetch> {
    if attempts == [] then []
    else
      var rest, last := Successes(attempts[..|attempts| - 1]), attempts[|attempts| - 1];
      if last.Answered? then rest + [last.fetch] else rest
  }

  /** The time of the last successful one. */
  function Refreshed(fetches: seq<Fetch>): Option<int> {
    if fetches == [] then None else Some(fetches[|fetches| - 1].refreshed)
  }

  /** Enough time has passed since the last success; a validator that never had one may ask at once. */
  predicate Due(last: Option<int>, now: int, interval: int) {
    last.Some? ==> now - last.value >= interval
  }

  /** No attempt, answered or not, starts within the refresh interval of the previous successful one. */
  predicate Limited(attempts: seq<Attempt>, interval: int) {
    attempts == [] ||
    var before := attempts[..|attempts| - 1];
    Limited(before, interval) && Due(Refreshed(Successes(before)), attempts[|attempts| - 1].Started(), interval)
  }

  lemma {:induction false} LimitedEach(attempts: seq<Attempt>, interval: int, i: nat)
    requires Limited(attempts, interval) && i < |attempts|
    ensures Due(Refreshed(Successes(attempts[..i])), attempts[i].Started(), interval)
    decreases |attempts|
  {
    if i < |attempts| - 1 {
      LimitedEach(attempts[..|attempts| - 1], interval, i);
      assert attempts[..|attempts| - 1][..i] == attempts[..i];
    }
  }

  lemma LimitedSnoc(attempts: seq<Attempt>, a: Attempt, interval: int)
    requires Limited(attempts, interval) && Due(Refreshed(Successes(attempts)), a.Started(), interval)
    ensures Limited(attempts + [a], interval)
  {
    assert (attempts + [a])[..|attempts|] == attempts;
  }

  lemma SuccessesSnoc(attempts: seq<Attempt>, a: Attempt)
    ensures Successes(attempts + [a]) == Successes(attempts) + if a.Answered? then [a.fetch] else []
  {
    assert (attempts + [a])[..|attempts|] == attempts;
  }

  /** Hence successful fetches keep the interval among themselves. */
  ghost predicate Spaced(fetches: seq<Fetch>, interval: int) {
    forall i :: 0 < i < |fetches| ==> fetches[i].started - fetches[i - 1].refreshed >= interval
  }

  lemma {:induction false} LimitedIsSpaced(attempts: seq<Attempt>, interval: int)
    requires Limited(attempts, interval)
    ensures Spaced(Successes(attempts), interval)
  {
    if attempts != [] {
      LimitedIsSpaced(attempts[..|attempts| - 1], interval);
    }
  }

  function At(cache: map<string, Cached>, kid: string): Option<Cached> {
    if kid in cache then Some(cache[kid]) else None
  }

  /** What a kid maps to once a fetched set has been stored over a cache. */
  function Overlay(cache: map<string, Cached>, keys: seq<Jwk>, expiresAt: int, kid: string): Option<Cached> {
    if Published(keys, kid).Some? then Some(Cached(Published(keys, kid).value, expiresAt)) else At(cache, kid)
  }

  lemma PublishedSnoc(keys: seq<Jwk>, i: nat, kid: string)
    requires i < |keys|
    ensures Published(keys[..i + 1], kid) ==
      if keys[i].kid == kid && Convert(keys[i]).Some? then Convert(keys[i]) else Published(keys[..i], kid)
  {
    assert keys[..i + 1][..i] == keys[..i];
  }

  ghost predicate IsRefill(cache: map<string, Cached>, keys: seq<Jwk>, expiresAt: int, filled: map<string, Cached>) {
    forall kid :: At(filled, kid) == Overlay(cache, keys, expiresAt, kid)
  }

  /** The loop that stores every convertible key of a fetched set; later entries overwrite. */
  method Refill(cache: map<string, Cached>, keys: seq<Jwk>, expiresAt: int) returns (filled: map<string, Cached>)
    ensures IsRefill(cache, keys, expiresAt, filled)
  {
    filled := cache;
    for i := 0 to |keys|
      invariant IsRefill(cache, keys[..i], expiresAt, filled)
    {
      var key := Convert(keys[i]);
      ghost var before := filled;
      if key.Some? {
        filled := filled[keys[i].kid := Cached(key.value, expiresAt)];
      }
      forall kid ensures At(filled, kid) == Overlay(cache, keys[..i + 1], expiresAt, kid) {
        PublishedSnoc(keys, i, kid);
        assert At(before, kid) == Overlay(cache, keys[..i], expiresAt, kid);
      }
    }
    assert keys[..|keys|] == keys;
  }

  /** The key is the one most recently published under its kid. */
  ghost predicate IsLatest(fetches: seq<Fetch>, kid: string, key: PublicKey) {
    var i := Latest(fetches, kid);
    i.Some? && i.value < |fetches| && Published(fetches[i.value].keys, kid) == Some(key)
  }

  lemma LatestSnoc(fetches: seq<Fetch>, f: Fetch, kid: string)
    ensures Latest(fetches + [f], kid) == if Published(f.keys, kid).Some? then Some(|fetches|) else Latest(fetches, kid)
  {
    assert (fetches + [f])[..|fetches|] == fetches;
  }

  /** A cached key is the latest one fetched under its kid, stamped when that set was fetched. */
  ghost predicate Backed(fetches: seq<Fetch>, ttl: int, kid: string, c: Cached) {
    IsLatest(fetches, kid, c.key) && c.expiresAt == fetches[Latest(fetches, kid).value].stamped + ttl
  }

  ghost predicate AllBacked(fetches: seq<Fetch>, ttl: int, cache: map<string, Cached>) {
    forall kid :: kid in cache ==> Backed(fetches, ttl, kid, cache[kid])
  }

  lemma RefilledIsBacked(
      fetches: seq<Fetch>, f: Fetch, ttl: int, cache: map<string, Cached>, filled: map<string, Cached>)
    requires AllBacked(fetches, ttl, cache)
    requires IsRefill(cache, f.keys, f.stamped + ttl, filled)
    ensures AllBacked(fetches + [f], ttl, filled)
  {
    forall kid | kid in filled ensures Backed(fetches + [f], ttl, kid, filled[kid]) {
      assert At(filled, kid) == Overlay(cache, f.keys, f.stamped + ttl, kid);
      LatestSnoc(fetches, f, kid);
      if Published(f.keys, kid).None? {
        assert kid in cache && filled[kid] == cache[kid];
        assert Backed(fetches, ttl, kid, cache[kid]);
      }
    }
  }

  /** What a call may answer with: the latest key of its kid, unexpired or fetched since the call began. */
  ghost predicate Sound(fetches: seq<Fetch>, ttl: int, kid: string, key: PublicKey, first: int) {
    && IsLatest(fetches, kid, key)
    && var f := fetches[Latest(fetches, kid).value];
       first < f.stamped + ttl || first <= f.started
  }

  /** Over any stretch of time the endpoint sees at most one successful fetch per interval. */
  lemma {:induction false} FetchesAreSpread(fetches: seq<Fetch>, interval: int, i: nat, j: nat)
    requires Spaced(fetches, interval) && i < j < |fetches|
    requires forall k :: 0 <= k < |fetches| ==> fetches[k].started <= fetches[k].refreshed
    ensures fetches[j].started - fetches[i].refreshed >= interval * (j - i)
    decreases j - i
  {
    if i + 1 < j {
      FetchesAreSpread(fetches, interval, i, j - 1);
      assert interval * (j - i) == interval * (j - 1 - i) + interval;
    }
  }

  /** The clock readings of one call, in the order the code takes them. */
  datatype Clock = Clock(first: int, second: int, limit: int, refreshed: int, stamped: int) {
    predicate Monotone() { first <= second <= limit <= refreshed <= stamped }
  }

  /** An entry that a look-up at this time answers with. */
  predicate Fresh(cache: map<string, Cached>, kid: string, now: int) {
    kid in cache && now < cache[kid].expiresAt
  }

  datatype Request = Request(kid: string, clock: Clock, response: Option<seq<Jwk>>)

  /** An answer stands up to what was known when it was given. */
  ghost predicate Justified(known: seq<Attempt>, ttl: int, req: Request, answer: Option<PublicKey>) {
    answer.Some? ==> Sound(Successes(known), ttl, req.kid, answer.value, req.clock.first)
  }

  class Validator {
    const ttl: int
    const interval: int
    var cache: map<string, Cached>
    var lastRefresh: Option<int> // None: the zero time, longer ago than any interval
    ghost var attempts: seq<Attempt>

    constructor (ttl: int, interval: int)
      ensures Valid() && this.ttl == ttl && this.interval == interval && attempts == [] && cache == map[]
    {
      this.ttl, this.interval := ttl, interval;
      cache, lastRefresh, attempts := map[], None, [];
    }

    ghost function Fetches(): seq<Fetch>
      reads this
    {
      Successes(attempts)
    }

    ghost predicate Valid()
      reads this
    {
      && AllBacked(Fetches(), ttl, cache)
      && lastRefresh == Refreshed(Fetches())
      && Limited(attempts, interval)
    }

    /** The unlocked look-up: an expired entry is removed. */
    method Check(kid: string, now: int) returns (key: Option<PublicKey>)
      requires Valid()
      modifies this`cache
      ensures Valid()
      ensures key.Some? <==> Fresh(old(cache), kid, now)
      ensures key.Some? ==> key.value == old(cache)[kid].key && cache == old(cache)
      ensures key.None? ==> cache == old(cache) - {kid}
    {
      if kid in cache {
        if now < cache[kid].expiresAt {
          return Some(cache[kid].key);
        }
        cache := cache - {kid};
      }
      assert cache == old(cache) - {kid};
      return None;
    }

    /** A fetched set becomes the cache's backing, and `lastRefresh` its time. */
    method StoreAll(f: Fetch)
      requires Valid() && Due(lastRefresh, f.started, interval)
      modifies this
      ensures Valid() && attempts == old(attempts) + [Answered(f)] && Fetches() == old(Fetches()) + [f]
      ensures IsRefill(old(cache), f.keys, f.stamped + ttl, cache)
    {
      var filled := Refill(cache, f.keys, f.stamped + ttl);
      LimitedSnoc(attempts, Answered(f), interval);
      SuccessesSnoc(attempts, Answered(f));
      RefilledIsBacked(Fetches(), f, ttl, cache, filled);
      cache := filled;
      lastRefresh := Some(f.refreshed);
      attempts := attempts + [Answered(f)];
    }

    /** The part under the mutex asks for the set: nothing fresh is cached, and a refresh is due. */
    predicate Asks(cache: map<string, Cached>, last: Option<int>, kid: string, c: Clock) {
      !Fresh(cache, kid, c.second) && Due(last, c.limit, interval)
    }

    /** An expired entry is there, and the set that was fetched no longer holds its kid. */
    predicate LeavesExpired(
        cache: map<string, Cached>, last: Option<int>, kid: string, c: Clock, response: Option<seq<Jwk>>) {
      Asks(cache, last, kid, c) && kid in cache && response.Some? && Published(response.value, kid).None?
    }

    /** The only three reasons for having no key: too soon to ask, no answer, or not in the answer. */
    predicate Unavailable(last: Option<int>, kid: string, c: Clock, response: Option<seq<Jwk>>) {
      || !Due(last, c.limit, interval)
      || response.None? || Published(response.value, kid).None?
    }

    /**
    Everything under the mutex, with no other call in between: look again, respect the rate limit,
    fetch, store, look once more -- without asking whether that last look found something expired,
    which it answers with exactly when such an entry was there and the fetched set no longer holds the
    kid.
    */
    method Locked(kid: string, c: Clock, response: Option<seq<Jwk>>) returns (key: Option<PublicKey>)
      requires Valid() && c.Monotone()
      modifies this
      ensures Valid()
      ensures attempts ==
        if Asks(old(cache), old(lastRefresh), kid, c) then old(attempts) + [Tried(c, response)] else old(attempts)
      ensures !Asks(old(cache), old(lastRefresh), kid, c) || response.None? ==>
        cache == old(cache) && lastRefresh == old(lastRefresh)
      ensures key.Some? ==> kid in cache && cache[kid].key == key.value && IsLatest(Fetches(), kid, key.value)
      ensures key.None? ==> Unavailable(old(lastRefresh), kid, c, response)
      ensures Fresh(old(cache), kid, c.second) ==> key == Some(old(cache)[kid].key)
      ensures ttl > 0 ==>
        (key.Some? && !Fresh(cache, kid, c.second)
         <==> LeavesExpired(old(cache), old(lastRefresh), kid, c, response))
      ensures Asks(old(cache), old(lastRefresh), kid, c) && response.Some? ==>
        At(cache, kid) == Overlay(old(cache), response.value, c.stamped + ttl, kid)
      ensures key.Some? && kid !in old(cache) ==> response.Some? && key == Published(response.value, kid)
    {
      if kid in cache {
        assert Backed(Fetches(), ttl, kid, cache[kid]);
      }
      if kid in cache && c.second < cache[kid].expiresAt {
        return Some(cache[kid].key);
      }
      if lastRefresh.Some? && c.limit - lastRefresh.value < interval {
        return None;
      }
      if response.None? {
        LimitedSnoc(attempts, Unanswered(c.limit), interval);
        SuccessesSnoc(attempts, Unanswered(c.limit));
        attempts := attempts + [Unanswered(c.limit)];
        return None;
      }
      StoreAll(Fetch(c.limit, c.refreshed, c.stamped, response.value));
      assert At(cache, kid) == Overlay(old(cache), response.value, c.stamped + ttl, kid);
      if kid in cache {
        assert Backed(Fetches(), ttl, kid, cache[kid]);
        return Some(cache[kid].key);
      }
      return None;
    }

    function Tried(c: Clock, response: Option<seq<Jwk>>): Attempt {
      if response.None? then Unanswered(c.limit) else Answered(Fetch(c.limit, c.refreshed, c.stamped, response.value))
    }

    /**
    One call of `getKey` with no other call in between.  It asks for the set if and only if nothing
    fresh is cached and a refresh is due -- counted from the last successful one, so a failed attempt
    delays nothing.
    */
    method GetKey(kid: string, c: Clock, response: Option<seq<Jwk>>) returns (key: Option<PublicKey>)
      requires Valid() && c.Monotone()
      modifies this
      ensures Valid()
      ensures attempts == if !Fresh(old(cache), kid, c.first) && Due(old(lastRefresh), c.limit, interval)
                          then old(attempts) + [Tried(c, response)] else old(attempts)
      ensures key.Some? ==> Sound(Fetches(), ttl, kid, key.value, c.first)
      ensures Fresh(old(cache), kid, c.first) ==> key == Some(old(cache)[kid].key)
      ensures key.Some? && !Fresh(old(cache), kid, c.first) ==> response.Some? && key == Published(response.value, kid)
      ensures key.None? ==> Unavailable(old(lastRefresh), kid, c, response)
      ensures response.None? ==> lastRefresh == old(lastRefresh) && cache.Keys <= old(cache).Keys
    {
      key := Check(kid, c.first);
      if key.Some? {
        assert Backed(Fetches(), ttl, kid, cache[kid]);
        return;
      }
      ghost var before := Fetches();
      key := Locked(kid, c, response);
      if key.Some? {
        ghost var f := Fetch(c.limit, c.refreshed, c.stamped, response.value);
        SuccessesSnoc(old(attempts), Answered(f));
        LatestSnoc(before, f, kid);
      }
    }

    /** What one call contributes to a sequential run. */
    method ServeOne(req: Request) returns (key: Option<PublicKey>)
      requires Valid() && req.clock.Monotone()
      modifies this
      ensures Valid() && old(attempts) <= attempts && Justified(attempts, ttl, req, key)
    {
      key := GetKey(req.kid, req.clock, req.response);
    }
  }

  /** Requests served one after another, under a clock that never goes back. */
  predicate Sequential(reqs: seq<Request>) {
    && (forall i :: 0 <= i < |reqs| ==> reqs[i].clock.Monotone())
    && (forall i :: 0 < i < |reqs| ==> reqs[i - 1].clock.stamped <= reqs[i].clock.first)
  }

  /**
  Over every sequential run, each key handed out is the one most recently published under its kid in
  the sets fetched by then (`known[i]`, the attempts made so far) -- unexpired when read, or fetched
  in that very call -- and no attempt started within the refresh interval of the previous successful
  one.
  */
  method Serve(v: Validator, reqs: seq<Request>)
    returns (answers: seq<Option<PublicKey>>, ghost known: seq<seq<Attempt>>)
    requires v.Valid() && Sequential(reqs)
    modifies v
    ensures v.Valid() && Limited(v.attempts, v.interval) && old(v.attempts) <= v.attempts
    ensures |answers| == |reqs| == |known| && forall i :: 0 <= i < |reqs| ==> known[i] <= v.attempts
    ensures forall i :: 0 <= i < |reqs| ==> Justified(known[i], v.ttl, reqs[i], answers[i])
  {
    answers, known := [], [];
    for i := 0 to |reqs|
      invariant v.Valid() && |answers| == i == |known| && old(v.attempts) <= v.attempts
      invariant forall j :: 0 <= j < i ==> known[j] <= v.attempts
      invariant forall j :: 0 <= j < i ==> Justified(known[j], v.ttl, reqs[j], answers[j])
    {
      ghost var before := v.attempts;
      var key := v.ServeOne(reqs[i]);
      assert before <= v.attempts;
      answers, known := answers + [key], known + [v.attempts];
    }
  }

  // ----- Where the limit ends -----

  /** Two failed attempts at the very same moment: the limit counts from successes only. */
  method FailedAttemptsAreNotLimited(kid: string) returns (v: Validator)
    ensures v.Valid() && v.interval == 10 && v.attempts == [Unanswered(0), Unanswered(0)]
  {
    v := new Validator(3600, 10);
    var now := Clock(0, 0, 0, 0, 0);
    var key := v.GetKey(kid, now, None);
    key := v.GetKey(kid, now, None);
  }
}
