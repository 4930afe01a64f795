/**
 The time-bounded nonce cache of the message bus: entries older than the validity window are
 garbage-collected. The clock, in seconds, is a parameter of every call.
 */
module NonceCache {
  import opened Bytes

  type Nonce = nat

  const MAX_AGE: nat := 60
  const MAX_FUTURE_SKEW: nat := 10
  const U64_MAX: nat := 0xFFFF_FFFF_FFFF_FFFF

  datatype Verdict = Accepted | NonceReused | MessageTooOld | MessageFromFuture

  function SaturatingSub(a: nat, b: nat): nat {
    if a >= b then a - b else 0
  }

  function SaturatingAdd(a: nat, b: nat): nat {
    if a + b <= U64_MAX then a + b else U64_MAX
  }

  /** The verdict of a cache that remembers the given nonces. */
  function VerdictOf(known: set<Nonce>, nonce: Nonce, timestamp: nat, now: nat): Verdict {
    if timestamp < SaturatingSub(now, MAX_AGE) then MessageTooOld
    else if timestamp > SaturatingAdd(now, MAX_FUTURE_SKEW) then MessageFromFuture
    else if nonce in known then NonceReused
    else Accepted
  }

  predicate InTime(timestamp: nat, now: nat) {
    SaturatingSub(now, MAX_AGE) <= timestamp <= SaturatingAdd(now, MAX_FUTURE_SKEW)
  }

  function Max(a: nat, b: nat): nat {
    if a >= b then a else b
  }

  function Collected(cache: map<Nonce, nat>, threshold: nat): map<Nonce, nat> {
    map n | n in cache && cache[n] > threshold :: cache[n]
  }

  datatype Call = Call(nonce: Nonce, timestamp: u64, now: u64)

  /** What the cache holds, and when it was last collected. */
  datatype Held = Held(cache: map<Nonce, nat>, lastGc: u64)

  predicate Collects(gcInterval: u64, held: Held, c: Call) {
    InTime(c.timestamp, c.now) && SaturatingSub(c.now, held.lastGc) > gcInterval
  }

  function AfterGc(validityWindow: u64, gcInterval: u64, held: Held, c: Call): Held {
    if Collects(gcInterval, held, c)
    then Held(Collected(held.cache, SaturatingSub(c.now, validityWindow)), c.now) else held
  }

  /** The verdict on a call that finds this cache. */
  function Judged(validityWindow: u64, gcInterval: u64, held: Held, c: Call): Verdict {
    VerdictOf(AfterGc(validityWindow, gcInterval, held, c).cache.Keys, c.nonce, c.timestamp, c.now)
  }

  function Next(validityWindow: u64, gcInterval: u64, held: Held, c: Call): Held {
    var kept := AfterGc(validityWindow, gcInterval, held, c);
    if Judged(validityWindow, gcInterval, held, c) == Accepted then kept.(cache := kept.cache[c.nonce := c.timestamp])
    else kept
  }

  // ----- the verdicts in seconds -----

  /** At most 60 seconds old and at most 10 ahead. */
  ghost predicate Timely(c: Call) {
    c.now <= c.timestamp + 60 && c.timestamp <= c.now + 10
  }

  /** A call in time, more than the interval after the last collection, drops entries as old as the window, and
      any entry stamped 0. */
  ghost predicate Drops(validityWindow: u64, gcInterval: u64, lastGc: u64, c: Call, timestamp: nat) {
    Timely(c) && lastGc + gcInterval < c.now && (timestamp + validityWindow <= c.now || timestamp == 0)
  }

  /** The nonce of the call is held and not dropped by it. */
  ghost predicate Reused(validityWindow: u64, gcInterval: u64, held: Held, c: Call) {
    c.nonce in held.cache && !Drops(validityWindow, gcInterval, held.lastGc, c, held.cache[c.nonce])
  }

  /** When a call deserves which verdict. */
  ghost predicate Deserves(validityWindow: u64, gcInterval: u64, held: Held, c: Call, r: Verdict) {
    match r
    case MessageTooOld => c.timestamp + 60 < c.now
    case MessageFromFuture => c.now + 10 < c.timestamp
    case NonceReused => Timely(c) && Reused(validityWindow, gcInterval, held, c)
    case Accepted => Timely(c) && !Reused(validityWindow, gcInterval, held, c)
  }

  /** A call gets the one verdict it deserves. */
  lemma VerdictDeserved(validityWindow: u64, gcInterval: u64, held: Held, c: Call)
    ensures forall r :: Deserves(validityWindow, gcInterval, held, c, r)
                        <==> r == Judged(validityWindow, gcInterval, held, c)
  {
  }

  lemma GivesDeserved(validityWindow: u64, gcInterval: u64, held: Held, c: Call)
    ensures Deserves(validityWindow, gcInterval, held, c, Judged(validityWindow, gcInterval, held, c))
  {
    VerdictDeserved(validityWindow, gcInterval, held, c);
  }

  /** What a call leaves of nonce x: its own stamp if it is accepted, else what was held unless dropped. */
  lemma NextHolds(validityWindow: u64, gcInterval: u64, held: Held, c: Call, x: Nonce)
    ensures var next := Next(validityWindow, gcInterval, held, c);
            && next.lastGc == (if Timely(c) && held.lastGc + gcInterval < c.now then c.now else held.lastGc)
            && if Deserves(validityWindow, gcInterval, held, c, Accepted) && x == c.nonce
               then x in next.cache && next.cache[x] == c.timestamp
               else && (x in next.cache <==>
                        x in held.cache && !Drops(validityWindow, gcInterval, held.lastGc, c, held.cache[x]))
                    && (x in next.cache ==> next.cache[x] == held.cache[x])
  {
  }

  /** Settings under which no entry is collected while its message is still in time. */
  predicate RemembersEnough(validityWindow: u64, gcInterval: u64) {
    validityWindow > MAX_AGE || gcInterval == U64_MAX
  }

  /** A timestamp of 0 is never kept by a collection; this is harmless once it is too old, or if the first
      collection comes when it is. */
  predicate Kept(gcInterval: u64, timestamp: nat, now: nat) {
    timestamp > 0 || now > MAX_AGE || gcInterval >= MAX_AGE
  }

  /** Everything held after a call at `now` lies within a bounded time. */
  ghost predicate WithinSpan(validityWindow: u64, gcInterval: u64, held: Held, now: nat) {
    forall n :: n in held.cache ==>
      && now <= held.cache[n] + Max(validityWindow, MAX_AGE) + gcInterval
      && held.cache[n] <= now + MAX_FUTURE_SKEW
  }

  /** What is held at the last collection or since, whatever the time of the last call. */
  ghost predicate SinceGc(validityWindow: u64, held: Held, latest: nat) {
    && held.lastGc <= latest
    && forall n :: n in held.cache ==>
         held.lastGc <= held.cache[n] + Max(validityWindow, MAX_AGE) && held.cache[n] <= latest + MAX_FUTURE_SKEW
  }

  lemma NextSpan(validityWindow: u64, gcInterval: u64, held: Held, c: Call, latest: nat)
    requires SinceGc(validityWindow, held, latest) && latest <= c.now
    ensures var next := Next(validityWindow, gcInterval, held, c);
            && SinceGc(validityWindow, next, c.now)
            && (InTime(c.timestamp, c.now) ==> WithinSpan(validityWindow, gcInterval, next, c.now))
  {
  }

  class TimeBoundedNonceCache {
    const validityWindow: u64
    const gcInterval: u64
    var cache: map<Nonce, nat>
    var lastGc: u64

    /** Every nonce ever accepted, with the timestamp it was last accepted under. */
    ghost var accepted: map<Nonce, nat>
    /** The latest time of a call so far. */
    ghost var latest: u64

    ghost function Value(): Held
      reads this
    {
      Held(cache, lastGc)
    }

    ghost predicate Valid()
      reads this
    {
      && lastGc <= latest
      && (forall n :: n in cache ==> n in accepted && accepted[n] == cache[n])
      && forall n :: n in accepted && n !in cache ==> Forgettable(accepted[n])
    }

    /** What a collection may have dropped. */
    ghost predicate Forgettable(timestamp: nat)
      reads this
    {
      && gcInterval < U64_MAX
      && (timestamp + validityWindow <= latest || (timestamp == 0 && (gcInterval < MAX_AGE || latest > MAX_AGE)))
    }

    /** Everything held lies within a bounded time, as long as the clock has not run backwards. */
    ghost predicate Spans()
      reads this
    {
      SinceGc(validityWindow, Value(), latest)
    }

    constructor (validityWindow: u64, gcInterval: u64, now: u64)
      ensures Valid() && Spans() && cache == map[] && accepted == map[] && lastGc == now && latest == now
      ensures this.validityWindow == validityWindow && this.gcInterval == gcInterval
    {
      this.validityWindow, this.gcInterval := validityWindow, gcInterval;
      cache, lastGc, accepted, latest := map[], now, map[], now;
    }

    method ValidateAndAdd(nonce: Nonce, timestamp: u64, now: u64) returns (r: Verdict)
      requires Valid()
      modifies this
      ensures Valid() && latest == Max(old(latest), now)
      // the verdict and the new state, from the cache alone, whatever the clock does
      ensures r == Judged(validityWindow, gcInterval, old(Value()), Call(nonce, timestamp, now))
      ensures Deserves(validityWindow, gcInterval, old(Value()), Call(nonce, timestamp, now), r)
      ensures Value() == Next(validityWindow, gcInterval, old(Value()), Call(nonce, timestamp, now))
      ensures accepted == if r == Accepted then old(accepted)[nonce := timestamp] else old(accepted)
      // unless the clock ran backwards, forgetting does not show
      ensures old(latest) <= now && RemembersEnough(validityWindow, gcInterval)
              && (nonce in old(accepted) ==> timestamp == old(accepted)[nonce])
              && Kept(gcInterval, timestamp, now)
              ==> r == VerdictOf(old(accepted).Keys, nonce, timestamp, now)
      // and what is held spans a bounded time
      ensures old(Spans()) && old(latest) <= now ==> Spans()
      ensures old(Spans()) && old(latest) <= now && InTime(timestamp, now)
              ==> WithinSpan(validityWindow, gcInterval, Value(), now)
    {
      if Spans() && latest <= now {
        NextSpan(validityWindow, gcInterval, Value(), Call(nonce, timestamp, now), latest);
      }
      GivesDeserved(validityWindow, gcInterval, Value(), Call(nonce, timestamp, now));
      hide SinceGc, WithinSpan, Deserves;
      var minValid := SaturatingSub(now, MAX_AGE);
      var maxValid := SaturatingAdd(now, MAX_FUTURE_SKEW);
      latest := Max(latest, now);
      if timestamp < minValid {
        return MessageTooOld;
      }
      if timestamp > maxValid {
        return MessageFromFuture;
      }
      if SaturatingSub(now, lastGc) > gcInterval {
        GarbageCollect(now);
        lastGc := now;
      }
      if nonce in cache {
        return NonceReused;
      }
      cache := cache[nonce := timestamp];
      accepted := accepted[nonce := timestamp];
      return Accepted;
    }

    method GarbageCollect(now: u64)
      modifies this`cache
      ensures cache == Collected(old(cache), SaturatingSub(now, validityWindow))
    {
      var threshold := SaturatingSub(now, validityWindow);
      cache := map n | n in cache && cache[n] > threshold :: cache[n];
    }
  }

  /** The clock does not run backwards, and a nonce always comes with the same timestamp. */
  predicate Plausible(gcInterval: u64, start: nat, calls: seq<Call>) {
    && (forall i :: 0 <= i < |calls| ==> start <= calls[i].now)
    && (forall i, j :: 0 <= i < j < |calls| ==> calls[i].now <= calls[j].now)
    && (forall i, j | 0 <= i < j < |calls| && calls[i].nonce == calls[j].nonce ::
          calls[i].timestamp == calls[j].timestamp)
    && (forall i :: 0 <= i < |calls| ==> Kept(gcInterval, calls[i].timestamp, calls[i].now))
  }

  /** The reference: a cache that never forgets. Gives its nonces after n calls. */
  ghost function Remembered(calls: seq<Call>, n: nat): set<Nonce>
    requires n <= |calls|
  {
    if n == 0 then {} else
      var known, c := Remembered(calls, n - 1), calls[n - 1];
      if VerdictOf(known, c.nonce, c.timestamp, c.now) == Accepted then known + {c.nonce} else known
  }

  ghost predicate AsRemembered(calls: seq<Call>, verdicts: seq<Verdict>)
    requires |verdicts| <= |calls|
  {
    forall i :: 0 <= i < |verdicts| ==>
      verdicts[i] == VerdictOf(Remembered(calls, i), calls[i].nonce, calls[i].timestamp, calls[i].now)
  }

  /** The timestamp under which a nonce was accepted is the one of every call with that nonce. */
  ghost predicate Consistent(calls: seq<Call>, accepted: map<Nonce, nat>) {
    forall i :: 0 <= i < |calls| && calls[i].nonce in accepted ==> accepted[calls[i].nonce] == calls[i].timestamp
  }

  lemma NextCall(gcInterval: u64, start: nat, calls: seq<Call>, accepted: map<Nonce, nat>, k: nat)
    requires Plausible(gcInterval, start, calls) && k < |calls| && Consistent(calls, accepted)
    ensures var c := calls[k];
            && Consistent(calls, accepted[c.nonce := c.timestamp])
            && (c.nonce in accepted ==> accepted[c.nonce] == c.timestamp)
            && Kept(gcInterval, c.timestamp, c.now)
            && (k + 1 < |calls| ==> c.now <= calls[k + 1].now)
  {
  }

  lemma NextVerdict(calls: seq<Call>, verdicts: seq<Verdict>, k: nat, r: Verdict)
    requires k == |verdicts| < |calls| && AsRemembered(calls, verdicts)
    requires r == VerdictOf(Remembered(calls, k), calls[k].nonce, calls[k].timestamp, calls[k].now)
    ensures AsRemembered(calls, verdicts + [r])
    ensures Remembered(calls, k + 1) == Remembered(calls, k) + if r == Accepted then {calls[k].nonce} else {}
  {
    var after := verdicts + [r];
    forall i | 0 <= i < |after|
      ensures after[i] == VerdictOf(Remembered(calls, i), calls[i].nonce, calls[i].timestamp, calls[i].now)
    {
      assert i < k ==> after[i] == verdicts[i];
    }
  }

  lemma FirstCall(gcInterval: u64, start: nat, calls: seq<Call>)
    requires Plausible(gcInterval, start, calls)
    ensures calls != [] ==> start <= calls[0].now
    ensures AsRemembered(calls, []) && Consistent(calls, map[]) && Remembered(calls, 0) == {}
  {
  }

  /** The cache after the first n calls of a run. */
  ghost function HeldAfter(validityWindow: u64, gcInterval: u64, start: u64, calls: seq<Call>, n: nat): Held
    requires n <= |calls|
  {
    if n == 0 then Held(map[], start)
    else Next(validityWindow, gcInterval, HeldAfter(validityWindow, gcInterval, start, calls, n - 1), calls[n - 1])
  }

  ghost predicate AcceptedAt(validityWindow: u64, gcInterval: u64, start: u64, calls: seq<Call>, k: nat) {
    k < |calls|
    && Deserves(validityWindow, gcInterval, HeldAfter(validityWindow, gcInterval, start, calls, k), calls[k], Accepted)
  }

  ghost predicate DropsAt(validityWindow: u64, gcInterval: u64, start: u64, calls: seq<Call>, k: nat, timestamp: nat) {
    k < |calls| && var lastGc := HeldAfter(validityWindow, gcInterval, start, calls, k).lastGc;
                   Drops(validityWindow, gcInterval, lastGc, calls[k], timestamp)
  }

  /** Call j was accepted with this nonce and no later one up to n dropped it. */
  ghost predicate HeldFrom(validityWindow: u64, gcInterval: u64, start: u64, calls: seq<Call>, n: nat, j: nat,
                           x: Nonce) {
    && j < n <= |calls| && calls[j].nonce == x && AcceptedAt(validityWindow, gcInterval, start, calls, j)
    && forall k :: j < k < n ==> !DropsAt(validityWindow, gcInterval, start, calls, k, calls[j].timestamp)
  }

  lemma HeldNext(validityWindow: u64, gcInterval: u64, start: u64, calls: seq<Call>, n: nat, j: nat, x: Nonce)
    requires 0 < n <= |calls|
    ensures HeldFrom(validityWindow, gcInterval, start, calls, n, j, x)
       <==> if j == n - 1 then calls[j].nonce == x && AcceptedAt(validityWindow, gcInterval, start, calls, j)
            else HeldFrom(validityWindow, gcInterval, start, calls, n - 1, j, x)
                 && !DropsAt(validityWindow, gcInterval, start, calls, n - 1, calls[j].timestamp)
  {
    hide AcceptedAt, DropsAt;
  }

  /** In every run, whatever the clock does, a nonce is held exactly if it was accepted and not dropped since, under
      the timestamp of that call. */
  lemma {:induction false} CacheHolds(validityWindow: u64, gcInterval: u64, start: u64, calls: seq<Call>, n: nat,
                                      x: Nonce)
    requires n <= |calls|
    ensures var cache := HeldAfter(validityWindow, gcInterval, start, calls, n).cache;
            && (x in cache <==> exists j: nat :: HeldFrom(validityWindow, gcInterval, start, calls, n, j, x))
            && forall j: nat | HeldFrom(validityWindow, gcInterval, start, calls, n, j, x) ::
                 cache[x] == calls[j].timestamp
  {
    if n > 0 {
      var last := n - 1;
      var held := HeldAfter(validityWindow, gcInterval, start, calls, last);
      CacheHolds(validityWindow, gcInterval, start, calls, last, x);
      NextHolds(validityWindow, gcInterval, held, calls[last], x);
      assert HeldAfter(validityWindow, gcInterval, start, calls, n)
          == Next(validityWindow, gcInterval, held, calls[last]);
      hide HeldAfter, Next, HeldFrom, Drops, Timely;
      forall j: nat
        ensures HeldFrom(validityWindow, gcInterval, start, calls, n, j, x)
           <==> if j == last then calls[j].nonce == x && AcceptedAt(validityWindow, gcInterval, start, calls, j)
                else HeldFrom(validityWindow, gcInterval, start, calls, last, j, x)
                     && !DropsAt(validityWindow, gcInterval, start, calls, last, calls[j].timestamp)
      {
        HeldNext(validityWindow, gcInterval, start, calls, n, j, x);
      }
    }
  }

  /** The verdicts are those on the calls, each on the cache left by those before it. */
  ghost predicate AsJudged(validityWindow: u64, gcInterval: u64, start: u64, calls: seq<Call>, verdicts: seq<Verdict>)
    requires |verdicts| <= |calls|
  {
    forall i :: 0 <= i < |verdicts| ==>
      var held := HeldAfter(validityWindow, gcInterval, start, calls, i);
      verdicts[i] == Judged(validityWindow, gcInterval, held, calls[i])
  }

  lemma NextJudged(validityWindow: u64, gcInterval: u64, start: u64, calls: seq<Call>, verdicts: seq<Verdict>,
                   r: Verdict)
    requires |verdicts| < |calls| && AsJudged(validityWindow, gcInterval, start, calls, verdicts)
    requires var held := HeldAfter(validityWindow, gcInterval, start, calls, |verdicts|);
             r == Judged(validityWindow, gcInterval, held, calls[|verdicts|])
    ensures AsJudged(validityWindow, gcInterval, start, calls, verdicts + [r])
  {
    hide Judged, HeldAfter;
  }

  /** Over a whole run the collecting cache answers exactly as the one that never forgets. */
  method RunCalls(validityWindow: u64, gcInterval: u64, start: u64, calls: seq<Call>) returns (verdicts: seq<Verdict>)
    requires RemembersEnough(validityWindow, gcInterval) && Plausible(gcInterval, start, calls)
    ensures |verdicts| == |calls| && AsJudged(validityWindow, gcInterval, start, calls, verdicts)
    ensures AsRemembered(calls, verdicts)
  {
    hide VerdictOf, Judged, Next, Remembered, AsRemembered, AsJudged, Consistent, Plausible;
    hide TimeBoundedNonceCache.Valid;
    var c := new TimeBoundedNonceCache(validityWindow, gcInterval, start);
    verdicts := [];
    FirstCall(gcInterval, start, calls);
    NoneJudged(validityWindow, gcInterval, start, calls);
    for k := 0 to |calls|
      invariant fresh(c) && c.Valid() && c.validityWindow == validityWindow && c.gcInterval == gcInterval
      invariant |verdicts| == k && (k < |calls| ==> c.latest <= calls[k].now)
      invariant c.Value() == HeldAfter(validityWindow, gcInterval, start, calls, k)
      invariant AsJudged(validityWindow, gcInterval, start, calls, verdicts)
      invariant c.accepted.Keys == Remembered(calls, k) && Consistent(calls, c.accepted)
      invariant AsRemembered(calls, verdicts)
    {
      NextCall(gcInterval, start, calls, c.accepted, k);
      var Call(nonce, timestamp, now) := calls[k];
      var r := c.ValidateAndAdd(nonce, timestamp, now);
      NextVerdict(calls, verdicts, k, r);
      NextJudged(validityWindow, gcInterval, start, calls, verdicts, r);
      verdicts := verdicts + [r];
    }
  }

  lemma NoneJudged(validityWindow: u64, gcInterval: u64, start: u64, calls: seq<Call>)
    ensures AsJudged(validityWindow, gcInterval, start, calls, [])
  {
  }

  /** In every run with a clock that does not run backwards, and for any settings, what is held after a call in
      time spans a bounded time, however long the run. */
  lemma {:induction false} RunSpans(validityWindow: u64, gcInterval: u64, start: u64, calls: seq<Call>, n: nat)
    requires n <= |calls| && (forall i :: 0 <= i < |calls| ==> start <= calls[i].now)
    requires forall i, j :: 0 <= i < j < |calls| ==> calls[i].now <= calls[j].now
    ensures var held := HeldAfter(validityWindow, gcInterval, start, calls, n);
            && SinceGc(validityWindow, held, if n == 0 then start else calls[n - 1].now)
            && (n > 0 && InTime(calls[n - 1].timestamp, calls[n - 1].now)
                ==> WithinSpan(validityWindow, gcInterval, held, calls[n - 1].now))
  {
    if n > 0 {
      RunSpans(validityWindow, gcInterval, start, calls, n - 1);
      hide Next, SinceGc, WithinSpan;
      var held := HeldAfter(validityWindow, gcInterval, start, calls, n - 1);
      NextSpan(validityWindow, gcInterval, held, calls[n - 1], if n == 1 then start else calls[n - 2].now);
    }
  }

  // ----- the conditions are exact -----

  /** Both calls of a run of two are accepted. */
  ghost predicate BothAccepted(validityWindow: u64, gcInterval: u64, start: u64, first: Call, second: Call) {
    var held := Held(map[], start);
    && Judged(validityWindow, gcInterval, held, first) == Accepted
    && Judged(validityWindow, gcInterval, Next(validityWindow, gcInterval, held, first), second) == Accepted
  }

  /** With any other settings the same message is accepted twice, one second apart. */
  lemma ShortWindowReplays(validityWindow: u64, gcInterval: u64, nonce: Nonce)
    requires !RemembersEnough(validityWindow, gcInterval)
    ensures var start := if gcInterval < MAX_AGE then MAX_AGE else 0;
            var now := start + gcInterval;
            BothAccepted(validityWindow, gcInterval, start,
                         Call(nonce, now + 1 - MAX_AGE, now), Call(nonce, now + 1 - MAX_AGE, now + 1))
  {
  }

  /** And with any window a message stamped 0 is, if a collection can come in its first minute. */
  lemma ZeroTimestampReplays(validityWindow: u64, gcInterval: u64, nonce: Nonce)
    requires gcInterval < MAX_AGE
    ensures BothAccepted(validityWindow, gcInterval, 0, Call(nonce, 0, 0), Call(nonce, 0, gcInterval + 1))
  {
  }

  /** And one is if the clock jumps ahead by the window and back. */
  lemma BackwardClockReplays(validityWindow: u64, gcInterval: u64, nonce: Nonce, other: Nonce)
    requires validityWindow + gcInterval + 2 * MAX_AGE < U64_MAX && other != nonce
    ensures var later := MAX_AGE + validityWindow + gcInterval + 1;
            var calls := [Call(nonce, MAX_AGE, MAX_AGE), Call(other, later, later), Call(nonce, MAX_AGE, MAX_AGE)];
            var before, after := HeldAfter(validityWindow, gcInterval, MAX_AGE, calls, 0),
                                 HeldAfter(validityWindow, gcInterval, MAX_AGE, calls, 2);
            && Judged(validityWindow, gcInterval, before, calls[0]) == Accepted
            && Judged(validityWindow, gcInterval, after, calls[2]) == Accepted
  {
    var later := MAX_AGE + validityWindow + gcInterval + 1;
    var calls := [Call(nonce, MAX_AGE, MAX_AGE), Call(other, later, later), Call(nonce, MAX_AGE, MAX_AGE)];
    var zero := Held(map[], MAX_AGE);
    assert AfterGc(validityWindow, gcInterval, zero, calls[0]) == zero;
    assert HeldAfter(validityWindow, gcInterval, MAX_AGE, calls, 0) == zero;
    var one := HeldAfter(validityWindow, gcInterval, MAX_AGE, calls, 1);
    assert one == Next(validityWindow, gcInterval, zero, calls[0]) == Held(map[nonce := MAX_AGE], MAX_AGE);
    assert AfterGc(validityWindow, gcInterval, one, calls[1]) == Held(map[], later);
    assert HeldAfter(validityWindow, gcInterval, MAX_AGE, calls, 2) == Held(map[other := later], later);
  }
}
