/**
 Verification of authenticated messages: version, timestamp, nonce, signature, reply address.

 Timestamps are checked against the wall clock in whole seconds, nonces expire by the monotonic
 clock. Both clocks advance together, so one instant (in nanoseconds) and a fixed offset stand for
 both. Key lookup and HMAC validation are parameters.

 Calls overlap: a call checks the timestamp at one instant, reads the clock for the cache at a later
 one and gets the cache's lock later still. Calls are taken in the order of their locks; their
 readings may be in any order.
 */
module MessageVerifier {
  import opened Bytes
  import opened Options

  type Nonce = nat

  const SECOND: nat := 1_000_000_000
  const MAX_AGE: nat := 60
  const MAX_FUTURE_SKEW: nat := 10
  const TTL: nat := 120 * SECOND
  const MAX_CACHE: nat := 100_000
  const CURRENT_VERSION: nat := 1

  /** The time that may pass between the timestamp check of a call and its turn at the cache. */
  const MAX_DELAY: nat := 49 * SECOND

  datatype Message = Message(version: nat, nonce: Nonce, timestamp: u64, sender: nat, replyTo: Option<nat>)

  /** The instants of the timestamp check, of the clock reading for the cache and of the cache's lock. */
  datatype Instants = Instants(checked: nat, read: nat, locked: nat)
  {
    predicate Ordered() {
      checked <= read <= locked
    }
  }

  /** What identifies a message for replay. */
  datatype Seen = Seen(nonce: Nonce, timestamp: u64)

  datatype Verification =
    | Valid | UnsupportedVersion | TimestampOutOfRange | ReplayDetected | InvalidSignature | ReplyToMismatch

  /** The wall clock in seconds at an instant. */
  function WallSeconds(offset: nat, instant: nat): nat {
    (instant + offset) / SECOND
  }

  /** `timestamp + MAX_AGE` is a 64-bit sum. */
  predicate TimestampOk(timestamp: u64, now: nat) {
    (timestamp + MAX_AGE) % 0x1_0000_0000_0000_0000 >= now && timestamp <= now + MAX_FUTURE_SKEW
  }

  function Cleaned(cache: map<Nonce, nat>, now: nat): map<Nonce, nat> {
    if |cache| >= MAX_CACHE then map n | n in cache && cache[n] > now :: cache[n] else cache
  }

  predicate Fresh(cache: map<Nonce, nat>, nonce: Nonce, now: nat) {
    nonce in cache ==> cache[nonce] <= now
  }

  datatype Call = Call(message: Message, t: Instants, hasKey: bool, hmacOk: bool)

  /** The verdict on a call that finds this cache: the checks in their order. */
  function Judged(offset: nat, cache: map<Nonce, nat>, c: Call): Verification {
    var Message(version, nonce, timestamp, sender, replyTo) := c.message;
    if version != CURRENT_VERSION then UnsupportedVersion
    else if !TimestampOk(timestamp, WallSeconds(offset, c.t.checked)) then TimestampOutOfRange
    else if !Fresh(Cleaned(cache, c.t.read), nonce, c.t.read) then ReplayDetected
    else if !c.hasKey || !c.hmacOk then InvalidSignature
    else if replyTo.Some? && replyTo.value != sender then ReplyToMismatch
    else Valid
  }

  /** What the call leaves in the cache; a nonce is spent even if the signature is then found wrong. */
  function NextCache(offset: nat, cache: map<Nonce, nat>, c: Call): map<Nonce, nat> {
    match Judged(offset, cache, c)
    case UnsupportedVersion => cache
    case TimestampOutOfRange => cache
    case ReplayDetected => Cleaned(cache, c.t.read)
    case _ => Cleaned(cache, c.t.read)[c.message.nonce := c.t.read + TTL]
  }

  // ----- the verdicts from what a call brings and finds -----

  /** The message is at most 60 whole seconds old and at most 10 ahead. For a stamp less than 60 below 2^64 the sum
      wraps, and it counts as 2^64 seconds older. */
  ghost predicate InTime(offset: nat, c: Call) {
    var wall, stamp := (c.t.checked + offset) / 1_000_000_000, c.message.timestamp;
    && stamp <= wall + 10
    && (if stamp + 60 < 0x1_0000_0000_0000_0000 then wall <= stamp + 60
        else wall + 0x1_0000_0000_0000_0000 <= stamp + 60)
  }

  /** The nonce of the call is held with an expiry after the reading. */
  ghost predicate Replayed(cache: map<Nonce, nat>, c: Call) {
    c.message.nonce in cache && c.t.read < cache[c.message.nonce]
  }

  /** The call gets as far as the cache, and its nonce is not held. */
  ghost predicate Unseen(offset: nat, cache: map<Nonce, nat>, c: Call) {
    c.message.version == 1 && InTime(offset, c) && !Replayed(cache, c)
  }

  ghost predicate RepliesElsewhere(m: Message) {
    m.replyTo.Some? && m.replyTo.value != m.sender
  }

  /** When a call deserves which verdict. */
  ghost predicate Deserves(offset: nat, cache: map<Nonce, nat>, c: Call, r: Verification) {
    match r
    case UnsupportedVersion => c.message.version != 1
    case TimestampOutOfRange => c.message.version == 1 && !InTime(offset, c)
    case ReplayDetected => c.message.version == 1 && InTime(offset, c) && Replayed(cache, c)
    case InvalidSignature => Unseen(offset, cache, c) && !(c.hasKey && c.hmacOk)
    case ReplyToMismatch => Unseen(offset, cache, c) && c.hasKey && c.hmacOk && RepliesElsewhere(c.message)
    case Valid => Unseen(offset, cache, c) && c.hasKey && c.hmacOk && !RepliesElsewhere(c.message)
  }

  /** A call gets the one verdict it deserves. */
  lemma VerdictDeserved(offset: nat, cache: map<Nonce, nat>, c: Call)
    ensures forall r :: Deserves(offset, cache, c, r) <==> r == Judged(offset, cache, c)
  {
    StampInTime(offset, c);
    CleanedFresh(cache, c);
    hide TimestampOk, InTime, Cleaned, Fresh;
  }

  lemma GivesDeserved(offset: nat, cache: map<Nonce, nat>, c: Call)
    ensures Deserves(offset, cache, c, Judged(offset, cache, c))
  {
    VerdictDeserved(offset, cache, c);
  }

  lemma StampInTime(offset: nat, c: Call)
    ensures TimestampOk(c.message.timestamp, WallSeconds(offset, c.t.checked)) <==> InTime(offset, c)
  {
    var stamp: nat := c.message.timestamp;
    if stamp + 60 >= 0x1_0000_0000_0000_0000 {
      assert (stamp + 60) % 0x1_0000_0000_0000_0000 == stamp + 60 - 0x1_0000_0000_0000_0000;
    }
  }

  lemma CleanedFresh(cache: map<Nonce, nat>, c: Call)
    ensures Fresh(Cleaned(cache, c.t.read), c.message.nonce, c.t.read) <==> !Replayed(cache, c)
  {
  }

  /** What was found Valid under some reading is held for the TTL from it, and was stamped at most 10 seconds ahead. */
  ghost predicate StillHeld(offset: nat, cache: map<Nonce, nat>, validAt: map<Seen, nat>, clock: nat) {
    forall m :: m in validAt ==>
      && validAt[m] <= clock
      && m.timestamp * SECOND <= validAt[m] + offset + MAX_FUTURE_SKEW * SECOND
      && ((m.nonce in cache && cache[m.nonce] >= validAt[m] + TTL) || validAt[m] + TTL <= clock)
  }

  lemma TurnKeeps(offset: nat, cache: map<Nonce, nat>, validAt: map<Seen, nat>, clock: nat, c: Call)
    requires StillHeld(offset, cache, validAt, clock) && clock <= c.t.locked && c.t.read <= c.t.locked
    ensures var kept := Cleaned(cache, c.t.read);
            && StillHeld(offset, cache, validAt, c.t.locked) && StillHeld(offset, kept, validAt, c.t.locked)
            && (Fresh(kept, c.message.nonce, c.t.read) ==>
                  StillHeld(offset, kept[c.message.nonce := c.t.read + TTL], validAt, c.t.locked))
  {
  }

  lemma ValidKeeps(offset: nat, cache: map<Nonce, nat>, validAt: map<Seen, nat>, clock: nat, m: Seen, read: nat)
    requires StillHeld(offset, cache, validAt, clock) && read <= clock
    requires m.nonce in cache && cache[m.nonce] == read + TTL
    requires m.timestamp * SECOND <= read + offset + MAX_FUTURE_SKEW * SECOND
    ensures StillHeld(offset, cache, validAt[m := read], clock)
  {
  }

  /** So a message in time that finds its nonce fresh has not been Valid, if the call was not too slow. */
  lemma FreshMeansNew(offset: nat, cache: map<Nonce, nat>, validAt: map<Seen, nat>, clock: nat, c: Call)
    requires StillHeld(offset, cache, validAt, clock) && c.t.Ordered() && clock <= c.t.locked
    requires TimestampOk(c.message.timestamp, WallSeconds(offset, c.t.checked))
    requires Fresh(Cleaned(cache, c.t.read), c.message.nonce, c.t.read) && c.t.locked - c.t.checked <= MAX_DELAY
    ensures SeenOf(c) !in validAt
  {
    hide TimestampOk, WallSeconds;
    if SeenOf(c) in validAt {
      WindowFitsTtl(offset, c.message.timestamp, validAt[SeenOf(c)], c.t.checked, c.t.locked);
    }
  }

  class Verifier {
    const offset: nat
    var cache: map<Nonce, nat>

    /** The reading under which each message that was ever found Valid had its nonce inserted. */
    ghost var validAt: map<Seen, nat>
    /** The last lock. */
    ghost var clock: nat

    ghost predicate Consistent()
      reads this
    {
      StillHeld(offset, cache, validAt, clock)
    }

    constructor (offset: nat)
      ensures Consistent() && cache == map[] && validAt == map[] && this.offset == offset && clock == 0
    {
      this.offset := offset;
      cache, validAt, clock := map[], map[], 0;
    }

    /** `now` was read before the lock was taken. */
    method CheckAndInsert(nonce: Nonce, now: nat) returns (fresh': bool)
      modifies this`cache
      ensures var c := Cleaned(old(cache), now);
              fresh' == Fresh(c, nonce, now) && cache == if fresh' then c[nonce := now + TTL] else c
    {
      var expiry := now + TTL;
      if |cache| >= MAX_CACHE {
        cache := map n | n in cache && cache[n] > now :: cache[n];
      }
      if nonce in cache && cache[nonce] > now {
        return false;
      }
      cache := cache[nonce := expiry];
      return true;
    }

    method Verify(m: Message, t: Instants, hasKey: bool, hmacOk: bool) returns (r: Verification)
      requires Consistent() && t.Ordered() && clock <= t.locked
      modifies this
      ensures Consistent() && clock == t.locked
      ensures r == Judged(offset, old(cache), Call(m, t, hasKey, hmacOk))
      ensures Deserves(offset, old(cache), Call(m, t, hasKey, hmacOk), r)
      ensures cache == NextCache(offset, old(cache), Call(m, t, hasKey, hmacOk))
      ensures validAt == if r == Valid then old(validAt)[Seen(m.nonce, m.timestamp) := t.read] else old(validAt)
      // a message is Valid at most once
      ensures t.locked - t.checked <= MAX_DELAY && r == Valid ==> Seen(m.nonce, m.timestamp) !in old(validAt)
    {
      GivesDeserved(offset, cache, Call(m, t, hasKey, hmacOk));
      TurnKeeps(offset, cache, validAt, clock, Call(m, t, hasKey, hmacOk));
      hide TimestampOk, WallSeconds, Deserves, StillHeld, Cleaned, Fresh;
      ghost var before, then' := cache, clock;
      clock := t.locked;
      if m.version != CURRENT_VERSION {
        return UnsupportedVersion;
      }
      if !TimestampOk(m.timestamp, WallSeconds(offset, t.checked)) {
        return TimestampOutOfRange;
      }
      var fresh' := CheckAndInsert(m.nonce, t.read);
      if !fresh' {
        return ReplayDetected;
      }
      if !hasKey {
        return InvalidSignature;
      }
      if !hmacOk {
        return InvalidSignature;
      }
      if m.replyTo.Some? && m.replyTo.value != m.sender {
        return ReplyToMismatch;
      }
      ghost var key := Seen(m.nonce, m.timestamp);
      StampBound(offset, m.timestamp, t.checked, t.read);
      if t.locked - t.checked <= MAX_DELAY {
        FreshMeansNew(offset, before, validAt, then', Call(m, t, hasKey, hmacOk));
      }
      ValidKeeps(offset, cache, validAt, clock, key, t.read);
      validAt := validAt[key := t.read];
      return Valid;
    }
  }

  lemma StampBound(offset: nat, timestamp: u64, checked: nat, read: nat)
    requires TimestampOk(timestamp, WallSeconds(offset, checked)) && checked <= read
    ensures timestamp * SECOND <= read + offset + MAX_FUTURE_SKEW * SECOND
  {
  }

  /** A message still in time reaches the cache less than the TTL after its first insertion. */
  lemma WindowFitsTtl(offset: nat, timestamp: u64, first: nat, checked: nat, locked: nat)
    requires timestamp * SECOND <= first + offset + MAX_FUTURE_SKEW * SECOND
    requires TimestampOk(timestamp, WallSeconds(offset, checked))
    requires checked <= locked <= checked + MAX_DELAY
    ensures locked < first + TTL
  {
    var s := WallSeconds(offset, checked);
    assert checked + offset < (s + 1) * SECOND;
    assert s <= timestamp + MAX_AGE;
  }

  function SeenOf(c: Call): Seen {
    Seen(c.message.nonce, c.message.timestamp)
  }

  ghost predicate NoneTwice(calls: seq<Call>, results: seq<Verification>)
    requires |results| <= |calls|
  {
    forall i, j | 0 <= i < j < |results| && SeenOf(calls[i]) == SeenOf(calls[j]) ::
      !(results[i] == Valid && results[j] == Valid)
  }

  ghost predicate Logged(calls: seq<Call>, results: seq<Verification>, log: set<Seen>)
    requires |results| <= |calls|
  {
    forall i :: 0 <= i < |results| && results[i] == Valid ==> SeenOf(calls[i]) in log
  }

  lemma NextResult(calls: seq<Call>, results: seq<Verification>, log: set<Seen>, r: Verification)
    requires |results| < |calls| && NoneTwice(calls, results) && Logged(calls, results, log)
    requires r == Valid ==> SeenOf(calls[|results|]) !in log
    ensures NoneTwice(calls, results + [r])
    ensures Logged(calls, results + [r], if r == Valid then log + {SeenOf(calls[|results|])} else log)
  {
    var n, after := |results|, results + [r];
    assert forall i :: 0 <= i < n ==> after[i] == results[i];
    forall i, j | 0 <= i < j < n + 1 && SeenOf(calls[i]) == SeenOf(calls[j])
      ensures !(after[i] == Valid && after[j] == Valid)
    {
      assert after[i] == results[i];
    }
  }

  /** Calls in the order of their locks, none with a longer delay than allowed. */
  ghost predicate Timely(calls: seq<Call>) {
    && (forall i :: 0 <= i < |calls| ==> calls[i].t.Ordered() && calls[i].t.locked <= calls[i].t.checked + MAX_DELAY)
    && (forall i, j :: 0 <= i < j < |calls| ==> calls[i].t.locked <= calls[j].t.locked)
  }

  /** The cache after the first n calls of a run. */
  ghost function CacheAfter(offset: nat, calls: seq<Call>, n: nat): map<Nonce, nat>
    requires n <= |calls|
  {
    if n == 0 then map[] else NextCache(offset, CacheAfter(offset, calls, n - 1), calls[n - 1])
  }

  /** The results are the verdicts on the calls, each on the cache left by those before it. */
  ghost predicate AsJudged(offset: nat, calls: seq<Call>, results: seq<Verification>)
    requires |results| <= |calls|
  {
    forall i :: 0 <= i < |results| ==> results[i] == Judged(offset, CacheAfter(offset, calls, i), calls[i])
  }

  /** Call k gets as far as the cache and does not find its nonce held there, so it inserts it. */
  ghost predicate Spends(offset: nat, calls: seq<Call>, k: nat) {
    k < |calls| && Unseen(offset, CacheAfter(offset, calls, k), calls[k])
  }

  /** Call k finds the cache full and drops what expires by its reading. */
  ghost predicate Drops(offset: nat, calls: seq<Call>, k: nat, expiry: nat) {
    && k < |calls| && calls[k].message.version == 1 && InTime(offset, calls[k])
    && |CacheAfter(offset, calls, k)| >= 100_000 && expiry <= calls[k].t.read
  }

  ghost function Expiry(c: Call): nat {
    c.t.read + 120_000_000_000
  }

  /** Call j inserted the nonce, none of the next up to n did so again, and none dropped it. */
  ghost predicate HeldFrom(offset: nat, calls: seq<Call>, n: nat, j: nat, x: Nonce) {
    && j < n <= |calls| && calls[j].message.nonce == x && Spends(offset, calls, j)
    && forall k :: j < k < n ==>
         !(calls[k].message.nonce == x && Spends(offset, calls, k)) && !Drops(offset, calls, k, Expiry(calls[j]))
  }

  lemma NextHolds(offset: nat, cache: map<Nonce, nat>, c: Call, x: Nonce)
    ensures var after := NextCache(offset, cache, c);
            var dropped := c.message.version == 1 && InTime(offset, c) && |cache| >= 100_000
                           && x in cache && cache[x] <= c.t.read;
            if Unseen(offset, cache, c) && c.message.nonce == x then x in after && after[x] == Expiry(c)
            else (x in after <==> x in cache && !dropped) && (x in after ==> after[x] == cache[x])
  {
    StampInTime(offset, c);
    CleanedFresh(cache, c);
    hide TimestampOk, InTime, Fresh;
  }

  lemma HeldNext(offset: nat, calls: seq<Call>, n: nat, j: nat, x: Nonce)
    requires 0 < n <= |calls|
    ensures var last := n - 1;
            var spends := calls[last].message.nonce == x && Spends(offset, calls, last);
            HeldFrom(offset, calls, n, j, x)
            <==> if j == last then spends
                 else HeldFrom(offset, calls, last, j, x) && !spends && !Drops(offset, calls, last, Expiry(calls[j]))
  {
    hide Spends, Drops, Expiry;
  }

  /** In every run the cache holds exactly the nonces that were inserted and neither inserted again nor dropped since,
      for 120 seconds from the reading of that call. */
  lemma {:induction false} CacheHolds(offset: nat, calls: seq<Call>, n: nat, x: Nonce)
    requires n <= |calls|
    ensures x in CacheAfter(offset, calls, n) <==> exists j: nat :: HeldFrom(offset, calls, n, j, x)
    ensures forall j: nat :: HeldFrom(offset, calls, n, j, x) ==>
                               CacheAfter(offset, calls, n)[x] == Expiry(calls[j])
  {
    if n > 0 {
      CacheHolds(offset, calls, n - 1, x);
      NextHolds(offset, CacheAfter(offset, calls, n - 1), calls[n - 1], x);
      assert CacheAfter(offset, calls, n) == NextCache(offset, CacheAfter(offset, calls, n - 1), calls[n - 1]);
      hide NextCache, HeldFrom, InTime, Unseen, CacheAfter;
      forall j: nat
        ensures var last := n - 1;
                var spends := calls[last].message.nonce == x && Spends(offset, calls, last);
                HeldFrom(offset, calls, n, j, x)
                <==> if j == last then spends
                     else HeldFrom(offset, calls, last, j, x) && !spends
                          && !Drops(offset, calls, last, Expiry(calls[j]))
      {
        HeldNext(offset, calls, n, j, x);
      }
    }
  }

  /** So in every run a call is found a replay if and only if it has the current version and is in time, and an
      earlier call inserted its nonce less than 120 seconds before its reading, with no drop since. */
  lemma ReplayIff(offset: nat, calls: seq<Call>, i: nat)
    requires i < |calls|
    ensures Judged(offset, CacheAfter(offset, calls, i), calls[i]) == ReplayDetected
       <==> && calls[i].message.version == 1 && InTime(offset, calls[i])
            && exists j: nat :: HeldFrom(offset, calls, i, j, calls[i].message.nonce)
                                && calls[i].t.read < Expiry(calls[j])
  {
    var cache := CacheAfter(offset, calls, i);
    VerdictDeserved(offset, cache, calls[i]);
    CacheHolds(offset, calls, i, calls[i].message.nonce);
    hide Judged, CacheAfter, InTime, HeldFrom, Expiry;
    assert Deserves(offset, cache, calls[i], ReplayDetected)
      <==> calls[i].message.version == 1 && InTime(offset, calls[i]) && Replayed(cache, calls[i]);
  }

  lemma NothingYet(offset: nat, calls: seq<Call>)
    ensures NoneTwice(calls, []) && Logged(calls, [], {}) && AsJudged(offset, calls, [])
  {
  }

  lemma NextJudged(offset: nat, calls: seq<Call>, results: seq<Verification>, r: Verification)
    requires |results| < |calls| && AsJudged(offset, calls, results)
    requires r == Judged(offset, CacheAfter(offset, calls, |results|), calls[|results|])
    ensures AsJudged(offset, calls, results + [r])
  {
    hide Judged, CacheAfter;
  }

  lemma JudgedDeserved(offset: nat, calls: seq<Call>, results: seq<Verification>)
    requires |results| == |calls| && AsJudged(offset, calls, results)
    ensures forall i :: 0 <= i < |calls| ==> Deserves(offset, CacheAfter(offset, calls, i), calls[i], results[i])
  {
    hide Judged, Deserves, CacheAfter;
    forall i | 0 <= i < |calls|
      ensures Deserves(offset, CacheAfter(offset, calls, i), calls[i], results[i])
    {
      GivesDeserved(offset, CacheAfter(offset, calls, i), calls[i]);
    }
  }

  lemma NextTimely(calls: seq<Call>, k: nat)
    requires Timely(calls) && k < |calls|
    ensures calls[k].t.Ordered() && calls[k].t.locked <= calls[k].t.checked + MAX_DELAY
    ensures k + 1 < |calls| ==> calls[k].t.locked <= calls[k + 1].t.locked
  {
  }

  /** Over a whole run of overlapping calls, forced cleanups included, no message is found Valid twice. */
  method RunCalls(offset: nat, calls: seq<Call>) returns (results: seq<Verification>)
    requires Timely(calls)
    ensures |results| == |calls| && AsJudged(offset, calls, results)
    ensures forall i :: 0 <= i < |calls| ==> Deserves(offset, CacheAfter(offset, calls, i), calls[i], results[i])
    ensures NoneTwice(calls, results)
  {
    hide Judged, NextCache, NoneTwice, Logged, Verifier.Consistent, AsJudged, Timely, Deserves;
    NothingYet(offset, calls);
    var v := new Verifier(offset);
    results := [];
    assert v.validAt.Keys == {};
    for k := 0 to |calls|
      invariant fresh(v) && v.Consistent() && v.offset == offset && |results| == k
      invariant k < |calls| ==> v.clock <= calls[k].t.locked
      invariant v.cache == CacheAfter(offset, calls, k) && AsJudged(offset, calls, results)
      invariant NoneTwice(calls, results) && Logged(calls, results, v.validAt.Keys)
    {
      ghost var log := v.validAt.Keys;
      NextTimely(calls, k);
      var Call(message, t, hasKey, hmacOk) := calls[k];
      var r := v.Verify(message, t, hasKey, hmacOk);
      NextResult(calls, results, log, r);
      NextJudged(offset, calls, results, r);
      assert v.validAt.Keys == if r == Valid then log + {SeenOf(calls[k])} else log;
      results := results + [r];
    }
    JudgedDeserved(offset, calls, results);
  }

  // ----- the bound on the delay is exact -----

  /** A message of the shape used below: stamped 10 seconds ahead of instant 0. */
  function Stamped(nonce: Nonce): Message {
    Message(CURRENT_VERSION, nonce, 10, 0, None)
  }

  /** The last instant at which the wall clock still accepts that stamp. */
  const LAST_CHECK: nat := 71 * SECOND - 1

  /** A call that delivers it with a good signature. */
  function Good(nonce: Nonce, t: Instants): Call {
    Call(Stamped(nonce), t, true, true)
  }

  /** With any longer delay between check and clock reading a message is Valid twice. */
  lemma SlowCallReplays(nonce: Nonce, delay: nat)
    requires delay > MAX_DELAY
    ensures var first := Good(nonce, Instants(0, 0, 0));
            var second := Good(nonce, Instants(LAST_CHECK, LAST_CHECK + delay, LAST_CHECK + delay));
            Judged(0, map[], first) == Valid && Judged(0, NextCache(0, map[], first), second) == Valid
  {
    var cache := map[nonce := TTL];
    assert cache.Keys == {nonce} && Cleaned(cache, LAST_CHECK + delay) == cache;
  }

  /** The calls that fill the cache at instant 0, one that cleans it up at the moment they expire, and a
      replay of the first whose timestamp check and reading came before that and whose lock comes after. */
  function LateCalls(delay: nat): seq<Call> {
    Filling(MAX_CACHE) + [Cleanup(), Good(0, Instants(LAST_CHECK, LAST_CHECK, LAST_CHECK + delay))]
  }

  function Filling(n: nat): (r: seq<Call>)
    ensures |r| == n
  {
    if n == 0 then [] else Filling(n - 1) + [Good(n - 1, Instants(0, 0, 0))]
  }

  function Cleanup(): Call {
    Call(Message(CURRENT_VERSION, MAX_CACHE, 120, 0, None), Instants(TTL, TTL, TTL), true, true)
  }

  /** And so it is with any longer delay between reading and lock, although every reading is immediate: a
      call that read the clock later but got the lock first has cleaned up a full cache. */
  lemma LateLockReplays(delay: nat)
    requires delay > MAX_DELAY
    ensures var calls, n := LateCalls(delay), MAX_CACHE + 1;
            && |calls| == n + 1 && SeenOf(calls[0]) == SeenOf(calls[n])
            && Judged(0, CacheAfter(0, calls, 0), calls[0]) == Valid
            && Judged(0, CacheAfter(0, calls, n), calls[n]) == Valid
    ensures var calls := LateCalls(delay);
            && (forall i, j :: 0 <= i < j < |calls| ==> calls[i].t.locked <= calls[j].t.locked)
            && (forall i :: 0 <= i < |calls| ==> calls[i].t.read == calls[i].t.checked)
  {
    var calls, n := LateCalls(delay), MAX_CACHE;
    FillingAt(n);
    FillingCache(n);
    hide Filling, Cleaned, Fresh;
    var fill := Filling(n);
    assert forall i :: 0 <= i < n ==> calls[i] == fill[i];
    CachePrefix(fill, calls, n);
    hide CacheAfter;
    StampsOk();
    CacheSteps(calls, n);
    var full := CacheAfter(0, calls, n);
    NothingLeft(full, TTL);
    FreshIn(map[], n, TTL);
    OneLeft(n, 2 * TTL, LAST_CHECK);
    FreshIn(map[], 0, 0);
    NotFull(0);
  }

  lemma CacheSteps(calls: seq<Call>, n: nat)
    requires n < |calls|
    ensures CacheAfter(0, calls, 0) == map[]
    ensures CacheAfter(0, calls, n + 1) == NextCache(0, CacheAfter(0, calls, n), calls[n])
  {
  }

  lemma {:induction false} FillingAt(n: nat)
    ensures forall i :: 0 <= i < n ==> Filling(n)[i] == Good(i, Instants(0, 0, 0))
  {
    if n > 0 {
      FillingAt(n - 1);
    }
  }

  lemma {:induction false} CachePrefix(a: seq<Call>, b: seq<Call>, n: nat)
    requires n <= |a| && n <= |b| && forall i :: 0 <= i < n ==> a[i] == b[i]
    ensures CacheAfter(0, a, n) == CacheAfter(0, b, n)
  {
    if n > 0 {
      CachePrefix(a, b, n - 1);
    }
  }

  /** Filling leaves one entry for each nonce. */
  lemma {:induction false} FillingCache(n: nat)
    requires n <= MAX_CACHE
    ensures |CacheAfter(0, Filling(n), n)| == n
    ensures forall x :: x in CacheAfter(0, Filling(n), n) ==> x < n && CacheAfter(0, Filling(n), n)[x] == TTL
  {
    if n > 0 {
      FillingCache(n - 1);
      FillingAt(n);
      CachePrefix(Filling(n - 1), Filling(n), n - 1);
      var cache := CacheAfter(0, Filling(n), n - 1);
      NewNonce(cache, n - 1);
      hide Filling, Cleaned, Fresh, TimestampOk, WallSeconds;
      StampsOk();
      assert CacheAfter(0, Filling(n), n) == cache[n - 1 := TTL];
    }
  }

  lemma StampsOk()
    ensures TimestampOk(10, WallSeconds(0, 0)) && TimestampOk(10, WallSeconds(0, LAST_CHECK))
    ensures TimestampOk(120, WallSeconds(0, TTL))
  {
  }

  lemma NewNonce(cache: map<Nonce, nat>, n: Nonce)
    requires n !in cache && |cache| < MAX_CACHE
    ensures |cache[n := TTL]| == |cache| + 1
    ensures Cleaned(cache, 0) == cache && Fresh(cache, n, 0)
  {
    assert cache[n := TTL].Keys == cache.Keys + {n};
  }

  lemma NotFull(now: nat)
    ensures Cleaned(map[], now) == map[]
  {
  }

  lemma NothingLeft(cache: map<Nonce, nat>, now: nat)
    requires |cache| >= MAX_CACHE && forall n :: n in cache ==> cache[n] <= now
    ensures Cleaned(cache, now) == map[]
  {
  }

  lemma FreshIn(cache: map<Nonce, nat>, n: Nonce, now: nat)
    requires n !in cache
    ensures Fresh(cache, n, now)
  {
  }

  lemma OneLeft(n: Nonce, expiry: nat, now: nat)
    requires n != 0
    ensures Cleaned(map[n := expiry], now) == map[n := expiry] && Fresh(map[n := expiry], 0, now)
  {
    assert map[n := expiry].Keys == {n};
  }
}
