/**
 The windowed replay cache: two filters, the current one rotated into the previous one when its
 window has passed. A filter reports what was inserted and may report what was not; the possible false
 positives are parameters of each query. An insert into a full filter fails and loses some entry,
 the inserted one or another; what an insert loses is a parameter of it, empty if it succeeds.
 */
module ReplayCache {

  type Nonce = nat

  datatype Filters = Filters(current: set<Nonce>, previous: set<Nonce>, windowStart: nat)

  datatype Call =
    | Check(nonce: Nonce, now: nat, later: nat, falseCurrent: bool, falsePrevious: bool, lost: set<Nonce>)
    | Mark(nonce: Nonce, now: nat, later: nat, lost: set<Nonce>)

  /** The clock is read to see whether the window has passed, and again to start the next one. */
  function Rotated(window: nat, f: Filters, now: nat, later: nat): Filters {
    if now > f.windowStart && now - f.windowStart > window then Filters({}, f.current, later) else f
  }

  function Inserted(f: Filters, nonce: Nonce, lost: set<Nonce>): Filters {
    f.(current := f.current + {nonce} - lost)
  }

  /** The answer of a check: reported by one of the two filters after rotation. */
  predicate Answer(window: nat, f: Filters, c: Call) {
    c.Check? && (var r := Rotated(window, f, c.now, c.later);
                 c.nonce in r.current || c.nonce in r.previous || c.falseCurrent || c.falsePrevious)
  }

  function Next(window: nat, f: Filters, c: Call): Filters {
    var r := Rotated(window, f, c.now, c.later);
    if Answer(window, f, c) then r else Inserted(r, c.nonce, c.lost)
  }

  class NonceReplayCache {
    const window: nat
    var current: set<Nonce>
    var previous: set<Nonce>
    var windowStart: nat
    var totalChecked: nat
    var replaysDetected: nat

    /** The last time each nonce was inserted, unless it was lost since. */
    ghost var insertedAt: map<Nonce, nat>
    ghost var clock: nat

    ghost function Value(): Filters
      reads this
    {
      Filters(current, previous, windowStart)
    }

    ghost predicate Valid()
      reads this
    {
      && windowStart <= clock
      && forall n :: n in insertedAt ==>
           && insertedAt[n] <= clock
           && (|| n in current
               || (n in previous && insertedAt[n] <= windowStart)
               || insertedAt[n] + window < windowStart)
    }

    constructor (window: nat, now: nat)
      ensures Valid() && Value() == Filters({}, {}, now) && insertedAt == map[] && clock == now
      ensures this.window == window && totalChecked == replaysDetected == 0
    {
      this.window := window;
      current, previous, windowStart := {}, {}, now;
      totalChecked, replaysDetected := 0, 0;
      insertedAt, clock := map[], now;
    }

    /** Rotation loses only nonces older than the window. */
    method MaybeRotate(now: nat, later: nat)
      requires Valid() && clock <= now <= later
      modifies this`current, this`previous, this`windowStart, this`clock
      ensures Valid() && clock == later && Value() == Rotated(window, old(Value()), now, later)
    {
      clock := later;
      if now - windowStart > window {
        previous := current;
        current := {};
        windowStart := later;
      }
    }

    /** Reports a replay, or inserts the nonce. Within the window after an insert every check reports a replay. */
    method IsReplay(nonce: Nonce, now: nat, later: nat, falseCurrent: bool, falsePrevious: bool, lost: set<Nonce>)
      returns (r: bool)
      requires Valid() && clock <= now <= later
      modifies this
      ensures Valid() && clock == later
      ensures nonce in old(insertedAt) && now <= old(insertedAt)[nonce] + window ==> r
      ensures var c := Check(nonce, now, later, falseCurrent, falsePrevious, lost);
              r == Answer(window, old(Value()), c) && Value() == Next(window, old(Value()), c)
      ensures insertedAt == if r then old(insertedAt) else old(insertedAt)[nonce := later] - lost
      ensures totalChecked == old(totalChecked) + 1 && replaysDetected == old(replaysDetected) + if r then 1 else 0
    {
      totalChecked := totalChecked + 1;
      MaybeRotate(now, later);
      if (nonce in current || falseCurrent) || (nonce in previous || falsePrevious) {
        replaysDetected := replaysDetected + 1;
        return true;
      }
      current := current + {nonce} - lost;
      insertedAt := insertedAt[nonce := later] - lost;
      return false;
    }

    /** The read-only query keeps the same promise without rotating. */
    method WasSeen(nonce: Nonce, now: nat, falseCurrent: bool, falsePrevious: bool) returns (r: bool)
      requires Valid() && clock <= now
      ensures nonce in insertedAt && now <= insertedAt[nonce] + window ==> r
      ensures r <==> nonce in current + previous || falseCurrent || falsePrevious
    {
      r := (nonce in current || falseCurrent) || (nonce in previous || falsePrevious);
    }

    method MarkSeen(nonce: Nonce, now: nat, later: nat, lost: set<Nonce>)
      requires Valid() && clock <= now <= later
      modifies this
      ensures Valid() && clock == later && insertedAt == old(insertedAt)[nonce := later] - lost
      ensures Value() == Next(window, old(Value()), Mark(nonce, now, later, lost))
      ensures totalChecked == old(totalChecked) && replaysDetected == old(replaysDetected)
    {
      MaybeRotate(now, later);
      current := current + {nonce} - lost;
      insertedAt := insertedAt[nonce := later] - lost;
    }
  }

  // ----- whole runs -----

  /** Calls come one after another. */
  predicate InOrder(start: nat, calls: seq<Call>) {
    forall i :: 0 <= i < |calls| ==>
      start <= calls[i].now <= calls[i].later && forall j :: 0 <= j < i ==> calls[j].later <= calls[i].now
  }

  ghost function FiltersAfter(window: nat, start: nat, calls: seq<Call>, n: nat): Filters
    requires n <= |calls|
  {
    if n == 0 then Filters({}, {}, start) else Next(window, FiltersAfter(window, start, calls, n - 1), calls[n - 1])
  }

  /** Call i inserted its nonce. */
  ghost predicate Inserts(calls: seq<Call>, answers: seq<bool>, i: nat)
    requires i < |calls| && i < |answers|
  {
    calls[i].Mark? || !answers[i]
  }

  /** The nonce of call i is not lost by an insert from call i up to before call j. */
  ghost predicate Keeps(calls: seq<Call>, answers: seq<bool>, i: nat, j: nat)
    requires j <= |calls| && j <= |answers|
  {
    forall k :: i <= k < j && Inserts(calls, answers, k) ==> calls[i].nonce !in calls[k].lost
  }

  /** Call j checks the nonce of call i within the window after it. */
  predicate Covers(calls: seq<Call>, window: nat, i: nat, j: nat)
    requires i < |calls| && j < |calls|
  {
    calls[j].Check? && calls[i].nonce == calls[j].nonce && calls[j].now <= calls[i].later + window
  }

  /** Every check within the window of an earlier insert that was kept has answered yes. */
  ghost predicate Promised(calls: seq<Call>, answers: seq<bool>, window: nat)
    requires |answers| <= |calls|
  {
    forall i, j | 0 <= i < j < |answers| && Inserts(calls, answers, i) && Covers(calls, window, i, j) ::
      Keeps(calls, answers, i, j) ==> answers[j]
  }

  /** A kept insert is tracked with a time at least its own. */
  ghost predicate Tracked(calls: seq<Call>, answers: seq<bool>, at: map<Nonce, nat>)
    requires |answers| <= |calls|
  {
    forall i :: 0 <= i < |answers| && Inserts(calls, answers, i) && Keeps(calls, answers, i, |answers|) ==>
                  calls[i].nonce in at && calls[i].later <= at[calls[i].nonce]
  }

  lemma KeepsPrefix(calls: seq<Call>, answers: seq<bool>, r: bool, i: nat, j: nat)
    requires i <= j <= |answers| < |calls|
    ensures Keeps(calls, answers + [r], i, j) <==> Keeps(calls, answers, i, j)
  {
    assert forall k :: 0 <= k < |answers| ==> (answers + [r])[k] == answers[k];
  }

  lemma NextAnswer(calls: seq<Call>, answers: seq<bool>, window: nat, at: map<Nonce, nat>, r: bool)
    requires |answers| < |calls| && Promised(calls, answers, window) && Tracked(calls, answers, at)
    requires var c := calls[|answers|]; c.Check? && c.nonce in at && c.now <= at[c.nonce] + window ==> r
    ensures Promised(calls, answers + [r], window)
  {
    var n, after := |answers|, answers + [r];
    forall i, j | 0 <= i < j < n + 1 && Inserts(calls, after, i) && Covers(calls, window, i, j)
                  && Keeps(calls, after, i, j)
      ensures after[j]
    {
      KeepsPrefix(calls, answers, r, i, j);
      assert Inserts(calls, answers, i);
    }
  }

  lemma NextTracked(calls: seq<Call>, answers: seq<bool>, at: map<Nonce, nat>, r: bool)
    requires |answers| < |calls| && Tracked(calls, answers, at)
    requires forall n :: n in at ==> at[n] <= calls[|answers|].later
    ensures var c := calls[|answers|];
            Tracked(calls, answers + [r], if c.Mark? || !r then at[c.nonce := c.later] - c.lost else at)
  {
    var n, after, c := |answers|, answers + [r], calls[|answers|];
    var at' := if c.Mark? || !r then at[c.nonce := c.later] - c.lost else at;
    forall i | 0 <= i < n + 1 && Inserts(calls, after, i) && Keeps(calls, after, i, n + 1)
      ensures calls[i].nonce in at' && calls[i].later <= at'[calls[i].nonce]
    {
      assert Inserts(calls, after, n) ==> calls[i].nonce !in c.lost;
      if i < n {
        assert Keeps(calls, after, i, n);
        KeepsPrefix(calls, answers, r, i, n);
        assert Inserts(calls, answers, i);
      }
    }
  }

  /** The answers are those of the calls, each on the filters left by those before it. */
  ghost predicate AsAnswered(window: nat, start: nat, calls: seq<Call>, answers: seq<bool>)
    requires |answers| <= |calls|
  {
    forall i :: 0 <= i < |answers| ==> answers[i] == Answer(window, FiltersAfter(window, start, calls, i), calls[i])
  }

  lemma NextAnswered(window: nat, start: nat, calls: seq<Call>, answers: seq<bool>, r: bool)
    requires |answers| < |calls| && AsAnswered(window, start, calls, answers)
    requires r == Answer(window, FiltersAfter(window, start, calls, |answers|), calls[|answers|])
    ensures AsAnswered(window, start, calls, answers + [r])
  {
    hide Answer, FiltersAfter;
  }

  lemma NextInOrder(start: nat, calls: seq<Call>, k: nat)
    requires InOrder(start, calls) && k < |calls|
    ensures start <= calls[k].now <= calls[k].later && (k + 1 < |calls| ==> calls[k].later <= calls[k + 1].now)
  {
  }

  /** Over a whole run: once a call has inserted a nonce that is not lost, every check of it within the
      window answers yes. */
  method RunCalls(window: nat, start: nat, calls: seq<Call>) returns (answers: seq<bool>)
    requires InOrder(start, calls)
    ensures |answers| == |calls| && AsAnswered(window, start, calls, answers)
    ensures Promised(calls, answers, window)
  {
    hide Promised, Tracked, Answer, Next, AsAnswered, InOrder;
    var c := new NonceReplayCache(window, start);
    answers := [];
    NothingYet(window, start, calls);
    if calls != [] {
      NextInOrder(start, calls, 0);
    }
    for k := 0 to |calls|
      invariant fresh(c) && c.Valid() && c.window == window && |answers| == k
      invariant k < |calls| ==> c.clock <= calls[k].now
      invariant c.Value() == FiltersAfter(window, start, calls, k) && AsAnswered(window, start, calls, answers)
      invariant Promised(calls, answers, window) && Tracked(calls, answers, c.insertedAt)
    {
      ghost var at := c.insertedAt;
      var r := false;
      NextInOrder(start, calls, k);
      MarkAnswersNo(window, c.Value(), calls[k]);
      assert forall n :: n in at ==> at[n] <= calls[k].later;
      match calls[k] {
        case Check(nonce, now, later, fc, fp, lost) => r := c.IsReplay(nonce, now, later, fc, fp, lost);
        case Mark(nonce, now, later, lost) => c.MarkSeen(nonce, now, later, lost);
      }
      hide NonceReplayCache.Valid;
      NextAnswer(calls, answers, window, at, r);
      NextTracked(calls, answers, at, r);
      NextAnswered(window, start, calls, answers, r);
      answers := answers + [r];
    }
  }

  lemma MarkAnswersNo(window: nat, f: Filters, c: Call)
    ensures c.Mark? ==> !Answer(window, f, c)
  {
  }

  lemma NothingYet(window: nat, start: nat, calls: seq<Call>)
    ensures Promised(calls, [], window) && Tracked(calls, [], map[]) && AsAnswered(window, start, calls, [])
  {
  }

  // ----- what the filters hold -----

  /** The call comes more than the window after the start of the current one. */
  predicate Rotates(window: nat, f: Filters, c: Call) {
    f.windowStart + window < c.now
  }

  predicate Reports(c: Call) {
    c.Check? && (c.falseCurrent || c.falsePrevious)
  }

  /** What a call answers and leaves: on rotation the current nonces become the previous ones, and those that were
      previous are forgotten; a check that does not report its nonce inserts it, and so does a mark. */
  lemma NextFilters(window: nat, f: Filters, c: Call, x: Nonce)
    ensures var answer, next, rotates := Answer(window, f, c), Next(window, f, c), Rotates(window, f, c);
            && (answer <==> c.Check? && (c.nonce in f.current || (c.nonce in f.previous && !rotates) || Reports(c)))
            && next.windowStart == (if rotates then c.later else f.windowStart)
            && (x in next.previous <==> if rotates then x in f.current else x in f.previous)
            && (x in next.current <==> || (x in f.current && !rotates && (answer || x !in c.lost))
                                       || (x == c.nonce && !answer && x !in c.lost))
  {
  }

  ghost predicate RotatesAt(window: nat, start: nat, calls: seq<Call>, k: nat) {
    k < |calls| && Rotates(window, FiltersAfter(window, start, calls, k), calls[k])
  }

  ghost predicate InsertsAt(window: nat, start: nat, calls: seq<Call>, k: nat) {
    k < |calls| && !Answer(window, FiltersAfter(window, start, calls, k), calls[k])
  }

  ghost predicate LosesAt(window: nat, start: nat, calls: seq<Call>, k: nat, x: Nonce) {
    InsertsAt(window, start, calls, k) && x in calls[k].lost
  }

  /** Call j inserted the nonce; no call up to n lost it, and none after j rotated. */
  ghost predicate CurrentFrom(window: nat, start: nat, calls: seq<Call>, n: nat, j: nat, x: Nonce) {
    && j < n <= |calls| && calls[j].nonce == x && InsertsAt(window, start, calls, j)
    && !LosesAt(window, start, calls, j, x)
    && forall k :: j < k < n ==> !LosesAt(window, start, calls, k, x) && !RotatesAt(window, start, calls, k)
  }

  /** It was current when call m rotated, and no call up to n has rotated since. */
  ghost predicate PreviousFrom(window: nat, start: nat, calls: seq<Call>, n: nat, m: nat, j: nat, x: Nonce) {
    && m < n <= |calls| && RotatesAt(window, start, calls, m) && CurrentFrom(window, start, calls, m, j, x)
    && forall k :: m < k < n ==> !RotatesAt(window, start, calls, k)
  }

  lemma CurrentNext(window: nat, start: nat, calls: seq<Call>, n: nat, j: nat, x: Nonce)
    requires 0 < n <= |calls|
    ensures CurrentFrom(window, start, calls, n, j, x)
       <==> !LosesAt(window, start, calls, n - 1, x)
            && if j == n - 1 then calls[j].nonce == x && InsertsAt(window, start, calls, j)
               else CurrentFrom(window, start, calls, n - 1, j, x) && !RotatesAt(window, start, calls, n - 1)
  {
    hide InsertsAt, LosesAt, RotatesAt;
  }

  lemma PreviousNext(window: nat, start: nat, calls: seq<Call>, n: nat, m: nat, j: nat, x: Nonce)
    requires 0 < n <= |calls|
    ensures PreviousFrom(window, start, calls, n, m, j, x)
       <==> if m == n - 1 then RotatesAt(window, start, calls, m) && CurrentFrom(window, start, calls, m, j, x)
            else PreviousFrom(window, start, calls, n - 1, m, j, x) && !RotatesAt(window, start, calls, n - 1)
  {
    hide CurrentFrom, RotatesAt;
  }

  /** In every run the filters hold exactly the nonces inserted since the last rotation, and those inserted between
      the one before and it, that were not lost. */
  lemma {:induction false} FiltersHold(window: nat, start: nat, calls: seq<Call>, n: nat, x: Nonce)
    requires n <= |calls|
    ensures var f := FiltersAfter(window, start, calls, n);
            && (x in f.current <==> exists j: nat :: CurrentFrom(window, start, calls, n, j, x))
            && (x in f.previous <==> exists m: nat, j: nat :: PreviousFrom(window, start, calls, n, m, j, x))
  {
    if n > 0 {
      var last := n - 1;
      var f := FiltersAfter(window, start, calls, last);
      FiltersHold(window, start, calls, last, x);
      NextFilters(window, f, calls[last], x);
      assert FiltersAfter(window, start, calls, n) == Next(window, f, calls[last]);
      hide FiltersAfter, Next, Answer, Rotates, CurrentFrom, PreviousFrom;
      forall j: nat
        ensures CurrentFrom(window, start, calls, n, j, x)
           <==> !LosesAt(window, start, calls, last, x)
                && if j == last then calls[j].nonce == x && InsertsAt(window, start, calls, j)
                   else CurrentFrom(window, start, calls, last, j, x) && !RotatesAt(window, start, calls, last)
      {
        CurrentNext(window, start, calls, n, j, x);
      }
      forall m: nat, j: nat
        ensures PreviousFrom(window, start, calls, n, m, j, x)
           <==> if m == last then RotatesAt(window, start, calls, m) && CurrentFrom(window, start, calls, m, j, x)
                else PreviousFrom(window, start, calls, last, m, j, x) && !RotatesAt(window, start, calls, last)
      {
        PreviousNext(window, start, calls, n, m, j, x);
      }
    }
  }

  /** So in every run a check without false positives answers yes if and only if an earlier call inserted the nonce,
      it was not lost before the next rotation, and at most one call has rotated since, the check included. */
  lemma AnswerIff(window: nat, start: nat, calls: seq<Call>, i: nat)
    requires i < |calls| && calls[i].Check? && !calls[i].falseCurrent && !calls[i].falsePrevious
    ensures Answer(window, FiltersAfter(window, start, calls, i), calls[i])
       <==> || (exists j: nat :: CurrentFrom(window, start, calls, i, j, calls[i].nonce))
            || (!RotatesAt(window, start, calls, i)
                && exists m: nat, j: nat :: PreviousFrom(window, start, calls, i, m, j, calls[i].nonce))
  {
    FiltersHold(window, start, calls, i, calls[i].nonce);
    NextFilters(window, FiltersAfter(window, start, calls, i), calls[i], calls[i].nonce);
    hide Answer, FiltersAfter, CurrentFrom, PreviousFrom;
  }
}
