/**
 The token bucket: a mutex-protected refill time, an atomic token count changed by
 compare-and-swap loops, and any number of threads.

 A run is any sequence of atomic steps of the threads and of the clock; a step that is not enabled
 does nothing. Time is exact, in nanoseconds. A relaxed load may return any value at all.
 */
module RateLimiter {
  import opened Options

  const NANOS: nat := 1_000_000_000
  const U64: nat := 0x1_0000_0000_0000_0000

  type Tid = nat
  type pos = x: nat | x > 0 witness 1

  /** Where a thread is: outside, waiting for the lock, in the refill loop (with the lock), in the acquire loop, or
      before the one load of a query. Both kinds of call refill first. */
  datatype Pc =
    | Idle
    | WantLock(query: bool)
    | AddLoad(query: bool, add: nat)
    | AddCas(query: bool, add: nat, current: nat)
    | AcquireLoad
    | AcquireCas(available: pos)
    | QueryLoad

  /** granted, refilled and discarded are the running accounts. */
  datatype State = State(capacity: nat, rate: nat, now: nat, lastRefill: nat, tokens: nat,
                         lock: Option<Tid>, pcs: map<Tid, Pc>,
                         granted: nat, refilled: nat, discarded: nat)

  datatype Step =
    | Tick(nanos: nat)
    | Begin(t: Tid, query: bool)
    | Lock(t: Tid)
    | Poisoned(t: Tid)
    | Load(t: Tid, seen: nat)
    | Cas(t: Tid)

  function New(capacity: nat, rate: nat, now: nat): State {
    State(capacity, rate, now, now, capacity, None, map[], 0, 0, 0)
  }

  function PcOf(s: State, t: Tid): Pc {
    if t in s.pcs then s.pcs[t] else Idle
  }

  function Goto(s: State, t: Tid, pc: Pc): State {
    s.(pcs := s.pcs[t := pc])
  }

  /** Whole tokens for the elapsed time, cast to 64 bits with saturation. */
  function TokensToAdd(elapsed: nat, rate: nat): nat {
    var whole := elapsed * rate / NANOS;
    if whole < U64 then whole else U64 - 1
  }

  function Refilled(s: State, current: nat, add: nat): nat {
    var sum := (current + add) % U64;
    if sum <= s.capacity then sum else s.capacity
  }

  function AfterRefill(query: bool): Pc {
    if query then QueryLoad else AcquireLoad
  }

  function Apply(s: State, step: Step): State {
    match step
    case Tick(nanos) => s.(now := s.now + nanos)
    case Begin(t, query) => if PcOf(s, t) == Idle then Goto(s, t, WantLock(query)) else s
    case Poisoned(t) => if PcOf(s, t).WantLock? then Goto(s, t, AfterRefill(PcOf(s, t).query)) else s
    case Lock(t) =>
      if !PcOf(s, t).WantLock? || s.lock != None then s else
        var query := PcOf(s, t).query;
        var elapsed := if s.now >= s.lastRefill then s.now - s.lastRefill else 0;
        var add := TokensToAdd(elapsed, s.rate);
        if add == 0 then Goto(s, t, AfterRefill(query))
        else Goto(s.(lock := Some(t), lastRefill := s.now), t, AddLoad(query, add))
    case Load(t, seen) =>
      (match PcOf(s, t)
       case AddLoad(query, add) => Goto(s, t, AddCas(query, add, seen))
       case AcquireLoad => Goto(s, t, if seen == 0 then Idle else AcquireCas(seen))
       case QueryLoad => Goto(s, t, Idle)
       case _ => s)
    case Cas(t) =>
      (match PcOf(s, t)
       case AddCas(query, add, current) =>
         if s.tokens != current then Goto(s, t, AddLoad(query, add)) else
           var after := Refilled(s, current, add);
           Goto(s.(tokens := after, lock := None, refilled := s.refilled + add,
                   discarded := s.discarded + current + add - after), t, AfterRefill(query))
       case AcquireCas(current) =>
         if s.tokens != current then Goto(s, t, AcquireLoad)
         else Goto(s.(tokens := current - 1, granted := s.granted + 1), t, Idle)
       case _ => s)
  }

  ghost function Exec(s: State, steps: seq<Step>): State {
    if steps == [] then s else Apply(Exec(s, steps[..|steps| - 1]), steps[|steps| - 1])
  }

  /** The tokens a thread has earned by moving lastRefill and not yet added. */
  function InFlight(pc: Pc): nat {
    match pc
    case AddLoad(_, add) => add
    case AddCas(_, add, _) => add
    case _ => 0
  }

  function Owed(s: State): nat {
    match s.lock
    case Some(t) => InFlight(PcOf(s, t))
    case None => 0
  }

  ghost predicate Invariant(s: State) {
    && s.lastRefill <= s.now
    && s.tokens <= s.capacity
    && s.capacity + s.refilled == s.tokens + s.discarded + s.granted
    && (forall t :: t in s.pcs && (s.pcs[t].AddLoad? || s.pcs[t].AddCas?) ==> s.lock == Some(t))
    && (s.lock.Some? ==> PcOf(s, s.lock.value).AddLoad? || PcOf(s, s.lock.value).AddCas?)
  }

  lemma FloorBound(elapsed: nat, rate: nat)
    ensures TokensToAdd(elapsed, rate) * NANOS <= rate * elapsed
  {
    assert elapsed * rate == rate * elapsed;
  }

  /** Between two states the books are kept, and no more was earned than the rate allows for the
      time by which lastRefill moved. */
  ghost predicate Earns(s: State, e: State) {
    && e.capacity == s.capacity && e.rate == s.rate
    && s.now <= e.now && s.lastRefill <= e.lastRefill && s.discarded <= e.discarded
    && (e.refilled + Owed(e)) * NANOS <= (s.refilled + Owed(s)) * NANOS + s.rate * (e.lastRefill - s.lastRefill)
  }

  lemma RateSplits(rate: nat, a: nat, b: nat, c: nat)
    requires a <= b <= c
    ensures rate * (c - a) == rate * (b - a) + rate * (c - b) && rate * (c - b) >= 0
  {
  }

  lemma EarnsTransitive(s: State, m: State, e: State)
    requires Earns(s, m) && Earns(m, e)
    ensures Earns(s, e)
  {
    hide Owed;
    RateSplits(s.rate, s.lastRefill, m.lastRefill, e.lastRefill);
  }

  lemma LockKeeps(s: State, t: Tid)
    requires Invariant(s)
    ensures Invariant(Apply(s, Lock(t))) && Earns(s, Apply(s, Lock(t)))
  {
    FloorBound(s.now - s.lastRefill, s.rate);
    hide TokensToAdd;
  }

  lemma RefilledWithin(s: State, current: nat, add: nat)
    ensures Refilled(s, current, add) <= s.capacity && Refilled(s, current, add) <= current + add
  {
  }

  lemma CasKeeps(s: State, t: Tid)
    requires Invariant(s)
    ensures Invariant(Apply(s, Cas(t))) && Earns(s, Apply(s, Cas(t)))
  {
    if PcOf(s, t).AddCas? {
      RefilledWithin(s, s.tokens, PcOf(s, t).add);
    }
    hide Refilled;
  }

  lemma StepKeeps(s: State, step: Step)
    requires Invariant(s)
    ensures Invariant(Apply(s, step)) && Earns(s, Apply(s, step))
  {
    match step
    case Lock(t) => LockKeeps(s, t);
    case Cas(t) => CasKeeps(s, t);
    case _ =>
  }

  lemma {:induction false} RunKeeps(s: State, steps: seq<Step>)
    requires Invariant(s)
    ensures Invariant(Exec(s, steps)) && Earns(s, Exec(s, steps))
  {
    if steps != [] {
      var m, last := Exec(s, steps[..|steps| - 1]), steps[|steps| - 1];
      RunKeeps(s, steps[..|steps| - 1]);
      StepKeeps(m, last);
      EarnsTransitive(s, m, Apply(m, last));
    }
  }

  /** From any point of a run on: the grants are at most the tokens present or owed then, plus the
      rate times the time since the last refill. */
  lemma WindowBound(s: State, steps: seq<Step>)
    requires Invariant(s)
    ensures var e := Exec(s, steps);
            && e.now >= s.lastRefill
            && e.granted * NANOS <= (s.granted + s.tokens + Owed(s)) * NANOS + s.rate * (e.now - s.lastRefill)
  {
    RunKeeps(s, steps);
    WindowArithmetic(s, Exec(s, steps));
  }

  lemma WindowArithmetic(s: State, e: State)
    requires Invariant(s) && Invariant(e) && Earns(s, e)
    ensures e.granted * NANOS <= (s.granted + s.tokens + Owed(s)) * NANOS + s.rate * (e.now - s.lastRefill)
  {
    RateSplits(s.rate, s.lastRefill, e.lastRefill, e.now);
    assert e.granted <= s.granted + s.tokens + e.refilled - s.refilled;
    hide Owed;
  }

  /** In every run of every number of threads: tokens stay within the capacity, every token is
      accounted for, and the grants since creation are at most the capacity plus rate times elapsed time. */
  lemma GrantsBounded(capacity: nat, rate: nat, now: nat, steps: seq<Step>)
    ensures var e := Exec(New(capacity, rate, now), steps);
            && e.now >= now
            && e.tokens <= capacity
            && capacity + e.refilled == e.tokens + e.discarded + e.granted
            && e.granted * NANOS <= capacity * NANOS + rate * (e.now - now)
  {
    var s := New(capacity, rate, now);
    hide Exec;
    RunKeeps(s, steps);
    WindowBound(s, steps);
  }

  // ----- how a call ends -----

  /** In a call that asked for a token. */
  predicate Acquiring(pc: Pc) {
    match pc
    case WantLock(query) => !query
    case AddLoad(query, _) => !query
    case AddCas(query, _, _) => !query
    case AcquireLoad => true
    case AcquireCas(_) => true
    case _ => false
  }

  /** A thread asking for a token goes on, or ends with a grant, or ends having loaded 0. */
  lemma AcquiringStep(s: State, step: Step, t: Tid)
    requires Acquiring(PcOf(s, t))
    ensures var s' := Apply(s, step);
            || (Acquiring(PcOf(s', t)) && (step.Cas? && step.t == t ==> s'.granted == s.granted))
            || (PcOf(s', t) == Idle && step == Cas(t) && s'.granted == s.granted + 1 && s'.tokens + 1 == s.tokens)
            || (PcOf(s', t) == Idle && step == Load(t, 0) && PcOf(s, t) == AcquireLoad && s'.granted == s.granted)
  {
  }

  /** The thread is inside its call from the first of these steps on. */
  ghost predicate Inside(s: State, steps: seq<Step>, t: Tid) {
    steps != [] ==> PcOf(Exec(s, steps), t) != Idle && Inside(s, steps[..|steps| - 1], t)
  }

  lemma {:induction false} InsideAcquires(s: State, steps: seq<Step>, t: Tid)
    requires PcOf(s, t) == Idle && steps != [] && steps[0] == Begin(t, false) && Inside(s, steps, t)
    ensures Acquiring(PcOf(Exec(s, steps), t))
  {
    var n := |steps| - 1;
    hide Apply;
    if n > 0 {
      InsideAcquires(s, steps[..n], t);
      AcquiringStep(Exec(s, steps[..n]), steps[n], t);
    } else {
      assert steps[..n] == [];
      BeginAcquires(s, t);
    }
  }

  lemma BeginAcquires(s: State, t: Tid)
    requires PcOf(s, t) == Idle
    ensures Acquiring(PcOf(Apply(s, Begin(t, false)), t))
  {
  }

  /** Whatever the other threads do, a call for a token ends in one of two ways: its last step takes one token and
      grants it, or its last step loaded 0 and grants nothing. */
  lemma CallEnds(s: State, steps: seq<Step>, t: Tid)
    requires PcOf(s, t) == Idle && |steps| > 1 && steps[0] == Begin(t, false)
    requires Inside(s, steps[..|steps| - 1], t) && PcOf(Exec(s, steps), t) == Idle
    ensures var n := |steps| - 1;
            var m, e := Exec(s, steps[..n]), Exec(s, steps);
            || (steps[n] == Cas(t) && e.granted == m.granted + 1 && e.tokens + 1 == m.tokens)
            || (steps[n] == Load(t, 0) && e.granted == m.granted && e.tokens == m.tokens)
  {
    var n := |steps| - 1;
    InsideAcquires(s, steps[..n], t);
    AcquiringStep(Exec(s, steps[..n]), steps[n], t);
    LoadKeeps(Exec(s, steps[..n]), t, 0);
    hide Apply;
  }

  lemma LoadKeeps(s: State, t: Tid, seen: nat)
    ensures Apply(s, Load(t, seen)).tokens == s.tokens
  {
  }

  // ----- what is earned is added -----

  ghost function Least(a: nat, b: nat): nat {
    if a <= b then a else b
  }

  /** The whole tokens earned since the last refill. */
  ghost function Earned(s: State): nat
    requires s.lastRefill <= s.now
  {
    (s.now - s.lastRefill) * s.rate / NANOS
  }

  /** The tokens a step earns: it takes the lock and moves the refill time. */
  ghost function EarnedBy(s: State, step: Step): nat
    requires s.lastRefill <= s.now
  {
    if step.Lock? && PcOf(s, step.t).WantLock? && s.lock == None then Least(Earned(s), U64 - 1) else 0
  }

  /** The tokens earned in a run. */
  ghost function EarnedIn(s: State, steps: seq<Step>): nat
    requires Invariant(s)
  {
    if steps == [] then 0 else
      var n := |steps| - 1;
      RunKeeps(s, steps[..n]);
      EarnedIn(s, steps[..n]) + EarnedBy(Exec(s, steps[..n]), steps[n])
  }

  lemma StepEarns(s: State, step: Step)
    requires Invariant(s)
    ensures var e := Apply(s, step); e.refilled + Owed(e) == s.refilled + Owed(s) + EarnedBy(s, step)
  {
    hide Refilled;
  }

  /** In every run, however the loops contend, every earned token has been added or is about to be. */
  lemma {:induction false} EarnedIsAdded(s: State, steps: seq<Step>)
    requires Invariant(s)
    ensures var e := Exec(s, steps); e.refilled + Owed(e) == s.refilled + Owed(s) + EarnedIn(s, steps)
  {
    if steps != [] {
      var n := |steps| - 1;
      EarnedIsAdded(s, steps[..n]);
      RunKeeps(s, steps[..n]);
      hide Apply, Owed, EarnedBy;
      StepEarns(Exec(s, steps[..n]), steps[n]);
    }
  }

  // ----- a call by itself -----

  /** What is there for a call: the tokens and those earned, up to the capacity. The earned ones are cut off below
      2^64, and a sum from there on loses 2^64. */
  ghost function AvailableTo(s: State): nat
    requires s.lastRefill <= s.now
  {
    var sum := s.tokens + Least(Earned(s), U64 - 1);
    Least(if sum < U64 then sum else sum - U64, s.capacity)
  }

  /** So that is the tokens and the earned ones, up to the capacity, if and only if the sum does not overflow. */
  lemma RefillExact(s: State)
    requires Invariant(s) && s.capacity < U64
    ensures AvailableTo(s) == Least(s.tokens + Earned(s), s.capacity) <==> s.tokens + Least(Earned(s), U64 - 1) < U64
  {
    hide Earned;
  }

  /** The steps of a call that nothing disturbs and that loads what is there; a step too many does nothing. */
  ghost function Alone(s: State, t: Tid, query: bool): seq<Step>
    requires s.lastRefill <= s.now
  {
    [Begin(t, query), Lock(t), Load(t, s.tokens), Cas(t), Load(t, AvailableTo(s)), Cas(t)]
  }

  ghost function Six(s: State, a: Step, b: Step, c: Step, d: Step, e: Step, f: Step): State {
    Apply(Apply(Apply(Apply(Apply(Apply(s, a), b), c), d), e), f)
  }

  lemma ExecSix(s: State, a: Step, b: Step, c: Step, d: Step, e: Step, f: Step)
    ensures Exec(s, [a, b, c, d, e, f]) == Six(s, a, b, c, d, e, f)
  {
    hide Apply;
    assert [a][..0] == [] && [a, b][..1] == [a] && [a, b, c][..2] == [a, b] && [a, b, c, d][..3] == [a, b, c];
    assert [a, b, c, d, e][..4] == [a, b, c, d] && [a, b, c, d, e, f][..5] == [a, b, c, d, e];
    assert Exec(s, [a]) == Apply(s, a);
    assert Exec(s, [a, b, c]) == Apply(Apply(Exec(s, [a]), b), c);
    assert Exec(s, [a, b, c, d, e]) == Apply(Apply(Exec(s, [a, b, c]), d), e);
  }

  /** The end of a call that loads what is there. */
  lemma TakesOne(m: State, t: Tid, query: bool)
    requires PcOf(m, t) == AfterRefill(query)
    ensures var e := Apply(Apply(m, Load(t, m.tokens)), Cas(t));
            var taken := if m.tokens > 0 && !query then 1 else 0;
            && e.granted == m.granted + taken && e.tokens == m.tokens - taken
            && PcOf(e, t) == Idle && e.lock == m.lock && e.now == m.now && e.lastRefill == m.lastRefill
  {
  }

  lemma IdleSteps(s: State, t: Tid, seen: nat)
    requires PcOf(s, t) == Idle
    ensures Apply(Apply(s, Load(t, seen)), Cas(t)) == s
  {
  }

  lemma RefillNothing(s: State, t: Tid, query: bool)
    requires Invariant(s) && s.capacity < U64 && s.lock == None && PcOf(s, t) == Idle && Earned(s) == 0
    ensures var m := Apply(Apply(s, Begin(t, query)), Lock(t));
            && PcOf(m, t) == AfterRefill(query) && m.tokens == s.tokens == AvailableTo(s)
            && m.lastRefill == s.lastRefill && m.granted == s.granted && m.lock == None && m.now == s.now
  {
  }

  lemma RefillSome(s: State, t: Tid, query: bool)
    requires Invariant(s) && s.capacity < U64 && s.lock == None && PcOf(s, t) == Idle && Earned(s) > 0
    ensures var m := Apply(Apply(Apply(Apply(s, Begin(t, query)), Lock(t)), Load(t, s.tokens)), Cas(t));
            && PcOf(m, t) == AfterRefill(query) && m.tokens == AvailableTo(s)
            && m.lastRefill == s.now && m.granted == s.granted && m.lock == None && m.now == s.now
  {
    var add := Least(Earned(s), U64 - 1);
    var b := Apply(s, Begin(t, query));
    var l := Apply(b, Lock(t));
    assert l.tokens == s.tokens && PcOf(l, t) == AddLoad(query, add) && l.lock == Some(t);
    CasAdds(Apply(l, Load(t, s.tokens)), t);
    hide Apply;
  }

  lemma CasAdds(m: State, t: Tid)
    requires PcOf(m, t).AddCas? && PcOf(m, t).current == m.tokens
    requires m.tokens < U64 && PcOf(m, t).add < U64
    ensures var AddCas(query, add, current) := PcOf(m, t);
            var e := Apply(m, Cas(t));
            && PcOf(e, t) == AfterRefill(query) && e.granted == m.granted && e.lock == None && e.now == m.now
            && e.lastRefill == m.lastRefill
            && e.tokens == Least(if m.tokens + add < U64 then m.tokens + add else m.tokens + add - U64, m.capacity)
  {
  }

  /** A call alone is granted exactly if there is something, and takes exactly one of it; a query takes nothing.
      The time of the last refill moves only if a whole token was earned. */
  lemma CallAlone(s: State, t: Tid, query: bool)
    requires Invariant(s) && s.capacity < U64 && s.lock == None && PcOf(s, t) == Idle
    ensures var e, available := Exec(s, Alone(s, t, query)), AvailableTo(s);
            var taken := if available > 0 && !query then 1 else 0;
            && e.granted == s.granted + taken && e.tokens == available - taken
            && e.lastRefill == (if Earned(s) == 0 then s.lastRefill else s.now)
            && PcOf(e, t) == Idle && e.lock == None && e.now == s.now
  {
    var available := AvailableTo(s);
    ExecSix(s, Begin(t, query), Lock(t), Load(t, s.tokens), Cas(t), Load(t, available), Cas(t));
    hide Apply, Exec;
    if Earned(s) == 0 {
      RefillNothing(s, t, query);
      var m := Apply(Apply(s, Begin(t, query)), Lock(t));
      TakesOne(m, t, query);
      IdleSteps(Apply(Apply(m, Load(t, s.tokens)), Cas(t)), t, available);
    } else {
      RefillSome(s, t, query);
      TakesOne(Apply(Apply(Apply(Apply(s, Begin(t, query)), Lock(t)), Load(t, s.tokens)), Cas(t)), t, query);
    }
  }
}
