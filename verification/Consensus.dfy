/**
 The consensus adapter's chain height: event-sourced from BlockStored, read by validation.
 The domain validator's verdict is a parameter.
 */
module Consensus {

  import opened Bytes

  function Max(a: nat, b: nat): nat {
    if a >= b then a else b
  }

  class ConsensusAdapter {
    const maxCached: nat
    var chainHeight: nat
    var validated: set<Hash>

    constructor (maxCached: nat)
      ensures chainHeight == 0 && validated == {} && this.maxCached == maxCached
    {
      this.maxCached, chainHeight, validated := maxCached, 0, {};
    }

    method SetInitialChainHeight(height: nat)
      modifies this`chainHeight
      ensures chainHeight == height
    {
      chainHeight := height;
    }

    method OnBlockStored(height: nat)
      modifies this`chainHeight
      ensures chainHeight == Max(old(chainHeight), height)
    {
      var current := chainHeight;
      if height > current {
        chainHeight := height;
      }
    }

    /** Validation touches the cache of validated blocks only, and clears it when it grows too large. */
    method ProcessBlockProduced(h: Hash, height: nat, verdict: (nat, nat) -> bool, publishOk: bool) returns (ok: bool)
      modifies this`validated
      ensures var accepts := h !in old(validated) && verdict(chainHeight, height);
              && ok == (accepts && publishOk)
              && validated == (if !accepts then old(validated)
                               else if |old(validated) + {h}| > maxCached then {} else old(validated) + {h})
    {
      var currentHeight := chainHeight;
      if h in validated || !verdict(currentHeight, height) {
        return false;
      }
      validated := validated + {h};
      if |validated| > maxCached {
        validated := {};
      }
      return publishOk;
    }
  }

  datatype Event = Stored(height: nat) | Produced(hash: Hash, height: nat, verdict: (nat, nat) -> bool, publishOk: bool)

  ghost function HighestStored(initial: nat, events: seq<Event>): nat {
    if events == [] then initial else
      var last := events[|events| - 1];
      var before := HighestStored(initial, events[..|events| - 1]);
      if last.Stored? then Max(before, last.height) else before
  }

  /** It is the maximum, whatever else happens in between. */
  lemma {:induction false} HighestStoredIsMaximum(initial: nat, events: seq<Event>)
    ensures var m := HighestStored(initial, events);
            && m >= initial && (forall i :: 0 <= i < |events| && events[i].Stored? ==> m >= events[i].height)
            && (m == initial || exists i :: 0 <= i < |events| && events[i].Stored? && events[i].height == m)
  {
    if events != [] {
      var n := |events| - 1;
      HighestStoredIsMaximum(initial, events[..n]);
      var m := HighestStored(initial, events[..n]);
      if m != initial {
        var i :| 0 <= i < n && events[..n][i].Stored? && events[..n][i].height == m;
        assert events[i].height == m;
      }
      assert forall i :: 0 <= i < n ==> events[i] == events[..n][i];
    }
  }

  /** With handlers run one after another, the chain height is the highest stored block's, and validations
      never move it. */
  method RunEvents(maxCached: nat, initial: nat, events: seq<Event>) returns (height: nat)
    ensures height == HighestStored(initial, events)
  {
    var a := new ConsensusAdapter(maxCached);
    a.SetInitialChainHeight(initial);
    for k := 0 to |events|
      invariant fresh(a) && a.chainHeight == HighestStored(initial, events[..k])
    {
      assert events[..k + 1][..k] == events[..k];
      match events[k]
      case Stored(h) =>
        a.OnBlockStored(h);
      case Produced(hash, h, verdict, publishOk) =>
        var _ := a.ProcessBlockProduced(hash, h, verdict, publishOk);
    }
    assert events[..|events|] == events;
    height := a.chainHeight;
  }

  // ----- overlapping handlers -----

  /** The handler loads the height and stores a larger one in two separate atomic accesses. */
  datatype Step = Load(t: nat, height: nat) | Store(t: nat)

  datatype State = State(chainHeight: nat, inFlight: map<nat, nat>)

  function Apply(s: State, step: Step): State {
    match step
    case Load(t, height) =>
      if height > s.chainHeight then s.(inFlight := s.inFlight[t := height]) else s
    case Store(t) =>
      if t in s.inFlight then State(s.inFlight[t], s.inFlight - {t}) else s
  }

  function Exec(s: State, steps: seq<Step>): State
    decreases |steps|
  {
    if steps == [] then s else Exec(Apply(s, steps[0]), steps[1..])
  }

  /** A handler finishes its store before it loads again. */
  ghost predicate Legal(s: State, steps: seq<Step>)
    decreases |steps|
  {
    steps != [] ==>
      && (steps[0].Load? <==> steps[0].t !in s.inFlight)
      && Legal(Apply(s, steps[0]), steps[1..])
  }

  /** The store replaces a greater height than it writes. */
  ghost predicate Overtaken(s: State, step: Step) {
    step.Store? && step.t in s.inFlight && s.inFlight[step.t] < s.chainHeight
  }

  /** The greatest height that some store writes; 0 if there is no store. */
  ghost function HighestWrite(s: State, steps: seq<Step>): nat
    decreases |steps|
  {
    if steps == [] then 0 else
      var rest := HighestWrite(Apply(s, steps[0]), steps[1..]);
      if steps[0].Store? && steps[0].t in s.inFlight then Max(s.inFlight[steps[0].t], rest) else rest
  }

  /** Every overtaken store is made good by a later one that writes at least the height it replaced. */
  ghost predicate Repaired(s: State, steps: seq<Step>)
    decreases |steps|
  {
    steps != [] ==>
      && (Overtaken(s, steps[0]) ==> HighestWrite(Apply(s, steps[0]), steps[1..]) >= s.chainHeight)
      && Repaired(Apply(s, steps[0]), steps[1..])
  }

  ghost predicate Delivered(s: State, steps: seq<Step>, height: nat) {
    || height == s.chainHeight
    || height in s.inFlight.Values
    || exists i :: 0 <= i < |steps| && steps[i].Load? && steps[i].height == height
  }

  /** However the handlers interleave, the height is the initial one or one that was delivered. */
  lemma {:induction false} HeightWasDelivered(s: State, steps: seq<Step>)
    ensures Delivered(s, steps, Exec(s, steps).chainHeight)
    decreases |steps|
  {
    if steps != [] {
      var h := Exec(s, steps).chainHeight;
      HeightWasDelivered(Apply(s, steps[0]), steps[1..]);
      if exists i :: 0 <= i < |steps| - 1 && steps[1..][i].Load? && steps[1..][i].height == h {
        var i :| 0 <= i < |steps| - 1 && steps[1..][i].Load? && steps[1..][i].height == h;
        assert steps[i + 1].height == h;
      }
    }
  }

  ghost predicate Dominates(s: State, steps: seq<Step>, height: nat) {
    forall h: nat :: Delivered(s, steps, h) ==> h <= height
  }

  /** Once every handler has finished, the height is the maximum of the initial one and all delivered ones
      if and only if every overtaken store was repaired. */
  lemma {:induction false} MaximumIffRepaired(s: State, steps: seq<Step>)
    requires Legal(s, steps) && Exec(s, steps).inFlight == map[]
    ensures Dominates(s, steps, Exec(s, steps).chainHeight) <==> Repaired(s, steps)
    decreases |steps|
  {
    if steps != [] {
      var s', rest, final := Apply(s, steps[0]), steps[1..], Exec(s, steps).chainHeight;
      MaximumIffRepaired(s', rest);
      StepDelivered(s, steps, final);
      assert Delivered(s', rest, s'.chainHeight);
      assert Dominates(s', rest, final) ==> s'.chainHeight <= final;
      hide Delivered, Dominates;
      if Overtaken(s, steps[0]) && Dominates(s', rest, final) {
        WritesBounded(s', rest, final);
        FinalIsWrite(s', rest);
      }
    }
  }

  /** Before a step there is to dominate what there is after it, and the height it replaces. */
  lemma StepDelivered(s: State, steps: seq<Step>, height: nat)
    requires steps != [] && Legal(s, steps)
    ensures Dominates(s, steps, height)
       <==> Dominates(Apply(s, steps[0]), steps[1..], height) && s.chainHeight <= height
  {
    var s', rest := Apply(s, steps[0]), steps[1..];
    if Dominates(s, steps, height) {
      forall h: nat | Delivered(s', rest, h)
        ensures h <= height
      {
        CarriedBack(s, steps, h);
      }
      assert Delivered(s, steps, s.chainHeight);
    }
    if Dominates(s', rest, height) && s.chainHeight <= height {
      forall h: nat | Delivered(s, steps, h)
        ensures h <= height
      {
        CarriedOn(s, steps, h);
      }
    }
  }

  /** What is in view after a step was in view before it. */
  lemma CarriedBack(s: State, steps: seq<Step>, h: nat)
    requires steps != [] && Delivered(Apply(s, steps[0]), steps[1..], h)
    ensures Delivered(s, steps, h)
  {
    var rest := steps[1..];
    if i :| 0 <= i < |rest| && rest[i].Load? && rest[i].height == h {
      assert steps[i + 1] == rest[i];
    } else if steps[0].Load? && h in Apply(s, steps[0]).inFlight.Values {
      assert h in s.inFlight.Values || h == steps[0].height;
    }
  }

  /** What was in view before a step is in view after it, or no greater than the height before it. */
  lemma CarriedOn(s: State, steps: seq<Step>, h: nat)
    requires steps != [] && Legal(s, steps) && Delivered(s, steps, h)
    ensures h <= s.chainHeight || Delivered(Apply(s, steps[0]), steps[1..], h)
  {
    var s', rest := Apply(s, steps[0]), steps[1..];
    if h > s.chainHeight {
      if h in s.inFlight.Values {
        var t :| t in s.inFlight && s.inFlight[t] == h;
        if t in s'.inFlight {
          assert s'.inFlight[t] == h && h in s'.inFlight.Values;
        }
      } else {
        var i :| 0 <= i < |steps| && steps[i].Load? && steps[i].height == h;
        if i > 0 {
          assert rest[i - 1] == steps[i];
        } else {
          assert s'.inFlight[steps[0].t] == h && h in s'.inFlight.Values;
        }
      }
    }
  }

  lemma {:induction false} WritesBounded(s: State, steps: seq<Step>, height: nat)
    requires Legal(s, steps) && Dominates(s, steps, height)
    ensures HighestWrite(s, steps) <= height
    decreases |steps|
  {
    if steps != [] {
      StepDelivered(s, steps, height);
      WritesBounded(Apply(s, steps[0]), steps[1..], height);
      if steps[0].Store? && steps[0].t in s.inFlight {
        assert s.inFlight[steps[0].t] in s.inFlight.Values;
        assert Delivered(s, steps, s.inFlight[steps[0].t]);
      }
    }
  }

  /** The final height is the initial one or at most the greatest one written. */
  lemma {:induction false} FinalIsWrite(s: State, steps: seq<Step>)
    ensures Exec(s, steps).chainHeight == s.chainHeight || Exec(s, steps).chainHeight <= HighestWrite(s, steps)
    decreases |steps|
  {
    if steps != [] {
      FinalIsWrite(Apply(s, steps[0]), steps[1..]);
    }
  }

  /** Overtaking happens: for any two heights above the current one, one order of the four accesses
      leaves the smaller. */
  lemma OverlapLosesUpdate(current: nat, low: nat, high: nat)
    requires current < low < high
    ensures Exec(State(current, map[]), [Load(0, high), Load(1, low), Store(0), Store(1)]) == State(low, map[])
  {
    var s0 := State(current, map[]);
    var s1 := State(current, map[0 := high]);
    var s2 := State(current, map[0 := high, 1 := low]);
    var s3 := State(high, map[1 := low]);
    var s4 := State(low, map[]);
    var steps := [Load(0, high), Load(1, low), Store(0), Store(1)];
    assert steps[1..] == [Load(1, low), Store(0), Store(1)];
    assert [Load(1, low), Store(0), Store(1)][1..] == [Store(0), Store(1)];
    assert [Store(0), Store(1)][1..] == [Store(1)];
    assert [Store(1)][1..] == [];
    assert Apply(s0, Load(0, high)) == s1 && Apply(s1, Load(1, low)) == s2;
    assert Apply(s2, Store(0)) == s3 && Apply(s3, Store(1)) == s4;
    calc {
      Exec(s0, steps);
      Exec(s1, [Load(1, low), Store(0), Store(1)]);
      Exec(s2, [Store(0), Store(1)]);
      Exec(s3, [Store(1)]);
      Exec(s4, []);
    }
  }

  /** Run without overlap, a handler overtakes nothing and does what OnBlockStored states. */
  lemma HandlerAlone(s: State, t: nat, height: nat)
    requires t !in s.inFlight && height > s.chainHeight
    ensures Repaired(s, [Load(t, height), Store(t)])
    ensures Exec(s, [Load(t, height), Store(t)]) == s.(chainHeight := Max(s.chainHeight, height))
  {
    var s1 := Apply(s, Load(t, height));
    var s2 := Apply(s1, Store(t));
    assert [Load(t, height), Store(t)][1..] == [Store(t)];
    assert Exec(s1, [Store(t)]) == Exec(s2, []);
    assert s.inFlight[t := height] - {t} == s.inFlight;
    assert Repaired(s1, [Store(t)]);
  }
}
