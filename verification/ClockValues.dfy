/**
 The values the logical clock takes: a timestamp is the least that its call may be given,
 and an observation moves the clock to the observed time, or not at all.
 */
module ClockValues {
  import opened Bytes
  import opened Varint
  import opened LogicalClock

  function Max(a: int, b: int): int { if a < b then b else a }

  /** Where a call that began with the candidate c stands. */
  ghost predicate Asks(s: State, t: Thread, c: int)
    requires |s.clocks| == |s.log| + 1
  {
    match t
    case Asking(candidate) => candidate == c || c <= candidate <= Clock(s)
    case Asked(candidate, previous, _) => candidate == if previous == MAX then 0 else Max(c, previous + 1)
    case Issued(value, at) => at < |s.log| && value == Max(c, s.clocks[at] + 1)
    case _ => false
  }

  /** Where a call that observed a time stands. */
  predicate Tells(t: Thread, time: int) {
    (t.Telling? || t.Told? || t.Accepted?) && t.time == time
  }

  predicate AskKind(t: Thread) { t.Asking? || t.Asked? || t.Issued? }

  ghost predicate FromStart(s0: State, s: State) {
    |s.threads| == |s0.threads| && |s.clocks| == |s.log| + 1
    && forall w :: 0 <= w < |s0.threads| ==>
         (s0.threads[w].Asking? && NeverExhausted(s) ==> Asks(s, s.threads[w], s0.threads[w].candidate))
         && (s0.threads[w].Telling? ==> Tells(s.threads[w], s0.threads[w].time))
         && (s0.threads[w].Asking? ==> AskKind(s.threads[w]))
  }

  lemma ExhaustedStays(s: State, s': State)
    requires |s.clocks| == |s.log| + 1 && |s'.clocks| == |s'.log| + 1 && s.clocks <= s'.clocks && s.log <= s'.log
    requires NeverExhausted(s')
    ensures NeverExhausted(s)
  {
    assert forall i :: 0 <= i < |s.log| ==> s.log[i] == s'.log[i] && s.clocks[i] == s'.clocks[i];
  }

  /** The clock never moves below or off a value that was read from it, short of exhaustion. */
  lemma ReadIsPast(s: State, seen: nat)
    requires Inv(s) && NeverExhausted(s) && seen < |s.clocks|
    ensures s.clocks[seen] <= Clock(s) && (s.clocks[seen] == MAX ==> Clock(s) == MAX)
  {
    if seen < |s.clocks| - 1 { Increasing(s, seen, |s.clocks| - 1); }
  }

  lemma AskStep(s: State, w: nat, s': State, c: int)
    requires Inv(s) && Inv(s') && Step(s, w) == Some(s') && NeverExhausted(s') && NeverExhausted(s) && 0 <= c < U64
    requires Asks(s, s.threads[w], c)
    ensures w < |s'.threads| && Asks(s', s'.threads[w], c)
  {
    assert ThreadOk(s, w);
    if s.threads[w].Asked? {
      ReadIsPast(s, s.threads[w].seen);
      if s'.log != s.log { assert s'.log[|s.log|].Tick? && s'.clocks[|s.log|] == Clock(s); }
    }
  }

  lemma AskKept(s: State, s': State, t: Thread, c: int)
    requires Inv(s') && |s.clocks| == |s.log| + 1 && s.clocks <= s'.clocks && s.log <= s'.log && NeverExhausted(s')
    requires Asks(s, t, c)
    ensures Asks(s', t, c)
  {
    assert Clock(s) == s'.clocks[|s.clocks| - 1];
    ReadIsPast(s', |s.clocks| - 1);
  }

  lemma StepFromStart(s0: State, s: State, w: nat, s': State)
    requires Start(s0) && Inv(s) && FromStart(s0, s) && Step(s, w) == Some(s')
    ensures FromStart(s0, s')
  {
    hide Inv, Asks, NeverExhausted;
    StepInv(s, w, s');
    InvParts(s);
    InvParts(s');
    forall u | 0 <= u < |s0.threads|
      ensures s0.threads[u].Asking? && NeverExhausted(s') ==> Asks(s', s'.threads[u], s0.threads[u].candidate)
      ensures s0.threads[u].Telling? ==> Tells(s'.threads[u], s0.threads[u].time)
      ensures s0.threads[u].Asking? ==> AskKind(s'.threads[u])
    {
      if s0.threads[u].Asking? && NeverExhausted(s') {
        ExhaustedStays(s, s');
        if u == w {
          AskStep(s, w, s', s0.threads[u].candidate);
        } else {
          AskKept(s, s', s.threads[u], s0.threads[u].candidate);
        }
      }
    }
  }

  lemma {:induction false} RunFromStart(s0: State, s: State, steps: seq<nat>, s': State)
    requires Start(s0) && Inv(s) && FromStart(s0, s) && Exec(s, steps) == Some(s')
    ensures FromStart(s0, s')
    decreases |steps|
  {
    hide Step, Inv, FromStart;
    if steps != [] {
      var next := Step(s, steps[0]).value;
      StepFromStart(s0, s, steps[0], next);
      StepInv(s, steps[0], next);
      RunFromStart(s0, next, steps[1..], s');
    }
  }

  /**
   Short of exhaustion a timestamp is the greater of the wall-clock time its call began
   with and the successor of the clock it replaces: no less, and no more.
   */
  lemma IssuedIsLeast(s0: State, steps: seq<nat>, s: State, w: nat)
    requires Start(s0) && Exec(s0, steps) == Some(s)
    requires |s.clocks| == |s.log| + 1 && NeverExhausted(s)
    requires w < |s.threads| && s.threads[w].Issued?
    ensures w < |s0.threads| && s0.threads[w].Asking?
    ensures s.threads[w].at < |s.log|
    ensures s.threads[w].value == Max(s0.threads[w].candidate, s.clocks[s.threads[w].at] + 1)
    ensures s.threads[w].value >= s0.threads[w].candidate
  {
    assert FromStart(s0, s0);
    Reached(s0, [], s0);
    RunFromStart(s0, s0, steps, s);
    assert Starting(s0.threads[w]);
  }

  /** Every move of the clock that is not a timestamp takes it to the time some call observed. */
  lemma JumpIsObserved(s0: State, steps: seq<nat>, s: State, i: nat)
    requires Start(s0) && Exec(s0, steps) == Some(s)
    requires |s.clocks| == |s.log| + 1 && i < |s.log| && s.log[i].Jump?
    ensures s.log[i].caller < |s0.threads| && s0.threads[s.log[i].caller] == Telling(s.clocks[i + 1])
    ensures s.clocks[i] < s.clocks[i + 1]
  {
    Reached(s0, steps, s);
    assert SwapOk(s, i);
    assert FromStart(s0, s0);
    Reached(s0, [], s0);
    RunFromStart(s0, s0, steps, s);
    assert Starting(s0.threads[s.log[i].caller]);
  }
}
