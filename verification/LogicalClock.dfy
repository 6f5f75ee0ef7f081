/**
 The logical clock as a step system: any number of nextLogicalTime and observeLogicalTime
 calls interleaved at their atomic loads and compare-and-swaps on one 64-bit word.
 */
module LogicalClock {
  import opened Bytes
  import opened Varint

  const MAX: int := U64 - 1

  /**
   Where a call stands. candidate survives a failed swap; seen is how many swaps had
   succeeded at the load, and at the same for the call's last look at the clock.
   */
  datatype Thread =
    | Asking(candidate: int)
    | Asked(candidate: int, previous: int, seen: nat)
    | Issued(value: int, at: nat)
    | Telling(time: int)
    | Told(time: int, previous: int, seen: nat)
    | Accepted(time: int, at: nat)

  /** A successful swap: a timestamp issued to a call, or the clock moved up to an observed time. */
  datatype Swap = Tick(caller: nat) | Jump(caller: nat)

  /** Every value the clock has held, and the swap that led from each to the next. */
  datatype State = State(clocks: seq<int>, log: seq<Swap>, threads: seq<Thread>)

  function Clock(s: State): int
    requires s.clocks != []
  {
    s.clocks[|s.clocks| - 1]
  }

  function Move(s: State, w: nat, t: Thread): State
    requires w < |s.threads|
  {
    s.(threads := s.threads[w := t])
  }

  function SwapIn(s: State, w: nat, value: int, swap: Swap, t: Thread): State
    requires w < |s.threads|
  {
    State(s.clocks + [value], s.log + [swap], s.threads[w := t])
  }

  /** The next atomic operation of call w. */
  function Step(s: State, w: nat): Option<State> {
    if w >= |s.threads| || s.clocks == [] then None
    else
      match s.threads[w]
      case Asking(candidate) =>
        var previous := Clock(s);
        Some(Move(s, w, Asked(if candidate <= previous then (previous + 1) % U64 else candidate, previous, |s.log|)))
      case Asked(candidate, previous, _) =>
        if Clock(s) == previous then Some(SwapIn(s, w, candidate, Tick(w), Issued(candidate, |s.log|)))
        else Some(Move(s, w, Asking(candidate)))
      case Telling(time) =>
        if time <= Clock(s) then Some(Move(s, w, Accepted(time, |s.log|)))
        else Some(Move(s, w, Told(time, Clock(s), |s.log|)))
      case Told(time, previous, _) =>
        if Clock(s) == previous then Some(SwapIn(s, w, time, Jump(w), Accepted(time, |s.log| + 1)))
        else Some(Move(s, w, Telling(time)))
      case _ => None
  }

  /** An interleaving: which call moves next, over and over. */
  function Exec(s: State, steps: seq<nat>): Option<State>
    decreases |steps|
  {
    if steps == [] then Some(s)
    else
      match Step(s, steps[0])
      case None => None
      case Some(next) => Exec(next, steps[1..])
  }

  predicate Starting(t: Thread) {
    (t.Asking? && 0 <= t.candidate < U64) || (t.Telling? && 0 <= t.time < U64)
  }

  predicate Start(s: State) {
    |s.clocks| == 1 && 0 <= s.clocks[0] < U64 && s.log == []
    && forall w :: 0 <= w < |s.threads| ==> Starting(s.threads[w])
  }

  // ------------------------------------------------------------------ invariant

  ghost predicate ThreadOk(s: State, w: nat)
    requires w < |s.threads| && |s.clocks| == |s.log| + 1
  {
    match s.threads[w]
    case Asking(candidate) => 0 <= candidate < U64
    case Asked(candidate, previous, seen) =>
      seen <= |s.log| && s.clocks[seen] == previous && 0 <= candidate < U64
      && (previous < candidate || (previous == MAX && candidate == 0))
    case Issued(value, at) => at < |s.log| && s.log[at] == Tick(w) && s.clocks[at + 1] == value
    case Telling(time) => 0 <= time < U64
    case Told(time, previous, seen) => seen <= |s.log| && s.clocks[seen] == previous && previous < time < U64
    case Accepted(time, at) => at <= |s.log| && time <= s.clocks[at]
  }

  ghost predicate SwapOk(s: State, i: nat)
    requires i < |s.log| && |s.clocks| == |s.log| + 1
  {
    match s.log[i]
    case Tick(w) =>
      w < |s.threads| && s.threads[w] == Issued(s.clocks[i + 1], i)
      && (s.clocks[i] < s.clocks[i + 1] || (s.clocks[i] == MAX && s.clocks[i + 1] == 0))
    case Jump(w) => w < |s.threads| && s.threads[w] == Accepted(s.clocks[i + 1], i + 1) && s.clocks[i] < s.clocks[i + 1]
  }

  ghost predicate Inv(s: State) {
    |s.clocks| == |s.log| + 1
    && (forall i :: 0 <= i < |s.clocks| ==> 0 <= s.clocks[i] < U64)
    && (forall w :: 0 <= w < |s.threads| ==> ThreadOk(s, w))
    && (forall i :: 0 <= i < |s.log| ==> SwapOk(s, i))
  }

  predicate Returned(t: Thread) { t.Issued? || t.Accepted? }

  lemma MoveInv(s: State, w: nat, t: Thread)
    requires Inv(s) && w < |s.threads| && !Returned(s.threads[w])
    requires ThreadOk(Move(s, w, t), w)
    ensures Inv(Move(s, w, t))
  {
    var s' := Move(s, w, t);
    forall u | 0 <= u < |s'.threads| ensures ThreadOk(s', u) {
      assert ThreadOk(s, u);
    }
    forall i | 0 <= i < |s'.log| ensures SwapOk(s', i) {
      assert SwapOk(s, i);
    }
  }

  lemma KeepThread(s: State, s': State, u: nat)
    requires |s.clocks| == |s.log| + 1 && |s'.clocks| == |s'.log| + 1
    requires s.clocks <= s'.clocks && s.log <= s'.log
    requires u < |s.threads| && u < |s'.threads| && s.threads[u] == s'.threads[u] && ThreadOk(s, u)
    ensures ThreadOk(s', u)
  {
    assert forall i :: 0 <= i < |s.log| ==> s.log[i] == s'.log[i];
    assert forall i :: 0 <= i < |s.clocks| ==> s.clocks[i] == s'.clocks[i];
  }

  lemma SwapInv(s: State, w: nat, value: int, swap: Swap, t: Thread)
    requires Inv(s) && w < |s.threads| && !Returned(s.threads[w]) && 0 <= value < U64
    requires ThreadOk(SwapIn(s, w, value, swap, t), w) && SwapOk(SwapIn(s, w, value, swap, t), |s.log|)
    ensures Inv(SwapIn(s, w, value, swap, t))
  {
    var s' := SwapIn(s, w, value, swap, t);
    forall u | 0 <= u < |s'.threads| ensures ThreadOk(s', u) {
      if u != w { KeepThread(s, s', u); }
    }
    forall i | 0 <= i < |s'.log| ensures SwapOk(s', i) {
      if i < |s.log| { assert SwapOk(s, i); }
    }
  }

  lemma StepInv(s: State, w: nat, s': State)
    requires Inv(s) && Step(s, w) == Some(s')
    ensures Inv(s') && s.clocks <= s'.clocks && s.log <= s'.log
  {
    assert ThreadOk(s, w);
    hide Inv;
    InvParts(s);
    if s'.log == s.log {
      MoveInv(s, w, s'.threads[w]);
    } else {
      SwapInv(s, w, Clock(s'), s'.log[|s.log|], s'.threads[w]);
    }
  }

  lemma InvParts(s: State)
    requires Inv(s)
    ensures |s.clocks| == |s.log| + 1 && 0 <= Clock(s) < U64
  {
  }

  lemma {:induction false} RunInv(s: State, steps: seq<nat>, s': State)
    requires Inv(s) && Exec(s, steps) == Some(s')
    ensures Inv(s') && s.clocks <= s'.clocks && s.log <= s'.log
    decreases |steps|
  {
    if steps != [] {
      var next := Step(s, steps[0]).value;
      StepInv(s, steps[0], next);
      RunInv(next, steps[1..], s');
    }
  }

  lemma Reached(s0: State, steps: seq<nat>, s: State)
    requires Start(s0) && Exec(s0, steps) == Some(s)
    ensures Inv(s)
  {
    assert Inv(s0);
    RunInv(s0, steps, s);
  }

  // ----------------------------------------------------------------- main results

  /** No timestamp was issued with the clock at its last value. */
  ghost predicate NeverExhausted(s: State)
    requires |s.clocks| == |s.log| + 1
  {
    forall i :: 0 <= i < |s.log| && s.log[i].Tick? ==> s.clocks[i] < MAX
  }

  lemma {:induction false} Increasing(s: State, i: nat, j: nat)
    requires Inv(s) && NeverExhausted(s) && i < j < |s.clocks|
    ensures s.clocks[i] < s.clocks[j]
    decreases j - i
  {
    assert SwapOk(s, j - 1);
    if i < j - 1 { Increasing(s, i, j - 1); }
  }

  /** The clock only ever goes forward if and only if no timestamp is issued at 2^64 - 1. */
  lemma MonotoneIff(s0: State, steps: seq<nat>, s: State)
    requires Start(s0) && Exec(s0, steps) == Some(s)
    ensures |s.clocks| == |s.log| + 1
    ensures (forall i, j :: 0 <= i < j < |s.clocks| ==> s.clocks[i] < s.clocks[j]) <==> NeverExhausted(s)
  {
    Reached(s0, steps, s);
    if NeverExhausted(s) {
      forall i, j | 0 <= i < j < |s.clocks| ensures s.clocks[i] < s.clocks[j] {
        Increasing(s, i, j);
      }
    } else {
      var i :| 0 <= i < |s.log| && s.log[i].Tick? && s.clocks[i] >= MAX;
      assert SwapOk(s, i);
      assert s.clocks[i + 1] < s.clocks[i];
    }
  }

  /** Issued timestamps are distinct and increase in the order of their swaps. */
  lemma IssuedInOrder(s0: State, steps: seq<nat>, s: State, u: nat, v: nat)
    requires Start(s0) && Exec(s0, steps) == Some(s)
    requires |s.clocks| == |s.log| + 1 && NeverExhausted(s)
    requires u < |s.threads| && v < |s.threads| && u != v && s.threads[u].Issued? && s.threads[v].Issued?
    ensures s.threads[u].at != s.threads[v].at
    ensures s.threads[u].at < s.threads[v].at <==> s.threads[u].value < s.threads[v].value
    ensures s.threads[u].value != s.threads[v].value
  {
    Reached(s0, steps, s);
    assert ThreadOk(s, u) && ThreadOk(s, v);
    var i, j := s.threads[u].at, s.threads[v].at;
    if i < j { Increasing(s, i + 1, j + 1); }
    if j < i { Increasing(s, j + 1, i + 1); }
  }

  /** A timestamp whose swap comes after an observation was accepted exceeds the observed time. */
  lemma IssuedAfterObserved(s0: State, steps: seq<nat>, s: State, u: nat, v: nat)
    requires Start(s0) && Exec(s0, steps) == Some(s)
    requires |s.clocks| == |s.log| + 1 && NeverExhausted(s)
    requires u < |s.threads| && v < |s.threads| && s.threads[u].Accepted? && s.threads[v].Issued?
    requires s.threads[u].at <= s.threads[v].at
    ensures s.threads[u].time < s.threads[v].value
  {
    Reached(s0, steps, s);
    assert ThreadOk(s, u) && ThreadOk(s, v);
    Increasing(s, s.threads[u].at, s.threads[v].at + 1);
  }

  /** A swap that fails was overtaken: some other swap succeeded since the load. */
  lemma FailedMeansOvertaken(s0: State, steps: seq<nat>, s: State, w: nat)
    requires Start(s0) && Exec(s0, steps) == Some(s)
    requires w < |s.threads| && (s.threads[w].Asked? || s.threads[w].Told?)
    requires Step(s, w).Some? && Step(s, w).value.log == s.log
    ensures s.threads[w].seen < |s.log|
  {
    Reached(s0, steps, s);
    assert ThreadOk(s, w);
  }

  // ---------------------------------------------------------- exhausting the clock

  /** At 2^64 - 1 the next timestamp issued is 0. */
  lemma Wraps(s: State, w: nat) returns (s': State)
    requires |s.clocks| == |s.log| + 1 && Clock(s) == MAX
    requires w < |s.threads| && s.threads[w].Asking? && s.threads[w].candidate <= MAX
    ensures Exec(s, [w, w]) == Some(s')
    ensures w < |s'.threads| && s'.clocks != [] && s'.threads[w].Issued? && s'.threads[w].value == 0 && Clock(s') == 0
  {
    var s1 := Step(s, w).value;
    s' := Step(s1, w).value;
    assert [w, w][1..] == [w];
    assert [w][1..] == [];
    assert Exec(s1, [w]) == Some(s');
  }
}
