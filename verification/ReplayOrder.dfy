/**
 What every run of the write-replay protocol guarantees: published writes take effect
 one after another in publish order, each exactly once with the reply of the attempt
 that published it, and contention costs a writer at most one attempt per rival publish.
 */
module ReplayOrder {
  import opened Bytes
  import opened MergeModes
  import opened WriteOrder
  import opened Replay

  // ------------------------------------------------------------- over whole runs

  ghost predicate Extends(s: State, s': State) {
    |s.writers| == |s'.writers|
    && (forall w :: 0 <= w < |s.writers| ==> s'.writers[w].cmd == s.writers[w].cmd)
    && s.tips <= s'.tips && s.log <= s'.log
  }

  /** No step but a successful publish touches the branch. */
  lemma StepExtends(mode: Mode, s: State, w: nat, a: Action, s': State)
    requires Apply(mode, s, w, a) == Some(s')
    ensures Extends(s, s')
    ensures (s'.tips == s.tips && s'.log == s.log) || (a == Publish && Publishes(s, w, s'))
  {
    hide Reconcile;
  }

  lemma {:induction false} RunInv(mode: Mode, s: State, steps: seq<(nat, Action)>, s': State)
    requires Inv(mode, s) && Exec(mode, s, steps) == Some(s')
    ensures Inv(mode, s') && Extends(s, s')
    decreases |steps|
  {
    hide Apply, Inv;
    if steps != [] {
      var next := Apply(mode, s, steps[0].0, steps[0].1).value;
      StepInv(mode, s, steps[0].0, steps[0].1, next);
      StepExtends(mode, s, steps[0].0, steps[0].1, next);
      RunInv(mode, next, steps[1..], s');
    }
  }

  // ---------------------------------------------------------------- publish order

  function CommandAt(s: State, i: nat): Command
    requires i < |s.log| && s.log[i].writer < |s.writers|
  {
    s.writers[s.log[i].writer].cmd
  }

  /**
   The i-th publish is its command applied to the tip before it, or changed nothing and
   answers for the tip it read.
   */
  ghost predicate EntryInOrder(s: State, i: nat)
    requires i < |s.log|
  {
    i + 1 < |s.tips| && s.log[i].writer < |s.writers| && s.log[i].pin <= i
    && var e, c := s.log[i], CommandAt(s, i);
    if e.changed then
      c.run(RowOf(s.tips[i], c.id)) == Writes(RowOf(s.tips[i + 1], c.id), e.reply)
      && s.tips[i + 1] == WithRow(s.tips[i], c.id, RowOf(s.tips[i + 1], c.id))
    else
      s.tips[i + 1] == s.tips[i] && c.run(RowOf(s.tips[e.pin], c.id)) == Writes(RowOf(s.tips[e.pin], c.id), e.reply)
  }

  /** The first n publishes replayed one after another, each on the result of the one before. */
  ghost function Serial(s: State, n: nat): Store
    requires n <= |s.log| && |s.tips| > 0
    requires forall i :: 0 <= i < n ==> s.log[i].writer < |s.writers|
  {
    if n == 0 then s.tips[0]
    else
      var before, c := Serial(s, n - 1), CommandAt(s, n - 1);
      var effect := c.run(RowOf(before, c.id));
      if s.log[n - 1].changed && effect.Writes? then WithRow(before, c.id, effect.row) else before
  }

  /** How an entry's reconciliation settles its one row. */
  lemma EntryRow(mode: Mode, s: State, i: nat) returns (row: Row)
    requires i < |s.log| && EntryOk(mode, s, i)
    ensures var e, c := s.log[i], CommandAt(s, i);
            c.run(RowOf(s.tips[e.pin], c.id)) == Writes(row, e.reply)
            && e.changed == (row != RowOf(s.tips[e.pin], c.id))
            && var m := MergeRow(mode, RowOf(s.tips[e.pin], c.id), row, RowOf(s.tips[i], c.id));
               m.Some? && s.tips[i + 1] == WithRow(s.tips[i], c.id, m.value)
  {
    hide MergeRow, WithRow, Reconcile;
    var e := s.log[i];
    var x := s.writers[e.writer];
    row :| Computed(s, x, e.pin, row, e.reply) && Led(mode, s, x, e, row, i);
    ReconcileOneRow(mode, s.tips[e.pin], s.tips[i], x.cmd.id, row);
  }

  lemma SettlesInOrder(mode: Mode, s: State, i: nat)
    requires i < |s.log| && EntryOk(mode, s, i)
    requires var c := CommandAt(s, i); InOrder(mode, c.run, RowOf(s.tips[s.log[i].pin], c.id), RowOf(s.tips[i], c.id))
    ensures EntryInOrder(s, i)
  {
    hide MergeRow, WithRow, Reconcile, EntryOk;
    EntryParts(mode, s, i);
    var e, c := s.log[i], CommandAt(s, i);
    var row := EntryRow(mode, s, i);
    if !e.changed {
      UnchangedRow(mode, row, RowOf(s.tips[i], c.id));
      SameRows(s.tips[i + 1], s.tips[i]);
    }
  }

  lemma EntryParts(mode: Mode, s: State, i: nat)
    requires i < |s.log| && EntryOk(mode, s, i)
    ensures i + 1 < |s.tips| && s.log[i].writer < |s.writers| && s.log[i].pin <= i
  {
  }

  lemma EntryRefusals(mode: Mode, s: State, i: nat)
    requires i < |s.log| && EntryOk(mode, s, i)
    ensures s.writers[s.log[i].writer].refusals <= i - s.writers[s.log[i].writer].born
  {
  }

  ghost predicate NoBare(store: Store) {
    forall id :: !Bare(RowOf(store, id))
  }

  ghost predicate NeverBare(c: Command) {
    forall b :: c.run(b).Writes? ==> !Bare(c.run(b).row)
  }

  /** Commands that are in order whatever they meet; or any that never leave a bare document, under documentTouched. */
  ghost predicate Orderly(mode: Mode, s: State) {
    (forall w :: 0 <= w < |s.writers| ==> Safe(mode, s.writers[w].cmd.run))
    || (mode == DocumentTouched && |s.tips| > 0 && NoBare(s.tips[0])
        && forall w :: 0 <= w < |s.writers| ==> NeverBare(s.writers[w].cmd))
  }

  lemma {:induction false} TipsNeverBare(s: State, n: nat)
    requires Inv(DocumentTouched, s) && n < |s.tips| && NoBare(s.tips[0])
    requires forall w :: 0 <= w < |s.writers| ==> NeverBare(s.writers[w].cmd)
    ensures NoBare(s.tips[n])
  {
    hide MergeRow, WithRow, Reconcile, EntryOk, WriterOk;
    if n > 0 {
      TipsNeverBare(s, n - 1);
      var i := n - 1;
      assert EntryOk(DocumentTouched, s, i);
      EntryParts(DocumentTouched, s, i);
      var row := EntryRow(DocumentTouched, s, i);
      var c := CommandAt(s, i);
      var b, t := RowOf(s.tips[s.log[i].pin], c.id), RowOf(s.tips[i], c.id);
      assert NeverBare(c);
      UnchangedRow(DocumentTouched, b, t);
      UnchangedRow(DocumentTouched, b, row);
      if row != b && t != b { DocumentTouchedMerge(b, row, t); }
    }
  }

  lemma EntriesInOrder(mode: Mode, s: State, i: nat)
    requires Inv(mode, s) && Orderly(mode, s) && i < |s.log|
    ensures EntryInOrder(s, i)
  {
    hide MergeRow, WithRow, Reconcile, EntryOk, WriterOk;
    assert EntryOk(mode, s, i);
    EntryParts(mode, s, i);
    var c := CommandAt(s, i);
    var b, t := RowOf(s.tips[s.log[i].pin], c.id), RowOf(s.tips[i], c.id);
    if forall w :: 0 <= w < |s.writers| ==> Safe(mode, s.writers[w].cmd.run) {
      assert Safe(mode, c.run);
    } else {
      TipsNeverBare(s, i);
      assert NeverBare(c);
      NoBareInOrder(c.run, b, t);
    }
    assert InOrder(mode, c.run, b, t);
    SettlesInOrder(mode, s, i);
  }

  lemma {:induction false} SerialIsTip(mode: Mode, s: State, n: nat)
    requires Inv(mode, s) && Orderly(mode, s) && n <= |s.log|
    ensures forall i :: 0 <= i < n ==> s.log[i].writer < |s.writers|
    ensures Serial(s, n) == s.tips[n]
  {
    hide EntryOk, WriterOk, WithRow, Orderly;
    forall i | 0 <= i < n ensures s.log[i].writer < |s.writers| {
      EntriesInOrder(mode, s, i);
    }
    if n > 0 {
      SerialIsTip(mode, s, n - 1);
      EntriesInOrder(mode, s, n - 1);
    }
  }

  /**
   Over every interleaving: the branch holds the published commands applied one after
   another in publish order, and every reply is the one that order gives.
   */
  lemma PublishOrder(mode: Mode, store: Store, cmds: seq<Command>, steps: seq<(nat, Action)>, s: State)
    requires Exec(mode, Start(store, cmds), steps) == Some(s)
    requires Orderly(mode, Start(store, cmds))
    ensures |s.tips| == |s.log| + 1 && s.tips[0] == store
    ensures forall i :: 0 <= i < |s.log| ==> EntryInOrder(s, i)
    ensures (forall i :: 0 <= i < |s.log| ==> s.log[i].writer < |s.writers|) && Serial(s, |s.log|) == s.tips[|s.log|]
  {
    hide Exec, WriterOk, EntryOk, EntryInOrder;
    var s0 := Start(store, cmds);
    StartInv(mode, store, cmds);
    RunInv(mode, s0, steps, s);
    assert s.tips[0] == s0.tips[0];
    assert Orderly(mode, s) by {
      assert forall w :: 0 <= w < |s.writers| ==> s.writers[w].cmd == s0.writers[w].cmd;
    }
    forall i | 0 <= i < |s.log| ensures EntryInOrder(s, i) {
      EntriesInOrder(mode, s, i);
    }
    SerialIsTip(mode, s, |s.log|);
  }

  // ------------------------------------------------------------------ exactly once

  /** A writer that answered published exactly once, with that answer; any other writer left no trace. */
  lemma ExactlyOnce(mode: Mode, store: Store, cmds: seq<Command>, steps: seq<(nat, Action)>, s: State, w: nat)
    requires Exec(mode, Start(store, cmds), steps) == Some(s) && w < |cmds|
    ensures |s.writers| == |cmds|
    ensures Answer(s.writers[w].phase).Some?
       <==> exists i :: 0 <= i < |s.log| && s.log[i].writer == w
    ensures forall i :: 0 <= i < |s.log| && s.log[i].writer == w ==> Answer(s.writers[w].phase) == Some(s.log[i].reply)
    ensures forall i, j :: 0 <= i < |s.log| && 0 <= j < |s.log| && s.log[i].writer == s.log[j].writer ==> i == j
  {
    hide Exec, WriterOk, Led, Computed;
    StartInv(mode, store, cmds);
    RunInv(mode, Start(store, cmds), steps, s);
    forall i | 0 <= i < |s.log| && s.log[i].writer == w ensures Answer(s.writers[w].phase) == Some(s.log[i].reply) {
      assert EntryOk(mode, s, i);
    }
    if Answer(s.writers[w].phase).Some? { assert Published(s, w); }
  }

  // ------------------------------------------------------------------------- bound

  function Rivals(log: seq<Entry>, from: nat): set<nat>
    requires from <= |log|
  {
    set i | from <= i < |log| :: log[i].writer
  }

  lemma {:induction false} RivalsDistinct(log: seq<Entry>, from: nat)
    requires from <= |log|
    requires forall i, j :: 0 <= i < j < |log| ==> log[i].writer != log[j].writer
    ensures |Rivals(log, from)| == |log| - from
    decreases |log| - from
  {
    if from < |log| {
      RivalsDistinct(log, from + 1);
      assert Rivals(log, from) == {log[from].writer} + Rivals(log, from + 1);
    } else {
      assert Rivals(log, from) == {};
    }
  }

  lemma {:induction false} SetBelow(s: set<nat>, n: nat)
    requires forall k :: k in s ==> k < n
    ensures |s| <= n
  {
    if n == 0 {
      assert s == {};
    } else {
      SetBelow(s - {n - 1}, n - 1);
      if n - 1 in s { assert s == s - {n - 1} + {n - 1}; } else { assert s == s - {n - 1}; }
    }
  }

  /**
   A writer is refused at most once for every publish by another writer since it began,
   so N writers settle within N attempts each, and none of up to 257 ever gives up.
   */
  lemma RefusalsBounded(mode: Mode, store: Store, cmds: seq<Command>, steps: seq<(nat, Action)>, s: State, w: nat)
    requires Exec(mode, Start(store, cmds), steps) == Some(s) && w < |cmds|
    ensures |s.writers| == |cmds| && s.writers[w].born <= |s.log|
    ensures forall u :: u in Rivals(s.log, s.writers[w].born) ==> u < |cmds|
    ensures s.writers[w].refusals <= |Rivals(s.log, s.writers[w].born) - {w}| < |cmds|
    ensures |cmds| <= MAX_WRITE_REPLAYS + 1 ==> s.writers[w].phase != Done(GaveUp)
  {
    hide Exec, Led, Computed, EntryOk;
    StartInv(mode, store, cmds);
    RunInv(mode, Start(store, cmds), steps, s);
    assert WriterOk(mode, s, w);
    var born := s.writers[w].born;
    var rivals := Rivals(s.log, born);
    RivalsDistinct(s.log, born);
    forall i | 0 <= i < |s.log| ensures s.log[i].writer < |cmds| {
      assert EntryOk(mode, s, i);
      EntryParts(mode, s, i);
    }
    var others := rivals - {w};
    if w in rivals {
      assert rivals == others + {w};
      var i :| born <= i < |s.log| && s.log[i].writer == w;
      assert EntryOk(mode, s, i);
      EntryRefusals(mode, s, i);
    } else {
      assert rivals == others;
    }
    SetBelow(others + {w}, |cmds|);
    assert w !in others;
  }

  // --------------------------------------------------------- the condition is exact

  /** The other writer: puts a given document in place, whatever was there. */
  function Rival(id: Id, t: Row): Command {
    Command(id, (row: Row) => Writes(t, []))
  }

  lemma {:induction false} ExecConcat(mode: Mode, s: State, a: seq<(nat, Action)>, m: State, b: seq<(nat, Action)>)
    requires Exec(mode, s, a) == Some(m)
    ensures Exec(mode, s, a + b) == Exec(mode, m, b)
    decreases |a|
  {
    hide Apply;
    if a == [] {
      assert a + b == b;
    } else {
      assert (a + b)[0] == a[0] && (a + b)[1..] == a[1..] + b;
      ExecConcat(mode, Apply(mode, s, a[0].0, a[0].1).value, a[1..], m, b);
    }
  }

  lemma ExecTwo(mode: Mode, s: State, w: nat, a: Action, s1: State, b: Action, s2: State)
    requires Apply(mode, s, w, a) == Some(s1) && Apply(mode, s1, w, b) == Some(s2)
    ensures Exec(mode, s, [(w, a), (w, b)]) == Some(s2)
  {
    hide Apply;
    ExecOne(mode, s1, w, b, s2);
    assert [(w, a), (w, b)][1..] == [(w, b)];
  }

  lemma ExecOne(mode: Mode, s: State, w: nat, a: Action, s': State)
    requires Apply(mode, s, w, a) == Some(s')
    ensures Exec(mode, s, [(w, a)]) == Some(s')
  {
    hide Apply;
    assert [(w, a)][1..] == [];
  }

  /** An attempt up to the point where its handler has run. */
  lemma Attempts(mode: Mode, s: State, w: nat, row: Row, reply: Reply) returns (s': State)
    requires w < |s.writers| && s.writers[w].phase == Idle && |s.tips| > 0
    requires var c := s.writers[w].cmd; c.run(RowOf(s.tips[|s.tips| - 1], c.id)) == Writes(row, reply)
    ensures Exec(mode, s, [(w, Begin), (w, Pin)] + [(w, Run)]) == Some(s')
    ensures s'.tips == s.tips && s'.log == s.log
    ensures s'.writers
            == s.writers[w := Writer(s.writers[w].cmd, Ran(|s.tips| - 1, row, reply), s.writers[w].refusals, |s.log|)]
  {
    hide Reconcile;
    var s1 := Apply(mode, s, w, Begin).value;
    var s2 := Apply(mode, s1, w, Pin).value;
    s' := Apply(mode, s2, w, Run).value;
    ExecTwo(mode, s, w, Begin, s1, Pin, s2);
    ExecOne(mode, s2, w, Run, s');
    ExecConcat(mode, s, [(w, Begin), (w, Pin)], s2, [(w, Run)]);
  }

  /** A handler's result that reconciles with the tip and is published there and then. */
  lemma Lands(mode: Mode, s: State, w: nat, merged: Store) returns (s': State)
    requires w < |s.writers| && s.writers[w].phase.Ran? && s.writers[w].phase.pin < |s.tips|
    requires var x := s.writers[w];
             Reconcile(mode, s.tips[x.phase.pin], Overlaid(s, x, x.phase.pin, x.phase.row), s.tips[|s.tips| - 1])
             == Some(merged)
    ensures Exec(mode, s, [(w, Reconciles), (w, Publish)]) == Some(s')
    ensures var x := s.writers[w];
            s'.tips == s.tips + [merged]
            && s'.log
               == s.log + [Entry(w, x.phase.pin, x.phase.row != RowOf(s.tips[x.phase.pin], x.cmd.id), x.phase.reply)]
            && s'.writers == s.writers[w := x.(phase := Settled(x.phase.reply))]
  {
    hide Reconcile;
    var s1 := Apply(mode, s, w, Reconciles).value;
    s' := Apply(mode, s1, w, Publish).value;
    ExecTwo(mode, s, w, Reconciles, s1, Publish, s');
  }

  /** Two writers pin the same tip and run their handlers on it. */
  lemma BothRan(mode: Mode, store: Store, c: Command, d: Command, o: Effect, t: Effect)
      returns (steps: seq<(nat, Action)>, s: State)
    requires o.Writes? && t.Writes? && o == c.run(RowOf(store, c.id)) && t == d.run(RowOf(store, d.id))
    ensures Exec(mode, Start(store, [c, d]), steps) == Some(s)
    ensures s == State([store], [], [Writer(c, Ran(0, o.row, o.reply), 0, 0), Writer(d, Ran(0, t.row, t.reply), 0, 0)])
  {
    hide Exec, Apply;
    var s0 := Start(store, [c, d]);
    var s1 := Attempts(mode, s0, 0, o.row, o.reply);
    s := Attempts(mode, s1, 1, t.row, t.reply);
    var first, second := [(0, Begin), (0, Pin)] + [(0, Run)], [(1, Begin), (1, Pin)] + [(1, Run)];
    ExecConcat(mode, s0, first, s1, second);
    steps := first + second;
  }

  /** Then the second publishes, and the first after it. */
  lemma BothLand(mode: Mode, s: State, theirs: Store, merged: Store)
      returns (steps: seq<(nat, Action)>, s': State)
    requires |s.tips| == 1 && |s.writers| == 2 && s.log == []
    requires s.writers[0].phase.Ran? && s.writers[1].phase.Ran? && s.writers[0].phase.pin == s.writers[1].phase.pin == 0
    requires Reconcile(mode, s.tips[0], Overlaid(s, s.writers[1], 0, s.writers[1].phase.row), s.tips[0]) == Some(theirs)
    requires Reconcile(mode, s.tips[0], Overlaid(s, s.writers[0], 0, s.writers[0].phase.row), theirs) == Some(merged)
    ensures Exec(mode, s, steps) == Some(s')
    ensures s'.tips == s.tips + [theirs, merged] && |s'.log| == 2 && |s'.writers| == 2
    ensures s'.writers[0].cmd == s.writers[0].cmd
    ensures var x := s.writers[0];
            s'.log[1] == Entry(0, 0, x.phase.row != RowOf(s.tips[0], x.cmd.id), x.phase.reply)
  {
    hide Exec, Apply, Reconcile, WithRow;
    var s1 := Lands(mode, s, 1, theirs);
    s' := Lands(mode, s1, 0, merged);
    ExecConcat(mode, s, [(1, Reconciles), (1, Publish)], s1, [(0, Reconciles), (0, Publish)]);
    steps := [(1, Reconciles), (1, Publish)] + [(0, Reconciles), (0, Publish)];
  }

  /**
   The condition on commands is exact: one that is out of order for some document and some
   rival's document has a two-writer run in which it publishes out of order.
   */
  lemma UnsafeRun(mode: Mode, c: Command, b: Row, t: Row) returns (store: Store, steps: seq<(nat, Action)>, s: State)
    requires !InOrder(mode, c.run, b, t)
    ensures Exec(mode, Start(store, [c, Rival(c.id, t)]), steps) == Some(s)
    ensures |s.log| == 2 && s.log[1].writer == 0 && !EntryInOrder(s, 1)
  {
    hide MergeRow, Reconcile, WithRow, Exec, Apply;
    store := WithRow(map[], c.id, b);
    var d := Rival(c.id, t);
    var o := c.run(b);
    var theirs, merged := WithRow(store, c.id, t),
                          WithRow(WithRow(store, c.id, t), c.id, MergeRow(mode, b, o.row, t).value);
    UnchangedRow(mode, b, t);
    ReconcileOneRow(mode, store, store, c.id, t);
    ReconcileOneRow(mode, store, theirs, c.id, o.row);
    var early, s1 := BothRan(mode, store, c, d, o, Writes(t, []));
    var late, s2 := BothLand(mode, s1, theirs, merged);
    ExecConcat(mode, Start(store, [c, d]), early, s1, late);
    steps, s := early + late, s2;
    assert s.tips[1] == theirs && s.tips[2] == merged;
  }
}
