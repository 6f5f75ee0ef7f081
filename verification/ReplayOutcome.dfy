/**
 What the client of a write is told, over every run of the replay protocol: how a
 writer's end goes with the move that ended it, and what an undisturbed attempt does.
 */
module ReplayOutcome {
  import opened Bytes
  import opened MergeModes
  import opened WriteOrder
  import opened Replay
  import opened ReplayOrder

  // ---------------------------------------------------------------- the last move

  /** The last move of w, if it made one. */
  function LastMove(steps: seq<(nat, Action)>, w: nat): Option<Action> {
    if steps == [] then None
    else
      var n := |steps| - 1;
      if steps[n].0 == w then Some(steps[n].1) else LastMove(steps[..n], w)
  }

  predicate Ends(p: Phase, o: Outcome) { p == Done(o) }

  /** Which ends a move can bring, and which it must. */
  ghost predicate Ending(p: Phase, m: Option<Action>) {
    (p.Done? && p.outcome.Replied? <==> m == Some(Commit(true)))
    && (p.Done? && p.outcome.CommitFailed? <==> m == Some(Commit(false)))
    && (Ends(p, Broken) <==> m == Some(Break))
    && (Ends(p, Cancelled) <==> m == Some(Cancel))
    && (Ends(p, HandlerFailed) ==> m == Some(Run))
    && (Ends(p, GaveUp) ==> m == Some(Reconciles) || m == Some(Publish))
    && (p.Idle? <==> m == None)
  }

  /** A writer gives up at its 257th refusal and not before, and is cancelled only after one. */
  ghost predicate Limited(x: Writer) {
    x.refusals <= 257 && (x.refusals == 257 <==> Ends(x.phase, GaveUp)) && (Ends(x.phase, Cancelled) ==> x.refusals > 0)
  }

  /** A handler that failed did so on a tip the branch held since its command began. */
  ghost predicate FailedThere(s: State, w: nat)
    requires w < |s.writers|
  {
    var x := s.writers[w];
    Ends(x.phase, HandlerFailed)
    ==> exists i :: x.born <= i < |s.tips| && x.cmd.run(RowOf(s.tips[i], x.cmd.id)).Fails?
  }

  lemma MoveEnds(mode: Mode, s: State, w: nat, a: Action, s': State)
    requires Apply(mode, s, w, a) == Some(s')
    ensures w < |s.writers| && !s.writers[w].phase.Done? && |s'.writers| == |s.writers|
    ensures Ending(s'.writers[w].phase, Some(a))
    ensures forall u :: 0 <= u < |s.writers| && u != w ==> s'.writers[u] == s.writers[u]
  {
    hide Reconcile;
  }

  lemma MoveLimited(mode: Mode, s: State, w: nat, a: Action, s': State)
    requires Apply(mode, s, w, a) == Some(s') && Limited(s.writers[w])
    ensures |s'.writers| == |s.writers| && Limited(s'.writers[w])
  {
    hide Reconcile;
  }

  lemma MoveFails(mode: Mode, s: State, w: nat, a: Action, s': State, u: nat)
    requires Inv(mode, s) && Apply(mode, s, w, a) == Some(s') && u < |s.writers| && FailedThere(s, u)
    ensures |s'.writers| == |s.writers| && FailedThere(s', u)
  {
    hide Inv, Reconcile, WithRow;
    InvParts(mode, s, w);
    StepExtends(mode, s, w, a, s');
    assert forall k :: 0 <= k < |s.tips| ==> s'.tips[k] == s.tips[k];
    if u == w {
      MoveEnds(mode, s, w, a, s');
    } else {
      assert s'.writers[u] == s.writers[u];
    }
  }

  lemma ExecStep(mode: Mode, s: State, steps: seq<(nat, Action)>, s': State) returns (m: State)
    requires steps != [] && Exec(mode, s, steps) == Some(s')
    ensures var n := |steps| - 1;
            Exec(mode, s, steps[..n]) == Some(m) && Apply(mode, m, steps[n].0, steps[n].1) == Some(s')
    decreases |steps|
  {
    hide Apply;
    var n := |steps| - 1;
    if n == 0 {
      m := s;
      assert steps[1..] == [] && steps[..0] == [];
    } else {
      m := ExecStep(mode, Apply(mode, s, steps[0].0, steps[0].1).value, steps[1..], s');
      assert steps[1..][..n - 1] == steps[..n][1..];
    }
  }

  lemma {:induction false} RunEnds(mode: Mode, s0: State, steps: seq<(nat, Action)>, s: State, w: nat)
    requires Exec(mode, s0, steps) == Some(s) && Inv(mode, s0)
    requires w < |s0.writers| && s0.writers[w].phase == Idle && s0.writers[w].refusals == 0
    ensures |s.writers| == |s0.writers|
    ensures Ending(s.writers[w].phase, LastMove(steps, w)) && Limited(s.writers[w]) && FailedThere(s, w)
    decreases |steps|
  {
    hide Apply, Inv, Ending, Limited, FailedThere;
    if steps == [] {
      NotYet(s, w);
    } else {
      var n := |steps| - 1;
      var m := ExecStep(mode, s0, steps, s);
      RunEnds(mode, s0, steps[..n], m, w);
      RunInv(mode, s0, steps[..n], m);
      MoveFails(mode, m, steps[n].0, steps[n].1, s, w);
      MoveEnds(mode, m, steps[n].0, steps[n].1, s);
      if steps[n].0 == w {
        MoveLimited(mode, m, w, steps[n].1, s);
      }
    }
  }

  lemma NotYet(s: State, w: nat)
    requires w < |s.writers| && s.writers[w].phase == Idle && s.writers[w].refusals == 0
    ensures Ending(s.writers[w].phase, None) && Limited(s.writers[w]) && FailedThere(s, w)
  {
  }

  /** A writer that is done never moves again. */
  lemma {:induction false} DoneStays(mode: Mode, s: State, steps: seq<(nat, Action)>, s': State, w: nat)
    requires Exec(mode, s, steps) == Some(s') && w < |s.writers| && s.writers[w].phase.Done?
    ensures forall k :: 0 <= k < |steps| ==> steps[k].0 != w
    ensures |s'.writers| == |s.writers| && s'.writers[w] == s.writers[w]
    decreases |steps|
  {
    hide Apply, Ending;
    if steps != [] {
      var next := Apply(mode, s, steps[0].0, steps[0].1).value;
      MoveEnds(mode, s, steps[0].0, steps[0].1, next);
      DoneStays(mode, next, steps[1..], s', w);
    }
  }

  /** A commit, whatever comes after it, was its writer's last move. */
  lemma {:induction false} CommitIsLast(mode: Mode, s: State, steps: seq<(nat, Action)>, s': State, w: nat, ok: bool)
    requires Exec(mode, s, steps) == Some(s')
    ensures (w, Commit(ok)) in steps <==> LastMove(steps, w) == Some(Commit(ok))
    decreases |steps|
  {
    hide Apply;
    if steps != [] {
      var n := |steps| - 1;
      var m := ExecStep(mode, s, steps, s');
      CommitIsLast(mode, s, steps[..n], m, w, ok);
      assert steps == steps[..n] + [steps[n]];
      if steps[n].0 == w && (w, Commit(ok)) in steps[..n] {
        MovedLast(mode, s, steps[..n], m, w, Commit(ok));
        MoveEnds(mode, m, w, steps[n].1, s');
        assert false;
      }
    }
  }

  /** Where a writer stands goes with its last move. */
  lemma {:induction false} MovedLast(mode: Mode, s: State, steps: seq<(nat, Action)>, s': State, w: nat, a: Action)
    requires Exec(mode, s, steps) == Some(s') && LastMove(steps, w) == Some(a)
    ensures w < |s'.writers| && Ending(s'.writers[w].phase, Some(a))
    decreases |steps|
  {
    hide Apply, Ending;
    var n := |steps| - 1;
    var m := ExecStep(mode, s, steps, s');
    MoveEnds(mode, m, steps[n].0, steps[n].1, s');
    if steps[n].0 != w { MovedLast(mode, s, steps[..n], m, w, a); }
  }

  // ------------------------------------------------------------ what the client is told

  ghost predicate PublishedWith(s: State, w: nat, r: Reply) {
    exists i :: 0 <= i < |s.log| && s.log[i].writer == w && s.log[i].reply == r
  }

  /**
   Over every run: a client is answered with r if and only if its command published with
   the reply r and its own commit succeeded; it is told of a failed commit if and only if
   the commit failed; and every other end has its cause.
   */
  lemma ToldTheTruth(mode: Mode, store: Store, cmds: seq<Command>, steps: seq<(nat, Action)>, s: State, w: nat)
    requires Exec(mode, Start(store, cmds), steps) == Some(s) && w < |cmds|
    ensures |s.writers| == |cmds|
    ensures forall r :: (s.writers[w].phase == Done(Replied(r))
                         <==> (w, Commit(true)) in steps && PublishedWith(s, w, r))
    ensures forall r :: (s.writers[w].phase == Done(CommitFailed(r))
                         <==> (w, Commit(false)) in steps && PublishedWith(s, w, r))
    ensures Ending(s.writers[w].phase, LastMove(steps, w)) && Limited(s.writers[w]) && FailedThere(s, w)
  {
    hide Exec, WriterOk, EntryOk, Limited, FailedThere;
    var s0 := Start(store, cmds);
    StartInv(mode, store, cmds);
    RunEnds(mode, s0, steps, s, w);
    ExactlyOnce(mode, store, cmds, steps, s, w);
    CommitIsLast(mode, s0, steps, s, w, true);
    CommitIsLast(mode, s0, steps, s, w, false);
  }

  // ------------------------------------------------------------------ undisturbed

  /** The place of a row that nobody else has touched: its merge is the row itself. */
  lemma OwnRow(mode: Mode, store: Store, id: Id, row: Row)
    ensures Reconcile(mode, store, WithRow(store, id, row), store) == Some(WithRow(store, id, row))
  {
    hide MergeRow, Reconcile, WithRow;
    ReconcileOneRow(mode, store, store, id, row);
    UnchangedRow(mode, RowOf(store, id), row);
  }

  /**
   Over every run of one writer alone: once it has committed, its handler has written the
   starting document, the client has the reply of that, and the branch that one row.
   */
  lemma AloneRuns(mode: Mode, store: Store, c: Command, steps: seq<(nat, Action)>, s: State, ok: bool)
    requires Exec(mode, Start(store, [c]), steps) == Some(s) && (0, Commit(ok)) in steps
    ensures |s.writers| == 1 && c.run(RowOf(store, c.id)).Writes?
    ensures var e := c.run(RowOf(store, c.id));
            s.tips == [store, WithRow(store, c.id, e.row)]
            && s.log == [Entry(0, 0, e.row != RowOf(store, c.id), e.reply)]
            && s.writers[0].phase == Done(if ok then Replied(e.reply) else CommitFailed(e.reply))
  {
    hide Exec, WriterOk, EntryOk, MergeRow, Reconcile, WithRow, Ending, Limited, FailedThere;
    var s0 := Start(store, [c]);
    ToldTheTruth(mode, store, [c], steps, s, 0);
    ExactlyOnce(mode, store, [c], steps, s, 0);
    StartInv(mode, store, [c]);
    RunInv(mode, s0, steps, s);
    CommitIsLast(mode, s0, steps, s, 0, ok);
    Committed(s.writers[0].phase, ok);
    assert EntryOk(mode, s, 0);
    OneEntry(mode, s, c);
    assert s.tips[0] == store;
    var row := EntryRow(mode, s, 0);
    OwnRow(mode, store, c.id, row);
    UnchangedRow(mode, RowOf(store, c.id), row);
  }

  lemma Committed(p: Phase, ok: bool)
    requires Ending(p, Some(Commit(ok)))
    ensures p.Done? && (if ok then p.outcome.Replied? else p.outcome.CommitFailed?)
  {
  }

  lemma SecondWriter(mode: Mode, s: State)
    requires Inv(mode, s) && |s.log| > 1
    ensures |s.writers| > 1
  {
    hide Reconcile, WithRow, Led, Computed;
    assert EntryOk(mode, s, 0) && EntryOk(mode, s, 1);
  }

  lemma OneEntry(mode: Mode, s: State, c: Command)
    requires Inv(mode, s) && |s.writers| == 1 && s.writers[0].cmd == c && |s.log| > 0
    ensures |s.log| == 1 && |s.tips| == 2 && s.log[0].writer == 0 && s.log[0].pin == 0
  {
    hide Reconcile, WithRow, Led, Computed;
    assert EntryOk(mode, s, 0);
    if |s.log| > 1 {
      SecondWriter(mode, s);
    }
  }

  /** A writer between attempts that nobody disturbs has its command done on the tip of that moment. */
  lemma AttemptLands(mode: Mode, s: State, w: nat, ok: bool) returns (steps: seq<(nat, Action)>, s': State)
    requires w < |s.writers| && s.writers[w].phase == Between && |s.tips| > 0
    ensures Exec(mode, s, steps) == Some(s') && |s'.writers| == |s.writers|
    ensures var x, tip := s.writers[w], s.tips[|s.tips| - 1];
            match x.cmd.run(RowOf(tip, x.cmd.id))
            case Fails => s'.tips == s.tips && s'.log == s.log && s'.writers[w].phase == Done(HandlerFailed)
            case Writes(row, reply) =>
              s'.tips == s.tips + [WithRow(tip, x.cmd.id, row)]
              && s'.log == s.log + [Entry(w, |s.tips| - 1, row != RowOf(tip, x.cmd.id), reply)]
              && s'.writers[w].phase == Done(if ok then Replied(reply) else CommitFailed(reply))
  {
    hide Exec, Reconcile, WithRow;
    var x, tip := s.writers[w], s.tips[|s.tips| - 1];
    var s1 := Apply(mode, s, w, Pin).value;
    var s2 := Apply(mode, s1, w, Run).value;
    ExecTwo(mode, s, w, Pin, s1, Run, s2);
    steps, s' := [(w, Pin), (w, Run)], s2;
    if x.cmd.run(RowOf(tip, x.cmd.id)).Writes? {
      var row := x.cmd.run(RowOf(tip, x.cmd.id)).row;
      OwnRow(mode, tip, x.cmd.id, row);
      var s3 := Lands(mode, s2, w, WithRow(tip, x.cmd.id, row));
      ExecConcat(mode, s, steps, s2, [(w, Reconciles), (w, Publish)]);
      steps := steps + [(w, Reconciles), (w, Publish)];
      s' := Apply(mode, s3, w, Commit(ok)).value;
      ExecOne(mode, s3, w, Commit(ok), s');
      ExecConcat(mode, s, steps, s3, [(w, Commit(ok))]);
      steps := steps + [(w, Commit(ok))];
    }
  }

  /** A publish compares contents: it goes through exactly where the tip is what it was at the merge. */
  lemma PublishComparesContents(mode: Mode, s: State, w: nat)
    requires Inv(mode, s) && w < |s.writers| && s.writers[w].phase.Merged?
    ensures Apply(mode, s, w, Publish).Some? && s.writers[w].phase.at < |s.tips|
    ensures var s', x := Apply(mode, s, w, Publish).value, s.writers[w];
            if s.tips[x.phase.at] == s.tips[|s.tips| - 1] then s'.tips == s.tips + [x.phase.merged]
            else s'.tips == s.tips && s'.writers[w].refusals == x.refusals + 1
  {
    hide Reconcile;
    assert WriterOk(mode, s, w);
  }
}
