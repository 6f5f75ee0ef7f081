/**
 The write-replay protocol as a step system. Each writer runs one command: it pins the
 branch tip, runs its handler on it, reconciles what it wrote with the tip of that
 moment, and publishes with a compare-and-swap on that tip. A refused or raced attempt
 leaves nothing behind and the command is run again on the new tip.
 */
module Replay {
  import opened Bytes
  import opened MergeModes
  import opened WriteOrder

  const MAX_WRITE_REPLAYS: nat := 256

  datatype Command = Command(id: Id, run: Row -> Effect)

  datatype Outcome = Replied(reply: Reply) | CommitFailed(reply: Reply) | HandlerFailed | Broken | GaveUp | Cancelled

  /** Where a writer stands in its attempt loop. pin and at are positions in the branch's history. */
  datatype Phase =
    | Idle
    | Between
    | Pinned(pin: nat)
    | Ran(pin: nat, row: Row, reply: Reply)
    | Merged(pin: nat, row: Row, reply: Reply, at: nat, merged: Store)
    | Settled(reply: Reply)
    | Done(outcome: Outcome)

  /** refusals counts the attempts that were refused or raced; born is the history length at the start. */
  datatype Writer = Writer(cmd: Command, phase: Phase, refusals: nat, born: nat)

  /** A publish: who, from which tip, whether it changed its document, and what it answered. */
  datatype Entry = Entry(writer: nat, pin: nat, changed: bool, reply: Reply)

  /** tips is every working set the branch has held, log[i] the publish that led from tips[i] to tips[i + 1]. */
  datatype State = State(tips: seq<Store>, log: seq<Entry>, writers: seq<Writer>)

  datatype Action = Begin | Pin | Run | Reconciles | Publish | Commit(ok: bool) | Break | Cancel

  function With(s: State, w: nat, phase: Phase): State
    requires w < |s.writers|
  {
    s.(writers := s.writers[w := s.writers[w].(phase := phase)])
  }

  /** A refused or raced attempt: replayed unless the limit is reached. */
  function Refuse(s: State, w: nat): State
    requires w < |s.writers|
  {
    var x := s.writers[w];
    var next := if x.refusals >= MAX_WRITE_REPLAYS then Done(GaveUp) else Between;
    s.(writers := s.writers[w := x.(phase := next, refusals := x.refusals + 1)])
  }

  function Overlaid(s: State, x: Writer, pin: nat, row: Row): Store
    requires pin < |s.tips|
  {
    WithRow(s.tips[pin], x.cmd.id, row)
  }

  function Apply(mode: Mode, s: State, w: nat, a: Action): Option<State> {
    if w >= |s.writers| || |s.tips| == 0 then None
    else
      var x, last := s.writers[w], |s.tips| - 1;
      match a
      case Begin =>
        if x.phase.Idle? then Some(s.(writers := s.writers[w := x.(phase := Between, born := |s.log|)])) else None
      case Pin =>
        if x.phase.Between? then Some(With(s, w, Pinned(last))) else None
      case Run =>
        if x.phase.Pinned? && x.phase.pin <= last then
          match x.cmd.run(RowOf(s.tips[x.phase.pin], x.cmd.id))
          case Fails => Some(With(s, w, Done(HandlerFailed)))
          case Writes(row, reply) => Some(With(s, w, Ran(x.phase.pin, row, reply)))
        else None
      case Reconciles =>
        if x.phase.Ran? && x.phase.pin <= last then
          match Reconcile(mode, s.tips[x.phase.pin], Overlaid(s, x, x.phase.pin, x.phase.row), s.tips[last])
          case None => Some(Refuse(s, w))
          case Some(merged) => Some(With(s, w, Merged(x.phase.pin, x.phase.row, x.phase.reply, last, merged)))
        else None
      case Publish =>
        if x.phase.Merged? && x.phase.pin <= last && x.phase.at <= last then
          if s.tips[last] != s.tips[x.phase.at] then Some(Refuse(s, w))
          else
            var changed := x.phase.row != RowOf(s.tips[x.phase.pin], x.cmd.id);
            var entry := Entry(w, x.phase.pin, changed, x.phase.reply);
            Some(With(State(s.tips + [x.phase.merged], s.log + [entry], s.writers), w, Settled(x.phase.reply)))
        else None
      case Commit(ok) =>
        if x.phase.Settled? then
          Some(With(s, w, Done(if ok then Replied(x.phase.reply) else CommitFailed(x.phase.reply))))
        else None
      case Break =>
        if x.phase.Between? || x.phase.Ran? || x.phase.Merged? then Some(With(s, w, Done(Broken))) else None
      case Cancel =>
        if x.phase.Between? && x.refusals > 0 then Some(With(s, w, Done(Cancelled))) else None
  }

  /** Any interleaving: who moves, and how. */
  function Exec(mode: Mode, s: State, steps: seq<(nat, Action)>): Option<State>
    decreases |steps|
  {
    if steps == [] then Some(s)
    else
      match Apply(mode, s, steps[0].0, steps[0].1)
      case None => None
      case Some(next) => Exec(mode, next, steps[1..])
  }

  function Start(store: Store, cmds: seq<Command>): State {
    State([store], [], seq(|cmds|, i requires 0 <= i < |cmds| => Writer(cmds[i], Idle, 0, 0)))
  }

  // ------------------------------------------------------------------ invariant

  /** The attempt under way started from history position pin, and so did whatever it has computed. */
  ghost predicate Attempt(s: State, x: Writer, pin: nat) {
    x.born <= pin < |s.tips| && x.refusals <= pin - x.born
  }

  ghost predicate Computed(s: State, x: Writer, pin: nat, row: Row, reply: Reply) {
    pin < |s.tips| && x.cmd.run(RowOf(s.tips[pin], x.cmd.id)) == Writes(row, reply)
  }

  ghost predicate WriterOk(mode: Mode, s: State, w: nat)
    requires w < |s.writers|
  {
    var x := s.writers[w];
    x.born <= |s.log| && x.refusals <= |s.log| - x.born
    && (x.phase == Done(GaveUp) ==> x.refusals > MAX_WRITE_REPLAYS)
    && match x.phase
       case Idle => x.refusals == 0
       case Pinned(pin) => Attempt(s, x, pin)
       case Ran(pin, row, reply) => Attempt(s, x, pin) && Computed(s, x, pin, row, reply)
       case Merged(pin, row, reply, at, merged) =>
         Attempt(s, x, pin) && Computed(s, x, pin, row, reply) && pin <= at < |s.tips|
         && Reconcile(mode, s.tips[pin], Overlaid(s, x, pin, row), s.tips[at]) == Some(merged)
       case _ => true
  }

  /** The reply a writer's publish answered with, once it has published. */
  function Answer(p: Phase): Option<Reply> {
    match p
    case Settled(reply) => Some(reply)
    case Done(Replied(reply)) => Some(reply)
    case Done(CommitFailed(reply)) => Some(reply)
    case _ => None
  }

  /** log[i] records a command that ran on tips[pin] and was reconciled with tips[i] into tips[i + 1]. */
  ghost predicate EntryOk(mode: Mode, s: State, i: nat)
    requires i < |s.log|
  {
    var e := s.log[i];
    i + 1 < |s.tips| && e.writer < |s.writers| && e.pin <= i
    && Recorded(mode, s, s.writers[e.writer], e, i)
  }

  ghost predicate Recorded(mode: Mode, s: State, x: Writer, e: Entry, i: nat)
    requires i + 1 < |s.tips| && e.pin <= i
  {
    x.born <= e.pin && x.refusals <= e.pin - x.born && Answer(x.phase) == Some(e.reply)
    && exists row :: Computed(s, x, e.pin, row, e.reply) && Led(mode, s, x, e, row, i)
  }

  ghost predicate Led(mode: Mode, s: State, x: Writer, e: Entry, row: Row, i: nat)
    requires i + 1 < |s.tips| && e.pin <= i
  {
    e.changed == (row != RowOf(s.tips[e.pin], x.cmd.id))
    && Reconcile(mode, s.tips[e.pin], Overlaid(s, x, e.pin, row), s.tips[i]) == Some(s.tips[i + 1])
  }

  ghost predicate Inv(mode: Mode, s: State) {
    |s.tips| == |s.log| + 1
    && (forall w :: 0 <= w < |s.writers| ==> WriterOk(mode, s, w))
    && (forall i :: 0 <= i < |s.log| ==> EntryOk(mode, s, i))
    && (forall i, j :: 0 <= i < j < |s.log| ==> s.log[i].writer != s.log[j].writer)
    && (forall w :: 0 <= w < |s.writers| && Answer(s.writers[w].phase).Some? ==> Published(s, w))
  }

  ghost predicate Published(s: State, w: nat) {
    exists i :: 0 <= i < |s.log| && s.log[i].writer == w
  }

  lemma StartInv(mode: Mode, store: Store, cmds: seq<Command>)
    ensures Inv(mode, Start(store, cmds))
  {
  }

  // ------------------------------------------------------------- steps keep it

  /** A step that only moves its own writer, before it has published. */
  lemma QuietStep(mode: Mode, s: State, s': State, w: nat)
    requires Inv(mode, s) && w < |s.writers|
    requires s'.tips == s.tips && s'.log == s.log
    requires |s'.writers| == |s.writers| && s'.writers == s.writers[w := s'.writers[w]]
    requires s'.writers[w].cmd == s.writers[w].cmd
    requires Answer(s.writers[w].phase) == Answer(s'.writers[w].phase)
    requires Answer(s.writers[w].phase).None? || s'.writers[w] == s.writers[w].(phase := s'.writers[w].phase)
    requires WriterOk(mode, s', w)
    ensures Inv(mode, s')
  {
    hide Reconcile;
    forall u | 0 <= u < |s'.writers| ensures WriterOk(mode, s', u) {
      assert WriterOk(mode, s, u);
    }
    forall i | 0 <= i < |s'.log| ensures EntryOk(mode, s', i) {
      KeepEntry(mode, s, s', i);
    }
    forall u | 0 <= u < |s'.writers| && Answer(s'.writers[u].phase).Some? ensures Published(s', u) {
      assert Published(s, u);
      var i :| 0 <= i < |s.log| && s.log[i].writer == u;
      assert s'.log[i].writer == u;
    }
  }

  lemma KeepEntry(mode: Mode, s: State, s': State, i: nat)
    requires i < |s.log| && EntryOk(mode, s, i)
    requires |s.tips| <= |s'.tips| && s.tips == s'.tips[..|s.tips|]
    requires i < |s'.log| && s'.log[i] == s.log[i]
    requires s.log[i].writer < |s'.writers|
    requires s'.writers[s.log[i].writer].cmd == s.writers[s.log[i].writer].cmd
    requires s'.writers[s.log[i].writer].born == s.writers[s.log[i].writer].born
    requires s'.writers[s.log[i].writer].refusals == s.writers[s.log[i].writer].refusals
    requires Answer(s'.writers[s.log[i].writer].phase) == Answer(s.writers[s.log[i].writer].phase)
    ensures EntryOk(mode, s', i)
  {
    hide Reconcile, WithRow;
    var e := s.log[i];
    var x, x' := s.writers[e.writer], s'.writers[e.writer];
    assert forall k :: 0 <= k < |s.tips| ==> s.tips[k] == s'.tips[k];
    var row :| Computed(s, x, e.pin, row, e.reply) && Led(mode, s, x, e, row, i);
    assert Computed(s', x', e.pin, row, e.reply) && Led(mode, s', x', e, row, i);
  }

  /** An unchanged side never conflicts, so a refusal means the tip moved. */
  lemma RefusalMeansMoved(mode: Mode, base: Store, ours: Store, theirs: Store)
    requires Reconcile(mode, base, ours, theirs).None?
    ensures base != theirs
  {
  }

  /** What a successful publish does, in full. */
  ghost predicate Publishes(s: State, w: nat, s': State) {
    w < |s.writers| && s.writers[w].phase.Merged?
    && var x := s.writers[w];
    x.phase.pin < |s.tips|
    && x.phase.at < |s.tips|
    && s.tips[x.phase.at] == s.tips[|s.tips| - 1]
    && s'.tips == s.tips + [x.phase.merged]
    && s'.log == s.log + [Entry(w, x.phase.pin, x.phase.row != RowOf(s.tips[x.phase.pin], x.cmd.id), x.phase.reply)]
    && s'.writers == s.writers[w := x.(phase := Settled(x.phase.reply))]
  }

  lemma PublishWriters(mode: Mode, s: State, w: nat, s': State, u: nat)
    requires |s.tips| == |s.log| + 1 && u < |s.writers| && WriterOk(mode, s, u) && Publishes(s, w, s')
    ensures WriterOk(mode, s', u)
  {
    hide Reconcile, WithRow;
    assert forall k :: 0 <= k < |s.tips| ==> s.tips[k] == s'.tips[k];
  }

  lemma PublishEntry(mode: Mode, s: State, w: nat, s': State)
    requires |s.tips| == |s.log| + 1 && Publishes(s, w, s') && WriterOk(mode, s, w)
    ensures EntryOk(mode, s', |s.log|)
  {
    hide Reconcile, WithRow;
    var x, n := s.writers[w], |s.log|;
    var e, row := s'.log[n], x.phase.row;
    assert s'.tips[e.pin] == s.tips[e.pin] && s'.tips[n] == s.tips[n];
    assert Computed(s', s'.writers[w], e.pin, row, e.reply);
    assert Led(mode, s', s'.writers[w], e, row, n);
  }

  lemma PublishStep(mode: Mode, s: State, w: nat, s': State)
    requires Inv(mode, s) && Publishes(s, w, s')
    ensures Inv(mode, s')
  {
    hide Reconcile, WithRow, WriterOk, EntryOk;
    assert Answer(s.writers[w].phase).None?;
    forall u | 0 <= u < |s'.writers| ensures WriterOk(mode, s', u) {
      PublishWriters(mode, s, w, s', u);
    }
    var n := |s.log|;
    forall i | 0 <= i < n ensures EntryOk(mode, s', i) && s.log[i].writer != w {
      KeepUnpublished(mode, s, w, s', i);
    }
    PublishEntry(mode, s, w, s');
    forall u | 0 <= u < |s'.writers| && Answer(s'.writers[u].phase).Some? ensures Published(s', u) {
      if u == w {
        assert s'.log[n].writer == w;
      } else {
        assert Published(s, u);
        var i :| 0 <= i < |s.log| && s.log[i].writer == u;
        assert s'.log[i].writer == u;
      }
    }
  }

  lemma KeepUnpublished(mode: Mode, s: State, w: nat, s': State, i: nat)
    requires i < |s.log| && EntryOk(mode, s, i) && Publishes(s, w, s')
    ensures EntryOk(mode, s', i) && s.log[i].writer != w
  {
    hide Reconcile, WithRow, Led, Computed;
    KeepEntry(mode, s, s', i);
  }

  lemma StepInv(mode: Mode, s: State, w: nat, a: Action, s': State)
    requires Inv(mode, s) && Apply(mode, s, w, a) == Some(s')
    ensures Inv(mode, s')
  {
    hide Inv, Reconcile, WithRow;
    InvParts(mode, s, w);
    var x := s.writers[w];
    if a.Reconciles? && x.phase.Ran? {
      var last := |s.tips| - 1;
      var ours := Overlaid(s, x, x.phase.pin, x.phase.row);
      if Reconcile(mode, s.tips[x.phase.pin], ours, s.tips[last]).None? {
        RefusalMeansMoved(mode, s.tips[x.phase.pin], ours, s.tips[last]);
      }
      QuietStep(mode, s, s', w);
    } else if a.Publish? && s.tips[x.phase.at] == s.tips[|s.tips| - 1] {
      PublishStep(mode, s, w, s');
    } else {
      QuietStep(mode, s, s', w);
    }
  }

  lemma InvParts(mode: Mode, s: State, w: nat)
    requires Inv(mode, s) && w < |s.writers|
    ensures |s.tips| == |s.log| + 1 && WriterOk(mode, s, w)
    ensures Answer(s.writers[w].phase).Some? ==> Published(s, w)
  {
  }

  // ---------------------------------------------------------------- the loop itself

  /** How one pass through the fence ends. */
  datatype Attempted = Refused | Raced | Ended(outcome: Outcome)

  /**
   The attempt loop: the client gets the first result that is not a refusal or a race,
   or the refusal at which the client went away or the limit was reached.
   attempts and cancelled are what the branch and the client will do.
   */
  method Dispatch(attempts: seq<Attempted>, cancelled: seq<bool>) returns (result: Attempted, passes: nat)
    requires |attempts| > MAX_WRITE_REPLAYS && |cancelled| > MAX_WRITE_REPLAYS
    ensures 1 <= passes <= MAX_WRITE_REPLAYS + 1 && result == attempts[passes - 1]
    ensures forall k :: 0 <= k < passes - 1 ==> !attempts[k].Ended? && !cancelled[k]
    ensures result.Ended? || cancelled[passes - 1] || passes == MAX_WRITE_REPLAYS + 1
  {
    var attempt := 0;
    while true
      invariant 0 <= attempt <= MAX_WRITE_REPLAYS
      invariant forall k :: 0 <= k < attempt ==> !attempts[k].Ended? && !cancelled[k]
      decreases MAX_WRITE_REPLAYS - attempt
    {
      result := attempts[attempt];
      var replayable := result.Refused? || result.Raced?;
      if !replayable || attempt >= MAX_WRITE_REPLAYS || cancelled[attempt] {
        return result, attempt + 1;
      }
      attempt := attempt + 1;
    }
  }
}
