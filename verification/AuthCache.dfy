/**
 The per-connection cache of resolved privileges, and of the commit identity, which works
 alike. User and role commands write the catalog and then bump a generation counter; a
 check loads the generation, answers from a cache entry of that generation, or else reads
 the catalog, several times, and caches what it resolved under the generation it loaded.
 */
module AuthCache {
  import opened Bytes
  import opened Varint

  /** A user or role command that has written, as the version-th write, and one that has also bumped and returned. */
  datatype Command = Wrote(version: nat) | Returned(version: nat, bump: nat)

  /**
   gen is the 64-bit counter's value; since counts the bumps it stood for; oldest is the
   catalog version of the earliest read that went into the entry.
   */
  datatype Cached = Cached(user: nat, gen: nat, since: nat, oldest: nat)

  /** start and at are the numbers of bumps when the check began and when it loaded the generation. */
  datatype Phase =
    | Resting
    | Checking(start: nat)
    | Loaded(start: nat, gen: nat, at: nat)
    | Reading(start: nat, gen: nat, at: nat, oldest: nat)
    | Answered(start: nat, at: nat, used: Cached)

  datatype Conn = Conn(user: nat, cache: Option<Cached>, phase: Phase)

  /** writes counts catalog writes; bumps[k] is that count when the k-th bump happened. */
  datatype State = State(writes: nat, bumps: seq<nat>, commands: seq<Command>, conns: seq<Conn>)

  datatype Action =
    | Write
    | Bump(command: nat)
    | Begin(conn: nat)
    | Load(conn: nat)
    | Read(conn: nat)
    | Fail(conn: nat)
    | Store(conn: nat)
    | Finish(conn: nat)
    | Login(conn: nat, user: nat)

  function Generation(s: State): nat { |s.bumps| % U64 }

  function Put(s: State, c: nat, phase: Phase): State
    requires c < |s.conns|
  {
    s.(conns := s.conns[c := s.conns[c].(phase := phase)])
  }

  function Min(a: nat, b: nat): nat { if a < b then a else b }

  function Step(s: State, a: Action): Option<State> {
    match a
    case Write => Some(s.(writes := s.writes + 1, commands := s.commands + [Wrote(s.writes + 1)]))
    case Bump(k) =>
      if k < |s.commands| && s.commands[k].Wrote? then
        Some(s.(bumps := s.bumps + [s.writes], commands := s.commands[k := Returned(s.commands[k].version, |s.bumps|)]))
      else None
    case Begin(c) => if c < |s.conns| && s.conns[c].phase.Resting? then Some(Put(s, c, Checking(|s.bumps|))) else None
    case Load(c) =>
      if c < |s.conns| && s.conns[c].phase.Checking? then
        var x := s.conns[c];
        if x.cache.Some? && x.cache.value.gen == Generation(s) then
          Some(Put(s, c, Answered(x.phase.start, |s.bumps|, x.cache.value)))
        else Some(Put(s, c, Loaded(x.phase.start, Generation(s), |s.bumps|)))
      else None
    case Read(c) =>
      if c < |s.conns| then
        match s.conns[c].phase
        case Loaded(start, gen, at) => Some(Put(s, c, Reading(start, gen, at, s.writes)))
        case Reading(start, gen, at, oldest) => Some(Put(s, c, Reading(start, gen, at, Min(oldest, s.writes))))
        case _ => None
      else None
    case Fail(c) =>
      if c < |s.conns| && (s.conns[c].phase.Loaded? || s.conns[c].phase.Reading?) then Some(Put(s, c, Resting))
      else None
    case Store(c) =>
      if c < |s.conns| && s.conns[c].phase.Reading? then
        var x, p := s.conns[c], s.conns[c].phase;
        var entry := Cached(x.user, p.gen, p.at, p.oldest);
        Some(s.(conns := s.conns[c := Conn(x.user, Some(entry), Answered(p.start, p.at, entry))]))
      else None
    case Finish(c) => if c < |s.conns| && s.conns[c].phase.Answered? then Some(Put(s, c, Resting)) else None
    case Login(c, user) =>
      if c < |s.conns| && s.conns[c].phase.Resting? then Some(s.(conns := s.conns[c := Conn(user, None, Resting)]))
      else None
  }

  function Exec(s: State, steps: seq<Action>): Option<State>
    decreases |steps|
  {
    if steps == [] then Some(s)
    else
      match Step(s, steps[0])
      case None => None
      case Some(next) => Exec(next, steps[1..])
  }

  predicate Start(s: State) {
    s.bumps == [] && s.commands == []
    && forall c :: 0 <= c < |s.conns| ==> s.conns[c].cache == None && s.conns[c].phase == Resting
  }

  // ------------------------------------------------------------------ invariant

  /** The catalog version every read after the k-th bump is sure to see. */
  function Floor(s: State, k: nat): nat
    requires k <= |s.bumps|
  {
    if k == 0 then 0 else s.bumps[k - 1]
  }

  ghost predicate CachedOk(s: State, user: nat, e: Cached) {
    e.user == user && e.since <= |s.bumps| && e.gen == e.since % U64 && Floor(s, e.since) <= e.oldest
  }

  ghost predicate ConnOk(s: State, x: Conn) {
    (x.cache.Some? ==> CachedOk(s, x.user, x.cache.value))
    && match x.phase
       case Resting => true
       case Checking(start) => start <= |s.bumps|
       case Loaded(start, gen, at) => start <= at <= |s.bumps| && gen == at % U64
       case Reading(start, gen, at, oldest) =>
         start <= at <= |s.bumps| && gen == at % U64 && Floor(s, at) <= oldest <= s.writes
       case Answered(start, at, used) =>
         start <= at <= |s.bumps| && CachedOk(s, x.user, used) && used.since <= at && used.gen == at % U64
  }

  ghost predicate CommandOk(s: State, c: Command) {
    match c
    case Wrote(version) => version <= s.writes
    case Returned(version, bump) => bump < |s.bumps| && version <= s.bumps[bump]
  }

  ghost predicate Inv(s: State) {
    (forall k :: 0 <= k < |s.bumps| ==> s.bumps[k] <= s.writes)
    && (forall j, k :: 0 <= j <= k < |s.bumps| ==> s.bumps[j] <= s.bumps[k])
    && (forall k :: 0 <= k < |s.commands| ==> CommandOk(s, s.commands[k]))
    && (forall c :: 0 <= c < |s.conns| ==> ConnOk(s, s.conns[c]))
  }

  /** Connections are undisturbed by writes and bumps. */
  lemma KeepConn(s: State, s': State, x: Conn)
    requires s.bumps <= s'.bumps && s.writes <= s'.writes && ConnOk(s, x)
    ensures ConnOk(s', x)
  {
    assert forall k :: 0 <= k < |s.bumps| ==> s.bumps[k] == s'.bumps[k];
  }

  lemma AdminInv(s: State, a: Action, s': State)
    requires Inv(s) && (a.Write? || a.Bump?) && Step(s, a) == Some(s')
    ensures Inv(s')
  {
    hide ConnOk;
    forall c | 0 <= c < |s'.conns| ensures ConnOk(s', s'.conns[c]) {
      KeepConn(s, s', s.conns[c]);
    }
    forall k | 0 <= k < |s'.commands| ensures CommandOk(s', s'.commands[k]) {
      if k < |s.commands| { assert CommandOk(s, s.commands[k]); }
    }
  }

  lemma ConnInv(s: State, a: Action, s': State)
    requires Inv(s) && !a.Write? && !a.Bump? && Step(s, a) == Some(s')
    ensures Inv(s')
  {
    var c := a.conn;
    assert ConnOk(s, s.conns[c]);
    assert ConnOk(s', s'.conns[c]);
    forall d | 0 <= d < |s'.conns| ensures ConnOk(s', s'.conns[d]) {
      if d != c { KeepConn(s, s', s.conns[d]); }
    }
    forall k | 0 <= k < |s'.commands| ensures CommandOk(s', s'.commands[k]) {
      assert CommandOk(s, s.commands[k]);
    }
  }

  lemma StartInv(s: State)
    requires Start(s)
    ensures Inv(s)
  {
  }

  lemma {:induction false} RunInv(s: State, steps: seq<Action>, s': State)
    requires Inv(s) && Exec(s, steps) == Some(s')
    ensures Inv(s')
    decreases |steps|
  {
    hide Inv, Step;
    if steps != [] {
      var next := Step(s, steps[0]).value;
      if steps[0].Write? || steps[0].Bump? { AdminInv(s, steps[0], next); } else { ConnInv(s, steps[0], next); }
      RunInv(next, steps[1..], s');
    }
  }

  // ----------------------------------------------------------------- main result

  /** The answer rests on nothing older than any command that had returned when the check began. */
  ghost predicate Fresh(s: State, x: Conn)
    requires x.phase.Answered?
  {
    forall k :: 0 <= k < |s.commands| && s.commands[k].Returned? && s.commands[k].bump < x.phase.start
                ==> s.commands[k].version <= x.phase.used.oldest
  }

  /**
   In every interleaving a check answers for the connection's own user, and from reads made
   after every user or role command that had returned when it began, as long as the
   generation it matched was not one the counter had come round to again.
   */
  lemma NeverStale(s0: State, steps: seq<Action>, s: State, c: nat)
    requires Start(s0) && Exec(s0, steps) == Some(s)
    requires c < |s.conns| && s.conns[c].phase.Answered?
    ensures s.conns[c].phase.used.user == s.conns[c].user
    ensures s.conns[c].phase.at - s.conns[c].phase.used.since < U64 ==> Fresh(s, s.conns[c])
  {
    RunInv(s0, steps, s);
    var x := s.conns[c];
    assert ConnOk(s, x);
    var p := x.phase;
    if p.at - p.used.since < U64 {
      SameResidue(p.used.since, p.at);
      forall k | 0 <= k < |s.commands| && s.commands[k].Returned? && s.commands[k].bump < p.start
        ensures s.commands[k].version <= p.used.oldest
      {
        assert CommandOk(s, s.commands[k]);
        assert s.bumps[s.commands[k].bump] <= s.bumps[p.at - 1];
      }
    }
  }

  lemma SameResidue(a: nat, b: nat)
    requires a % U64 == b % U64 && 0 <= b - a < U64
    ensures a == b
  {
    var q, r := a / U64, b / U64;
    assert a == U64 * q + a % U64 && b == U64 * r + b % U64;
    assert b - a == U64 * (r - q);
  }

  // -------------------------------------------------- where the counter comes round

  /** n user or role commands in a row, the first the k-th. */
  function Commands(k: nat, n: nat): seq<Action>
    decreases n
  {
    if n == 0 then [] else [Write, Bump(k)] + Commands(k + 1, n - 1)
  }

  lemma {:induction false} ExecConcat(s: State, a: seq<Action>, m: State, b: seq<Action>)
    requires Exec(s, a) == Some(m)
    ensures Exec(s, a + b) == Exec(m, b)
    decreases |a|
  {
    hide Step;
    if a == [] {
      assert a + b == b;
    } else {
      assert (a + b)[0] == a[0] && (a + b)[1..] == a[1..] + b;
      ExecConcat(Step(s, a[0]).value, a[1..], m, b);
    }
  }

  lemma ExecTwo(s: State, a: Action, s1: State, b: Action, s2: State)
    requires Step(s, a) == Some(s1) && Step(s1, b) == Some(s2)
    ensures Exec(s, [a, b]) == Some(s2)
  {
    hide Step;
    assert [a, b][1..] == [b];
    assert [b][1..] == [];
    assert Exec(s1, [b]) == Some(s2);
  }

  lemma {:induction false} CommandsRun(s: State, n: nat) returns (s': State)
    ensures Exec(s, Commands(|s.commands|, n)) == Some(s')
    ensures s'.conns == s.conns && |s'.bumps| == |s.bumps| + n && s.commands <= s'.commands
    ensures n > 0 ==> |s'.commands| > |s.commands| && s'.commands[|s.commands|] == Returned(s.writes + 1, |s.bumps|)
    decreases n
  {
    if n == 0 {
      s' := s;
    } else {
      var k := |s.commands|;
      var s1 := Step(s, Write).value;
      var s2 := Step(s1, Bump(k)).value;
      ExecTwo(s, Write, s1, Bump(k), s2);
      assert |s2.commands| == k + 1 && s2.commands[k] == Returned(s.writes + 1, |s.bumps|);
      assert s.commands <= s2.commands;
      s' := CommandsRun(s2, n - 1);
      ExecConcat(s, [Write, Bump(k)], s2, Commands(k + 1, n - 1));
    }
  }

  /** A check by the first connection that fills its cache. */
  lemma Fills(s: State) returns (s': State)
    requires |s.conns| > 0 && s.conns[0].cache == None && s.conns[0].phase == Resting
    ensures Exec(s, [Begin(0), Load(0)] + ([Read(0), Store(0)] + ([Finish(0)] + []))) == Some(s')
    ensures s'.bumps == s.bumps && s'.commands == s.commands && s'.writes == s.writes && |s'.conns| > 0
    ensures s'.conns[0]
            == Conn(s.conns[0].user, Some(Cached(s.conns[0].user, Generation(s), |s.bumps|, s.writes)), Resting)
  {
    var s1 := Step(s, Begin(0)).value;
    var s2 := Step(s1, Load(0)).value;
    var s3 := Step(s2, Read(0)).value;
    var s4 := Step(s3, Store(0)).value;
    s' := Step(s4, Finish(0)).value;
    ExecTwo(s, Begin(0), s1, Load(0), s2);
    ExecTwo(s2, Read(0), s3, Store(0), s4);
    assert Exec(s4, [Finish(0)] + []) == Some(s') by {
      assert ([Finish(0)] + [])[1..] == [];
      assert Exec(s', []) == Some(s');
    }
    ExecConcat(s2, [Read(0), Store(0)], s4, [Finish(0)] + []);
    ExecConcat(s, [Begin(0), Load(0)], s2, [Read(0), Store(0)] + ([Finish(0)] + []));
  }

  /** The bound is needed: 2^64 bumps later the counter matches again and the answer is stale. */
  lemma ComesRound(s0: State) returns (steps: seq<Action>, s: State)
    requires Start(s0) && |s0.conns| > 0
    ensures Exec(s0, steps) == Some(s)
    ensures |s.conns| > 0 && s.conns[0].phase.Answered? && !Fresh(s, s.conns[0])
    ensures s.conns[0].phase.at == s.conns[0].phase.used.since + U64
  {
    hide Step;
    var s1 := Fills(s0);
    var s2 := CommandsRun(s1, U64);
    var fill, busy := [Begin(0), Load(0)] + ([Read(0), Store(0)] + ([Finish(0)] + [])), Commands(0, U64);
    var s3, s4 := Asks(s2);
    s := s4;
    ExecTwo(s2, Begin(0), s3, Load(0), s4);
    ExecConcat(s1, busy, s2, [Begin(0), Load(0)]);
    ExecConcat(s0, fill, s1, busy + [Begin(0), Load(0)]);
    steps := fill + (busy + [Begin(0), Load(0)]);
    assert s.commands[0] == Returned(s0.writes + 1, 0);
  }

  lemma Asks(s: State) returns (s1: State, s2: State)
    requires |s.conns| > 0 && s.conns[0].phase == Resting
    requires s.conns[0].cache.Some? && s.conns[0].cache.value.gen == Generation(s)
    ensures Step(s, Begin(0)) == Some(s1) && Step(s1, Load(0)) == Some(s2)
    ensures s2.commands == s.commands && |s2.conns| > 0
    ensures s2.conns[0].phase == Answered(|s.bumps|, |s.bumps|, s.conns[0].cache.value)
  {
    s1 := Step(s, Begin(0)).value;
    s2 := Step(s1, Load(0)).value;
  }

  /**
   Past the bound the counts decide nothing: where the reads came after the 2^64
   bumps, the same match answers from fresh reads.
   */
  lemma LateReadStaysFresh(s0: State) returns (steps: seq<Action>, s: State)
    requires Start(s0) && |s0.conns| > 0
    ensures Exec(s0, steps) == Some(s)
    ensures |s.conns| > 0 && s.conns[0].phase.Answered? && Fresh(s, s.conns[0])
    ensures s.conns[0].phase.at == s.conns[0].phase.used.since + U64
  {
    hide Step, Inv;
    var s1, s2 := Looks(s0);
    ExecTwo(s0, Begin(0), s1, Load(0), s2);
    var busy := Commands(0, U64);
    var s3 := CommandsRun(s2, U64);
    ExecConcat(s0, [Begin(0), Load(0)], s2, busy);
    StartInv(s0);
    RunInv(s0, [Begin(0), Load(0)] + busy, s3);
    var late, s4 := ReadsLate(s3);
    var s5, s6 := Asks(s4);
    ExecTwo(s4, Begin(0), s5, Load(0), s6);
    ExecConcat(s3, late, s4, [Begin(0), Load(0)]);
    ExecConcat(s0, [Begin(0), Load(0)] + busy, s3, late + [Begin(0), Load(0)]);
    steps, s := [Begin(0), Load(0)] + busy + (late + [Begin(0), Load(0)]), s6;
    NoneNewer(s3);
  }

  lemma Looks(s: State) returns (s1: State, s2: State)
    requires |s.conns| > 0 && s.conns[0].cache == None && s.conns[0].phase == Resting
    ensures Step(s, Begin(0)) == Some(s1) && Step(s1, Load(0)) == Some(s2)
    ensures s2.bumps == s.bumps && s2.commands == s.commands && |s2.conns| > 0
    ensures s2.conns[0] == Conn(s.conns[0].user, None, Loaded(|s.bumps|, Generation(s), |s.bumps|))
  {
    s1 := Step(s, Begin(0)).value;
    s2 := Step(s1, Load(0)).value;
  }

  lemma ReadsLate(s: State) returns (steps: seq<Action>, s': State)
    requires |s.conns| > 0 && s.conns[0].phase.Loaded?
    ensures Exec(s, steps) == Some(s')
    ensures s'.bumps == s.bumps && s'.commands == s.commands && |s'.conns| > 0 && s'.conns[0].phase == Resting
    ensures s'.conns[0].cache
         == Some(Cached(s.conns[0].user, s.conns[0].phase.gen, s.conns[0].phase.at, s.writes))
  {
    var s1 := Step(s, Read(0)).value;
    var s2 := Step(s1, Store(0)).value;
    s' := Step(s2, Finish(0)).value;
    ExecTwo(s, Read(0), s1, Store(0), s2);
    assert Exec(s2, [Finish(0)]) == Some(s') by {
      assert [Finish(0)][1..] == [];
      assert Exec(s', []) == Some(s');
    }
    ExecConcat(s, [Read(0), Store(0)], s2, [Finish(0)]);
    steps := [Read(0), Store(0)] + [Finish(0)];
  }

  /** No command wrote anything newer than the catalog. */
  lemma NoneNewer(s: State)
    requires Inv(s)
    ensures forall k :: 0 <= k < |s.commands| ==> s.commands[k].version <= s.writes
  {
    forall k | 0 <= k < |s.commands| ensures s.commands[k].version <= s.writes {
      assert CommandOk(s, s.commands[k]);
    }
  }

  // ------------------------------------------------------------ what the cache saves

  /** As long as no command has bumped the generation a check answers from the cache and reads nothing. */
  lemma AnswersFromCache(s: State, c: nat) returns (s': State)
    requires c < |s.conns| && s.conns[c].phase == Resting
    requires s.conns[c].cache.Some? && s.conns[c].cache.value.gen == Generation(s)
    ensures Exec(s, [Begin(c), Load(c)]) == Some(s')
    ensures s' == Put(s, c, Answered(|s.bumps|, |s.bumps|, s.conns[c].cache.value))
  {
    var s1 := Step(s, Begin(c)).value;
    s' := Step(s1, Load(c)).value;
    ExecTwo(s, Begin(c), s1, Load(c), s');
  }

  /** An entry is as old as the first read that went into it, whatever is read later. */
  lemma FirstReadCounts(s0: State, steps: seq<Action>, s: State, c: nat)
    requires Start(s0) && Exec(s0, steps) == Some(s)
    requires c < |s.conns| && s.conns[c].phase.Reading?
    ensures Step(s, Read(c)) == Some(s)
  {
    RunInv(s0, steps, s);
    assert ConnOk(s, s.conns[c]);
    assert s.conns[c := s.conns[c]] == s.conns;
  }
}
