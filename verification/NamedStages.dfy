/**
 Which projections, pipelines and finds the field analysis accepts, and which roots it
 lists for them, said of their entries, stages and parts one by one.
 */
module NamedStages {
  import opened Bytes
  import opened RawCodec
  import opened Expressions
  import opened FieldRoots
  import opened Filters
  import opened Projections
  import opened Pipelines
  import opened NamedFields

  // ------------------------------------------------------------------ projections

  /** A document whose first key is an operator. */
  predicate Operated(v: Val) { v.Doc? && v.entries.Entry? && Dollar(v.entries.name) }

  predicate ArrayOperated(find: bool, v: Val) {
    find && Operated(v) && v.entries.name in {Ascii("$slice"), Ascii("$elemMatch")}
  }

  /** The entries of a projection, nested ones among them, and whether they stand at the top. */
  predicate Has(p: Entries, top: bool, key: bytes, v: Val, atTop: bool)
    decreases p
  {
    p.Entry?
    && ((key == p.name && v == p.value && atTop == top)
        || (p.value.Doc? && !Operated(p.value) && Has(p.value.entries, false, key, v, atTop))
        || Has(p.rest, top, key, v, atTop))
  }

  predicate NonZero(v: Val) {
    v == Bool(true) || (v.Int32? && v.i32 != 0) || (v.Int64? && v.i64 != 0)
    || (v.Double? && v.bits != 0 && v.bits != 0x8000_0000_0000_0000)
  }

  /** An inclusion: a flag that is on, or _id switched off; an expression that is fine; a nested projection. */
  ghost predicate EntryFine(find: bool, key: bytes, v: Val, atTop: bool) {
    if v.Bool? || v.Int32? || v.Int64? || v.Double? then NonZero(v) || (atTop && key == Ascii("_id"))
    else if v.Doc? then
      !Operated(v) || ArrayOperated(find, v) || (v.entries.name != Ascii("$meta") && AllFine(v))
    else if v.Str? || v.Arr? then AllFine(v)
    else !find && (v.Binary? || v.ObjectId? || v.DateTime? || v.Null? || v.Regex? || v.Timestamp?)
  }

  /** An included or nested field, and one at a dotted path, names its root; an expression what it names. */
  ghost predicate EntryNames(find: bool, key: bytes, v: Val, r: bytes) {
    (RootOf(r, key) && (46 in key || NonZero(v) || ArrayOperated(find, v) || (v.Doc? && !Operated(v))))
    || ((v.Str? || v.Arr? || (Operated(v) && !ArrayOperated(find, v))) && SeenNamed(v, r))
  }

  lemma OperatedIs(find: bool, v: Val)
    requires v.Doc?
    ensures Commanded(v.entries) <==> Operated(v)
    ensures Slices(find, v.entries) <==> ArrayOperated(find, v)
    ensures v.entries.Entry? ==> (Meta(v.entries) <==> v.entries.name == Ascii("$meta"))
    ensures Operated(v) ==> v.entries.Entry?
  {
    DollarIs(FirstKey(v.entries));
    assert Ascii("$slice")[0] == 36 && Ascii("$elemMatch")[0] == 36;
  }

  /** Leaves one entry aside: what a nested projection adds is counted by itself. */
  lemma EntryIs(find: bool, key: bytes, v: Val, top: bool, r: bytes)
    ensures !(v.Doc? && !Operated(v)) ==> (EntryRoots(find, key, v, top).Some? <==> EntryFine(find, key, v, top))
    ensures !(v.Doc? && !Operated(v)) && EntryRoots(find, key, v, top).Some?
        ==> (r in EntryRoots(find, key, v, top).value <==> EntryNames(find, key, v, r))
  {
    hide AllFine, SeenNamed, Mentions, RootOf, Meta, Commanded, Slices;
    RootIs(key, r);
    ExpressionAccepted(v);
    if Mentions(v).Some? { ExpressionListed(v, r); }
    if v.Doc? { OperatedIs(find, v); }
  }

  lemma NestedIs(find: bool, key: bytes, v: Val, top: bool, r: bytes)
    requires v.Doc? && !Operated(v)
    ensures EntryRoots(find, key, v, top).Some? <==> ProjectionRoots(find, v.entries, false).Some?
    ensures EntryRoots(find, key, v, top).Some?
        ==> (r in EntryRoots(find, key, v, top).value
             <==> RootOf(r, key) || r in ProjectionRoots(find, v.entries, false).value)
  {
    hide ProjectionRoots, RootOf, Meta, Commanded, Slices;
    RootIs(key, r);
    OperatedIs(find, v);
  }

  ghost predicate EntriesAllFine(find: bool, p: Entries, top: bool) {
    forall key, v, atTop :: Has(p, top, key, v, atTop) ==> EntryFine(find, key, v, atTop)
  }

  ghost predicate SomeNames(find: bool, p: Entries, top: bool, r: bytes) {
    exists key, v, atTop :: Has(p, top, key, v, atTop) && EntryNames(find, key, v, r)
  }

  lemma FineSplit(find: bool, p: Entries, top: bool)
    requires p.Entry?
    ensures EntriesAllFine(find, p, top)
       <==> EntryFine(find, p.name, p.value, top)
            && (p.value.Doc? && !Operated(p.value) ==> EntriesAllFine(find, p.value.entries, false))
            && EntriesAllFine(find, p.rest, top)
  {
    hide EntryFine, Operated;
    assert Has(p, top, p.name, p.value, top);
    if EntriesAllFine(find, p, top) {
      forall key, v, atTop | p.value.Doc? && !Operated(p.value) && Has(p.value.entries, false, key, v, atTop)
        ensures EntryFine(find, key, v, atTop)
      {
        assert Has(p, top, key, v, atTop);
      }
      forall key, v, atTop | Has(p.rest, top, key, v, atTop) ensures EntryFine(find, key, v, atTop) {
        assert Has(p, top, key, v, atTop);
      }
    }
  }

  lemma NamesSplit(find: bool, p: Entries, top: bool, r: bytes)
    requires p.Entry?
    ensures SomeNames(find, p, top, r)
       <==> EntryNames(find, p.name, p.value, r)
            || (p.value.Doc? && !Operated(p.value) && SomeNames(find, p.value.entries, false, r))
            || SomeNames(find, p.rest, top, r)
  {
    hide EntryNames, Operated;
    assert Has(p, top, p.name, p.value, top);
    if p.value.Doc? && !Operated(p.value) && SomeNames(find, p.value.entries, false, r) {
      var key, v, atTop :| Has(p.value.entries, false, key, v, atTop) && EntryNames(find, key, v, r);
      assert Has(p, top, key, v, atTop);
    }
    if SomeNames(find, p.rest, top, r) {
      var key, v, atTop :| Has(p.rest, top, key, v, atTop) && EntryNames(find, key, v, r);
      assert Has(p, top, key, v, atTop);
    }
    if SomeNames(find, p, top, r) {
      var key, v, atTop :| Has(p, top, key, v, atTop) && EntryNames(find, key, v, r);
      if p.value.Doc? && !Operated(p.value) && Has(p.value.entries, false, key, v, atTop) {
        assert SomeNames(find, p.value.entries, false, r);
      } else if Has(p.rest, top, key, v, atTop) {
        assert SomeNames(find, p.rest, top, r);
      }
    }
  }

  /** A projection is accepted if and only if each of its entries is an inclusion. */
  lemma {:induction false} ProjectionAccepted(find: bool, p: Entries, top: bool)
    ensures ProjectionRoots(find, p, top).Some? <==> EntriesAllFine(find, p, top)
    decreases p
  {
    hide EntryRoots, EntriesAllFine;
    if p.Nil? {
      NoEntries(find, p, top, []);
    } else {
      ProjectionAccepted(find, p.rest, top);
      FineSplit(find, p, top);
      EntryIs(find, p.name, p.value, top, []);
      if p.value.Doc? && !Operated(p.value) {
        ProjectionAccepted(find, p.value.entries, false);
        NestedIs(find, p.name, p.value, top, []);
      }
    }
  }

  lemma NoEntries(find: bool, p: Entries, top: bool, r: bytes)
    requires p.Nil?
    ensures EntriesAllFine(find, p, top) && !SomeNames(find, p, top, r)
  {
  }

  /** A root is listed for a projection if and only if one of its entries names it. */
  lemma {:induction false} ProjectionListed(find: bool, p: Entries, top: bool, r: bytes)
    requires ProjectionRoots(find, p, top).Some?
    ensures r in ProjectionRoots(find, p, top).value <==> SomeNames(find, p, top, r)
    decreases p
  {
    hide EntryRoots, SomeNames;
    if p.Nil? {
      NoEntries(find, p, top, r);
    } else {
      ProjectionListed(find, p.rest, top, r);
      NamesSplit(find, p, top, r);
      EntryIs(find, p.name, p.value, top, r);
      if p.value.Doc? && !Operated(p.value) {
        NestedIs(find, p.name, p.value, top, r);
        ProjectionListed(find, p.value.entries, false, r);
        NestedNames(find, p.name, p.value, r);
      }
    }
  }

  lemma NestedNames(find: bool, key: bytes, v: Val, r: bytes)
    requires v.Doc? && !Operated(v)
    ensures EntryNames(find, key, v, r) <==> RootOf(r, key)
  {
    hide SeenNamed, RootOf;
  }

  /** Not just _id switched off. */
  ghost predicate Includes(p: Entries) {
    exists key, v :: Entered(p, key, v) && !(key == Ascii("_id") && IsFlag(v) && !NonZero(v))
  }

  predicate Entered(p: Entries, key: bytes, v: Val) {
    p.Entry? && ((p.name == key && p.value == v) || Entered(p.rest, key, v))
  }

  lemma {:induction false} IncludesIs(p: Entries)
    ensures IncludesSomething(p, true) <==> Includes(p)
  {
    if p.Entry? {
      IncludesIs(p.rest);
      assert Entered(p, p.name, p.value);
      if Includes(p.rest) {
        var key, v :| Entered(p.rest, key, v) && !(key == Ascii("_id") && IsFlag(v) && !NonZero(v));
        assert Entered(p, key, v);
      }
      if Includes(p) {
        var key, v :| Entered(p, key, v) && !(key == Ascii("_id") && IsFlag(v) && !NonZero(v));
        if Entered(p.rest, key, v) { assert Includes(p.rest); }
      }
    }
  }

  // --------------------------------------------------------------------- pipelines

  predicate StageOf(v: Val, name: bytes) {
    v.Doc? && v.entries.Entry? && v.entries.rest.Nil? && v.entries.name == name
  }

  ghost predicate NoDocs(order: Entries) { forall key, v :: Entered(order, key, v) ==> !v.Doc? }

  ghost predicate FilterFine(v: Val) {
    v.Doc? && forall key, value :: Clause(v.entries, key, value) ==> ClauseFine(key, value)
  }

  /** A stage that hands documents on and reads what it names. */
  ghost predicate PassFine(v: Val) {
    (StageOf(v, Ascii("$match")) && FilterFine(v.entries.value))
    || (StageOf(v, Ascii("$sort")) && v.entries.value.Doc? && NoDocs(v.entries.value.entries))
    || StageOf(v, Ascii("$limit")) || StageOf(v, Ascii("$skip"))
  }

  /** A stage that drops all it does not name. */
  ghost predicate EndFine(v: Val) {
    StageOf(v, Ascii("$count"))
    || (StageOf(v, Ascii("$group")) && AllFine(v.entries.value))
    || (StageOf(v, Ascii("$project")) && v.entries.value.Doc?
        && EntriesAllFine(false, v.entries.value.entries, true) && Includes(v.entries.value.entries))
  }

  lemma {:induction false} NoDocsIs(order: Entries)
    ensures PlainOrder(order) <==> NoDocs(order)
  {
    if order.Entry? {
      NoDocsIs(order.rest);
      assert Entered(order, order.name, order.value);
      assert forall key, v :: Entered(order.rest, key, v) ==> Entered(order, key, v);
      assert forall key, v :: Entered(order, key, v) ==> v == order.value || Entered(order.rest, key, v);
    }
  }

  lemma PassIs(v: Val)
    ensures PassFine(v) <==> Passes(v) && PassRoots(v).Some?
  {
    hide NoDocs, PlainOrder, FilterMentions;
    PassNames();
    if Stage(v) && v.entries.value.Doc? {
      NoDocsIs(v.entries.value.entries);
      FilterAccepted(v.entries.value.entries);
    }
  }

  lemma PassNames()
    ensures Ascii("$match") != Ascii("$sort") && Ascii("$match") != Ascii("$limit") && Ascii("$match") != Ascii("$skip")
    ensures Ascii("$sort") != Ascii("$limit") && Ascii("$sort") != Ascii("$skip")
  {
    assert Ascii("$match")[1] == 109 && Ascii("$sort")[1] == 115 && Ascii("$limit")[1] == 108;
    assert Ascii("$skip")[1] == 115 && Ascii("$skip")[2] == 107 && Ascii("$sort")[2] == 111;
  }

  lemma EndIs(v: Val)
    ensures EndFine(v) <==> !Passes(v) && EndRoots(v).Some?
  {
    hide PlainOrder, FilterMentions, Mentions, ProjectionRoots, AllFine, EntriesAllFine, IncludesSomething, Includes;
    StageNames();
    if Stage(v) {
      ExpressionAccepted(v.entries.value);
      if v.entries.value.Doc? {
        ProjectionAccepted(false, v.entries.value.entries, true);
        IncludesIs(v.entries.value.entries);
      }
    }
  }

  /** Stages that pass documents on, up to one that drops all it does not name. */
  ghost predicate Prunes(pipeline: seq<Val>, n: nat) {
    n < |pipeline| && EndFine(pipeline[n]) && forall i :: 0 <= i < n ==> PassFine(pipeline[i])
  }

  /** A pipeline is accepted if and only if it begins so, whatever comes behind. */
  lemma {:induction false} PipelineAccepted(pipeline: seq<Val>)
    ensures PipelineRoots(pipeline).Some? <==> exists n: nat :: Prunes(pipeline, n)
    decreases |pipeline|
  {
    hide PassFine, EndFine, Passes, PassRoots, EndRoots;
    if pipeline != [] {
      var rest := pipeline[1..];
      PipelineAccepted(rest);
      PassIs(pipeline[0]);
      EndIs(pipeline[0]);
      assert Prunes(pipeline, 0) <==> EndFine(pipeline[0]);
      if n: nat :| Prunes(rest, n) {
        if PassFine(pipeline[0]) { PrunesLater(pipeline, n); }
      }
      if n: nat :| Prunes(pipeline, n) {
        if n > 0 { PrunesSooner(pipeline, n); }
      }
    }
  }

  lemma PrunesLater(pipeline: seq<Val>, n: nat)
    requires pipeline != [] && PassFine(pipeline[0]) && Prunes(pipeline[1..], n)
    ensures Prunes(pipeline, n + 1)
  {
    hide PassFine, EndFine;
    forall i | 0 <= i < n + 1 ensures PassFine(pipeline[i]) {
      if i > 0 { assert pipeline[1..][i - 1] == pipeline[i]; }
    }
  }

  lemma PrunesSooner(pipeline: seq<Val>, n: nat)
    requires n > 0 && Prunes(pipeline, n)
    ensures PassFine(pipeline[0]) && Prunes(pipeline[1..], n - 1)
  {
    hide PassFine, EndFine;
    forall i | 0 <= i < n - 1 ensures PassFine(pipeline[1..][i]) {
      assert pipeline[1..][i] == pipeline[i + 1];
    }
  }

  /** A find is accepted if and only if it has an inclusion, no option that reads more, and only plain sort keys. */
  lemma FindAccepted(q: FindParams)
    ensures FindRoots(q).Some?
       <==> !q.returnKey && !q.minOrMax && FilterFine(Doc(q.filter)) && (q.sort.Some? ==> NoDocs(q.sort.value))
            && EntriesAllFine(true, q.projection, true) && Includes(q.projection)
  {
    hide PlainOrder, FilterMentions, ProjectionRoots, EntriesAllFine;
    FilterAccepted(q.filter);
    ProjectionAccepted(true, q.projection, true);
    IncludesIs(q.projection);
    if q.sort.Some? { NoDocsIs(q.sort.value); }
  }

  // ------------------------------------------------------------------ the window

  /** A find returns the documents from the skip-th on, at most limit of them unless that is 0. */
  lemma WindowIs(q: FindParams, docs: seq<Entries>)
    ensures var w := Windowed(q, docs);
            |w| == (if |docs| <= q.skip then 0
                    else if q.limit == 0 || |docs| - q.skip <= q.limit then |docs| - q.skip else q.limit)
            && forall i :: 0 <= i < |w| ==> w[i] == docs[q.skip + i]
  {
  }

  /** $limit keeps the first documents, $skip drops them. */
  lemma LimitAndSkip(E: Engine, v: Val, docs: seq<Entries>, i: nat)
    requires Passes(v)
    ensures StageOf(v, Ascii("$limit")) ==> |Pass(E, v, docs)| == Least(E.limit(v.entries.value), |docs|)
    ensures StageOf(v, Ascii("$limit")) && i < |Pass(E, v, docs)| ==> Pass(E, v, docs)[i] == docs[i]
    ensures StageOf(v, Ascii("$skip")) ==> |Pass(E, v, docs)| == |docs| - Least(E.skip(v.entries.value), |docs|)
    ensures StageOf(v, Ascii("$skip")) && i < |Pass(E, v, docs)|
        ==> Pass(E, v, docs)[i] == docs[Least(E.skip(v.entries.value), |docs|) + i]
  {
    PassNames();
  }

  function Later(at: seq<nat>): (r: seq<nat>)
    ensures |r| == |at| && forall i :: 0 <= i < |at| ==> r[i] == at[i] + 1
  {
    seq(|at|, i requires 0 <= i < |at| => at[i] + 1)
  }

  lemma LaterMembers(at: seq<nat>, k: nat)
    ensures k in Later(at) <==> k > 0 && k - 1 in at
  {
    if k > 0 && k - 1 in at {
      var i :| 0 <= i < |at| && at[i] == k - 1;
      assert Later(at)[i] == k;
    }
  }

  /** The documents at these places, each at its place passing the test, and no others. */
  ghost predicate Chosen(T: Tests, filter: Entries, docs: seq<Entries>, n: nat, at: seq<nat>, out: seq<Entries>) {
    |at| == |out|
    && (forall i :: 0 <= i < |at| ==> at[i] < |docs| && out[i] == docs[at[i]])
    && (forall i, j :: 0 <= i < j < |at| ==> at[i] < at[j])
    && (forall k: nat :: k < |docs| ==> (k in at <==> Matches(T, filter, docs[k], n + k)))
  }

  /** $match keeps the documents that match, each tested at its place, in their order. */
  lemma {:induction false} MatchKeeps(T: Tests, filter: Entries, docs: seq<Entries>, n: nat) returns (at: seq<nat>)
    ensures Chosen(T, filter, docs, n, at, Matching(T, filter, docs, n))
    decreases |docs|
  {
    hide Matches, Chosen;
    if docs == [] {
      at := [];
      NoneChosen(T, filter, n);
    } else {
      var rest := MatchKeeps(T, filter, docs[1..], n + 1);
      var more := Matching(T, filter, docs[1..], n + 1);
      if Matches(T, filter, docs[0], n) {
        TakeFirst(T, filter, docs, n, rest, more);
        at := [0] + Later(rest);
      } else {
        PassFirst(T, filter, docs, n, rest, more);
        assert [] + more == more;
        at := Later(rest);
      }
    }
  }

  lemma NoneChosen(T: Tests, filter: Entries, n: nat)
    ensures Chosen(T, filter, [], n, [], [])
  {
  }

  lemma TakeFirst(T: Tests, filter: Entries, docs: seq<Entries>, n: nat, rest: seq<nat>, out: seq<Entries>)
    requires docs != [] && Chosen(T, filter, docs[1..], n + 1, rest, out) && Matches(T, filter, docs[0], n)
    ensures Chosen(T, filter, docs, n, [0] + Later(rest), [docs[0]] + out)
  {
    hide Matches, Later;
    var at, all := [0] + Later(rest), [docs[0]] + out;
    forall i | 0 <= i < |at| ensures at[i] < |docs| && all[i] == docs[at[i]] {
      if i > 0 { assert at[i] == rest[i - 1] + 1 && docs[1..][rest[i - 1]] == docs[at[i]]; }
    }
    forall i, j | 0 <= i < j < |at| ensures at[i] < at[j] {
      assert at[j] == rest[j - 1] + 1;
      if i > 0 { assert at[i] == rest[i - 1] + 1; }
    }
    forall k: nat | k < |docs| ensures k in at <==> Matches(T, filter, docs[k], n + k) {
      ChosenAt(T, filter, docs, n, rest, out, k);
      assert k in at <==> k == 0 || k in Later(rest);
    }
  }

  lemma PassFirst(T: Tests, filter: Entries, docs: seq<Entries>, n: nat, rest: seq<nat>, out: seq<Entries>)
    requires docs != [] && Chosen(T, filter, docs[1..], n + 1, rest, out) && !Matches(T, filter, docs[0], n)
    ensures Chosen(T, filter, docs, n, Later(rest), out)
  {
    hide Matches, Later;
    var at := Later(rest);
    forall i | 0 <= i < |at| ensures at[i] < |docs| && out[i] == docs[at[i]] {
      assert docs[1..][rest[i]] == docs[rest[i] + 1];
    }
    forall k: nat | k < |docs| ensures k in at <==> Matches(T, filter, docs[k], n + k) {
      ChosenAt(T, filter, docs, n, rest, out, k);
    }
  }

  lemma ChosenAt(T: Tests, filter: Entries, docs: seq<Entries>, n: nat, rest: seq<nat>, out: seq<Entries>, k: nat)
    requires docs != [] && Chosen(T, filter, docs[1..], n + 1, rest, out) && k < |docs|
    ensures k in Later(rest) <==> k > 0 && Matches(T, filter, docs[k], n + k)
  {
    hide Matches, Later;
    LaterMembers(rest, k);
    if k > 0 {
      var j: nat := k - 1;
      assert docs[1..][j] == docs[k];
      assert j in rest <==> Matches(T, filter, docs[1..][j], n + 1 + j);
    }
  }
}
