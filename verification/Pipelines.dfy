/**
 Field pruning: the server decodes only the top-level fields a pipeline or a find is found
 to read. Proved here: what a pipeline or find produces from documents cut down to those
 fields is what it produces from the whole documents, and exactly when.
 */
module Pipelines {
  import opened Bytes
  import opened RawCodec
  import opened Expressions
  import opened FieldRoots
  import opened Filters
  import opened Projections

  /**
   How stages behave: sort turns the keys of each document into an order of positions, limit
   and skip read their arguments, malformed is the projection validator's verdict on names,
   paths and operator arguments, for find or for $project, and refused is that on a $group body.
   */
  datatype Engine = Engine(
    expressions: Interp,
    tests: Tests,
    sort: (Entries, seq<seq<Option<Val>>>) -> seq<nat>,
    limit: Val -> nat,
    skip: Val -> nat,
    malformed: (bool, Entries) -> bool,
    refused: Val -> bool)

  /**
   What the first stage that is not $match, $sort, $limit or $skip has to work with, and
   the stages from it on: a number of documents, the meaning of a $group body for each
   document, what each projected document is made from, or the documents themselves.
   */
  datatype Outcome =
    | RefusedBody(stages: seq<Val>)
    | Counted(stages: seq<Val>, n: nat)
    | Grouped(stages: seq<Val>, meanings: seq<Den>)
    | Projected(stages: seq<Val>, views: seq<View>)
    | Documents(stages: seq<Val>, docs: seq<Entries>)

  // ------------------------------------------------------------------- semantics

  function Matching(T: Tests, filter: Entries, docs: seq<Entries>, n: nat): seq<Entries>
    decreases |docs|
  {
    if docs == [] then []
    else (if Matches(T, filter, docs[0], n) then [docs[0]] else []) + Matching(T, filter, docs[1..], n + 1)
  }

  function KeyOf(order: Entries, d: Entries): seq<Option<Val>> {
    if order.Nil? then []
    else [if order.name == Ascii("$natural") then None else FieldOf(d, Root(order.name))] + KeyOf(order.rest, d)
  }

  function Keys(order: Entries, docs: seq<Entries>): seq<seq<Option<Val>>> {
    if docs == [] then [] else [KeyOf(order, docs[0])] + Keys(order, docs[1..])
  }

  function Pick(docs: seq<Entries>, at: seq<nat>): seq<Entries>
    decreases |at|
  {
    if at == [] then [] else (if at[0] < |docs| then [docs[at[0]]] else []) + Pick(docs, at[1..])
  }

  function Sorted(E: Engine, order: Entries, docs: seq<Entries>): seq<Entries> {
    Pick(docs, E.sort(order, Keys(order, docs)))
  }

  predicate PlainOrder(order: Entries) { order.Entry? ==> !order.value.Doc? && PlainOrder(order.rest) }

  function Least(a: nat, b: nat): nat { if a < b then a else b }

  ghost function MeaningsOf(I: Interp, body: Val, docs: seq<Entries>): seq<Den> {
    if docs == [] then [] else [GroupMeaning(I, body, docs[0])] + MeaningsOf(I, body, docs[1..])
  }

  ghost function Views(I: Interp, bad: bool, find: bool, p: Entries, also: seq<bytes>, docs: seq<Entries>): seq<View> {
    if docs == [] then [] else [ViewOf(I, bad, find, p, also, docs[0])] + Views(I, bad, find, p, also, docs[1..])
  }

  predicate Stage(v: Val) { v.Doc? && v.entries.Entry? && v.entries.rest.Nil? }

  /** A stage that hands on some of its documents unchanged. */
  predicate Passes(v: Val) {
    Stage(v)
    && var name, spec := v.entries.name, v.entries.value;
       if name == Ascii("$match") then spec.Doc?
       else if name == Ascii("$sort") then spec.Doc? && PlainOrder(spec.entries)
       else name == Ascii("$limit") || name == Ascii("$skip")
  }

  function Pass(E: Engine, v: Val, docs: seq<Entries>): seq<Entries>
    requires Passes(v)
  {
    var name, spec := v.entries.name, v.entries.value;
    if name == Ascii("$match") then Matching(E.tests, spec.entries, docs, 0)
    else if name == Ascii("$sort") then Sorted(E, spec.entries, docs)
    else if name == Ascii("$limit") then docs[..Least(E.limit(spec), |docs|)]
    else docs[Least(E.skip(spec), |docs|)..]
  }

  /** The stages from the first that does not just pass documents on. */
  function Ending(pipeline: seq<Val>): seq<Val>
    decreases |pipeline|
  {
    if pipeline == [] || !Passes(pipeline[0]) then pipeline else Ending(pipeline[1..])
  }

  /** The documents that get there. */
  function Reach(E: Engine, pipeline: seq<Val>, docs: seq<Entries>): seq<Entries>
    decreases |pipeline|
  {
    if pipeline == [] || !Passes(pipeline[0]) then docs else Reach(E, pipeline[1..], Pass(E, pipeline[0], docs))
  }

  ghost function AtEnd(E: Engine, stages: seq<Val>, docs: seq<Entries>): Outcome {
    if stages == [] || !Stage(stages[0]) then Documents(stages, docs)
    else
      var name, spec := stages[0].entries.name, stages[0].entries.value;
      if name == Ascii("$count") then Counted(stages, |docs|)
      else if name == Ascii("$group") then
        if E.refused(spec) then RefusedBody(stages) else Grouped(stages, MeaningsOf(E.expressions, spec, docs))
      else if name == Ascii("$project") && spec.Doc? then
        Projected(stages, Views(E.expressions, E.malformed(false, spec.entries), false, spec.entries, [], docs))
      else Documents(stages, docs)
  }

  ghost function Produce(E: Engine, pipeline: seq<Val>, docs: seq<Entries>): Outcome {
    AtEnd(E, Ending(pipeline), Reach(E, pipeline, docs))
  }

  // -------------------------------------------------------------------- analysis

  /** The roots a stage that passes documents on names. */
  function PassRoots(v: Val): Option<seq<bytes>>
    requires Passes(v)
  {
    var name, spec := v.entries.name, v.entries.value;
    if name == Ascii("$match") then FilterMentions(spec.entries)
    else if name == Ascii("$sort") then Some(RootsOfKeys(spec.entries))
    else Some([])
  }

  /** The roots named by a stage that discards what it does not read; None for any other. */
  function EndRoots(v: Val): Option<seq<bytes>> {
    if !Stage(v) then None
    else
      var name, spec := v.entries.name, v.entries.value;
      if name == Ascii("$count") then Some([])
      else if name == Ascii("$group") then Mentions(spec)
      else if name == Ascii("$project") && spec.Doc? && IncludesSomething(spec.entries, true)
      then Both(Some([Ascii("_id")]), ProjectionRoots(false, spec.entries, true))
      else None
  }

  /** The roots a pipeline names; None where it cannot be pruned. */
  function PipelineRoots(pipeline: seq<Val>): Option<seq<bytes>>
    decreases |pipeline|
  {
    if pipeline == [] then None
    else if Passes(pipeline[0]) then Both(PassRoots(pipeline[0]), PipelineRoots(pipeline[1..]))
    else EndRoots(pipeline[0])
  }

  /** The last analysed stage reads nothing but kept fields. */
  predicate EndNeedsOnly(E: Engine, stages: seq<Val>, keep: seq<bytes>) {
    stages != [] && Stage(stages[0]) ==>
      var name, spec := stages[0].entries.name, stages[0].entries.value;
      if name == Ascii("$count") then true
      else if name == Ascii("$group") then E.refused(spec) || GroupNeedsOnly(E.expressions.sorters, spec, keep)
      else if name == Ascii("$project") && spec.Doc? then
        ViewNeedsOnly(E.expressions.sorters, E.malformed(false, spec.entries), false, spec.entries, keep)
      else true
  }

  /** The keys in its expressions are what the analysis takes them for. */
  predicate EndProper(sorters: set<bytes>, stages: seq<Val>) {
    stages != [] && Stage(stages[0]) ==>
      var name, spec := stages[0].entries.name, stages[0].entries.value;
      if name == Ascii("$group") then GroupProper(sorters, spec)
      else if name == Ascii("$project") && spec.Doc? then ComputedProper(sorters, false, spec.entries)
      else true
  }

  /**
   The fields it may look at although it does not name them as fields: those that its free
   variables are looked for under, and those a $project writes before it inserts others.
   */
  function Unnamed(sorters: set<bytes>, stages: seq<Val>): seq<bytes> {
    if stages == [] || !Stage(stages[0]) then []
    else
      var name, spec := stages[0].entries.name, stages[0].entries.value;
      if name == Ascii("$group") then GroupFree(sorters, spec)
      else if name == Ascii("$project") && spec.Doc? then ProjectionUnnamed(sorters, false, spec.entries)
      else []
  }

  function ProjectionUnnamed(sorters: set<bytes>, find: bool, p: Entries): seq<bytes> {
    ComputedFree(sorters, find, ByTree(find, Flat([], p)), p) + LayoutNames(find, p)
  }

  /** The list the analysis returns. */
  function Listed(ms: Option<seq<bytes>>): seq<bytes>
    requires ms.Some?
  {
    AddAll([], ms.value)
  }

  lemma ListedWithin(ms: Option<seq<bytes>>)
    requires ms.Some?
    ensures Within(ms, Listed(ms))
  {
    forall r | r in ms.value ensures r in Listed(ms) {
      AddAllMembers([], ms.value, r);
    }
  }

  lemma {:induction false} EndingRoots(pipeline: seq<Val>, keep: seq<bytes>)
    requires Within(PipelineRoots(pipeline), keep)
    ensures Ending(pipeline) != [] && !Passes(Ending(pipeline)[0]) && Within(EndRoots(Ending(pipeline)[0]), keep)
    decreases |pipeline|
  {
    hide Passes, PassRoots, EndRoots;
    if Passes(pipeline[0]) {
      WithinBoth(PassRoots(pipeline[0]), PipelineRoots(pipeline[1..]), keep);
      EndingRoots(pipeline[1..], keep);
    }
  }

  lemma ProperNeedsOnly(E: Engine, stages: seq<Val>, keep: seq<bytes>)
    requires stages != [] && Within(EndRoots(stages[0]), keep) && EndProper(E.expressions.sorters, stages)
    requires AllIn(Unnamed(E.expressions.sorters, stages), keep)
    ensures EndNeedsOnly(E, stages, keep)
  {
    hide Mentions, GroupNeedsOnly, GroupProper, ComputedProper, ComputedNeedOnly, ProjectionRoots, IncludesSomething,
         ModeOf, GroupFree, ComputedFree, LayoutNames, ByTree, Flat, AllIn;
    var name, spec := stages[0].entries.name, stages[0].entries.value;
    if name == Ascii("$count") {
    } else if name == Ascii("$group") {
      GroupCover(E.expressions.sorters, spec, keep);
    } else {
      WithinBoth(Some([Ascii("_id")]), ProjectionRoots(false, spec.entries, true), keep);
      ProjectionCovered(E.expressions.sorters, false, spec.entries, keep);
      ProjectNeverExcludes(spec.entries);
    }
  }

  lemma ProjectionCovered(sorters: set<bytes>, find: bool, p: Entries, keep: seq<bytes>)
    requires Within(ProjectionRoots(find, p, true), keep) && ComputedProper(sorters, find, p)
    requires AllIn(ProjectionUnnamed(sorters, find, p), keep)
    ensures ComputedNeedOnly(sorters, find, ByTree(find, Flat([], p)), p, keep) && AllIn(LayoutNames(find, p), keep)
  {
    hide ComputedProper, ComputedNeedOnly, ProjectionRoots, ComputedFree, LayoutNames, ByTree, Flat, AllIn;
    var tree := ByTree(find, Flat([], p));
    AllInBoth(ComputedFree(sorters, find, tree, p), LayoutNames(find, p), keep);
    RootsCoverComputed(sorters, find, tree, p, true, keep);
  }

  // ------------------------------------------------------------ documents cut down

  function Cut(docs: seq<Entries>, keep: seq<bytes>): (r: seq<Entries>)
    ensures |r| == |docs| && forall i :: 0 <= i < |docs| ==> r[i] == Keep(docs[i], keep)
  {
    seq(|docs|, i requires 0 <= i < |docs| => Keep(docs[i], keep))
  }

  lemma CutHead(docs: seq<Entries>, keep: seq<bytes>)
    requires docs != []
    ensures Cut(docs, keep)[0] == Keep(docs[0], keep) && Cut(docs, keep)[1..] == Cut(docs[1..], keep)
  {
  }

  lemma {:induction false} MatchingCut(T: Tests, filter: Entries, docs: seq<Entries>, n: nat, keep: seq<bytes>)
    requires Within(FilterMentions(filter), keep)
    ensures Matching(T, filter, Cut(docs, keep), n) == Cut(Matching(T, filter, docs, n), keep)
    decreases |docs|
  {
    hide Matches, FilterMentions;
    if docs != [] {
      CutHead(docs, keep);
      MatchKept(T, filter, docs[0], n, keep);
      MatchingCut(T, filter, docs[1..], n + 1, keep);
      var first := if Matches(T, filter, docs[0], n) then [docs[0]] else [];
      var more := Matching(T, filter, docs[1..], n + 1);
      assert Cut(first + more, keep) == Cut(first, keep) + Cut(more, keep);
    }
  }

  /** The fields an order compares are kept; $natural compares none. */
  predicate OrderWithin(order: Entries, keep: seq<bytes>) {
    order.Entry? ==> (order.name == Ascii("$natural") || Root(order.name) in keep) && OrderWithin(order.rest, keep)
  }

  lemma {:induction false} RootsOrderWithin(order: Entries, keep: seq<bytes>)
    requires forall r :: r in RootsOfKeys(order) ==> r in keep
    ensures OrderWithin(order, keep)
  {
    if order.Entry? {
      assert Root(order.name) in RootsOfKeys(order);
      forall r | r in RootsOfKeys(order.rest) ensures r in keep { assert r in RootsOfKeys(order); }
      RootsOrderWithin(order.rest, keep);
    }
  }

  lemma {:induction false} KeyOfKept(order: Entries, d: Entries, keep: seq<bytes>)
    requires OrderWithin(order, keep)
    ensures KeyOf(order, Keep(d, keep)) == KeyOf(order, d)
  {
    if order.Entry? {
      if order.name != Ascii("$natural") { FieldOfKeep(d, keep, Root(order.name)); }
      KeyOfKept(order.rest, d, keep);
    }
  }

  lemma {:induction false} KeysCut(order: Entries, docs: seq<Entries>, keep: seq<bytes>)
    requires OrderWithin(order, keep)
    ensures Keys(order, Cut(docs, keep)) == Keys(order, docs)
  {
    hide KeyOf, OrderWithin;
    if docs != [] {
      CutHead(docs, keep);
      KeyOfKept(order, docs[0], keep);
      KeysCut(order, docs[1..], keep);
    }
  }

  lemma {:induction false} PickCut(docs: seq<Entries>, at: seq<nat>, keep: seq<bytes>)
    ensures Pick(Cut(docs, keep), at) == Cut(Pick(docs, at), keep)
    decreases |at|
  {
    if at != [] {
      PickCut(docs, at[1..], keep);
      var first, more := if at[0] < |docs| then [docs[at[0]]] else [], Pick(docs, at[1..]);
      assert Cut(first + more, keep) == Cut(first, keep) + Cut(more, keep);
    }
  }

  lemma SortedCut(E: Engine, order: Entries, docs: seq<Entries>, keep: seq<bytes>)
    requires OrderWithin(order, keep)
    ensures Sorted(E, order, Cut(docs, keep)) == Cut(Sorted(E, order, docs), keep)
  {
    KeysCut(order, docs, keep);
    PickCut(docs, E.sort(order, Keys(order, docs)), keep);
  }

  lemma {:induction false} MeaningsCut(I: Interp, body: Val, docs: seq<Entries>, keep: seq<bytes>)
    requires GroupNeedsOnly(I.sorters, body, keep)
    ensures MeaningsOf(I, body, Cut(docs, keep)) == MeaningsOf(I, body, docs)
  {
    hide GroupMeaning, GroupNeedsOnly;
    if docs != [] {
      CutHead(docs, keep);
      GroupKept(I, body, docs[0], keep);
      MeaningsCut(I, body, docs[1..], keep);
    }
  }

  lemma {:induction false} ViewsCut(
      I: Interp, bad: bool, find: bool, p: Entries, also: seq<bytes>, docs: seq<Entries>, keep: seq<bytes>)
    requires Within(ProjectionRoots(find, p, true), keep)
    requires Ascii("_id") in keep && (forall r :: r in also ==> r in keep)
    requires ViewNeedsOnly(I.sorters, bad, find, p, keep)
    ensures Views(I, bad, find, p, also, Cut(docs, keep)) == Views(I, bad, find, p, also, docs)
  {
    hide ViewOf, ProjectionRoots, ViewNeedsOnly;
    if docs != [] {
      CutHead(docs, keep);
      ViewKept(I, bad, find, p, also, docs[0], keep);
      ViewsCut(I, bad, find, p, also, docs[1..], keep);
    }
  }

  lemma SliceCut(docs: seq<Entries>, k: nat, keep: seq<bytes>)
    requires k <= |docs|
    ensures Cut(docs, keep)[..k] == Cut(docs[..k], keep) && Cut(docs, keep)[k..] == Cut(docs[k..], keep)
  {
  }

  lemma PassCut(E: Engine, v: Val, docs: seq<Entries>, keep: seq<bytes>)
    requires Passes(v) && Within(PassRoots(v), keep)
    ensures Pass(E, v, Cut(docs, keep)) == Cut(Pass(E, v, docs), keep)
  {
    hide FilterMentions, PlainOrder, Matching, Sorted, OrderWithin, Cut;
    var name, spec := v.entries.name, v.entries.value;
    if name == Ascii("$match") {
      MatchingCut(E.tests, spec.entries, docs, 0, keep);
    } else if name == Ascii("$sort") {
      RootsOrderWithin(spec.entries, keep);
      SortedCut(E, spec.entries, docs, keep);
    } else {
      SliceCut(docs, Least(E.limit(spec), |docs|), keep);
      SliceCut(docs, Least(E.skip(spec), |docs|), keep);
    }
  }

  /** Cutting documents down before or after they pass comes to the same. */
  lemma {:induction false} ReachCut(E: Engine, pipeline: seq<Val>, docs: seq<Entries>, keep: seq<bytes>)
    requires Within(PipelineRoots(pipeline), keep)
    ensures Reach(E, pipeline, Cut(docs, keep)) == Cut(Reach(E, pipeline, docs), keep)
    decreases |pipeline|
  {
    hide Passes, PassRoots, EndRoots, Pass, Cut;
    if Passes(pipeline[0]) {
      WithinBoth(PassRoots(pipeline[0]), PipelineRoots(pipeline[1..]), keep);
      PassCut(E, pipeline[0], docs, keep);
      ReachCut(E, pipeline[1..], Pass(E, pipeline[0], docs), keep);
    }
  }

  lemma AtEndCut(E: Engine, stages: seq<Val>, docs: seq<Entries>, keep: seq<bytes>)
    requires stages != [] && Within(EndRoots(stages[0]), keep) && EndNeedsOnly(E, stages, keep)
    ensures AtEnd(E, stages, Cut(docs, keep)) == AtEnd(E, stages, docs)
  {
    hide Mentions, GroupNeedsOnly, ProjectionRoots, MeaningsOf, Views, IncludesSomething, ViewNeedsOnly;
    var name, spec := stages[0].entries.name, stages[0].entries.value;
    if name == Ascii("$count") {
    } else if name == Ascii("$group") {
      if !E.refused(spec) { MeaningsCut(E.expressions, spec, docs, keep); }
    } else {
      WithinBoth(Some([Ascii("_id")]), ProjectionRoots(false, spec.entries, true), keep);
      assert Ascii("_id") in [Ascii("_id")];
      ViewsCut(E.expressions, E.malformed(false, spec.entries), false, spec.entries, [], docs, keep);
    }
  }

  // ----------------------------------------------------------------- main results

  /** A pipeline produces the same from documents cut down to any fields that include those it names and reads. */
  lemma ProduceCut(E: Engine, pipeline: seq<Val>, docs: seq<Entries>, keep: seq<bytes>)
    requires Within(PipelineRoots(pipeline), keep) && EndNeedsOnly(E, Ending(pipeline), keep)
    ensures Produce(E, pipeline, Cut(docs, keep)) == Produce(E, pipeline, docs)
  {
    hide PipelineRoots, EndNeedsOnly, AtEnd, Reach, Ending, EndRoots, Cut;
    EndingRoots(pipeline, keep);
    ReachCut(E, pipeline, docs, keep);
    AtEndCut(E, Ending(pipeline), Reach(E, pipeline, docs), keep);
  }

  /** Documents as they are decoded for a list of fields; an empty list is taken as no list. */
  function Pruned(docs: seq<Entries>, roots: seq<bytes>): seq<Entries> {
    if roots == [] then docs else Cut(docs, roots)
  }

  /** Every field the pipeline's last analysed stage reads is in the list the analysis returns for the pipeline. */
  predicate Prunable(E: Engine, pipeline: seq<Val>) {
    PipelineRoots(pipeline).Some?
    && var keep := Listed(PipelineRoots(pipeline));
       keep == [] || EndNeedsOnly(E, Ending(pipeline), keep)
  }

  /** It is, whenever keys are what the analysis takes them for and it reads nothing but what it names. */
  lemma ProperPrunable(E: Engine, pipeline: seq<Val>)
    requires PipelineRoots(pipeline).Some? && EndProper(E.expressions.sorters, Ending(pipeline))
    requires AllIn(Unnamed(E.expressions.sorters, Ending(pipeline)), Listed(PipelineRoots(pipeline)))
    ensures Prunable(E, pipeline)
  {
    hide PipelineRoots, EndNeedsOnly, Ending, EndRoots, EndProper, Unnamed;
    ListedWithin(PipelineRoots(pipeline));
    EndingRoots(pipeline, Listed(PipelineRoots(pipeline)));
    ProperNeedsOnly(E, Ending(pipeline), Listed(PipelineRoots(pipeline)));
  }

  /** Pruning to the list the analysis returns then keeps the result. */
  lemma PruningKeepsMeaning(E: Engine, pipeline: seq<Val>, docs: seq<Entries>)
    requires Prunable(E, pipeline)
    ensures Produce(E, pipeline, Pruned(docs, Listed(PipelineRoots(pipeline)))) == Produce(E, pipeline, docs)
  {
    hide PipelineRoots, EndNeedsOnly, Produce, Cut, Ending, Listed;
    ListedWithin(PipelineRoots(pipeline));
    if Listed(PipelineRoots(pipeline)) != [] { ProduceCut(E, pipeline, docs, Listed(PipelineRoots(pipeline))); }
  }

  /** None of the documents has a field of these names. */
  predicate Lacking(docs: seq<Entries>, names: seq<bytes>) {
    forall d, r :: d in docs && r in names ==> FieldOf(d, r).None?
  }

  lemma {:induction false} KeepMore(d: Entries, keep: seq<bytes>, names: seq<bytes>)
    requires forall r :: r in names ==> FieldOf(d, r).None?
    ensures Keep(d, keep + names) == Keep(d, keep)
  {
    if d.Entry? {
      assert d.name !in names by { assert FieldOf(d, d.name).Some?; }
      forall r | r in names ensures FieldOf(d.rest, r).None? { assert FieldOf(d, r).None?; }
      KeepMore(d.rest, keep, names);
    }
  }

  lemma CutMore(docs: seq<Entries>, keep: seq<bytes>, names: seq<bytes>)
    requires Lacking(docs, names)
    ensures Cut(docs, keep + names) == Cut(docs, keep)
  {
    forall i | 0 <= i < |docs| ensures Cut(docs, keep + names)[i] == Cut(docs, keep)[i] {
      assert docs[i] in docs;
      KeepMore(docs[i], keep, names);
    }
  }

  lemma WithinMore(ms: Option<seq<bytes>>, keep: seq<bytes>, names: seq<bytes>)
    requires Within(ms, keep)
    ensures Within(ms, keep + names) && AllIn(names, keep + names)
  {
  }

  /**
   Whatever a pipeline reads that it does not name, pruning keeps the result on documents that
   have no such field: none that starts with two dollars, and none that a $project writes.
   */
  lemma PruningKeepsPlain(E: Engine, pipeline: seq<Val>, docs: seq<Entries>)
    requires PipelineRoots(pipeline).Some? && EndProper(E.expressions.sorters, Ending(pipeline))
    requires Lacking(docs, Unnamed(E.expressions.sorters, Ending(pipeline)))
    ensures Produce(E, pipeline, Pruned(docs, Listed(PipelineRoots(pipeline)))) == Produce(E, pipeline, docs)
  {
    hide PipelineRoots, EndNeedsOnly, Produce, Cut, Ending, Listed, EndRoots, EndProper, Unnamed, Lacking, Within,
         AllIn;
    var keep, names := Listed(PipelineRoots(pipeline)), Unnamed(E.expressions.sorters, Ending(pipeline));
    ListedWithin(PipelineRoots(pipeline));
    WithinMore(PipelineRoots(pipeline), keep, names);
    EndingRoots(pipeline, keep + names);
    ProperNeedsOnly(E, Ending(pipeline), keep + names);
    ProduceCut(E, pipeline, docs, keep + names);
    CutMore(docs, keep, names);
  }

  /** What a pipeline reads and does not name starts with two dollars, or is written by its $project. */
  lemma UnnamedAre(sorters: set<bytes>, stages: seq<Val>, r: bytes)
    requires r in Unnamed(sorters, stages)
    ensures Starts(r, DOLLARS)
            || (stages[0].entries.value.Doc? && r in LayoutNames(false, stages[0].entries.value.entries))
  {
    hide Starts, GroupFree, ComputedFree, LayoutNames, ByTree, Flat;
    var spec := stages[0].entries.value;
    GroupFreeDollared(sorters, spec);
    if spec.Doc? { ComputedFreeDollared(sorters, false, ByTree(false, Flat([], spec.entries)), spec.entries); }
  }

  // --------------------------------------------------------- the condition is exact

  function WithField(docs: seq<Entries>, r: bytes): (s: seq<Entries>)
    ensures |s| == |docs| && forall i :: 0 <= i < |docs| ==> s[i] == Entry(r, Null, docs[i])
  {
    seq(|docs|, i requires 0 <= i < |docs| => Entry(r, Null, docs[i]))
  }

  lemma CutWithField(docs: seq<Entries>, r: bytes, keep: seq<bytes>)
    requires r !in keep
    ensures Cut(WithField(docs, r), keep) == Cut(docs, keep)
  {
    forall i | 0 <= i < |docs| ensures Cut(WithField(docs, r), keep)[i] == Cut(docs, keep)[i] {}
  }

  lemma {:induction false} MatchingMembers(T: Tests, filter: Entries, docs: seq<Entries>, n: nat)
    ensures forall d :: d in Matching(T, filter, docs, n) ==> d in docs
    decreases |docs|
  {
    if docs != [] { MatchingMembers(T, filter, docs[1..], n + 1); }
  }

  lemma {:induction false} PickMembers(docs: seq<Entries>, at: seq<nat>)
    ensures forall d :: d in Pick(docs, at) ==> d in docs
    decreases |at|
  {
    if at != [] { PickMembers(docs, at[1..]); }
  }

  lemma PassMembers(E: Engine, v: Val, docs: seq<Entries>)
    requires Passes(v)
    ensures forall d :: d in Pass(E, v, docs) ==> d in docs
  {
    hide Matching, Pick;
    var spec := v.entries.value;
    if spec.Doc? {
      MatchingMembers(E.tests, spec.entries, docs, 0);
      PickMembers(docs, E.sort(spec.entries, Keys(spec.entries, docs)));
    }
  }

  lemma {:induction false} ReachMembers(E: Engine, pipeline: seq<Val>, docs: seq<Entries>)
    ensures forall d :: d in Reach(E, pipeline, docs) ==> d in docs
    decreases |pipeline|
  {
    hide Passes, Pass;
    if pipeline != [] && Passes(pipeline[0]) {
      PassMembers(E, pipeline[0], docs);
      ReachMembers(E, pipeline[1..], Pass(E, pipeline[0], docs));
    }
  }

  /** How documents pass does not depend on what expressions mean. */
  lemma {:induction false} ReachAnyway(E: Engine, I: Interp, pipeline: seq<Val>, docs: seq<Entries>)
    ensures Reach(E.(expressions := I), pipeline, docs) == Reach(E, pipeline, docs)
    decreases |pipeline|
  {
    hide Passes, Matching, Pick;
    if pipeline != [] && Passes(pipeline[0]) {
      ReachAnyway(E, I, pipeline[1..], Pass(E, pipeline[0], docs));
    }
  }

  /** If a document gets there, so does a document with one more field that is not kept. */
  lemma ReachWithField(E: Engine, pipeline: seq<Val>, docs: seq<Entries>, r: bytes, keep: seq<bytes>)
    requires Within(PipelineRoots(pipeline), keep) && r !in keep && Reach(E, pipeline, docs) != []
    ensures var got := Reach(E, pipeline, WithField(docs, r)); got != [] && FieldOf(got[0], r).Some?
  {
    hide PipelineRoots, Reach, Cut, WithField;
    var more := WithField(docs, r);
    CutWithField(docs, r, keep);
    ReachCut(E, pipeline, docs, keep);
    ReachCut(E, pipeline, more, keep);
    CutLength(Reach(E, pipeline, docs), keep);
    CutLength(Reach(E, pipeline, more), keep);
    ReachMembers(E, pipeline, more);
    var d := Reach(E, pipeline, more)[0];
    assert d in more;
  }

  lemma CutLength(docs: seq<Entries>, keep: seq<bytes>)
    ensures |Cut(docs, keep)| == |docs|
  {
  }

  /** A field the last analysed stage reads that is not kept. */
  function EndOutside(E: Engine, stages: seq<Val>, keep: seq<bytes>): (r: bytes)
    requires !EndNeedsOnly(E, stages, keep)
    ensures r !in keep
  {
    var name, spec := stages[0].entries.name, stages[0].entries.value;
    if name == Ascii("$group") then GroupOutside(E.expressions.sorters, spec, keep)
    else ViewOutside(E.expressions.sorters, E.malformed(false, spec.entries), false, spec.entries, keep)
  }

  lemma AtEndLost(E: Engine, stages: seq<Val>, docs: seq<Entries>, keep: seq<bytes>)
    requires !EndNeedsOnly(E, stages, keep) && docs != [] && FieldOf(docs[0], EndOutside(E, stages, keep)).Some?
    ensures var E' := E.(expressions := Probe(E.expressions.sorters, EndOutside(E, stages, keep)));
            AtEnd(E', stages, Cut(docs, keep)) != AtEnd(E', stages, docs)
  {
    hide GroupMeaning, GroupNeedsOnly, ViewOf, ViewNeedsOnly, GroupOutside, ViewOutside, Probe;
    var name, spec := stages[0].entries.name, stages[0].entries.value;
    var sorters := E.expressions.sorters;
    var I := Probe(sorters, EndOutside(E, stages, keep));
    CutHead(docs, keep);
    if name == Ascii("$group") {
      GroupLost(sorters, spec, keep, docs[0]);
      assert MeaningsOf(I, spec, docs)[0] == GroupMeaning(I, spec, docs[0]);
      assert MeaningsOf(I, spec, Cut(docs, keep))[0] == GroupMeaning(I, spec, Keep(docs[0], keep));
    } else {
      var bad, p := E.malformed(false, spec.entries), spec.entries;
      ViewLost(sorters, bad, false, p, [], docs[0], keep);
      assert Views(I, bad, false, p, [], docs)[0] == ViewOf(I, bad, false, p, [], docs[0]);
      assert Views(I, bad, false, p, [], Cut(docs, keep))[0] == ViewOf(I, bad, false, p, [], Keep(docs[0], keep));
    }
  }

  /** Otherwise, if the pipeline lets any document through, there are expressions and documents it gets wrong. */
  lemma ProduceLost(E: Engine, pipeline: seq<Val>, docs: seq<Entries>, keep: seq<bytes>)
    requires Within(PipelineRoots(pipeline), keep) && !EndNeedsOnly(E, Ending(pipeline), keep)
    requires Reach(E, pipeline, docs) != []
    ensures var r := EndOutside(E, Ending(pipeline), keep);
            var E' := E.(expressions := Probe(E.expressions.sorters, r));
            Produce(E', pipeline, Cut(WithField(docs, r), keep)) != Produce(E', pipeline, WithField(docs, r))
  {
    hide PipelineRoots, EndNeedsOnly, AtEnd, Reach, Ending, Cut, WithField, EndOutside, Probe;
    var r := EndOutside(E, Ending(pipeline), keep);
    var I := Probe(E.expressions.sorters, r);
    var more := WithField(docs, r);
    ReachWithField(E, pipeline, docs, r, keep);
    ReachAnyway(E, I, pipeline, more);
    ReachAnyway(E, I, pipeline, Cut(more, keep));
    ReachCut(E, pipeline, more, keep);
    AtEndLost(E, Ending(pipeline), Reach(E, pipeline, more), keep);
  }

  /** So pruning is right if and only if the condition holds, for every pipeline that lets some document through. */
  lemma PruningIff(E: Engine, pipeline: seq<Val>, some: seq<Entries>)
    requires PipelineRoots(pipeline).Some? && Reach(E, pipeline, some) != []
    ensures Prunable(E, pipeline)
       <==> forall I: Interp, docs ::
              I.sorters == E.expressions.sorters
              ==> Produce(E.(expressions := I), pipeline, Pruned(docs, Listed(PipelineRoots(pipeline))))
                  == Produce(E.(expressions := I), pipeline, docs)
  {
    hide PipelineRoots, Produce, Cut, Ending, Reach, WithField, Probe, EndOutside, Listed;
    var keep := Listed(PipelineRoots(pipeline));
    if Prunable(E, pipeline) {
      forall I: Interp, docs | I.sorters == E.expressions.sorters
        ensures Produce(E.(expressions := I), pipeline, Pruned(docs, keep))
                == Produce(E.(expressions := I), pipeline, docs)
      {
        PruningKeepsMeaning(E.(expressions := I), pipeline, docs);
      }
    } else {
      hide EndNeedsOnly;
      ListedWithin(PipelineRoots(pipeline));
      ProduceLost(E, pipeline, some, keep);
      ProbeSorters(E.expressions.sorters, EndOutside(E, Ending(pipeline), keep));
    }
  }

  lemma ProbeSorters(sorters: set<bytes>, r: bytes)
    ensures Probe(sorters, r).sorters == sorters
  {
  }

  // ----------------------------------------------------------------------- find

  /** minOrMax: a min or max bound is given. A limit of 0 is no limit. */
  datatype FindParams = FindParams(
    filter: Entries, sort: Option<Entries>, projection: Entries, returnKey: bool, minOrMax: bool, skip: nat, limit: nat)

  /** What each returned document is made from, or the documents themselves. */
  datatype Found = Found(views: seq<View>) | Unprojected(docs: seq<Entries>)

  function Windowed(q: FindParams, docs: seq<Entries>): seq<Entries> {
    var after := docs[Least(q.skip, |docs|)..];
    if q.limit == 0 then after else after[..Least(q.limit, |after|)]
  }

  /** Filtered, ordered and within the window. */
  function Arrive(E: Engine, q: FindParams, docs: seq<Entries>): seq<Entries> {
    var matching := Matching(E.tests, q.filter, docs, 0);
    Windowed(q, if q.sort.Some? then Sorted(E, q.sort.value, matching) else matching)
  }

  predicate Simple(q: FindParams) {
    q.projection.Entry? && !q.returnKey && !q.minOrMax && (q.sort.Some? ==> PlainOrder(q.sort.value))
  }

  /** Documents that arrive are projected; a positional projection also consults the filter's fields. */
  ghost function Find(E: Engine, q: FindParams, docs: seq<Entries>): Found {
    if !Simple(q) || FilterMentions(q.filter).None? then Unprojected(docs)
    else
      Found(Views(E.expressions, E.malformed(true, q.projection), true, q.projection, FilterMentions(q.filter).value,
                  Arrive(E, q, docs)))
  }

  function SortRoots(order: Entries): seq<bytes> {
    if order.Nil? then []
    else (if order.name == Ascii("$natural") then [] else [Root(order.name)]) + SortRoots(order.rest)
  }

  function OrderRoots(q: FindParams): seq<bytes> { if q.sort.Some? then SortRoots(q.sort.value) else [] }

  function FindRoots(q: FindParams): Option<seq<bytes>> {
    if !Simple(q) || !IncludesSomething(q.projection, true) then None
    else Both(Both(FilterMentions(q.filter), Some([Ascii("_id")] + OrderRoots(q))),
              ProjectionRoots(true, q.projection, true))
  }

  lemma {:induction false} SortRootsWithin(order: Entries, keep: seq<bytes>)
    requires forall r :: r in SortRoots(order) ==> r in keep
    ensures OrderWithin(order, keep)
  {
    if order.Entry? {
      if order.name != Ascii("$natural") { assert Root(order.name) in SortRoots(order); }
      forall r | r in SortRoots(order.rest) ensures r in keep { assert r in SortRoots(order); }
      SortRootsWithin(order.rest, keep);
    }
  }

  lemma WindowedCut(q: FindParams, docs: seq<Entries>, keep: seq<bytes>)
    ensures Windowed(q, Cut(docs, keep)) == Cut(Windowed(q, docs), keep)
  {
    hide Cut;
    var k := Least(q.skip, |docs|);
    SliceCut(docs, k, keep);
    SliceCut(docs[k..], Least(q.limit, |docs[k..]|), keep);
  }

  /** What the analysis of a find lists. */
  lemma FindParts(q: FindParams, keep: seq<bytes>)
    requires Within(FindRoots(q), keep)
    ensures Simple(q) && Within(FilterMentions(q.filter), keep)
            && Within(ProjectionRoots(true, q.projection, true), keep)
    ensures Ascii("_id") in keep && (q.sort.Some? ==> OrderWithin(q.sort.value, keep))
  {
    hide FilterMentions, ProjectionRoots, PlainOrder, OrderWithin, IncludesSomething;
    var own := [Ascii("_id")] + OrderRoots(q);
    WithinBoth(Both(FilterMentions(q.filter), Some(own)), ProjectionRoots(true, q.projection, true), keep);
    WithinBoth(FilterMentions(q.filter), Some(own), keep);
    assert Ascii("_id") in own;
    if q.sort.Some? {
      forall r | r in SortRoots(q.sort.value) ensures r in keep { assert r in own; }
      SortRootsWithin(q.sort.value, keep);
    }
  }

  lemma ArriveCut(E: Engine, q: FindParams, docs: seq<Entries>, keep: seq<bytes>)
    requires Within(FindRoots(q), keep)
    ensures Arrive(E, q, Cut(docs, keep)) == Cut(Arrive(E, q, docs), keep)
  {
    hide FindRoots, FilterMentions, Matching, Sorted, OrderWithin, Cut, Windowed;
    FindParts(q, keep);
    MatchingCut(E.tests, q.filter, docs, 0, keep);
    var matching := Matching(E.tests, q.filter, docs, 0);
    if q.sort.Some? { SortedCut(E, q.sort.value, matching, keep); }
    WindowedCut(q, if q.sort.Some? then Sorted(E, q.sort.value, matching) else matching, keep);
  }

  /** Everything a find makes its results from is in the list the analysis returns for it. */
  predicate FindPrunable(E: Engine, q: FindParams) {
    FindRoots(q).Some?
    && ViewNeedsOnly(E.expressions.sorters, E.malformed(true, q.projection), true, q.projection, Listed(FindRoots(q)))
  }

  /** It is, under the same conditions, when the projection does more than slice. */
  lemma ProperFindPrunable(E: Engine, q: FindParams)
    requires FindRoots(q).Some? && ComputedProper(E.expressions.sorters, true, q.projection)
             && !OnlySlices(q.projection)
    requires AllIn(ProjectionUnnamed(E.expressions.sorters, true, q.projection), Listed(FindRoots(q)))
    ensures FindPrunable(E, q)
  {
    hide FindRoots, ComputedProper, OnlySlices, Listed, ProjectionUnnamed, AllIn, ViewNeedsOnly;
    ListedWithin(FindRoots(q));
    FindCovered(E, q, Listed(FindRoots(q)));
  }

  /** And pruning a find keeps its results on documents that have no field it reads and does not name. */
  lemma FindPruningKeepsPlain(E: Engine, q: FindParams, docs: seq<Entries>)
    requires FindRoots(q).Some? && ComputedProper(E.expressions.sorters, true, q.projection)
             && !OnlySlices(q.projection)
    requires Lacking(docs, ProjectionUnnamed(E.expressions.sorters, true, q.projection))
    ensures Find(E, q, Cut(docs, Listed(FindRoots(q)))) == Find(E, q, docs)
  {
    hide FindRoots, Find, Cut, Listed, ComputedProper, ProjectionUnnamed, Lacking, Within, AllIn, ViewNeedsOnly,
         OnlySlices;
    var keep, names := Listed(FindRoots(q)), ProjectionUnnamed(E.expressions.sorters, true, q.projection);
    ListedWithin(FindRoots(q));
    WithinMore(FindRoots(q), keep, names);
    FindCovered(E, q, keep + names);
    FindCut(E, q, docs, keep + names);
    CutMore(docs, keep, names);
  }

  lemma FindCovered(E: Engine, q: FindParams, keep: seq<bytes>)
    requires Within(FindRoots(q), keep) && ComputedProper(E.expressions.sorters, true, q.projection)
             && !OnlySlices(q.projection)
    requires AllIn(ProjectionUnnamed(E.expressions.sorters, true, q.projection), keep)
    ensures ViewNeedsOnly(E.expressions.sorters, E.malformed(true, q.projection), true, q.projection, keep)
  {
    hide FilterMentions, ComputedProper, ComputedNeedOnly, ProjectionRoots, PlainOrder, ModeOf, OnlySlices, ByTree,
         Flat, LayoutNames, ProjectionUnnamed, AllIn;
    FindParts(q, keep);
    ProjectionCovered(E.expressions.sorters, true, q.projection, keep);
    FindModeIff(q.projection);
  }

  lemma FindCut(E: Engine, q: FindParams, docs: seq<Entries>, keep: seq<bytes>)
    requires Within(FindRoots(q), keep)
    requires ViewNeedsOnly(E.expressions.sorters, E.malformed(true, q.projection), true, q.projection, keep)
    ensures Find(E, q, Cut(docs, keep)) == Find(E, q, docs)
  {
    hide FindRoots, FilterMentions, ProjectionRoots, Views, Arrive, Cut, ViewNeedsOnly;
    FindParts(q, keep);
    ArriveCut(E, q, docs, keep);
    ViewsCut(E.expressions, E.malformed(true, q.projection), true, q.projection, FilterMentions(q.filter).value,
             Arrive(E, q, docs), keep);
  }

  /** A find then makes its results from the same fields and values on documents cut down to that list. */
  lemma FindPruningKeepsMeaning(E: Engine, q: FindParams, docs: seq<Entries>)
    requires FindPrunable(E, q)
    ensures Find(E, q, Cut(docs, Listed(FindRoots(q)))) == Find(E, q, docs)
  {
    hide FindRoots, Find, Cut, ViewNeedsOnly, Listed;
    ListedWithin(FindRoots(q));
    FindCut(E, q, docs, Listed(FindRoots(q)));
  }

  lemma ArriveMembers(E: Engine, q: FindParams, docs: seq<Entries>)
    ensures forall d :: d in Arrive(E, q, docs) ==> d in docs
  {
    hide Matching, Pick, Windowed;
    MatchingMembers(E.tests, q.filter, docs, 0);
    var matching := Matching(E.tests, q.filter, docs, 0);
    var ordered := if q.sort.Some? then Sorted(E, q.sort.value, matching) else matching;
    if q.sort.Some? { PickMembers(matching, E.sort(q.sort.value, Keys(q.sort.value, matching))); }
    WindowMembers(q, ordered);
    forall d | d in Arrive(E, q, docs) ensures d in docs {
      assert d in ordered;
      assert d in matching;
    }
  }

  lemma WindowMembers(q: FindParams, docs: seq<Entries>)
    ensures forall d :: d in Windowed(q, docs) ==> d in docs
  {
    var k := Least(q.skip, |docs|);
    assert forall d :: d in docs[k..] ==> d in docs;
  }

  lemma ArriveWithField(E: Engine, q: FindParams, docs: seq<Entries>, r: bytes, keep: seq<bytes>)
    requires Within(FindRoots(q), keep) && r !in keep && Arrive(E, q, docs) != []
    ensures var got := Arrive(E, q, WithField(docs, r)); got != [] && FieldOf(got[0], r).Some?
  {
    hide FindRoots, Arrive, Cut, WithField;
    var more := WithField(docs, r);
    CutWithField(docs, r, keep);
    ArriveCut(E, q, docs, keep);
    ArriveCut(E, q, more, keep);
    CutLength(Arrive(E, q, docs), keep);
    CutLength(Arrive(E, q, more), keep);
    ArriveMembers(E, q, more);
    assert Arrive(E, q, more)[0] in more;
  }

  /** Otherwise, if the find lets any document through, there are expressions and documents it gets wrong. */
  lemma FindLost(E: Engine, q: FindParams, docs: seq<Entries>)
    requires FindRoots(q).Some? && !FindPrunable(E, q) && Arrive(E, q, docs) != []
    ensures var keep := Listed(FindRoots(q));
            var r := ViewOutside(E.expressions.sorters, E.malformed(true, q.projection), true, q.projection, keep);
            var E' := E.(expressions := Probe(E.expressions.sorters, r));
            Find(E', q, Cut(WithField(docs, r), keep)) != Find(E', q, WithField(docs, r))
  {
    hide FilterMentions, ProjectionRoots, Cut, ViewNeedsOnly, Listed, WithField, ViewOutside, Probe, ViewOf, Matching,
         Pick, Keys, Windowed;
    var keep := Listed(FindRoots(q));
    var bad, p, also := E.malformed(true, q.projection), q.projection, FilterMentions(q.filter).value;
    var r := ViewOutside(E.expressions.sorters, bad, true, p, keep);
    var I := Probe(E.expressions.sorters, r);
    var more := WithField(docs, r);
    ListedWithin(FindRoots(q));
    ArriveWithField(E, q, docs, r, keep);
    ArriveCut(E, q, more, keep);
    var got := Arrive(E, q, more);
    CutHead(got, keep);
    ViewLost(E.expressions.sorters, bad, true, p, also, got[0], keep);
    assert Views(I, bad, true, p, also, got)[0] == ViewOf(I, bad, true, p, also, got[0]);
    assert Views(I, bad, true, p, also, Cut(got, keep))[0] == ViewOf(I, bad, true, p, also, Keep(got[0], keep));
    assert Arrive(E.(expressions := I), q, more) == got;
    assert Arrive(E.(expressions := I), q, Cut(more, keep)) == Cut(got, keep);
  }

  /** So pruning a find is right if and only if the condition holds, for every find that lets some document through. */
  lemma FindPruningIff(E: Engine, q: FindParams, some: seq<Entries>)
    requires FindRoots(q).Some? && Arrive(E, q, some) != []
    ensures FindPrunable(E, q)
       <==> forall I: Interp, docs ::
              I.sorters == E.expressions.sorters
              ==> Find(E.(expressions := I), q, Cut(docs, Listed(FindRoots(q)))) == Find(E.(expressions := I), q, docs)
  {
    hide FindRoots, Find, Cut, Arrive, WithField, Probe, ViewOutside, ViewNeedsOnly, Listed;
    if FindPrunable(E, q) {
      forall I: Interp, docs | I.sorters == E.expressions.sorters
        ensures Find(E.(expressions := I), q, Cut(docs, Listed(FindRoots(q)))) == Find(E.(expressions := I), q, docs)
      {
        FindPruningKeepsMeaning(E.(expressions := I), q, docs);
      }
    } else {
      FindLost(E, q, some);
      var keep := Listed(FindRoots(q));
      ProbeSorters(E.expressions.sorters,
                   ViewOutside(E.expressions.sorters, E.malformed(true, q.projection), true, q.projection, keep));
    }
  }

  // ----------------------------------------------------------- the analysis itself

  lemma {:induction false} AddAllTwice(roots: seq<bytes>, acc: seq<bytes>, more: seq<bytes>)
    ensures AddAll(roots, AddAll(acc, more)) == AddAll(AddAll(roots, acc), more)
    decreases |more|
  {
    if more != [] {
      AddAllTwice(roots, AddRoot(acc, more[0]), more[1..]);
      if more[0] in acc {
        AddAllMembers(roots, acc, more[0]);
      } else {
        AddAllConcat(roots, acc, [more[0]]);
        AddOne(AddAll(roots, acc), more[0]);
      }
    }
  }

  /** Adds a list that was itself built without repeats. */
  method AppendRoots(fields: seq<bytes>, roots: seq<bytes>) returns (out: seq<bytes>)
    ensures out == AddAll(roots, fields)
  {
    out := roots;
    for i := 0 to |fields|
      invariant AddAll(out, fields[i..]) == AddAll(roots, fields)
    {
      assert fields[i..][1..] == fields[i + 1..];
      out := AddRoot(out, fields[i]);
    }
  }

  method AppendOrder(order: Entries, natural: bool, roots: seq<bytes>) returns (ok: bool, out: seq<bytes>)
    ensures ok <==> PlainOrder(order)
    ensures ok ==> out == AddAll(roots, if natural then SortRoots(order) else RootsOfKeys(order))
  {
    out := roots;
    var left := order;
    while left.Entry?
      invariant PlainOrder(order) <==> PlainOrder(left)
      invariant AddAll(roots, SortRoots(order)) == AddAll(out, SortRoots(left)) || !natural
      invariant AddAll(roots, RootsOfKeys(order)) == AddAll(out, RootsOfKeys(left)) || natural
      decreases left
    {
      if left.value.Doc? { return false, out; }
      var root := Root(left.name);
      AddAllConcat(out, [root], if natural then SortRoots(left.rest) else RootsOfKeys(left.rest));
      AddOne(out, root);
      assert [] + SortRoots(left.rest) == SortRoots(left.rest);
      if !natural || left.name != Ascii("$natural") {
        out := AddRoot(out, root);
      }
      left := left.rest;
    }
    return true, out;
  }

  /** pipelineRootFields: stage by stage, up to the one that discards what it does not read. */
  method PipelineRootFields(pipeline: seq<Val>) returns (ok: bool, roots: seq<bytes>)
    ensures ok <==> PipelineRoots(pipeline).Some?
    ensures ok ==> roots == AddAll([], PipelineRoots(pipeline).value) && Distinct(roots)
  {
    hide Mentions, FilterMentions, ProjectionRoots, PlainOrder, IncludesSomething, PipelineRoots;
    roots := [];
    var i := 0;
    while i < |pipeline|
      invariant 0 <= i <= |pipeline| && Distinct(roots)
      invariant PipelineRoots(pipeline).Some? <==> PipelineRoots(pipeline[i..]).Some?
      invariant PipelineRoots(pipeline[i..]).Some?
                ==> AddAll(roots, PipelineRoots(pipeline[i..]).value) == AddAll([], PipelineRoots(pipeline).value)
    {
      var stage := pipeline[i];
      PipelineUnfold(pipeline, i);
      if !Stage(stage) { return false, []; }
      var name, spec := stage.entries.name, stage.entries.value;
      if name == Ascii("$match") {
        if !spec.Doc? { return false, []; }
        var fine, fields := FilterRootFields(spec.entries);
        if !fine { return false, []; }
        ghost var before := roots;
        roots := AppendRoots(fields, roots);
        AddAllTwice(before, [], FilterMentions(spec.entries).value);
        AddAllDistinct(before, fields);
        BothAdds(before, FilterMentions(spec.entries), PipelineRoots(pipeline[i + 1..]));
      } else if name == Ascii("$sort") {
        if !spec.Doc? { return false, []; }
        ghost var before := roots;
        var fine, more := AppendOrder(spec.entries, false, roots);
        if !fine { return false, []; }
        roots := more;
        AddAllDistinct(before, RootsOfKeys(spec.entries));
        BothAdds(before, Some(RootsOfKeys(spec.entries)), PipelineRoots(pipeline[i + 1..]));
      } else if name == Ascii("$limit") || name == Ascii("$skip") {
      } else if name == Ascii("$count") {
        return true, roots;
      } else if name == Ascii("$group") {
        var fine, more := AppendExprRootFields(spec, roots);
        if !fine { return false, []; }
        AddAllDistinct(roots, Mentions(spec).value);
        return true, more;
      } else if name == Ascii("$project") {
        if !spec.Doc? { return false, []; }
        AddOne(roots, Ascii("_id"));
        BothAdds(roots, Some([Ascii("_id")]), ProjectionRoots(false, spec.entries, true));
        var included, fine, more := AppendProjectionRootFields(false, spec.entries, AddRoot(roots, Ascii("_id")), true);
        if !fine || !included { return false, []; }
        AddAllDistinct(roots, Both(Some([Ascii("_id")]), ProjectionRoots(false, spec.entries, true)).value);
        return true, more;
      } else {
        return false, [];
      }
      i := i + 1;
    }
    PipelineEnd();
    assert pipeline[i..] == [];
    return false, [];
  }

  lemma StageNames()
    ensures Ascii("$group") != Ascii("$match") && Ascii("$group") != Ascii("$sort")
            && Ascii("$group") != Ascii("$limit")
    ensures Ascii("$group") != Ascii("$skip") && Ascii("$group") != Ascii("$count")
    ensures Ascii("$project") != Ascii("$match") && Ascii("$project") != Ascii("$sort")
            && Ascii("$project") != Ascii("$limit")
    ensures Ascii("$project") != Ascii("$skip") && Ascii("$project") != Ascii("$count")
            && Ascii("$project") != Ascii("$group")
    ensures Ascii("$count") != Ascii("$match") && Ascii("$count") != Ascii("$sort")
            && Ascii("$count") != Ascii("$limit")
    ensures Ascii("$count") != Ascii("$skip")
  {
    assert Ascii("$group")[1] == 103 && Ascii("$project")[1] == 112;
    assert Ascii("$match")[1] == 109 && Ascii("$sort")[1] == 115 && Ascii("$limit")[1] == 108;
    assert Ascii("$skip")[1] == 115 && Ascii("$count")[1] == 99;
  }

  lemma PipelineEnd()
    ensures PipelineRoots([]).None?
  {
  }

  lemma EmptyFirst(ms: Option<seq<bytes>>)
    ensures Both(Some([]), ms) == ms
  {
    if ms.Some? { assert [] + ms.value == ms.value; }
  }

  lemma PipelineUnfold(pipeline: seq<Val>, i: nat)
    requires i < |pipeline|
    ensures PipelineRoots(pipeline[i..])
         == if !Stage(pipeline[i]) then None
            else
              var name, spec, rest := pipeline[i].entries.name, pipeline[i].entries.value,
                                      PipelineRoots(pipeline[i + 1..]);
              if name == Ascii("$match") then if spec.Doc? then Both(FilterMentions(spec.entries), rest) else None
              else if name == Ascii("$sort") then
                if spec.Doc? && PlainOrder(spec.entries) then Both(Some(RootsOfKeys(spec.entries)), rest) else None
              else if name == Ascii("$limit") || name == Ascii("$skip") then rest
              else if name == Ascii("$count") then Some([])
              else if name == Ascii("$group") then Mentions(spec)
              else if name == Ascii("$project") && spec.Doc? && IncludesSomething(spec.entries, true)
              then Both(Some([Ascii("_id")]), ProjectionRoots(false, spec.entries, true))
              else None
  {
    hide Mentions, FilterMentions, ProjectionRoots, PlainOrder, IncludesSomething;
    StageNames();
    EmptyFirst(PipelineRoots(pipeline[i + 1..]));
    assert pipeline[i..][0] == pipeline[i] && pipeline[i..][1..] == pipeline[i + 1..];
  }

  /** findRootFields: filter, _id, order, projection. */
  method FindRootFields(q: FindParams) returns (ok: bool, roots: seq<bytes>)
    ensures ok <==> FindRoots(q).Some?
    ensures ok ==> roots == AddAll([], FindRoots(q).value) && Distinct(roots)
  {
    hide Mentions, FilterMentions, ProjectionRoots, PlainOrder, IncludesSomething;
    if q.projection.Nil? || q.returnKey || q.minOrMax { return false, []; }
    var fine, fields := FilterRootFields(q.filter);
    if !fine { return false, []; }
    roots := AddRoot(fields, Ascii("_id"));
    ghost var sorts := OrderRoots(q);
    AddOne(fields, Ascii("_id"));
    AddAllConcat(fields, [Ascii("_id")], sorts);
    if q.sort.Some? {
      var plain, more := AppendOrder(q.sort.value, true, roots);
      if !plain { return false, []; }
      roots := more;
    }
    assert roots == AddAll(fields, [Ascii("_id")] + sorts);
    BothAdds([], FilterMentions(q.filter), Some([Ascii("_id")] + sorts));
    ghost var early := Both(FilterMentions(q.filter), Some([Ascii("_id")] + sorts));
    BothAdds([], early, ProjectionRoots(true, q.projection, true));
    var included, projects, all := AppendProjectionRootFields(true, q.projection, roots, true);
    if !projects || !included { return false, []; }
    AddAllDistinct([], FindRoots(q).value);
    return true, all;
  }
}
