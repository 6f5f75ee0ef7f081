/**
 Pipelines and finds that the analysis accepts and that pruning gets wrong: each breaks a
 different part of the condition under which pruning is right.
 */
module PruningLosses {
  import opened Bytes
  import opened RawCodec
  import opened Expressions
  import opened FieldRoots
  import opened Filters
  import opened Projections
  import opened Pipelines

  function StageOf(name: string, spec: Val): Val { Doc(Entry(Ascii(name), spec, Nil)) }

  /** {y: v} for an expression v. */
  function Single(v: Val): Entries { Entry([121], v, Nil) }

  lemma SingleRoots(find: bool, v: Val, ms: seq<bytes>)
    requires IsExpression(find, v) && Mentions(v) == Some(ms) && (v.Doc? ==> v.entries.Entry? && !Meta(v.entries))
    ensures ProjectionRoots(find, Single(v), true) == Some(ms) && IncludesSomething(Single(v), true)
    ensures ModeOf(find, Single(v)) == Inclusion && !ByTree(find, Flat([], Single(v)))
  {
    hide Mentions;
    assert 46 !in [121];
    assert [] + ms == ms && ms + [] == ms;
    assert EntryRoots(find, [121], v, true) == Both(Some([]), Mentions(v));
    assert ProjectionRoots(find, Nil, true) == Some([]);
    assert [] + [121] == [121];
    assert Flat([], Single(v)) == [([121], v)] + Flat([], Nil);
    assert Flat([], Single(v)) == [([121], v)];
    if v.Doc? { NotSliced(find, v); }
    SingleMode(find, ([121], v));
  }

  lemma NotSliced(find: bool, v: Val)
    requires v.Doc? && !Slices(find, v.entries)
    ensures !Sliced(find, v)
  {
  }

  /** A projection of one expression that reads something it does not list. */
  lemma SingleLost(E: Engine, v: Val, ms: seq<bytes>)
    requires IsExpression(false, v) && Mentions(v) == Some(ms) && !v.Str?
    requires v.Doc? ==> v.entries.Entry? && !Meta(v.entries)
    requires !NeedsOnly(E.expressions.sorters, {}, v, Listed(Both(Some([Ascii("_id")]), Some(ms))))
    requires !E.malformed(false, Single(v))
    ensures var pipeline := [StageOf("$project", Doc(Single(v)))];
            PipelineRoots(pipeline) == Both(Some([Ascii("_id")]), Some(ms)) && !Prunable(E, pipeline)
  {
    hide Mentions, NeedsOnly, ModeOf, ProjectionRoots, IncludesSomething, Listed, AddAll, ByTree, Flat, LayoutNames;
    StageNames();
    SingleRoots(false, v, ms);
    var ss := Both(Some([Ascii("_id")]), Some(ms));
    assert PipelineRoots([StageOf("$project", Doc(Single(v)))]) == ss;
    SomeListed(ms);
    var tree := ByTree(false, Flat([], Single(v)));
    assert !ComputedNeedOnly(E.expressions.sorters, false, tree, Single(v), Listed(ss));
  }

  lemma SomeListed(ms: seq<bytes>)
    ensures Listed(Both(Some([Ascii("_id")]), Some(ms))) != []
  {
    AddAllMembers([], [Ascii("_id")] + ms, Ascii("_id"));
  }

  /** A $group body that reads something it does not list. */
  lemma GroupBodyLost(E: Engine, body: Val, ms: seq<bytes>)
    requires Mentions(body) == Some(ms) && ms != [] && !E.refused(body)
    requires !GroupNeedsOnly(E.expressions.sorters, body, Listed(Some(ms)))
    ensures PipelineRoots([StageOf("$group", body)]) == Some(ms) && !Prunable(E, [StageOf("$group", body)])
  {
    hide Mentions, GroupNeedsOnly, AddAll;
    StageNames();
    AddAllMembers([], ms, ms[0]);
  }

  lemma ItemsOfOne(e: Val, ms: seq<bytes>)
    requires Mentions(e) == Some(ms)
    ensures Mentions(Arr(Entry([], e, Nil))) == Some(ms)
  {
    assert ItemMentions(Nil) == Some([]);
    assert ms + [] == ms;
  }

  lemma ItemNeedsX(sorters: set<bytes>, keep: seq<bytes>)
    requires !NeedsOnly(sorters, {}, Misnamed(), keep)
    ensures !NeedsOnly(sorters, {}, Arr(Entry([], Misnamed(), Nil)), keep)
  {
    assert !ItemsNeedOnly(sorters, {}, Entry([], Misnamed(), Nil), keep);
  }

  lemma XIsNotListed()
    ensures [120] !in Listed(Some([Root(Ascii("$sum"))]))
    ensures [120] !in Listed(Both(Some([Ascii("_id")]), Some([Root(Ascii("$sum"))])))
  {
    RootOfX();
    AddAllMembers([], [Root(Ascii("$sum"))], [120]);
    AddAllMembers([], [Ascii("_id")] + [Root(Ascii("$sum"))], [120]);
    assert |Ascii("_id")| == 3;
  }

  /**
   A $group with an output field called sortBy, and a $project with such a literal, are
   accepted and pruned wrongly.
   */
  lemma PruningLosesSortBy(E: Engine)
    requires !E.refused(Misnamed()) && !E.malformed(false, Single(Arr(Entry([], Misnamed(), Nil))))
    ensures var g := [StageOf("$group", Misnamed())]; PipelineRoots(g).Some? && !Prunable(E, g)
    ensures var p := [StageOf("$project", Doc(Single(Arr(Entry([], Misnamed(), Nil)))))];
            PipelineRoots(p).Some? && !Prunable(E, p)
  {
    hide Mentions, GroupNeedsOnly, NeedsOnly, Listed, Prunable, PipelineRoots, Misnamed;
    var sorters, one := E.expressions.sorters, [Root(Ascii("$sum"))];
    XIsNotListed();
    MisnamedMentions();
    MisnamedNeedsX(sorters, Listed(Some(one)));
    GroupBodyLost(E, Misnamed(), one);
    ItemsOfOne(Misnamed(), one);
    MisnamedNeedsX(sorters, Listed(Both(Some([Ascii("_id")]), Some(one))));
    ItemNeedsX(sorters, Listed(Both(Some([Ascii("_id")]), Some(one))));
    SingleLost(E, Arr(Entry([], Misnamed(), Nil)), one);
  }

  /** {$add: ["$$x", 1]}, with x bound by nothing. */
  function FreeVariable(): Val {
    Doc(Entry(Ascii("$add"), Arr(Entry([], Str([36, 36, 120]), Entry([], Int32(1), Nil))), Nil))
  }

  lemma AddIsPlain()
    ensures !ReadsAll(Ascii("$add")) && !Literal(Ascii("$add")) && !SortBy(Ascii("$add"))
    ensures Starts(Ascii("$add"), DOLLAR) && Ascii("$add") != Ascii("$meta")
  {
    assert |Ascii("$add")| == 4 && |Ascii("$literal")| == 8 && |Ascii("sortBy")| == 6 && |Ascii("$meta")| == 5;
    assert |Ascii("$function")| == 9 && |Ascii("$accumulator")| == 12 && |Ascii("$getField")| == 9;
    assert |Ascii("$setField")| == 9 && |Ascii("$unsetField")| == 11;
    assert Ascii("$add")[..1] == DOLLAR;
  }

  lemma FreeVariableMentions()
    ensures Mentions(FreeVariable()) == Some([])
  {
    AddIsPlain();
    VariableX();
    hide Ascii, ReadsAll, Literal, SortBy, WholeVariable;
    var one := Entry([], Int32(1), Nil);
    var both := Entry([], Str([36, 36, 120]), one);
    NothingTwice();
    assert ItemMentions(Nil) == Some([]) && ItemMentions(one) == Some([]);
    assert Mentions(Str([36, 36, 120])) == Some([]);
    assert ItemMentions(both) == Both(Some([]), ItemMentions(one));
    assert Mentions(Arr(both)) == ItemMentions(both);
    assert DocMentions(Nil) == Some([]);
    assert EntryMentions(Ascii("$add"), Arr(both)) == Some([]);
    assert DocMentions(Entry(Ascii("$add"), Arr(both), Nil)) == Both(Some([]), Some([]));
  }

  lemma NothingTwice()
    ensures Both(Some([]), Some([])) == Some([])
  {
    var none: seq<bytes> := [];
    assert none + none == none;
  }

  lemma NotListed(ms: seq<bytes>, r: bytes)
    requires r !in ms
    ensures r !in Listed(Some(ms))
  {
    AddAllMembers([], ms, r);
  }

  lemma VariableX()
    ensures var s := [36, 36, 120];
            Starts(s, DOLLARS) && !WholeVariable(s) && VariableReads({}, s) == [Marker([120]), Slot([120])]
  {
    var s := [36, 36, 120];
    assert s[..2] == DOLLARS && s[2..] == [120] && [120][1..] == [];
    assert FirstDot([120]) == 1 + FirstDot([]);
    assert Root(s[2..]) == [120];
    assert |Ascii("ROOT")| == 4 && |Ascii("CURRENT")| == 7 && |Ascii("NOW")| == 3 && |Ascii("REMOVE")| == 6;
    assert |Ascii("PRUNE")| == 5 && |Ascii("KEEP")| == 4 && |Ascii("DESCEND")| == 7;
  }

  lemma FreeVariableReads(sorters: set<bytes>, keep: seq<bytes>)
    requires Slot([120]) !in keep
    ensures !NeedsOnly(sorters, {}, FreeVariable(), keep)
  {
    AddIsPlain();
    VariableX();
    hide Ascii, ReadsAll, Literal, VariableReads, WholeVariable;
    var both := Entry([], Str([36, 36, 120]), Entry([], Int32(1), Nil));
    var es := Entry(Ascii("$add"), Arr(both), Nil);
    assert Slot([120]) in [Marker([120]), Slot([120])];
    assert !NeedsOnly(sorters, {}, Str([36, 36, 120]), keep);
    assert !ItemsNeedOnly(sorters, {}, both, keep);
    assert UseOf(sorters, Operators({}), Ascii("$add"), Arr(both)) == Evaluated({});
    assert !MembersNeedOnly(sorters, Operators({}), es, keep);
  }

  lemma OnlyIdListed(r: bytes)
    requires r != Ascii("_id")
    ensures r !in Listed(Both(Some([Ascii("_id")]), Some([])))
  {
    AddAllMembers([], [Ascii("_id")] + [], r);
  }

  lemma SlotIsNotId()
    ensures Slot([120]) != Ascii("_id")
  {
    assert Slot([120])[0] == 36 && Ascii("_id")[0] == 95;
  }

  /** A variable that no operator binds is read from the stored field of its name, which is not listed. */
  lemma PruningLosesVariable(E: Engine)
    requires !E.malformed(false, Single(FreeVariable()))
    ensures var p := [StageOf("$project", Doc(Single(FreeVariable())))];
            PipelineRoots(p) == Some([Ascii("_id")]) && !Prunable(E, p)
  {
    hide Mentions, NeedsOnly, Listed, Prunable, PipelineRoots;
    FreeVariableMentions();
    SlotIsNotId();
    OnlyIdListed(Slot([120]));
    FreeVariableReads(E.expressions.sorters, Listed(Both(Some([Ascii("_id")]), Some([]))));
    AddIsPlain();
    SingleLost(E, FreeVariable(), []);
    assert [Ascii("_id")] + [] == [Ascii("_id")];
  }

  // ---------------------------------------------------- names taken for the operator

  /** {_id: "$a", "$literal": {$sum: "$x"}} as the body of a $group. */
  function LiteralField(): Val {
    Doc(Entry(Ascii("_id"), Str([36, 97]),
              Entry(Ascii("$literal"), Doc(Entry(Ascii("$sum"), Str([36, 120]), Nil)), Nil)))
  }

  /** {$let: {vars: {"$literal": "$x"}, in: "$$$literal"}}. */
  function LiteralVariable(): Val {
    Doc(Entry(Ascii("$let"),
              Doc(Entry(Ascii("vars"), Doc(Entry(Ascii("$literal"), Str([36, 120]), Nil)),
                        Entry(Ascii("in"), Str(Ascii("$$$literal")), Nil))), Nil))
  }

  lemma LiteralNames()
    ensures Literal(Ascii("$literal")) && !ReadsAll(Ascii("$literal")) && Ascii("$literal") != Ascii("_id")
    ensures Root([36, 97][1..]) == [97] && Starts([36, 97], DOLLAR) && !Starts([36, 97], DOLLARS)
  {
    assert |Ascii("$literal")| == 8 && |Ascii("_id")| == 3;
    assert |Ascii("$function")| == 9 && |Ascii("$accumulator")| == 12 && |Ascii("$getField")| == 9;
    assert |Ascii("$setField")| == 9 && |Ascii("$unsetField")| == 11;
    var a := [36, 97][1..];
    assert a == [97] && a[1..] == [];
    assert FirstDot(a) == 1 + FirstDot([]);
    assert [36, 97][..1] == DOLLAR && [36, 97][..2] != DOLLARS;
  }

  lemma LiteralFieldMentions()
    ensures Mentions(LiteralField()) == Some([[97]])
  {
    LiteralNames();
    PlainKey(Ascii("_id"));
    assert !SortBy(Ascii("_id")) by { assert |Ascii("_id")| == 3; }
    hide Ascii, ReadsAll, Literal, SortBy, Root;
    var tail := Entry(Ascii("$literal"), Doc(Entry(Ascii("$sum"), Str([36, 120]), Nil)), Nil);
    NothingTwice();
    assert DocMentions(Nil) == Some([]);
    assert DocMentions(tail) == Both(Some([]), Some([]));
    assert EntryMentions(Ascii("_id"), Str([36, 97])) == Mentions(Str([36, 97])) == Some([[97]]);
    assert [[97]] + [] == [[97]];
    assert DocMentions(Entry(Ascii("_id"), Str([36, 97]), tail)) == Both(Some([[97]]), Some([]));
    assert Mentions(LiteralField()) == DocMentions(Entry(Ascii("_id"), Str([36, 97]), tail));
  }

  lemma LiteralFieldReadsX(sorters: set<bytes>, keep: seq<bytes>)
    requires [120] !in keep
    ensures !GroupNeedsOnly(sorters, LiteralField(), keep)
  {
    LiteralNames();
    SumReadsX(sorters, keep);
    hide Ascii, NeedsOnly;
    var tail := Entry(Ascii("$literal"), Doc(Entry(Ascii("$sum"), Str([36, 120]), Nil)), Nil);
    assert !MembersNeedOnly(sorters, GroupBody, tail, keep);
  }

  lemma LiteralVariableMentions()
    ensures Mentions(LiteralVariable()) == Some([])
  {
    LiteralNames();
    LetNames();
    hide Ascii, ReadsAll, Literal, SortBy, WholeVariable, Starts;
    var bound := Entry(Ascii("$literal"), Str([36, 120]), Nil);
    var tail := Entry(Ascii("in"), Str(Ascii("$$$literal")), Nil);
    var args := Entry(Ascii("vars"), Doc(bound), tail);
    NothingTwice();
    assert DocMentions(Nil) == Some([]);
    assert DocMentions(bound) == Some([]);
    assert Mentions(Str(Ascii("$$$literal"))) == Some([]);
    assert EntryMentions(Ascii("in"), Str(Ascii("$$$literal"))) == Some([]);
    assert DocMentions(tail) == Both(Some([]), Some([]));
    assert EntryMentions(Ascii("vars"), Doc(bound)) == Mentions(Doc(bound)) == DocMentions(bound);
    assert DocMentions(args) == Both(Some([]), Some([]));
    assert EntryMentions(Ascii("$let"), Doc(args)) == Mentions(Doc(args)) == DocMentions(args);
    assert DocMentions(Entry(Ascii("$let"), Doc(args), Nil)) == Both(Some([]), Some([]));
  }

  lemma LetNames()
    ensures !ReadsAll(Ascii("$let")) && !Literal(Ascii("$let")) && !SortBy(Ascii("$let"))
    ensures Starts(Ascii("$let"), DOLLAR) && Ascii("$let") != Ascii("$meta")
    ensures !ReadsAll(Ascii("vars")) && !Literal(Ascii("vars")) && !SortBy(Ascii("vars"))
    ensures !Starts(Ascii("vars"), DOLLAR)
    ensures !ReadsAll(Ascii("in")) && !Literal(Ascii("in")) && !SortBy(Ascii("in")) && !Starts(Ascii("in"), DOLLAR)
    ensures Starts(Ascii("$$$literal"), DOLLARS) && !WholeVariable(Ascii("$$$literal"))
  {
    assert |Ascii("$let")| == 4 && |Ascii("$literal")| == 8 && |Ascii("sortBy")| == 6 && |Ascii("$meta")| == 5;
    assert |Ascii("$function")| == 9 && |Ascii("$accumulator")| == 12 && |Ascii("$getField")| == 9;
    assert |Ascii("$setField")| == 9 && |Ascii("$unsetField")| == 11;
    assert Ascii("$let")[..1] == DOLLAR;
    assert Ascii("vars")[0] == 118 && Ascii("in")[0] == 105 && |Ascii("vars")| == 4 && |Ascii("in")| == 2;
    PlainKey(Ascii("vars"));
    PlainKey(Ascii("in"));
    var s := Ascii("$$$literal");
    assert s[..2] == DOLLARS && s[2] == 36;
    assert Root(s[2..])[0] == 36;
    assert Ascii("ROOT")[0] == 82 && Ascii("CURRENT")[0] == 67;
  }

  lemma LiteralVariableReadsX(sorters: set<bytes>, keep: seq<bytes>)
    requires [120] !in keep
    ensures !NeedsOnly(sorters, {}, LiteralVariable(), keep)
  {
    LetNames();
    ReadsX(keep);
    hide Ascii, ReadsAll, Literal, SortBy, StringNeedsOnly, Starts;
    var bound := Entry(Ascii("$literal"), Str([36, 120]), Nil);
    var tail := Entry(Ascii("in"), Str(Ascii("$$$literal")), Nil);
    var args := Entry(Ascii("vars"), Doc(bound), tail);
    var es := Entry(Ascii("$let"), Doc(args), Nil);
    assert !NeedsOnly(sorters, {}, Str([36, 120]), keep);
    assert !MembersNeedOnly(sorters, Record({}), bound, keep);
    assert UseOf(sorters, Arguments({}, Ascii("$let"), args), Ascii("vars"), Doc(bound)) == Inner(Record({}));
    assert !MembersNeedOnly(sorters, Arguments({}, Ascii("$let"), args), args, keep);
    assert !IsOperator(tail) && !IsOperator(args);
    assert UseOf(sorters, Operators({}), Ascii("$let"), Doc(args)) == Inner(Arguments({}, Ascii("$let"), args));
    assert !MembersNeedOnly(sorters, Operators({}), es, keep);
    assert IsOperator(es);
  }

  /** An output field of a $group and a variable of $let may be called $literal, and are not the operator. */
  lemma PruningLosesLiteral(E: Engine)
    requires !E.refused(LiteralField()) && !E.malformed(false, Single(LiteralVariable()))
    ensures var g := [StageOf("$group", LiteralField())]; PipelineRoots(g) == Some([[97]]) && !Prunable(E, g)
    ensures var p := [StageOf("$project", Doc(Single(LiteralVariable())))];
            PipelineRoots(p) == Some([Ascii("_id")]) && !Prunable(E, p)
  {
    hide Mentions, NeedsOnly, GroupNeedsOnly, Listed, Prunable, PipelineRoots;
    LiteralFieldMentions();
    NotListed([[97]], [120]);
    LiteralFieldReadsX(E.expressions.sorters, Listed(Some([[97]])));
    GroupBodyLost(E, LiteralField(), [[97]]);
    LiteralVariableMentions();
    assert [120] != Ascii("_id") by { assert |Ascii("_id")| == 3; }
    OnlyIdListed([120]);
    LiteralVariableReadsX(E.expressions.sorters, Listed(Both(Some([Ascii("_id")]), Some([]))));
    LetNames();
    SingleLost(E, LiteralVariable(), []);
    assert [Ascii("_id")] + [] == [Ascii("_id")];
  }

  // -------------------------------------------------------------- the order of fields

  /** {y: "k", z: 1}: a field written before another is inserted. */
  function WritesFirst(): Entries { Entry([121], Str([107]), Entry([122], Int32(1), Nil)) }

  lemma WritesFirstNames()
    ensures 46 !in [121] && 46 !in [122] && [121] != Ascii("_id") && [122] != Ascii("_id") && Root([122]) == [122]
    ensures !Starts([107], DOLLARS) && !Starts([107], DOLLAR)
  {
    assert |Ascii("_id")| == 3;
    assert [107][..1] == [107];
    assert [122][1..] == [] && FirstDot([122]) == 1 + FirstDot([]);
  }

  lemma WritesFirstRoots(find: bool)
    ensures ProjectionRoots(find, WritesFirst(), true) == Some([[122]]) && IncludesSomething(WritesFirst(), true)
  {
    WritesFirstNames();
    hide Ascii, Starts, Root;
    var k, one := Str([107]), Int32(1);
    NothingTwice();
    assert EntryRoots(find, [121], k, true) == Both(Some([]), Some([]));
    assert EntryRoots(find, [122], one, true) == Some([] + [[122]]);
    assert ProjectionRoots(find, Nil, true) == Some([]);
    assert [[122]] + [] == [[122]] && [] + [[122]] == [[122]];
    assert ProjectionRoots(find, Entry([122], one, Nil), true) == Some([[122]]);
  }

  lemma WritesFirstFlat()
    ensures Flat([], WritesFirst()) == [([121], Str([107])), ([122], Int32(1))]
  {
    assert [] + [121] == [121] && [] + [122] == [122];
    assert Flat([], Entry([122], Int32(1), Nil)) == [([122], Int32(1))];
  }

  lemma WritesFirstMode(find: bool)
    ensures ModeOf(find, WritesFirst()) == Inclusion
  {
    WritesFirstNames();
    WritesFirstFlat();
    hide Ascii, Flat, Root;
    var flat := Flat([], WritesFirst());
    var later: seq<(bytes, Val)> := [([122], Int32(1))];
    assert flat[1..] == later && |later[1..]| == 0;
    assert ModeFrom(find, false, [], Some(true), false) == Inclusion;
    assert ModeFrom(find, false, later, Some(true), false) == Inclusion;
  }

  lemma WritesFirstLayout(find: bool)
    ensures [121] in LayoutNames(find, WritesFirst())
  {
    WritesFirstNames();
    WritesFirstFlat();
    hide Ascii, Flat, Root;
    var flat := Flat([], WritesFirst());
    assert Writes(find, flat[0]) && Inserts(find, flat[1]);
    assert WrittenFirst(find, flat)[0] == [121];
  }

  lemma InsertedApart()
    ensures InsertAt([[121], [122]], [[121]], [122]) == 1 && InsertAt([[122]], [[121]], [122]) == 0
  {
    assert [[121], [122]][1..] == [[122]];
  }

  /**
   Where the inserted field goes depends on whether the source has a field of the written one's
   name, and that is not listed: from {y, z} the output is y and then z, from {z} it is z and then y.
   */
  lemma PruningLosesOrder(E: Engine)
    requires !E.malformed(false, WritesFirst())
    ensures var p := [StageOf("$project", Doc(WritesFirst()))];
            PipelineRoots(p) == Some([Ascii("_id"), [122]]) && !Prunable(E, p)
    ensures InsertAt([[121], [122]], [[121]], [122]) == 1 && InsertAt([[122]], [[121]], [122]) == 0
  {
    InsertedApart();
    hide InsertAt;
    hide ProjectionRoots, IncludesSomething, ModeOf, LayoutNames, AddAll, WritesFirst, ComputedNeedOnly;
    StageNames();
    WritesFirstRoots(false);
    WritesFirstMode(false);
    WritesFirstLayout(false);
    assert [Ascii("_id")] + [[122]] == [Ascii("_id"), [122]];
    assert PipelineRoots([StageOf("$project", Doc(WritesFirst()))]) == Some([Ascii("_id"), [122]]);
    AddAllMembers([], [Ascii("_id"), [122]], [122]);
    AddAllMembers([], [Ascii("_id"), [122]], [121]);
    assert |Ascii("_id")| == 3;
  }

  // ------------------------------------------------------------- finds it gets wrong

  /** find({}, {a: {$slice: 2}}). */
  function SliceQuery(): FindParams {
    FindParams(Nil, None, Entry([97], Doc(Entry(Ascii("$slice"), Int32(2), Nil)), Nil), false, false, 0, 0)
  }

  /** find({}, p). */
  function FindAll(p: Entries): FindParams { FindParams(Nil, None, p, false, false, 0, 0) }

  lemma FindAllRoots(p: Entries, ms: seq<bytes>)
    requires p.Entry? && IncludesSomething(p, true) && ProjectionRoots(true, p, true) == Some(ms)
    ensures FindRoots(FindAll(p)) == Some([Ascii("_id")] + ms)
  {
    hide ProjectionRoots, IncludesSomething;
    assert FilterMentions(Nil) == Some([]);
    assert [] + ([Ascii("_id")] + []) == [Ascii("_id")];
  }

  /** find fares the same with a free variable and with a field written first. */
  lemma FindPruningLoses(E: Engine)
    requires !E.malformed(true, Single(FreeVariable())) && !E.malformed(true, WritesFirst())
    ensures FindRoots(FindAll(Single(FreeVariable()))) == Some([Ascii("_id")])
            && !FindPrunable(E, FindAll(Single(FreeVariable())))
    ensures FindRoots(FindAll(WritesFirst())) == Some([Ascii("_id"), [122]])
            && !FindPrunable(E, FindAll(WritesFirst()))
  {
    hide ProjectionRoots, IncludesSomething, ModeOf, LayoutNames, AddAll, FindRoots, Mentions, NeedsOnly, ByTree, Flat;
    WritesFirstRoots(true);
    WritesFirstMode(true);
    WritesFirstLayout(true);
    FindAllRoots(WritesFirst(), [[122]]);
    assert [Ascii("_id")] + [[122]] == [Ascii("_id"), [122]];
    AddAllMembers([], [Ascii("_id"), [122]], [121]);
    assert |Ascii("_id")| == 3;
    FreeVariableMentions();
    AddIsPlain();
    AddIsNotFinds();
    SingleRoots(true, FreeVariable(), []);
    FindAllRoots(Single(FreeVariable()), []);
    assert [Ascii("_id")] + [] == [Ascii("_id")];
    AddAllMembers([], [Ascii("_id")], Slot([120]));
    SlotIsNotId();
    FreeVariableReads(E.expressions.sorters, Listed(Some([Ascii("_id")])));
    var tree := ByTree(true, Flat([], Single(FreeVariable())));
    assert !ComputedNeedOnly(E.expressions.sorters, true, tree, Single(FreeVariable()), Listed(Some([Ascii("_id")])));
  }

  lemma AddIsNotFinds()
    ensures !Slices(true, FreeVariable().entries)
  {
    assert |Ascii("$add")| == 4 && |Ascii("$slice")| == 6 && |Ascii("$elemMatch")| == 10;
  }

  lemma SliceNames()
    ensures Starts(Ascii("$slice"), DOLLAR) && Root([97]) == [97] && [97] != Ascii("_id")
  {
    assert Ascii("$slice")[..1] == DOLLAR;
    assert [97][1..] == [] && FirstDot([]) == 0;
    assert |Ascii("_id")| == 3;
  }

  lemma SliceRoots()
    ensures FindRoots(SliceQuery()) == Some([Ascii("_id"), [97]]) && OnlySlices(SliceQuery().projection)
  {
    SliceNames();
    var v := Doc(Entry(Ascii("$slice"), Int32(2), Nil));
    var p := SliceQuery().projection;
    assert EntryRoots(true, [97], v, true) == Some([] + [[97]]);
    assert ProjectionRoots(true, Nil, true) == Some([]);
    assert [] + [[97]] + [] == [[97]];
    assert ProjectionRoots(true, p, true) == Some([[97]]);
    assert FilterMentions(Nil) == Some([]);
    assert [] + ([Ascii("_id")] + []) == [Ascii("_id")];
    assert [Ascii("_id")] + [[97]] == [Ascii("_id"), [97]];
    assert [] + [97] == [97];
    assert Flat([], p) == [([97], v)] + Flat([], Nil);
    assert Flat([], p) == [([97], v)];
  }

  /** The query returns every field, with a sliced; the analysis lists _id and a, and field b is lost. */
  lemma SlicingLosesFields(E: Engine)
    requires !E.malformed(true, SliceQuery().projection)
    ensures var d := Entry(Ascii("_id"), Null, Entry([97], Arr(Nil), Entry([98], Null, Nil)));
            FindRoots(SliceQuery()).Some?
            && Find(E, SliceQuery(), Cut([d], Listed(FindRoots(SliceQuery())))) != Find(E, SliceQuery(), [d])
  {
    hide FindRoots, ModeOf, OnlySlices, ProjectionRoots, IncludesSomething, Keep, FieldOf;
    var q := SliceQuery();
    var d := Entry(Ascii("_id"), Null, Entry([97], Arr(Nil), Entry([98], Null, Nil)));
    SliceRoots();
    SliceAccepted();
    FindModeIff(q.projection);
    var keep := Listed(FindRoots(q));
    LosesB(keep);
    ArriveOne(E, d);
    ArriveOne(E, Keep(d, keep));
    assert Cut([d], keep) == [Keep(d, keep)];
    hide Arrive;
    var bad, p, I := E.malformed(true, q.projection), q.projection, E.expressions;
    assert Views(I, bad, true, p, [], [d])[0] == Everything(d);
    assert Views(I, bad, true, p, [], [Keep(d, keep)])[0] == Everything(Keep(d, keep));
  }

  lemma SliceAccepted()
    ensures var q := SliceQuery();
            Simple(q) && FilterMentions(q.filter) == Some([]) && IncludesSomething(q.projection, true)
            && ProjectionRoots(true, q.projection, true).Some?
  {
    SliceRoots();
  }

  lemma ArriveOne(E: Engine, d: Entries)
    ensures Arrive(E, SliceQuery(), [d]) == [d]
  {
    assert [d][1..] == [];
    assert Matching(E.tests, Nil, [d], 0) == [d] + Matching(E.tests, Nil, [], 1);
    assert Matching(E.tests, Nil, [d], 0) == [d];
  }

  lemma LosesB(keep: seq<bytes>)
    requires FindRoots(SliceQuery()).Some? && keep == Listed(FindRoots(SliceQuery()))
    ensures var d := Entry(Ascii("_id"), Null, Entry([97], Arr(Nil), Entry([98], Null, Nil))); Keep(d, keep) != d
  {
    hide FindRoots;
    SliceRoots();
    AddAllMembers([], [Ascii("_id"), [97]], [98]);
    assert |Ascii("_id")| == 3;
    var d := Entry(Ascii("_id"), Null, Entry([97], Arr(Nil), Entry([98], Null, Nil)));
    FieldStaysOut(d, keep, [98]);
    assert FieldOf(d, [98]) == Some(Null);
  }
}
