/**
 What the field analysis accepts and lists, said of the places it comes upon: which
 clauses a filter has, which parts an expression, which entries a projection, and for
 each of these places alone whether it is fine and what it names.
 */
module NamedFields {
  import opened Bytes
  import opened RawCodec
  import opened Expressions
  import opened FieldRoots
  import opened Filters
  import opened Projections
  import opened Pipelines

  // ----------------------------------------------------------------------- roots

  /** The path is r, or r and a dot and more, and r has no dot. */
  predicate RootOf(r: bytes, path: bytes) {
    46 !in r && (path == r || (|r| < |path| && path[..|r|] == r && path[|r|] == 46))
  }

  lemma {:induction false} FirstDotIs(s: bytes)
    ensures 46 !in s[..FirstDot(s)] && (FirstDot(s) < |s| ==> s[FirstDot(s)] == 46)
  {
    if s != [] && s[0] != 46 {
      FirstDotIs(s[1..]);
      var k := FirstDot(s[1..]);
      assert s[..k + 1] == [s[0]] + s[1..][..k];
    }
  }

  lemma RootIs(path: bytes, r: bytes)
    ensures Root(path) == r <==> RootOf(r, path)
  {
    FirstDotIs(path);
    var k := FirstDot(path);
    if RootOf(r, path) {
      assert path[..|r|] == r;
      assert forall i :: 0 <= i < |r| ==> r[i] in r && path[i] == path[..|r|][i];
      assert forall i :: 0 <= i < k ==> path[..k][i] == path[i] && path[..k][i] in path[..k];
      assert k == |r|;
    }
  }

  predicate Dollar(key: bytes) { key != [] && key[0] == 36 }

  lemma DollarIs(key: bytes)
    ensures Starts(key, DOLLAR) <==> Dollar(key)
  {
    if key != [] { assert key[..1] == [key[0]]; }
  }

  lemma ListedOne(path: bytes, r: bytes)
    ensures r in [Root(path)] <==> RootOf(r, path)
  {
    RootIs(path, r);
  }

  // --------------------------------------------------------------------- filters

  predicate Logical(key: bytes) { key in {Ascii("$and"), Ascii("$or"), Ascii("$nor")} }

  /** The clauses of a filter, those of the filters it combines among them. */
  predicate Clause(es: Entries, key: bytes, value: Val)
    decreases es, 1
  {
    es.Entry?
    && ((es.name == key && es.value == value)
        || (Logical(es.name) && es.value.Arr? && InnerClause(es.value.items, key, value))
        || Clause(es.rest, key, value))
  }

  predicate InnerClause(items: Entries, key: bytes, value: Val)
    decreases items, 1
  {
    items.Entry?
    && ((items.value.Doc? && Clause(items.value.entries, key, value)) || InnerClause(items.rest, key, value))
  }

  /** A combination is of documents; no other operator is known to read only what it names but these two. */
  predicate ClauseFine(key: bytes, value: Val) {
    if Logical(key) then value.Arr? && AllDocs(value.items)
    else Dollar(key) ==> key in {Ascii("$comment"), Ascii("$sampleRate")}
  }

  lemma {:induction false} FilterAccepted(es: Entries)
    ensures FilterMentions(es).Some? <==> forall key, value :: Clause(es, key, value) ==> ClauseFine(key, value)
    decreases es, 1
  {
    if es.Entry? {
      FilterAccepted(es.rest);
      DollarIs(es.name);
      if Logical(es.name) && es.value.Arr? { ItemsAccepted(es.value.items); }
      ClauseSplit(es);
      assert Clause(es, es.name, es.value);
    }
  }

  lemma ClauseSplit(es: Entries)
    requires es.Entry?
    ensures (forall key, value :: Clause(es, key, value) ==> ClauseFine(key, value))
       <==> ClauseFine(es.name, es.value)
            && (Logical(es.name) && es.value.Arr?
                ==> forall key, value :: InnerClause(es.value.items, key, value) ==> ClauseFine(key, value))
            && forall key, value :: Clause(es.rest, key, value) ==> ClauseFine(key, value)
  {
    hide ClauseFine;
    assert Clause(es, es.name, es.value);
    forall key, value | Logical(es.name) && es.value.Arr? && InnerClause(es.value.items, key, value)
      ensures Clause(es, key, value)
    {}
    forall key, value | Clause(es.rest, key, value) ensures Clause(es, key, value) {}
  }

  lemma {:induction false} ItemsAccepted(items: Entries)
    ensures EachMentions(items).Some?
       <==> AllDocs(items) && forall key, value :: InnerClause(items, key, value) ==> ClauseFine(key, value)
    decreases items, 1
  {
    hide ClauseFine;
    if items.Entry? {
      ItemsAccepted(items.rest);
      if items.value.Doc? {
        FilterAccepted(items.value.entries);
        forall key, value | Clause(items.value.entries, key, value) ensures InnerClause(items, key, value) {}
      }
      forall key, value | InnerClause(items.rest, key, value) ensures InnerClause(items, key, value) {}
    }
  }

  /** A clause that is not an operator names the root of its key. */
  ghost predicate ClauseNamed(es: Entries, r: bytes) {
    exists key, value :: Clause(es, key, value) && !Dollar(key) && RootOf(r, key)
  }

  ghost predicate InnerNamed(items: Entries, r: bytes) {
    exists key, value :: InnerClause(items, key, value) && !Dollar(key) && RootOf(r, key)
  }

  lemma LogicalDollar(key: bytes)
    ensures Logical(key) || key in {Ascii("$comment"), Ascii("$sampleRate")} ==> Dollar(key)
  {
    assert Ascii("$and")[0] == 36 && Ascii("$or")[0] == 36 && Ascii("$nor")[0] == 36;
    assert Ascii("$comment")[0] == 36 && Ascii("$sampleRate")[0] == 36;
  }

  lemma {:induction false} FilterListed(es: Entries, r: bytes)
    requires FilterMentions(es).Some?
    ensures r in FilterMentions(es).value <==> ClauseNamed(es, r)
    decreases es, 1
  {
    hide RootOf;
    if es.Entry? {
      FilterListed(es.rest, r);
      DollarIs(es.name);
      LogicalDollar(es.name);
      ListedOne(es.name, r);
      if Logical(es.name) { ItemsListed(es.value.items, r); }
      NamedSplit(es, r);
    }
  }

  lemma NamedSplit(es: Entries, r: bytes)
    requires es.Entry?
    ensures ClauseNamed(es, r)
       <==> (!Dollar(es.name) && RootOf(r, es.name))
            || (Logical(es.name) && es.value.Arr? && InnerNamed(es.value.items, r))
            || ClauseNamed(es.rest, r)
  {
    hide RootOf, Logical;
    if !Dollar(es.name) && RootOf(r, es.name) { assert Clause(es, es.name, es.value); }
    if Logical(es.name) && es.value.Arr? && InnerNamed(es.value.items, r) {
      var key, value :| InnerClause(es.value.items, key, value) && !Dollar(key) && RootOf(r, key);
      assert Clause(es, key, value);
    }
    if ClauseNamed(es.rest, r) {
      var key, value :| Clause(es.rest, key, value) && !Dollar(key) && RootOf(r, key);
      assert Clause(es, key, value);
    }
    if ClauseNamed(es, r) {
      var key, value :| Clause(es, key, value) && !Dollar(key) && RootOf(r, key);
      if Logical(es.name) && es.value.Arr? && InnerClause(es.value.items, key, value) {
        assert InnerNamed(es.value.items, r);
      } else if Clause(es.rest, key, value) {
        assert ClauseNamed(es.rest, r);
      }
    }
  }

  lemma {:induction false} ItemsListed(items: Entries, r: bytes)
    requires EachMentions(items).Some?
    ensures r in EachMentions(items).value <==> InnerNamed(items, r)
    decreases items, 1
  {
    hide RootOf;
    if items.Entry? {
      FilterListed(items.value.entries, r);
      ItemsListed(items.rest, r);
      if ClauseNamed(items.value.entries, r) {
        var key, value :| Clause(items.value.entries, key, value) && !Dollar(key) && RootOf(r, key);
        assert InnerClause(items, key, value);
      }
      if InnerNamed(items.rest, r) {
        var key, value :| InnerClause(items.rest, key, value) && !Dollar(key) && RootOf(r, key);
        assert InnerClause(items, key, value);
      }
      if InnerNamed(items, r) {
        var key, value :| InnerClause(items, key, value) && !Dollar(key) && RootOf(r, key);
        if InnerClause(items.rest, key, value) {
          assert InnerNamed(items.rest, r);
        } else {
          assert Clause(items.value.entries, key, value);
          assert ClauseNamed(items.value.entries, r);
        }
      }
    }
  }

  // ------------------------------------------------------- what combinations mean

  /** One of the combined filters. */
  predicate Among(items: Entries, f: Entries) {
    items.Entry? && (items.value == Doc(f) || Among(items.rest, f))
  }

  ghost predicate EveryOne(T: Tests, items: Entries, d: Entries, n: nat) {
    forall f :: Among(items, f) ==> Matches(T, f, d, n)
  }

  ghost predicate SomeOne(T: Tests, items: Entries, d: Entries, n: nat) {
    exists f :: Among(items, f) && Matches(T, f, d, n)
  }

  lemma {:induction false} AmongMatch(T: Tests, items: Entries, d: Entries, n: nat)
    requires AllDocs(items)
    ensures AllMatch(T, items, d, n) <==> EveryOne(T, items, d, n)
    ensures SomeMatch(T, items, d, n) <==> SomeOne(T, items, d, n)
    decreases items
  {
    hide Matches;
    if items.Entry? {
      AmongMatch(T, items.rest, d, n);
      var f := items.value.entries;
      assert Among(items, f);
      assert forall g :: Among(items, g) <==> g == f || Among(items.rest, g);
    }
  }

  /** $and asks every one of its filters to match, $or some one, $nor none; combining none is an error. */
  lemma CombinationsMean(T: Tests, items: Entries, d: Entries, n: nat)
    requires items.Entry? && AllDocs(items)
    ensures EntryMatches(T, Ascii("$and"), Arr(items), d, n) <==> EveryOne(T, items, d, n)
    ensures EntryMatches(T, Ascii("$or"), Arr(items), d, n) <==> SomeOne(T, items, d, n)
    ensures EntryMatches(T, Ascii("$nor"), Arr(items), d, n) <==> !SomeOne(T, items, d, n)
  {
    hide EveryOne, SomeOne, AllMatch, SomeMatch;
    AmongMatch(T, items, d, n);
    assert Ascii("$and")[1] == 97 && Ascii("$or")[1] == 111 && Ascii("$nor")[1] == 110;
  }

  // ----------------------------------------------------------------- expressions

  /** What the analysis comes upon in an expression: a string, or a key with what it holds. */
  datatype Sight = Text(text: bytes) | Keyed(key: bytes, value: Val)

  predicate Closed(key: bytes) {
    key in {Ascii("$function"), Ascii("$accumulator"), Ascii("$getField"), Ascii("$setField"), Ascii("$unsetField"),
            Ascii("$literal"), Ascii("sortBy")}
  }

  /** The strings and keys of an expression, except below the keys that are taken as a whole. */
  predicate Sees(e: Val, x: Sight)
    decreases e, 3
  {
    match e
    case Str(s) => x == Text(s)
    case Arr(items) => ItemsSee(items, x)
    case Doc(es) => EntriesSee(es, x)
    case _ => false
  }

  predicate ItemsSee(items: Entries, x: Sight)
    decreases items, 1
  {
    items.Entry? && (Sees(items.value, x) || ItemsSee(items.rest, x))
  }

  predicate EntriesSee(es: Entries, x: Sight)
    decreases es, 1
  {
    es.Entry?
    && (x == Keyed(es.name, es.value) || (!Closed(es.name) && Sees(es.value, x)) || EntriesSee(es.rest, x))
  }

  predicate SightFine(x: Sight) {
    match x
    case Text(s) =>
      !(|s| >= 2 && s[0] == 36 && s[1] == 36 && (RootOf(Ascii("ROOT"), s[2..]) || RootOf(Ascii("CURRENT"), s[2..])))
    case Keyed(key, value) =>
      key !in {Ascii("$function"), Ascii("$accumulator"), Ascii("$getField"), Ascii("$setField"), Ascii("$unsetField")}
      && (key == Ascii("sortBy") ==> value.Doc?)
  }

  predicate HasKey(es: Entries, key: bytes) { es.Entry? && (es.name == key || HasKey(es.rest, key)) }

  /** A string names what follows its dollar, unless that is another; a sort order names its keys. */
  ghost predicate SightNames(x: Sight, r: bytes) {
    match x
    case Text(s) => |s| >= 1 && s[0] == 36 && !(|s| >= 2 && s[1] == 36) && RootOf(r, s[1..])
    case Keyed(key, value) =>
      key == Ascii("sortBy") && value.Doc? && exists k :: HasKey(value.entries, k) && RootOf(r, k)
  }

  lemma Dollars(s: bytes)
    ensures Starts(s, DOLLARS) <==> |s| >= 2 && s[0] == 36 && s[1] == 36
  {
    if |s| >= 2 { assert s[..2] == [s[0], s[1]]; }
  }

  lemma ClosedIs(key: bytes)
    ensures Closed(key) <==> ReadsAll(key) || Literal(key) || SortBy(key)
    ensures ReadsAll(key) ==> !Literal(key) && !SortBy(key)
    ensures !(Literal(key) && SortBy(key))
  {
    assert |Ascii("$function")| == 9 && |Ascii("$accumulator")| == 12 && |Ascii("$getField")| == 9;
    assert |Ascii("$setField")| == 9 && |Ascii("$unsetField")| == 11;
    assert |Ascii("$literal")| == 8 && |Ascii("sortBy")| == 6;
  }

  lemma TextIs(s: bytes, r: bytes)
    ensures Mentions(Str(s)).Some? <==> SightFine(Text(s))
    ensures Mentions(Str(s)).Some? ==> (r in Mentions(Str(s)).value <==> SightNames(Text(s), r))
  {
    Dollars(s);
    DollarIs(s);
    if |s| >= 2 {
      RootIs(s[2..], Ascii("ROOT"));
      RootIs(s[2..], Ascii("CURRENT"));
    }
    if |s| >= 1 { ListedOne(s[1..], r); }
  }

  lemma {:induction false} KeysListed(es: Entries, r: bytes)
    ensures r in RootsOfKeys(es) <==> exists k :: HasKey(es, k) && RootOf(r, k)
  {
    if es.Entry? {
      KeysListed(es.rest, r);
      RootIs(es.name, r);
      assert HasKey(es, es.name);
      if k :| HasKey(es.rest, k) && RootOf(r, k) { assert HasKey(es, k); }
    }
  }

  ghost predicate AllFine(e: Val) { forall x :: Sees(e, x) ==> SightFine(x) }

  ghost predicate EntriesFine(es: Entries) { forall x :: EntriesSee(es, x) ==> SightFine(x) }

  ghost predicate ItemsFine(items: Entries) { forall x :: ItemsSee(items, x) ==> SightFine(x) }

  lemma EntriesSplit(es: Entries)
    requires es.Entry?
    ensures EntriesFine(es)
       <==> SightFine(Keyed(es.name, es.value)) && (!Closed(es.name) ==> AllFine(es.value)) && EntriesFine(es.rest)
  {
    hide SightFine, Closed;
    assert EntriesSee(es, Keyed(es.name, es.value));
    forall x | !Closed(es.name) && Sees(es.value, x) ensures EntriesSee(es, x) {}
    forall x | EntriesSee(es.rest, x) ensures EntriesSee(es, x) {}
  }

  lemma ItemsSplit(items: Entries)
    requires items.Entry?
    ensures ItemsFine(items) <==> AllFine(items.value) && ItemsFine(items.rest)
  {
    hide SightFine;
    forall x | Sees(items.value, x) ensures ItemsSee(items, x) {}
    forall x | ItemsSee(items.rest, x) ensures ItemsSee(items, x) {}
  }

  /** An expression is accepted if and only if everything the analysis comes upon in it is fine. */
  lemma {:induction false} ExpressionAccepted(e: Val)
    ensures Mentions(e).Some? <==> AllFine(e)
    decreases e, 3
  {
    match e {
      case Str(s) =>
        TextIs(s, []);
        assert Sees(e, Text(s));
      case Arr(items) =>
        ItemsAllAccepted(items);
        assert AllFine(e) <==> ItemsFine(items);
      case Doc(es) =>
        EntriesAccepted(es);
        assert AllFine(e) <==> EntriesFine(es);
      case _ =>
    }
  }

  lemma {:induction false} ItemsAllAccepted(items: Entries)
    ensures ItemMentions(items).Some? <==> ItemsFine(items)
    decreases items, 1
  {
    hide AllFine, Mentions;
    if items.Entry? {
      ExpressionAccepted(items.value);
      ItemsAllAccepted(items.rest);
      ItemsSplit(items);
    }
  }

  lemma {:induction false} EntriesAccepted(es: Entries)
    ensures DocMentions(es).Some? <==> EntriesFine(es)
    decreases es, 1
  {
    hide AllFine, Mentions, Closed, ReadsAll, Literal, SortBy, EntriesFine;
    if es.Entry? {
      ExpressionAccepted(es.value);
      EntriesAccepted(es.rest);
      EntriesSplit(es);
      ClosedIs(es.name);
      KeyedIs(es.name, es.value);
    } else {
      assert EntriesFine(es) by { NothingSeen(es); }
    }
  }

  lemma NothingSeen(es: Entries)
    requires es.Nil?
    ensures EntriesFine(es)
  {
  }

  lemma KeyedIs(key: bytes, value: Val)
    ensures SightFine(Keyed(key, value)) <==> !ReadsAll(key) && (SortBy(key) ==> value.Doc?)
  {
  }

  ghost predicate SeenNamed(e: Val, r: bytes) { exists x :: Sees(e, x) && SightNames(x, r) }

  ghost predicate EntriesNamed(es: Entries, r: bytes) { exists x :: EntriesSee(es, x) && SightNames(x, r) }

  ghost predicate ItemsNamed(items: Entries, r: bytes) { exists x :: ItemsSee(items, x) && SightNames(x, r) }

  lemma EntriesNamedSplit(es: Entries, r: bytes)
    requires es.Entry?
    ensures EntriesNamed(es, r)
       <==> SightNames(Keyed(es.name, es.value), r) || (!Closed(es.name) && SeenNamed(es.value, r))
            || EntriesNamed(es.rest, r)
  {
    hide SightNames, Closed;
    assert EntriesSee(es, Keyed(es.name, es.value));
    if !Closed(es.name) && SeenNamed(es.value, r) {
      var x :| Sees(es.value, x) && SightNames(x, r);
      assert EntriesSee(es, x);
    }
    if EntriesNamed(es.rest, r) {
      var x :| EntriesSee(es.rest, x) && SightNames(x, r);
      assert EntriesSee(es, x);
    }
  }

  lemma ItemsNamedSplit(items: Entries, r: bytes)
    requires items.Entry?
    ensures ItemsNamed(items, r) <==> SeenNamed(items.value, r) || ItemsNamed(items.rest, r)
  {
    hide SightNames;
    if SeenNamed(items.value, r) {
      var x :| Sees(items.value, x) && SightNames(x, r);
      assert ItemsSee(items, x);
    }
    if ItemsNamed(items.rest, r) {
      var x :| ItemsSee(items.rest, x) && SightNames(x, r);
      assert ItemsSee(items, x);
    }
  }

  /** A root is listed for an expression if and only if something the analysis comes upon in it names it. */
  lemma {:induction false} ExpressionListed(e: Val, r: bytes)
    requires Mentions(e).Some?
    ensures r in Mentions(e).value <==> SeenNamed(e, r)
    decreases e, 3
  {
    hide SightNames;
    match e {
      case Str(s) =>
        TextIs(s, r);
        assert Sees(e, Text(s));
      case Arr(items) =>
        ItemsAllListed(items, r);
        assert SeenNamed(e, r) <==> ItemsNamed(items, r);
      case Doc(es) =>
        EntriesListed(es, r);
        assert SeenNamed(e, r) <==> EntriesNamed(es, r);
      case _ =>
    }
  }

  lemma {:induction false} ItemsAllListed(items: Entries, r: bytes)
    requires ItemMentions(items).Some?
    ensures r in ItemMentions(items).value <==> ItemsNamed(items, r)
    decreases items, 1
  {
    hide SeenNamed, Mentions, SightNames;
    if items.Entry? {
      ExpressionListed(items.value, r);
      ItemsAllListed(items.rest, r);
      ItemsNamedSplit(items, r);
    }
  }

  lemma {:induction false} EntriesListed(es: Entries, r: bytes)
    requires DocMentions(es).Some?
    ensures r in DocMentions(es).value <==> EntriesNamed(es, r)
    decreases es, 1
  {
    hide SeenNamed, Mentions, Closed, ReadsAll, Literal, SortBy, EntriesNamed, SightNames;
    if es.Entry? {
      ClosedIs(es.name);
      if !Closed(es.name) { ExpressionListed(es.value, r); }
      EntriesListed(es.rest, r);
      EntriesNamedSplit(es, r);
      KeyedNames(es.name, es.value, r);
    } else {
      NothingNamed(es, r);
    }
  }

  lemma NothingNamed(es: Entries, r: bytes)
    requires es.Nil?
    ensures !EntriesNamed(es, r)
  {
  }

  lemma KeyedNames(key: bytes, value: Val, r: bytes)
    ensures SightNames(Keyed(key, value), r) <==> SortBy(key) && value.Doc? && r in RootsOfKeys(value.entries)
  {
    if value.Doc? { KeysListed(value.entries, r); }
  }

  // ------------------------------------------------------------------- variables

  /** A variable by itself, no path behind it. */
  function Var(name: bytes): bytes { DOLLARS + name }

  lemma VarName(name: bytes)
    requires 46 !in name
    ensures Starts(Var(name), DOLLARS) && Root(Var(name)[2..]) == name && 46 !in Var(name)[2..]
  {
    assert Var(name)[..2] == DOLLARS && Var(name)[2..] == name;
    RootIs(name, name);
  }

  /** Built-in variables read no field; others are looked for where no operator has bound them. */
  lemma FreeUnlessBuiltIn(scope: set<bytes>, name: bytes)
    requires 46 !in name
    ensures Starts(Var(name), DOLLARS)
    ensures name in {Ascii("NOW"), Ascii("REMOVE"), Ascii("PRUNE"), Ascii("KEEP"), Ascii("DESCEND")}
        ==> VariableReads(scope, Var(name)) == []
    ensures Binding(name) <= scope ==> VariableReads(scope, Var(name)) == []
    ensures name != [] && Binding(name) !! scope
            && name !in {Ascii("NOW"), Ascii("REMOVE"), Ascii("PRUNE"), Ascii("KEEP"), Ascii("DESCEND")}
        ==> VariableReads(scope, Var(name)) == [Ascii("$$$missing:") + name, [36, 36] + name]
  {
    VarName(name);
    assert Marker(name) in Binding(name) && Slot(name) in Binding(name);
  }

  /**
   What the binding operators bind: $let its variables in its body; $map and $filter, each in
   the argument it evaluates for every element, the variable called by as, or this; $reduce
   this and value.
   */
  lemma OperatorsBind(args: Entries, name: bytes)
    ensures FieldOf(args, Ascii("as")) == Some(Str(name))
        ==> Binding(name) <= Binds(Ascii("$map"), args, Ascii("in")) * Binds(Ascii("$filter"), args, Ascii("cond"))
    ensures FieldOf(args, Ascii("as")).None?
        ==> Binding(Ascii("this"))
            <= Binds(Ascii("$map"), args, Ascii("in")) * Binds(Ascii("$filter"), args, Ascii("cond"))
    ensures Binding(Ascii("this")) + Binding(Ascii("value")) <= Binds(Ascii("$reduce"), args, Ascii("in"))
    ensures FieldOf(args, Ascii("vars")).Some? && FieldOf(args, Ascii("vars")).value.Doc?
            && HasKey(FieldOf(args, Ascii("vars")).value.entries, name)
        ==> Binding(name) <= Binds(Ascii("$let"), args, Ascii("in"))
    ensures forall op :: Binds(op, args, Ascii("input")) == {} && Binds(op, args, Ascii("vars")) == {}
  {
    OperatorNames();
    if FieldOf(args, Ascii("vars")).Some? && FieldOf(args, Ascii("vars")).value.Doc?
       && HasKey(FieldOf(args, Ascii("vars")).value.entries, name)
    {
      KeyIsBound(FieldOf(args, Ascii("vars")).value.entries, name);
    }
  }

  lemma OperatorNames()
    ensures Ascii("$let") != Ascii("$map") && Ascii("$let") != Ascii("$filter") && Ascii("$let") != Ascii("$reduce")
    ensures Ascii("$map") != Ascii("$filter") && Ascii("$map") != Ascii("$reduce")
    ensures Ascii("$filter") != Ascii("$reduce")
    ensures Ascii("input") !in {Ascii("in"), Ascii("cond")} && Ascii("vars") !in {Ascii("in"), Ascii("cond")}
  {
    assert Ascii("$let")[1] == 108 && Ascii("$map")[1] == 109;
    assert Ascii("$filter")[1] == 102 && Ascii("$reduce")[1] == 114;
    assert |Ascii("input")| == 5 && |Ascii("in")| == 2 && |Ascii("cond")| == 4 && |Ascii("vars")| == 4;
    assert Ascii("vars")[0] == 118 && Ascii("cond")[0] == 99;
  }

  lemma {:induction false} KeyIsBound(es: Entries, name: bytes)
    requires HasKey(es, name)
    ensures Binding(name) <= KeyBindings(es)
  {
    if es.name != name { KeyIsBound(es.rest, name); }
  }
}
