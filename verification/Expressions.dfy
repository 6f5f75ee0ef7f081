/**
 Aggregation expressions: what they mean, with operators left uninterpreted, and which
 top-level fields of the source document that meaning can depend on.
 */
module Expressions {
  import opened Bytes
  import opened RawCodec

  // ---------------------------------------------------------------------- names

  function Ascii(s: string): (r: bytes)
    ensures |r| == |s| && forall i :: 0 <= i < |s| ==> r[i] == s[i] as int % 256
  {
    seq(|s|, i requires 0 <= i < |s| => s[i] as int % 256)
  }

  predicate Starts(s: bytes, prefix: bytes) { |prefix| <= |s| && s[..|prefix|] == prefix }

  const DOLLAR: bytes := [36]
  const DOLLARS: bytes := [36, 36]

  function FirstDot(s: bytes): (k: nat)
    ensures k <= |s|
  {
    if s == [] || s[0] == 46 then 0 else 1 + FirstDot(s[1..])
  }

  /** The part of a dotted path before its first dot. */
  function Root(path: bytes): bytes { path[..FirstDot(path)] }

  /** The first field of that name. */
  function FieldOf(d: Entries, name: bytes): Option<Val> {
    match d
    case Nil => None
    case Entry(n, v, rest) => if n == name then Some(v) else FieldOf(rest, name)
  }

  lemma {:induction false} FieldOfKeep(d: Entries, keep: seq<bytes>, name: bytes)
    requires name in keep
    ensures FieldOf(Keep(d, keep), name) == FieldOf(d, name)
  {
    if d.Entry? { FieldOfKeep(d.rest, keep, name); }
  }

  lemma {:induction false} KeepOfKeep(d: Entries, outer: seq<bytes>, inner: seq<bytes>)
    requires forall x :: x in inner ==> x in outer
    ensures Keep(Keep(d, outer), inner) == Keep(d, inner)
  {
    if d.Entry? { KeepOfKeep(d.rest, outer, inner); }
  }

  // ------------------------------------------------------------------- meaning

  type Vars = map<bytes, Val>

  /** The value of an expression for every binding of the variables, absent where there is none. */
  type Den = imap<Vars, Option<Val>>

  ghost function Const(x: Option<Val>): Den { imap vars: Vars :: Regardless(vars, x) }

  function Regardless(vars: Vars, x: Option<Val>): Option<Val> { x }

  /**
   What the model leaves open: constants, following a path into a value, variables and what
   the stored document holds under their names, arrays, object literals, operators and their
   named arguments, orders, and the operators that see the whole document. sorters are the
   operators whose sortBy argument is a sort order.
   */
  datatype Interp = Interp(
    constant: Val -> Den,
    follow: (Option<Val>, bytes) -> Option<Val>,
    variable: (bytes, Entries) -> Den,
    list: (Entries, seq<Den>) -> Den,
    record: (Entries, seq<Den>) -> Den,
    apply: (Entries, seq<Den>) -> Den,
    named: (bytes, Entries, seq<Den>) -> Den,
    order: (Entries, Entries) -> Den,
    whole: (Val, Entries) -> Den,
    sorters: set<bytes>)

  /** Operators that can read any field. */
  predicate ReadsAll(key: bytes) {
    key == Ascii("$function") || key == Ascii("$accumulator") || key == Ascii("$getField")
    || key == Ascii("$setField") || key == Ascii("$unsetField")
  }

  predicate Literal(key: bytes) { key == Ascii("$literal") }

  predicate SortBy(key: bytes) { key == Ascii("sortBy") }

  function FirstKey(es: Entries): bytes { if es.Entry? then es.name else [] }

  /** A document with a key that starts with a dollar applies operators; any other is an object literal. */
  predicate IsOperator(es: Entries) { es.Entry? && (Starts(es.name, DOLLAR) || IsOperator(es.rest)) }

  function RootsOfKeys(es: Entries): seq<bytes> {
    if es.Nil? then [] else [Root(es.name)] + RootsOfKeys(es.rest)
  }

  // ------------------------------------------------------------------ variables

  /** $$ROOT and $$CURRENT, or a path into them. */
  predicate WholeVariable(s: bytes) {
    Starts(s, DOLLARS) && (Root(s[2..]) == Ascii("ROOT") || Root(s[2..]) == Ascii("CURRENT"))
  }

  /** Names that are answered before any binding is looked up. No name at all is an error. */
  predicate BuiltIn(name: bytes) {
    name == [] || name == Ascii("NOW") || name == Ascii("REMOVE") || name == Ascii("PRUNE") || name == Ascii("KEEP")
    || name == Ascii("DESCEND")
  }

  /** A variable is bound in a copy of the document, as the field of this name, */
  function Slot(name: bytes): bytes { DOLLARS + name }

  /** or, bound to no value, as a field of this name. */
  function Marker(name: bytes): bytes { Ascii("$$$missing:") + name }

  function Binding(name: bytes): set<bytes> { {Slot(name), Marker(name)} }

  function KeyBindings(es: Entries): set<bytes> {
    if es.Nil? then {} else Binding(es.name) + KeyBindings(es.rest)
  }

  /** The variable $map and $filter bind. */
  function AsName(args: Entries): bytes {
    match FieldOf(args, Ascii("as"))
    case Some(Str(s)) => s
    case _ => Ascii("this")
  }

  /** What operator op, given these arguments, has bound where it evaluates the one of this name. */
  function Binds(op: bytes, args: Entries, name: bytes): set<bytes> {
    if op == Ascii("$let") && name == Ascii("in") then
      match FieldOf(args, Ascii("vars"))
      case Some(Doc(es)) => KeyBindings(es)
      case _ => {}
    else if op == Ascii("$map") && name == Ascii("in") then Binding(AsName(args))
    else if op == Ascii("$filter") && name == Ascii("cond") then Binding(AsName(args))
    else if op == Ascii("$reduce") && name == Ascii("in") then Binding(Ascii("this")) + Binding(Ascii("value"))
    else {}
  }

  /** An argument that is a variable's name as it stands. */
  predicate NamesVariable(op: bytes, name: bytes) {
    (op == Ascii("$map") || op == Ascii("$filter")) && name == Ascii("as")
  }

  predicate HoldsVariables(op: bytes, name: bytes) { op == Ascii("$let") && name == Ascii("vars") }

  /**
   The fields of the stored document that a variable is looked for under, where scope are
   the fields that enclosing operators have bound. A built-in name is looked up only with
   a path behind it.
   */
  function VariableReads(scope: set<bytes>, s: bytes): seq<bytes>
    requires Starts(s, DOLLARS)
  {
    var name := Root(s[2..]);
    if BuiltIn(name) && 46 !in s[2..] then []
    else if Marker(name) in scope then []
    else if Slot(name) in scope then [Marker(name)]
    else [Marker(name), Slot(name)]
  }

  // ---------------------------------------------------------------- what entries are

  /**
   Where the entries of a document stand: in an operator's document their keys are operators,
   in an object literal and among the variables of $let they are names, among named arguments
   they are op's, in the body of a $group they are output fields.
   */
  datatype Place =
    | Operators(scope: set<bytes>)
    | Record(scope: set<bytes>)
    | Arguments(scope: set<bytes>, op: bytes, args: Entries)
    | GroupBody

  /** What happens to an entry's value. Inner values are the entries it holds, at another place. */
  datatype Use = Whole | Fixed | Ordering | Inner(place: Place) | Evaluated(scope: set<bytes>)

  /** An operator takes named arguments as a document or as an array that holds nothing else. */
  predicate NamedForm(v: Val) {
    match v
    case Doc(es) => !IsOperator(es)
    case Arr(items) => items.Entry? && items.rest.Nil? && items.value.Doc? && !IsOperator(items.value.entries)
    case _ => false
  }

  function InnerOf(v: Val): Entries {
    match v
    case Doc(es) => es
    case Arr(items) => if items.Entry? && items.value.Doc? then items.value.entries else Nil
    case _ => Nil
  }

  function UseOf(sorters: set<bytes>, place: Place, name: bytes, value: Val): (use: Use)
    ensures use.Ordering? ==> value.Doc?
    ensures use.Inner? ==> value.Doc? || (value.Arr? && value.items.Entry? && value.items.value.Doc?)
  {
    match place
    case Operators(scope) =>
      if ReadsAll(name) then Whole
      else if Literal(name) then Fixed
      else if NamedForm(value) then Inner(Arguments(scope, name, InnerOf(value)))
      else Evaluated(scope)
    case Record(scope) => Evaluated(scope)
    case Arguments(scope, op, args) =>
      if SortBy(name) && op in sorters && value.Doc? then Ordering
      else if NamesVariable(op, name) then Fixed
      else if HoldsVariables(op, name) && value.Doc? then Inner(Record(scope))
      else Evaluated(scope + Binds(op, args, name))
    case GroupBody =>
      if name == Ascii("_id") && value.Str? && Starts(value.text, DOLLARS) && !WholeVariable(value.text) then Fixed
      else Evaluated({})
  }

  // ------------------------------------------------------------------ the meaning

  ghost function StringMeaning(I: Interp, scope: set<bytes>, s: bytes, d: Entries): Den {
    if WholeVariable(s) then I.whole(Str(s), d)
    else if Starts(s, DOLLARS) then I.variable(s, Keep(d, VariableReads(scope, s)))
    else if Starts(s, DOLLAR) then Const(I.follow(FieldOf(d, Root(s[1..])), s[1..]))
    else I.constant(Str(s))
  }

  ghost function Meaning(I: Interp, scope: set<bytes>, e: Val, d: Entries): Den
    decreases e, 3
  {
    match e
    case Str(s) => StringMeaning(I, scope, s, d)
    case Arr(items) => I.list(items, Items(I, scope, items, d))
    case Doc(es) =>
      if IsOperator(es) then I.apply(es, Members(I, Operators(scope), es, d))
      else I.record(es, Members(I, Record(scope), es, d))
    case _ => I.constant(e)
  }

  ghost function Items(I: Interp, scope: set<bytes>, items: Entries, d: Entries): seq<Den>
    decreases items, 1
  {
    if items.Nil? then [] else [Meaning(I, scope, items.value, d)] + Items(I, scope, items.rest, d)
  }

  ghost function Members(I: Interp, place: Place, es: Entries, d: Entries): seq<Den>
    decreases es, 1
  {
    if es.Nil? then []
    else
      [match UseOf(I.sorters, place, es.name, es.value)
       case Whole => I.whole(es.value, d)
       case Fixed => I.constant(es.value)
       case Ordering => I.order(InnerOf(es.value), Keep(d, RootsOfKeys(InnerOf(es.value))))
       case Inner(inner) => I.named(es.name, InnerOf(es.value), Members(I, inner, InnerOf(es.value), d))
       case Evaluated(scope) => Meaning(I, scope, es.value, d)]
      + Members(I, place, es.rest, d)
  }

  /** The meaning of a $group body: its key and its accumulators. */
  ghost function GroupMeaning(I: Interp, body: Val, d: Entries): Den {
    if body.Doc? then I.record(body.entries, Members(I, GroupBody, body.entries, d)) else Meaning(I, {}, body, d)
  }

  // ------------------------------------------------------- what meaning depends on

  predicate StringNeedsOnly(scope: set<bytes>, s: bytes, keep: seq<bytes>) {
    if WholeVariable(s) then false
    else if Starts(s, DOLLARS) then forall r :: r in VariableReads(scope, s) ==> r in keep
    else Starts(s, DOLLAR) ==> Root(s[1..]) in keep
  }

  /** Every field the expression reads is among keep, and it does not read whole documents. */
  predicate NeedsOnly(sorters: set<bytes>, scope: set<bytes>, e: Val, keep: seq<bytes>)
    decreases e, 3
  {
    match e
    case Str(s) => StringNeedsOnly(scope, s, keep)
    case Arr(items) => ItemsNeedOnly(sorters, scope, items, keep)
    case Doc(es) =>
      MembersNeedOnly(sorters, if IsOperator(es) then Operators(scope) else Record(scope), es, keep)
    case _ => true
  }

  predicate ItemsNeedOnly(sorters: set<bytes>, scope: set<bytes>, items: Entries, keep: seq<bytes>)
    decreases items, 1
  {
    items.Entry? ==> NeedsOnly(sorters, scope, items.value, keep) && ItemsNeedOnly(sorters, scope, items.rest, keep)
  }

  predicate MembersNeedOnly(sorters: set<bytes>, place: Place, es: Entries, keep: seq<bytes>)
    decreases es, 1
  {
    es.Entry? ==>
      (match UseOf(sorters, place, es.name, es.value)
       case Whole => false
       case Fixed => true
       case Ordering => forall r :: r in RootsOfKeys(InnerOf(es.value)) ==> r in keep
       case Inner(inner) => MembersNeedOnly(sorters, inner, InnerOf(es.value), keep)
       case Evaluated(scope) => NeedsOnly(sorters, scope, es.value, keep))
      && MembersNeedOnly(sorters, place, es.rest, keep)
  }

  predicate GroupNeedsOnly(sorters: set<bytes>, body: Val, keep: seq<bytes>) {
    if body.Doc? then MembersNeedOnly(sorters, GroupBody, body.entries, keep) else NeedsOnly(sorters, {}, body, keep)
  }

  /** A document cut down to the fields an expression needs gives it the same meaning. */
  lemma {:induction false} MeaningKept(I: Interp, scope: set<bytes>, e: Val, d: Entries, keep: seq<bytes>)
    requires NeedsOnly(I.sorters, scope, e, keep)
    ensures Meaning(I, scope, e, Keep(d, keep)) == Meaning(I, scope, e, d)
    decreases e, 3
  {
    hide UseOf, VariableReads;
    match e {
      case Str(s) => StringKept(I, scope, s, d, keep);
      case Arr(items) => ItemsKept(I, scope, items, d, keep);
      case Doc(es) => MembersKept(I, if IsOperator(es) then Operators(scope) else Record(scope), es, d, keep);
      case _ =>
    }
  }

  lemma StringKept(I: Interp, scope: set<bytes>, s: bytes, d: Entries, keep: seq<bytes>)
    requires StringNeedsOnly(scope, s, keep)
    ensures StringMeaning(I, scope, s, Keep(d, keep)) == StringMeaning(I, scope, s, d)
  {
    hide VariableReads;
    if Starts(s, DOLLARS) {
      KeepOfKeep(d, keep, VariableReads(scope, s));
    } else if Starts(s, DOLLAR) {
      FieldOfKeep(d, keep, Root(s[1..]));
    }
  }

  lemma {:induction false} ItemsKept(I: Interp, scope: set<bytes>, items: Entries, d: Entries, keep: seq<bytes>)
    requires ItemsNeedOnly(I.sorters, scope, items, keep)
    ensures Items(I, scope, items, Keep(d, keep)) == Items(I, scope, items, d)
    decreases items, 1
  {
    if items.Entry? {
      MeaningKept(I, scope, items.value, d, keep);
      ItemsKept(I, scope, items.rest, d, keep);
    }
  }

  lemma {:induction false} MembersKept(I: Interp, place: Place, es: Entries, d: Entries, keep: seq<bytes>)
    requires MembersNeedOnly(I.sorters, place, es, keep)
    ensures Members(I, place, es, Keep(d, keep)) == Members(I, place, es, d)
    decreases es, 1
  {
    hide UseOf;
    if es.Entry? {
      match UseOf(I.sorters, place, es.name, es.value) {
        case Ordering => KeepOfKeep(d, keep, RootsOfKeys(InnerOf(es.value)));
        case Inner(inner) => MembersKept(I, inner, InnerOf(es.value), d, keep);
        case Evaluated(scope) => MeaningKept(I, scope, es.value, d, keep);
        case _ =>
      }
      MembersKept(I, place, es.rest, d, keep);
    }
  }

  lemma GroupKept(I: Interp, body: Val, d: Entries, keep: seq<bytes>)
    requires GroupNeedsOnly(I.sorters, body, keep)
    ensures GroupMeaning(I, body, Keep(d, keep)) == GroupMeaning(I, body, d)
  {
    hide Meaning, Members, NeedsOnly, MembersNeedOnly;
    if body.Doc? { MembersKept(I, GroupBody, body.entries, d, keep); } else { MeaningKept(I, {}, body, d, keep); }
  }

  // ---------------------------------------------------------- the condition is exact

  ghost function Hot(): Den { Const(Some(Null)) }

  ghost function Cold(): Den { Const(None) }

  lemma HotIsNotCold()
    ensures Hot() != Cold()
  {
    var vars: Vars := map[];
    assert Hot()[vars] == Some(Null) && Cold()[vars] == None;
  }

  ghost function Any(dens: seq<Den>): Den { if Hot() in dens then Hot() else Cold() }

  ghost function Seen(view: Entries, r: bytes): Den { if FieldOf(view, r).Some? then Hot() else Cold() }

  /** An interpretation under which an expression is hot when it looks at field r and r is there. */
  ghost function Probe(sorters: set<bytes>, r: bytes): Interp {
    Interp(
      (v: Val) => Cold(),
      (x: Option<Val>, path: bytes) => if x.Some? && Root(path) == r then Some(Null) else None,
      (s: bytes, view: Entries) => Seen(view, r),
      (items: Entries, dens: seq<Den>) => Any(dens),
      (es: Entries, dens: seq<Den>) => Any(dens),
      (es: Entries, dens: seq<Den>) => Any(dens),
      (op: bytes, es: Entries, dens: seq<Den>) => Any(dens),
      (es: Entries, view: Entries) => Seen(view, r),
      (e: Val, d: Entries) => Seen(d, r),
      sorters)
  }

  lemma {:induction false} FieldStaysOut(d: Entries, keep: seq<bytes>, r: bytes)
    requires r !in keep || FieldOf(d, r).None?
    ensures FieldOf(Keep(d, keep), r).None?
  {
    if d.Entry? { FieldStaysOut(d.rest, keep, r); }
  }

  lemma StringCold(sorters: set<bytes>, scope: set<bytes>, r: bytes, s: bytes, d: Entries)
    requires FieldOf(d, r).None?
    ensures StringMeaning(Probe(sorters, r), scope, s, d) == Cold()
  {
    hide VariableReads, FieldOf;
    if Starts(s, DOLLARS) { FieldStaysOut(d, VariableReads(scope, s), r); }
  }

  lemma {:induction false} ColdWithout(sorters: set<bytes>, scope: set<bytes>, r: bytes, e: Val, d: Entries)
    requires FieldOf(d, r).None?
    ensures Meaning(Probe(sorters, r), scope, e, d) == Cold()
    decreases e, 3
  {
    hide UseOf, IsOperator, FieldOf, StringMeaning, Items, Members;
    HotIsNotCold();
    match e {
      case Str(s) => StringCold(sorters, scope, r, s, d);
      case Arr(items) => ItemsCold(sorters, scope, r, items, d);
      case Doc(es) => MembersCold(sorters, if IsOperator(es) then Operators(scope) else Record(scope), r, es, d);
      case _ =>
    }
  }

  lemma {:induction false} ItemsCold(sorters: set<bytes>, scope: set<bytes>, r: bytes, items: Entries, d: Entries)
    requires FieldOf(d, r).None?
    ensures Hot() !in Items(Probe(sorters, r), scope, items, d)
    decreases items, 1
  {
    HotIsNotCold();
    if items.Entry? {
      ColdWithout(sorters, scope, r, items.value, d);
      ItemsCold(sorters, scope, r, items.rest, d);
    }
  }

  lemma {:induction false} MembersCold(sorters: set<bytes>, place: Place, r: bytes, es: Entries, d: Entries)
    requires FieldOf(d, r).None?
    ensures Hot() !in Members(Probe(sorters, r), place, es, d)
    decreases es, 1
  {
    hide UseOf, FieldOf;
    HotIsNotCold();
    if es.Entry? {
      match UseOf(sorters, place, es.name, es.value) {
        case Ordering => FieldStaysOut(d, RootsOfKeys(InnerOf(es.value)), r);
        case Inner(inner) => MembersCold(sorters, inner, r, InnerOf(es.value), d);
        case Evaluated(scope) => ColdWithout(sorters, scope, r, es.value, d);
        case _ =>
      }
      MembersCold(sorters, place, r, es.rest, d);
    }
  }

  /** A name that is not kept. */
  function Fresh(keep: seq<bytes>): (r: bytes)
    ensures forall x :: x in keep ==> |x| < |r|
  {
    if keep == [] then []
    else
      var r := Fresh(keep[1..]);
      var longer := if |r| > |keep[0]| then r else seq(|keep[0]| + 1, _ => 0);
      assert forall x :: x in keep ==> x == keep[0] || x in keep[1..];
      longer
  }

  function FirstOutside(roots: seq<bytes>, keep: seq<bytes>): (r: bytes)
    requires exists x :: x in roots && x !in keep
    ensures r in roots && r !in keep
  {
    if roots[0] !in keep then roots[0]
    else
      assert forall x :: x in roots ==> x == roots[0] || x in roots[1..];
      FirstOutside(roots[1..], keep)
  }

  function StringOutside(scope: set<bytes>, s: bytes, keep: seq<bytes>): (r: bytes)
    requires !StringNeedsOnly(scope, s, keep)
    ensures r !in keep
  {
    if WholeVariable(s) then Fresh(keep)
    else if Starts(s, DOLLARS) then FirstOutside(VariableReads(scope, s), keep)
    else Root(s[1..])
  }

  /** A field the expression reads that is not kept. */
  function Outside(sorters: set<bytes>, scope: set<bytes>, e: Val, keep: seq<bytes>): (r: bytes)
    requires !NeedsOnly(sorters, scope, e, keep)
    ensures r !in keep
    decreases e, 3
  {
    match e
    case Str(s) => StringOutside(scope, s, keep)
    case Arr(items) => ItemOutside(sorters, scope, items, keep)
    case Doc(es) => MemberOutside(sorters, if IsOperator(es) then Operators(scope) else Record(scope), es, keep)
  }

  function ItemOutside(sorters: set<bytes>, scope: set<bytes>, items: Entries, keep: seq<bytes>): (r: bytes)
    requires !ItemsNeedOnly(sorters, scope, items, keep)
    ensures r !in keep
    decreases items, 1
  {
    if !NeedsOnly(sorters, scope, items.value, keep) then Outside(sorters, scope, items.value, keep)
    else ItemOutside(sorters, scope, items.rest, keep)
  }

  function MemberOutside(sorters: set<bytes>, place: Place, es: Entries, keep: seq<bytes>): (r: bytes)
    requires !MembersNeedOnly(sorters, place, es, keep)
    ensures r !in keep
    decreases es, 1
  {
    if !MembersNeedOnly(sorters, place, es.rest, keep) then MemberOutside(sorters, place, es.rest, keep)
    else
      match UseOf(sorters, place, es.name, es.value)
      case Whole => Fresh(keep)
      case Ordering => FirstOutside(RootsOfKeys(InnerOf(es.value)), keep)
      case Inner(inner) => MemberOutside(sorters, inner, InnerOf(es.value), keep)
      case Evaluated(scope) => Outside(sorters, scope, es.value, keep)
  }

  function GroupOutside(sorters: set<bytes>, body: Val, keep: seq<bytes>): (r: bytes)
    requires !GroupNeedsOnly(sorters, body, keep)
    ensures r !in keep
  {
    if body.Doc? then MemberOutside(sorters, GroupBody, body.entries, keep) else Outside(sorters, {}, body, keep)
  }

  lemma StringHot(sorters: set<bytes>, scope: set<bytes>, s: bytes, keep: seq<bytes>, d: Entries)
    requires !StringNeedsOnly(scope, s, keep) && FieldOf(d, StringOutside(scope, s, keep)).Some?
    ensures StringMeaning(Probe(sorters, StringOutside(scope, s, keep)), scope, s, d) == Hot()
  {
    hide VariableReads;
    if !WholeVariable(s) && Starts(s, DOLLARS) {
      FieldOfKeep(d, VariableReads(scope, s), StringOutside(scope, s, keep));
    }
  }

  lemma {:induction false} HotOutside(sorters: set<bytes>, scope: set<bytes>, e: Val, keep: seq<bytes>, d: Entries)
    requires !NeedsOnly(sorters, scope, e, keep) && FieldOf(d, Outside(sorters, scope, e, keep)).Some?
    ensures Meaning(Probe(sorters, Outside(sorters, scope, e, keep)), scope, e, d) == Hot()
    decreases e, 3
  {
    hide UseOf, IsOperator, StringMeaning, StringOutside, StringNeedsOnly;
    match e {
      case Str(s) => StringHot(sorters, scope, s, keep, d);
      case Arr(items) => ItemsHot(sorters, scope, items, keep, d);
      case Doc(es) => MembersHot(sorters, if IsOperator(es) then Operators(scope) else Record(scope), es, keep, d);
    }
  }

  lemma {:induction false} ItemsHot(
      sorters: set<bytes>, scope: set<bytes>, items: Entries, keep: seq<bytes>, d: Entries)
    requires !ItemsNeedOnly(sorters, scope, items, keep)
    requires FieldOf(d, ItemOutside(sorters, scope, items, keep)).Some?
    ensures Hot() in Items(Probe(sorters, ItemOutside(sorters, scope, items, keep)), scope, items, d)
    decreases items, 1
  {
    if !NeedsOnly(sorters, scope, items.value, keep) {
      HotOutside(sorters, scope, items.value, keep, d);
      assert Items(Probe(sorters, ItemOutside(sorters, scope, items, keep)), scope, items, d)[0] == Hot();
    } else {
      ItemsHot(sorters, scope, items.rest, keep, d);
    }
  }

  lemma {:induction false} MembersHot(sorters: set<bytes>, place: Place, es: Entries, keep: seq<bytes>, d: Entries)
    requires !MembersNeedOnly(sorters, place, es, keep) && FieldOf(d, MemberOutside(sorters, place, es, keep)).Some?
    ensures Hot() in Members(Probe(sorters, MemberOutside(sorters, place, es, keep)), place, es, d)
    decreases es, 1
  {
    hide UseOf;
    if !MembersNeedOnly(sorters, place, es.rest, keep) {
      MembersHot(sorters, place, es.rest, keep, d);
    } else {
      var r := MemberOutside(sorters, place, es, keep);
      match UseOf(sorters, place, es.name, es.value) {
        case Ordering => FieldOfKeep(d, RootsOfKeys(InnerOf(es.value)), r);
        case Inner(inner) => MembersHot(sorters, inner, InnerOf(es.value), keep, d);
        case Evaluated(scope) => HotOutside(sorters, scope, es.value, keep, d);
        case _ =>
      }
      assert Members(Probe(sorters, r), place, es, d)[0] == Hot();
    }
  }

  /** Where NeedsOnly fails, an interpretation tells every document with a certain unkept field from its cut. */
  lemma MeaningLost(sorters: set<bytes>, scope: set<bytes>, e: Val, keep: seq<bytes>, d: Entries)
    requires !NeedsOnly(sorters, scope, e, keep) && FieldOf(d, Outside(sorters, scope, e, keep)).Some?
    ensures var I := Probe(sorters, Outside(sorters, scope, e, keep));
            Meaning(I, scope, e, Keep(d, keep)) != Meaning(I, scope, e, d)
  {
    hide Meaning, NeedsOnly, Outside, Probe;
    var r := Outside(sorters, scope, e, keep);
    HotOutside(sorters, scope, e, keep, d);
    FieldStaysOut(d, keep, r);
    ColdWithout(sorters, scope, r, e, Keep(d, keep));
    HotIsNotCold();
  }

  lemma GroupLost(sorters: set<bytes>, body: Val, keep: seq<bytes>, d: Entries)
    requires !GroupNeedsOnly(sorters, body, keep) && FieldOf(d, GroupOutside(sorters, body, keep)).Some?
    ensures var I := Probe(sorters, GroupOutside(sorters, body, keep));
            GroupMeaning(I, body, Keep(d, keep)) != GroupMeaning(I, body, d)
  {
    hide Meaning, Members, NeedsOnly, MembersNeedOnly, Outside, MemberOutside;
    var r := GroupOutside(sorters, body, keep);
    if body.Doc? {
      MembersHot(sorters, GroupBody, body.entries, keep, d);
      FieldStaysOut(d, keep, r);
      MembersCold(sorters, GroupBody, r, body.entries, Keep(d, keep));
      HotIsNotCold();
    } else {
      MeaningLost(sorters, {}, body, keep, d);
    }
  }
}
