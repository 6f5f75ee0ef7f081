/**
 The analysis that finds the top-level fields an expression, a filter or a projection
 names, as the server computes it, and how it relates to what they really depend on.
 */
module FieldRoots {
  import opened Bytes
  import opened RawCodec
  import opened Expressions

  // ---------------------------------------------------------------- lists of roots

  function AddRoot(roots: seq<bytes>, root: bytes): seq<bytes> {
    if root in roots then roots else roots + [root]
  }

  function AddAll(roots: seq<bytes>, more: seq<bytes>): seq<bytes>
    decreases |more|
  {
    if more == [] then roots else AddAll(AddRoot(roots, more[0]), more[1..])
  }

  lemma {:induction false} AddAllConcat(roots: seq<bytes>, a: seq<bytes>, b: seq<bytes>)
    ensures AddAll(roots, a + b) == AddAll(AddAll(roots, a), b)
    decreases |a|
  {
    if a == [] {
      assert a + b == b;
    } else {
      assert (a + b)[0] == a[0] && (a + b)[1..] == a[1..] + b;
      AddAllConcat(AddRoot(roots, a[0]), a[1..], b);
    }
  }

  lemma {:induction false} AddAllMembers(roots: seq<bytes>, more: seq<bytes>, x: bytes)
    ensures x in AddAll(roots, more) <==> x in roots || x in more
    decreases |more|
  {
    if more != [] {
      AddAllMembers(AddRoot(roots, more[0]), more[1..], x);
      assert x in more <==> x == more[0] || x in more[1..];
    }
  }

  predicate Distinct(s: seq<bytes>) {
    forall i, j :: 0 <= i < j < |s| ==> s[i] != s[j]
  }

  lemma {:induction false} AddAllDistinct(roots: seq<bytes>, more: seq<bytes>)
    requires Distinct(roots)
    ensures Distinct(AddAll(roots, more))
    decreases |more|
  {
    if more != [] { AddAllDistinct(AddRoot(roots, more[0]), more[1..]); }
  }

  lemma AddOne(roots: seq<bytes>, root: bytes)
    ensures AddAll(roots, [root]) == AddRoot(roots, root)
  {
    assert [root][1..] == [];
    assert AddAll(AddRoot(roots, root), []) == AddRoot(roots, root);
  }

  // ------------------------------------------------------------------ expressions

  function Both(a: Option<seq<bytes>>, b: Option<seq<bytes>>): Option<seq<bytes>> {
    if a.Some? && b.Some? then Some(a.value + b.value) else None
  }

  /** The roots an expression names, in order; None where it can read the whole document. */
  function Mentions(e: Val): Option<seq<bytes>>
    decreases e, 3
  {
    match e
    case Str(s) =>
      if Starts(s, DOLLARS) then if WholeVariable(s) then None else Some([])
      else if Starts(s, DOLLAR) then Some([Root(s[1..])])
      else Some([])
    case Arr(items) => ItemMentions(items)
    case Doc(es) => DocMentions(es)
    case _ => Some([])
  }

  function ItemMentions(items: Entries): Option<seq<bytes>>
    decreases items, 1
  {
    if items.Nil? then Some([]) else Both(Mentions(items.value), ItemMentions(items.rest))
  }

  function EntryMentions(name: bytes, value: Val): Option<seq<bytes>>
    decreases value, 4
  {
    if ReadsAll(name) then None
    else if Literal(name) then Some([])
    else if SortBy(name) then if value.Doc? then Some(RootsOfKeys(value.entries)) else None
    else Mentions(value)
  }

  function DocMentions(es: Entries): Option<seq<bytes>>
    decreases es, 1
  {
    if es.Nil? then Some([]) else Both(EntryMentions(es.name, es.value), DocMentions(es.rest))
  }

  /**
   The analysis takes $literal for the operator and a sortBy that holds a document for a sort
   order, whatever they are. Here that is what they are.
   */
  predicate KeyProper(sorters: set<bytes>, place: Place, name: bytes, value: Val) {
    var use := UseOf(sorters, place, name, value);
    use.Inner? || use.Evaluated? ==> !Literal(name) && !(SortBy(name) && value.Doc?)
  }

  predicate ExprProper(sorters: set<bytes>, scope: set<bytes>, e: Val)
    decreases e, 3
  {
    match e
    case Arr(items) => ItemsProper(sorters, scope, items)
    case Doc(es) => MembersProper(sorters, if IsOperator(es) then Operators(scope) else Record(scope), es)
    case _ => true
  }

  predicate ItemsProper(sorters: set<bytes>, scope: set<bytes>, items: Entries)
    decreases items, 1
  {
    items.Entry? ==> ExprProper(sorters, scope, items.value) && ItemsProper(sorters, scope, items.rest)
  }

  predicate MembersProper(sorters: set<bytes>, place: Place, es: Entries)
    decreases es, 1
  {
    es.Entry? ==>
      KeyProper(sorters, place, es.name, es.value)
      && (match UseOf(sorters, place, es.name, es.value)
          case Inner(inner) => MembersProper(sorters, inner, InnerOf(es.value))
          case Evaluated(scope) => ExprProper(sorters, scope, es.value)
          case _ => true)
      && MembersProper(sorters, place, es.rest)
  }

  predicate GroupProper(sorters: set<bytes>, body: Val) {
    if body.Doc? then MembersProper(sorters, GroupBody, body.entries) else ExprProper(sorters, {}, body)
  }

  /** The fields of stored documents that variables no operator binds are looked for under. */
  function FreeReads(sorters: set<bytes>, scope: set<bytes>, e: Val): seq<bytes>
    decreases e, 3
  {
    match e
    case Str(s) => if Starts(s, DOLLARS) then VariableReads(scope, s) else []
    case Arr(items) => ItemsFree(sorters, scope, items)
    case Doc(es) => MembersFree(sorters, if IsOperator(es) then Operators(scope) else Record(scope), es)
    case _ => []
  }

  function ItemsFree(sorters: set<bytes>, scope: set<bytes>, items: Entries): seq<bytes>
    decreases items, 1
  {
    if items.Nil? then [] else FreeReads(sorters, scope, items.value) + ItemsFree(sorters, scope, items.rest)
  }

  function MembersFree(sorters: set<bytes>, place: Place, es: Entries): seq<bytes>
    decreases es, 1
  {
    if es.Nil? then []
    else
      (match UseOf(sorters, place, es.name, es.value)
       case Inner(inner) => MembersFree(sorters, inner, InnerOf(es.value))
       case Evaluated(scope) => FreeReads(sorters, scope, es.value)
       case _ => [])
      + MembersFree(sorters, place, es.rest)
  }

  function GroupFree(sorters: set<bytes>, body: Val): seq<bytes> {
    if body.Doc? then MembersFree(sorters, GroupBody, body.entries) else FreeReads(sorters, {}, body)
  }

  predicate AllIn(some: seq<bytes>, keep: seq<bytes>) { forall r :: r in some ==> r in keep }

  lemma AllInBoth(a: seq<bytes>, b: seq<bytes>, keep: seq<bytes>)
    ensures AllIn(a + b, keep) <==> AllIn(a, keep) && AllIn(b, keep)
  {
    if AllIn(a + b, keep) {
      forall r | r in a ensures r in keep { assert r in a + b; }
      forall r | r in b ensures r in keep { assert r in a + b; }
    }
  }

  predicate Dollared(names: seq<bytes>) { forall r :: r in names ==> Starts(r, DOLLARS) }

  lemma VariableReadsDollared(scope: set<bytes>, s: bytes)
    requires Starts(s, DOLLARS)
    ensures Dollared(VariableReads(scope, s))
  {
    var name := Root(s[2..]);
    assert Slot(name)[..2] == DOLLARS;
    var prefix := Ascii("$$$missing:");
    assert prefix[0] == 36 && prefix[1] == 36;
    assert Marker(name)[..2] == DOLLARS;
  }

  /** They all start with two dollars. */
  lemma {:induction false} FreeReadsDollared(sorters: set<bytes>, scope: set<bytes>, e: Val)
    ensures Dollared(FreeReads(sorters, scope, e))
    decreases e, 3
  {
    hide Starts, VariableReads, IsOperator;
    match e {
      case Str(s) => if Starts(s, DOLLARS) { VariableReadsDollared(scope, s); }
      case Arr(items) => ItemsFreeDollared(sorters, scope, items);
      case Doc(es) => MembersFreeDollared(sorters, if IsOperator(es) then Operators(scope) else Record(scope), es);
      case _ =>
    }
  }

  lemma {:induction false} ItemsFreeDollared(sorters: set<bytes>, scope: set<bytes>, items: Entries)
    ensures Dollared(ItemsFree(sorters, scope, items))
    decreases items, 1
  {
    hide Starts;
    if items.Entry? {
      FreeReadsDollared(sorters, scope, items.value);
      ItemsFreeDollared(sorters, scope, items.rest);
    }
  }

  lemma {:induction false} MembersFreeDollared(sorters: set<bytes>, place: Place, es: Entries)
    ensures Dollared(MembersFree(sorters, place, es))
    decreases es, 1
  {
    hide Starts, UseOf;
    if es.Entry? {
      match UseOf(sorters, place, es.name, es.value) {
        case Inner(inner) => MembersFreeDollared(sorters, inner, InnerOf(es.value));
        case Evaluated(scope) => FreeReadsDollared(sorters, scope, es.value);
        case _ =>
      }
      MembersFreeDollared(sorters, place, es.rest);
    }
  }

  ghost predicate Within(ms: Option<seq<bytes>>, keep: seq<bytes>) {
    ms.Some? && forall r :: r in ms.value ==> r in keep
  }

  lemma WithinBoth(a: Option<seq<bytes>>, b: Option<seq<bytes>>, keep: seq<bytes>)
    ensures Within(Both(a, b), keep) <==> Within(a, keep) && Within(b, keep)
  {
    if Within(Both(a, b), keep) {
      forall r | r in a.value ensures r in keep { assert r in a.value + b.value; }
      forall r | r in b.value ensures r in keep { assert r in a.value + b.value; }
    }
  }

  /**
   Where keys are what the analysis takes them for, what an expression names, and what its
   free variables are looked for under, is all it needs.
   */
  lemma {:induction false} MentionsCover(sorters: set<bytes>, scope: set<bytes>, e: Val, keep: seq<bytes>)
    requires Within(Mentions(e), keep) && ExprProper(sorters, scope, e) && AllIn(FreeReads(sorters, scope, e), keep)
    ensures NeedsOnly(sorters, scope, e, keep)
    decreases e, 3
  {
    hide UseOf, VariableReads, IsOperator;
    match e {
      case Str(s) =>
        if Starts(s, DOLLAR) && !Starts(s, DOLLARS) { assert Root(s[1..]) in [Root(s[1..])]; }
      case Arr(items) => ItemsCover(sorters, scope, items, keep);
      case Doc(es) => MembersCover(sorters, if IsOperator(es) then Operators(scope) else Record(scope), es, keep);
      case _ =>
    }
  }

  lemma {:induction false} ItemsCover(sorters: set<bytes>, scope: set<bytes>, items: Entries, keep: seq<bytes>)
    requires Within(ItemMentions(items), keep) && ItemsProper(sorters, scope, items)
    requires AllIn(ItemsFree(sorters, scope, items), keep)
    ensures ItemsNeedOnly(sorters, scope, items, keep)
    decreases items, 1
  {
    if items.Entry? {
      WithinBoth(Mentions(items.value), ItemMentions(items.rest), keep);
      AllInBoth(FreeReads(sorters, scope, items.value), ItemsFree(sorters, scope, items.rest), keep);
      MentionsCover(sorters, scope, items.value, keep);
      ItemsCover(sorters, scope, items.rest, keep);
    }
  }

  lemma SortByIsPlain(name: bytes)
    requires SortBy(name)
    ensures !ReadsAll(name) && !Literal(name) && !Starts(name, DOLLAR)
  {
    assert name[0] == 115;
    assert Ascii("$literal")[0] == 36;
    assert Ascii("$function")[0] == 36 && Ascii("$accumulator")[0] == 36 && Ascii("$getField")[0] == 36;
    assert Ascii("$setField")[0] == 36 && Ascii("$unsetField")[0] == 36;
    assert name[..1][0] != DOLLAR[0];
  }

  /** The values an entry holds inside it are named with it. */
  lemma InnerMentions(v: Val, keep: seq<bytes>)
    requires Within(Mentions(v), keep) && (v.Doc? || (v.Arr? && v.items.Entry? && v.items.value.Doc?))
    ensures Within(DocMentions(InnerOf(v)), keep)
  {
    if v.Arr? {
      assert Mentions(v) == ItemMentions(v.items);
      assert ItemMentions(v.items) == Both(Mentions(v.items.value), ItemMentions(v.items.rest));
      WithinBoth(Mentions(v.items.value), ItemMentions(v.items.rest), keep);
      assert Mentions(v.items.value) == DocMentions(v.items.value.entries);
    }
  }

  /** What the analysis takes an entry for, according to its use. */
  lemma UseMentions(sorters: set<bytes>, place: Place, name: bytes, value: Val, keep: seq<bytes>)
    requires Within(EntryMentions(name, value), keep) && KeyProper(sorters, place, name, value)
    ensures var use := UseOf(sorters, place, name, value);
            !use.Whole? && (use.Ordering? ==> AllIn(RootsOfKeys(value.entries), keep))
            && (use.Inner? || use.Evaluated? ==> Within(Mentions(value), keep))
  {
    hide ReadsAll, Literal, Mentions, NamedForm, Binds, NamesVariable, HoldsVariables;
    if SortBy(name) { SortByIsPlain(name); }
  }

  lemma FreeParts(sorters: set<bytes>, place: Place, es: Entries, keep: seq<bytes>)
    requires es.Entry? && AllIn(MembersFree(sorters, place, es), keep)
    ensures AllIn(MembersFree(sorters, place, es.rest), keep)
    ensures match UseOf(sorters, place, es.name, es.value)
            case Inner(inner) => AllIn(MembersFree(sorters, inner, InnerOf(es.value)), keep)
            case Evaluated(scope) => AllIn(FreeReads(sorters, scope, es.value), keep)
            case _ => true
  {
    hide UseOf;
    var rest := MembersFree(sorters, place, es.rest);
    match UseOf(sorters, place, es.name, es.value) {
      case Inner(inner) => AllInBoth(MembersFree(sorters, inner, InnerOf(es.value)), rest, keep);
      case Evaluated(scope) => AllInBoth(FreeReads(sorters, scope, es.value), rest, keep);
      case _ => AllInBoth([], rest, keep);
    }
  }

  lemma {:induction false} MembersCover(sorters: set<bytes>, place: Place, es: Entries, keep: seq<bytes>)
    requires Within(DocMentions(es), keep) && MembersProper(sorters, place, es)
    requires AllIn(MembersFree(sorters, place, es), keep)
    ensures MembersNeedOnly(sorters, place, es, keep)
    decreases es, 1
  {
    hide UseOf, EntryMentions, KeyProper, Mentions;
    if es.Entry? {
      WithinBoth(EntryMentions(es.name, es.value), DocMentions(es.rest), keep);
      UseMentions(sorters, place, es.name, es.value, keep);
      FreeParts(sorters, place, es, keep);
      match UseOf(sorters, place, es.name, es.value) {
        case Inner(inner) =>
          InnerMentions(es.value, keep);
          MembersCover(sorters, inner, InnerOf(es.value), keep);
        case Evaluated(scope) => MentionsCover(sorters, scope, es.value, keep);
        case _ =>
      }
      MembersCover(sorters, place, es.rest, keep);
    }
  }

  lemma GroupCover(sorters: set<bytes>, body: Val, keep: seq<bytes>)
    requires Within(Mentions(body), keep) && GroupProper(sorters, body) && AllIn(GroupFree(sorters, body), keep)
    ensures GroupNeedsOnly(sorters, body, keep)
  {
    if body.Doc? {
      assert Mentions(body) == DocMentions(body.entries);
      MembersCover(sorters, GroupBody, body.entries, keep);
    } else {
      MentionsCover(sorters, {}, body, keep);
    }
  }

  lemma GroupFreeDollared(sorters: set<bytes>, body: Val)
    ensures Dollared(GroupFree(sorters, body))
  {
    if body.Doc? { MembersFreeDollared(sorters, GroupBody, body.entries); }
    else { FreeReadsDollared(sorters, {}, body); }
  }

  method AppendExprRootFields(e: Val, roots: seq<bytes>) returns (ok: bool, out: seq<bytes>)
    ensures ok <==> Mentions(e).Some?
    ensures ok ==> out == AddAll(roots, Mentions(e).value)
    decreases e
  {
    out := roots;
    match e {
      case Str(s) =>
        if Starts(s, DOLLARS) { return !WholeVariable(s), out; }
        if Starts(s, DOLLAR) {
          AddOne(roots, Root(s[1..]));
          out := AddRoot(roots, Root(s[1..]));
        }
        return true, out;
      case Arr(items) =>
        var left := items;
        while left.Entry?
          invariant left == items || left < items
          invariant ItemMentions(items).Some? <==> ItemMentions(left).Some?
          invariant ItemMentions(left).Some?
                    ==> AddAll(roots, ItemMentions(items).value) == AddAll(out, ItemMentions(left).value)
          decreases left
        {
          var fine, more := AppendExprRootFields(left.value, out);
          if !fine { return false, out; }
          BothAdds(out, Mentions(left.value), ItemMentions(left.rest));
          out, left := more, left.rest;
        }
        return true, out;
      case Doc(es) =>
        ok, out := AppendDocRootFields(es, roots);
      case _ =>
        return true, out;
    }
  }

  method AppendDocRootFields(es: Entries, roots: seq<bytes>) returns (ok: bool, out: seq<bytes>)
    ensures ok <==> DocMentions(es).Some?
    ensures ok ==> out == AddAll(roots, DocMentions(es).value)
    decreases es
  {
    hide ReadsAll, Literal, SortBy;
    out := roots;
    var left := es;
    while left.Entry?
      invariant left == es || left < es
      invariant DocMentions(es).Some? <==> DocMentions(left).Some?
      invariant DocMentions(left).Some? ==> AddAll(roots, DocMentions(es).value) == AddAll(out, DocMentions(left).value)
      decreases left
    {
      if ReadsAll(left.name) { return false, out; }
      ghost var before := out;
      if Literal(left.name) {
      } else if SortBy(left.name) {
        if !left.value.Doc? { return false, out; }
        out := AppendKeys(left.value.entries, out);
      } else {
        var fine, more := AppendExprRootFields(left.value, out);
        if !fine { return false, out; }
        out := more;
      }
      BothAdds(before, EntryMentions(left.name, left.value), DocMentions(left.rest));
      left := left.rest;
    }
    return true, out;
  }

  method AppendKeys(es: Entries, roots: seq<bytes>) returns (out: seq<bytes>)
    ensures out == AddAll(roots, RootsOfKeys(es))
  {
    out := roots;
    var left := es;
    while left.Entry?
      invariant AddAll(roots, RootsOfKeys(es)) == AddAll(out, RootsOfKeys(left))
      decreases left
    {
      AddAllConcat(out, [Root(left.name)], RootsOfKeys(left.rest));
      AddOne(out, Root(left.name));
      out, left := AddRoot(out, Root(left.name)), left.rest;
    }
  }

  lemma BothAdds(roots: seq<bytes>, a: Option<seq<bytes>>, b: Option<seq<bytes>>)
    ensures a.Some? && b.Some? ==> AddAll(roots, Both(a, b).value) == AddAll(AddAll(roots, a.value), b.value)
  {
    if a.Some? && b.Some? { AddAllConcat(roots, a.value, b.value); }
  }

  // --------------------------------------------------------- where it names too little

  /** {_id: null, sortBy: {$sum: "$x"}} as the body of a $group: an output field that happens to be called sortBy. */
  function Misnamed(): Val {
    Doc(Entry(Ascii("_id"), Null, Entry(Ascii("sortBy"), Doc(Entry(Ascii("$sum"), Str([36, 120]), Nil)), Nil)))
  }

  lemma PlainKey(name: bytes)
    requires name != [] && name[0] != 36
    ensures !ReadsAll(name) && !Literal(name) && !Starts(name, DOLLAR)
  {
    assert Ascii("$literal")[0] == 36;
    assert Ascii("$function")[0] == 36 && Ascii("$accumulator")[0] == 36 && Ascii("$getField")[0] == 36;
    assert Ascii("$setField")[0] == 36 && Ascii("$unsetField")[0] == 36;
    assert name[..1][0] != DOLLAR[0];
  }

  lemma RootOfX()
    ensures Root([36, 120][1..]) == [120]
    ensures Root(Ascii("$sum")) != [120]
    ensures !ReadsAll(Ascii("$sum")) && !Literal(Ascii("$sum")) && Starts(Ascii("$sum"), DOLLAR)
  {
    var x := [36, 120][1..];
    assert x == [120] && x[1..] == [];
    assert FirstDot(x) == 1 + FirstDot([]);
    var sum := Ascii("$sum");
    assert sum[0] == 36 && |sum| == 4;
    assert Root(sum)[0] == 36;
    assert sum[..1] == DOLLAR;
    assert |Ascii("$literal")| == 8;
    assert |Ascii("$function")| == 9 && |Ascii("$accumulator")| == 12 && |Ascii("$getField")| == 9;
    assert |Ascii("$setField")| == 9 && |Ascii("$unsetField")| == 11;
  }

  /** The analysis takes the accumulator for a sort order: it lists the field "$sum" and not x. */
  lemma MisnamedMentions()
    ensures Mentions(Misnamed()) == Some([Root(Ascii("$sum"))])
  {
    var sum := Entry(Ascii("$sum"), Str([36, 120]), Nil);
    var tail := Entry(Ascii("sortBy"), Doc(sum), Nil);
    PlainKey(Ascii("_id"));
    SortByIsPlain(Ascii("sortBy"));
    assert !SortBy(Ascii("_id")) && SortBy(Ascii("sortBy")) by { assert |Ascii("_id")| == 3; }
    hide ReadsAll, Literal, SortBy, Root, Ascii;
    var keep := RootsOfKeys(sum);
    assert keep == [Root(Ascii("$sum"))] + RootsOfKeys(Nil);
    assert DocMentions(tail) == Both(Some(keep), Some([]));
    assert EntryMentions(Ascii("_id"), Null) == Some([]);
    assert DocMentions(Entry(Ascii("_id"), Null, tail)) == Both(Some([]), DocMentions(tail));
    assert [] + (keep + []) == keep == [Root(Ascii("$sum"))];
    assert Misnamed() == Doc(Entry(Ascii("_id"), Null, tail));
    assert Mentions(Misnamed()) == DocMentions(Entry(Ascii("_id"), Null, tail));
  }

  lemma SumReadsX(sorters: set<bytes>, keep: seq<bytes>)
    requires [120] !in keep
    ensures !NeedsOnly(sorters, {}, Doc(Entry(Ascii("$sum"), Str([36, 120]), Nil)), keep)
  {
    var sum := Entry(Ascii("$sum"), Str([36, 120]), Nil);
    RootOfX();
    ReadsX(keep);
    hide StringNeedsOnly, ReadsAll, Literal, Ascii;
    assert !NeedsOnly(sorters, {}, Str([36, 120]), keep);
    assert UseOf(sorters, Operators({}), Ascii("$sum"), Str([36, 120])) == Evaluated({});
    assert !MembersNeedOnly(sorters, Operators({}), sum, keep);
    assert IsOperator(sum);
  }

  lemma MisnamedNeedsX(sorters: set<bytes>, keep: seq<bytes>)
    requires [120] !in keep
    ensures !GroupNeedsOnly(sorters, Misnamed(), keep) && !NeedsOnly(sorters, {}, Misnamed(), keep)
  {
    var sum := Entry(Ascii("$sum"), Str([36, 120]), Nil);
    var tail := Entry(Ascii("sortBy"), Doc(sum), Nil);
    var es := Entry(Ascii("_id"), Null, tail);
    assert Misnamed() == Doc(es);
    PlainKey(Ascii("_id"));
    SortByIsPlain(Ascii("sortBy"));
    assert Ascii("sortBy") != Ascii("_id") by { assert |Ascii("_id")| == 3; }
    SumReadsX(sorters, keep);
    hide NeedsOnly, ReadsAll, Literal, Ascii;
    assert UseOf(sorters, GroupBody, Ascii("sortBy"), Doc(sum)) == Evaluated({});
    assert !MembersNeedOnly(sorters, GroupBody, tail, keep) && !MembersNeedOnly(sorters, Record({}), tail, keep);
    assert !MembersNeedOnly(sorters, GroupBody, es, keep) && !MembersNeedOnly(sorters, Record({}), es, keep);
    assert !IsOperator(tail) && !IsOperator(es);
    NeedsMembers(sorters, es, keep);
  }

  lemma NeedsMembers(sorters: set<bytes>, es: Entries, keep: seq<bytes>)
    requires !IsOperator(es)
    ensures NeedsOnly(sorters, {}, Doc(es), keep) <==> MembersNeedOnly(sorters, Record({}), es, keep)
  {
  }

  lemma ReadsX(keep: seq<bytes>)
    requires [120] !in keep
    ensures !StringNeedsOnly({}, [36, 120], keep)
  {
    RootOfX();
    assert [36, 120][..2] != DOLLARS;
    assert [36, 120][..1] == DOLLAR;
  }

  /** So there is a document that means something else once it is cut down to the fields listed. */
  lemma MisnamedLosesMeaning(sorters: set<bytes>) returns (I: Interp, d: Entries)
    ensures I.sorters == sorters && Mentions(Misnamed()).Some?
    ensures GroupMeaning(I, Misnamed(), Keep(d, Mentions(Misnamed()).value)) != GroupMeaning(I, Misnamed(), d)
  {
    hide GroupNeedsOnly, GroupMeaning, Mentions;
    MisnamedMentions();
    RootOfX();
    var keep := Mentions(Misnamed()).value;
    MisnamedNeedsX(sorters, keep);
    var r := GroupOutside(sorters, Misnamed(), keep);
    I, d := Probe(sorters, r), Entry(r, Null, Nil);
    GroupLost(sorters, Misnamed(), keep, d);
  }
}
