/**
 Inclusion projections, of find and of the $project stage: what of the source document
 their output is made from, and the top-level fields the analysis lists for them.
 */
module Projections {
  import opened Bytes
  import opened RawCodec
  import opened Expressions
  import opened FieldRoots

  predicate IsFlag(v: Val) { v.Bool? || v.Int32? || v.Int64? || v.Double? }

  /** Non-zero, where a double is zero with either sign. */
  predicate Truthy(v: Val)
    requires IsFlag(v)
  {
    match v
    case Bool(b) => b
    case Int32(i) => i != 0
    case Int64(i) => i != 0
    case Double(bits) => bits != 0 && bits != I63
  }

  /** Types that $project writes out as they are. */
  predicate PlainValue(v: Val) { v.Binary? || v.ObjectId? || v.DateTime? || v.Null? || v.Regex? || v.Timestamp? }

  predicate IdOff(key: bytes, v: Val, top: bool) { top && key == Ascii("_id") && IsFlag(v) && !Truthy(v) }

  /** Operators are recognised here by the first key alone. */
  predicate Commanded(es: Entries) { Starts(FirstKey(es), DOLLAR) }

  /** find's own array operators, which act on the stored value at their key. */
  predicate Slices(find: bool, es: Entries) {
    find && (FirstKey(es) == Ascii("$slice") || FirstKey(es) == Ascii("$elemMatch"))
  }

  predicate Meta(es: Entries) { FirstKey(es) == Ascii("$meta") }

  predicate IsExpression(find: bool, v: Val) {
    v.Str? || v.Arr? || (v.Doc? && Commanded(v.entries) && !Slices(find, v.entries))
  }

  // ----------------------------------------------------------------- find's mode

  /** A projection with its nested documents written as dotted keys. */
  function Flat(prefix: bytes, p: Entries): seq<(bytes, Val)>
    decreases p
  {
    if p.Nil? then []
    else
      (if p.value.Doc? && p.value.entries.Entry? && !Commanded(p.value.entries)
       then Flat(prefix + p.name + [46], p.value.entries)
       else [(prefix + p.name, p.value)])
      + Flat(prefix, p.rest)
  }

  /** A find entry {$slice: ...}, which by itself neither includes nor excludes. */
  predicate Sliced(find: bool, v: Val) {
    find && v.Doc? && v.entries.Entry? && v.entries.rest.Nil? && v.entries.name == Ascii("$slice")
  }

  datatype Kind = Neutral | Plain(adds: bool) | Invalid

  function KindOf(find: bool, v: Val): Kind {
    if Sliced(find, v) then Neutral
    else if IsFlag(v) then Plain(Truthy(v))
    else if v.Doc? then if v.entries.Nil? then Invalid else Plain(true)
    else if v.Str? || v.Arr? || PlainValue(v) then Plain(true)
    else Invalid
  }

  datatype Mode = Inclusion | Exclusion | Refused

  predicate IsId(key: bytes) { key == Ascii("_id") }

  /** find's own operators that are not expressions, beside $slice. */
  predicate OwnOperator(v: Val) {
    v.Doc? && v.entries.Entry? && v.entries.rest.Nil?
    && (v.entries.name == Ascii("$elemMatch") || v.entries.name == Ascii("$meta"))
  }

  /**
   The validator's loop: the first field that is not _id or neutral sets the mode, and the
   others must agree. seen is that mode, idOn whether _id was a truthy flag, single whether
   there is one entry only.
   */
  function ModeFrom(find: bool, single: bool, left: seq<(bytes, Val)>, seen: Option<bool>, idOn: bool): Mode
    decreases |left|
  {
    if left == [] then
      match seen
      case Some(adds) => if adds then Inclusion else Exclusion
      case None => if !find then Refused else if idOn then Inclusion else Exclusion
    else
      var (key, v) := left[0];
      match KindOf(find, v)
      case Invalid => Refused
      case Neutral => ModeFrom(find, single, left[1..], seen, idOn)
      case Plain(adds) =>
        if single && IsId(key) then if adds then Inclusion else Exclusion
        else if find && v.Doc? && !OwnOperator(v) && seen == Some(false) then Refused
        else if find && !adds && key != [] && key[|key| - 1] == 36 then Refused
        else if IsId(key) then ModeFrom(find, single, left[1..], seen, idOn || (IsFlag(v) && adds))
        else if seen.None? then ModeFrom(find, single, left[1..], Some(adds), idOn)
        else if seen.value != adds then Refused
        else ModeFrom(find, single, left[1..], seen, idOn)
  }

  function ModeOf(find: bool, p: Entries): Mode {
    ModeFrom(find, |Flat([], p)| == 1, Flat([], p), None, false)
  }

  // --------------------------------------------------------------------- layout

  /** An entry only find knows, positional paths among them. */
  predicate FindOnly(e: (bytes, Val)) {
    (e.0 != [] && e.0[|e.0| - 1] == 36)
    || (e.1.Doc? && (Slices(true, e.1.entries) || Meta(e.1.entries)))
  }

  /** A projection that computes something below the top level is laid out as a tree, if find does not prevent it. */
  predicate ByTree(find: bool, flat: seq<(bytes, Val)>) {
    (exists i :: 0 <= i < |flat| && 46 in flat[i].0 && !IsFlag(flat[i].1))
    && !(find && exists i :: 0 <= i < |flat| && FindOnly(flat[i]))
  }

  /** Any other is laid out entry by entry: some entries insert a stored field where the source order has it, */
  predicate Inserts(find: bool, e: (bytes, Val)) {
    !IsId(e.0) && ((IsFlag(e.1) && Truthy(e.1)) || (e.1.Doc? && Slices(find, e.1.entries)))
  }

  /** and others write a field at the end. */
  predicate Writes(find: bool, e: (bytes, Val)) {
    !IsId(e.0) && !IsFlag(e.1) && !(e.1.Doc? && Slices(find, e.1.entries))
  }

  function WrittenName(e: (bytes, Val)): bytes { if e.1.Doc? || e.1.Arr? then Root(e.0) else e.0 }

  /** The fields written before some field is inserted; where that goes depends on where the source has them. */
  function WrittenFirst(find: bool, flat: seq<(bytes, Val)>): seq<bytes>
    decreases |flat|
  {
    if flat == [] then []
    else
      (if Writes(find, flat[0]) && exists i :: 1 <= i < |flat| && Inserts(find, flat[i]) then [WrittenName(flat[0])]
       else [])
      + WrittenFirst(find, flat[1..])
  }

  /** The fields whose place in the source document, beside those of the fields it includes, shapes the output. */
  function LayoutNames(find: bool, p: Entries): seq<bytes> {
    if ByTree(find, Flat([], p)) then [] else WrittenFirst(find, Flat([], p))
  }

  function NamesOf(d: Entries): seq<bytes> { if d.Nil? then [] else [d.name] + NamesOf(d.rest) }

  lemma {:induction false} NamesAreFields(d: Entries, r: bytes)
    ensures r in NamesOf(d) <==> FieldOf(d, r).Some?
  {
    if d.Entry? { NamesAreFields(d.rest, r); }
  }

  /**
   Where a field goes among those in the output so far: behind as many of them as the source
   has, in their order, before it.
   */
  function InsertAt(source: seq<bytes>, out: seq<bytes>, key: bytes): (n: nat)
    ensures n <= |out|
    decreases |source|
  {
    if source == [] || source[0] == key || out == [] then 0
    else if source[0] == out[0] then 1 + InsertAt(source[1..], out[1..], key)
    else InsertAt(source[1..], out, key)
  }

  /** setBySourceOrder, on the names of the fields. */
  method SetBySourceOrder(key: bytes, source: seq<bytes>, projected: seq<bytes>) returns (out: seq<bytes>)
    ensures var n := InsertAt(source, projected, key); out == projected[..n] + [key] + projected[n..]
  {
    var n, i := 0, 0;
    assert source[0..] == source && projected[0..] == projected;
    while i < |source| && source[i] != key && n < |projected|
      invariant 0 <= i <= |source| && 0 <= n <= |projected|
      invariant InsertAt(source, projected, key) == n + InsertAt(source[i..], projected[n..], key)
    {
      assert source[i..][1..] == source[i + 1..] && projected[n..][1..] == projected[n + 1..];
      if source[i] == projected[n] {
        n := n + 1;
      }
      i := i + 1;
    }
    out := projected[..n] + [key] + projected[n..];
  }

  /** That depends on no field of the source but those in the output and the one inserted. */
  lemma {:induction false} InsertKept(d: Entries, keep: seq<bytes>, out: seq<bytes>, key: bytes)
    requires key in keep && AllIn(out, keep)
    ensures InsertAt(NamesOf(Keep(d, keep)), out, key) == InsertAt(NamesOf(d), out, key)
    decreases d
  {
    if d.Entry? && d.name != key && out != [] {
      assert AllIn(out[1..], keep);
      InsertKept(d.rest, keep, out, key);
      InsertKept(d.rest, keep, out[1..], key);
      assert ([d.name] + NamesOf(d.rest))[1..] == NamesOf(d.rest);
      assert out[0] in out;
      assert ([d.name] + NamesOf(Keep(d.rest, keep)))[1..] == NamesOf(Keep(d.rest, keep));
    }
  }

  // -------------------------------------------------------------------- meaning

  predicate IncludesSomething(p: Entries, top: bool) {
    p.Entry? && (!IdOff(p.name, p.value, top) || IncludesSomething(p.rest, top))
  }

  /** The stored value at a key's root shapes the output: it is included, or mapped into. */
  predicate ShapedByStored(find: bool, key: bytes, v: Val) {
    46 in key
    || (IsFlag(v) && Truthy(v))
    || (v.Doc? && (!Commanded(v.entries) || Slices(find, v.entries)))
  }

  function ShapeRoots(find: bool, p: Entries): seq<bytes> {
    if p.Nil? then []
    else (if ShapedByStored(find, p.name, p.value) then [Root(p.name)] else []) + ShapeRoots(find, p.rest)
  }

  /** Laid out entry by entry, $project takes a variable named by itself for a built-in one or an error. */
  predicate NotLookedUp(find: bool, tree: bool, v: Val) {
    !find && !tree && v.Str? && Starts(v.text, DOLLARS) && !WholeVariable(v.text)
  }

  /** The meanings of the expressions in a projection, nested ones included. */
  ghost function Computed(I: Interp, find: bool, tree: bool, p: Entries, d: Entries): seq<Den>
    decreases p
  {
    if p.Nil? then []
    else
      (if NotLookedUp(find, tree, p.value) then [I.constant(p.value)]
       else if IsExpression(find, p.value) then [Meaning(I, {}, p.value, d)]
       else if p.value.Doc? && !Commanded(p.value.entries) then Computed(I, find, tree, p.value.entries, d)
       else [])
      + Computed(I, find, tree, p.rest, d)
  }

  /**
   What a projection makes its output from: an inclusion from some stored fields in their
   order, the order of the source document's fields as far as it matters, and computed values;
   an exclusion from the whole document, a refused one from nothing.
   */
  datatype View =
    | Shaped(stored: Entries, order: seq<bytes>, computed: seq<Den>)
    | Everything(doc: Entries)
    | Rejected

  function Stored(find: bool, p: Entries, also: seq<bytes>): seq<bytes> {
    [Ascii("_id")] + ShapeRoots(find, p) + also
  }

  /**
   malformed is a fault of its names or arguments; also are further roots it may
   consult, as a positional match does.
   */
  ghost function ViewOf(I: Interp, malformed: bool, find: bool, p: Entries, also: seq<bytes>, d: Entries): View {
    if malformed then Rejected
    else
      match ModeOf(find, p)
      case Refused => Rejected
      case Exclusion => Everything(d)
      case Inclusion =>
        Shaped(Keep(d, Stored(find, p, also)), NamesOf(Keep(d, Stored(find, p, also) + LayoutNames(find, p))),
               Computed(I, find, ByTree(find, Flat([], p)), p, d))
  }

  predicate ComputedNeedOnly(sorters: set<bytes>, find: bool, tree: bool, p: Entries, keep: seq<bytes>)
    decreases p
  {
    p.Entry? ==>
      (NotLookedUp(find, tree, p.value)
       || if IsExpression(find, p.value) then NeedsOnly(sorters, {}, p.value, keep)
          else p.value.Doc? && !Commanded(p.value.entries)
               ==> ComputedNeedOnly(sorters, find, tree, p.value.entries, keep))
      && ComputedNeedOnly(sorters, find, tree, p.rest, keep)
  }

  lemma {:induction false} ComputedKept(I: Interp, find: bool, tree: bool, p: Entries, d: Entries, keep: seq<bytes>)
    requires ComputedNeedOnly(I.sorters, find, tree, p, keep)
    ensures Computed(I, find, tree, p, Keep(d, keep)) == Computed(I, find, tree, p, d)
    decreases p
  {
    hide Meaning, NeedsOnly, Commanded, Slices, NotLookedUp;
    if p.Entry? {
      if NotLookedUp(find, tree, p.value) {
      } else if IsExpression(find, p.value) {
        MeaningKept(I, {}, p.value, d, keep);
      } else if p.value.Doc? && !Commanded(p.value.entries) {
        ComputedKept(I, find, tree, p.value.entries, d, keep);
      }
      ComputedKept(I, find, tree, p.rest, d, keep);
    }
  }

  // -------------------------------------------------------------------- analysis

  /** The roots one entry of a projection adds; None where the projection is not an inclusion. */
  function EntryRoots(find: bool, key: bytes, v: Val, top: bool): Option<seq<bytes>>
    decreases v, 1
  {
    var dotted := if 46 in key then [Root(key)] else [];
    if IsFlag(v) then
      if Truthy(v) then Some(dotted + [Root(key)]) else if top && key == Ascii("_id") then Some(dotted) else None
    else if v.Doc? then
      if Commanded(v.entries) then
        if Slices(find, v.entries) then Some(dotted + [Root(key)])
        else if Meta(v.entries) then None
        else Both(Some(dotted), Mentions(v))
      else Both(Some(dotted + [Root(key)]), ProjectionRoots(find, v.entries, false))
    else if v.Str? || v.Arr? then Both(Some(dotted), Mentions(v))
    else if !find && PlainValue(v) then Some(dotted)
    else None
  }

  function ProjectionRoots(find: bool, p: Entries, top: bool): Option<seq<bytes>>
    decreases p, 0
  {
    if p.Nil? then Some([]) else Both(EntryRoots(find, p.name, p.value, top), ProjectionRoots(find, p.rest, top))
  }

  /** The keys in a projection's expressions are what the analysis takes them for. */
  predicate ComputedProper(sorters: set<bytes>, find: bool, p: Entries)
    decreases p
  {
    p.Entry? ==>
      (if IsExpression(find, p.value) then ExprProper(sorters, {}, p.value)
       else p.value.Doc? && !Commanded(p.value.entries) ==> ComputedProper(sorters, find, p.value.entries))
      && ComputedProper(sorters, find, p.rest)
  }

  /** The fields of stored documents that its free variables are looked for under. */
  function ComputedFree(sorters: set<bytes>, find: bool, tree: bool, p: Entries): seq<bytes>
    decreases p
  {
    if p.Nil? then []
    else
      (if NotLookedUp(find, tree, p.value) then []
       else if IsExpression(find, p.value) then FreeReads(sorters, {}, p.value)
       else if p.value.Doc? && !Commanded(p.value.entries) then ComputedFree(sorters, find, tree, p.value.entries)
       else [])
      + ComputedFree(sorters, find, tree, p.rest)
  }

  lemma {:induction false} ComputedFreeDollared(sorters: set<bytes>, find: bool, tree: bool, p: Entries)
    ensures Dollared(ComputedFree(sorters, find, tree, p))
    decreases p
  {
    hide Starts, FreeReads, Commanded, Slices, NotLookedUp;
    if p.Entry? {
      FreeReadsDollared(sorters, {}, p.value);
      if p.value.Doc? { ComputedFreeDollared(sorters, find, tree, p.value.entries); }
      ComputedFreeDollared(sorters, find, tree, p.rest);
    }
  }

  lemma SliceIsNotMeta(find: bool, es: Entries)
    requires Slices(find, es)
    ensures !Meta(es)
  {
    assert |Ascii("$slice")| == 6 && |Ascii("$elemMatch")| == 10 && |Ascii("$meta")| == 5;
  }

  /** The analysis lists every stored field an inclusion is shaped by. */
  lemma {:induction false} RootsCoverShape(find: bool, p: Entries, top: bool, keep: seq<bytes>)
    requires Within(ProjectionRoots(find, p, top), keep)
    ensures forall r :: r in ShapeRoots(find, p) ==> r in keep
    decreases p
  {
    hide Mentions, Slices, Meta, Commanded, Truthy;
    if p.Entry? {
      WithinBoth(EntryRoots(find, p.name, p.value, top), ProjectionRoots(find, p.rest, top), keep);
      EntryCovers(find, p.name, p.value, top, keep);
      RootsCoverShape(find, p.rest, top, keep);
    }
  }

  lemma EntryCovers(find: bool, key: bytes, v: Val, top: bool, keep: seq<bytes>)
    requires Within(EntryRoots(find, key, v, top), keep)
    ensures ShapedByStored(find, key, v) ==> Root(key) in keep
    ensures IsFlag(v) ==> Truthy(v) || IdOff(key, v, top)
    ensures v.Doc? && Commanded(v.entries) ==> !Meta(v.entries)
    ensures v.Doc? && !Commanded(v.entries) ==> Within(ProjectionRoots(find, v.entries, false), keep)
    ensures IsExpression(find, v) ==> Within(Mentions(v), keep)
    ensures IsFlag(v) || v.Doc? || v.Str? || v.Arr? || (!find && PlainValue(v))
  {
    hide Mentions;
    var dotted := if 46 in key then [Root(key)] else [];
    assert 46 in key ==> Root(key) in dotted;
    WithinBoth(Some(dotted), Some([Root(key)]), keep);
    assert Root(key) in [Root(key)];
    if v.Doc? && Commanded(v.entries) && Slices(find, v.entries) { SliceIsNotMeta(find, v.entries); }
    if v.Doc? && Commanded(v.entries) && !Slices(find, v.entries) { WithinBoth(Some(dotted), Mentions(v), keep); }
    if v.Str? || v.Arr? { WithinBoth(Some(dotted), Mentions(v), keep); }
    if v.Doc? && !Commanded(v.entries) {
      WithinBoth(Some(dotted + [Root(key)]), ProjectionRoots(find, v.entries, false), keep);
    }
  }

  lemma {:induction false} RootsCoverComputed(
      sorters: set<bytes>, find: bool, tree: bool, p: Entries, top: bool, keep: seq<bytes>)
    requires Within(ProjectionRoots(find, p, top), keep) && ComputedProper(sorters, find, p)
    requires AllIn(ComputedFree(sorters, find, tree, p), keep)
    ensures ComputedNeedOnly(sorters, find, tree, p, keep)
    decreases p
  {
    hide Mentions, Slices, Meta, Commanded, Truthy, ExprProper, NeedsOnly, FreeReads, NotLookedUp, AllIn;
    if p.Entry? {
      WithinBoth(EntryRoots(find, p.name, p.value, top), ProjectionRoots(find, p.rest, top), keep);
      EntryCovers(find, p.name, p.value, top, keep);
      var rest := ComputedFree(sorters, find, tree, p.rest);
      if NotLookedUp(find, tree, p.value) {
        AllInBoth([], rest, keep);
      } else if IsExpression(find, p.value) {
        AllInBoth(FreeReads(sorters, {}, p.value), rest, keep);
        MentionsCover(sorters, {}, p.value, keep);
      } else if p.value.Doc? && !Commanded(p.value.entries) {
        AllInBoth(ComputedFree(sorters, find, tree, p.value.entries), rest, keep);
        RootsCoverComputed(sorters, find, tree, p.value.entries, false, keep);
      } else {
        AllInBoth([], rest, keep);
      }
      RootsCoverComputed(sorters, find, tree, p.rest, top, keep);
    }
  }

  // ------------------------------------------------------------- when it is right

  /** The entries of an accepted projection exclude nothing but possibly _id. */
  ghost predicate ExcludesOnlyId(find: bool, flat: seq<(bytes, Val)>) {
    forall i :: 0 <= i < |flat| ==> KindOf(find, flat[i].1) == Plain(false) ==> IsId(flat[i].0)
  }

  lemma {:induction false} AcceptedFlat(find: bool, prefix: bytes, p: Entries, top: bool)
    requires ProjectionRoots(find, p, top).Some? && top == (prefix == [])
    ensures ExcludesOnlyId(find, Flat(prefix, p))
    decreases p
  {
    hide Mentions, Slices, Meta, Commanded, Truthy, Sliced;
    if p.Entry? {
      AcceptedFlat(find, prefix, p.rest, top);
      if p.value.Doc? && p.value.entries.Entry? && !Commanded(p.value.entries) {
        AcceptedFlat(find, prefix + p.name + [46], p.value.entries, false);
      } else if KindOf(find, p.value) == Plain(false) {
        assert prefix + p.name == p.name;
      }
    }
  }

  lemma {:induction false} IncludingStays(find: bool, left: seq<(bytes, Val)>, idOn: bool)
    requires ExcludesOnlyId(find, left)
    ensures ModeFrom(find, false, left, Some(true), idOn) != Exclusion
    decreases |left|
  {
    hide KindOf;
    if left != [] {
      IncludingStays(find, left[1..], idOn);
      IncludingStays(find, left[1..], true);
    }
  }

  /** An entry that leaves find in exclusion: a slice, or an _id that is not simply switched on. */
  predicate LeavesAll(e: (bytes, Val)) {
    Sliced(true, e.1) || (IsId(e.0) && KindOf(true, e.1).Plain? && !(IsFlag(e.1) && Truthy(e.1)))
  }

  lemma {:induction false} FindModeFrom(left: seq<(bytes, Val)>, idOn: bool)
    requires ExcludesOnlyId(true, left)
    ensures ModeFrom(true, false, left, None, idOn) == Exclusion
            <==> !idOn && forall i :: 0 <= i < |left| ==> LeavesAll(left[i])
    decreases |left|
  {
    if left != [] {
      assert forall i :: 0 <= i < |left| - 1 ==> left[1..][i] == left[i + 1];
      assert forall i :: 0 < i < |left| ==> left[i] == left[1..][i - 1];
      FindModeFrom(left[1..], idOn);
      FindModeFrom(left[1..], true);
      IncludingStays(true, left[1..], idOn);
    }
  }

  lemma {:induction false} ProjectModeFrom(left: seq<(bytes, Val)>, seen: Option<bool>, idOn: bool)
    requires ExcludesOnlyId(false, left) && seen != Some(false)
    ensures ModeFrom(false, false, left, seen, idOn) != Exclusion
    decreases |left|
  {
    hide KindOf;
    if left != [] {
      ProjectModeFrom(left[1..], seen, idOn);
      ProjectModeFrom(left[1..], seen, true);
      ProjectModeFrom(left[1..], Some(true), idOn);
    }
  }

  /** Only slices, beside an _id at most that is not simply switched on. */
  predicate OnlySlices(p: Entries) {
    var flat := Flat([], p);
    (|flat| == 1 ==> Sliced(true, flat[0].1)) && forall i :: 0 <= i < |flat| ==> LeavesAll(flat[i])
  }

  lemma {:induction false} FlatSome(prefix: bytes, p: Entries)
    requires p.Entry?
    ensures Flat(prefix, p) != []
    decreases p
  {
    if p.value.Doc? && p.value.entries.Entry? && !Commanded(p.value.entries) {
      FlatSome(prefix + p.name + [46], p.value.entries);
    }
  }

  /** A lone _id that is switched off is the whole projection. */
  lemma LoneId(find: bool, p: Entries)
    requires |Flat([], p)| == 1 && IsId(Flat([], p)[0].0) && KindOf(find, Flat([], p)[0].1) == Plain(false)
    ensures !IncludesSomething(p, true)
  {
    hide Commanded, Sliced;
    if p.value.Doc? && p.value.entries.Entry? && !Commanded(p.value.entries) {
      Dotted([] + p.name + [46], p.value.entries);
      FlatSome([] + p.name + [46], p.value.entries);
    }
    if p.rest.Entry? { FlatSome([], p.rest); }
    assert [] + p.name == p.name;
  }

  lemma {:induction false} Dotted(prefix: bytes, p: Entries)
    requires 46 in prefix
    ensures forall i :: 0 <= i < |Flat(prefix, p)| ==> !IsId(Flat(prefix, p)[i].0)
    decreases p
  {
    if p.Entry? {
      Dotted(prefix, p.rest);
      if p.value.Doc? && p.value.entries.Entry? && !Commanded(p.value.entries) {
        Dotted(prefix + p.name + [46], p.value.entries);
      } else {
        assert 46 in prefix + p.name;
        assert forall i :: 0 <= i < 3 ==> Ascii("_id")[i] != 46;
      }
    }
  }

  lemma SingleMode(find: bool, e: (bytes, Val))
    ensures ModeFrom(find, true, [e], None, false)
         == match KindOf(find, e.1)
            case Invalid => Refused
            case Neutral => Exclusion
            case Plain(adds) =>
              if adds then Inclusion else if IsId(e.0) then Exclusion
              else if find && e.0 != [] && e.0[|e.0| - 1] == 36 then Refused else Exclusion
  {
    hide KindOf;
    assert [e][1..] == [];
    forall seen: Option<bool>, idOn: bool
      ensures ModeFrom(find, true, [], seen, idOn)
           == match seen
              case Some(adds) => if adds then Inclusion else Exclusion
              case None => if !find then Refused else if idOn then Inclusion else Exclusion
    {}
    SlicedOnlyInFind(find, e.1);
  }

  lemma SlicedOnlyInFind(find: bool, v: Val)
    ensures KindOf(find, v) == Neutral ==> find
  {
  }

  /** A find projection the analysis accepts runs as an exclusion if and only if it holds only slices. */
  lemma FindModeIff(p: Entries)
    requires ProjectionRoots(true, p, true).Some? && IncludesSomething(p, true)
    ensures ModeOf(true, p) == Exclusion <==> OnlySlices(p)
  {
    AcceptedFlat(true, [], p, true);
    var flat := Flat([], p);
    FlatSome([], p);
    if |flat| == 1 {
      assert flat == [flat[0]];
      SingleMode(true, flat[0]);
      if IsId(flat[0].0) && KindOf(true, flat[0].1) == Plain(false) { LoneId(true, p); }
    } else {
      FindModeFrom(flat, false);
      assert ModeOf(true, p) == ModeFrom(true, false, flat, None, false);
    }
  }

  /** A $project stage the analysis accepts never does. */
  lemma ProjectNeverExcludes(p: Entries)
    requires ProjectionRoots(false, p, true).Some? && IncludesSomething(p, true)
    ensures ModeOf(false, p) != Exclusion
  {
    AcceptedFlat(false, [], p, true);
    var flat := Flat([], p);
    FlatSome([], p);
    if |flat| == 1 {
      assert flat == [flat[0]];
      SingleMode(false, flat[0]);
      SlicedOnlyInFind(false, flat[0].1);
      if IsId(flat[0].0) && KindOf(false, flat[0].1) == Plain(false) { LoneId(false, p); }
    } else {
      ProjectModeFrom(flat, None, false);
      assert ModeOf(false, p) == ModeFrom(false, false, flat, None, false);
    }
  }

  /** What a projection makes its output from is all among the kept fields. */
  predicate ViewNeedsOnly(sorters: set<bytes>, malformed: bool, find: bool, p: Entries, keep: seq<bytes>) {
    malformed
    || match ModeOf(find, p)
       case Refused => true
       case Exclusion => false
       case Inclusion =>
         ComputedNeedOnly(sorters, find, ByTree(find, Flat([], p)), p, keep) && AllIn(LayoutNames(find, p), keep)
  }

  /** Then it makes the same output from a document cut down to them. */
  lemma ViewKept(I: Interp, malformed: bool, find: bool, p: Entries, also: seq<bytes>, d: Entries, keep: seq<bytes>)
    requires Within(ProjectionRoots(find, p, true), keep)
    requires Ascii("_id") in keep && (forall r :: r in also ==> r in keep)
    requires ViewNeedsOnly(I.sorters, malformed, find, p, keep)
    ensures ViewOf(I, malformed, find, p, also, Keep(d, keep)) == ViewOf(I, malformed, find, p, also, d)
  {
    hide ModeOf, ByTree, Flat, LayoutNames, Computed, ComputedNeedOnly, ProjectionRoots;
    if !malformed && ModeOf(find, p) == Inclusion {
      RootsCoverShape(find, p, true, keep);
      ComputedKept(I, find, ByTree(find, Flat([], p)), p, d, keep);
      var view := Stored(find, p, also);
      forall r | r in view ensures r in keep {}
      KeepOfKeep(d, keep, view);
      AllInBoth(view, LayoutNames(find, p), keep);
      KeepOfKeep(d, keep, view + LayoutNames(find, p));
    }
  }

  // ---------------------------------------------------------- the condition is exact

  function ComputedOutside(sorters: set<bytes>, find: bool, tree: bool, p: Entries, keep: seq<bytes>): (r: bytes)
    requires !ComputedNeedOnly(sorters, find, tree, p, keep)
    ensures r !in keep
    decreases p
  {
    if !ComputedNeedOnly(sorters, find, tree, p.rest, keep) then ComputedOutside(sorters, find, tree, p.rest, keep)
    else if IsExpression(find, p.value) then Outside(sorters, {}, p.value, keep)
    else ComputedOutside(sorters, find, tree, p.value.entries, keep)
  }

  lemma {:induction false} ComputedHot(
      sorters: set<bytes>, find: bool, tree: bool, p: Entries, keep: seq<bytes>, d: Entries)
    requires !ComputedNeedOnly(sorters, find, tree, p, keep)
    requires FieldOf(d, ComputedOutside(sorters, find, tree, p, keep)).Some?
    ensures Hot() in Computed(Probe(sorters, ComputedOutside(sorters, find, tree, p, keep)), find, tree, p, d)
    decreases p
  {
    hide Meaning, NeedsOnly, Commanded, Slices, Outside, NotLookedUp;
    if !ComputedNeedOnly(sorters, find, tree, p.rest, keep) {
      ComputedHot(sorters, find, tree, p.rest, keep, d);
    } else if IsExpression(find, p.value) {
      HotOutside(sorters, {}, p.value, keep, d);
      assert Computed(Probe(sorters, ComputedOutside(sorters, find, tree, p, keep)), find, tree, p, d)[0] == Hot();
    } else {
      ComputedHot(sorters, find, tree, p.value.entries, keep, d);
    }
  }

  lemma {:induction false} ComputedCold(sorters: set<bytes>, r: bytes, find: bool, tree: bool, p: Entries, d: Entries)
    requires FieldOf(d, r).None?
    ensures Hot() !in Computed(Probe(sorters, r), find, tree, p, d)
    decreases p
  {
    hide Meaning, Commanded, Slices, NotLookedUp;
    HotIsNotCold();
    if p.Entry? {
      ComputedCold(sorters, r, find, tree, p.rest, d);
      ColdWithout(sorters, {}, r, p.value, d);
      if p.value.Doc? { ComputedCold(sorters, r, find, tree, p.value.entries, d); }
    }
  }

  /** A field the output depends on that is not kept. */
  function ViewOutside(sorters: set<bytes>, malformed: bool, find: bool, p: Entries, keep: seq<bytes>): (r: bytes)
    requires !ViewNeedsOnly(sorters, malformed, find, p, keep)
    ensures r !in keep
  {
    var tree := ByTree(find, Flat([], p));
    if ModeOf(find, p) == Exclusion then Fresh(keep)
    else if !ComputedNeedOnly(sorters, find, tree, p, keep) then ComputedOutside(sorters, find, tree, p, keep)
    else FirstOutside(LayoutNames(find, p), keep)
  }

  /** Otherwise an interpretation tells every document with a certain unkept field from its cut. */
  lemma ViewLost(sorters: set<bytes>, malformed: bool, find: bool, p: Entries, also: seq<bytes>, d: Entries,
                 keep: seq<bytes>)
    requires !ViewNeedsOnly(sorters, malformed, find, p, keep)
    requires FieldOf(d, ViewOutside(sorters, malformed, find, p, keep)).Some?
    ensures var I := Probe(sorters, ViewOutside(sorters, malformed, find, p, keep));
            ViewOf(I, malformed, find, p, also, Keep(d, keep)) != ViewOf(I, malformed, find, p, also, d)
  {
    hide ModeOf, ByTree, Flat, LayoutNames, Computed, ComputedNeedOnly, ComputedOutside, Stored;
    var r, tree := ViewOutside(sorters, malformed, find, p, keep), ByTree(find, Flat([], p));
    FieldStaysOut(d, keep, r);
    if ModeOf(find, p) == Inclusion {
      if !ComputedNeedOnly(sorters, find, tree, p, keep) {
        ComputedHot(sorters, find, tree, p, keep, d);
        ComputedCold(sorters, r, find, tree, p, Keep(d, keep));
      } else {
        OrderLost(d, keep, Stored(find, p, also) + LayoutNames(find, p), r);
      }
    }
  }

  lemma OrderLost(d: Entries, keep: seq<bytes>, view: seq<bytes>, r: bytes)
    requires r in view && r !in keep && FieldOf(d, r).Some?
    ensures NamesOf(Keep(Keep(d, keep), view)) != NamesOf(Keep(d, view))
  {
    FieldOfKeep(d, view, r);
    NamesAreFields(Keep(d, view), r);
    FieldStaysOut(d, keep, r);
    FieldStaysOut(Keep(d, keep), view, r);
    NamesAreFields(Keep(Keep(d, keep), view), r);
  }

  /** appendProjectionRootFields, for find, and appendProjectStageRootFields, for $project. */
  method AppendProjectionRootFields(find: bool, p: Entries, roots: seq<bytes>, top: bool)
      returns (included: bool, ok: bool, out: seq<bytes>)
    ensures ok <==> ProjectionRoots(find, p, top).Some?
    ensures ok ==> included == IncludesSomething(p, top) && out == AddAll(roots, ProjectionRoots(find, p, top).value)
    decreases p
  {
    hide Mentions, Slices, Meta, Commanded, Truthy, Root, Ascii, PlainValue;
    included, out := false, roots;
    var left := p;
    while left.Entry?
      invariant left == p || left < p
      invariant IncludesSomething(p, top) == (included || IncludesSomething(left, top))
      invariant ProjectionRoots(find, p, top).Some? <==> ProjectionRoots(find, left, top).Some?
      invariant ProjectionRoots(find, left, top).Some?
                ==> AddAll(roots, ProjectionRoots(find, p, top).value)
                    == AddAll(out, ProjectionRoots(find, left, top).value)
      decreases left
    {
      var key, v := left.name, left.value;
      ghost var before := out;
      ghost var dotted := if 46 in key then [Root(key)] else [];
      if 46 in key {
        AddOne(out, Root(key));
        out := AddRoot(out, Root(key));
      }
      assert out == AddAll(before, dotted);
      if IsFlag(v) {
        if !Truthy(v) {
          if !(top && key == Ascii("_id")) { return false, false, out; }
        } else {
          out := AddKey(before, dotted, out, key);
          included := true;
        }
      } else {
        if v.Doc? && Commanded(v.entries) && Slices(find, v.entries) {
          out := AddKey(before, dotted, out, key);
        } else if v.Doc? && !Commanded(v.entries) {
          out := AddKey(before, dotted, out, key);
          var _, fine, more := AppendProjectionRootFields(find, v.entries, out, false);
          if !fine { return false, false, out; }
          BothAdds(before, Some(dotted + [Root(key)]), ProjectionRoots(find, v.entries, false));
          out := more;
        } else if v.Doc? || v.Str? || v.Arr? {
          if v.Doc? && Meta(v.entries) { return false, false, out; }
          var fine, more := AppendExprRootFields(v, out);
          if !fine { return false, false, out; }
          BothAdds(before, Some(dotted), Mentions(v));
          out := more;
        } else if find || !PlainValue(v) {
          return false, false, out;
        }
        included := true;
      }
      BothAdds(before, EntryRoots(find, key, v, top), ProjectionRoots(find, left.rest, top));
      left := left.rest;
    }
    return included, true, out;
  }

  method AddKey(ghost before: seq<bytes>, ghost dotted: seq<bytes>, roots: seq<bytes>, key: bytes)
    returns (out: seq<bytes>)
    requires roots == AddAll(before, dotted)
    ensures out == AddAll(before, dotted + [Root(key)]) == AddRoot(roots, Root(key))
  {
    out := AddRoot(roots, Root(key));
    AddAllConcat(before, dotted, [Root(key)]);
    AddOne(roots, Root(key));
  }
}
