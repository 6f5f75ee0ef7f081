/**
 The reconciliation a write meets at its boundary: a three-way merge of the writer's
 rows (ours) with the branch's (theirs) over the state the write started from, where
 the collection's merge mode says what counts as a conflict. A document is the map of
 its fields other than _id, each a leaf or a document again; an absent one is None.
 */
module MergeModes {
  import opened Bytes

  type Field = bytes

  /** Arrays are leaves: they are compared and merged whole. */
  datatype Value = Leaf(raw: bytes) | Sub(fields: Fields)

  type Fields = map<Field, Value>
  type Cell = Option<Value>
  type Row = Option<Fields>

  datatype Mode = DocumentTouched | FieldTouched | FieldDivergent | DocumentDivergent

  function CellOf(doc: Fields, f: Field): Cell {
    if f in doc then Some(doc[f]) else None
  }

  /** The fields in which two documents differ. */
  function Changed(base: Fields, doc: Fields): (s: set<Field>)
    ensures forall f :: f in s <==> CellOf(base, f) != CellOf(doc, f)
  {
    set f | f in base.Keys + doc.Keys && CellOf(base, f) != CellOf(doc, f)
  }

  function Plain(r: Row): Fields { if r.Some? then r.value else map[] }

  predicate IsDoc(c: Cell) { c.Some? && c.value.Sub? }

  function Keys(b: Value, l: Value, r: Value): set<Field>
    requires b.Sub? && l.Sub? && r.Sub?
  {
    b.fields.Keys + l.fields.Keys + r.fields.Keys
  }

  /** Some field was changed on both sides, looking into fields that are documents on all three. */
  predicate FieldConflicts(touched: bool, b: Value, l: Value, r: Value)
    requires b.Sub? && l.Sub? && r.Sub?
    decreases b, 1
  {
    exists f :: f in Keys(b, l, r) && KeyConflicts(touched, b, l, r, f)
  }

  predicate KeyConflicts(touched: bool, b: Value, l: Value, r: Value, f: Field)
    requires b.Sub? && l.Sub? && r.Sub?
    decreases b, 0
  {
    var bc, lc, rc := CellOf(b.fields, f), CellOf(l.fields, f), CellOf(r.fields, f);
    if IsDoc(bc) && IsDoc(lc) && IsDoc(rc) then FieldConflicts(touched, b.fields[f], l.fields[f], r.fields[f])
    else lc != bc && rc != bc && (touched || lc != rc)
  }

  predicate Conflicts(mode: Mode, base: Row, left: Row, right: Row) {
    if left.None? || right.None? then
      if left.None? && right.None? then mode.DocumentTouched? || mode.FieldTouched? else true
    else
      var fo, ft := Changed(Plain(base), left.value), Changed(Plain(base), right.value);
      if fo == {} || ft == {} then false
      else
        match mode
        case DocumentTouched => true
        case FieldTouched => FieldConflicts(true, Sub(Plain(base)), Sub(left.value), Sub(right.value))
        case FieldDivergent => FieldConflicts(false, Sub(Plain(base)), Sub(left.value), Sub(right.value))
        case DocumentDivergent => left != right
  }

  /** One key of mergeBSONDoc; None is a conflict. */
  function MergeKey(b: Value, l: Value, r: Value, f: Field): Option<Cell>
    requires b.Sub? && l.Sub? && r.Sub?
    decreases b, 0
  {
    var bc, lc, rc := CellOf(b.fields, f), CellOf(l.fields, f), CellOf(r.fields, f);
    match (bc, lc, rc)
    case (None, Some(_), None) => Some(lc)
    case (None, None, Some(_)) => Some(rc)
    case (None, Some(x), Some(y)) => if x == y then Some(lc) else None
    case (Some(_), Some(_), None) => if lc != bc then None else Some(None)
    case (Some(_), None, Some(_)) => if rc != bc then None else Some(None)
    case (Some(x), Some(y), Some(z)) =>
      if y == x && z == x then Some(lc)
      else if y == x then Some(rc)
      else if z == x then Some(lc)
      else if y == z then Some(lc)
      else if !(x.Sub? && y.Sub? && z.Sub?) then None
      else
        (match MergeDoc(b.fields[f], l.fields[f], r.fields[f])
         case None => None
         case Some(m) => Some(Some(m)))
    case _ => Some(None)
  }

  function MergeDoc(b: Value, l: Value, r: Value): (m: Option<Value>)
    requires b.Sub? && l.Sub? && r.Sub?
    ensures m.Some? ==> m.value.Sub?
    decreases b, 1
  {
    if exists f :: f in Keys(b, l, r) && MergeKey(b, l, r, f).None? then None
    else
      Some(Sub(map f | f in Keys(b, l, r) && MergeKey(b, l, r, f).Some? && MergeKey(b, l, r, f).value.Some?
                     :: MergeKey(b, l, r, f).value.value))
  }

  /** A row is decided by the mode only when both sides changed it. None is a conflict. */
  function MergeRow(mode: Mode, base: Row, left: Row, right: Row): Option<Row> {
    if left == base then Some(right)
    else if right == base then Some(left)
    else if Conflicts(mode, base, left, right) then None
    else if left.None? && right.None? then Some(None)
    else
      match MergeDoc(Sub(Plain(base)), Sub(Plain(left)), Sub(Plain(right)))
      case None => None
      case Some(doc) => Some(Some(doc.fields))
  }

  // ------------------------------------------------------- three-way merge by cells

  lemma SameFields(a: Fields, b: Fields)
    requires forall f :: CellOf(a, f) == CellOf(b, f)
    ensures a == b
  {
    forall f ensures f in a <==> f in b {
      assert CellOf(a, f) == CellOf(b, f);
    }
    forall f | f in a ensures a[f] == b[f] {
      assert CellOf(a, f) == CellOf(b, f);
    }
  }

  lemma ChangedNone(a: Fields, b: Fields)
    requires Changed(a, b) == {}
    ensures a == b
  {
    forall f ensures CellOf(a, f) == CellOf(b, f) {
      assert f !in Changed(a, b);
    }
    SameFields(a, b);
  }

  /** The merge of one cell: an unchanged side yields to the other, and documents are merged inside. */
  function MergeCell(b: Cell, l: Cell, r: Cell): Option<Cell> {
    if l == b then Some(r)
    else if r == b then Some(l)
    else if l == r then Some(l)
    else if IsDoc(b) && IsDoc(l) && IsDoc(r) then
      match MergeDoc(b.value, l.value, r.value)
      case None => None
      case Some(m) => Some(Some(m))
    else None
  }

  /** The cases of the source are that one rule, and it does not matter which side is which. */
  lemma MergeKeyIsThreeWay(b: Value, l: Value, r: Value, f: Field)
    requires b.Sub? && l.Sub? && r.Sub?
    ensures MergeKey(b, l, r, f) == MergeCell(CellOf(b.fields, f), CellOf(l.fields, f), CellOf(r.fields, f))
  {
    hide MergeDoc;
  }

  lemma MergeDocCell(b: Value, l: Value, r: Value, f: Field)
    requires b.Sub? && l.Sub? && r.Sub? && MergeDoc(b, l, r).Some?
    ensures MergeCell(CellOf(b.fields, f), CellOf(l.fields, f), CellOf(r.fields, f))
         == Some(CellOf(MergeDoc(b, l, r).value.fields, f))
  {
    hide MergeKey;
    MergeKeyIsThreeWay(b, l, r, f);
    if f !in Keys(b, l, r) { hide MergeCell; NoCell(); }
  }

  lemma NoCell()
    ensures MergeCell(None, None, None) == Some(None)
  {
  }

  /** A document is the merge when it is so in every field. */
  lemma MergeDocIs(b: Value, l: Value, r: Value, m: Fields)
    requires b.Sub? && l.Sub? && r.Sub?
    requires forall f :: MergeCell(CellOf(b.fields, f), CellOf(l.fields, f), CellOf(r.fields, f)) == Some(CellOf(m, f))
    ensures MergeDoc(b, l, r) == Some(Sub(m))
  {
    hide MergeCell;
    MergeAllKeys(b, l, r);
    var d := MergeDoc(b, l, r);
    forall f ensures CellOf(d.value.fields, f) == CellOf(m, f) {
      MergeDocCell(b, l, r, f);
    }
    SameFields(d.value.fields, m);
  }

  lemma MergeDocUnchanged(b: Value, o: Value)
    requires b.Sub? && o.Sub?
    ensures MergeDoc(b, b, o) == Some(o) && MergeDoc(b, o, b) == Some(o)
  {
    hide MergeDoc;
    MergeDocIs(b, b, o, o.fields);
    MergeDocIs(b, o, b, o.fields);
  }

  // ------------------------------------------------------------- clean merges

  /** The sides changed nothing in common: one is unchanged, or all are documents and no field conflicts. */
  predicate Apart(b: Cell, l: Cell, r: Cell) {
    if IsDoc(b) && IsDoc(l) && IsDoc(r) then !FieldConflicts(true, b.value, l.value, r.value) else l == b || r == b
  }

  lemma ApartKeys(b: Value, l: Value, r: Value)
    requires b.Sub? && l.Sub? && r.Sub?
    ensures Apart(Some(b), Some(l), Some(r))
       <==> forall f :: Apart(CellOf(b.fields, f), CellOf(l.fields, f), CellOf(r.fields, f))
  {
    forall f
      ensures KeyConflicts(true, b, l, r, f) <==> !Apart(CellOf(b.fields, f), CellOf(l.fields, f), CellOf(r.fields, f))
    {}
    if FieldConflicts(true, b, l, r) {
      var f :| f in Keys(b, l, r) && KeyConflicts(true, b, l, r, f);
      assert !Apart(CellOf(b.fields, f), CellOf(l.fields, f), CellOf(r.fields, f));
    }
    if f :| !Apart(CellOf(b.fields, f), CellOf(l.fields, f), CellOf(r.fields, f)) {
      assert KeyConflicts(true, b, l, r, f) && f in Keys(b, l, r);
    }
  }

  /** An unchanged side is apart from anything. */
  lemma {:induction false} ApartUnchanged(b: Cell, o: Cell)
    ensures Apart(b, b, o) && Apart(b, o, b)
    decreases if b.Some? then b.value else Leaf([]), b
  {
    if IsDoc(b) && IsDoc(o) {
      UnchangedConflicts(b.value, o.value);
    }
  }

  lemma {:induction false} UnchangedConflicts(b: Value, o: Value)
    requires b.Sub? && o.Sub?
    ensures !FieldConflicts(true, b, b, o) && !FieldConflicts(true, b, o, b)
    decreases b
  {
    forall f | f in b.fields && b.fields[f].Sub? && f in o.fields && o.fields[f].Sub?
      ensures !FieldConflicts(true, b.fields[f], b.fields[f], o.fields[f])
      ensures !FieldConflicts(true, b.fields[f], o.fields[f], b.fields[f])
    {
      UnchangedConflicts(b.fields[f], o.fields[f]);
    }
    forall f ensures !KeyConflicts(true, b, b, o, f) && !KeyConflicts(true, b, o, b, f) {}
  }

  /** Sides that are apart merge, and ours stays visible: where ours changed something the merge is not theirs. */
  lemma {:induction false} ApartMerges(b: Value, l: Value, r: Value)
    requires b.Sub? && l.Sub? && r.Sub? && !FieldConflicts(true, b, l, r)
    ensures MergeDoc(b, l, r).Some?
    ensures l != b ==> MergeDoc(b, l, r).value != r
    decreases b
  {
    ApartKeys(b, l, r);
    forall f ensures MergeCell(CellOf(b.fields, f), CellOf(l.fields, f), CellOf(r.fields, f)).Some?
             ensures CellOf(l.fields, f) != CellOf(b.fields, f)
                     ==> MergeCell(CellOf(b.fields, f), CellOf(l.fields, f), CellOf(r.fields, f)).value
                         != CellOf(r.fields, f)
    {
      var bc, lc, rc := CellOf(b.fields, f), CellOf(l.fields, f), CellOf(r.fields, f);
      assert Apart(bc, lc, rc);
      if IsDoc(bc) && IsDoc(lc) && IsDoc(rc) { ApartMerges(bc.value, lc.value, rc.value); }
    }
    MergeAllKeys(b, l, r);
    if l != b {
      if forall f :: CellOf(l.fields, f) == CellOf(b.fields, f) { SameFields(l.fields, b.fields); }
      var f :| CellOf(l.fields, f) != CellOf(b.fields, f);
      MergeDocCell(b, l, r, f);
    }
  }

  lemma MergeAllKeys(b: Value, l: Value, r: Value)
    requires b.Sub? && l.Sub? && r.Sub?
    requires forall f :: MergeCell(CellOf(b.fields, f), CellOf(l.fields, f), CellOf(r.fields, f)).Some?
    ensures MergeDoc(b, l, r).Some?
  {
    hide MergeCell;
    forall f ensures MergeKey(b, l, r, f).Some? {
      MergeKeyIsThreeWay(b, l, r, f);
    }
  }

  // ------------------------------------------------------------------ by paths

  type Path = seq<Field>

  function CellAt(c: Cell, p: Path): Cell
    decreases |p|
  {
    if p == [] then c else if IsDoc(c) then CellAt(CellOf(c.value.fields, p[0]), p[1..]) else None
  }

  /** A path to where the three stop all being documents. */
  predicate Leafward(b: Cell, l: Cell, r: Cell, p: Path)
    decreases |p|
  {
    var docs := IsDoc(b) && IsDoc(l) && IsDoc(r);
    if p == [] then !docs
    else
      docs && Leafward(CellOf(b.value.fields, p[0]), CellOf(l.value.fields, p[0]), CellOf(r.value.fields, p[0]), p[1..])
  }

  predicate ChangedOnBoth(b: Cell, l: Cell, r: Cell, p: Path) {
    Leafward(b, l, r, p) && CellAt(l, p) != CellAt(b, p) && CellAt(r, p) != CellAt(b, p)
  }

  lemma {:induction false} ApartAt(b: Cell, l: Cell, r: Cell, p: Path)
    requires Apart(b, l, r)
    ensures !ChangedOnBoth(b, l, r, p)
    decreases |p|
  {
    if p != [] && IsDoc(b) && IsDoc(l) && IsDoc(r) {
      ApartKeys(b.value, l.value, r.value);
      ApartAt(CellOf(b.value.fields, p[0]), CellOf(l.value.fields, p[0]), CellOf(r.value.fields, p[0]), p[1..]);
    }
  }

  lemma {:induction false} TouchedTwice(b: Cell, l: Cell, r: Cell) returns (p: Path)
    requires !Apart(b, l, r)
    ensures ChangedOnBoth(b, l, r, p)
    decreases if b.Some? then b.value else Leaf([])
  {
    if IsDoc(b) && IsDoc(l) && IsDoc(r) {
      ApartKeys(b.value, l.value, r.value);
      var f :| !Apart(CellOf(b.value.fields, f), CellOf(l.value.fields, f), CellOf(r.value.fields, f));
      if f in b.value.fields {
        var rest := TouchedTwice(CellOf(b.value.fields, f), CellOf(l.value.fields, f), CellOf(r.value.fields, f));
        p := [f] + rest;
        assert p[1..] == rest;
      } else {
        p := [f];
        assert p[1..] == [];
      }
    } else {
      p := [];
    }
  }

  /** Where the sides are apart each path of the merge is ours if ours changed it, and theirs if not. */
  lemma {:induction false} MergedAt(b: Cell, l: Cell, r: Cell, p: Path)
    requires Apart(b, l, r) && MergeCell(b, l, r).Some? && Leafward(b, l, r, p)
    ensures CellAt(MergeCell(b, l, r).value, p) == if CellAt(l, p) != CellAt(b, p) then CellAt(l, p) else CellAt(r, p)
    decreases |p|
  {
    if l == b || r == b {
      AtSame(b, l, r, p);
    } else if p != [] {
      var f := p[0];
      ApartKeys(b.value, l.value, r.value);
      ApartMerges(b.value, l.value, r.value);
      MergeDocCell(b.value, l.value, r.value, f);
      ApartAt(b, l, r, p);
      hide MergeDoc, FieldConflicts;
      MergedAt(CellOf(b.value.fields, f), CellOf(l.value.fields, f), CellOf(r.value.fields, f), p[1..]);
    }
  }

  lemma AtSame(b: Cell, l: Cell, r: Cell, p: Path)
    requires l == b || r == b
    ensures MergeCell(b, l, r) == Some(if l == b then r else l)
  {
  }

  /** Under fieldTouched, rows both sides changed merge if and only if both are there and they are apart. */
  lemma FieldTouchedMerge(base: Row, left: Row, right: Row)
    requires left != base && right != base
    ensures MergeRow(FieldTouched, base, left, right).Some?
       <==> left.Some? && right.Some?
            && Apart(Some(Sub(Plain(base))), Some(Sub(left.value)), Some(Sub(right.value)))
    ensures MergeRow(FieldTouched, base, left, right).Some?
        ==> MergeDoc(Sub(Plain(base)), Sub(left.value), Sub(right.value)).Some?
            && MergeRow(FieldTouched, base, left, right).value
               == Some(MergeDoc(Sub(Plain(base)), Sub(left.value), Sub(right.value)).value.fields)
  {
    hide MergeDoc, Changed;
    if left.Some? && right.Some? {
      var b, l, r := Sub(Plain(base)), Sub(left.value), Sub(right.value);
      if Changed(b.fields, l.fields) == {} {
        ChangedNone(b.fields, l.fields);
        UnchangedConflicts(b, r);
      } else if Changed(b.fields, r.fields) == {} {
        ChangedNone(b.fields, r.fields);
        UnchangedConflicts(b, l);
      }
      if !FieldConflicts(true, b, l, r) { ApartMerges(b, l, r); }
    }
  }

  /** They merge if and only if no path was changed on both sides, and then every path keeps its change. */
  lemma FieldTouchedPaths(base: Row, left: Row, right: Row)
    requires left != base && right != base && left.Some? && right.Some?
    ensures var b, l, r := Some(Sub(Plain(base))), Some(Sub(left.value)), Some(Sub(right.value));
            (MergeRow(FieldTouched, base, left, right).Some? <==> forall p :: !ChangedOnBoth(b, l, r, p))
            && (MergeRow(FieldTouched, base, left, right).Some? ==>
                  MergeRow(FieldTouched, base, left, right).value.Some?
                  && forall p :: Leafward(b, l, r, p) ==>
                       CellAt(Some(Sub(MergeRow(FieldTouched, base, left, right).value.value)), p)
                       == if CellAt(l, p) != CellAt(b, p) then CellAt(l, p) else CellAt(r, p))
  {
    hide MergeRow, MergeDoc, FieldConflicts, ChangedOnBoth, Leafward;
    var b, l, r := Some(Sub(Plain(base))), Some(Sub(left.value)), Some(Sub(right.value));
    FieldTouchedMerge(base, left, right);
    if Apart(b, l, r) {
      forall p ensures !ChangedOnBoth(b, l, r, p) { ApartAt(b, l, r, p); }
      CleanCell(b.value, l.value, r.value);
      forall p | Leafward(b, l, r, p)
        ensures CellAt(Some(MergeDoc(b.value, l.value, r.value).value), p)
                == if CellAt(l, p) != CellAt(b, p) then CellAt(l, p) else CellAt(r, p)
      {
        MergedAt(b, l, r, p);
      }
    } else {
      var p := TouchedTwice(b, l, r);
    }
  }

  /** Merged as a cell or as a whole document, it comes to the same. */
  lemma CleanCell(b: Value, l: Value, r: Value)
    requires b.Sub? && l.Sub? && r.Sub? && MergeDoc(b, l, r).Some?
    ensures MergeCell(Some(b), Some(l), Some(r)) == Some(Some(MergeDoc(b, l, r).value))
  {
    hide MergeDoc;
    if l == b { MergeDocUnchanged(b, r); }
    else if r == b { MergeDocUnchanged(b, l); }
    else if l == r { MergeDocAlike(b, l); }
  }

  lemma MergeDocAlike(b: Value, o: Value)
    requires b.Sub? && o.Sub?
    ensures MergeDoc(b, o, o) == Some(o)
  {
    hide MergeDoc;
    MergeDocIs(b, o, o, o.fields);
  }

  /** Under documentTouched, only a document that was absent can merge, and only with a bare one. */
  lemma DocumentTouchedMerge(base: Row, left: Row, right: Row)
    requires left != base && right != base
    ensures MergeRow(DocumentTouched, base, left, right).Some?
       <==> base.None? && left.Some? && right.Some? && (left.value == map[] || right.value == map[])
    ensures MergeRow(DocumentTouched, base, left, right).Some?
        ==> MergeRow(DocumentTouched, base, left, right).value == (if left.value == map[] then right else left)
  {
    hide MergeDoc, Changed;
    if left.Some? && right.Some? {
      var b := Plain(base);
      var fo, ft := Changed(b, left.value), Changed(b, right.value);
      if fo == {} {
        ChangedNone(b, left.value);
        MergeDocUnchanged(Sub(b), Sub(right.value));
      } else if ft == {} {
        ChangedNone(b, right.value);
        MergeDocUnchanged(Sub(b), Sub(left.value));
      }
    }
  }

  // --------------------------------------------------------------------- stores

  type Id = bytes
  type Store = map<Id, Fields>

  function RowOf(s: Store, id: Id): Row { if id in s then Some(s[id]) else None }

  function WithRow(s: Store, id: Id, row: Row): (r: Store)
    ensures RowOf(r, id) == row
    ensures forall k :: k != id ==> RowOf(r, k) == RowOf(s, k)
  {
    if row.Some? then s[id := row.value] else s - {id}
  }

  lemma SameRows(a: Store, b: Store)
    requires forall k :: RowOf(a, k) == RowOf(b, k)
    ensures a == b
  {
    forall k ensures k in a <==> k in b {
      assert RowOf(a, k) == RowOf(b, k);
    }
    forall k | k in a ensures a[k] == b[k] {
      assert RowOf(a, k) == RowOf(b, k);
    }
  }

  /** The row-by-row merge of two stores; None when any row conflicts. */
  function MergeRows(mode: Mode, base: Store, ours: Store, theirs: Store): Option<Store> {
    var ids := base.Keys + ours.Keys + theirs.Keys;
    if exists k :: k in ids && MergeRow(mode, RowOf(base, k), RowOf(ours, k), RowOf(theirs, k)).None? then None
    else
      Some(map k | k in ids
                   && MergeRow(mode, RowOf(base, k), RowOf(ours, k), RowOf(theirs, k)).Some?
                   && MergeRow(mode, RowOf(base, k), RowOf(ours, k), RowOf(theirs, k)).value.Some?
               :: MergeRow(mode, RowOf(base, k), RowOf(ours, k), RowOf(theirs, k)).value.value)
  }

  /** reconcileWorkingSets: two shortcuts for an unchanged side, then the merge. */
  function Reconcile(mode: Mode, base: Store, ours: Store, theirs: Store): Option<Store> {
    if base == ours then Some(theirs)
    else if base == theirs then Some(ours)
    else MergeRows(mode, base, ours, theirs)
  }

  lemma MergeRowsAt(mode: Mode, base: Store, ours: Store, theirs: Store, k: Id)
    requires MergeRows(mode, base, ours, theirs).Some?
    ensures MergeRow(mode, RowOf(base, k), RowOf(ours, k), RowOf(theirs, k))
         == Some(RowOf(MergeRows(mode, base, ours, theirs).value, k))
  {
    hide MergeRow;
    assert k !in base.Keys + ours.Keys + theirs.Keys ==> MergeRow(mode, None, None, None) == Some(None) by {
      UnchangedRow(mode, None, None);
    }
  }

  lemma UnchangedRow(mode: Mode, base: Row, other: Row)
    ensures MergeRow(mode, base, base, other) == Some(other)
    ensures MergeRow(mode, base, other, base) == Some(other)
  {
  }

  /** The shortcuts give what the merge would have given. */
  lemma ReconcileIsMerge(mode: Mode, base: Store, ours: Store, theirs: Store)
    ensures Reconcile(mode, base, ours, theirs) == MergeRows(mode, base, ours, theirs)
  {
    hide MergeRow;
    if base == ours || base == theirs {
      var other := if base == ours then theirs else ours;
      forall k ensures MergeRow(mode, RowOf(base, k), RowOf(ours, k), RowOf(theirs, k)) == Some(RowOf(other, k)) {
        UnchangedRow(mode, RowOf(base, k), RowOf(other, k));
      }
      var m := MergeRows(mode, base, ours, theirs);
      assert m.Some?;
      forall k ensures RowOf(m.value, k) == RowOf(other, k) {
        MergeRowsAt(mode, base, ours, theirs, k);
      }
      SameRows(m.value, other);
    }
  }

  /** A write to one document is decided by that document's row alone. */
  lemma ReconcileOneRow(mode: Mode, base: Store, theirs: Store, id: Id, row: Row)
    ensures Reconcile(mode, base, WithRow(base, id, row), theirs)
         == match MergeRow(mode, RowOf(base, id), row, RowOf(theirs, id))
            case None => None
            case Some(merged) => Some(WithRow(theirs, id, merged))
  {
    hide MergeRow;
    var ours := WithRow(base, id, row);
    ReconcileIsMerge(mode, base, ours, theirs);
    var r := MergeRow(mode, RowOf(base, id), row, RowOf(theirs, id));
    forall k | k != id
      ensures MergeRow(mode, RowOf(base, k), RowOf(ours, k), RowOf(theirs, k)) == Some(RowOf(theirs, k))
    {
      UnchangedRow(mode, RowOf(base, k), RowOf(theirs, k));
    }
    if r.None? {
      UnchangedRow(mode, None, None);
      assert id in base.Keys + ours.Keys + theirs.Keys;
    } else {
      var m := MergeRows(mode, base, ours, theirs);
      assert m.Some?;
      forall k ensures RowOf(m.value, k) == RowOf(WithRow(theirs, id, r.value), k) {
        MergeRowsAt(mode, base, ours, theirs, k);
      }
      SameRows(m.value, WithRow(theirs, id, r.value));
    }
  }
}
