/**
 When a merged write counts as having run after the writes it merged with. A command
 reads one document and answers with the document to write and a reply; it is in order
 under a mode when, whatever it ran on and whatever was published meanwhile, a merge the
 mode lets through is what running it again on the published document would have given.
 */
module WriteOrder {
  import opened Bytes
  import opened MergeModes

  type Reply = bytes

  datatype Effect = Fails | Writes(row: Row, reply: Reply)

  /** The merge of what run wrote over b with t, if there is one, is run's own effect on t. */
  ghost predicate InOrder(mode: Mode, run: Row -> Effect, b: Row, t: Row) {
    run(b).Writes? && run(b).row != b && MergeRow(mode, b, run(b).row, t).Some?
    ==> run(t) == Writes(MergeRow(mode, b, run(b).row, t).value, run(b).reply)
  }

  ghost predicate Safe(mode: Mode, run: Row -> Effect) {
    forall b, t :: InOrder(mode, run, b, t)
  }

  // -------------------------------------------------------------- documentTouched

  /** Under documentTouched a command is safe if and only if it is safe where it creates its document. */
  lemma SafeDocumentTouched(run: Row -> Effect)
    ensures Safe(DocumentTouched, run) <==> forall t :: InOrder(DocumentTouched, run, None, t)
  {
    hide MergeRow;
    if forall t :: InOrder(DocumentTouched, run, None, t) {
      forall b, t ensures InOrder(DocumentTouched, run, b, t) {
        if run(b).Writes? && run(b).row != b {
          UnchangedRow(DocumentTouched, b, run(b).row);
          if t != b { DocumentTouchedMerge(b, run(b).row, t); }
        }
      }
    }
  }

  predicate Bare(row: Row) { row == Some(map[]) }

  /** With no bare documents about, every command is in order under documentTouched. */
  lemma NoBareInOrder(run: Row -> Effect, b: Row, t: Row)
    requires run(b).Writes? ==> !Bare(run(b).row)
    requires !Bare(t)
    ensures InOrder(DocumentTouched, run, b, t)
  {
    hide MergeRow;
    if run(b).Writes? && run(b).row != b {
      UnchangedRow(DocumentTouched, b, run(b).row);
      if t != b { DocumentTouchedMerge(b, run(b).row, t); }
    }
  }

  // ------------------------------------------------------------- changing one path

  function PutCell(x: Fields, f: Field, c: Cell): (y: Fields)
    ensures CellOf(y, f) == c && forall g :: g != f ==> CellOf(y, g) == CellOf(x, g)
  {
    if c.Some? then x[f := c.value] else x - {f}
  }

  /** Every step of the path but the last is through a document. */
  predicate DocsOn(c: Cell, p: Path)
    decreases |p|
  {
    p != [] ==> IsDoc(c) && DocsOn(CellOf(c.value.fields, p[0]), p[1..])
  }

  function Plug(c: Cell, p: Path, x: Cell): Cell
    decreases |p|
  {
    if p == [] then x
    else if !IsDoc(c) then c
    else Some(Sub(PutCell(c.value.fields, p[0], Plug(CellOf(c.value.fields, p[0]), p[1..], x))))
  }

  lemma {:induction false} PlugAt(c: Cell, p: Path, x: Cell, y: Cell)
    requires DocsOn(c, p)
    ensures CellAt(Plug(c, p, x), p) == x && DocsOn(Plug(c, p, x), p)
    ensures Plug(Plug(c, p, x), p, y) == Plug(c, p, y)
    ensures Plug(c, p, CellAt(c, p)) == c
    ensures p != [] ==> IsDoc(Plug(c, p, x))
    decreases |p|
  {
    hide PutCell;
    if p != [] {
      var f, fs := p[0], c.value.fields;
      PlugAt(CellOf(fs, f), p[1..], x, y);
      var one := PutCell(fs, f, Plug(CellOf(fs, f), p[1..], x));
      SameFields(PutCell(one, f, Plug(CellOf(one, f), p[1..], y)), PutCell(fs, f, Plug(CellOf(fs, f), p[1..], y)));
      SameFields(PutCell(fs, f, CellOf(fs, f)), fs);
    }
  }

  /** Changing a field of the document at p is changing that document. */
  lemma {:induction false} PlugInner(c: Cell, p: Path, f: Field, x: Cell)
    requires DocsOn(c, p) && IsDoc(CellAt(c, p))
    ensures DocsOn(c, p + [f]) && CellAt(c, p + [f]) == CellOf(CellAt(c, p).value.fields, f)
    ensures Plug(c, p + [f], x) == Plug(c, p, Some(Sub(PutCell(CellAt(c, p).value.fields, f, x))))
    decreases |p|
  {
    hide PutCell;
    if p == [] {
      assert p + [f] == [f] && [f][1..] == [];
    } else {
      assert (p + [f])[0] == p[0] && (p + [f])[1..] == p[1..] + [f];
      PlugInner(CellOf(c.value.fields, p[0]), p[1..], f, x);
    }
  }

  /** A rival that changed one path meets ours at that path only, and the merge is ours with the two merged there. */
  lemma {:induction false} LocalMerge(x: Cell, o: Cell, p: Path, y: Cell)
    requires DocsOn(x, p) && DocsOn(o, p)
    ensures Apart(x, o, Plug(x, p, y)) <==> Apart(CellAt(x, p), CellAt(o, p), y)
    ensures Apart(x, o, Plug(x, p, y)) && MergeCell(CellAt(x, p), CellAt(o, p), y).Some?
        ==> MergeCell(x, o, Plug(x, p, y)) == Some(Plug(o, p, MergeCell(CellAt(x, p), CellAt(o, p), y).value))
    decreases |p|
  {
    hide Apart, MergeCell, PutCell;
    if p != [] {
      var f, xs, os := p[0], x.value.fields, o.value.fields;
      var r := Plug(x, p, y);
      LocalMerge(CellOf(xs, f), CellOf(os, f), p[1..], y);
      forall g | g != f ensures Apart(CellOf(xs, g), CellOf(os, g), CellOf(r.value.fields, g))
                        ensures MergeCell(CellOf(xs, g), CellOf(os, g), CellOf(r.value.fields, g))
                                == Some(CellOf(os, g))
      {
        ApartUnchanged(CellOf(xs, g), CellOf(os, g));
        UnchangedCell(CellOf(xs, g), CellOf(os, g));
      }
      ApartKeys(x.value, o.value, r.value);
      if Apart(x, o, r) && MergeCell(CellAt(x, p), CellAt(o, p), y).Some? {
        var m := Plug(o, p, MergeCell(CellAt(x, p), CellAt(o, p), y).value);
        MergeDocIs(x.value, o.value, r.value, m.value.fields);
        CleanCell(x.value, o.value, r.value);
      }
    }
  }

  lemma UnchangedCell(b: Cell, o: Cell)
    ensures MergeCell(b, o, b) == Some(o) && MergeCell(b, b, o) == Some(o)
  {
  }

  // ----------------------------------------------------------------- fieldTouched

  function RowCell(row: Row): Cell { if row.Some? then Some(Sub(row.value)) else None }

  /** t is there, and b is absent or differs from it in one path. */
  ghost predicate Neighbours(b: Row, t: Row) {
    t.Some? && (b.Some? ==> exists p, c :: OnePath(b, t, p, c))
  }

  predicate OnePath(b: Row, t: Row, p: Path, c: Cell) {
    p != [] && DocsOn(RowCell(b), p) && RowCell(t) == Plug(RowCell(b), p, c)
  }

  /** Under fieldTouched a command is safe if and only if it is safe against rivals that changed one path. */
  lemma SafeFieldTouched(run: Row -> Effect)
    ensures Safe(FieldTouched, run) <==> forall b, t | Neighbours(b, t) :: InOrder(FieldTouched, run, b, t)
  {
    hide MergeRow, Neighbours;
    if forall b, t | Neighbours(b, t) :: InOrder(FieldTouched, run, b, t) {
      forall b, t ensures InOrder(FieldTouched, run, b, t) {
        PathByPath(run, b, t);
      }
    }
  }

  ghost predicate SafeNearby(run: Row -> Effect) {
    forall b, t | Neighbours(b, t) :: InOrder(FieldTouched, run, b, t)
  }

  lemma PathByPath(run: Row -> Effect, b: Row, t: Row)
    requires SafeNearby(run)
    ensures InOrder(FieldTouched, run, b, t)
  {
    hide MergeRow, MergeDoc, Apart;
    if run(b).Writes? && run(b).row != b {
      var o := run(b).row;
      UnchangedRow(FieldTouched, b, o);
      if t != b {
        FieldTouchedMerge(b, o, t);
        if MergeRow(FieldTouched, b, o, t).Some? {
          if b.None? {
            assert Neighbours(b, t);
          } else {
            RebaseAt(run, RowCell(b), RowCell(o), run(b).reply, [], Sub(t.value));
            CleanCell(Sub(b.value), Sub(o.value), Sub(t.value));
          }
        }
      }
    }
  }

  /** run, on the document x, writes the document o. */
  ghost predicate Takes(run: Row -> Effect, x: Cell, o: Cell, reply: Reply) {
    IsDoc(x) && IsDoc(o) && run(Some(x.value.fields)) == Writes(Some(o.value.fields), reply)
  }

  lemma OneStep(run: Row -> Effect, x: Cell, o: Cell, reply: Reply, p: Path, y: Cell)
    requires SafeNearby(run) && Takes(run, x, o, reply) && o != x
    requires p != [] && DocsOn(x, p) && DocsOn(o, p) && y != CellAt(x, p) && Apart(CellAt(x, p), CellAt(o, p), y)
    requires MergeCell(CellAt(x, p), CellAt(o, p), y).Some?
    ensures Takes(run, Plug(x, p, y), Plug(o, p, MergeCell(CellAt(x, p), CellAt(o, p), y).value), reply)
  {
    hide MergeRow, MergeDoc, FieldConflicts, MergeCell, InOrder;
    var x', o' := Plug(x, p, y), Plug(o, p, MergeCell(CellAt(x, p), CellAt(o, p), y).value);
    LocalMerge(x, o, p, y);
    PlugAt(x, p, y, y);
    PlugAt(o, p, MergeCell(CellAt(x, p), CellAt(o, p), y).value, y);
    var b, w, t := Some(x.value.fields), Some(o.value.fields), Some(x'.value.fields);
    assert OnePath(b, t, p, y);
    assert InOrder(FieldTouched, run, b, t);
    FieldTouchedMerge(b, w, t);
    CleanCell(x.value, o.value, x'.value);
    UseOrder(run, b, t, w, reply, Some(o'.value.fields));
  }

  lemma UseOrder(run: Row -> Effect, b: Row, t: Row, w: Row, reply: Reply, m: Row)
    requires InOrder(FieldTouched, run, b, t) && run(b) == Writes(w, reply) && w != b
    requires MergeRow(FieldTouched, b, w, t) == Some(m)
    ensures run(t) == Writes(m, reply)
  {
    hide MergeRow;
  }

  /** Moving the document at p to y one path at a time carries the command's changes along. */
  lemma {:induction false} RebaseAt(run: Row -> Effect, x: Cell, o: Cell, reply: Reply, p: Path, y: Value)
    requires SafeNearby(run) && Takes(run, x, o, reply) && o != x
    requires DocsOn(x, p) && DocsOn(o, p) && IsDoc(CellAt(x, p)) && IsDoc(CellAt(o, p)) && y.Sub?
    requires Apart(CellAt(x, p), CellAt(o, p), Some(y)) && MergeCell(CellAt(x, p), CellAt(o, p), Some(y)).Some?
    ensures Takes(run, Plug(x, p, Some(y)), Plug(o, p, MergeCell(CellAt(x, p), CellAt(o, p), Some(y)).value), reply)
    decreases y, |Changed(CellAt(x, p).value.fields, y.fields)|
  {
    hide MergeRow, MergeDoc, FieldConflicts, MergeCell, Apart, SafeNearby, Changed, PutCell, Takes;
    var X, O := CellAt(x, p).value, CellAt(o, p).value;
    if Changed(X.fields, y.fields) == {} {
      ChangedNone(X.fields, y.fields);
      UnchangedCell(Some(X), Some(O));
      PlugAt(x, p, Some(y), Some(y));
      PlugAt(o, p, Some(O), Some(O));
    } else {
      var f :| f in Changed(X.fields, y.fields);
      var xc, oc, yc := CellOf(X.fields, f), CellOf(O.fields, f), CellOf(y.fields, f);
      ApartKeys(X, O, y);
      CellMerges(xc, oc, yc);
      var mc := MergeCell(xc, oc, yc).value;
      PlugInner(x, p, f, yc);
      PlugInner(o, p, f, mc);
      var x', o' := Plug(x, p + [f], yc), Plug(o, p + [f], mc);
      if IsDoc(xc) && IsDoc(oc) && IsDoc(yc) {
        RebaseAt(run, x, o, reply, p + [f], yc.value);
      } else {
        OneStep(run, x, o, reply, p + [f], yc);
      }
      Advance(x, o, p, y, f, x', o');
      RebaseAt(run, x', o', reply, p, y);
      PlugAt(x, p, CellAt(x', p), Some(y));
      PlugAt(o, p, CellAt(o', p), MergeCell(Some(X), Some(O), Some(y)).value);
    }
  }

  lemma CellMerges(b: Cell, l: Cell, r: Cell)
    requires Apart(b, l, r)
    ensures MergeCell(b, l, r).Some?
    ensures l != b ==> MergeCell(b, l, r).value != r
    ensures IsDoc(l) && IsDoc(r) ==> IsDoc(MergeCell(b, l, r).value)
  {
    hide MergeDoc, FieldConflicts;
    if IsDoc(b) && IsDoc(l) && IsDoc(r) {
      ApartMerges(b.value, l.value, r.value);
      CleanCell(b.value, l.value, r.value);
    }
  }

  /** After one field of the document at p has been moved, the rest is as before. */
  lemma Advance(x: Cell, o: Cell, p: Path, y: Value, f: Field, x': Cell, o': Cell)
    requires DocsOn(x, p) && DocsOn(o, p) && IsDoc(CellAt(x, p)) && IsDoc(CellAt(o, p)) && y.Sub? && o != x && IsDoc(x)
             && IsDoc(o)
    requires Apart(CellAt(x, p), CellAt(o, p), Some(y)) && f in Changed(CellAt(x, p).value.fields, y.fields)
    requires var X, O := CellAt(x, p).value.fields, CellAt(o, p).value.fields;
             var m := MergeCell(CellOf(X, f), CellOf(O, f), CellOf(y.fields, f));
             m.Some? && x' == Plug(x, p, Some(Sub(PutCell(X, f, CellOf(y.fields, f)))))
             && o' == Plug(o, p, Some(Sub(PutCell(O, f, m.value))))
    ensures DocsOn(x', p) && DocsOn(o', p) && IsDoc(CellAt(x', p)) && IsDoc(CellAt(o', p)) && o' != x'
    ensures x' == Plug(x, p, CellAt(x', p)) && o' == Plug(o, p, CellAt(o', p))
    ensures Apart(CellAt(x', p), CellAt(o', p), Some(y)) && MergeCell(CellAt(x', p), CellAt(o', p), Some(y)).Some?
    ensures |Changed(CellAt(x', p).value.fields, y.fields)| < |Changed(CellAt(x, p).value.fields, y.fields)|
    ensures MergeCell(CellAt(x', p), CellAt(o', p), Some(y)) == MergeCell(CellAt(x, p), CellAt(o, p), Some(y))
  {
    hide MergeDoc, FieldConflicts, MergeCell, Apart, Changed, PutCell, Plug, DocsOn, CellAt;
    var X, O := CellAt(x, p).value, CellAt(o, p).value;
    var m := MergeCell(CellOf(X.fields, f), CellOf(O.fields, f), CellOf(y.fields, f)).value;
    var X', O' := Sub(PutCell(X.fields, f, CellOf(y.fields, f))), Sub(PutCell(O.fields, f, m));
    PlugAt(x, p, Some(X'), Some(X'));
    PlugAt(o, p, Some(O'), Some(O'));
    AdvanceHere(X, O, y, f, X', O');
    OneField(X, O, y, f, X', O');
    StaysVisible(x, o, p, X', O');
  }

  /** Moving one field of ours and theirs is itself a clean merge. */
  lemma OneField(X: Value, O: Value, y: Value, f: Field, X': Value, O': Value)
    requires X.Sub? && O.Sub? && y.Sub? && Apart(Some(X), Some(O), Some(y))
    requires MergeCell(CellOf(X.fields, f), CellOf(O.fields, f), CellOf(y.fields, f)).Some?
    requires X' == Sub(PutCell(X.fields, f, CellOf(y.fields, f)))
    requires O'
             == Sub(PutCell(O.fields, f,
                            MergeCell(CellOf(X.fields, f), CellOf(O.fields, f), CellOf(y.fields, f)).value))
    ensures Apart(Some(X), Some(O), Some(X')) && MergeCell(Some(X), Some(O), Some(X')) == Some(Some(O'))
  {
    hide MergeDoc, FieldConflicts, MergeCell, Apart, PutCell;
    ApartKeys(X, O, y);
    assert [f][1..] == [];
    LocalMerge(Some(X), Some(O), [f], CellOf(y.fields, f));
  }

  lemma AdvanceHere(X: Value, O: Value, y: Value, f: Field, X': Value, O': Value)
    requires X.Sub? && O.Sub? && y.Sub? && Apart(Some(X), Some(O), Some(y)) && f in Changed(X.fields, y.fields)
    requires MergeCell(CellOf(X.fields, f), CellOf(O.fields, f), CellOf(y.fields, f)).Some?
    requires X' == Sub(PutCell(X.fields, f, CellOf(y.fields, f)))
    requires O'
             == Sub(PutCell(O.fields, f,
                            MergeCell(CellOf(X.fields, f), CellOf(O.fields, f), CellOf(y.fields, f)).value))
    ensures Apart(Some(X'), Some(O'), Some(y)) && MergeCell(Some(X'), Some(O'), Some(y)).Some?
    ensures MergeCell(Some(X'), Some(O'), Some(y)) == MergeCell(Some(X), Some(O), Some(y))
    ensures |Changed(X'.fields, y.fields)| < |Changed(X.fields, y.fields)|
  {
    hide MergeDoc, FieldConflicts, MergeCell, Apart, PutCell, Changed;
    ApartKeys(X, O, y);
    ApartKeys(X', O', y);
    ApartUnchanged(CellOf(y.fields, f), CellOf(O'.fields, f));
    UnchangedCell(CellOf(y.fields, f), CellOf(O'.fields, f));
    MergesApart(X, O, y);
    var m := MergeDoc(X, O, y).value;
    forall g
      ensures MergeCell(CellOf(X'.fields, g), CellOf(O'.fields, g), CellOf(y.fields, g)) == Some(CellOf(m.fields, g))
    {
      MergeDocCell(X, O, y, g);
    }
    MergeDocIs(X', O', y, m.fields);
    CleanCell(X, O, y);
    CleanCell(X', O', y);
    assert Changed(X'.fields, y.fields) == Changed(X.fields, y.fields) - {f};
  }

  lemma MergesApart(b: Value, l: Value, r: Value)
    requires b.Sub? && l.Sub? && r.Sub? && Apart(Some(b), Some(l), Some(r))
    ensures MergeDoc(b, l, r).Some?
  {
    ApartMerges(b, l, r);
  }

  /** The command's own change is still there after the step. */
  lemma StaysVisible(x: Cell, o: Cell, p: Path, X': Value, O': Value)
    requires DocsOn(x, p) && DocsOn(o, p) && IsDoc(CellAt(x, p)) && IsDoc(CellAt(o, p)) && IsDoc(x) && IsDoc(o)
             && o != x && X'.Sub? && O'.Sub?
    requires Apart(CellAt(x, p), CellAt(o, p), Some(X'))
             && MergeCell(CellAt(x, p), CellAt(o, p), Some(X')) == Some(Some(O'))
    ensures Plug(o, p, Some(O')) != Plug(x, p, Some(X'))
  {
    hide MergeDoc, FieldConflicts, MergeCell, Apart, PutCell;
    LocalMerge(x, o, p, Some(X'));
    CellMerges(x, o, Plug(x, p, Some(X')));
  }

  // ------------------------------------------------------ commands on a single path

  datatype PathEffect = Refuses | Puts(value: Option<bytes>, reply: Reply)

  function LeafCell(v: Option<bytes>): Cell { if v.Some? then Some(Leaf(v.value)) else None }

  function LeafAt(c: Cell): Option<bytes> { if c.Some? && c.value.Leaf? then Some(c.value.raw) else None }

  /** The path can be read as a leaf: its parents are documents and it is not one itself. */
  predicate Matches(row: Row, p: Path) {
    row.Some? && DocsOn(RowCell(row), p) && !IsDoc(CellAt(RowCell(row), p))
  }

  /** A command that looks at and writes one path that holds no document; anything else matches nothing. */
  function PathEffectOn(p: Path, step: Option<bytes> -> PathEffect, unmatched: Reply, row: Row): Effect {
    if !Matches(row, p) then Writes(row, unmatched)
    else
      match step(LeafAt(CellAt(RowCell(row), p)))
      case Refuses => Fails
      case Puts(v, reply) => Writes(RowOfCell(Plug(RowCell(row), p, LeafCell(v))), reply)
  }

  function PathCommand(p: Path, step: Option<bytes> -> PathEffect, unmatched: Reply): Row -> Effect {
    (row: Row) => PathEffectOn(p, step, unmatched, row)
  }

  function RowOfCell(c: Cell): Row { if IsDoc(c) then Some(c.value.fields) else None }

  /**
   What a leaf command wrote is apart from t only if t still has the leaf it read, and
   merges by being written to t.
   */
  lemma {:induction false} LeafMoves(x: Cell, p: Path, v: Cell, t: Cell)
    requires DocsOn(x, p) && !IsDoc(CellAt(x, p)) && !IsDoc(v) && v != CellAt(x, p)
    requires Apart(x, Plug(x, p, v), t)
    ensures DocsOn(t, p) && CellAt(t, p) == CellAt(x, p)
    ensures MergeCell(x, Plug(x, p, v), t) == Some(Plug(t, p, v))
    decreases |p|
  {
    PlugAt(x, p, v, v);
    if p != [] {
      var o := Plug(x, p, v);
      assert o != x;
      assert IsDoc(t);
      hide PutCell, FieldConflicts, MergeCell, Apart, MergeDoc;
      var f, xs, os, ts := p[0], x.value.fields, o.value.fields, t.value.fields;
      ApartKeys(x.value, o.value, t.value);
      LeafMoves(CellOf(xs, f), p[1..], v, CellOf(ts, f));
      var m := PutCell(ts, f, Plug(CellOf(ts, f), p[1..], v));
      forall g ensures MergeCell(CellOf(xs, g), CellOf(os, g), CellOf(ts, g)) == Some(CellOf(m, g)) {
        if g != f { UnchangedCell(CellOf(xs, g), CellOf(ts, g)); }
      }
      MergeDocIs(x.value, o.value, t.value, m);
      CleanCell(x.value, o.value, t.value);
    }
  }

  /** Commands on one path that holds no document, compare-and-swap among them, are safe under both touched modes. */
  lemma PathCommandSafe(p: Path, step: Option<bytes> -> PathEffect, unmatched: Reply)
    ensures Safe(FieldTouched, PathCommand(p, step, unmatched))
    ensures Safe(DocumentTouched, PathCommand(p, step, unmatched))
  {
    hide MergeRow, MergeDoc, FieldConflicts;
    var run := PathCommand(p, step, unmatched);
    assert run(None) == Writes(None, unmatched);
    SafeDocumentTouched(run);
    forall b, t ensures InOrder(FieldTouched, run, b, t) {
      if run(b).Writes? && run(b).row != b && MergeRow(FieldTouched, b, run(b).row, t).Some? {
        UnchangedRow(FieldTouched, b, run(b).row);
        assert Matches(b, p) && p != [];
        if t != b { PathCommandMoves(p, step, unmatched, b, t); }
      }
    }
  }

  lemma PathCommandMoves(p: Path, step: Option<bytes> -> PathEffect, unmatched: Reply, b: Row, t: Row)
    requires p != [] && PathCommand(p, step, unmatched)(b).Writes?
    requires var o := PathCommand(p, step, unmatched)(b).row; o != b && t != b && MergeRow(FieldTouched, b, o, t).Some?
    ensures InOrder(FieldTouched, PathCommand(p, step, unmatched), b, t)
  {
    hide MergeRow, MergeDoc, FieldConflicts, MergeCell, Plug, DocsOn, CellAt;
    var run := PathCommand(p, step, unmatched);
    var x, v := RowCell(b), LeafCell(step(LeafAt(CellAt(RowCell(b), p))).value);
    var o := run(b).row;
    PlugAt(x, p, v, v);
    assert v != CellAt(x, p);
    FieldTouchedMerge(b, o, t);
    assert RowCell(o) == Plug(x, p, v);
    LeafMoves(x, p, v, RowCell(t));
    CleanCell(x.value, Sub(o.value), Sub(t.value));
    PlugAt(RowCell(t), p, v, v);
  }

  // -------------------------------------------------------------- where it fails

  const V: Field := [118]
  const W: Field := [119]
  const ONE: bytes := [49]
  const TWO: bytes := [50]

  /** Set v to 2 where v is 1. */
  function SwapStep(v: Option<bytes>): PathEffect {
    if v == Some(ONE) then Puts(Some(TWO), ONE) else Puts(v, [])
  }

  function Swap(): Row -> Effect { PathCommand([V], SwapStep, []) }

  lemma SwapAt(raw: bytes)
    ensures var r := SwapStep(Some(raw));
            Swap()(Some(map[V := Leaf(raw)]))
            == Writes(Some(map[V := Leaf(r.value.value)]), r.reply)
  {
    var step: Option<bytes> -> PathEffect := SwapStep;
    var x: Fields := map[V := Leaf(raw)];
    var r := step(Some(raw));
    assert [V][1..] == [];
    assert CellAt(Some(Sub(x)), [V]) == Some(Leaf(raw));
    assert Matches(Some(x), [V]);
    assert PutCell(x, V, Some(Leaf(r.value.value))) == map[V := Leaf(r.value.value)];
    assert Plug(Some(Sub(x)), [V], Some(Leaf(r.value.value))) == Some(Sub(map[V := Leaf(r.value.value)]));
  }

  /** fieldTouched is the weakest mode in which a compare-and-swap is safe. */
  lemma WeakestSafeMode(mode: Mode)
    ensures Safe(mode, Swap()) <==> mode == FieldTouched || mode == DocumentTouched
  {
    hide MergeRow;
    if mode == FieldTouched || mode == DocumentTouched {
      PathCommandSafe([V], SwapStep, []);
    } else {
      SwapAt(ONE);
      SwapAt(TWO);
      var b, t: Fields := map[V := Leaf(ONE)], map[V := Leaf(TWO)];
      BothAlike(mode, b, t);
      assert b[V] != t[V];
      assert !InOrder(mode, Swap(), Some(b), Some(t));
    }
  }

  /** The divergent modes let two identical changes through as one. */
  lemma BothAlike(mode: Mode, b: Fields, t: Fields)
    requires mode == FieldDivergent || mode == DocumentDivergent
    ensures MergeRow(mode, Some(b), Some(t), Some(t)) == Some(Some(t))
  {
    hide MergeDoc;
    MergeDocAlike(Sub(b), Sub(t));
    if b != t { AlikeAgree(Sub(b), Sub(t)); }
  }

  lemma {:induction false} AlikeAgree(b: Value, t: Value)
    requires b.Sub? && t.Sub?
    ensures !FieldConflicts(false, b, t, t)
    decreases b
  {
    forall f | f in b.fields && b.fields[f].Sub? && f in t.fields && t.fields[f].Sub?
      ensures !FieldConflicts(false, b.fields[f], t.fields[f], t.fields[f])
    {
      AlikeAgree(b.fields[f], t.fields[f]);
    }
    forall f ensures !KeyConflicts(false, b, t, t, f) {}
  }

  /** Set v to 2 where w is 1, in a document: what it reads is not what it writes. */
  function Guard(x: Fields): Option<Fields> {
    if CellOf(x, W) == Some(Leaf(ONE)) then Some(x[V := Leaf(TWO)]) else None
  }

  /** On the fields of the document itself. */
  function Guarded(): Row -> Effect {
    (row: Row) =>
      if row.Some? && Guard(row.value).Some? then Writes(Some(Guard(row.value).value), ONE) else Writes(row, [])
  }

  const A: Field := [97]

  /** On the fields of the document in its field a: a command that reads and writes a alone. */
  function GuardedInside(): Row -> Effect {
    (row: Row) =>
      if row.Some? && IsDoc(CellOf(row.value, A)) && Guard(row.value[A].fields).Some?
      then Writes(Some(row.value[A := Sub(Guard(row.value[A].fields).value)]), ONE)
      else Writes(row, [])
  }

  lemma GuardApart()
    ensures var b, o, t: Fields := map[V := Leaf(ONE), W := Leaf(ONE)], map[V := Leaf(TWO), W := Leaf(ONE)],
            map[V := Leaf(ONE), W := Leaf(TWO)];
            Guard(b) == Some(o) && Guard(t) == None && o != b && t != b
            && Apart(Some(Sub(b)), Some(Sub(o)), Some(Sub(t)))
  {
    var b, o, t: Fields := map[V := Leaf(ONE), W := Leaf(ONE)], map[V := Leaf(TWO), W := Leaf(ONE)],
                           map[V := Leaf(ONE), W := Leaf(TWO)];
    assert b[V := Leaf(TWO)] == o;
    assert o[V] != b[V] && t[W] != b[W];
    ApartKeys(Sub(b), Sub(o), Sub(t));
  }

  /** Under the default mode a command that reads one field and writes another can merge out of order. */
  lemma GuardedUnsafe()
    ensures !Safe(FieldTouched, Guarded()) && Safe(DocumentTouched, Guarded())
  {
    hide MergeRow, MergeDoc, Apart;
    SafeDocumentTouched(Guarded());
    GuardApart();
    var b, o, t: Fields := map[V := Leaf(ONE), W := Leaf(ONE)], map[V := Leaf(TWO), W := Leaf(ONE)],
                           map[V := Leaf(ONE), W := Leaf(TWO)];
    FieldTouchedMerge(Some(b), Some(o), Some(t));
    assert !InOrder(FieldTouched, Guarded(), Some(b), Some(t));
  }

  /** And so can one that reads and writes a single field, when that field holds a document. */
  lemma GuardedInsideUnsafe()
    ensures !Safe(FieldTouched, GuardedInside()) && Safe(DocumentTouched, GuardedInside())
  {
    hide MergeRow, MergeDoc, Apart;
    SafeDocumentTouched(GuardedInside());
    GuardApart();
    var b, o, t: Fields := map[V := Leaf(ONE), W := Leaf(ONE)], map[V := Leaf(TWO), W := Leaf(ONE)],
                           map[V := Leaf(ONE), W := Leaf(TWO)];
    var b', o', t': Fields := map[A := Sub(b)], map[A := Sub(o)], map[A := Sub(t)];
    assert b'[A := Sub(o)] == o';
    assert o'[A] != b'[A] && t'[A] != b'[A];
    assert Apart(Some(Sub(b')), Some(Sub(o')), Some(Sub(t'))) by {
      ApartUnchanged(None, None);
      forall f ensures Apart(CellOf(b', f), CellOf(o', f), CellOf(t', f)) {}
      ApartKeys(Sub(b'), Sub(o'), Sub(t'));
    }
    FieldTouchedMerge(Some(b'), Some(o'), Some(t'));
    assert GuardedInside()(Some(b')) == Writes(Some(o'), ONE);
    assert GuardedInside()(Some(t')) == Writes(Some(t'), []);
    assert !InOrder(FieldTouched, GuardedInside(), Some(b'), Some(t'));
  }

  /** Insert a document with no field but its _id. */
  function InsertBare(): Row -> Effect {
    (row: Row) => if row.None? then Writes(Some(map[]), ONE) else Fails
  }

  /** Two concurrent inserts of the same bare document are both accepted, in every mode. */
  lemma BareInsertUnsafe(mode: Mode)
    ensures MergeRow(mode, None, Some(map[]), Some(map[])) == Some(Some(map[]))
    ensures !Safe(mode, InsertBare())
  {
    hide MergeDoc;
    var e: Fields := map[];
    assert Changed(e, e) == {};
    MergeDocUnchanged(Sub(e), Sub(e));
    assert !InOrder(mode, InsertBare(), None, Some(e));
  }
}
