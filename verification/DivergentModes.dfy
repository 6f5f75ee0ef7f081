/**
 The two merge modes that let both sides make one change: a row merges unless the sides
 disagree, path by path under fieldDivergent and as whole documents under documentDivergent.
 */
module DivergentModes {
  import opened Bytes
  import opened MergeModes

  /** The sides disagree about nothing: one is unchanged, they are alike, or all are documents and agree within. */
  predicate Agree(b: Cell, l: Cell, r: Cell) {
    if IsDoc(b) && IsDoc(l) && IsDoc(r) then !FieldConflicts(false, b.value, l.value, r.value)
    else l == b || r == b || l == r
  }

  lemma AgreeKeys(b: Value, l: Value, r: Value)
    requires b.Sub? && l.Sub? && r.Sub?
    ensures Agree(Some(b), Some(l), Some(r))
       <==> forall f :: Agree(CellOf(b.fields, f), CellOf(l.fields, f), CellOf(r.fields, f))
  {
    forall f
      ensures KeyConflicts(false, b, l, r, f) <==> !Agree(CellOf(b.fields, f), CellOf(l.fields, f), CellOf(r.fields, f))
    {}
    if FieldConflicts(false, b, l, r) {
      var f :| f in Keys(b, l, r) && KeyConflicts(false, b, l, r, f);
      assert !Agree(CellOf(b.fields, f), CellOf(l.fields, f), CellOf(r.fields, f));
    }
    if f :| !Agree(CellOf(b.fields, f), CellOf(l.fields, f), CellOf(r.fields, f)) {
      assert KeyConflicts(false, b, l, r, f) && f in Keys(b, l, r);
    }
  }

  /** Sides of which two are the same never disagree. */
  lemma {:induction false} TwoAlikeAgree(b: Value, l: Value, r: Value)
    requires b.Sub? && l.Sub? && r.Sub? && (l == b || r == b || l == r)
    ensures !FieldConflicts(false, b, l, r)
    decreases b
  {
    forall f | f in b.fields && f in l.fields && f in r.fields
               && b.fields[f].Sub? && l.fields[f].Sub? && r.fields[f].Sub?
      ensures !FieldConflicts(false, b.fields[f], l.fields[f], r.fields[f])
    {
      TwoAlikeAgree(b.fields[f], l.fields[f], r.fields[f]);
    }
    forall f ensures !KeyConflicts(false, b, l, r, f) {}
  }

  /** The merge of documents succeeds exactly where the sides agree. */
  lemma {:induction false} AgreeMerges(b: Value, l: Value, r: Value)
    requires b.Sub? && l.Sub? && r.Sub?
    ensures MergeDoc(b, l, r).Some? <==> Agree(Some(b), Some(l), Some(r))
    decreases b
  {
    hide MergeDoc, FieldConflicts;
    AgreeKeys(b, l, r);
    forall f
      ensures MergeCell(CellOf(b.fields, f), CellOf(l.fields, f), CellOf(r.fields, f)).Some?
         <==> Agree(CellOf(b.fields, f), CellOf(l.fields, f), CellOf(r.fields, f))
    {
      var bc, lc, rc := CellOf(b.fields, f), CellOf(l.fields, f), CellOf(r.fields, f);
      if IsDoc(bc) && IsDoc(lc) && IsDoc(rc) {
        AgreeMerges(bc.value, lc.value, rc.value);
        if lc == bc || rc == bc || lc == rc { TwoAlikeAgree(bc.value, lc.value, rc.value); }
      }
    }
    AllOrNone(b, l, r);
  }

  lemma AllOrNone(b: Value, l: Value, r: Value)
    requires b.Sub? && l.Sub? && r.Sub?
    ensures MergeDoc(b, l, r).Some?
       <==> forall f :: MergeCell(CellOf(b.fields, f), CellOf(l.fields, f), CellOf(r.fields, f)).Some?
  {
    hide MergeCell, MergeDoc;
    if MergeDoc(b, l, r).Some? {
      forall f ensures MergeCell(CellOf(b.fields, f), CellOf(l.fields, f), CellOf(r.fields, f)).Some? {
        MergeDocCell(b, l, r, f);
      }
    } else if forall f :: MergeCell(CellOf(b.fields, f), CellOf(l.fields, f), CellOf(r.fields, f)).Some? {
      MergeAllKeys(b, l, r);
    }
  }

  // -------------------------------------------------------------------- by paths

  predicate Diverges(b: Cell, l: Cell, r: Cell, p: Path) {
    ChangedOnBoth(b, l, r, p) && CellAt(l, p) != CellAt(r, p)
  }

  lemma {:induction false} AgreeAt(b: Cell, l: Cell, r: Cell, p: Path)
    requires Agree(b, l, r)
    ensures !Diverges(b, l, r, p)
    decreases |p|
  {
    if p != [] && IsDoc(b) && IsDoc(l) && IsDoc(r) {
      AgreeKeys(b.value, l.value, r.value);
      AgreeAt(CellOf(b.value.fields, p[0]), CellOf(l.value.fields, p[0]), CellOf(r.value.fields, p[0]), p[1..]);
    }
  }

  lemma {:induction false} DivergesSomewhere(b: Cell, l: Cell, r: Cell) returns (p: Path)
    requires !Agree(b, l, r)
    ensures Diverges(b, l, r, p)
    decreases if b.Some? then b.value else Leaf([])
  {
    if IsDoc(b) && IsDoc(l) && IsDoc(r) {
      AgreeKeys(b.value, l.value, r.value);
      var f :| !Agree(CellOf(b.value.fields, f), CellOf(l.value.fields, f), CellOf(r.value.fields, f));
      var rest: Path := [];
      if f in b.value.fields {
        rest := DivergesSomewhere(CellOf(b.value.fields, f), CellOf(l.value.fields, f), CellOf(r.value.fields, f));
      }
      p := [f] + rest;
      assert Diverges(CellOf(b.value.fields, f), CellOf(l.value.fields, f), CellOf(r.value.fields, f), rest);
      assert p[1..] == rest;
      assert CellAt(b, p) == CellAt(CellOf(b.value.fields, f), rest);
      assert CellAt(l, p) == CellAt(CellOf(l.value.fields, f), rest);
      assert CellAt(r, p) == CellAt(CellOf(r.value.fields, f), rest);
    } else {
      p := [];
    }
  }

  /** Where the sides agree each path of the merge is ours if ours changed it, and theirs if not. */
  lemma {:induction false} AgreedAt(b: Cell, l: Cell, r: Cell, p: Path)
    requires MergeCell(b, l, r).Some? && Leafward(b, l, r, p)
    ensures CellAt(MergeCell(b, l, r).value, p) == if CellAt(l, p) != CellAt(b, p) then CellAt(l, p) else CellAt(r, p)
    decreases |p|
  {
    if !(l == b || r == b || l == r) && p != [] {
      hide MergeDoc;
      MergeDocCell(b.value, l.value, r.value, p[0]);
      AgreedAt(CellOf(b.value.fields, p[0]), CellOf(l.value.fields, p[0]), CellOf(r.value.fields, p[0]), p[1..]);
    }
  }

  // ------------------------------------------------------------------------ rows

  /** Under fieldDivergent rows both sides changed merge if and only if both are gone, or both are there and agree. */
  lemma FieldDivergentMerge(base: Row, left: Row, right: Row)
    requires left != base && right != base
    ensures MergeRow(FieldDivergent, base, left, right).Some?
       <==> (left.None? && right.None?)
            || (left.Some? && right.Some?
                && Agree(Some(Sub(Plain(base))), Some(Sub(left.value)), Some(Sub(right.value))))
    ensures left.None? && right.None? ==> MergeRow(FieldDivergent, base, left, right) == Some(None)
    ensures left.Some? && MergeRow(FieldDivergent, base, left, right).Some?
        ==> MergeDoc(Sub(Plain(base)), Sub(left.value), Sub(right.value)).Some?
            && MergeRow(FieldDivergent, base, left, right).value
               == Some(MergeDoc(Sub(Plain(base)), Sub(left.value), Sub(right.value)).value.fields)
  {
    hide MergeDoc, Changed, FieldConflicts;
    if left.Some? && right.Some? {
      var b, l, r := Sub(Plain(base)), Sub(left.value), Sub(right.value);
      AgreeMerges(b, l, r);
      if Changed(b.fields, l.fields) == {} {
        ChangedNone(b.fields, l.fields);
        TwoAlikeAgree(b, l, r);
      } else if Changed(b.fields, r.fields) == {} {
        ChangedNone(b.fields, r.fields);
        TwoAlikeAgree(b, l, r);
      }
    }
  }

  /** They merge if and only if no path was given two values, and then every path keeps its change. */
  lemma FieldDivergentPaths(base: Row, left: Row, right: Row)
    requires left != base && right != base && left.Some? && right.Some?
    ensures var b, l, r := Some(Sub(Plain(base))), Some(Sub(left.value)), Some(Sub(right.value));
            (MergeRow(FieldDivergent, base, left, right).Some? <==> forall p :: !Diverges(b, l, r, p))
            && (MergeRow(FieldDivergent, base, left, right).Some? ==>
                  MergeRow(FieldDivergent, base, left, right).value.Some?
                  && forall p :: Leafward(b, l, r, p) ==>
                       CellAt(Some(Sub(MergeRow(FieldDivergent, base, left, right).value.value)), p)
                       == if CellAt(l, p) != CellAt(b, p) then CellAt(l, p) else CellAt(r, p))
  {
    hide MergeRow, MergeDoc, FieldConflicts, Diverges, Leafward, Agree;
    var b, l, r := Some(Sub(Plain(base))), Some(Sub(left.value)), Some(Sub(right.value));
    FieldDivergentMerge(base, left, right);
    if Agree(b, l, r) {
      forall p ensures !Diverges(b, l, r, p) { AgreeAt(b, l, r, p); }
      CleanCell(b.value, l.value, r.value);
      forall p | Leafward(b, l, r, p)
        ensures CellAt(Some(MergeDoc(b.value, l.value, r.value).value), p)
                == if CellAt(l, p) != CellAt(b, p) then CellAt(l, p) else CellAt(r, p)
      {
        AgreedAt(b, l, r, p);
      }
    } else {
      var p := DivergesSomewhere(b, l, r);
    }
  }

  /**
   Under documentDivergent rows both sides changed merge if and only if they are alike,
   deletes included, or both sides created the document and one of the two is bare.
   */
  lemma DocumentDivergentMerge(base: Row, left: Row, right: Row)
    requires left != base && right != base
    ensures MergeRow(DocumentDivergent, base, left, right).Some?
       <==> left == right
            || (base.None? && left.Some? && right.Some? && (left.value == map[] || right.value == map[]))
    ensures MergeRow(DocumentDivergent, base, left, right).Some?
        ==> MergeRow(DocumentDivergent, base, left, right).value
            == if left.Some? && left.value == map[] then right else left
  {
    hide MergeDoc, Changed;
    if left.Some? && right.Some? {
      var b := Plain(base);
      if Changed(b, left.value) == {} {
        ChangedNone(b, left.value);
        MergeDocUnchanged(Sub(b), Sub(right.value));
      } else if Changed(b, right.value) == {} {
        ChangedNone(b, right.value);
        MergeDocUnchanged(Sub(b), Sub(left.value));
      } else if left == right {
        MergeDocAlike(Sub(b), Sub(left.value));
      }
      if base.Some? { Differs(b, left.value); Differs(b, right.value); }
    }
  }

  lemma Differs(a: Fields, b: Fields)
    ensures a != b ==> Changed(a, b) != {}
  {
    if Changed(a, b) == {} { ChangedNone(a, b); }
  }
}
