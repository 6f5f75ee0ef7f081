/**
 Reading a field of a document's bytes by path, and the laws that tie reading to
 editing. The bytes determine the tree, so the laws hold of the bytes themselves.
 */
module Lookups {
  import opened Bytes
  import opened Tree
  import opened Edits
  import opened Mutation

  /** What a lookup answers: type byte and value bytes, or nothing. */
  datatype Answer = Answer(tag: byte, value: bytes, found: bool)

  const NOTHING := Answer(0, [], false)

  function AnswerOf(r: Option<Value>): Answer {
    match r
    case None => NOTHING
    case Some(v) => Answer(TagOf(v), Enc(v), true)
  }

  /** On any bytes the search is safe; on the bytes of doc it answers as the tree does. */
  method LookupInBytes(buf: bytes, target: Path, ghost doc: Value) returns (r: Answer)
    ensures Document(doc) && buf == Enc(doc) ==> r == AnswerOf(Lookup(doc, target))
    ensures r.found || r == NOTHING
  {
    if |target| == 0 {
      return Answer(TYPE_DOCUMENT, buf, true);
    }
    hide Enc, FoundAt;
    ghost var wf := Document(doc) && buf == Enc(doc);
    var cursor := buf;
    ghost var node := doc;
    assert wf ==> Placed(cursor, 0, node) by {
      if wf { PlacedWhole(buf, doc); }
    }
    var i := 0;
    while i < |target|
      invariant 0 <= i < |target|
      invariant wf ==> Placed(cursor, 0, node) && Lookup(doc, target) == Lookup(node, target[i..])
    {
      var el := target[i];
      var tag, entryStart, valueStart, valueEnd, ok := FindEntry(cursor, 0, el, node);
      assert target[i..][0] == el && target[i..][1..] == target[i + 1..];
      if !ok {
        return NOTHING;
      }
      ghost var child := node;
      if wf {
        child := Get(node.fields, NameOf(el)).value;
        FoundChild(cursor, 0, node, NameOf(el), tag, entryStart, valueStart, valueEnd);
        FoundBytes(cursor, 0, node, NameOf(el), tag, entryStart, valueStart, valueEnd);
      }
      if i == |target| - 1 {
        assert target[i + 1..] == [];
        return Answer(tag, cursor[valueStart..valueEnd], true);
      }
      if tag != TYPE_DOCUMENT && tag != TYPE_ARRAY {
        return NOTHING;
      }
      cursor := cursor[valueStart..valueEnd];
      if wf {
        PlacedAlone(child);
      }
      node := child;
      i := i + 1;
    }
    return NOTHING;
  }

  lemma PlacedWhole(buf: bytes, doc: Value)
    requires Document(doc) && buf == Enc(doc)
    ensures Placed(buf, 0, doc)
  {
  }

  lemma PlacedAlone(v: Value)
    requires v.Node? && Wf(v) && |Enc(v)| < U32
    ensures Placed(Enc(v), 0, v)
  {
  }

  lemma FoundBytes(buf: bytes, container: int, node: Value, name: bytes, tag: byte, entryStart: int, valueStart: int,
                   valueEnd: int)
    requires FoundAt(buf, container, node, name, tag, entryStart, valueStart, valueEnd)
    ensures var v := Get(node.fields, name).value;
            0 <= valueStart <= valueEnd <= |buf| && buf[valueStart..valueEnd] == Enc(v) && Wf(v) && |Enc(v)| < U32
  {
  }

  // -------------------------------------------------- the bytes fix the tree

  lemma SameStart(a: bytes, s: bytes, b: bytes, t: bytes, n: nat)
    requires a + s == b + t && n <= |a| && n <= |b|
    ensures a[..n] == b[..n]
    ensures |a| == |b| ==> a == b && s == t
  {
    assert (a + s)[..n] == a[..n] && (b + t)[..n] == b[..n];
    assert a == (a + s)[..|a|] && b == (b + t)[..|b|];
    assert s == (a + s)[|a|..] && t == (b + t)[|b|..];
  }

  /** Two terminated strings at the start of the same bytes are the same string. */
  lemma SameCString(p: bytes, s: bytes, q: bytes, t: bytes)
    requires NoZero(p) && NoZero(q) && p + [0] + s == q + [0] + t
    ensures p == q && s == t
  {
    var w := p + [0] + s;
    assert w[|p|] == 0 && w[|q|] == 0;
    assert forall k :: 0 <= k < |p| ==> w[k] == p[k];
    assert forall k :: 0 <= k < |q| ==> w[k] == q[k];
    SameStart(p + [0], s, q + [0], t, 0);
    assert p == (p + [0])[..|p|] && q == (q + [0])[..|q|];
  }

  lemma SameScalar(tag: byte, a: bytes, s: bytes, b: bytes, t: bytes)
    requires ScalarOk(tag, a) && ScalarOk(tag, b) && a + s == b + t
    ensures a == b && s == t
  {
    if tag == 0x0B {
      var p, o :| IsTwoCStrings(a, p, o);
      var p', o' :| IsTwoCStrings(b, p', o');
      assert a + s == p + [0] + (o + [0] + s);
      assert b + t == p' + [0] + (o' + [0] + t);
      SameCString(p, o + [0] + s, p', o' + [0] + t);
      SameCString(o, s, o', t);
    } else {
      if |a| >= 4 && |b| >= 4 {
        SameStart(a, s, b, t, 4);
        assert Read32(a) == Read32(a[..4]) == Read32(b[..4]) == Read32(b);
      }
      SameStart(a, s, b, t, 0);
    }
  }

  /** A value is recognisable from its type byte and the bytes it starts. */
  lemma {:induction false} SameValue(v: Value, s: bytes, w: Value, t: bytes)
    requires Wf(v) && Wf(w) && TagOf(v) == TagOf(w) && |Enc(v)| < U32 && |Enc(w)| < U32
    requires Enc(v) + s == Enc(w) + t
    ensures v == w && s == t
    decreases v
  {
    if v.Scalar? {
      SameScalar(v.tag, v.raw, s, w.raw, t);
    } else {
      SameContainer(v, s, w, t);
      SameFields(v.fields, w.fields);
    }
  }

  lemma SameContainer(v: Value, s: bytes, w: Value, t: bytes)
    requires v.Node? && w.Node? && |Enc(v)| < U32 && |Enc(w)| < U32 && Enc(v) + s == Enc(w) + t
    ensures EncFields(v.fields) == EncFields(w.fields) && s == t
  {
    hide EncFields, Le32, Read32;
    var x, y := EncFields(v.fields), EncFields(w.fields);
    assert Enc(v) == Le32(|x| + 5) + (x + [0]) && Enc(w) == Le32(|y| + 5) + (y + [0]);
    SamePrefixed(Le32(|x| + 5), x + [0], s, Le32(|y| + 5), y + [0], t);
    assert (x + [0])[..|x|] == x && (y + [0])[..|y|] == y;
  }

  lemma SamePrefixed(l: bytes, x: bytes, s: bytes, m: bytes, y: bytes, t: bytes)
    requires |l| == |m| == 4 && |x| + 4 == Read32(l) && |y| + 4 == Read32(m)
    requires (l + x) + s == (m + y) + t
    ensures x == y && s == t
  {
    hide Read32;
    assert l + (x + s) == l + x + s && m + (y + t) == m + y + t;
    SameStart(l, x + s, m, y + t, 4);
    SameStart(x, s, y, t, 0);
  }

  lemma FieldBytes(fs: Fields)
    requires fs.Field?
    ensures EncFields(fs) == [TagOf(fs.value)] + (fs.name + [0] + (Enc(fs.value) + EncFields(fs.rest)))
  {
    hide Enc, TagOf;
  }

  lemma {:induction false} SameFields(fs: Fields, gs: Fields)
    requires WfFields(fs) && WfFields(gs) && EncFields(fs) == EncFields(gs) && |EncFields(fs)| < U32
    ensures fs == gs
    decreases fs
  {
    if fs.Field? && gs.Field? {
      hide Enc, TagOf, EncFields;
      var v, w := fs.value, gs.value;
      var s, t := Enc(v) + EncFields(fs.rest), Enc(w) + EncFields(gs.rest);
      FieldBytes(fs);
      FieldBytes(gs);
      SameStart([TagOf(v)], fs.name + [0] + s, [TagOf(w)], gs.name + [0] + t, 1);
      SameCString(fs.name, s, gs.name, t);
      SameValue(v, EncFields(fs.rest), w, EncFields(gs.rest));
      SameFields(fs.rest, gs.rest);
    } else {
      FieldsLength(fs);
      FieldsLength(gs);
    }
  }

  /** One document, one byte string. */
  lemma EncInjective(doc: Value, doc': Value)
    requires Document(doc) && Document(doc') && Enc(doc) == Enc(doc')
    ensures doc == doc'
  {
    SameValue(doc, [], doc', []);
  }

  // --------------------------------------------------------- laws of the bytes

  /** The document after a write, when the write succeeds and still fits. */
  ghost predicate Writable(doc: Value, p: Path, v: Value) {
    Document(doc) && Wf(v) && Set(doc, p, v).Ok? && NoZero(NameOf(Leaf(p))) && |Enc(Set(doc, p, v).value)| < U32
  }

  lemma SetIsDocument(doc: Value, p: Path, v: Value)
    requires Document(doc) && Wf(v) && Set(doc, p, v).Ok? && NoZero(NameOf(Leaf(p)))
    ensures Set(doc, p, v).value.Node? && !Set(doc, p, v).value.isArray && Wf(Set(doc, p, v).value)
  {
    var parent := Walk(doc, Init(p)).value;
    PutKeeps(parent, NameOf(Leaf(p)), v);
    RebuildKeeps(doc, Init(p), parent);
    RebuildKeeps(doc, Init(p), Put(parent, NameOf(Leaf(p)), v));
  }

  /**
   Write at p, then read at q. The path written reads back exactly the type and
   bytes written; a path that is neither on the way to p nor below it reads what
   it read before the write.
   */
  method SetThenLookup(buf: bytes, p: Path, tag: byte, valueBytes: bytes, q: Path, ghost doc: Value, ghost v: Value)
    returns (before: Answer, after: Answer)
    requires Writable(doc, p, v) && buf == Enc(doc) && TagOf(v) == tag && Enc(v) == valueBytes
    ensures Leads(p, q) && |p| == |q| ==> after == Answer(tag, valueBytes, true)
    ensures !Leads(p, q) && !Leads(q, p) ==> after == before
    ensures before == AnswerOf(Lookup(doc, q))
  {
    hide Enc, Set, Lookup;
    before := LookupInBytes(buf, q, doc);
    var r := SetFieldInBytes(buf, p, tag, valueBytes, doc, v);
    SetIsDocument(doc, p, v);
    LookupAfterSet(doc, p, v, q);
    if Leads(p, q) && |p| == |q| {
      LookupHere(v, q[|p|..]);
    }
    after := LookupInBytes(r.value, q, Set(doc, p, v).value);
  }

  lemma LookupHere(v: Value, p: Path)
    requires p == []
    ensures Lookup(v, p) == Some(v)
  {
  }

  /** Write at p, then remove p: the bytes come back exactly when p was absent. */
  method SetThenUnset(buf: bytes, p: Path, tag: byte, valueBytes: bytes, ghost doc: Value, ghost v: Value)
    returns (back: bytes)
    requires Writable(doc, p, v) && buf == Enc(doc) && TagOf(v) == tag && Enc(v) == valueBytes
    ensures back == buf <==> Lookup(doc, p).None?
  {
    var r := SetFieldInBytes(buf, p, tag, valueBytes, doc, v);
    SetIsDocument(doc, p, v);
    ghost var doc' := Set(doc, p, v).value;
    var r' := UnsetFieldInBytes(r.value, p, doc');
    UnsetUndoesSet(doc, p, v);
    WalkAgain(doc, p, v);
    UnsetIsDocument(doc', p);
    back := r'.value;
    if back == buf {
      EncInjective(Unset(doc', p).value, doc);
    }
  }

  lemma WalkAgain(doc: Value, p: Path, v: Value)
    requires doc.Node? && Set(doc, p, v).Ok? && Set(doc, p, v).value.Node?
    ensures Unset(Set(doc, p, v).value, p).Ok?
  {
    var parent' := Put(Walk(doc, Init(p)).value, NameOf(Leaf(p)), v);
    RebuildTwice(doc, Init(p), parent', parent');
  }

  lemma UnsetIsDocument(doc: Value, p: Path)
    requires Document(doc) && Unset(doc, p).Ok?
    ensures Document(Unset(doc, p).value)
  {
    RemoveFits(doc, Init(p), NameOf(Leaf(p)));
  }

  lemma {:induction false} LengthRemove(fs: Fields, name: bytes)
    ensures |EncFields(Remove(fs, name))| <= |EncFields(fs)|
  {
    if fs.Field? && fs.name != name {
      LengthRemove(fs.rest, name);
    }
  }

  /**
   Push, then pop: the bytes come back exactly when no element already carries
   the name the push chose, copies of the pushed element at the very end aside.
   */
  method PushThenPop(buf: bytes, p: Path, tag: byte, elemValue: bytes, ghost doc: Value, ghost v: Value)
    returns (back: bytes)
    requires Document(doc) && buf == Enc(doc) && Wf(v) && TagOf(v) == tag && Enc(v) == elemValue
    requires Push(doc, p, v).Ok? && |Enc(Push(doc, p, v).value)| < U32
    ensures Lookup(doc, p).Some? && Lookup(doc, p).value.Node?
    ensures var arr := Lookup(doc, p).value.fields;
            back == buf <==> Repeats(From(arr, Decimal(Count(arr))), Decimal(Count(arr)), v)
  {
    hide Enc, Push, Pop;
    var r := PushArrayInBytes(buf, p, tag, elemValue, doc, v);
    ghost var doc' := Push(doc, p, v).value;
    PushIsDocument(doc, p, v);
    var r' := PopArrayInBytes(r.value, p, doc');
    PopUndoesPush(doc, p, v);
    PopAgain(doc, p, v);
    back := r'.value;
    if back == buf {
      EncInjective(Pop(doc', p).value, doc);
    }
  }

  lemma PopAgain(doc: Value, p: Path, v: Value)
    requires Document(doc) && Push(doc, p, v).Ok? && Document(Push(doc, p, v).value)
    ensures Pop(Push(doc, p, v).value, p).Ok? && Document(Pop(Push(doc, p, v).value, p).value)
  {
    hide Enc, Rebuild, Wf;
    WalkLast(doc, p);
    var arr := Walk(doc, p).value;
    var name := Decimal(Count(arr.fields));
    var arr' := Node(true, Append(arr.fields, name, v));
    var doc' := Push(doc, p, v).value;
    RebuildTwice(doc, p, arr', arr');
    WalkPrefixOfWalk(doc', p);
    WalkLast(doc', p);
    CountAppend(arr.fields, name, v);
    RemoveFits(doc', p, name);
  }

  /** Removing a field of a container leaves a document. */
  lemma RemoveFits(doc: Value, p: Path, name: bytes)
    requires Document(doc) && Walk(doc, p).Ok?
    ensures var node := Walk(doc, p).value;
            Document(Rebuild(doc, p, Node(node.isArray, Remove(node.fields, name))))
  {
    var node := Walk(doc, p).value;
    var node' := Node(node.isArray, Remove(node.fields, name));
    RemoveKeeps(node.fields, name);
    RebuildKeeps(doc, p, node);
    RebuildKeeps(doc, p, node');
    LengthRemove(node.fields, name);
    RebuildLength(doc, p, node', |EncFields(node'.fields)| - |EncFields(node.fields)|);
  }

  lemma PushIsDocument(doc: Value, p: Path, v: Value)
    requires Document(doc) && Wf(v) && Push(doc, p, v).Ok?
    ensures Push(doc, p, v).value.Node? && !Push(doc, p, v).value.isArray && Wf(Push(doc, p, v).value)
    ensures |Enc(Push(doc, p, v).value)| < U32 ==> Document(Push(doc, p, v).value)
  {
    WalkLast(doc, p);
    var arr := Walk(doc, p).value;
    DecimalNoZero(Count(arr.fields));
    RebuildKeeps(doc, p, arr);
    InsertKeeps(arr.fields, Decimal(Count(arr.fields)), v);
    RebuildKeeps(doc, p, Node(true, Append(arr.fields, Decimal(Count(arr.fields)), v)));
  }
}
