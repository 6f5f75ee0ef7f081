/**
 What an edit of a document means, on trees. A path names one field per level;
 every edit rewrites the container the path leads to and nothing else.
 */
module Edits {
  import opened Bytes
  import opened Tree

  /** One step of a path: an object key or an array position. */
  datatype Elem = Key(key: bytes) | Index(idx: nat)

  type Path = seq<Elem>

  /** The field name a step selects; array positions are decimal names. */
  function NameOf(el: Elem): bytes {
    match el
    case Key(k) => k
    case Index(i) => Decimal(i)
  }

  datatype EditError = EmptyPath | Missing | NotContainer | IndexIntoDocument | NotArray

  datatype Result<+T> = Ok(value: T) | Err(error: EditError)

  // ------------------------------------------------------------ field lists

  /** The first field of that name. */
  function Get(fs: Fields, name: bytes): Option<Value> {
    match fs
    case End => None
    case Field(n, v, rest) => if n == name then Some(v) else Get(rest, name)
  }

  function Replace(fs: Fields, name: bytes, v: Value): Fields {
    match fs
    case End => End
    case Field(n, w, rest) => if n == name then Field(n, v, rest) else Field(n, w, Replace(rest, name, v))
  }

  function Remove(fs: Fields, name: bytes): Fields {
    match fs
    case End => End
    case Field(n, w, rest) => if n == name then rest else Field(n, w, Remove(rest, name))
  }

  /** A new field goes in front of the first field whose name is greater. */
  function Insert(fs: Fields, name: bytes, v: Value): Fields {
    match fs
    case End => Field(name, v, End)
    case Field(n, w, rest) => if Lex(n, name) > 0 then Field(name, v, fs) else Field(n, w, Insert(rest, name, v))
  }

  function Append(fs: Fields, name: bytes, v: Value): Fields {
    match fs
    case End => Field(name, v, End)
    case Field(n, w, rest) => Field(n, w, Append(rest, name, v))
  }

  function Count(fs: Fields): nat {
    match fs
    case End => 0
    case Field(_, _, rest) => 1 + Count(rest)
  }

  function Put(node: Value, name: bytes, v: Value): Value
    requires node.Node?
  {
    Node(node.isArray,
         if Get(node.fields, name).Some? then Replace(node.fields, name, v)
         else if node.isArray then Append(node.fields, name, v)
         else Insert(node.fields, name, v))
  }

  // ------------------------------------------------------------------- paths

  function Lookup(v: Value, path: Path): Option<Value>
    decreases |path|
  {
    if path == [] then Some(v)
    else if v.Scalar? then None
    else
      match Get(v.fields, NameOf(path[0]))
      case None => None
      case Some(child) => Lookup(child, path[1..])
  }

  /** The container at path, or why there is none. */
  function Walk(v: Value, path: Path): (r: Result<Value>)
    requires v.Node?
    ensures r.Ok? ==> r.value.Node?
    decreases |path|
  {
    if path == [] then Ok(v)
    else
      match Get(v.fields, NameOf(path[0]))
      case None => Err(Missing)
      case Some(child) => if child.Scalar? then Err(NotContainer) else Walk(child, path[1..])
  }

  lemma {:induction false} WalkIsLookup(v: Value, path: Path)
    requires v.Node?
    ensures Walk(v, path).Ok? <==> Lookup(v, path).Some? && Lookup(v, path).value.Node?
    ensures Walk(v, path).Ok? ==> Lookup(v, path) == Some(Walk(v, path).value)
    decreases |path|
  {
    if path != [] {
      var c := Get(v.fields, NameOf(path[0]));
      if c.Some? && c.value.Scalar? {
        assert Lookup(c.value, path[1..]).Some? ==> path[1..] == [];
      } else if c.Some? {
        WalkIsLookup(c.value, path[1..]);
      }
    }
  }

  /** v with the container at path replaced by w. */
  function Rebuild(v: Value, path: Path, w: Value): Value
    decreases |path|
  {
    if path == [] then w
    else if v.Scalar? || Get(v.fields, NameOf(path[0])).None? then v
    else
      var name := NameOf(path[0]);
      Node(v.isArray, Replace(v.fields, name, Rebuild(Get(v.fields, name).value, path[1..], w)))
  }

  function Init(path: Path): Path requires path != [] { path[..|path| - 1] }

  function Leaf(path: Path): Elem requires path != [] { path[|path| - 1] }

  // ------------------------------------------------------------------- edits

  function Set(doc: Value, path: Path, v: Value): Result<Value>
    requires doc.Node?
  {
    if path == [] then Err(EmptyPath)
    else
      match Walk(doc, Init(path))
      case Err(e) => Err(e)
      case Ok(parent) =>
        if Leaf(path).Index? && !parent.isArray then Err(IndexIntoDocument)
        else Ok(Rebuild(doc, Init(path), Put(parent, NameOf(Leaf(path)), v)))
  }

  function Unset(doc: Value, path: Path): Result<Value>
    requires doc.Node?
  {
    if path == [] then Err(EmptyPath)
    else
      match Walk(doc, Init(path))
      case Err(e) => Err(e)
      case Ok(parent) =>
        if Leaf(path).Index? && !parent.isArray then Err(IndexIntoDocument)
        else Ok(Rebuild(doc, Init(path), Node(parent.isArray, Remove(parent.fields, NameOf(Leaf(path))))))
  }

  function Push(doc: Value, path: Path, v: Value): Result<Value>
    requires doc.Node?
  {
    if path == [] then Err(EmptyPath)
    else
      match Walk(doc, Init(path))
      case Err(e) => Err(e)
      case Ok(parent) =>
        match Get(parent.fields, NameOf(Leaf(path)))
        case None => Err(Missing)
        case Some(arr) =>
          if TagOf(arr) != TYPE_ARRAY || arr.Scalar? then Err(NotArray)
          else Ok(Rebuild(doc, path, Node(true, Append(arr.fields, Decimal(Count(arr.fields)), v))))
  }

  function Pop(doc: Value, path: Path): Result<Value>
    requires doc.Node?
  {
    if path == [] then Err(EmptyPath)
    else
      match Walk(doc, Init(path))
      case Err(e) => Err(e)
      case Ok(parent) =>
        match Get(parent.fields, NameOf(Leaf(path)))
        case None => Ok(doc)
        case Some(arr) =>
          if TagOf(arr) != TYPE_ARRAY || arr.Scalar? then Err(NotArray)
          else if Count(arr.fields) == 0 then Ok(doc)
          else Ok(Rebuild(doc, path, Node(true, Remove(arr.fields, Decimal(Count(arr.fields) - 1)))))
  }

  // ------------------------------------------------------------ path algebra

  /** p leads to q or to a container of q, step names compared. */
  ghost predicate Leads(p: Path, q: Path) {
    |p| <= |q| && forall i :: 0 <= i < |p| ==> NameOf(p[i]) == NameOf(q[i])
  }

  lemma LeadsStep(p: Path, q: Path)
    requires p != [] && q != []
    ensures Leads(p, q) <==> NameOf(p[0]) == NameOf(q[0]) && Leads(p[1..], q[1..])
  {
    if NameOf(p[0]) == NameOf(q[0]) && Leads(p[1..], q[1..]) {
      forall i | 0 <= i < |p| ensures NameOf(p[i]) == NameOf(q[i]) {
        if i > 0 {
          assert NameOf(p[1..][i - 1]) == NameOf(q[1..][i - 1]);
        }
      }
    }
    if Leads(p, q) {
      forall i | 0 <= i < |p| - 1 ensures NameOf(p[1..][i]) == NameOf(q[1..][i]) {
        assert NameOf(p[i + 1]) == NameOf(q[i + 1]);
      }
    }
  }

  lemma {:induction false} GetReplace(fs: Fields, name: bytes, v: Value, other: bytes)
    ensures Get(Replace(fs, name, v), other)
         == if other == name && Get(fs, name).Some? then Some(v) else Get(fs, other)
  {
    if fs.Field? {
      GetReplace(fs.rest, name, v, other);
    }
  }

  lemma {:induction false} GetPut(node: Value, name: bytes, v: Value, other: bytes)
    requires node.Node?
    ensures Get(Put(node, name, v).fields, other) == if other == name then Some(v) else Get(node.fields, other)
  {
    GetReplace(node.fields, name, v, other);
    if Get(node.fields, name).None? {
      GetInsert(node.fields, name, v, other);
      GetAppend(node.fields, name, v, other);
    }
  }

  lemma {:induction false} GetInsert(fs: Fields, name: bytes, v: Value, other: bytes)
    requires Get(fs, name).None?
    ensures Get(Insert(fs, name, v), other) == if other == name then Some(v) else Get(fs, other)
  {
    if fs.Field? {
      GetInsert(fs.rest, name, v, other);
    }
  }

  lemma {:induction false} GetAppend(fs: Fields, name: bytes, v: Value, other: bytes)
    ensures Get(Append(fs, name, v), other)
         == if Get(fs, other).None? && other == name then Some(v) else Get(fs, other)
  {
    if fs.Field? {
      GetAppend(fs.rest, name, v, other);
    }
  }

  /** What a rebuilt document answers, for every path. */
  lemma {:induction false} LookupRebuild(doc: Value, p: Path, w: Value, q: Path)
    requires doc.Node? && Walk(doc, p).Ok?
    ensures Leads(p, q) ==> Lookup(Rebuild(doc, p, w), q) == Lookup(w, q[|p|..])
    ensures Leads(q, p)
            ==> Walk(doc, q).Ok? && Lookup(Rebuild(doc, p, w), q) == Some(Rebuild(Walk(doc, q).value, p[|q|..], w))
    ensures !Leads(p, q) && !Leads(q, p) ==> Lookup(Rebuild(doc, p, w), q) == Lookup(doc, q)
    decreases |p|
  {
    if p == [] {
      assert q[|p|..] == q;
    } else if q == [] {
      assert p[|q|..] == p;
    } else {
      var name := NameOf(p[0]);
      var child := Get(doc.fields, name).value;
      var child' := Rebuild(child, p[1..], w);
      GetReplace(doc.fields, name, child', NameOf(q[0]));
      LeadsStep(p, q);
      LeadsStep(q, p);
      if NameOf(q[0]) == name {
        LookupRebuild(child, p[1..], w, q[1..]);
        assert |p| <= |q| ==> q[1..][|p| - 1..] == q[|p|..];
        assert |q| <= |p| ==> p[1..][|q| - 1..] == p[|q|..];
      }
    }
  }

  lemma {:induction false} WalkThrough(doc: Value, p: Path, q: Path)
    requires doc.Node? && Walk(doc, p).Ok?
    ensures Walk(doc, p + q) == Walk(Walk(doc, p).value, q)
    decreases |p|
  {
    if p == [] {
      assert p + q == q;
    } else {
      assert (p + q)[1..] == p[1..] + q;
      WalkThrough(Get(doc.fields, NameOf(p[0])).value, p[1..], q);
    }
  }

  /**
   Reading after writing, for every path: the path written reads back what was
   written, and whatever lies below it; a path that neither leads to it nor is
   led to by it reads what it read before; a container on the way reads as itself
   with the rest of the path written.
   */
  lemma LookupAfterSet(doc: Value, p: Path, v: Value, q: Path)
    requires doc.Node? && Set(doc, p, v).Ok?
    ensures Leads(p, q) ==> Lookup(Set(doc, p, v).value, q) == Lookup(v, q[|p|..])
    ensures !Leads(p, q) && !Leads(q, p) ==> Lookup(Set(doc, p, v).value, q) == Lookup(doc, q)
    ensures Leads(q, p) && |q| < |p|
            ==> Lookup(doc, q).Some? && Lookup(doc, q).value.Node?
                && Set(Lookup(doc, q).value, p[|q|..], v).Ok?
                && Lookup(Set(doc, p, v).value, q) == Some(Set(Lookup(doc, q).value, p[|q|..], v).value)
  {
    if Leads(q, p) && |q| < |p| {
      SetBelow(doc, p, v, q);
    } else if Leads(Init(p), q) {
      SetBeside(doc, p, v, q);
    } else {
      var parent := Walk(doc, Init(p)).value;
      WalkIsLookup(doc, Init(p));
      LookupRebuild(doc, Init(p), Put(parent, NameOf(Leaf(p)), v), q);
    }
  }

  /** The path written and its siblings, once the parent is rewritten. */
  lemma SetBeside(doc: Value, p: Path, v: Value, q: Path)
    requires doc.Node? && Set(doc, p, v).Ok? && Leads(Init(p), q) && |q| >= |p|
    ensures Leads(p, q) ==> Lookup(Set(doc, p, v).value, q) == Lookup(v, q[|p|..])
    ensures !Leads(p, q) ==> Lookup(Set(doc, p, v).value, q) == Lookup(doc, q)
  {
    var parent := Walk(doc, Init(p)).value;
    WalkIsLookup(doc, Init(p));
    var r := q[|p| - 1..];
    LookupRebuild(doc, Init(p), Put(parent, NameOf(Leaf(p)), v), q);
    GetPut(parent, NameOf(Leaf(p)), v, NameOf(r[0]));
    LookupThrough(doc, Init(p), q);
    assert r[1..] == q[|p|..];
    assert Leads(p, q) <==> NameOf(r[0]) == NameOf(Leaf(p)) by {
      assert forall i :: 0 <= i < |p| - 1 ==> p[i] == Init(p)[i];
    }
  }

  lemma {:induction false} LookupThrough(v: Value, p: Path, q: Path)
    requires Leads(p, q) && Lookup(v, p).Some?
    ensures Lookup(v, q) == Lookup(Lookup(v, p).value, q[|p|..])
    decreases |p|
  {
    if p == [] {
      assert q[|p|..] == q;
    } else {
      LeadsStep(p, q);
      LookupThrough(Get(v.fields, NameOf(p[0])).value, p[1..], q[1..]);
      assert q[1..][|p| - 1..] == q[|p|..];
    }
  }

  /** Writing below a container is writing into it and putting it back. */
  lemma SetBelow(doc: Value, p: Path, v: Value, q: Path)
    requires doc.Node? && Set(doc, p, v).Ok? && Leads(q, p) && |q| < |p|
    ensures Lookup(doc, q).Some? && Lookup(doc, q).value.Node?
    ensures Set(Lookup(doc, q).value, p[|q|..], v).Ok?
    ensures Lookup(Set(doc, p, v).value, q) == Some(Set(Lookup(doc, q).value, p[|q|..], v).value)
  {
    var mid, low := p[..|q|], p[|q|..];
    assert Init(p) == mid + Init(low) && Leaf(p) == Leaf(low);
    WalkPrefix(doc, mid, Init(low));
    WalkThrough(doc, mid, Init(low));
    WalkIsLookup(doc, mid);
    LookupSameNames(doc, q, mid);
    var parent := Walk(doc, Init(p)).value;
    WalkIsLookup(doc, Init(p));
    assert Leads(q, Init(p));
    LookupRebuild(doc, Init(p), Put(parent, NameOf(Leaf(p)), v), q);
    WalkIsLookup(doc, q);
    assert Init(p)[|q|..] == Init(low);
  }

  lemma {:induction false} WalkPrefix(doc: Value, p: Path, q: Path)
    requires doc.Node? && Walk(doc, p + q).Ok?
    ensures Walk(doc, p).Ok?
    decreases |p|
  {
    if p != [] {
      assert (p + q)[1..] == p[1..] + q;
      WalkPrefix(Get(doc.fields, NameOf(p[0])).value, p[1..], q);
    }
  }

  lemma {:induction false} LookupSameNames(v: Value, p: Path, q: Path)
    requires |p| == |q| && Leads(p, q)
    ensures Lookup(v, p) == Lookup(v, q)
    decreases |p|
  {
    if p != [] && v.Node? && Get(v.fields, NameOf(p[0])).Some? {
      LeadsStep(p, q);
      LookupSameNames(Get(v.fields, NameOf(p[0])).value, p[1..], q[1..]);
    }
  }

  // -------------------------------------------------------------- undo laws

  lemma {:induction false} RebuildTwice(doc: Value, p: Path, w: Value, w': Value)
    requires doc.Node? && Walk(doc, p).Ok? && w.Node?
    ensures Rebuild(doc, p, w).Node? && Walk(Rebuild(doc, p, w), p) == Ok(w)
    ensures Rebuild(Rebuild(doc, p, w), p, w') == Rebuild(doc, p, w')
    ensures Rebuild(doc, p, Walk(doc, p).value) == doc
    decreases |p|
  {
    if p != [] {
      var name := NameOf(p[0]);
      var child := Get(doc.fields, name).value;
      RebuildTwice(child, p[1..], w, w');
      var child1, child2 := Rebuild(child, p[1..], w), Rebuild(child, p[1..], w');
      GetReplace(doc.fields, name, child1, name);
      ReplaceTwice(doc.fields, name, child1, child2);
    }
  }

  lemma {:induction false} ReplaceTwice(fs: Fields, name: bytes, v: Value, w: Value)
    ensures Replace(Replace(fs, name, v), name, w) == Replace(fs, name, w)
    ensures Get(fs, name).Some? ==> Replace(fs, name, Get(fs, name).value) == fs
  {
    if fs.Field? {
      ReplaceTwice(fs.rest, name, v, w);
    }
  }

  lemma {:induction false} RemoveAfterPut(node: Value, name: bytes, v: Value)
    requires node.Node?
    ensures Remove(Put(node, name, v).fields, name) == Remove(node.fields, name)
    ensures Remove(node.fields, name) == node.fields <==> Get(node.fields, name).None?
  {
    RemoveShrinks(node.fields, name, v);
  }

  lemma {:induction false} RemoveShrinks(fs: Fields, name: bytes, v: Value)
    ensures Count(Remove(fs, name)) == if Get(fs, name).Some? then Count(fs) - 1 else Count(fs)
    ensures Get(fs, name).None? ==> Remove(fs, name) == fs
    ensures Remove(Replace(fs, name, v), name) == Remove(fs, name)
    ensures Get(fs, name).None? ==> Remove(Insert(fs, name, v), name) == fs && Remove(Append(fs, name, v), name) == fs
  {
    if fs.Field? {
      RemoveShrinks(fs.rest, name, v);
      LexAntisymmetric(fs.name, name);
    }
  }

  /** Unsetting what was just set restores the document exactly when it was absent. */
  lemma UnsetUndoesSet(doc: Value, p: Path, v: Value)
    requires doc.Node? && Set(doc, p, v).Ok?
    ensures Set(doc, p, v).value.Node?
    ensures Unset(Set(doc, p, v).value, p) == Ok(doc) <==> Lookup(doc, p).None?
  {
    var cp, name := Init(p), NameOf(Leaf(p));
    var parent := Walk(doc, cp).value;
    WalkIsLookup(doc, cp);
    var parent' := Put(parent, name, v);
    var removed := Node(parent.isArray, Remove(parent.fields, name));
    RebuildTwice(doc, cp, parent', removed);
    RebuildTwice(doc, cp, removed, removed);
    RemoveAfterPut(parent, name, v);
    assert Leads(cp, p);
    LookupThrough(doc, cp, p);
    assert p[|cp|..] == [Leaf(p)] && [Leaf(p)][1..] == [];
  }

  /** The fields from the first one of that name on. */
  function From(fs: Fields, name: bytes): Fields {
    match fs
    case End => End
    case Field(n, _, rest) => if n == name then fs else From(rest, name)
  }

  predicate Repeats(fs: Fields, name: bytes, v: Value) {
    fs.Field? ==> fs.name == name && fs.value == v && Repeats(fs.rest, name, v)
  }

  lemma {:induction false} AppendIsShift(fs: Fields, name: bytes, v: Value, n: bytes, w: Value)
    ensures Append(fs, name, v) == Field(n, w, fs) <==> n == name && w == v && Repeats(fs, name, v)
  {
    if fs.Field? {
      AppendIsShift(fs.rest, name, v, fs.name, fs.value);
    }
  }

  lemma {:induction false} RemoveAfterAppend(fs: Fields, name: bytes, v: Value)
    ensures Remove(Append(fs, name, v), name) == fs <==> Repeats(From(fs, name), name, v)
  {
    if fs.Field? {
      if fs.name == name {
        AppendIsShift(fs.rest, name, v, fs.name, fs.value);
      } else {
        RemoveAfterAppend(fs.rest, name, v);
      }
    }
  }

  lemma {:induction false} CountAppend(fs: Fields, name: bytes, v: Value)
    ensures Count(Append(fs, name, v)) == Count(fs) + 1
  {
    if fs.Field? {
      CountAppend(fs.rest, name, v);
    }
  }

  /**
   Popping what was just pushed restores the document exactly when no element
   already carries the name the push chose, copies of the pushed element at the
   very end aside.
   */
  lemma PopUndoesPush(doc: Value, p: Path, v: Value)
    requires doc.Node? && Push(doc, p, v).Ok?
    ensures Push(doc, p, v).value.Node? && Lookup(doc, p).Some? && Lookup(doc, p).value.Node?
    ensures var arr := Lookup(doc, p).value.fields;
            Pop(Push(doc, p, v).value, p) == Ok(doc)
            <==> Repeats(From(arr, Decimal(Count(arr))), Decimal(Count(arr)), v)
  {
    var cp := Init(p);
    WalkIsLookup(doc, cp);
    var parent := Walk(doc, cp).value;
    var arr := Get(parent.fields, NameOf(Leaf(p))).value;
    WalkLast(doc, p);
    WalkIsLookup(doc, p);
    var name := Decimal(Count(arr.fields));
    var arr' := Node(true, Append(arr.fields, name, v));
    CountAppend(arr.fields, name, v);
    var arr'' := Node(true, Remove(arr'.fields, name));
    RebuildTwice(doc, p, arr', arr'');
    RebuildTwice(doc, p, arr'', arr'');
    WalkPrefixOfWalk(Rebuild(doc, p, arr'), p);
    WalkLast(Rebuild(doc, p, arr'), p);
    RemoveAfterAppend(arr.fields, name, v);
  }

  /** The container at a path is the field its last step selects in its parent. */
  lemma WalkLast(doc: Value, p: Path)
    requires doc.Node? && p != [] && Walk(doc, Init(p)).Ok?
    ensures var c := Get(Walk(doc, Init(p)).value.fields, NameOf(Leaf(p)));
            Walk(doc, p) == if c.None? then Err(Missing) else if c.value.Scalar? then Err(NotContainer) else Ok(c.value)
  {
    WalkThrough(doc, Init(p), [Leaf(p)]);
    assert p == Init(p) + [Leaf(p)];
    assert [Leaf(p)][1..] == [];
  }

  lemma WalkPrefixOfWalk(doc: Value, p: Path)
    requires doc.Node? && p != [] && Walk(doc, p).Ok?
    ensures Walk(doc, Init(p)).Ok?
  {
    assert p == Init(p) + [Leaf(p)];
    WalkPrefix(doc, Init(p), [Leaf(p)]);
  }

  /** Elements named by their positions, from i on. */
  predicate Canonical(fs: Fields, i: nat) {
    fs.Field? ==> fs.name == Decimal(i) && Canonical(fs.rest, i + 1)
  }

  lemma {:induction false} CanonicalFresh(fs: Fields, i: nat, j: nat)
    requires Canonical(fs, i) && (j < i || j >= i + Count(fs))
    ensures From(fs, Decimal(j)) == End
  {
    if fs.Field? {
      if Decimal(i) == Decimal(j) {
        DecimalInjective(i, j);
      }
      CanonicalFresh(fs.rest, i + 1, j);
    }
  }

  /** So on an array with canonical names a pop undoes a push. */
  lemma PopUndoesPushCanonical(doc: Value, p: Path, v: Value)
    requires doc.Node? && Push(doc, p, v).Ok?
    requires Lookup(doc, p).Some? && Lookup(doc, p).value.Node? && Canonical(Lookup(doc, p).value.fields, 0)
    ensures Push(doc, p, v).value.Node? && Pop(Push(doc, p, v).value, p) == Ok(doc)
  {
    PopUndoesPush(doc, p, v);
    var arr := Lookup(doc, p).value.fields;
    CanonicalFresh(arr, 0, Count(arr));
  }

  // ------------------------------------------------------ what edits preserve

  /** Field names strictly ascend in this field list. */
  predicate Ascending(fs: Fields) {
    fs.Field? && fs.rest.Field? ==> Lex(fs.name, fs.rest.name) < 0 && Ascending(fs.rest)
  }

  /** Field names ascend in every object of v. */
  predicate Sorted(v: Value) {
    v.Node? ==> (v.isArray || Ascending(v.fields)) && SortedFields(v.fields)
  }

  predicate SortedFields(fs: Fields) {
    fs.Field? ==> Sorted(fs.value) && SortedFields(fs.rest)
  }

  lemma {:induction false} ReplaceKeeps(fs: Fields, name: bytes, v: Value)
    ensures SortedFields(fs) && Sorted(v) ==> SortedFields(Replace(fs, name, v))
    ensures Ascending(fs) ==> Ascending(Replace(fs, name, v))
    ensures WfFields(fs) && Wf(v) ==> WfFields(Replace(fs, name, v))
    ensures SortedFields(fs) && Get(fs, name).Some? ==> Sorted(Get(fs, name).value)
    ensures WfFields(fs) && Get(fs, name).Some? ==> Wf(Get(fs, name).value)
  {
    if fs.Field? {
      ReplaceKeeps(fs.rest, name, v);
    }
  }

  lemma {:induction false} InsertKeeps(fs: Fields, name: bytes, v: Value)
    ensures SortedFields(fs) && Sorted(v) ==> SortedFields(Insert(fs, name, v)) && SortedFields(Append(fs, name, v))
    ensures WfFields(fs) && Wf(v) && NoZero(name) ==> WfFields(Insert(fs, name, v)) && WfFields(Append(fs, name, v))
    ensures Ascending(fs) && Get(fs, name).None? ==> Ascending(Insert(fs, name, v))
  {
    if fs.Field? {
      InsertKeeps(fs.rest, name, v);
      LexAntisymmetric(fs.name, name);
    }
  }

  lemma {:induction false} RemoveKeeps(fs: Fields, name: bytes)
    ensures SortedFields(fs) ==> SortedFields(Remove(fs, name))
    ensures WfFields(fs) ==> WfFields(Remove(fs, name))
    ensures Ascending(fs) ==> Ascending(Remove(fs, name))
  {
    if fs.Field? {
      RemoveKeeps(fs.rest, name);
      if fs.rest.Field? && fs.rest.rest.Field? && Ascending(fs) {
        assert Ascending(fs.rest);
        LexTransitive(fs.name, fs.rest.name, fs.rest.rest.name);
      }
    }
  }

  lemma {:induction false} RebuildKeeps(doc: Value, p: Path, w: Value)
    requires doc.Node? && Walk(doc, p).Ok? && w.Node? && (w.isArray <==> Walk(doc, p).value.isArray)
    ensures Rebuild(doc, p, w).Node? && Rebuild(doc, p, w).isArray == doc.isArray
    ensures Sorted(doc) && Sorted(w) ==> Sorted(Rebuild(doc, p, w))
    ensures Wf(doc) && Wf(w) ==> Wf(Rebuild(doc, p, w))
    ensures Sorted(doc) ==> Sorted(Walk(doc, p).value)
    ensures Wf(doc) ==> Wf(Walk(doc, p).value)
    decreases |p|
  {
    if p != [] {
      var name := NameOf(p[0]);
      var child := Get(doc.fields, name).value;
      RebuildKeeps(child, p[1..], w);
      ReplaceKeeps(doc.fields, name, Rebuild(child, p[1..], w));
    }
  }

  lemma PutKeeps(node: Value, name: bytes, v: Value)
    requires node.Node?
    ensures Sorted(node) && Sorted(v) ==> Sorted(Put(node, name, v))
    ensures Wf(node) && Wf(v) && NoZero(name) ==> Wf(Put(node, name, v))
  {
    ReplaceKeeps(node.fields, name, v);
    InsertKeeps(node.fields, name, v);
  }

  lemma DecimalNoZero(n: nat)
    ensures NoZero(Decimal(n))
  {
  }

  /** Every edit of a well-formed document with ascending names yields one. */
  lemma EditsKeepOrder(doc: Value, p: Path, v: Value)
    requires doc.Node? && !doc.isArray && Wf(doc) && Sorted(doc) && Wf(v) && Sorted(v)
    requires p != [] ==> NoZero(NameOf(Leaf(p)))
    ensures forall r | r in {Set(doc, p, v), Unset(doc, p), Push(doc, p, v), Pop(doc, p)} && r.Ok? ::
              r.value.Node? && !r.value.isArray && Wf(r.value) && Sorted(r.value)
  {
    if p != [] && Walk(doc, Init(p)).Ok? {
      var cp, name := Init(p), NameOf(Leaf(p));
      var parent := Walk(doc, cp).value;
      WalkIsLookup(doc, cp);
      PutKeeps(parent, name, v);
      RemoveKeeps(parent.fields, name);
      RebuildKeeps(doc, cp, parent);
      RebuildKeeps(doc, cp, Put(parent, name, v));
      RebuildKeeps(doc, cp, Node(parent.isArray, Remove(parent.fields, name)));
      WalkLast(doc, p);
      if Walk(doc, p).Ok? && Walk(doc, p).value.isArray {
        var arr := Walk(doc, p).value;
        RebuildKeeps(doc, p, arr);
        DecimalNoZero(Count(arr.fields));
        InsertKeeps(arr.fields, Decimal(Count(arr.fields)), v);
        RebuildKeeps(doc, p, Node(true, Append(arr.fields, Decimal(Count(arr.fields)), v)));
        if Count(arr.fields) > 0 {
          RemoveKeeps(arr.fields, Decimal(Count(arr.fields) - 1));
          RebuildKeeps(doc, p, Node(true, Remove(arr.fields, Decimal(Count(arr.fields) - 1))));
        }
      }
    }
  }
}
