/**
 What the edits do, said without their definitions: when each succeeds and how it fails in
 terms of lookups, and what it does to its container's list of fields.
 */
module EditMeaning {
  import opened Bytes
  import opened Tree
  import opened Edits

  // ------------------------------------------------------------- fields as a list

  function Listed(fs: Fields): seq<(bytes, Value)> {
    match fs
    case End => []
    case Field(n, v, rest) => [(n, v)] + Listed(rest)
  }

  predicate Absent(s: seq<(bytes, Value)>, name: bytes) {
    forall j :: 0 <= j < |s| ==> s[j].0 != name
  }

  /** The first entry of that name is the i-th. */
  predicate FirstAt(s: seq<(bytes, Value)>, name: bytes, i: nat) {
    i < |s| && s[i].0 == name && forall j :: 0 <= j < i ==> s[j].0 != name
  }

  /** The first entry with a greater name is the i-th, or there is none and i is the end. */
  predicate GreaterAt(s: seq<(bytes, Value)>, name: bytes, i: nat) {
    i <= |s| && (forall j :: 0 <= j < i ==> Lex(s[j].0, name) <= 0) && (i < |s| ==> Lex(s[i].0, name) > 0)
  }

  function Without<T>(s: seq<T>, i: nat): seq<T>
    requires i < |s|
  {
    s[..i] + s[i + 1..]
  }

  lemma {:induction false} GetListed(fs: Fields, name: bytes)
    ensures Get(fs, name).None? <==> Absent(Listed(fs), name)
    ensures forall i: nat :: FirstAt(Listed(fs), name, i) ==> Get(fs, name) == Some(Listed(fs)[i].1)
    ensures Get(fs, name).Some? ==> exists i: nat :: FirstAt(Listed(fs), name, i)
  {
    if fs.Field? {
      GetListed(fs.rest, name);
      var s, t := Listed(fs), Listed(fs.rest);
      assert forall j :: 0 <= j < |t| ==> t[j] == s[j + 1];
      assert forall j :: 0 < j < |s| ==> s[j] == t[j - 1];
      if fs.name == name {
        assert FirstAt(s, name, 0);
      } else {
        forall i: nat | FirstAt(s, name, i) ensures Get(fs, name) == Some(s[i].1) {
          assert FirstAt(t, name, i - 1);
        }
        if i: nat :| FirstAt(t, name, i) { assert FirstAt(s, name, i + 1); }
      }
    }
  }

  lemma {:induction false} CountListed(fs: Fields)
    ensures Count(fs) == |Listed(fs)|
  {
    if fs.Field? { CountListed(fs.rest); }
  }

  /** Where the first entry of a name is not the head, it is one place earlier in the rest. */
  lemma FirstBelow(fs: Fields, name: bytes, i: nat)
    requires FirstAt(Listed(fs), name, i)
    ensures fs.Field? && (fs.name == name <==> i == 0)
    ensures i > 0 ==> FirstAt(Listed(fs.rest), name, i - 1)
  {
    var s := Listed(fs);
    assert s[0].0 == fs.name;
    if i > 0 {
      var t := Listed(fs.rest);
      assert forall j :: 0 <= j < |t| ==> t[j] == s[j + 1];
    }
  }

  lemma {:induction false} ReplaceListed(fs: Fields, name: bytes, v: Value, i: nat)
    requires FirstAt(Listed(fs), name, i)
    ensures Listed(Replace(fs, name, v)) == Listed(fs)[i := (name, v)]
  {
    hide FirstAt;
    FirstBelow(fs, name, i);
    var head, t := [(fs.name, fs.value)], Listed(fs.rest);
    if i == 0 {
      assert (head + t)[0 := (name, v)] == [(name, v)] + t;
    } else {
      ReplaceListed(fs.rest, name, v, i - 1);
      assert i - 1 < |t| by { CountListed(fs.rest); FirstWithin(t, name, i - 1); }
      assert (head + t)[i := (name, v)] == head + t[i - 1 := (name, v)];
    }
  }

  lemma FirstWithin(s: seq<(bytes, Value)>, name: bytes, i: nat)
    requires FirstAt(s, name, i)
    ensures i < |s|
  {}

  lemma {:induction false} RemoveListed(fs: Fields, name: bytes, i: nat)
    requires FirstAt(Listed(fs), name, i)
    ensures Listed(Remove(fs, name)) == Without(Listed(fs), i)
  {
    FirstBelow(fs, name, i);
    var head, t := [(fs.name, fs.value)], Listed(fs.rest);
    if i > 0 {
      RemoveListed(fs.rest, name, i - 1);
      assert head + Without(t, i - 1) == Without(head + t, i);
    }
  }

  /** Where no greater name is at the head, the first one is one place earlier in the rest. */
  lemma GreaterBelow(fs: Fields, name: bytes, i: nat)
    requires fs.Field? && GreaterAt(Listed(fs), name, i)
    ensures Lex(fs.name, name) > 0 <==> i == 0
    ensures i > 0 ==> GreaterAt(Listed(fs.rest), name, i - 1)
  {
    hide Lex;
    var s, t := Listed(fs), Listed(fs.rest);
    assert s[0].0 == fs.name;
    assert forall j :: 0 <= j < |t| ==> t[j] == s[j + 1];
  }

  lemma {:induction false} InsertListed(fs: Fields, name: bytes, v: Value, i: nat)
    requires GreaterAt(Listed(fs), name, i)
    ensures Listed(Insert(fs, name, v)) == Listed(fs)[..i] + [(name, v)] + Listed(fs)[i..]
  {
    hide Lex;
    if fs.Field? {
      GreaterBelow(fs, name, i);
      var head, t := [(fs.name, fs.value)], Listed(fs.rest);
      if i > 0 {
        InsertListed(fs.rest, name, v, i - 1);
        assert (head + t)[..i] == head + t[..i - 1] && (head + t)[i..] == t[i - 1..];
      }
    }
  }

  lemma {:induction false} AppendListed(fs: Fields, name: bytes, v: Value)
    ensures Listed(Append(fs, name, v)) == Listed(fs) + [(name, v)]
  {
    if fs.Field? { AppendListed(fs.rest, name, v); }
  }

  // -------------------------------------------------------------- how a walk ends

  predicate ContainerAt(doc: Value, q: Path) { Lookup(doc, q).Some? && Lookup(doc, q).value.Node? }

  /** Some place on the way, or the last, holds a scalar. */
  ghost predicate Blocked(doc: Value, q: Path) {
    exists k :: 0 <= k <= |q| && Lookup(doc, q[..k]).Some? && Lookup(doc, q[..k]).value.Scalar?
  }

  lemma {:induction false} WalkEnds(doc: Value, q: Path)
    requires doc.Node?
    ensures Walk(doc, q).Ok? <==> ContainerAt(doc, q)
    ensures Walk(doc, q).Ok? ==> Lookup(doc, q) == Some(Walk(doc, q).value)
    ensures Walk(doc, q) == Err(NotContainer) <==> Blocked(doc, q)
    ensures Walk(doc, q) == Err(Missing) <==> Lookup(doc, q).None? && !Blocked(doc, q)
    decreases |q|
  {
    WalkIsLookup(doc, q);
    assert Lookup(doc, q[..0]) == Some(doc) by { assert q[..0] == []; }
    if q == [] {
      assert !Blocked(doc, q);
    } else {
      var c := Get(doc.fields, NameOf(q[0]));
      forall k | 0 < k <= |q|
        ensures Lookup(doc, q[..k]) == match c case None => None case Some(child) => Lookup(child, q[1..][..k - 1])
      {
        assert q[..k][0] == q[0] && q[..k][1..] == q[1..][..k - 1];
      }
      if c.None? {
        assert !Blocked(doc, q);
      } else if c.value.Scalar? {
        assert q[1..][..0] == [];
        assert Lookup(doc, q[..1]) == Some(c.value);
        assert Blocked(doc, q);
      } else {
        WalkEnds(c.value, q[1..]);
        BlockedBelow(doc, q, c.value);
      }
    }
  }

  lemma BlockedBelow(doc: Value, q: Path, child: Value)
    requires doc.Node? && q != [] && Get(doc.fields, NameOf(q[0])) == Some(child) && child.Node?
    ensures Blocked(doc, q) <==> Blocked(child, q[1..])
  {
    if k :| 0 <= k <= |q| && Lookup(doc, q[..k]).Some? && Lookup(doc, q[..k]).value.Scalar? {
      assert k > 0 by {
        assert q[..0] == [];
      }
      assert q[..k][0] == q[0] && q[..k][1..] == q[1..][..k - 1];
      assert Lookup(child, q[1..][..k - 1]) == Lookup(doc, q[..k]);
    }
    if k :| 0 <= k <= |q[1..]| && Lookup(child, q[1..][..k]).Some? && Lookup(child, q[1..][..k]).value.Scalar? {
      assert q[..k + 1][0] == q[0] && q[..k + 1][1..] == q[1..][..k];
      assert Lookup(doc, q[..k + 1]) == Lookup(child, q[1..][..k]);
    }
  }

  /** A field of a container is found through it. */
  lemma FieldLookup(doc: Value, p: Path)
    requires doc.Node? && p != [] && ContainerAt(doc, Init(p))
    ensures Lookup(doc, p) == Get(Lookup(doc, Init(p)).value.fields, NameOf(Leaf(p)))
  {
    assert Leads(Init(p), p);
    LookupThrough(doc, Init(p), p);
    assert p[|p| - 1..] == [Leaf(p)] && [Leaf(p)][1..] == [];
  }

  /** What keeps an edit from its container. */
  ghost predicate NoWay<T>(r: Result<T>, doc: Value, p: Path) {
    (p == [] ==> r == Err(EmptyPath))
    && (p != [] && Blocked(doc, Init(p)) ==> r == Err(NotContainer))
    && (p != [] && !Blocked(doc, Init(p)) && Lookup(doc, Init(p)).None? ==> r == Err(Missing))
  }

  /** The path leads to a field its container can have. */
  predicate Settable(doc: Value, p: Path) {
    p != [] && ContainerAt(doc, Init(p)) && (Leaf(p).Key? || Lookup(doc, Init(p)).value.isArray)
  }

  /** A set or an unset succeeds exactly where the path leads to a field a container can have. */
  lemma SetSucceeds(doc: Value, p: Path, v: Value)
    requires doc.Node?
    ensures Set(doc, p, v).Ok? <==> Settable(doc, p)
    ensures Unset(doc, p).Ok? <==> Settable(doc, p)
    ensures NoWay(Set(doc, p, v), doc, p) && NoWay(Unset(doc, p), doc, p)
    ensures p != [] && ContainerAt(doc, Init(p)) && Leaf(p).Index? && !Lookup(doc, Init(p)).value.isArray
            ==> Set(doc, p, v) == Err(IndexIntoDocument) && Unset(doc, p) == Err(IndexIntoDocument)
  {
    if p != [] { WalkEnds(doc, Init(p)); }
  }

  predicate ArrayAt(doc: Value, p: Path) { ContainerAt(doc, p) && Lookup(doc, p).value.isArray }

  predicate Pushable(doc: Value, p: Path) { p != [] && ArrayAt(doc, p) }

  /** Something can be taken from the place, or there is nothing to take. */
  predicate Poppable(doc: Value, p: Path) {
    p != [] && ContainerAt(doc, Init(p)) && (Lookup(doc, p).None? || ArrayAt(doc, p))
  }

  /** A push succeeds exactly at an array. */
  lemma PushSucceeds(doc: Value, p: Path, v: Value)
    requires doc.Node? && Wf(doc)
    ensures Push(doc, p, v).Ok? <==> Pushable(doc, p)
    ensures NoWay(Push(doc, p, v), doc, p)
    ensures p != [] && ContainerAt(doc, Init(p)) && Lookup(doc, p).None? ==> Push(doc, p, v) == Err(Missing)
    ensures p != [] && ContainerAt(doc, Init(p)) && Lookup(doc, p).Some? && !ArrayAt(doc, p)
            ==> Push(doc, p, v) == Err(NotArray)
  {
    if p != [] {
      WalkEnds(doc, Init(p));
      if ContainerAt(doc, Init(p)) { FieldLookup(doc, p); }
      if ArrayAt(doc, p) { ParentOf(doc, p); }
    }
  }

  /** A pop succeeds at an array and where there is nothing at all. */
  lemma PopSucceeds(doc: Value, p: Path)
    requires doc.Node? && Wf(doc)
    ensures Pop(doc, p).Ok? <==> Poppable(doc, p)
    ensures NoWay(Pop(doc, p), doc, p)
    ensures p != [] && ContainerAt(doc, Init(p)) && Lookup(doc, p).Some? && !ArrayAt(doc, p)
            ==> Pop(doc, p) == Err(NotArray)
  {
    if p != [] {
      WalkEnds(doc, Init(p));
      if ContainerAt(doc, Init(p)) { FieldLookup(doc, p); }
    }
  }

  lemma ParentOf(doc: Value, p: Path)
    requires doc.Node? && p != [] && Lookup(doc, p).Some?
    ensures ContainerAt(doc, Init(p))
    decreases |p|
  {
    if |p| > 1 {
      assert Init(p)[1..] == Init(p[1..]) && Init(p)[0] == p[0];
      var c := Get(doc.fields, NameOf(p[0])).value;
      if c.Scalar? {
        assert p[1..] != [];
      } else {
        ParentOf(c, p[1..]);
      }
    }
  }

  // ------------------------------------------------------------ what an edit leaves

  /**
   The container at q holds these fields afterwards and is of the same kind, and whatever
   lies beside the way to it is as it was.
   */
  ghost predicate Rewritten(doc: Value, doc': Value, q: Path, after: seq<(bytes, Value)>) {
    ContainerAt(doc, q) && ContainerAt(doc', q) && Lookup(doc', q).value.isArray == Lookup(doc, q).value.isArray
    && Listed(Lookup(doc', q).value.fields) == after
    && forall r :: !Leads(q, r) && !Leads(r, q) ==> Lookup(doc', r) == Lookup(doc, r)
  }

  function FieldsAt(doc: Value, q: Path): seq<(bytes, Value)>
    requires ContainerAt(doc, q)
  {
    Listed(Lookup(doc, q).value.fields)
  }

  lemma RebuildRewrites(doc: Value, q: Path, fs: Fields)
    requires doc.Node? && ContainerAt(doc, q)
    ensures Rewritten(doc, Rebuild(doc, q, Node(Lookup(doc, q).value.isArray, fs)), q, Listed(fs))
  {
    WalkEnds(doc, q);
    var w := Node(Lookup(doc, q).value.isArray, fs);
    var doc' := Rebuild(doc, q, w);
    LookupRebuild(doc, q, w, q);
    assert q[|q|..] == [];
    forall r | !Leads(q, r) && !Leads(r, q) ensures Lookup(doc', r) == Lookup(doc, r) {
      LookupRebuild(doc, q, w, r);
    }
  }

  /**
   A set gives the first entry of its name the value, or adds one: behind the others in an
   array, before the first greater name in an object.
   */
  lemma SetEffect(doc: Value, p: Path, v: Value, i: nat)
    requires doc.Node? && Set(doc, p, v).Ok?
    ensures ContainerAt(doc, Init(p))
    ensures var q, name := Init(p), NameOf(Leaf(p));
            var s, doc', isArray := FieldsAt(doc, q), Set(doc, p, v).value, Lookup(doc, q).value.isArray;
            (FirstAt(s, name, i) ==> Rewritten(doc, doc', q, s[i := (name, v)]))
            && (Absent(s, name) && isArray ==> Rewritten(doc, doc', q, s + [(name, v)]))
            && (Absent(s, name) && !isArray && GreaterAt(s, name, i)
                ==> Rewritten(doc, doc', q, s[..i] + [(name, v)] + s[i..]))
  {
    hide Rewritten, FirstAt, GreaterAt, Absent, Rebuild, Walk, Lookup;
    var q, name := Init(p), NameOf(Leaf(p));
    SetSucceeds(doc, p, v);
    WalkEnds(doc, q);
    var parent := Lookup(doc, q).value;
    RebuildRewrites(doc, q, Put(parent, name, v).fields);
    GetListed(parent.fields, name);
    if FirstAt(Listed(parent.fields), name, i) {
      ReplaceListed(parent.fields, name, v, i);
    } else if GreaterAt(Listed(parent.fields), name, i) {
      InsertListed(parent.fields, name, v, i);
    }
    AppendListed(parent.fields, name, v);
  }

  /** An unset takes out the first entry of its name, or changes nothing. */
  lemma UnsetEffect(doc: Value, p: Path, i: nat)
    requires doc.Node? && Unset(doc, p).Ok?
    ensures ContainerAt(doc, Init(p))
    ensures var q, name := Init(p), NameOf(Leaf(p));
            (FirstAt(FieldsAt(doc, q), name, i)
             ==> Rewritten(doc, Unset(doc, p).value, q, Without(FieldsAt(doc, q), i)))
            && (Absent(FieldsAt(doc, q), name) ==> Unset(doc, p) == Ok(doc))
  {
    hide Rewritten, FirstAt, Absent, Rebuild, Walk, Lookup;
    var q, name := Init(p), NameOf(Leaf(p));
    SetSucceeds(doc, p, doc);
    WalkEnds(doc, q);
    var parent := Lookup(doc, q).value;
    RebuildRewrites(doc, q, Remove(parent.fields, name));
    GetListed(parent.fields, name);
    if FirstAt(Listed(parent.fields), name, i) {
      RemoveListed(parent.fields, name, i);
    }
    RemoveShrinks(parent.fields, name, doc);
    RebuildTwice(doc, q, parent, parent);
  }

  /** A push adds an element behind the others, named by their number. */
  lemma PushEffect(doc: Value, p: Path, v: Value)
    requires doc.Node? && Wf(doc) && Push(doc, p, v).Ok?
    ensures ArrayAt(doc, p)
    ensures var s := FieldsAt(doc, p); Rewritten(doc, Push(doc, p, v).value, p, s + [(Decimal(|s|), v)])
  {
    hide Rewritten, Rebuild, Walk, Lookup;
    PushSucceeds(doc, p, v);
    FieldLookupOf(doc, p);
    var arr := Lookup(doc, p).value;
    CountListed(arr.fields);
    AppendListed(arr.fields, Decimal(Count(arr.fields)), v);
    RebuildRewrites(doc, p, Append(arr.fields, Decimal(Count(arr.fields)), v));
  }

  lemma FieldLookupOf(doc: Value, p: Path)
    requires doc.Node? && p != [] && Lookup(doc, p).Some?
    ensures Walk(doc, Init(p)).Ok? && Get(Walk(doc, Init(p)).value.fields, NameOf(Leaf(p))) == Lookup(doc, p)
  {
    ParentOf(doc, p);
    WalkEnds(doc, Init(p));
    FieldLookup(doc, p);
  }

  /** A pop takes out the first element named by the last position, or changes nothing. */
  lemma PopEffect(doc: Value, p: Path, i: nat)
    requires doc.Node? && Wf(doc) && Pop(doc, p).Ok?
    ensures !ArrayAt(doc, p) ==> Pop(doc, p) == Ok(doc)
    ensures ArrayAt(doc, p) ==>
              var s := FieldsAt(doc, p);
              (s == [] || Absent(s, Decimal(|s| - 1)) ==> Pop(doc, p) == Ok(doc))
              && (s != [] && FirstAt(s, Decimal(|s| - 1), i) ==> Rewritten(doc, Pop(doc, p).value, p, Without(s, i)))
  {
    hide Rewritten, FirstAt, Absent, Rebuild, Walk, Lookup;
    PopSucceeds(doc, p);
    if ArrayAt(doc, p) {
      FieldLookupOf(doc, p);
      WalkEnds(doc, p);
      var arr := Lookup(doc, p).value;
      CountListed(arr.fields);
      if Count(arr.fields) > 0 {
        var name := Decimal(Count(arr.fields) - 1);
        RebuildRewrites(doc, p, Remove(arr.fields, name));
        GetListed(arr.fields, name);
        if FirstAt(Listed(arr.fields), name, i) {
          RemoveListed(arr.fields, name, i);
        }
        RemoveShrinks(arr.fields, name, doc);
        RebuildTwice(doc, p, arr, arr);
      }
    } else {
      WalkEnds(doc, Init(p));
      FieldLookup(doc, p);
    }
  }
}
