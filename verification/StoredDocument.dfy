/**
 A document in the store: read and written by dotted path, through its chunks. A
 write reads the chunks back, edits the bytes and cuts them again; the result is
 the stored form of the edited tree.
 */
module StoredDocument {
  import opened Bytes
  import opened Tree
  import opened Edits
  import opened Mutation
  import opened Lookups
  import opened Varint
  import opened Keys
  import opened Location
  import opened Events
  import opened Chunker
  import opened IndexedDocument
  import opened MongoPath

  /** am is the stored form of doc, and order the order in which its keys are iterated. */
  ghost predicate Stores(w: Weibull, am: map<bytes, bytes>, order: seq<bytes>, doc: Value) {
    Indexable(doc) && am == AddressMap(ChunksOf(w, doc)) && InKeyOrder(order) && forall k :: k in order <==> k in am
  }

  datatype Written = Written(am: map<bytes, bytes>) | BadPath | Refused(error: EditError) | NotSerialized

  /** The path elements of a location. */
  method Elements(loc: Location) returns (p: Path)
    requires loc.Valid()
    ensures p == loc.path
  {
    assert loc.Size() == |loc.path|;
    hide KeyFor, OffsetsOf;
    p := [];
    var i := 0;
    while i < loc.Size()
      invariant 0 <= i <= loc.Size() == |loc.path| && p == loc.path[..i]
    {
      var el := loc.PathElement(i);
      p := p + [el];
      i := i + 1;
    }
  }

  /** The path a dotted path names, its leading root marker aside. */
  method Resolve(path: bytes) returns (r: Option<Path>)
    ensures r == ParsePath(StripRoot(path))
  {
    var loc, ok := FromMongoPath(StripRoot(path));
    if !ok {
      return None;
    }
    var p := Elements(loc);
    return Some(p);
  }

  /** The bytes of the stored document. */
  method Fetch(w: Weibull, am: map<bytes, bytes>, order: seq<bytes>, ghost doc: Value) returns (buf: bytes)
    requires Stores(w, am, order, doc)
    ensures Tree.Document(doc) && buf == Enc(doc)
  {
    RoundTrip(w, doc, order);
    buf := ReadBytes(am, order);
  }

  /** Reads the stored document by dotted path. */
  method LookupStored(w: Weibull, am: map<bytes, bytes>, order: seq<bytes>, path: bytes, ghost doc: Value)
    returns (r: Option<Answer>)
    requires Stores(w, am, order, doc)
    ensures r == match ParsePath(StripRoot(path)) case None => None case Some(p) => Some(AnswerOf(Lookup(doc, p)))
  {
    hide Enc, Stores, Lookup, ParsePath, StripRoot;
    var target := Resolve(path);
    if target.None? {
      return None;
    }
    var buf := Fetch(w, am, order, doc);
    var a := LookupInBytes(buf, target.value, doc);
    return Some(a);
  }

  // -------------------------------------------------------------------- writes

  /** A failed edit fails the write; an edited tree that fits is stored. */
  ghost predicate StoredAs(w: Weibull, r: Written, edited: Result<Value>) {
    match edited
    case Err(e) => r == Refused(e)
    case Ok(doc') => Tree.Document(doc') ==> r == Written(AddressMap(ChunksOf(w, doc')))
  }

  /** Cuts edited bytes into chunks again. */
  method Restore(w: Weibull, edited: Result<bytes>, ghost tree: Result<Value>) returns (r: Written)
    requires edited == EncResult(tree)
    ensures !r.BadPath? && StoredAs(w, r, tree)
  {
    hide Enc, CutChunks;
    if edited.Err? {
      return Refused(edited.error);
    }
    if |edited.value| >= U64 / 2 {
      return NotSerialized;
    }
    var s, _ := Serialize(w, edited.value, tree.value);
    match s
    case Document(am') => return Written(am');
    case _ => return NotSerialized;
  }

  /** Writes a field of the stored document by dotted path. */
  method SetFieldStored(w: Weibull, am: map<bytes, bytes>, order: seq<bytes>, path: bytes, tag: byte,
                        valueBytes: bytes, ghost doc: Value, ghost v: Value) returns (r: Written)
    requires Stores(w, am, order, doc) && TagOf(v) == tag && Enc(v) == valueBytes
    ensures match ParsePath(StripRoot(path))
            case None => r == BadPath
            case Some(p) => !r.BadPath? && StoredAs(w, r, Set(doc, p, v))
  {
    hide Enc, Stores, StoredAs, Set, ParsePath, StripRoot;
    var target := Resolve(path);
    if target.None? {
      return BadPath;
    }
    var buf := Fetch(w, am, order, doc);
    var edited := SetFieldInBytes(buf, target.value, tag, valueBytes, doc, v);
    r := Restore(w, edited, Set(doc, target.value, v));
  }

  /** Removes a field of the stored document by dotted path. */
  method UnsetFieldStored(w: Weibull, am: map<bytes, bytes>, order: seq<bytes>, path: bytes, ghost doc: Value)
    returns (r: Written)
    requires Stores(w, am, order, doc)
    ensures match ParsePath(StripRoot(path))
            case None => r == BadPath
            case Some(p) => !r.BadPath? && StoredAs(w, r, Unset(doc, p))
  {
    hide Enc, Stores, StoredAs, Unset, ParsePath, StripRoot;
    var target := Resolve(path);
    if target.None? {
      return BadPath;
    }
    var buf := Fetch(w, am, order, doc);
    var edited := UnsetFieldInBytes(buf, target.value, doc);
    r := Restore(w, edited, Unset(doc, target.value));
  }

  /** Appends to an array of the stored document by dotted path. */
  method PushArrayStored(w: Weibull, am: map<bytes, bytes>, order: seq<bytes>, path: bytes, tag: byte,
                         valueBytes: bytes, ghost doc: Value, ghost v: Value) returns (r: Written)
    requires Stores(w, am, order, doc) && TagOf(v) == tag && Enc(v) == valueBytes
    ensures match ParsePath(StripRoot(path))
            case None => r == BadPath
            case Some(p) => !r.BadPath? && StoredAs(w, r, Push(doc, p, v))
  {
    hide Enc, Stores, StoredAs, Push, ParsePath, StripRoot;
    var target := Resolve(path);
    if target.None? {
      return BadPath;
    }
    var buf := Fetch(w, am, order, doc);
    var edited := PushArrayInBytes(buf, target.value, tag, valueBytes, doc, v);
    r := Restore(w, edited, Push(doc, target.value, v));
  }

  /** Removes the last element of an array of the stored document by dotted path. */
  method PopArrayStored(w: Weibull, am: map<bytes, bytes>, order: seq<bytes>, path: bytes, ghost doc: Value)
    returns (r: Written)
    requires Stores(w, am, order, doc)
    ensures match ParsePath(StripRoot(path))
            case None => r == BadPath
            case Some(p) => !r.BadPath? && StoredAs(w, r, Pop(doc, p))
  {
    hide Enc, Stores, StoredAs, Pop, ParsePath, StripRoot;
    var target := Resolve(path);
    if target.None? {
      return BadPath;
    }
    var buf := Fetch(w, am, order, doc);
    var edited := PopArrayInBytes(buf, target.value, doc);
    r := Restore(w, edited, Pop(doc, target.value));
  }

  // ------------------------------------------------- edits keep documents storable

  lemma {:induction false} ReplaceNames(isArray: bool, fs: Fields, name: bytes, v: Value)
    requires FieldNamesOk(isArray, fs)
    ensures NamesOk(v) ==> FieldNamesOk(isArray, Replace(fs, name, v))
    ensures Get(fs, name).Some? ==> NamesOk(Get(fs, name).value)
  {
    if fs.Field? {
      ReplaceNames(isArray, fs.rest, name, v);
    }
  }

  lemma {:induction false} InsertNames(isArray: bool, fs: Fields, name: bytes, v: Value)
    requires FieldNamesOk(isArray, fs) && NamesOk(v) && (isArray || NoMarks(name))
    ensures FieldNamesOk(isArray, Insert(fs, name, v)) && FieldNamesOk(isArray, Append(fs, name, v))
  {
    if fs.Field? {
      InsertNames(isArray, fs.rest, name, v);
    }
  }

  lemma {:induction false} RebuildNames(doc: Value, p: Path, w: Value)
    requires doc.Node? && Walk(doc, p).Ok? && w.Node? && NamesOk(doc)
    ensures NamesOk(Walk(doc, p).value)
    ensures NamesOk(w) ==> NamesOk(Rebuild(doc, p, w))
    decreases |p|
  {
    if p != [] {
      var name := NameOf(p[0]);
      var c := Get(doc.fields, name).value;
      ReplaceNames(doc.isArray, doc.fields, name, Rebuild(c, p[1..], w));
      RebuildNames(c, p[1..], w);
    }
  }

  /**
   Writing a storable value under a name free of NUL and marker bytes leaves a
   storable document, so long as it still fits 32 bits.
   */
  lemma SetStaysIndexable(doc: Value, p: Path, v: Value)
    requires Indexable(doc) && Set(doc, p, v).Ok? && Wf(v) && Sorted(v) && NamesOk(v)
    requires NoZero(NameOf(Leaf(p))) && NoMarks(NameOf(Leaf(p))) && |Enc(Set(doc, p, v).value)| < U32
    ensures Indexable(Set(doc, p, v).value)
  {
    hide Enc, Rebuild;
    EditsKeepOrder(doc, p, v);
    var parent, name := Walk(doc, Init(p)).value, NameOf(Leaf(p));
    assert Set(doc, p, v) in {Set(doc, p, v), Unset(doc, p), Push(doc, p, v), Pop(doc, p)};
    RebuildNames(doc, Init(p), parent);
    ReplaceNames(parent.isArray, parent.fields, name, v);
    InsertNames(parent.isArray, parent.fields, name, v);
    RebuildNames(doc, Init(p), Put(parent, name, v));
  }

  lemma {:induction false} RemoveNames(isArray: bool, fs: Fields, name: bytes)
    requires FieldNamesOk(isArray, fs)
    ensures FieldNamesOk(isArray, Remove(fs, name)) && |EncFields(Remove(fs, name))| <= |EncFields(fs)|
  {
    if fs.Field? {
      EntrySize(fs);
      RemoveNames(isArray, fs.rest, name);
      if fs.name != name {
        EntrySize(Remove(fs, name));
      }
    }
  }

  /** Taking a field out of a container of a storable document leaves a storable one. */
  lemma RemovalStaysIndexable(doc: Value, p: Path, name: bytes)
    requires Indexable(doc) && Walk(doc, p).Ok?
    ensures var node := Walk(doc, p).value;
            Indexable(Rebuild(doc, p, Node(node.isArray, Remove(node.fields, name))))
  {
    hide Enc, EncFields, Rebuild, Remove, FieldNamesOk;
    var node := Walk(doc, p).value;
    var cut := Node(node.isArray, Remove(node.fields, name));
    RebuildNames(doc, p, node);
    RemoveNames(node.isArray, node.fields, name);
    RebuildNames(doc, p, cut);
    RebuildKeeps(doc, p, node);
    RemoveKeeps(node.fields, name);
    RebuildKeeps(doc, p, cut);
    RebuildLength(doc, p, cut, |EncFields(cut.fields)| - |EncFields(node.fields)|);
  }

  /** A document that was stored stays storable, whatever is removed from it. */
  lemma RemovalsStayIndexable(doc: Value, p: Path)
    requires Indexable(doc)
    ensures Unset(doc, p).Ok? ==> Indexable(Unset(doc, p).value)
    ensures Pop(doc, p).Ok? ==> Indexable(Pop(doc, p).value)
  {
    hide Enc, Rebuild, Walk, Get, Sorted, NamesOk, Wf;
    if Unset(doc, p).Ok? {
      RemovalStaysIndexable(doc, Init(p), NameOf(Leaf(p)));
    }
    if Pop(doc, p).Ok? && Pop(doc, p).value != doc {
      WalkLast(doc, p);
      var arr := Walk(doc, p).value;
      RemovalStaysIndexable(doc, p, Decimal(Count(arr.fields) - 1));
    }
  }

  /** Appending a storable value to an array leaves a storable document, so long as it still fits 32 bits. */
  lemma PushStaysIndexable(doc: Value, p: Path, v: Value)
    requires Indexable(doc) && Push(doc, p, v).Ok? && Wf(v) && Sorted(v) && NamesOk(v)
    requires |Enc(Push(doc, p, v).value)| < U32
    ensures Indexable(Push(doc, p, v).value)
  {
    hide Enc, Rebuild;
    WalkLast(doc, p);
    var arr := Walk(doc, p).value;
    var name := Decimal(Count(arr.fields));
    RebuildKeeps(doc, p, arr);
    DecimalNoZero(Count(arr.fields));
    InsertKeeps(arr.fields, name, v);
    RebuildKeeps(doc, p, Node(true, Append(arr.fields, name, v)));
    RebuildNames(doc, p, arr);
    InsertNames(true, arr.fields, name, v);
    RebuildNames(doc, p, Node(true, Append(arr.fields, name, v)));
  }
}
