/**
 An edit leaves everything behind the edited entry alone: the old and the new
 document have the same work left there, under the same location keys.
 */
module EditWork {
  import opened Bytes
  import opened Tree
  import opened Edits
  import opened Mutation
  import opened Keys
  import opened Events
  import opened Scanner
  import opened Chunker
  import opened IndexedDocument
  import opened Resync

  ghost predicate Suffix<T>(s: seq<T>, t: seq<T>) {
    |t| <= |s| && s[|s| - |t|..] == t
  }

  lemma SuffixOf<T>(a: seq<T>, b: seq<T>, t: seq<T>)
    requires Suffix(b, t)
    ensures Suffix(a + b, t)
  {
    assert (a + b)[|a + b| - |t|..] == b[|b| - |t|..];
  }

  lemma SuffixTrans<T>(s: seq<T>, t: seq<T>, u: seq<T>)
    requires Suffix(s, t) && Suffix(t, u)
    ensures Suffix(s, u)
  {
    assert s[|s| - |u|..] == s[|s| - |t|..][|t| - |u|..];
  }

  /** A scan at byte p with work w comes to byte q with work wk left. */
  ghost predicate Reaches(w: Work, p: nat, wk: Work, q: nat) {
    Suffix(WorkEvents(w, p), WorkEvents(wk, q)) && Suffix(WorkBytes(w), WorkBytes(wk))
    && q == p + |WorkBytes(w)| - |WorkBytes(wk)|
  }

  lemma ReachesTrans(w: Work, p: nat, x: Work, q: nat, y: Work, r: nat)
    requires Reaches(w, p, x, q) && Reaches(x, q, y, r)
    ensures Reaches(w, p, y, r)
  {
    hide WorkEvents, WorkBytes;
    SuffixTrans(WorkEvents(w, p), WorkEvents(x, q), WorkEvents(y, r));
    SuffixTrans(WorkBytes(w), WorkBytes(x), WorkBytes(y));
  }

  lemma ReachesSelf(w: Work, p: nat)
    ensures Reaches(w, p, w, p)
  {
  }

  /** Past one field. */
  lemma PastField(w: Work, p: nat)
    requires w.Open? && w.fs.Field?
    ensures Reaches(w, p, w.(idx := w.idx + 1, fs := w.fs.rest), p + |EncEntry(w.fs.name, w.fs.value)|)
  {
    hide WorkEvents, WorkBytes, Enc, BodyEvents, Suffix, EncEntry;
    var w' := w.(idx := w.idx + 1, fs := w.fs.rest);
    var here, q, v := w.path + [StepTo(w.isArray, w.idx, w.fs.name)], p + 2 + |w.fs.name|, w.fs.value;
    FieldBegins(w, p);
    EntrySize(w.fs);
    SuffixDeep([Event(Loc(START_OF_VALUE, here), q)], BodyEvents(here, v, q), WorkEvents(w', q + |Enc(v)|));
    SuffixDeep([TagOf(v)] + (w.fs.name + [0]), Enc(v), WorkBytes(w'));
  }

  lemma SuffixDeep<T>(a: seq<T>, b: seq<T>, t: seq<T>)
    ensures Suffix(a + (b + t), t)
  {
    assert a + (b + t) == (a + b) + t;
  }

  /** Into the container that is the next field's value. */
  lemma IntoField(w: Work, p: nat)
    requires w.Open? && w.fs.Field? && w.fs.value.Node?
    ensures var v, here := w.fs.value, w.path + [StepTo(w.isArray, w.idx, w.fs.name)];
            Reaches(w, p, Open(here, v.isArray, 0, v.fields, w.(idx := w.idx + 1, fs := w.fs.rest)),
                    p + 2 + |w.fs.name| + 4)
  {
    hide WorkEvents, WorkBytes, Enc, BodyEvents;
    var w', v := w.(idx := w.idx + 1, fs := w.fs.rest), w.fs.value;
    var here, q := w.path + [StepTo(w.isArray, w.idx, w.fs.name)], p + 2 + |w.fs.name|;
    var x := Open(here, v.isArray, 0, v.fields, w');
    FieldBegins(w, p);
    IntoContainer(here, v, w', q);
    var es, bs := BodyEvents(here, v, q) + WorkEvents(w', q + |Enc(v)|), Enc(v) + WorkBytes(w');
    SuffixOf([Event(Loc(START_OF_VALUE, here), q)], es, WorkEvents(x, q + 4));
    SuffixOf([TagOf(v)] + (w.fs.name + [0]), bs, WorkBytes(x));
  }

  lemma IntoContainer(here: Path, v: Value, up: Work, q: nat)
    requires v.Node?
    ensures var x := Open(here, v.isArray, 0, v.fields, up);
            Suffix(BodyEvents(here, v, q) + WorkEvents(up, q + |Enc(v)|), WorkEvents(x, q + 4))
            && Suffix(Enc(v) + WorkBytes(up), WorkBytes(x)) && |Enc(v) + WorkBytes(up)| == 4 + |WorkBytes(x)|
  {
    hide WorkEvents, WorkBytes, Enc, BodyEvents;
    var x := Open(here, v.isArray, 0, v.fields, up);
    if v.fields.Field? {
      ContainerOpens(here, v, up, q);
      SuffixOf([Event(Loc(Initial(v.isArray), here), q + 4)], WorkEvents(x, q + 4), WorkEvents(x, q + 4));
      SuffixOf(Le32(|Enc(v)|), WorkBytes(x), WorkBytes(x));
    } else {
      ValueEnds(here, v, q);
      ContainerEnds(x, q + 4);
      assert Le32(5) + [0] + WorkBytes(up) == Le32(5) + ([0] + WorkBytes(up));
      SuffixOf(Le32(5), [0] + WorkBytes(up), WorkBytes(x));
    }
  }

  // ------------------------------------------------------------- along a field list

  function Drop(fs: Fields, k: nat): Fields
    requires k <= Count(fs)
  {
    if k == 0 then fs else Drop(fs.rest, k - 1)
  }

  function IndexIn(fs: Fields, name: bytes): (k: nat)
    ensures k <= Count(fs)
  {
    match fs
    case End => 0
    case Field(n, _, rest) => if n == name then 0 else 1 + IndexIn(rest, name)
  }

  lemma {:induction false} PastFields(path: Path, isArray: bool, idx: nat, fs: Fields, up: Work, k: nat, p: nat)
    requires k <= Count(fs)
    ensures |EncFields(Drop(fs, k))| <= |EncFields(fs)|
    ensures Reaches(Open(path, isArray, idx, fs, up), p, Open(path, isArray, idx + k, Drop(fs, k), up),
                    p + |EncFields(fs)| - |EncFields(Drop(fs, k))|)
    decreases k
  {
    hide Reaches, EncEntry, Enc;
    var w := Open(path, isArray, idx, fs, up);
    if k == 0 {
      ReachesSelf(w, p);
    } else {
      var q := p + |EncEntry(fs.name, fs.value)|;
      PastField(w, p);
      PastFields(path, isArray, idx + 1, fs.rest, up, k - 1, q);
      ReachesTrans(w, p, Open(path, isArray, idx + 1, fs.rest, up), q, Open(path, isArray, idx + k, Drop(fs, k), up),
                   p + |EncFields(fs)| - |EncFields(Drop(fs, k))|);
    }
  }

  lemma {:induction false} DropAtName(fs: Fields, name: bytes, v: Value)
    requires Get(fs, name).Some?
    ensures var k := IndexIn(fs, name);
            k < Count(fs) && Drop(fs, k).Field? && Drop(fs, k).name == name && Drop(fs, k).value == Get(fs, name).value
            && |EncFields(fs)| - |EncFields(Drop(fs, k))| == EntryOff(fs, name)
            && k < Count(Replace(fs, name, v)) && Drop(Replace(fs, name, v), k) == Drop(fs, k).(value := v)
            && IndexIn(Replace(fs, name, v), name) == k && EntryOff(Replace(fs, name, v), name) == EntryOff(fs, name)
            && Get(Replace(fs, name, v), name) == Some(v)
  {
    if fs.name != name {
      DropAtName(fs.rest, name, v);
    }
  }

  /** Into the container that is the field of that name. */
  lemma IntoNamed(path: Path, node: Value, up: Work, name: bytes, p: nat)
    requires node.Node? && Get(node.fields, name).Some? && Get(node.fields, name).value.Node?
    ensures var fs, c, k := node.fields, Get(node.fields, name).value, IndexIn(node.fields, name);
            k < Count(fs) && Drop(fs, k).Field?
            && Reaches(Open(path, node.isArray, 0, fs, up), p,
                       Open(path + [StepTo(node.isArray, k, name)], c.isArray, 0, c.fields,
                            Open(path, node.isArray, k + 1, Drop(fs, k).rest, up)),
                       p + ChildOff(node, name))
  {
    hide Reaches, EncFields;
    var fs, c, k := node.fields, Get(node.fields, name).value, IndexIn(node.fields, name);
    DropAtName(fs, name, c);
    PastFields(path, node.isArray, 0, fs, up, k, p);
    var mid := Open(path, node.isArray, k, Drop(fs, k), up);
    IntoField(mid, p + EntryOff(fs, name));
    ReachesTrans(Open(path, node.isArray, 0, fs, up), p, mid, p + EntryOff(fs, name),
                 Open(path + [StepTo(node.isArray, k, name)], c.isArray, 0, c.fields,
                      mid.(idx := k + 1, fs := Drop(fs, k).rest)),
                 p + ChildOff(node, name));
  }

  // ------------------------------------------------------------------- along a path

  /**
   The way into the container at p is the same in n and in n with that container
   replaced: same location, same work around it, same offset.
   */
  lemma {:induction false} SameWayIn(n: Value, p: Path, node': Value, path: Path, up: Work, s: nat)
    returns (here: Path, up': Work)
    requires n.Node? && Walk(n, p).Ok? && node'.Node? && node'.isArray == Walk(n, p).value.isArray
    ensures var n', node := Rebuild(n, p, node'), Walk(n, p).value;
            n'.Node? && n'.isArray == n.isArray && Walk(n', p) == Ok(node') && Depth(n', p) == Depth(n, p)
            && Reaches(Open(path, n.isArray, 0, n.fields, up), s, Open(here, node.isArray, 0, node.fields, up'),
                       s + Depth(n, p))
            && Reaches(Open(path, n.isArray, 0, n'.fields, up), s, Open(here, node.isArray, 0, node'.fields, up'),
                       s + Depth(n, p))
    decreases |p|
  {
    hide Reaches, EncFields, ChildOff, Replace, Get, Drop, IndexIn;
    if p == [] {
      here, up' := path, up;
      ReachesSelf(Open(path, n.isArray, 0, n.fields, up), s);
      ReachesSelf(Open(path, n.isArray, 0, node'.fields, up), s);
    } else {
      var name := NameOf(p[0]);
      var c := Get(n.fields, name).value;
      var c' := Rebuild(c, p[1..], node');
      RebuildTag(c, p[1..], node');
      RebuildTwice(c, p[1..], node', node');
      var n' := Rebuild(n, p, node');
      DropAtName(n.fields, name, c');
      SameChildOff(n, n', name);
      var k := IndexIn(n.fields, name);
      var step := path + [StepTo(n.isArray, k, name)];
      var rest := Open(path, n.isArray, k + 1, Drop(n.fields, k).rest, up);
      var q := s + ChildOff(n, name);
      IntoNamed(path, n, up, name, s);
      IntoNamed(path, n', up, name, s);
      here, up' := SameWayIn(c, p[1..], node', step, rest, q);
      var node := Walk(n, p).value;
      ReachesTrans(Open(path, n.isArray, 0, n.fields, up), s, Open(step, c.isArray, 0, c.fields, rest), q,
                   Open(here, node.isArray, 0, node.fields, up'), s + Depth(n, p));
      ReachesTrans(Open(path, n.isArray, 0, n'.fields, up), s, Open(step, c.isArray, 0, c'.fields, rest), q,
                   Open(here, node.isArray, 0, node'.fields, up'), s + Depth(n, p));
    }
  }

  lemma SameChildOff(n: Value, n': Value, name: bytes)
    requires n.Node? && n'.Node? && EntryOff(n.fields, name) == EntryOff(n'.fields, name)
    ensures ChildOff(n, name) == ChildOff(n', name)
  {
  }

  /** The two field lists end in the same fields, in the same positions where those count. */
  ghost predicate SameTail(isArray: bool, fs: Fields, k: nat, fs': Fields, k': nat) {
    k <= Count(fs) && k' <= Count(fs') && Drop(fs, k) == Drop(fs', k') && (isArray && Drop(fs, k).Field? ==> k == k')
  }

  lemma TailWork(path: Path, isArray: bool, i: nat, j: nat, fs: Fields, up: Work, p: nat)
    requires isArray && fs.Field? ==> i == j
    ensures WorkEvents(Open(path, isArray, i, fs, up), p) == WorkEvents(Open(path, isArray, j, fs, up), p)
    ensures WorkBytes(Open(path, isArray, i, fs, up)) == WorkBytes(Open(path, isArray, j, fs, up))
  {
    hide EncFields;
    if !isArray {
      FieldShift(path, isArray, i, j, fs, p, p);
      var es, gs := FieldEvents(path, isArray, i, fs, p), FieldEvents(path, isArray, j, fs, p);
      assert forall k :: 0 <= k < |es| ==> es[k] == gs[k];
      assert es == gs;
    }
  }

  /**
   Rewriting one container's fields, their tail kept: behind the rewritten part both
   documents have the same work left.
   */
  lemma RewriteLeavesWork(doc: Value, p: Path, node': Value, k: nat, k': nat) returns (wk: Work)
    requires doc.Node? && !doc.isArray && Walk(doc, p).Ok? && node'.Node? && node'.isArray == Walk(doc, p).value.isArray
    requires SameTail(node'.isArray, Walk(doc, p).value.fields, k, node'.fields, k')
    ensures var doc', fs, fs' := Rebuild(doc, p, node'), Walk(doc, p).value.fields, node'.fields;
            var tail := |EncFields(Drop(fs, k))|;
            wk.Open? && wk.fs == Drop(fs, k) && tail <= |EncFields(fs)| && tail <= |EncFields(fs')|
            && LeftAt(doc, wk, 4 + Depth(doc, p) + |EncFields(fs)| - tail)
            && LeftAt(doc', wk, 4 + Depth(doc, p) + |EncFields(fs')| - tail)
  {
    hide Reaches, EncFields, WorkEvents, WorkBytes, Depth;
    var node, doc' := Walk(doc, p).value, Rebuild(doc, p, node');
    var here, up := SameWayIn(doc, p, node', [], Finished, 4);
    var q := 4 + Depth(doc, p);
    PastFields(here, node.isArray, 0, node.fields, up, k, q);
    PastFields(here, node.isArray, 0, node'.fields, up, k', q);
    wk := Open(here, node.isArray, k, Drop(node.fields, k), up);
    var wk' := wk.(idx := k');
    var r := q + |EncFields(node.fields)| - |EncFields(wk.fs)|;
    var r' := q + |EncFields(node'.fields)| - |EncFields(wk.fs)|;
    ReachesTrans(Open([], false, 0, doc.fields, Finished), 4, Open(here, node.isArray, 0, node.fields, up), q, wk, r);
    ReachesTrans(Open([], false, 0, doc'.fields, Finished), 4, Open(here, node.isArray, 0, node'.fields, up), q, wk',
                 r');
    TailWork(here, node.isArray, k, k', wk.fs, up, r');
    ReachesSame(Open([], false, 0, doc'.fields, Finished), 4, wk', wk, r');
    RootLeft(doc, wk, r);
    RootLeft(doc', wk, r');
  }

  lemma ReachesSame(w: Work, p: nat, x: Work, y: Work, q: nat)
    requires Reaches(w, p, x, q) && WorkEvents(x, q) == WorkEvents(y, q) && WorkBytes(x) == WorkBytes(y)
    ensures Reaches(w, p, y, q)
  {
  }

  /** The scan of doc comes to byte q with exactly this work left. */
  ghost predicate LeftAt(doc: Value, wk: Work, q: nat) {
    exists m :: Left(doc, wk, q, m)
  }

  lemma RootLeft(doc: Value, wk: Work, q: nat)
    requires doc.Node? && Reaches(Open([], false, 0, doc.fields, Finished), 4, wk, q)
    ensures LeftAt(doc, wk, q)
  {
    hide WorkEvents, EncFields;
    var w, es := Open([], false, 0, doc.fields, Finished), DocEvents(doc);
    RootEvents(doc);
    NodeSize(doc);
    var m := |es| - |WorkEvents(wk, q)|;
    assert es[m..] == es[1..][m - 1..];
    var l, f := Le32(|EncFields(doc.fields)| + 5), EncFields(doc.fields);
    assert Enc(doc) == l + WorkBytes(w) by { assert l + f + [0] == l + (f + ([0] + [])); }
    assert Enc(doc)[q..] == WorkBytes(w)[q - 4..];
    assert Left(doc, wk, q, m);
  }

  // ------------------------------------------------------------------- the edits

  function InsertIndex(fs: Fields, name: bytes): nat {
    match fs
    case End => 0
    case Field(n, _, rest) => if Lex(n, name) > 0 then 0 else 1 + InsertIndex(rest, name)
  }

  lemma {:induction false} InsertTail(fs: Fields, name: bytes, v: Value)
    ensures var k := InsertIndex(fs, name);
            k <= Count(fs) && k < Count(Insert(fs, name, v))
            && Drop(Insert(fs, name, v), k) == Field(name, v, Drop(fs, k))
  {
    if fs.Field? && Lex(fs.name, name) <= 0 {
      InsertTail(fs.rest, name, v);
    }
  }

  lemma {:induction false} AppendTail(fs: Fields, name: bytes, v: Value)
    ensures Count(fs) < Count(Append(fs, name, v)) && Drop(Append(fs, name, v), Count(fs)) == Field(name, v, End)
            && Drop(fs, Count(fs)) == End
  {
    if fs.Field? {
      AppendTail(fs.rest, name, v);
    }
  }

  lemma {:induction false} DropNext(fs: Fields, k: nat)
    requires k < Count(fs)
    ensures Drop(fs, k).Field? && Drop(fs, k + 1) == Drop(fs, k).rest
  {
    if k > 0 {
      DropNext(fs.rest, k - 1);
    }
  }

  /** A written field, and the fields behind it that it shares with the old list. */
  lemma PutTail(node: Value, name: bytes, v: Value) returns (k: nat, k': nat)
    requires node.Node?
    ensures SameTail(node.isArray, node.fields, k, Put(node, name, v).fields, k')
    ensures k' > 0 && Drop(Put(node, name, v).fields, k' - 1) == Field(name, v, Drop(node.fields, k))
  {
    var fs, gs := node.fields, Put(node, name, v).fields;
    if Get(fs, name).Some? {
      k := IndexIn(fs, name);
      DropAtName(fs, name, v);
      DropNext(fs, k);
      DropNext(gs, k);
      k, k' := k + 1, k + 1;
    } else if node.isArray {
      AppendTail(fs, name, v);
      DropNext(gs, Count(fs));
      k, k' := Count(fs), Count(fs) + 1;
    } else {
      InsertTail(fs, name, v);
      k := InsertIndex(fs, name);
      DropNext(gs, k);
      k' := k + 1;
    }
  }

  /**
   Where exactly the work left after a set starts: at the k-th field of the old
   container, behind the written entry of the new.
   */
  ghost predicate SetLeaves(doc: Value, p: Path, v: Value, wk: Work, q: nat, q': nat, k: nat, k': nat) {
    doc.Node? && p != [] && Walk(doc, Init(p)).Ok?
    && var old', name := Walk(doc, Init(p)).value, NameOf(Leaf(p));
       var new' := Put(old', name, v);
       SameTail(old'.isArray, old'.fields, k, new'.fields, k') && k' > 0
       && wk.Open? && wk.fs == Drop(old'.fields, k) && Drop(new'.fields, k' - 1) == Field(name, v, wk.fs)
       && q == 4 + Depth(doc, Init(p)) + |EncFields(old'.fields)| - |EncFields(wk.fs)|
       && q' == 4 + Depth(doc, Init(p)) + |EncFields(new'.fields)| - |EncFields(wk.fs)|
  }

  /**
   After a write at p, the fields behind the written entry, and everything behind
   its container, are the same work left in both documents.
   */
  lemma SetLeavesWork(doc: Value, p: Path, v: Value) returns (wk: Work, q: nat, q': nat, k: nat, k': nat)
    requires doc.Node? && !doc.isArray && Set(doc, p, v).Ok?
    ensures LeftAt(doc, wk, q) && LeftAt(Set(doc, p, v).value, wk, q')
    ensures SetLeaves(doc, p, v, wk, q, q', k, k')
  {
    hide LeftAt, Depth, EncFields, Rebuild;
    var parent, name := Walk(doc, Init(p)).value, NameOf(Leaf(p));
    k, k' := PutTail(parent, name, v);
    wk := RewriteLeavesWork(doc, Init(p), Put(parent, name, v), k, k');
    q := 4 + Depth(doc, Init(p)) + |EncFields(parent.fields)| - |EncFields(wk.fs)|;
    q' := 4 + Depth(doc, Init(p)) + |EncFields(Put(parent, name, v).fields)| - |EncFields(wk.fs)|;
  }

  /** Removing this entry renumbers entries behind it. */
  ghost predicate Renumbers(parent: Value, name: bytes)
    requires parent.Node? && Get(parent.fields, name).Some?
  {
    parent.isArray && IndexIn(parent.fields, name) < Count(parent.fields) - 1
  }

  /**
   The same for a removed field: what lies behind it is left, or, where it was an array element
   with others behind it that are renumbered, what lies behind the array.
   */
  lemma UnsetLeavesWork(doc: Value, p: Path) returns (wk: Work, q: nat, q': nat)
    requires doc.Node? && !doc.isArray && Unset(doc, p).Ok?
    requires Get(Walk(doc, Init(p)).value.fields, NameOf(Leaf(p))).Some?
    ensures LeftAt(doc, wk, q) && LeftAt(Unset(doc, p).value, wk, q')
    ensures UnsetLeaves(doc, p, wk, q, q')
  {
    hide LeftAt, Depth, EncFields, Rebuild;
    var parent, name := Walk(doc, Init(p)).value, NameOf(Leaf(p));
    var k := IndexIn(parent.fields, name);
    var fs' := Remove(parent.fields, name);
    DropAtName(parent.fields, name, doc);
    DropNext(parent.fields, k);
    RemoveTail(parent.fields, name);
    DropAll(parent.fields);
    DropAll(fs');
    if Renumbers(parent, name) {
      wk := RewriteLeavesWork(doc, Init(p), Node(parent.isArray, fs'), Count(parent.fields), Count(fs'));
    } else {
      wk := RewriteLeavesWork(doc, Init(p), Node(parent.isArray, fs'), k + 1, k);
    }
    q := 4 + Depth(doc, Init(p)) + |EncFields(parent.fields)| - |EncFields(wk.fs)|;
    q' := 4 + Depth(doc, Init(p)) + |EncFields(fs')| - |EncFields(wk.fs)|;
  }

  /** Where exactly the work left after an unset starts. */
  ghost predicate UnsetLeaves(doc: Value, p: Path, wk: Work, q: nat, q': nat) {
    doc.Node? && p != [] && Walk(doc, Init(p)).Ok?
    && var parent, name := Walk(doc, Init(p)).value, NameOf(Leaf(p));
       Get(parent.fields, name).Some? && wk.Open?
       && (if Renumbers(parent, name) then wk.fs == End
           else IndexIn(parent.fields, name) < Count(parent.fields)
                && Drop(parent.fields, IndexIn(parent.fields, name))
                   == Field(name, Get(parent.fields, name).value, wk.fs))
       && q == 4 + Depth(doc, Init(p)) + |EncFields(parent.fields)| - |EncFields(wk.fs)|
       && q' == 4 + Depth(doc, Init(p)) + |EncFields(Remove(parent.fields, name))| - |EncFields(wk.fs)|
  }

  lemma {:induction false} RemoveTail(fs: Fields, name: bytes)
    requires Get(fs, name).Some?
    ensures var k := IndexIn(fs, name);
            k < Count(fs) && k <= Count(Remove(fs, name))
            && Drop(Remove(fs, name), k) == Drop(fs, k + 1)
  {
    if fs.name != name {
      RemoveTail(fs.rest, name);
    }
  }

  lemma {:induction false} DropAll(fs: Fields)
    ensures Drop(fs, Count(fs)) == End
  {
    if fs.Field? {
      DropAll(fs.rest);
    }
  }

  /** The work left starts behind the array's last element, in the old document and in the new. */
  ghost predicate ArrayLeaves(doc: Value, p: Path, wk: Work, q: nat, doc': Value, q': nat) {
    doc.Node? && doc'.Node? && Walk(doc, p).Ok? && Walk(doc', p).Ok? && wk.Open? && wk.fs == End
    && q == 4 + Depth(doc, p) + |EncFields(Walk(doc, p).value.fields)|
    && q' == 4 + Depth(doc, p) + |EncFields(Walk(doc', p).value.fields)|
  }

  /** The same for a pushed element: only what lies behind the array is left. */
  lemma PushLeavesWork(doc: Value, p: Path, v: Value) returns (wk: Work, q: nat, q': nat)
    requires doc.Node? && !doc.isArray && Push(doc, p, v).Ok?
    ensures LeftAt(doc, wk, q) && LeftAt(Push(doc, p, v).value, wk, q')
    ensures ArrayLeaves(doc, p, wk, q, Push(doc, p, v).value, q')
  {
    hide LeftAt, Depth, Rebuild;
    WalkLast(doc, p);
    var arr := Walk(doc, p).value;
    var name := Decimal(Count(arr.fields));
    var arr' := Node(true, Append(arr.fields, name, v));
    AppendTail(arr.fields, name, v);
    DropNext(arr'.fields, Count(arr.fields));
    wk := RewriteLeavesWork(doc, p, arr', Count(arr.fields), Count(arr.fields) + 1);
    RebuildTwice(doc, p, arr', arr');
    q := 4 + Depth(doc, p) + |EncFields(arr.fields)|;
    q' := 4 + Depth(doc, p) + |EncFields(arr'.fields)|;
  }

  /** And for a popped one; a pop that finds no array elements changes nothing. */
  lemma PopLeavesWork(doc: Value, p: Path) returns (wk: Work, q: nat, q': nat)
    requires doc.Node? && !doc.isArray && Pop(doc, p).Ok? && Walk(doc, p).Ok?
    ensures LeftAt(doc, wk, q) && LeftAt(Pop(doc, p).value, wk, q')
    ensures ArrayLeaves(doc, p, wk, q, Pop(doc, p).value, q')
  {
    hide LeftAt, Depth, Rebuild;
    WalkLast(doc, p);
    var arr := Walk(doc, p).value;
    var arr' := if Count(arr.fields) == 0 then arr else Node(true, Remove(arr.fields, Decimal(Count(arr.fields) - 1)));
    DropAll(arr.fields);
    DropAll(arr'.fields);
    wk := RewriteLeavesWork(doc, p, arr', Count(arr.fields), Count(arr'.fields));
    q := 4 + Depth(doc, p) + |EncFields(arr.fields)|;
    q' := 4 + Depth(doc, p) + |EncFields(arr'.fields)|;
    RebuildTwice(doc, p, arr', arr');
  }

  // ------------------------------------------------------- chunks after an edit

  /** n events into the work left, both documents are at a cut, at the same place. */
  ghost predicate CutTogether(w: Weibull, wk: Work, doc: Value, q: nat, m: nat, doc': Value, q': nat, m': nat, n: nat) {
    Left(doc, wk, q, m) && Left(doc', wk, q', m') && n <= |WorkEvents(wk, q)| && m' + n <= |DocEvents(doc')|
    && AllFit(DocEvents(doc)) && AllFit(DocEvents(doc'))
    && StartAfter(w, DocEvents(doc), 0, m + n) - q == StartAfter(w, DocEvents(doc'), 0, m' + n) - q' >= 0
  }

  /** All chunks after event m of doc are those after event m' of doc'. */
  ghost predicate SameChunksFrom(w: Weibull, doc: Value, m: nat, doc': Value, m': nat)
    requires Tree.Document(doc) && Tree.Document(doc')
  {
    m <= |DocEvents(doc)| && m' <= |DocEvents(doc')| && AllFit(DocEvents(doc)) && AllFit(DocEvents(doc'))
    && var k, k' := CutsIn(w, DocEvents(doc), 0, m), CutsIn(w, DocEvents(doc'), 0, m');
    k <= |ChunksOf(w, doc)| && k' <= |ChunksOf(w, doc')| && ChunksOf(w, doc)[k..] == ChunksOf(w, doc')[k'..]
  }

  lemma CutTogetherSame(w: Weibull, wk: Work, doc: Value, q: nat, m: nat, doc': Value, q': nat, m': nat, n: nat)
    requires Tree.Document(doc) && Tree.Document(doc') && CutTogether(w, wk, doc, q, m, doc', q', m', n)
    ensures SameChunksFrom(w, doc, m + n, doc', m' + n)
  {
    hide WorkEvents, DocEvents, StartAfter, CutsIn, ChunksOf;
    WorkShift(wk, q, q');
    Resynchronise(w, wk, doc, q, m, doc', q', m', n);
  }

  /** With this work left in both, from any later place where both versions cut every chunk is the same. */
  ghost predicate Resyncs(w: Weibull, wk: Work, doc: Value, q: nat, doc': Value, q': nat)
    requires Tree.Document(doc) && Tree.Document(doc')
  {
    LeftAt(doc, wk, q) && LeftAt(doc', wk, q')
    && forall m: nat, m': nat, n: nat :: CutTogether(w, wk, doc, q, m, doc', q', m', n)
                                         ==> SameChunksFrom(w, doc, m + n, doc', m' + n)
  }

  lemma SameWorkResyncs(w: Weibull, wk: Work, doc: Value, q: nat, doc': Value, q': nat)
    requires Tree.Document(doc) && Tree.Document(doc') && LeftAt(doc, wk, q) && LeftAt(doc', wk, q')
    ensures Resyncs(w, wk, doc, q, doc', q')
  {
    hide CutTogether, SameChunksFrom, LeftAt;
    forall m: nat, m': nat, n: nat | CutTogether(w, wk, doc, q, m, doc', q', m', n)
      ensures SameChunksFrom(w, doc, m + n, doc', m' + n)
    {
      CutTogetherSame(w, wk, doc, q, m, doc', q', m', n);
    }
  }

  /** After a set, the chunks resynchronise behind the written entry. */
  lemma SetResynchronises(w: Weibull, doc: Value, p: Path, v: Value)
      returns (wk: Work, q: nat, q': nat, k: nat, k': nat)
    requires Tree.Document(doc) && Set(doc, p, v).Ok? && Tree.Document(Set(doc, p, v).value)
    ensures Resyncs(w, wk, doc, q, Set(doc, p, v).value, q') && SetLeaves(doc, p, v, wk, q, q', k, k')
  {
    hide Resyncs, LeftAt, SetLeaves, Rebuild;
    wk, q, q', k, k' := SetLeavesWork(doc, p, v);
    SameWorkResyncs(w, wk, doc, q, Set(doc, p, v).value, q');
  }

  /** After an unset, behind the removed entry, or behind the array it renumbers. */
  lemma UnsetResynchronises(w: Weibull, doc: Value, p: Path) returns (wk: Work, q: nat, q': nat)
    requires Tree.Document(doc) && Unset(doc, p).Ok? && Tree.Document(Unset(doc, p).value)
    requires Get(Walk(doc, Init(p)).value.fields, NameOf(Leaf(p))).Some?
    ensures Resyncs(w, wk, doc, q, Unset(doc, p).value, q') && UnsetLeaves(doc, p, wk, q, q')
  {
    hide Resyncs, LeftAt, UnsetLeaves, Rebuild;
    wk, q, q' := UnsetLeavesWork(doc, p);
    SameWorkResyncs(w, wk, doc, q, Unset(doc, p).value, q');
  }

  /** After a push, behind the array's elements. */
  lemma PushResynchronises(w: Weibull, doc: Value, p: Path, v: Value) returns (wk: Work, q: nat, q': nat)
    requires Tree.Document(doc) && Push(doc, p, v).Ok? && Tree.Document(Push(doc, p, v).value)
    ensures Resyncs(w, wk, doc, q, Push(doc, p, v).value, q') && ArrayLeaves(doc, p, wk, q, Push(doc, p, v).value, q')
  {
    hide Resyncs, LeftAt, ArrayLeaves, Rebuild;
    wk, q, q' := PushLeavesWork(doc, p, v);
    SameWorkResyncs(w, wk, doc, q, Push(doc, p, v).value, q');
  }

  /** And so after a pop. */
  lemma PopResynchronises(w: Weibull, doc: Value, p: Path) returns (wk: Work, q: nat, q': nat)
    requires Tree.Document(doc) && Pop(doc, p).Ok? && Walk(doc, p).Ok? && Tree.Document(Pop(doc, p).value)
    ensures Resyncs(w, wk, doc, q, Pop(doc, p).value, q') && ArrayLeaves(doc, p, wk, q, Pop(doc, p).value, q')
  {
    hide Resyncs, LeftAt, ArrayLeaves, Rebuild;
    wk, q, q' := PopLeavesWork(doc, p);
    SameWorkResyncs(w, wk, doc, q, Pop(doc, p).value, q');
  }
}
