/**
 Reading an indexed document back: its chunks in the order of their keys. In
 traversal order of the keys that is the original document; in plain byte order of
 the keys it is, exactly when no cut key overtakes another.
 */
module IndexedDocument {
  import opened Bytes
  import opened Tree
  import opened Edits
  import opened Varint
  import opened Keys
  import opened Events
  import opened Chunker

  /** The data under the keys, in the order of the keys. */
  function JoinKeys(am: map<bytes, bytes>, order: seq<bytes>): bytes
    requires forall k | k in order :: k in am
  {
    if order == [] then [] else am[order[0]] + JoinKeys(am, order[1..])
  }

  /** Concatenates the leaves in the order the address map is iterated. */
  method ReadBytes(am: map<bytes, bytes>, order: seq<bytes>) returns (out: bytes)
    requires forall k | k in order :: k in am
    ensures out == JoinKeys(am, order)
  {
    out := [];
    var i := 0;
    assert order[0..] == order;
    while i < |order|
      invariant 0 <= i <= |order|
      invariant out + JoinKeys(am, order[i..]) == JoinKeys(am, order)
    {
      assert order[i..][0] == order[i] && order[i..][1..] == order[i + 1..];
      assert out + (am[order[i]] + JoinKeys(am, order[i + 1..])) == out + am[order[i]] + JoinKeys(am, order[i + 1..]);
      out := out + am[order[i]];
      i := i + 1;
    }
  }

  // ------------------------------------------------------------ orders of keys

  ghost predicate IsKey(k: bytes, loc: Loc) {
    loc.state < NUM_STATES && PathOk(loc.path) && k == KeyOf(loc)
  }

  /** Traversal order of keys, with the end-of-document key on top. */
  ghost predicate Precedes(a: bytes, b: bytes) {
    (a != END_OF_DOCUMENT_KEY && b == END_OF_DOCUMENT_KEY)
    || exists x: Loc, y: Loc :: IsKey(a, x) && IsKey(b, y) && Cmp(x, y) < 0
  }

  ghost predicate InKeyOrder(ks: seq<bytes>) {
    forall i, j :: 0 <= i < j < |ks| ==> Precedes(ks[i], ks[j])
  }

  ghost predicate InByteOrder(ks: seq<bytes>) {
    forall i, j :: 0 <= i < j < |ks| ==> Lex(ks[i], ks[j]) < 0
  }

  lemma NotBoth(a: bytes, b: bytes)
    ensures !(Precedes(a, b) && Precedes(b, a))
    ensures !(Lex(a, b) < 0 && Lex(b, a) < 0)
  {
    LexAntisymmetric(a, b);
    hide Cmp, KeyOf;
    if Precedes(a, b) && Precedes(b, a) && a != END_OF_DOCUMENT_KEY && b != END_OF_DOCUMENT_KEY {
      var x, y :| IsKey(a, x) && IsKey(b, y) && Cmp(x, y) < 0;
      var y', x' :| IsKey(b, y') && IsKey(a, x') && Cmp(y', x') < 0;
      KeyInjective(x, x');
      KeyInjective(y, y');
      CmpTotalOrder(x, y, y);
    }
    EndIsNoKey(a);
    EndIsNoKey(b);
  }

  lemma EndIsNoKey(k: bytes)
    ensures k == END_OF_DOCUMENT_KEY ==> forall x: Loc :: !IsKey(k, x)
  {
    hide EncPath;
    forall x: Loc | PathOk(x.path) ensures KeyOf(x)[0] == x.state {
    }
  }

  /** Two orderings of the same keys by a strict order are the same sequence. */
  lemma {:induction false} OrderUnique(ks: seq<bytes>, ls: seq<bytes>, byBytes: bool)
    requires if byBytes then InByteOrder(ks) && InByteOrder(ls) else InKeyOrder(ks) && InKeyOrder(ls)
    requires forall k :: k in ks <==> k in ls
    ensures ks == ls
    decreases |ks|
  {
    hide Precedes, Lex;
    FirstIsMember(ks);
    FirstIsMember(ls);
    if ks != [] && ls != [] {
      assert ks[0] in ls;
      assert ls[0] in ks;
      var i :| 0 <= i < |ls| && ls[i] == ks[0];
      var j :| 0 <= j < |ks| && ks[j] == ls[0];
      NotBoth(ks[0], ls[0]);
      assert ks[0] == ls[0];
      TailMembers(ks, byBytes);
      TailMembers(ls, byBytes);
      OrderUnique(ks[1..], ls[1..], byBytes);
      assert ks == [ks[0]] + ks[1..] && ls == [ls[0]] + ls[1..];
    }
  }

  lemma FirstIsMember(ks: seq<bytes>)
    ensures ks == [] || ks[0] in ks
  {
  }

  lemma TailMembers(ks: seq<bytes>, byBytes: bool)
    requires ks != [] && if byBytes then InByteOrder(ks) else InKeyOrder(ks)
    ensures forall k :: k in ks[1..] <==> k in ks && k != ks[0]
    ensures if byBytes then InByteOrder(ks[1..]) else InKeyOrder(ks[1..])
  {
    hide Precedes, Lex;
    NotBoth(ks[0], ks[0]);
    forall k | k in ks[1..] ensures k in ks && k != ks[0] {
      var i :| 0 <= i < |ks[1..]| && ks[1..][i] == k;
      assert ks[i + 1] == k;
    }
    forall k | k in ks && k != ks[0] ensures k in ks[1..] {
      var i :| 0 <= i < |ks| && ks[i] == k;
      assert ks[1..][i - 1] == k;
    }
  }

  // ------------------------------------------------------------- keys of chunks

  function KeysOf(cs: seq<Chunk>): (ks: seq<bytes>)
    ensures |ks| == |cs| && forall i :: 0 <= i < |cs| ==> ks[i] == cs[i].key
  {
    if cs == [] then [] else [cs[0].key] + KeysOf(cs[1..])
  }

  ghost predicate Distinct(cs: seq<Chunk>) {
    forall i, j :: 0 <= i < j < |cs| ==> cs[i].key != cs[j].key
  }

  lemma {:induction false} IndexKeys(cs: seq<Chunk>)
    ensures forall k :: k in AddressMap(cs) <==> k in KeysOf(cs)
    decreases |cs|
  {
    hide KeysOf;
    if cs != [] {
      var init, last := cs[..|cs| - 1], cs[|cs| - 1];
      IndexKeys(init);
      assert KeysOf(cs) == KeysOf(init) + [last.key];
      assert AddressMap(cs) == AddressMap(init)[last.key := last.data];
    }
  }

  lemma {:induction false} IndexData(cs: seq<Chunk>, i: nat)
    requires Distinct(cs) && i < |cs|
    ensures cs[i].key in AddressMap(cs) && AddressMap(cs)[cs[i].key] == cs[i].data
    decreases |cs|
  {
    if i < |cs| - 1 {
      IndexData(cs[..|cs| - 1], i);
      assert cs[i].key != cs[|cs| - 1].key;
    }
  }

  /** In the order the chunks were cut, the index gives back the chunks. */
  lemma {:induction false} JoinInEmissionOrder(am: map<bytes, bytes>, cs: seq<Chunk>)
    requires forall i :: 0 <= i < |cs| ==> cs[i].key in am && am[cs[i].key] == cs[i].data
    ensures (forall k | k in KeysOf(cs) :: k in am) && JoinKeys(am, KeysOf(cs)) == Join(cs)
    decreases |cs|
  {
    forall k | k in KeysOf(cs) ensures k in am {
      var i :| 0 <= i < |cs| && KeysOf(cs)[i] == k;
    }
    if cs != [] {
      assert forall i :: 0 <= i < |cs[1..]| ==> cs[1..][i] == cs[i + 1];
      JoinInEmissionOrder(am, cs[1..]);
      assert KeysOf(cs)[1..] == KeysOf(cs[1..]);
    }
  }

  // ----------------------------------------------------------------- round trip

  /** Object keys everywhere in v are free of marker bytes. */
  predicate NamesOk(v: Value)
    decreases v
  {
    v.Node? ==> FieldNamesOk(v.isArray, v.fields)
  }

  predicate FieldNamesOk(isArray: bool, fs: Fields)
    decreases fs
  {
    fs.Field? ==> (isArray || NoMarks(fs.name)) && NamesOk(fs.value) && FieldNamesOk(isArray, fs.rest)
  }

  ghost predicate PathsOk(es: seq<Event>) {
    forall i :: 0 <= i < |es| ==> PathOk(es[i].loc.path) && es[i].loc.state < NUM_STATES
  }

  lemma PathsOkConcat(es: seq<Event>, fs: seq<Event>)
    requires PathsOk(es) && PathsOk(fs)
    ensures PathsOk(es + fs)
  {
    forall i | 0 <= i < |es + fs| ensures PathOk((es + fs)[i].loc.path) && (es + fs)[i].loc.state < NUM_STATES {
      if i >= |es| {
        assert (es + fs)[i] == fs[i - |es|];
      }
    }
  }

  lemma {:induction false} BodyPathsOk(path: Path, v: Value, p: nat)
    requires PathOk(path) && NamesOk(v) && |Enc(v)| < U32
    ensures PathsOk(BodyEvents(path, v, p))
    decreases v
  {
    if v.Node? && v.fields.Field? {
      NodeSize(v);
      CountFits(v.fields);
      var a, b, c := [Event(Loc(Initial(v.isArray), path), p + 4)], FieldEvents(path, v.isArray, 0, v.fields, p + 4),
                     [Event(Loc(END_OF_VALUE, path), p + |Enc(v)|)];
      FieldPathsOk(path, v.isArray, 0, v.fields, p + 4);
      PathsOkConcat(a, b);
      PathsOkConcat(a + b, c);
    }
  }

  lemma {:induction false} FieldPathsOk(path: Path, isArray: bool, idx: nat, fs: Fields, p: nat)
    requires PathOk(path) && FieldNamesOk(isArray, fs) && |EncFields(fs)| < U32 && idx + Count(fs) < U64
    ensures PathsOk(FieldEvents(path, isArray, idx, fs, p))
    decreases fs
  {
    if fs.Field? {
      var here, q := path + [StepTo(isArray, idx, fs.name)], p + 2 + |fs.name|;
      EntrySize(fs);
      assert PathOk(here);
      BodyPathsOk(here, fs.value, q);
      FieldPathsOk(path, isArray, idx + 1, fs.rest, q + |Enc(fs.value)|);
      var a, b, c := [Event(Loc(START_OF_VALUE, here), q)], BodyEvents(here, fs.value, q),
                     FieldEvents(path, isArray, idx + 1, fs.rest, q + |Enc(fs.value)|);
      PathsOkConcat(a, b);
      PathsOkConcat(a + b, c);
    }
  }

  /** k is the key of the end of a value at e. */
  ghost predicate EndKey(k: bytes, e: Event) {
    PathFits(e.loc.path) && e.loc.state == END_OF_VALUE && k == KeyOf(e.loc)
  }

  /** Every cut key is the end key of an event, save the end-of-document key. */
  lemma {:induction false} CutKeys(w: Weibull, buf: bytes, es: seq<Event>, start: nat)
    requires start <= |buf| && EventsFit(es, start, |buf|) && InOrder(es) && PathsOk(es)
    ensures var cs := CutChunks(w, buf, es, start);
            InKeyOrder(KeysOf(cs))
            && forall k | k in KeysOf(cs) :: k == END_OF_DOCUMENT_KEY
                 || exists i :: 0 <= i < |es| && EndKey(k, es[i])
    decreases |es|
  {
    hide Cmp, KeyOf, CutsAt, Precedes;
    if es != [] {
      CutStep(w, buf, es, start);
      assert InOrder(es[1..]) && PathsOk(es[1..]) by {
        assert forall i :: 0 <= i < |es[1..]| ==> es[1..][i] == es[i + 1];
      }
      var next := if CutsAt(w, es[0], start) then es[0].pos else start;
      CutKeys(w, buf, es[1..], next);
      var cs := CutChunks(w, buf, es[1..], next);
      forall k | k in KeysOf(cs) && k != END_OF_DOCUMENT_KEY
        ensures exists i :: 0 < i < |es| && EndKey(k, es[i])
      {
        var i :| 0 <= i < |es[1..]| && EndKey(k, es[1..][i]);
        assert es[1..][i] == es[i + 1];
      }
      if CutsAt(w, es[0], start) {
        assert es[0].loc.state == END_OF_VALUE by { CutIsEnd(w, es[0], start); }
        FirstKeyFirst(es, KeysOf(cs));
        var c := Chunk(KeyOf(es[0].loc), buf[start..es[0].pos]);
        assert KeysOf([c] + cs) == [c.key] + KeysOf(cs) by { assert ([c] + cs)[1..] == cs; }
      }
    }
  }

  lemma CutIsEnd(w: Weibull, e: Event, start: int)
    requires PathFits(e.loc.path) && CutsAt(w, e, start)
    ensures e.loc.state == END_OF_VALUE
  {
  }

  /** The key of the first event precedes the keys of later ones. */
  lemma FirstKeyFirst(es: seq<Event>, ks: seq<bytes>)
    requires es != [] && InOrder(es) && PathsOk(es)
    requires forall k | k in ks && k != END_OF_DOCUMENT_KEY :: exists i :: 0 < i < |es| && EndKey(k, es[i])
    requires InKeyOrder(ks)
    ensures InKeyOrder([KeyOf(es[0].loc)] + ks)
  {
    hide Cmp, KeyOf;
    var k0 := KeyOf(es[0].loc);
    assert IsKey(k0, es[0].loc);
    EndIsNoKey(k0);
    forall j | 0 <= j < |ks| ensures Precedes(k0, ks[j]) {
      if ks[j] != END_OF_DOCUMENT_KEY {
        assert ks[j] in ks;
        var i :| 0 < i < |es| && EndKey(ks[j], es[i]);
        assert IsKey(ks[j], es[i].loc) && Cmp(es[0].loc, es[i].loc) < 0;
      }
    }
    var all := [k0] + ks;
    forall i, j | 0 <= i < j < |all| ensures Precedes(all[i], all[j]) {
      assert all[j] == ks[j - 1];
      assert i > 0 ==> all[i] == ks[i - 1];
    }
  }

  lemma OrderedIsDistinct(cs: seq<Chunk>)
    requires InKeyOrder(KeysOf(cs))
    ensures Distinct(cs)
  {
    hide Precedes;
    forall i, j | 0 <= i < j < |cs| ensures cs[i].key != cs[j].key {
      assert Precedes(KeysOf(cs)[i], KeysOf(cs)[j]);
      NotBoth(cs[i].key, cs[j].key);
    }
  }

  /** What the round trip is claimed of: ascending names, free of marker bytes. */
  ghost predicate Indexable(doc: Value) {
    Tree.Document(doc) && Sorted(doc) && NamesOk(doc)
  }

  /** The chunks of a document, in the order they are cut. */
  ghost function ChunksOf(w: Weibull, doc: Value): seq<Chunk>
    requires Tree.Document(doc)
  {
    DocFits(doc);
    CutChunks(w, Enc(doc), DocEvents(doc), 0)
  }

  /** The cut keys strictly increase, for every document and boundary decision. */
  lemma ChunkKeysIncrease(w: Weibull, doc: Value)
    requires Indexable(doc)
    ensures InKeyOrder(KeysOf(ChunksOf(w, doc)))
    ensures forall k | k in KeysOf(ChunksOf(w, doc)) :: k == END_OF_DOCUMENT_KEY
              || exists i :: 0 <= i < |DocEvents(doc)| && EndKey(k, DocEvents(doc)[i])
  {
    hide EndKey, InKeyOrder, InOrder, EventsFit, CutChunks, Enc;
    DocFits(doc);
    if doc.fields.Field? {
      ScanOrder(doc);
      BodyPathsOk([], doc, 0);
      assert DocEvents(doc) == BodyEvents([], doc, 0);
      CutKeys(w, Enc(doc), DocEvents(doc), 0);
    } else {
      EmptyDocument(w, doc);
      SingleKey(ChunksOf(w, doc)[0]);
    }
  }

  lemma SingleKey(c: Chunk)
    ensures KeysOf([c]) == [c.key] && InKeyOrder(KeysOf([c]))
  {
  }

  lemma EmptyDocument(w: Weibull, doc: Value)
    requires Tree.Document(doc) && doc.fields.End?
    ensures ChunksOf(w, doc) == [Chunk(END_OF_DOCUMENT_KEY, Enc(doc))]
  {
    var es, buf := DocEvents(doc), Enc(doc);
    DocFits(doc);
    NodeSize(doc);
    CutStep(w, buf, es, 0);
    CutStep(w, buf, es[1..], 0);
    assert es[1..][1..] == [];
    assert buf[0..] == buf;
  }

  /**
   The round trip: iterate the index of a document's chunks in traversal order of
   the keys, the end-of-document key last, and the document's bytes come back.
   */
  lemma RoundTrip(w: Weibull, doc: Value, order: seq<bytes>)
    requires Indexable(doc)
    requires InKeyOrder(order) && forall k :: k in order <==> k in AddressMap(ChunksOf(w, doc))
    ensures JoinKeys(AddressMap(ChunksOf(w, doc)), order) == Enc(doc)
  {
    hide Enc, DocEvents, InKeyOrder;
    var cs := ChunksOf(w, doc);
    ChunkKeysIncrease(w, doc);
    IndexKeys(cs);
    OrderUnique(order, KeysOf(cs), false);
    EmissionOrderReadsBack(w, doc);
  }

  lemma EmissionOrderReadsBack(w: Weibull, doc: Value)
    requires Indexable(doc)
    ensures var cs := ChunksOf(w, doc);
            (forall k | k in KeysOf(cs) :: k in AddressMap(cs)) && JoinKeys(AddressMap(cs), KeysOf(cs)) == Enc(doc)
  {
    hide Enc, DocEvents, InKeyOrder, ChunksOf;
    ChunkKeysIncrease(w, doc);
    OrderedReadsBack(w, doc);
  }

  lemma OrderedReadsBack(w: Weibull, doc: Value)
    requires Tree.Document(doc) && InKeyOrder(KeysOf(ChunksOf(w, doc)))
    ensures var cs := ChunksOf(w, doc);
            (forall k | k in KeysOf(cs) :: k in AddressMap(cs)) && JoinKeys(AddressMap(cs), KeysOf(cs)) == Enc(doc)
  {
    hide Enc, DocEvents, InKeyOrder;
    var cs := ChunksOf(w, doc);
    OrderedIsDistinct(cs);
    forall i | 0 <= i < |cs| ensures cs[i].key in AddressMap(cs) && AddressMap(cs)[cs[i].key] == cs[i].data {
      IndexData(cs, i);
    }
    JoinInEmissionOrder(AddressMap(cs), cs);
    DocFits(doc);
    ChunksPartition(w, Enc(doc), DocEvents(doc), 0);
    assert Enc(doc)[0..] == Enc(doc);
  }

  /**
   Whatever its names, a document's chunks come in the order they were cut, so that it is
   read back, exactly when the keys they were cut under are themselves in traversal order.
   */
  lemma KeyIterationIsEmissionOrder(w: Weibull, doc: Value, order: seq<bytes>)
    requires Tree.Document(doc)
    requires InKeyOrder(order) && forall k :: k in order <==> k in AddressMap(ChunksOf(w, doc))
    ensures order == KeysOf(ChunksOf(w, doc)) <==> InKeyOrder(KeysOf(ChunksOf(w, doc)))
    ensures InKeyOrder(KeysOf(ChunksOf(w, doc))) ==> JoinKeys(AddressMap(ChunksOf(w, doc)), order) == Enc(doc)
  {
    hide Enc, DocEvents, InKeyOrder, ChunksOf;
    var ks := KeysOf(ChunksOf(w, doc));
    IndexKeys(ChunksOf(w, doc));
    if InKeyOrder(ks) {
      OrderUnique(order, ks, false);
      OrderedReadsBack(w, doc);
    }
  }

  // ------------------------------------------------------------ plain byte order

  /** The path of the place whose end was cut under k. */
  ghost predicate EndPath(k: bytes, p: Path) {
    PathOk(p) && k == KeyOf(Loc(END_OF_VALUE, p))
  }

  /** Some cut key overtakes an earlier one in byte order. */
  ghost predicate SomeOvertaken(ks: seq<bytes>) {
    exists i, j, p, q :: 0 <= i < j < |ks| && EndPath(ks[i], p) && EndPath(ks[j], q) && Overtaken(p, q)
  }

  /** ks are end keys, the last one possibly the end-of-document key. */
  ghost predicate CutKeysOnly(ks: seq<bytes>) {
    forall k | k in ks :: k == END_OF_DOCUMENT_KEY || exists p :: EndPath(k, p)
  }

  lemma OvertakenIsLess(a: bytes, b: bytes, p: Path, q: Path)
    requires EndPath(a, p) && EndPath(b, q) && Precedes(a, b)
    ensures Lex(a, b) < 0 <==> !Overtaken(p, q)
  {
    hide Cmp, EncPath;
    EndIsNoKey(b);
    assert IsKey(b, Loc(END_OF_VALUE, q));
    var x, y :| IsKey(a, x) && IsKey(b, y) && Cmp(x, y) < 0;
    KeyInjective(x, Loc(END_OF_VALUE, p));
    KeyInjective(y, Loc(END_OF_VALUE, q));
    ByteOrderOfPaths(p, q);
    LexCommonPrefix([END_OF_VALUE], EncPath(p), EncPath(q));
  }

  lemma EndKeyIsGreatest(a: bytes, p: Path)
    requires EndPath(a, p)
    ensures Lex(a, END_OF_DOCUMENT_KEY) < 0
  {
    hide EncPath;
  }

  /** Keys in traversal order are in byte order exactly when none overtakes another. */
  lemma ByteOrderIffNoneOvertaken(ks: seq<bytes>)
    requires InKeyOrder(ks) && CutKeysOnly(ks)
    ensures InByteOrder(ks) <==> !SomeOvertaken(ks)
  {
    hide Precedes, Lex, Overtaken, EndPath;
    forall i, j, p, q | 0 <= i < j < |ks| && EndPath(ks[i], p) && EndPath(ks[j], q)
      ensures Lex(ks[i], ks[j]) < 0 <==> !Overtaken(p, q)
    {
      OvertakenIsLess(ks[i], ks[j], p, q);
    }
    forall i, j | 0 <= i < j < |ks| && ks[j] == END_OF_DOCUMENT_KEY ensures Lex(ks[i], ks[j]) < 0 {
      NotEndTwice(ks[i], ks[j]);
      assert ks[i] in ks;
      var p :| EndPath(ks[i], p);
      EndKeyIsGreatest(ks[i], p);
    }
    if !SomeOvertaken(ks) {
      forall i, j | 0 <= i < j < |ks| ensures Lex(ks[i], ks[j]) < 0 {
        NotEndTwice(ks[i], ks[j]);
        assert ks[i] in ks && ks[j] in ks;
        if ks[j] != END_OF_DOCUMENT_KEY {
          var p :| EndPath(ks[i], p);
          var q :| EndPath(ks[j], q);
          assert !Overtaken(p, q);
        }
      }
    }
  }

  lemma NotEndTwice(a: bytes, b: bytes)
    requires Precedes(a, b)
    ensures a != END_OF_DOCUMENT_KEY
  {
    EndIsNoKey(a);
  }

  /**
   Iterated in byte order instead, every chunk still comes once. They come in the
   order they were cut, so that the document is read back, exactly when no cut key
   overtakes another: no container's end was cut after the end of something inside
   it, and none of a sibling whose name extends the name of a field something inside
   which was cut.
   */
  lemma ByteIterationIsEmissionOrder(w: Weibull, doc: Value, order: seq<bytes>)
    requires Indexable(doc)
    requires InByteOrder(order) && forall k :: k in order <==> k in AddressMap(ChunksOf(w, doc))
    ensures multiset(order) == multiset(KeysOf(ChunksOf(w, doc)))
    ensures order == KeysOf(ChunksOf(w, doc)) <==> !SomeOvertaken(KeysOf(ChunksOf(w, doc)))
    ensures !SomeOvertaken(KeysOf(ChunksOf(w, doc))) ==> JoinKeys(AddressMap(ChunksOf(w, doc)), order) == Enc(doc)
  {
    hide Enc, DocEvents, InKeyOrder, InByteOrder, SomeOvertaken, EndKey, ChunksOf, EndPath;
    var ks := KeysOf(ChunksOf(w, doc));
    ChunkKeysIncrease(w, doc);
    EndKeysArePaths(w, doc);
    ByteOrderIffNoneOvertaken(ks);
    IndexKeys(ChunksOf(w, doc));
    OrderedOnce(order, true);
    OrderedOnce(ks, false);
    assert (set k | k in order) == (set k | k in ks);
    if InByteOrder(ks) {
      OrderUnique(order, ks, true);
      EmissionOrderReadsBack(w, doc);
    }
  }

  /** An ordered list of keys holds each of them once. */
  lemma {:induction false} OrderedOnce(ks: seq<bytes>, byBytes: bool)
    requires if byBytes then InByteOrder(ks) else InKeyOrder(ks)
    ensures multiset(ks) == multiset(set k | k in ks)
    decreases |ks|
  {
    hide InByteOrder, InKeyOrder;
    if ks != [] {
      TailMembers(ks, byBytes);
      OrderedOnce(ks[1..], byBytes);
      assert (set k | k in ks) == {ks[0]} + set k | k in ks[1..];
      assert ks == [ks[0]] + ks[1..];
    }
  }

  lemma EndKeysArePaths(w: Weibull, doc: Value)
    requires Indexable(doc)
    ensures CutKeysOnly(KeysOf(ChunksOf(w, doc)))
  {
    hide ChunksOf, KeyOf;
    ChunkKeysIncrease(w, doc);
    var es := DocEvents(doc);
    if doc.fields.Field? {
      BodyPathsOk([], doc, 0);
      assert es == BodyEvents([], doc, 0);
    }
    assert PathsOk(es);
    forall k | k in KeysOf(ChunksOf(w, doc)) && k != END_OF_DOCUMENT_KEY ensures exists p :: EndPath(k, p) {
      var i :| 0 <= i < |es| && EndKey(k, es[i]);
      assert EndPath(k, es[i].loc.path);
    }
  }
}
