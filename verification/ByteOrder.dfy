/**
 A document whose chunks do not read back when the index is iterated in plain byte
 order: whatever the hash decides, { a: { b: <16400 bytes> }, "a!": <16400 bytes> }
 is cut behind a.b and behind a!, and the key of the second cut is the smaller one.
 */
module ByteOrder {
  import opened Bytes
  import opened Tree
  import opened Edits
  import opened Varint
  import opened Keys
  import opened Events
  import opened Chunker
  import opened IndexedDocument

  const SIZE: int := 16400

  function Binary(b: byte): Value {
    Scalar(0x05, Le32(SIZE) + [0] + seq(SIZE, _ => b))
  }

  const NAME_A: bytes := [97]
  const NAME_B: bytes := [98]
  const NAME_A_BANG: bytes := [97, 33]

  function Inner(): Value { Node(false, Field(NAME_B, Binary(0), End)) }

  function Example(): Value {
    Node(false, Field(NAME_A, Inner(), Field(NAME_A_BANG, Binary(1), End)))
  }

  const KEY_AB: bytes := [END_OF_VALUE, BEGIN_OBJECT_KEY, 97, BEGIN_OBJECT_KEY, 98]
  const KEY_A_BANG: bytes := [END_OF_VALUE, BEGIN_OBJECT_KEY, 97, 33]

  lemma BinarySize(b: byte)
    ensures |Enc(Binary(b))| == SIZE + 5 && Wf(Binary(b))
  {
    var raw := Binary(b).raw;
    assert Read32(raw) == Read32(Le32(SIZE));
  }

  lemma InnerSize()
    ensures |Enc(Inner())| == SIZE + 13 && Wf(Inner()) && Enc(Inner())[SIZE + 12] == 0
    ensures Inner().fields.Field? && Inner().fields.rest == End
  {
    BinarySize(0);
    hide Binary;
    EntrySize(Inner().fields);
    NodeSize(Inner());
  }

  lemma ExampleSize()
    ensures |Enc(Example())| == 2 * SIZE + 30 && Indexable(Example())
    ensures Enc(Example())[0] == 62 && Enc(Example())[SIZE + 19] == 0
  {
    InnerSize();
    BinarySize(1);
    hide Inner, Binary;
    var fs := Example().fields;
    EntrySize(fs);
    EntrySize(fs.rest);
    NodeSize(Example());
    assert Enc(Example())[0] == Le32(2 * SIZE + 30)[0] == 62;
    FirstEntry(Example(), SIZE + 12);
    assert Sorted(Example()) && NamesOk(Example()) by { ExampleSorted(); }
  }

  lemma ExampleSorted()
    ensures Sorted(Example()) && NamesOk(Example())
  {
    assert Lex(NAME_A, NAME_A_BANG) < 0 by {
      LexCommonPrefix(NAME_A, [], [33]);
      assert NAME_A == NAME_A + [] && NAME_A_BANG == NAME_A + [33];
    }
    OneScalar(NAME_B, Binary(0));
    OneScalar(NAME_A_BANG, Binary(1));
  }

  lemma OneScalar(name: bytes, v: Value)
    requires v.Scalar? && NoMarks(name)
    ensures var fs := Field(name, v, End);
            SortedFields(fs) && Ascending(fs) && FieldNamesOk(false, fs)
            && Sorted(Node(false, fs)) && NamesOk(Node(false, fs))
  {
  }

  /** A byte of the first field's value, seen in the container. */
  lemma FirstEntry(v: Value, k: nat)
    requires v.Node? && v.fields.Field? && k < |Enc(v.fields.value)|
    ensures |Enc(v)| > 4 + 2 + |v.fields.name| + k && Enc(v)[4 + 2 + |v.fields.name| + k] == Enc(v.fields.value)[k]
  {
    var fs := v.fields;
    NodeSize(v);
    EntrySize(fs);
    assert EncFields(fs)[2 + |fs.name| + k] == EncEntry(fs.name, fs.value)[2 + |fs.name| + k] == Enc(fs.value)[k];
  }

  /** The events of the example, up to and behind its two cuts. */
  function ExampleEvents(): seq<Event> {
    var a, ab, bang := [Key(NAME_A)], [Key(NAME_A), Key(NAME_B)], [Key(NAME_A_BANG)];
    [Event(Loc(OBJECT_INITIAL, []), 4), Event(Loc(START_OF_VALUE, a), 7), Event(Loc(OBJECT_INITIAL, a), 11),
     Event(Loc(START_OF_VALUE, ab), 14), Event(Loc(END_OF_VALUE, ab), SIZE + 19),
     Event(Loc(END_OF_VALUE, a), SIZE + 20),
     Event(Loc(START_OF_VALUE, bang), SIZE + 24), Event(Loc(END_OF_VALUE, bang), 2 * SIZE + 29),
     Event(Loc(END_OF_VALUE, []), 2 * SIZE + 30)]
  }

  /** The events of a field that holds a scalar, the last of its container. */
  lemma ScalarField(path: Path, idx: nat, name: bytes, v: Value, p: nat)
    requires v.Scalar?
    ensures var here, q := path + [Key(name)], p + 2 + |name|;
            FieldEvents(path, false, idx, Field(name, v, End), p)
            == [Event(Loc(START_OF_VALUE, here), q), Event(Loc(END_OF_VALUE, here), q + |Enc(v)|)]
  {
    hide Enc;
  }

  /** The events of a field that holds a container with fields. */
  lemma ContainerField(path: Path, idx: nat, name: bytes, v: Value, rest: Fields, p: nat, es: seq<Event>,
                       fs: seq<Event>)
    requires v.Node? && !v.isArray && v.fields.Field?
    requires es == FieldEvents(path + [Key(name)], false, 0, v.fields, p + 6 + |name|)
    requires fs == FieldEvents(path, false, idx + 1, rest, p + 2 + |name| + |Enc(v)|)
    ensures var here, q := path + [Key(name)], p + 2 + |name|;
            FieldEvents(path, false, idx, Field(name, v, rest), p)
            == [Event(Loc(START_OF_VALUE, here), q)]
               + ([Event(Loc(OBJECT_INITIAL, here), q + 4)] + es + [Event(Loc(END_OF_VALUE, here), q + |Enc(v)|)]) + fs
  {
    hide Enc;
  }

  lemma ExampleEventsRight()
    ensures DocEvents(Example()) == ExampleEvents()
  {
    ExampleSize();
    InnerSize();
    BinarySize(0);
    BinarySize(1);
    hide Enc, FieldEvents;
    var a, ab, bang := [Key(NAME_A)], [Key(NAME_A), Key(NAME_B)], [Key(NAME_A_BANG)];
    assert a + [Key(NAME_B)] == ab && [] + a == a && [] + bang == bang;
    ScalarField(a, 0, NAME_B, Binary(0), 11);
    ScalarField([], 1, NAME_A_BANG, Binary(1), SIZE + 20);
    ContainerField([], 0, NAME_A, Inner(), Field(NAME_A_BANG, Binary(1), End), 4,
                   [Event(Loc(START_OF_VALUE, ab), 14), Event(Loc(END_OF_VALUE, ab), SIZE + 19)],
                   [Event(Loc(START_OF_VALUE, bang), SIZE + 24), Event(Loc(END_OF_VALUE, bang), 2 * SIZE + 29)]);
  }

  lemma ExampleKeys()
    ensures KeyOf(Loc(END_OF_VALUE, [Key(NAME_A), Key(NAME_B)])) == KEY_AB
    ensures KeyOf(Loc(END_OF_VALUE, [Key(NAME_A_BANG)])) == KEY_A_BANG
    ensures InByteOrder([KEY_A_BANG, KEY_AB, END_OF_DOCUMENT_KEY])
  {
    var p, q := [Key(NAME_A), Key(NAME_B)], [Key(NAME_A_BANG)];
    assert p[1..] == [Key(NAME_B)] && p[1..][1..] == [] && q[1..] == [];
    assert EncPath(p) == [BEGIN_OBJECT_KEY, 97] + EncPath(p[1..]);
    assert EncPath(p[1..]) == [BEGIN_OBJECT_KEY, 98] + [];
    var c: bytes := [END_OF_VALUE, BEGIN_OBJECT_KEY, 97];
    LexCommonPrefix(c, [33], [BEGIN_OBJECT_KEY, 98]);
    assert KEY_A_BANG == c + [33] && KEY_AB == c + [BEGIN_OBJECT_KEY, 98];
  }

  lemma ExampleChunks(w: Weibull)
    ensures var buf := Enc(Example());
            |buf| == 2 * SIZE + 30 && Tree.Document(Example())
            && ChunksOf(w, Example())
               == [Chunk(KEY_AB, buf[0..SIZE + 19]), Chunk(KEY_A_BANG, buf[SIZE + 19..2 * SIZE + 29]),
                                          Chunk(END_OF_DOCUMENT_KEY, buf[2 * SIZE + 29..])]
  {
    hide Enc, EventsFit, KeyOf, Example, CutChunks, ExampleEvents, DocEvents, InByteOrder;
    ExampleSize();
    ExampleEventsRight();
    ExampleKeys();
    var buf, es := Enc(Example()), ExampleEvents();
    DocFits(Example());
    FirstCut(w, buf, es);
    SecondCut(w, buf, es);
    var c1, c2, c3 := Chunk(KEY_AB, buf[0..SIZE + 19]), Chunk(KEY_A_BANG, buf[SIZE + 19..2 * SIZE + 29]),
                      Chunk(END_OF_DOCUMENT_KEY, buf[2 * SIZE + 29..]);
    assert [c1] + ([c2] + [c3]) == [c1, c2, c3];
  }

  lemma FirstCut(w: Weibull, buf: bytes, es: seq<Event>)
    requires |buf| == 2 * SIZE + 30 && EventsFit(es, 0, |buf|) && es == ExampleEvents()
    requires KeyOf(Loc(END_OF_VALUE, [Key(NAME_A), Key(NAME_B)])) == KEY_AB
    ensures EventsFit(es[5..], SIZE + 19, |buf|)
    ensures CutChunks(w, buf, es, 0) == [Chunk(KEY_AB, buf[0..SIZE + 19])] + CutChunks(w, buf, es[5..], SIZE + 19)
  {
    hide EventsFit, KeyOf, CutChunks;
    assert es[0..] == es;
    var i := 0;
    while i < 4
      invariant 0 <= i <= 4 && EventsFit(es[i..], 0, |buf|) && CutChunks(w, buf, es, 0) == CutChunks(w, buf, es[i..], 0)
    {
      assert es[i..][0] == es[i] && es[i..][1..] == es[i + 1..];
      CutStep(w, buf, es[i..], 0);
      i := i + 1;
    }
    assert es[4..][0] == es[4] && es[4..][1..] == es[5..];
    CutStep(w, buf, es[4..], 0);
  }

  lemma SecondCut(w: Weibull, buf: bytes, es: seq<Event>)
    requires |buf| == 2 * SIZE + 30 && es == ExampleEvents() && EventsFit(es[5..], SIZE + 19, |buf|)
    requires KeyOf(Loc(END_OF_VALUE, [Key(NAME_A_BANG)])) == KEY_A_BANG
    ensures CutChunks(w, buf, es[5..], SIZE + 19)
         == [Chunk(KEY_A_BANG, buf[SIZE + 19..2 * SIZE + 29])] + [Chunk(END_OF_DOCUMENT_KEY, buf[2 * SIZE + 29..])]
  {
    hide EventsFit, KeyOf, CutChunks;
    var i := 5;
    while i < 7
      invariant 5 <= i <= 7 && EventsFit(es[i..], SIZE + 19, |buf|)
      invariant CutChunks(w, buf, es[5..], SIZE + 19) == CutChunks(w, buf, es[i..], SIZE + 19)
    {
      assert es[i..][0] == es[i] && es[i..][1..] == es[i + 1..];
      CutStep(w, buf, es[i..], SIZE + 19);
      i := i + 1;
    }
    assert es[7..][0] == es[7] && es[7..][1..] == es[8..];
    CutStep(w, buf, es[7..], SIZE + 19);
    assert es[8..][0] == es[8] && es[8..][1..] == [];
    CutStep(w, buf, es[8..], 2 * SIZE + 29);
    NothingMore(w, buf, 2 * SIZE + 29);
  }

  lemma NothingMore(w: Weibull, buf: bytes, start: nat)
    requires start < |buf| && EventsFit([], start, |buf|)
    ensures CutChunks(w, buf, [], start) == [Chunk(END_OF_DOCUMENT_KEY, buf[start..])]
  {
  }

  /**
   Byte order does not give the document back, for any boundary decision: the chunk
   of "a!" comes first.
   */
  lemma ByteIterationScrambles(w: Weibull)
    ensures Indexable(Example())
    ensures var am, order := AddressMap(ChunksOf(w, Example())), [KEY_A_BANG, KEY_AB, END_OF_DOCUMENT_KEY];
            InByteOrder(order) && (forall k :: k in order <==> k in am) && JoinKeys(am, order) != Enc(Example())
  {
    ExampleSize();
    ExampleKeys();
    ExampleChunks(w);
    hide Example, Enc, KeyOf, ChunksOf, InByteOrder;
    var buf, cs := Enc(Example()), ChunksOf(w, Example());
    var am, order := AddressMap(cs), [KEY_A_BANG, KEY_AB, END_OF_DOCUMENT_KEY];
    IndexKeys(cs);
    assert KeysOf(cs) == [KEY_AB, KEY_A_BANG, END_OF_DOCUMENT_KEY];
    IndexData(cs, 1);
    assert JoinKeys(am, order)[0] == am[KEY_A_BANG][0] == buf[SIZE + 19];
  }
}
