/**
 A document whose field names do not ascend and whose chunks do not read back in
 traversal order of the keys: whatever the hash decides,
 { b: <16400 bytes>, a: <16400 bytes> } is cut behind b and behind a.
 */
module NameOrder {
  import opened Bytes
  import opened Tree
  import opened Edits
  import opened Varint
  import opened Keys
  import opened Events
  import opened Chunker
  import opened IndexedDocument
  import opened ByteOrder

  function Swapped(): Value {
    Node(false, Field(NAME_B, Binary(0), Field(NAME_A, Binary(1), End)))
  }

  const KEY_A: bytes := [END_OF_VALUE, BEGIN_OBJECT_KEY, 97]
  const KEY_B: bytes := [END_OF_VALUE, BEGIN_OBJECT_KEY, 98]

  lemma SwappedSize()
    ensures |Enc(Swapped())| == 2 * SIZE + 21 && Tree.Document(Swapped()) && NamesOk(Swapped()) && !Sorted(Swapped())
    ensures Enc(Swapped())[0] == 53 && Enc(Swapped())[SIZE + 12] == 0x05
  {
    hide Sorted, NamesOk, Enc, EncFields, Tree.Document, Wf;
    SwappedNames();
    BinarySize(0);
    BinarySize(1);
    TwoFields(NAME_B, Binary(0), NAME_A, Binary(1));
    SecondTag(Swapped());
    assert Le32(2 * SIZE + 21)[0] == 53;
  }

  lemma SwappedNames()
    ensures NamesOk(Swapped()) && !Sorted(Swapped())
  {
    assert Lex(NAME_B, NAME_A) > 0;
    DescendingNames(NAME_B, Binary(0), NAME_A, Binary(1));
  }

  lemma DescendingNames(m: bytes, v: Value, n: bytes, w: Value)
    requires v.Scalar? && w.Scalar? && NoMarks(m) && NoMarks(n) && Lex(m, n) >= 0
    ensures var d := Node(false, Field(m, v, Field(n, w, End)));
            NamesOk(d) && !Sorted(d)
  {
    OneScalar(n, w);
  }

  lemma TwoFields(m: bytes, v: Value, n: bytes, w: Value)
    requires Wf(v) && Wf(w) && NoZero(m) && NoZero(n)
    requires |m| + |n| + |Enc(v)| + |Enc(w)| < 1000000
    ensures var d := Node(false, Field(m, v, Field(n, w, End)));
            |Enc(d)| == |m| + |n| + |Enc(v)| + |Enc(w)| + 9 && Tree.Document(d) && Enc(d)[0] == Le32(|Enc(d)|)[0]
  {
    var d := Node(false, Field(m, v, Field(n, w, End)));
    assert WfFields(d.fields.rest);
    NodeSize(d);
    EntrySize(d.fields);
    EntrySize(d.fields.rest);
  }

  /** The byte behind a container's first field is the type of its second. */
  lemma SecondTag(v: Value)
    requires v.Node? && v.fields.Field? && v.fields.rest.Field?
    ensures var at := 6 + |v.fields.name| + |Enc(v.fields.value)|;
            at < |Enc(v)| && Enc(v)[at] == TagOf(v.fields.rest.value)
  {
    var fs := v.fields;
    NodeSize(v);
    EntrySize(fs);
    EntrySize(fs.rest);
    var tail := EncFields(fs.rest);
    assert tail[0] == EncEntry(fs.rest.name, fs.rest.value)[0] == TagOf(fs.rest.value);
    assert EncFields(fs) == EncEntry(fs.name, fs.value) + tail;
  }

  function SwappedEvents(): seq<Event> {
    var a, b := [Key(NAME_A)], [Key(NAME_B)];
    [Event(Loc(OBJECT_INITIAL, []), 4), Event(Loc(START_OF_VALUE, b), 7), Event(Loc(END_OF_VALUE, b), SIZE + 12),
     Event(Loc(START_OF_VALUE, a), SIZE + 15), Event(Loc(END_OF_VALUE, a), 2 * SIZE + 20),
     Event(Loc(END_OF_VALUE, []), 2 * SIZE + 21)]
  }

  lemma SwappedEventsRight()
    ensures DocEvents(Swapped()) == SwappedEvents()
  {
    SwappedSize();
    BinarySize(0);
    BinarySize(1);
    hide Enc, FieldEvents;
    var a, b := [Key(NAME_A)], [Key(NAME_B)];
    assert [] + a == a && [] + b == b;
    ScalarField([], 1, NAME_A, Binary(1), SIZE + 12);
    FirstEvents([], false, 0, Swapped().fields, 4);
  }

  lemma SwappedKeys()
    ensures KeyOf(Loc(END_OF_VALUE, [Key(NAME_A)])) == KEY_A && KeyOf(Loc(END_OF_VALUE, [Key(NAME_B)])) == KEY_B
    ensures InKeyOrder([KEY_A, KEY_B, END_OF_DOCUMENT_KEY])
  {
    var x, y := Loc(END_OF_VALUE, [Key(NAME_A)]), Loc(END_OF_VALUE, [Key(NAME_B)]);
    assert x.path[1..] == [] && y.path[1..] == [];
    assert EncPath(x.path) == [BEGIN_OBJECT_KEY, 97] + [] && EncPath(y.path) == [BEGIN_OBJECT_KEY, 98] + [];
    assert Lex(NAME_A, NAME_B) < 0;
    assert Cmp(x, y) < 0;
    assert IsKey(KEY_A, x) && IsKey(KEY_B, y);
    assert Precedes(KEY_A, KEY_B);
  }

  lemma FirstPart(w: Weibull, buf: bytes, es: seq<Event>)
    requires |buf| == 2 * SIZE + 21 && EventsFit(es, 0, |buf|) && es == SwappedEvents()
    requires KeyOf(Loc(END_OF_VALUE, [Key(NAME_B)])) == KEY_B
    ensures EventsFit(es[3..], SIZE + 12, |buf|)
    ensures CutChunks(w, buf, es, 0) == [Chunk(KEY_B, buf[0..SIZE + 12])] + CutChunks(w, buf, es[3..], SIZE + 12)
  {
    hide EventsFit, KeyOf, CutChunks;
    assert es[1..][1..] == es[2..] && es[2..][1..] == es[3..];
    CutStep(w, buf, es, 0);
    CutStep(w, buf, es[1..], 0);
    CutStep(w, buf, es[2..], 0);
  }

  lemma SecondPart(w: Weibull, buf: bytes, es: seq<Event>)
    requires |buf| == 2 * SIZE + 21 && es == SwappedEvents() && EventsFit(es[3..], SIZE + 12, |buf|)
    requires KeyOf(Loc(END_OF_VALUE, [Key(NAME_A)])) == KEY_A
    ensures CutChunks(w, buf, es[3..], SIZE + 12)
         == [Chunk(KEY_A, buf[SIZE + 12..2 * SIZE + 20])] + [Chunk(END_OF_DOCUMENT_KEY, buf[2 * SIZE + 20..])]
  {
    hide EventsFit, KeyOf, CutChunks;
    assert es[3..][1..] == es[4..] && es[4..][1..] == es[5..] && es[5..][1..] == [];
    CutStep(w, buf, es[3..], SIZE + 12);
    CutStep(w, buf, es[4..], SIZE + 12);
    CutStep(w, buf, es[5..], 2 * SIZE + 20);
    NothingMore(w, buf, 2 * SIZE + 20);
  }

  lemma SwappedChunks(w: Weibull)
    ensures var buf := Enc(Swapped());
            |buf| == 2 * SIZE + 21 && Tree.Document(Swapped())
            && ChunksOf(w, Swapped())
               == [Chunk(KEY_B, buf[0..SIZE + 12]), Chunk(KEY_A, buf[SIZE + 12..2 * SIZE + 20]),
                   Chunk(END_OF_DOCUMENT_KEY, buf[2 * SIZE + 20..])]
  {
    hide Enc, EventsFit, KeyOf, Swapped, SwappedEvents, CutChunks, DocEvents, InKeyOrder;
    SwappedSize();
    SwappedEventsRight();
    SwappedKeys();
    var buf, es := Enc(Swapped()), SwappedEvents();
    DocFits(Swapped());
    FirstPart(w, buf, es);
    SecondPart(w, buf, es);
    var c1, c2, c3 := Chunk(KEY_B, buf[0..SIZE + 12]), Chunk(KEY_A, buf[SIZE + 12..2 * SIZE + 20]),
                      Chunk(END_OF_DOCUMENT_KEY, buf[2 * SIZE + 20..]);
    assert [c1] + ([c2] + [c3]) == [c1, c2, c3];
  }

  /**
   The round trip needs the names to ascend: this document's chunks, read in
   traversal order of their keys, are not the document.
   */
  lemma DescendingNamesScramble(w: Weibull)
    ensures Tree.Document(Swapped()) && NamesOk(Swapped()) && !Sorted(Swapped())
    ensures var am, order := AddressMap(ChunksOf(w, Swapped())), [KEY_A, KEY_B, END_OF_DOCUMENT_KEY];
            InKeyOrder(order) && (forall k :: k in order <==> k in am) && JoinKeys(am, order) != Enc(Swapped())
  {
    SwappedSize();
    SwappedKeys();
    SwappedChunks(w);
    hide Swapped, Enc, KeyOf, ChunksOf, InKeyOrder;
    var buf, cs := Enc(Swapped()), ChunksOf(w, Swapped());
    var am, order := AddressMap(cs), [KEY_A, KEY_B, END_OF_DOCUMENT_KEY];
    IndexKeys(cs);
    assert KeysOf(cs) == [KEY_B, KEY_A, END_OF_DOCUMENT_KEY];
    IndexData(cs, 1);
    assert JoinKeys(am, order)[0] == am[KEY_A][0] == buf[SIZE + 12];
  }
}
