/**
 How large chunks get, and why an edit disturbs only the chunks around it: behind
 the edited entry both versions of a document have the same work left, and once
 both are cut at the same place in it, every later chunk is the same.
 */
module Resync {
  import opened Bytes
  import opened Tree
  import opened Edits
  import opened Mutation
  import opened Varint
  import opened Keys
  import opened Events
  import opened Scanner
  import opened Chunker
  import opened IndexedDocument

  // ---------------------------------------------------------------------- bounds

  ghost predicate AllFit(es: seq<Event>) {
    forall i :: 0 <= i < |es| ==> PathFits(es[i].loc.path)
  }

  lemma FitsAll(es: seq<Event>, lo: int, hi: int)
    requires EventsFit(es, lo, hi)
    ensures AllFit(es)
  {
  }

  /** For each cut, the distance from the end of value seen before it. */
  ghost function CutSteps(w: Weibull, es: seq<Event>, start: nat, last: nat): seq<int>
    requires AllFit(es)
    decreases |es|
  {
    if es == [] then []
    else if CutsAt(w, es[0], start) then [es[0].pos - last] + CutSteps(w, es[1..], es[0].pos, es[0].pos)
    else CutSteps(w, es[1..], start, if es[0].loc.state == END_OF_VALUE then es[0].pos else last)
  }

  /**
   Every cut chunk holds at least 512 bytes and at most 16384 more than its last
   scan step; what is left for the end-of-document key is at most 16384 bytes.
   */
  ghost predicate Bounded(cs: seq<Chunk>, steps: seq<int>) {
    |steps| <= |cs| <= |steps| + 1
    && (forall i :: 0 <= i < |steps| ==> CutBounded(cs[i], steps[i]))
    && (|cs| == |steps| + 1 ==> cs[|steps|].key == END_OF_DOCUMENT_KEY && 0 < |cs[|steps|].data| <= MAX_CHUNK_SIZE)
  }

  ghost predicate CutBounded(c: Chunk, step: int) {
    c.key != END_OF_DOCUMENT_KEY && MIN_CHUNK_SIZE <= |c.data| <= MAX_CHUNK_SIZE + step
  }

  lemma BoundedCons(c: Chunk, cs: seq<Chunk>, step: int, steps: seq<int>)
    requires CutBounded(c, step) && Bounded(cs, steps)
    ensures Bounded([c] + cs, [step] + steps)
  {
    hide CutBounded;
    forall i | 0 <= i < |[step] + steps| ensures CutBounded(([c] + cs)[i], ([step] + steps)[i]) {
      if i > 0 {
        assert ([c] + cs)[i] == cs[i - 1] && ([step] + steps)[i] == steps[i - 1];
      }
    }
  }

  lemma {:induction false} ChunkBounds(w: Weibull, buf: bytes, es: seq<Event>, start: nat, last: nat)
    requires start <= last <= |buf| < U32 && last - start <= MAX_CHUNK_SIZE && EventsFit(es, last, |buf|)
    requires if es == [] then last == |buf| else es[|es| - 1].loc.state == END_OF_VALUE && es[|es| - 1].pos == |buf|
    ensures EventsFit(es, start, |buf|) && AllFit(es)
    ensures Bounded(CutChunks(w, buf, es, start), CutSteps(w, es, start, last))
    decreases |es|
  {
    FitsAll(es, last, |buf|);
    EventsFitWider(es, last, |buf|, start, |buf|);
    if es != [] {
      hide EventsFit, CutChunks, Bounded, EncPath, PathFits, CutBounded;
      var e, rest := es[0], es[1..];
      EventsFitTail(es, last, |buf|);
      LastIsSame(es);
      CutStep(w, buf, es, start);
      if CutsAt(w, e, start) {
        ChunkBounds(w, buf, rest, e.pos, e.pos);
        CutSize(w, buf, e, start, last);
        BoundedCons(Chunk(KeyOf(e.loc), buf[start..e.pos]), CutChunks(w, buf, rest, e.pos), e.pos - last,
                    CutSteps(w, rest, e.pos, e.pos));
      } else {
        EventsFitWider(rest, e.pos, |buf|, last, |buf|);
        ChunkBounds(w, buf, rest, start, if e.loc.state == END_OF_VALUE then e.pos else last);
      }
    }
  }

  lemma LastIsSame(es: seq<Event>)
    requires es != []
    ensures es[1..] == [] ==> es[|es| - 1] == es[0]
    ensures es[1..] != [] ==> es[1..][|es[1..]| - 1] == es[|es| - 1]
  {
  }

  lemma CutSize(w: Weibull, buf: bytes, e: Event, start: nat, last: nat)
    requires PathFits(e.loc.path) && CutsAt(w, e, start) && start <= last <= e.pos <= |buf| < U32
             && last - start <= MAX_CHUNK_SIZE
    ensures CutBounded(Chunk(KeyOf(e.loc), buf[start..e.pos]), e.pos - last)
  {
    hide EncPath;
    assert KeyOf(e.loc)[0] == END_OF_VALUE;
  }

  /** The chunks of every document are bounded. */
  lemma DocumentChunkBounds(w: Weibull, doc: Value)
    requires Tree.Document(doc)
    ensures AllFit(DocEvents(doc)) && Bounded(ChunksOf(w, doc), CutSteps(w, DocEvents(doc), 0, 0))
  {
    DocFits(doc);
    NodeSize(doc);
    ChunkBounds(w, Enc(doc), DocEvents(doc), 0, 0);
  }

  // ------------------------------------------------------------------- the same cut

  /** fs are the events of es, d bytes further on. */
  ghost predicate Shifted(es: seq<Event>, fs: seq<Event>, d: int) {
    |es| == |fs| && forall i :: 0 <= i < |es| ==> es[i].loc == fs[i].loc && fs[i].pos == es[i].pos + d
  }

  lemma ShiftedConcat(es: seq<Event>, fs: seq<Event>, es': seq<Event>, fs': seq<Event>, d: int)
    requires Shifted(es, fs, d) && Shifted(es', fs', d)
    ensures Shifted(es + es', fs + fs', d)
  {
    forall i | 0 <= i < |es + es'|
      ensures (es + es')[i].loc == (fs + fs')[i].loc && (fs + fs')[i].pos == (es + es')[i].pos + d
    {
      if i >= |es| {
        assert (es + es')[i] == es'[i - |es|] && (fs + fs')[i] == fs'[i - |es|];
      }
    }
  }

  /** Cutting depends on the bytes and events still ahead, not on where they lie. */
  lemma {:induction false} CutShift(w: Weibull, buf: bytes, es: seq<Event>, start: nat, buf': bytes, fs: seq<Event>,
                                    start': nat)
    requires start <= |buf| && EventsFit(es, start, |buf|) && start' <= |buf'| && EventsFit(fs, start', |buf'|)
    requires buf[start..] == buf'[start'..] && Shifted(es, fs, start' - start)
    ensures CutChunks(w, buf, es, start) == CutChunks(w, buf', fs, start')
    decreases |es|
  {
    if es != [] {
      var e, f := es[0], fs[0];
      CutStep(w, buf, es, start);
      CutStep(w, buf', fs, start');
      assert Shifted(es[1..], fs[1..], start' - start);
      assert CutsAt(w, e, start) <==> CutsAt(w, f, start');
      if CutsAt(w, e, start) {
        assert buf[start..e.pos] == buf[start..][..e.pos - start] == buf'[start'..][..f.pos - start']
               == buf'[start'..f.pos];
        assert buf[e.pos..] == buf[start..][e.pos - start..] && buf'[f.pos..] == buf'[start'..][f.pos - start'..];
        CutShift(w, buf, es[1..], e.pos, buf', fs[1..], f.pos);
      } else {
        CutShift(w, buf, es[1..], start, buf', fs[1..], start');
      }
    }
  }

  /** Where the open chunk starts after n events. */
  ghost function StartAfter(w: Weibull, es: seq<Event>, start: nat, n: nat): nat
    requires n <= |es| && AllFit(es)
    decreases n
  {
    if n == 0 then start else StartAfter(w, es[1..], if CutsAt(w, es[0], start) then es[0].pos else start, n - 1)
  }

  /** How many chunks the first n events cut. */
  ghost function CutsIn(w: Weibull, es: seq<Event>, start: nat, n: nat): nat
    requires n <= |es| && AllFit(es)
    decreases n
  {
    if n == 0 then 0
    else if CutsAt(w, es[0], start) then 1 + CutsIn(w, es[1..], es[0].pos, n - 1)
    else CutsIn(w, es[1..], start, n - 1)
  }

  lemma {:induction false} CutSplit(w: Weibull, buf: bytes, es: seq<Event>, start: nat, n: nat)
    requires start <= |buf| && EventsFit(es, start, |buf|) && n <= |es|
    ensures AllFit(es)
    ensures var s, k := StartAfter(w, es, start, n), CutsIn(w, es, start, n);
            s <= |buf| && EventsFit(es[n..], s, |buf|) && k <= |CutChunks(w, buf, es, start)|
            && CutChunks(w, buf, es, start)[k..] == CutChunks(w, buf, es[n..], s)
    decreases n
  {
    FitsAll(es, start, |buf|);
    hide EventsFit, CutChunks, CutsAt, KeyOf;
    if n == 0 {
      assert es[0..] == es;
    } else {
      CutStep(w, buf, es, start);
      assert es[1..][n - 1..] == es[n..];
      if CutsAt(w, es[0], start) {
        CutSplit(w, buf, es[1..], es[0].pos, n - 1);
        DropMore(Chunk(KeyOf(es[0].loc), buf[start..es[0].pos]), CutChunks(w, buf, es[1..], es[0].pos),
                 CutsIn(w, es[1..], es[0].pos, n - 1));
      } else {
        CutSplit(w, buf, es[1..], start, n - 1);
      }
    }
  }

  lemma DropMore(c: Chunk, cs: seq<Chunk>, k: nat)
    requires k <= |cs|
    ensures ([c] + cs)[1 + k..] == cs[k..]
  {
  }

  // ------------------------------------------------------- events of the same work

  lemma {:induction false} BodyShift(path: Path, v: Value, p: nat, q: nat)
    ensures Shifted(BodyEvents(path, v, p), BodyEvents(path, v, q), q - p)
    decreases v
  {
    if v.Node? && v.fields.Field? {
      FieldShift(path, v.isArray, 0, 0, v.fields, p + 4, q + 4);
      var a, b := [Event(Loc(Initial(v.isArray), path), p + 4)], [Event(Loc(Initial(v.isArray), path), q + 4)];
      ShiftedConcat(a, b, FieldEvents(path, v.isArray, 0, v.fields, p + 4),
                    FieldEvents(path, v.isArray, 0, v.fields, q + 4), q - p);
      ShiftedConcat(a + FieldEvents(path, v.isArray, 0, v.fields, p + 4),
                    b + FieldEvents(path, v.isArray, 0, v.fields, q + 4),
                    [Event(Loc(END_OF_VALUE, path), p + |Enc(v)|)], [Event(Loc(END_OF_VALUE, path), q + |Enc(v)|)],
                    q - p);
    }
  }

  lemma {:induction false} FieldShift(path: Path, isArray: bool, i: nat, j: nat, fs: Fields, p: nat, q: nat)
    requires isArray ==> i == j
    ensures Shifted(FieldEvents(path, isArray, i, fs, p), FieldEvents(path, isArray, j, fs, q), q - p)
    decreases fs
  {
    if fs.Field? {
      var here := path + [StepTo(isArray, i, fs.name)];
      var p', q' := p + 2 + |fs.name|, q + 2 + |fs.name|;
      var n := |Enc(fs.value)|;
      BodyShift(here, fs.value, p', q');
      FieldShift(path, isArray, i + 1, j + 1, fs.rest, p' + n, q' + n);
      var a, b := [Event(Loc(START_OF_VALUE, here), p')], [Event(Loc(START_OF_VALUE, here), q')];
      var c, d := BodyEvents(here, fs.value, p'), BodyEvents(here, fs.value, q');
      ShiftedConcat(a, b, c, d, q - p);
      ShiftedConcat(a + c, b + d, FieldEvents(path, isArray, i + 1, fs.rest, p' + n),
                    FieldEvents(path, isArray, j + 1, fs.rest, q' + n), q - p);
    }
  }

  lemma {:induction false} WorkShift(w: Work, p: nat, q: nat)
    ensures Shifted(WorkEvents(w, p), WorkEvents(w, q), q - p)
    decreases w
  {
    hide FieldEvents, EncFields;
    if w.Open? {
      var n := |EncFields(w.fs)| + 1;
      FieldShift(w.path, w.isArray, w.idx, w.idx, w.fs, p, q);
      WorkShift(w.up, p + n, q + n);
      var a, b := [Event(Loc(END_OF_VALUE, w.path), p + n)], [Event(Loc(END_OF_VALUE, w.path), q + n)];
      ShiftedConcat(a, b, WorkEvents(w.up, p + n), WorkEvents(w.up, q + n), q - p);
      ShiftedConcat(FieldEvents(w.path, w.isArray, w.idx, w.fs, p), FieldEvents(w.path, w.isArray, w.idx, w.fs, q),
                    a + WorkEvents(w.up, p + n), b + WorkEvents(w.up, q + n), q - p);
    }
  }

  /** After m events the scan of doc stands at byte q with exactly this work left. */
  ghost predicate Left(doc: Value, wk: Work, q: nat, m: nat) {
    doc.Node? && m <= |DocEvents(doc)| && q <= |Enc(doc)|
    && DocEvents(doc)[m..] == WorkEvents(wk, q) && Enc(doc)[q..] == WorkBytes(wk)
  }

  /**
   Two documents with the same work left, cut at the same place in it: all chunks
   from there on are the same, keys and bytes.
   */
  lemma Resynchronise(w: Weibull, wk: Work, doc: Value, q: nat, m: nat, doc': Value, q': nat, m': nat, n: nat)
    requires Tree.Document(doc) && Tree.Document(doc') && Left(doc, wk, q, m) && Left(doc', wk, q', m')
    requires n <= |WorkEvents(wk, q)| && |WorkEvents(wk, q)| == |WorkEvents(wk, q')|
    requires AllFit(DocEvents(doc)) && AllFit(DocEvents(doc'))
    requires StartAfter(w, DocEvents(doc), 0, m + n) - q == StartAfter(w, DocEvents(doc'), 0, m' + n) - q' >= 0
    ensures var k, k' := CutsIn(w, DocEvents(doc), 0, m + n), CutsIn(w, DocEvents(doc'), 0, m' + n);
            k <= |ChunksOf(w, doc)| && k' <= |ChunksOf(w, doc')|
            && ChunksOf(w, doc)[k..] == ChunksOf(w, doc')[k'..]
  {
    hide Enc, DocEvents, WorkEvents, WorkBytes, StartAfter, CutsIn, CutChunks, EventsFit;
    var es, fs, buf, buf' := DocEvents(doc), DocEvents(doc'), Enc(doc), Enc(doc');
    DocFits(doc);
    DocFits(doc');
    CutSplit(w, buf, es, 0, m + n);
    CutSplit(w, buf', fs, 0, m' + n);
    var s, s' := StartAfter(w, es, 0, m + n), StartAfter(w, fs, 0, m' + n);
    WorkShift(wk, q, q');
    assert es[m + n..] == es[m..][n..] && fs[m' + n..] == fs[m'..][n..];
    assert buf[s..] == buf[q..][s - q..] && buf'[s'..] == buf'[q'..][s' - q'..];
    CutShift(w, buf, es[m + n..], s, buf', fs[m' + n..], s');
  }
}
