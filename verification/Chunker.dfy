/**
 Cutting a document into content-defined chunks under location keys, and putting
 the chunks together again in key order.
 */
module Chunker {
  import opened Bytes
  import opened Tree
  import opened Edits
  import opened Varint
  import opened Keys
  import opened Location
  import opened Events
  import opened Scanner

  const MIN_CHUNK_SIZE: int := 512
  const MAX_CHUNK_SIZE: int := 16384

  /** The hash-dependent part of the boundary decision. */
  type Weibull = (bytes, int) -> bool

  function CrossesBoundary(w: Weibull, key: bytes, totalSize: int): bool {
    if totalSize < MIN_CHUNK_SIZE then false
    else if totalSize > MAX_CHUNK_SIZE then true
    else w(key, totalSize)
  }

  datatype Chunk = Chunk(key: bytes, data: bytes)

  function Join(cs: seq<Chunk>): bytes {
    if cs == [] then [] else cs[0].data + Join(cs[1..])
  }

  lemma {:induction false} JoinConcat(cs: seq<Chunk>, ds: seq<Chunk>)
    ensures Join(cs + ds) == Join(cs) + Join(ds)
    decreases |cs|
  {
    if cs == [] {
      assert cs + ds == ds;
    } else {
      assert (cs + ds)[1..] == cs[1..] + ds;
      JoinConcat(cs[1..], ds);
    }
  }

  /** The address map after adding the chunks one by one. */
  function AddressMap(cs: seq<Chunk>): map<bytes, bytes> {
    if cs == [] then map[] else AddressMap(cs[..|cs| - 1])[cs[|cs| - 1].key := cs[|cs| - 1].data]
  }

  // ----------------------------------------------------------- what is cut where

  /** Whether a scan that has reached e cuts a chunk that began at start. */
  ghost predicate CutsAt(w: Weibull, e: Event, start: int)
    requires PathFits(e.loc.path)
  {
    e.loc.state == END_OF_VALUE && CrossesBoundary(w, KeyOf(e.loc), (e.pos - start) % U32)
  }

  ghost predicate EventsFit(es: seq<Event>, lo: int, hi: int) {
    forall i :: 0 <= i < |es| ==>
      PathFits(es[i].loc.path) && lo <= es[i].pos <= hi && (i > 0 ==> es[i - 1].pos <= es[i].pos)
  }

  lemma EventsFitTail(es: seq<Event>, lo: int, hi: int)
    requires EventsFit(es, lo, hi) && es != []
    ensures EventsFit(es[1..], es[0].pos, hi) && EventsFit(es[1..], lo, hi)
  {
    var t := es[1..];
    forall i | 0 <= i < |t|
      ensures es[0].pos <= t[i].pos && PathFits(t[i].loc.path) && t[i].pos <= hi && (i > 0 ==> t[i - 1].pos <= t[i].pos)
    {
      Rising(es, lo, hi, 0, i + 1);
      assert t[i] == es[i + 1];
      assert i > 0 ==> t[i - 1] == es[i];
    }
  }

  lemma {:induction false} Rising(es: seq<Event>, lo: int, hi: int, i: nat, j: nat)
    requires EventsFit(es, lo, hi) && i <= j < |es|
    ensures es[i].pos <= es[j].pos
    decreases j
  {
    if i < j {
      Rising(es, lo, hi, i, j - 1);
    }
  }

  /** The chunks of the bytes from start on, given the events still to come. */
  ghost function CutChunks(w: Weibull, buf: bytes, es: seq<Event>, start: nat): seq<Chunk>
    requires start <= |buf| && EventsFit(es, start, |buf|)
    decreases |es|
  {
    if es == [] then
      if start < |buf| then [Chunk(END_OF_DOCUMENT_KEY, buf[start..])] else []
    else
      EventsFitTail(es, start, |buf|);
      if CutsAt(w, es[0], start)
      then [Chunk(KeyOf(es[0].loc), buf[start..es[0].pos])] + CutChunks(w, buf, es[1..], es[0].pos)
      else CutChunks(w, buf, es[1..], start)
  }

  /** Whatever is cut, the chunks are the bytes, in order. */
  lemma {:induction false} ChunksPartition(w: Weibull, buf: bytes, es: seq<Event>, start: nat)
    requires start <= |buf| && EventsFit(es, start, |buf|)
    ensures Join(CutChunks(w, buf, es, start)) == buf[start..]
    decreases |es|
  {
    if es == [] {
      var last := [Chunk(END_OF_DOCUMENT_KEY, buf[start..])];
      assert last[1..] == [] && Join(last) == buf[start..] + [];
    } else {
      EventsFitTail(es, start, |buf|);
      if CutsAt(w, es[0], start) {
        var c, rest := Chunk(KeyOf(es[0].loc), buf[start..es[0].pos]), CutChunks(w, buf, es[1..], es[0].pos);
        ChunksPartition(w, buf, es[1..], es[0].pos);
        assert ([c] + rest)[1..] == rest;
        assert buf[start..] == buf[start..es[0].pos] + buf[es[0].pos..];
      } else {
        ChunksPartition(w, buf, es[1..], start);
      }
    }
  }

  // ----------------------------------------------------- the cuts, all at once

  /** An end of a value at which a chunk begun at start is too long, or long enough and met by the hash. */
  ghost predicate Due(w: Weibull, e: Event, start: int)
    requires PathFits(e.loc.path)
  {
    var n := (e.pos - start) % 0x1_0000_0000;
    e.loc.state == END_OF_VALUE && (n > 16384 || (512 <= n && w(KeyOf(e.loc), n)))
  }

  /** A chunk: the byte it begins at, the first event in it, and the event that ends it. */
  datatype Cut = Cut(from: nat, first: nat, at: nat)

  ghost predicate NoneDue(w: Weibull, es: seq<Event>, c: Cut) {
    c.at <= |es| && forall i :: c.first <= i < c.at ==> PathFits(es[i].loc.path) && !Due(w, es[i], c.from)
  }

  /** The event ending the chunk is the first in it to be due, and gives its key and its last byte. */
  ghost predicate Ends(w: Weibull, buf: bytes, es: seq<Event>, c: Cut, chunk: Chunk) {
    NoneDue(w, es, c) && c.at < |es|
    && var e := es[c.at];
    PathFits(e.loc.path)
    && c.from <= e.pos <= |buf|
    && Due(w, e, c.from)
    && chunk == Chunk(KeyOf(e.loc), buf[c.from..e.pos])
  }

  /** Each chunk begins where the one before ended. */
  predicate Chained(es: seq<Event>, start: nat, cuts: seq<Cut>) {
    |cuts| > 0 && cuts[0].from == start && cuts[0].first == 0 && cuts[|cuts| - 1].at == |es|
    && forall k :: 0 < k < |cuts| ==> Follows(es, cuts[k - 1], cuts[k])
  }

  predicate Follows(es: seq<Event>, c: Cut, d: Cut) {
    c.at < |es| && d.from == es[c.at].pos && d.first == c.at + 1
  }

  /**
   The chunks end exactly where a cut is due, and what is left behind the last cut, if
   anything, is one more under the end-of-document key.
   */
  ghost predicate CutWhereDue(w: Weibull, buf: bytes, es: seq<Event>, start: nat, cuts: seq<Cut>, chunks: seq<Chunk>) {
    var m := |cuts| - 1;
    Chained(es, start, cuts) && m <= |chunks|
    && (forall k :: 0 <= k < m ==> Ends(w, buf, es, cuts[k], chunks[k]))
    && NoneDue(w, es, cuts[m])
    && cuts[m].from <= |buf|
    && chunks[m..] == if cuts[m].from < |buf| then [Chunk([0xFF], buf[cuts[m].from..])] else []
  }

  lemma DueIsCut(w: Weibull, e: Event, start: int)
    requires PathFits(e.loc.path)
    ensures CutsAt(w, e, start) <==> Due(w, e, start)
  {
  }

  function Later(c: Cut): Cut { Cut(c.from, c.first + 1, c.at + 1) }

  lemma NoneDueLater(w: Weibull, es: seq<Event>, c: Cut)
    requires es != [] && NoneDue(w, es[1..], c)
    ensures NoneDue(w, es, Later(c))
  {
    hide Due;
    var d := Later(c);
    forall i | d.first <= i < d.at ensures PathFits(es[i].loc.path) && !Due(w, es[i], d.from) {
      assert es[1..][i - 1] == es[i];
    }
  }

  lemma EndsLater(w: Weibull, buf: bytes, es: seq<Event>, c: Cut, chunk: Chunk)
    requires es != [] && Ends(w, buf, es[1..], c, chunk)
    ensures Ends(w, buf, es, Later(c), chunk)
  {
    hide Due, NoneDue;
    NoneDueLater(w, es, c);
    assert es[1..][c.at] == es[c.at + 1];
  }

  lemma FollowsLater(es: seq<Event>, c: Cut, d: Cut)
    requires es != [] && Follows(es[1..], c, d)
    ensures Follows(es, Later(c), Later(d))
  {
    assert es[1..][c.at] == es[c.at + 1];
  }

  /** What is not due now may be counted to the chunk that is open. */
  function From(c: Cut): Cut { Cut(c.from, 0, c.at) }

  lemma NoneDueFrom(w: Weibull, es: seq<Event>, c: Cut)
    requires es != [] && PathFits(es[0].loc.path) && !Due(w, es[0], c.from) && c.first == 1 && NoneDue(w, es, c)
    ensures NoneDue(w, es, From(c))
  {
    hide Due;
  }

  ghost function AllLater(cuts: seq<Cut>): seq<Cut> {
    seq(|cuts|, i requires 0 <= i < |cuts| => Later(cuts[i]))
  }

  /** Passing over an event that is not due. */
  lemma PassOver(w: Weibull, buf: bytes, es: seq<Event>, start: nat, cuts: seq<Cut>, chunks: seq<Chunk>)
    requires es != [] && PathFits(es[0].loc.path) && !Due(w, es[0], start)
    requires CutWhereDue(w, buf, es[1..], start, cuts, chunks)
    ensures CutWhereDue(w, buf, es, start, [From(Later(cuts[0]))] + AllLater(cuts[1..]), chunks)
  {
    hide Due, NoneDue, Ends, Follows;
    var t, m := es[1..], |cuts| - 1;
    var ds := [From(Later(cuts[0]))] + AllLater(cuts[1..]);
    assert forall k :: 0 < k <= m ==> ds[k] == Later(cuts[k]);
    forall k | 0 < k <= m ensures Follows(es, ds[k - 1], ds[k]) {
      FollowsLater(es, cuts[k - 1], cuts[k]);
      if k == 1 { FollowsFrom(es, Later(cuts[0]), ds[1]); }
    }
    forall k | 0 <= k < m ensures Ends(w, buf, es, ds[k], chunks[k]) {
      EndsLater(w, buf, es, cuts[k], chunks[k]);
      if k == 0 { EndsFrom(w, buf, es, Later(cuts[0]), chunks[0]); }
    }
    NoneDueLater(w, es, cuts[m]);
    if m == 0 { NoneDueFrom(w, es, Later(cuts[0])); }
  }

  lemma FollowsFrom(es: seq<Event>, c: Cut, d: Cut)
    requires Follows(es, c, d)
    ensures Follows(es, From(c), d)
  {
  }

  lemma EndsFrom(w: Weibull, buf: bytes, es: seq<Event>, c: Cut, chunk: Chunk)
    requires es != [] && PathFits(es[0].loc.path) && !Due(w, es[0], c.from) && c.first == 1
    requires Ends(w, buf, es, c, chunk)
    ensures Ends(w, buf, es, From(c), chunk)
  {
    hide Due, NoneDue;
    NoneDueFrom(w, es, c);
  }

  /** Cutting at an event that is due. */
  lemma CutFirst(w: Weibull, buf: bytes, es: seq<Event>, start: nat, cuts: seq<Cut>, chunks: seq<Chunk>, c: Chunk)
    requires es != [] && Ends(w, buf, es, Cut(start, 0, 0), c)
    requires CutWhereDue(w, buf, es[1..], es[0].pos, cuts, chunks)
    ensures CutWhereDue(w, buf, es, start, [Cut(start, 0, 0)] + AllLater(cuts), [c] + chunks)
  {
    hide Due, NoneDue, Ends;
    var t, m, ds, cs := es[1..], |cuts|, [Cut(start, 0, 0)] + AllLater(cuts), [c] + chunks;
    assert forall k :: 0 < k <= m ==> ds[k] == Later(cuts[k - 1]);
    forall k | 0 < k <= m ensures Follows(es, ds[k - 1], ds[k]) {
      if k > 1 { FollowsLater(es, cuts[k - 2], cuts[k - 1]); }
    }
    forall k | 0 <= k < m ensures Ends(w, buf, es, ds[k], cs[k]) {
      if k > 0 { EndsLater(w, buf, es, cuts[k - 1], chunks[k - 1]); }
    }
    NoneDueLater(w, es, cuts[m - 1]);
    assert cs[m..] == chunks[m - 1..];
  }

  /** The chunks of any events: cut wherever a cut is due, and nowhere else. */
  lemma {:induction false} ChunksCutWhereDue(w: Weibull, buf: bytes, es: seq<Event>, start: nat)
    returns (cuts: seq<Cut>)
    requires start <= |buf| && EventsFit(es, start, |buf|)
    ensures CutWhereDue(w, buf, es, start, cuts, CutChunks(w, buf, es, start))
    decreases |es|
  {
    if es == [] {
      cuts := [Cut(start, 0, 0)];
      return;
    }
    CutStep(w, buf, es, start);
    DueIsCut(w, es[0], start);
    var e := es[0];
    if CutsAt(w, e, start) {
      var rest := ChunksCutWhereDue(w, buf, es[1..], e.pos);
      CutFirst(w, buf, es, start, rest, CutChunks(w, buf, es[1..], e.pos), Chunk(KeyOf(e.loc), buf[start..e.pos]));
      cuts := [Cut(start, 0, 0)] + AllLater(rest);
    } else {
      var rest := ChunksCutWhereDue(w, buf, es[1..], start);
      PassOver(w, buf, es, start, rest, CutChunks(w, buf, es[1..], start));
      cuts := [From(Later(rest[0]))] + AllLater(rest[1..]);
    }
  }

  // ------------------------------------------------- a document's events fit

  lemma EventsFitConcat(es: seq<Event>, fs: seq<Event>, lo: int, mid: int, hi: int)
    requires EventsFit(es, lo, mid) && EventsFit(fs, mid, hi) && lo <= mid <= hi
    ensures EventsFit(es + fs, lo, hi)
  {
    var t := es + fs;
    forall i | 0 <= i < |t|
      ensures PathFits(t[i].loc.path) && lo <= t[i].pos <= hi && (i > 0 ==> t[i - 1].pos <= t[i].pos)
    {
      if i >= |es| {
        assert t[i] == fs[i - |es|];
        assert i > |es| ==> t[i - 1] == fs[i - |es| - 1];
      }
    }
  }

  lemma EventFits(loc: Loc, pos: nat)
    requires PathFits(loc.path)
    ensures EventsFit([Event(loc, pos)], pos, pos)
  {
  }

  lemma {:induction false} CountFits(fs: Fields)
    ensures Count(fs) <= |EncFields(fs)|
  {
    if fs.Field? {
      CountFits(fs.rest);
    }
  }

  lemma {:induction false} BodyFits(path: Path, v: Value, p: nat)
    requires PathFits(path) && |Enc(v)| < U32
    ensures EventsFit(BodyEvents(path, v, p), p, p + |Enc(v)|)
    decreases v
  {
    hide EventsFit;
    var e := p + |Enc(v)|;
    EventFits(Loc(END_OF_VALUE, path), e);
    if v.Node? && v.fields.Field? {
      NodeSize(v);
      CountFits(v.fields);
      EventFits(Loc(Initial(v.isArray), path), p + 4);
      FieldsFit(path, v.isArray, 0, v.fields, p + 4);
      var a, b, c := [Event(Loc(Initial(v.isArray), path), p + 4)], FieldEvents(path, v.isArray, 0, v.fields, p + 4),
                     [Event(Loc(END_OF_VALUE, path), e)];
      EventsFitWider(a, p + 4, p + 4, p, p + 4);
      EventsFitConcat(a, b, p, p + 4, e - 1);
      EventsFitWider(a + b, p, e - 1, p, e);
      EventsFitConcat(a + b, c, p, e, e);
    } else {
      EventsFitWider([Event(Loc(END_OF_VALUE, path), e)], e, e, p, e);
    }
  }

  lemma EventsFitWider(es: seq<Event>, lo: int, hi: int, lo': int, hi': int)
    requires EventsFit(es, lo, hi) && lo' <= lo && hi <= hi'
    ensures EventsFit(es, lo', hi')
  {
  }

  lemma {:induction false} FieldsFit(path: Path, isArray: bool, idx: nat, fs: Fields, p: nat)
    requires PathFits(path) && |EncFields(fs)| < U32 && idx + Count(fs) < U64
    ensures EventsFit(FieldEvents(path, isArray, idx, fs, p), p, p + |EncFields(fs)|)
    decreases fs
  {
    hide EventsFit;
    if fs.End? {
      NoEventsFit(p, p + |EncFields(fs)|);
    } else {
      var here, q := path + [StepTo(isArray, idx, fs.name)], p + 2 + |fs.name|;
      var q' := q + |Enc(fs.value)|;
      EntrySize(fs);
      EventFits(Loc(START_OF_VALUE, here), q);
      BodyFits(here, fs.value, q);
      FieldsFit(path, isArray, idx + 1, fs.rest, q');
      var a, b, c := [Event(Loc(START_OF_VALUE, here), q)], BodyEvents(here, fs.value, q),
                     FieldEvents(path, isArray, idx + 1, fs.rest, q');
      EventsFitWider(a, q, q, p, q);
      EventsFitConcat(a, b, p, q, q');
      EventsFitConcat(a + b, c, p, q', p + |EncFields(fs)|);
    }
  }

  lemma NoEventsFit(lo: int, hi: int)
    ensures EventsFit([], lo, hi)
  {
  }

  lemma DocFits(doc: Value)
    requires Tree.Document(doc)
    ensures EventsFit(DocEvents(doc), 0, |Enc(doc)|)
  {
    NodeSize(doc);
    if doc.fields.Field? {
      BodyFits([], doc, 0);
      assert DocEvents(doc) == BodyEvents([], doc, 0);
    }
  }

  // ------------------------------------------------------------------- serialize

  datatype Serialized = Document(am: map<bytes, bytes>) | TooShort | ScanError

  /**
   Cuts the bytes into chunks and indexes them. Whatever the bytes, a result
   partitions them in emission order; the bytes of a document always have one, and
   its chunks are those its events determine.
   */
  method Serialize(w: Weibull, buf: bytes, ghost doc: Value) returns (r: Serialized, ghost chunks: seq<Chunk>)
    requires |buf| < U64 / 2
    ensures r.TooShort? <==> |buf| < 5
    ensures r.Document? ==> r.am == AddressMap(chunks) && Join(chunks) == buf
    ensures Tree.Document(doc) && buf == Enc(doc) ==>
              r.Document? && EventsFit(DocEvents(doc), 0, |buf|) && chunks == CutChunks(w, buf, DocEvents(doc), 0)
    ensures Tree.Document(doc) && buf == Enc(doc) ==>
              exists cuts :: CutWhereDue(w, buf, DocEvents(doc), 0, cuts, chunks)
  {
    chunks := [];
    if |buf| < 5 {
      if Tree.Document(doc) && buf == Enc(doc) {
        NodeSize(doc);
      }
      return TooShort, [];
    }
    ghost var wf := Tree.Document(doc) && buf == Enc(doc);
    if wf {
      DocFits(doc);
      var cuts := ChunksCutWhereDue(w, buf, DocEvents(doc), 0);
    }
    ghost var all := if wf then CutChunks(w, buf, DocEvents(doc), 0) else [];
    hide Enc, DocEvents, Progress, KeyFor, OffsetsOf, Standing, Stacked, Tree.Document, Join, AddressMap, EventsFit,
         CutChunks, CutWhereDue;
    var am: map<bytes, bytes> := map[];
    var s := new Scanner(buf, doc);
    var chunkStart: nat := 0;
    ProgressStart(w, buf, wf, if wf then s.todo else []);
    var running := true;
    while running
      invariant s.Safe() && s.buf == buf && s.doc == doc && fresh(s) && fresh(s.path)
      invariant wf ==> s.Follows() && (!running ==> s.todo == [])
      invariant chunkStart <= s.pos && Progress(w, buf, am, chunks, chunkStart, wf, if wf then s.todo else [], all)
      decreases running, !s.rootInited, |buf| - s.pos, s.path.State() == START_OF_VALUE
    {
      var out: Outcome;
      out, am, chunkStart, chunks := ScanAndCut(w, s, am, chunkStart, chunks, wf, all);
      if out.Eof? {
        running := false;
      } else if !out.Advanced? {
        return ScanError, [];
      }
    }
    am, chunks := FinalChunk(w, buf, am, chunkStart, chunks, wf, if wf then s.todo else [], all);
    return Document(am), chunks;
  }

  /** One step of the scan, and a cut where it is due. */
  method ScanAndCut(w: Weibull, s: Scanner, am: map<bytes, bytes>, chunkStart: nat, ghost chunks: seq<Chunk>,
                    ghost wf: bool, ghost all: seq<Chunk>)
    returns (out: Outcome, am': map<bytes, bytes>, chunkStart': nat, ghost chunks': seq<Chunk>)
    requires s.Safe() && chunkStart <= s.pos && (wf ==> s.Follows())
    requires Progress(w, s.buf, am, chunks, chunkStart, wf, if wf then s.todo else [], all)
    modifies s, s.path
    ensures s.Safe() && chunkStart' <= s.pos && (out.Advanced? ==> s.rootInited)
    ensures out.Advanced? && old(s.rootInited) ==>
              s.pos > old(s.pos)
              || (s.pos == old(s.pos) && old(s.path.State()) == START_OF_VALUE && s.path.State() == END_OF_VALUE)
    ensures wf ==> s.Follows() && (out.Advanced? || (out.Eof? && s.todo == []))
    ensures Progress(w, s.buf, am', chunks', chunkStart', wf, if wf then s.todo else [], all)
  {
    hide Enc, DocEvents, Progress, KeyFor, OffsetsOf, Standing, Stacked, Tree.Document;
    ghost var before := s.todo;
    out := s.AdvanceToNextLocation();
    am', chunkStart', chunks' := am, chunkStart, chunks;
    if out.Advanced? {
      ghost var es := if wf then before else [s.Here()];
      if !wf {
        ProgressAny(w, s.buf, am, chunks, chunkStart, [], es, all);
      }
      am', chunkStart', chunks' :=
        CutIfDue(w, s.buf, s.path.key, s.pos, am, chunkStart, chunks, wf, es, all, s.path.path);
      assert es[1..] == if wf then s.todo else [];
    }
  }

  /** The chunks cut so far, and what is left to cut. */
  ghost predicate Progress(w: Weibull, buf: bytes, am: map<bytes, bytes>, chunks: seq<Chunk>, start: nat, wf: bool,
                           es: seq<Event>, all: seq<Chunk>)
  {
    start <= |buf| && am == AddressMap(chunks) && Join(chunks) == buf[..start]
    && (wf ==> EventsFit(es, start, |buf|) && chunks + CutChunks(w, buf, es, start) == all)
  }

  lemma ProgressStart(w: Weibull, buf: bytes, wf: bool, es: seq<Event>)
    requires wf ==> EventsFit(es, 0, |buf|)
    ensures Progress(w, buf, map[], [], 0, wf, es, if wf then CutChunks(w, buf, es, 0) else [])
  {
    if wf {
      assert [] + CutChunks(w, buf, es, 0) == CutChunks(w, buf, es, 0);
    }
  }

  lemma ProgressAny(w: Weibull, buf: bytes, am: map<bytes, bytes>, chunks: seq<Chunk>, start: nat, es: seq<Event>,
                    fs: seq<Event>, all: seq<Chunk>)
    requires Progress(w, buf, am, chunks, start, false, es, all)
    ensures Progress(w, buf, am, chunks, start, false, fs, all)
  {
  }

  /** At the end of a value, cuts a chunk if the boundary predicate says so. */
  method CutIfDue(w: Weibull, buf: bytes, key: bytes, pos: nat, am: map<bytes, bytes>, chunkStart: nat,
                  ghost chunks: seq<Chunk>, ghost wf: bool, ghost es: seq<Event>, ghost all: seq<Chunk>, ghost p: Path)
    returns (am': map<bytes, bytes>, chunkStart': nat, ghost chunks': seq<Chunk>)
    requires KeyFor(key, p) && key != [] && chunkStart <= pos <= |buf|
    requires es != [] && es[0] == Event(Loc(key[0], p), pos)
    requires Progress(w, buf, am, chunks, chunkStart, wf, es, all)
    ensures chunkStart' <= pos && Progress(w, buf, am', chunks', chunkStart', wf, es[1..], all)
  {
    if wf {
      CutStep(w, buf, es, chunkStart);
    }
    KeyIsEvents(w, key, p, es[0], chunkStart);
    hide EventsFit, CutsAt, CutChunks, KeyFor, Join, AddressMap;
    var span := pos - chunkStart;
    if key[0] != END_OF_VALUE || !CrossesBoundary(w, key, span % U32) {
      return am, chunkStart, chunks;
    }
    var blob := buf[chunkStart..pos];
    am' := am[key := blob];
    chunkStart' := pos;
    chunks' := chunks + [Chunk(key, blob)];
    AddChunk(chunks, Chunk(key, blob));
    assert buf[..pos] == buf[..chunkStart] + blob;
    if wf {
      assert chunks + ([Chunk(key, blob)] + CutChunks(w, buf, es[1..], pos))
             == chunks' + CutChunks(w, buf, es[1..], pos);
    }
  }

  /** What is left behind the last cut goes under the end-of-document key. */
  method FinalChunk(w: Weibull, buf: bytes, am: map<bytes, bytes>, chunkStart: nat, ghost chunks: seq<Chunk>,
                    ghost wf: bool, ghost es: seq<Event>, ghost all: seq<Chunk>)
    returns (am': map<bytes, bytes>, ghost chunks': seq<Chunk>)
    requires Progress(w, buf, am, chunks, chunkStart, wf, es, all) && (wf ==> es == [])
    ensures am' == AddressMap(chunks') && Join(chunks') == buf && (wf ==> chunks' == all)
  {
    hide Join, AddressMap;
    if chunkStart < |buf| {
      var blob := buf[chunkStart..];
      am' := am[END_OF_DOCUMENT_KEY := blob];
      AddChunk(chunks, Chunk(END_OF_DOCUMENT_KEY, blob));
      chunks' := chunks + [Chunk(END_OF_DOCUMENT_KEY, blob)];
      assert buf == buf[..chunkStart] + blob;
    } else {
      am', chunks' := am, chunks;
      assert buf == buf[..chunkStart];
    }
  }

  /** One event of a cut. */
  lemma CutStep(w: Weibull, buf: bytes, es: seq<Event>, start: nat)
    requires start <= |buf| && es != [] && EventsFit(es, start, |buf|)
    ensures PathFits(es[0].loc.path) && start <= es[0].pos <= |buf|
    ensures EventsFit(es[1..], start, |buf|) && EventsFit(es[1..], es[0].pos, |buf|)
    ensures CutChunks(w, buf, es, start)
         == if CutsAt(w, es[0], start) then
              [Chunk(KeyOf(es[0].loc), buf[start..es[0].pos])] + CutChunks(w, buf, es[1..], es[0].pos)
            else CutChunks(w, buf, es[1..], start)
  {
    hide CutsAt;
    EventsFitTail(es, start, |buf|);
  }

  lemma KeyIsEvents(w: Weibull, key: bytes, p: Path, e: Event, start: int)
    requires KeyFor(key, p) && key != [] && e.loc == Loc(key[0], p)
    ensures PathFits(p) && key == KeyOf(e.loc)
    ensures CutsAt(w, e, start) <==> key[0] == END_OF_VALUE && CrossesBoundary(w, key, (e.pos - start) % U32)
  {
    assert key == [key[0]] + key[1..];
  }

  lemma AddChunk(cs: seq<Chunk>, c: Chunk)
    ensures AddressMap(cs + [c]) == AddressMap(cs)[c.key := c.data]
    ensures Join(cs + [c]) == Join(cs) + c.data
  {
    assert (cs + [c])[..|cs|] == cs;
    JoinConcat(cs, [c]);
    assert [c][1..] == [] && Join([c]) == c.data + [];
  }
}
