/**
 The scanner: a state machine over raw bytes with an explicit stack of open
 containers. It is safe on any bytes, every successful step makes progress, and on
 the bytes of a document it passes exactly the document's events.
 */
module Scanner {
  import opened Bytes
  import opened Tree
  import opened Edits
  import opened Varint
  import opened Keys
  import opened Location
  import opened Events

  datatype Frame = Frame(isArray: bool, arrayIdx: nat, endOff: int)

  datatype Outcome = Advanced | Eof | InvalidBson | UnknownType

  /** What a scan still has to pass: the rest of each open container, innermost first. */
  datatype Work =
    | Finished
    | Open(path: Path, isArray: bool, idx: nat, fs: Fields, up: Work)

  function WorkBytes(w: Work): bytes {
    match w
    case Finished => []
    case Open(_, _, _, fs, up) => EncFields(fs) + ([0] + WorkBytes(up))
  }

  function WorkEvents(w: Work, p: nat): seq<Event> {
    match w
    case Finished => []
    case Open(path, isArray, idx, fs, up) =>
      var q := p + |EncFields(fs)| + 1;
      FieldEvents(path, isArray, idx, fs, p) + ([Event(Loc(END_OF_VALUE, path), q)] + WorkEvents(up, q))
  }

  ghost predicate WfWork(w: Work) {
    w.Open? ==>
      WfFields(w.fs) && WfWork(w.up)
      && (w.up.Open? ==> w.path != [] && w.up.path == Init(w.path)) && (w.up.Finished? ==> w.path == [])
  }

  /** The scanner's stack is the stack of the open containers. */
  ghost predicate Stacked(w: Work, stack: seq<Frame>) {
    match w
    case Finished => stack == []
    case Open(_, isArray, idx, _, up) =>
      stack != [] && stack[|stack| - 1].isArray == isArray
      && (isArray ==> stack[|stack| - 1].arrayIdx == idx) && Stacked(up, stack[..|stack| - 1])
  }

  predicate KnownScalar(tag: byte) {
    FixedWidth(tag) >= 0 || tag in {0x02, 0x05, 0x0B, 0x0C, 0x0D, 0x0E, 0x0F}
  }

  // -------------------------------------------------------- steps, on the work

  /** The container's next field begins. */
  lemma FieldBegins(w: Work, p: nat)
    requires w.Open? && w.fs.Field?
    ensures var w' := w.(idx := w.idx + 1, fs := w.fs.rest);
            var here, q := w.path + [StepTo(w.isArray, w.idx, w.fs.name)], p + 2 + |w.fs.name|;
            WorkBytes(w) == [TagOf(w.fs.value)] + (w.fs.name + [0]) + (Enc(w.fs.value) + WorkBytes(w'))
            && WorkEvents(w, p) == [Event(Loc(START_OF_VALUE, here), q)]
                                   + (BodyEvents(here, w.fs.value, q) + WorkEvents(w', q + |Enc(w.fs.value)|))
  {
    hide Enc, BodyEvents;
    var fs := w.fs;
    var here, q := w.path + [StepTo(w.isArray, w.idx, fs.name)], p + 2 + |fs.name|;
    var q' := q + |Enc(fs.value)|;
    EntrySize(fs);
    Regroup([TagOf(fs.value)], fs.name, [0], Enc(fs.value), EncFields(fs.rest), [0] + WorkBytes(w.up));
    RegroupEvents([Event(Loc(START_OF_VALUE, here), q)], BodyEvents(here, fs.value, q),
                  FieldEvents(w.path, w.isArray, w.idx + 1, fs.rest, q'),
                  [Event(Loc(END_OF_VALUE, w.path), p + |EncFields(fs)| + 1)]
                  + WorkEvents(w.up, p + |EncFields(fs)| + 1));
  }

  lemma Regroup<T>(t: seq<T>, n: seq<T>, z: seq<T>, e: seq<T>, f: seq<T>, r: seq<T>)
    ensures t + n + z + e + f + r == t + (n + z) + (e + (f + r))
  {
  }

  lemma RegroupEvents<T>(s: seq<T>, b: seq<T>, f: seq<T>, r: seq<T>)
    ensures s + b + f + r == s + (b + (f + r))
  {
  }

  /** The container ends. */
  lemma ContainerEnds(w: Work, p: nat)
    requires w.Open? && w.fs.End?
    ensures WorkBytes(w) == [0] + WorkBytes(w.up)
    ensures WorkEvents(w, p) == [Event(Loc(END_OF_VALUE, w.path), p + 1)] + WorkEvents(w.up, p + 1)
  {
  }

  /** The value at hand is a container with fields. */
  lemma ContainerOpens(path: Path, v: Value, w: Work, p: nat)
    requires v.Node? && v.fields.Field?
    ensures var w' := Open(path, v.isArray, 0, v.fields, w);
            Enc(v) + WorkBytes(w) == Le32(|Enc(v)|) + WorkBytes(w')
            && BodyEvents(path, v, p) + WorkEvents(w, p + |Enc(v)|)
               == [Event(Loc(Initial(v.isArray), path), p + 4)] + WorkEvents(w', p + 4)
  {
    hide EncFields, FieldEvents;
    NodeSize(v);
    var f, r := EncFields(v.fields), WorkBytes(w);
    assert Le32(|f| + 5) + f + [0] + r == Le32(|f| + 5) + (f + ([0] + r));
    var s, g, e, x := [Event(Loc(Initial(v.isArray), path), p + 4)], FieldEvents(path, v.isArray, 0, v.fields, p + 4),
                      [Event(Loc(END_OF_VALUE, path), p + |Enc(v)|)], WorkEvents(w, p + |Enc(v)|);
    assert s + g + e + x == s + (g + (e + x));
  }

  /** The value at hand is a scalar or an empty container. */
  lemma ValueEnds(path: Path, v: Value, p: nat)
    requires v.Scalar? || v.fields.End?
    ensures BodyEvents(path, v, p) == [Event(Loc(END_OF_VALUE, path), p + |Enc(v)|)]
    ensures v.Node? ==> Enc(v) == Le32(5) + [0]
  {
  }

  /** The first byte of what an open container still holds. */
  lemma FirstByte(w: Work)
    requires w.Open? && WfWork(w)
    ensures WorkBytes(w) != [] && (WorkBytes(w)[0] == 0 <==> w.fs.End?)
  {
    if w.fs.Field? {
      TagNonZero(w.fs.value);
      var entry := EncEntry(w.fs.name, w.fs.value);
      assert entry[0] == TagOf(w.fs.value);
      assert EncFields(w.fs) == entry + EncFields(w.fs.rest);
    }
  }

  // ------------------------------------------------------- steps, on the position

  /** At offset at, the bytes of w are all that is left, and its events are todo. */
  ghost predicate Ready(buf: bytes, at: nat, w: Work, todo: seq<Event>) {
    WfWork(w) && At(buf, at, WorkBytes(w)) && at + |WorkBytes(w)| == |buf| < U32 && todo == WorkEvents(w, at)
  }

  /** At offset at, the bytes of the value v at path p are followed by those of w. */
  ghost predicate Facing(buf: bytes, at: nat, p: Path, v: Value, w: Work, todo: seq<Event>) {
    p != [] && w.Open? && w.path == Init(p) && Wf(v) && At(buf, at, Enc(v)) && at + |Enc(v)| <= |buf|
    && WfWork(w) && At(buf, at + |Enc(v)|, WorkBytes(w)) && at + |Enc(v)| + |WorkBytes(w)| == |buf| < U32
    && todo == BodyEvents(p, v, at) + WorkEvents(w, at + |Enc(v)|)
  }

  /** The scan, in this state and at this path, agrees with the work left. */
  ghost predicate Standing(buf: bytes, at: nat, state: byte, p: Path, currType: byte, v: Value, w: Work,
                           todo: seq<Event>)
  {
    if state == START_OF_VALUE then Facing(buf, at, p, v, w, todo) && currType == TagOf(v)
    else
      Ready(buf, at, w, todo)
      && if state == END_OF_VALUE then w.Open? ==> w.path == (if p == [] then [] else Init(p))
         else w.Open? && w.path == p
  }

  lemma StepClose(buf: bytes, at: nat, w: Work, todo: seq<Event>)
    requires Ready(buf, at, w, todo) && w.Open?
    ensures at < |buf| && (buf[at] == 0 <==> w.fs.End?)
    ensures w.fs.End?
            ==> todo != [] && todo[0] == Event(Loc(END_OF_VALUE, w.path), at + 1) && Ready(buf, at + 1, w.up, todo[1..])
    ensures w.up.Open? ==> w.up.path == if w.path == [] then [] else Init(w.path)
  {
    hide WorkBytes, WorkEvents;
    UpPath(w);
    FirstByte(w);
    AtByte(buf, at, WorkBytes(w), 0);
    if w.fs.End? {
      ContainerEnds(w, at);
      AtConcat(buf, at, [0], WorkBytes(w.up));
    }
  }

  lemma StepField(buf: bytes, at: nat, w: Work, todo: seq<Event>)
    requires Ready(buf, at, w, todo) && w.Open? && w.fs.Field?
    ensures var fs := w.fs;
            var here, q, w' := w.path + [StepTo(w.isArray, w.idx, fs.name)], at + 2 + |fs.name|,
                               w.(idx := w.idx + 1, fs := fs.rest);
            at < |buf| && buf[at] == TagOf(fs.value) && NoZero(fs.name) && At(buf, at + 1, fs.name + [0])
            && todo != [] && todo[0] == Event(Loc(START_OF_VALUE, here), q)
            && Facing(buf, q, here, fs.value, w', todo[1..])
  {
    hide WorkBytes, WorkEvents, Enc, BodyEvents, At;
    var fs, w' := w.fs, w.(idx := w.idx + 1, fs := w.fs.rest);
    var here := w.path + [StepTo(w.isArray, w.idx, fs.name)];
    assert Init(here) == w.path;
    FieldBegins(w, at);
    var t, n, e, r := [TagOf(fs.value)], fs.name + [0], Enc(fs.value), WorkBytes(w');
    AtConcat(buf, at, t + n, e + r);
    AtConcat(buf, at, t, n);
    AtConcat(buf, at + |t + n|, e, r);
    AtByte(buf, at, t, 0);
    AtFits(buf, at + 2 + |fs.name|, e);
  }

  lemma AtFits(buf: bytes, i: int, s: bytes)
    requires At(buf, i, s)
    ensures i + |s| <= |buf|
  {
  }

  lemma StepValue(buf: bytes, at: nat, p: Path, v: Value, w: Work, todo: seq<Event>)
    requires Facing(buf, at, p, v, w, todo) && (v.Scalar? || v.fields.End?)
    ensures todo != [] && todo[0] == Event(Loc(END_OF_VALUE, p), at + |Enc(v)|)
    ensures Ready(buf, at + |Enc(v)|, w, todo[1..])
    ensures v.Node? ==> |Enc(v)| == 5 && buf[at + 4] == 0
  {
    hide WorkBytes, WorkEvents, Enc, BodyEvents;
    ValueEnds(p, v, at);
    if v.Node? {
      AtByte(buf, at, Enc(v), 4);
    }
  }

  lemma StepOpen(buf: bytes, at: nat, p: Path, v: Value, w: Work, todo: seq<Event>)
    requires Facing(buf, at, p, v, w, todo) && v.Node? && v.fields.Field?
    ensures var w' := Open(p, v.isArray, 0, v.fields, w);
            todo != [] && todo[0] == Event(Loc(Initial(v.isArray), p), at + 4)
            && Ready(buf, at + 4, w', todo[1..]) && at + 4 < |buf| && buf[at + 4] != 0
  {
    hide WorkBytes, WorkEvents, Enc, BodyEvents;
    var w' := Open(p, v.isArray, 0, v.fields, w);
    ContainerOpens(p, v, w, at);
    AtConcat(buf, at, Enc(v), WorkBytes(w));
    AtConcat(buf, at, Le32(|Enc(v)|), WorkBytes(w'));
    StepClose(buf, at + 4, w', todo[1..]);
  }

  /** The root opens; an empty root is first seen as ended, its terminator still ahead. */
  lemma StepRoot(buf: bytes, doc: Value)
    requires Document(doc) && buf == Enc(doc)
    ensures var w, todo := Open([], false, 0, doc.fields, Finished), DocEvents(doc);
            |buf| >= 5 && Read32(buf) == |buf| && todo != [] && Ready(buf, 4, w, todo[1..])
            && (buf[4] == 0 <==> doc.fields.End?)
            && todo[0] == Event(Loc(if doc.fields.End? then END_OF_VALUE else OBJECT_INITIAL, []), 4)
  {
    hide Enc, WorkBytes, WorkEvents, EncFields, Read32, Le32;
    var w := Open([], false, 0, doc.fields, Finished);
    RootBytes(buf, doc);
    RootEvents(doc);
    assert WfWork(Finished) && WfWork(w);
    StepClose(buf, 4, w, WorkEvents(w, 4));
  }

  lemma RootBytes(buf: bytes, doc: Value)
    requires Document(doc) && buf == Enc(doc)
    ensures var w := Open([], false, 0, doc.fields, Finished);
            |buf| >= 5 && Read32(buf) == |buf| && At(buf, 4, WorkBytes(w)) && 4 + |WorkBytes(w)| == |buf|
  {
    hide EncFields, Le32;
    var l, f := Le32(|EncFields(doc.fields)| + 5), EncFields(doc.fields);
    NodeAt(buf, 0, doc);
    assert buf[0..] == buf && buf == l + (f + ([0] + []));
  }

  lemma RootEvents(doc: Value)
    requires doc.Node?
    ensures var w, todo := Open([], false, 0, doc.fields, Finished), DocEvents(doc);
            todo != [] && WorkEvents(w, 4) == todo[1..]
            && todo[0] == Event(Loc(if doc.fields.End? then END_OF_VALUE else OBJECT_INITIAL, []), 4)
  {
    hide EncFields;
    NodeSize(doc);
    if doc.fields.End? {
      NoFieldBytes();
    }
  }

  lemma NoFieldBytes()
    ensures EncFields(Fields.End) == []
  {
  }

  // ------------------------------------------------------------------ the scanner

  lemma FromStart(buf: bytes)
    ensures buf[0..] == buf
  {
  }

  class Scanner {
    const buf: bytes
    var pos: nat
    const path: Location
    var stack: seq<Frame>
    var rootInited: bool
    var rootEndOffs: int
    var currType: byte

    /** The document the bytes are taken to encode, and where in it the scan stands. */
    ghost const doc: Value
    ghost var work: Work
    ghost var current: Value
    ghost var todo: seq<Event>

    constructor (buf: bytes, ghost doc: Value)
      requires |buf| < U64 / 2
      ensures this.buf == buf && this.doc == doc && fresh(path) && Safe() && !rootInited
      ensures Document(doc) && buf == Enc(doc) ==> Follows() && todo == DocEvents(doc)
    {
      this.buf := buf;
      this.doc := doc;
      pos := 0;
      path := new Location();
      stack := [];
      rootInited := false;
      rootEndOffs := 0;
      currType := 0;
      work := Finished;
      current := doc;
      todo := if doc.Node? then DocEvents(doc) else [];
    }

    /** Holds on any bytes. */
    ghost predicate Safe()
      reads this, path
    {
      path.Valid() && pos <= |buf| < U64 / 2
      && (forall k :: 0 <= k < |stack| ==> stack[k].arrayIdx <= pos)
      && (!rootInited ==> pos == 0 && stack == [] && path.State() == START_OF_VALUE && path.path == [])
      && path.State() in {START_OF_VALUE, OBJECT_INITIAL, ARRAY_INITIAL, END_OF_VALUE}
      && (path.State() in {OBJECT_INITIAL, ARRAY_INITIAL} ==> stack != [])
    }

    /** The bytes encode doc, and the scan stands where work and todo say. */
    ghost predicate Follows()
      reads this, path
    {
      Document(doc) && buf == Enc(doc)
      && if !rootInited then todo == DocEvents(doc)
         else rootEndOffs == |buf| - 1 && Stacked(work, stack)
              && Standing(buf, pos, path.State(), path.path, currType, current, work, todo)
    }

    /** The place the scan has reached. */
    ghost function Here(): Event
      reads this, path
    {
      Event(Loc(path.State(), path.path), pos)
    }

    predicate AtEnd()
      reads this, path
    {
      rootInited && |stack| == 0 && path.State() == END_OF_VALUE && pos >= rootEndOffs + 1
    }

    /** Stands at the next element of the innermost open container. */
    ghost predicate AtElement()
      reads this, path
    {
      Document(doc) && buf == Enc(doc) && rootInited && rootEndOffs == |buf| - 1 && Stacked(work, stack)
      && work.Open? && work.path == path.path && Ready(buf, pos, work, todo)
    }

    /** No document of the announced length starts here. */
    predicate NoRoot()
      reads this
      requires pos <= |buf|
    {
      |buf| - pos < 5 || Read32(buf[pos..]) < 5 || pos + Read32(buf[pos..]) > |buf|
    }

    /** Enters the document, unless what is left of the buffer cannot hold one. */
    method OpenRoot() returns (r: Outcome)
      requires Safe() && !rootInited
      modifies this, path
      ensures Safe() && (r.Advanced? <==> rootInited) && (r.Eof? || r.Advanced?)
      ensures r.Eof? <==> old(NoRoot())
      ensures r.Eof? ==> pos == old(pos) && path.State() == old(path.State())
      ensures r.Advanced? ==> pos == old(pos) + 4 < |buf| && rootEndOffs == old(pos + Read32(buf[pos..]) - 1)
                              && path.State() == if buf[pos] == 0 then END_OF_VALUE else OBJECT_INITIAL
      ensures old(Follows())
              ==> r.Advanced? && Follows() && old(todo) != [] && Here() == old(todo)[0] && todo == old(todo)[1..]
    {
      ghost var follows := Follows();
      if follows {
        StepRoot(buf, doc);
      }
      hide Ready, Enc, DocEvents, Document, KeyFor, OffsetsOf, Read32;
      if |buf| - pos < 5 {
        return Eof;
      }
      FromStart(buf);
      var docLen := Read32(buf[pos..]);
      if docLen < 5 || pos + docLen > |buf| {
        return Eof;
      }
      rootInited := true;
      rootEndOffs := pos + docLen - 1;
      pos := pos + 4;
      stack := stack + [Frame(false, 0, rootEndOffs)];
      if follows {
        work, todo := Open([], false, 0, doc.fields, Finished), todo[1..];
        assert Stacked(work.up, stack[..0]);
      }
      if buf[pos] == 0 {
        path.SetState(END_OF_VALUE);
        return Advanced;
      }
      path.SetState(OBJECT_INITIAL);
      return Advanced;
    }

    /** Passes a container's terminator. */
    method CloseContainer()
      requires Safe() && rootInited && stack != [] && pos < |buf|
      modifies this, path
      ensures Safe() && rootInited && pos == old(pos) + 1
      ensures old(AtElement()) && old(work).fs.End?
              ==> Follows() && old(todo) != [] && Here() == old(todo)[0] && todo == old(todo)[1..]
    {
      hide Ready, Enc, Document, KeyFor, OffsetsOf, WfWork;
      ghost var follows := AtElement() && work.fs.End?;
      if follows {
        StepClose(buf, pos, work, todo);
      }
      pos := pos + 1;
      stack := stack[..|stack| - 1];
      path.SetState(END_OF_VALUE);
      if follows {
        work, todo := work.up, todo[1..];
      }
    }

    /** Steps onto the element whose name ends at nameEnd. */
    method OpenElement(nameEnd: nat)
      requires Safe() && rootInited && stack != [] && pos + 1 <= nameEnd < |buf|
      modifies this`pos, this`stack, this`currType, path
      ensures Safe() && pos == nameEnd + 1 && currType == buf[old(pos)] && stack == BumpTop(old(stack))
      ensures path.State() == START_OF_VALUE
      ensures path.path == old(path.path) + [TopStep(old(stack), buf[old(pos) + 1..nameEnd])]
    {
      BumpBound(stack, pos, nameEnd + 1);
      hide KeyFor, OffsetsOf, BumpTop, TopStep;
      var tb := buf[pos];
      AppendStep(buf[pos + 1..nameEnd]);
      pos := nameEnd + 1;
      currType := tb;
      path.SetState(START_OF_VALUE);
    }

    /** Extends the path by the next element of the innermost container. */
    method AppendStep(name: bytes)
      requires path.Valid() && stack != [] && stack[|stack| - 1].arrayIdx < U64
      modifies this`stack, path
      ensures path.Valid() && path.State() == old(path.State()) && stack == BumpTop(old(stack))
      ensures path.path == old(path.path) + [TopStep(old(stack), name)]
    {
      hide KeyFor, OffsetsOf;
      var top := stack[|stack| - 1];
      if top.isArray {
        path.AppendArrayIndex(top.arrayIdx);
        stack := stack[..|stack| - 1] + [Frame(true, top.arrayIdx + 1, top.endOff)];
      } else {
        path.AppendObjectKey(name);
      }
    }

    /** The same, for the scan of doc. */
    method NextElement(nameEnd: nat)
      requires Safe() && rootInited && stack != [] && pos + 1 <= nameEnd < |buf|
      modifies this, path
      ensures Safe() && rootInited && pos == nameEnd + 1
      ensures old(AtElement()) && old(work).fs.Field? && nameEnd == old(pos) + 1 + |old(work).fs.name|
              ==> Follows() && old(todo) != [] && Here() == old(todo)[0] && todo == old(todo)[1..]
    {
      hide Ready, Standing, Stacked, Enc, Document, KeyFor, OffsetsOf, BumpTop, TopStep, DocEvents;
      ghost var w, follows := work, AtElement() && work.fs.Field? && nameEnd == pos + 1 + |work.fs.name|;
      if follows {
        FieldStands(buf, pos, w, stack, todo, nameEnd);
      }
      OpenElement(nameEnd);
      if follows {
        current, work, todo := w.fs.value, w.(idx := w.idx + 1, fs := w.fs.rest), todo[1..];
      }
    }

    /** Reads the next element's type and name, or the container's terminator. */
    method StartElement() returns (r: Outcome)
      requires Safe() && rootInited && stack != []
      modifies this, path
      ensures Safe() && rootInited && (r.Eof? || r.Advanced?) && pos >= old(pos)
      ensures r.Advanced? ==> pos > old(pos)
      ensures old(AtElement())
              ==> r.Advanced? && Follows() && old(todo) != [] && Here() == old(todo)[0] && todo == old(todo)[1..]
    {
      hide Ready, Standing, Stacked, Enc, Document, KeyFor, OffsetsOf, At, DocEvents;
      ghost var follows := AtElement();
      if follows {
        StepClose(buf, pos, work, todo);
        if work.fs.Field? {
          FieldAhead(buf, pos, work, todo);
        }
      }
      if pos >= |buf| {
        return Eof;
      }
      if buf[pos] == 0 {
        CloseContainer();
        return Advanced;
      }
      var nameStart := pos + 1;
      var nameEnd := ScanToZero(buf, nameStart, |buf|);
      if follows {
        NameFound(buf, nameStart, work.fs.name, nameEnd);
      }
      if nameEnd >= |buf| {
        return Eof;
      }
      NextElement(nameEnd);
      return Advanced;
    }

    /** Enters a container, or passes it if it is empty. */
    method EnterContainer() returns (r: Outcome)
      requires Safe() && rootInited && path.State() == START_OF_VALUE
      modifies this`pos, this`stack, path
      ensures Safe() && path.path == old(path.path)
      ensures !r.Advanced?
              ==> pos == old(pos) && (pos + 5 > |buf| || Read32(buf[pos..]) < 5 || pos + Read32(buf[pos..]) > |buf|)
      ensures r.Advanced? ==> old(pos) + 4 < |buf|
      ensures r.Advanced? && buf[old(pos) + 4] == 0 ==>
                pos == old(pos) + 5 && stack == old(stack) && path.State() == END_OF_VALUE
      ensures r.Advanced? && buf[old(pos) + 4] != 0 ==>
                pos == old(pos) + 4 && |stack| == |old(stack)| + 1 && stack[..|old(stack)|] == old(stack)
                && stack[|old(stack)|].isArray == (currType == TYPE_ARRAY) && stack[|old(stack)|].arrayIdx == 0
                && path.State() == Initial(currType == TYPE_ARRAY)
    {
      hide KeyFor, OffsetsOf, Read32;
      if pos + 4 > |buf| {
        return Eof;
      }
      var containerLen := Read32(buf[pos..]);
      if containerLen < 5 || pos + containerLen > |buf| {
        return InvalidBson;
      }
      var endOff := pos + containerLen - 1;
      var isArray := currType == TYPE_ARRAY;
      pos := pos + 4;
      stack := stack + [Frame(isArray, 0, endOff)];
      if buf[pos] == 0 {
        pos := pos + 1;
        stack := stack[..|stack| - 1];
        path.SetState(END_OF_VALUE);
        return Advanced;
      }
      path.SetState(Initial(isArray));
      return Advanced;
    }

    /** The same, for the scan of doc. */
    method PassContainer() returns (r: Outcome)
      requires Safe() && rootInited && path.State() == START_OF_VALUE
               && (currType == TYPE_DOCUMENT || currType == TYPE_ARRAY)
      modifies this, path
      ensures Safe() && rootInited && pos >= old(pos) && (r.Advanced? ==> pos > old(pos))
      ensures old(Follows())
              ==> r.Advanced? && Follows() && old(todo) != [] && Here() == old(todo)[0] && todo == old(todo)[1..]
    {
      hide Standing, Stacked, Enc, Document, KeyFor, OffsetsOf, Read32, DocEvents;
      ghost var follows := Follows();
      if follows {
        ContainerStands(buf, pos, path.path, currType, current, work, todo);
      }
      r := EnterContainer();
      if follows {
        if current.fields.Field? {
          PushStacked(path.path, current, work, old(stack), stack);
          work := Open(path.path, current.isArray, 0, current.fields, work);
        }
        todo := todo[1..];
      }
    }

    /** Passes the scalar whose name was just read. */
    method PassScalar() returns (r: Outcome)
      requires Safe() && rootInited && path.State() == START_OF_VALUE && KnownScalar(currType)
      modifies this, path
      ensures Safe() && rootInited && pos >= old(pos) && (r.Advanced? ==> path.State() == END_OF_VALUE)
      ensures old(Follows())
              ==> r.Advanced? && Follows() && old(todo) != [] && Here() == old(todo)[0] && todo == old(todo)[1..]
    {
      hide Standing, Stacked, Document, KeyFor, OffsetsOf, Enc, At, Wf, DocEvents;
      ghost var follows := Follows();
      if follows {
        ScalarStands(buf, pos, path.path, currType, current, work, todo);
      }
      var end, ok := ElementValueEnd(buf, pos, currType, |buf| - 1, current);
      if !ok {
        return Eof;
      }
      pos := end;
      path.SetState(END_OF_VALUE);
      if follows {
        todo := todo[1..];
      }
      return Advanced;
    }

    /** Passes the value whose name was just read, or enters it if it is a container. */
    method ConsumeValueBody() returns (r: Outcome)
      requires Safe() && rootInited && path.State() == START_OF_VALUE
      modifies this, path
      ensures Safe() && rootInited && pos >= old(pos)
      ensures r.Advanced? ==> pos > old(pos) || (pos == old(pos) && path.State() == END_OF_VALUE)
      ensures old(Follows())
              ==> r.Advanced? && Follows() && old(todo) != [] && Here() == old(todo)[0] && todo == old(todo)[1..]
    {
      if Follows() {
        FacingValue(buf, pos, path.path, current, work, todo);
      }
      hide Ready, Facing, Enc, Document, At, Wf, BodyEvents, KeyFor, OffsetsOf;
      if currType == TYPE_DOCUMENT || currType == TYPE_ARRAY {
        r := PassContainer();
      } else if KnownScalar(currType) {
        r := PassScalar();
      } else {
        r := UnknownType;
      }
    }

    /** Leaves the value just passed and goes on with its container. */
    method AfterEndOfValue() returns (r: Outcome)
      requires Safe() && rootInited && path.State() == END_OF_VALUE
      modifies this, path
      ensures Safe() && rootInited && (r.Eof? || r.Advanced?) && pos >= old(pos)
      ensures r.Advanced? ==> pos > old(pos)
      ensures old(Follows()) && old(todo) == [] ==> r.Eof? && Follows() && todo == [] && Here() == old(Here())
      ensures old(Follows()) && old(todo) != []
              ==> r.Advanced? && Follows() && Here() == old(todo)[0] && todo == old(todo)[1..]
    {
      if Follows() {
        NothingLeft(buf, pos, work, todo);
      }
      hide Ready, Enc, Document;
      if |stack| == 0 {
        return Eof;
      }
      path.Pop();
      path.SetState(START_OF_VALUE);
      r := StartElement();
    }

    /** One step of the scan. */
    method AdvanceToNextLocation() returns (r: Outcome)
      requires Safe()
      modifies this, path
      ensures Safe() && pos >= old(pos)
      ensures r.Advanced? ==> rootInited
      ensures r.Advanced? && old(rootInited)
              ==> pos > old(pos)
                  || (pos == old(pos) && old(path.State()) == START_OF_VALUE && path.State() == END_OF_VALUE)
      ensures old(Follows()) && old(todo) == [] ==> r.Eof? && Follows() && todo == [] && Here() == old(Here())
      ensures old(Follows()) && old(todo) != []
              ==> r.Advanced? && Follows() && Here() == old(todo)[0] && todo == old(todo)[1..]
    {
      if !rootInited {
        r := OpenRoot();
        return;
      }
      if path.State() == START_OF_VALUE {
        r := ConsumeValueBody();
      } else if path.State() == END_OF_VALUE {
        r := AfterEndOfValue();
      } else {
        r := StartElement();
      }
    }
  }

  /** Closing a container leaves the scan at the end of its place in the enclosing one. */
  lemma UpPath(w: Work)
    requires w.Open? && WfWork(w)
    ensures WfWork(w.up) && (w.up.Open? ==> w.up.path == if w.path == [] then [] else Init(w.path))
  {
  }

  lemma NameFound(buf: bytes, from: nat, name: bytes, e: nat)
    requires At(buf, from, name + [0]) && NoZero(name) && from <= e <= |buf|
    requires forall k :: from <= k < e ==> buf[k] != 0
    requires e < |buf| ==> buf[e] == 0
    ensures e == from + |name| < |buf| && buf[from..e] == name
  {
    ZeroIsAt(buf, from, name, e, |buf|);
    AtConcat(buf, from, name, [0]);
  }

  /** The stack after the innermost container has given out one element. */
  function BumpTop(stack: seq<Frame>): seq<Frame>
    requires stack != []
  {
    var top := stack[|stack| - 1];
    if top.isArray then stack[..|stack| - 1] + [Frame(true, top.arrayIdx + 1, top.endOff)] else stack
  }

  lemma BumpBound(stack: seq<Frame>, pos: nat, pos': nat)
    requires stack != [] && pos < pos' && forall k :: 0 <= k < |stack| ==> stack[k].arrayIdx <= pos
    ensures forall k :: 0 <= k < |BumpTop(stack)| ==> BumpTop(stack)[k].arrayIdx <= pos'
  {
  }

  /** The step to the innermost container's next element. */
  function TopStep(stack: seq<Frame>, name: bytes): Elem
    requires stack != []
  {
    StepTo(stack[|stack| - 1].isArray, stack[|stack| - 1].arrayIdx, name)
  }

  lemma NextStacked(w: Work, stack: seq<Frame>, stack': seq<Frame>, name: bytes)
    requires w.Open? && w.fs.Field? && stack != [] && Stacked(w, stack) && stack' == BumpTop(stack)
    ensures Stacked(w.(idx := w.idx + 1, fs := w.fs.rest), stack')
            && TopStep(stack, name) == StepTo(w.isArray, w.idx, name)
  {
    assert stack'[..|stack'| - 1] == stack[..|stack| - 1];
  }

  /** What the value at hand looks like, and where the scan stands behind it. */
  lemma FacingValue(buf: bytes, at: nat, p: Path, v: Value, w: Work, todo: seq<Event>)
    requires Facing(buf, at, p, v, w, todo)
    ensures Wf(v) && At(buf, at, Enc(v)) && at + |Enc(v)| <= |buf| && |Enc(v)| < U32
    ensures v.Scalar? ==> KnownScalar(TagOf(v)) && TagOf(v) != TYPE_DOCUMENT && TagOf(v) != TYPE_ARRAY
    ensures v.Node? ==> at + 4 < |buf| && Read32(buf[at..]) == |Enc(v)| >= 5 && (buf[at + 4] == 0 <==> v.fields.End?)
    ensures todo != []
    ensures v.Scalar? || v.fields.End?
            ==> todo[0] == Event(Loc(END_OF_VALUE, p), at + |Enc(v)|) && Ready(buf, at + |Enc(v)|, w, todo[1..])
    ensures v.Node? && v.fields.End? ==> |Enc(v)| == 5
    ensures v.Node? && v.fields.Field? ==>
              todo[0] == Event(Loc(Initial(v.isArray), p), at + 4)
              && Ready(buf, at + 4, Open(p, v.isArray, 0, v.fields, w), todo[1..])
    ensures w.Open? && w.path == Init(p) && p != []
  {
    if v.Node? {
      NodeAt(buf, at, v);
      NodeSize(v);
    }
    hide Enc, BodyEvents, WorkEvents, WorkBytes;
    if v.Scalar? || v.fields.End? {
      StepValue(buf, at, p, v, w, todo);
    } else {
      StepOpen(buf, at, p, v, w, todo);
    }
  }

  lemma FieldAhead(buf: bytes, at: nat, w: Work, todo: seq<Event>)
    requires Ready(buf, at, w, todo) && w.Open? && w.fs.Field?
    ensures NoZero(w.fs.name) && At(buf, at + 1, w.fs.name + [0])
  {
    StepField(buf, at, w, todo);
  }

  /** Where the scan stands once it has stepped onto the next field. */
  lemma FieldStands(buf: bytes, at: nat, w: Work, stack: seq<Frame>, todo: seq<Event>, nameEnd: nat)
    requires Ready(buf, at, w, todo) && w.Open? && w.fs.Field? && stack != [] && Stacked(w, stack)
             && nameEnd == at + 1 + |w.fs.name|
    ensures var w' := w.(idx := w.idx + 1, fs := w.fs.rest);
            nameEnd < |buf| && Stacked(w', BumpTop(stack)) && todo != []
            && var here := w.path + [TopStep(stack, buf[at + 1..nameEnd])];
               todo[0] == Event(Loc(START_OF_VALUE, here), nameEnd + 1)
               && Standing(buf, nameEnd + 1, START_OF_VALUE, here, buf[at], w.fs.value, w', todo[1..])
  {
    hide Ready, Facing, At;
    StepField(buf, at, w, todo);
    AtConcat(buf, at + 1, w.fs.name, [0]);
    AtSlice(buf, at + 1, w.fs.name);
    AtFits(buf, at + 1, w.fs.name + [0]);
    NextStacked(w, stack, BumpTop(stack), w.fs.name);
  }

  lemma AtSlice(buf: bytes, i: int, s: bytes)
    requires At(buf, i, s)
    ensures 0 <= i <= i + |s| <= |buf| && buf[i..i + |s|] == s
  {
  }

  /** Where the scan stands once it has entered a container or passed an empty one. */
  lemma ContainerStands(buf: bytes, at: nat, p: Path, currType: byte, v: Value, w: Work, todo: seq<Event>)
    requires Standing(buf, at, START_OF_VALUE, p, currType, v, w, todo)
             && (currType == TYPE_DOCUMENT || currType == TYPE_ARRAY)
    ensures v.Node? && v.isArray == (currType == TYPE_ARRAY) && todo != []
    ensures at + 5 <= |buf| && 5 <= Read32(buf[at..]) <= |buf| - at && (buf[at + 4] == 0 <==> v.fields.End?)
    ensures v.fields.End? ==> todo[0] == Event(Loc(END_OF_VALUE, p), at + 5)
                              && Standing(buf, at + 5, END_OF_VALUE, p, currType, v, w, todo[1..])
    ensures v.fields.Field? ==>
              var w' := Open(p, v.isArray, 0, v.fields, w);
              todo[0] == Event(Loc(Initial(v.isArray), p), at + 4)
              && Standing(buf, at + 4, Initial(v.isArray), p, currType, v, w', todo[1..])
  {
    FacingValue(buf, at, p, v, w, todo);
    hide Ready, Facing, At, Wf, WfWork;
  }

  lemma PushStacked(p: Path, v: Value, w: Work, stack: seq<Frame>, stack': seq<Frame>)
    requires v.Node? && Stacked(w, stack) && |stack'| == |stack| + 1 && stack'[..|stack|] == stack
    requires stack'[|stack|].isArray == v.isArray && stack'[|stack|].arrayIdx == 0
    ensures Stacked(Open(p, v.isArray, 0, v.fields, w), stack')
  {
  }

  /** Where the scan stands once it has passed a scalar. */
  lemma ScalarStands(buf: bytes, at: nat, p: Path, currType: byte, v: Value, w: Work, todo: seq<Event>)
    requires Standing(buf, at, START_OF_VALUE, p, currType, v, w, todo) && KnownScalar(currType)
    ensures Wf(v) && TagOf(v) == currType && At(buf, at, Enc(v)) && |Enc(v)| < U32 && at + |Enc(v)| <= |buf|
    ensures todo != [] && todo[0] == Event(Loc(END_OF_VALUE, p), at + |Enc(v)|)
    ensures Standing(buf, at + |Enc(v)|, END_OF_VALUE, p, currType, v, w, todo[1..])
  {
    FacingValue(buf, at, p, v, w, todo);
    hide Ready, Facing, At, Wf, WfWork, Enc;
  }

  /** Nothing is left to pass exactly when no container is open. */
  lemma NothingLeft(buf: bytes, at: nat, w: Work, todo: seq<Event>)
    requires Ready(buf, at, w, todo)
    ensures todo == [] <==> w.Finished?
    ensures w.Finished? ==> at == |buf|
  {
  }
}
