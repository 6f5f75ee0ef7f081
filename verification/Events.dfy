/**
 The places a scan of a document passes, in order, with the byte position at
 which each is reached; and why that order is the order of location keys.
 */
module Events {
  import opened Bytes
  import opened Tree
  import opened Edits
  import opened Varint
  import opened Keys

  datatype Event = Event(loc: Loc, pos: nat)

  /** The step from a container to one of its fields: arrays count, objects name. */
  function StepTo(isArray: bool, idx: nat, name: bytes): Elem {
    if isArray then Index(idx) else Key(name)
  }

  function Initial(isArray: bool): byte {
    if isArray then ARRAY_INITIAL else OBJECT_INITIAL
  }

  /** The events of the value at path whose bytes start at p, its start aside. */
  function BodyEvents(path: Path, v: Value, p: nat): seq<Event>
    decreases v
  {
    var end := Event(Loc(END_OF_VALUE, path), p + |Enc(v)|);
    match v
    case Scalar(_, _) => [end]
    case Node(isArray, fs) =>
      if fs.End? then [end]
      else [Event(Loc(Initial(isArray), path), p + 4)] + FieldEvents(path, isArray, 0, fs, p + 4) + [end]
  }

  /** The events of the fields of the container at path, the first of them the idx-th. */
  function FieldEvents(path: Path, isArray: bool, idx: nat, fs: Fields, p: nat): seq<Event>
    decreases fs
  {
    match fs
    case End => []
    case Field(name, v, rest) =>
      var here, q := path + [StepTo(isArray, idx, name)], p + 2 + |name|;
      [Event(Loc(START_OF_VALUE, here), q)] + BodyEvents(here, v, q)
      + FieldEvents(path, isArray, idx + 1, rest, q + |Enc(v)|)
  }

  /** The events of a document; an empty one passes its end twice. */
  function DocEvents(doc: Value): seq<Event>
    requires doc.Node?
  {
    if doc.fields.End? then [Event(Loc(END_OF_VALUE, []), 4), Event(Loc(END_OF_VALUE, []), 5)]
    else [Event(Loc(OBJECT_INITIAL, []), 4)] + FieldEvents([], false, 0, doc.fields, 4)
         + [Event(Loc(END_OF_VALUE, []), |Enc(doc)|)]
  }

  // ------------------------------------------------------------------ order

  /** Keys strictly increase and positions never fall. */
  ghost predicate InOrder(es: seq<Event>) {
    forall i, j :: 0 <= i < j < |es| ==> Cmp(es[i].loc, es[j].loc) < 0 && es[i].pos <= es[j].pos
  }

  /** Every event of es lies at or below path, between the two positions. */
  ghost predicate Within(es: seq<Event>, path: Path, lo: nat, hi: nat) {
    forall i :: 0 <= i < |es| ==> path <= es[i].loc.path && es[i].loc.state < NUM_STATES && lo <= es[i].pos <= hi
  }

  ghost predicate Precede(es: seq<Event>, fs: seq<Event>) {
    forall i, j :: 0 <= i < |es| && 0 <= j < |fs| ==> Cmp(es[i].loc, fs[j].loc) < 0 && es[i].pos <= fs[j].pos
  }

  lemma InOrderConcat(es: seq<Event>, fs: seq<Event>)
    requires InOrder(es) && InOrder(fs) && Precede(es, fs)
    ensures InOrder(es + fs)
  {
    hide Cmp;
    forall i, j | 0 <= i < j < |es + fs|
      ensures Cmp((es + fs)[i].loc, (es + fs)[j].loc) < 0 && (es + fs)[i].pos <= (es + fs)[j].pos
    {
      if i >= |es| {
        assert (es + fs)[i] == fs[i - |es|];
      }
      if j >= |es| {
        assert (es + fs)[j] == fs[j - |es|];
      }
    }
  }

  lemma WithinConcat(es: seq<Event>, fs: seq<Event>, path: Path, lo: nat, hi: nat)
    requires Within(es, path, lo, hi) && Within(fs, path, lo, hi)
    ensures Within(es + fs, path, lo, hi)
  {
    forall i | 0 <= i < |es + fs|
      ensures path <= (es + fs)[i].loc.path && (es + fs)[i].loc.state < NUM_STATES && lo <= (es + fs)[i].pos <= hi
    {
      if i >= |es| {
        assert (es + fs)[i] == fs[i - |es|];
      }
    }
  }

  lemma WithinWider(es: seq<Event>, path: Path, lo: nat, hi: nat, path': Path, lo': nat, hi': nat)
    requires Within(es, path, lo, hi) && path' <= path && lo' <= lo && hi <= hi'
    ensures Within(es, path', lo', hi')
  {
  }

  lemma {:induction false} BodyInOrder(path: Path, v: Value, p: nat)
    requires Sorted(v)
    ensures InOrder(BodyEvents(path, v, p)) && Within(BodyEvents(path, v, p), path, p, p + |Enc(v)|)
    ensures forall i :: 0 <= i < |BodyEvents(path, v, p)|
                        ==> Cmp(Loc(START_OF_VALUE, path), BodyEvents(path, v, p)[i].loc) < 0
    decreases v
  {
    hide Cmp, Enc, EncFields, FieldEvents;
    BracketState(path);
    if v.Node? && v.fields.Field? {
      var start, inner, end := [Event(Loc(Initial(v.isArray), path), p + 4)],
                               FieldEvents(path, v.isArray, 0, v.fields, p + 4),
                               [Event(Loc(END_OF_VALUE, path), p + |Enc(v)|)];
      FieldsInOrder(path, v.isArray, 0, v.fields, p + 4);
      NodeSize(v);
      BracketAll(path, inner, Initial(v.isArray));
      BracketAll(path, inner, START_OF_VALUE);
      Bracketed(path, start, inner, end, p, p + |Enc(v)|);
    }
  }

  /** At one path the states come in their numeric order. */
  lemma BracketState(path: Path)
    ensures Cmp(Loc(START_OF_VALUE, path), Loc(OBJECT_INITIAL, path)) < 0
    ensures Cmp(Loc(START_OF_VALUE, path), Loc(ARRAY_INITIAL, path)) < 0
    ensures Cmp(Loc(OBJECT_INITIAL, path), Loc(END_OF_VALUE, path)) < 0
    ensures Cmp(Loc(ARRAY_INITIAL, path), Loc(END_OF_VALUE, path)) < 0
    ensures Cmp(Loc(START_OF_VALUE, path), Loc(END_OF_VALUE, path)) < 0
  {
    assert path + [] == path;
    CmpCommon(START_OF_VALUE, OBJECT_INITIAL, path, [], []);
    CmpCommon(START_OF_VALUE, ARRAY_INITIAL, path, [], []);
    CmpCommon(OBJECT_INITIAL, END_OF_VALUE, path, [], []);
    CmpCommon(ARRAY_INITIAL, END_OF_VALUE, path, [], []);
    CmpCommon(START_OF_VALUE, END_OF_VALUE, path, [], []);
  }

  /** Events strictly below path lie between its start states and its end. */
  ghost predicate Below(es: seq<Event>, path: Path) {
    forall i :: 0 <= i < |es| ==> path < es[i].loc.path
  }

  lemma BracketAll(path: Path, es: seq<Event>, s: byte)
    requires Below(es, path) && s < END_OF_VALUE
    requires forall i :: 0 <= i < |es| ==> es[i].loc.state < NUM_STATES
    ensures forall i :: 0 <= i < |es|
                        ==> Cmp(Loc(s, path), es[i].loc) < 0 && Cmp(es[i].loc, Loc(END_OF_VALUE, path)) < 0
  {
    hide Cmp;
    forall i | 0 <= i < |es| ensures Cmp(Loc(s, path), es[i].loc) < 0 && Cmp(es[i].loc, Loc(END_OF_VALUE, path)) < 0 {
      var q := es[i].loc.path;
      var below := q[|path|..];
      assert q == path + below && below != [];
      ContainerBrackets(path, below, s, es[i].loc.state);
      ContainerBrackets(path, below, END_OF_VALUE, es[i].loc.state);
    }
  }

  lemma Bracketed(path: Path, start: seq<Event>, inner: seq<Event>, end: seq<Event>, lo: nat, hi: nat)
    requires |start| == 1 && |end| == 1 && start[0].loc.path == path && end[0].loc == Loc(END_OF_VALUE, path)
    requires start[0].loc.state in {OBJECT_INITIAL, ARRAY_INITIAL}
    requires InOrder(inner) && Within(inner, path, start[0].pos, hi)
    requires lo <= start[0].pos <= end[0].pos == hi
    requires forall i :: 0 <= i < |inner| ==> Cmp(start[0].loc, inner[i].loc) < 0 && Cmp(inner[i].loc, end[0].loc) < 0
    requires forall i :: 0 <= i < |inner| ==> Cmp(Loc(START_OF_VALUE, path), inner[i].loc) < 0
    ensures InOrder(start + inner + end) && Within(start + inner + end, path, lo, hi)
    ensures forall i :: 0 <= i < |start + inner + end|
                        ==> Cmp(Loc(START_OF_VALUE, path), (start + inner + end)[i].loc) < 0
  {
    BracketState(path);
    hide Cmp;
    InOrderConcat(start, inner);
    assert Precede(start + inner, end) by {
      forall i, j | 0 <= i < |start + inner| && 0 <= j < 1
        ensures Cmp((start + inner)[i].loc, end[j].loc) < 0 && (start + inner)[i].pos <= end[j].pos
      {
        if i > 0 {
          assert (start + inner)[i] == inner[i - 1];
        }
      }
    }
    InOrderConcat(start + inner, end);
    WithinWider(inner, path, start[0].pos, hi, path, lo, hi);
    WithinConcat(start, inner, path, lo, hi);
    WithinConcat(start + inner, end, path, lo, hi);
    forall i | 0 <= i < |start + inner + end| ensures Cmp(Loc(START_OF_VALUE, path), (start + inner + end)[i].loc) < 0 {
      if 0 < i <= |inner| {
        assert (start + inner + end)[i] == inner[i - 1];
      }
    }
  }

  /** Every event of es lies at or below one of the steps first or later. */
  ghost predicate From(es: seq<Event>, path: Path, first: Elem) {
    forall i :: 0 <= i < |es| ==>
      path < es[i].loc.path && ElemCmp(first, es[i].loc.path[|path|]) <= 0
  }

  lemma {:induction false} FieldsInOrder(path: Path, isArray: bool, idx: nat, fs: Fields, p: nat)
    requires SortedFields(fs) && (isArray || Ascending(fs))
    ensures InOrder(FieldEvents(path, isArray, idx, fs, p))
    ensures Within(FieldEvents(path, isArray, idx, fs, p), path, p, p + |EncFields(fs)|)
    ensures Below(FieldEvents(path, isArray, idx, fs, p), path)
    ensures fs.Field? ==> From(FieldEvents(path, isArray, idx, fs, p), path, StepTo(isArray, idx, fs.name))
    decreases fs
  {
    hide InOrder, Within, Below, From, Cmp, Enc, EncFields, BodyEvents, FieldEvents;
    if fs.End? {
      NoEvents(path, isArray, idx, p);
    } else {
      var el, q := StepTo(isArray, idx, fs.name), p + 2 + |fs.name|;
      var here := path + [el];
      BodyInOrder(here, fs.value, q);
      FieldsInOrder(path, isArray, idx + 1, fs.rest, q + |Enc(fs.value)|);
      var start, body, rest := [Event(Loc(START_OF_VALUE, here), q)], BodyEvents(here, fs.value, q),
                               FieldEvents(path, isArray, idx + 1, fs.rest, q + |Enc(fs.value)|);
      FirstEvents(path, isArray, idx, fs, p);
      EntrySize(fs);
      FirstField(path, el, start, body, q, q + |Enc(fs.value)|);
      WithinWider(start + body, here, q, q + |Enc(fs.value)|, here, p, q + |Enc(fs.value)|);
      NextStep(isArray, idx, fs);
      JoinFields(path, el, if fs.rest.Field? then StepTo(isArray, idx + 1, fs.rest.name) else el,
                 start + body, rest, p, q + |Enc(fs.value)|, p + |EncFields(fs)|);
    }
  }

  lemma NoEvents(path: Path, isArray: bool, idx: nat, p: nat)
    ensures var es := FieldEvents(path, isArray, idx, End, p);
            es == [] && InOrder(es) && Within(es, path, p, p + |EncFields(End)|) && Below(es, path)
  {
  }

  lemma FirstEvents(path: Path, isArray: bool, idx: nat, fs: Fields, p: nat)
    requires fs.Field?
    ensures var here, q := path + [StepTo(isArray, idx, fs.name)], p + 2 + |fs.name|;
            FieldEvents(path, isArray, idx, fs, p)
            == [Event(Loc(START_OF_VALUE, here), q)] + BodyEvents(here, fs.value, q)
               + FieldEvents(path, isArray, idx + 1, fs.rest, q + |Enc(fs.value)|)
            && (fs.rest.End? ==> FieldEvents(path, isArray, idx + 1, fs.rest, q + |Enc(fs.value)|) == [])
  {
    hide BodyEvents, Enc;
  }

  lemma NextStep(isArray: bool, idx: nat, fs: Fields)
    requires fs.Field? && (isArray || Ascending(fs))
    ensures fs.rest.Field? ==> ElemCmp(StepTo(isArray, idx, fs.name), StepTo(isArray, idx + 1, fs.rest.name)) < 0
  {
  }

  /** One field: its start, then its body. */
  lemma FirstField(path: Path, el: Elem, start: seq<Event>, body: seq<Event>, lo: nat, hi: nat)
    requires start == [Event(Loc(START_OF_VALUE, path + [el]), lo)]
    requires InOrder(body) && Within(body, path + [el], lo, hi) && lo <= hi
    requires forall i :: 0 <= i < |body| ==> Cmp(Loc(START_OF_VALUE, path + [el]), body[i].loc) < 0
    ensures InOrder(start + body) && Within(start + body, path + [el], lo, hi)
  {
    hide Cmp;
    InOrderConcat(start, body);
    WithinConcat(start, body, path + [el], lo, hi);
  }

  /** The events of one field, then those of its later siblings. */
  lemma JoinFields(path: Path, el: Elem, next: Elem, es: seq<Event>, rest: seq<Event>, lo: nat, mid: nat, hi: nat)
    requires InOrder(es) && Within(es, path + [el], lo, mid) && lo <= mid <= hi
    requires InOrder(rest) && Within(rest, path, mid, hi) && Below(rest, path)
    requires rest != [] ==> ElemCmp(el, next) < 0 && From(rest, path, next)
    ensures InOrder(es + rest) && Within(es + rest, path, lo, hi) && Below(es + rest, path) && From(es + rest, path, el)
  {
    hide Cmp, InOrder;
    forall i, j | 0 <= i < |es| && 0 <= j < |rest| ensures Cmp(es[i].loc, rest[j].loc) < 0 && es[i].pos <= rest[j].pos {
      SiblingOrder(path, el, next, es[i].loc, rest[j].loc);
    }
    InOrderConcat(es, rest);
    WithinWider(es, path + [el], lo, mid, path, lo, hi);
    WithinWider(rest, path, mid, hi, path, lo, hi);
    WithinConcat(es, rest, path, lo, hi);
    forall i | 0 <= i < |es + rest|
      ensures path < (es + rest)[i].loc.path && ElemCmp(el, (es + rest)[i].loc.path[|path|]) <= 0
    {
      if i < |es| {
        assert (es + rest)[i] == es[i];
        var q := es[i].loc.path;
        assert q[|path|] == (path + [el])[|path|] == el;
        assert path == q[..|path|] by { assert (path + [el])[..|path|] == path; }
        TokenTotal(Step(el), Step(el));
      } else {
        assert (es + rest)[i] == rest[i - |es|];
        StepChain(el, next, rest[i - |es|].loc.path[|path|]);
      }
    }
  }

  lemma StepChain(a: Elem, b: Elem, c: Elem)
    requires ElemCmp(a, b) < 0 && ElemCmp(b, c) <= 0
    ensures ElemCmp(a, c) < 0
  {
    TokenTotal(Step(b), Step(c));
    if ElemCmp(b, c) < 0 {
      TokenTransitive(Step(a), Step(b), Step(c));
    }
  }

  /** Whatever lies at or below an earlier sibling precedes what lies below a later one. */
  lemma SiblingOrder(path: Path, el: Elem, next: Elem, a: Loc, b: Loc)
    requires path + [el] <= a.path && path < b.path && ElemCmp(el, next) < 0 && ElemCmp(next, b.path[|path|]) <= 0
    ensures Cmp(a, b) < 0
  {
    var f := b.path[|path|];
    StepChain(el, next, f);
    var p, q := a.path[|path|..], b.path[|path|..];
    assert a.path == path + p by { assert a.path[..|path|] == (path + [el])[..|path|] == path; }
    assert b.path == path + q;
    assert p[0] == a.path[|path|] == (path + [el])[|path|] == el;
    assert q[0] == f;
    CmpCommon(a.state, b.state, path, p, q);
    assert TokenCmp(Tokens(a.state, p)[0], Tokens(b.state, q)[0]) < 0;
  }

  /**
   Scan order is key order: over a document with ascending field names the events
   strictly increase, the root's end is the greatest, and it is reached at the
   document's last byte.
   */
  lemma ScanOrder(doc: Value)
    requires doc.Node? && Sorted(doc) && !doc.isArray && doc.fields.Field?
    ensures InOrder(DocEvents(doc))
    ensures DocEvents(doc)[|DocEvents(doc)| - 1] == Event(Loc(END_OF_VALUE, []), |Enc(doc)|)
  {
    BodyInOrder([], doc, 0);
    assert DocEvents(doc) == BodyEvents([], doc, 0);
  }
}
