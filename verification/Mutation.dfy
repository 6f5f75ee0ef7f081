/**
 Editing a document's bytes in place: find the entry, splice it, and patch the
 length prefix of every container around it. Each edit of the bytes of a tree
 gives exactly the bytes of the edited tree.
 */
module Mutation {
  import opened Bytes
  import opened Tree
  import opened Edits
  import EditMeaning

  // ----------------------------------------------------------------- offsets

  /** Distance from the start of a field list to its first field of that name. */
  function EntryOff(fs: Fields, name: bytes): nat {
    match fs
    case End => 0
    case Field(n, v, rest) => if n == name then 0 else |EncEntry(n, v)| + EntryOff(rest, name)
  }

  /** Distance from the start of a field list to where Insert puts a new name. */
  function InsertOff(fs: Fields, name: bytes): nat {
    match fs
    case End => 0
    case Field(n, v, rest) => if Lex(n, name) > 0 then 0 else |EncEntry(n, v)| + InsertOff(rest, name)
  }

  /** Distance from a container's length prefix to the value of its field. */
  function ChildOff(node: Value, name: bytes): nat
    requires node.Node?
  {
    4 + EntryOff(node.fields, name) + 2 + |name|
  }

  /** Absolute offsets of the length prefixes on the way to the container at p. */
  function PrefixOffsets(node: Value, base: nat, p: Path): seq<nat>
    requires node.Node? && Walk(node, p).Ok?
    decreases |p|
  {
    if p == [] then [base]
    else
      var name := NameOf(p[0]);
      [base] + PrefixOffsets(Get(node.fields, name).value, base + ChildOff(node, name), p[1..])
  }

  /** Distance from a container's length prefix to that of the container at p. */
  function Depth(node: Value, p: Path): nat
    requires node.Node? && Walk(node, p).Ok?
    decreases |p|
  {
    if p == [] then 0
    else
      var name := NameOf(p[0]);
      ChildOff(node, name) + Depth(Get(node.fields, name).value, p[1..])
  }

  lemma {:induction false} DescendOne(node: Value, p: Path, el: Elem)
    requires node.Node? && Walk(node, p).Ok? && Walk(node, p + [el]).Ok?
    ensures Get(Walk(node, p).value.fields, NameOf(el)) == Some(Walk(node, p + [el]).value)
    ensures Depth(node, p + [el]) == Depth(node, p) + ChildOff(Walk(node, p).value, NameOf(el))
    decreases |p|
  {
    hide ChildOff;
    if p == [] {
      assert p + [el] == [el] && [el][1..] == [];
    } else {
      assert (p + [el])[1..] == p[1..] + [el] && (p + [el])[0] == p[0];
      DescendOne(Get(node.fields, NameOf(p[0])).value, p[1..], el);
    }
  }

  /** A descent seen from its first step. */
  lemma OffsetsStep(node: Value, base: nat, el: Elem, p: Path)
    requires node.Node? && Walk(node, [el] + p).Ok?
    ensures var c := Get(node.fields, NameOf(el));
            c.Some? && c.value.Node? && Walk(c.value, p) == Walk(node, [el] + p)
            && Depth(node, [el] + p) == ChildOff(node, NameOf(el)) + Depth(c.value, p)
            && PrefixOffsets(node, base, [el] + p)
               == [base] + PrefixOffsets(c.value, base + ChildOff(node, NameOf(el)), p)
  {
    assert ([el] + p)[1..] == p;
  }

  lemma {:induction false} PrefixOffsetsSnoc(node: Value, base: nat, p: Path, el: Elem)
    requires node.Node? && Walk(node, p).Ok? && Walk(node, p + [el]).Ok?
    ensures PrefixOffsets(node, base, p + [el]) == PrefixOffsets(node, base, p) + [base + Depth(node, p + [el])]
    decreases |p|
  {
    hide ChildOff, PrefixOffsets, Depth, Walk;
    if p == [] {
      assert p + [el] == [el] == [el] + [];
      OffsetsStep(node, base, el, []);
      OffsetsBase(node, base);
      OffsetsBase(Get(node.fields, NameOf(el)).value, base + ChildOff(node, NameOf(el)));
    } else {
      assert p == [p[0]] + p[1..] && p + [el] == [p[0]] + (p[1..] + [el]);
      OffsetsStep(node, base, p[0], p[1..]);
      OffsetsStep(node, base, p[0], p[1..] + [el]);
      PrefixOffsetsSnoc(Get(node.fields, NameOf(p[0])).value, base + ChildOff(node, NameOf(p[0])), p[1..], el);
    }
  }

  lemma OffsetsBase(node: Value, base: nat)
    requires node.Node?
    ensures Walk(node, []) == Ok(node) && Depth(node, []) == 0 && PrefixOffsets(node, base, []) == [base]
  {
  }

  // ------------------------------------------------ encodings of edited lists

  /** The bytes of fs in front of its first field of that name. */
  function Before(fs: Fields, name: bytes): (r: bytes)
    ensures |r| == EntryOff(fs, name)
  {
    match fs
    case End => []
    case Field(n, v, rest) => if n == name then [] else EncEntry(n, v) + Before(rest, name)
  }

  /** The bytes of fs behind its first field of that name. */
  function After(fs: Fields, name: bytes): bytes {
    match fs
    case End => []
    case Field(n, v, rest) => if n == name then EncFields(rest) else After(rest, name)
  }

  lemma {:induction false} EncAround(fs: Fields, name: bytes)
    requires Get(fs, name).Some?
    ensures EncFields(fs) == Before(fs, name) + EncEntry(name, Get(fs, name).value) + After(fs, name)
  {
    if fs.name == name {
      assert Before(fs, name) + EncEntry(name, fs.value) == EncEntry(name, fs.value);
    } else {
      EncAround(fs.rest, name);
      Regroup3(EncEntry(fs.name, fs.value), Before(fs.rest, name), EncEntry(name, Get(fs, name).value),
               After(fs.rest, name));
    }
  }

  lemma {:induction false} EncReplace(fs: Fields, name: bytes, v: Value)
    requires Get(fs, name).Some?
    ensures EncFields(Replace(fs, name, v)) == Before(fs, name) + EncEntry(name, v) + After(fs, name)
  {
    if fs.name == name {
      assert Before(fs, name) + EncEntry(name, v) == EncEntry(name, v);
    } else {
      EncReplace(fs.rest, name, v);
      Regroup3(EncEntry(fs.name, fs.value), Before(fs.rest, name), EncEntry(name, v), After(fs.rest, name));
    }
  }

  lemma {:induction false} EncRemove(fs: Fields, name: bytes)
    requires Get(fs, name).Some?
    ensures EncFields(Remove(fs, name)) == Before(fs, name) + After(fs, name)
  {
    if fs.name == name {
      assert Before(fs, name) + After(fs, name) == After(fs, name);
    } else {
      EncRemove(fs.rest, name);
      Regroup3(EncEntry(fs.name, fs.value), Before(fs.rest, name), [], After(fs.rest, name));
      assert Before(fs.rest, name) + [] == Before(fs.rest, name);
      assert Before(fs, name) + [] == Before(fs, name);
    }
  }

  lemma Regroup3<T>(a: seq<T>, b: seq<T>, c: seq<T>, d: seq<T>)
    ensures a + (b + c + d) == (a + b) + c + d
  {
  }

  /** The bytes of fs in front of, and behind, the place Insert chooses. */
  function Lower(fs: Fields, name: bytes): (r: bytes)
    ensures |r| == InsertOff(fs, name)
  {
    match fs
    case End => []
    case Field(n, v, rest) => if Lex(n, name) > 0 then [] else EncEntry(n, v) + Lower(rest, name)
  }

  function Upper(fs: Fields, name: bytes): bytes {
    match fs
    case End => []
    case Field(n, v, rest) => if Lex(n, name) > 0 then EncFields(fs) else Upper(rest, name)
  }

  lemma {:induction false} EncInsert(fs: Fields, name: bytes, v: Value)
    ensures EncFields(fs) == Lower(fs, name) + Upper(fs, name)
    ensures EncFields(Insert(fs, name, v)) == Lower(fs, name) + EncEntry(name, v) + Upper(fs, name)
  {
    if fs.Field? {
      var h, l, u := EncEntry(fs.name, fs.value), Lower(fs.rest, name), Upper(fs.rest, name);
      if Lex(fs.name, name) > 0 {
        assert [] + EncEntry(name, v) == EncEntry(name, v);
      } else {
        EncInsert(fs.rest, name, v);
        assert h + (l + u) == (h + l) + u;
        Regroup3(h, l, EncEntry(name, v), u);
      }
    }
  }

  lemma {:induction false} EncAppend(fs: Fields, name: bytes, v: Value)
    ensures EncFields(Append(fs, name, v)) == EncFields(fs) + EncEntry(name, v)
  {
    if fs.Field? {
      EncAppend(fs.rest, name, v);
      assert EncEntry(fs.name, fs.value) + (EncFields(fs.rest) + EncEntry(name, v))
          == (EncEntry(fs.name, fs.value) + EncFields(fs.rest)) + EncEntry(name, v);
    }
  }

  // ------------------------------------------------------------ surroundings

  function EntryHead(tag: byte, name: bytes): bytes { [tag] + name + [0] }

  /** The bytes between node's length prefix and the value of its field. */
  function EntryLead(node: Value, name: bytes): (r: bytes)
    requires node.Node? && Get(node.fields, name).Some?
    ensures |r| + 4 == ChildOff(node, name)
  {
    Before(node.fields, name) + EntryHead(TagOf(Get(node.fields, name).value), name)
  }

  /** The bytes of node behind the value of its field. */
  function EntryTrail(node: Value, name: bytes): bytes
    requires node.Node? && Get(node.fields, name).Some?
  {
    After(node.fields, name) + [0]
  }

  /** The bytes of node in front of the field list of the container at p. */
  function Head(node: Value, p: Path): (r: bytes)
    requires node.Node? && Walk(node, p).Ok?
    ensures |r| == Depth(node, p) + 4
    decreases |p|
  {
    var len := Le32(|EncFields(node.fields)| + 5);
    if p == [] then len
    else
      var name := NameOf(p[0]);
      var c := Get(node.fields, name).value;
      len + EntryLead(node, name) + Head(c, p[1..])
  }

  /** The bytes of node behind the field list of the container at p. */
  function Tail(node: Value, p: Path): bytes
    requires node.Node? && Walk(node, p).Ok?
    decreases |p|
  {
    if p == [] then [0]
    else
      var name := NameOf(p[0]);
      Tail(Get(node.fields, name).value, p[1..]) + EntryTrail(node, name)
  }

  /** Head, Tail and PrefixOffsets one level down. */
  lemma SurroundStep(node: Value, p: Path, base: nat)
    requires node.Node? && p != [] && Walk(node, p).Ok?
    ensures var name := NameOf(p[0]);
            var c := Get(node.fields, name).value;
            c.Node? && Walk(c, p[1..]) == Walk(node, p)
            && Head(node, p) == Le32(|EncFields(node.fields)| + 5) + EntryLead(node, name) + Head(c, p[1..])
            && Tail(node, p) == Tail(c, p[1..]) + EntryTrail(node, name)
            && PrefixOffsets(node, base, p) == [base] + PrefixOffsets(c, base + ChildOff(node, name), p[1..])
  {
  }

  lemma {:induction false} EncSurround(node: Value, p: Path)
    requires node.Node? && Walk(node, p).Ok?
    ensures Enc(node) == Head(node, p) + EncFields(Walk(node, p).value.fields) + Tail(node, p)
    decreases |p|
  {
    hide EncFields, Le32, EntryLead, EntryTrail;
    if p != [] {
      var name := NameOf(p[0]);
      var c := Get(node.fields, name).value;
      SurroundStep(node, p, 0);
      EncSurround(c, p[1..]);
      EncInside(node, name);
      Regroup5(Le32(|EncFields(node.fields)| + 5), EntryLead(node, name), Head(c, p[1..]),
               EncFields(Walk(node, p).value.fields), Tail(c, p[1..]), EntryTrail(node, name));
    }
  }

  lemma Regroup5<T>(l: seq<T>, k: seq<T>, h: seq<T>, x: seq<T>, t: seq<T>, q: seq<T>)
    ensures l + k + (h + x + t) + q == (l + k + h) + x + (t + q)
  {
  }

  /** A child inside its parent. */
  lemma EncInside(node: Value, name: bytes)
    requires node.Node? && Get(node.fields, name).Some?
    ensures var v := Get(node.fields, name).value;
            Enc(node) == Le32(|EncFields(node.fields)| + 5) + EntryLead(node, name) + Enc(v) + EntryTrail(node, name)
  {
    var v := Get(node.fields, name).value;
    EncAround(node.fields, name);
    RegroupChild(Le32(|EncFields(node.fields)| + 5), Before(node.fields, name), EntryHead(TagOf(v), name), Enc(v),
                 After(node.fields, name), [0]);
  }

  /** Replacing a child container changes the bytes on neither side of it. */
  lemma EncChild(node: Value, name: bytes, c: Value)
    requires node.Node? && Get(node.fields, name).Some? && TagOf(c) == TagOf(Get(node.fields, name).value)
    ensures Enc(Node(node.isArray, Replace(node.fields, name, c)))
         == Le32(|EncFields(node.fields)| - |Enc(Get(node.fields, name).value)| + |Enc(c)| + 5)
            + EntryLead(node, name) + Enc(c) + EntryTrail(node, name)
  {
    hide EncFields, Replace, Le32, Before, After, Get;
    EncAround(node.fields, name);
    EncReplace(node.fields, name, c);
    RegroupChild(Le32(|EncFields(Replace(node.fields, name, c))| + 5), Before(node.fields, name),
                 EntryHead(TagOf(c), name), Enc(c),
                 After(node.fields, name), [0]);
  }

  lemma RegroupChild<T>(l: seq<T>, b: seq<T>, e: seq<T>, x: seq<T>, a: seq<T>, z: seq<T>)
    ensures l + (b + (e + x) + a) + z == l + (b + e) + x + (a + z)
  {
  }

  // ---------------------------------------------------------------- patching

  /** One length prefix moved by delta, modulo 2^32. */
  function PatchOne(buf: bytes, off: nat, delta: int): (r: bytes)
    ensures |r| == |buf|
  {
    if off + 4 > |buf| then buf
    else buf[..off] + Le32(Read32(buf[off..]) + delta) + buf[off + 4..]
  }

  function Patch(buf: bytes, offs: seq<nat>, delta: int): (r: bytes)
    ensures |r| == |buf|
    decreases |offs|
  {
    if offs == [] then buf else Patch(PatchOne(buf, offs[0], delta), offs[1..], delta)
  }

  lemma PatchHead(pre: bytes, len: int, rest: bytes, delta: int)
    ensures PatchOne(pre + Le32(len) + rest, |pre|, delta) == pre + Le32(len + delta) + rest
  {
    var buf := pre + Le32(len) + rest;
    assert buf[..|pre|] == pre && buf[|pre| + 4..] == rest;
    assert At(buf, |pre|, Le32(len));
    AtRead32(buf, |pre|, len);
    Le32Mod(Read32(buf[|pre|..]) + delta, len + delta);
  }

  /**
   A field list deep inside a container exchanged for another one, and every
   length prefix on the way moved by the difference: the result is the rebuilt
   container, whatever surrounds it.
   */
  lemma {:induction false} PatchChain(node: Value, p: Path, w: Value, delta: int, pre: bytes, post: bytes)
    requires node.Node? && Walk(node, p).Ok? && w.Node? && w.isArray == Walk(node, p).value.isArray
    requires |EncFields(w.fields)| == |EncFields(Walk(node, p).value.fields)| + delta
    ensures Patch(pre + Head(node, p) + EncFields(w.fields) + Tail(node, p) + post, PrefixOffsets(node, |pre|, p),
                  delta)
         == pre + Enc(Rebuild(node, p, w)) + post
    decreases |p|
  {
    hide Head, Tail, PrefixOffsets, Enc, EncFields, Le32, Patch, ChildOff;
    if p == [] {
      PatchBase(node, w, delta, pre, post);
    } else {
      var name := NameOf(p[0]);
      var c := Get(node.fields, name).value;
      var len, k, q := |EncFields(node.fields)| + 5, EntryLead(node, name), EntryTrail(node, name);
      SurroundStep(node, p, |pre|);
      RebuildStep(node, p, w, delta);
      PatchChain(c, p[1..], w, delta, pre + Le32(len + delta) + k, q + post);
      PatchStep(pre, len, delta, k, Head(c, p[1..]), EncFields(w.fields), Tail(c, p[1..]), q, post,
                PrefixOffsets(c, |pre + Le32(len + delta) + k|, p[1..]), Enc(Rebuild(c, p[1..], w)),
                Head(node, p), Tail(node, p), PrefixOffsets(node, |pre|, p), Enc(Rebuild(node, p, w)));
    }
  }

  lemma PatchBase(node: Value, w: Value, delta: int, pre: bytes, post: bytes)
    requires node.Node? && w.Node? && |EncFields(w.fields)| == |EncFields(node.fields)| + delta
    ensures Patch(pre + Head(node, []) + EncFields(w.fields) + Tail(node, []) + post, PrefixOffsets(node, |pre|, []),
                  delta)
         == pre + Enc(w) + post
  {
    hide EncFields;
    var len, x := |EncFields(node.fields)| + 5, EncFields(w.fields);
    RegroupPatch(pre, Le32(len), x, [0], post);
    PatchHead(pre, len, x + [0] + post, delta);
    RegroupPatch(pre, Le32(len + delta), x, [0], post);
    assert [|pre|][1..] == [];
  }

  lemma RebuildStep(node: Value, p: Path, w: Value, delta: int)
    requires node.Node? && p != [] && Walk(node, p).Ok? && w.Node? && w.isArray == Walk(node, p).value.isArray
    requires |EncFields(w.fields)| == |EncFields(Walk(node, p).value.fields)| + delta
    ensures var name := NameOf(p[0]);
            Enc(Rebuild(node, p, w))
            == Le32(|EncFields(node.fields)| + 5 + delta) + EntryLead(node, name)
               + Enc(Rebuild(Get(node.fields, name).value, p[1..], w)) + EntryTrail(node, name)
  {
    hide Enc, EncFields, Le32, EntryLead, EntryTrail, TagOf, Replace;
    var name := NameOf(p[0]);
    var c := Get(node.fields, name).value;
    RebuildTag(c, p[1..], w);
    RebuildLength(c, p[1..], w, delta);
    EncChild(node, name, Rebuild(c, p[1..], w));
  }

  lemma {:induction false} RebuildLength(node: Value, p: Path, w: Value, delta: int)
    requires node.Node? && Walk(node, p).Ok? && w.Node? && w.isArray == Walk(node, p).value.isArray
    requires |EncFields(w.fields)| == |EncFields(Walk(node, p).value.fields)| + delta
    ensures |Enc(Rebuild(node, p, w))| == |Enc(node)| + delta
    decreases |p|
  {
    if p != [] {
      var name := NameOf(p[0]);
      var c := Get(node.fields, name).value;
      RebuildTag(c, p[1..], w);
      RebuildLength(c, p[1..], w, delta);
      LengthReplace(node.fields, name, Rebuild(c, p[1..], w));
    }
  }

  lemma {:induction false} LengthReplace(fs: Fields, name: bytes, v: Value)
    requires Get(fs, name).Some?
    ensures |EncFields(Replace(fs, name, v))| == |EncFields(fs)| - |Enc(Get(fs, name).value)| + |Enc(v)|
  {
    if fs.name != name {
      LengthReplace(fs.rest, name, v);
    }
  }

  /** One level of PatchChain, on the bytes alone. */
  lemma PatchStep(pre: bytes, len: int, delta: int, k: bytes, h: bytes, x: bytes, t: bytes, q: bytes, post: bytes,
                  offs: seq<nat>, e: bytes, head: bytes, tail: bytes, all: seq<nat>, result: bytes)
    requires head == Le32(len) + k + h && tail == t + q && all == [|pre|] + offs
    requires result == Le32(len + delta) + k + e + q
    requires Patch((pre + Le32(len + delta) + k) + h + x + t + (q + post), offs, delta)
          == (pre + Le32(len + delta) + k) + e + (q + post)
    ensures Patch(pre + head + x + tail + post, all, delta) == pre + result + post
  {
    RegroupDown(pre, Le32(len), k, h, x, t, q, post);
    PatchHead(pre, len, k + h + x + t + (q + post), delta);
    RegroupInner(pre, Le32(len + delta), k, h, x, t, q + post);
    RegroupUp(pre, Le32(len + delta), k, e, q, post);
    assert all[1..] == offs;
  }

  lemma RegroupPatch<T>(a: seq<T>, b: seq<T>, c: seq<T>, d: seq<T>, e: seq<T>)
    ensures a + b + c + d + e == a + b + (c + d + e)
    ensures a + (b + c + d) + e == a + b + (c + d + e)
  {
  }

  lemma RegroupDown<T>(pre: seq<T>, l: seq<T>, k: seq<T>, h: seq<T>, x: seq<T>, t: seq<T>, q: seq<T>, post: seq<T>)
    ensures pre + (l + k + h) + x + (t + q) + post == pre + l + (k + h + x + t + (q + post))
  {
  }

  lemma RegroupInner<T>(pre: seq<T>, l: seq<T>, k: seq<T>, h: seq<T>, x: seq<T>, t: seq<T>, post: seq<T>)
    ensures pre + l + (k + h + x + t + post) == (pre + l + k) + h + x + t + post
  {
  }

  lemma RegroupUp<T>(pre: seq<T>, l: seq<T>, k: seq<T>, c: seq<T>, q: seq<T>, post: seq<T>)
    ensures (pre + l + k) + c + (q + post) == pre + (l + k + c + q) + post
  {
  }

  lemma {:induction false} RebuildTag(node: Value, p: Path, w: Value)
    requires node.Node? && Walk(node, p).Ok? && w.Node? && w.isArray == Walk(node, p).value.isArray
    ensures TagOf(Rebuild(node, p, w)) == TagOf(node)
  {
  }

  // ---------------------------------------------------------- sort.Ints

  function InsertInt(x: nat, s: seq<nat>): seq<nat> {
    if s == [] || x <= s[0] then [x] + s else [s[0]] + InsertInt(x, s[1..])
  }

  /** sort.Ints. */
  function SortInts(s: seq<nat>): seq<nat> {
    if s == [] then [] else InsertInt(s[0], SortInts(s[1..]))
  }

  ghost predicate Increasing(s: seq<nat>) {
    forall i :: 0 < i < |s| ==> s[i - 1] <= s[i]
  }

  lemma {:induction false} SortOfIncreasing(s: seq<nat>)
    requires Increasing(s)
    ensures SortInts(s) == s
    decreases |s|
  {
    if s != [] {
      forall i | 0 < i < |s[1..]| ensures s[1..][i - 1] <= s[1..][i] {
        assert s[i + 1 - 1] <= s[i + 1];
      }
      SortOfIncreasing(s[1..]);
    }
  }

  lemma {:induction false} OffsetsIncrease(node: Value, base: nat, p: Path)
    requires node.Node? && Walk(node, p).Ok?
    ensures Increasing(PrefixOffsets(node, base, p)) && PrefixOffsets(node, base, p)[0] == base
    decreases |p|
  {
    if p != [] {
      var name := NameOf(p[0]);
      OffsetsIncrease(Get(node.fields, name).value, base + ChildOff(node, name), p[1..]);
      var s := PrefixOffsets(node, base, p);
      forall i | 0 < i < |s| ensures s[i - 1] <= s[i] {
        if i > 1 {
          assert s[1..][i - 2] <= s[1..][i - 1];
        }
      }
    }
  }

  // --------------------------------------------------------------- searching

  /** node is a well-formed container whose bytes sit in buf at offset i. */
  ghost predicate Placed(buf: bytes, i: int, node: Value) {
    node.Node? && Wf(node) && |Enc(node)| < U32 && At(buf, i, Enc(node))
  }

  /** fs is a well-formed field list that fills buf from pos up to end. */
  ghost predicate Listed(buf: bytes, pos: int, end: int, fs: Fields) {
    WfFields(fs) && At(buf, pos, EncFields(fs)) && pos + |EncFields(fs)| == end < |buf| && |EncFields(fs)| < U32
  }

  lemma PlacedList(buf: bytes, i: int, node: Value)
    requires Placed(buf, i, node)
    ensures i + 5 <= |buf| && Read32(buf[i..]) == |Enc(node)| && i + |Enc(node)| <= |buf|
    ensures Listed(buf, i + 4, i + |Enc(node)| - 1, node.fields)
  {
    NodeAt(buf, i, node);
  }

  /** The first field of a placed field list, and the list behind it. */
  lemma ListedStep(buf: bytes, pos: nat, end: nat, fs: Fields)
    requires Listed(buf, pos, end, fs) && pos < end
    ensures fs.Field? && buf[pos] == TagOf(fs.value) != 0 && NoZero(fs.name) && Wf(fs.value)
    ensures At(buf, pos + 1, fs.name + [0]) && At(buf, pos + 1, fs.name)
    ensures At(buf, pos + 2 + |fs.name|, Enc(fs.value)) && |Enc(fs.value)| < U32
    ensures Listed(buf, pos + 2 + |fs.name| + |Enc(fs.value)|, end, fs.rest)
  {
    hide Enc;
    FieldAt(buf, pos, fs);
    TagNonZero(fs.value);
    AtConcat(buf, pos + 1, fs.name, [0]);
  }

  lemma ListedEnd(buf: bytes, pos: nat, end: nat, fs: Fields)
    requires Listed(buf, pos, end, fs) && pos >= end
    ensures pos == end && fs == End
  {
    FieldsLength(fs);
  }

  lemma FieldsLength(fs: Fields)
    ensures fs.Field? ==> |EncFields(fs)| >= 2
  {
  }

  /**
   The element at pos of a container that ends at end: its type byte and the
   extent of its value. The name lies between pos + 1 and valueStart - 1.
   */
  method ElementAt(buf: bytes, pos: nat, end: nat, ghost fs: Fields)
    returns (tag: byte, valueStart: nat, valueEnd: nat, ok: bool)
    requires pos < end < |buf|
    ensures ok ==> pos + 2 <= valueStart <= valueEnd <= end + 1
    ensures Listed(buf, pos, end, fs) ==>
              ok && fs.Field? && tag == TagOf(fs.value) && valueStart == pos + 2 + |fs.name|
              && buf[pos + 1..valueStart - 1] == fs.name && valueEnd == valueStart + |Enc(fs.value)|
              && At(buf, valueStart, Enc(fs.value)) && Wf(fs.value) && |Enc(fs.value)| < U32
              && Listed(buf, valueEnd, end, fs.rest)
  {
    ghost var listed := Listed(buf, pos, end, fs);
    tag, valueStart, valueEnd, ok := buf[pos], 0, 0, false;
    if listed {
      ListedStep(buf, pos, end, fs);
    }
    hide Listed, Enc;
    if tag == 0 {
      return;
    }
    var nameEnd := ScanToZero(buf, pos + 1, end);
    if listed {
      ZeroIsAt(buf, pos + 1, fs.name, nameEnd, end);
    }
    if nameEnd >= end {
      return;
    }
    valueStart := nameEnd + 1;
    valueEnd, ok := ElementValueEnd(buf, valueStart, tag, end, if fs.Field? then fs.value else Node(false, End));
  }

  /**
   The first entry el selects in the container at that offset. On any bytes the
   search stays inside buf and its answer inside the container; on the bytes of a
   tree it finds the tree's field.
   */
  method FindEntry(buf: bytes, container: nat, el: Elem, ghost node: Value)
    returns (tag: byte, entryStart: nat, valueStart: nat, valueEnd: nat, ok: bool)
    ensures ok ==> container + 4 <= entryStart < valueStart <= valueEnd <= |buf|
    ensures Placed(buf, container, node) ==> (ok <==> Get(node.fields, NameOf(el)).Some?)
    ensures Placed(buf, container, node) && ok ==>
              FoundAt(buf, container, node, NameOf(el), tag, entryStart, valueStart, valueEnd)
  {
    ghost var placed := Placed(buf, container, node);
    if placed {
      PlacedList(buf, container, node);
    }
    tag, entryStart, valueStart, valueEnd, ok := 0, 0, 0, 0, false;
    if container + 5 > |buf| {
      return;
    }
    var containerLen := Read32(buf[container..]);
    if container + containerLen > |buf| {
      return;
    }
    var end := container + containerLen - 1;
    var pos := container + 4;
    ghost var rest := if node.Node? then node.fields else End;
    ghost var name := NameOf(el);
    while pos < end
      invariant container + 4 <= pos
      invariant placed ==> Listed(buf, pos, end, rest)
      invariant placed ==> Get(rest, name) == Get(node.fields, name)
      invariant placed ==> pos + EntryOff(rest, name) == container + 4 + EntryOff(node.fields, name)
      decreases end - pos
    {
      var t, vs, ve, fits := ElementAt(buf, pos, end, rest);
      if !fits {
        return;
      }
      if buf[pos + 1..vs - 1] == NameOf(el) {
        return t, pos, vs, ve, true;
      }
      pos := ve;
      rest := if rest.Field? then rest.rest else rest;
    }
    if placed {
      ListedEnd(buf, pos, end, rest);
    }
  }

  /** These offsets are those of node's first field of that name. */
  ghost predicate FoundAt(buf: bytes, container: int, node: Value, name: bytes,
                          tag: byte, entryStart: int, valueStart: int, valueEnd: int)
  {
    node.Node? && Get(node.fields, name).Some?
    && var v := Get(node.fields, name).value;
       tag == TagOf(v) && entryStart == container + 4 + EntryOff(node.fields, name)
       && valueStart == container + ChildOff(node, name) && valueEnd == valueStart + |Enc(v)|
       && At(buf, valueStart, Enc(v)) && Wf(v) && |Enc(v)| < U32
  }

  /** Where a new field goes in the container at that offset; arrays append. */
  method FindInsertionPoint(buf: bytes, container: nat, newName: bytes, isArray: bool, ghost node: Value)
    returns (at: nat)
    requires Placed(buf, container, node) && isArray == node.isArray
    ensures at == container + 4 + if isArray then |EncFields(node.fields)| else InsertOff(node.fields, newName)
  {
    PlacedList(buf, container, node);
    var containerLen := Read32(buf[container..]);
    var end := container + containerLen - 1;
    if isArray {
      return end;
    }
    var pos := container + 4;
    ghost var rest := node.fields;
    while pos < end
      invariant container + 4 <= pos && Listed(buf, pos, end, rest)
      invariant pos + InsertOff(rest, newName) == container + 4 + InsertOff(node.fields, newName)
      decreases end - pos
    {
      var _, vs, ve, _ := ElementAt(buf, pos, end, rest);
      if Lex(buf[pos + 1..vs - 1], newName) > 0 {
        return pos;
      }
      pos := ve;
      rest := rest.rest;
    }
    ListedEnd(buf, pos, end, rest);
    return end;
  }

  method CountArrayElements(buf: bytes, arrayStart: nat, ghost node: Value) returns (count: nat)
    requires Placed(buf, arrayStart, node)
    ensures count == Count(node.fields)
  {
    PlacedList(buf, arrayStart, node);
    var arrayLen := Read32(buf[arrayStart..]);
    var end := arrayStart + arrayLen - 1;
    count := 0;
    var pos := arrayStart + 4;
    ghost var rest := node.fields;
    while pos < end
      invariant Listed(buf, pos, end, rest) && count + Count(rest) == Count(node.fields)
      decreases end - pos
    {
      var _, _, ve, ok := ElementAt(buf, pos, end, rest);
      if !ok {
        break;
      }
      count := count + 1;
      pos := ve;
      rest := rest.rest;
    }
    ListedEnd(buf, pos, end, rest);
  }

  // ------------------------------------------------------------------ editing

  function MakeFieldEntry(tag: byte, name: bytes, value: bytes): bytes {
    [tag] + name + [0] + value
  }

  /**
   Descends to the parent of the path's last step. It succeeds exactly when the
   tree has that container, and then returns its extent and the offsets of the
   length prefixes from the root down to it.
   */
  method PathWalk(buf: bytes, target: Path, ghost doc: Value)
    returns (err: Option<EditError>, parentStart: nat, parentEnd: int, parentIsArray: bool, ancestors: seq<nat>)
    requires Document(doc) && buf == Enc(doc)
    ensures target == [] ==> err == Some(EmptyPath)
    ensures target != [] && Walk(doc, Init(target)).Err? ==> err == Some(Walk(doc, Init(target)).error)
    ensures target != [] && Walk(doc, Init(target)).Ok? ==>
              var parent := Walk(doc, Init(target)).value;
              err == None && Placed(buf, parentStart, parent) && parentIsArray == parent.isArray
              && parentStart == Depth(doc, Init(target)) && parentEnd == parentStart + |Enc(parent)| - 1
              && ancestors == PrefixOffsets(doc, 0, Init(target))
  {
    hide Enc, Placed, FoundAt, Walk, Depth, PrefixOffsets, Get;
    err, parentStart, parentEnd, parentIsArray, ancestors := None, 0, 0, false, [];
    ReachRoot(buf, doc);
    if |target| == 0 {
      err := Some(EmptyPath);
      return;
    }
    var cursorStart: nat, cursorIsArray, prefixes: seq<nat> := 0, false, [0];
    ghost var node := doc;
    assert target[..0] == [];
    var i := 0;
    while i < |target| - 1
      invariant 0 <= i <= |target| - 1
      invariant Reached(buf, doc, target[..i], node, cursorStart, cursorIsArray, prefixes)
    {
      var el := target[i];
      var tag, entryStart, valueStart, valueEnd, ok := FindEntry(buf, cursorStart, el, node);
      WalkOne(doc, target, i);
      if !ok {
        err := Some(Missing);
        return;
      }
      FoundChild(buf, cursorStart, node, NameOf(el), tag, entryStart, valueStart, valueEnd);
      if tag != TYPE_DOCUMENT && tag != TYPE_ARRAY {
        err := Some(NotContainer);
        return;
      }
      ReachOne(buf, doc, target[..i], node, cursorStart, cursorIsArray, prefixes, el, valueStart);
      assert target[..i + 1] == target[..i] + [el];
      cursorStart, cursorIsArray, prefixes := valueStart, tag == TYPE_ARRAY, prefixes + [valueStart];
      node := Get(node.fields, NameOf(el)).value;
      i := i + 1;
    }
    PlacedList(buf, cursorStart, node);
    var containerLen := Read32(buf[cursorStart..]);
    return None, cursorStart, cursorStart + containerLen - 1, cursorIsArray, prefixes;
  }

  /** The descent along p stands at node, whose bytes start at offset start. */
  ghost predicate Reached(buf: bytes, doc: Value, p: Path, node: Value, start: nat, isArray: bool, prefixes: seq<nat>) {
    doc.Node? && Walk(doc, p) == Ok(node) && Placed(buf, start, node)
    && start == Depth(doc, p) && isArray == node.isArray && prefixes == PrefixOffsets(doc, 0, p)
  }

  lemma ReachRoot(buf: bytes, doc: Value)
    requires Document(doc) && buf == Enc(doc)
    ensures Reached(buf, doc, [], doc, 0, false, [0])
  {
  }

  /** A found field is a container exactly when its type byte says so. */
  lemma FoundChild(buf: bytes, container: int, node: Value, name: bytes, tag: byte, entryStart: int, valueStart: int,
                   valueEnd: int)
    requires FoundAt(buf, container, node, name, tag, entryStart, valueStart, valueEnd)
    ensures var c := Get(node.fields, name).value;
            tag == TagOf(c) && valueStart == container + ChildOff(node, name)
            && (c.Node? <==> tag == TYPE_DOCUMENT || tag == TYPE_ARRAY)
            && (c.Node? ==> Placed(buf, valueStart, c))
  {
  }

  lemma ReachOne(buf: bytes, doc: Value, p: Path, node: Value, start: nat, isArray: bool, prefixes: seq<nat>, el: Elem,
                 childStart: nat)
    requires Reached(buf, doc, p, node, start, isArray, prefixes)
    requires var c := Get(node.fields, NameOf(el));
             c.Some? && c.value.Node? && Walk(doc, p + [el]) == Ok(c.value) && Placed(buf, childStart, c.value)
    requires childStart == start + ChildOff(node, NameOf(el))
    ensures var c := Get(node.fields, NameOf(el)).value;
            Reached(buf, doc, p + [el], c, childStart, c.isArray, prefixes + [childStart])
  {
    hide Placed, PrefixOffsets, Depth, Walk;
    DescendOne(doc, p, el);
    PrefixOffsetsSnoc(doc, 0, p, el);
  }

  /** What the next step of a walk does to the rest of it. */
  lemma WalkOne(doc: Value, target: Path, i: nat)
    requires doc.Node? && i < |target| - 1 && Walk(doc, target[..i]).Ok?
    ensures var c := Get(Walk(doc, target[..i]).value.fields, NameOf(target[i]));
            (c.None? ==> Walk(doc, Init(target)) == Err(Missing))
            && (c.Some? && c.value.Scalar? ==> Walk(doc, Init(target)) == Err(NotContainer))
            && (c.Some? && c.value.Node? ==> Walk(doc, target[..i] + [target[i]]) == Ok(c.value))
  {
    var p, q := target[..i], target[i..|target| - 1];
    assert Init(target) == p + q;
    WalkThrough(doc, p, q);
    WalkThrough(doc, p, [target[i]]);
    assert [target[i]][1..] == [];
  }

  lemma PatchNext(buf: bytes, offs: seq<nat>, k: nat, delta: int)
    requires k < |offs|
    ensures Patch(buf, offs[k..], delta) == Patch(PatchOne(buf, offs[k], delta), offs[k + 1..], delta)
  {
    hide PatchOne;
    assert offs[k..][0] == offs[k] && offs[k..][1..] == offs[k + 1..];
  }

  lemma PatchDone(buf: bytes, offs: seq<nat>, delta: int)
    ensures Patch(buf, offs[|offs|..], delta) == buf
  {
  }

  /**
   buf[start..end] replaced, and each ancestor's length prefix moved by the
   difference. Nothing else changes.
   */
  method SpliceAndPatch(buf: bytes, start: nat, end: nat, replacement: bytes, ancestors: seq<nat>) returns (r: bytes)
    requires start <= end <= |buf|
    ensures r == if end == start && replacement == [] then buf
                 else Patch(buf[..start] + replacement + buf[end..], SortInts(ancestors), |replacement| - (end - start))
  {
    hide SortInts, Le32, Read32, Patch;
    var delta := |replacement| - (end - start);
    if delta == 0 && |replacement| == 0 {
      return buf;
    }
    var newBuf := buf[..start];
    newBuf := newBuf + replacement;
    newBuf := newBuf + buf[end..];
    ghost var spliced := newBuf;
    var sorted := SortInts(ancestors);
    var k := 0;
    assert sorted[0..] == sorted;
    while k < |sorted|
      invariant 0 <= k <= |sorted|
      invariant Patch(newBuf, sorted[k..], delta) == Patch(spliced, sorted, delta)
    {
      var off := sorted[k];
      PatchNext(newBuf, sorted, k, delta);
      ghost var before := newBuf;
      if off + 4 <= |newBuf| {
        newBuf := newBuf[..off] + Le32(Read32(newBuf[off..]) + delta) + newBuf[off + 4..];
      }
      assert newBuf == PatchOne(before, off, delta);
      k := k + 1;
    }
    PatchDone(newBuf, sorted, delta);
    return newBuf;
  }

  /** The bytes of an edited document, or the edit's error. */
  function EncResult(r: Result<Value>): Result<bytes> {
    match r
    case Ok(v) => Ok(Enc(v))
    case Err(e) => Err(e)
  }

  /**
   Splicing the field list of the container at p, from |a| to |a + m| of its
   bytes, and patching the prefixes on the way gives the rebuilt document.
   */
  lemma SpliceRefines(doc: Value, p: Path, w: Value, a: bytes, m: bytes, b: bytes, rep: bytes)
    requires doc.Node? && Walk(doc, p).Ok? && w.Node? && w.isArray == Walk(doc, p).value.isArray
    requires EncFields(Walk(doc, p).value.fields) == a + m + b && EncFields(w.fields) == a + rep + b
    ensures var i := Depth(doc, p) + 4 + |a|;
            i + |m| <= |Enc(doc)|
            && Patch(Enc(doc)[..i] + rep + Enc(doc)[i + |m|..], SortInts(PrefixOffsets(doc, 0, p)), |rep| - |m|)
               == Enc(Rebuild(doc, p, w))
  {
    hide Head, Tail, EncFields, Enc, Patch, PrefixOffsets, Rebuild, Depth, SortInts;
    OffsetsIncrease(doc, 0, p);
    SortOfIncreasing(PrefixOffsets(doc, 0, p));
    EncSurround(doc, p);
    PatchChain(doc, p, w, |rep| - |m|, [], []);
    SpliceBytes(Enc(doc), Head(doc, p), a, m, b, Tail(doc, p), rep);
    DropEmpty(Head(doc, p), a + rep + b, Tail(doc, p), Enc(Rebuild(doc, p, w)));
  }

  lemma SpliceBytes(buf: bytes, h: bytes, a: bytes, m: bytes, b: bytes, t: bytes, rep: bytes)
    requires buf == h + (a + m + b) + t
    ensures |h| + |a| + |m| <= |buf|
    ensures buf[..|h| + |a|] + rep + buf[|h| + |a| + |m|..] == h + (a + rep + b) + t
  {
    assert buf == (h + a) + (m + (b + t));
    assert buf[..|h| + |a|] == h + a;
    assert buf == (h + a + m) + (b + t);
    assert buf[|h| + |a| + |m|..] == b + t;
  }

  lemma DropEmpty(h: bytes, x: bytes, t: bytes, e: bytes)
    ensures [] + h + x + t + [] == h + x + t
    ensures [] + e + [] == e
  {
  }

  /** Writes a field: on the bytes of doc, the bytes of the tree edit. */
  method SetFieldInBytes(buf: bytes, target: Path, tag: byte, valueBytes: bytes, ghost doc: Value, ghost v: Value)
    returns (r: Result<bytes>)
    requires Document(doc) && buf == Enc(doc)
    requires TagOf(v) == tag && Enc(v) == valueBytes
    ensures r == EncResult(Set(doc, target, v))
    ensures r.Ok? <==> EditMeaning.Settable(doc, target)
  {
    hide Enc, EncFields, Placed, Patch, PrefixOffsets, Depth, Rebuild, SortInts;
    EditMeaning.SetSucceeds(doc, target, v);
    var err, parentStart, _, parentIsArray, ancestors := PathWalk(buf, target, doc);
    if err.Some? {
      return Err(err.value);
    }
    var leaf := Leaf(target);
    var leafName := NameOf(leaf);
    if leaf.Index? && !parentIsArray {
      return Err(IndexIntoDocument);
    }
    ghost var parent := Walk(doc, Init(target)).value;
    var _, entryStart, _, entryEnd, found := FindEntry(buf, parentStart, leaf, parent);
    var newEntry := MakeFieldEntry(tag, leafName, valueBytes);
    assert newEntry == EncEntry(leafName, v);
    if found {
      PutReplaces(doc, Init(target), leafName, v);
      var b := SpliceAndPatch(buf, entryStart, entryEnd, newEntry, ancestors);
      return Ok(b);
    }
    var insertAt := FindInsertionPoint(buf, parentStart, leafName, parentIsArray, parent);
    PutInserts(doc, Init(target), leafName, v);
    var b := SpliceAndPatch(buf, insertAt, insertAt, newEntry, ancestors);
    return Ok(b);
  }

  /** The splice that replaces a field, and the one that removes it. */
  lemma PutReplaces(doc: Value, p: Path, name: bytes, v: Value)
    requires doc.Node? && Walk(doc, p).Ok? && Get(Walk(doc, p).value.fields, name).Some?
    ensures var node := Walk(doc, p).value;
            var old' := Get(node.fields, name).value;
            var i, j := Depth(doc, p) + 4 + EntryOff(node.fields, name),
                        Depth(doc, p) + ChildOff(node, name) + |Enc(old')|;
            var removed := Node(node.isArray, Remove(node.fields, name));
            i <= j <= |Enc(doc)|
            && Patch(Enc(doc)[..i] + EncEntry(name, v) + Enc(doc)[j..], SortInts(PrefixOffsets(doc, 0, p)),
                     |EncEntry(name, v)| - (j - i))
               == Enc(Rebuild(doc, p, Put(node, name, v)))
            && Patch(Enc(doc)[..i] + [] + Enc(doc)[j..], SortInts(PrefixOffsets(doc, 0, p)), -(j - i))
               == Enc(Rebuild(doc, p, removed))
  {
    hide EncFields, Enc, Patch, PrefixOffsets, Rebuild, Depth, SortInts, Walk;
    var node := Walk(doc, p).value;
    var m, b, a := EncEntry(name, Get(node.fields, name).value), Before(node.fields, name), After(node.fields, name);
    EncAround(node.fields, name);
    EncReplace(node.fields, name, v);
    EncRemove(node.fields, name);
    assert b + [] + a == b + a;
    EntrySize(Field(name, Get(node.fields, name).value, End));
    SpliceRefines(doc, p, Put(node, name, v), b, m, a, EncEntry(name, v));
    SpliceRefines(doc, p, Node(node.isArray, Remove(node.fields, name)), b, m, a, []);
  }

  /** The splice that adds a field. */
  lemma PutInserts(doc: Value, p: Path, name: bytes, v: Value)
    requires doc.Node? && Walk(doc, p).Ok? && Get(Walk(doc, p).value.fields, name).None?
    ensures var node := Walk(doc, p).value;
            var i := Depth(doc, p) + 4
                     + if node.isArray then |EncFields(node.fields)| else InsertOff(node.fields, name);
            i <= |Enc(doc)|
            && Patch(Enc(doc)[..i] + EncEntry(name, v) + Enc(doc)[i..], SortInts(PrefixOffsets(doc, 0, p)),
                     |EncEntry(name, v)|)
               == Enc(Rebuild(doc, p, Put(node, name, v)))
  {
    hide EncFields, Enc, Patch, PrefixOffsets, Rebuild, Depth, SortInts, Walk;
    var node := Walk(doc, p).value;
    if node.isArray {
      AppendSplices(doc, p, name, v);
    } else {
      var l, u := Lower(node.fields, name), Upper(node.fields, name);
      EncInsert(node.fields, name, v);
      assert l + [] + u == l + u;
      SpliceRefines(doc, p, Put(node, name, v), l, [], u, EncEntry(name, v));
    }
  }

  lemma AppendSplices(doc: Value, p: Path, name: bytes, v: Value)
    requires doc.Node? && Walk(doc, p).Ok?
    ensures var node := Walk(doc, p).value;
            var i := Depth(doc, p) + 4 + |EncFields(node.fields)|;
            i <= |Enc(doc)|
            && Patch(Enc(doc)[..i] + EncEntry(name, v) + Enc(doc)[i..], SortInts(PrefixOffsets(doc, 0, p)),
                     |EncEntry(name, v)|)
               == Enc(Rebuild(doc, p, Node(node.isArray, Append(node.fields, name, v))))
  {
    hide EncFields, Enc, Patch, PrefixOffsets, Rebuild, Depth, SortInts, Walk;
    var node := Walk(doc, p).value;
    var x := EncFields(node.fields);
    EncAppend(node.fields, name, v);
    assert x + [] + [] == x && x + EncEntry(name, v) + [] == x + EncEntry(name, v);
    SpliceRefines(doc, p, Node(node.isArray, Append(node.fields, name, v)), x, [], [], EncEntry(name, v));
  }

  /** Removes a field; a path that names none leaves the bytes alone. */
  method UnsetFieldInBytes(buf: bytes, target: Path, ghost doc: Value) returns (r: Result<bytes>)
    requires Document(doc) && buf == Enc(doc)
    ensures r == EncResult(Unset(doc, target))
    ensures r.Ok? <==> EditMeaning.Settable(doc, target)
  {
    hide Enc, EncFields, Placed, Patch, PrefixOffsets, Depth, Rebuild, SortInts;
    EditMeaning.SetSucceeds(doc, target, doc);
    var err, parentStart, _, parentIsArray, ancestors := PathWalk(buf, target, doc);
    if err.Some? {
      return Err(err.value);
    }
    var leaf := Leaf(target);
    if leaf.Index? && !parentIsArray {
      return Err(IndexIntoDocument);
    }
    ghost var parent := Walk(doc, Init(target)).value;
    var _, entryStart, _, entryEnd, found := FindEntry(buf, parentStart, leaf, parent);
    if !found {
      RemoveShrinks(parent.fields, NameOf(leaf), parent);
      RebuildTwice(doc, Init(target), parent, parent);
      return Ok(buf);
    }
    PutReplaces(doc, Init(target), NameOf(leaf), doc);
    var b := SpliceAndPatch(buf, entryStart, entryEnd, [], ancestors);
    return Ok(b);
  }

  /** Appends an element under the decimal name of the array's length. */
  method PushArrayInBytes(buf: bytes, target: Path, elemType: byte, elemValue: bytes, ghost doc: Value, ghost v: Value)
    returns (r: Result<bytes>)
    requires Document(doc) && buf == Enc(doc)
    requires TagOf(v) == elemType && Enc(v) == elemValue
    ensures r == EncResult(Push(doc, target, v))
    ensures r.Ok? <==> EditMeaning.Pushable(doc, target)
  {
    hide Enc, EncFields, Placed, Patch, PrefixOffsets, Depth, Rebuild, SortInts, FoundAt;
    EditMeaning.PushSucceeds(doc, target, v);
    var err, parentStart, _, _, ancestors := PathWalk(buf, target, doc);
    if err.Some? {
      return Err(err.value);
    }
    var leaf := Leaf(target);
    ghost var parent := Walk(doc, Init(target)).value;
    var tag, entryStart, valueStart, valueEnd, ok := FindEntry(buf, parentStart, leaf, parent);
    if !ok {
      return Err(Missing);
    }
    FoundChild(buf, parentStart, parent, NameOf(leaf), tag, entryStart, valueStart, valueEnd);
    if tag != TYPE_ARRAY {
      return Err(NotArray);
    }
    ghost var arr := Get(parent.fields, NameOf(leaf)).value;
    ReachLeaf(buf, doc, target, parentStart, ancestors, valueStart);
    var arrayStart := valueStart;
    PlacedList(buf, arrayStart, arr);
    NodeSize(arr);
    var arrayLen := Read32(buf[arrayStart..]);
    var arrayEnd := arrayStart + arrayLen - 1;
    var nextIdx := CountArrayElements(buf, arrayStart, arr);
    var name := Decimal(nextIdx);
    var newEntry := MakeFieldEntry(elemType, name, elemValue);
    assert newEntry == EncEntry(name, v);
    AppendSplices(doc, target, name, v);
    var b := SpliceAndPatch(buf, arrayEnd, arrayEnd, newEntry, ancestors + [arrayStart]);
    return Ok(b);
  }

  /** The container the whole path selects, found in its parent. */
  lemma ReachLeaf(buf: bytes, doc: Value, target: Path, parentStart: nat, ancestors: seq<nat>, valueStart: nat)
    requires doc.Node? && target != [] && Walk(doc, Init(target)).Ok?
    requires var parent := Walk(doc, Init(target)).value;
             var c := Get(parent.fields, NameOf(Leaf(target)));
             c.Some? && c.value.Node? && valueStart == parentStart + ChildOff(parent, NameOf(Leaf(target)))
    requires parentStart == Depth(doc, Init(target)) && ancestors == PrefixOffsets(doc, 0, Init(target))
    ensures Walk(doc, target) == Ok(Get(Walk(doc, Init(target)).value.fields, NameOf(Leaf(target))).value)
    ensures valueStart == Depth(doc, target) && ancestors + [valueStart] == PrefixOffsets(doc, 0, target)
  {
    hide Depth, PrefixOffsets, Walk, ChildOff;
    WalkLast(doc, target);
    assert target == Init(target) + [Leaf(target)];
    DescendOne(doc, Init(target), Leaf(target));
    PrefixOffsetsSnoc(doc, 0, Init(target), Leaf(target));
  }

  /** Removes the element named by the array's last position, if there is one. */
  method PopArrayInBytes(buf: bytes, target: Path, ghost doc: Value) returns (r: Result<bytes>)
    requires Document(doc) && buf == Enc(doc)
    ensures r == EncResult(Pop(doc, target))
    ensures r.Ok? <==> EditMeaning.Poppable(doc, target)
  {
    hide Enc, EncFields, Placed, Patch, PrefixOffsets, Depth, Rebuild, SortInts, Walk, Get;
    EditMeaning.PopSucceeds(doc, target);
    var err, parentStart, _, _, ancestors := PathWalk(buf, target, doc);
    if err.Some? {
      return Err(err.value);
    }
    var leaf := Leaf(target);
    ghost var parent := Walk(doc, Init(target)).value;
    var tag, es, valueStart, ve, ok := FindEntry(buf, parentStart, leaf, parent);
    if !ok {
      return Ok(buf);
    }
    FoundChild(buf, parentStart, parent, NameOf(leaf), tag, es, valueStart, ve);
    if tag != TYPE_ARRAY {
      return Err(NotArray);
    }
    ghost var arr := Get(parent.fields, NameOf(leaf)).value;
    ReachLeaf(buf, doc, target, parentStart, ancestors, valueStart);
    var arrayStart := valueStart;
    var count := CountArrayElements(buf, arrayStart, arr);
    if count == 0 {
      return Ok(buf);
    }
    var lastName := Decimal(count - 1);
    var _, entryStart, _, entryEnd, found := FindEntry(buf, arrayStart, Key(lastName), arr);
    if !found {
      RemoveShrinks(arr.fields, lastName, arr);
      RebuildTwice(doc, target, arr, arr);
      return Ok(buf);
    }
    PutReplaces(doc, target, lastName, doc);
    var b := SpliceAndPatch(buf, entryStart, entryEnd, [], ancestors + [arrayStart]);
    return Ok(b);
  }
}
