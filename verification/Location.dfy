/**
 The cursor a scan carries along: an encoded key that grows and shrinks in place,
 with the offsets of its path elements; and the comparison of two keys.
 */
module Location {
  import opened Bytes
  import opened Edits
  import opened Varint
  import opened Keys

  /** offs are the starts of the elements of p in its key, and the key's end. */
  ghost predicate OffsetsOf(offs: seq<nat>, p: Path) {
    PathFits(p) && |offs| == |p| + 1 && forall i :: 0 <= i <= |p| ==> offs[i] == 1 + |EncPath(p[..i])|
  }

  /** key is the key of the path, in whatever state its first byte says. */
  ghost predicate KeyFor(key: bytes, p: Path) {
    PathFits(p) && |key| > 0 && key[1..] == EncPath(p)
  }

  lemma EncPathSnoc(p: Path, el: Elem)
    requires PathFits(p) && ElemFits(el)
    ensures PathFits(p + [el]) && EncPath(p + [el]) == EncPath(p) + EncElem(el)
  {
    hide EncPath, EncElem;
    EncPathConcat(p, [el]);
    EncPathOne(el);
  }

  class Location {
    var key: bytes
    var offsets: seq<nat>
    ghost var path: Path

    ghost predicate Valid()
      reads this
    {
      |key| > 0 && KeyFor(key, path) && OffsetsOf(offsets, path)
    }

    constructor ()
      ensures Valid() && path == [] && key == [START_OF_VALUE]
    {
      key := [START_OF_VALUE];
      offsets := [1];
      path := [];
    }

    function State(): byte
      reads this
    {
      if |key| == 0 then START_OF_VALUE else key[0]
    }

    function Size(): int
      reads this
    {
      |offsets| - 1
    }

    method SetState(t: byte)
      requires Valid() || key == []
      modifies this
      ensures Valid() && State() == t
      ensures path == if old(key) == [] then [] else old(path)
    {
      if |key| == 0 {
        key := [t];
        offsets := [1];
        path := [];
        return;
      }
      key := [t] + key[1..];
    }

    method AppendObjectKey(k: bytes)
      requires Valid()
      modifies this
      ensures Valid() && State() == old(State()) && path == old(path) + [Key(k)]
    {
      AppendKey(key, path, Key(k), [BEGIN_OBJECT_KEY], k);
      AppendOffset(offsets, path, Key(k));
      hide KeyFor, OffsetsOf;
      path := path + [Key(k)];
      key := key + [BEGIN_OBJECT_KEY];
      var start := |key|;
      key := key + k;
      offsets := offsets + [start - 1];
      RefreshTail();
    }

    /** Array positions are varints, so byte order is position order. */
    method AppendArrayIndex(idx: nat)
      requires Valid() && idx < U64
      modifies this
      ensures Valid() && State() == old(State()) && path == old(path) + [Index(idx)]
    {
      AppendKey(key, path, Index(idx), [BEGIN_ARRAY_KEY], Uvarint(idx));
      AppendOffset(offsets, path, Index(idx));
      hide KeyFor, OffsetsOf, Uvarint;
      path := path + [Index(idx)];
      key := key + [BEGIN_ARRAY_KEY];
      var start := |key|;
      key := key + Uvarint(idx);
      offsets := offsets + [start - 1];
      RefreshTail();
    }

    method RefreshTail()
      modifies this`offsets
      ensures offsets == if old(offsets) == [] then [] else old(offsets)[..|old(offsets)| - 1] + [|key|]
    {
      if |offsets| == 0 {
        return;
      }
      offsets := offsets[..|offsets| - 1] + [|key|];
    }

    /** Drops the last element; at the root it does nothing. */
    method Pop()
      requires Valid()
      modifies this
      ensures Valid() && State() == old(State())
      ensures path == if old(path) == [] then [] else Init(old(path))
    {
      if |offsets| < 2 {
        return;
      }
      DropKey(key, offsets, path);
      hide KeyFor;
      var elementStart := offsets[|offsets| - 2];
      path := Init(path);
      key := key[..elementStart];
      offsets := offsets[..|offsets| - 1];
      offsets := offsets[..|offsets| - 1] + [|key|];
    }

    method PathElement(i: nat) returns (el: Elem)
      requires Valid() && i < Size()
      ensures el == path[i]
    {
      ElementBytes(key, offsets, path, i);
      var start, end := offsets[i], offsets[i + 1];
      el := DecodePathElement(key[start..end]);
    }
  }

  lemma AppendKey(key: bytes, p: Path, el: Elem, mark: bytes, body: bytes)
    requires KeyFor(key, p) && ElemFits(el) && EncElem(el) == mark + body
    ensures KeyFor(key + mark + body, p + [el]) && |key + mark + body| == 1 + |EncPath(p + [el])|
  {
    hide EncElem, EncPath;
    EncPathSnoc(p, el);
    assert (key + mark + body)[1..] == key[1..] + (mark + body);
  }

  lemma AppendOffset(offs: seq<nat>, p: Path, el: Elem)
    requires OffsetsOf(offs, p) && ElemFits(el)
    ensures PathFits(p + [el]) && forall n: nat :: n == 1 + |EncPath(p + [el])| ==> OffsetsOf(offs + [n], p + [el])
  {
    hide EncPath;
    var q := p + [el];
    assert forall i :: 0 <= i <= |p| ==> q[..i] == p[..i];
    assert q[..|q|] == q;
  }

  lemma DropKey(key: bytes, offs: seq<nat>, p: Path)
    requires KeyFor(key, p) && OffsetsOf(offs, p) && p != []
    ensures 1 <= offs[|p| - 1] <= |key| && KeyFor(key[..offs[|p| - 1]], Init(p))
    ensures offs[..|p|][..|p| - 1] + [|key[..offs[|p| - 1]]|] == offs[..|p|] && OffsetsOf(offs[..|p|], Init(p))
  {
    hide EncElem, EncPath;
    assert p == Init(p) + [Leaf(p)];
    EncPathSnoc(Init(p), Leaf(p));
    var n := offs[|p| - 1];
    assert n == 1 + |EncPath(Init(p))|;
    assert key[..n][1..] == key[1..][..n - 1] == EncPath(Init(p));
    assert forall i :: 0 <= i < |p| ==> Init(p)[..i] == p[..i];
  }

  function DecodePathElement(b: bytes): Elem {
    if b != [] && b[0] == BEGIN_OBJECT_KEY then Key(b[1..])
    else if b != [] && b[0] == BEGIN_ARRAY_KEY && |b| > 1 && |b| > VarintLen(b[1]) then Index(ReadUvarint(b[1..]))
    else Key([])
  }

  lemma DecodeOfEnc(el: Elem)
    requires ElemFits(el)
    ensures DecodePathElement(EncElem(el)) == el
  {
    if el.Index? {
      UvarintLength(el.idx);
      ReadOfUvarint(el.idx, []);
      assert EncElem(el)[1..] == Uvarint(el.idx) == Uvarint(el.idx) + [];
    }
  }

  /** The bytes between two consecutive offsets are one element. */
  lemma ElementBytes(key: bytes, offs: seq<nat>, p: Path, i: nat)
    requires KeyFor(key, p) && OffsetsOf(offs, p) && i < |p|
    ensures offs[i] <= offs[i + 1] <= |key| && key[offs[i]..offs[i + 1]] == EncElem(p[i])
    ensures DecodePathElement(key[offs[i]..offs[i + 1]]) == p[i]
  {
    hide EncElem, EncPath, DecodePathElement;
    DecodeOfEnc(p[i]);
    SplitAt(p, i);
    var a, b := EncPath(p[..i]), EncElem(p[i]);
    assert key[1 + |a|..1 + |a| + |b|] == key[1..][|a|..|a| + |b|];
  }

  lemma SplitAt(p: Path, i: nat)
    requires PathFits(p) && i < |p|
    ensures EncPath(p[..i + 1]) == EncPath(p[..i]) + EncElem(p[i])
    ensures EncPath(p) == EncPath(p[..i]) + EncElem(p[i]) + EncPath(p[i + 1..])
  {
    hide EncElem, EncPath;
    EncPathSnoc(p[..i], p[i]);
    EncPathConcat(p[..i + 1], p[i + 1..]);
    assert p[..i + 1] == p[..i] + [p[i]];
    assert p == p[..i + 1] + p[i + 1..];
  }

  // ------------------------------------------------------------ reading any key

  /** How many bytes of b precede its first marker. */
  function NameLen(b: bytes): (n: nat)
    ensures n <= |b|
  {
    if b == [] || Mark(b[0]) then 0 else 1 + NameLen(b[1..])
  }

  lemma {:induction false} NameLenIs(b: bytes, n: nat)
    requires n <= |b| && (forall k :: 0 <= k < n ==> !Mark(b[k])) && (n < |b| ==> Mark(b[n]))
    ensures NameLen(b) == n
    decreases |b|
  {
    if n > 0 {
      NameLenIs(b[1..], n - 1);
    }
  }

  /** An array marker has a byte behind it that tells the length of its index. */
  predicate Readable(b: bytes) {
    b != [] && (b[0] == BEGIN_ARRAY_KEY ==> |b| > 1)
  }

  /** The length the element at the front of b claims. */
  function FrontLen(b: bytes): (n: nat)
    requires Readable(b)
    ensures n > 0
  {
    if b[0] == BEGIN_ARRAY_KEY then 1 + VarintLen(b[1])
    else if b[0] == BEGIN_OBJECT_KEY then 1 + NameLen(b[1..])
    else 1
  }

  /** The front of an encoded path is its first element. */
  lemma FrontOfPath(p: Path)
    requires PathOk(p) && p != []
    ensures var s := EncPath(p);
            Readable(s) && Mark(s[0]) && FrontLen(s) == |EncElem(p[0])| <= |s| && s[..FrontLen(s)] == EncElem(p[0])
            && PathOk(p[1..]) && PathFits(p[1..]) && s[FrontLen(s)..] == EncPath(p[1..])
  {
    FrontElement(p[0], p[1..]);
    hide EncElem, EncPath;
    EncPathFront(p);
    StartsWithMark(p);
    var s, n := EncPath(p), |EncElem(p[0])|;
    if p[0].Key? {
      assert forall k :: 0 <= k < |s| - 1 ==> s[1..][k] == s[k + 1];
      NameLenIs(s[1..], n - 1);
    } else {
      assert n > 1 by { UvarintLength(p[0].idx); }
    }
  }

  lemma EncPathFront(p: Path)
    requires PathFits(p) && p != []
    ensures EncPath(p) == EncElem(p[0]) + EncPath(p[1..])
  {
    hide EncElem;
  }

  /** Reading key from i on finds a byte behind each array marker. */
  predicate ReadsThrough(key: bytes, i: nat)
    decreases |key| - i
  {
    i >= |key| || (Readable(key[i..]) && ReadsThrough(key, i + FrontLen(key[i..])))
  }

  /** Where the elements of key start, from i on. Stray bytes between them are passed over. */
  function StartsFrom(key: bytes, i: nat): seq<nat>
    requires ReadsThrough(key, i)
    decreases |key| - i
  {
    if i >= |key| then []
    else (if Mark(key[i]) then [i] else []) + StartsFrom(key, i + FrontLen(key[i..]))
  }

  lemma ReadStep(key: bytes, i: nat)
    requires i < |key|
    ensures ReadsThrough(key, i) <==> Readable(key[i..]) && ReadsThrough(key, i + FrontLen(key[i..]))
    ensures ReadsThrough(key, i)
            ==> StartsFrom(key, i)
                == (if Mark(key[i]) then [i] else []) + StartsFrom(key, i + FrontLen(key[i..]))
    ensures Readable(key[i..])
            ==> FrontLen(key[i..])
                == if key[i] == BEGIN_ARRAY_KEY then 1 + VarintLen(key[i + 1])
                   else if key[i] == BEGIN_OBJECT_KEY then 1 + NameLen(key[i + 1..])
                   else 1
  {
    assert key[i..][1..] == key[i + 1..];
  }

  lemma ReadEnd(key: bytes, i: nat)
    requires i >= |key|
    ensures ReadsThrough(key, i) && StartsFrom(key, i) == []
  {
  }

  /** The end of the name that starts at from. */
  method NameEnd(key: bytes, from: nat) returns (i: nat)
    requires from <= |key|
    ensures i == from + NameLen(key[from..])
  {
    i := from;
    while i < |key| && key[i] != BEGIN_OBJECT_KEY && key[i] != BEGIN_ARRAY_KEY
      invariant from <= i <= |key| && from + NameLen(key[from..]) == i + NameLen(key[i..])
    {
      assert key[i..][1..] == key[i + 1..];
      i := i + 1;
    }
  }

  /**
   Takes key apart again. Where it is the key of a location, that location comes
   back, path and offsets included.
   */
  method FromKey(key: bytes) returns (loc: Location)
    requires ReadsThrough(key, 1)
    ensures fresh(loc) && loc.key == key && loc.offsets == StartsFrom(key, 1) + [|key|]
    ensures forall p :: PathOk(p) && KeyFor(key, p) ==> loc.Valid() && loc.path == p
  {
    hide StartsFrom, ReadsThrough, FrontLen, NameLen, VarintLen, KeyFor, OffsetsOf;
    loc := new Location();
    loc.key := key;
    loc.offsets := [];
    var i := 1;
    while i < |key|
      invariant i >= 1 && fresh(loc) && loc.key == key && ReadsThrough(key, i)
      invariant loc.offsets + StartsFrom(key, i) == StartsFrom(key, 1)
      decreases |key| - i
    {
      ReadStep(key, i);
      ghost var at, before := i, loc.offsets;
      if key[i] == BEGIN_OBJECT_KEY {
        loc.offsets := loc.offsets + [i];
        i := NameEnd(key, i + 1);
      } else if key[i] == BEGIN_ARRAY_KEY {
        loc.offsets := loc.offsets + [i];
        i := i + 1;
        i := i + VarintLen(key[i]);
      } else {
        i := i + 1;
      }
      assert i == at + FrontLen(key[at..]);
      assert before + ((if Mark(key[at]) then [at] else []) + StartsFrom(key, i)) == loc.offsets + StartsFrom(key, i);
    }
    ReadEnd(key, i);
    assert loc.offsets + [] == loc.offsets;
    loc.offsets := loc.offsets + [|key|];
    if p :| PathOk(p) && KeyFor(key, p) {
      loc.path := p;
      OffsetsFound(key, p);
    }
    forall p | PathOk(p) && KeyFor(key, p) ensures loc.path == p {
      PathFound(key, p, loc.path);
    }
  }

  lemma PathFound(key: bytes, p: Path, q: Path)
    requires PathOk(p) && PathOk(q) && KeyFor(key, p) && KeyFor(key, q)
    ensures p == q
  {
    EncPathInjective(p, q);
  }

  lemma OffsetsFound(key: bytes, p: Path)
    requires PathOk(p) && KeyFor(key, p)
    ensures |key| > 0 && ReadsThrough(key, 1) && OffsetsOf(StartsFrom(key, 1) + [|key|], p)
  {
    hide OffsetsOf, StartsFrom, ReadsThrough;
    assert p[..0] == [];
    StartsOfPath(key, p, [], 0);
    assert [] + StartsFrom(key, 1) == StartsFrom(key, 1);
  }

  /** In the key of a path the elements start where those of the path do. */
  lemma {:induction false} StartsOfPath(key: bytes, p: Path, offs: seq<nat>, k: nat)
    requires PathOk(p) && KeyFor(key, p) && k <= |p|
    requires |offs| == k && forall j :: 0 <= j < k ==> offs[j] == 1 + |EncPath(p[..j])|
    ensures var i := 1 + |EncPath(p[..k])|;
            ReadsThrough(key, i) && OffsetsOf(offs + StartsFrom(key, i) + [|key|], p)
    decreases |p| - k
  {
    hide EncElem, EncPath, OffsetsOf, StartsFrom, ReadsThrough, FrontLen, Mark;
    var i := 1 + |EncPath(p[..k])|;
    if k == |p| {
      AllStarts(key, p, offs);
    } else {
      FrontAt(key, p, k);
      StartsOfPath(key, p, offs + [i], k + 1);
      ReadStep(key, i);
      assert offs + [i] + StartsFrom(key, i + FrontLen(key[i..])) == offs + StartsFrom(key, i);
    }
  }

  /** What stands in the key of p where its k-th element starts. */
  lemma FrontAt(key: bytes, p: Path, k: nat)
    requires PathOk(p) && KeyFor(key, p) && k < |p|
    ensures var i := 1 + |EncPath(p[..k])|;
            i < |key| && Readable(key[i..]) && Mark(key[i]) && i + FrontLen(key[i..]) == 1 + |EncPath(p[..k + 1])|
  {
    hide EncElem, EncPath, FrontLen, Mark;
    var i := 1 + |EncPath(p[..k])|;
    SplitPath(p, k);
    FrontOfPath(p[k..]);
    assert key[i..] == key[1..][i - 1..] == EncPath(p[k..]);
    SplitAt(p, k);
  }

  lemma SplitPath(p: Path, k: nat)
    requires PathOk(p) && k <= |p|
    ensures PathOk(p[k..]) && PathFits(p[..k]) && PathFits(p[k..]) && EncPath(p) == EncPath(p[..k]) + EncPath(p[k..])
  {
    hide EncPath;
    EncPathConcat(p[..k], p[k..]);
    assert p == p[..k] + p[k..];
  }

  lemma AllStarts(key: bytes, p: Path, offs: seq<nat>)
    requires KeyFor(key, p) && |offs| == |p| && forall j :: 0 <= j < |p| ==> offs[j] == 1 + |EncPath(p[..j])|
    ensures p[..|p|] == p && ReadsThrough(key, 1 + |EncPath(p)|)
    ensures OffsetsOf(offs + StartsFrom(key, 1 + |EncPath(p)|) + [|key|], p)
  {
    hide EncPath;
    assert p[..|p|] == p;
  }

  // ----------------------------------------------------------------- comparison

  datatype Comparison = Compared(value: int) | UnknownKey

  /** Elements compare as their marker bytes, then as their bodies. */
  function FrontCmp(s: bytes, t: bytes): int
    requires Readable(s) && Readable(t) && (s[0] == t[0] ==> FrontLen(s) <= |s| && FrontLen(t) <= |t|)
  {
    if s[0] != t[0] then (if s[0] < t[0] then -1 else 1) else Lex(s[1..FrontLen(s)], t[1..FrontLen(t)])
  }

  /** As far as the two compare equal, neither breaks off inside an element. */
  predicate Comparable(s: bytes, t: bytes)
    decreases |s|
  {
    s == [] || t == []
    || (Readable(s) && Readable(t) && (s[0] == t[0] ==> FrontLen(s) <= |s| && FrontLen(t) <= |t|)
        && (FrontCmp(s, t) == 0 ==> Comparable(s[FrontLen(s)..], t[FrontLen(t)..])))
  }

  /** The order of two keys, given their states and elements: by the elements, then by the states. */
  function KeyOrder(x: byte, s: bytes, y: byte, t: bytes): int
    requires Comparable(s, t)
    decreases |s|
  {
    if s == [] || t == [] then CompareEnds(x, s == [], y, t == [])
    else if FrontCmp(s, t) != 0 then FrontCmp(s, t)
    else KeyOrder(x, s[FrontLen(s)..], y, t[FrontLen(t)..])
  }

  /** When one key or both have no elements left, the states decide. */
  function CompareEnds(s: byte, sDone: bool, t: byte, tDone: bool): int {
    if sDone && tDone then ComparePathTypes(s, t)
    else if sDone then if s == END_OF_VALUE then 1 else -1
    else if t == END_OF_VALUE then -1
    else 1
  }

  function ComparePathTypes(a: byte, b: byte): int {
    if a == b then 0 else if a < b then -1 else 1
  }

  /** The length of the element at the front of an encoded path. */
  method ElementLen(b: bytes) returns (n: nat)
    requires b != [] ==> Readable(b)
    ensures n == if b == [] then 0 else FrontLen(b)
    ensures forall p :: PathOk(p) && p != [] && b == EncPath(p) ==> n == |EncElem(p[0])|
  {
    forall p | PathOk(p) && p != [] && b == EncPath(p) ensures FrontLen(b) == |EncElem(p[0])| {
      FrontOfPath(p);
    }
    if |b| == 0 {
      return 0;
    }
    n := 1;
    if b[0] == BEGIN_ARRAY_KEY {
      n := 1 + VarintLen(b[1]);
    } else if b[0] == BEGIN_OBJECT_KEY {
      while n < |b| && b[n] != BEGIN_OBJECT_KEY && b[n] != BEGIN_ARRAY_KEY
        invariant 1 <= n <= |b| && FrontLen(b) == n + NameLen(b[n..])
      {
        assert b[n..][1..] == b[n + 1..];
        n := n + 1;
      }
    }
  }

  lemma DropMore(s: bytes, i: nat, n: nat)
    requires i + n <= |s|
    ensures s[i..][n..] == s[i + n..]
  {
  }

  /** k is the key of x. */
  ghost predicate StandsFor(k: bytes, x: Loc) {
    x.state < NUM_STATES && PathOk(x.path) && k == KeyOf(x)
  }

  /**
   Compares two keys. Absent keys come first, keys of unknown states are refused, and
   the keys of locations compare as traversal order does.
   */
  method Compare(a: bytes, b: bytes) returns (r: Comparison)
    requires a != [] && b != [] && a[0] < NUM_STATES && b[0] < NUM_STATES ==> Comparable(a[1..], b[1..])
    ensures a == [] || b == [] ==> r == Compared(if a == b then 0 else if a == [] then -1 else 1)
    ensures a != [] && b != [] && (a[0] >= NUM_STATES || b[0] >= NUM_STATES) ==> r == UnknownKey
    ensures a != [] && b != [] && a[0] < NUM_STATES && b[0] < NUM_STATES
            ==> r == Compared(KeyOrder(a[0], a[1..], b[0], b[1..]))
    ensures forall x: Loc, y: Loc :: StandsFor(a, x) && StandsFor(b, y) ==> r == Compared(Cmp(x, y))
  {
    hide KeyOrder, Comparable, Cmp, PathOk, EncPath;
    forall x: Loc, y: Loc | StandsFor(a, x) && StandsFor(b, y)
      ensures a != [] && b != [] && a[0] < NUM_STATES && b[0] < NUM_STATES && Comparable(a[1..], b[1..])
              && KeyOrder(a[0], a[1..], b[0], b[1..]) == Cmp(x, y)
    {
      KeyOrderIsTraversal(x, y);
    }
    if |a| == 0 || |b| == 0 {
      if a == b {
        return Compared(0);
      }
      if |a| == 0 {
        return Compared(-1);
      }
      return Compared(1);
    }
    if a[0] >= NUM_STATES || b[0] >= NUM_STATES {
      return UnknownKey;
    }
    var c := CompareKnown(a, b);
    return Compared(c);
  }

  lemma CompareStep(x: byte, s: bytes, y: byte, t: bytes)
    requires s != [] && t != [] && Comparable(s, t)
    ensures Readable(s) && Readable(t) && (s[0] == t[0] ==> FrontLen(s) <= |s| && FrontLen(t) <= |t|)
    ensures FrontCmp(s, t) != 0 ==> KeyOrder(x, s, y, t) == FrontCmp(s, t)
    ensures FrontCmp(s, t) == 0
            ==> s[0] == t[0] && Comparable(s[FrontLen(s)..], t[FrontLen(t)..])
                && KeyOrder(x, s, y, t) == KeyOrder(x, s[FrontLen(s)..], y, t[FrontLen(t)..])
  {
    hide FrontLen, Lex;
  }

  lemma CompareDone(x: byte, s: bytes, y: byte, t: bytes)
    requires s == [] || t == []
    ensures Comparable(s, t) && KeyOrder(x, s, y, t) == CompareEnds(x, s == [], y, t == [])
  {
    hide CompareEnds;
  }

  /** Element by element, then by the states where the elements run out. */
  method CompareKnown(a: bytes, b: bytes) returns (r: int)
    requires a != [] && b != [] && Comparable(a[1..], b[1..])
    ensures r == KeyOrder(a[0], a[1..], b[0], b[1..])
  {
    hide FrontLen, Lex, CompareEnds, KeyOrder, Comparable;
    var ai, bi := 1, 1;
    while ai < |a| && bi < |b|
      invariant 1 <= ai <= |a| && 1 <= bi <= |b| && Comparable(a[ai..], b[bi..])
      invariant KeyOrder(a[0], a[1..], b[0], b[1..]) == KeyOrder(a[0], a[ai..], b[0], b[bi..])
      decreases |a| - ai
    {
      CompareStep(a[0], a[ai..], b[0], b[bi..]);
      var aLen := ElementLen(a[ai..]);
      var bLen := ElementLen(b[bi..]);
      if a[ai] != b[bi] {
        if a[ai] < b[bi] {
          return -1;
        }
        return 1;
      }
      var body := Lex(a[ai + 1..ai + aLen], b[bi + 1..bi + bLen]);
      assert a[ai + 1..ai + aLen] == a[ai..][1..aLen] && b[bi + 1..bi + bLen] == b[bi..][1..bLen];
      if body != 0 {
        return body;
      }
      DropMore(a, ai, aLen);
      DropMore(b, bi, bLen);
      ai, bi := ai + aLen, bi + bLen;
    }
    CompareDone(a[0], a[ai..], b[0], b[bi..]);
    return CompareEnds(a[0], ai == |a|, b[0], bi == |b|);
  }

  /** On the keys of locations that order is traversal order. */
  lemma KeyOrderIsTraversal(x: Loc, y: Loc)
    requires x.state < NUM_STATES && y.state < NUM_STATES && PathOk(x.path) && PathOk(y.path)
    ensures Comparable(KeyOf(x)[1..], KeyOf(y)[1..])
    ensures KeyOrder(x.state, KeyOf(x)[1..], y.state, KeyOf(y)[1..]) == Cmp(x, y)
  {
    hide EncPath, Comparable, KeyOrder, Tokens, TokensCmp;
    assert KeyOf(x)[1..] == EncPath(x.path) && KeyOf(y)[1..] == EncPath(y.path);
    KeyOrderOfPaths(x.state, x.path, y.state, y.path);
  }

  lemma {:induction false} KeyOrderOfPaths(s: byte, p: Path, t: byte, q: Path)
    requires s < NUM_STATES && t < NUM_STATES && PathOk(p) && PathOk(q)
    ensures Comparable(EncPath(p), EncPath(q))
    ensures KeyOrder(s, EncPath(p), t, EncPath(q)) == TokensCmp(Tokens(s, p), Tokens(t, q))
    decreases |p|
  {
    StartsWithMark(p);
    StartsWithMark(q);
    hide EncPath, EncElem, Tokens, TokensCmp, ElemCmp, Lex, FrontLen, CompareEnds, Mark;
    if p == [] || q == [] {
      LastTokens(s, p, t, q);
    } else {
      FrontOfPath(p);
      FrontOfPath(q);
      ElemBodies(p[0], q[0]);
      FirstTokens(s, p, t, q);
      FrontsCompare(EncPath(p), EncPath(q), EncElem(p[0]), EncElem(q[0]));
      KeyOrderOfPaths(s, p[1..], t, q[1..]);
    }
  }

  lemma FrontsCompare(s: bytes, t: bytes, e: bytes, f: bytes)
    requires Readable(s) && Readable(t) && FrontLen(s) <= |s| && FrontLen(t) <= |t|
    requires s[..FrontLen(s)] == e && t[..FrontLen(t)] == f
    ensures FrontCmp(s, t) == if e[0] != f[0] then (if e[0] < f[0] then -1 else 1) else Lex(e[1..], f[1..])
  {
    hide FrontLen, Lex;
    assert s[1..FrontLen(s)] == e[1..] && t[1..FrontLen(t)] == f[1..];
  }

  /** Turned round, any two keys compare the other way. */
  lemma {:induction false} KeyOrderAntisymmetric(x: byte, s: bytes, y: byte, t: bytes)
    requires Comparable(s, t)
    ensures Comparable(t, s) && KeyOrder(y, t, x, s) == -KeyOrder(x, s, y, t)
    decreases |s|
  {
    hide FrontLen, Lex;
    if s != [] && t != [] {
      if s[0] == t[0] {
        LexAntisymmetric(s[1..FrontLen(s)], t[1..FrontLen(t)]);
      }
      if FrontCmp(s, t) == 0 {
        KeyOrderAntisymmetric(x, s[FrontLen(s)..], y, t[FrontLen(t)..]);
      }
    }
  }

  /** Where one path ends, its state decides. */
  lemma LastTokens(s: byte, p: Path, t: byte, q: Path)
    requires s < NUM_STATES && t < NUM_STATES && (p == [] || q == [])
    ensures TokensCmp(Tokens(s, p), Tokens(t, q))
         == CompareEnds(s, p == [], t, q == [])
  {
    assert p == [] && q == [] ==> Tokens(s, p)[1..] == [] && Tokens(t, q)[1..] == [];
  }

  lemma FirstTokens(s: byte, p: Path, t: byte, q: Path)
    requires p != [] && q != []
    ensures var c := ElemCmp(p[0], q[0]);
            TokensCmp(Tokens(s, p), Tokens(t, q))
            == if c != 0 then Sign(c) else TokensCmp(Tokens(s, p[1..]), Tokens(t, q[1..]))
  {
    assert Tokens(s, p)[1..] == Tokens(s, p[1..]) && Tokens(t, q)[1..] == Tokens(t, q[1..]);
  }

  lemma ElemBodies(x: Elem, y: Elem)
    requires ElemFits(x) && ElemFits(y)
    ensures Sign(ElemCmp(x, y))
         == if EncElem(x)[0] != EncElem(y)[0] then (if EncElem(x)[0] < EncElem(y)[0] then -1 else 1)
            else Lex(EncElem(x)[1..], EncElem(y)[1..])
  {
    if x.Index? && y.Index? {
      UvarintOrder(x.idx, y.idx);
      assert EncElem(x)[1..] == Uvarint(x.idx) && EncElem(y)[1..] == Uvarint(y.idx);
    } else if x.Key? && y.Key? {
      assert EncElem(x)[1..] == x.key && EncElem(y)[1..] == y.key;
    }
  }
}
