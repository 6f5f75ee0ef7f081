/**
 Location keys: a state byte and an encoded path. Their order is the order in
 which a scan of the document passes the places they name.
 */
module Keys {
  import opened Bytes
  import opened Edits
  import opened Varint

  const START_OF_VALUE: byte := 0
  const OBJECT_INITIAL: byte := 1
  const ARRAY_INITIAL: byte := 2
  const MIDDLE_OF_VALUE: byte := 3
  const END_OF_VALUE: byte := 4
  const NUM_STATES: byte := 5

  const BEGIN_OBJECT_KEY: byte := 0xFF
  const BEGIN_ARRAY_KEY: byte := 0xFE

  /** The key of the last chunk. */
  const END_OF_DOCUMENT_KEY: bytes := [0xFF]

  datatype Loc = Loc(state: byte, path: Path)

  predicate Mark(b: byte) { b == BEGIN_OBJECT_KEY || b == BEGIN_ARRAY_KEY }

  predicate NoMarks(s: bytes) {
    forall k :: 0 <= k < |s| ==> !Mark(s[k])
  }

  /** Positions fit the 64 bits the source gives them. */
  predicate ElemFits(el: Elem) { el.Index? ==> el.idx < U64 }

  /** Object keys are free of marker bytes, as UTF-8 is. */
  predicate ElemOk(el: Elem) { ElemFits(el) && (el.Key? ==> NoMarks(el.key)) }

  predicate PathFits(p: Path) { forall i :: 0 <= i < |p| ==> ElemFits(p[i]) }

  predicate PathOk(p: Path) { forall i :: 0 <= i < |p| ==> ElemOk(p[i]) }

  function EncElem(el: Elem): (r: bytes)
    requires ElemFits(el)
    ensures |r| > 0 && r[0] == (if el.Key? then BEGIN_OBJECT_KEY else BEGIN_ARRAY_KEY)
    ensures |r| == 1 + if el.Key? then |el.key| else |Uvarint(el.idx)|
  {
    match el
    case Key(k) => [BEGIN_OBJECT_KEY] + k
    case Index(i) => [BEGIN_ARRAY_KEY] + Uvarint(i)
  }

  function EncPath(p: Path): (r: bytes)
    requires PathFits(p)
  {
    if p == [] then [] else EncElem(p[0]) + EncPath(p[1..])
  }

  function KeyOf(loc: Loc): bytes
    requires PathFits(loc.path)
  {
    [loc.state] + EncPath(loc.path)
  }

  lemma {:induction false} EncPathConcat(p: Path, q: Path)
    requires PathFits(p) && PathFits(q)
    ensures PathFits(p + q) && EncPath(p + q) == EncPath(p) + EncPath(q)
    decreases |p|
  {
    hide EncElem;
    if p == [] {
      assert p + q == q;
    } else {
      EncPathConcat(p[1..], q);
      assert (p + q)[1..] == p[1..] + q && (p + q)[0] == p[0];
      assert EncElem(p[0]) + (EncPath(p[1..]) + EncPath(q)) == EncElem(p[0]) + EncPath(p[1..]) + EncPath(q);
    }
  }

  lemma EncPathOne(el: Elem)
    requires ElemFits(el)
    ensures EncPath([el]) == EncElem(el)
  {
    assert [el][1..] == [];
  }

  // -------------------------------------------------------------- traversal order

  function ElemCmp(a: Elem, b: Elem): int {
    match (a, b)
    case (Index(i), Index(j)) => Sign(i - j)
    case (Index(_), Key(_)) => -1
    case (Key(_), Index(_)) => 1
    case (Key(k), Key(l)) => Lex(k, l)
  }

  /** A path read to its end: its steps, then whether it stops before or after its descendants. */
  datatype Token = Before(state: byte) | Step(el: Elem) | After

  function Tokens(state: byte, p: Path): seq<Token> {
    if p == [] then [if state == END_OF_VALUE then After else Before(state)]
    else [Step(p[0])] + Tokens(state, p[1..])
  }

  function TokenCmp(a: Token, b: Token): int {
    match (a, b)
    case (Before(s), Before(t)) => Sign(s as int - t as int)
    case (Before(_), _) => -1
    case (_, Before(_)) => 1
    case (Step(x), Step(y)) => ElemCmp(x, y)
    case (Step(_), After) => -1
    case (After, Step(_)) => 1
    case (After, After) => 0
  }

  function TokensCmp(a: seq<Token>, b: seq<Token>): (r: int)
    ensures -1 <= r <= 1
  {
    if a == [] || b == [] then Sign(|a| - |b|)
    else if TokenCmp(a[0], b[0]) != 0 then Sign(TokenCmp(a[0], b[0]))
    else TokensCmp(a[1..], b[1..])
  }

  /** Traversal order: lexicographic on tokens. */
  function Cmp(a: Loc, b: Loc): int {
    TokensCmp(Tokens(a.state, a.path), Tokens(b.state, b.path))
  }

  lemma TokenTotal(a: Token, b: Token)
    ensures Sign(TokenCmp(a, b)) == -Sign(TokenCmp(b, a))
    ensures TokenCmp(a, b) == 0 <==> a == b
  {
    if a.Step? && b.Step? && a.el.Key? && b.el.Key? {
      LexAntisymmetric(a.el.key, b.el.key);
    }
  }

  lemma TokenTransitive(a: Token, b: Token, c: Token)
    requires TokenCmp(a, b) < 0 && TokenCmp(b, c) < 0
    ensures TokenCmp(a, c) < 0
  {
    if a.Step? && b.Step? && c.Step? && a.el.Key? && b.el.Key? && c.el.Key? {
      LexTransitive(a.el.key, b.el.key, c.el.key);
    }
  }

  lemma {:induction false} TokensTotal(a: seq<Token>, b: seq<Token>)
    ensures TokensCmp(a, b) == -TokensCmp(b, a)
    ensures TokensCmp(a, b) == 0 <==> a == b
    decreases |a|
  {
    if a != [] && b != [] {
      TokenTotal(a[0], b[0]);
      TokensTotal(a[1..], b[1..]);
      assert a == [a[0]] + a[1..] && b == [b[0]] + b[1..];
    }
  }

  lemma {:induction false} TokensTransitive(a: seq<Token>, b: seq<Token>, c: seq<Token>)
    requires TokensCmp(a, b) < 0 && TokensCmp(b, c) < 0
    ensures TokensCmp(a, c) < 0
    decreases |a|
  {
    if a != [] && b != [] && c != [] {
      TokenTotal(a[0], b[0]);
      TokenTotal(b[0], c[0]);
      if a[0] == b[0] == c[0] {
        TokensTransitive(a[1..], b[1..], c[1..]);
      } else if a[0] != b[0] && b[0] != c[0] {
        TokenTransitive(a[0], b[0], c[0]);
      }
    }
  }

  lemma {:induction false} TokensInjective(s: byte, p: Path, t: byte, q: Path)
    requires s < NUM_STATES && t < NUM_STATES && Tokens(s, p) == Tokens(t, q)
    ensures s == t && p == q
    decreases |p|
  {
    if p != [] && q != [] {
      assert Tokens(s, p)[1..] == Tokens(s, p[1..]) && Tokens(t, q)[1..] == Tokens(t, q[1..]);
      assert Tokens(s, p)[0] == Step(p[0]) && Tokens(t, q)[0] == Step(q[0]);
      TokensInjective(s, p[1..], t, q[1..]);
      assert p == [p[0]] + p[1..] && q == [q[0]] + q[1..];
    } else {
      assert p == [] ==> !Tokens(s, p)[0].Step?;
      assert q == [] ==> !Tokens(t, q)[0].Step?;
    }
  }

  /** Traversal order is a strict total order on the locations of known states. */
  lemma CmpTotalOrder(a: Loc, b: Loc, c: Loc)
    requires a.state < NUM_STATES && b.state < NUM_STATES && c.state < NUM_STATES
    ensures Cmp(a, b) == -Cmp(b, a)
    ensures Cmp(a, b) == 0 <==> a == b
    ensures Cmp(a, b) < 0 && Cmp(b, c) < 0 ==> Cmp(a, c) < 0
  {
    var x, y, z := Tokens(a.state, a.path), Tokens(b.state, b.path), Tokens(c.state, c.path);
    TokensTotal(x, y);
    if x == y {
      TokensInjective(a.state, a.path, b.state, b.path);
    }
    if Cmp(a, b) < 0 && Cmp(b, c) < 0 {
      TokensTransitive(x, y, z);
    }
  }

  lemma {:induction false} CmpCommon(s: byte, t: byte, c: Path, p: Path, q: Path)
    ensures Cmp(Loc(s, c + p), Loc(t, c + q)) == Cmp(Loc(s, p), Loc(t, q))
    decreases |c|
  {
    if c == [] {
      assert c + p == p && c + q == q;
    } else {
      assert (c + p)[1..] == c[1..] + p && (c + q)[1..] == c[1..] + q;
      TokenTotal(Step(c[0]), Step(c[0]));
      assert Tokens(s, c + p)[1..] == Tokens(s, c[1..] + p) && Tokens(t, c + q)[1..] == Tokens(t, c[1..] + q);
      CmpCommon(s, t, c[1..], p, q);
    }
  }

  /** A container's start states precede everything below it and its end follows. */
  lemma ContainerBrackets(p: Path, below: Path, s: byte, t: byte)
    requires below != [] && s < NUM_STATES && t < NUM_STATES
    ensures s != END_OF_VALUE ==> Cmp(Loc(s, p), Loc(t, p + below)) < 0
    ensures s == END_OF_VALUE ==> Cmp(Loc(t, p + below), Loc(s, p)) < 0
  {
    CmpCommon(s, t, p, [], below);
    CmpCommon(t, s, p, below, []);
    assert p + [] == p;
  }

  // --------------------------------------------------- keys read back uniquely

  /** Where the element at the front of an encoded path ends. */
  lemma FrontElement(el: Elem, rest: Path)
    requires ElemOk(el) && PathFits(rest)
    ensures var s := EncElem(el) + EncPath(rest);
            var n := |EncElem(el)|;
            (el.Index? ==> VarintLen(s[1]) == n - 1)
            && (el.Key? ==> forall k :: 1 <= k < n ==> !Mark(s[k]))
            && (n < |s| ==> Mark(s[n]))
  {
    var s, n := EncElem(el) + EncPath(rest), |EncElem(el)|;
    if el.Index? {
      UvarintLength(el.idx);
    } else {
      forall k | 1 <= k < n ensures !Mark(s[k]) {
        assert s[k] == el.key[k - 1];
      }
    }
    if n < |s| {
      assert s[n] == EncPath(rest)[0];
    }
  }

  lemma {:induction false} EncPathInjective(p: Path, q: Path)
    requires PathOk(p) && PathOk(q) && EncPath(p) == EncPath(q)
    ensures p == q
    decreases |p|
  {
    hide EncElem, Mark;
    if p != [] && q != [] {
      SameFront(p, q);
      EncPathInjective(p[1..], q[1..]);
      assert p == [p[0]] + p[1..] && q == [q[0]] + q[1..];
    }
  }

  lemma SameFront(p: Path, q: Path)
    requires p != [] && q != [] && PathOk(p) && PathOk(q) && EncPath(p) == EncPath(q)
    ensures p[0] == q[0] && EncPath(p[1..]) == EncPath(q[1..])
  {
    hide EncElem, Mark;
    FrontElement(p[0], p[1..]);
    FrontElement(q[0], q[1..]);
    var s, m, n := EncPath(p), |EncElem(p[0])|, |EncElem(q[0])|;
    assert s[0] == EncElem(p[0])[0] == EncElem(q[0])[0];
    assert m < |s| ==> Mark(s[m]);
    assert n < |s| ==> Mark(s[n]);
    assert m == n;
    assert EncElem(p[0]) == s[..m] && EncElem(q[0]) == s[..n];
    assert EncPath(p[1..]) == s[m..] && EncPath(q[1..]) == s[n..];
    SameElement(p[0], q[0]);
  }

  lemma SameElement(a: Elem, b: Elem)
    requires ElemFits(a) && ElemFits(b) && EncElem(a) == EncElem(b)
    ensures a == b
  {
    assert EncElem(a)[1..] == EncElem(b)[1..];
    if a.Index? {
      ReadOfUvarint(a.idx, []);
      ReadOfUvarint(b.idx, []);
      assert Uvarint(a.idx) + [] == Uvarint(b.idx) + [];
    }
  }

  lemma KeyInjective(a: Loc, b: Loc)
    requires PathOk(a.path) && PathOk(b.path) && KeyOf(a) == KeyOf(b)
    ensures a == b
  {
    assert KeyOf(a)[1..] == EncPath(a.path) && KeyOf(b)[1..] == EncPath(b.path);
    EncPathInjective(a.path, b.path);
  }

  // ------------------------------------------------- plain byte order is not it

  /**
   p is passed by the scan before q, yet q's end key is a byte prefix of p's, or
   p lies below a field whose name is a proper prefix of the sibling's on q's way.
   */
  predicate Overtaken(p: Path, q: Path) {
    if p == [] then false
    else if q == [] then true
    else if p[0] == q[0] then Overtaken(p[1..], q[1..])
    else p[0].Key? && q[0].Key? && p[0].key < q[0].key && |p| > 1
  }

  /** Byte order of two end keys agrees with the scan exactly when neither case applies. */
  lemma {:induction false} ByteOrderOfPaths(p: Path, q: Path)
    requires PathOk(p) && PathOk(q)
    requires Cmp(Loc(END_OF_VALUE, p), Loc(END_OF_VALUE, q)) < 0
    ensures Lex(EncPath(p), EncPath(q)) < 0 <==> !Overtaken(p, q)
    decreases |p|
  {
    assert p != [] by { assert Tokens(END_OF_VALUE, [])[0] == After; }
    if q != [] {
      assert p == [p[0]] + p[1..] && q == [q[0]] + q[1..];
      if p[0] == q[0] {
        CmpCommon(END_OF_VALUE, END_OF_VALUE, [p[0]], p[1..], q[1..]);
        LexCommonPrefix(EncElem(p[0]), EncPath(p[1..]), EncPath(q[1..]));
        ByteOrderOfPaths(p[1..], q[1..]);
      } else {
        TokenTotal(Step(p[0]), Step(q[0]));
        ByteOrderOfSteps(p[0], q[0], p[1..], q[1..]);
      }
    }
  }

  /** The same, where the two paths part. */
  lemma ByteOrderOfSteps(x: Elem, y: Elem, p: Path, q: Path)
    requires ElemOk(x) && ElemOk(y) && PathOk(p) && PathOk(q) && ElemCmp(x, y) < 0
    ensures Lex(EncElem(x) + EncPath(p), EncElem(y) + EncPath(q)) < 0
            <==> !(x.Key? && y.Key? && x.key < y.key && p != [])
  {
    hide EncPath, Uvarint, Lex, Mark;
    var s, t := EncPath(p), EncPath(q);
    StartsWithMark(p);
    if x.Index? && y.Index? {
      UvarintPrefixFree(x.idx, y.idx, s, t);
      LexBehindMark(BEGIN_ARRAY_KEY, Uvarint(x.idx), s, Uvarint(y.idx), t);
    } else if x.Key? {
      NamesThenMarks(x.key, y.key, s, t);
      LexBehindMark(BEGIN_OBJECT_KEY, x.key, s, y.key, t);
    } else {
      LexFirst(EncElem(x) + s, EncElem(y) + t);
    }
  }

  lemma LexBehindMark(m: byte, a: bytes, s: bytes, b: bytes, t: bytes)
    ensures Lex([m] + a + s, [m] + b + t) == Lex(a + s, b + t)
  {
    hide Lex;
    LexCommonPrefix([m], a + s, b + t);
    assert [m] + a + s == [m] + (a + s) && [m] + b + t == [m] + (b + t);
  }

  lemma LexFirst(a: bytes, b: bytes)
    requires a != [] && b != [] && a[0] < b[0]
    ensures Lex(a, b) < 0
  {
  }

  lemma StartsWithMark(p: Path)
    requires PathOk(p)
    ensures p != [] <==> EncPath(p) != []
    ensures p != [] ==> Mark(EncPath(p)[0])
  {
  }

  lemma {:induction false} LexDecided(a: bytes, b: bytes, s: bytes, t: bytes)
    requires Lex(a, b) < 0 && !(a <= b)
    ensures Lex(a + s, b + t) < 0
    decreases |a|
  {
    if a[0] == b[0] {
      PrefixCons(a, b);
      LexDecided(a[1..], b[1..], s, t);
      assert (a + s)[1..] == a[1..] + s && (b + t)[1..] == b[1..] + t;
    }
  }

  lemma PrefixCons(a: bytes, b: bytes)
    requires a != [] && b != [] && a[0] == b[0]
    ensures a <= b <==> a[1..] <= b[1..]
  {
    assert a == [a[0]] + a[1..] && b == [b[0]] + b[1..];
  }

  lemma UvarintPrefixFree(x: nat, y: nat, s: bytes, t: bytes)
    requires x < y < U64
    ensures Lex(Uvarint(x) + s, Uvarint(y) + t) < 0
  {
    UvarintOrder(x, y);
    UvarintLength(x);
    UvarintLength(y);
    if Uvarint(x) <= Uvarint(y) {
      assert Uvarint(x)[0] == Uvarint(y)[0];
      assert Uvarint(x) == Uvarint(y);
      LexAntisymmetric(Uvarint(x), Uvarint(y));
      assert false;
    }
    LexDecided(Uvarint(x), Uvarint(y), s, t);
  }

  lemma NamesThenMarks(k: bytes, l: bytes, s: bytes, t: bytes)
    requires NoMarks(l) && Lex(k, l) < 0 && (s != [] ==> Mark(s[0]))
    ensures Lex(k + s, l + t) < 0 <==> !(k < l && s != [])
  {
    if k <= l {
      LexAntisymmetric(k, l);
      var l' := l[|k|..];
      assert l == k + l' && l' != [] && !Mark(l'[0]) by { assert l'[0] == l[|k|]; }
      assert l + t == k + (l' + t);
      LexCommonPrefix(k, s, l' + t);
    } else {
      LexDecided(k, l, s, t);
    }
  }

  /** So byte order puts an ancestor's end key in front of its descendants' end keys. */
  lemma ByteOrderPutsAncestorFirst(p: Path, below: Path)
    requires PathOk(p) && PathOk(below) && below != []
    ensures PathFits(p + below)
    ensures Lex(KeyOf(Loc(END_OF_VALUE, p)), KeyOf(Loc(END_OF_VALUE, p + below))) < 0
    ensures Cmp(Loc(END_OF_VALUE, p + below), Loc(END_OF_VALUE, p)) < 0
  {
    hide EncPath, Cmp;
    EncPathConcat(p, below);
    StartsWithMark(below);
    var k := KeyOf(Loc(END_OF_VALUE, p));
    assert KeyOf(Loc(END_OF_VALUE, p + below)) == k + EncPath(below);
    assert k == k + [];
    LexCommonPrefix(k, [], EncPath(below));
    ContainerBrackets(p, below, END_OF_VALUE, END_OF_VALUE);
  }

  /** The end of the fourth element of the array a, and the start of the empty path in each state. */
  lemma InFigures()
    ensures KeyOf(Loc(END_OF_VALUE, [Key([97]), Index(3)])) == [4, 0xFF, 97, 0xFE, 3]
    ensures KeyOf(Loc(START_OF_VALUE, [])) == [0] && KeyOf(Loc(OBJECT_INITIAL, [])) == [1]
    ensures KeyOf(Loc(ARRAY_INITIAL, [])) == [2] && END_OF_DOCUMENT_KEY == [0xFF]
  {
    EncPathOne(Index(3));
    var p := [Key([97]), Index(3)];
    assert p[1..] == [Index(3)];
    assert EncPath(p) == EncElem(Key([97])) + EncElem(Index(3));
  }
}
