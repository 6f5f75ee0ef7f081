/** Dotted paths: "a.0.b" names the field b of the first element of a. */
module MongoPath {
  import opened Bytes
  import opened Edits
  import opened Varint
  import opened Keys
  import opened Location

  const DOT: byte := 46
  const DOLLAR: byte := 36

  /** strings.Split at every dot. */
  function Split(s: bytes): (r: seq<bytes>)
    ensures |r| > 0
  {
    if s == [] then [[]]
    else if s[0] == DOT then [[]] + Split(s[1..])
    else
      var r := Split(s[1..]);
      [[s[0]] + r[0]] + r[1..]
  }

  function Join(parts: seq<bytes>): bytes
    requires |parts| > 0
  {
    if |parts| == 1 then parts[0] else parts[0] + [DOT] + Join(parts[1..])
  }

  predicate DotFree(s: bytes) {
    forall k :: 0 <= k < |s| ==> s[k] != DOT
  }

  lemma {:induction false} SplitAppend(a: bytes, s: bytes)
    requires DotFree(a)
    ensures Split(a + s) == [a + Split(s)[0]] + Split(s)[1..]
    decreases |a|
  {
    if a == [] {
      assert a + s == s && a + Split(s)[0] == Split(s)[0];
    } else {
      assert (a + s)[1..] == a[1..] + s;
      SplitAppend(a[1..], s);
      assert [a[0]] + (a[1..] + Split(s)[0]) == a + Split(s)[0];
    }
  }

  lemma {:induction false} SplitOfJoin(parts: seq<bytes>)
    requires |parts| > 0 && forall i :: 0 <= i < |parts| ==> DotFree(parts[i])
    ensures Split(Join(parts)) == parts
    decreases |parts|
  {
    if |parts| == 1 {
      SplitAppend(parts[0], []);
      assert parts[0] + [] == parts[0] && [parts[0]] + [] == parts;
    } else {
      var rest := Join(parts[1..]);
      SplitOfJoin(parts[1..]);
      SplitAppend(parts[0], [DOT] + rest);
      assert ([DOT] + rest)[1..] == rest;
      assert parts[0] + [DOT] + rest == parts[0] + ([DOT] + rest);
      assert parts[0] + [] == parts[0];
      assert parts == [parts[0]] + parts[1..];
    }
  }

  lemma {:induction false} SplitDotFree(s: bytes, i: nat)
    requires i < |Split(s)|
    ensures DotFree(Split(s)[i])
    decreases |s|
  {
    if s != [] {
      if s[0] == DOT {
        if i > 0 {
          SplitDotFree(s[1..], i - 1);
        }
      } else {
        SplitDotFree(s[1..], i);
      }
    }
  }

  predicate Digits(s: bytes) {
    s != [] && forall k :: 0 <= k < |s| ==> 48 <= s[k] <= 57
  }

  /** strconv.ParseUint in base 10 with 64 bits. */
  function ParseUint(s: bytes): Option<nat> {
    if Digits(s) && 0 <= ParseDecimal(s) < U64 then Some(ParseDecimal(s)) else None
  }

  /** One component: a number is a position, anything else a key; none is empty. */
  function ParsePart(part: bytes): Option<Elem> {
    if part == [] then None
    else if ParseUint(part).Some? then Some(Index(ParseUint(part).value))
    else Some(Key(part))
  }

  function ParseParts(parts: seq<bytes>): Option<Path> {
    if parts == [] then Some([])
    else
      match ParsePart(parts[0])
      case None => None
      case Some(el) => After([el], ParseParts(parts[1..]))
  }

  function ParsePath(path: bytes): Option<Path> {
    if path == [] then Some([]) else ParseParts(Split(path))
  }

  function ShowPath(p: Path): bytes {
    if p == [] then [] else Join(Names(p))
  }

  function Names(p: Path): (r: seq<bytes>)
    ensures |r| == |p| && forall i :: 0 <= i < |p| ==> r[i] == NameOf(p[i])
  {
    if p == [] then [] else [NameOf(p[0])] + Names(p[1..])
  }

  /** A step that its own name reads back as. */
  predicate Printable(el: Elem) {
    match el
    case Key(k) => k != [] && DotFree(k) && ParseUint(k).None?
    case Index(i) => i < U64
  }

  lemma PrintableReads(el: Elem)
    requires Printable(el)
    ensures ParsePart(NameOf(el)) == Some(el) && DotFree(NameOf(el))
  {
    if el.Index? {
      ParseOfDecimal(el.idx);
    }
  }

  lemma {:induction false} ParsePartsOfNames(p: Path)
    requires forall i :: 0 <= i < |p| ==> Printable(p[i])
    ensures ParseParts(Names(p)) == Some(p)
    decreases |p|
  {
    if p != [] {
      PrintableReads(p[0]);
      ParsePartsOfNames(p[1..]);
      assert Names(p)[1..] == Names(p[1..]);
      assert p == [p[0]] + p[1..];
    }
  }

  lemma {:induction false} ParsedIsPrintable(parts: seq<bytes>)
    requires (forall i :: 0 <= i < |parts| ==> DotFree(parts[i])) && ParseParts(parts).Some?
    ensures forall i :: 0 <= i < |ParseParts(parts).value| ==> Printable(ParseParts(parts).value[i])
    decreases |parts|
  {
    if parts != [] {
      ParsedIsPrintable(parts[1..]);
      var el := ParsePart(parts[0]).value;
      assert Printable(el) by { assert DotFree(parts[0]); }
    }
  }

  /**
   A shown path reads back exactly when its keys are non-empty, free of dots and
   not numbers, and its positions fit 64 bits.
   */
  lemma ShownPathReadsBack(p: Path)
    ensures ParsePath(ShowPath(p)) == Some(p) <==> forall i :: 0 <= i < |p| ==> Printable(p[i])
  {
    if p != [] {
      var s := ShowPath(p);
      if forall i :: 0 <= i < |p| ==> Printable(p[i]) {
        forall i | 0 <= i < |p| ensures DotFree(Names(p)[i]) && NameOf(p[i]) != [] {
          PrintableReads(p[i]);
        }
        SplitOfJoin(Names(p));
        ParsePartsOfNames(p);
        assert Names(p)[0] != [];
      }
      if ParsePath(s) == Some(p) {
        forall i | 0 <= i < |Split(s)| ensures DotFree(Split(s)[i]) {
          SplitDotFree(s, i);
        }
        ParsedIsPrintable(Split(s));
      }
    }
  }

  /** The "$." some callers put in front is dropped. */
  function StripRoot(path: bytes): bytes {
    if |path| > 1 && path[0] == DOLLAR && path[1] == DOT then path[2..] else path
  }

  function After(p: Path, rest: Option<Path>): Option<Path> {
    match rest
    case None => None
    case Some(q) => Some(p + q)
  }

  lemma AfterNext(p: Path, el: Elem, rest: Option<Path>)
    ensures After(p, After([el], rest)) == After(p + [el], rest)
  {
    if rest.Some? {
      assert p + ([el] + rest.value) == p + [el] + rest.value;
    }
  }

  /** Reads a dotted path into a location; an empty component is refused. */
  method FromMongoPath(path: bytes) returns (loc: Location, ok: bool)
    ensures fresh(loc) && (ok <==> ParsePath(path).Some?)
    ensures ok ==> loc.Valid() && loc.State() == START_OF_VALUE && loc.path == ParsePath(path).value
  {
    loc := new Location();
    ok := true;
    if |path| == 0 {
      return;
    }
    var parts := Split(path);
    var i := 0;
    assert parts[0..] == parts;
    assert ParseParts(parts).Some? ==> [] + ParseParts(parts).value == ParseParts(parts).value;
    while i < |parts|
      invariant 0 <= i <= |parts| && fresh(loc) && loc.Valid() && loc.State() == START_OF_VALUE
      invariant ParseParts(parts) == After(loc.path, ParseParts(parts[i..]))
    {
      hide KeyFor, OffsetsOf, ParseUint, Split;
      var part := parts[i];
      assert parts[i..][0] == part && parts[i..][1..] == parts[i + 1..];
      if part == [] {
        ok := false;
        return;
      }
      ghost var before := loc.path;
      var idx := ParseUint(part);
      if idx.Some? {
        loc.AppendArrayIndex(idx.value);
      } else {
        loc.AppendObjectKey(part);
      }
      AfterNext(before, ParsePart(part).value, ParseParts(parts[i + 1..]));
      i := i + 1;
    }
    assert loc.path + [] == loc.path;
  }

  /** The first i elements shown. */
  function Shown(p: Path, i: nat): bytes
    requires i <= |p|
  {
    ShowPath(p[..i])
  }

  /** Shows the path of a location. */
  method ToMongoPath(loc: Location) returns (s: bytes)
    requires loc.Valid()
    ensures s == ShowPath(loc.path)
  {
    ghost var p := loc.path;
    assert loc.Size() == |p|;
    ShownEnds(p);
    s := [];
    var n := loc.Size();
    if n == 0 {
      return;
    }
    hide KeyFor, OffsetsOf, Join, Names, ShowPath, NameOf, Shown;
    var i := 0;
    while i < n
      invariant 0 <= i <= n == |p| && s == Shown(p, i)
    {
      ShownNext(p, i);
      if i > 0 {
        s := s + [DOT];
      }
      var el := loc.PathElement(i);
      s := s + NameOf(el);
      i := i + 1;
    }
  }

  lemma ShownEnds(p: Path)
    ensures Shown(p, 0) == [] && Shown(p, |p|) == ShowPath(p)
  {
    assert p[..0] == [] && p[..|p|] == p;
  }

  lemma ShownNext(p: Path, i: nat)
    requires i < |p|
    ensures Shown(p, i + 1) == (if i > 0 then Shown(p, i) + [DOT] else Shown(p, i)) + NameOf(p[i])
  {
    hide Join, Names, NameOf;
    assert p[..i + 1] == p[..i] + [p[i]];
    JoinSnoc(p[..i], p[i]);
    ShownNames(p[..i + 1]);
    if i > 0 {
      ShownNames(p[..i]);
    } else {
      assert [] + NameOf(p[0]) == NameOf(p[0]);
    }
  }

  lemma ShownNames(p: Path)
    requires p != []
    ensures ShowPath(p) == Join(Names(p))
  {
  }

  lemma {:induction false} JoinSnoc(p: Path, el: Elem)
    ensures Join(Names(p + [el])) == if p == [] then NameOf(el) else Join(Names(p)) + [DOT] + NameOf(el)
    decreases |p|
  {
    hide NameOf;
    var q := p + [el];
    if p == [] {
      assert Names(q) == [NameOf(el)];
    } else {
      JoinSnoc(p[1..], el);
      assert q[1..] == p[1..] + [el];
      JoinFront(q);
      if |p| > 1 {
        JoinFront(p);
        JoinRegroup(NameOf(p[0]) + [DOT], Join(Names(p[1..])), [DOT], NameOf(el));
      }
    }
  }

  lemma JoinFront(p: Path)
    requires |p| > 1
    ensures Join(Names(p)) == NameOf(p[0]) + [DOT] + Join(Names(p[1..]))
  {
    hide NameOf;
    assert Names(p)[1..] == Names(p[1..]);
  }

  lemma JoinRegroup(a: bytes, b: bytes, c: bytes, d: bytes)
    ensures a + (b + c + d) == a + b + c + d
  {
  }

  /** The path a.10 is the element 10 of a, and a..b is none. */
  lemma InFigures()
    ensures ParsePath([97, 46, 49, 48]) == Some([Key([97]), Index(10)])
    ensures ParsePath([97, 46, 46, 98]).None?
  {
    var a: bytes, ten: bytes, b: bytes, none: bytes := [97], [49, 48], [98], [];
    var parts: seq<bytes> := [a, ten];
    assert parts[1..] == [ten] && [ten][1..] == [];
    SplitOfJoin(parts);
    assert Join([ten]) == ten && Join(parts) == [97, 46, 49, 48];
    assert ParsePart(a) == Some(Key(a)) && ParsePart(ten) == Some(Index(10)) by { TenIs(); }
    var one: seq<bytes>, last: Path := [ten], [Index(10)];
    assert ParseParts(one[1..]) == Some([]) && last + [] == last;
    assert ParseParts(one) == After([Index(10)], ParseParts(one[1..]));
    assert ParseParts(parts) == After([Key(a)], ParseParts(one));
    var path: bytes := [97, 46, 49, 48];
    assert Split(path) == parts;
    assert [Key(a)] + last == [Key(a), Index(10)];
    var gap: seq<bytes> := [a, none, b];
    assert gap[1..] == [none, b] && gap[1..][1..] == [b];
    SplitOfJoin(gap);
    assert Join([b]) == b && Join([none, b]) == [46, 98] && Join(gap) == [97, 46, 46, 98];
    assert ParsePart(none) == None && ParseParts(gap[1..]) == None;
    assert ParseParts(gap) == After([Key(a)], ParseParts(gap[1..]));
  }

  lemma TenIs()
    ensures ParseUint([49, 48]) == Some(10) && ParseUint([97]) == None
  {
    var ten: bytes := [49, 48];
    assert ten[..1] == [49] && ten[..1][..0] == [];
    assert ParseDecimal([49]) == 1;
  }
}
