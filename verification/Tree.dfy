/**
 BSON documents as trees, and their wire form: the document, e_list and element
 productions of the BSON specification 1.1. A scalar keeps its raw value bytes;
 a container keeps its fields in order, arrays included, with their raw names.
 */
module Tree {
  import opened Bytes

  datatype Value =
    | Scalar(tag: byte, raw: bytes)
    | Node(isArray: bool, fields: Fields)

  datatype Fields =
    | End
    | Field(name: bytes, value: Value, rest: Fields)

  const TYPE_DOCUMENT: byte := 0x03
  const TYPE_ARRAY: byte := 0x04

  function TagOf(v: Value): byte {
    match v
    case Scalar(tag, _) => tag
    case Node(isArray, _) => if isArray then TYPE_ARRAY else TYPE_DOCUMENT
  }

  /** The value bytes of v: no type byte, no name. */
  function Enc(v: Value): bytes
    decreases v, 0
  {
    match v
    case Scalar(_, raw) => raw
    case Node(_, fs) => Le32(|EncFields(fs)| + 5) + EncFields(fs) + [0]
  }

  function EncFields(fs: Fields): bytes
    decreases fs, 0
  {
    match fs
    case End => []
    case Field(name, v, rest) => EncEntry(name, v) + EncFields(rest)
  }

  function EncEntry(name: bytes, v: Value): bytes
    decreases v, 1
  {
    [TagOf(v)] + name + [0] + Enc(v)
  }

  // --------------------------------------------------------- well-formedness

  /** The width of a scalar whose size does not depend on its bytes, or -1. */
  function FixedWidth(tag: byte): int {
    if tag in {0x01, 0x09, 0x11, 0x12} then 8
    else if tag == 0x10 then 4
    else if tag == 0x08 then 1
    else if tag == 0x07 then 12
    else if tag == 0x13 then 16
    else if tag in {0x06, 0x0A, 0x7F, 0xFF} then 0
    else -1
  }

  /** raw is two terminated strings, a pattern and its flags. */
  ghost predicate TwoCStrings(raw: bytes) {
    exists p: bytes, o: bytes :: IsTwoCStrings(raw, p, o)
  }

  ghost predicate IsTwoCStrings(raw: bytes, p: bytes, o: bytes) {
    NoZero(p) && NoZero(o) && raw == p + [0] + (o + [0])
  }

  /** raw is exactly one scalar of the given type. */
  ghost predicate ScalarOk(tag: byte, raw: bytes) {
    if FixedWidth(tag) >= 0 then |raw| == FixedWidth(tag)
    else if tag in {0x02, 0x0D, 0x0E} then |raw| >= 4 && |raw| == 4 + Read32(raw)
    else if tag == 0x05 then |raw| >= 5 && |raw| == 5 + Read32(raw)
    else if tag == 0x0B then TwoCStrings(raw)
    else if tag == 0x0C then |raw| >= 4 && |raw| == 16 + Read32(raw)
    else if tag == 0x0F then |raw| >= 4 && |raw| == Read32(raw)
    else false
  }

  ghost predicate Wf(v: Value) {
    match v
    case Scalar(tag, raw) => ScalarOk(tag, raw)
    case Node(_, fs) => WfFields(fs)
  }

  ghost predicate WfFields(fs: Fields) {
    match fs
    case End => true
    case Field(name, v, rest) => NoZero(name) && Wf(v) && WfFields(rest)
  }

  /** A document whose wire form a 32-bit length prefix can describe. */
  ghost predicate Document(v: Value) {
    v.Node? && !v.isArray && Wf(v) && |Enc(v)| < U32
  }

  lemma TagNonZero(v: Value)
    requires Wf(v)
    ensures TagOf(v) != 0
  {
  }

  lemma NodeSize(v: Value)
    requires v.Node?
    ensures |Enc(v)| == |EncFields(v.fields)| + 5
  {
  }

  lemma EntrySize(fs: Fields)
    requires fs.Field?
    ensures |EncEntry(fs.name, fs.value)| == 2 + |fs.name| + |Enc(fs.value)|
    ensures |EncFields(fs)| == 2 + |fs.name| + |Enc(fs.value)| + |EncFields(fs.rest)|
  {
  }

  /** Where the parts of a container lie once it is placed at offset i. */
  lemma NodeAt(buf: bytes, i: int, v: Value)
    requires v.Node? && At(buf, i, Enc(v)) && |Enc(v)| < U32
    ensures i + 4 <= |buf| && Read32(buf[i..]) == |Enc(v)|
    ensures At(buf, i + 4, EncFields(v.fields))
    ensures At(buf, i + |Enc(v)| - 1, [0])
  {
    hide EncFields, Le32;
    var fs := EncFields(v.fields);
    AtConcat(buf, i, Le32(|fs| + 5) + fs, [0]);
    AtConcat(buf, i, Le32(|fs| + 5), fs);
    AtRead32(buf, i, |fs| + 5);
  }

  /** Where the parts of the first field lie once a field list is placed at i. */
  lemma FieldAt(buf: bytes, i: int, fs: Fields)
    requires fs.Field? && At(buf, i, EncFields(fs))
    ensures i < |buf| && buf[i] == TagOf(fs.value)
    ensures At(buf, i + 1, fs.name + [0])
    ensures At(buf, i + 2 + |fs.name|, Enc(fs.value))
    ensures At(buf, i + 2 + |fs.name| + |Enc(fs.value)|, EncFields(fs.rest))
    ensures |EncFields(fs)| == 2 + |fs.name| + |Enc(fs.value)| + |EncFields(fs.rest)|
  {
    hide At, Enc;
    var t, n, e, r := [TagOf(fs.value)], fs.name, Enc(fs.value), EncFields(fs.rest);
    assert t + (n + [0]) == t + n + [0];
    AtConcat(buf, i, t + (n + [0]) + e, r);
    AtConcat(buf, i, t + (n + [0]), e);
    AtConcat(buf, i, t, n + [0]);
    AtByte(buf, i, t, 0);
  }

  // ------------------------------------------------------------ value extent

  /**
   The end of the value of the given type at valueStart. Whatever the bytes are,
   an accepted end lies between valueStart and the container's end; where a
   well-formed value v was placed, the end is v's end.
   */
  method ElementValueEnd(buf: bytes, valueStart: nat, tag: byte, hardEnd: int, ghost v: Value)
    returns (end: nat, ok: bool)
    requires valueStart <= hardEnd + 1 <= |buf|
    ensures ok ==> valueStart <= end <= hardEnd + 1
    ensures Wf(v) && TagOf(v) == tag && At(buf, valueStart, Enc(v)) && |Enc(v)| < U32
            && valueStart + |Enc(v)| <= hardEnd + 1
            ==> ok && end == valueStart + |Enc(v)|
  {
    ghost var placed := Wf(v) && TagOf(v) == tag && At(buf, valueStart, Enc(v))
                        && |Enc(v)| < U32 && valueStart + |Enc(v)| <= hardEnd + 1;
    if placed && v.Scalar? && |v.raw| >= 4 {
      ReadAt(buf, valueStart, v.raw);
    }
    if placed && v.Node? {
      NodeAt(buf, valueStart, v);
    }
    end, ok := 0, false;
    if tag in {0x01, 0x09, 0x11, 0x12} {
      end := valueStart + 8;
      ok := end <= hardEnd + 1;
    } else if tag == 0x10 {
      end := valueStart + 4;
      ok := end <= hardEnd + 1;
    } else if tag == 0x08 {
      end := valueStart + 1;
      ok := end <= hardEnd + 1;
    } else if tag == 0x07 {
      end := valueStart + 12;
      ok := end <= hardEnd + 1;
    } else if tag in {0x06, 0x0A, 0x7F, 0xFF} {
      end, ok := valueStart, true;
    } else if tag in {0x02, 0x0D, 0x0E} {
      if valueStart + 4 <= |buf| {
        end := valueStart + 4 + Read32(buf[valueStart..]);
        ok := end <= hardEnd + 1;
      }
    } else if tag == 0x05 {
      if valueStart + 5 <= |buf| {
        end := valueStart + 5 + Read32(buf[valueStart..]);
        ok := end <= hardEnd + 1;
      }
    } else if tag == 0x13 {
      end := valueStart + 16;
      ok := end <= hardEnd + 1;
    } else if tag == 0x0B {
      end, ok := RegexEnd(buf, valueStart, if v.Scalar? then v.raw else []);
      ok := ok && end <= hardEnd + 1;
    } else if tag == 0x0C {
      if valueStart + 4 <= |buf| {
        end := valueStart + 4 + Read32(buf[valueStart..]) + 12;
        ok := end <= hardEnd + 1;
      }
    } else if tag == 0x0F || tag == TYPE_DOCUMENT || tag == TYPE_ARRAY {
      if valueStart + 4 <= |buf| {
        end := valueStart + Read32(buf[valueStart..]);
        ok := end <= hardEnd + 1;
      }
    }
  }

  lemma ReadAt(buf: bytes, i: int, raw: bytes)
    requires At(buf, i, raw) && |raw| >= 4
    ensures Read32(buf[i..]) == Read32(raw)
  {
    forall k | 0 <= k < 4 ensures buf[i..][k] == raw[k] {
      AtByte(buf, i, raw, k);
    }
  }

  /** The end of two terminated strings starting at start. */
  method RegexEnd(buf: bytes, start: nat, ghost raw: bytes) returns (end: nat, ok: bool)
    requires start <= |buf|
    ensures ok ==> start + 2 <= end <= |buf|
    ensures At(buf, start, raw) && TwoCStrings(raw) ==> ok && end == start + |raw|
  {
    ghost var placed := At(buf, start, raw) && TwoCStrings(raw);
    ghost var p: bytes, o: bytes := [], [];
    if placed {
      p, o :| IsTwoCStrings(raw, p, o);
      AtConcat(buf, start, p + [0], o + [0]);
    }
    end, ok := start, false;
    var k := 0;
    while k < 2
      invariant 0 <= k <= 2 && start + k <= end <= |buf|
      invariant placed ==> At(buf, start, p + [0]) && At(buf, start + |p| + 1, o + [0]) && NoZero(p) && NoZero(o)
      invariant placed ==> end == [start, start + |p| + 1, start + |raw|][k]
    {
      var e := ScanToZero(buf, end, |buf|);
      if placed {
        ZeroIsAt(buf, end, if k == 0 then p else o, e, |buf|);
      }
      if e >= |buf| {
        return 0, false;
      }
      end := e + 1;
      k := k + 1;
    }
    ok := true;
  }
}
