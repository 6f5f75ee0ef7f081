/**
 The loops of the raw BSON codec, proved to compute its specification functions:
 the decoder appends one field at a time, the encoder patches the length last.
 */
module RawDecoder {
  import opened Bytes
  import opened RawCodec

  /** Fields already decoded, in order, before what the rest decodes to. */
  function Attach(done: seq<(bytes, Val)>, r: Res<Entries>): Res<Entries> {
    if done == [] then r else Prefixed(done[0].0, done[0].1, Attach(done[1..], r))
  }

  lemma {:induction false} AttachSnoc(done: seq<(bytes, Val)>, name: bytes, v: Val, r: Res<Entries>)
    ensures Attach(done + [(name, v)], r) == Attach(done, Prefixed(name, v, r))
  {
    if done == [] {
      assert done + [(name, v)] == [(name, v)];
    } else {
      AttachSnoc(done[1..], name, v, r);
      assert (done + [(name, v)])[1..] == done[1..] + [(name, v)];
    }
  }

  lemma {:induction false} AttachBad(done: seq<(bytes, Val)>, e: DecodeError)
    ensures Attach(done, Bad(e)) == Bad(e)
  {
    if done != [] { AttachBad(done[1..], e); }
  }

  function ListOf(done: seq<(bytes, Val)>): (es: Entries)
    ensures Attach(done, Good(Nil)) == Good(es)
  {
    if done == [] then Nil else Entry(done[0].0, done[0].1, ListOf(done[1..]))
  }

  method RawValueSize(data: bytes, t: byte) returns (r: Option<nat>)
    ensures r == ValueSize(data, t)
  {
    if t in {0x01, 0x09, 0x11, 0x12} { return Some(8); }
    if t == 0x02 {
      if |data| < 4 { return None; }
      return Some(4 + Read32(data));
    }
    if t in {0x03, 0x04} {
      if |data| < 4 { return None; }
      return Some(Read32(data));
    }
    if t == 0x05 {
      if |data| < 4 { return None; }
      return Some(5 + Read32(data));
    }
    if t in {0x06, 0x0A, 0x7F, 0xFF} { return Some(0); }
    if t == 0x07 { return Some(12); }
    if t == 0x08 { return Some(1); }
    if t == 0x0B {
      var p := ScanToZero(data, 0, |data|);
      ScanIsFirstZero(data, 0, p);
      var o := ScanToZero(data, p + 1, |data|);
      if p < |data| { ScanIsFirstZero(data, p + 1, o); }
      return Some(o + 1);
    }
    if t == 0x10 { return Some(4); }
    if t == 0x13 { return Some(16); }
    return None;
  }

  lemma {:induction false} ScanIsFirstZero(data: bytes, from: nat, e: nat)
    requires from <= e <= |data|
    requires forall k :: from <= k < e ==> data[k] != 0
    requires e < |data| ==> data[e] == 0
    ensures FirstZero(data[from..]) == e - from
    decreases e - from
  {
    var s := data[from..];
    if from < e {
      ScanIsFirstZero(data, from + 1, e);
      assert s[1..] == data[from + 1..];
      assert s[0] == data[from];
    } else if e < |data| {
      assert s[0] == data[e];
    }
  }

  /** decodeRawFields: one field a turn, appended to what is already there. */
  method DecodeRawFields(raw: bytes, isArray: bool, depth: nat, want: Option<seq<bytes>>) returns (r: Res<Entries>)
    ensures r == if CheckRawLength(raw) then ParseFields(raw[4..], isArray, depth, 0, want) else Bad(Malformed)
    decreases |raw|, 1
  {
    hide ParseValue, ValueSize, FirstZero, Decimal, Read32, ParseFields;
    if !CheckRawLength(raw) { return Bad(Malformed); }
    var done: seq<(bytes, Val)> := [];
    var offset, count: nat := 4, 0;
    while true
      invariant 4 <= offset <= |raw|
      invariant Attach(done, ParseFields(raw[offset..], isArray, depth, count, want))
             == ParseFields(raw[4..], isArray, depth, 0, want)
      decreases |raw| - offset
    {
      ghost var s := raw[offset..];
      FieldsUnfold(raw, offset, isArray, depth, count, want);
      if offset >= |raw| {
        AttachBad(done, Malformed);
        return Bad(Malformed);
      }
      var t := raw[offset];
      if t == 0 {
        if offset != |raw| - 1 {
          AttachBad(done, Malformed);
          return Bad(Malformed);
        }
        return Good(ListOf(done));
      }
      var end := FirstZero(raw[offset + 1..]);
      if end == |raw| - offset - 1 {
        AttachBad(done, Malformed);
        return Bad(Malformed);
      }
      var name := raw[offset + 1..offset + 1 + end];
      offset := offset + end + 2;
      if want.Some? && name !in want.value {
        var size := RawValueSize(raw[offset..], t);
        if size.None? || size.value > |raw| - offset {
          AttachBad(done, Malformed);
          return Bad(Malformed);
        }
        SliceTail(raw, offset, size.value);
        offset := offset + size.value;
      } else {
        if isArray && name != Decimal(count) {
          AttachBad(done, Malformed);
          return Bad(Malformed);
        }
        var v := DecodeRawValue(raw[offset..], t, depth);
        if v.Bad? {
          AttachBad(done, v.error);
          return Bad(v.error);
        }
        var kept := if isArray then [] else name;
        SliceTail(raw, offset, v.value.1);
        AttachSnoc(done, kept, v.value.0, ParseFields(raw[offset + v.value.1..], isArray, depth, count + 1, want));
        offset := offset + v.value.1;
        done := done + [(kept, v.value.0)];
        count := count + 1;
      }
    }
  }

  lemma SliceTail(raw: bytes, i: nat, n: nat)
    requires i + n <= |raw|
    ensures raw[i..][n..] == raw[i + n..]
  {
  }

  lemma FieldsOpen(s: bytes, isArray: bool, depth: nat, count: nat, want: Option<seq<bytes>>)
    ensures ParseFields(s, isArray, depth, count, want)
         == if s == [] then Bad(Malformed)
            else if s[0] == 0 then if |s| == 1 then Good(Nil) else Bad(Malformed)
            else
            var end := FirstZero(s[1..]);
            if end == |s| - 1 then Bad(Malformed)
            else FieldStep(s[0], s[1..end + 1], s[end + 2..], isArray, depth, count, want)
  {
    hide ParseValue, ValueSize, FirstZero, Decimal;
  }

  /** What reading on from an offset comes to, in terms of offsets. */
  lemma FieldsUnfold(raw: bytes, o: nat, isArray: bool, depth: nat, count: nat, want: Option<seq<bytes>>)
    requires o <= |raw|
    ensures ParseFields(raw[o..], isArray, depth, count, want)
         == if o == |raw| then Bad(Malformed)
            else if raw[o] == 0 then if o == |raw| - 1 then Good(Nil) else Bad(Malformed)
            else
              var end := FirstZero(raw[o + 1..]);
              if end == |raw| - o - 1 then Bad(Malformed)
              else FieldStep(raw[o], raw[o + 1..o + 1 + end], raw[o + end + 2..], isArray, depth, count, want)
  {
    hide ParseFields, FirstZero, FieldStep;
    var s := raw[o..];
    FieldsOpen(s, isArray, depth, count, want);
    if o < |raw| && raw[o] != 0 {
      assert s[1..] == raw[o + 1..];
      var end := FirstZero(raw[o + 1..]);
      if end < |raw| - o - 1 {
        assert s[1..end + 1] == raw[o + 1..o + 1 + end];
        assert s[end + 2..] == raw[o + end + 2..];
      }
    }
  }

  method DecodeRawValue(b: bytes, t: byte, depth: nat) returns (r: Res<(Val, nat)>)
    ensures r == ParseValue(b, t, depth)
    decreases |b|, 3
  {
    hide ParseScalar, Read32;
    if t == 0x03 || t == 0x04 {
      var l := EmbeddedLength(b);
      if l.None? { return Bad(Malformed); }
      var inner := DecodeRawContainer(b[..l.value], t == 0x04, depth + 1, None);
      if inner.Bad? { return Bad(inner.error); }
      return Good((if t == 0x03 then Doc(inner.value) else Arr(inner.value), l.value));
    }
    return ParseScalar(b, t);
  }

  method DecodeRawContainer(raw: bytes, isArray: bool, depth: nat, want: Option<seq<bytes>>) returns (r: Res<Entries>)
    ensures r == ParseDoc(raw, isArray, depth, want)
    decreases |raw|, 2
  {
    hide ParseFields;
    if depth > MAX_NESTING_DEPTH { return Bad(TooDeep); }
    r := DecodeRawFields(raw, isArray, depth, want);
  }

  /** DecodeRawDocument: accepts exactly the encodings of well-formed documents of bounded depth. */
  method DecodeRawDocument(raw: bytes) returns (r: Res<Entries>)
    ensures r == Decode(raw)
    ensures r.Good? ==> EncDoc(false, r.value) == raw && WfDoc(r.value) && 1 + DepthOf(r.value) <= MAX_NESTING_DEPTH
    ensures forall es :: WfDoc(es) && 1 + DepthOf(es) <= MAX_NESTING_DEPTH && EncDoc(false, es) == raw ==> r == Good(es)
  {
    hide ParseDoc, WfDoc, EncDoc, DepthOf;
    r := DecodeRawContainer(raw, false, 1, None);
    if r.Good? { AcceptedIsCanonical(raw); }
    forall es | WfDoc(es) && 1 + DepthOf(es) <= MAX_NESTING_DEPTH && EncDoc(false, es) == raw ensures r == Good(es) {
      DecodeOfEncode(es);
    }
  }

  /** DecodeRawDocumentFields: on bytes the full decoder accepts, the wanted fields of its result. */
  method DecodeRawDocumentFields(raw: bytes, want: Option<seq<bytes>>) returns (r: Res<Entries>)
    ensures Decode(raw).Good?
            ==> r == Good(if want.None? then Decode(raw).value else Keep(Decode(raw).value, want.value))
    ensures want.None? ==> r == Decode(raw)
  {
    hide ParseDoc;
    r := DecodeRawContainer(raw, false, 1, want);
    if Decode(raw).Good? && want.Some? { ProjectionIsFilter(raw, 1, want.value); }
  }

  /** FromDocumentRaw and FromArrayRaw: fields are written before the length is known. */
  method FromEntriesRaw(isArray: bool, es: Entries) returns (raw: bytes)
    ensures raw == EncDoc(isArray, es)
    decreases es, 1
  {
    hide Le32, Decimal, EncVal, EncEntries, Tag;
    var buf: bytes := [0, 0, 0, 0];
    ghost var body: bytes := [];
    var left, i: nat := es, 0;
    Ends(EncEntries(isArray, 0, es));
    while left.Entry?
      invariant buf == [0, 0, 0, 0] + body
      invariant left == es || left < es
      invariant body + EncEntries(isArray, i, left) == EncEntries(isArray, 0, es)
      decreases left
    {
      var field := WriteRawField(if isArray then Decimal(i) else left.name, left.value);
      EncFieldOpen(isArray, i, left, field);
      Regroup([0, 0, 0, 0], body, field);
      Regroup(body, field, EncEntries(isArray, i + 1, left.rest));
      buf, body := buf + field, body + field;
      left, i := left.rest, i + 1;
    }
    EncNil(isArray, i);
    Ends(body);
    buf := buf + [0];
    raw := Le32(|buf|) + buf[4..];
    Regroup([0, 0, 0, 0], body, [0]);
    DropLength(body + [0]);
    Regroup(Le32(|buf|), body, [0]);
  }

  lemma DropLength(s: bytes)
    ensures ([0, 0, 0, 0] + s)[4..] == s
  {
  }

  lemma Ends(s: bytes)
    ensures [] + s == s == s + []
  {
  }

  lemma Regroup(a: bytes, b: bytes, c: bytes)
    ensures a + b + c == a + (b + c)
  {
  }

  lemma EncNil(isArray: bool, i: nat)
    ensures EncEntries(isArray, i, Nil) == []
  {
  }

  lemma EncFieldOpen(isArray: bool, i: nat, es: Entries, field: bytes)
    requires es.Entry?
    requires field == [Tag(es.value)] + (if isArray then Decimal(i) else es.name) + [0] + EncVal(es.value)
    ensures EncEntries(isArray, i, es) == field + EncEntries(isArray, i + 1, es.rest)
  {
    hide EncVal, Decimal, Tag;
    var a, b, c := if isArray then Decimal(i) else es.name, EncVal(es.value), EncEntries(isArray, i + 1, es.rest);
    assert [Tag(es.value)] + (a + [0] + (b + c)) == [Tag(es.value)] + a + [0] + b + c;
  }

  method WriteRawField(name: bytes, v: Val) returns (field: bytes)
    ensures field == [Tag(v)] + name + [0] + EncVal(v)
    decreases v, 0
  {
    hide EncScalar, EncDoc;
    match v {
      case Doc(es) =>
        var sub := FromEntriesRaw(false, es);
        field := [0x03] + name + [0] + sub;
      case Arr(es) =>
        var sub := FromEntriesRaw(true, es);
        field := [0x04] + name + [0] + sub;
      case _ =>
        field := [Tag(v)] + name + [0] + EncScalar(v);
    }
  }
}
