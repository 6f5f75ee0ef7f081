/**
 The wire form of a scalar as the BSON specification 1.1 words it, byte by byte and with
 the tags written out, and that the raw codec reads and writes exactly that.
 */
module WireForm {
  import opened Bytes
  import opened Varint
  import opened RawCodec
  import opened Tree

  // ------------------------------------------------------- little-endian words

  /** The number four bytes stand for, the first of them counting least. */
  function Word32(b: bytes): int
    requires |b| >= 4
  {
    b[0] as int + b[1] as int * 0x100 + b[2] as int * 0x1_0000 + b[3] as int * 0x100_0000
  }

  function Word64(b: bytes): int
    requires |b| >= 8
  {
    Word32(b) + b[4] as int * 0x1_0000_0000 + b[5] as int * 0x100_0000_0000 + b[6] as int * 0x1_0000_0000_0000
    + b[7] as int * 0x100_0000_0000_0000
  }

  lemma Read32IsWord(b: bytes)
    requires |b| >= 4
    ensures Read32(b) == Word32(b)
  {
  }

  lemma Read64IsWord(b: bytes)
    requires |b| >= 8
    ensures Read64(b) == Word64(b)
  {
    Read32IsWord(b);
    Read32IsWord(b[4..]);
  }

  /** The k-th byte written is the k-th digit of the number to the base 256. */
  lemma Le32Digit(n: int, k: nat)
    requires k < 4
    ensures Pow256(k) > 0 && Le32(n)[k] as int == (n / Pow256(k)) % 256
  {
    var q := n / 0x100;
    assert n / 0x1_0000 == q / 0x100;
    assert n / 0x100_0000 == q / 0x100 / 0x100;
    assert Pow256(0) == 1 && Pow256(1) == 0x100;
    assert Pow256(2) == 0x1_0000 by { assert Pow256(2) == 256 * Pow256(1); }
    assert Pow256(3) == 0x100_0000 by { assert Pow256(3) == 256 * Pow256(2); }
  }

  lemma Le64Digit(n: int, k: nat)
    requires k < 8
    ensures Pow256(k) > 0 && Le64(n)[k] as int == (n / Pow256(k)) % 256
  {
    hide Le32;
    if k < 4 {
      Le32Digit(n, k);
    } else {
      Le32Digit(n / U32, k - 4);
      DivTwice(n, k - 4);
    }
  }

  lemma DivTwice(n: int, k: nat)
    requires k < 4
    ensures Pow256(k) > 0 && Pow256(k + 4) > 0 && n / U32 / Pow256(k) == n / Pow256(k + 4)
  {
    assert Pow256(1) == 0x100 && Pow256(2) == 0x1_0000 && Pow256(3) == 0x100_0000 by {
      assert Pow256(2) == 0x100 * Pow256(1) && Pow256(3) == 0x100 * Pow256(2);
    }
    assert Pow256(k + 4) == U32 * Pow256(k) by {
      assert Pow256(k + 4) == 0x100 * Pow256(k + 3);
      assert Pow256(k + 3) == 0x100 * Pow256(k + 2);
      assert Pow256(k + 2) == 0x100 * Pow256(k + 1);
    }
    assert n / U32 / 0x100 == n / 0x100_0000_0000;
    assert n / U32 / 0x1_0000 == n / 0x1_0000_0000_0000;
    assert n / U32 / 0x100_0000 == n / 0x100_0000_0000_0000;
  }

  // ------------------------------------------------------------------ the forms

  /** Two's complement: the top bit of the last byte takes the whole range off. */
  predicate IsSigned32(i: int, b: bytes) {
    |b| == 4 && i == if b[3] < 0x80 then Word32(b) else Word32(b) - 0x1_0000_0000
  }

  predicate IsSigned64(i: int, b: bytes) {
    |b| == 8 && i == if b[7] < 0x80 then Word64(b) else Word64(b) - 0x1_0000_0000_0000_0000
  }

  predicate IsUnsigned64(n: int, b: bytes) { |b| == 8 && n == Word64(b) }

  predicate IsCString(text: bytes, b: bytes) { NoZero(text) && b == text + [0] }

  /** A string: its length with the terminator, its bytes, the terminator. */
  predicate IsString(text: bytes, b: bytes) {
    |b| == |text| + 5 && IsSigned32(|text| + 1, b[..4]) && b[4..] == text + [0]
  }

  /** The bytes b under the tag t are the value v. */
  predicate Means(t: byte, b: bytes, v: Val) {
    match v
    case Double(bits) => t == 0x01 && IsUnsigned64(bits, b)
    case Str(text) => t == 0x02 && IsString(text, b)
    case Binary(subtype, data) =>
      t == 0x05 && |b| == |data| + 5 && Word32(b) == |data| && b[4] == subtype && b[5..] == data
    case Undefined => t == 0x06 && b == []
    case ObjectId(id) => t == 0x07 && |id| == 12 && b == id
    case Bool(x) => t == 0x08 && b == if x then [0x01] else [0x00]
    case DateTime(millis) => t == 0x09 && IsSigned64(millis, b)
    case Null => t == 0x0A && b == []
    case Regex(pattern, options) =>
      t == 0x0B && |b| == |pattern| + |options| + 2
      && IsCString(pattern, b[..|pattern| + 1]) && IsCString(options, b[|pattern| + 1..])
    case Int32(i) => t == 0x10 && IsSigned32(i, b)
    case Timestamp(ts) => t == 0x11 && IsUnsigned64(ts, b)
    case Int64(i) => t == 0x12 && IsSigned64(i, b)
    case Decimal128(lo, hi) => t == 0x13 && |b| == 16 && IsUnsigned64(lo, b[..8]) && IsUnsigned64(hi, b[8..])
    case MaxKey => t == 0x7F && b == []
    case MinKey => t == 0xFF && b == []
    case Doc(_) => false
    case Arr(_) => false
  }

  lemma Word32Top(b: bytes)
    requires |b| >= 4
    ensures 0 <= Word32(b) < 0x1_0000_0000 && (b[3] < 0x80 <==> Word32(b) < 0x8000_0000)
  {
  }

  lemma Word64Top(b: bytes)
    requires |b| >= 8
    ensures 0 <= Word64(b) < 0x1_0000_0000_0000_0000 && (b[7] < 0x80 <==> Word64(b) < 0x8000_0000_0000_0000)
  {
  }

  lemma Take32(b: bytes, i: int)
    requires |b| >= 4
    ensures IsSigned32(i, b[..4]) <==> i == Signed(Read32(b), I31)
  {
    Word32Top(b);
    Read32IsWord(b);
    assert Word32(b[..4]) == Word32(b);
  }

  lemma Take64(b: bytes, i: int)
    requires |b| >= 8
    ensures IsSigned64(i, b[..8]) <==> i == Signed(Read64(b), I63)
    ensures IsUnsigned64(i, b[..8]) <==> i == Read64(b)
  {
    hide Read64;
    Word64Top(b);
    Read64IsWord(b);
    assert Word64(b[..8]) == Word64(b);
  }

  // ------------------------------------------------ the decoder reads exactly them

  lemma ReadsString(b: bytes, text: bytes, n: nat)
    requires n <= |b|
    ensures ParseScalar(b, 0x02) == Good((Str(text), n)) <==> IsString(text, b[..n])
  {
    hide Read32, Read64, FirstZero;
    if |b| >= 5 {
      var l := Signed(Read32(b), I31);
      Take32(b, l);
      Take32(b, |text| + 1);
      if IsString(text, b[..n]) {
        assert b[..n][..4] == b[..4];
        assert b[..n][4..] == text + [0];
        assert b[3 + l] == b[..n][4..][|text|] == 0;
        assert b[4..3 + l] == b[..n][4..][..|text|] == text;
      }
      if ParseScalar(b, 0x02) == Good((Str(text), n)) {
        assert b[..n][..4] == b[..4];
        assert b[..n][4..] == b[4..3 + l] + [b[3 + l]];
      }
    }
  }

  lemma ReadsBinary(b: bytes, v: Val, n: nat)
    requires n <= |b| && v.Binary?
    ensures ParseScalar(b, 0x05) == Good((v, n)) <==> Means(0x05, b[..n], v)
  {
    hide Read64, FirstZero;
    if |b| >= 5 {
      Read32IsWord(b);
      if n >= 5 {
        assert Word32(b[..n]) == Word32(b);
        assert b[..n][5..] == b[5..n];
      }
    }
  }

  lemma ReadsRegex(b: bytes, v: Val, n: nat)
    requires n <= |b| && v.Regex?
    ensures ParseScalar(b, 0x0B) == Good((v, n)) <==> Means(0x0B, b[..n], v)
  {
    hide FirstZero, Read32, Read64;
    if ParseScalar(b, 0x0B) == Good((v, n)) {
      var p := FirstZero(b);
      var c := b[p + 1..];
      var o := FirstZero(c);
      assert v.pattern == b[..p] && v.options == b[p + 1..p + 1 + o] == c[..o];
      assert b[..n][..p + 1] == b[..p] + [b[p]];
      assert b[..n][p + 1..] == c[..o] + [c[o]];
    }
    if Means(0x0B, b[..n], v) {
      var rest, p := b[n..], |v.pattern| + 1;
      assert b[..n] == b[..n][..p] + b[..n][p..];
      assert b[..n] == (v.pattern + [0]) + (v.options + [0]);
      assert b == b[..n] + rest;
      assert b == EncScalar(v) + rest;
      RegexReadsBack(v.pattern, v.options, rest);
    }
  }

  lemma ReadsDecimal(b: bytes, v: Val, n: nat)
    requires n <= |b| && v.Decimal128?
    ensures ParseScalar(b, 0x13) == Good((v, n)) <==> Means(0x13, b[..n], v)
  {
    hide FirstZero, Read32, Read64, Word64;
    if |b| >= 16 && n == 16 {
      Take64(b, v.lo);
      Take64(b[8..], v.hi);
      assert b[..16][..8] == b[..8] && b[..16][8..] == b[8..][..8];
    }
  }

  lemma ReadsFixed(b: bytes, t: byte, v: Val, n: nat)
    requires n <= |b| && (v.Double? || v.DateTime? || v.Int32? || v.Timestamp? || v.Int64?)
    ensures ParseScalar(b, t) == Good((v, n)) <==> Means(t, b[..n], v)
  {
    hide FirstZero, Read32, Read64, Word64, Word32, IsSigned32, IsSigned64, IsUnsigned64;
    SignedSize(b[..n]);
    if v.Int32? {
      if |b| >= 4 { Take32(b, v.i32); }
    } else if |b| >= 8 {
      forall i { Take64(b, i); }
    }
  }

  lemma SignedSize(b: bytes)
    ensures forall i :: IsSigned32(i, b) ==> |b| == 4
    ensures forall i :: IsSigned64(i, b) ==> |b| == 8
    ensures forall i :: IsUnsigned64(i, b) ==> |b| == 8
  {
  }

  /** The decoder takes the first n bytes for v if and only if they are its wire form. */
  lemma ReadsWireForm(b: bytes, t: byte, v: Val, n: nat)
    requires n <= |b|
    ensures ParseScalar(b, t) == Good((v, n)) <==> Means(t, b[..n], v)
  {
    hide FirstZero, Read32, Read64, Word64, Word32;
    if v.Str? {
      if t == 0x02 { ReadsString(b, v.text, n); }
    } else if v.Binary? {
      if t == 0x05 { ReadsBinary(b, v, n); }
    } else if v.Regex? {
      if t == 0x0B { ReadsRegex(b, v, n); }
    } else if v.Decimal128? {
      if t == 0x13 { ReadsDecimal(b, v, n); }
    } else if v.Double? || v.DateTime? || v.Int32? || v.Timestamp? || v.Int64? {
      ReadsFixed(b, t, v, n);
    }
  }

  /** The encoder writes a value's wire form under its tag, and there is no other. */
  lemma WritesWireForm(t: byte, b: bytes, v: Val)
    requires !v.Doc? && !v.Arr?
    ensures Means(t, b, v) <==> WfScalar(v) && t == Tag(v) && b == EncScalar(v)
  {
    hide FirstZero, ParseScalar, Means, EncScalar;
    ReadsWireForm(b, t, v, |b|);
    assert b[..|b|] == b;
    if Means(t, b, v) { ScalarWritesBack(b, t); }
    if WfScalar(v) && t == Tag(v) && b == EncScalar(v) {
      ScalarReadsBack(v, []);
      assert b + [] == b;
    }
  }

  // ----------------------------------------------------------------- in figures

  lemma Figures()
    ensures Means(0x01, [0, 0, 0, 0, 0, 0, 0xF0, 0x3F], Double(0x3FF0_0000_0000_0000))
    ensures Means(0x08, [1], Bool(true))
    ensures Means(0x09, [0xFF, 0xFF, 0xFF, 0xFF, 0xFF, 0xFF, 0xFF, 0xFF], DateTime(-1))
    ensures Means(0x10, [0xC2, 0x07, 0, 0], Int32(1986))
    ensures Means(0x11, [1, 0, 0, 0, 2, 0, 0, 0], Timestamp(0x2_0000_0001))
    ensures Means(0x12, [0, 1, 0, 0, 0, 0, 0, 0x80], Int64(-0x7FFF_FFFF_FFFF_FF00))
    ensures Means(0x7F, [], MaxKey) && Means(0xFF, [], MinKey)
  {
  }

  /** One value of each of these forms, in bytes. */
  lemma InFigures(rest: bytes)
    ensures ParseScalar([0, 0, 0, 0, 0, 0, 0xF0, 0x3F] + rest, 0x01) == Good((Double(0x3FF0_0000_0000_0000), 8))
    ensures ParseScalar([1] + rest, 0x08) == Good((Bool(true), 1))
    ensures ParseScalar([0xFF, 0xFF, 0xFF, 0xFF, 0xFF, 0xFF, 0xFF, 0xFF] + rest, 0x09) == Good((DateTime(-1), 8))
    ensures ParseScalar([0xC2, 0x07, 0, 0] + rest, 0x10) == Good((Int32(1986), 4))
    ensures ParseScalar([1, 0, 0, 0, 2, 0, 0, 0] + rest, 0x11) == Good((Timestamp(0x2_0000_0001), 8))
    ensures ParseScalar([0, 1, 0, 0, 0, 0, 0, 0x80] + rest, 0x12) == Good((Int64(-0x7FFF_FFFF_FFFF_FF00), 8))
    ensures ParseScalar(rest, 0x7F) == Good((MaxKey, 0)) && ParseScalar(rest, 0xFF) == Good((MinKey, 0))
  {
    hide ParseScalar, Means;
    Figures();
    Figure([0, 0, 0, 0, 0, 0, 0xF0, 0x3F], rest, 0x01, Double(0x3FF0_0000_0000_0000));
    Figure([1], rest, 0x08, Bool(true));
    Figure([0xFF, 0xFF, 0xFF, 0xFF, 0xFF, 0xFF, 0xFF, 0xFF], rest, 0x09, DateTime(-1));
    Figure([0xC2, 0x07, 0, 0], rest, 0x10, Int32(1986));
    Figure([1, 0, 0, 0, 2, 0, 0, 0], rest, 0x11, Timestamp(0x2_0000_0001));
    Figure([0, 1, 0, 0, 0, 0, 0, 0x80], rest, 0x12, Int64(-0x7FFF_FFFF_FFFF_FF00));
    Figure([], rest, 0x7F, MaxKey);
    Figure([], rest, 0xFF, MinKey);
    assert [] + rest == rest;
  }

  lemma Figure(b: bytes, rest: bytes, t: byte, v: Val)
    requires Means(t, b, v)
    ensures ParseScalar(b + rest, t) == Good((v, |b|))
  {
    hide ParseScalar, Means;
    assert (b + rest)[..|b|] == b;
    ReadsWireForm(b + rest, t, v, |b|);
  }

  // --------------------------------------------------------------- whole documents

  /** A document of one field, in pieces. */
  lemma OneField(name: bytes, v: Val, prefix: bytes, value: bytes)
    requires !v.Doc? && !v.Arr? && EncScalar(v) == value && prefix == Le32(|name| + |value| + 7)
    ensures EncDoc(false, Entry(name, v, Nil)) == prefix + ([Tag(v)] + name + [0] + value) + [0]
  {
    hide Le32, EncScalar;
    var es := Entry(name, v, Nil);
    assert EncEntries(false, 1, Nil) == [];
    assert EncEntries(false, 0, es) == [Tag(v)] + (name + [0] + (value + []));
    assert EncEntries(false, 0, es) == [Tag(v)] + name + [0] + value;
  }

  lemma TwoWords()
    ensures Le32(6) == [6, 0, 0, 0] && Le32(22) == [0x16, 0, 0, 0]
  {
  }

  /** The document the BSON specification gives as its first example, byte for byte. */
  lemma HelloWorld()
    ensures Decode([0x16, 0, 0, 0]
                   + [0x02, 0x68, 0x65, 0x6C, 0x6C, 0x6F, 0, 6, 0, 0, 0, 0x77, 0x6F, 0x72, 0x6C, 0x64, 0] + [0])
         == Good(Entry([0x68, 0x65, 0x6C, 0x6C, 0x6F], Str([0x77, 0x6F, 0x72, 0x6C, 0x64]), Nil))
  {
    hide Le32, Decode, EncDoc;
    var hello, world: bytes := [0x68, 0x65, 0x6C, 0x6C, 0x6F], [0x77, 0x6F, 0x72, 0x6C, 0x64];
    TwoWords();
    OneField(hello, Str(world), [0x16, 0, 0, 0], [6, 0, 0, 0] + world + [0]);
    var es := Entry(hello, Str(world), Nil);
    assert DepthOf(es) == 0 && WfEntries(false, Nil) && WfEntries(false, es);
    DecodeOfEncode(es);
    assert EncDoc(false, es)
        == [0x16, 0, 0, 0]
           + [0x02, 0x68, 0x65, 0x6C, 0x6C, 0x6F, 0, 6, 0, 0, 0, 0x77, 0x6F, 0x72, 0x6C, 0x64, 0] + [0];
  }

  // ------------------------------------------------------- the trees of the index

  /** A decoded value as the tree the index works on. */
  function ToTree(v: Val): Value
    decreases v, 0
  {
    match v
    case Doc(es) => Node(false, ToFields(false, 0, es))
    case Arr(es) => Node(true, ToFields(true, 0, es))
    case _ => Scalar(Tag(v), EncScalar(v))
  }

  function ToFields(isArray: bool, idx: nat, es: Entries): Fields
    decreases es, 1
  {
    match es
    case Nil => End
    case Entry(name, v, rest) =>
      Field(if isArray then Decimal(idx) else name, ToTree(v), ToFields(isArray, idx + 1, rest))
  }

  lemma PrefixedSize(n: int, rest: bytes)
    requires 0 <= n < U32
    ensures Read32(Le32(n) + rest) == n
  {
    hide Le32, Read32;
    Read32Front(Le32(n), rest);
  }

  lemma ScalarSize(v: Val)
    requires !v.Doc? && !v.Arr? && WfScalar(v)
    ensures ScalarOk(Tag(v), EncScalar(v))
  {
    hide Le32, Read32, Le64;
    match v {
      case Str(text) =>
        assert EncScalar(v) == Le32(|text| + 1) + (text + [0]);
        PrefixedSize(|text| + 1, text + [0]);
      case Binary(subtype, data) =>
        assert EncScalar(v) == Le32(|data|) + ([subtype] + data);
        PrefixedSize(|data|, [subtype] + data);
      case Regex(pattern, options) => assert IsTwoCStrings(EncScalar(v), pattern, options);
      case _ =>
    }
  }

  /** The codec and the index have one wire form, and what is well formed to the one is to the other. */
  lemma {:induction false} SameBytes(v: Val)
    requires WfVal(v)
    ensures Enc(ToTree(v)) == EncVal(v) && TagOf(ToTree(v)) == Tag(v) && Wf(ToTree(v))
    decreases v, 0
  {
    hide Le32, EncScalar, ScalarOk;
    match v {
      case Doc(es) => SameFields(false, 0, es);
      case Arr(es) => SameFields(true, 0, es);
      case _ => ScalarSize(v);
    }
  }

  lemma {:induction false} SameFields(isArray: bool, idx: nat, es: Entries)
    requires WfEntries(isArray, es)
    ensures EncFields(ToFields(isArray, idx, es)) == EncEntries(isArray, idx, es)
    ensures WfFields(ToFields(isArray, idx, es))
    decreases es, 1
  {
    hide Le32, EncScalar, ScalarOk, Enc, EncVal;
    if es.Entry? {
      SameBytes(es.value);
      SameFields(isArray, idx + 1, es.rest);
      DecimalNoZero(idx);
      var name := if isArray then Decimal(idx) else es.name;
      var v, rest := EncVal(es.value), EncEntries(isArray, idx + 1, es.rest);
      assert [Tag(es.value)] + name + [0] + v + rest == [Tag(es.value)] + (name + [0] + (v + rest));
    }
  }

  /** So the bytes the decoder accepts are those of a document of the index. */
  lemma AcceptedIsDocument(raw: bytes)
    requires Decode(raw).Good?
    ensures var es := Decode(raw).value; Document(ToTree(Doc(es))) && Enc(ToTree(Doc(es))) == raw
  {
    hide Le32, EncDoc, WfEntries;
    AcceptedIsCanonical(raw);
    var es := Decode(raw).value;
    SameBytes(Doc(es));
  }
}
