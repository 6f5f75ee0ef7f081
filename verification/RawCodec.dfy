/**
 The raw BSON codec: typed values to bytes and back without an intermediate form.
 The decoder accepts exactly the encodings of well-formed documents nested at most
 200 deep, and is the encoder's inverse on them.
 */
module RawCodec {
  import opened Bytes
  import opened Varint

  const MAX_NESTING_DEPTH: nat := 200
  const I31: int := 0x8000_0000
  const I63: int := 0x8000_0000_0000_0000

  /** A decoded value. Integers are unsigned or signed as the source's types are. */
  datatype Val =
    | Double(bits: int)
    | Str(text: bytes)
    | Doc(entries: Entries)
    | Arr(items: Entries)
    | Binary(subtype: byte, data: bytes)
    | ObjectId(id: bytes)
    | Bool(b: bool)
    | DateTime(millis: int)
    | Null
    | Regex(pattern: bytes, options: bytes)
    | Int32(i32: int)
    | Timestamp(ts: int)
    | Int64(i64: int)
    | Decimal128(lo: int, hi: int)
    | Undefined
    | MinKey
    | MaxKey

  /** The fields of a document, or the items of an array, which carry no name. */
  datatype Entries = Nil | Entry(name: bytes, value: Val, rest: Entries)

  // ------------------------------------------------------------------ integers

  function Le64(n: int): (r: bytes)
    ensures |r| == 8
  {
    Le32(n) + Le32(n / U32)
  }

  function Read64(s: bytes): (n: int)
    requires |s| >= 8
    ensures 0 <= n < U64
  {
    Read32(s) + U32 * Read32(s[4..])
  }

  lemma Read64OfLe64(n: int, rest: bytes)
    requires 0 <= n < U64
    ensures Read64(Le64(n) + rest) == n
  {
    var s := Le64(n) + rest;
    Read32Front(Le32(n), Le32(n / U32) + rest);
    assert s == Le32(n) + (Le32(n / U32) + rest);
    Read32Front(Le32(n / U32), rest);
    assert s[4..] == Le32(n / U32) + rest;
  }

  lemma Read32Front(a: bytes, rest: bytes)
    requires |a| == 4
    ensures Read32(a + rest) == Read32(a)
  {
  }

  lemma Le64OfRead64(s: bytes)
    requires |s| == 8
    ensures Le64(Read64(s)) == s
  {
    var a, b := s[..4], s[4..];
    var lo, hi := Read32(a), Read32(b);
    assert Read32(s) == lo by { assert s == a + b; Read32Front(a, b); }
    var n := Read64(s);
    assert n == lo + U32 * hi;
    assert n / U32 == hi && n % U32 == lo;
    Le32Mod(n, lo);
    Le32OfRead32(a);
    Le32OfRead32(b);
    assert s == a + b;
  }

  /** Two's complement of the given modulus. */
  function Signed(u: int, half: int): int { if u >= half then u - 2 * half else u }

  function Unsigned(i: int, half: int): int { if i < 0 then i + 2 * half else i }

  // ------------------------------------------------------------------- encoding

  function Tag(v: Val): byte {
    match v
    case Double(_) => 0x01
    case Str(_) => 0x02
    case Doc(_) => 0x03
    case Arr(_) => 0x04
    case Binary(_, _) => 0x05
    case Undefined => 0x06
    case ObjectId(_) => 0x07
    case Bool(_) => 0x08
    case DateTime(_) => 0x09
    case Null => 0x0A
    case Regex(_, _) => 0x0B
    case Int32(_) => 0x10
    case Timestamp(_) => 0x11
    case Int64(_) => 0x12
    case Decimal128(_, _) => 0x13
    case MaxKey => 0x7F
    case MinKey => 0xFF
  }

  function EncScalar(v: Val): bytes
    requires !v.Doc? && !v.Arr?
  {
    match v
    case Double(bits) => Le64(bits)
    case Str(text) => Le32(|text| + 1) + text + [0]
    case Binary(subtype, data) => Le32(|data|) + [subtype] + data
    case ObjectId(id) => id
    case Bool(b) => [if b then 1 else 0]
    case DateTime(millis) => Le64(Unsigned(millis, I63))
    case Regex(pattern, options) => pattern + [0] + (options + [0])
    case Int32(i) => Le32(i)
    case Timestamp(ts) => Le64(ts)
    case Int64(i) => Le64(Unsigned(i, I63))
    case Decimal128(lo, hi) => Le64(lo) + Le64(hi)
    case Null => []
    case Undefined => []
    case MinKey => []
    case MaxKey => []
  }

  function EncVal(v: Val): bytes
    decreases v, 0
  {
    match v
    case Doc(es) => EncDoc(false, es)
    case Arr(es) => EncDoc(true, es)
    case _ => EncScalar(v)
  }

  function EncDoc(isArray: bool, es: Entries): bytes
    decreases es, 2
  {
    Le32(|EncEntries(isArray, 0, es)| + 5) + EncEntries(isArray, 0, es) + [0]
  }

  /** Array items are named by their positions. */
  function EncEntries(isArray: bool, idx: nat, es: Entries): bytes
    decreases es, 1
  {
    match es
    case Nil => []
    case Entry(name, v, rest) =>
      [Tag(v)] + ((if isArray then Decimal(idx) else name) + [0] + (EncVal(v) + EncEntries(isArray, idx + 1, rest)))
  }

  predicate WfScalar(v: Val) {
    match v
    case Double(bits) => 0 <= bits < U64
    case Str(text) => |text| + 1 < I31
    case Binary(_, data) => |data| < U32
    case ObjectId(id) => |id| == 12
    case DateTime(millis) => -I63 <= millis < I63
    case Regex(pattern, options) => NoZero(pattern) && NoZero(options)
    case Int32(i) => -I31 <= i < I31
    case Timestamp(ts) => 0 <= ts < U64
    case Int64(i) => -I63 <= i < I63
    case Decimal128(lo, hi) => 0 <= lo < U64 && 0 <= hi < U64
    case _ => true
  }

  predicate WfVal(v: Val)
    decreases v
  {
    match v
    case Doc(es) => WfEntries(false, es) && |EncDoc(false, es)| < U32
    case Arr(es) => WfEntries(true, es) && |EncDoc(true, es)| < U32
    case _ => WfScalar(v)
  }

  predicate WfEntries(isArray: bool, es: Entries)
    decreases es
  {
    es.Entry? ==> (if isArray then es.name == [] else NoZero(es.name)) && WfVal(es.value) && WfEntries(isArray, es.rest)
  }

  function Max(a: nat, b: nat): nat { if a < b then b else a }

  /** How many containers deep a value goes. */
  function Depth(v: Val): nat
    decreases v
  {
    match v
    case Doc(es) => 1 + DepthOf(es)
    case Arr(es) => 1 + DepthOf(es)
    case _ => 0
  }

  function DepthOf(es: Entries): nat
    decreases es
  {
    match es
    case Nil => 0
    case Entry(_, v, rest) => Max(Depth(v), DepthOf(rest))
  }

  // ------------------------------------------------------------------- decoding

  datatype DecodeError = TooDeep | Malformed

  datatype Res<+T> = Good(value: T) | Bad(error: DecodeError)

  /** The position of the first 0x00, or the length. */
  function FirstZero(s: bytes): (k: nat)
    ensures k <= |s| && NoZero(s[..k]) && (k < |s| ==> s[k] == 0)
  {
    if s == [] || s[0] == 0 then 0
    else
      var k := 1 + FirstZero(s[1..]);
      assert forall j :: 0 <= j < k ==> s[j] == if j == 0 then s[0] else s[1..][j - 1];
      k
  }

  lemma FirstZeroOf(a: bytes, rest: bytes)
    requires NoZero(a)
    ensures FirstZero(a + [0] + rest) == |a| < |a + [0] + rest|
  {
    var s := a + [0] + rest;
    var k := FirstZero(s);
    assert s[|a|] == 0;
    assert forall j :: 0 <= j < |a| ==> s[j] == a[j];
    assert forall j :: 0 <= j < k ==> s[..k][j] == s[j];
  }

  function ParseScalar(b: bytes, t: byte): (r: Res<(Val, nat)>)
    ensures r.Good? ==> r.value.1 <= |b|
  {
    var short := Bad(Malformed);
    if t == 0x01 then if |b| < 8 then short else Good((Double(Read64(b)), 8))
    else if t == 0x02 then
      if |b| < 5 then short
      else
        var l := Signed(Read32(b), I31);
        if l < 1 || 4 + l > |b| || b[3 + l] != 0 then short else Good((Str(b[4..3 + l]), 4 + l))
    else if t == 0x05 then
      if |b| < 5 || 5 + Read32(b) > |b| then short else Good((Binary(b[4], b[5..5 + Read32(b)]), 5 + Read32(b)))
    else if t == 0x07 then if |b| < 12 then short else Good((ObjectId(b[..12]), 12))
    else if t == 0x08 then
      if |b| < 1 || b[0] > 1 then short else Good((Bool(b[0] == 1), 1))
    else if t == 0x09 then if |b| < 8 then short else Good((DateTime(Signed(Read64(b), I63)), 8))
    else if t == 0x0A then Good((Null, 0))
    else if t == 0x0B then
      var p := FirstZero(b);
      if p == |b| then short
      else
        var o := FirstZero(b[p + 1..]);
        if o == |b| - p - 1 then short else Good((Regex(b[..p], b[p + 1..p + 1 + o]), p + o + 2))
    else if t == 0x10 then if |b| < 4 then short else Good((Int32(Signed(Read32(b), I31)), 4))
    else if t == 0x11 then if |b| < 8 then short else Good((Timestamp(Read64(b)), 8))
    else if t == 0x12 then if |b| < 8 then short else Good((Int64(Signed(Read64(b), I63)), 8))
    else if t == 0x13 then if |b| < 16 then short else Good((Decimal128(Read64(b), Read64(b[8..])), 16))
    else if t == 0x06 then Good((Undefined, 0))
    else if t == 0xFF then Good((MinKey, 0))
    else if t == 0x7F then Good((MaxKey, 0))
    else short
  }

  /** The length of an embedded document at the start of b, if it can be one. */
  function EmbeddedLength(b: bytes): (r: Option<nat>)
    ensures r.Some? ==> 5 <= r.value <= |b|
  {
    if |b| < 5 || Read32(b) < 5 || Read32(b) > |b| then None else Some(Read32(b))
  }

  predicate CheckRawLength(raw: bytes) {
    |raw| >= 5 && Read32(raw) == |raw| && raw[|raw| - 1] == 0
  }

  /** The size of the value at the start of data, read off its type and length prefix. */
  function ValueSize(data: bytes, t: byte): Option<nat> {
    if t in {0x01, 0x09, 0x11, 0x12} then Some(8)
    else if t == 0x02 then if |data| < 4 then None else Some(4 + Read32(data))
    else if t in {0x03, 0x04} then if |data| < 4 then None else Some(Read32(data))
    else if t == 0x05 then if |data| < 4 then None else Some(5 + Read32(data))
    else if t in {0x06, 0x0A, 0x7F, 0xFF} then Some(0)
    else if t == 0x07 then Some(12)
    else if t == 0x08 then Some(1)
    else if t == 0x0B then
      var p := FirstZero(data);
      if p == |data| then Some(p + 2) else Some(p + 1 + FirstZero(data[p + 1..]) + 1)
    else if t == 0x10 then Some(4)
    else if t == 0x13 then Some(16)
    else None
  }

  function ParseValue(b: bytes, t: byte, depth: nat): (r: Res<(Val, nat)>)
    ensures r.Good? ==> r.value.1 <= |b|
    decreases |b|, 3
  {
    if t == 0x03 || t == 0x04 then
      match EmbeddedLength(b)
      case None => Bad(Malformed)
      case Some(l) =>
        match ParseDoc(b[..l], t == 0x04, depth + 1, None)
        case Bad(e) => Bad(e)
        case Good(es) => Good((if t == 0x03 then Doc(es) else Arr(es), l))
    else ParseScalar(b, t)
  }

  function ParseDoc(raw: bytes, isArray: bool, depth: nat, want: Option<seq<bytes>>): Res<Entries>
    decreases |raw|, 2
  {
    if depth > MAX_NESTING_DEPTH then Bad(TooDeep)
    else if !CheckRawLength(raw) then Bad(Malformed)
    else ParseFields(raw[4..], isArray, depth, 0, want)
  }

  /** The fields in what is left of a document, the next one the count-th. */
  function ParseFields(s: bytes, isArray: bool, depth: nat, count: nat, want: Option<seq<bytes>>): Res<Entries>
    decreases |s|, 1
  {
    if s == [] then Bad(Malformed)
    else if s[0] == 0 then if |s| == 1 then Good(Nil) else Bad(Malformed)
    else
      var e := FirstZero(s[1..]);
      if e == |s| - 1 then Bad(Malformed)
      else
        var name, b := s[1..e + 1], s[e + 2..];
        if want.Some? && name !in want.value then
          match ValueSize(b, s[0])
          case None => Bad(Malformed)
          case Some(n) => if n > |b| then Bad(Malformed) else ParseFields(b[n..], isArray, depth, count, want)
        else if isArray && name != Decimal(count) then Bad(Malformed)
        else
          match ParseValue(b, s[0], depth)
          case Bad(err) => Bad(err)
          case Good((v, n)) =>
            Prefixed(if isArray then [] else name, v, ParseFields(b[n..], isArray, depth, count + 1, want))
  }

  function Prefixed(name: bytes, v: Val, r: Res<Entries>): Res<Entries> {
    match r
    case Bad(e) => Bad(e)
    case Good(es) => Good(Entry(name, v, es))
  }

  // --------------------------------------------------------- scalars round-trip

  lemma TakeFront(a: bytes, rest: bytes)
    ensures (a + rest)[..|a|] == a && (a + rest)[|a|..] == rest
  {
  }

  lemma StringReadsBack(text: bytes, rest: bytes)
    requires |text| + 1 < I31
    ensures ParseScalar(EncScalar(Str(text)) + rest, 0x02) == Good((Str(text), |text| + 5))
  {
    hide Le32, Read32, Read64, FirstZero;
    var l := |text| + 1;
    var b := EncScalar(Str(text)) + rest;
    assert b == Le32(l) + (text + [0] + rest);
    Read32Front(Le32(l), text + [0] + rest);
    assert Read32(b) == l;
    assert b[3 + l] == 0;
    assert b[4..3 + l] == text;
  }

  lemma BinaryReadsBack(subtype: byte, data: bytes, rest: bytes)
    requires |data| < U32
    ensures ParseScalar(EncScalar(Binary(subtype, data)) + rest, 0x05) == Good((Binary(subtype, data), |data| + 5))
  {
    hide Le32, Read32, Read64, FirstZero;
    var b := EncScalar(Binary(subtype, data)) + rest;
    assert b == Le32(|data|) + ([subtype] + data + rest);
    Read32Front(Le32(|data|), [subtype] + data + rest);
    assert b[4] == subtype;
    assert b[5..5 + |data|] == data;
  }

  lemma RegexReadsBack(pattern: bytes, options: bytes, rest: bytes)
    requires NoZero(pattern) && NoZero(options)
    ensures ParseScalar(EncScalar(Regex(pattern, options)) + rest, 0x0B)
         == Good((Regex(pattern, options), |pattern| + |options| + 2))
  {
    hide FirstZero, Read32, Read64, NoZero;
    var b := EncScalar(Regex(pattern, options)) + rest;
    var tail := options + [0] + rest;
    assert b == pattern + [0] + tail;
    FirstZeroOf(pattern, tail);
    FirstZeroOf(options, rest);
    var p := |pattern|;
    assert b[p + 1..] == tail;
    assert b[..p] == pattern;
    assert b[p + 1..p + 1 + |options|] == options;
  }

  lemma DecimalReadsBack(lo: int, hi: int, rest: bytes)
    requires 0 <= lo < U64 && 0 <= hi < U64
    ensures ParseScalar(EncScalar(Decimal128(lo, hi)) + rest, 0x13) == Good((Decimal128(lo, hi), 16))
  {
    var b := EncScalar(Decimal128(lo, hi)) + rest;
    assert b == Le64(lo) + (Le64(hi) + rest);
    Read64OfLe64(lo, Le64(hi) + rest);
    Read64OfLe64(hi, rest);
    assert b[8..] == Le64(hi) + rest;
  }

  lemma WordReadsBack(n: int, half: int, rest: bytes)
    requires half == I63 && -half <= n < half
    ensures Signed(Read64(Le64(Unsigned(n, half)) + rest), half) == n
  {
    Read64OfLe64(Unsigned(n, half), rest);
  }

  lemma Int32ReadsBack(i: int, rest: bytes)
    requires -I31 <= i < I31
    ensures Signed(Read32(Le32(i) + rest), I31) == i
  {
    Read32Front(Le32(i), rest);
    if i < 0 { ModUnique(i, -1, i + U32); } else { ModUnique(i, 0, i); }
  }

  /** The forms of a fixed width. */
  lemma FixedReadsBack(v: Val, rest: bytes)
    requires WfScalar(v) && (v.Double? || v.ObjectId? || v.DateTime? || v.Int32? || v.Timestamp? || v.Int64?)
    ensures ParseScalar(EncScalar(v) + rest, Tag(v)) == Good((v, |EncScalar(v)|))
  {
    hide Read64, Read32, Le64, Le32, FirstZero, Signed, Unsigned;
    match v {
      case Double(bits) => Read64OfLe64(bits, rest);
      case ObjectId(id) => TakeFront(id, rest);
      case DateTime(millis) => WordReadsBack(millis, I63, rest);
      case Int32(i) => Int32ReadsBack(i, rest);
      case Timestamp(ts) => Read64OfLe64(ts, rest);
      case Int64(i) => WordReadsBack(i, I63, rest);
      case _ =>
    }
  }

  lemma ScalarReadsBack(v: Val, rest: bytes)
    requires !v.Doc? && !v.Arr? && WfScalar(v)
    ensures ParseScalar(EncScalar(v) + rest, Tag(v)) == Good((v, |EncScalar(v)|))
  {
    hide Read64, Read32, Le64, Le32, FirstZero, Signed, Unsigned;
    match v {
      case Str(text) => StringReadsBack(text, rest);
      case Binary(subtype, data) => BinaryReadsBack(subtype, data, rest);
      case Regex(pattern, options) => RegexReadsBack(pattern, options, rest);
      case Decimal128(lo, hi) => DecimalReadsBack(lo, hi, rest);
      case Null =>
      case Undefined =>
      case MinKey =>
      case MaxKey =>
      case Bool(_) =>
      case _ => FixedReadsBack(v, rest);
    }
  }

  // ------------------------------------------ what is read is what was written

  lemma Read32Take(b: bytes)
    requires |b| >= 4
    ensures Le32(Read32(b)) == b[..4]
  {
    assert b == b[..4] + b[4..];
    Read32Front(b[..4], b[4..]);
    Le32OfRead32(b[..4]);
  }

  lemma Read64Front(a: bytes, rest: bytes)
    requires |a| == 8
    ensures Read64(a + rest) == Read64(a)
  {
    hide Read32;
    var lo, hi := a[..4], a[4..];
    assert a + rest == lo + (hi + rest) && a == lo + hi;
    Read32Front(lo, hi + rest);
    Read32Front(lo, hi);
    assert (a + rest)[4..] == hi + rest;
    Read32Front(hi, rest);
  }

  lemma Read64Take(b: bytes)
    requires |b| >= 8
    ensures Le64(Read64(b)) == b[..8]
  {
    hide Read64, Le64;
    assert b == b[..8] + b[8..];
    Read64Front(b[..8], b[8..]);
    Le64OfRead64(b[..8]);
  }

  lemma SignedTwice(u: int, half: int)
    requires 0 <= u < 2 * half
    ensures Unsigned(Signed(u, half), half) == u
    ensures -half <= Signed(u, half) < half
  {
  }

  lemma WordWritesBack(b: bytes)
    requires |b| >= 8
    ensures Le64(Unsigned(Signed(Read64(b), I63), I63)) == b[..8]
  {
    SignedTwice(Read64(b), I63);
    Read64Take(b);
  }

  lemma Int32WritesBack(b: bytes)
    requires |b| >= 4
    ensures Le32(Signed(Read32(b), I31)) == b[..4]
  {
    var u := Read32(b);
    var i := Signed(u, I31);
    if i < 0 { ModUnique(i, -1, u); } else { ModUnique(i, 0, u); }
    ModUnique(u, 0, u);
    Le32Mod(i, u);
    Read32Take(b);
  }

  lemma StringWritesBack(b: bytes)
    requires ParseScalar(b, 0x02).Good?
    ensures var r := ParseScalar(b, 0x02).value; r.0.Str? && WfScalar(r.0) && EncScalar(r.0) == b[..r.1]
  {
    var l := Signed(Read32(b), I31);
    var text := b[4..3 + l];
    assert l == Read32(b) == |text| + 1;
    Read32Take(b);
    assert b[..4 + l] == b[..4] + text + [0];
  }

  lemma BinaryWritesBack(b: bytes)
    requires ParseScalar(b, 0x05).Good?
    ensures var r := ParseScalar(b, 0x05).value; r.0.Binary? && WfScalar(r.0) && EncScalar(r.0) == b[..r.1]
  {
    var l := Read32(b);
    Read32Take(b);
    assert b[..5 + l] == b[..4] + [b[4]] + b[5..5 + l];
  }

  lemma RegexWritesBack(b: bytes)
    requires ParseScalar(b, 0x0B).Good?
    ensures var r := ParseScalar(b, 0x0B).value; r.0.Regex? && WfScalar(r.0) && EncScalar(r.0) == b[..r.1]
  {
    hide FirstZero, Read32, Read64;
    var p := FirstZero(b);
    var c := b[p + 1..];
    var o := FirstZero(c);
    assert b[p + 1..p + 1 + o] == c[..o];
    assert c[o] == b[p + 1 + o];
    assert b[..p + o + 2] == b[..p] + [0] + (c[..o] + [0]);
  }

  lemma DecimalWritesBack(b: bytes)
    requires |b| >= 16
    ensures Le64(Read64(b)) + Le64(Read64(b[8..])) == b[..16]
  {
    Read64Take(b);
    Read64Take(b[8..]);
    assert b[..16] == b[..8] + b[8..][..8];
  }

  lemma ScalarWritesBack(b: bytes, t: byte)
    requires ParseScalar(b, t).Good?
    ensures var r := ParseScalar(b, t).value;
            !r.0.Doc? && !r.0.Arr? && Tag(r.0) == t && WfScalar(r.0) && EncScalar(r.0) == b[..r.1]
  {
    hide Read64, Read32, Le64, Le32, FirstZero;
    if t == 0x02 { StringWritesBack(b); }
    else if t == 0x05 { BinaryWritesBack(b); }
    else if t == 0x0B { RegexWritesBack(b); }
    else if t == 0x10 { Int32WritesBack(b); }
    else if t == 0x09 || t == 0x12 { WordWritesBack(b); }
    else if t == 0x13 { DecimalWritesBack(b); }
    else if t == 0x01 || t == 0x11 { Read64Take(b); }
    else if t == 0x08 { assert b[..1] == [b[0]]; }
  }

  // ------------------------------------------------------ documents round-trip

  /** How one field is read: its type, its name, and what follows. */
  function FieldStep(t: byte, name: bytes, b: bytes, isArray: bool, depth: nat, count: nat,
                     want: Option<seq<bytes>>): Res<Entries>
  {
    if want.Some? && name !in want.value then
      match ValueSize(b, t)
      case None => Bad(Malformed)
      case Some(n) => if n > |b| then Bad(Malformed) else ParseFields(b[n..], isArray, depth, count, want)
    else if isArray && name != Decimal(count) then Bad(Malformed)
    else
      match ParseValue(b, t, depth)
      case Bad(err) => Bad(err)
      case Good((v, n)) =>
        Prefixed(if isArray then [] else name, v, ParseFields(b[n..], isArray, depth, count + 1, want))
  }

  lemma ParseField(t: byte, name: bytes, b: bytes, isArray: bool, depth: nat, count: nat, want: Option<seq<bytes>>)
    requires t != 0 && NoZero(name)
    ensures ParseFields([t] + (name + [0] + b), isArray, depth, count, want)
         == FieldStep(t, name, b, isArray, depth, count, want)
  {
    hide ParseValue, ValueSize, FirstZero, Decimal;
    var s := [t] + (name + [0] + b);
    FirstZeroOf(name, b);
    assert s[1..] == name + [0] + b;
    assert s[1..|name| + 1] == name;
    assert s[|name| + 2..] == b;
  }

  /** Every non-empty run of fields that gets past its first name has this shape. */
  lemma SplitField(s: bytes, isArray: bool, depth: nat, count: nat, want: Option<seq<bytes>>)
      returns (name: bytes, b: bytes)
    requires ParseFields(s, isArray, depth, count, want).Good? && s[0] != 0
    ensures NoZero(name) && s == [s[0]] + (name + [0] + b)
    ensures ParseFields(s, isArray, depth, count, want) == FieldStep(s[0], name, b, isArray, depth, count, want)
  {
    hide ParseValue, ValueSize, FirstZero, Decimal;
    var e := FirstZero(s[1..]);
    name, b := s[1..e + 1], s[e + 2..];
    assert s[1..][..e] == name && s[1..][e] == s[e + 1];
    assert s == [s[0]] + (name + [0] + b);
  }

  lemma DecimalNoZero(n: nat)
    ensures NoZero(Decimal(n))
  {
  }

  lemma CheckEncoded(isArray: bool, es: Entries)
    requires |EncDoc(isArray, es)| < U32
    ensures CheckRawLength(EncDoc(isArray, es))
    ensures EncDoc(isArray, es)[4..] == EncEntries(isArray, 0, es) + [0]
  {
    hide EncEntries, Le32, Read32;
    var body := EncEntries(isArray, 0, es) + [0];
    var raw := EncDoc(isArray, es);
    assert raw == Le32(|raw|) + body;
    Read32Front(Le32(|raw|), body);
    ModUnique(|raw|, 0, |raw|);
  }

  lemma EmbeddedReadsBack(isArray: bool, es: Entries, rest: bytes, depth: nat)
    requires |EncDoc(isArray, es)| < U32
    ensures ParseValue(EncDoc(isArray, es) + rest, if isArray then 0x04 else 0x03, depth)
         == match ParseDoc(EncDoc(isArray, es), isArray, depth + 1, None)
            case Bad(e) => Bad(e)
            case Good(got) => Good((if isArray then Arr(got) else Doc(got), |EncDoc(isArray, es)|))
  {
    hide EncEntries, ParseDoc, ParseScalar, Le32, Read32, EncDoc;
    var raw := EncDoc(isArray, es);
    CheckEncoded(isArray, es);
    assert raw + rest == raw[..4] + (raw[4..] + rest) && raw == raw[..4] + raw[4..];
    Read32Front(raw[..4], raw[4..] + rest);
    Read32Front(raw[..4], raw[4..]);
    TakeFront(raw, rest);
  }

  /** A written value reads back, or is refused for its depth alone. */
  lemma {:induction false} ValueReadsBack(v: Val, rest: bytes, depth: nat)
    requires WfVal(v) && depth <= MAX_NESTING_DEPTH
    ensures ParseValue(EncVal(v) + rest, Tag(v), depth)
         == if depth + Depth(v) <= MAX_NESTING_DEPTH then Good((v, |EncVal(v)|)) else Bad(TooDeep)
    decreases v, 3
  {
    hide ParseDoc, ParseScalar, ParseFields, EncDoc, EncScalar, WfEntries;
    match v {
      case Doc(es) =>
        EmbeddedReadsBack(false, es, rest, depth);
        DocReadsBack(false, depth + 1, es);
      case Arr(es) =>
        EmbeddedReadsBack(true, es, rest, depth);
        DocReadsBack(true, depth + 1, es);
      case _ => ScalarReadsBack(v, rest);
    }
  }

  lemma {:induction false} DocReadsBack(isArray: bool, depth: nat, es: Entries)
    requires WfEntries(isArray, es) && |EncDoc(isArray, es)| < U32
    ensures ParseDoc(EncDoc(isArray, es), isArray, depth, None)
         == if depth + DepthOf(es) <= MAX_NESTING_DEPTH then Good(es) else Bad(TooDeep)
    decreases es, 2
  {
    hide ParseFields, EncEntries, EncDoc, WfEntries, Read32;
    if depth <= MAX_NESTING_DEPTH {
      CheckEncoded(isArray, es);
      FieldsReadBack(isArray, depth, 0, es);
    }
  }

  lemma {:induction false} FieldsReadBack(isArray: bool, depth: nat, idx: nat, es: Entries)
    requires WfEntries(isArray, es) && depth <= MAX_NESTING_DEPTH
    ensures ParseFields(EncEntries(isArray, idx, es) + [0], isArray, depth, idx, None)
         == if depth + DepthOf(es) <= MAX_NESTING_DEPTH then Good(es) else Bad(TooDeep)
    decreases es, 1
  {
    match es {
      case Nil =>
      case Entry(name, v, rest) =>
        hide ParseValue, ParseFields, EncVal, Decimal, Tag, WfVal, Depth;
        var shown := if isArray then Decimal(idx) else name;
        var more := EncEntries(isArray, idx + 1, rest) + [0];
        assert NoZero(shown) by { DecimalNoZero(idx); }
        EncFieldSplit(isArray, idx, es);
        TagIsNonZero(v);
        ParseField(Tag(v), shown, EncVal(v) + more, isArray, depth, idx, None);
        ValueReadsBack(v, more, depth);
        TakeFront(EncVal(v), more);
        FieldsReadBack(isArray, depth, idx + 1, rest);
    }
  }

  lemma TagIsNonZero(v: Val)
    ensures Tag(v) != 0
  {
  }

  lemma EncFieldSplit(isArray: bool, idx: nat, es: Entries)
    requires es.Entry?
    ensures EncEntries(isArray, idx, es) + [0]
         == [Tag(es.value)] + ((if isArray then Decimal(idx) else es.name) + [0]
            + (EncVal(es.value) + (EncEntries(isArray, idx + 1, es.rest) + [0])))
  {
    hide EncVal, Decimal, Tag;
    var a, b, c := if isArray then Decimal(idx) else es.name, EncVal(es.value), EncEntries(isArray, idx + 1, es.rest);
    assert EncEntries(isArray, idx, es) == [Tag(es.value)] + (a + [0] + (b + c));
    assert [Tag(es.value)] + (a + [0] + (b + c)) + [0] == [Tag(es.value)] + (a + [0] + (b + (c + [0])));
  }

  /** The terminator by itself. */
  lemma LastField(s: bytes, isArray: bool, depth: nat, count: nat)
    requires ParseFields(s, isArray, depth, count, None).Good?
    ensures s != []
    ensures s[0] == 0 ==> ParseFields(s, isArray, depth, count, None) == Good(Nil) && s == [] + [0]
  {
    hide ParseValue, FirstZero, Decimal;
  }

  lemma EntriesSplit(isArray: bool, es: Entries)
    ensures es.Nil? ==> WfEntries(isArray, es) && DepthOf(es) == 0 && forall idx :: EncEntries(isArray, idx, es) == []
    ensures es.Entry? && (if isArray then es.name == [] else NoZero(es.name)) && WfVal(es.value)
            && WfEntries(isArray, es.rest)
        ==> WfEntries(isArray, es)
    ensures es.Entry? ==> DepthOf(es) == Max(Depth(es.value), DepthOf(es.rest))
  {
    hide WfVal, Depth, NoZero;
  }

  /** Accepted fields are the encoding of what they decode to. */
  lemma {:induction false} FieldsWriteBack(s: bytes, isArray: bool, depth: nat, count: nat)
    requires depth <= MAX_NESTING_DEPTH
    requires ParseFields(s, isArray, depth, count, None).Good?
    ensures var es := ParseFields(s, isArray, depth, count, None).value;
            s == EncEntries(isArray, count, es) + [0] && WfEntries(isArray, es)
            && depth + DepthOf(es) <= MAX_NESTING_DEPTH
    decreases |s|, 1
  {
    hide ParseValue, ParseFields, EncVal, EncEntries, Decimal, Tag, WfVal, WfEntries, Depth, DepthOf, NoZero;
    LastField(s, isArray, depth, count);
    var es := ParseFields(s, isArray, depth, count, None).value;
    EntriesSplit(isArray, es);
    if s[0] != 0 {
      var name, b := SplitField(s, isArray, depth, count, None);
      var r := ParseValue(b, s[0], depth).value;
      ValueWritesBack(b, s[0], depth);
      FieldsWriteBack(b[r.1..], isArray, depth, count + 1);
      EncFieldSplit(isArray, count, es);
      assert b == b[..r.1] + b[r.1..];
    }
  }

  lemma {:induction false} ValueWritesBack(b: bytes, t: byte, depth: nat)
    requires depth <= MAX_NESTING_DEPTH
    requires ParseValue(b, t, depth).Good?
    ensures var r := ParseValue(b, t, depth).value;
            EncVal(r.0) == b[..r.1] && Tag(r.0) == t && WfVal(r.0) && depth + Depth(r.0) <= MAX_NESTING_DEPTH
    decreases |b|, 3
  {
    hide ParseDoc, ParseScalar, ParseFields, EncDoc, EncScalar, WfEntries, Read32;
    if t == 0x03 || t == 0x04 {
      var l := EmbeddedLength(b).value;
      DocWritesBack(b[..l], t == 0x04, depth + 1);
      assert l < U32;
    } else {
      ScalarWritesBack(b, t);
    }
  }

  lemma {:induction false} DocWritesBack(raw: bytes, isArray: bool, depth: nat)
    requires ParseDoc(raw, isArray, depth, None).Good?
    ensures var es := ParseDoc(raw, isArray, depth, None).value;
            raw == EncDoc(isArray, es) && WfEntries(isArray, es) && depth + DepthOf(es) <= MAX_NESTING_DEPTH
    decreases |raw|, 2
  {
    hide ParseFields, EncEntries, WfEntries, Read32, Le32;
    FieldsWriteBack(raw[4..], isArray, depth, 0);
    Read32Take(raw);
    var es := ParseDoc(raw, isArray, depth, None).value;
    assert raw == raw[..4] + raw[4..];
    assert raw == Le32(|raw|) + EncEntries(isArray, 0, es) + [0];
  }

  // ------------------------------------------------------------- main results

  predicate WfDoc(es: Entries) {
    WfEntries(false, es) && |EncDoc(false, es)| < U32
  }

  function Decode(raw: bytes): Res<Entries> { ParseDoc(raw, false, 1, None) }

  /** A document survives the round trip exactly when it is well formed and not too deep. */
  lemma DecodeOfEncode(es: Entries)
    ensures Decode(EncDoc(false, es)) == Good(es) <==> WfDoc(es) && 1 + DepthOf(es) <= 200
    ensures WfDoc(es) && 1 + DepthOf(es) > 200 ==> Decode(EncDoc(false, es)) == Bad(TooDeep)
  {
    hide ParseFields, EncDoc, WfEntries, DepthOf;
    if WfDoc(es) { DocReadsBack(false, 1, es); }
    if Decode(EncDoc(false, es)) == Good(es) {
      AcceptedIsCanonical(EncDoc(false, es));
    }
  }

  /** Accepted bytes re-encode to themselves. */
  lemma AcceptedIsCanonical(raw: bytes)
    requires Decode(raw).Good?
    ensures EncDoc(false, Decode(raw).value) == raw
    ensures WfDoc(Decode(raw).value) && 1 + DepthOf(Decode(raw).value) <= 200
  {
    hide ParseFields, EncDoc, WfEntries, DepthOf;
    DocWritesBack(raw, false, 1);
    assert |raw| < U32;
  }

  /** The size read off the length prefix is what decoding the value consumes. */
  lemma SizeIsConsumed(b: bytes, t: byte, depth: nat)
    requires ParseValue(b, t, depth).Good?
    ensures ValueSize(b, t) == Some(ParseValue(b, t, depth).value.1)
  {
    hide ParseDoc, FirstZero, Read32, Read64;
    if t == 0x0B {
      var p := FirstZero(b);
      assert p < |b|;
    }
  }

  /** The entries whose names are wanted, in their order. */
  function Keep(es: Entries, want: seq<bytes>): Entries {
    match es
    case Nil => Nil
    case Entry(name, v, rest) => if name in want then Entry(name, v, Keep(rest, want)) else Keep(rest, want)
  }

  lemma {:induction false} FieldsProject(s: bytes, depth: nat, count: nat, count': nat, want: seq<bytes>)
    requires ParseFields(s, false, depth, count, None).Good?
    ensures ParseFields(s, false, depth, count', Some(want))
         == Good(Keep(ParseFields(s, false, depth, count, None).value, want))
    decreases |s|
  {
    if s[0] != 0 {
      hide ParseValue, ParseFields, Decimal, ValueSize;
      var name, b := SplitField(s, false, depth, count, None);
      ParseField(s[0], name, b, false, depth, count', Some(want));
      SizeIsConsumed(b, s[0], depth);
      var n := ParseValue(b, s[0], depth).value.1;
      if name in want {
        FieldsProject(b[n..], depth, count + 1, count' + 1, want);
      } else {
        FieldsProject(b[n..], depth, count + 1, count', want);
      }
    }
  }

  /** Decoding the wanted fields alone is decoding everything and keeping them. */
  lemma ProjectionIsFilter(raw: bytes, depth: nat, want: seq<bytes>)
    requires ParseDoc(raw, false, depth, None).Good?
    ensures ParseDoc(raw, false, depth, Some(want)) == Good(Keep(ParseDoc(raw, false, depth, None).value, want))
  {
    FieldsProject(raw[4..], depth, 0, 0, want);
  }
}
