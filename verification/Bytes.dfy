/**
 Bytes, the fixed-width little-endian integers that prefix every BSON container,
 decimal field names and the lexicographic order of byte strings.
 */
module Bytes {

  type byte = b: int | 0 <= b < 256
  type bytes = seq<byte>

  const U32: int := 0x1_0000_0000

  datatype Option<+T> = None | Some(value: T)

  function Sign(n: int): int {
    if n < 0 then -1 else if n > 0 then 1 else 0
  }

  // ---------------------------------------------------------------- integers

  /** The four bytes PutUint32 stores: the value modulo 2^32, low byte first. */
  function Le32(n: int): (r: bytes)
    ensures |r| == 4
    ensures Read32(r) == n % U32
  {
    var q1 := n / 0x100;
    var q2 := q1 / 0x100;
    var q3 := q2 / 0x100;
    var r := [n % 0x100, q1 % 0x100, q2 % 0x100, q3 % 0x100];
    assert n == U32 * (q3 / 0x100) + Read32(r);
    ModUnique(n, q3 / 0x100, Read32(r));
    r
  }

  function Read32(s: bytes): (n: int)
    requires |s| >= 4
    ensures 0 <= n < U32
  {
    s[0] as int + 0x100 * (s[1] as int + 0x100 * (s[2] as int + 0x100 * s[3] as int))
  }

  lemma ModUnique(n: int, q: int, r: int)
    requires n == U32 * q + r && 0 <= r < U32
    ensures n % U32 == r
  {
    var q' := n / U32;
    assert n == U32 * q' + n % U32;
    assert U32 * (q - q') == n % U32 - r;
  }

  lemma Read32Injective(a: bytes, b: bytes)
    requires |a| == |b| == 4
    requires Read32(a) == Read32(b)
    ensures a == b
  {
    var a2, b2 := a[2] as int + 0x100 * a[3] as int, b[2] as int + 0x100 * b[3] as int;
    var a1, b1 := a[1] as int + 0x100 * a2, b[1] as int + 0x100 * b2;
    DigitsUnique(a[0], a1, b[0], b1);
    DigitsUnique(a[1], a2, b[1], b2);
    DigitsUnique(a[2], a[3], b[2], b[3]);
  }

  lemma DigitsUnique(x: byte, a: int, y: byte, b: int)
    requires x as int + 0x100 * a == y as int + 0x100 * b
    ensures x == y && a == b
  {
  }

  /** Little-endian reading and writing are inverse on four bytes. */
  lemma Le32OfRead32(s: bytes)
    requires |s| == 4
    ensures Le32(Read32(s)) == s
  {
    Read32Injective(Le32(Read32(s)), s);
  }

  lemma Le32Mod(n: int, m: int)
    requires n % U32 == m % U32
    ensures Le32(n) == Le32(m)
  {
    Read32Injective(Le32(n), Le32(m));
  }

  // ------------------------------------------------------------- placed text

  /** The string s sits in buf at offset i. */
  ghost predicate At(buf: bytes, i: int, s: bytes) {
    0 <= i && i + |s| <= |buf| && buf[i..i + |s|] == s
  }

  lemma AtConcat(buf: bytes, i: int, a: bytes, b: bytes)
    ensures At(buf, i, a + b) <==> At(buf, i, a) && At(buf, i + |a|, b)
  {
    if At(buf, i, a + b) {
      assert buf[i..i + |a|] == (a + b)[..|a|] == a;
      assert buf[i + |a|..i + |a| + |b|] == (a + b)[|a|..] == b;
    }
    if At(buf, i, a) && At(buf, i + |a|, b) {
      assert buf[i..i + |a + b|] == buf[i..i + |a|] + buf[i + |a|..i + |a| + |b|];
    }
  }

  lemma AtByte(buf: bytes, i: int, s: bytes, k: nat)
    requires At(buf, i, s) && k < |s|
    ensures 0 <= i + k < |buf| && buf[i + k] == s[k]
  {
    assert buf[i..i + |s|][k] == buf[i + k];
  }

  lemma AtRead32(buf: bytes, i: int, n: int)
    requires At(buf, i, Le32(n))
    ensures Read32(buf[i..]) == n % U32
  {
    forall k | 0 <= k < 4 ensures buf[i..][k] == Le32(n)[k] {
      AtByte(buf, i, Le32(n), k);
    }
  }

  predicate NoZero(s: bytes) {
    forall k :: 0 <= k < |s| ==> s[k] != 0
  }

  /** The position of the first 0x00 in buf[from..end], or end when there is none. */
  method ScanToZero(buf: bytes, from: nat, end: nat) returns (e: nat)
    requires end <= |buf|
    ensures from <= e && (from < end ==> e <= end) && (end <= from ==> e == from)
    ensures forall k :: from <= k < e ==> buf[k] != 0
    ensures e < end ==> buf[e] == 0
  {
    e := from;
    while e < end && buf[e] != 0
      invariant from <= e && (from < end ==> e <= end) && (end <= from ==> e == from)
      invariant forall k :: from <= k < e ==> buf[k] != 0
    {
      e := e + 1;
    }
  }

  /** A terminated string is what a scan for its terminator finds. */
  lemma ZeroIsAt(buf: bytes, from: nat, name: bytes, e: nat, end: nat)
    requires At(buf, from, name + [0]) && NoZero(name)
    requires from <= e <= end <= |buf| && from + |name| < end
    requires forall k :: from <= k < e ==> buf[k] != 0
    requires e < end ==> buf[e] == 0
    ensures e == from + |name|
  {
    AtByte(buf, from, name + [0], |name|);
    if e < from + |name| {
      AtByte(buf, from, name + [0], e - from);
    }
  }

  // ---------------------------------------------------- lexicographic order

  /** bytes.Compare. */
  function Lex(a: bytes, b: bytes): (r: int)
    ensures -1 <= r <= 1
  {
    if a == [] || b == [] then Sign(|a| - |b|)
    else if a[0] != b[0] then Sign(a[0] as int - b[0] as int)
    else Lex(a[1..], b[1..])
  }

  lemma {:induction false} LexAntisymmetric(a: bytes, b: bytes)
    ensures Lex(a, b) == -Lex(b, a)
    ensures Lex(a, b) == 0 <==> a == b
    decreases |a|
  {
    if a != [] && b != [] && a[0] == b[0] {
      LexAntisymmetric(a[1..], b[1..]);
      assert a == [a[0]] + a[1..] && b == [b[0]] + b[1..];
    }
  }

  lemma {:induction false} LexTransitive(a: bytes, b: bytes, c: bytes)
    requires Lex(a, b) < 0 && Lex(b, c) < 0
    ensures Lex(a, c) < 0
    decreases |a|
  {
    if a != [] && b != [] && c != [] && a[0] == b[0] == c[0] {
      LexTransitive(a[1..], b[1..], c[1..]);
    }
  }

  lemma {:induction false} LexCommonPrefix(p: bytes, a: bytes, b: bytes)
    ensures Lex(p + a, p + b) == Lex(a, b)
    decreases |p|
  {
    if p == [] {
      assert p + a == a && p + b == b;
    } else {
      assert (p + a)[1..] == p[1..] + a && (p + b)[1..] == p[1..] + b;
      LexCommonPrefix(p[1..], a, b);
    }
  }

  lemma {:induction false} LexSnoc(a: bytes, b: bytes, x: byte, y: byte)
    requires |a| == |b|
    ensures Lex(a + [x], b + [y]) == if a == b then Sign(x as int - y as int) else Lex(a, b)
    decreases |a|
  {
    if a == [] {
      assert (a + [x])[1..] == [] && (b + [y])[1..] == [];
    } else {
      assert (a + [x])[1..] == a[1..] + [x] && (b + [y])[1..] == b[1..] + [y];
      LexSnoc(a[1..], b[1..], x, y);
      LexAntisymmetric(a, b);
      LexAntisymmetric(a[1..], b[1..]);
    }
  }

  // ----------------------------------------------------------------- decimal

  /** strconv.FormatUint in base 10. */
  function Decimal(n: nat): (r: bytes)
    ensures |r| > 0
    ensures forall k :: 0 <= k < |r| ==> 48 <= r[k] <= 57
  {
    if n < 10 then [48 + n] else Decimal(n / 10) + [48 + n % 10]
  }

  function ParseDecimal(s: bytes): int {
    if s == [] then 0 else 10 * ParseDecimal(s[..|s| - 1]) + s[|s| - 1] as int - 48
  }

  lemma {:induction false} ParseOfDecimal(n: nat)
    ensures ParseDecimal(Decimal(n)) == n
  {
    if n < 10 {
      assert ParseDecimal([48 + n][..0]) == 0;
    } else {
      var s := Decimal(n);
      ParseOfDecimal(n / 10);
      assert s[..|s| - 1] == Decimal(n / 10);
    }
  }

  /** Distinct array positions have distinct decimal names. */
  lemma DecimalInjective(n: nat, m: nat)
    requires Decimal(n) == Decimal(m)
    ensures n == m
  {
    ParseOfDecimal(n);
    ParseOfDecimal(m);
  }
}
