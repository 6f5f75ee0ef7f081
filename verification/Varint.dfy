/** SQLite4 variable-length integers, the form of array positions in location keys. */
module Varint {
  import opened Bytes

  const U64: int := 0x1_0000_0000_0000_0000

  function Pow256(k: nat): nat {
    if k == 0 then 1 else 0x100 * Pow256(k - 1)
  }

  /** The low k bytes of x, high byte first. */
  function Be(x: nat, k: nat): (r: bytes)
    ensures |r| == k
  {
    if k == 0 then [] else Be(x / 0x100, k - 1) + [x % 0x100]
  }

  function FromBe(s: bytes): nat {
    if s == [] then 0 else 0x100 * FromBe(s[..|s| - 1]) + s[|s| - 1] as int
  }

  lemma {:induction false} FromBeOfBe(x: nat, k: nat)
    requires x < Pow256(k)
    ensures FromBe(Be(x, k)) == x
  {
    if k > 0 {
      FromBeOfBe(x / 0x100, k - 1);
      assert Be(x, k)[..k - 1] == Be(x / 0x100, k - 1);
    }
  }

  lemma {:induction false} BeOrder(x: nat, y: nat, k: nat)
    requires x < y < Pow256(k)
    ensures Lex(Be(x, k), Be(y, k)) < 0
  {
    var a, b := Be(x / 0x100, k - 1), Be(y / 0x100, k - 1);
    LexSnoc(a, b, x % 0x100, y % 0x100);
    LexAntisymmetric(a, b);
    if x / 0x100 < y / 0x100 {
      BeOrder(x / 0x100, y / 0x100, k - 1);
    }
  }

  /** The number of payload bytes of a large integer. */
  function BeLen(x: nat): (k: nat)
    requires 67823 < x < U64
    ensures 3 <= k <= 8 && x < Pow256(k)
  {
    assert Pow256(3) == 0x100_0000 && Pow256(4) == U32 && Pow256(5) == 0x100_0000_0000
           && Pow256(6) == 0x1_0000_0000_0000
           && Pow256(7) == 0x100_0000_0000_0000 && Pow256(8) == U64;
    if x < 0x100_0000 then 3
    else if x < U32 then 4
    else if x < 0x100_0000_0000 then 5
    else if x < 0x1_0000_0000_0000 then 6
    else if x < 0x100_0000_0000_0000 then 7
    else 8
  }

  function Uvarint(x: nat): (r: bytes)
    requires x < U64
    ensures |r| > 0
  {
    if x <= 240 then [x]
    else if x <= 2287 then [(x - 240) / 0x100 + 241, (x - 240) % 0x100]
    else if x <= 67823 then [249, (x - 2288) / 0x100, (x - 2288) % 0x100]
    else [247 + BeLen(x)] + Be(x, BeLen(x))
  }

  function VarintLen(first: byte): nat {
    if first <= 240 then 1 else if first <= 248 then 2 else first as int - 246
  }

  /** The integer at the front of s. */
  function ReadUvarint(s: bytes): nat
    requires s != [] && |s| >= VarintLen(s[0])
  {
    var a0 := s[0] as int;
    if a0 <= 240 then a0
    else if a0 <= 248 then 240 + 0x100 * (a0 - 241) + s[1] as int
    else if a0 == 249 then 2288 + 0x100 * s[1] as int + s[2] as int
    else FromBe(s[1..a0 - 246])
  }

  lemma UvarintLength(x: nat)
    requires x < U64
    ensures |Uvarint(x)| == VarintLen(Uvarint(x)[0])
  {
  }

  /** Reading undoes writing, whatever follows. */
  lemma ReadOfUvarint(x: nat, rest: bytes)
    requires x < U64
    ensures VarintLen(Uvarint(x)[0]) <= |Uvarint(x) + rest|
    ensures ReadUvarint(Uvarint(x) + rest) == x
  {
    var s := Uvarint(x) + rest;
    if x > 67823 {
      FromBeOfBe(x, BeLen(x));
      assert s[1..s[0] as int - 246] == Be(x, BeLen(x));
    }
  }

  function Size(x: nat): nat
    requires x < U64
  {
    if x <= 240 then 0 else if x <= 2287 then 1 else if x <= 67823 then 2 else BeLen(x)
  }

  /** Byte order of the encodings is numeric order. */
  lemma UvarintOrder(x: nat, y: nat)
    requires x < U64 && y < U64
    ensures Lex(Uvarint(x), Uvarint(y)) == Sign(x - y)
  {
    LexAntisymmetric(Uvarint(x), Uvarint(y));
    if x < y {
      UvarintLess(x, y);
    } else if y < x {
      UvarintLess(y, x);
    }
  }

  lemma UvarintLess(x: nat, y: nat)
    requires x < y < U64
    ensures Lex(Uvarint(x), Uvarint(y)) < 0
  {
    var a, b := Uvarint(x), Uvarint(y);
    if a[0] == b[0] {
      if 67823 < x {
        assert BeLen(x) == BeLen(y);
        BeOrder(x, y, BeLen(x));
        assert a[1..] == Be(x, BeLen(x)) && b[1..] == Be(y, BeLen(x));
      } else {
        assert a[1..][0] == a[1] && b[1..][0] == b[1];
        if x > 2287 {
          assert Lex(a[1..][1..], b[1..][1..]) == Lex(a[2..], b[2..]);
          assert a[1..][1..] == a[2..] && b[1..][1..] == b[2..];
        }
      }
    }
  }

  /** The last and first values of each length, up to three bytes, and the first of four. */
  lemma InFigures()
    ensures Uvarint(0) == [0] && Uvarint(240) == [240] && Uvarint(241) == [241, 1]
    ensures Uvarint(2287) == [248, 255] && Uvarint(2288) == [249, 0, 0]
    ensures Uvarint(67823) == [249, 255, 255] && Uvarint(67824) == [250, 1, 8, 240]
  {
    assert Be(0, 0) == [] && Be(1, 1) == [1] && Be(264, 2) == [1, 8] && Be(67824, 3) == [1, 8, 240];
  }
}
