/** Numbers below 256 as bytes, bit by bit. */
module Bytes {

  predicate Odd(n: int) {
    n % 2 == 1
  }

  function One(b: bool): (n: int)
    ensures 0 <= n <= 1
  {
    if b then 1 else 0
  }

  function Byte(h: bool, g: bool, f: bool, e: bool, d: bool, c: bool, b: bool, a: bool): bv8 {
    (if h then 0x80 else 0) | (if g then 0x40 else 0) | (if f then 0x20 else 0) | (if e then 0x10 else 0) |
    (if d then 0x08 else 0) | (if c then 0x04 else 0) | (if b then 0x02 else 0) | (if a then 0x01 else 0)
  }

  lemma ByteWeighs(h: bool, g: bool, f: bool, e: bool, d: bool, c: bool, b: bool, a: bool)
    ensures Val(Byte(h, g, f, e, d, c, b, a)) == Weigh(h, g, f, e, d, c, b, a)
  {
  }

  function Weigh(h: bool, g: bool, f: bool, e: bool, d: bool, c: bool, b: bool, a: bool): int {
    128 * One(h) + 64 * One(g) + 32 * One(f) + 16 * One(e) + 8 * One(d) + 4 * One(c) + 2 * One(b) + One(a)
  }

  function Half(n: int): int {
    n / 2
  }

  /** The conversion of a number below 256 to a byte. */
  function ToByte(n: int): bv8
    requires 0 <= n < 256
  {
    var n1 := Half(n);
    var n2 := Half(n1);
    var n3 := Half(n2);
    var n4 := Half(n3);
    var n5 := Half(n4);
    var n6 := Half(n5);
    Byte(Odd(Half(n6)), Odd(n6), Odd(n5), Odd(n4), Odd(n3), Odd(n2), Odd(n1), Odd(n))
  }

  /** The number a byte stands for. */
  function Val(b: bv8): (n: int)
    ensures 0 <= n < 256
  {
    b as int
  }

  lemma Halve(n: int)
    ensures n == 2 * Half(n) + One(Odd(n))
  {
  }

  lemma HalfBelow(n: int, k: nat)
    requires 0 <= n < 2 * k
    ensures 0 <= Half(n) < k
  {
  }

  /** The low four bits, and the rest. */
  lemma Nibble(n: int, n1: int, n2: int, n3: int)
    requires n1 == Half(n) && n2 == Half(n1) && n3 == Half(n2)
    ensures n == 16 * Half(n3) + 8 * One(Odd(n3)) + 4 * One(Odd(n2)) + 2 * One(Odd(n1)) + One(Odd(n))
  {
    hide Odd, One, Half;
    Halve(n);
    Halve(n1);
    assert n == 4 * n2 + 2 * One(Odd(n1)) + One(Odd(n));
    Halve(n2);
    assert n == 8 * n3 + 4 * One(Odd(n2)) + 2 * One(Odd(n1)) + One(Odd(n));
    Halve(n3);
  }

  lemma Binary(n: int, n1: int, n2: int, n3: int, n4: int, n5: int, n6: int, n7: int)
    requires 0 <= n < 256 && n1 == Half(n) && n2 == Half(n1) && n3 == Half(n2) && n4 == Half(n3) && n5 == Half(n4)
    requires n6 == Half(n5) && n7 == Half(n6)
    ensures n == Weigh(Odd(n7), Odd(n6), Odd(n5), Odd(n4), Odd(n3), Odd(n2), Odd(n1), Odd(n))
  {
    hide Odd, One, Half;
    HalfBelow(n, 128);
    HalfBelow(n1, 64);
    HalfBelow(n2, 32);
    HalfBelow(n3, 16);
    HalfBelow(n4, 8);
    HalfBelow(n5, 4);
    HalfBelow(n6, 2);
    HalfBelow(n7, 1);
    Nibble(n, n1, n2, n3);
    Nibble(n4, n5, n6, n7);
  }

  lemma ByteBack(n: int)
    requires 0 <= n < 256
    ensures Val(ToByte(n)) == n
  {
    hide Odd, One, Byte, Val, Weigh, Half;
    var n1 := Half(n);
    var n2 := Half(n1);
    var n3 := Half(n2);
    var n4 := Half(n3);
    var n5 := Half(n4);
    var n6 := Half(n5);
    var n7 := Half(n6);
    ByteWeighs(Odd(n7), Odd(n6), Odd(n5), Odd(n4), Odd(n3), Odd(n2), Odd(n1), Odd(n));
    Binary(n, n1, n2, n3, n4, n5, n6, n7);
  }

  lemma ByteForth(b: bv8)
    ensures ToByte(Val(b)) == b
  {
    hide ToByte, Val;
    ByteBack(Val(b));
    ValInjective(ToByte(Val(b)), b);
  }

  lemma ValInjective(a: bv8, b: bv8)
    requires Val(a) == Val(b)
    ensures a == b
  {
  }
}
