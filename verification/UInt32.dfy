/** Unsigned 32-bit arithmetic written out on integers: wrap-around is `% MOD`
    and XOR is defined bit by bit. */
module UInt32 {
  import opened Modular

  const MOD := 0x1_0000_0000

  type u32 = x: int | 0 <= x < MOD

  function Pow2(n: nat): (p: nat)
    ensures p > 0
  {
    if n == 0 then 1 else 2 * Pow2(n - 1)
  }

  /** XOR of the low n bits. */
  function XorLow(a: nat, b: nat, n: nat): (x: nat)
    ensures x < Pow2(n)
    decreases n
  {
    if n == 0 then 0 else (a % 2 + b % 2) % 2 + 2 * XorLow(a / 2, b / 2, n - 1)
  }

  lemma Pow2Of32()
    ensures Pow2(32) == MOD && Pow2(19) == 0x8_0000
  {
    assert Pow2(8) == 0x100;
    assert Pow2(13) == 0x2000;
    assert Pow2(19) == 0x8_0000;
    assert Pow2(25) == 0x200_0000;
  }

  function Xor(a: u32, b: u32): u32 {
    Pow2Of32();
    XorLow(a, b, 32)
  }

  function Times(a: u32, k: nat): u32 {
    a * k % MOD
  }

  /** Left shift by 13, the bits leaving the word dropped. */
  function Shl13(a: u32): u32 {
    a * 0x2000 % MOD
  }

  // ---- Laws ----

  function Digit(a: nat, b: nat): nat {
    (a % 2 + b % 2) % 2
  }

  lemma XorLowParts(a: nat, b: nat, n: nat)
    requires n > 0
    ensures XorLow(a, b, n) == Digit(a, b) + 2 * XorLow(a / 2, b / 2, n - 1)
    ensures XorLow(a, b, n) % 2 == Digit(a, b)
    ensures XorLow(a, b, n) / 2 == XorLow(a / 2, b / 2, n - 1)
  {
    var rest := XorLow(a / 2, b / 2, n - 1);
    assert XorLow(a, b, n) == Digit(a, b) + 2 * rest;
    hide XorLow, Digit;
    DigitRange(a, b);
    DigitAndDouble(Digit(a, b), rest);
  }

  lemma DigitRange(a: nat, b: nat)
    ensures 0 <= Digit(a, b) < 2
  {
  }

  lemma DigitAndDouble(d: nat, x: nat)
    requires d < 2
    ensures (d + 2 * x) % 2 == d && (d + 2 * x) / 2 == x
  {
  }

  lemma DigitLaws(a: nat, b: nat, c: nat)
    ensures Digit(a, b) == Digit(b, a) && Digit(a, 0) == a % 2
    ensures Digit(Digit(a, b), b) == a % 2
    ensures Digit(Digit(a, b), c) == Digit(a, Digit(b, c))
  {
  }

  lemma DigitOfParity(a: nat, b: nat, c: nat)
    requires a % 2 == b % 2
    ensures Digit(a, c) == Digit(b, c) && Digit(c, a) == Digit(c, b)
  {
  }

  lemma {:induction false} XorLowCancel(a: nat, b: nat, n: nat)
    requires a < Pow2(n)
    ensures XorLow(XorLow(a, b, n), b, n) == a
    decreases n
  {
    hide XorLow, Digit;
    if n == 0 {
      XorLowEmpty(a, b);
      XorLowEmpty(XorLow(a, b, 0), b);
    } else {
      var x := XorLow(a, b, n);
      XorLowParts(a, b, n);
      XorLowParts(x, b, n);
      DigitOfParity(x, Digit(a, b), b);
      DigitLaws(a, b, 0);
      XorLowCancel(a / 2, b / 2, n - 1);
    }
  }

  lemma XorLowEmpty(a: nat, b: nat)
    ensures XorLow(a, b, 0) == 0
  {
  }

  lemma {:induction false} XorLowAssoc(a: nat, b: nat, c: nat, n: nat)
    ensures XorLow(XorLow(a, b, n), c, n) == XorLow(a, XorLow(b, c, n), n)
    decreases n
  {
    hide XorLow, Digit;
    if n == 0 {
      XorLowEmpty(XorLow(a, b, 0), c);
      XorLowEmpty(a, XorLow(b, c, 0));
    } else {
      var x, y := XorLow(a, b, n), XorLow(b, c, n);
      XorLowParts(a, b, n);
      XorLowParts(b, c, n);
      XorLowParts(x, c, n);
      XorLowParts(a, y, n);
      DigitOfParity(x, Digit(a, b), c);
      DigitOfParity(y, Digit(b, c), a);
      DigitLaws(a, b, c);
      XorLowAssoc(a / 2, b / 2, c / 2, n - 1);
    }
  }

  lemma {:induction false} XorLowComm(a: nat, b: nat, n: nat)
    ensures XorLow(a, b, n) == XorLow(b, a, n)
    decreases n
  {
    if n > 0 {
      XorLowComm(a / 2, b / 2, n - 1);
    }
  }

  lemma {:induction false} XorLowZero(a: nat, n: nat)
    requires a < Pow2(n)
    ensures XorLow(a, 0, n) == a
    decreases n
  {
    if n > 0 {
      XorLowZero(a / 2, n - 1);
    }
  }

  /** XOR of n bits sees only the low n bits of its arguments. */
  lemma {:induction false} XorLowOfLow(a: nat, b: nat, n: nat)
    ensures XorLow(a % Pow2(n), b % Pow2(n), n) == XorLow(a, b, n)
    decreases n
  {
    hide XorLow, Digit;
    if n == 0 {
      XorLowEmpty(a, b);
      XorLowEmpty(a % Pow2(0), b % Pow2(0));
    } else {
      var p := Pow2(n - 1);
      HalfMod(a, p);
      HalfMod(b, p);
      XorLowParts(a, b, n);
      XorLowParts(a % (2 * p), b % (2 * p), n);
      DigitOfParity(a % (2 * p), a, b % (2 * p));
      DigitOfParity(b % (2 * p), b, a);
      XorLowOfLow(a / 2, b / 2, n - 1);
    }
  }

  /** The low bits of an XOR are the XOR of the low bits. */
  lemma {:induction false} XorLowNarrow(a: nat, b: nat, m: nat, n: nat)
    requires m <= n
    ensures XorLow(a, b, n) % Pow2(m) == XorLow(a, b, m)
    decreases n
  {
    hide XorLow, Digit;
    if m == 0 {
      XorLowEmpty(a, b);
    } else {
      XorLowParts(a, b, n);
      XorLowParts(a, b, m);
      HalfMod(XorLow(a, b, n), Pow2(m - 1));
      XorLowNarrow(a / 2, b / 2, m - 1, n - 1);
    }
  }

  lemma HalfMod(a: nat, p: nat)
    requires p > 0
    ensures (a % (2 * p)) % 2 == a % 2 && (a % (2 * p)) / 2 == (a / 2) % p
    ensures a % (2 * p) == a % 2 + 2 * ((a / 2) % p)
  {
    var q, r := a / 2, a % 2;
    var d, m := q / p, q % p;
    assert a == 2 * (p * d + m) + r == (2 * p) * d + (2 * m + r);
    ModUnique(a, 2 * p, d, 2 * m + r);
  }

  lemma {:induction false} XorLowShift(a: nat, b: nat, s: nat, n: nat)
    ensures XorLow(Pow2(s) * a, Pow2(s) * b, s + n) == Pow2(s) * XorLow(a, b, n)
    decreases s
  {
    hide XorLow, Digit;
    if s > 0 {
      var p := Pow2(s - 1);
      Doubled(p, a);
      Doubled(p, b);
      Doubled(p, XorLow(a, b, n));
      XorLowParts(Pow2(s) * a, Pow2(s) * b, s + n);
      EvenDigit(p * a, p * b);
      XorLowShift(a, b, s - 1, n);
    }
  }

  lemma Doubled(p: nat, a: nat)
    ensures 2 * p * a == 2 * (p * a) && (2 * (p * a)) / 2 == p * a
  {
  }

  lemma EvenDigit(a: nat, b: nat)
    ensures Digit(2 * a, 2 * b) == 0
  {
  }

  lemma XorCancel(a: u32, b: u32)
    ensures Xor(Xor(a, b), b) == a
  {
    Pow2Of32();
    XorLowCancel(a, b, 32);
  }

  lemma XorAssoc(a: u32, b: u32, c: u32)
    ensures Xor(Xor(a, b), c) == Xor(a, Xor(b, c))
  {
    XorLowAssoc(a, b, c, 32);
  }

  lemma XorComm(a: u32, b: u32)
    ensures Xor(a, b) == Xor(b, a)
  {
    XorLowComm(a, b, 32);
  }

  lemma XorZero(a: u32)
    ensures Xor(a, 0) == a
  {
    Pow2Of32();
    XorLowZero(a, 32);
  }

  lemma XorInjective(a: u32, b: u32, c: u32)
    requires Xor(a, c) == Xor(b, c) || Xor(c, a) == Xor(c, b)
    ensures a == b
  {
    hide Xor;
    XorComm(a, c);
    XorComm(b, c);
    XorCancel(a, c);
    XorCancel(b, c);
  }

  /** A multiplier with an inverse modulo 2^32 can be undone. */
  lemma TimesInverse(h: u32, p: nat, q: nat)
    requires p * q % MOD == 1
    ensures Times(Times(h, p), q) == h
  {
    var k := p * q / MOD;
    var q1, r := h * p / MOD, h * p % MOD;
    assert h * p == MOD * q1 + r;
    assert p * q == MOD * k + 1;
    calc {
      r * q;
      (h * p - MOD * q1) * q;
      h * (p * q) - MOD * (q1 * q);
      h * (MOD * k + 1) - MOD * (q1 * q);
      MOD * (h * k - q1 * q) + h;
    }
    ModUnique(r * q, MOD, h * k - q1 * q, h);
  }

  lemma Shl13Low(a: u32)
    ensures Shl13(a) == 0x2000 * (a % 0x8_0000)
  {
    var d, m := a / 0x8_0000, a % 0x8_0000;
    ModUnique(a * 0x2000, MOD, d, 0x2000 * m);
  }

  lemma Pow2Of13()
    ensures Pow2(13) == 0x2000
  {
    assert Pow2(7) == 0x80;
  }

  lemma Shl13Linear(a: u32, b: u32)
    ensures Shl13(Xor(a, b)) == Xor(Shl13(a), Shl13(b))
  {
    Pow2Of32();
    Pow2Of13();
    hide Pow2;
    Shl13Low(a);
    Shl13Low(b);
    Shl13Low(Xor(a, b));
    XorLowNarrow(a, b, 19, 32);
    XorLowOfLow(a, b, 19);
    XorLowShift(a % 0x8_0000, b % 0x8_0000, 13, 19);
  }

  lemma Shl13Thrice(a: u32)
    ensures Shl13(Shl13(Shl13(a))) == 0
  {
    var once, twice := Shl13(a), Shl13(Shl13(a));
    Shl13Low(a);
    Shl13Low(once);
    Shl13Low(twice);
    hide Shl13;
    var m := a % 0x8_0000;
    var q, r := m / 64, m % 64;
    assert once == 0x2000 * m == 0x8_0000 * q + 0x2000 * r;
    ModUnique(once, 0x8_0000, q, 0x2000 * r);
    ModUnique(twice, 0x8_0000, 128 * r, 0);
  }
}
