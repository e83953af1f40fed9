/** XOR and one-place shifts on 32-bit words, with the few laws the checksum
    proofs use.  Those proofs hide the definitions and argue from the laws. */
module Words {

  function Xor(a: bv32, b: bv32): bv32 {
    a ^ b
  }

  function Shr(a: bv32): bv32 {
    a >> 1
  }

  predicate Odd(a: bv32) {
    a & 1 == 1
  }

  lemma XorAssoc(a: bv32, b: bv32, c: bv32)
    ensures Xor(Xor(a, b), c) == Xor(a, Xor(b, c))
  {
  }

  lemma XorComm(a: bv32, b: bv32)
    ensures Xor(a, b) == Xor(b, a)
  {
  }

  lemma XorSelf(a: bv32)
    ensures Xor(a, a) == 0
  {
  }

  lemma XorZero(a: bv32)
    ensures Xor(a, 0) == a
  {
  }

  lemma ShrXor(a: bv32, b: bv32)
    ensures Shr(Xor(a, b)) == Xor(Shr(a), Shr(b))
  {
    assert (a ^ b) >> 1 == (a >> 1) ^ (b >> 1);
  }

  lemma OddXor(a: bv32, b: bv32)
    ensures Odd(Xor(a, b)) <==> Odd(a) != Odd(b)
  {
  }

  /** The two middle terms of a four-term XOR may change places. */
  lemma XorSwap(a: bv32, b: bv32, c: bv32, d: bv32)
    ensures Xor(Xor(a, b), Xor(c, d)) == Xor(Xor(a, c), Xor(b, d))
  {
    hide Xor;
    XorAssoc(a, b, Xor(c, d));
    XorAssoc(b, c, d);
    XorComm(b, c);
    XorAssoc(c, b, d);
    XorAssoc(a, c, Xor(b, d));
  }

  /** XOR with a fixed word can be undone. */
  lemma XorCancel(a: bv32, b: bv32)
    ensures Xor(Xor(a, b), b) == a
  {
    hide Xor;
    XorAssoc(a, b, b);
    XorSelf(b);
    XorZero(a);
  }

  lemma XorIsZero(a: bv32, b: bv32)
    ensures Xor(a, b) == 0 <==> a == b
  {
    hide Xor;
    XorSelf(b);
    XorCancel(a, b);
    XorComm(0, b);
    XorZero(b);
  }
}
