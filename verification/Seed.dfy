/** The FNV-1a hash of services/serializer/checksum.c and the seed arithmetic of
    services/shuffle/src/Seed.hs. */
module Seed {
  import opened UInt32

  const FNV_OFFSET: u32 := 0x811C9DC5
  const FNV_PRIME: nat := 0x01000193
  const FNV_PRIME_INVERSE: nat := 0x359C449B
  const SPREAD: nat := 0x85EBCA6B
  const SPREAD_INVERSE: nat := 0xA5CB9243
  const STIR: u32 := 0x9E3779B9

  // ---- FNV-1a ----

  function FnvStep(hash: u32, b: u32): u32 {
    Times(Xor(hash, b), FNV_PRIME)
  }

  /** seedFromBytes: a left fold that keeps the low eight bits of each word. */
  function SeedFromBytes(words: seq<u32>): u32 {
    FoldWords(FNV_OFFSET, words)
  }

  function FoldWords(acc: u32, words: seq<u32>): u32
    decreases |words|
  {
    if words == [] then acc else FoldWords(FnvStep(acc, words[0] % 256), words[1..])
  }

  function Word(b: bv8): u32 {
    b as int
  }

  function WordsOf(data: seq<bv8>): (words: seq<u32>)
    ensures |words| == |data|
    ensures forall i | 0 <= i < |data| :: words[i] == Word(data[i]) && words[i] % 256 == words[i]
  {
    seq(|data|, i requires 0 <= i < |data| => Word(data[i]))
  }

  /** checksum_fnv1a: the C loop computes what the Haskell fold does, and the
      early return of the null or empty buffer is the fold of no bytes. */
  method ChecksumFnv1a(data: array?<bv8>, len: nat) returns (hash: u32)
    requires data != null ==> len <= data.Length
    ensures hash == SeedFromBytes(if data == null then [] else WordsOf(data[..len]))
  {
    hide Xor, Times;
    if data == null || len == 0 {
      return FNV_OFFSET;
    }
    ghost var words := WordsOf(data[..len]);
    hash := FNV_OFFSET;
    for i := 0 to len
      invariant FoldWords(hash, words[i..]) == SeedFromBytes(words)
    {
      assert words[i..][1..] == words[i + 1..];
      hash := Xor(hash, data[i] as int);
      hash := Times(hash, FNV_PRIME);
    }
  }

  lemma PrimeHasInverse()
    ensures FNV_PRIME * FNV_PRIME_INVERSE % MOD == 1 && FNV_PRIME_INVERSE * FNV_PRIME % MOD == 1
    ensures SPREAD * SPREAD_INVERSE % MOD == 1 && SPREAD_INVERSE * SPREAD % MOD == 1
  {
  }

  lemma FnvStepInjective(g: u32, h: u32, b: u32, c: u32)
    requires FnvStep(g, b) == FnvStep(h, c)
    ensures g == h <==> b == c
  {
    hide Xor, Times;
    PrimeHasInverse();
    TimesInverse(Xor(g, b), FNV_PRIME, FNV_PRIME_INVERSE);
    TimesInverse(Xor(h, c), FNV_PRIME, FNV_PRIME_INVERSE);
    if g == h {
      XorInjective(b, c, g);
    } else if b == c {
      XorInjective(g, h, b);
    }
  }

  lemma {:induction false} FoldInjective(g: u32, h: u32, words: seq<u32>)
    requires g != h
    ensures FoldWords(g, words) != FoldWords(h, words)
    decreases |words|
  {
    hide FnvStep;
    if words != [] {
      if FnvStep(g, words[0] % 256) == FnvStep(h, words[0] % 256) {
        FnvStepInjective(g, h, words[0] % 256, words[0] % 256);
      }
      FoldInjective(FnvStep(g, words[0] % 256), FnvStep(h, words[0] % 256), words[1..]);
    }
  }

  lemma {:induction false} FoldSubstitution(acc: u32, s: seq<u32>, t: seq<u32>, k: nat)
    requires k < |s| == |t| && s[k] % 256 != t[k] % 256
    requires forall i | 0 <= i < |s| && i != k :: s[i] == t[i]
    ensures FoldWords(acc, s) != FoldWords(acc, t)
    decreases |s|
  {
    hide FnvStep;
    var b, c := s[0] % 256, t[0] % 256;
    if k == 0 {
      assert s[1..] == t[1..];
      if FnvStep(acc, b) == FnvStep(acc, c) {
        FnvStepInjective(acc, acc, b, c);
      }
      FoldInjective(FnvStep(acc, b), FnvStep(acc, c), s[1..]);
    } else {
      FoldSubstitution(FnvStep(acc, b), s[1..], t[1..], k - 1);
    }
  }

  /** Substituting one byte always changes the FNV-1a value. */
  lemma ByteSubstitutionChangesHash(a: seq<bv8>, b: seq<bv8>, k: nat)
    requires k < |a| == |b| && a[k] != b[k]
    requires forall i | 0 <= i < |a| && i != k :: a[i] == b[i]
    ensures SeedFromBytes(WordsOf(a)) != SeedFromBytes(WordsOf(b))
  {
    hide FoldWords;
    if WordsOf(a)[k] == WordsOf(b)[k] {
      WordInjective(a[k], b[k]);
    }
    FoldSubstitution(FNV_OFFSET, WordsOf(a), WordsOf(b), k);
  }

  lemma {:induction false} FoldSnoc(acc: u32, words: seq<u32>, w: u32)
    ensures FoldWords(acc, words + [w]) == FnvStep(FoldWords(acc, words), w % 256)
    decreases |words|
  {
    hide FnvStep;
    if words == [] {
      assert ([] + [w])[1..] == [];
    } else {
      FoldSnoc(FnvStep(acc, words[0] % 256), words[1..], w);
      assert (words + [w])[1..] == words[1..] + [w];
    }
  }

  /** One more byte can be taken off again: undoing the multiplication leaves the hash before, with
      the byte's bits in it. So the byte goes in first and the multiplication comes after. */
  lemma LastByteUndone(words: seq<u32>, w: u32)
    ensures Times(SeedFromBytes(words + [w]), FNV_PRIME_INVERSE) == Xor(SeedFromBytes(words), w % 256)
    ensures Xor(Times(SeedFromBytes(words + [w]), FNV_PRIME_INVERSE), w % 256) == SeedFromBytes(words)
  {
    hide Xor, Times, FoldWords;
    FoldSnoc(FNV_OFFSET, words, w);
    PrimeHasInverse();
    TimesInverse(Xor(SeedFromBytes(words), w % 256), FNV_PRIME, FNV_PRIME_INVERSE);
    XorCancel(SeedFromBytes(words), w % 256);
  }

  /** Published values of 32-bit FNV-1a: of no bytes and of the letter a. */
  lemma FnvValues()
    ensures SeedFromBytes([]) == 0x811C9DC5 && SeedFromBytes([0x61]) == 0xE40C292C
  {
    OffsetWithLetter();
    hide Xor;
    assert FoldWords(FNV_OFFSET, [0x61]) == FnvStep(FNV_OFFSET, 0x61);
  }

  lemma OffsetWithLetter()
    ensures Xor(FNV_OFFSET, 0x61) == 0x811C9DA4
  {
    Powers();
    hide XorLow, Pow2;
    LowBit(0x811C9DC5, 0x61, 32);
    LowBit(0x408E4EE2, 0x30, 31);
    LowBit(0x20472771, 0x18, 30);
    LowBit(0x102393B8, 0xC, 29);
    LowBit(0x811C9DC, 0x6, 28);
    LowBit(0x408E4EE, 0x3, 27);
    LowBit(0x2047277, 0x1, 26);
    XorLowZero(0x102393B, 25);
  }

  lemma Powers()
    ensures Pow2(25) == 0x200_0000 && Pow2(31) == 0x8000_0000
  {
    assert Pow2(8) == 0x100;
    assert Pow2(16) == 0x1_0000;
    assert Pow2(24) == 0x100_0000;
  }

  lemma LowBit(a: nat, b: nat, n: nat)
    requires n > 0
    ensures XorLow(a, b, n) == (a % 2 + b % 2) % 2 + 2 * XorLow(a / 2, b / 2, n - 1)
  {
  }

  /** Two values of mixSeed: a lone low bit, from either argument, is smeared before the product. */
  lemma MixValues()
    ensures MixSeed(1, 0) == MixSeed(0, 0xA5CB9243) == 0x01326193
  {
    LowBitSmeared();
    hide Xor;
    XorZero(1);
    XorComm(0, 1);
  }

  lemma LowBitSmeared()
    ensures Xor(1, 0x2000) == 0x2001
  {
    Powers();
    hide XorLow, Pow2;
    LowBit(1, 0x2000, 32);
    XorLowComm(0, 0x1000, 31);
    XorLowZero(0x1000, 31);
  }

  lemma WordInjective(a: bv8, b: bv8)
    requires Word(a) == Word(b)
    ensures a == b
  {
  }

  // ---- mixSeed and chunkedSeed ----

  function Smear(x: u32): u32 {
    Xor(x, Shl13(x))
  }

  function Unsmear(y: u32): u32 {
    Xor(Xor(y, Shl13(y)), Shl13(Shl13(y)))
  }

  function MixSeed(a: u32, b: u32): u32 {
    Times(Smear(Xor(a, Times(b, SPREAD))), FNV_PRIME)
  }

  /** The first argument that mixes with b to give m. */
  function UnmixFirst(m: u32, b: u32): u32 {
    Xor(Unsmear(Times(m, FNV_PRIME_INVERSE)), Times(b, SPREAD))
  }

  /** The second argument that mixes with a to give m. */
  function UnmixSecond(m: u32, a: u32): u32 {
    Times(Xor(Unsmear(Times(m, FNV_PRIME_INVERSE)), a), SPREAD_INVERSE)
  }

  /** XOR of the six terms of a double smear leaves x and x shifted by 39. */
  lemma SmearTelescopes(x: u32, s: u32, t: u32, r: u32)
    ensures Xor(Xor(Xor(x, s), Xor(s, t)), Xor(t, r)) == Xor(x, r)
  {
    hide Xor;
    XorAssoc(Xor(x, s), s, t);
    XorCancel(x, s);
    XorAssoc(Xor(x, t), t, r);
    XorCancel(x, t);
  }

  lemma SmearInverse(x: u32)
    ensures Unsmear(Smear(x)) == x && Smear(Unsmear(x)) == x
  {
    hide Xor, Shl13;
    var s, t, r := Shl13(x), Shl13(Shl13(x)), Shl13(Shl13(Shl13(x)));
    Shl13Linear(x, s);
    Shl13Linear(s, t);
    Shl13Linear(Xor(x, s), t);
    SmearTelescopes(x, s, t, r);
    Shl13Thrice(x);
    XorZero(x);
    // the other order: (x + s + t) + (s + t + r)
    XorAssoc(s, t, r);
    XorAssoc(x, s, t);
    XorComm(x, Xor(s, t));
    XorComm(Xor(s, t), r);
    UnsmearTelescopes(x, Xor(s, t), r);
  }

  lemma UnsmearTelescopes(x: u32, m: u32, r: u32)
    ensures Xor(Xor(x, m), Xor(m, r)) == Xor(x, r)
  {
    hide Xor;
    XorAssoc(Xor(x, m), m, r);
    XorCancel(x, m);
  }

  /** mixSeed is a bijection in its first argument, with UnmixFirst its inverse. */
  lemma MixSeedFirstBijective(a: u32, b: u32, m: u32)
    ensures MixSeed(a, b) == m <==> a == UnmixFirst(m, b)
  {
    hide Xor, Times, Smear, Unsmear;
    var k := Times(b, SPREAD);
    PrimeHasInverse();
    TimesInverse(Smear(Xor(a, k)), FNV_PRIME, FNV_PRIME_INVERSE);
    TimesInverse(m, FNV_PRIME_INVERSE, FNV_PRIME);
    SmearInverse(Xor(a, k));
    SmearInverse(Times(m, FNV_PRIME_INVERSE));
    XorCancel(a, k);
    XorCancel(Unsmear(Times(m, FNV_PRIME_INVERSE)), k);
  }

  /** mixSeed is a bijection in its second argument, with UnmixSecond its inverse. */
  lemma MixSeedSecondBijective(a: u32, b: u32, m: u32)
    ensures MixSeed(a, b) == m <==> b == UnmixSecond(m, a)
  {
    hide Xor, Times, Smear, Unsmear;
    var k := Times(b, SPREAD);
    var x := Unsmear(Times(m, FNV_PRIME_INVERSE));
    PrimeHasInverse();
    MixSeedFirstBijective(a, b, m);
    TimesInverse(b, SPREAD, SPREAD_INVERSE);
    TimesInverse(Xor(x, a), SPREAD_INVERSE, SPREAD);
    XorCancel(x, k);
    XorCancel(x, a);
    XorComm(x, k);
    XorComm(x, a);
    XorCancel(k, x);
    XorCancel(a, x);
  }

  function Stir(s: u32): u32 {
    MixSeed(s, STIR)
  }

  function StirTimes(base: u32, k: nat): u32 {
    if k == 0 then base else Stir(StirTimes(base, k - 1))
  }

  lemma {:induction false} StirFirst(base: u32, k: nat)
    ensures StirTimes(Stir(base), k) == StirTimes(base, k + 1)
  {
    hide Stir;
    if k > 0 {
      StirFirst(base, k - 1);
    }
  }

  /** The k-th sub-seed is the base stirred k times. */
  lemma {:induction false} ChunkedSeedAt(base: u32, n: int, k: nat)
    requires k < n
    ensures ChunkedSeed(base, n)[k] == StirTimes(base, k)
    decreases k
  {
    hide Stir;
    if k > 0 {
      ChunkedSeedAt(Stir(base), n - 1, k - 1);
      StirFirst(base, k - 1);
    }
  }

  /** chunkedSeed: the first n values of iterating Stir. */
  function ChunkedSeed(base: u32, n: int): (seeds: seq<u32>)
    ensures |seeds| == if n <= 0 then 0 else n
    decreases if n <= 0 then 0 else n
  {
    if n <= 0 then [] else [base] + ChunkedSeed(Stir(base), n - 1)
  }

  lemma StirInjective(a: u32, b: u32)
    requires a != b
    ensures Stir(a) != Stir(b)
  {
    hide MixSeed, UnmixFirst;
    MixSeedFirstBijective(a, STIR, Stir(a));
    MixSeedFirstBijective(b, STIR, Stir(a));
  }

  /** Distinct bases keep distinct k-th sub-seeds, for every k. */
  lemma {:induction false} SubSeedsDistinct(a: u32, b: u32, n: int, k: nat)
    requires a != b && k < n
    ensures ChunkedSeed(a, n)[k] != ChunkedSeed(b, n)[k]
    decreases k
  {
    hide Stir;
    if k > 0 {
      StirInjective(a, b);
      SubSeedsDistinct(Stir(a), Stir(b), n - 1, k - 1);
    }
  }
}
