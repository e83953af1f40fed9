/** The CRC-32 of services/serializer/checksum.c and its copy in
    services/serializer/serializer.c: a table-driven loop, proved equal to the
    bit-serial register of section 3.2.9 of IEEE 802.3 and shown to detect
    every error burst of at most 32 bits. */
module Crc32 {
  import opened Words

  const CRC32_POLY: bv32 := 0xEDB88320
  const ALL_ONES: bv32 := 0xFFFF_FFFF

  // ---- The bit-serial register ----

  /** One shift of the reflected register. */
  function BitStep(c: bv32): bv32 {
    if Odd(c) then Xor(CRC32_POLY, Shr(c)) else Shr(c)
  }

  function BitSteps(c: bv32, n: nat): bv32
    decreases n
  {
    if n == 0 then c else BitSteps(BitStep(c), n - 1)
  }

  function BitWord(b: bool): bv32 {
    if b then 1 else 0
  }

  /** Feeds message bits into the register, one per shift. */
  function FeedBits(c: bv32, bits: seq<bool>): bv32
    decreases |bits|
  {
    if bits == [] then c else FeedBits(BitStep(Xor(c, BitWord(bits[0]))), bits[1..])
  }

  /** The low n bits of a word, least significant first. */
  function WordBits(w: bv32, n: nat): (bits: seq<bool>)
    ensures |bits| == n
    decreases n
  {
    if n == 0 then [] else [Odd(w)] + WordBits(Shr(w), n - 1)
  }

  function Word(b: bv8): bv32 {
    b as bv32
  }

  /** The bits of a message in transmission order. */
  function MessageBits(data: seq<bv8>): (bits: seq<bool>)
    ensures |bits| == 8 * |data|
  {
    if data == [] then [] else WordBits(Word(data[0]), 8) + MessageBits(data[1..])
  }

  /** The reference: preset to ones, shift every bit in, complement. */
  function Reference(data: seq<bv8>): bv32 {
    Xor(FeedBits(ALL_ONES, MessageBits(data)), ALL_ONES)
  }

  // ---- The table-driven form ----

  function TableEntry(b: bv8): bv32 {
    BitSteps(Word(b), 8)
  }

  function LowByte(c: bv32): bv8 {
    (c & 0xFF) as bv8
  }

  function DropByte(c: bv32): bv32 {
    c >> 8
  }

  function HighBytes(c: bv32): bv32 {
    c & 0xFFFF_FF00
  }

  /** One byte through the table. */
  function TableStep(c: bv32, b: bv8): bv32 {
    Xor(TableEntry(LowByte(Xor(c, Word(b)))), DropByte(c))
  }

  function FeedBytes(c: bv32, data: seq<bv8>): bv32
    decreases |data|
  {
    if data == [] then c else FeedBytes(TableStep(c, data[0]), data[1..])
  }

  // ---- The register is linear over XOR ----

  lemma BitStepLinear(a: bv32, b: bv32)
    ensures BitStep(Xor(a, b)) == Xor(BitStep(a), BitStep(b))
  {
    hide Xor, Shr, Odd;
    var p, x, y := CRC32_POLY, Shr(a), Shr(b);
    ShrXor(a, b);
    OddXor(a, b);
    XorSwap(p, x, p, y);
    XorSelf(p);
    XorComm(0, Xor(x, y));
    XorZero(Xor(x, y));
    XorAssoc(p, x, y);
    XorComm(p, x);
    XorAssoc(x, p, y);
  }

  lemma {:induction false} BitStepsLinear(a: bv32, b: bv32, n: nat)
    ensures BitSteps(Xor(a, b), n) == Xor(BitSteps(a, n), BitSteps(b, n))
    decreases n
  {
    hide Xor, BitStep;
    if n > 0 {
      BitStepLinear(a, b);
      BitStepsLinear(BitStep(a), BitStep(b), n - 1);
    }
  }

  // ---- Eight shifts are one table step ----

  lemma {:induction false} BitStepsAdd(c: bv32, m: nat, n: nat)
    ensures BitSteps(c, m + n) == BitSteps(BitSteps(c, m), n)
    decreases m
  {
    hide BitStep;
    if m > 0 {
      BitStepsAdd(BitStep(c), m - 1, n);
    }
  }

  /** While no bit falls out at the low end the register only shifts. */
  predicate Even8(c: bv32, n: nat)
    decreases n
  {
    n == 0 || (!Odd(c) && Even8(Shr(c), n - 1))
  }

  function Shrs(c: bv32, n: nat): bv32
    decreases n
  {
    if n == 0 then c else Shrs(Shr(c), n - 1)
  }

  lemma {:induction false} EvenShifts(c: bv32, n: nat)
    requires Even8(c, n)
    ensures BitSteps(c, n) == Shrs(c, n)
    decreases n
  {
    hide Xor, Shr, Odd;
    if n > 0 {
      EvenShifts(Shr(c), n - 1);
    }
  }

  /** The three high bytes of a word only move down. */
  lemma HighBytesShift(x: bv32)
    ensures BitSteps(HighBytes(x), 8) == DropByte(x)
  {
    var h := HighBytes(x);
    HighBytesFacts(x);
    hide HighBytes, DropByte, Shr, Odd, BitStep;
    HighBytesNibble(h);
    HighBytesNibble(h >> 4);
    Even8Split(h);
    EvenShifts(h, 8);
  }

  lemma HighBytesFacts(x: bv32)
    ensures HighBytes(x) & 0xF == 0 && (HighBytes(x) >> 4) & 0xF == 0
    ensures HighBytes(x) >> 4 >> 4 == DropByte(x)
  {
  }

  lemma Even8Split(h: bv32)
    requires Even8(h, 4) && Even8(Shrs(h, 4), 4)
    ensures Even8(h, 8) && Shrs(h, 8) == Shrs(Shrs(h, 4), 4)
  {
    hide Shr, Odd;
    var h2 := Shr(Shr(h));
    assert Even8(h2, 2) && Shrs(h, 4) == Shrs(h2, 2);
    var h4 := Shr(Shr(h2));
    assert Even8(h2, 6);
    assert Shrs(h, 8) == Shrs(h2, 6) == Shrs(h4, 4);
  }

  lemma HighBytesNibble(h: bv32)
    requires h & 0xF == 0
    ensures Even8(h, 4) && Shrs(h, 4) == h >> 4
  {
    NibbleBits(h);
    NibbleShifts(h);
    hide Odd;
    assert Even8(h >> 2, 2) && Shrs(h >> 2, 2) == h >> 4;
  }

  lemma NibbleBits(h: bv32)
    requires h & 0xF == 0
    ensures !Odd(h) && !Odd(h >> 1) && !Odd(h >> 2) && !Odd(h >> 3)
  {
  }

  lemma NibbleShifts(h: bv32)
    ensures Shr(h) == h >> 1 && Shr(h >> 1) == h >> 2
    ensures Shr(h >> 2) == h >> 3 && Shr(h >> 3) == h >> 4
  {
  }

  lemma SplitWord(x: bv32)
    ensures Xor(Word(LowByte(x)), HighBytes(x)) == x
  {
  }

  lemma DropByteXor(c: bv32, b: bv8)
    ensures DropByte(Xor(c, Word(b))) == DropByte(c)
  {
  }

  /** One table step is eight register shifts of the state XOR the byte. */
  lemma TableStepIsEightShifts(c: bv32, b: bv8)
    ensures TableStep(c, b) == BitSteps(Xor(c, Word(b)), 8)
  {
    hide Xor, Word, LowByte, HighBytes, DropByte, BitStep, BitSteps;
    var x := Xor(c, Word(b));
    SplitWord(x);
    DropByteXor(c, b);
    BitStepsLinear(Word(LowByte(x)), HighBytes(x), 8);
    HighBytesShift(x);
  }

  // ---- Eight message bits are one table step ----

  /** The word has no bit at position n or above. */
  predicate Fits(w: bv32, n: nat)
    decreases n
  {
    if n == 0 then w == 0 else Fits(Shr(w), n - 1)
  }

  function ClearLowBit(w: bv32): bv32 {
    w & 0xFFFF_FFFE
  }

  lemma SplitLowBit(w: bv32)
    ensures Xor(BitWord(Odd(w)), ClearLowBit(w)) == w
    ensures !Odd(ClearLowBit(w)) && Shr(ClearLowBit(w)) == Shr(w)
  {
  }

  /** Bits above the one shifted in can be XORed in after the shift. */
  lemma PeelLowBit(c: bv32, w: bv32)
    ensures BitStep(Xor(c, w)) == Xor(BitStep(Xor(c, BitWord(Odd(w)))), Shr(w))
  {
    hide Xor, Shr, Odd, ClearLowBit, BitWord;
    var bit, rest := BitWord(Odd(w)), ClearLowBit(w);
    SplitLowBit(w);
    XorAssoc(c, bit, rest);
    BitStepLinear(Xor(c, bit), rest);
  }

  lemma {:induction false} FeedWordBits(c: bv32, w: bv32, n: nat)
    requires Fits(w, n)
    ensures FeedBits(c, WordBits(w, n)) == BitSteps(Xor(c, w), n)
    decreases n
  {
    hide Xor, Shr, Odd, BitWord, BitStep;
    if n == 0 {
      XorZero(c);
    } else {
      PeelLowBit(c, w);
      var bits := WordBits(w, n);
      assert bits[0] == Odd(w) && bits[1..] == WordBits(Shr(w), n - 1);
      FeedWordBits(BitStep(Xor(c, BitWord(Odd(w)))), Shr(w), n - 1);
    }
  }

  lemma ByteFits(b: bv8)
    ensures Fits(Word(b), 8)
  {
    var w := Word(b);
    NibbleShifts(w);
    NibbleShifts(w >> 4);
    ByteShiftsOut(w);
    hide Word, Shr;
    assert Fits(w >> 4, 4) by {
      assert Fits(w >> 6, 2);
    }
    assert Fits(w >> 2, 6);
  }

  lemma ByteShiftsOut(w: bv32)
    requires w < 256
    ensures w >> 8 == 0
    ensures w >> 4 >> 1 == w >> 5 && w >> 4 >> 2 == w >> 6 && w >> 4 >> 3 == w >> 7 && w >> 4 >> 4 == w >> 8
  {
  }

  lemma {:induction false} FeedAppend(c: bv32, s: seq<bool>, t: seq<bool>)
    ensures FeedBits(c, s + t) == FeedBits(FeedBits(c, s), t)
    decreases |s|
  {
    hide Xor, BitWord, BitStep;
    if s == [] {
      assert s + t == t;
    } else {
      assert (s + t)[1..] == s[1..] + t;
      FeedAppend(BitStep(Xor(c, BitWord(s[0]))), s[1..], t);
    }
  }

  /** The table form and the bit-serial register agree on every byte string. */
  lemma {:induction false} TableIsBitSerial(c: bv32, data: seq<bv8>)
    ensures FeedBytes(c, data) == FeedBits(c, MessageBits(data))
    decreases |data|
  {
    hide Xor, Word, TableStep, BitStep, BitSteps, Fits, WordBits;
    if data != [] {
      var w := Word(data[0]);
      FeedAppend(c, WordBits(w, 8), MessageBits(data[1..]));
      ByteFits(data[0]);
      FeedWordBits(c, w, 8);
      TableStepIsEightShifts(c, data[0]);
      TableIsBitSerial(TableStep(c, data[0]), data[1..]);
    }
  }

  // ---- Burst detection ----

  /** The error pattern between two bit strings. */
  function ErrorBits(s: seq<bool>, t: seq<bool>): (e: seq<bool>)
    requires |s| == |t|
    ensures |e| == |s|
  {
    seq(|s|, i requires 0 <= i < |s| => s[i] != t[i])
  }

  lemma BitWordXor(a: bool, b: bool)
    ensures Xor(BitWord(a), BitWord(b)) == BitWord(a != b)
  {
  }

  /** The difference of two registers evolves by the error pattern alone. */
  lemma {:induction false} DifferenceEvolves(c: bv32, d: bv32, s: seq<bool>, t: seq<bool>)
    requires |s| == |t|
    ensures Xor(FeedBits(c, s), FeedBits(d, t)) == FeedBits(Xor(c, d), ErrorBits(s, t))
    decreases |s|
  {
    hide Xor, BitWord, BitStep, FeedBits, ErrorBits;
    if s == [] {
      FeedNothing(c, d);
      NoErrors();
    } else {
      var c', d' := Xor(c, BitWord(s[0])), Xor(d, BitWord(t[0]));
      var e := ErrorBits(s, t);
      FeedCons(c, s);
      FeedCons(d, t);
      FeedCons(Xor(c, d), e);
      ErrorCons(s, t);
      XorSwap(c, BitWord(s[0]), d, BitWord(t[0]));
      BitWordXor(s[0], t[0]);
      BitStepLinear(c', d');
      DifferenceEvolves(BitStep(c'), BitStep(d'), s[1..], t[1..]);
    }
  }

  lemma FeedCons(c: bv32, bits: seq<bool>)
    requires bits != []
    ensures FeedBits(c, bits) == FeedBits(BitStep(Xor(c, BitWord(bits[0]))), bits[1..])
  {
    hide Xor, BitWord, BitStep;
  }

  lemma FeedNothing(c: bv32, d: bv32)
    ensures FeedBits(c, []) == c && FeedBits(d, []) == d && FeedBits(Xor(c, d), []) == Xor(c, d)
  {
    hide Xor;
  }

  lemma NoErrors()
    ensures ErrorBits([], []) == []
  {
  }

  lemma ErrorCons(s: seq<bool>, t: seq<bool>)
    requires |s| == |t| && s != []
    ensures ErrorBits(s, t) != [] && ErrorBits(s, t)[0] == (s[0] != t[0])
    ensures ErrorBits(s, t)[1..] == ErrorBits(s[1..], t[1..])
  {
  }

  lemma BitStepNonzero(c: bv32)
    requires c != 0
    ensures BitStep(c) != 0
  {
  }

  lemma BitStepZero()
    ensures BitStep(0) == 0 && BitWord(false) == 0
  {
  }

  /** A run without errors keeps a zero difference zero and a nonzero one nonzero. */
  lemma {:induction false} QuietRun(d: bv32, e: seq<bool>)
    requires forall i | 0 <= i < |e| :: !e[i]
    ensures FeedBits(d, e) == 0 <==> d == 0
    decreases |e|
  {
    hide Xor, BitStep, BitWord;
    if e != [] {
      BitStepZero();
      XorZero(d);
      if d != 0 {
        BitStepNonzero(d);
      }
      QuietRun(BitStep(d), e[1..]);
    }
  }

  predicate BitAt(w: bv32, p: nat)
    decreases p
  {
    if p == 0 then Odd(w) else BitAt(Shr(w), p - 1)
  }

  function DropNibble(w: bv32): bv32 {
    w >> 4
  }

  lemma BitAtDropNibble(w: bv32, p: nat)
    ensures BitAt(w, p + 4) <==> BitAt(DropNibble(w), p)
  {
    NibbleShifts(w);
    hide Odd, Shr;
    assert BitAt(w, p + 4) <==> BitAt(w >> 1, p + 3);
    assert BitAt(w >> 1, p + 3) <==> BitAt(w >> 2, p + 2);
    assert BitAt(w >> 2, p + 2) <==> BitAt(w >> 3, p + 1);
  }

  predicate TopBit(w: bv32) {
    w & 0x8000_0000 != 0
  }

  function DropNibbles(w: bv32, n: nat): bv32 {
    if n == 0 then w else DropNibble(DropNibbles(w, n - 1))
  }

  lemma {:induction false} BitAtDropNibbles(w: bv32, n: nat, p: nat)
    ensures BitAt(w, p + 4 * n) <==> BitAt(DropNibbles(w, n), p)
  {
    hide Odd, Shr, DropNibble;
    if n > 0 {
      BitAtDropNibbles(w, n - 1, p + 4);
      BitAtDropNibble(DropNibbles(w, n - 1), p);
    }
  }

  lemma SevenNibbles(w: bv32)
    ensures DropNibbles(w, 7) == w >> 28
  {
    assert DropNibbles(w, 1) == w >> 4;
    assert DropNibbles(w, 2) == w >> 8;
    assert DropNibbles(w, 3) == w >> 12;
    assert DropNibbles(w, 4) == w >> 16;
    assert DropNibbles(w, 5) == w >> 20;
    assert DropNibbles(w, 6) == w >> 24;
  }

  lemma TopBitIsBit31(w: bv32)
    requires TopBit(w)
    ensures BitAt(w, 31)
  {
    var t := w >> 28;
    SevenNibbles(w);
    NibbleShifts(t);
    assert Odd(t >> 3);
    hide Odd, Shr, TopBit, DropNibbles;
    BitAtDropNibbles(w, 7, 3);
    assert BitAt(t, 3) <==> BitAt(t >> 1, 2);
    assert BitAt(t >> 1, 2) <==> BitAt(t >> 2, 1);
    assert BitAt(t >> 2, 1) <==> BitAt(t >> 3, 0);
  }

  lemma ZeroWord()
    ensures Shr(0) == 0 && !Odd(0)
  {
  }

  lemma {:induction false} FitsExcludes(w: bv32, n: nat, p: nat)
    requires Fits(w, n) && BitAt(w, p)
    ensures p < n
    decreases p
  {
    ZeroWord();
    hide Shr, Odd;
    if n == 0 {
      if p > 0 {
        FitsExcludes(Shr(w), 0, p - 1);
      }
    } else if p > 0 {
      FitsExcludes(Shr(w), n - 1, p - 1);
    }
  }

  /** An odd register takes the polynomial's top bit when it shifts. */
  lemma OddStepSetsTop(x: bv32)
    requires Odd(x)
    ensures TopBit(BitStep(x))
  {
  }

  lemma ShrIgnoresLowBit(d: bv32, b: bool)
    ensures Shr(Xor(d, BitWord(b))) == Shr(d)
  {
  }

  /** A difference that m <= 31 further bits can cancel lies in the low m bits. */
  lemma {:induction false} CancelledDifferenceFits(d: bv32, e: seq<bool>)
    requires |e| <= 31 && FeedBits(d, e) == 0
    ensures Fits(d, |e|)
    decreases |e|
  {
    hide Xor, Shr, Odd, BitWord, TopBit, BitAt, CRC32_POLY;
    if e != [] {
      var x := Xor(d, BitWord(e[0]));
      CancelledDifferenceFits(BitStep(x), e[1..]);
      ShrIgnoresLowBit(d, e[0]);
      if Odd(x) {
        OddStepSetsTop(x);
        TopBitIsBit31(BitStep(x));
        FitsExcludes(BitStep(x), |e| - 1, 31);
      }
    }
  }

  lemma OneIsOdd()
    ensures Odd(Xor(0, BitWord(true)))
  {
  }

  /** From a zero difference, no error pattern of at most 32 bits cancels out. */
  lemma {:induction false} ShortPatternSurvives(e: seq<bool>, k: nat)
    requires |e| <= 32 && k < |e| && e[k]
    ensures FeedBits(0, e) != 0
    decreases |e|
  {
    hide Xor, Shr, Odd, BitStep, BitWord, TopBit, BitAt, Fits;
    var x := Xor(0, BitWord(e[0]));
    if e[0] {
      if FeedBits(BitStep(x), e[1..]) == 0 {
        OneIsOdd();
        OddStepSetsTop(x);
        TopBitIsBit31(BitStep(x));
        CancelledDifferenceFits(BitStep(x), e[1..]);
        FitsExcludes(BitStep(x), |e| - 1, 31);
      }
    } else {
      BitStepZero();
      XorZero(0);
      ShortPatternSurvives(e[1..], k - 1);
    }
  }

  lemma BurstSurvives(e: seq<bool>, at: nat, k: nat)
    requires k < |e| && e[k]
    requires forall i | 0 <= i < |e| && e[i] :: at <= i < at + 32
    ensures FeedBits(0, e) != 0
  {
    hide FeedBits;
    var hi := if at + 32 <= |e| then at + 32 else |e|;
    var quiet, burst, rest := e[..at], e[at..hi], e[hi..];
    assert e == quiet + (burst + rest);
    FeedAppend(0, quiet, burst + rest);
    QuietRun(0, quiet);
    FeedAppend(0, burst, rest);
    ShortPatternSurvives(burst, k - at);
    QuietRun(FeedBits(0, burst), rest);
  }

  /** Two messages of one length whose bits differ only inside 32 consecutive
      positions have different checksums. */
  lemma BurstDetected(a: seq<bv8>, b: seq<bv8>, at: nat)
    requires |a| == |b| && MessageBits(a) != MessageBits(b)
    requires forall i | 0 <= i < 8 * |a| && MessageBits(a)[i] != MessageBits(b)[i] :: at <= i < at + 32
    ensures Reference(a) != Reference(b)
  {
    hide Xor, FeedBits, MessageBits;
    var s, t := MessageBits(a), MessageBits(b);
    var k :| 0 <= k < |s| && s[k] != t[k];
    BurstSurvives(ErrorBits(s, t), at, k);
    DifferenceEvolves(ALL_ONES, ALL_ONES, s, t);
    XorSelf(ALL_ONES);
    XorIsZero(FeedBits(ALL_ONES, s), FeedBits(ALL_ONES, t));
    XorCancel(FeedBits(ALL_ONES, s), ALL_ONES);
    XorCancel(FeedBits(ALL_ONES, t), ALL_ONES);
  }

  // ---- Whole bytes ----

  lemma LowBitAndRest(a: bv32, b: bv32)
    requires Odd(a) == Odd(b) && Shr(a) == Shr(b)
    ensures a == b
  {
  }

  lemma {:induction false} WordBitsDetermine(a: bv32, b: bv32, n: nat)
    requires Fits(a, n) && Fits(b, n) && WordBits(a, n) == WordBits(b, n)
    ensures a == b
    decreases n
  {
    hide Odd, Shr;
    if n > 0 {
      var s, t := WordBits(a, n), WordBits(b, n);
      assert s[0] == Odd(a) && t[0] == Odd(b);
      assert s[1..] == WordBits(Shr(a), n - 1) && t[1..] == WordBits(Shr(b), n - 1);
      WordBitsDetermine(Shr(a), Shr(b), n - 1);
      LowBitAndRest(a, b);
    }
  }

  lemma WordInjective(a: bv8, b: bv8)
    requires Word(a) == Word(b)
    ensures a == b
  {
  }

  lemma {:induction false} MessageBitsAt(data: seq<bv8>, k: nat)
    requires k < |data|
    ensures MessageBits(data)[8 * k..8 * k + 8] == WordBits(Word(data[k]), 8)
    decreases |data|
  {
    hide WordBits, Word;
    if k > 0 {
      MessageBitsAt(data[1..], k - 1);
      var m := MessageBits(data);
      assert m[8..] == MessageBits(data[1..]);
      assert m[8 * k..8 * k + 8] == m[8..][8 * (k - 1)..8 * (k - 1) + 8];
    }
  }

  /** Different messages have different bits, and where the bytes agree so do the bits. */
  lemma BitsFollowBytes(a: seq<bv8>, b: seq<bv8>, k: nat)
    requires |a| == |b| && k < |a|
    ensures a[k] == b[k] <==> MessageBits(a)[8 * k..8 * k + 8] == MessageBits(b)[8 * k..8 * k + 8]
  {
    hide WordBits, MessageBits, Word, Fits;
    MessageBitsAt(a, k);
    MessageBitsAt(b, k);
    if WordBits(Word(a[k]), 8) == WordBits(Word(b[k]), 8) {
      ByteFits(a[k]);
      ByteFits(b[k]);
      WordBitsDetermine(Word(a[k]), Word(b[k]), 8);
      WordInjective(a[k], b[k]);
    }
  }

  /** Two buffers of one length that differ, but only inside four consecutive
      bytes, have different checksums. */
  lemma FourByteBurstDetected(a: seq<bv8>, b: seq<bv8>, at: nat)
    requires |a| == |b| && a != b
    requires forall k | 0 <= k < |a| && a[k] != b[k] :: at <= k < at + 4
    ensures Reference(a) != Reference(b)
  {
    hide MessageBits, Reference;
    var s, t := MessageBits(a), MessageBits(b);
    var k :| 0 <= k < |a| && a[k] != b[k];
    BitsFollowBytes(a, b, k);
    forall i | 0 <= i < |s| && s[i] != t[i]
      ensures 8 * at <= i < 8 * at + 32
    {
      var m := i / 8;
      BitsFollowBytes(a, b, m);
      assert s[i] == s[8 * m..8 * m + 8][i - 8 * m];
      assert t[i] == t[8 * m..8 * m + 8][i - 8 * m];
    }
    BurstDetected(a, b, 8 * at);
  }

  /** The early return of one copy is what the other computes for no bytes. */
  lemma EmptyReference()
    ensures Reference([]) == 0
  {
    XorSelf(ALL_ONES);
  }
}
