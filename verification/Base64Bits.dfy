/** Section 4 of RFC 4648 as it is written: the octets are one string of bits, most significant
    first, and every six bits of it pick a character of the alphabet. */
module Base64Bits {
  import opened Base64
  import opened BitBytes
  import opened BitStream
  import opened Bytes

  const A_TO_M := "ABCDEFGHIJKLM"
  const N_TO_Z := "NOPQRSTUVWXYZ"
  const LOWER_A_TO_M := "abcdefghijklm"
  const LOWER_N_TO_Z := "nopqrstuvwxyz"
  const DIGITS := "0123456789"

  /** The alphabet, as tables 1 and 2 of RFC 4648 list it. */
  function Characters(alphabet: Alphabet): (s: string)
    ensures |s| == 64
  {
    A_TO_M + N_TO_Z + LOWER_A_TO_M + LOWER_N_TO_Z + DIGITS + if alphabet == Standard then "+/" else "-_"
  }

  /** The first n characters follow each other from the given code on. */
  predicate Follow(text: string, code: nat, n: nat)
    requires n <= |text| && code + n < 256
  {
    n == 0 || (text[n - 1] == (code + n - 1) as char && Follow(text, code, n - 1))
  }

  lemma {:induction false} FollowAt(text: string, code: nat, n: nat, v: nat)
    requires v < n <= |text| && code + n < 256 && Follow(text, code, n)
    ensures text[v] == (code + v) as char
  {
    if v < n - 1 {
      FollowAt(text, code, n - 1, v);
    }
  }

  lemma UpperFollows()
    ensures Follow(A_TO_M, 65, 13)
  {
    assert Follow(A_TO_M, 65, 4);
    assert Follow(A_TO_M, 65, 8);
  }

  lemma UpperEnds()
    ensures Follow(N_TO_Z, 78, 13)
  {
    assert Follow(N_TO_Z, 78, 4);
    assert Follow(N_TO_Z, 78, 8);
  }

  lemma LowerFollows()
    ensures Follow(LOWER_A_TO_M, 97, 13)
  {
    assert Follow(LOWER_A_TO_M, 97, 4);
    assert Follow(LOWER_A_TO_M, 97, 8);
  }

  lemma LowerEnds()
    ensures Follow(LOWER_N_TO_Z, 110, 13)
  {
    assert Follow(LOWER_N_TO_Z, 110, 4);
    assert Follow(LOWER_N_TO_Z, 110, 8);
  }

  lemma DigitsFollow()
    ensures Follow(DIGITS, 48, 10)
  {
    assert Follow(DIGITS, 48, 4);
    assert Follow(DIGITS, 48, 8);
  }

  /** The letters computed from the ranges are those listed. */
  lemma LetterIsListed(alphabet: Alphabet, v: nat)
    requires v < 64
    ensures Letter(alphabet, v) == Characters(alphabet)[v]
  {
    hide Follow;
    if v < 13 {
      UpperFollows();
      FollowAt(A_TO_M, 65, 13, v);
    } else if v < 26 {
      UpperEnds();
      FollowAt(N_TO_Z, 78, 13, v - 13);
    } else if v < 39 {
      LowerFollows();
      FollowAt(LOWER_A_TO_M, 97, 13, v - 26);
    } else if v < 52 {
      LowerEnds();
      FollowAt(LOWER_N_TO_Z, 110, 13, v - 39);
    } else if v < 62 {
      DigitsFollow();
      FollowAt(DIGITS, 48, 10, v - 52);
    }
  }

  // ---- Six bits and their number ----

  function Six(f: bool, e: bool, d: bool, c: bool, b: bool, a: bool): int {
    Then(Then(Then(Then(Then(Then(0, f), e), d), c), b), a)
  }

  lemma SextetNumber(s: seq<bool>)
    requires |s| == 6
    ensures NumberOf(s) == Six(s[0], s[1], s[2], s[3], s[4], s[5])
  {
    hide NumberOf, Then;
    NoBits(s);
    NextBit(s, 0);
    NextBit(s, 1);
    NextBit(s, 2);
    NextBit(s, 3);
    NextBit(s, 4);
    NextBit(s, 5);
    assert s[..6] == s;
  }

  lemma Sextet0Spelled(a: bv8)
    ensures Val(Sextet0(a)) == Six(BitOf(a, 7), BitOf(a, 6), BitOf(a, 5), BitOf(a, 4), BitOf(a, 3), BitOf(a, 2))
  {
    hide BitOf;
    BitsOfByte(a);
  }

  lemma Sextet1Spelled(a: bv8, b: bv8)
    ensures Val(Sextet1(a, b)) == Six(BitOf(a, 1), BitOf(a, 0), BitOf(b, 7), BitOf(b, 6), BitOf(b, 5), BitOf(b, 4))
  {
    hide BitOf;
    BitsOfByte(a);
    BitsOfByte(b);
  }

  lemma Sextet2Spelled(b: bv8, c: bv8)
    ensures Val(Sextet2(b, c)) == Six(BitOf(b, 3), BitOf(b, 2), BitOf(b, 1), BitOf(b, 0), BitOf(c, 7), BitOf(c, 6))
  {
    hide BitOf;
    BitsOfByte(b);
    BitsOfByte(c);
  }

  lemma Sextet3Spelled(c: bv8)
    ensures Val(Sextet3(c)) == Six(BitOf(c, 5), BitOf(c, 4), BitOf(c, 3), BitOf(c, 2), BitOf(c, 1), BitOf(c, 0))
  {
    hide BitOf;
    BitsOfByte(c);
  }

  lemma SixBits(d: seq<bv8>, p: nat)
    requires p + 6 <= 8 * |d|
    ensures NumberOf(BufferBits(d)[p..p + 6]) ==
            Six(BitAt(d, p), BitAt(d, p + 1), BitAt(d, p + 2), BitAt(d, p + 3), BitAt(d, p + 4), BitAt(d, p + 5))
  {
    hide NumberOf, Six, BitAt;
    var s := BufferBits(d)[p..p + 6];
    assert s[0] == BitAt(d, p) && s[1] == BitAt(d, p + 1) && s[2] == BitAt(d, p + 2);
    assert s[3] == BitAt(d, p + 3) && s[4] == BitAt(d, p + 4) && s[5] == BitAt(d, p + 5);
    hide BufferBits;
    SextetNumber(s);
  }

  lemma BitsOfOctet(d: seq<bv8>, k: nat)
    requires k < |d|
    ensures BitAt(d, 8 * k) == BitOf(d[k], 7) && BitAt(d, 8 * k + 1) == BitOf(d[k], 6)
    ensures BitAt(d, 8 * k + 2) == BitOf(d[k], 5) && BitAt(d, 8 * k + 3) == BitOf(d[k], 4)
    ensures BitAt(d, 8 * k + 4) == BitOf(d[k], 3) && BitAt(d, 8 * k + 5) == BitOf(d[k], 2)
    ensures BitAt(d, 8 * k + 6) == BitOf(d[k], 1) && BitAt(d, 8 * k + 7) == BitOf(d[k], 0)
  {
    hide BitOf;
  }

  lemma GroupStart(d: seq<bv8>)
    requires |d| >= 3
    ensures NumberOf(BufferBits(d)[0..6]) == Val(Sextet0(d[0]))
    ensures NumberOf(BufferBits(d)[6..12]) == Val(Sextet1(d[0], d[1]))
  {
    hide NumberOf, BufferBits, BitOf, Six, BitAt, Sextet0, Sextet1, Val;
    BitsOfOctet(d, 0);
    BitsOfOctet(d, 1);
    SixBits(d, 0);
    SixBits(d, 6);
    Sextet0Spelled(d[0]);
    Sextet1Spelled(d[0], d[1]);
  }

  lemma GroupEnd(d: seq<bv8>)
    requires |d| >= 3
    ensures NumberOf(BufferBits(d)[12..18]) == Val(Sextet2(d[1], d[2]))
    ensures NumberOf(BufferBits(d)[18..24]) == Val(Sextet3(d[2]))
  {
    hide NumberOf, BufferBits, BitOf, Six, BitAt, Sextet2, Sextet3, Val;
    BitsOfOctet(d, 1);
    BitsOfOctet(d, 2);
    SixBits(d, 12);
    SixBits(d, 18);
    Sextet2Spelled(d[1], d[2]);
    Sextet3Spelled(d[2]);
  }

  /** Six bits from position 6 r on of the first three octets are the r-th sextet. */
  lemma GroupBits(d: seq<bv8>, r: nat)
    requires |d| >= 3 && r < 4
    ensures NumberOf(BufferBits(d)[6 * r..6 * r + 6]) == Val(Quad(d[0], d[1], d[2])[r])
  {
    hide NumberOf, BufferBits, Sextet0, Sextet1, Sextet2, Sextet3, Val;
    GroupStart(d);
    GroupEnd(d);
    assert r == 0 || r == 1 || r == 2 || r == 3;
  }

  // ---- The whole text ----

  /** The data's bits, filled up with zero bits at the end. */
  function Filled(data: seq<bv8>): (d: seq<bv8>)
    ensures |d| == |data| + 2
  {
    data + [0, 0]
  }

  lemma LaterBits(data: seq<bv8>, p: nat)
    requires |data| >= 3 && 24 <= p && p + 6 <= 8 * |data| + 16
    ensures BufferBits(Filled(data))[p..p + 6] == BufferBits(Filled(data[3..]))[p - 24..p - 18]
  {
    hide BitAt;
    var d, e := Filled(data), Filled(data[3..]);
    forall q: nat | p <= q < p + 6
      ensures BitAt(d, q) == BitAt(e, q - 24)
    {
      BitLater(data, q);
    }
    assert BufferBits(d)[p..p + 6] == BufferBits(e)[p - 24..p - 18];
  }

  lemma BitLater(data: seq<bv8>, p: nat)
    requires |data| >= 3 && 24 <= p < 8 * |data| + 16
    ensures BitAt(Filled(data), p) == BitAt(Filled(data[3..]), p - 24)
  {
    hide BitOf;
    assert (p - 24) / 8 == p / 8 - 3 && (p - 24) % 8 == p % 8;
  }

  /** The i-th sextet is the number spelled by bits 6 i to 6 i + 5. */
  lemma {:induction false} SextetIsSixBits(data: seq<bv8>, i: nat)
    requires i < (4 * |data| + 2) / 3
    ensures NumberOf(BufferBits(Filled(data))[6 * i..6 * i + 6]) == Val(Sextets(data)[i])
    decreases |data|
  {
    hide NumberOf, BufferBits, Quad, BitAt, Val;
    if i < 4 {
      GroupBits(Filled(data), i);
    } else {
      SextetIsSixBits(data[3..], i - 4);
      LaterBits(data, 6 * i);
    }
  }

  lemma IndexOfSextet(v: bv8, n: int)
    requires v < 64 && v as int == n
    ensures Index(v) == n
  {
  }

  /** Every character of the text is the alphabet's character for the next six bits of the data,
      zero bits filling up the last. */
  lemma TextSpellsBits(alphabet: Alphabet, padded: bool, data: seq<bv8>, i: nat)
    requires i < (4 * |data| + 2) / 3
    ensures var v := NumberOf(BufferBits(data + [0, 0])[6 * i..6 * i + 6]);
            v < 64 && i < |EncodedText(alphabet, padded, data)| &&
            EncodedText(alphabet, padded, data)[i] == Characters(alphabet)[v]
  {
    hide NumberOf, BufferBits, Sextets, Letter, Characters;
    OctetsOfSextets(data);
    SextetIsSixBits(data, i);
    IndexOfSextet(Sextets(data)[i], Sextets(data)[i] as int);
    LetterIsListed(alphabet, Sextets(data)[i] as int);
  }

  /** After them come only the equals signs that fill the last group of four, if asked for. */
  lemma TextEnds(alphabet: Alphabet, padded: bool, data: seq<bv8>)
    ensures var text, n := EncodedText(alphabet, padded, data), (4 * |data| + 2) / 3;
            text[n..] == (if padded then seq((|data| + 2) / 3 * 4 - n, _ => '=') else [])
  {
    hide Sextets, Letters, Padding;
  }
}
