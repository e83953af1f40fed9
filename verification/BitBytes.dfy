/** What the bit stream is in bytes: every byte of a buffer spells its own number, most
    significant bit first, so aligned values appear as they would in big-endian order. */
module BitBytes {
  import opened UInt32
  import opened Bytes
  import BigEndian
  import opened BitStream

  /** The number n with one more bit at its low end. */
  function Then(n: int, b: bool): int {
    2 * n + if b then 1 else 0
  }

  function Eight(h: bool, g: bool, f: bool, e: bool, d: bool, c: bool, b: bool, a: bool): int {
    Then(Then(Then(Then(Then(Then(Then(Then(0, h), g), f), e), d), c), b), a)
  }

  /** A byte is the number its bits spell, most significant first. */
  lemma BitsSpellByte(b: bv8)
    ensures Val(b) == Eight(b & 0x80 != 0, b & 0x40 != 0, b & 0x20 != 0, b & 0x10 != 0,
                            b & 0x08 != 0, b & 0x04 != 0, b & 0x02 != 0, b & 0x01 != 0)
  {
  }

  lemma NextBit(s: seq<bool>, i: nat)
    requires i < |s|
    ensures NumberOf(s[..i + 1]) == Then(NumberOf(s[..i]), s[i])
  {
    assert s[..i + 1][..i] == s[..i];
  }

  lemma NoBits(s: seq<bool>)
    ensures NumberOf(s[..0]) == 0
  {
  }

  lemma OctetNumber(s: seq<bool>)
    requires |s| == 8
    ensures NumberOf(s) == Eight(s[0], s[1], s[2], s[3], s[4], s[5], s[6], s[7])
  {
    hide NumberOf, Then;
    NoBits(s);
    NextBit(s, 0);
    NextBit(s, 1);
    NextBit(s, 2);
    NextBit(s, 3);
    NextBit(s, 4);
    NextBit(s, 5);
    NextBit(s, 6);
    NextBit(s, 7);
    assert s[..8] == s;
  }

  /** Eight bits of a buffer from a byte boundary on spell that byte. */
  lemma ByteSpelled(buf: seq<bv8>, k: nat)
    requires k < |buf|
    ensures NumberOf(BufferBits(buf)[8 * k..8 * k + 8]) == buf[k] as int
  {
    var s, b := BufferBits(buf)[8 * k..8 * k + 8], buf[k];
    hide NumberOf, BitOf, Eight;
    OctetNumber(s);
    forall j: nat | j < 8
      ensures s[j] == BitOf(b, 7 - j)
    {
      BitOfByte(buf, k, j);
    }
    BitsOfByte(b);
    BitsSpellByte(b);
  }

  lemma BitOfByte(buf: seq<bv8>, k: nat, j: nat)
    requires k < |buf| && j < 8
    ensures BufferBits(buf)[8 * k + j] == BitOf(buf[k], 7 - j)
  {
    hide BitOf;
    assert (8 * k + j) / 8 == k && (8 * k + j) % 8 == j;
  }

  lemma BitsOfByte(b: bv8)
    ensures (BitOf(b, 7) <==> b & 0x80 != 0) && (BitOf(b, 6) <==> b & 0x40 != 0)
    ensures (BitOf(b, 5) <==> b & 0x20 != 0) && (BitOf(b, 4) <==> b & 0x10 != 0)
    ensures (BitOf(b, 3) <==> b & 0x08 != 0) && (BitOf(b, 2) <==> b & 0x04 != 0)
    ensures (BitOf(b, 1) <==> b & 0x02 != 0) && (BitOf(b, 0) <==> b & 0x01 != 0)
  {
  }

  // ---- What a writer leaves in its buffer ----

  /** The whole bytes of the contents are the bytes of the buffer. */
  lemma WholeByte(w: BitWriter, k: nat)
    requires w.Valid() && 8 * k + 8 <= |w.Contents()|
    ensures k < w.bufSize && NumberOf(w.Contents()[8 * k..8 * k + 8]) == w.buf[k] as int
  {
    hide NumberOf, BitAt;
    var bytes := w.buf[..w.bufSize];
    ContentsAreBufferFront(w);
    ByteSpelled(bytes, k);
    assert w.Contents()[8 * k..8 * k + 8] == BufferBits(bytes)[8 * k..8 * k + 8];
  }

  /** The value without its low n bits. */
  function Shifted(value: nat, n: nat): nat {
    if n == 0 then value else Shifted(value / 2, n - 1)
  }

  /** The high bits of a value are those of the value shifted down, the low ones its own. */
  lemma {:induction false} ValueBitsSplit(value: nat, w: nat, n: nat)
    requires n <= w
    ensures ValueBits(value, w) == ValueBits(Shifted(value, n), w - n) + ValueBits(value, n)
    decreases n
  {
    if n == 0 {
      assert ValueBits(value, 0) == [];
    } else {
      ValueBitsSplit(value / 2, w - 1, n - 1);
    }
  }

  /** An accepted write of eight bits at a byte boundary stores the value's low byte there. */
  lemma AlignedByteWritten(w: BitWriter, before: seq<bool>, value: u32)
    requires w.Valid() && |before| % 8 == 0 && RequestCode(w.bufSize, |before|, 8) == OK
    requires w.Contents() == before + Appended(w.bufSize, |before|, Put(value, 8))
    ensures |before| / 8 < w.bufSize && w.buf[|before| / 8] as int == value % 256
  {
    hide NumberOf, BitAt, ValueBits;
    var k := |before| / 8;
    assert 8 * k == |before|;
    assert w.Contents()[8 * k..8 * k + 8] == ValueBits(value, 8);
    WholeByte(w, k);
    NumberOfValueBits(value, 8);
    assert Pow2(8) == 256;
  }

  lemma Chunk(value: u32, j: nat)
    requires j < 4
    ensures ValueBits(value, 32)[8 * j..8 * j + 8] == ValueBits(Shifted(value, 24 - 8 * j), 8)
  {
    hide ValueBits, Shifted;
    var high, n := Shifted(value, 24 - 8 * j), 24 - 8 * j;
    ValueBitsSplit(value, 32, n);
    ValueBitsSplit(high, 8 + 8 * j, 8);
    assert ValueBits(value, 32)[..8 * j + 8] == ValueBits(high, 8 + 8 * j);
  }

  /** An accepted write of 32 bits at a byte boundary stores the value's four bytes in big-endian
      order. */
  lemma AlignedWordWritten(w: BitWriter, before: seq<bool>, value: u32)
    requires w.Valid() && |before| % 8 == 0 && RequestCode(w.bufSize, |before|, 32) == OK
    requires w.Contents() == before + Appended(w.bufSize, |before|, Put(value, 32))
    ensures var k := |before| / 8; k + 4 <= w.bufSize && w.buf[k..k + 4] == BigEndian.U32Bytes(value)
  {
    hide NumberOf, BitAt, ValueBits, Shifted;
    var k := |before| / 8;
    assert 8 * k == |before|;
    forall j: nat | j < 4
      ensures k + j < w.bufSize && w.buf[k + j] as int == Shifted(value, 24 - 8 * j) % 256
    {
      assert w.Contents()[8 * (k + j)..8 * (k + j) + 8] == ValueBits(value, 32)[8 * j..8 * j + 8];
      Chunk(value, j);
      WholeByte(w, k + j);
      NumberOfValueBits(Shifted(value, 24 - 8 * j), 8);
      assert Pow2(8) == 256;
    }
    FourBytes(w.buf[k..k + 4], value);
  }

  lemma FourBytes(b: seq<bv8>, n: u32)
    requires |b| == 4 && forall j: nat | j < 4 :: b[j] as int == Shifted(n, 24 - 8 * j) % 256
    ensures b == BigEndian.U32Bytes(n)
  {
    hide Shifted, BigEndian.U32Bytes;
    assert b[0] as int == Shifted(n, 24 - 8 * 0) % 256;
    assert b[1] as int == Shifted(n, 24 - 8 * 1) % 256;
    assert b[2] as int == Shifted(n, 24 - 8 * 2) % 256;
    assert b[3] as int == Shifted(n, 24 - 8 * 3) % 256;
    ShiftedDigits(n);
    SameBytes(b, n);
  }

  lemma ShiftedDigits(n: u32)
    ensures Shifted(n, 24) % 256 == n / 0x100_0000 && Shifted(n, 16) == n / 0x1_0000
    ensures Shifted(n, 8) == n / 0x100 && Shifted(n, 0) == n
  {
    hide Shifted;
    ShiftNone(n);
    ShiftNone(n / 0x100);
    ShiftNone(n / 0x1_0000);
    ShiftNone(n / 0x100_0000);
    ShiftEight(n, 0);
    ShiftEight(n, 8);
    ShiftEight(n / 0x100, 0);
    ShiftEight(n, 16);
    ShiftEight(n / 0x100, 8);
    ShiftEight(n / 0x1_0000, 0);
    assert n / 0x1_0000 == n / 0x100 / 256;
    assert n / 0x100_0000 == n / 0x1_0000 / 256;
  }

  lemma ShiftNone(value: nat)
    ensures Shifted(value, 0) == value
  {
  }

  lemma ShiftEight(value: nat, n: nat)
    ensures Shifted(value, n + 8) == Shifted(value / 256, n)
  {
    assert Shifted(value, n + 8) == Shifted(value / 2, n + 7);
    assert Shifted(value, n + 8) == Shifted(value / 4, n + 6);
    assert Shifted(value, n + 8) == Shifted(value / 8, n + 5);
    assert Shifted(value, n + 8) == Shifted(value / 16, n + 4);
    assert Shifted(value, n + 8) == Shifted(value / 32, n + 3);
    assert Shifted(value, n + 8) == Shifted(value / 64, n + 2);
    assert Shifted(value, n + 8) == Shifted(value / 128, n + 1);
  }

  lemma SameBytes(b: seq<bv8>, n: u32)
    requires |b| == 4 && b[0] as int == n / 0x100_0000 && b[1] as int == n / 0x1_0000 % 256
    requires b[2] as int == n / 0x100 % 256 && b[3] as int == n % 256
    ensures b == BigEndian.U32Bytes(n)
  {
    hide ToByte;
    ByteIs(b[0], n / 0x100_0000);
    ByteIs(b[1], n / 0x1_0000 % 256);
    ByteIs(b[2], n / 0x100 % 256);
    ByteIs(b[3], n % 256);
  }

  lemma ByteIs(b: bv8, n: int)
    requires b as int == n
    ensures 0 <= n < 256 && b == ToByte(n)
  {
    hide ToByte;
    ByteForth(b);
  }

  /** A reader at a byte boundary that asks for eight bits gets the byte. */
  lemma AlignedByteRead(buf: seq<bv8>, pos: nat)
    requires pos % 8 == 0 && RequestCode(|buf|, pos, 8) == OK
    ensures NumberOf(BufferBits(buf)[pos..pos + 8]) == buf[pos / 8] as int
  {
    hide NumberOf, BitAt;
    ByteSpelled(buf, pos / 8);
    assert pos == 8 * (pos / 8);
  }
}
