/** services/serializer/bitwriter.c: values packed most significant bit first
    into a zeroed byte buffer, and read back. */
module BitStream {
  import opened Modular
  import opened UInt32

  const OK := 0
  const ERR_NULL := -1
  const ERR_OVERFLOW := -2
  const ERR_INVALID := -3

  // ---- Bits in a byte ----

  /** 1 << k for a bit index in a byte. */
  function Mask(k: nat): bv8
    requires k < 8
  {
    match k
    case 0 => 1
    case 1 => 2
    case 2 => 4
    case 3 => 8
    case 4 => 16
    case 5 => 32
    case 6 => 64
    case _ => 128
  }

  predicate Has(b: bv8, mask: bv8) {
    b & mask != 0
  }

  function Or(b: bv8, mask: bv8): bv8 {
    b | mask
  }

  predicate BitOf(b: bv8, k: nat)
    requires k < 8
  {
    Has(b, Mask(k))
  }

  function WithBit(b: bv8, k: nat): bv8
    requires k < 8
  {
    Or(b, Mask(k))
  }

  lemma WithBitBits(b: bv8, k: nat, m: nat)
    requires k < 8 && m < 8
    ensures BitOf(WithBit(b, k), m) <==> k == m || BitOf(b, m)
  {
    hide Mask, Has, Or;
    OrHas(b, Mask(k), Mask(m));
    MasksDistinct(k, m);
  }

  lemma OrHas(b: bv8, p: bv8, q: bv8)
    ensures Has(Or(b, p), q) <==> Has(b, q) || Has(p, q)
  {
  }

  lemma MasksDistinct(k: nat, m: nat)
    requires k < 8 && m < 8
    ensures Has(Mask(k), Mask(m)) <==> k == m
  {
  }

  // ---- A buffer as a string of bits ----

  function BitAt(buf: seq<bv8>, p: nat): bool
    requires p < 8 * |buf|
  {
    BitOf(buf[p / 8], 7 - p % 8)
  }

  /** The low w bits of a value, most significant first. */
  function ValueBits(value: nat, w: nat): (bits: seq<bool>)
    ensures |bits| == w
  {
    if w == 0 then [] else ValueBits(value / 2, w - 1) + [value % 2 == 1]
  }

  /** The number a string of bits spells. */
  function NumberOf(bits: seq<bool>): nat {
    if bits == [] then 0 else 2 * NumberOf(bits[..|bits| - 1]) + if bits[|bits| - 1] then 1 else 0
  }

  /** Writing w bits and reading them back gives the value modulo 2^w. */
  lemma {:induction false} NumberOfValueBits(value: nat, w: nat)
    ensures NumberOf(ValueBits(value, w)) == value % Pow2(w)
  {
    if w > 0 {
      NumberOfValueBits(value / 2, w - 1);
      HalfMod(value, Pow2(w - 1));
      assert ValueBits(value, w)[..w - 1] == ValueBits(value / 2, w - 1);
    }
  }

  lemma {:induction false} ValueBitAt(value: nat, w: nat, i: nat)
    requires i < w
    ensures ValueBits(value, w)[w - 1 - i] == ((value / Pow2(i)) % 2 == 1)
    decreases i
  {
    if i > 0 {
      ValueBitAt(value / 2, w - 1, i - 1);
      DivTwice(value, Pow2(i - 1));
    }
  }

  lemma DivTwice(x: nat, p: nat)
    requires p > 0
    ensures (x / 2) / p == x / (2 * p)
  {
    HalfMod(x, p);
    var q, r := x / (2 * p), x % (2 * p);
    assert x == 2 * (p * q) + r;
    assert x / 2 == p * q + r / 2;
    ModUnique(x / 2, p, q, r / 2);
  }

  // ---- The writer and the reader on bit strings ----

  /** The number of bits that fill the last byte. */
  function Pad(pos: nat): nat {
    if pos % 8 == 0 then 0 else 8 - pos % 8
  }

  function Zeros(n: nat): (bits: seq<bool>)
    ensures |bits| == n && forall i | 0 <= i < n :: !bits[i]
  {
    seq(n, _ => false)
  }

  /** The answer to a request for so many bits at a position of a buffer. */
  function RequestCode(size: nat, pos: nat, width: nat): int {
    if width == 0 || width > 32 then ERR_INVALID
    else if (pos + width + 7) / 8 > size then ERR_OVERFLOW
    else OK
  }

  datatype Op = Put(value: u32, width: nat) | Align

  /** What one call appends. */
  function Appended(size: nat, pos: nat, op: Op): seq<bool> {
    match op
    case Put(value, width) => if RequestCode(size, pos, width) == OK then ValueBits(value, width) else []
    case Align => Zeros(Pad(pos))
  }

  /** What a list of calls writes after a given position. */
  function Written(size: nat, pos: nat, ops: seq<Op>): seq<bool>
    decreases |ops|
  {
    if ops == [] then []
    else
      var a := Appended(size, pos, ops[0]);
      a + Written(size, pos + |a|, ops[1..])
  }

  datatype Field = Field(width: nat, expected: nat)

  /** The fields a reader should ask for: each accepted value modulo 2^width, and
      each non-empty alignment gap as a zero. */
  function Fields(size: nat, pos: nat, ops: seq<Op>): seq<Field>
    decreases |ops|
  {
    if ops == [] then []
    else
      var a := Appended(size, pos, ops[0]);
      var rest := Fields(size, pos + |a|, ops[1..]);
      if a == [] then rest
      else [Field(|a|, if ops[0].Put? then ops[0].value % Pow2(|a|) else 0)] + rest
  }

  /** A reader asking for the given widths in order: whether each request is
      granted and gives the expected number. */
  predicate ReadsBack(size: nat, stream: seq<bool>, pos: nat, fields: seq<Field>)
    decreases |fields|
  {
    fields == [] ||
    (RequestCode(size, pos, fields[0].width) == OK && pos + fields[0].width <= |stream| &&
     NumberOf(stream[pos..pos + fields[0].width]) == fields[0].expected &&
     ReadsBack(size, stream, pos + fields[0].width, fields[1..]))
  }

  lemma {:induction false} NumberOfZeros(n: nat)
    ensures NumberOf(Zeros(n)) == 0
  {
    if n > 0 {
      NumberOfZeros(n - 1);
      assert Zeros(n)[..n - 1] == Zeros(n - 1);
    }
  }

  lemma AppendedFits(size: nat, pos: nat, op: Op)
    requires pos <= 8 * size
    ensures var a := Appended(size, pos, op);
            pos + |a| <= 8 * size && (a != [] ==> RequestCode(size, pos, |a|) == OK) &&
            (a != [] ==> NumberOf(a) == if op.Put? then op.value % Pow2(|a|) else 0)
  {
    hide ValueBits, NumberOf, Pow2;
    match op {
      case Put(value, width) => NumberOfValueBits(value, width);
      case Align => NumberOfZeros(Pad(pos));
    }
  }

  lemma Regroup(a: seq<bool>, b: seq<bool>, c: seq<bool>, d: seq<bool>)
    ensures a + (b + c) + d == (a + b) + c + d
    ensures (a + (b + c) + d)[|a|..|a| + |b|] == b
  {
  }

  lemma WrittenCons(size: nat, pos: nat, ops: seq<Op>)
    requires ops != []
    ensures var a := Appended(size, pos, ops[0]);
            Written(size, pos, ops) == a + Written(size, pos + |a|, ops[1..])
  {
    hide Appended;
  }

  /** Reading the widths that were accepted gives back every value modulo 2^width
      in order, with alignment gaps reading as zero, wherever the calls began. */
  lemma {:induction false} ReadBackFrom(size: nat, before: seq<bool>, ops: seq<Op>, after: seq<bool>)
    requires |before| <= 8 * size
    ensures var stream := before + Written(size, |before|, ops) + after;
            ReadsBack(size, stream, |before|, Fields(size, |before|, ops))
    ensures |before| + |Written(size, |before|, ops)| <= 8 * size
    decreases |ops|
  {
    hide NumberOf, RequestCode, Appended, Written, Pow2;
    if ops == [] {
      WrittenNone(size, |before|);
    } else {
      var a := Appended(size, |before|, ops[0]);
      var rest := Written(size, |before| + |a|, ops[1..]);
      AppendedFits(size, |before|, ops[0]);
      WrittenCons(size, |before|, ops);
      ReadBackFrom(size, before + a, ops[1..], after);
      Regroup(before, a, rest, after);
    }
  }

  lemma WrittenNone(size: nat, pos: nat)
    ensures Written(size, pos, []) == []
  {
  }

  /** Read-back for a run of calls on a freshly initialised buffer. */
  lemma ReadBack(size: nat, ops: seq<Op>, after: seq<bool>)
    ensures |Written(size, 0, ops)| <= 8 * size
    ensures ReadsBack(size, Written(size, 0, ops) + after, 0, Fields(size, 0, ops))
  {
    hide Written, Fields, ReadsBack;
    ReadBackFrom(size, [], ops, after);
    assert [] + Written(size, 0, ops) + after == Written(size, 0, ops) + after;
  }

  // ---- The writer object ----

  class BitWriter {
    var buf: array?<bv8>
    var bufSize: nat
    var bitPos: nat

    ghost predicate Valid()
      reads this, buf
    {
      buf != null && bufSize <= buf.Length && bitPos <= 8 * bufSize &&
      forall p | bitPos <= p < 8 * bufSize :: !BitAt(buf[..bufSize], p)
    }

    /** The bits written so far. */
    ghost function Contents(): (bits: seq<bool>)
      reads this, buf
      requires Valid()
      ensures |bits| == bitPos
    {
      var bytes, n := buf[..bufSize], bitPos;
      seq(n, p requires 0 <= p < n => BitAt(bytes, p))
    }

    method Init(buffer: array?<bv8>, size: nat) returns (code: int)
      requires buffer != null ==> size <= buffer.Length
      modifies this, if buffer == null then {} else {buffer}
      ensures code == if buffer == null then ERR_NULL else OK
      ensures code == OK ==> Valid() && buf == buffer && bufSize == size && Contents() == []
      ensures code == OK ==> buffer[size..] == old(buffer[size..])
      ensures code != OK ==> buf == old(buf) && bufSize == old(bufSize) && bitPos == old(bitPos)
    {
      if buffer == null {
        return ERR_NULL;
      }
      buf, bufSize, bitPos := buffer, size, 0;
      for i := 0 to size
        invariant buf == buffer && bufSize == size && bitPos == 0
        invariant forall k | 0 <= k < i :: buffer[k] == 0
        invariant buffer[size..] == old(buffer[size..])
      {
        buffer[i] := 0;
      }
      forall p | 0 <= p < 8 * size
        ensures !BitAt(buf[..bufSize], p)
      {
        ZeroByte(7 - p % 8);
      }
      return OK;
    }

    /** One turn of the loop in bitwriter_write. */
    method PutBit(bit: bool)
      requires Valid() && bitPos < 8 * bufSize
      modifies this`bitPos, buf
      ensures Valid() && buf == old(buf) && bufSize == old(bufSize)
      ensures Contents() == old(Contents()) + [bit]
      ensures buf[bufSize..] == old(buf[bufSize..])
    {
      hide BitOf, WithBit;
      var byteIdx, bitIdx := bitPos / 8, 7 - bitPos % 8;
      assert bit || !BitAt(buf[..bufSize], bitPos);
      if bit {
        buf[byteIdx] := WithBit(buf[byteIdx], bitIdx);
      }
      forall p | 0 <= p < 8 * bufSize
        ensures BitAt(buf[..bufSize], p) == if p == bitPos then bit else old(BitAt(buf[..bufSize], p))
      {
        if bit && p / 8 == byteIdx {
          WithBitBits(old(buf[byteIdx]), bitIdx, 7 - p % 8);
          SamePosition(p, bitPos);
        }
      }
      bitPos := bitPos + 1;
    }

    method Write(value: u32, bits: nat) returns (code: int)
      requires Valid() && bits < 256
      modifies this`bitPos, buf
      ensures Valid() && buf == old(buf) && bufSize == old(bufSize)
      ensures code == RequestCode(bufSize, old(bitPos), bits)
      ensures Contents() == old(Contents()) + Appended(bufSize, old(bitPos), Put(value, bits))
      ensures code != OK ==> bitPos == old(bitPos) && buf[..] == old(buf[..])
      ensures buf[bufSize..] == old(buf[bufSize..])
    {
      hide BitAt, ValueBits;
      if bits == 0 || bits > 32 {
        return ERR_INVALID;
      }
      if (bitPos + bits + 7) / 8 > bufSize {
        return ERR_OVERFLOW;
      }
      ghost var before, all := Contents(), ValueBits(value, bits);
      var i := bits - 1;
      while i >= 0
        invariant -1 <= i < bits && Valid() && buf == old(buf) && bufSize == old(bufSize)
        invariant bitPos == old(bitPos) + (bits - 1 - i)
        invariant Contents() == before + all[..bits - 1 - i]
        invariant buf[bufSize..] == old(buf[bufSize..])
      {
        ValueBitAt(value, bits, i);
        PutBit((value / Pow2(i)) % 2 == 1);
        assert all[..bits - i] == all[..bits - 1 - i] + [all[bits - 1 - i]];
        i := i - 1;
      }
      return OK;
    }

    method BytesUsed() returns (n: nat)
      requires Valid()
      ensures 8 * (n - 1) < |Contents()| <= 8 * n && n <= bufSize
    {
      n := (bitPos + 7) / 8;
    }

    method AlignByte()
      requires Valid()
      modifies this`bitPos
      ensures Valid()
      ensures Contents() == old(Contents()) + Appended(bufSize, old(bitPos), Align)
      ensures bitPos % 8 == 0
    {
      hide BitAt;
      var remainder := bitPos % 8;
      if remainder != 0 {
        bitPos := bitPos + (8 - remainder);
      }
    }
  }

  lemma ZeroByte(k: nat)
    requires k < 8
    ensures !BitOf(0, k)
  {
  }

  lemma SamePosition(p: nat, q: nat)
    requires p / 8 == q / 8
    ensures 7 - p % 8 == 7 - q % 8 <==> p == q
  {
  }

  // ---- The reader object ----

  /** All the bits of a buffer. */
  function BufferBits(buf: seq<bv8>): (bits: seq<bool>)
    ensures |bits| == 8 * |buf|
    ensures forall p | 0 <= p < |bits| :: bits[p] == BitAt(buf, p)
  {
    seq(8 * |buf|, p requires 0 <= p < 8 * |buf| => BitAt(buf, p))
  }

  class BitReader {
    const buf: array<bv8>
    const bufSize: nat
    var bitPos: nat

    ghost predicate Valid()
      reads this
    {
      bufSize <= buf.Length && bitPos <= 8 * bufSize
    }

    constructor (buffer: array<bv8>, size: nat)
      requires size <= buffer.Length
      ensures Valid() && buf == buffer && bufSize == size && bitPos == 0
    {
      buf, bufSize, bitPos := buffer, size, 0;
    }

    method Read(bits: nat) returns (code: int, value: u32)
      requires Valid() && bits < 256
      modifies this
      ensures Valid() && code == RequestCode(bufSize, old(bitPos), bits)
      ensures code == OK ==>
                bitPos == old(bitPos) + bits <= 8 * bufSize &&
                value == NumberOf(BufferBits(buf[..bufSize])[old(bitPos)..bitPos])
      ensures code != OK ==> bitPos == old(bitPos)
    {
      hide BitAt, NumberOf, Pow2;
      value := 0;
      if bits == 0 || bits > 32 {
        return ERR_INVALID, value;
      }
      if (bitPos + bits + 7) / 8 > bufSize {
        return ERR_OVERFLOW, value;
      }
      ghost var stream, start := BufferBits(buf[..bufSize]), bitPos;
      EmptyNumber();
      assert stream[start..start] == [] && 0 < Pow2(0);
      for i := 0 to bits
        invariant bitPos == start + i && Valid()
        invariant value == NumberOf(stream[start..bitPos]) < Pow2(i)
      {
        ShiftFits(value, i);
        var bit := BitAt(buf[..bufSize], bitPos);
        OneMoreBit(stream[start..bitPos], bit);
        assert stream[start..bitPos + 1] == stream[start..bitPos] + [bit];
        value := (value * 2 + if bit then 1 else 0) % MOD;
        bitPos := bitPos + 1;
      }
      return OK, value;
    }
  }

  lemma EmptyNumber()
    ensures NumberOf([]) == 0
  {
  }

  lemma OneMoreBit(bits: seq<bool>, bit: bool)
    ensures NumberOf(bits + [bit]) == 2 * NumberOf(bits) + if bit then 1 else 0
  {
    assert (bits + [bit])[..|bits|] == bits;
  }

  lemma ShiftFits(value: nat, i: nat)
    requires value < Pow2(i) && i < 32
    ensures 2 * value + 1 < Pow2(i + 1) <= MOD
  {
    Pow2Of32();
    Pow2Monotone(i + 1, 32);
  }

  lemma {:induction false} Pow2Monotone(i: nat, k: nat)
    requires i <= k
    ensures Pow2(i) <= Pow2(k)
    decreases k
  {
    if i < k {
      Pow2Monotone(i, k - 1);
    }
  }

  /** The writer's contents are the front of its buffer, so a reader over the same
      buffer sees them, followed by whatever comes after. */
  lemma ContentsAreBufferFront(w: BitWriter)
    requires w.Valid()
    ensures w.Contents() <= BufferBits(w.buf[..w.bufSize])
  {
    assert w.Contents() == BufferBits(w.buf[..w.bufSize])[..w.bitPos];
  }
}
