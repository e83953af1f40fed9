/** What pins the CRC-32 down: appending the checksum, low byte first, always leaves the same
    residue; leading zeros count; and the check value of the standard's catalogue. */
module CrcResidue {
  import opened Words
  import opened Crc32

  const RESIDUE: bv32 := 0x2144_DF1C

  /** The four bytes of a word, low byte first, as a receiver of the checksum sees them. */
  function LowFirst(w: bv32): (b: seq<bv8>)
    ensures |b| == 4
  {
    [(w & 0xFF) as bv8, ((w >> 8) & 0xFF) as bv8, ((w >> 16) & 0xFF) as bv8, (w >> 24) as bv8]
  }

  lemma {:induction false} FeedBytesAppend(c: bv32, a: seq<bv8>, b: seq<bv8>)
    ensures FeedBytes(c, a + b) == FeedBytes(FeedBytes(c, a), b)
    decreases |a|
  {
    hide TableStep;
    if a == [] {
      assert a + b == b;
    } else {
      assert (a + b)[1..] == a[1..] + b;
      FeedBytesAppend(TableStep(c, a[0]), a[1..], b);
    }
  }

  lemma ReferenceByTable(d: seq<bv8>)
    ensures Reference(d) == Xor(FeedBytes(ALL_ONES, d), ALL_ONES)
  {
    hide Xor, FeedBits, FeedBytes, MessageBits;
    TableIsBitSerial(ALL_ONES, d);
  }

  /** One byte through the table, given the entry it selects. */
  lemma Through(c: bv32, b: bv8, i: bv8, entry: bv32)
    requires LowByte(Xor(c, Word(b))) == i && TableEntry(i) == entry
    ensures TableStep(c, b) == Xor(entry, DropByte(c))
  {
    hide Xor, Word, LowByte, DropByte, TableEntry;
  }

  lemma ResidueEntries()
    ensures TableEntry(0xFF) == 0x2D02_EF8D && TableEntry(0x72) == 0xBE0B_1010
    ensures TableEntry(0x00) == 0 && TableEntry(0xED) == 0xDEBB_9EC5
  {
  }

  /** The register on its way through the four bytes of its own complement. */
  lemma ResidueIndices(r: bv32)
    ensures var w := Xor(r, ALL_ONES);
            var c1 := Xor(0x2D02_EF8D, DropByte(r));
            var c2 := Xor(0xBE0B_1010, DropByte(c1));
            var c3 := DropByte(c2);
            LowByte(Xor(r, Word(LowFirst(w)[0]))) == 0xFF && LowByte(Xor(c1, Word(LowFirst(w)[1]))) == 0x72 &&
            LowByte(Xor(c2, Word(LowFirst(w)[2]))) == 0x00 && LowByte(Xor(c3, Word(LowFirst(w)[3]))) == 0xED &&
            Xor(0xDEBB_9EC5, DropByte(c3)) == Xor(RESIDUE, ALL_ONES)
  {
  }

  lemma FeedFour(c: bv32, b: seq<bv8>)
    requires |b| == 4
    ensures FeedBytes(c, b) == TableStep(TableStep(TableStep(TableStep(c, b[0]), b[1]), b[2]), b[3])
  {
    hide TableStep;
    var c1 := TableStep(c, b[0]);
    var c2 := TableStep(c1, b[1]);
    var c3 := TableStep(c2, b[2]);
    assert b[1..][1..] == b[2..] && b[2..][1..] == b[3..] && b[3..][1..] == [];
    assert FeedBytes(c, b) == FeedBytes(c1, b[1..]);
    assert FeedBytes(c1, b[1..]) == FeedBytes(c2, b[2..]);
    assert FeedBytes(c2, b[2..]) == FeedBytes(c3, b[3..]);
    assert FeedBytes(c3, b[3..]) == FeedBytes(TableStep(c3, b[3]), []);
  }

  /** Any register, fed its own complement, ends in the same state. */
  lemma ComplementAbsorbed(r: bv32)
    ensures FeedBytes(r, LowFirst(Xor(r, ALL_ONES))) == Xor(RESIDUE, ALL_ONES)
  {
    var b := LowFirst(Xor(r, ALL_ONES));
    hide Xor, Word, LowByte, DropByte, TableEntry, LowFirst, FeedBytes, TableStep;
    ResidueEntries();
    ResidueIndices(r);
    Through(r, b[0], 0xFF, 0x2D02_EF8D);
    var c1 := Xor(0x2D02_EF8D, DropByte(r));
    Through(c1, b[1], 0x72, 0xBE0B_1010);
    var c2 := Xor(0xBE0B_1010, DropByte(c1));
    Through(c2, b[2], 0x00, 0);
    var c3 := DropByte(c2);
    XorComm(0, c3);
    XorZero(c3);
    Through(c3, b[3], 0xED, 0xDEBB_9EC5);
    FeedFour(r, b);
  }

  /** The residue law: a message followed by its own checksum has one and the same checksum,
      whatever the message is. */
  lemma ResidueLaw(d: seq<bv8>)
    ensures Reference(d + LowFirst(Reference(d))) == RESIDUE
  {
    hide Xor, FeedBytes, Reference, LowFirst;
    var r := FeedBytes(ALL_ONES, d);
    ReferenceByTable(d);
    ReferenceByTable(d + LowFirst(Reference(d)));
    FeedBytesAppend(ALL_ONES, d, LowFirst(Reference(d)));
    ComplementAbsorbed(r);
    XorCancel(RESIDUE, ALL_ONES);
  }

  lemma ZeroByteMoves()
    ensures TableStep(ALL_ONES, 0) != ALL_ONES
  {
  }

  lemma {:induction false} FeedInjective(c: bv32, d: bv32, s: seq<bool>)
    ensures FeedBits(c, s) == FeedBits(d, s) <==> c == d
  {
    hide Xor, FeedBits, ErrorBits;
    DifferenceEvolves(c, d, s, s);
    NoDifference(s);
    QuietRun(Xor(c, d), ErrorBits(s, s));
    XorIsZero(c, d);
    XorIsZero(FeedBits(c, s), FeedBits(d, s));
  }

  lemma NoDifference(s: seq<bool>)
    ensures forall i | 0 <= i < |ErrorBits(s, s)| :: !ErrorBits(s, s)[i]
  {
  }

  /** A leading zero byte always changes the checksum: the preset is not a fixed point. */
  lemma LeadingZeroCounts(d: seq<bv8>)
    ensures Reference([0] + d) != Reference(d)
  {
    hide Xor, FeedBytes, FeedBits, MessageBits, TableStep, Reference;
    var c := TableStep(ALL_ONES, 0);
    ReferenceByTable([0] + d);
    ReferenceByTable(d);
    FeedBytesAppend(ALL_ONES, [0], d);
    FeedOne(ALL_ONES, 0);
    TableIsBitSerial(c, d);
    TableIsBitSerial(ALL_ONES, d);
    FeedInjective(c, ALL_ONES, MessageBits(d));
    ZeroByteMoves();
    XorCancel(FeedBytes(c, d), ALL_ONES);
    XorCancel(FeedBytes(ALL_ONES, d), ALL_ONES);
  }

  lemma FeedOne(c: bv32, b: bv8)
    ensures FeedBytes(c, [b]) == TableStep(c, b)
  {
    hide TableStep;
    assert [b][1..] == [];
    assert FeedBytes(TableStep(c, b), []) == TableStep(c, b);
  }

  // ---- The check value ----

  /** The digits 1 to 9 in ASCII. */
  function Digits(): seq<bv8> {
    [0x31, 0x32, 0x33, 0x34, 0x35, 0x36, 0x37, 0x38, 0x39]
  }

  lemma CheckEntries()
    ensures TableEntry(0xCE) == 0x7CDC_EFB7 && TableEntry(0x7A) == 0xB0D0_9822 && TableEntry(0x01) == 0x7707_3096
    ensures TableEntry(0x19) == 0x646B_A8C0 && TableEntry(0x69) == 0x346E_D9FC && TableEntry(0xD5) == 0xF6B9_265B
    ensures TableEntry(0xA9) == 0xAF0A_1B4C && TableEntry(0x58) == 0x65B0_D9C6
  {
  }

  /** The nine registers on the way. */
  lemma CheckSteps()
    ensures TableStep(ALL_ONES, 0x31) == 0x7C23_1048 && TableStep(0x7C23_1048, 0x32) == 0xB0AC_BB32
    ensures TableStep(0xB0AC_BB32, 0x33) == 0x77B7_9C2D && TableStep(0x77B7_9C2D, 0x34) == 0x641C_1F5C
    ensures TableStep(0x641C_1F5C, 0x35) == 0x340A_C5E3 && TableStep(0x340A_C5E3, 0x36) == 0xF68D_2C9E
    ensures TableStep(0xF68D_2C9E, 0x37) == 0xAFFC_9660 && TableStep(0xAFFC_9660, 0x38) == 0x651F_2550
    ensures TableStep(0x651F_2550, 0x39) == 0x340B_C6D9
  {
    CheckEntries();
    hide TableEntry;
  }

  /** The check value of CRC-32: the checksum of "123456789". */
  lemma CheckValue()
    ensures Reference(Digits()) == 0xCBF4_3926
  {
    var d := Digits();
    CheckSteps();
    CheckComplement();
    hide TableStep, Reference, Xor, FeedBytes;
    ReferenceByTable(d);
    assert d[0..] == d;
    FeedNext(ALL_ONES, d, 0);
    FeedNext(0x7C23_1048, d, 1);
    FeedNext(0xB0AC_BB32, d, 2);
    FeedNext(0x77B7_9C2D, d, 3);
    FeedNext(0x641C_1F5C, d, 4);
    FeedNext(0x340A_C5E3, d, 5);
    FeedNext(0xF68D_2C9E, d, 6);
    FeedNext(0xAFFC_9660, d, 7);
    FeedNext(0x651F_2550, d, 8);
    FeedEnd(0x340B_C6D9, d);
  }

  lemma CheckComplement()
    ensures Xor(0x340B_C6D9, ALL_ONES) == 0xCBF4_3926
  {
  }

  lemma FeedNext(c: bv32, d: seq<bv8>, i: nat)
    requires i < |d|
    ensures FeedBytes(c, d[i..]) == FeedBytes(TableStep(c, d[i]), d[i + 1..])
  {
    hide TableStep;
    assert d[i..][1..] == d[i + 1..];
  }

  lemma FeedEnd(c: bv32, d: seq<bv8>)
    ensures FeedBytes(c, d[|d|..]) == c
  {
  }
}
