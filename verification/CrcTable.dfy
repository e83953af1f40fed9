/** The two C copies of the table-driven loop: checksum.c and serializer.c. */
module CrcTable {
  import opened Words
  import opened Crc32

  lemma ByteOfIndex(b: bv8, i: int)
    requires 0 <= i < 256
    ensures b as int == i ==> b == i as bv8
  {
  }

  /** The inner loop: one entry by eight shifts. */
  method Entry(b: bv8) returns (c: bv32)
    ensures c == TableEntry(b)
  {
    hide Odd, Xor, Shr;
    c := Word(b);
    for j := 0 to 8
      invariant BitSteps(c, 8 - j) == TableEntry(b)
    {
      c := if Odd(c) then Xor(CRC32_POLY, Shr(c)) else Shr(c);
    }
  }

  /** One translation unit's static table and its ready flag. */
  class Table {
    var entries: array<bv32>
    var ready: bool

    ghost predicate Valid()
      reads this, entries
    {
      entries.Length == 256 && (ready ==> Filled(256))
    }

    ghost predicate Filled(n: int)
      reads this, entries
      requires entries.Length == 256
    {
      forall b: bv8 | b as int < n :: entries[b as int] == TableEntry(b)
    }

    constructor ()
      ensures Valid() && fresh(entries)
    {
      entries := new bv32[256];
      ready := false;
    }

    method Build()
      requires Valid()
      modifies this`ready, entries
      ensures Valid() && ready && entries == old(entries)
    {
      hide TableEntry;
      for i := 0 to 256
        invariant entries == old(entries) && entries.Length == 256
        invariant Filled(i)
      {
        var c := Entry(i as bv8);
        entries[i] := c;
        forall b: bv8 | b as int < i + 1
          ensures entries[b as int] == TableEntry(b)
        {
          ByteOfIndex(b, i);
        }
      }
      ready := true;
    }

    /** The loop both copies share. */
    method Loop(data: array<bv8>, len: nat) returns (crc: bv32)
      requires Valid() && ready && len <= data.Length
      ensures crc == Reference(data[..len])
    {
      crc := ALL_ONES;
      for i := 0 to len
        invariant FeedBytes(crc, data[i..len]) == FeedBytes(ALL_ONES, data[..len])
      {
        assert data[i..len][1..] == data[i + 1..len];
        crc := Xor(entries[LowByte(Xor(crc, Word(data[i]))) as int], DropByte(crc));
      }
      TableIsBitSerial(ALL_ONES, data[..len]);
      crc := Xor(crc, ALL_ONES);
    }

    /** checksum.c: a null or empty buffer answers 0 before the table is touched. */
    method ChecksumCrc32(data: array?<bv8>, len: nat) returns (crc: bv32)
      requires Valid() && (data != null ==> len <= data.Length && data != entries as object)
      modifies this`ready, entries
      ensures Valid() && entries == old(entries)
      ensures crc == if data == null then 0 else Reference(old(data[..len]))
    {
      if data == null || len == 0 {
        EmptyReference();
        return 0;
      }
      if !ready {
        Build();
      }
      crc := Loop(data, len);
    }

    /** serializer.c: no early return, the empty buffer runs the zero-trip loop. */
    method Crc32Compute(data: array<bv8>, len: nat) returns (crc: bv32)
      requires Valid() && len <= data.Length && data != entries as object
      modifies this`ready, entries
      ensures Valid() && entries == old(entries)
      ensures crc == Reference(old(data[..len]))
    {
      if !ready {
        Build();
      }
      crc := Loop(data, len);
    }
  }
}
