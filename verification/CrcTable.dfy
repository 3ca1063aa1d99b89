/** The checksum as egpu_safety.c computes it: a table of 256 entries and one step per byte. */
module CrcTable {
  import opened Crc32

  ghost function EntryOf(i: nat): bv32
    requires i < 256
  {
    Entry(i as bv32)
  }

  lemma EntryOfIs(i: nat)
    requires i < 256
    ensures EntryOf(i) == Entry(i as bv32)
  {
  }

  class Table {
    const entries: array<bv32>
    var initialized: bool

    ghost predicate Filled(n: nat)
      reads entries
    {
      n <= 256 == entries.Length && forall i :: 0 <= i < n ==> entries[i] == EntryOf(i)
    }

    ghost predicate Valid()
      reads this, entries
    {
      entries.Length == 256 && (initialized ==> Filled(256))
    }

    constructor ()
      ensures Valid() && !initialized && fresh(entries)
    {
      entries := new bv32[256];
      initialized := false;
    }

    // The inner loop of init_crc32_table: eight steps of the register.
    static method MakeEntry(i: bv32) returns (crc: bv32)
      ensures crc == Entry(i)
    {
      crc := i;
      for j := 0 to 8
        invariant ShiftN(crc, 8 - j) == Entry(i)
      {
        ghost var before := crc;
        crc := (crc >> 1) ^ (if crc & 1 == 1 then 0xEDB88320 else 0);
        assert crc == Shift(before);
      }
    }

    /** init_crc32_table. */
    method InitTable()
      requires Valid()
      modifies this`initialized, entries
      ensures Valid() && initialized
    {
      hide Entry, EntryOf;
      for i := 0 to 256
        invariant entries.Length == 256 && Filled(i)
      {
        EntryOfIs(i);
        entries[i] := MakeEntry(i as bv32);
      }
      initialized := true;
    }

    /** egpu_compute_crc32. */
    method Compute(data: seq<bv8>) returns (crc: bv32)
      requires Valid()
      modifies this`initialized, entries
      ensures Valid() && crc == Crc(data)
    {
      if !initialized {
        InitTable();
      }
      crc := 0xFFFF_FFFF;
      for i := 0 to |data|
        invariant Filled(256) && crc == Feed(ONES, BitsOf(data[..i]))
      {
        crc := Next(crc, data[i]);
        FeedNext(data, i);
      }
      assert data[..|data|] == data;
      crc := crc ^ 0xFFFF_FFFF;
    }

    /** egpu_verify_data_integrity. */
    method Verify(data: seq<bv8>, expected: bv32) returns (intact: bool)
      requires Valid()
      modifies this`initialized, entries
      ensures Valid() && (intact <==> Crc(data) == expected)
    {
      var actual := Compute(data);
      intact := actual == expected;
    }

    // The body of the loop over the bytes.
    method Next(crc: bv32, b: bv8) returns (next: bv32)
      requires Filled(256)
      ensures next == Feed(crc, BitsOfByte(b))
    {
      var index := ((crc ^ (b as bv32)) & 0xFF) as bv8;
      var entry := entries[index as int];
      next := (crc >> 8) ^ entry;
      IndexOfByte(crc, b, index);
      TableStep(crc, b, entry);
      hide Xor, Lowered, LowByte, Entry;
      FeedByte(crc, b);
    }
  }

  lemma ByteAsIndex(i: int)
    requires 0 <= i < 256
    ensures i as bv32 == (i as bv8) as bv32
  {
  }

  lemma LowByteNarrow(x: bv32)
    ensures ((x & 0xFF) as bv8) as bv32 == LowByte(x)
  {
  }

  lemma IndexOfByte(crc: bv32, b: bv8, index: bv8)
    requires index == ((crc ^ (b as bv32)) & 0xFF) as bv8
    ensures (index as int) as bv32 == LowByte(Xor(crc, b as bv32))
  {
    LowByteNarrow(crc ^ (b as bv32));
    hide LowByte;
    ByteAsIndex(index as int);
  }

  // A byte added to the register does not reach what moves down.
  lemma TableStep(crc: bv32, b: bv8, entry: bv32)
    ensures (crc >> 8) ^ entry == Xor(Lowered(Xor(crc, b as bv32)), entry)
  {
    assert (crc ^ (b as bv32)) >> 8 == crc >> 8;
  }

  lemma FeedNext(data: seq<bv8>, i: nat)
    requires i < |data|
    ensures Feed(ONES, BitsOf(data[..i + 1])) == Feed(Feed(ONES, BitsOf(data[..i])), BitsOfByte(data[i]))
  {
    hide Feed, BitsOfByte;
    assert data[..i + 1] == data[..i] + [data[i]];
    Streaming(ONES, data[..i], [data[i]]);
    assert BitsOf([data[i]]) == BitsOfByte(data[i]) by {
      assert [data[i]][1..] == [];
    }
  }
}
