/** The CRC loops: building the table, and the update that uses it. */
module Crc32Methods {
  import opened Machine
  import opened Bits
  import opened Crc32

  method GenerateTable() returns (table: array<U32>)
    ensures fresh(table) && table.Length == 256
    ensures forall i :: 0 <= i < 256 ==> table[i] == TableEntry(i)
  {
    table := new U32[256](_ => 0);
    ghost var all := seq(256, i requires 0 <= i < 256 => TableEntry(i));
    for index := 0 to 256
      invariant table[..index] == all[..index]
    {
      var entry := Entry(index);
      assert entry == all[index];
      table[index] := entry;
    }
    assert table[..] == all;
  }

  method Entry(index: Byte) returns (crc: U32)
    ensures crc == TableEntry(index)
  {
    crc := index;
    for bit := 0 to 8
      invariant BitSteps(crc, 8 - bit) == BitSteps(index, 8)
    {
      BitStepFits(crc);
      crc := BitStep(crc);
    }
  }

  /** One look-up: what `crc32_update` does with each byte. */
  method UpdateByte(table: array<U32>, crc: U32, byte: Byte) returns (r: U32)
    requires table.Length == 256 && forall i :: 0 <= i < 256 ==> table[i] == TableEntry(i)
    ensures r == ByteStep(crc, byte)
  {
    XorFits32(crc, byte);
    ShiftedFits(crc);
    var index: int := Xor(crc, byte);
    XorFits32(Shr(crc, 8), table[index % 0x100]);
    r := Xor(Shr(crc, 8), table[index % 0x100]);
  }

  lemma UpdateOneMore(crc: U32, bytes: seq<Byte>, k: nat)
    requires k < |bytes|
    ensures Update(crc, bytes[..k + 1]) == ByteStep(Update(crc, bytes[..k]), bytes[k])
  {
    assert bytes[..k + 1][..k] == bytes[..k];
  }

  method Crc32Update(table: array<U32>, crc: U32, bytes: seq<Byte>) returns (r: U32)
    requires table.Length == 256 && forall i :: 0 <= i < 256 ==> table[i] == TableEntry(i)
    ensures r == Update(crc, bytes)
  {
    r := crc;
    for k := 0 to |bytes|
      invariant r == Update(crc, bytes[..k])
    {
      UpdateOneMore(crc, bytes, k);
      r := UpdateByte(table, r, bytes[k]);
    }
    assert bytes[..|bytes|] == bytes;
  }
}
