/**
 * The display side of main memory: how one stored word is shown in the
 * memory table (`MainMemory.MemoryEntry` and `MainMemory.formatBinary`).
 *
 * A word is shown as its 16-bit binary pattern, a decimal operand and a
 * four-digit hexadecimal operand.  Which bits form the operand depends on
 * the opcode group: a 12-bit operand for the opcodes 0000-1110, an 8-bit
 * operand for INSP and DESP (top byte 0xFC / 0xFE), none otherwise.  Only
 * LOCO (opcode 0111) reads its 12-bit operand as signed.
 *
 * The source computes the fields with shifts and masks on the unsigned
 * 16-bit value `u`; on `0 <= u < 65536` they are the arithmetic written here:
 * `(u >> 12) & 0xF == u / 4096`, `(u >> 8) & 0xFF == u / 256`,
 * `u & 0xFFF == u % 4096`, `u & 0xFF == u % 256`, the sign test
 * `(op & 0x800) != 0` is `op >= 2048`, and `op | 0xFFFFF000` read as an
 * `int` is `op - 4096`.
 */
module WordDecoder {
  import opened Wrappers
  import opened JavaNumbers

  /** `Short.toUnsignedInt((short) value)`: the low 16 bits of a stored `int`. */
  function Unsigned16(value: int): (u: nat)
    ensures u < 65536
  {
    value % 65536
  }

  /**
   * `formatBinary`: the word as exactly sixteen binary digits, its low 16 bits
   * in two's complement.
   */
  function FormatBinary(value: int): (r: string)
    ensures |r| == 16 && IsBinary(r) && BinValue(r) == value % 65536
  {
    Pow2Values();
    PadMinBinary(Unsigned16(value), 16);
    LeftPad(ToBinaryString(Unsigned16(value)), 16)
  }

  /** The three value columns of a memory row, before they are turned into text. */
  datatype Decoded = Decoded(binary: string, decimal: int, hex: nat)

  /** The decoding in `MemoryEntry.updateValue`. */
  function Decode(value: int): (d: Decoded)
    ensures d.binary == FormatBinary(value)
    ensures d.hex < 4096 && -2048 <= d.decimal < 4096
  {
    var u := Unsigned16(value);
    var top4, top8 := u / 4096, u / 256;
    if top4 <= 14 then
      var operand12 := u % 4096;
      var decimal := if top4 == 7 && operand12 >= 2048 then operand12 - 4096 else operand12;
      Decoded(FormatBinary(value), decimal, operand12)
    else if top8 == 0xFC || top8 == 0xFE then
      var operand8 := u % 256;
      Decoded(FormatBinary(value), operand8, operand8)
    else
      Decoded(FormatBinary(value), 0, 0)
  }

  /** Decoding looks at the low 16 bits of the stored `int` only. */
  lemma DecodeDependsOnLow16(v: int, w: int)
    requires v % 65536 == w % 65536
    ensures Decode(v) == Decode(w)
  {
  }

  /**
   * The decoded columns read straight off the displayed binary pattern `b`:
   * the opcode nibble is `b[..4]`, the extended opcode byte is `b[..8]`, the
   * 12-bit operand is `b[4..]` (signed, by its leading digit `b[4]`, only
   * under opcode 0111), the 8-bit operand is `b[8..]`.
   */
  lemma {:induction false} DecodeFromBits(value: int)
    ensures var b, d := FormatBinary(value), Decode(value);
      var top, byte := BinValue(b[..4]), BinValue(b[..8]);
      && top < 16 && byte < 256
      && (top <= 14 ==>
            && d.hex == BinValue(b[4..])
            && d.decimal == (if top == 7 && b[4] == '1' then d.hex - 4096 else d.hex))
      && (top == 15 && (byte == 0xFC || byte == 0xFE) ==>
            d.decimal == d.hex == BinValue(b[8..]))
      && (top == 15 && byte != 0xFC && byte != 0xFE ==>
            d.decimal == 0 && d.hex == 0)
  {
    BitFields(FormatBinary(value));
  }

  /** The opcode and operand fields of a 16-digit pattern, as arithmetic on its value. */
  lemma {:induction false} BitFields(b: string)
    requires |b| == 16 && IsBinary(b)
    ensures BinValue(b[..4]) == BinValue(b) / 4096 && BinValue(b[4..]) == BinValue(b) % 4096
    ensures BinValue(b[..8]) == BinValue(b) / 256 && BinValue(b[8..]) == BinValue(b) % 256
    ensures BinValue(b[..4]) < 16 && BinValue(b[..8]) < 256
    ensures b[4] == '1' <==> BinValue(b[4..]) >= 2048
  {
    Pow2Values();
    SuffixValue(b, 12);
    SuffixValue(b, 8);
    assert b[..|b| - 12] == b[..4] && b[|b| - 12..] == b[4..];
    assert b[..|b| - 8] == b[..8] && b[|b| - 8..] == b[8..];
    var op := b[4..];
    SuffixValue(op, 11);
    assert op[..|op| - 11] == [b[4]];
    assert [b[4]][..0] == [];
    assert BinValue([b[4]]) == BitOf(b[4]);
    BinValueBound(b[..4]);
    BinValueBound(b[..8]);
  }

  /** One row of the memory table: four text columns. */
  datatype MemoryEntry = MemoryEntry(address: string, binaryValue: string, decimalValue: string, hexValue: string)

  /** `MemoryEntry.updateValue`: recompute the value columns for a new word; the address column is kept. */
  function UpdateValue(e: MemoryEntry, value: int): (r: MemoryEntry)
    ensures r.address == e.address
  {
    var d := Decode(value);
    e.(binaryValue := d.binary, decimalValue := IntToString(d.decimal), hexValue := Hex4(d.hex))
  }

  /** `MemoryEntry.update`: set the address column (`%04d`) and the value columns. */
  function Update(e: MemoryEntry, address: nat, value: int): MemoryEntry
    requires address < 10000
  {
    UpdateValue(e.(address := Dec4(address)), value)
  }

  /** `new MemoryEntry(address, value)`. */
  function NewEntry(address: nat, value: int): (r: MemoryEntry)
    requires address < 10000
    ensures r.address == Dec4(address)
  {
    Update(MemoryEntry("", "", "", ""), address, value)
  }

  /**
   * Every column of a row reads back as what it displays: a four-digit
   * address, the sixteen binary digits of the word, the decimal operand and
   * the operand as four upper-case hexadecimal digits.
   */
  lemma EntryColumns(address: nat, value: int)
    requires address < 10000
    ensures var e, d := NewEntry(address, value), Decode(value);
      && |e.address| == 4 && AllDecimal(e.address) && DecValue(e.address) == address
      && |e.binaryValue| == 16 && IsBinary(e.binaryValue) && BinValue(e.binaryValue) == value % 65536
      && ParseInt(e.decimalValue) == Some(d.decimal)
      && |e.hexValue| == 4 && (forall i :: 0 <= i < 4 ==> IsHexDigit(e.hexValue[i]))
      && HexValue(e.hexValue) == d.hex
  {
    ParseIntOfIntToString(Decode(value).decimal);
  }

  /** Refreshing a row with a new word gives the row a fresh entry for that word would have. */
  lemma {:induction false} UpdateValueOfEntry(e: MemoryEntry, address: nat, value: int)
    requires address < 10000 && e.address == Dec4(address)
    ensures UpdateValue(e, value) == NewEntry(address, value)
  {
  }
}
