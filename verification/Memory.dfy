/** The flat 64 KiB byte memory (rocketvm/memory.h). */
module FlatMemory {
  import opened Isa
  import opened Bits
  import opened Machine
  import WordFormat

  class Memory {
    const data: array<Byte>

    ghost predicate Valid() { data.Length == MEMORY_SIZE }

    ghost function Contents(): Bytes
      requires Valid()
      reads data
    {
      data[..]
    }

    constructor ()
      ensures Valid() && fresh(data)
      ensures Contents() == seq(MEMORY_SIZE, _ => 0)
    {
      data := new Byte[MEMORY_SIZE](_ => 0);
      new;
      assert data[..] == seq(MEMORY_SIZE, _ => 0);
    }

    /** The second precondition is the original's assert. */
    method ReadUint16(offset: Word) returns (r: Word)
      requires Valid()
      requires offset < 0xFFFF
      ensures r == ReadWord(Contents(), offset)
    {
      var low := data[offset];
      var high := data[offset + 1];
      JoinBytes(low, high);
      r := Or(Shl(high, 8) % 0x10000, low);
    }

    method WriteUint16(offset: Word, value: Word)
      requires Valid()
      requires offset < 0xFFFF
      modifies data
      ensures Contents() == WriteWord(old(Contents()), offset, value)
    {
      SplitWord(value);
      data[offset] := And(value, 0xFF);
      data[offset + 1] := And(Shr(value, 8), 0xFF);
    }
  }

  lemma JoinBytes(low: Byte, high: Byte)
    ensures Or(Shl(high, 8) % 0x10000, low) == low + 0x100 * high
  {
    hide Or, Pow2;
    assert Pow2(8) == 0x100 by { Pow2Values(); }
    assert Shl(high, 8) == 0x100 * high;
    OrDisjoint(high, low, 8);
  }

  lemma SplitWord(v: Word)
    ensures And(v, 0xFF) == v % 0x100 && And(Shr(v, 8), 0xFF) == v / 0x100
  {
    hide And, Shr;
    WordFormat.ShiftValues(v);
    WordFormat.MaskValues(v);
    WordFormat.MaskValues(v / 0x100);
  }

  // ---- what reads see of writes ----

  lemma ReadOwnWrite(m: Bytes, a: Word, v: Word)
    requires a < 0xFFFF
    ensures ReadWord(WriteWord(m, a, v), a) == v
  {
  }

  /** Words that share no byte do not disturb each other. */
  lemma ReadOtherWrite(m: Bytes, a: Word, v: Word, b: Word)
    requires a < 0xFFFF && b < 0xFFFF && (b + 1 < a || a + 1 < b)
    ensures ReadWord(WriteWord(m, a, v), b) == ReadWord(m, b)
  {
  }
}
