/** What register writes do, bit by bit. */
module EncRegisters {
  import opened Bytes
  import opened EncChip

  /** A written bit takes the new value where the register allows it; elsewhere writing zero clears a
      clearable bit and leaves any other alone. */
  lemma AdjustBit(reg: nat, value: byte, prev: byte, i: nat)
    requires i < 8
    ensures Bits8(AdjustRegWrite(reg, value, prev))[i] ==
            if Bits8(WriteMask(reg))[i] then Bits8(value)[i]
            else Bits8(prev)[i] && (Bits8(value)[i] || !Bits8(ClearableMask(reg))[i])
  {
    var clr, wr := ClearableMask(reg), WriteMask(reg);
    var cleared := And(Not(value), clr);
    var kept := And(prev, Not(cleared));
    OrBit(And(kept, Not(wr)), And(value, wr), i);
    AndBit(kept, Not(wr), i);
    AndBit(value, wr, i);
    NotBit(wr, i);
    AndBit(prev, Not(cleared), i);
    NotBit(cleared, i);
    AndBit(Not(value), clr, i);
    NotBit(value, i);
  }

  lemma Below32(x: byte)
    ensures x < 0x20 <==> !Bits8(x)[0] && !Bits8(x)[1] && !Bits8(x)[2]
  {
  }

  lemma PointerHighMask(i: nat)
    requires i < 8
    ensures Bits8(0x1f)[i] == (i >= 3)
  {
  }

  lemma FullMask(i: nat)
    requires i < 8
    ensures Bits8(0xff)[i] && !Bits8(0)[i]
  {
  }

  /** Registers with no read-only bits take the value as it is. */
  lemma AdjustWhole(reg: nat, value: byte, prev: byte)
    requires WriteMask(reg) == 0xff
    ensures AdjustRegWrite(reg, value, prev) == value
  {
    forall i | 0 <= i < 8
      ensures Bits8(AdjustRegWrite(reg, value, prev))[i] == Bits8(value)[i]
    {
      AdjustBit(reg, value, prev, i);
      FullMask(i);
    }
    SameBits(AdjustRegWrite(reg, value, prev), value);
  }

  /** The high byte of a buffer pointer stays below 0x20, and takes any value below 0x20. */
  lemma AdjustPointerHigh(reg: nat, value: byte, prev: byte)
    requires WriteMask(reg) == 0x1f && ClearableMask(reg) == 0 && prev < 0x20
    ensures AdjustRegWrite(reg, value, prev) < 0x20
    ensures value < 0x20 ==> AdjustRegWrite(reg, value, prev) == value
  {
    var result := AdjustRegWrite(reg, value, prev);
    Below32(value);
    Below32(prev);
    Below32(result);
    forall i | 0 <= i < 8
      ensures Bits8(result)[i] == if i >= 3 then Bits8(value)[i] else Bits8(prev)[i]
    {
      AdjustBit(reg, value, prev, i);
      PointerHighMask(i);
      FullMask(i);
    }
    if value < 0x20 {
      SameBits(result, value);
    }
  }

  /** PKTDEC is written as it is asked for. */
  lemma AdjustPktDec(prev: byte, wanted: byte)
    ensures BitSet(AdjustRegWrite(ECON2, wanted, prev), 6) == BitSet(wanted, 6)
  {
    assert Bits8(0xe8)[1];
    AdjustBit(ECON2, wanted, prev, 1);
  }

  /** A register with no writable and no clearable bits stays as it is. */
  lemma AdjustReadOnly(reg: nat, value: byte, prev: byte)
    requires WriteMask(reg) == 0 && ClearableMask(reg) == 0
    ensures AdjustRegWrite(reg, value, prev) == prev
  {
    forall i | 0 <= i < 8
      ensures Bits8(AdjustRegWrite(reg, value, prev))[i] == Bits8(prev)[i]
    {
      AdjustBit(reg, value, prev, i);
      FullMask(i);
    }
    SameBits(AdjustRegWrite(reg, value, prev), prev);
  }
}
