/** Facts about the declared register layouts of the table-driven decoder. */
module Registers {
  import opened Common
  import opened Bits
  import opened Ranges

  /** The receive-port capability layout decodes two bytes without an exception
      and fills the seven start bits 0..6. */
  lemma ReceivePortCapDecodes(register: string, value: seq<Byte>)
    requires |value| == 2
    ensures var a := ApplyFields(map[], register, value, ReceivePortCapLayout);
            a.error.None? && a.fields.Keys == {0, 1, 2, 3, 4, 5, 6}
  {
    ReceivePortCapFits();
    DecodesWhole(ReceivePortCap0, value);
    ReceivePortCapStartBits();
  }

  /** The second byte's buffer size is stored under start bit 0, replacing the
      first byte's bit-0 "Reserved"; it renders as (x + 1) * 32, between 32 and 8192. */
  lemma BufferSizeReplacesReserved(register: string, value: seq<Byte>)
    requires |value| == 2
    ensures var a := ApplyFields(map[], register, value, ReceivePortCapLayout);
            && a.error.None? && 0 in a.fields
            && a.fields[0].caption == "Buffer Size" && a.fields[0].value == value[1]
            && a.fields[0].output == Number((value[1] as int + 1) * 32)
            && 32 <= (value[1] as int + 1) * 32 <= 8192
  {
    ReceivePortCapDecodes(register, value);
    StoredUnder(register, value, 7, 0);
    BufferSizeField(register, value);
  }

  /** The first field, bits 6..7 of the first byte, is not overwritten. */
  lemma TopReservedKept(register: string, value: seq<Byte>)
    requires |value| == 2
    ensures var a := ApplyFields(map[], register, value, ReceivePortCapLayout);
            && a.error.None? && 6 in a.fields
            && a.fields[6].caption == "Reserved" && a.fields[6].value == value[0] / 64
  {
    ReceivePortCapDecodes(register, value);
    ReceivePortCapLastReserved();
    StoredUnder(register, value, 0, 6);
    ReservedField(register, value);
  }

  /** Field `i` of the receive-port layout, at start bit `bit`, is the one stored there. */
  lemma StoredUnder(register: string, value: seq<Byte>, i: nat, bit: nat)
    requires ApplyFields(map[], register, value, ReceivePortCapLayout).error.None?
    requires i < |ReceivePortCapLayout| && ReceivePortCapLayout[i].startBit == bit
    requires forall j :: i < j < |ReceivePortCapLayout| ==> ReceivePortCapLayout[j].startBit != bit
    ensures ApplyFields(map[], register, value, ReceivePortCapLayout).fields[bit]
            == Extracted(register, value, ReceivePortCapLayout[i])
  {
    ApplyFieldsLastWins(map[], register, value, ReceivePortCapLayout, i);
  }

  lemma ReceivePortCapStartBits()
    ensures (set i | 0 <= i < |ReceivePortCapLayout| :: ReceivePortCapLayout[i].startBit) == {0, 1, 2, 3, 4, 5, 6}
  {
    var layout := ReceivePortCapLayout;
    assert layout[0].startBit == 6 && layout[1].startBit == 5 && layout[2].startBit == 4;
    assert layout[3].startBit == 3 && layout[4].startBit == 2 && layout[5].startBit == 1;
    assert layout[6].startBit == 0 && layout[7].startBit == 0;
  }

  /** No later field of the layout reuses start bit 6. */
  lemma ReceivePortCapLastReserved()
    ensures forall j :: 0 < j < |ReceivePortCapLayout| ==> ReceivePortCapLayout[j].startBit != 6
  {
  }

  lemma BufferSizeField(register: string, value: seq<Byte>)
    requires |value| == 2
    ensures var r := Extracted(register, value, ReceivePortCapLayout[7]);
            && r.caption == "Buffer Size" && r.value == value[1]
            && r.output == Number((value[1] as int + 1) * 32) && 32 <= (value[1] as int + 1) * 32 <= 8192
  {
    var f := ReceivePortCapLayout[7];
    var x := ExtractBits(value[1], 0, 7);
    assert f.offset == 1 && f.startBit == 0 && f.End() == 7 && f.format == BufferSize;
    assert Pow2(0) == 1 && Pow2(8) == 256;
    assert x == value[1] / 1 % 256;
    assert x == value[1];
  }

  lemma ReservedField(register: string, value: seq<Byte>)
    requires |value| == 2
    ensures var r := Extracted(register, value, ReceivePortCapLayout[0]);
            r.caption == "Reserved" && r.value == value[0] / 64
  {
    var b := value[0];
    assert Pow2(6) == 64 && Pow2(2) == 4;
    assert b / 64 < 4;
    assert b / 64 % 4 == b / 64;
  }
}
