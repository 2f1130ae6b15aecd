/** Decodes of concrete buffers by `Parser.parse` over the registered classes, proved. */
module Scenarios {
  import opened Common
  import opened Bits
  import opened Ranges
  import opened Dispatch

  /** Bits 4..7 of a byte are its high nibble, bits 0..3 its low nibble. */
  lemma Nibbles(b: Byte)
    ensures ExtractBits(b, 4, 7) == b / 16 && ExtractBits(b, 0, 3) == b % 16
  {
    assert Pow2(4) == 16 && Pow2(0) == 1;
    DivUnique(b / 16, 16, 0, b / 16);
  }

  /** DPCD_REV's two fields over a byte b: the major revision is its high
      nibble, stored under start bit 4, the minor its low nibble, under 0. */
  lemma DpcdRevFields(b: Byte)
    ensures var a := Decode(DpcdRev, [b]);
            && a.error.None? && 4 in a.fields && 0 in a.fields
            && a.fields[4].caption == "Major rev" && a.fields[4].value == b / 16
            && a.fields[0].caption == "Minor rev" && a.fields[0].value == b % 16
  {
    var value: seq<Byte> := [b];
    var major := BitRange("Major rev", 4, 7);
    var minor := BitRange("Minor rev", 0, 3);
    assert DpcdRev.layout == [major, minor];
    TwoFields(map[], DpcdRev.name, value, major, minor);
    Nibbles(b);
  }

  /** The one-byte buffer [b] at address 0 decodes to a single DPCD_REV
      register, its high nibble the major and its low nibble the minor
      revision, and leaves nothing unparsed. */
  lemma DpcdRevScan(b: Byte)
    ensures var s := Scan(Registry, Decode, [b], 0, [], map[]);
            && s.error.None? && s.unparsed == map[] && |s.records| == 1
            && s.records[0].desc == DpcdRev && s.records[0].value == [b]
            && 4 in s.records[0].fields && 0 in s.records[0].fields
            && s.records[0].fields[4].caption == "Major rev" && s.records[0].fields[4].value == b / 16
            && s.records[0].fields[0].caption == "Minor rev" && s.records[0].fields[0].value == b % 16
  {
    var bytes: seq<Byte> := [b];
    RegistryAdvances();
    FirstIsDpcdRev();
    assert Slice(bytes, 0, DpcdRev.NumBytes()) == bytes;
    DpcdRevFields(b);
    ScanOneRegister(Registry, Decode, bytes, 0, 0);
  }

  /** [0x11] at address 0: DPCD revision 1.1. */
  lemma DpcdRev11()
    ensures var s := Scan(Registry, Decode, [0x11], 0, [], map[]);
            && s.error.None? && s.unparsed == map[] && |s.records| == 1 && s.records[0].desc == DpcdRev
            && 4 in s.records[0].fields && 0 in s.records[0].fields
            && s.records[0].fields[4].value == 1 && s.records[0].fields[0].value == 1
  {
    DpcdRevScan(0x11);
  }

  /** Address 0 selects DPCD_REV, the first registered class. */
  lemma FirstIsDpcdRev()
    ensures Registry[0] == DpcdRev && FirstMatch(Registry, 0) == Some(0)
  {
  }

  /** No registered class starts past the capability block. */
  lemma NothingStartsAt(addr: nat)
    requires addr > 0xE
    ensures FirstMatch(Registry, addr).None?
  {
    assert forall j :: 0 <= j < |Registry| ==> Registry[j].start <= 0xE;
  }

  /** A byte at address 0x00F, past every registered class, is kept as unparsed. */
  lemma PastBlockUnparsed(b: Byte)
    ensures Scan(Registry, Decode, [b], 0xF, [], map[]) == Scanned([], map[0xF := b], None)
  {
    RegistryWellFormed();
    var bytes: seq<Byte> := [b];
    var step := BodyWitness(Registry, Decode, bytes, 0xF, [], map[]);
    NothingStartsAt(0xF);
    assert BodyAt(step, Registry, Decode, bytes, 0xF, 0);
    RunSkip(step, bytes, 0xF, 0, [], map[]);
  }
}
