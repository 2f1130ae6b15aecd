/** The register descriptors of the table-driven decoder: each covers a fixed
    DPCD interval [start, end] and declares the bit fields its parse()
    extracts; a RangeParser instance holds the bytes of one occurrence and the
    results extracted so far. */
module Ranges {
  import opened Common
  import opened Bits
  import opened Labels

  /** The `printfn` a field is declared with. */
  datatype Format =
    | Raw                                      // the default identity
    | LinkRate                                 // x * 0.27 Gbps
    | Flag(whenSet: string, whenClear: string) // a two-way label chosen by x != 0
    | BufferSize                               // (x + 1) * 32
    | PortType                                 // downstream_port_type
    | I2cSpeeds                                // i2c_speed_caps
    | AuxInterval                              // aux_rd_interval

  /** What `printfn(value)` produced. A link rate is kept in hundredths of
      a Gbps rather than as a float. */
  datatype Output =
    | Number(n: int)
    | Text(t: string)
    | Interval(interval: AuxReadInterval)
    | NoOutput                                 // Python's None

  /** `printfn(x)` for each declared format. */
  function Render(format: Format, x: nat): (r: Output)
    ensures r.NoOutput? <==> (format.PortType? && x >= 4) || (format.AuxInterval? && x >= 5)
    ensures format.Raw? ==> r == Number(x)
    ensures format.LinkRate? ==> r == Number(x * 27)
    ensures format.Flag? && format.whenSet != format.whenClear ==>
              r.Text? && (x != 0 <==> r.t == format.whenSet) && (x == 0 <==> r.t == format.whenClear)
    ensures format.BufferSize? && x < 256 ==> r.Number? && 32 <= r.n <= 8192 && r.n % 32 == 0
    ensures format.PortType? && x < 4 ==> r == Text(DownstreamPortType(x).value)
    ensures format.I2cSpeeds? ==> r.Text? && (r.t == NoBus <==> x == 0)
    ensures format.I2cSpeeds? && x < 256 ==> r.t != ""
    ensures format.AuxInterval? && x <= 4 ==> r.Interval? && r.interval.clockReqDoneUs == 100
  {
    match format
    case Raw => Number(x)
    case LinkRate => Number(x * 27)
    case Flag(whenSet, whenClear) => Text(if x != 0 then whenSet else whenClear)
    case BufferSize => Number((x + 1) * 32)
    case PortType =>
      (match DownstreamPortType(x) case Some(name) => Text(name) case None => NoOutput)
    case I2cSpeeds => Text(I2cSpeedCapsText(x))
    case AuxInterval =>
      (match AuxRdInterval(x) case Some(iv) => Interval(iv) case None => NoOutput)
  }

  /** One `add_result(label, offset, start_bit, end_bit, printfn)` call of a parse(). */
  datatype FieldSpec = FieldSpec(caption: string, offset: nat, startBit: nat, endBit: Option<nat>, format: Format)
  {
    /** The end bit after `end_bit = start_bit` for an omitted one. */
    function End(): nat
    {
      if endBit.Some? then endBit.value else startBit
    }
  }

  /** A register class: its name, its DPCD interval and the fields its parse() declares. */
  datatype Descriptor = Descriptor(name: string, start: nat, end: nat, layout: seq<FieldSpec>)
  {
    predicate Spans(addr: nat)
    {
      start <= addr <= end
    }

    /** `can_parse`: parsing starts only at the beginning of the range, the
        one spanned address whose predecessor is not spanned. */
    function CanParse(addr: nat): (r: bool)
      ensures start <= end ==> (r <==> Spans(addr) && (addr == 0 || !Spans(addr - 1)))
    {
      addr == start
    }

    /** `num_bytes`: how many addresses the range spans. */
    function NumBytes(): (r: int)
      ensures r >= 1 <==> start <= end
      ensures forall addr: nat :: Spans(addr) <==> start <= addr < start + r
    {
      end - start + 1
    }
  }

  /** The `ParseResult` named tuple. */
  datatype ParseResult = ParseResult(register: string, startBit: nat, endBit: nat, caption: string, value: nat, output: Output)

  /** A RangeParser once its parse() has run: its class, its bytes and its results. */
  datatype Record = Record(desc: Descriptor, value: seq<Byte>, fields: map<nat, ParseResult>)

  // ---------------------------------------------------------------------
  // Field extraction, as a function of the results so far

  /** The result one field yields from the register's bytes. */
  function Extracted(register: string, value: seq<Byte>, f: FieldSpec): (r: ParseResult)
    requires f.offset < |value|
    ensures r.register == register && r.caption == f.caption && r.startBit == f.startBit && r.endBit == f.End()
    ensures f.startBit <= f.End() ==>
              r.value == value[f.offset] / Pow2(f.startBit) % Pow2(f.End() - f.startBit + 1) &&
              r.value < Pow2(f.End() - f.startBit + 1)
    ensures f.endBit.None? ==> r.value < 2
    ensures r.output == Render(f.format, r.value)
  {
    var x := ExtractBits(value[f.offset], f.startBit, f.End());
    ParseResult(register, f.startBit, f.End(), f.caption, x, Render(f.format, x))
  }

  /** `add_result`: the results after one field, or the exception it raises. */
  function AddField(fields: map<nat, ParseResult>, register: string, value: seq<Byte>, f: FieldSpec)
    : (r: Result<map<nat, ParseResult>>)
    ensures r.Err? <==> f.End() < f.startBit || |value| <= f.offset
    ensures r.Err? ==> r.error == if f.End() < f.startBit then InvertedBits else IndexOutOfRange
    ensures r.Ok? ==> r.value.Keys == fields.Keys + {f.startBit}
    ensures r.Ok? ==> forall k :: k in fields && k != f.startBit ==> r.value[k] == fields[k]
    ensures r.Ok? ==>
              var e := r.value[f.startBit];
              && e.register == register && e.caption == f.caption
              && e.startBit == f.startBit && e.endBit == f.End()
              && e.value == value[f.offset] / Pow2(f.startBit) % Pow2(f.End() - f.startBit + 1)
              && e.value < Pow2(f.End() - f.startBit + 1)
              && e.output == Render(f.format, e.value)
    ensures r.Ok? && f.endBit.None? ==> r.value[f.startBit].value < 2
  {
    var end := f.End();
    if end < f.startBit then Err(InvertedBits)
    else if |value| <= f.offset then Err(IndexOutOfRange)
    else Ok(fields[f.startBit := Extracted(register, value, f)])
  }

  /** The results of a parse(), and the exception that stopped it, if any. */
  datatype Applied = Applied(fields: map<nat, ParseResult>, error: Option<Error>)

  /** A parse(): the declared fields, one add_result after the other, stopping
      at the first that raises. */
  function ApplyFields(fields: map<nat, ParseResult>, register: string, value: seq<Byte>, layout: seq<FieldSpec>)
    : (r: Applied)
    ensures r.error.None? <==>
              forall i :: 0 <= i < |layout| ==> layout[i].startBit <= layout[i].End() && layout[i].offset < |value|
    ensures r.error.None? ==> r.fields.Keys == fields.Keys + set i | 0 <= i < |layout| :: layout[i].startBit
    ensures fields.Keys <= r.fields.Keys
    decreases |layout|
  {
    if |layout| == 0 then Applied(fields, None)
    else
      match AddField(fields, register, value, layout[0])
      case Err(e) => Applied(fields, Some(e))
      case Ok(next) =>
        var rest := ApplyFields(next, register, value, layout[1..]);
        assert forall i :: 1 <= i < |layout| ==> layout[i] == layout[1..][i - 1];
        StartBitsCons(layout);
        rest
  }

  /** The start bits of a layout: its first field's, then the rest's. */
  lemma StartBitsCons(layout: seq<FieldSpec>)
    requires |layout| > 0
    ensures (set i | 0 <= i < |layout| :: layout[i].startBit)
         == {layout[0].startBit} + set i | 0 <= i < |layout[1..]| :: layout[1..][i].startBit
  {
    var all := set i | 0 <= i < |layout| :: layout[i].startBit;
    var rest := set i | 0 <= i < |layout[1..]| :: layout[1..][i].startBit;
    forall b | b in all
      ensures b in {layout[0].startBit} + rest
    {
      var i :| 0 <= i < |layout| && layout[i].startBit == b;
      if i > 0 {
        assert layout[1..][i - 1].startBit == b;
      }
    }
    forall b | b in rest
      ensures b in all
    {
      var i :| 0 <= i < |layout[1..]| && layout[1..][i].startBit == b;
      assert layout[i + 1].startBit == b;
    }
  }

  /** Python's slice `bytes[from:from + count]`, clipped to the buffer. */
  function Slice(bytes: seq<Byte>, from: nat, count: int): (r: seq<Byte>)
    ensures from < |bytes| && count > 0 ==> |r| == if from + count <= |bytes| then count else |bytes| - from
    ensures from >= |bytes| || count <= 0 ==> r == []
    ensures forall k :: 0 <= k < |r| ==> r[k] == bytes[from + k]
  {
    if from >= |bytes| || count <= 0 then []
    else if from + count <= |bytes| then bytes[from .. from + count]
    else bytes[from ..]
  }

  // ---------------------------------------------------------------------
  // The instance a parse works on

  class RangeParser {
    const desc: Descriptor
    const value: seq<Byte>
    var parseResult: map<nat, ParseResult>

    /** `RangeParser(bytes, value_offset)`: keeps this register's slice of the buffer. */
    constructor (desc: Descriptor, bytes: seq<Byte>, valueOffset: nat)
      ensures this.desc == desc
      ensures value == Slice(bytes, valueOffset, desc.NumBytes())
      ensures parseResult == map[]
    {
      this.desc := desc;
      value := Slice(bytes, valueOffset, desc.NumBytes());
      parseResult := map[];
    }

    /** `add_result`: stores the field under its start bit, replacing any earlier
        result with that start bit; on an exception the results stay as they were. */
    method AddResult(caption: string, offset: nat, startBit: nat, endBit: Option<nat>, format: Format)
      returns (err: Option<Error>)
      modifies this
      ensures var step := AddField(old(parseResult), desc.name, value, FieldSpec(caption, offset, startBit, endBit, format));
              && (step.Ok? ==> err.None? && parseResult == step.value)
              && (step.Err? ==> err == Some(step.error) && parseResult == old(parseResult))
    {
      var end := startBit;
      if endBit.Some? {
        end := endBit.value;
      }
      if end < startBit {
        return Some(InvertedBits);
      }
      if |value| <= offset {
        return Some(IndexOutOfRange);
      }
      var x := ExtractBits(value[offset], startBit, end);
      parseResult := parseResult[startBit := ParseResult(desc.name, startBit, end, caption, x, Render(format, x))];
      err := None;
    }

    /** parse(): the register's add_result calls in declaration order. */
    method Parse() returns (err: Option<Error>)
      modifies this
      ensures var a := ApplyFields(old(parseResult), desc.name, value, desc.layout);
              parseResult == a.fields && err == a.error
    {
      var k := 0;
      while k < |desc.layout|
        invariant 0 <= k <= |desc.layout|
        invariant ApplyFields(old(parseResult), desc.name, value, desc.layout)
               == ApplyFields(parseResult, desc.name, value, desc.layout[k..])
      {
        var f := desc.layout[k];
        assert desc.layout[k..][1..] == desc.layout[k + 1..];
        err := AddResult(f.caption, f.offset, f.startBit, f.endBit, f.format);
        if err.Some? {
          return;
        }
        k := k + 1;
      }
      err := None;
    }
  }

  // ---------------------------------------------------------------------
  // The register classes, in definition order

  function Bit(caption: string, bit: nat): FieldSpec
  {
    FieldSpec(caption, 0, bit, None, Raw)
  }

  function BitRange(caption: string, s: nat, e: nat): FieldSpec
  {
    FieldSpec(caption, 0, s, Some(e), Raw)
  }

  const DpcdRev := Descriptor("DPCD_REV", 0, 0, [
    BitRange("Major rev", 4, 7),
    BitRange("Minor rev", 0, 3)])

  const MaxLinkRate := Descriptor("MAX_LINK_RATE", 1, 1, [
    FieldSpec("Max link rate", 0, 0, Some(7), LinkRate)])

  const MaxLaneCount := Descriptor("MAX_LANE_COUNT", 2, 2, [
    Bit("Enhanced frame caps", 7),
    Bit("Supports TPS3 pattern", 6),
    Bit("Supports post-lt adjust", 5),
    BitRange("Max lane count", 0, 4)])

  const MaxDownspread := Descriptor("MAX_DOWNSPREAD", 3, 3, [
    Bit("Supports TPS4 pattern", 7),
    Bit("Requires AUX for sync", 6),
    BitRange("Reserved", 2, 5),
    Bit("Supports stream regen bit", 1),
    FieldSpec("Max downspread", 0, 0, None, Flag("<=0.5%", "None"))])

  const RecvPorts := Descriptor("NORP/DP_PWR_VOLTAGE_CAP", 4, 4, [
    Bit("Capable of 18V", 7),
    Bit("Capable of 12V", 6),
    Bit("Capable of 5V", 5),
    BitRange("Reserved", 2, 4),
    Bit("CRC 3D supported", 1),
    Bit("Number recv ports", 0)])

  const DownstreamPortPresent := Descriptor("DOWN_STREAM_PORT_PRESENT", 5, 5, [
    Bit("Reserved", 7),
    Bit("Detailed capability available", 4),
    Bit("Branch converts format", 3),
    FieldSpec("Downstream facing port type", 0, 1, Some(2), PortType),
    Bit("Downstream facing port present", 0)])

  const MainLinkChannelCoding := Descriptor("MAIN_LINK_CHANNEL_CODING", 6, 6, [
    BitRange("Reserved", 2, 7),
    Bit("Supports 128b/132b encoding", 1),
    Bit("Supports 8b/10b encoding", 0)])

  const DownStreamPortCount := Descriptor("DOWN_STREAM_PORT_COUNT", 7, 7, [
    Bit("IEEE unique ID support", 7),
    Bit("Sink requires MSA timing", 6),
    BitRange("Reserved", 4, 5),
    BitRange("Downstream port count", 0, 3)])

  /** The field list shared by both receive-port capability registers; the
      last field reads the second byte and lands on start bit 0, replacing
      the first byte's bit-0 "Reserved" result. */
  const ReceivePortCapLayout: seq<FieldSpec> := [
    BitRange("Reserved", 6, 7),
    FieldSpec("Buffer size per-lane/port", 0, 5, None, Flag("Per port", "Per lane")),
    FieldSpec("Buffer size units", 0, 4, None, Flag("Bytes", "Pixels")),
    Bit("HBlank expansion supported", 3),
    FieldSpec("usage", 0, 2, None, Flag("Secondary stream", "Primary stream")),
    Bit("Local EDID present", 1),
    Bit("Reserved", 0),
    FieldSpec("Buffer Size", 1, 0, Some(7), BufferSize)]

  const ReceivePortCap0 := Descriptor("RECEIVE_PORT0_CAP", 8, 9, ReceivePortCapLayout)

  const ReceivePortCap1 := Descriptor("RECEIVE_PORT1_CAP", 0xA, 0xB, ReceivePortCapLayout)

  const I2cSpeedCap := Descriptor("I2C Speed Control Capabilities Bit Map", 0xC, 0xC, [
    FieldSpec("I2C speed support", 0, 0, Some(7), I2cSpeeds)])

  const EdpConfigCap := Descriptor("eDP_CONFIGURATION_CAP", 0xD, 0xD, [
    BitRange("Reserved for eDP", 0, 7)])

  const TrainingAuxInterval := Descriptor("TRAINING_AUX_RD_INTERVAL", 0xE, 0xE, [
    Bit("Extended receiver caps available", 7),
    FieldSpec("Training AUX read interval", 0, 0, Some(6), AuxInterval)])

  /** The registered register classes, in the order they are defined. */
  const Registry: seq<Descriptor> := [
    DpcdRev, MaxLinkRate, MaxLaneCount, MaxDownspread, RecvPorts,
    DownstreamPortPresent, MainLinkChannelCoding, DownStreamPortCount,
    ReceivePortCap0, ReceivePortCap1, I2cSpeedCap, EdpConfigCap, TrainingAuxInterval]

  // ---------------------------------------------------------------------
  // Properties of the descriptors

  /** Every descriptor covers at least one byte. */
  predicate Advances(reg: seq<Descriptor>)
  {
    forall d :: d in reg ==> d.NumBytes() >= 1
  }

  /** Every declared field reads a byte inside the register and a bit range
      inside that byte, in ascending order. */
  predicate LayoutFits(d: Descriptor)
  {
    forall i :: 0 <= i < |d.layout| ==>
      d.layout[i].offset < d.NumBytes() && d.layout[i].startBit <= d.layout[i].End() < 8
  }

  /** Every registered class covers at least one byte and declares fields
      that fit its bytes. */
  lemma RegistryWellFormed()
    ensures Advances(Registry)
    ensures forall d :: d in Registry ==> LayoutFits(d)
  {
    RegistryAdvances();
    RegistryFits();
  }

  /** Every registered class covers at least one byte. */
  lemma RegistryAdvances()
    ensures Advances(Registry)
  {
  }

  /** Every registered class declares fields that fit its bytes. */
  lemma RegistryFits()
    ensures forall d :: d in Registry ==> LayoutFits(d)
  {
    RevAndRatesFit();
    DownspreadAndPortsFit();
    PortPresenceAndCodingFit();
    ReceivePortCapFits();
    LateCapsFit();
  }

  lemma RevAndRatesFit()
    ensures LayoutFits(DpcdRev) && LayoutFits(MaxLinkRate) && LayoutFits(MaxLaneCount)
  {
  }

  lemma DownspreadAndPortsFit()
    ensures LayoutFits(MaxDownspread) && LayoutFits(RecvPorts)
  {
  }

  lemma PortPresenceAndCodingFit()
    ensures LayoutFits(DownstreamPortPresent) && LayoutFits(MainLinkChannelCoding) && LayoutFits(DownStreamPortCount)
  {
  }

  lemma ReceivePortCapFits()
    ensures LayoutFits(ReceivePortCap0) && LayoutFits(ReceivePortCap1)
  {
  }

  lemma LateCapsFit()
    ensures LayoutFits(I2cSpeedCap) && LayoutFits(EdpConfigCap) && LayoutFits(TrainingAuxInterval)
  {
  }

  /** A register whose layout fits decodes without an exception from any
      slice holding all of its bytes. */
  lemma DecodesWhole(d: Descriptor, value: seq<Byte>)
    requires LayoutFits(d) && |value| >= d.NumBytes()
    ensures ApplyFields(map[], d.name, value, d.layout).error.None?
  {
  }

  /** Some descriptor's span holds the address. */
  predicate Covered(reg: seq<Descriptor>, addr: nat)
  {
    exists i :: 0 <= i < |reg| && reg[i].Spans(addr)
  }

  /** The registers' spans are disjoint and together cover addresses 0x000-0x00E. */
  lemma RegistryTilesCapabilityBlock()
    ensures forall i, j :: 0 <= i < j < |Registry| ==> Registry[i].end < Registry[j].start
    ensures forall a :: 0 <= a <= 0xE ==> Covered(Registry, a)
  {
    forall a | 0 <= a <= 0xE
      ensures Covered(Registry, a)
    {
      var i := if a <= 8 then a else if a <= 0xB then (a - 8) / 2 + 8 else a - 2;
      assert Registry[i].Spans(a);
    }
  }

  /** A field that raises nothing is stored as its extracted result. */
  lemma AddFieldStores(fields: map<nat, ParseResult>, register: string, value: seq<Byte>, f: FieldSpec)
    requires AddField(fields, register, value, f).Ok?
    ensures f.offset < |value|
    ensures AddField(fields, register, value, f).value[f.startBit] == Extracted(register, value, f)
  {
  }

  /** A parse() leaves alone every result whose start bit none of its fields uses. */
  lemma {:induction false} ApplyFieldsKeeps(fields: map<nat, ParseResult>, register: string, value: seq<Byte>,
                                            layout: seq<FieldSpec>, k: nat)
    requires k in fields
    requires forall j :: 0 <= j < |layout| ==> layout[j].startBit != k
    ensures ApplyFields(fields, register, value, layout).fields[k] == fields[k]
    decreases |layout|
  {
    if |layout| > 0 {
      var step := AddField(fields, register, value, layout[0]);
      if step.Ok? {
        ApplyFieldsKeeps(step.value, register, value, layout[1..], k);
      }
    }
  }

  /** A parse() whose ranges are all ordered, and one of whose fields reads
      past the register's bytes, raises IndexError. */
  lemma {:induction false} ApplyFieldsShort(fields: map<nat, ParseResult>, register: string, value: seq<Byte>,
                                            layout: seq<FieldSpec>, i: nat)
    requires i < |layout| && |value| <= layout[i].offset
    requires forall j :: 0 <= j < |layout| ==> layout[j].startBit <= layout[j].End()
    ensures ApplyFields(fields, register, value, layout).error == Some(IndexOutOfRange)
    decreases |layout|
  {
    var first := AddField(fields, register, value, layout[0]);
    if first.Ok? {
      assert i > 0;
      assert forall j :: 0 <= j < |layout[1..]| ==> layout[1..][j] == layout[j + 1];
      ApplyFieldsShort(first.value, register, value, layout[1..], i - 1);
    }
  }

  /** A parse() of two fit fields with different start bits stores both. */
  lemma TwoFields(fields: map<nat, ParseResult>, register: string, value: seq<Byte>, f0: FieldSpec, f1: FieldSpec)
    requires f0.startBit != f1.startBit
    requires f0.startBit <= f0.End() && f0.offset < |value|
    requires f1.startBit <= f1.End() && f1.offset < |value|
    ensures var a := ApplyFields(fields, register, value, [f0, f1]);
            && a.error.None?
            && f0.startBit in a.fields && a.fields[f0.startBit] == Extracted(register, value, f0)
            && f1.startBit in a.fields && a.fields[f1.startBit] == Extracted(register, value, f1)
  {
    var first := AddField(fields, register, value, f0);
    var second := AddField(first.value, register, value, f1);
    assert [f0, f1][1..] == [f1] && [f1][1..] == [];
    assert ApplyFields(second.value, register, value, []) == Applied(second.value, None);
    assert ApplyFields(first.value, register, value, [f1]) == Applied(second.value, None);
    assert ApplyFields(fields, register, value, [f0, f1]) == Applied(second.value, None);
    assert second.value[f0.startBit] == first.value[f0.startBit];
  }

  /** After a parse() that raised nothing, each start bit holds the result of
      the LAST field declared with that start bit. */
  lemma {:induction false} ApplyFieldsLastWins(fields: map<nat, ParseResult>, register: string, value: seq<Byte>,
                                               layout: seq<FieldSpec>, i: nat)
    requires ApplyFields(fields, register, value, layout).error.None?
    requires i < |layout|
    requires forall j :: i < j < |layout| ==> layout[j].startBit != layout[i].startBit
    ensures layout[i].offset < |value|
    ensures ApplyFields(fields, register, value, layout).fields[layout[i].startBit]
            == Extracted(register, value, layout[i])
    decreases |layout|
  {
    var step := AddField(fields, register, value, layout[0]);
    assert step.Ok?;
    if i == 0 {
      AddFieldStores(fields, register, value, layout[0]);
      ApplyFieldsKeeps(step.value, register, value, layout[1..], layout[0].startBit);
    } else {
      ApplyFieldsLastWins(step.value, register, value, layout[1..], i - 1);
    }
  }
}
