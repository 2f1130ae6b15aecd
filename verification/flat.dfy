/** The earlier, flat DPCD decoder: one extractor over a list of register
    values indexed by DPCD address, and the range check in front of it. */
module Flat {
  import opened Common
  import opened Bits

  /** `field(val, byte, start_bit, end_bit)`: bits start..end of `val[byte]`.
      The register values come from parsed hex text, so they are not bounded
      to a byte; an index past the list raises IndexError. */
  function Field(val: seq<nat>, byte: nat, startBit: nat, endBit: nat): (r: Result<nat>)
    ensures r.Ok? <==> byte < |val|
    ensures r.Err? ==> r.error == IndexOutOfRange
    ensures r.Ok? && startBit <= endBit ==>
              r.value == val[byte] / Pow2(startBit) % Pow2(endBit - startBit + 1) &&
              r.value < Pow2(endBit - startBit + 1)
    ensures r.Ok? && endBit < startBit ==> r.value == 0
  {
    if byte < |val| then Ok(ExtractBits(val[byte], startBit, endBit)) else Err(IndexOutOfRange)
  }

  /** What `print_field` reports for a field: its resolved end bit and value. */
  datatype Reading = Reading(endBit: nat, value: nat)

  /** `print_field` without the printing: an omitted end bit means the single
      bit start_bit; an end bit below the start bit raises ValueError before
      the register is read. */
  function FieldToPrint(dpcd: seq<nat>, byte: nat, startBit: nat, endBit: Option<nat>): (r: Result<Reading>)
    ensures r == Err(InvertedBits) <==> endBit.Some? && endBit.value < startBit
    ensures r == Err(IndexOutOfRange) <==> (endBit.None? || startBit <= endBit.value) && |dpcd| <= byte
    ensures r.Ok? ==> r.value.endBit == (if endBit.Some? then endBit.value else startBit)
    ensures r.Ok? ==> r.value.value ==
                        dpcd[byte] / Pow2(startBit) % Pow2(r.value.endBit - startBit + 1)
    ensures r.Ok? && endBit.None? ==> r.value.value < 2
  {
    var end := if endBit.Some? then endBit.value else startBit;
    if end < startBit then Err(InvertedBits)
    else
      match Field(dpcd, byte, startBit, end)
      case Ok(v) => Ok(Reading(end, v))
      case Err(e) => Err(e)
  }
}
