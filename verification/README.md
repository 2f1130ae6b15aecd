# DPCD capability decoder, modelled in Dafny

The project models two decoders for the DisplayPort DPCD capability block
(DPCD addresses 0x000-0x00E):

- **The table-driven decoder** (`parser.py`). Each register class covers a
  fixed address interval `[start, end]`, and its `parse()` declares bit
  fields with `add_result`. `add_result` extracts bits `start_bit..end_bit`
  of one byte of the register and stores the result under its start bit.
  `Parser.parse(bytes, offset)` walks a byte buffer whose first byte sits at
  DPCD address `offset`. At each address it looks for the first registered
  class whose `can_parse` accepts that address. If one does, it builds an
  instance over the register's bytes, runs its `parse()`, appends the
  instance to `result` and skips `num_bytes()` bytes. Otherwise it records
  the byte in `unparsed` and moves on by one.
- **The earlier flat decoder** (`dpcd_parser.py`). It has the same
  extractor as a free function (`field`), the end-bit defaulting and range
  check of `print_field`, and three value-to-label helpers:
  `downstream_port_type`, `i2c_speed_caps` and `aux_rd_interval`.
  `parser.py` carries identical copies of the three helpers as methods.

The files:

- `common.dfy`: bytes, `Option`, `Result`, and the two exceptions the
  decoders raise. `InvertedBits` is the `ValueError`; `IndexOutOfRange` is
  the `IndexError` of reading past a register's bytes.
- `bits.dfy`: Python's `&`, `^` and `<<` on non-negative integers. It holds
  the mask-and-shift extractor and the proof that it selects a bit range.
- `labels.dfy`: the three label helpers. `i2c_speed_caps` is an imperative
  method proved against a list specification.
- `flat.dfy`: `field` and `print_field` of the flat decoder.
- `ranges.dfy`:
  - field layouts and register descriptors;
  - `add_result` as a function and as the `RangeParser` method that updates
    `parse_result`;
  - `parse()` as the sequence of `add_result` calls;
  - the registry in class-definition order.
- `registers.dfy`: facts about the layout shared by both receive-port
  capability registers.
- `dispatch.dfy`: the `Parser` class and its `while` loop, proved against
  the function `Scan`, and the coverage and partition properties of `Scan`.
- `scenarios.dfy`: decodes of concrete buffers over the real registry, proved.
- `coverage.dfy`: when `parse` over the real registry raises, for every
  buffer and base address, and the partition of the buffer when it does not.

Python integers are Dafny `nat`s, which are unbounded like Python's. An
exception is a value: `AddField` and `ApplyFields` return it, and the
methods return it as `err`. The state left behind is exactly what Python
leaves when the exception propagates. That means the results stored before
the failing `add_result`, or the records and unparsed bytes appended before
the failing register.

Three consequences of the code's own choices are kept as they are:

- Fields are keyed by start bit, so a later field with the same start bit
  replaces an earlier one (`Registers.BufferSizeReplacesReserved`).
- A register cut off by the buffer's end gets a clipped slice. The first
  field that reads past it raises `IndexError` (`IndexOutOfRange`). Over the
  real registry this happens exactly when the buffer ends on address 0x008
  or 0x00A, the first byte of a receive-port register
  (`Coverage.ScanRaises`).
- `parser.py:135` declares DOWN_STREAM_PORT_PRESENT's "Reserved" as bit 7
  alone, while `dpcd_parser.py:115` declares bits 5..7. The model follows
  `parser.py`, so the table-driven decoder does not decode bits 5 and 6 of
  address 0x005.

## Model

| member | source | states |
|---|---|---|
| Bits.ExtractBits | parser.py:32-36 | `__field(v, s, e)` is bits s..e of v: `(v >> s) mod 2^(e-s+1)`, so it is below `2^(e-s+1)`; for e < s the mask selects nothing and the result is 0 |
| Bits.MaskedShift | parser.py:33-36 | the mask `((1<<s)-1) ^ ((1<<(e+1))-1)`, ANDed with v and shifted right by s, equals the arithmetic bit range |
| Bits.XorLowMasks | parser.py:35 | XOR of the two low masks is the band of bits between them |
| Bits.AndLowMask | parser.py:33-36 | ANDing with `(1<<n)-1` keeps the n low bits, `v mod 2^n` |
| Bits.AndPow2 | dpcd_parser.py:51-62 | `val & (1 << k)` is non-zero exactly when bit k of val is one |
| Bits.SomeBitSet | dpcd_parser.py:47-65 | a non-zero value below 2^n has a set bit among its n low bits |
| Flat.Field | dpcd_parser.py:4-8 | `field(val, byte, s, e)` fails with IndexError exactly when `byte` is past the list; otherwise it is bits s..e of `val[byte]`, below `2^(e-s+1)` |
| Flat.FieldToPrint | dpcd_parser.py:10-15 | `print_field` raises ValueError exactly when the end bit is given and below the start bit; an omitted end bit reads the single bit start_bit, value 0 or 1; otherwise the value is the bit range |
| Labels.DownstreamPortType | dpcd_parser.py:21-29 | a name exactly for the values 0..3, Python's `None` for every other value |
| Labels.PortTypeCoversField | dpcd_parser.py:118 | the two-bit port-type field (bits 1..2) always has a name, and the four names are distinct |
| Labels.I2cSpeedCapsText | parser.py:198-216 | the text `i2c_speed_caps` returns is the no-bus text exactly for 0, and never empty for a byte |
| Labels.SpeedTextNotNoBus | dpcd_parser.py:50-65 | a joined speed list never reads as the no-bus text |
| Labels.I2cSpeedCaps | dpcd_parser.py:47-65 | returns "No physical i2c bus" for 0; otherwise the `/`-join of one name per set bit 0..5, then "RESERVED" if bit 6 or 7 is set |
| Labels.SpeedsBelowListsSetBits | dpcd_parser.py:51-62 | the speeds listed for bits below n are each the name of a set bit, in strictly ascending bit order, and every set bit's name is listed |
| Labels.SpeedListedIff | dpcd_parser.py:51-62 | speed k (k < 6) is listed iff bit k is set |
| Labels.SpeedListOrdered | dpcd_parser.py:50-65 | the listed entries come in strictly ascending bit order, "RESERVED" last |
| Labels.ReservedListed | dpcd_parser.py:63-64 | "RESERVED" is listed iff bit 6 or bit 7 is set, and then it is the last entry |
| Labels.I2cSpeedsListed | dpcd_parser.py:50-65 | all of the above together for a non-zero map |
| Labels.I2cSpeedsNonEmpty | dpcd_parser.py:47-65 | for a non-zero byte the list is never empty, so the returned text is never empty |
| Labels.AuxRdInterval | dpcd_parser.py:67-78 | defined exactly for 0..4: ClockReqDone 100us and ChannelEqDone 400, 4000, 8000, 12000, 16000us; `None` otherwise |
| Labels.AuxIntervalOfField | dpcd_parser.py:149 | the seven-bit interval field is below 128 and has no text exactly for codes 5..127 |
| Ranges.Descriptor.CanParse | parser.py:21-27 | `can_parse` accepts exactly the beginning of the range: the one spanned address whose predecessor is not spanned |
| Ranges.Descriptor.NumBytes | parser.py:29-30 | `num_bytes` is the number of addresses the range spans, at least one exactly when the range is not empty |
| Ranges.Render | parser.py:78-250 | the `printfn` of each registered class's `add_result` calls, per format: identity; the link rate as `x * 27` hundredths of a Gbps; a two-way flag chosen by `x != 0`; a buffer size that is a multiple of 32 in [32, 8192] for a byte; the port-type name for 0..3; the I2C text, which is the no-bus text exactly for 0 and never empty for a byte; the AUX interval for 0..4. Python's `None` comes out exactly for port types from 4 and interval codes from 5 |
| Ranges.Extracted | parser.py:43-44 | the `ParseResult` one field yields: the register's name, the caption, the start and resolved end bit, the bit-range value below `2^(e-s+1)`, a single bit for an omitted end bit, and `printfn` of that value |
| Ranges.AddFieldStores | parser.py:43-45 | a field that raises nothing is stored under its start bit as its extracted result |
| Ranges.AddField | parser.py:38-45 | `add_result` fails exactly on an inverted range (ValueError, checked first) or a byte offset past the register (IndexError); otherwise it stores the field under its start bit, replacing any earlier entry there and keeping every other entry; the stored value is the bit range, and an omitted end bit gives a single bit, 0 or 1 |
| Ranges.ApplyFields | parser.py:69-71 | a `parse()`, its `add_result` calls in order: it raises nothing iff every field has an ordered range and a byte inside the register; then the stored keys are the old keys plus the declared start bits |
| Ranges.ApplyFieldsKeeps | parser.py:45 | a result under a start bit that no field declares is left alone |
| Ranges.TwoFields | parser.py:69-71 | a parse() of two fields with different start bits, both inside the register and with ordered ranges, raises nothing and stores each field's extracted result under its start bit |
| Ranges.ApplyFieldsShort | parser.py:41-43 | a parse() whose ranges are all ordered and one of whose fields reads past the register's bytes raises IndexError, never ValueError |
| Ranges.ApplyFieldsLastWins | parser.py:45 | after a parse that raised nothing, each start bit holds the result of the last field declared with that start bit |
| Ranges.Slice | parser.py:18 | `bytes[from:from+count]`: clipped at the end of the buffer, empty past it, and each element is the buffer's byte at that position |
| Ranges.RangeParser.constructor | parser.py:17-19 | the instance keeps its class, the slice of `num_bytes()` bytes from its offset, and no results |
| Ranges.RangeParser.AddResult | parser.py:38-45 | updates `parse_result` exactly as `AddField` does, and leaves it unchanged when it raises |
| Ranges.RangeParser.Parse | parser.py:69-71 | the results and the exception equal `ApplyFields` over the class's declared fields, starting from the current results |
| Ranges.RegistryWellFormed | parser.py:29-30 | every registered class spans at least one byte (`num_bytes() >= 1`), and every declared field reads a byte inside the register and an ordered bit range inside that byte |
| Ranges.RegistryAdvances | parser.py:29-30 | every registered class spans at least one byte, so `num_bytes() >= 1` |
| Ranges.RegistryFits | parser.py:64-250 | every registered class declares fields that read a byte inside the register and an ordered bit range inside that byte |
| Ranges.RevAndRatesFit | parser.py:64-91 | the fields of DPCD_REV, MAX_LINK_RATE and MAX_LANE_COUNT fit their registers |
| Ranges.DownspreadAndPortsFit | parser.py:93-117 | the fields of MAX_DOWNSPREAD and NORP/DP_PWR_VOLTAGE_CAP fit their registers |
| Ranges.PortPresenceAndCodingFit | parser.py:119-161 | the fields of DOWN_STREAM_PORT_PRESENT, MAIN_LINK_CHANNEL_CODING and DOWN_STREAM_PORT_COUNT fit their registers |
| Ranges.ReceivePortCapFits | parser.py:163-191 | the shared receive-port layout fits both two-byte receive-port registers |
| Ranges.LateCapsFit | parser.py:193-250 | the fields of the I2C speed, eDP configuration and training AUX interval registers fit their registers |
| Ranges.DecodesWhole | parser.py:43 | a register whose fields fit never raises when its slice holds all its bytes |
| Ranges.RegistryTilesCapabilityBlock | parser.py:64-233 | the registered intervals are disjoint and in ascending order, and together they cover 0x000-0x00E |
| Registers.ReceivePortCapDecodes | parser.py:163-175 | the receive-port layout decodes two bytes without raising and fills exactly start bits 0..6 |
| Registers.BufferSizeReplacesReserved | parser.py:174-175 | "Buffer Size" (byte 1, bits 0..7) replaces the first byte's bit-0 "Reserved" under key 0; its value is byte 1 and it renders as `(x+1)*32`, between 32 and 8192 |
| Registers.TopReservedKept | parser.py:166 | the bits 6..7 "Reserved" field is not overwritten and holds the top two bits of byte 0 |
| Registers.BufferSizeField | parser.py:175 | the "Buffer Size" field reads the whole second byte and renders in [32, 8192] |
| Registers.ReservedField | parser.py:166 | the first field reads bits 6..7 of byte 0 |
| Dispatch.FirstMatchFrom | parser.py:266-274 | the inner `for r in self.registry` with `break`: the first class at or after `from` whose `can_parse` accepts the address, or none when no later class does |
| Dispatch.StepAt | parser.py:264-280 | one pass at index i skips iff no class starts at `i + offset`; a finished parser belongs to a registered class that starts at that address |
| Dispatch.Parser.constructor | parser.py:254-259 | the registry in class-definition order, an empty result list and no unparsed bytes; every registered class advances the loop |
| Dispatch.Parser.Lookup | parser.py:266-268 | finds the first class whose `can_parse` accepts the address, no earlier class does, and none is found iff no class accepts it |
| Dispatch.Parser.Instantiate | parser.py:270-272 | `r(bytes, i)` then `parse()`: the record holds class `k`, its slice of the buffer and the results of its `parse()`, and the error is the exception that `parse()` raised |
| Dispatch.Parser.InstantiateAt | parser.py:270-274 | the same call is the loop body's outcome at index i: it finishes the parser or raises |
| Dispatch.Parser.ParseAt | parser.py:264-280 | one loop pass moves the index on by at least one byte, and the rest of the loop from the new state computes what it computed from the old; when it raises, the state is unchanged |
| Dispatch.Parser.Parse | parser.py:261-280 | the new result list, unparsed map and exception are those of `Scan` from the old state |
| Dispatch.RunWell | parser.py:263-280 | a loop started from an accounted state ends with records that start in the buffer, each produced at its start, in address order; unparsed bytes copied from the buffer; nothing in two places; and, unless an exception stopped it, every address accounted for |
| Dispatch.RunAppends | parser.py:273-277 | the loop appends to the result list and writes into the unparsed map: running from a non-empty state gives the old records followed by the new, and the old map overwritten by the new entries |
| Dispatch.ScanWell | parser.py:261-280 | after `parse(bytes, offset)` from an empty state, each record is one of the decoded registers: its start address is in the buffer; its class is the first registered class that accepts the address; its value is the buffer slice from there; its fields are what that class's `parse()` returned without raising. The records are in address order. Each unparsed address is in the buffer, no class starts there, and it holds `bytes[a - offset]`. No unparsed address lies in a span. With no exception, every address is covered |
| Dispatch.PartitionOfBuffer | parser.py:261-280 | with no exception, each address in `[offset, offset+len(bytes))` is unparsed iff it lies in no appended span, and it lies in at most one span |
| Dispatch.ScanOneRegister | parser.py:263-280 | a buffer no longer than the register that starts at the base address yields exactly that register's record, over the buffer's bytes, and nothing unparsed, when its parse() raises nothing |
| Dispatch.ScanAppends | parser.py:261-280 | a second `parse` call appends its records after the existing ones and merges its unparsed bytes over the existing map |
| Coverage.RegisterSizes | parser.py:177-191 | the two receive-port registers span two bytes and share their layout; every other registered class spans one byte |
| Coverage.RegisterStartsAt | parser.py:266-268 | some registered class starts at every address of 0x000-0x00E except 0x009 and 0x00B |
| Coverage.NothingStartsInside | parser.py:266-268 | no registered class starts at 0x009 or 0x00B, the second bytes of the receive-port registers |
| Coverage.RegisterAt | parser.py:266-272 | the class the inner loop picks at a register's first address starts there, has the right size, and has fields that fit its bytes |
| Coverage.ReceivePortCapCut | parser.py:163-175 | a receive-port register cut to one byte raises IndexError from its "Buffer Size" field |
| Coverage.SkipsAt | parser.py:276-278 | past 0x00E and at 0x009 and 0x00B the loop body keeps the byte as unparsed |
| Coverage.TakesAt | parser.py:270-274 | where a class starts and the buffer holds all its bytes, the loop body finishes a parser of that many bytes |
| Coverage.CutAt | parser.py:270-271 | where a receive-port register starts on the buffer's last byte, the loop body raises IndexError |
| Coverage.SkipKeepsRaise | parser.py:276-278 | a skipped byte passes the loop's final error on |
| Coverage.TakeKeepsRaise | parser.py:279-280 | a finished parser passes the loop's final error on |
| Coverage.CutRaises | parser.py:271 | a cut receive-port register ends the loop with IndexError |
| Coverage.RunRaises | parser.py:263-280 | from any index, the loop raises exactly when the buffer ends on 0x008 or 0x00A and the index is still inside the buffer, and then only IndexError |
| Coverage.ScanRaises | parser.py:261-280 | `parse(bytes, offset)` raises exactly when the buffer ends on address 0x008 or 0x00A, and then IndexError; ValueError never occurs |
| Coverage.PartitionUnlessCut | parser.py:261-280 | for every other buffer, `parse` raises nothing and each buffer address is unparsed or in the span of exactly one decoded register |
| Scenarios.DpcdRevFields | parser.py:64-71 | DPCD_REV over one byte raises nothing; "Major rev" (key 4) is the high nibble and "Minor rev" (key 0) is the low nibble |
| Scenarios.DpcdRevScan | parser.py:261-280 | a one-byte buffer at address 0 gives one DPCD_REV record over that byte, its two revision fields, and nothing unparsed |
| Scenarios.DpcdRev11 | parser.py:64-71 | `[0x11]` at address 0 decodes as major revision 1, minor revision 1 |
| Scenarios.NothingStartsAt | parser.py:22-27 | no registered class's `can_parse` accepts an address past 0x00E |
| Scenarios.PastBlockUnparsed | parser.py:276-278 | a byte at 0x00F is recorded as unparsed, with no record and no exception |

## Left out

- Printing is not modelled:
  - `RangeParser.print` and `Parser.print`;
  - the text `print_field` and `print_byte` write;
  - `print_port_info`, `parse_dpcd` and `main` with its argument and hex parsing.
- `printfn` callbacks are a closed set of formats. `Render` covers only the formats the registered classes use; a general higher-order formatter is not modelled.
- The max link rate's float `x * 0.27` Gbps is kept as the integer `x * 27` (hundredths of a Gbps). The formatted text is not modelled.
- The AUX read-interval text is the structured value `AuxReadInterval(100, us)` rather than the formatted string.
- The order in which Python dicts iterate is not modelled: `parse_result` and `unparsed` are maps. Only the order of `result` is kept.
- `Parser.result` holds immutable snapshots of the finished `RangeParser` objects (class, bytes, results). Python holds the objects themselves, but nothing mutates them after `parse()`, so aliasing is not modelled.
- `RangeParser.__subclasses__()` is replaced by the explicit sequence `Registry` in class-definition order. `RangeReceivePortCap` is not a subclass and is not in it.
- The per-class `parse()` methods are data: each class's list of `add_result` calls is a `FieldSpec` sequence, and one function, `ApplyFields`, interprets it.
- The base class's `parse()`, which raises `NotImplementedError`, is not modelled. Every registered class overrides it.
- Bit numbers are `nat`. The negative shift counts that would raise in Python cannot occur.
- The loop body of `Parser.parse` is a separate method, `Parser.ParseAt`, and the loop's meaning is stated through a step function (`Run`). The loop itself is unchanged.
- `Flat.Field` takes the register list as `seq<nat>`. In the flat decoder the values come from parsed hex text and are not bounded to a byte.
- DPCD addresses are `nat`, so `Parser.Parse` takes a non-negative base `offset`. Python also accepts a negative one; its negative addresses match no class and would all go to `unparsed`.
- The flat decoder's register values are `nat`. Python's `int(b, 16)` also accepts negative text such as `-1`, which the model does not cover.
- `Scenarios.DpcdRevScan` does not state the exact key set of the DPCD_REV record. It states only that keys 4 and 0 are present, with their values.
