/** What `Parser.parse` does over the registered classes for any buffer:
    when it raises, and that otherwise every address of the buffer is
    accounted for exactly once. */
module Coverage {
  import opened Common
  import opened Ranges
  import opened Dispatch
  import opened Scenarios

  /** The buffer's last address is the first byte of a receive-port
      capability register (0x008 or 0x00A), so that register's slice holds
      one byte of its two. */
  predicate CutShort(bytes: seq<Byte>, offset: nat)
  {
    |bytes| > 0 && (offset + |bytes| - 1 == 8 || offset + |bytes| - 1 == 0xA)
  }

  /** The two receive-port registers span two bytes and share their layout;
      every other registered class spans one byte. */
  lemma RegisterSizes()
    ensures forall j :: 0 <= j < |Registry| ==>
              Registry[j].NumBytes() == if Registry[j].start == 8 || Registry[j].start == 0xA then 2 else 1
    ensures forall j :: 0 <= j < |Registry| && Registry[j].NumBytes() == 2 ==> Registry[j].layout == ReceivePortCapLayout
  {
  }

  /** Some registered class starts at every address of the capability block
      except the second bytes of the receive-port registers. */
  lemma RegisterStartsAt(a: nat)
    requires a <= 0xE && a != 9 && a != 0xB
    ensures FirstMatch(Registry, a).Some?
  {
    var j := if a <= 8 then a else if a == 0xA then 9 else a - 2;
    assert Registry[j].CanParse(a);
  }

  /** The class the loop picks at a register's first address: it starts
      there, spans two bytes for the receive-port registers and one
      otherwise, and its fields fit its bytes. */
  lemma RegisterAt(a: nat) returns (k: nat)
    requires a <= 0xE && a != 9 && a != 0xB
    ensures FirstMatch(Registry, a) == Some(k) && k < |Registry| && Registry[k].start == a
    ensures Registry[k].NumBytes() == if a == 8 || a == 0xA then 2 else 1
    ensures LayoutFits(Registry[k])
    ensures Registry[k].NumBytes() == 2 ==> Registry[k].layout == ReceivePortCapLayout
  {
    RegisterStartsAt(a);
    k := FirstMatch(Registry, a).value;
    RegisterSizes();
    RegistryFits();
  }

  /** No registered class starts at the second byte of a receive-port register. */
  lemma NothingStartsInside(a: nat)
    requires a == 9 || a == 0xB
    ensures FirstMatch(Registry, a).None?
  {
    assert forall j :: 0 <= j < |Registry| ==> Registry[j].start != a;
  }

  /** A receive-port register cut to one byte raises IndexError from its
      "Buffer Size" field, which reads the second byte. */
  lemma ReceivePortCapCut(register: string, value: seq<Byte>)
    requires |value| == 1
    ensures ApplyFields(map[], register, value, ReceivePortCapLayout).error == Some(IndexOutOfRange)
  {
    ReceivePortCapFits();
    assert ReceivePortCapLayout[7].offset == 1;
    ApplyFieldsShort(map[], register, value, ReceivePortCapLayout, 7);
  }

  /** The loop body where no class starts. */
  lemma SkipsAt(step: nat -> Step, bytes: seq<Byte>, offset: nat, i: nat)
    requires forall j :: BodyAt(step, Registry, Decode, bytes, offset, j)
    requires i + offset > 0xE || i + offset == 9 || i + offset == 0xB
    ensures step(i) == Skip
  {
    if i + offset > 0xE {
      NothingStartsAt(i + offset);
    } else {
      NothingStartsInside(i + offset);
    }
    BodySkips(step, Registry, bytes, offset, i);
  }

  /** The loop body where a class starts and the buffer holds all of its
      n bytes, two for the receive-port registers and one otherwise: it
      finishes a parser over those bytes. */
  lemma TakesAt(step: nat -> Step, bytes: seq<Byte>, offset: nat, i: nat, n: nat)
    requires forall j :: BodyAt(step, Registry, Decode, bytes, offset, j)
    requires i + offset <= 0xE && i + offset != 9 && i + offset != 0xB
    requires n == (if i + offset == 8 || i + offset == 0xA then 2 else 1) && i + n <= |bytes|
    ensures step(i).Take? && step(i).rec.desc.NumBytes() == n
  {
    var k := RegisterAt(i + offset);
    var value := Slice(bytes, i, n);
    DecodesWhole(Registry[k], value);
    var applied := ApplyFields(map[], Registry[k].name, value, Registry[k].layout);
    BodyParses(step, Registry, bytes, offset, i, k, applied.fields, applied.error);
  }

  /** The loop body where a receive-port register starts on the buffer's
      last byte: its parse() raises IndexError. */
  lemma CutAt(step: nat -> Step, bytes: seq<Byte>, offset: nat, i: nat)
    requires forall j :: BodyAt(step, Registry, Decode, bytes, offset, j)
    requires (i + offset == 8 || i + offset == 0xA) && i + 1 == |bytes|
    ensures step(i) == Raise(IndexOutOfRange)
  {
    var k := RegisterAt(i + offset);
    var value := Slice(bytes, i, 2);
    ReceivePortCapCut(Registry[k].name, value);
    var applied := ApplyFields(map[], Registry[k].name, value, Registry[k].layout);
    BodyParses(step, Registry, bytes, offset, i, k, applied.fields, applied.error);
  }

  /** The error the loop ends with from index i. */
  function RaisedFrom(bytes: seq<Byte>, offset: nat, i: nat): Option<Error>
  {
    if i < |bytes| && CutShort(bytes, offset) then Some(IndexOutOfRange) else None
  }

  /** A skipped byte, where no class starts, passes the loop's error on. */
  lemma SkipKeepsRaise(step: nat -> Step, bytes: seq<Byte>, offset: nat, i: nat,
                       records: seq<Record>, unparsed: map<nat, Byte>)
    requires Consumes(step, offset) && i < |bytes| && step(i) == Skip
    requires i + offset > 0xE || i + offset == 9 || i + offset == 0xB
    requires Run(step, bytes, offset, i + 1, records, unparsed[i + offset := bytes[i]]).error == RaisedFrom(bytes, offset, i + 1)
    ensures Run(step, bytes, offset, i, records, unparsed).error == RaisedFrom(bytes, offset, i)
  {
    RunSkip(step, bytes, offset, i, records, unparsed);
  }

  /** A finished parser of n bytes, two for the receive-port registers and
      one otherwise, passes the loop's error on. */
  lemma TakeKeepsRaise(step: nat -> Step, bytes: seq<Byte>, offset: nat, i: nat, n: nat,
                       records: seq<Record>, unparsed: map<nat, Byte>)
    requires Consumes(step, offset) && i + n <= |bytes| && step(i).Take? && step(i).rec.desc.NumBytes() == n
    requires n == if i + offset == 8 || i + offset == 0xA then 2 else 1
    requires Run(step, bytes, offset, i + n, records + [step(i).rec], unparsed).error == RaisedFrom(bytes, offset, i + n)
    ensures Run(step, bytes, offset, i, records, unparsed).error == RaisedFrom(bytes, offset, i)
  {
    RunTake(step, bytes, offset, i, step(i).rec, records, unparsed);
  }

  /** A receive-port register on the buffer's last byte ends the loop with IndexError. */
  lemma CutRaises(step: nat -> Step, bytes: seq<Byte>, offset: nat, i: nat,
                  records: seq<Record>, unparsed: map<nat, Byte>)
    requires Consumes(step, offset) && i < |bytes| && step(i) == Raise(IndexOutOfRange)
    requires (i + offset == 8 || i + offset == 0xA) && |bytes| < i + 2
    ensures Run(step, bytes, offset, i, records, unparsed).error == RaisedFrom(bytes, offset, i)
  {
    RunRaise(step, bytes, offset, i, IndexOutOfRange, records, unparsed);
  }

  /** The loop from index i raises exactly when the buffer is cut short and
      the index is still inside it, and then only IndexError. */
  lemma {:induction false} RunRaises(step: nat -> Step, bytes: seq<Byte>, offset: nat, i: nat,
                                     records: seq<Record>, unparsed: map<nat, Byte>)
    requires Consumes(step, offset)
    requires forall j :: BodyAt(step, Registry, Decode, bytes, offset, j)
    ensures Run(step, bytes, offset, i, records, unparsed).error == RaisedFrom(bytes, offset, i)
    decreases if i <= |bytes| then |bytes| - i else 0
  {
    if i < |bytes| {
      var a := i + offset;
      if a > 0xE || a == 9 || a == 0xB {
        SkipsAt(step, bytes, offset, i);
        RunRaises(step, bytes, offset, i + 1, records, unparsed[a := bytes[i]]);
        SkipKeepsRaise(step, bytes, offset, i, records, unparsed);
      } else {
        var n := if a == 8 || a == 0xA then 2 else 1;
        if i + n <= |bytes| {
          TakesAt(step, bytes, offset, i, n);
          RunRaises(step, bytes, offset, i + n, records + [step(i).rec], unparsed);
          TakeKeepsRaise(step, bytes, offset, i, n, records, unparsed);
        } else {
          CutAt(step, bytes, offset, i);
          CutRaises(step, bytes, offset, i, records, unparsed);
        }
      }
    }
  }

  /** `parse(bytes, offset)` over the registered classes raises exactly when
      the buffer ends on the first byte of a receive-port register, and then
      IndexError; the ValueError of an inverted bit range never occurs. */
  lemma ScanRaises(bytes: seq<Byte>, offset: nat)
    ensures Scan(Registry, Decode, bytes, offset, [], map[]).error
            == if CutShort(bytes, offset) then Some(IndexOutOfRange) else None
  {
    RegistryAdvances();
    var step := BodyWitness(Registry, Decode, bytes, offset, [], map[]);
    RunRaises(step, bytes, offset, 0, [], map[]);
  }

  /** Unless the buffer ends on the first byte of a receive-port register,
      parse(bytes, offset) raises nothing and every address of the buffer is
      either unparsed or inside the span of exactly one decoded register. */
  lemma PartitionUnlessCut(bytes: seq<Byte>, offset: nat, a: nat)
    requires !CutShort(bytes, offset)
    requires offset <= a < offset + |bytes|
    ensures var s := Scan(Registry, Decode, bytes, offset, [], map[]);
            && s.error.None?
            && (a in s.unparsed <==> !exists j :: 0 <= j < |s.records| && s.records[j].desc.Spans(a))
            && (forall j, k ::
                  (0 <= j < |s.records| && 0 <= k < |s.records| && s.records[j].desc.Spans(a) && s.records[k].desc.Spans(a))
                  ==> j == k)
  {
    RegistryAdvances();
    ScanRaises(bytes, offset);
    PartitionOfBuffer(Registry, Decode, bytes, offset, a);
  }
}
