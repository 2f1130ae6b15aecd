/** The dispatch loop of the table-driven decoder: walk a byte buffer that
    starts at a DPCD base address, decode every register that starts at the
    current address and keep every other byte as unparsed. */
module Dispatch {
  import opened Common
  import opened Bits
  import opened Ranges

  /** The index of the first registered class at or after `from` whose
      can_parse accepts the address. */
  function FirstMatchFrom(reg: seq<Descriptor>, addr: nat, from: nat): (r: Option<nat>)
    ensures r.Some? ==> from <= r.value < |reg| && reg[r.value].CanParse(addr)
    ensures r.Some? ==> forall j :: from <= j < r.value ==> !reg[j].CanParse(addr)
    ensures r.None? ==> forall j :: from <= j < |reg| ==> !reg[j].CanParse(addr)
    decreases |reg| - from
  {
    if |reg| <= from then None
    else if reg[from].CanParse(addr) then Some(from)
    else FirstMatchFrom(reg, addr, from + 1)
  }

  /** The class the inner `for r in self.registry` loop settles on, if any. */
  function FirstMatch(reg: seq<Descriptor>, addr: nat): Option<nat>
  {
    FirstMatchFrom(reg, addr, 0)
  }

  /** The parser's state after a parse() call: its result list, its unparsed
      bytes, and the exception that ended the call early, if one did. */
  datatype Scanned = Scanned(records: seq<Record>, unparsed: map<nat, Byte>, error: Option<Error>)

  /** How a register class's parse() turns the register's bytes into results. */
  type Decoder = (Descriptor, seq<Byte>) -> Applied

  /** The parse() of the table-driven register classes: their declared fields,
      one add_result after the other. */
  function Decode(d: Descriptor, value: seq<Byte>): Applied
  {
    ApplyFields(map[], d.name, value, d.layout)
  }

  /** What one pass of the loop body does at buffer index `i`: skip an
      unmatched byte, finish a parser, or raise from its parse(). */
  datatype Step = Skip | Take(rec: Record) | Raise(error: Error)

  function StepAt(reg: seq<Descriptor>, decode: Decoder, bytes: seq<Byte>, offset: nat, i: nat): (r: Step)
    ensures r.Skip? <==> FirstMatch(reg, i + offset).None?
    ensures r.Take? ==> r.rec.desc in reg && r.rec.desc.start == i + offset
  {
    match FirstMatch(reg, i + offset)
    case None => Skip
    case Some(k) =>
      var d := reg[k];
      var value := Slice(bytes, i, d.NumBytes());
      var a := decode(d, value);
      if a.error.Some? then Raise(a.error.value) else Take(Record(d, value, a.fields))
  }

  /** Every parser the loop body finishes starts at the current address and
      consumes at least one byte. */
  ghost predicate Consumes(step: nat -> Step, offset: nat)
  {
    forall i: nat :: step(i).Take? ==> step(i).rec.desc.start == i + offset && step(i).rec.desc.NumBytes() >= 1
  }

  /** The dispatch loop from buffer index `i` on, for a loop body `step`,
      starting from the result list `records` and the unparsed bytes `unparsed`. */
  function Run(step: nat -> Step, bytes: seq<Byte>, offset: nat, i: nat, records: seq<Record>, unparsed: map<nat, Byte>)
    : Scanned
    requires Consumes(step, offset)
    decreases if i <= |bytes| then |bytes| - i else 0
  {
    if |bytes| <= i then Scanned(records, unparsed, None)
    else
      match step(i)
      case Skip => Run(step, bytes, offset, i + 1, records, unparsed[i + offset := bytes[i]])
      case Raise(e) => Scanned(records, unparsed, Some(e))
      case Take(rec) => Run(step, bytes, offset, i + rec.desc.NumBytes(), records + [rec], unparsed)
  }

  /** The loop body of `Parser.parse` over a given registry and buffer. */
  function Body(reg: seq<Descriptor>, decode: Decoder, bytes: seq<Byte>, offset: nat): nat -> Step
  {
    (i: nat) => StepAt(reg, decode, bytes, offset, i)
  }

  lemma BodyConsumes(reg: seq<Descriptor>, decode: Decoder, bytes: seq<Byte>, offset: nat)
    requires Advances(reg)
    ensures Consumes(Body(reg, decode, bytes, offset), offset)
  {
  }

  /** The parser's state after `parse(bytes, offset)`, from the state `records`, `unparsed`. */
  function Scan(reg: seq<Descriptor>, decode: Decoder, bytes: seq<Byte>, offset: nat,
                records: seq<Record>, unparsed: map<nat, Byte>): Scanned
    requires Advances(reg)
  {
    BodyConsumes(reg, decode, bytes, offset);
    Run(Body(reg, decode, bytes, offset), bytes, offset, 0, records, unparsed)
  }

  /** `step` is the loop body at buffer index `i`. */
  ghost predicate BodyAt(step: nat -> Step, reg: seq<Descriptor>, decode: Decoder, bytes: seq<Byte>, offset: nat, i: nat)
  {
    step(i) == StepAt(reg, decode, bytes, offset, i)
  }

  /** The loop body where no class starts. */
  lemma BodySkips(step: nat -> Step, reg: seq<Descriptor>, bytes: seq<Byte>, offset: nat, i: nat)
    requires forall j :: BodyAt(step, reg, Decode, bytes, offset, j)
    requires FirstMatch(reg, i + offset).None?
    ensures step(i) == Skip
  {
    assert BodyAt(step, reg, Decode, bytes, offset, i);
  }

  /** The loop body where class `k` is the first match and its parse() ends
      with `fields` and `error`. */
  lemma BodyParses(step: nat -> Step, reg: seq<Descriptor>, bytes: seq<Byte>, offset: nat, i: nat, k: nat,
                   fields: map<nat, ParseResult>, error: Option<Error>)
    requires forall j :: BodyAt(step, reg, Decode, bytes, offset, j)
    requires FirstMatch(reg, i + offset) == Some(k)
    requires var a := ApplyFields(map[], reg[k].name, Slice(bytes, i, reg[k].NumBytes()), reg[k].layout);
             a.fields == fields && a.error == error
    ensures var value := Slice(bytes, i, reg[k].NumBytes());
            step(i) == if error.Some? then Raise(error.value) else Take(Record(reg[k], value, fields))
  {
    assert BodyAt(step, reg, Decode, bytes, offset, i);
  }

  /** The loop depends only on what its body does at each index. */
  lemma {:induction false} RunAgrees(step: nat -> Step, other: nat -> Step, bytes: seq<Byte>, offset: nat, i: nat,
                                     records: seq<Record>, unparsed: map<nat, Byte>)
    requires Consumes(step, offset) && Consumes(other, offset)
    requires forall j :: step(j) == other(j)
    ensures Run(step, bytes, offset, i, records, unparsed) == Run(other, bytes, offset, i, records, unparsed)
    decreases if i <= |bytes| then |bytes| - i else 0
  {
    if i < |bytes| {
      match step(i)
      case Skip => RunAgrees(step, other, bytes, offset, i + 1, records, unparsed[i + offset := bytes[i]]);
      case Raise(_) =>
      case Take(rec) => RunAgrees(step, other, bytes, offset, i + rec.desc.NumBytes(), records + [rec], unparsed);
    }
  }

  /** A loop body that agrees with `StepAt` everywhere yields `Scan`. */
  lemma BodyWitness(reg: seq<Descriptor>, decode: Decoder, bytes: seq<Byte>, offset: nat,
                    records: seq<Record>, unparsed: map<nat, Byte>) returns (step: nat -> Step)
    requires Advances(reg)
    ensures Consumes(step, offset)
    ensures forall i :: BodyAt(step, reg, decode, bytes, offset, i)
    ensures Run(step, bytes, offset, 0, records, unparsed) == Scan(reg, decode, bytes, offset, records, unparsed)
  {
    step := Body(reg, decode, bytes, offset);
    BodyConsumes(reg, decode, bytes, offset);
  }

  /** One pass of the loop over a skipped byte. */
  lemma RunSkip(step: nat -> Step, bytes: seq<Byte>, offset: nat, i: nat, records: seq<Record>, unparsed: map<nat, Byte>)
    requires Consumes(step, offset) && i < |bytes| && step(i).Skip?
    ensures Run(step, bytes, offset, i, records, unparsed) == Run(step, bytes, offset, i + 1, records, unparsed[i + offset := bytes[i]])
  {
  }

  /** One pass of the loop over a finished parser. */
  lemma RunTake(step: nat -> Step, bytes: seq<Byte>, offset: nat, i: nat, rec: Record, records: seq<Record>, unparsed: map<nat, Byte>)
    requires Consumes(step, offset) && i < |bytes| && step(i) == Take(rec)
    ensures Run(step, bytes, offset, i, records, unparsed) == Run(step, bytes, offset, i + rec.desc.NumBytes(), records + [rec], unparsed)
  {
  }

  /** One pass of the loop over a parse() that raised. */
  lemma RunRaise(step: nat -> Step, bytes: seq<Byte>, offset: nat, i: nat, e: Error, records: seq<Record>, unparsed: map<nat, Byte>)
    requires Consumes(step, offset) && i < |bytes| && step(i) == Raise(e)
    ensures Run(step, bytes, offset, i, records, unparsed) == Scanned(records, unparsed, Some(e))
  {
  }

  /** Writing one key, then merging, is merging the write. */
  lemma MergeUpdate<V>(m: map<nat, V>, a: nat, b: V, rest: map<nat, V>)
    ensures m[a := b] + rest == m + (map[a := b] + rest)
  {
  }

  /** One skipped byte: the appended unparsed bytes gain that byte. */
  lemma AppendsSkip(step: nat -> Step, bytes: seq<Byte>, offset: nat, i: nat,
                    records: seq<Record>, unparsed: map<nat, Byte>, rest: Scanned)
    requires Consumes(step, offset) && i < |bytes| && step(i).Skip?
    requires Run(step, bytes, offset, i + 1, records, unparsed[i + offset := bytes[i]])
          == Scanned(records + rest.records, unparsed[i + offset := bytes[i]] + rest.unparsed, rest.error)
    requires Run(step, bytes, offset, i + 1, [], map[i + offset := bytes[i]])
          == Scanned(rest.records, map[i + offset := bytes[i]] + rest.unparsed, rest.error)
    ensures var s := Run(step, bytes, offset, i, [], map[]);
            Run(step, bytes, offset, i, records, unparsed) == Scanned(records + s.records, unparsed + s.unparsed, s.error)
  {
    assert map[][i + offset := bytes[i]] == map[i + offset := bytes[i]];
    assert [] + rest.records == rest.records;
    MergeUpdate(unparsed, i + offset, bytes[i], rest.unparsed);
  }

  /** One finished parser: the appended records gain that parser. */
  lemma AppendsTake(step: nat -> Step, bytes: seq<Byte>, offset: nat, i: nat, rec: Record,
                    records: seq<Record>, unparsed: map<nat, Byte>, rest: Scanned)
    requires Consumes(step, offset) && i < |bytes| && step(i) == Take(rec)
    requires Run(step, bytes, offset, i + rec.desc.NumBytes(), records + [rec], unparsed)
          == Scanned(records + [rec] + rest.records, unparsed + rest.unparsed, rest.error)
    requires Run(step, bytes, offset, i + rec.desc.NumBytes(), [rec], map[])
          == Scanned([rec] + rest.records, map[] + rest.unparsed, rest.error)
    ensures var s := Run(step, bytes, offset, i, [], map[]);
            Run(step, bytes, offset, i, records, unparsed) == Scanned(records + s.records, unparsed + s.unparsed, s.error)
  {
    assert [] + [rec] == [rec];
    assert records + [rec] + rest.records == records + ([rec] + rest.records);
    assert map[] + rest.unparsed == rest.unparsed;
  }

  /** Running the loop from a non-empty state appends to it what the loop
      produces from an empty one. */
  lemma {:induction false} RunAppends(step: nat -> Step, bytes: seq<Byte>, offset: nat, i: nat,
                                      records: seq<Record>, unparsed: map<nat, Byte>)
    requires Consumes(step, offset)
    ensures var s := Run(step, bytes, offset, i, [], map[]);
            Run(step, bytes, offset, i, records, unparsed) == Scanned(records + s.records, unparsed + s.unparsed, s.error)
    decreases if i <= |bytes| then |bytes| - i else 0
  {
    if i < |bytes| {
      match step(i)
      case Skip =>
        var u := map[i + offset := bytes[i]];
        RunAppends(step, bytes, offset, i + 1, records, unparsed[i + offset := bytes[i]]);
        RunAppends(step, bytes, offset, i + 1, [], u);
        AppendsSkip(step, bytes, offset, i, records, unparsed, Run(step, bytes, offset, i + 1, [], map[]));
      case Raise(_) =>
        assert unparsed + map[] == unparsed;
      case Take(rec) =>
        var n := rec.desc.NumBytes();
        RunAppends(step, bytes, offset, i + n, records + [rec], unparsed);
        RunAppends(step, bytes, offset, i + n, [rec], map[]);
        AppendsTake(step, bytes, offset, i, rec, records, unparsed, Run(step, bytes, offset, i + n, [], map[]));
    } else {
      assert records + [] == records;
      assert unparsed + map[] == unparsed;
    }
  }

  class Parser {
    const registry: seq<Descriptor>
    var result: seq<Record>
    var unparsed: map<nat, Byte>

    /** Every registered class consumes at least one byte. */
    predicate Valid()
    {
      Advances(registry)
    }

    /** `Parser()`: the registered classes in definition order, nothing decoded yet. */
    constructor ()
      ensures registry == Registry
      ensures result == [] && unparsed == map[]
      ensures Valid()
    {
      registry := Registry;
      result := [];
      unparsed := map[];
      RegistryWellFormed();
    }

    /** The inner loop: the first registered class whose can_parse accepts `addr`. */
    method Lookup(addr: nat) returns (k: Option<nat>)
      ensures k.Some? ==> k.value < |registry| && registry[k.value].CanParse(addr)
      ensures k.Some? ==> forall j :: 0 <= j < k.value ==> !registry[j].CanParse(addr)
      ensures k.None? <==> forall j :: 0 <= j < |registry| ==> !registry[j].CanParse(addr)
      ensures k == FirstMatch(registry, addr)
    {
      var j := 0;
      while j < |registry|
        invariant 0 <= j <= |registry|
        invariant FirstMatchFrom(registry, addr, j) == FirstMatch(registry, addr)
      {
        if registry[j].CanParse(addr) {
          return Some(j);
        }
        j := j + 1;
      }
      return None;
    }

    /** `parser = r(bytes, i); parser.parse()` for the registered class `k`:
        the finished parser's class, bytes and results, and the exception its
        parse() raised, if any. */
    method Instantiate(k: nat, bytes: seq<Byte>, i: nat) returns (record: Record, err: Option<Error>)
      requires k < |registry|
      ensures var value := Slice(bytes, i, registry[k].NumBytes());
              var a := ApplyFields(map[], registry[k].name, value, registry[k].layout);
              record == Record(registry[k], value, a.fields) && err == a.error
    {
      var parser := new RangeParser(registry[k], bytes, i);
      err := parser.Parse();
      record := Record(parser.desc, parser.value, parser.parseResult);
    }

    /** The same instantiation, seen as the loop body at buffer index `i`
        where class `k` is the first match: it finishes the parser or raises. */
    method InstantiateAt(ghost step: nat -> Step, k: nat, bytes: seq<Byte>, offset: nat, i: nat)
      returns (record: Record, err: Option<Error>)
      requires forall j :: BodyAt(step, registry, Decode, bytes, offset, j)
      requires FirstMatch(registry, i + offset) == Some(k)
      ensures step(i) == if err.Some? then Raise(err.value) else Take(record)
    {
      record, err := Instantiate(k, bytes, i);
      BodyParses(step, registry, bytes, offset, i, k, record.fields, err);
    }

    /** One pass of the loop in `parse(bytes, offset)` at buffer index `i`:
        the first class whose can_parse accepts `i + offset` parses its bytes
        and its record is appended to `result`, or else the byte goes to
        `unparsed`; `n` is how far the index moves on. What the remaining
        loop computes from the new state is what it computed from the old. */
    method ParseAt(ghost step: nat -> Step, bytes: seq<Byte>, offset: nat, i: nat) returns (n: nat, err: Option<Error>)
      requires Valid()
      requires Consumes(step, offset)
      requires forall j :: BodyAt(step, registry, Decode, bytes, offset, j)
      requires i < |bytes|
      modifies this
      ensures err.None? ==> n >= 1
      ensures err.None? ==> Run(step, bytes, offset, i + n, result, unparsed) == Run(step, bytes, offset, i, old(result), old(unparsed))
      ensures err.Some? ==> result == old(result) && unparsed == old(unparsed)
                            && Run(step, bytes, offset, i, result, unparsed) == Scanned(result, unparsed, err)
    {
      var addr := i + offset;
      var parsedBytes := 0;
      var k := Lookup(addr);
      if k.Some? {
        var record;
        record, err := InstantiateAt(step, k.value, bytes, offset, i);
        if err.Some? {
          RunRaise(step, bytes, offset, i, err.value, result, unparsed);
          return 0, err;
        }
        parsedBytes := record.desc.NumBytes();
        RunTake(step, bytes, offset, i, record, result, unparsed);
        result := result + [record];
      }
      err := None;
      if parsedBytes == 0 {
        BodySkips(step, registry, bytes, offset, i);
        RunSkip(step, bytes, offset, i, result, unparsed);
        unparsed := unparsed[addr := bytes[i]];
        n := 1;
      } else {
        n := parsedBytes;
      }
    }

    /** `parse(bytes, offset)`: appends the decoded registers to `result` and
        records the unmatched bytes in `unparsed`; an exception from a
        register's parse() ends the call with what was added before it. */
    method Parse(bytes: seq<Byte>, offset: nat) returns (err: Option<Error>)
      requires Valid()
      modifies this
      ensures Scanned(result, unparsed, err) == Scan(registry, Decode, bytes, offset, old(result), old(unparsed))
    {
      ghost var step := BodyWitness(registry, Decode, bytes, offset, result, unparsed);
      ghost var final := Run(step, bytes, offset, 0, result, unparsed);
      var i := 0;
      while i < |bytes|
        invariant Run(step, bytes, offset, i, result, unparsed) == final
        decreases |bytes| - i
      {
        var n;
        n, err := ParseAt(step, bytes, offset, i);
        if err.Some? {
          return;
        }
        i := i + n;
      }
      err := None;
    }
  }

  // ---------------------------------------------------------------------
  // What the loop produces, for any loop body that consumes bytes

  /** Every record starts at an address in [lo, hi). */
  predicate StartsIn(records: seq<Record>, lo: nat, hi: nat)
  {
    forall j :: 0 <= j < |records| ==> lo <= records[j].desc.start < hi
  }

  /** Every record's span ends below `hi`. */
  predicate EndsBelow(records: seq<Record>, hi: nat)
  {
    forall j :: 0 <= j < |records| ==> records[j].desc.end < hi
  }

  /** Every record is what the loop body produced at its start address. */
  ghost predicate Taken(step: nat -> Step, offset: nat, records: seq<Record>)
  {
    forall j :: 0 <= j < |records| ==> offset <= records[j].desc.start && step(records[j].desc.start - offset) == Take(records[j])
  }

  /** Each record's span ends before the next one's begins. */
  predicate Ordered(records: seq<Record>)
  {
    forall j, k :: 0 <= j < k < |records| ==> records[j].desc.end < records[k].desc.start
  }

  /** Every unparsed address lies in the buffer, the loop body skipped it,
      and it holds the buffer's byte. */
  ghost predicate Skipped(step: nat -> Step, bytes: seq<Byte>, offset: nat, unparsed: map<nat, Byte>)
  {
    forall a :: a in unparsed ==>
      && offset <= a < offset + |bytes|
      && step(a - offset).Skip?
      && unparsed[a] == bytes[a - offset]
  }

  /** Every unparsed address is below `hi`. */
  predicate KeysBelow(unparsed: map<nat, Byte>, hi: nat)
  {
    forall a :: a in unparsed ==> a < hi
  }

  /** No unparsed address lies in a record's span. */
  predicate Apart(records: seq<Record>, unparsed: map<nat, Byte>)
  {
    forall a, j :: a in unparsed && 0 <= j < |records| ==> !records[j].desc.Spans(a)
  }

  /** Every address in [lo, hi) is unparsed or in a record's span. */
  predicate Covers(records: seq<Record>, unparsed: map<nat, Byte>, lo: nat, hi: nat)
  {
    forall a :: lo <= a < hi ==> a in unparsed || exists j :: 0 <= j < |records| && records[j].desc.Spans(a)
  }

  /** The loop's account when it reaches buffer index `i` from an empty
      state: the parsers so far start in the buffer and end below the
      current address, each is what the loop body produced at its start, in
      address order; the unparsed bytes so far are below the current
      address, skipped, copied from the buffer and outside every span; and
      everything below the current address is one or the other. */
  ghost predicate Accounted(step: nat -> Step, bytes: seq<Byte>, offset: nat, i: nat,
                            records: seq<Record>, unparsed: map<nat, Byte>)
  {
    && StartsIn(records, offset, offset + |bytes|)
    && EndsBelow(records, i + offset)
    && Taken(step, offset, records)
    && Ordered(records)
    && Skipped(step, bytes, offset, unparsed)
    && KeysBelow(unparsed, i + offset)
    && Apart(records, unparsed)
    && Covers(records, unparsed, offset, i + offset)
  }

  /** The loop's final account: as `Accounted`, and, unless a parse()
      raised, every address of the buffer is unparsed or in a span. */
  ghost predicate WellRun(step: nat -> Step, bytes: seq<Byte>, offset: nat, s: Scanned)
  {
    && StartsIn(s.records, offset, offset + |bytes|)
    && Taken(step, offset, s.records)
    && Ordered(s.records)
    && Skipped(step, bytes, offset, s.unparsed)
    && Apart(s.records, s.unparsed)
    && (s.error.None? ==> Covers(s.records, s.unparsed, offset, offset + |bytes|))
  }

  /** Recording a skipped byte keeps the account. */
  lemma SkipAccounted(step: nat -> Step, bytes: seq<Byte>, offset: nat, i: nat,
                      records: seq<Record>, unparsed: map<nat, Byte>)
    requires i < |bytes| && step(i).Skip?
    requires Accounted(step, bytes, offset, i, records, unparsed)
    ensures Accounted(step, bytes, offset, i + 1, records, unparsed[i + offset := bytes[i]])
  {
    var u := unparsed[i + offset := bytes[i]];
    forall a | offset <= a < i + 1 + offset
      ensures a in u || exists j :: 0 <= j < |records| && records[j].desc.Spans(a)
    {
    }
  }

  /** Appending a finished parser keeps the account. */
  lemma TakeAccounted(step: nat -> Step, bytes: seq<Byte>, offset: nat, i: nat, rec: Record,
                      records: seq<Record>, unparsed: map<nat, Byte>)
    requires i < |bytes| && step(i) == Take(rec) && rec.desc.start == i + offset && rec.desc.NumBytes() >= 1
    requires Accounted(step, bytes, offset, i, records, unparsed)
    ensures Accounted(step, bytes, offset, i + rec.desc.NumBytes(), records + [rec], unparsed)
  {
    var r := records + [rec];
    assert r[|records|] == rec;
    forall j | 0 <= j < |records|
      ensures r[j] == records[j]
    {
    }
    forall a | offset <= a < i + rec.desc.NumBytes() + offset
      ensures a in unparsed || exists j :: 0 <= j < |r| && r[j].desc.Spans(a)
    {
      if a >= i + offset {
        assert r[|records|].desc.Spans(a);
      } else if a !in unparsed {
        var j :| 0 <= j < |records| && records[j].desc.Spans(a);
        assert r[j].desc.Spans(a);
      }
    }
  }

  /** From an accounted state, the loop ends in a well-accounted one. */
  lemma {:induction false} RunWell(step: nat -> Step, bytes: seq<Byte>, offset: nat, i: nat,
                                   records: seq<Record>, unparsed: map<nat, Byte>)
    requires Consumes(step, offset)
    requires Accounted(step, bytes, offset, i, records, unparsed)
    ensures WellRun(step, bytes, offset, Run(step, bytes, offset, i, records, unparsed))
    decreases if i <= |bytes| then |bytes| - i else 0
  {
    if i < |bytes| {
      match step(i)
      case Skip =>
        SkipAccounted(step, bytes, offset, i, records, unparsed);
        RunWell(step, bytes, offset, i + 1, records, unparsed[i + offset := bytes[i]]);
      case Raise(_) =>
      case Take(rec) =>
        TakeAccounted(step, bytes, offset, i, rec, records, unparsed);
        RunWell(step, bytes, offset, i + rec.desc.NumBytes(), records + [rec], unparsed);
    }
  }

  // ---------------------------------------------------------------------
  // What `parse(bytes, offset)` produces

  /** `rec` is what parse() produces for the register that starts at its
      address: the address lies in the buffer, the register's class is the
      first registered one whose can_parse accepts it, its bytes are the
      buffer's bytes from there on, and its fields are what that class's
      parse() returns without raising. */
  predicate Decoded(reg: seq<Descriptor>, decode: Decoder, bytes: seq<Byte>, offset: nat, rec: Record)
  {
    && offset <= rec.desc.start < offset + |bytes|
    && FirstMatch(reg, rec.desc.start).Some?
    && reg[FirstMatch(reg, rec.desc.start).value] == rec.desc
    && rec.value == Slice(bytes, rec.desc.start - offset, rec.desc.NumBytes())
    && decode(rec.desc, rec.value) == Applied(rec.fields, None)
  }

  /** A record the loop body finished is a decoded register. */
  lemma TakeDecoded(step: nat -> Step, reg: seq<Descriptor>, decode: Decoder, bytes: seq<Byte>, offset: nat, rec: Record)
    requires forall i :: BodyAt(step, reg, decode, bytes, offset, i)
    requires offset <= rec.desc.start < offset + |bytes|
    requires step(rec.desc.start - offset) == Take(rec)
    ensures Decoded(reg, decode, bytes, offset, rec)
  {
    assert BodyAt(step, reg, decode, bytes, offset, rec.desc.start - offset);
  }

  /** A byte the loop body skipped is one where no class starts. */
  lemma SkipUnmatched(step: nat -> Step, reg: seq<Descriptor>, decode: Decoder, bytes: seq<Byte>, offset: nat, a: nat)
    requires forall i :: BodyAt(step, reg, decode, bytes, offset, i)
    requires offset <= a && step(a - offset).Skip?
    ensures FirstMatch(reg, a).None?
  {
    assert BodyAt(step, reg, decode, bytes, offset, a - offset);
  }

  /** From an empty state, parse(bytes, offset) yields decoded registers in
      address order and unparsed bytes copied from the buffer at addresses
      where no class starts, none of them inside a register's span; unless
      a parse() raised, every address of the buffer is one or the other. */
  lemma ScanWell(reg: seq<Descriptor>, decode: Decoder, bytes: seq<Byte>, offset: nat)
    requires Advances(reg)
    ensures var s := Scan(reg, decode, bytes, offset, [], map[]);
            && (forall j :: 0 <= j < |s.records| ==> Decoded(reg, decode, bytes, offset, s.records[j]))
            && Ordered(s.records)
            && (forall a :: a in s.unparsed ==>
                  && offset <= a < offset + |bytes|
                  && FirstMatch(reg, a).None?
                  && s.unparsed[a] == bytes[a - offset])
            && Apart(s.records, s.unparsed)
            && (s.error.None? ==> Covers(s.records, s.unparsed, offset, offset + |bytes|))
  {
    var step := BodyWitness(reg, decode, bytes, offset, [], map[]);
    RunWell(step, bytes, offset, 0, [], map[]);
    var s := Scan(reg, decode, bytes, offset, [], map[]);
    forall j | 0 <= j < |s.records|
      ensures Decoded(reg, decode, bytes, offset, s.records[j])
    {
      TakeDecoded(step, reg, decode, bytes, offset, s.records[j]);
    }
    forall a | a in s.unparsed
      ensures FirstMatch(reg, a).None?
    {
      SkipUnmatched(step, reg, decode, bytes, offset, a);
    }
  }

  /** A buffer that holds one register starting at the base address, no more,
      decodes to that register's record alone, with nothing unparsed. */
  lemma ScanOneRegister(reg: seq<Descriptor>, decode: Decoder, bytes: seq<Byte>, offset: nat, k: nat)
    requires Advances(reg)
    requires FirstMatch(reg, offset) == Some(k)
    requires 0 < |bytes| <= reg[k].NumBytes()
    requires decode(reg[k], Slice(bytes, 0, reg[k].NumBytes())).error.None?
    ensures var value := Slice(bytes, 0, reg[k].NumBytes());
            Scan(reg, decode, bytes, offset, [], map[])
            == Scanned([Record(reg[k], value, decode(reg[k], value).fields)], map[], None)
  {
    var step := BodyWitness(reg, decode, bytes, offset, [], map[]);
    assert BodyAt(step, reg, decode, bytes, offset, 0);
    var value := Slice(bytes, 0, reg[k].NumBytes());
    var rec := Record(reg[k], value, decode(reg[k], value).fields);
    RunTake(step, bytes, offset, 0, rec, [], map[]);
  }

  /** Ordered spans are disjoint: an address lies in at most one of them. */
  lemma OrderedDisjoint(records: seq<Record>, a: nat, j: nat, k: nat)
    requires Ordered(records)
    requires j < |records| && k < |records|
    requires records[j].desc.Spans(a) && records[k].desc.Spans(a)
    ensures j == k
  {
  }

  /** After a parse(bytes, offset) that did not raise, each address of the
      buffer is either unparsed or inside the span of exactly one decoded
      register, and never both. */
  lemma PartitionOfBuffer(reg: seq<Descriptor>, decode: Decoder, bytes: seq<Byte>, offset: nat, a: nat)
    requires Advances(reg)
    requires Scan(reg, decode, bytes, offset, [], map[]).error.None?
    requires offset <= a < offset + |bytes|
    ensures var s := Scan(reg, decode, bytes, offset, [], map[]);
            && (a in s.unparsed <==> !exists j :: 0 <= j < |s.records| && s.records[j].desc.Spans(a))
            && (forall j, k ::
                  (0 <= j < |s.records| && 0 <= k < |s.records| && s.records[j].desc.Spans(a) && s.records[k].desc.Spans(a))
                  ==> j == k)
  {
    ScanWell(reg, decode, bytes, offset);
    var s := Scan(reg, decode, bytes, offset, [], map[]);
    forall j, k | 0 <= j < |s.records| && 0 <= k < |s.records| && s.records[j].desc.Spans(a) && s.records[k].desc.Spans(a)
      ensures j == k
    {
      OrderedDisjoint(s.records, a, j, k);
    }
  }

  /** parse(bytes, offset) on a parser that already holds results appends
      to them: its records follow the old ones and its unparsed bytes are
      written over the old ones. */
  lemma ScanAppends(reg: seq<Descriptor>, decode: Decoder, bytes: seq<Byte>, offset: nat,
                    records: seq<Record>, unparsed: map<nat, Byte>)
    requires Advances(reg)
    ensures var s := Scan(reg, decode, bytes, offset, [], map[]);
            Scan(reg, decode, bytes, offset, records, unparsed) == Scanned(records + s.records, unparsed + s.unparsed, s.error)
  {
    var step := BodyWitness(reg, decode, bytes, offset, records, unparsed);
    var empty := BodyWitness(reg, decode, bytes, offset, [], map[]);
    forall i ensures step(i) == empty(i) {
      assert BodyAt(step, reg, decode, bytes, offset, i) && BodyAt(empty, reg, decode, bytes, offset, i);
    }
    RunAgrees(step, empty, bytes, offset, 0, [], map[]);
    RunAppends(step, bytes, offset, 0, records, unparsed);
  }
}
