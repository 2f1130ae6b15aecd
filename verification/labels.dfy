/** The value-to-label helpers that both decoders apply to extracted fields:
    the downstream facing port type, the I2C speed capability bit map and the
    training AUX read interval. The table-driven decoder carries identical
    copies of them as methods of its register classes. */
module Labels {
  import opened Common
  import opened Bits

  /** Name of the downstream facing port type (DPCD 0x005, bits 1..2);
      Python's implicit `None` for any other value. */
  function DownstreamPortType(v: nat): (r: Option<string>)
    ensures r.Some? <==> v < 4
  {
    if v == 0 then Some("DisplayPort")
    else if v == 1 then Some("Analog VGA")
    else if v == 2 then Some("HDMI/DVI/DP++")
    else if v == 3 then Some("Others")
    else None
  }

  /** The two-bit port-type field always has a name, and the four names differ. */
  lemma PortTypeCoversField(b: nat)
    ensures DownstreamPortType(ExtractBits(b, 1, 2)).Some?
    ensures forall x, y :: 0 <= x < y < 4 ==> DownstreamPortType(x) != DownstreamPortType(y)
  {
    assert Pow2(2) == 4;
  }

  // ---------------------------------------------------------------------
  // I2C speed control capabilities (DPCD 0x00C)

  /** Speed named by bits 0..5 of the capability map, in bit order. */
  const SpeedNames: seq<string> := ["1 Kbps", "5 Kbps", "10 Kbps", "100 Kbps", "400 Kbps", "1 Mbps"]

  const NoBus := "No physical i2c bus"
  const Reserved := "RESERVED"

  /** The speeds whose bits among 0..n-1 are set, lowest bit first. */
  function SpeedsBelow(v: nat, n: nat): seq<string>
    requires n <= 6
  {
    if n == 0 then []
    else SpeedsBelow(v, n - 1) + (if BitSet(v, n - 1) then [SpeedNames[n - 1]] else [])
  }

  /** The list `i2c_speed_caps` joins for a non-zero map: one speed per set bit
      0..5, then one "RESERVED" if bit 6 or bit 7 is set. */
  function SpeedList(v: nat): seq<string>
  {
    SpeedsBelow(v, 6) + (if BitSet(v, 6) || BitSet(v, 7) then [Reserved] else [])
  }

  /** Python's `sep.join(parts)`. */
  function Join(parts: seq<string>, sep: string): string
  {
    if |parts| == 0 then ""
    else if |parts| == 1 then parts[0]
    else parts[0] + sep + Join(parts[1..], sep)
  }

  /** The text `i2c_speed_caps` returns: the no-bus text exactly for 0, and
      never empty for a byte. */
  function I2cSpeedCapsText(v: nat): (r: string)
    ensures r == NoBus <==> v == 0
    ensures v < 256 ==> r != ""
  {
    if v == 0 then NoBus
    else
      SpeedTextNotNoBus(v);
      if v < 256 then (I2cSpeedsNonEmpty(v); Join(SpeedList(v), "/"))
      else Join(SpeedList(v), "/")
  }

  /** `i2c_speed_caps`: collects the speed names one bit test at a time. */
  method I2cSpeedCaps(v: nat) returns (r: string)
    ensures v == 0 ==> r == NoBus
    ensures v != 0 ==> r == Join(SpeedList(v), "/")
  {
    if v == 0 {
      return NoBus;
    }
    var speeds: seq<string> := [];
    if And(v, 1) != 0 {
      speeds := speeds + ["1 Kbps"];
    }
    assert speeds == SpeedsBelow(v, 1);
    if And(v, 2) != 0 {
      speeds := speeds + ["5 Kbps"];
    }
    assert speeds == SpeedsBelow(v, 2);
    if And(v, 4) != 0 {
      speeds := speeds + ["10 Kbps"];
    }
    assert speeds == SpeedsBelow(v, 3);
    if And(v, 8) != 0 {
      speeds := speeds + ["100 Kbps"];
    }
    assert speeds == SpeedsBelow(v, 4);
    if And(v, 0x10) != 0 {
      speeds := speeds + ["400 Kbps"];
    }
    assert speeds == SpeedsBelow(v, 5);
    if And(v, 0x20) != 0 {
      speeds := speeds + ["1 Mbps"];
    }
    assert speeds == SpeedsBelow(v, 6);
    assert Pow2(6) == 0x40 && Pow2(7) == 0x80;
    if And(v, 0x40) != 0 || And(v, 0x80) != 0 {
      speeds := speeds + [Reserved];
    }
    assert BitSet(v, 6) == (And(v, 0x40) != 0);
    assert BitSet(v, 7) == (And(v, 0x80) != 0);
    assert speeds == SpeedList(v);
    r := Join(speeds, "/");
  }

  /** Position of a speed name in SpeedNames (6 for any other text). */
  function SpeedRank(name: string): nat
  {
    if name == SpeedNames[0] then 0
    else if name == SpeedNames[1] then 1
    else if name == SpeedNames[2] then 2
    else if name == SpeedNames[3] then 3
    else if name == SpeedNames[4] then 4
    else if name == SpeedNames[5] then 5
    else 6
  }

  lemma SpeedRanks()
    ensures forall k :: 0 <= k < 6 ==> SpeedRank(SpeedNames[k]) == k
    ensures SpeedRank(Reserved) == 6
  {
  }

  /** The speeds listed for bits below n are exactly the set bits, each once,
      in ascending bit order. */
  lemma {:induction false} SpeedsBelowListsSetBits(v: nat, n: nat)
    requires n <= 6
    ensures forall i :: 0 <= i < |SpeedsBelow(v, n)| ==>
              var k := SpeedRank(SpeedsBelow(v, n)[i]);
              k < n && BitSet(v, k) && SpeedsBelow(v, n)[i] == SpeedNames[k]
    ensures forall i, j :: 0 <= i < j < |SpeedsBelow(v, n)| ==>
              SpeedRank(SpeedsBelow(v, n)[i]) < SpeedRank(SpeedsBelow(v, n)[j])
    ensures forall k :: 0 <= k < n && BitSet(v, k) ==> SpeedNames[k] in SpeedsBelow(v, n)
  {
    SpeedRanks();
    if n > 0 {
      SpeedsBelowListsSetBits(v, n - 1);
    }
  }

  /** The speeds listed for bits 0..5 rank below 6, so none is "RESERVED". */
  lemma BelowRanked(v: nat)
    ensures forall i :: 0 <= i < |SpeedsBelow(v, 6)| ==>
              SpeedRank(SpeedsBelow(v, 6)[i]) < 6 && SpeedsBelow(v, 6)[i] != Reserved
  {
    SpeedsBelowListsSetBits(v, 6);
    SpeedRanks();
  }

  /** Speed k is listed iff bit k is set. */
  lemma SpeedListedIff(v: nat, k: nat)
    requires k < 6
    ensures SpeedNames[k] in SpeedList(v) <==> BitSet(v, k)
  {
    var below := SpeedsBelow(v, 6);
    SpeedsBelowListsSetBits(v, 6);
    SpeedRanks();
    if SpeedNames[k] in SpeedList(v) {
      var i :| 0 <= i < |SpeedList(v)| && SpeedList(v)[i] == SpeedNames[k];
      assert SpeedNames[k] != Reserved;
      assert i < |below| && below[i] == SpeedNames[k];
    }
  }

  /** The listed entries come in strictly ascending rank, "RESERVED" ranking last. */
  lemma SpeedListOrdered(v: nat)
    ensures forall i, j :: 0 <= i < j < |SpeedList(v)| ==> SpeedRank(SpeedList(v)[i]) < SpeedRank(SpeedList(v)[j])
  {
    var below := SpeedsBelow(v, 6);
    SpeedsBelowListsSetBits(v, 6);
    BelowRanked(v);
    SpeedRanks();
    forall i, j | 0 <= i < j < |SpeedList(v)|
      ensures SpeedRank(SpeedList(v)[i]) < SpeedRank(SpeedList(v)[j])
    {
      assert SpeedList(v)[i] == below[i];
      if j >= |below| {
        assert SpeedList(v)[j] == Reserved;
      } else {
        assert SpeedList(v)[j] == below[j];
      }
    }
  }

  /** "RESERVED" is listed iff bit 6 or bit 7 is set, and then last. */
  lemma ReservedListed(v: nat)
    ensures (Reserved in SpeedList(v)) <==> BitSet(v, 6) || BitSet(v, 7)
    ensures Reserved in SpeedList(v) ==> SpeedList(v)[|SpeedList(v)| - 1] == Reserved
  {
    var below := SpeedsBelow(v, 6);
    BelowRanked(v);
    assert Reserved !in below;
  }

  /** For a non-zero map: speed k is listed iff bit k is set, the speeds come in
      ascending bit order, and "RESERVED" is listed once, last, iff bit 6 or 7 is set. */
  lemma I2cSpeedsListed(v: nat)
    ensures forall k :: 0 <= k < 6 ==> (SpeedNames[k] in SpeedList(v) <==> BitSet(v, k))
    ensures forall i, j :: 0 <= i < j < |SpeedList(v)| ==> SpeedRank(SpeedList(v)[i]) < SpeedRank(SpeedList(v)[j])
    ensures (Reserved in SpeedList(v)) <==> BitSet(v, 6) || BitSet(v, 7)
    ensures Reserved in SpeedList(v) ==> SpeedList(v)[|SpeedList(v)| - 1] == Reserved
  {
    forall k | 0 <= k < 6
      ensures SpeedNames[k] in SpeedList(v) <==> BitSet(v, k)
    {
      SpeedListedIff(v, k);
    }
    SpeedListOrdered(v);
    ReservedListed(v);
  }

  /** A non-zero byte always names at least one speed or "RESERVED". */
  lemma I2cSpeedsNonEmpty(v: nat)
    requires 0 < v < 256
    ensures |SpeedList(v)| > 0
    ensures Join(SpeedList(v), "/") != ""
  {
    assert Pow2(8) == 256;
    SomeBitSet(v, 8);
    var k :| 0 <= k < 8 && v / Pow2(k) % 2 == 1;
    AndPow2(v, k);
    I2cSpeedsListed(v);
    if k < 6 {
      assert SpeedNames[k] in SpeedList(v);
    } else {
      assert Reserved in SpeedList(v);
    }
    var parts := SpeedList(v);
    assert parts[0] != "";
    assert Join(parts, "/")[0] == parts[0][0];
  }

  /** A joined speed list never reads as the no-bus text: it starts with a
      speed's digit or with the "R" of "RESERVED". */
  lemma SpeedTextNotNoBus(v: nat)
    ensures Join(SpeedList(v), "/") != NoBus
  {
    var parts := SpeedList(v);
    var below := SpeedsBelow(v, 6);
    if |parts| > 0 {
      SpeedsBelowListsSetBits(v, 6);
      if |below| > 0 {
        assert parts[0] == below[0] == SpeedNames[SpeedRank(below[0])];
      } else {
        assert parts[0] == Reserved;
      }
      assert parts[0][0] != 'N';
      assert Join(parts, "/")[0] == parts[0][0];
    }
  }

  // ---------------------------------------------------------------------
  // Training AUX read interval (DPCD 0x00E, bits 0..6)

  datatype AuxReadInterval = AuxReadInterval(clockReqDoneUs: nat, channelEqDoneUs: nat)

  /** `aux_rd_interval`: the text 'ClockReqDone=100us / ChannelEqDone=Nus' for
      the five defined codes, Python's `None` for the rest. */
  function AuxRdInterval(v: nat): (r: Option<AuxReadInterval>)
    ensures r.Some? <==> v <= 4
    ensures r.Some? ==> r.value.clockReqDoneUs == 100
    ensures r.Some? ==> r.value.channelEqDoneUs == if v == 0 then 400 else 4000 * v
  {
    var eqDone :=
      if v == 0 then Some(400)
      else if v == 1 then Some(4000)
      else if v == 2 then Some(8000)
      else if v == 3 then Some(12000)
      else if v == 4 then Some(16000)
      else None;
    match eqDone
    case Some(us) => Some(AuxReadInterval(100, us))
    case None => None
  }

  /** The seven-bit interval field: codes 5..127 have no text. */
  lemma AuxIntervalOfField(b: nat)
    ensures var x := ExtractBits(b, 0, 6);
            x < 128 && (AuxRdInterval(x).None? <==> 5 <= x)
  {
    assert Pow2(7) == 128;
  }
}
