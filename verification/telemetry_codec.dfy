/**
 * Decoding of one 15-byte telemetry frame as the complete monitor does it:
 * the mode, navigation source, country and GPS/INS fields of the discrete
 * bytes, and the five big-endian device words with their angles.
 *
 * The monitor looks the two-bit fields up in Python dictionaries with a
 * default of "Unknown"; the lookups are modelled as maps with a default.
 */
module TelemetryCodec {
  import opened Bytes
  import FrameScanner

  datatype Mode = EADI | EHSI | RDU | UnknownMode
  datatype NavSource = INS | TAC | VorIls | UnknownNav
  datatype Country = TniAu | Bangladesh | India | Pakistan | UnknownCountry
  datatype Positioning = GpsFix | InsFix

  /** `table.get(key, default)` */
  function Lookup<V>(table: map<int, V>, key: int, default: V): V {
    if key in table then table[key] else default
  }

  const ModeTable: map<int, Mode> := map[0 := EADI, 1 := EHSI, 2 := RDU]
  const NavTable: map<int, NavSource> := map[0 := INS, 1 := TAC, 2 := VorIls]
  const CountryTable: map<int, Country> :=
    map[0 := TniAu, 1 := Bangladesh, 2 := India, 3 := Pakistan]

  /** Mode from bits 1:0 of discrete B. */
  function DecodeMode(discreteB: bv8): Mode {
    Lookup(ModeTable, (discreteB & 3) as int, UnknownMode)
  }

  /** Navigation source from bits 3:2 of discrete B. */
  function DecodeNavSource(discreteB: bv8): NavSource {
    Lookup(NavTable, ((discreteB >> 2) & 3) as int, UnknownNav)
  }

  /** Country from bits 1:0 of discrete C, with the four-entry table. */
  function DecodeCountry(discreteC: bv8): (r: Country)
    ensures r != UnknownCountry
  {
    var k := (discreteC & 3) as int;
    assert k == 0 || k == 1 || k == 2 || k == 3;
    Lookup(CountryTable, (discreteC & 3) as int, UnknownCountry)
  }

  /** GPS when bit 2 of discrete C is clear, INS when it is set. */
  function DecodeGpsIns(discreteC: bv8): Positioning {
    if discreteC & 4 == 0 then GpsFix else InsFix
  }

  /** Bit 2 alone selects GPS or INS: GPS exactly when it is clear. */
  lemma PositioningFromBit2(c: bv8)
    ensures DecodeGpsIns(c) == GpsFix <==> (c >> 2) & 1 == 0
    ensures DecodeGpsIns(c) == DecodeGpsIns(c & 4)
  {
  }

  /** The two-bit code of each known mode (the inverse of `DecodeMode`). */
  function ModeCode(m: Mode): bv8
    requires m != UnknownMode
  {
    match m
    case EADI => 0
    case EHSI => 1
    case RDU => 2
  }

  /** Bits 1:0 alone select the mode: 0, 1, 2, 3 give EADI, EHSI, RDU,
      Unknown whatever the other six bits hold, and each known mode is read
      back from its code. */
  lemma ModeFromLowBits(b: bv8)
    ensures b & 3 == 0 ==> DecodeMode(b) == EADI
    ensures b & 3 == 1 ==> DecodeMode(b) == EHSI
    ensures b & 3 == 2 ==> DecodeMode(b) == RDU
    ensures b & 3 == 3 ==> DecodeMode(b) == UnknownMode
    ensures DecodeMode(b) == DecodeMode(b & 3)
    ensures DecodeMode(b) != UnknownMode ==> ModeCode(DecodeMode(b)) == b & 3
  {
    var k := b & 3;
    assert (b & 3) & 3 == k;
    assert k == 0 || k == 1 || k == 2 || k == 3;
    assert ModeTable[0] == EADI && ModeTable[1] == EHSI && ModeTable[2] == RDU;
    assert 3 !in ModeTable;
  }

  /** Bits 3:2 alone select the navigation source: 0, 1, 2, 3 give INS, TAC,
      VOR/ILS, Unknown whatever the other bits hold. */
  lemma NavFromBits3And2(b: bv8)
    ensures (b >> 2) & 3 == 0 ==> DecodeNavSource(b) == INS
    ensures (b >> 2) & 3 == 1 ==> DecodeNavSource(b) == TAC
    ensures (b >> 2) & 3 == 2 ==> DecodeNavSource(b) == VorIls
    ensures (b >> 2) & 3 == 3 ==> DecodeNavSource(b) == UnknownNav
    ensures DecodeNavSource(b) == DecodeNavSource(b & 0x0C)
  {
    var k := (b >> 2) & 3;
    assert ((b & 0x0C) >> 2) & 3 == k;
    assert k == 0 || k == 1 || k == 2 || k == 3;
    assert NavTable[0] == INS && NavTable[1] == TAC && NavTable[2] == VorIls;
    assert 3 !in NavTable;
  }

  /** Every value of bits 1:0 names a country, and no other bit matters. */
  lemma CountryFromLowBits(c: bv8)
    ensures c & 3 == 0 ==> DecodeCountry(c) == TniAu
    ensures c & 3 == 1 ==> DecodeCountry(c) == Bangladesh
    ensures c & 3 == 2 ==> DecodeCountry(c) == India
    ensures c & 3 == 3 ==> DecodeCountry(c) == Pakistan
    ensures DecodeCountry(c) == DecodeCountry(c & 3)
  {
    var k := c & 3;
    assert (c & 3) & 3 == k;
    assert CountryTable[0] == TniAu && CountryTable[1] == Bangladesh;
    assert CountryTable[2] == India && CountryTable[3] == Pakistan;
  }

  /** The raw value of device `i` (0-based): the big-endian pair at
      `frame[5 + 2i]`, `frame[6 + 2i]`. */
  function DeviceRaw(frame: seq<byte>, i: nat): (r: nat)
    requires |frame| == FrameScanner.FrameLength && i < 5
    ensures r < 0x1_0000
    ensures r / 256 == frame[5 + 2 * i] && r % 256 == frame[6 + 2 * i]
  {
    Word16(frame[5 + 2 * i], frame[6 + 2 * i])
  }

  /** The 15-byte frame's angle scale, `raw * 360.0 / 65535.0`. */
  function RawToDegrees(raw: nat): real
    requires raw < 0x1_0000
  {
    (raw as real * 360.0) / 65535.0
  }

  /** The scale is closed at both ends: raw 0 is 0 degrees and raw 65535 is
      exactly 360 degrees, every other raw value lies strictly between, and
      the map is strictly increasing. */
  lemma DegreesRange(raw: nat, raw': nat)
    requires raw < 0x1_0000 && raw' < 0x1_0000
    ensures 0.0 <= RawToDegrees(raw) <= 360.0
    ensures RawToDegrees(0) == 0.0 && RawToDegrees(0xFFFF) == 360.0
    ensures RawToDegrees(raw) == 360.0 <==> raw == 0xFFFF
    ensures RawToDegrees(raw) == 0.0 <==> raw == 0
    ensures raw < raw' ==> RawToDegrees(raw) < RawToDegrees(raw')
  {
  }

  /** The record the monitor stores for one frame (the display timestamp and
      the wall-clock rate are left out). */
  datatype Telemetry = Telemetry(
    mode: Mode,
    navSource: NavSource,
    country: Country,
    positioning: Positioning,
    discreteA: byte,
    discreteB: byte,
    discreteC: byte,
    raws: seq<nat>,
    angles: seq<real>)

  /** Decode a frame the scanner extracted. */
  function Decode(frame: seq<byte>): (t: Telemetry)
    requires |frame| == FrameScanner.FrameLength
    ensures |t.raws| == 5 && |t.angles| == 5
    ensures t.discreteA == frame[2] && t.discreteB == frame[3] && t.discreteC == frame[4]
    ensures t.mode == DecodeMode(frame[3] as bv8) && t.navSource == DecodeNavSource(frame[3] as bv8)
    ensures t.country == DecodeCountry(frame[4] as bv8) && t.positioning == DecodeGpsIns(frame[4] as bv8)
    ensures forall i :: 0 <= i < 5 ==>
      t.raws[i] < 0x1_0000 && t.raws[i] == frame[5 + 2 * i] as int * 256 + frame[6 + 2 * i] as int
    ensures forall i :: 0 <= i < 5 ==>
      0.0 <= t.angles[i] <= 360.0 && t.angles[i] == RawToDegrees(t.raws[i])
  {
    var raws := seq(5, i requires 0 <= i < 5 => DeviceRaw(frame, i));
    assert forall i :: 0 <= i < 5 ==> raws[i] < 0x1_0000;
    var angles := seq(5, i requires 0 <= i < 5 => RawToDegrees(raws[i]));
    assert forall i :: 0 <= i < 5 ==> 0.0 <= angles[i] <= 360.0 by {
      forall i | 0 <= i < 5 ensures 0.0 <= angles[i] <= 360.0 {
        DegreesRange(raws[i], 0);
      }
    }
    Telemetry(
      DecodeMode(frame[3] as bv8),
      DecodeNavSource(frame[3] as bv8),
      DecodeCountry(frame[4] as bv8),
      DecodeGpsIns(frame[4] as bv8),
      frame[2], frame[3], frame[4],
      raws, angles)
  }
}
