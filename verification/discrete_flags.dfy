/**
 * The discrete monitor's mode-dependent flag decoding.
 *
 * Each of the nine `decode_discrete_{a,b,c}_{eadi,ehsi,rdu}` routines tests a
 * fixed list of bits in ascending order and collects one label per set bit,
 * or answers `['None']` when none is set. They are modelled as one table per
 * routine and a single decoder parameterised by the table. This monitor has
 * its own `decode_mode` / `decode_nav_source` (if-chains instead of
 * dictionaries) and a three-valued `decode_country`.
 */
module DiscreteFlags {
  import opened Bytes
  import TelemetryCodec

  type BitIndex = k: nat | k < 8

  /** One row of a flag table: a bit of the discrete byte and its label. */
  datatype FlagBit = FlagBit(bit: BitIndex, name: string)

  /** Bit `k` of `b` is set: `b & (1 << k)`. */
  predicate BitSet(b: bv8, k: BitIndex) {
    b & (1 << k) != 0
  }

  /** Bits listed in strictly ascending order. */
  predicate Ascending(table: seq<FlagBit>) {
    forall i, j :: 0 <= i < j < |table| ==> table[i].bit < table[j].bit
  }

  const EadiA: seq<FlagBit> := [FlagBit(0, "GS_Valid"), FlagBit(1, "Gyro_Mon"),
    FlagBit(2, "FD_Valid"), FlagBit(3, "ROT_Valid"), FlagBit(4, "NVIS_Sel"), FlagBit(5, "DH_Input")]
  const EhsiA: seq<FlagBit> := [FlagBit(0, "GS_Valid"), FlagBit(1, "TRUE/MAG"),
    FlagBit(2, "FMS_Decimal"), FlagBit(3, "WP_Alert"), FlagBit(4, "NVIS_Sel")]
  const RduA: seq<FlagBit> := [FlagBit(4, "NVIS_Sel"), FlagBit(6, "Video_Radar_ON")]
  const EadiB: seq<FlagBit> := [FlagBit(4, "Auto_Test"), FlagBit(5, "LAT/BAR_View"),
    FlagBit(6, "ILS_Freq_Tuned"), FlagBit(7, "NAV_Super_Flag")]
  const EhsiB: seq<FlagBit> := [FlagBit(4, "Auto_Test"), FlagBit(5, "Heading_Mon"),
    FlagBit(6, "ILS_Freq_Tuned"), FlagBit(7, "NAV_Valid")]
  const RduB: seq<FlagBit> := []
  const EadiC: seq<FlagBit> := [FlagBit(2, "Radio_Alt_Mon"), FlagBit(3, "REV_Mode"),
    FlagBit(4, "Inner_Marker"), FlagBit(5, "Outer_Marker"), FlagBit(6, "Middle_Marker")]
  const EhsiC: seq<FlagBit> := [FlagBit(3, "Back_Loc_Sense"), FlagBit(5, "VHF_NAV_Config")]
  const RduC: seq<FlagBit> := []

  /** The rows of `table` whose bit is set in `b`, in table order. */
  function ActiveRows(table: seq<FlagBit>, b: bv8): (r: seq<FlagBit>)
    ensures |r| <= |table|
    ensures forall e :: e in r <==> e in table && BitSet(b, e.bit)
  {
    if table == [] then []
    else
      var more := ActiveRows(table[1..], b);
      assert forall e :: e in table <==> e == table[0] || e in table[1..];
      if BitSet(b, table[0].bit) then [table[0]] + more else more
  }

  /** Rows are kept in table order, so an ascending table yields the set bits
      from least to most significant. */
  lemma {:induction false} ActiveRowsAscending(table: seq<FlagBit>, b: bv8)
    requires Ascending(table)
    ensures Ascending(ActiveRows(table, b))
  {
    if table != [] {
      var more := ActiveRows(table[1..], b);
      ActiveRowsAscending(table[1..], b);
      forall e | e in more ensures table[0].bit < e.bit {
        assert e in table[1..];
        var j :| 0 <= j < |table[1..]| && table[1..][j] == e;
        assert table[j + 1] == e;
      }
      if BitSet(b, table[0].bit) {
        AscendingCons(table[0], more);
      }
    }
  }

  /** A row below every row of an ascending table can be put in front. */
  lemma AscendingCons(x: FlagBit, rows: seq<FlagBit>)
    requires Ascending(rows) && forall e :: e in rows ==> x.bit < e.bit
    ensures Ascending([x] + rows)
  {
    var s := [x] + rows;
    forall i, j | 0 <= i < j < |s|
      ensures s[i].bit < s[j].bit
    {
      assert s[j] == rows[j - 1];
      if i > 0 {
        assert s[i] == rows[i - 1];
      } else {
        assert rows[j - 1] in rows;
      }
    }
  }

  function Labels(rows: seq<FlagBit>): (r: seq<string>)
    ensures |r| == |rows|
    ensures forall i :: 0 <= i < |rows| ==> r[i] == rows[i].name
  {
    seq(|rows|, i requires 0 <= i < |rows| => rows[i].name)
  }

  /** The labels of the set bits, or `["None"]` when none of the table's bits is set. */
  function DecodeFlags(table: seq<FlagBit>, b: bv8): (r: seq<string>)
    ensures (forall e :: e in table ==> !BitSet(b, e.bit)) ==> r == ["None"]
    ensures forall e :: e in table && BitSet(b, e.bit) ==> e.name in r
    ensures (exists e :: e in table && BitSet(b, e.bit)) ==>
      forall s :: s in r ==> exists e :: e in table && BitSet(b, e.bit) && e.name == s
    ensures (exists e :: e in table && BitSet(b, e.bit)) ==> r == Labels(ActiveRows(table, b))
  {
    var rows := ActiveRows(table, b);
    assert rows != [] ==> rows[0] in rows;
    if rows == [] then ["None"] else Labels(rows)
  }

  /** Bits the table does not list never change the decoded flags: two bytes
      that agree on the table's bits decode alike. */
  lemma {:induction false} FlagsIgnoreOtherBits(table: seq<FlagBit>, b: bv8, b': bv8)
    requires forall e :: e in table ==> BitSet(b, e.bit) == BitSet(b', e.bit)
    ensures ActiveRows(table, b) == ActiveRows(table, b')
    ensures DecodeFlags(table, b) == DecodeFlags(table, b')
  {
    if table != [] {
      assert table[0] in table;
      forall e | e in table[1..] ensures BitSet(b, e.bit) == BitSet(b', e.bit) {
        assert e in table;
      }
      FlagsIgnoreOtherBits(table[1..], b, b');
    }
  }

  /** All nine tables list their bits in ascending order, so every decoded
      list names the set bits from least to most significant. */
  lemma TablesAscending()
    ensures Ascending(EadiA) && Ascending(EhsiA) && Ascending(RduA)
    ensures Ascending(EadiB) && Ascending(EhsiB) && Ascending(RduB)
    ensures Ascending(EadiC) && Ascending(EhsiC) && Ascending(RduC)
  {
    AscendingByNeighbours(EadiA);
    AscendingByNeighbours(EhsiA);
    AscendingByNeighbours(RduA);
    AscendingByNeighbours(EadiB);
    AscendingByNeighbours(EhsiB);
    AscendingByNeighbours(EadiC);
    AscendingByNeighbours(EhsiC);
  }

  /** The tables of the nine flag routines. */
  const FlagTables: seq<seq<FlagBit>> := [EadiA, EhsiA, RduA, EadiB, EhsiB, RduB, EadiC, EhsiC, RduC]

  /** Every flag routine reports one label per set bit it tests, each bit
      once, from the least significant set bit to the most significant. */
  lemma FlagsInBitOrder(table: seq<FlagBit>, b: bv8)
    requires table in FlagTables
    ensures ActiveRows(table, b) == [] ==> DecodeFlags(table, b) == ["None"]
    ensures ActiveRows(table, b) != [] ==> DecodeFlags(table, b) == Labels(ActiveRows(table, b))
    ensures forall i, j :: 0 <= i < j < |ActiveRows(table, b)| ==>
      ActiveRows(table, b)[i].bit < ActiveRows(table, b)[j].bit
  {
    TablesAscending();
    ActiveRowsAscending(table, b);
  }

  /** A table whose neighbouring rows ascend is ascending throughout. */
  lemma {:induction false} AscendingByNeighbours(table: seq<FlagBit>)
    requires forall i :: 0 <= i < |table| - 1 ==> table[i].bit < table[i + 1].bit
    ensures Ascending(table)
    decreases |table|
  {
    if |table| > 1 {
      var rest := table[1..];
      assert forall i :: 0 <= i < |rest| - 1 ==> rest[i].bit < rest[i + 1].bit;
      AscendingByNeighbours(rest);
      forall i, j | 0 <= i < j < |table|
        ensures table[i].bit < table[j].bit
      {
        if i > 0 {
          assert table[i] == rest[i - 1] && table[j] == rest[j - 1];
        } else if j > 1 {
          assert table[1] == rest[0] && table[j] == rest[j - 1];
        }
      }
    }
  }

  /** A bit of `a & m` is set exactly when it is set in both. */
  lemma BitOfAnd(a: bv8, m: bv8, k: BitIndex)
    ensures BitSet(a & m, k) == (BitSet(a, k) && BitSet(m, k))
  {
  }

  /** Masking a byte with `m` leaves its flags unchanged whenever `m` keeps
      every bit the table lists. */
  lemma TableUnderMask(table: seq<FlagBit>, a: bv8, m: bv8)
    requires forall i :: 0 <= i < |table| ==> BitSet(m, table[i].bit)
    ensures DecodeFlags(table, a) == DecodeFlags(table, a & m)
  {
    forall e | e in table ensures BitSet(a, e.bit) == BitSet(a & m, e.bit) {
      var i :| 0 <= i < |table| && table[i] == e;
      BitOfAnd(a, m, e.bit);
    }
    FlagsIgnoreOtherBits(table, a, a & m);
  }

  /** EADI discrete A ignores bits 6 and 7; EHSI discrete A ignores bits 5
      to 7; RDU discrete A looks only at bits 4 and 6. */
  lemma DiscreteAMasks(a: bv8)
    ensures DecodeFlags(EadiA, a) == DecodeFlags(EadiA, a & 0x3F)
    ensures DecodeFlags(EhsiA, a) == DecodeFlags(EhsiA, a & 0x1F)
    ensures DecodeFlags(RduA, a) == DecodeFlags(RduA, a & 0x50)
  {
    EadiAMask(a);
    EhsiAMask(a);
    assert BitSet(0x50, 4) && BitSet(0x50, 6);
    TableUnderMask(RduA, a, 0x50);
  }

  lemma EadiAMask(a: bv8)
    ensures DecodeFlags(EadiA, a) == DecodeFlags(EadiA, a & 0x3F)
  {
    assert BitSet(0x3F, 0) && BitSet(0x3F, 1) && BitSet(0x3F, 2);
    assert BitSet(0x3F, 3) && BitSet(0x3F, 4) && BitSet(0x3F, 5);
    TableUnderMask(EadiA, a, 0x3F);
  }

  lemma EhsiAMask(a: bv8)
    ensures DecodeFlags(EhsiA, a) == DecodeFlags(EhsiA, a & 0x1F)
  {
    assert BitSet(0x1F, 0) && BitSet(0x1F, 1) && BitSet(0x1F, 2);
    assert BitSet(0x1F, 3) && BitSet(0x1F, 4);
    TableUnderMask(EhsiA, a, 0x1F);
  }

  /** Discrete B's flags never depend on its mode and navigation bits 0..3. */
  lemma DiscreteBMasks(b: bv8)
    ensures DecodeFlags(EadiB, b) == DecodeFlags(EadiB, b & 0xF0)
    ensures DecodeFlags(EhsiB, b) == DecodeFlags(EhsiB, b & 0xF0)
  {
    assert BitSet(0xF0, 4) && BitSet(0xF0, 5) && BitSet(0xF0, 6) && BitSet(0xF0, 7);
    TableUnderMask(EadiB, b, 0xF0);
    TableUnderMask(EhsiB, b, 0xF0);
  }

  /** Discrete C's EADI flags ignore its country and top bits 0, 1 and 7;
      its EHSI flags look only at bits 3 and 5. */
  lemma DiscreteCMasks(c: bv8)
    ensures DecodeFlags(EadiC, c) == DecodeFlags(EadiC, c & 0x7C)
    ensures DecodeFlags(EhsiC, c) == DecodeFlags(EhsiC, c & 0x28)
  {
    assert BitSet(0x7C, 2) && BitSet(0x7C, 3) && BitSet(0x7C, 4);
    assert BitSet(0x7C, 5) && BitSet(0x7C, 6);
    TableUnderMask(EadiC, c, 0x7C);
    assert BitSet(0x28, 3) && BitSet(0x28, 5);
    TableUnderMask(EhsiC, c, 0x28);
  }

  /** RDU has no discrete B or C flags: those always read `['None']`. */
  lemma RduBCAlwaysNone(b: bv8, c: bv8)
    ensures DecodeFlags(RduB, b) == ["None"] && DecodeFlags(RduC, c) == ["None"]
  {
  }

  /** A concrete reading: RDU discrete A with bits 4 and 6 set (0x50) lists
      both labels in bit order; with only bit 7 set it reads `['None']`. */
  lemma RduAExamples()
    ensures DecodeFlags(RduA, 0x50) == ["NVIS_Sel", "Video_Radar_ON"]
    ensures DecodeFlags(RduA, 0x80) == ["None"]
  {
    assert BitSet(0x50, 4) && BitSet(0x50, 6);
    assert ActiveRows(RduA, 0x50) == RduA;
    assert !BitSet(0x80, 4) && !BitSet(0x80, 6);
  }

  /** This monitor's `decode_mode`, written as an if-chain. */
  function DecodeModeChain(discreteB: bv8): TelemetryCodec.Mode {
    var bits := discreteB & 0x03;
    if bits == 0 then TelemetryCodec.EADI
    else if bits == 1 then TelemetryCodec.EHSI
    else if bits == 2 then TelemetryCodec.RDU
    else TelemetryCodec.UnknownMode
  }

  /** This monitor's `decode_nav_source`, written as an if-chain. */
  function DecodeNavSourceChain(discreteB: bv8): TelemetryCodec.NavSource {
    var bits := (discreteB >> 2) & 0x03;
    if bits == 0 then TelemetryCodec.INS
    else if bits == 1 then TelemetryCodec.TAC
    else if bits == 2 then TelemetryCodec.VorIls
    else TelemetryCodec.UnknownNav
  }

  /** This monitor's `decode_country`: only two countries are known. */
  function DecodeCountryNarrow(discreteC: bv8): TelemetryCodec.Country {
    var bits := discreteC & 0x03;
    if bits == 0 then TelemetryCodec.TniAu
    else if bits == 1 then TelemetryCodec.Bangladesh
    else TelemetryCodec.UnknownCountry
  }

  /** The if-chain mode and navigation decoders agree with the dictionary
      decoders of the complete monitor on every byte. */
  lemma ChainsAgreeWithTables(b: bv8)
    ensures DecodeModeChain(b) == TelemetryCodec.DecodeMode(b)
    ensures DecodeNavSourceChain(b) == TelemetryCodec.DecodeNavSource(b)
  {
    TelemetryCodec.ModeFromLowBits(b);
    TelemetryCodec.NavFromBits3And2(b);
  }

  /** The two country tables agree on codes 0 and 1 only: for 2 and 3 this
      monitor reports Unknown where the complete monitor reports India and
      Pakistan. */
  lemma CountryTablesDisagree(c: bv8)
    ensures c & 3 <= 1 ==> DecodeCountryNarrow(c) == TelemetryCodec.DecodeCountry(c)
    ensures c & 3 >= 2 ==> DecodeCountryNarrow(c) == TelemetryCodec.UnknownCountry
    ensures c & 3 >= 2 ==> DecodeCountryNarrow(c) != TelemetryCodec.DecodeCountry(c)
  {
    TelemetryCodec.CountryFromLowBits(c);
  }

  /** The flag tables for a mode; Unknown has none. */
  function TablesFor(mode: TelemetryCodec.Mode): (seq<FlagBit>, seq<FlagBit>, seq<FlagBit>) {
    match mode
    case EADI => (EadiA, EadiB, EadiC)
    case EHSI => (EhsiA, EhsiB, EhsiC)
    case RDU => (RduA, RduB, RduC)
    case UnknownMode => ([], [], [])
  }

  /** The result of `decode_packet` (the flag lists are kept as lists; the
      monitor joins each with ", " only to print it). */
  datatype Decoded = Decoded(
    mode: TelemetryCodec.Mode,
    navSource: TelemetryCodec.NavSource,
    country: TelemetryCodec.Country,
    flagsA: seq<string>,
    flagsB: seq<string>,
    flagsC: seq<string>)

  /** `decode_packet`: the mode read from discrete B chooses the flag tables. */
  function DecodePacket(a: bv8, b: bv8, c: bv8): (d: Decoded)
    ensures d.mode == DecodeModeChain(b)
    ensures d.navSource == DecodeNavSourceChain(b) && d.country == DecodeCountryNarrow(c)
    ensures d.mode == TelemetryCodec.UnknownMode ==>
      d.flagsA == ["Unknown"] && d.flagsB == ["Unknown"] && d.flagsC == ["Unknown"]
    ensures d.mode != TelemetryCodec.UnknownMode ==>
      && d.flagsA == DecodeFlags(TablesFor(d.mode).0, a)
      && d.flagsB == DecodeFlags(TablesFor(d.mode).1, b)
      && d.flagsC == DecodeFlags(TablesFor(d.mode).2, c)
  {
    var mode := DecodeModeChain(b);
    var tables := TablesFor(mode);
    if mode == TelemetryCodec.UnknownMode then
      Decoded(mode, DecodeNavSourceChain(b), DecodeCountryNarrow(c), ["Unknown"], ["Unknown"], ["Unknown"])
    else
      Decoded(mode, DecodeNavSourceChain(b), DecodeCountryNarrow(c),
        DecodeFlags(tables.0, a), DecodeFlags(tables.1, b), DecodeFlags(tables.2, c))
  }

  /** Bits 1:0 of discrete B pick the mode, and so the tables: 0 EADI,
      1 EHSI, 2 RDU; 3 is the unknown mode, reported as `['Unknown']` for
      every discrete. */
  lemma ModeBitsPickTables(b: bv8)
    ensures b & 3 == 0 ==> DecodeModeChain(b) == TelemetryCodec.EADI
    ensures b & 3 == 1 ==> DecodeModeChain(b) == TelemetryCodec.EHSI
    ensures b & 3 == 2 ==> DecodeModeChain(b) == TelemetryCodec.RDU
    ensures b & 3 == 3 <==> DecodeModeChain(b) == TelemetryCodec.UnknownMode
    ensures TablesFor(TelemetryCodec.EADI) == (EadiA, EadiB, EadiC)
    ensures TablesFor(TelemetryCodec.EHSI) == (EhsiA, EhsiB, EhsiC)
    ensures TablesFor(TelemetryCodec.RDU) == (RduA, RduB, RduC)
  {
  }

  /** An RDU packet (mode bits 2) lists no discrete B or C flags. */
  lemma RduPacketFlags(a: bv8, b: bv8, c: bv8)
    requires b & 3 == 2
    ensures var d := DecodePacket(a, b, c);
      d.mode == TelemetryCodec.RDU && d.flagsB == ["None"] && d.flagsC == ["None"]
  {
    ModeBitsPickTables(b);
    RduBCAlwaysNone(b, c);
  }
}
