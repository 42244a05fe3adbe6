/**
 info.c: the wiphy report of `iw info` / `iw list`. The parenthesised
 flag list, the frequency and bitrate entries, the HT capability fields of
 each band (section 7.3.2.56 of IEEE 802.11n-2009), band numbering and the
 supported interface modes.
 */
module Info {
  import opened Base
  import opened Text
  import opened Util

  /**
   One `print_flag` call: " (" before the first flag, ", " before every
   later one; afterwards the list is open.
   */
  function PrintFlag(name: string, open: bool): (r: (string, bool))
    ensures r.1
    ensures r.0 == (if open then ", " else " (") + name
  {
    ((if open then ", " else " (") + name, true)
  }

  /** A run of `print_flag` calls starting from the given `open` state. */
  function FlagRun(names: seq<string>, open: bool): (r: (string, bool))
    ensures r.1 <==> open || |names| > 0
    ensures |names| == 0 ==> r.0 == ""
    ensures |names| > 0 ==> r.0 == (if open then ", " else " (") + Join(names, ", ")
  {
    if |names| == 0 then ("", open)
    else
      var first := PrintFlag(names[0], open);
      var rest := FlagRun(names[1..], first.1);
      assert |names| > 1 ==> Join(names, ", ") == names[0] + ", " + Join(names[1..], ", ");
      (first.0 + rest.0, rest.1)
  }

  /**
   The flags of one entry as printed: `open` starts at 0, each present flag
   goes through `print_flag`, and ")" closes the list exactly when it was
   opened. The result is " (f1, …, fk)" for k ≥ 1 flags and nothing for none.
   */
  function FlagList(names: seq<string>): (text: string)
    ensures |names| == 0 ==> text == ""
    ensures |names| > 0 ==> text == " (" + Join(names, ", ") + ")"
  {
    var run := FlagRun(names, false);
    run.0 + (if run.1 then ")" else "")
  }

  /**
   One nested entry of a frequency or bitrate list after parsing: its main
   value (FREQ in MHz, or RATE in units of 100 kbit/s) if present, and the
   names of the flags it carries, in print order.
   */
  datatype Entry = Entry(value: Option<nat>, flags: seq<string>)

  datatype EntryLine = EntryLine(value: nat, suffix: string)

  /** The entry loops of `print_phy_handler`: an entry without its main value is skipped entirely. */
  function PrintEntries(es: seq<Entry>): (lines: seq<EntryLine>)
    ensures |lines| <= |es|
    ensures (forall j | 0 <= j < |es| :: es[j].value.Some?) ==>
              |lines| == |es| && forall j | 0 <= j < |es| :: lines[j] == EntryLine(es[j].value.value, FlagList(es[j].flags))
  {
    if |es| == 0 then []
    else
      var rest := PrintEntries(es[1..]);
      match es[0].value
      case None => rest
      case Some(v) => [EntryLine(v, FlagList(es[0].flags))] + rest
  }

  /** Printing a concatenation of entry lists prints each in turn. */
  lemma {:induction false} PrintEntriesAppend(a: seq<Entry>, b: seq<Entry>)
    ensures PrintEntries(a + b) == PrintEntries(a) + PrintEntries(b)
  {
    if |a| > 0 {
      assert (a + b)[0] == a[0];
      assert (a + b)[1..] == a[1..] + b;
      PrintEntriesAppend(a[1..], b);
    } else {
      assert a + b == b;
    }
  }

  /** An entry without its main value leaves no trace, wherever it stands. */
  lemma PrintEntriesSkipsMissing(a: seq<Entry>, e: Entry, b: seq<Entry>)
    requires e.value.None?
    ensures PrintEntries(a + [e] + b) == PrintEntries(a + b)
  {
    assert PrintEntries([e]) == [] by {
      assert [e][1..] == [];
    }
    PrintEntriesAppend(a, [e]);
    PrintEntriesAppend(a + [e], b);
    PrintEntriesAppend(a, b);
  }

  /** A frequency entry: FREQ and the four flags the policy lists. */
  datatype FreqAttrs = FreqAttrs(freq: Option<u32>, disabled: bool, passiveScan: bool, noIbss: bool, radar: bool)

  /** The four flags of a frequency entry, in the order the handler tests them. */
  datatype FreqFlag = Disabled | PassiveScan | NoIbss | Radar

  function FreqFlagRank(g: FreqFlag): nat {
    match g
    case Disabled => 0
    case PassiveScan => 1
    case NoIbss => 2
    case Radar => 3
  }

  function FreqFlagName(g: FreqFlag): string {
    match g
    case Disabled => "disabled"
    case PassiveScan => "passive scanning"
    case NoIbss => "no IBSS"
    case Radar => "radar detection"
  }

  /** The position of a printed flag name in the order of the tests. */
  function NameRank(name: string): nat {
    if name == "disabled" then 0
    else if name == "passive scanning" then 1
    else if name == "no IBSS" then 2
    else 3
  }

  /** Different flags have different names, and a name's rank is its flag's. */
  lemma FreqFlagNameRank(g: FreqFlag, h: FreqFlag)
    ensures NameRank(FreqFlagName(g)) == FreqFlagRank(g)
    ensures FreqFlagName(g) == FreqFlagName(h) ==> g == h
  {
  }

  predicate FreqFlagSet(f: FreqAttrs, g: FreqFlag) {
    match g
    case Disabled => f.disabled
    case PassiveScan => f.passiveScan
    case NoIbss => f.noIbss
    case Radar => f.radar
  }

  function FreqSlot(f: FreqAttrs, k: nat): (s: Option<FreqFlag>)
    ensures s.Some? ==> FreqFlagRank(s.value) == k
  {
    if k == 0 then (if f.disabled then Some(Disabled) else None)
    else if k == 1 then (if f.passiveScan then Some(PassiveScan) else None)
    else if k == 2 then (if f.noIbss then Some(NoIbss) else None)
    else if k == 3 then (if f.radar then Some(Radar) else None)
    else None
  }

  function FreqSlots(f: FreqAttrs): (slots: seq<Option<FreqFlag>>)
    ensures |slots| == 4
    ensures forall k | 0 <= k < |slots| :: slots[k] == FreqSlot(f, k)
  {
    seq(4, k requires 0 <= k < 4 => FreqSlot(f, k))
  }

  /** A flag is among the slots exactly when its attribute is present. */
  lemma FreqSlotsHas(f: FreqAttrs, g: FreqFlag)
    ensures Some(g) in FreqSlots(f) <==> FreqFlagSet(f, g)
  {
    var slots := FreqSlots(f);
    if FreqFlagSet(f, g) {
      assert slots[FreqFlagRank(g)] == Some(g);
    }
  }

  /** The flags a frequency entry carries, in the order of the tests. */
  function FreqFlags(f: FreqAttrs): (gs: seq<FreqFlag>)
    ensures forall g: FreqFlag :: g in gs <==> FreqFlagSet(f, g)
    ensures forall i, j | 0 <= i < j < |gs| :: FreqFlagRank(gs[i]) < FreqFlagRank(gs[j])
  {
    var slots := FreqSlots(f);
    var gs := Present(slots, FreqFlagRank, 0);
    assert forall g: FreqFlag :: g in gs <==> FreqFlagSet(f, g) by {
      forall g: FreqFlag ensures g in gs <==> FreqFlagSet(f, g) {
        PresentHas(slots, FreqFlagRank, 0, g);
        FreqSlotsHas(f, g);
      }
    }
    gs
  }

  function FlagNames(gs: seq<FreqFlag>): (names: seq<string>)
    ensures |names| == |gs| && forall i | 0 <= i < |gs| :: names[i] == FreqFlagName(gs[i])
  {
    seq(|gs|, i requires 0 <= i < |gs| => FreqFlagName(gs[i]))
  }

  /** Naming the flags keeps which flags are there and their order. */
  lemma FlagNamesKeep(gs: seq<FreqFlag>)
    requires forall i, j | 0 <= i < j < |gs| :: FreqFlagRank(gs[i]) < FreqFlagRank(gs[j])
    ensures forall g: FreqFlag :: FreqFlagName(g) in FlagNames(gs) <==> g in gs
    ensures forall i, j | 0 <= i < j < |gs| :: NameRank(FlagNames(gs)[i]) < NameRank(FlagNames(gs)[j])
  {
    var names := FlagNames(gs);
    forall g: FreqFlag ensures FreqFlagName(g) in names <==> g in gs {
      if FreqFlagName(g) in names {
        var i :| 0 <= i < |names| && names[i] == FreqFlagName(g);
        FreqFlagNameRank(gs[i], g);
      }
    }
    forall i, j | 0 <= i < j < |gs| ensures NameRank(names[i]) < NameRank(names[j]) {
      FreqFlagNameRank(gs[i], gs[i]);
      FreqFlagNameRank(gs[j], gs[j]);
    }
  }

  /**
   A frequency entry: its value is the FREQ attribute in MHz, and each of
   the four flag names appears exactly when its flag attribute is present,
   in the order disabled, passive scanning, no IBSS, radar detection.
   */
  function FreqEntry(f: FreqAttrs): (e: Entry)
    ensures e.value == (if f.freq.Some? then Some(f.freq.value as nat) else None)
    ensures forall g: FreqFlag :: FreqFlagName(g) in e.flags <==> FreqFlagSet(f, g)
    ensures forall i, j | 0 <= i < j < |e.flags| :: NameRank(e.flags[i]) < NameRank(e.flags[j])
  {
    var gs := FreqFlags(f);
    FlagNamesKeep(gs);
    Entry(if f.freq.Some? then Some(f.freq.value as nat) else None, FlagNames(gs))
  }

  /** Reading the attributes back from an entry: its value and which flag names it carries. */
  function FreqOfEntry(e: Entry): FreqAttrs {
    FreqAttrs(if e.value.Some? && e.value.value < 0x1_0000_0000 then Some(e.value.value as u32) else None,
              FreqFlagName(Disabled) in e.flags, FreqFlagName(PassiveScan) in e.flags,
              FreqFlagName(NoIbss) in e.flags, FreqFlagName(Radar) in e.flags)
  }

  /** A frequency entry loses nothing: the attributes are read back from it. */
  lemma FreqEntryRoundTrip(f: FreqAttrs)
    ensures FreqOfEntry(FreqEntry(f)) == f
  {
    var e := FreqEntry(f);
    assert FreqFlagName(Disabled) in e.flags <==> f.disabled;
    assert FreqFlagName(PassiveScan) in e.flags <==> f.passiveScan;
    assert FreqFlagName(NoIbss) in e.flags <==> f.noIbss;
    assert FreqFlagName(Radar) in e.flags <==> f.radar;
  }

  /** A bitrate entry: RATE in units of 100 kbit/s, and the short-preamble flag. */
  datatype RateAttrs = RateAttrs(rate: Option<u32>, shortPreamble: bool)

  const ShortPreamble: string := "short preamble supported"

  /** A bitrate entry: its value is the RATE attribute, and its only possible flag is the short preamble. */
  function RateEntry(r: RateAttrs): (e: Entry)
    ensures e.value == (if r.rate.Some? then Some(r.rate.value as nat) else None)
    ensures e.flags == [] || e.flags == [ShortPreamble]
    ensures ShortPreamble in e.flags <==> r.shortPreamble
  {
    Entry(if r.rate.Some? then Some(r.rate.value as nat) else None,
          if r.shortPreamble then [ShortPreamble] else [])
  }

  /** SM power save, bits 2-3 of the HT Capabilities Info field. */
  datatype SmPs = StaticSmPs | DynamicSmPs | ReservedSmPs | SmPsDisabled

  /** The HT Capabilities Info field, decoded bit by bit (section 7.3.2.56.2 of IEEE 802.11n-2009). */
  datatype HtCaps = HtCaps(
    ldpc: bool, width40: bool, smps: SmPs, greenfield: bool, sgi20: bool, sgi40: bool,
    txStbc: bool, rxStbc: nat, delayedBa: bool, amsdu7935: bool,
    dsssCck40: bool, psmp: bool, intolerant40: bool, lsigTxop: bool)

  predicate Bit(cap: bv16, mask: bv16) {
    cap & mask != 0
  }

  /** Decoding works on the field's bits; `cap` is the `unsigned short` the handler reads. */
  function DecodeHtCaps(c: bv16): (h: HtCaps)
    ensures h.rxStbc < 4
  {
    var sm := (c & 0x000c) >> 2;
    var rx := (c & 0x0300) >> 8;
    HtCaps(
      Bit(c, 0x0001), Bit(c, 0x0002),
      if sm == 0 then StaticSmPs else if sm == 1 then DynamicSmPs else if sm == 2 then ReservedSmPs else SmPsDisabled,
      Bit(c, 0x0010), Bit(c, 0x0020), Bit(c, 0x0040), Bit(c, 0x0080),
      if rx == 0 then 0 else if rx == 1 then 1 else if rx == 2 then 2 else 3,
      Bit(c, 0x0400), Bit(c, 0x0800), Bit(c, 0x1000), Bit(c, 0x2000), Bit(c, 0x4000), Bit(c, 0x8000))
  }

  function SmPsBits(s: SmPs): bv16 {
    match s
    case StaticSmPs => 0x0000
    case DynamicSmPs => 0x0004
    case ReservedSmPs => 0x0008
    case SmPsDisabled => 0x000c
  }

  function RxStbcBits(n: nat): bv16
    requires n < 4
  {
    if n == 0 then 0x0000 else if n == 1 then 0x0100 else if n == 2 then 0x0200 else 0x0300
  }

  function If(b: bool, mask: bv16): bv16 {
    if b then mask else 0
  }

  /** Bits 0-7 of the field a decoded capability set comes from. */
  function LowBits(h: HtCaps): (b: bv16)
    ensures b & 0xff00 == 0
  {
    If(h.ldpc, 0x0001) | If(h.width40, 0x0002) | SmPsBits(h.smps)
    | If(h.greenfield, 0x0010) | If(h.sgi20, 0x0020) | If(h.sgi40, 0x0040) | If(h.txStbc, 0x0080)
  }

  /** Bits 8-15 of the field a decoded capability set comes from. */
  function HighBits(h: HtCaps): (b: bv16)
    requires h.rxStbc < 4
    ensures b & 0x00ff == 0
  {
    RxStbcBits(h.rxStbc) | If(h.delayedBa, 0x0400) | If(h.amsdu7935, 0x0800)
    | If(h.dsssCck40, 0x1000) | If(h.psmp, 0x2000) | If(h.intolerant40, 0x4000) | If(h.lsigTxop, 0x8000)
  }

  /** The 16-bit field a decoded capability set comes from. */
  function EncodeHtCaps(h: HtCaps): bv16
    requires h.rxStbc < 4
  {
    LowBits(h) | HighBits(h)
  }

  /** A single-bit mask is reproduced from its test. */
  lemma SingleBit(c: bv16, m: bv16)
    requires m == 0x0001 || m == 0x0002 || m == 0x0010 || m == 0x0020 || m == 0x0040 || m == 0x0080
             || m == 0x0400 || m == 0x0800 || m == 0x1000 || m == 0x2000 || m == 0x4000 || m == 0x8000
    ensures If(Bit(c, m), m) == c & m
  {
  }

  lemma LowBitsOfDecode(c: bv16)
    ensures LowBits(DecodeHtCaps(c)) == c & 0x00ff
  {
    var h := DecodeHtCaps(c);
    SingleBit(c, 0x0001); SingleBit(c, 0x0002); SingleBit(c, 0x0010);
    SingleBit(c, 0x0020); SingleBit(c, 0x0040); SingleBit(c, 0x0080);
    assert SmPsBits(h.smps) == c & 0x000c;
    assert LowBits(h) == (c & 0x0001) | (c & 0x0002) | (c & 0x000c) | (c & 0x0010) | (c & 0x0020) | (c & 0x0040) | (c & 0x0080);
  }

  lemma HighBitsOfDecode(c: bv16)
    ensures HighBits(DecodeHtCaps(c)) == c & 0xff00
  {
    var h := DecodeHtCaps(c);
    SingleBit(c, 0x0400); SingleBit(c, 0x0800); SingleBit(c, 0x1000);
    SingleBit(c, 0x2000); SingleBit(c, 0x4000); SingleBit(c, 0x8000);
    assert RxStbcBits(h.rxStbc) == c & 0x0300;
    assert HighBits(h) == (c & 0x0300) | (c & 0x0400) | (c & 0x0800) | (c & 0x1000) | (c & 0x2000) | (c & 0x4000) | (c & 0x8000);
  }

  /** Every bit of the capability field is accounted for: decoding and encoding are inverse. */
  lemma HtCapsRoundTrip(c: bv16)
    ensures EncodeHtCaps(DecodeHtCaps(c)) == c
  {
    LowBitsOfDecode(c);
    HighBitsOfDecode(c);
    assert (c & 0x00ff) | (c & 0xff00) == c;
  }

  lemma LowFieldsOfEncode(h: HtCaps)
    requires h.rxStbc < 4
    ensures var d := DecodeHtCaps(EncodeHtCaps(h));
            d.ldpc == h.ldpc && d.width40 == h.width40 && d.smps == h.smps && d.greenfield == h.greenfield
            && d.sgi20 == h.sgi20 && d.sgi40 == h.sgi40 && d.txStbc == h.txStbc
  {
    var c := EncodeHtCaps(h);
    assert c & 0x00ff == LowBits(h);
    assert c & 0x000c == SmPsBits(h.smps);
  }

  lemma RxStbcOfEncode(h: HtCaps)
    requires h.rxStbc < 4
    ensures DecodeHtCaps(EncodeHtCaps(h)).rxStbc == h.rxStbc
  {
    var c := EncodeHtCaps(h);
    assert c & 0xff00 == HighBits(h);
    assert c & 0x0300 == RxStbcBits(h.rxStbc);
  }

  /** Bits 10-12: delayed block-ack, the 7935-byte A-MSDU and DSSS/CCK in 40 MHz. */
  lemma MiddleFlagsOfEncode(h: HtCaps)
    requires h.rxStbc < 4
    ensures var d := DecodeHtCaps(EncodeHtCaps(h));
            d.delayedBa == h.delayedBa && d.amsdu7935 == h.amsdu7935 && d.dsssCck40 == h.dsssCck40
  {
    var c := EncodeHtCaps(h);
    var hi := HighBits(h);
    assert c & 0xff00 == hi;
    assert hi & 0x0400 == If(h.delayedBa, 0x0400);
    assert hi & 0x0800 == If(h.amsdu7935, 0x0800);
    assert hi & 0x1000 == If(h.dsssCck40, 0x1000);
  }

  /** Bits 13-15: PSMP, 40 MHz intolerance and L-SIG TXOP protection. */
  lemma TopFlagsOfEncode(h: HtCaps)
    requires h.rxStbc < 4
    ensures var d := DecodeHtCaps(EncodeHtCaps(h));
            d.psmp == h.psmp && d.intolerant40 == h.intolerant40 && d.lsigTxop == h.lsigTxop
  {
    var c := EncodeHtCaps(h);
    var hi := HighBits(h);
    assert c & 0xff00 == hi;
    assert hi & 0x2000 == If(h.psmp, 0x2000);
    assert hi & 0x4000 == If(h.intolerant40, 0x4000);
    assert hi & 0x8000 == If(h.lsigTxop, 0x8000);
  }

  /** Decoding a field that was encoded from a capability set gives the set back. */
  lemma HtCapsEncodeRoundTrip(h: HtCaps)
    requires h.rxStbc < 4
    ensures DecodeHtCaps(EncodeHtCaps(h)) == h
  {
    LowFieldsOfEncode(h);
    RxStbcOfEncode(h);
    MiddleFlagsOfEncode(h);
    TopFlagsOfEncode(h);
  }

  /** "max A-MSDU len": `0xeff + ((cap & 0x0800) << 1)`. */
  function MaxAmsdu(c: bv16): (n: nat)
    ensures n == 3839 || n == 7935
    ensures n == 7935 <==> DecodeHtCaps(c).amsdu7935
  {
    (0xeff + ((c & 0x0800) << 1)) as int
  }

  /** One line printed under "HT capabilities". */
  datatype HtLine =
    | LdpcLine | WidthLine(forty: bool) | SmPsLine(mode: SmPs) | GreenfieldLine | Sgi20Line | Sgi40Line
    | TxStbcLine | RxStbcLine(streams: nat) | DelayedBaLine | MaxAmsduLine(len: nat)
    | DsssCck40Line | PsmpLine | Intolerant40Line | LsigTxopLine

  /** The position of a line in the handler's sequence of tests. */
  function HtRank(l: HtLine): nat {
    match l
    case LdpcLine => 0
    case WidthLine(_) => 1
    case SmPsLine(_) => 2
    case GreenfieldLine => 3
    case Sgi20Line => 4
    case Sgi40Line => 5
    case TxStbcLine => 6
    case RxStbcLine(_) => 7
    case DelayedBaLine => 8
    case MaxAmsduLine(_) => 9
    case DsssCck40Line => 10
    case PsmpLine => 11
    case Intolerant40Line => 12
    case LsigTxopLine => 13
  }

  /** The text of each line after " * ". */
  function HtLineText(l: HtLine): string {
    match l
    case LdpcLine => "LPDC coding"
    case WidthLine(forty) => if forty then "20/40 MHz operation" else "20 MHz operation"
    case SmPsLine(m) =>
      (match m
       case StaticSmPs => "static SM PS"
       case DynamicSmPs => "dynamic SM PS"
       case ReservedSmPs => "reserved SM PS"
       case SmPsDisabled => "SM PS disabled")
    case GreenfieldLine => "HT-greenfield"
    case Sgi20Line => "20 MHz short GI"
    case Sgi40Line => "40 MHz short GI"
    case TxStbcLine => "TX STBC"
    case RxStbcLine(n) => "RX STBC " + Decimal(n) + " streams"
    case DelayedBaLine => "HT-delayed block-ack"
    case MaxAmsduLine(n) => "max A-MSDU len " + Decimal(n)
    case DsssCck40Line => "DSSS/CCK 40 MHz"
    case PsmpLine => "PSMP support"
    case Intolerant40Line => "40 MHz intolerant"
    case LsigTxopLine => "L-SIG TXOP protection support"
  }

  /** Test k of the fourteen, in order: the line it prints, if it prints one. */
  function HtSlot(h: HtCaps, maxAmsdu: nat, k: nat): (s: Option<HtLine>)
    ensures s.Some? ==> HtRank(s.value) == k
  {
    if k == 0 then (if h.ldpc then Some(LdpcLine) else None)
    else if k == 1 then Some(WidthLine(h.width40))
    else if k == 2 then Some(SmPsLine(h.smps))
    else if k == 3 then (if h.greenfield then Some(GreenfieldLine) else None)
    else if k == 4 then (if h.sgi20 then Some(Sgi20Line) else None)
    else if k == 5 then (if h.sgi40 then Some(Sgi40Line) else None)
    else if k == 6 then (if h.txStbc then Some(TxStbcLine) else None)
    else if k == 7 then (if h.rxStbc != 0 then Some(RxStbcLine(h.rxStbc)) else None)
    else if k == 8 then (if h.delayedBa then Some(DelayedBaLine) else None)
    else if k == 9 then Some(MaxAmsduLine(maxAmsdu))
    else if k == 10 then (if h.dsssCck40 then Some(DsssCck40Line) else None)
    else if k == 11 then (if h.psmp then Some(PsmpLine) else None)
    else if k == 12 then (if h.intolerant40 then Some(Intolerant40Line) else None)
    else if k == 13 then (if h.lsigTxop then Some(LsigTxopLine) else None)
    else None
  }

  function HtSlots(h: HtCaps, maxAmsdu: nat): (slots: seq<Option<HtLine>>)
    ensures |slots| == 14
    ensures forall k | 0 <= k < |slots| :: slots[k] == HtSlot(h, maxAmsdu, k)
  {
    seq(14, k requires 0 <= k < 14 => HtSlot(h, maxAmsdu, k))
  }

  /** A line is among the slots exactly when the test of its rank prints it. */
  lemma HtSlotsHas(h: HtCaps, maxAmsdu: nat, l: HtLine)
    ensures Some(l) in HtSlots(h, maxAmsdu) <==> HtSlot(h, maxAmsdu, HtRank(l)) == Some(l)
  {
    var slots := HtSlots(h, maxAmsdu);
    if HtSlot(h, maxAmsdu, HtRank(l)) == Some(l) {
      assert slots[HtRank(l)] == Some(l);
    }
  }

  /** Whether a decoded capability set prints the line: the field the line names has the line's value. */
  predicate HtShows(h: HtCaps, maxAmsdu: nat, l: HtLine) {
    match l
    case LdpcLine => h.ldpc
    case WidthLine(forty) => forty == h.width40
    case SmPsLine(m) => m == h.smps
    case GreenfieldLine => h.greenfield
    case Sgi20Line => h.sgi20
    case Sgi40Line => h.sgi40
    case TxStbcLine => h.txStbc
    case RxStbcLine(n) => h.rxStbc != 0 && n == h.rxStbc
    case DelayedBaLine => h.delayedBa
    case MaxAmsduLine(n) => n == maxAmsdu
    case DsssCck40Line => h.dsssCck40
    case PsmpLine => h.psmp
    case Intolerant40Line => h.intolerant40
    case LsigTxopLine => h.lsigTxop
  }

  /** The test of a line's rank prints that line exactly when the capability set shows it. */
  lemma HtSlotShows(h: HtCaps, maxAmsdu: nat, l: HtLine)
    ensures HtSlot(h, maxAmsdu, HtRank(l)) == Some(l) <==> HtShows(h, maxAmsdu, l)
  {
  }

  /** The lines of a decoded capability set: exactly the lines it shows, in the order of the tests. */
  function HtLinesOf(h: HtCaps, maxAmsdu: nat): (lines: seq<HtLine>)
    ensures forall l: HtLine :: l in lines <==> HtShows(h, maxAmsdu, l)
    ensures forall i, j | 0 <= i < j < |lines| :: HtRank(lines[i]) < HtRank(lines[j])
  {
    var slots := HtSlots(h, maxAmsdu);
    var lines := Present(slots, HtRank, 0);
    assert forall l: HtLine :: l in lines <==> HtShows(h, maxAmsdu, l) by {
      forall l: HtLine ensures l in lines <==> HtShows(h, maxAmsdu, l) {
        PresentHas(slots, HtRank, 0, l);
        HtSlotsHas(h, maxAmsdu, l);
        HtSlotShows(h, maxAmsdu, l);
      }
    }
    lines
  }

  /** Bits 2-3 name exactly one power-save mode. */
  lemma SmPsOfBits(c: bv16, m: SmPs)
    ensures DecodeHtCaps(c).smps == m <==> SmPsBits(m) == c & 0x000c
  {
    assert SmPsBits(DecodeHtCaps(c).smps) == c & 0x000c;
  }

  /** Bits 8-9 are the number of RX STBC streams. */
  lemma RxStbcOfBits(c: bv16)
    ensures DecodeHtCaps(c).rxStbc == ((c & 0x0300) >> 8) as int
  {
  }

  /**
   Whether the field `cap` prints the line, read off its bits: each
   single-bit capability has its line exactly when its bit is set, the
   channel-width line and the SM power-save line name the state of bit 1
   and of bits 2-3, the RX STBC line appears exactly when bits 8-9 are not
   both clear and names their value, and the A-MSDU line says 7935 when
   bit 11 is set and 3839 otherwise.
   */
  predicate CapShows(c: bv16, l: HtLine) {
    match l
    case LdpcLine => c & 0x0001 != 0
    case WidthLine(forty) => forty == (c & 0x0002 != 0)
    case SmPsLine(m) => SmPsBits(m) == c & 0x000c
    case GreenfieldLine => c & 0x0010 != 0
    case Sgi20Line => c & 0x0020 != 0
    case Sgi40Line => c & 0x0040 != 0
    case TxStbcLine => c & 0x0080 != 0
    case RxStbcLine(n) => c & 0x0300 != 0 && n == ((c & 0x0300) >> 8) as int
    case DelayedBaLine => c & 0x0400 != 0
    case MaxAmsduLine(n) => n == (if c & 0x0800 != 0 then 7935 else 3839)
    case DsssCck40Line => c & 0x1000 != 0
    case PsmpLine => c & 0x2000 != 0
    case Intolerant40Line => c & 0x4000 != 0
    case LsigTxopLine => c & 0x8000 != 0
  }

  /** Decoding first and reading the fields shows the same lines as reading the bits. */
  lemma CapShowsDecoded(c: bv16, l: HtLine)
    ensures HtShows(DecodeHtCaps(c), MaxAmsdu(c), l) <==> CapShows(c, l)
  {
    match l
    case SmPsLine(m) => SmPsOfBits(c, m);
    case RxStbcLine(n) => RxStbcOfBits(c);
    case _ =>
  }

  /**
   The lines printed under "HT capabilities" for the field `cap`: exactly
   those its bits show, in the order of the tests. So there is always
   exactly one channel-width line, one SM power-save line and one A-MSDU
   line, and one RX STBC line exactly when bits 8-9 are not both clear
   (none otherwise).
   */
  function HtCapLines(c: bv16): (lines: seq<HtLine>)
    ensures forall l: HtLine :: l in lines <==> CapShows(c, l)
    ensures forall i, j | 0 <= i < j < |lines| :: HtRank(lines[i]) < HtRank(lines[j])
    ensures RankCount(lines, HtRank(WidthLine(false))) == 1
    ensures RankCount(lines, HtRank(SmPsLine(StaticSmPs))) == 1
    ensures RankCount(lines, HtRank(MaxAmsduLine(0))) == 1
    ensures RankCount(lines, HtRank(RxStbcLine(0))) == (if c & 0x0300 != 0 then 1 else 0)
  {
    var lines := HtLinesOf(DecodeHtCaps(c), MaxAmsdu(c));
    assert forall l: HtLine :: l in lines <==> CapShows(c, l) by {
      forall l: HtLine ensures l in lines <==> CapShows(c, l) {
        CapShowsDecoded(c, l);
      }
    }
    HtCounts(c, lines);
    lines
  }

  /** How many lines have rank r. */
  function RankCount(lines: seq<HtLine>, r: nat): nat {
    if |lines| == 0 then 0
    else (if HtRank(lines[0]) == r then 1 else 0) + RankCount(lines[1..], r)
  }

  predicate RankSorted(lines: seq<HtLine>) {
    forall i, j | 0 <= i < j < |lines| :: HtRank(lines[i]) < HtRank(lines[j])
  }

  /** In a list ordered strictly by rank, a rank occurs once if at all. */
  lemma {:induction false} RankCountSorted(lines: seq<HtLine>, r: nat)
    requires RankSorted(lines)
    ensures RankCount(lines, r) == (if exists i | 0 <= i < |lines| :: HtRank(lines[i]) == r then 1 else 0)
  {
    if |lines| > 0 {
      var tail := lines[1..];
      assert RankSorted(tail) by {
        forall i, j | 0 <= i < j < |tail| ensures HtRank(tail[i]) < HtRank(tail[j]) {
          assert tail[i] == lines[i + 1] && tail[j] == lines[j + 1];
        }
      }
      RankCountSorted(tail, r);
      if HtRank(lines[0]) == r {
        forall i | 0 <= i < |tail| ensures HtRank(tail[i]) != r {
          assert tail[i] == lines[i + 1];
        }
      } else {
        if exists i | 0 <= i < |lines| :: HtRank(lines[i]) == r {
          var i :| 0 <= i < |lines| && HtRank(lines[i]) == r;
          assert tail[i - 1] == lines[i];
        }
        if exists i | 0 <= i < |tail| :: HtRank(tail[i]) == r {
          var i :| 0 <= i < |tail| && HtRank(tail[i]) == r;
          assert lines[i + 1] == tail[i];
        }
      }
    }
  }

  /** A line that is there is the only one of its rank. */
  lemma RankCountOne(lines: seq<HtLine>, l: HtLine)
    requires RankSorted(lines) && l in lines
    ensures RankCount(lines, HtRank(l)) == 1
  {
    RankCountSorted(lines, HtRank(l));
  }

  /** The lines that are always printed occur once each. */
  lemma HtCounts(c: bv16, lines: seq<HtLine>)
    requires forall l: HtLine :: l in lines <==> CapShows(c, l)
    requires RankSorted(lines)
    ensures RankCount(lines, HtRank(WidthLine(false))) == 1
    ensures RankCount(lines, HtRank(SmPsLine(StaticSmPs))) == 1
    ensures RankCount(lines, HtRank(MaxAmsduLine(0))) == 1
    ensures RankCount(lines, HtRank(RxStbcLine(0))) == (if c & 0x0300 != 0 then 1 else 0)
  {
    assert CapShows(c, WidthLine(c & 0x0002 != 0));
    RankCountOne(lines, WidthLine(c & 0x0002 != 0));
    var sm := DecodeHtCaps(c).smps;
    SmPsOfBits(c, sm);
    assert CapShows(c, SmPsLine(sm));
    RankCountOne(lines, SmPsLine(sm));
    var am := MaxAmsduLine(if c & 0x0800 != 0 then 7935 else 3839);
    assert CapShows(c, am);
    RankCountOne(lines, am);
    RxStbcCount(c, lines);
  }

  /** The RX STBC line is the only line of its rank, so the rank occurs exactly when the line does. */
  lemma RxStbcCount(c: bv16, lines: seq<HtLine>)
    requires forall l: HtLine :: l in lines <==> CapShows(c, l)
    requires RankSorted(lines)
    ensures RankCount(lines, HtRank(RxStbcLine(0))) == (if c & 0x0300 != 0 then 1 else 0)
  {
    RankCountSorted(lines, 7);
    if c & 0x0300 != 0 {
      assert CapShows(c, RxStbcLine(((c & 0x0300) >> 8) as int));
      RankCountOne(lines, RxStbcLine(((c & 0x0300) >> 8) as int));
    } else {
      forall i | 0 <= i < |lines| ensures HtRank(lines[i]) != 7 {
        assert lines[i] in lines;
      }
    }
  }

  function SmPsOfLines(lines: seq<HtLine>): SmPs {
    if SmPsLine(DynamicSmPs) in lines then DynamicSmPs
    else if SmPsLine(ReservedSmPs) in lines then ReservedSmPs
    else if SmPsLine(SmPsDisabled) in lines then SmPsDisabled
    else StaticSmPs
  }

  function RxStbcOfLines(lines: seq<HtLine>): nat {
    if RxStbcLine(1) in lines then 1
    else if RxStbcLine(2) in lines then 2
    else if RxStbcLine(3) in lines then 3
    else 0
  }

  /** Reading a capability set back from the printed lines. */
  function HtOfLines(lines: seq<HtLine>): HtCaps {
    HtCaps(
      LdpcLine in lines, WidthLine(true) in lines, SmPsOfLines(lines),
      GreenfieldLine in lines, Sgi20Line in lines, Sgi40Line in lines, TxStbcLine in lines,
      RxStbcOfLines(lines), DelayedBaLine in lines, MaxAmsduLine(7935) in lines,
      DsssCck40Line in lines, PsmpLine in lines, Intolerant40Line in lines, LsigTxopLine in lines)
  }

  /** A capability set is read back from the lines it shows. */
  lemma HtLinesOfRoundTrip(h: HtCaps, maxAmsdu: nat)
    requires h.rxStbc < 4
    requires maxAmsdu == 7935 <==> h.amsdu7935
    ensures HtOfLines(HtLinesOf(h, maxAmsdu)) == h
  {
    HtOfShown(h, maxAmsdu, HtLinesOf(h, maxAmsdu));
  }

  lemma HtOfShown(h: HtCaps, maxAmsdu: nat, lines: seq<HtLine>)
    requires h.rxStbc < 4
    requires maxAmsdu == 7935 <==> h.amsdu7935
    requires forall l: HtLine :: l in lines <==> HtShows(h, maxAmsdu, l)
    ensures HtOfLines(lines) == h
  {
    SmPsOfShown(h, maxAmsdu, lines);
    RxStbcOfShown(h, maxAmsdu, lines);
    LowFlagsShown(h, maxAmsdu, lines);
    HighFlagsShown(h, maxAmsdu, lines);
    AmsduShown(h, maxAmsdu, lines);
    HtOfFlags(h, lines);
  }

  lemma LowFlagsShown(h: HtCaps, maxAmsdu: nat, lines: seq<HtLine>)
    requires forall l: HtLine :: l in lines <==> HtShows(h, maxAmsdu, l)
    ensures (LdpcLine in lines) == h.ldpc && (WidthLine(true) in lines) == h.width40
    ensures (GreenfieldLine in lines) == h.greenfield && (Sgi20Line in lines) == h.sgi20
    ensures (Sgi40Line in lines) == h.sgi40 && (TxStbcLine in lines) == h.txStbc
  {
    assert HtShows(h, maxAmsdu, LdpcLine) == h.ldpc;
    assert HtShows(h, maxAmsdu, WidthLine(true)) == h.width40;
    assert HtShows(h, maxAmsdu, GreenfieldLine) == h.greenfield;
    assert HtShows(h, maxAmsdu, Sgi20Line) == h.sgi20;
    assert HtShows(h, maxAmsdu, Sgi40Line) == h.sgi40;
    assert HtShows(h, maxAmsdu, TxStbcLine) == h.txStbc;
  }

  lemma AmsduShown(h: HtCaps, maxAmsdu: nat, lines: seq<HtLine>)
    requires maxAmsdu == 7935 <==> h.amsdu7935
    requires forall l: HtLine :: l in lines <==> HtShows(h, maxAmsdu, l)
    ensures (MaxAmsduLine(7935) in lines) == h.amsdu7935
  {
    assert HtShows(h, maxAmsdu, MaxAmsduLine(7935)) == h.amsdu7935;
  }

  lemma HighFlagsShown(h: HtCaps, maxAmsdu: nat, lines: seq<HtLine>)
    requires forall l: HtLine :: l in lines <==> HtShows(h, maxAmsdu, l)
    ensures (DelayedBaLine in lines) == h.delayedBa
    ensures (DsssCck40Line in lines) == h.dsssCck40 && (PsmpLine in lines) == h.psmp
    ensures (Intolerant40Line in lines) == h.intolerant40 && (LsigTxopLine in lines) == h.lsigTxop
  {
    assert HtShows(h, maxAmsdu, DelayedBaLine) == h.delayedBa;
    assert HtShows(h, maxAmsdu, DsssCck40Line) == h.dsssCck40;
    assert HtShows(h, maxAmsdu, PsmpLine) == h.psmp;
    assert HtShows(h, maxAmsdu, Intolerant40Line) == h.intolerant40;
    assert HtShows(h, maxAmsdu, LsigTxopLine) == h.lsigTxop;
  }

  /** The flags of a set read back one by one give the set back. */
  lemma HtOfFlags(h: HtCaps, lines: seq<HtLine>)
    requires SmPsOfLines(lines) == h.smps && RxStbcOfLines(lines) == h.rxStbc
    requires (LdpcLine in lines) == h.ldpc
    requires (WidthLine(true) in lines) == h.width40
    requires (GreenfieldLine in lines) == h.greenfield
    requires (Sgi20Line in lines) == h.sgi20
    requires (Sgi40Line in lines) == h.sgi40
    requires (TxStbcLine in lines) == h.txStbc
    requires (DelayedBaLine in lines) == h.delayedBa
    requires (MaxAmsduLine(7935) in lines) == h.amsdu7935
    requires (DsssCck40Line in lines) == h.dsssCck40
    requires (PsmpLine in lines) == h.psmp
    requires (Intolerant40Line in lines) == h.intolerant40
    requires (LsigTxopLine in lines) == h.lsigTxop
    ensures HtOfLines(lines) == h
  {
  }

  lemma SmPsOfShown(h: HtCaps, maxAmsdu: nat, lines: seq<HtLine>)
    requires forall l: HtLine :: l in lines <==> HtShows(h, maxAmsdu, l)
    ensures SmPsOfLines(lines) == h.smps
  {
    assert SmPsLine(h.smps) in lines;
    assert SmPsLine(DynamicSmPs) in lines <==> h.smps == DynamicSmPs;
    assert SmPsLine(ReservedSmPs) in lines <==> h.smps == ReservedSmPs;
    assert SmPsLine(SmPsDisabled) in lines <==> h.smps == SmPsDisabled;
  }

  lemma RxStbcOfShown(h: HtCaps, maxAmsdu: nat, lines: seq<HtLine>)
    requires h.rxStbc < 4
    requires forall l: HtLine :: l in lines <==> HtShows(h, maxAmsdu, l)
    ensures RxStbcOfLines(lines) == h.rxStbc
  {
    assert RxStbcLine(1) in lines <==> h.rxStbc == 1;
    assert RxStbcLine(2) in lines <==> h.rxStbc == 2;
    assert RxStbcLine(3) in lines <==> h.rxStbc == 3;
  }

  /** The printed lines lose nothing: the whole 16-bit field is recovered from them. */
  lemma HtCapLinesRoundTrip(c: bv16)
    ensures HtOfLines(HtCapLines(c)) == DecodeHtCaps(c)
    ensures EncodeHtCaps(HtOfLines(HtCapLines(c))) == c
  {
    HtLinesOfRoundTrip(DecodeHtCaps(c), MaxAmsdu(c));
    HtCapsRoundTrip(c);
  }

  /**
   The A-MPDU length limit `(1 << (13 + factor)) - 1`. The shift is on a
   signed int, so for factor 18 and above it has no defined value (None).
   */
  function AmpduMaxLength(factor: byte): (r: Option<nat>)
    ensures r.Some? <==> factor <= 17
    ensures r.Some? ==> r.value + 1 == Pow2(13 + factor)
  {
    if factor <= 17 then Some(Pow2(13 + factor) - 1) else None
  }

  /** A larger factor allows longer A-MPDUs. */
  lemma AmpduMaxLengthMonotone(f: byte, g: byte)
    requires f < g <= 17
    ensures AmpduMaxLength(f).value < AmpduMaxLength(g).value
  {
    Pow2Monotone(13 + f, 13 + g);
  }

  /** The minimum MPDU start spacing the density code stands for. */
  datatype Spacing = NoRestriction | QuarterUsec | HalfUsec | Usec(n: nat) | UndefinedSpacing

  /**
   The density switch: 0, 1 and 2 are named, and any other code d prints
   `1 << (d - 3)` microseconds, a signed shift without a defined value once
   d - 3 reaches 31.
   */
  function Density(d: byte): (s: Spacing)
    ensures d == 0 <==> s == NoRestriction
    ensures d == 1 <==> s == QuarterUsec
    ensures d == 2 <==> s == HalfUsec
    ensures 3 <= d <= 33 <==> s.Usec?
    ensures s.Usec? ==> s.n == Pow2(d - 3)
  {
    if d == 0 then NoRestriction
    else if d == 1 then QuarterUsec
    else if d == 2 then HalfUsec
    else if d <= 33 then Usec(Pow2(d - 3))
    else UndefinedSpacing
  }

  /** The three-bit codes of the standard: 1, 2, 4, 8 and 16 microseconds for codes 3 to 7. */
  lemma DensityOfStandardCodes()
    ensures Density(3) == Usec(1) && Density(4) == Usec(2) && Density(5) == Usec(4)
    ensures Density(6) == Usec(8) && Density(7) == Usec(16)
  {
    assert Pow2(0) == 1;
    assert Pow2(1) == 2;
    assert Pow2(2) == 4;
    assert Pow2(3) == 8;
    assert Pow2(4) == 16;
  }

  /** The MCS set line: printed only when the attribute is exactly 16 bytes, as space-separated hex pairs. */
  function McsLine(mcs: Option<seq<byte>>): (line: Option<string>)
    ensures line.Some? <==> mcs.Some? && |mcs.value| == 16
    ensures line.Some? ==> |line.value| == 47
  {
    if mcs.Some? && |mcs.value| == 16 then Some(HexList(mcs.value, ' ')) else None
  }

  /** The printed MCS set reads back byte by byte. */
  lemma McsLineRoundTrip(mcs: seq<byte>)
    requires |mcs| == 16
    ensures var line := McsLine(Some(mcs)).value;
            |Split(line, ' ')| == 16 && forall i | 0 <= i < 16 :: ScanHex(Split(line, ' ')[i]) == Some(mcs[i] as nat)
  {
    HexListRoundTrip(mcs, ' ');
  }

  /** The attributes of one band that the handler reads. */
  datatype BandAttrs = BandAttrs(
    htCapa: Option<bv16>,
    ampduFactor: Option<byte>,
    ampduDensity: Option<byte>,
    mcsSet: Option<seq<byte>>,
    freqs: seq<FreqAttrs>,
    rates: seq<RateAttrs>)

  /** The "Frequencies:" lines: one per entry that has FREQ, with its flags. */
  function FreqLines(freqs: seq<FreqAttrs>): (lines: seq<EntryLine>)
    ensures |lines| <= |freqs|
    ensures (forall j | 0 <= j < |freqs| :: freqs[j].freq.Some?) ==>
              |lines| == |freqs| &&
              forall j | 0 <= j < |freqs| :: lines[j] == EntryLine(freqs[j].freq.value as nat, FlagList(FreqEntry(freqs[j]).flags))
  {
    PrintEntries(seq(|freqs|, i requires 0 <= i < |freqs| => FreqEntry(freqs[i])))
  }

  /** The "Bitrates:" lines: one per entry that has RATE, with its flag. */
  function RateLines(rates: seq<RateAttrs>): (lines: seq<EntryLine>)
    ensures |lines| <= |rates|
    ensures (forall j | 0 <= j < |rates| :: rates[j].rate.Some?) ==>
              |lines| == |rates| &&
              forall j | 0 <= j < |rates| :: lines[j] == EntryLine(rates[j].rate.value as nat, FlagList(RateEntry(rates[j]).flags))
  {
    PrintEntries(seq(|rates|, i requires 0 <= i < |rates| => RateEntry(rates[i])))
  }

  /** The "HT capabilities" block: the field in hex, then its lines. */
  datatype HtReport = HtReport(cap: bv16, lines: seq<HtLine>)

  datatype BandReport = BandReport(
    number: nat,
    ht: Option<HtReport>,
    ampduLimit: Option<Option<nat>>,
    density: Option<Spacing>,
    mcs: Option<string>,
    freqs: seq<EntryLine>,
    rates: seq<EntryLine>)

  function PrintBand(number: nat, b: BandAttrs): (r: BandReport)
    ensures r.number == number
    ensures r.ht.Some? <==> b.htCapa.Some?
    ensures r.ht.Some? ==> r.ht.value.cap == b.htCapa.value && r.ht.value.lines == HtCapLines(b.htCapa.value)
    ensures r.ampduLimit.Some? <==> b.ampduFactor.Some?
    ensures r.ampduLimit.Some? ==> r.ampduLimit.value == AmpduMaxLength(b.ampduFactor.value)
    ensures r.density.Some? <==> b.ampduDensity.Some?
    ensures r.density.Some? ==> r.density.value == Density(b.ampduDensity.value)
    ensures r.mcs == McsLine(b.mcsSet)
    ensures r.freqs == FreqLines(b.freqs) && r.rates == RateLines(b.rates)
  {
    BandReport(
      number,
      if b.htCapa.Some? then Some(HtReport(b.htCapa.value, HtCapLines(b.htCapa.value))) else None,
      if b.ampduFactor.Some? then Some(AmpduMaxLength(b.ampduFactor.value)) else None,
      if b.ampduDensity.Some? then Some(Density(b.ampduDensity.value)) else None,
      McsLine(b.mcsSet),
      FreqLines(b.freqs),
      RateLines(b.rates))
  }

  /** The bands in order, numbered from `first` upwards by one. */
  function PrintBands(first: nat, bands: seq<BandAttrs>): (rs: seq<BandReport>)
    ensures |rs| == |bands|
    ensures forall i | 0 <= i < |bands| :: rs[i].number == first + i && rs[i].mcs == McsLine(bands[i].mcsSet)
    ensures forall i | 0 <= i < |bands| :: (rs[i].ht.Some? <==> bands[i].htCapa.Some?)
                                           && rs[i].freqs == FreqLines(bands[i].freqs) && rs[i].rates == RateLines(bands[i].rates)
  {
    seq(|bands|, i requires 0 <= i < |bands| => PrintBand(first + i, bands[i]))
  }

  /** The wiphy attributes of one reply: name, bands, and the type numbers of the supported-iftypes list. */
  datatype PhyAttrs = PhyAttrs(name: Option<string>, bands: Option<seq<BandAttrs>>, iftypes: Option<seq<nat>>)

  datatype PhyReport = PhyReport(name: Option<string>, bands: seq<BandReport>, modes: Option<seq<string>>)

  /**
   `print_phy_handler`: a reply without WIPHY_BANDS prints nothing; the
   bands are numbered from 1; the interface modes are printed only when the
   SUPPORTED_IFTYPES attribute is present, each through `iftype_name`.
   */
  function PrintPhy(p: PhyAttrs): (r: Option<PhyReport>)
    ensures r.Some? <==> p.bands.Some?
    ensures r.Some? ==> r.value.name == p.name && |r.value.bands| == |p.bands.value|
    ensures r.Some? ==> forall i | 0 <= i < |r.value.bands| :: r.value.bands[i].number == i + 1
    ensures r.Some? ==> (r.value.modes.Some? <==> p.iftypes.Some?)
    ensures r.Some? && p.iftypes.Some? ==>
              (|r.value.modes.value| == |p.iftypes.value|
               && forall i | 0 <= i < |p.iftypes.value| :: r.value.modes.value[i] == IftypeName(p.iftypes.value[i]))
  {
    match p.bands
    case None => None
    case Some(bands) =>
      var modes := if p.iftypes.Some? then
                     Some(seq(|p.iftypes.value|, i requires 0 <= i < |p.iftypes.value| => IftypeName(p.iftypes.value[i])))
                   else None;
      Some(PhyReport(p.name, PrintBands(1, bands), modes))
  }
}
