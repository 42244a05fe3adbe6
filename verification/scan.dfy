/**
 scan.c: triggering a scan, and printing the BSS entries of a scan dump
 together with the information elements each one carries.
 */
module Scan {
  import opened Base
  import opened Text
  import opened Netlink
  import opened Iw
  import opened Util

  /** The nested list of SSIDs `handle_scan` attaches: one entry, the empty (wildcard) SSID. */
  const WildcardSsids: Attr := Nested(ScanSsids, [Bytes(Index(1), [])])

  /**
   `handle_scan`: allocate the SSID list (failure: -ENOMEM), put the
   empty SSID into it (failure: -ENOBUFS), then nest it into the request.
   The result of the nesting put is not checked: when the request is full
   the handler still returns 0 and the request goes out without SSIDs.
   */
  function HandleScan(msg: Msg, ssidsAllocOk: bool, ssidsRoom: nat): (r: Run)
    ensures r.outcome == Returned(0) <==> ssidsAllocOk && ssidsRoom > 0
    ensures !ssidsAllocOk ==> r.outcome == Returned(-ENOMEM)
    ensures ssidsAllocOk && ssidsRoom == 0 ==> r.outcome == Returned(-ENOBUFS)
    ensures r.outcome == Returned(0) && msg.room > 0 ==> r.attrs == msg.attrs + [WildcardSsids]
    ensures r.outcome != Returned(0) || msg.room == 0 ==> r.attrs == msg.attrs
  {
    if !ssidsAllocOk then Run(Returned(-ENOMEM), msg.attrs)
    else
      match Put(Msg([], ssidsRoom), Bytes(Index(1), []))
      case None => Run(Returned(-ENOBUFS), msg.attrs)
      case Some(ssids) =>
        assert ssids.attrs == [Bytes(Index(1), [])];
        match Put(msg, Nested(ScanSsids, ssids.attrs))
        case None => Run(Returned(0), msg.attrs)
        case Some(m) => Run(Returned(0), m.attrs)
  }

  /** The payloads of the byte-string members of a nested list, in order. */
  function SsidsOf(children: seq<Attr>): seq<seq<byte>> {
    if |children| == 0 then []
    else (if children[0].Bytes? then [children[0].data] else []) + SsidsOf(children[1..])
  }

  /**
   The SSIDs a request asks the kernel to probe for, read from its first
   SCAN_SSIDS attribute; None when it carries none, in which case the
   kernel scans passively. An empty SSID in the list is the wildcard.
   */
  function RequestedSsids(attrs: seq<Attr>): Option<seq<seq<byte>>> {
    if |attrs| == 0 then None
    else if attrs[0].Nested? && attrs[0].tag == ScanSsids then Some(SsidsOf(attrs[0].children))
    else RequestedSsids(attrs[1..])
  }

  /** Appending to a request without SSIDs: it asks for SSIDs exactly when the new attribute is an SSID list. */
  lemma {:induction false} RequestedSsidsAppend(attrs: seq<Attr>, a: Attr)
    requires RequestedSsids(attrs).None?
    ensures RequestedSsids(attrs + [a]) == RequestedSsids([a])
  {
    if |attrs| > 0 {
      assert (attrs + [a])[1..] == attrs[1..] + [a];
      RequestedSsidsAppend(attrs[1..], a);
    } else {
      assert attrs + [a] == [a];
    }
  }

  /**
   A triggered scan probes for the wildcard SSID alone: when the trigger
   succeeds and the request has room, the request that had no SSID list now
   asks for exactly one SSID, the empty one; when it fails, or the request
   is full, the request still asks for none.
   */
  lemma HandleScanRequestsWildcard(msg: Msg, ssidsAllocOk: bool, ssidsRoom: nat)
    requires RequestedSsids(msg.attrs).None?
    ensures var r := HandleScan(msg, ssidsAllocOk, ssidsRoom);
            (r.outcome == Returned(0) && msg.room > 0 ==> RequestedSsids(r.attrs) == Some([[]]))
            && (r.outcome != Returned(0) || msg.room == 0 ==> RequestedSsids(r.attrs).None?)
  {
    RequestedSsidsAppend(msg.attrs, WildcardSsids);
    assert [WildcardSsids][1..] == [];
    assert SsidsOf([Bytes(Index(1), [])]) == [[]] by {
      assert [Bytes(Index(1), [])][1..] == [];
    }
  }

  /** One information element: its id and its payload of at most 255 bytes. */
  datatype Element = Element(id: byte, data: seq<byte>)

  type IeElement = e: Element | |e.data| <= 255 witness Element(0, [])

  /** The bytes of a list of elements: id, length, payload, one after the other. */
  function Encode(es: seq<IeElement>): (buf: seq<byte>)
    ensures |es| == 0 <==> |buf| == 0
  {
    if |es| == 0 then [] else [es[0].id, |es[0].data|] + es[0].data + Encode(es[1..])
  }

  /**
   The element walk with the bound it needs: an element is taken only when
   its two header bytes and its whole payload lie inside the buffer. The
   elements taken are a prefix of the buffer, and the walk stops only where
   no further whole element fits.
   */
  function Walk(buf: seq<byte>): (es: seq<IeElement>)
    ensures |Encode(es)| <= |buf| && buf[..|Encode(es)|] == Encode(es)
    ensures |buf| - |Encode(es)| < 2 || |buf| - |Encode(es)| < buf[|Encode(es)| + 1] as int + 2
    decreases |buf|
  {
    if |buf| >= 2 && |buf| >= buf[1] as int + 2 then
      var n := 2 + buf[1] as int;
      var e: IeElement := Element(buf[0], buf[2..n]);
      var tail := Walk(buf[n..]);
      WalkStep(buf, e, tail);
      [e] + tail
    else []
  }

  /** One element read whole, followed by what the walk reads after it, keeps the walk's two promises. */
  lemma WalkStep(buf: seq<byte>, e: IeElement, tail: seq<IeElement>)
    requires |buf| >= 2 && |buf| >= buf[1] as int + 2 && e == Element(buf[0], buf[2..2 + buf[1]])
    requires var rest := buf[2 + buf[1]..]; var t := Encode(tail);
             |t| <= |rest| && rest[..|t|] == t
             && (|rest| - |t| < 2 || |rest| - |t| < rest[|t| + 1] as int + 2)
    ensures var b := Encode([e] + tail); |b| <= |buf| && buf[..|b|] == b
    ensures var b := Encode([e] + tail); |buf| - |b| < 2 || |buf| - |b| < buf[|b| + 1] as int + 2
  {
    var n := 2 + buf[1] as int;
    var rest := buf[n..];
    var t := Encode(tail);
    assert Encode([e] + tail) == buf[..n] + t by {
      assert ([e] + tail)[1..] == tail;
      assert buf[..n] == [e.id, |e.data|] + e.data;
    }
    PrefixThen(buf, n, t);
    assert |rest| - |t| >= 2 ==> buf[n + |t| + 1] == rest[|t| + 1];
  }

  /** A prefix of length n followed by a prefix of what comes after it is a prefix. */
  lemma PrefixThen(buf: seq<byte>, n: nat, t: seq<byte>)
    requires n <= |buf| && |t| <= |buf| - n && buf[n..][..|t|] == t
    ensures |buf[..n] + t| <= |buf| && buf[..|buf[..n] + t|] == buf[..n] + t
  {
    assert buf[..n + |t|] == buf[..n] + buf[n..][..|t|];
  }

  /** The walk reads back exactly the elements that were encoded. */
  lemma {:induction false} WalkEncode(es: seq<IeElement>)
    ensures Walk(Encode(es)) == es
  {
    if |es| > 0 {
      var buf := Encode(es);
      var e := es[0];
      assert buf[1] == |e.data|;
      assert buf[2..2 + buf[1]] == e.data;
      assert buf[2 + buf[1]..] == Encode(es[1..]);
      WalkEncode(es[1..]);
      assert [e] + es[1..] == es;
    }
  }

  /**
   What one turn of the loop in `print_ies` does: hand over a whole
   element, or an element whose declared payload runs past the buffer, of
   which only `present` bytes are really there.
   */
  datatype Step = Whole(e: IeElement) | Overrun(id: byte, len: byte, present: seq<byte>)

  /**
   The loop of `print_ies` as written: it continues while at least two bytes
   remain and the remaining length is at least the element's length byte,
   which leaves the two header bytes out of the comparison.
   */
  function WalkAsWritten(buf: seq<byte>): (steps: seq<Step>)
    ensures |steps| > 0 <==> |buf| >= 2 && |buf| >= buf[1] as int
    ensures |steps| > 0 && steps[|steps| - 1].Overrun? ==>
              |steps[|steps| - 1].present| < steps[|steps| - 1].len as int <= |steps[|steps| - 1].present| + 2
    decreases |buf|
  {
    if |buf| >= 2 && |buf| >= buf[1] then
      if |buf| >= buf[1] as int + 2 then
        [Whole(Element(buf[0], buf[2..2 + buf[1]]))] + WalkAsWritten(buf[2 + buf[1]..])
      else
        [Overrun(buf[0], buf[1], buf[2..])]
    else []
  }

  /**
   The loop as written agrees with the corrected walk on every whole
   element, and differs from it by at most one final step, which claims one
   or two payload bytes more than the buffer holds.
   */
  lemma {:induction false} WalkAsWrittenAgrees(buf: seq<byte>)
    ensures var w := WalkAsWritten(buf); var c := Walk(buf);
            (|w| == |c| || |w| == |c| + 1)
            && (forall i | 0 <= i < |c| :: w[i] == Whole(c[i]))
            && (|w| == |c| + 1 ==> w[|c|].Overrun? && |buf| - |Encode(c)| >= 2
                                   && |w[|c|].present| < w[|c|].len <= |w[|c|].present| + 2)
    decreases |buf|
  {
    if |buf| >= 2 && |buf| >= buf[1] as int + 2 {
      WalkAsWrittenAgrees(buf[2 + buf[1]..]);
      var w := WalkAsWritten(buf);
      var c := Walk(buf);
      assert w[1..] == WalkAsWritten(buf[2 + buf[1]..]);
      assert c[1..] == Walk(buf[2 + buf[1]..]);
    }
  }

  /** On a buffer of whole elements the loop as written reads exactly those elements. */
  lemma WalkAsWrittenOnEncoding(es: seq<IeElement>)
    ensures WalkAsWritten(Encode(es)) == seq(|es|, i requires 0 <= i < |es| => Whole(es[i]))
  {
    var buf := Encode(es);
    WalkAsWrittenAgrees(buf);
    WalkEncode(es);
    var w := WalkAsWritten(buf);
    assert |w| == |es|;
  }

  /**
   A buffer [0, 2] (an SSID element declaring two payload bytes, none
   present) passes the loop's test, so the element's payload is read past
   the buffer's end; the corrected walk takes no element.
   */
  lemma WalkAsWrittenOverreads()
    ensures WalkAsWritten([0, 2]) == [Overrun(0, 2, [])]
    ensures Walk([0, 2]) == []
  {
    var buf: seq<byte> := [0, 2];
    assert buf[2..] == [];
  }

  /** The element printers `print_ies` dispatches to. */
  datatype Printer = SsidPrinter | RatesPrinter | DsPrinter | IgnorePrinter | VendorPrinter

  /** `ARRAY_SIZE(ieprinters)`: the table has slots 0 to 221. */
  const IePrintersSize: nat := 222

  /** Slot i of the `ieprinters` table, for i below its size; six slots are set. */
  function IePrinterSlot(i: nat): Option<Printer> {
    if i == 0 then Some(SsidPrinter)
    else if i == 1 || i == 50 then Some(RatesPrinter)
    else if i == 3 then Some(DsPrinter)
    else if i == 5 then Some(IgnorePrinter)
    else if i == 221 then Some(VendorPrinter)
    else None
  }

  /** The printer for an element id: the table slot when the id is inside the table. */
  function PrinterFor(id: byte): (p: Option<Printer>)
    ensures p.Some? <==> id == 0 || id == 1 || id == 3 || id == 5 || id == 50 || id == 221
    ensures p == Some(RatesPrinter) <==> id == 1 || id == 50
    ensures p == Some(SsidPrinter) <==> id == 0
    ensures p == Some(VendorPrinter) <==> id == 221
  {
    if id < IePrintersSize then IePrinterSlot(id) else None
  }

  /** One supported-rate byte: the rate in 500 kbit/s units in the low seven bits, "basic" in the top bit. */
  datatype Rate = Rate(mbps: nat, half: bool, basic: bool)

  function DecodeRate(b: byte): (r: Rate)
    ensures r.mbps < 64
    ensures r.basic <==> b >= 0x80
    ensures 2 * r.mbps + (if r.half then 1 else 0) == b % 0x80
  {
    var v := b % 0x80;
    Rate(v / 2, v % 2 == 1, b >= 0x80)
  }

  function EncodeRate(r: Rate): byte
    requires r.mbps < 64
  {
    (if r.basic then 0x80 else 0) + 2 * r.mbps + (if r.half then 1 else 0)
  }

  /** Rate bytes and decoded rates correspond one to one. */
  lemma RateRoundTrip(b: byte, r: Rate)
    ensures EncodeRate(DecodeRate(b)) == b
    ensures r.mbps < 64 ==> DecodeRate(EncodeRate(r)) == r
  {
  }

  /** `isprint` in the C locale. */
  predicate IsPrint(b: byte) {
    0x20 <= b <= 0x7e
  }

  /** One SSID byte as `print_ssid` prints it: itself when printable, else `\x` and two hex digits. */
  function EscapeByte(b: byte): (s: string)
    ensures IsPrint(b) ==> s == [b as char]
    ensures !IsPrint(b) ==> |s| == 4 && s[..2] == "\\x" && s[2..] == HexPair(b)
  {
    if IsPrint(b) then [b as char] else "\\x" + HexPair(b)
  }

  /** `print_ssid`: the SSID's bytes, each escaped as EscapeByte says. */
  function EscapeSsid(data: seq<byte>): (s: string)
    ensures |s| >= |data|
    ensures (forall i | 0 <= i < |data| :: IsPrint(data[i])) ==> |s| == |data|
  {
    if |data| == 0 then "" else EscapeByte(data[0]) + EscapeSsid(data[1..])
  }

  /** Reading printed SSID text back: `\x` with two hex digits is one byte, any other character is itself. */
  function Unescape(s: string): seq<byte>
    decreases |s|
  {
    if |s| == 0 then []
    else if |s| >= 4 && s[0] == '\\' && s[1] == 'x' && IsHexDigit(s[2]) && IsHexDigit(s[3]) then
      [16 * DigitValue(s[2]) + DigitValue(s[3])] + Unescape(s[4..])
    else
      [(s[0] as int) % 0x100] + Unescape(s[1..])
  }

  /** A byte other than a backslash is read back from its printed form, whatever text follows. */
  lemma UnescapeByte(b: byte, t: string)
    requires b != 0x5c
    ensures Unescape(EscapeByte(b) + t) == [b] + Unescape(t)
  {
    var s := EscapeByte(b) + t;
    if IsPrint(b) {
      assert s[0] == b as char && s[1..] == t;
    } else {
      assert s[..4] == EscapeByte(b) && s[4..] == t;
      assert s[0] == '\\' && s[1] == 'x' && s[2..4] == HexPair(b);
    }
  }

  /** An SSID without a backslash byte is recovered from its printed form. */
  lemma {:induction false} EscapeSsidRoundTrip(data: seq<byte>)
    requires forall i | 0 <= i < |data| :: data[i] != 0x5c
    ensures Unescape(EscapeSsid(data)) == data
  {
    if |data| > 0 {
      EscapeSsidRoundTrip(data[1..]);
      UnescapeByte(data[0], EscapeSsid(data[1..]));
      assert [data[0]] + data[1..] == data;
    }
  }

  /**
   With backslashes allowed the printed form is ambiguous: the one-byte SSID
   0x01 and the four-byte SSID `\x01` print the same text.
   */
  lemma EscapeSsidAmbiguous()
    ensures EscapeSsid([0x01]) == EscapeSsid([0x5c, 0x78, 0x30, 0x31])
  {
    assert HexPair(1) == "01";
  }

  /** The line `print_ies` prints for one element. */
  datatype IeLine =
    | SsidLine(text: string)
    | RatesLine(extended: bool, rates: seq<Rate>)
    | DsLine(channel: byte)
    | NoLine
    | VendorLine(oui: seq<byte>, payload: seq<byte>)
    | UnknownLine(id: byte, payload: seq<byte>)
    | ReadsPastElement(id: byte)   // the printer reads bytes the element does not have
    | ReadsPastBuffer(id: byte)    // the printer reads bytes beyond the end of the element buffer

  /**
   The printer for one element. `print_ds` reads one payload byte and
   `print_vendor` three whatever the element's length; an element shorter
   than that is reported as `ReadsPastElement`.
   */
  function PrintElement(e: IeElement): (l: IeLine)
    ensures l.UnknownLine? <==> PrinterFor(e.id).None?
    ensures l.UnknownLine? ==> l.id == e.id && l.payload == e.data
    ensures l.ReadsPastElement? <==> (e.id == 3 && |e.data| < 1) || (e.id == 221 && |e.data| < 3)
    ensures l.SsidLine? <==> e.id == 0
    ensures l.SsidLine? ==> l.text == EscapeSsid(e.data)
    ensures l.RatesLine? <==> e.id == 1 || e.id == 50
    ensures l.RatesLine? ==> l.extended == (e.id != 1) && |l.rates| == |e.data|
                             && forall i | 0 <= i < |e.data| :: l.rates[i].mbps < 64 && EncodeRate(l.rates[i]) == e.data[i]
    ensures l.VendorLine? ==> l.oui + l.payload == e.data && |l.oui| == 3
  {
    match PrinterFor(e.id)
    case None => UnknownLine(e.id, e.data)
    case Some(SsidPrinter) => SsidLine(EscapeSsid(e.data))
    case Some(RatesPrinter) =>
      var rates := seq(|e.data|, i requires 0 <= i < |e.data| => DecodeRate(e.data[i]));
      assert forall i | 0 <= i < |e.data| :: rates[i].mbps < 64 && EncodeRate(rates[i]) == e.data[i];
      RatesLine(e.id != 1, rates)
    case Some(DsPrinter) => if |e.data| < 1 then ReadsPastElement(e.id) else DsLine(e.data[0])
    case Some(IgnorePrinter) => NoLine
    case Some(VendorPrinter) =>
      if |e.data| < 3 then ReadsPastElement(e.id) else VendorLine(e.data[..3], e.data[3..])
  }

  /** `print_ies` with the corrected bound: one line per whole element, in buffer order. */
  function PrintIes(buf: seq<byte>): (lines: seq<IeLine>)
    ensures |lines| == |Walk(buf)|
    ensures forall i | 0 <= i < |lines| :: lines[i] == PrintElement(Walk(buf)[i])
  {
    var es := Walk(buf);
    seq(|es|, i requires 0 <= i < |es| => PrintElement(es[i]))
  }

  /**
   How many payload bytes the printer for an element reads: none for the
   ignored element, one for the DS parameter set, at least three for a
   vendor element, and the declared length otherwise.
   */
  function BytesRead(id: byte, len: nat): nat {
    match PrinterFor(id)
    case Some(IgnorePrinter) => 0
    case Some(DsPrinter) => 1
    case Some(VendorPrinter) => if len < 3 then 3 else len
    case _ => len
  }

  /**
   The line for one turn of the loop as written. A whole element prints as
   above; for the final overrunning element the printer runs on whatever
   follows the buffer, unless it reads no more than the bytes present.
   */
  function PrintStep(s: Step): (l: IeLine)
    ensures s.Whole? ==> l == PrintElement(s.e)
    ensures s.Overrun? && |s.present| < s.len as int ==> (l.ReadsPastBuffer? <==> BytesRead(s.id, s.len as nat) > |s.present|)
    ensures s.Overrun? && l.ReadsPastBuffer? ==> l.id == s.id
  {
    match s
    case Whole(e) => PrintElement(e)
    case Overrun(id, len, present) =>
      match PrinterFor(id)
      case Some(IgnorePrinter) => NoLine
      case Some(DsPrinter) => if |present| >= 1 then DsLine(present[0]) else ReadsPastBuffer(id)
      case _ => ReadsPastBuffer(id)
  }

  /** `print_ies` with its loop as written: one line per turn of the loop. */
  function PrintIesAsWritten(buf: seq<byte>): (lines: seq<IeLine>)
    ensures |lines| == |WalkAsWritten(buf)|
    ensures forall i | 0 <= i < |lines| :: lines[i] == PrintStep(WalkAsWritten(buf)[i])
  {
    var steps := WalkAsWritten(buf);
    seq(|steps|, i requires 0 <= i < |steps| => PrintStep(steps[i]))
  }

  /**
   The lines as written start with the corrected lines, and at most one
   more line follows them: that of the element running past the buffer.
   */
  lemma PrintIesAsWrittenAgrees(buf: seq<byte>)
    ensures var w := PrintIesAsWritten(buf); var c := PrintIes(buf);
            |c| <= |w| <= |c| + 1 && w[..|c|] == c
  {
    WalkAsWrittenAgrees(buf);
  }

  /** For the buffer `00 02` the SSID printer is handed two bytes past the end; the corrected walk prints nothing. */
  lemma PrintIesAsWrittenOverreads()
    ensures PrintIesAsWritten([0, 2]) == [ReadsPastBuffer(0)]
    ensures PrintIes([0, 2]) == []
  {
    WalkAsWrittenOverreads();
  }

  /** The BSS attributes `print_bss_handler` reads from the nested BSS attribute. */
  datatype BssFields = BssFields(
    bssid: Option<Mac>,
    tsf: Option<nat>,
    frequency: Option<u32>,
    beaconInterval: Option<u16>,
    capability: Option<u16>,
    ies: Option<seq<byte>>)

  /**
   What is printed for one BSS: the address line with the interface it was
   seen on, then each present field in order. The interface stays a number:
   `if_indextoname` is not part of this model.
   */
  datatype BssReport = BssReport(
    bssid: string,
    ifindex: u32,
    tsf: Option<nat>,
    frequency: Option<u32>,
    beaconInterval: Option<u16>,
    capability: Option<u16>,
    elements: seq<IeLine>)

  /**
   `print_bss_handler`: nothing is printed when the BSS attribute is
   missing or does not parse, or when it has no BSSID; otherwise the BSSID
   as text, the interface index of the reply, and every optional field that
   is present. It always tells libnl to skip to the next message, so it is
   modelled by its printed report.
   */
  function PrintBss(ifindex: u32, bss: Nested<BssFields>): (r: Option<BssReport>)
    ensures r.Some? <==> bss.Parsed? && bss.fields.bssid.Some?
    ensures r.Some? ==> MacFromText(r.value.bssid) == bss.fields.bssid && r.value.ifindex == ifindex
    ensures r.Some? ==> r.value.tsf == bss.fields.tsf && r.value.frequency == bss.fields.frequency
                        && r.value.beaconInterval == bss.fields.beaconInterval
                        && r.value.capability == bss.fields.capability
    ensures r.Some? && bss.fields.ies.None? ==> r.value.elements == []
    ensures r.Some? && bss.fields.ies.Some? ==> r.value.elements == PrintIes(bss.fields.ies.value)
  {
    match bss
    case Parsed(f) =>
      if f.bssid.None? then None
      else
        MacRoundTrip(f.bssid.value);
        var lines := if f.ies.Some? then PrintIes(f.ies.value) else [];
        Some(BssReport(MacToText(f.bssid.value), ifindex, f.tsf, f.frequency, f.beaconInterval, f.capability, lines))
    case _ => None
  }
}
