/**
 station.c: `station get|del <MAC>`, `station set <MAC> plink_action
 <open|block>` and `station dump`, and the printer of a station reply.

 These handlers append to the message the dispatcher prepared (header,
 command, interface index), given here as a `Msg`; the exchange that
 follows is the one of module Exchange, with callback allocation or send
 failure returning 1.
 */
module Station {
  import opened Base
  import opened Text
  import opened Netlink
  import opened Iw
  import opened Util
  import opened Exchange

  /** `enum plink_actions`. */
  const PlinkActionOpen: byte := 1
  const PlinkActionBlock: byte := 2

  /** The action word of `station set`: "open" or "block"; any other word is not supported. */
  function PlinkAction(word: string): (a: Option<byte>)
    ensures a == Some(PlinkActionOpen) <==> word == "open"
    ensures a == Some(PlinkActionBlock) <==> word == "block"
    ensures a.Some? ==> a.value == PlinkActionOpen || a.value == PlinkActionBlock
  {
    if word == "open" then Some(PlinkActionOpen)
    else if word == "block" then Some(PlinkActionBlock)
    else None
  }

  /**
   `handle_station_get`, registered for both GET_STATION and DEL_STATION:
   -1 without a token or with more than one, 1 for an address that does not
   parse or a buffer with no room for it, otherwise the MAC attribute is
   appended and the acknowledged exchange decides.
   */
  function StationGet(msg: Msg, args: seq<string>, s: Session): (r: Run)
    ensures |args| == 0 ==> r == Run(Returned(-1), msg.attrs)
    ensures |args| > 0 && MacFromText(args[0]).None? ==> r == Run(Returned(1), msg.attrs)
    ensures r.attrs == msg.attrs || r.attrs == msg.attrs + [Bytes(MacAttr, MacFromText(args[0]).value)]
    ensures r.attrs != msg.attrs <==> |args| == 1 && MacFromText(args[0]).Some? && msg.room >= 1
    ensures r.attrs != msg.attrs ==> r.outcome == AckedExchange(s, 1)
    ensures r.outcome.Returned? ==> r.outcome.status in {-1, 0, 1}
  {
    if |args| < 1 then Run(Returned(-1), msg.attrs)
    else
      match MacFromText(args[0])
      case None => Run(Returned(1), msg.attrs)
      case Some(mac) =>
        if |args| != 1 then Run(Returned(-1), msg.attrs)
        else
          match Put(msg, Bytes(MacAttr, mac))
          case None => Run(Returned(1), msg.attrs)
          case Some(m) => Run(AckedExchange(s, 1), m.attrs)
  }

  /** Given the printed form of an address, `station get` asks for exactly that station. */
  lemma StationGetOfAddress(msg: Msg, mac: Mac, s: Session)
    requires msg.room >= 1
    ensures StationGet(msg, [MacToText(mac)], s) == Run(AckedExchange(s, 1), msg.attrs + [Bytes(MacAttr, mac)])
  {
    MacRoundTrip(mac);
  }

  /**
   `handle_station_set`: -1 with fewer than three tokens or more than
   three; 1 for a bad address, a second token other than "plink_action",
   an unsupported action, or a buffer too small; otherwise MAC and the
   plink action are appended and the acknowledged exchange decides.
   */
  function StationSet(msg: Msg, args: seq<string>, s: Session): (r: Run)
    ensures |args| < 3 ==> r == Run(Returned(-1), msg.attrs)
    ensures |args| >= 3 && (MacFromText(args[0]).None? || args[1] != "plink_action" || PlinkAction(args[2]).None?)
            ==> r == Run(Returned(1), msg.attrs)
    ensures |args| > 3 ==> r.outcome.Returned? && r.outcome.status in {-1, 1}
    ensures r.outcome.Returned? ==> r.outcome.status in {-1, 0, 1}
    ensures |r.attrs| == |msg.attrs| + 2 <==> |args| == 3 && MacFromText(args[0]).Some? && args[1] == "plink_action"
                                              && PlinkAction(args[2]).Some? && msg.room >= 2
    ensures |r.attrs| == |msg.attrs| + 2 ==>
              r.attrs == msg.attrs + [Bytes(MacAttr, MacFromText(args[0]).value), U8(StaPlinkAction, PlinkAction(args[2]).value)]
              && r.outcome == AckedExchange(s, 1)
    ensures |r.attrs| != |msg.attrs| + 2 ==> r.outcome.Returned? && r.outcome.status != 0
  {
    if |args| < 3 then Run(Returned(-1), msg.attrs)
    else
      match MacFromText(args[0])
      case None => Run(Returned(1), msg.attrs)
      case Some(mac) =>
        if args[1] != "plink_action" then Run(Returned(1), msg.attrs)
        else
          match PlinkAction(args[2])
          case None => Run(Returned(1), msg.attrs)
          case Some(action) =>
            if |args| != 3 then Run(Returned(-1), msg.attrs)
            else
              match Put(msg, Bytes(MacAttr, mac))
              case None => Run(Returned(1), msg.attrs)
              case Some(m1) =>
                match Put(m1, U8(StaPlinkAction, action))
                case None => Run(Returned(1), m1.attrs)
                case Some(m2) => Run(AckedExchange(s, 1), m2.attrs)
  }

  /** The command line for an address and an action word sets exactly that action for that station. */
  lemma StationSetOfAddress(msg: Msg, mac: Mac, word: string, s: Session)
    requires word == "open" || word == "block"
    requires msg.room >= 2
    ensures StationSet(msg, [MacToText(mac), "plink_action", word], s)
            == Run(AckedExchange(s, 1),
                   msg.attrs + [Bytes(MacAttr, mac), U8(StaPlinkAction, if word == "open" then 1 else 2)])
  {
    MacRoundTrip(mac);
  }

  /** `handle_station_dump`: no arguments; nothing is appended; the dump exchange decides, failures returning 1. */
  function StationDump(msg: Msg, args: seq<string>, s: Session): (r: Run)
    ensures r.attrs == msg.attrs
    ensures |args| != 0 ==> r.outcome == Returned(-1)
    ensures |args| == 0 ==> r.outcome.Returned? && r.outcome.status in {0, 1}
    ensures |args| == 0 ==> (r.outcome == Returned(0) <==> s.allocOk && s.sendErr >= 0 && Receive(s.frames, DumpCallbacks).err >= 0)
  {
    if |args| != 0 then Run(Returned(-1), msg.attrs)
    else Run(DumpExchange(s, 1), msg.attrs)
  }

  /** `enum plink_state`: the names the printer uses for 0..6. */
  const PlinkStates: seq<string> := ["LISTEN", "OPN_SNT", "OPN_RCVD", "CNF_RCVD", "ESTAB", "HOLDING", "BLOCKED"]

  /** The printer's switch: the state's name, or "UNKNOWN" outside the enumeration. */
  function PlinkStateName(v: nat): (name: string)
    ensures v < |PlinkStates| ==> name == PlinkStates[v]
    ensures v >= |PlinkStates| <==> name == "UNKNOWN"
  {
    if v == 0 then "LISTEN"
    else if v == 1 then "OPN_SNT"
    else if v == 2 then "OPN_RCVD"
    else if v == 3 then "CNF_RCVD"
    else if v == 4 then "ESTAB"
    else if v == 5 then "HOLDING"
    else if v == 6 then "BLOCKED"
    else "UNKNOWN"
  }

  /** The byte order of the host the tool runs on, which `nla_get_u16` reads in. */
  datatype ByteOrder = LittleEndianHost | BigEndianHost

  /**
   The plink state attribute is a single byte (its policy entry is NLA_U8)
   but the printer reads it with `nla_get_u16`, so the value it switches on
   is the payload byte together with the byte that follows it in the
   message, combined in the host's byte order. On a little-endian host the
   payload byte is the low byte; on a big-endian host it is the high byte,
   and the state is named by the following byte instead.
   */
  function PlinkRead(order: ByteOrder, payload: byte, following: byte): (name: string)
    ensures order == LittleEndianHost && following == 0 ==> name == PlinkStateName(payload)
    ensures order == LittleEndianHost && following != 0 ==> name == "UNKNOWN"
    ensures order == BigEndianHost && payload == 0 ==> name == PlinkStateName(following)
    ensures order == BigEndianHost && payload != 0 ==> name == "UNKNOWN"
  {
    match order
    case LittleEndianHost => PlinkStateName(LittleEndian16(payload, following) as nat)
    case BigEndianHost => PlinkStateName(LittleEndian16(following, payload) as nat)
  }

  /** The statistics the printer knows, as decoded under its policy. `plink` holds the payload byte and the byte after it. */
  datatype StaInfo = StaInfo(
    inactive: Option<u32>, rxBytes: Option<u32>, txBytes: Option<u32>,
    llid: Option<u16>, plid: Option<u16>, plink: Option<(byte, byte)>)

  /** A station reply: address, interface index and the nested statistics. */
  datatype StaAttrs = StaAttrs(mac: Mac, ifindex: u32, info: Nested<StaInfo>)

  /** One printed statistic; the numbers are printed with `%d`. */
  datatype StaField =
    | Inactive(ms: int) | RxBytes(rx: int) | TxBytes(tx: int)
    | Llid(llid: int) | Plid(plid: int) | Plink(state: string)

  function FieldRank(f: StaField): nat {
    match f
    case Inactive(_) => 0
    case RxBytes(_) => 1
    case TxBytes(_) => 2
    case Llid(_) => 3
    case Plid(_) => 4
    case Plink(_) => 5
  }

  /** "Station <mac> (on <device>)" and the statistic lines after it. */
  datatype StaReport = StaReport(mac: string, ifindex: u32, fields: seq<StaField>)

  /** The statistics in printing order: slot k holds the line of rank k when its attribute is present. */
  function StaSlots(order: ByteOrder, i: StaInfo): (slots: seq<Option<StaField>>)
    ensures |slots| == 6
    ensures forall k | 0 <= k < 6 :: slots[k].Some? ==> FieldRank(slots[k].value) == k && StaFieldFaithful(order, slots[k].value, i)
    ensures slots[0].Some? == i.inactive.Some? && slots[1].Some? == i.rxBytes.Some? && slots[2].Some? == i.txBytes.Some?
    ensures slots[3].Some? == i.llid.Some? && slots[4].Some? == i.plid.Some? && slots[5].Some? == i.plink.Some?
  {
    [ if i.inactive.Some? then Some(Inactive(ToInt32(i.inactive.value))) else None,
      if i.rxBytes.Some? then Some(RxBytes(ToInt32(i.rxBytes.value))) else None,
      if i.txBytes.Some? then Some(TxBytes(ToInt32(i.txBytes.value))) else None,
      if i.llid.Some? then Some(Llid(i.llid.value as int)) else None,
      if i.plid.Some? then Some(Plid(i.plid.value as int)) else None,
      if i.plink.Some? then Some(Plink(PlinkRead(order, i.plink.value.0, i.plink.value.1))) else None ]
  }

  /**
   `print_sta_handler`: a reply without statistics, or with statistics
   the policy rejects, prints nothing. Otherwise the station line, then
   one line per statistic present, in a fixed order; the 32-bit counters
   print as signed values.
   */
  function PrintSta(order: ByteOrder, a: StaAttrs): (r: Option<StaReport>)
    ensures r.Some? <==> a.info.Parsed?
    ensures r.Some? ==> MacFromText(r.value.mac) == Some(a.mac) && r.value.ifindex == a.ifindex
    ensures r.Some? ==> |r.value.fields| == CountSome(StaSlots(order, a.info.fields))
    ensures r.Some? ==> forall k, l | 0 <= k < l < |r.value.fields| :: FieldRank(r.value.fields[k]) < FieldRank(r.value.fields[l])
    ensures r.Some? ==> forall f | f in r.value.fields :: StaFieldFaithful(order, f, a.info.fields)
  {
    match a.info
    case Absent => None
    case Malformed => None
    case Parsed(i) =>
      MacRoundTrip(a.mac);
      var slots := StaSlots(order, i);
      var fields := Present(slots, FieldRank, 0);
      assert forall f | f in fields :: StaFieldFaithful(order, f, i) by {
        forall f | f in fields ensures StaFieldFaithful(order, f, i) {
          var k :| 0 <= k < |slots| && slots[k] == Some(f);
        }
      }
      Some(StaReport(MacToText(a.mac), a.ifindex, fields))
  }

  /**
   A printed statistic comes from an attribute that is present, and
   reading its number back as an unsigned 32-bit value gives the attribute.
   */
  predicate StaFieldFaithful(order: ByteOrder, f: StaField, i: StaInfo) {
    match f
    case Inactive(ms) => i.inactive.Some? && ToU32(ms) == i.inactive.value
    case RxBytes(n) => i.rxBytes.Some? && ToU32(n) == i.rxBytes.value
    case TxBytes(n) => i.txBytes.Some? && ToU32(n) == i.txBytes.value
    case Llid(n) => i.llid.Some? && n == i.llid.value as int
    case Plid(n) => i.plid.Some? && n == i.plid.value as int
    case Plink(name) => i.plink.Some? && name == PlinkRead(order, i.plink.value.0, i.plink.value.1)
  }
}
