/**
 mpath.c: mesh path commands `mpath get|del <MAC>`, `mpath new|set <dst>
 next_hop <MAC>` and `mpath dump`, and the printer of a mesh path reply.

 Like the station handlers these receive the message the dispatcher
 prepared (generic netlink header with the command, interface index).
 Callback allocation or send failure returns -1 in get/del/set and 1 in
 dump.
 */
module Mpath {
  import opened Base
  import opened Netlink
  import opened Iw
  import opened Util
  import opened Exchange

  /**
   `handle_mpath_get`, registered for GET_MPATH and DEL_MPATH: -1 without
   a token or with more than one, 1 for an address that does not parse, -1
   when the buffer has no room for it; otherwise the destination is
   appended and the acknowledged exchange decides.
   */
  function MpathGet(msg: Msg, args: seq<string>, s: Session): (r: Run)
    ensures |args| == 0 ==> r == Run(Returned(-1), msg.attrs)
    ensures |args| > 0 && MacFromText(args[0]).None? ==> r == Run(Returned(1), msg.attrs)
    ensures r.attrs == msg.attrs || r.attrs == msg.attrs + [Bytes(MacAttr, MacFromText(args[0]).value)]
    ensures r.attrs != msg.attrs <==> |args| == 1 && MacFromText(args[0]).Some? && msg.room >= 1
    ensures r.attrs != msg.attrs ==> r.outcome == AckedExchange(s, -1)
    ensures r.attrs == msg.attrs && |args| > 0 && MacFromText(args[0]).Some? ==> r.outcome == Returned(-1)
  {
    if |args| < 1 then Run(Returned(-1), msg.attrs)
    else
      match MacFromText(args[0])
      case None => Run(Returned(1), msg.attrs)
      case Some(dst) =>
        if |args| != 1 then Run(Returned(-1), msg.attrs)
        else
          match Put(msg, Bytes(MacAttr, dst))
          case None => Run(Returned(-1), msg.attrs)
          case Some(m) => Run(AckedExchange(s, -1), m.attrs)
  }

  /** The argument checks of `handle_mpath_set`: destination, "next_hop", next hop, nothing else. */
  datatype SetArgs = SetOk(dst: Mac, nextHop: Mac) | SetRejected(status: int)

  function ParseSet(args: seq<string>): (p: SetArgs)
    ensures p.SetOk? <==> |args| == 3 && MacFromText(args[0]).Some? && args[1] == "next_hop" && MacFromText(args[2]).Some?
    ensures p.SetOk? ==> Some(p.dst) == MacFromText(args[0]) && Some(p.nextHop) == MacFromText(args[2])
    ensures p.SetRejected? ==> p.status == -1 || p.status == 1
    ensures p == SetRejected(1) <==> |args| >= 3 && (MacFromText(args[0]).None? || (args[1] == "next_hop" && MacFromText(args[2]).None?))
  {
    if |args| < 3 then SetRejected(-1)
    else
      match MacFromText(args[0])
      case None => SetRejected(1)
      case Some(dst) =>
        if args[1] != "next_hop" then SetRejected(-1)
        else
          match MacFromText(args[2])
          case None => SetRejected(1)
          case Some(nh) => if |args| != 3 then SetRejected(-1) else SetOk(dst, nh)
  }

  /** The printed form of a destination and next hop parses back to them. */
  lemma ParseSetOfAddresses(dst: Mac, nh: Mac)
    ensures ParseSet([MacToText(dst), "next_hop", MacToText(nh)]) == SetOk(dst, nh)
  {
    MacRoundTrip(dst);
    MacRoundTrip(nh);
  }

  /**
   A message as handed to `nl_send_auto_complete`: whether it carries the
   generic netlink header (command and family) the dispatcher wrote, and
   its attributes.
   */
  datatype Sent = Sent(withHeader: bool, attrs: seq<Attr>)

  /** A handler's outcome and the message it sent, if it got that far. */
  datatype SetRun = SetRun(outcome: Outcome, sent: Option<Sent>)

  /**
   `handle_mpath_set` as written: after the arguments are checked it
   replaces the dispatcher's message by a fresh `nlmsg_alloc()` one (no
   header, no interface index) with room `freshRoom`, appends destination
   and next hop to that, and sends it. `freshOk` is whether the allocation
   succeeded.
   */
  function MpathSetAsWritten(msg: Msg, args: seq<string>, freshOk: bool, freshRoom: nat, s: Session): (r: SetRun)
    ensures ParseSet(args).SetRejected? ==> r == SetRun(Returned(ParseSet(args).status), None)
    ensures r.sent.Some? <==> ParseSet(args).SetOk? && freshOk && freshRoom >= 2 && s.allocOk
    ensures r.sent.Some? ==> r.sent.value == Sent(false, [Bytes(MacAttr, ParseSet(args).dst), Bytes(MpathNextHop, ParseSet(args).nextHop)])
  {
    match ParseSet(args)
    case SetRejected(st) => SetRun(Returned(st), None)
    case SetOk(dst, nh) =>
      if !freshOk then SetRun(Returned(-1), None)
      else
        match PutAll(Msg([], freshRoom), [Bytes(MacAttr, dst), Bytes(MpathNextHop, nh)])
        case None => SetRun(Returned(-1), None)
        case Some(m) =>
          if !s.allocOk then SetRun(Returned(-1), None)
          else SetRun(AckedExchange(s, -1), Some(Sent(false, m.attrs)))
  }

  /**
   What the handler evidently intends, and what `mpath new` and `mpath
   set` need to mean anything to the kernel: destination and next hop are
   appended to the dispatcher's message, which keeps its header and
   interface index.
   */
  function MpathSet(msg: Msg, args: seq<string>, s: Session): (r: SetRun)
    ensures ParseSet(args).SetRejected? ==> r == SetRun(Returned(ParseSet(args).status), None)
    ensures r.sent.Some? <==> ParseSet(args).SetOk? && msg.room >= 2 && s.allocOk
    ensures r.sent.Some? ==> r.sent.value.withHeader
    ensures r.sent.Some? ==> r.sent.value.attrs == msg.attrs + [Bytes(MacAttr, ParseSet(args).dst), Bytes(MpathNextHop, ParseSet(args).nextHop)]
    ensures r.sent.Some? ==> r.outcome == AckedExchange(s, -1)
    ensures r.sent.None? ==> r.outcome.Returned? && r.outcome.status != 0
  {
    match ParseSet(args)
    case SetRejected(st) => SetRun(Returned(st), None)
    case SetOk(dst, nh) =>
      match PutAll(msg, [Bytes(MacAttr, dst), Bytes(MpathNextHop, nh)])
      case None => SetRun(Returned(-1), None)
      case Some(m) =>
        if !s.allocOk then SetRun(Returned(-1), None)
        else SetRun(AckedExchange(s, -1), Some(Sent(true, m.attrs)))
  }

  /**
   The discrepancy: for `mpath new <dst> next_hop <nh>` on an interface,
   the message the handler as written sends has no header and does not
   carry the interface index the dispatcher appended, whereas the corrected
   handler's message keeps both.
   */
  lemma MpathSetAsWrittenDropsHeader(ifindex: u32, dst: Mac, nh: Mac, s: Session)
    requires s.allocOk
    ensures var msg := Msg([U32(IfIndex, ifindex)], 2);
            var args := [MacToText(dst), "next_hop", MacToText(nh)];
            var asWritten := MpathSetAsWritten(msg, args, true, 2, s);
            var fixed := MpathSet(msg, args, s);
            && asWritten.sent.Some? && !asWritten.sent.value.withHeader
            && U32(IfIndex, ifindex) !in asWritten.sent.value.attrs
            && fixed.sent.Some? && fixed.sent.value.withHeader
            && fixed.sent.value.attrs == [U32(IfIndex, ifindex), Bytes(MacAttr, dst), Bytes(MpathNextHop, nh)]
  {
    ParseSetOfAddresses(dst, nh);
  }

  /** `handle_mpath_dump`: does not look at its arguments, appends nothing, and returns 1 on any failure. */
  function MpathDump(msg: Msg, args: seq<string>, s: Session): (r: Run)
    ensures r.attrs == msg.attrs
    ensures r.outcome.Returned? && r.outcome.status in {0, 1}
    ensures r.outcome == Returned(0) <==> s.allocOk && s.sendErr >= 0 && Receive(s.frames, DumpCallbacks).err >= 0
  {
    Run(DumpExchange(s, 1), msg.attrs)
  }

  /** The mesh path information under its policy: five 32-bit fields and two 8-bit ones. */
  datatype MpathInfo = MpathInfo(
    frameQlen: Option<u32>, dsn: Option<u32>, metric: Option<u32>, exptime: Option<u32>,
    discoveryTimeout: Option<u32>, discoveryRetries: Option<byte>, flags: Option<byte>)

  /** A mesh path reply: destination, next hop, interface index and the nested information. */
  datatype MpathAttrs = MpathAttrs(dst: Mac, nextHop: Mac, ifindex: u32, info: Nested<MpathInfo>)

  /** The information fields, in the order they are printed. */
  datatype MpathField = Dsn | Metric | FrameQlen | Exptime | DiscoveryTimeout | DiscoveryRetries | Flags

  function PrintRank(f: MpathField): nat {
    match f
    case Dsn => 0
    case Metric => 1
    case FrameQlen => 2
    case Exptime => 3
    case DiscoveryTimeout => 4
    case DiscoveryRetries => 5
    case Flags => 6
  }

  /** One tab-separated column: a field's value, printed `%u`, or `0x%x` for the flags. */
  datatype Column = Column(field: MpathField, value: nat)

  function ColumnRank(c: Column): nat {
    PrintRank(c.field)
  }

  /** The value of a field in the decoded information, if present. */
  function FieldValue(i: MpathInfo, f: MpathField): Option<nat> {
    match f
    case Dsn => if i.dsn.Some? then Some(i.dsn.value as nat) else None
    case Metric => if i.metric.Some? then Some(i.metric.value as nat) else None
    case FrameQlen => if i.frameQlen.Some? then Some(i.frameQlen.value as nat) else None
    case Exptime => if i.exptime.Some? then Some(i.exptime.value as nat) else None
    case DiscoveryTimeout => if i.discoveryTimeout.Some? then Some(i.discoveryTimeout.value as nat) else None
    case DiscoveryRetries => if i.discoveryRetries.Some? then Some(i.discoveryRetries.value as nat) else None
    case Flags => if i.flags.Some? then Some(i.flags.value as nat) else None
  }

  const PrintOrder: seq<MpathField> := [Dsn, Metric, FrameQlen, Exptime, DiscoveryTimeout, DiscoveryRetries, Flags]

  function ColumnSlots(i: MpathInfo): (slots: seq<Option<Column>>)
    ensures |slots| == |PrintOrder|
    ensures forall k | 0 <= k < |slots| :: slots[k].Some? ==> ColumnRank(slots[k].value) == k
    ensures forall k | 0 <= k < |slots| :: slots[k].Some? <==> FieldValue(i, PrintOrder[k]).Some?
    ensures forall k | 0 <= k < |slots| :: slots[k].Some? ==> slots[k].value == Column(PrintOrder[k], FieldValue(i, PrintOrder[k]).value)
  {
    seq(|PrintOrder|, k requires 0 <= k < |PrintOrder| =>
      var f := PrintOrder[k];
      if FieldValue(i, f).Some? then Some(Column(f, FieldValue(i, f).value)) else None)
  }

  /** The columns printed for the decoded information: present fields, in print order. */
  function Columns(i: MpathInfo): (cs: seq<Column>)
    ensures forall c | c in cs :: FieldValue(i, c.field) == Some(c.value)
    ensures forall f :: FieldValue(i, f).Some? ==> exists c | c in cs :: c.field == f
    ensures forall k, l | 0 <= k < l < |cs| :: PrintRank(cs[k].field) < PrintRank(cs[l].field)
  {
    var slots := ColumnSlots(i);
    var columns := Present(slots, ColumnRank, 0);
    ColumnsSound(i, slots, columns);
    ColumnsComplete(i, slots, columns);
    columns
  }

  lemma ColumnsSound(i: MpathInfo, slots: seq<Option<Column>>, columns: seq<Column>)
    requires slots == ColumnSlots(i) && columns == Present(slots, ColumnRank, 0)
    ensures forall c | c in columns :: FieldValue(i, c.field) == Some(c.value)
  {
    forall c | c in columns ensures FieldValue(i, c.field) == Some(c.value) {
      var k :| 0 <= k < |slots| && slots[k] == Some(c);
    }
  }

  lemma ColumnsComplete(i: MpathInfo, slots: seq<Option<Column>>, columns: seq<Column>)
    requires slots == ColumnSlots(i) && columns == Present(slots, ColumnRank, 0)
    ensures forall f :: FieldValue(i, f).Some? ==> exists c | c in columns :: c.field == f
  {
    forall f | FieldValue(i, f).Some? ensures exists c | c in columns :: c.field == f {
      var k := PrintRank(f);
      assert PrintOrder[k] == f;
      PresentKeeps(slots, ColumnRank, 0, k);
      assert slots[k].value.field == f;
    }
  }

  /** "<dst> <next hop> <device>" and the columns after it. */
  datatype MpathReport = MpathReport(dst: string, nextHop: string, ifindex: u32, columns: seq<Column>)

  /**
   `print_mpath_handler`: nothing for a reply without path information or
   with information the policy rejects; otherwise both addresses in text
   form and one column per field present, in print order (which is not the
   policy's order: the queue length comes third).
   */
  function PrintMpath(a: MpathAttrs): (r: Option<MpathReport>)
    ensures r.Some? <==> a.info.Parsed?
    ensures r.Some? ==> MacFromText(r.value.dst) == Some(a.dst) && MacFromText(r.value.nextHop) == Some(a.nextHop)
    ensures r.Some? ==> r.value.ifindex == a.ifindex
    ensures r.Some? ==> forall c | c in r.value.columns :: FieldValue(a.info.fields, c.field) == Some(c.value)
    ensures r.Some? ==> forall f :: FieldValue(a.info.fields, f).Some? ==> exists c | c in r.value.columns :: c.field == f
    ensures r.Some? ==> forall k, l | 0 <= k < l < |r.value.columns| :: PrintRank(r.value.columns[k].field) < PrintRank(r.value.columns[l].field)
  {
    match a.info
    case Absent => None
    case Malformed => None
    case Parsed(i) =>
      MacRoundTrip(a.dst);
      MacRoundTrip(a.nextHop);
      var columns := Columns(i);
      Some(MpathReport(MacToText(a.dst), MacToText(a.nextHop), a.ifindex, columns))
  }
}
