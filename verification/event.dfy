/**
 event.c: the `event` command. Its flags, the management-frame summary
 printed for MLME events, the wait-set match of `wait_event`, the
 multicast group subscription and the receive loop of `__listen_events`.
 */
module Event {
  import opened Base
  import opened Netlink
  import opened Iw

  /** `struct print_event_args`: dump whole frames (-f), print timestamps (-t). */
  datatype EventArgs = EventArgs(frame: bool, time: bool)

  /** The flag loop of `print_events` over the tokens after the command name. */
  function ParseFlags(tokens: seq<string>, acc: EventArgs): (r: Option<EventArgs>)
    ensures r.Some? <==> forall i | 0 <= i < |tokens| :: tokens[i] == "-f" || tokens[i] == "-t"
    ensures r.Some? ==> (r.value.frame <==> acc.frame || "-f" in tokens)
    ensures r.Some? ==> (r.value.time <==> acc.time || "-t" in tokens)
  {
    if |tokens| == 0 then Some(acc)
    else if tokens[0] == "-f" then ParseFlags(tokens[1..], acc.(frame := true))
    else if tokens[0] == "-t" then ParseFlags(tokens[1..], acc.(time := true))
    else None
  }

  /**
   `print_events` argument handling: the first token (the command name) is
   skipped, and every later token must be "-f" or "-t", in any order and
   any number of times. None stands for the return value 1. With no token
   at all the decremented count is -1, so the final `if (argc)` also
   returns 1.
   */
  function ParseEventFlags(argv: seq<string>): (r: Option<EventArgs>)
    ensures r.Some? <==> |argv| >= 1 && forall i | 1 <= i < |argv| :: argv[i] == "-f" || argv[i] == "-t"
    ensures r.Some? ==> (r.value.frame <==> "-f" in argv[1..]) && (r.value.time <==> "-t" in argv[1..])
  {
    if |argv| == 0 then None
    else
      var r := ParseFlags(argv[1..], EventArgs(false, false));
      assert (forall i | 0 <= i < |argv[1..]| :: argv[1..][i] == "-f" || argv[1..][i] == "-t")
             <==> (forall i | 1 <= i < |argv| :: argv[i] == "-f" || argv[i] == "-t");
      r
  }

  /**
   The fixed field `print_frame` decodes for a management frame subtype
   (`frame[0] & 0xfc`), with its byte offset: the status code of an
   (re)association response and of an authentication frame, the reason code
   of a disassociation or deauthentication frame (sections 7.2.3.5, 7.2.3.1,
   7.2.3.3, 7.2.3.10 and 7.2.3.12 of IEEE 802.11-2007).
   */
  datatype FieldSpec = NoFieldSpec | StatusAt(off: nat) | ReasonAt(off: nat)

  /** `frame[0] & 0xfc`: the type and subtype bits of the frame control field. */
  function Subtype(fc: byte): (s: byte)
    ensures s % 4 == 0 && fc - s < 4
  {
    fc - fc % 4
  }

  /**
   The response frames carry a status code after their fixed fields: at
   byte 26 for an (re)association response (after capability information)
   and at byte 28 for an authentication frame (after algorithm and
   sequence number); a disassociation or deauthentication frame carries its
   reason code first, at byte 24. Every other subtype has nothing decoded.
   The two low bits of the frame control byte (the protocol version) do not
   matter.
   */
  function FieldOf(fc: byte): (f: FieldSpec)
    ensures f.StatusAt? <==> Subtype(fc) in {0x10, 0x30, 0xb0}
    ensures f.ReasonAt? <==> Subtype(fc) in {0xa0, 0xc0}
    ensures f.StatusAt? ==> f.off == (if Subtype(fc) == 0xb0 then 28 else 26)
    ensures f.ReasonAt? ==> f.off == 24
    ensures f == FieldOf(Subtype(fc))
  {
    var s := Subtype(fc);
    if s == 0x10 || s == 0x30 then StatusAt(26)
    else if s == 0xb0 then StatusAt(28)
    else if s == 0xa0 || s == 0xc0 then ReasonAt(24)
    else NoFieldSpec
  }

  /** `print_frame`'s length check: frames shorter than this are invalid. */
  const MinFrame: nat := 26

  /** The decoded fixed field. */
  datatype FrameField = NoField | Status(status: u16) | Reason(reason: u16)

  /**
   What `print_frame` prints: the "[no frame]" note, an invalid (short)
   frame with its hex dump, or the two addresses (transmitter, then
   receiver), the decoded field, and the hex dump when -f was given. The
   as-written reading adds the two ways it goes wrong: the missing frame is
   dereferenced anyway, and a field is read past the frame's end.
   */
  datatype FrameLine =
    | NoFrame
    | Invalid(bytes: seq<byte>)
    | Decoded(from: Mac, to: Mac, field: FrameField, dump: Option<seq<byte>>)
    | NullFrameRead
    | ReadsPastFrame(needed: nat, len: nat)

  /** The larger of two lengths. */
  function AtLeast(a: nat, b: nat): nat {
    if a > b then a else b
  }

  /** The bytes a frame must have for everything `print_frame` reads from it. */
  function Needed(fc: byte): (n: nat)
    ensures n >= MinFrame
    ensures Subtype(fc) == 0x10 || Subtype(fc) == 0x30 ==> n == 28
    ensures Subtype(fc) == 0xb0 ==> n == 30
    ensures Subtype(fc) !in {0x10, 0x30, 0xb0} ==> n == MinFrame
  {
    match FieldOf(fc)
    case NoFieldSpec => MinFrame
    case StatusAt(o) => AtLeast(o + 2, MinFrame)
    case ReasonAt(o) => AtLeast(o + 2, MinFrame)
  }

  /** The addresses, field and optional dump of a frame long enough for its field. */
  function DecodeFrame(frame: seq<byte>, full: bool): (l: FrameLine)
    requires |frame| > 0 && |frame| >= Needed(frame[0])
    ensures l.Decoded? && l.from == frame[10..16] && l.to == frame[4..10]
    ensures l.dump == (if full then Some(frame) else None)
  {
    var field :=
      match FieldOf(frame[0])
      case NoFieldSpec => NoField
      case StatusAt(o) => Status(LittleEndian16(frame[o], frame[o + 1]))
      case ReasonAt(o) => Reason(LittleEndian16(frame[o], frame[o + 1]));
    Decoded(frame[10..16], frame[4..10], field, if full then Some(frame) else None)
  }

  /**
   `print_frame` as written: a missing frame is noted and then read
   anyway; a frame of fewer than 26 bytes is invalid and dumped; otherwise
   the status of an (re)association response is read from bytes 26-27 and
   that of an authentication frame from bytes 28-29, although only 26 bytes
   were checked.
   */
  function PrintFrameAsWritten(frame: Option<seq<byte>>, full: bool): (l: FrameLine)
    ensures frame.None? <==> l.NullFrameRead?
    ensures l.ReadsPastFrame? <==> frame.Some? && MinFrame <= |frame.value| < Needed(frame.value[0])
  {
    match frame
    case None => NullFrameRead
    case Some(f) =>
      if |f| < MinFrame then Invalid(f)
      else if |f| < Needed(f[0]) then ReadsPastFrame(Needed(f[0]), |f|)
      else DecodeFrame(f, full)
  }

  /**
   `print_frame` with the checks its reads need: a missing frame prints
   only the note, and a frame too short for the field its subtype carries
   is treated like any other short frame: reported invalid and dumped.
   */
  function PrintFrame(frame: Option<seq<byte>>, full: bool): (l: FrameLine)
    ensures frame.None? <==> l.NoFrame?
    ensures l.Invalid? <==> frame.Some? && (|frame.value| < MinFrame || |frame.value| < Needed(frame.value[0]))
    ensures l.Invalid? ==> l.bytes == frame.value
    ensures !l.NullFrameRead? && !l.ReadsPastFrame?
  {
    match frame
    case None => NoFrame
    case Some(f) =>
      if |f| < MinFrame || |f| < Needed(f[0]) then Invalid(f)
      else DecodeFrame(f, full)
  }

  /** Wherever the as-written code reads only what is there, the corrected one prints the same. */
  lemma PrintFrameAgrees(frame: seq<byte>, full: bool)
    requires |frame| < MinFrame || |frame| >= Needed(frame[0])
    ensures PrintFrameAsWritten(Some(frame), full) == PrintFrame(Some(frame), full)
  {
  }

  /**
   A 26-byte authentication frame passes the length check, and its status
   field, bytes 28-29, lies past its end; likewise bytes 26-27 of a 26-byte
   association response.
   */
  lemma PrintFrameAsWrittenOverreads(f: seq<byte>)
    requires |f| == 26 && (Subtype(f[0]) == 0xb0 || Subtype(f[0]) == 0x10)
    ensures PrintFrameAsWritten(Some(f), false).ReadsPastFrame?
    ensures PrintFrame(Some(f), false) == Invalid(f)
  {
  }

  /** A deauthentication or disassociation event without a frame attribute reaches `print_frame` with NULL. */
  lemma PrintFrameAsWrittenNull(full: bool)
    ensures PrintFrameAsWritten(None, full) == NullFrameRead
    ensures PrintFrame(None, full) == NoFrame
  {
  }

  /** The two little-endian bytes of a 16-bit field. */
  function Le16Bytes(v: u16): (b: seq<byte>)
    ensures |b| == 2 && LittleEndian16(b[0], b[1]) == v
  {
    [v % 0x100, v / 0x100]
  }

  /**
   The 24-byte management frame header (section 7.2.3 of IEEE
   802.11-2007): frame control, duration, destination (address 1), source
   (address 2), BSSID, sequence control.
   */
  datatype MgmtHeader = MgmtHeader(fc: byte, flags: byte, duration: u16, addr1: Mac, addr2: Mac, bssid: Mac, seqCtl: u16)

  function HeaderBytes(h: MgmtHeader): (b: seq<byte>)
    ensures |b| == 24 && b[0] == h.fc
  {
    [h.fc, h.flags] + Le16Bytes(h.duration) + h.addr1 + h.addr2 + h.bssid + Le16Bytes(h.seqCtl)
  }

  /**
   A frame built from a header and a body that carries the subtype's
   field: the summary names address 2 as the sender and address 1 as the
   receiver and decodes the field's value.
   */
  lemma {:induction false} PrintFrameOfBuiltFrame(h: MgmtHeader, body: seq<byte>, v: u16, full: bool)
    requires 24 + |body| >= Needed(h.fc)
    requires FieldOf(h.fc).StatusAt? || FieldOf(h.fc).ReasonAt? ==>
               body[FieldOf(h.fc).off - 24..FieldOf(h.fc).off - 22] == Le16Bytes(v)
    ensures var l := PrintFrame(Some(HeaderBytes(h) + body), full);
            l.Decoded? && l.from == h.addr2 && l.to == h.addr1
            && l.field == (match FieldOf(h.fc)
                           case NoFieldSpec => NoField
                           case StatusAt(_) => Status(v)
                           case ReasonAt(_) => Reason(v))
  {
    var f := HeaderBytes(h) + body;
    assert f[..24] == HeaderBytes(h);
    assert f[10..16] == h.addr2;
    assert f[4..10] == h.addr1;
    match FieldOf(h.fc)
    case NoFieldSpec =>
    case StatusAt(o) =>
      assert f[o] == body[o - 24] && f[o + 1] == body[o - 23];
      assert body[o - 24] == Le16Bytes(v)[0] && body[o - 23] == Le16Bytes(v)[1];
    case ReasonAt(o) =>
      assert f[o] == body[o - 24] && f[o + 1] == body[o - 23];
      assert body[o - 24] == Le16Bytes(v)[0] && body[o - 23] == Le16Bytes(v)[1];
  }

  /** The MLME events `print_event` summarises with a frame. */
  datatype MlmeCmd = Authenticate | Associate | Deauthenticate | Disassociate

  datatype MlmeLine = FrameSummary(line: FrameLine) | TimedOut | UnknownEvent

  /**
   `print_event` for the MLME commands: authentication and association
   events print the frame when there is one, else "timed out" when that flag
   is present, else "unknown event"; deauthentication and disassociation
   always call the frame printer, with or without a frame. `asWritten`
   selects the frame printer: the one as written or the corrected one.
   */
  function MlmeEventWith(cmd: MlmeCmd, frame: Option<seq<byte>>, timedOut: bool, full: bool, asWritten: bool): (l: MlmeLine)
    ensures (cmd == Deauthenticate || cmd == Disassociate) ==> l.FrameSummary?
    ensures frame.Some? ==> l.FrameSummary?
    ensures l.TimedOut? <==> (cmd == Authenticate || cmd == Associate) && frame.None? && timedOut
    ensures l.FrameSummary? ==> l.line == (if asWritten then PrintFrameAsWritten(frame, full) else PrintFrame(frame, full))
  {
    var summary := if asWritten then PrintFrameAsWritten(frame, full) else PrintFrame(frame, full);
    match cmd
    case Authenticate | Associate =>
      if frame.Some? then FrameSummary(summary)
      else if timedOut then TimedOut
      else UnknownEvent
    case Deauthenticate | Disassociate => FrameSummary(summary)
  }

  /** The MLME summary as the code is written. */
  function MlmeEventAsWritten(cmd: MlmeCmd, frame: Option<seq<byte>>, timedOut: bool, full: bool): (l: MlmeLine)
    ensures (cmd == Deauthenticate || cmd == Disassociate) && frame.None? ==> l == FrameSummary(NullFrameRead)
  {
    MlmeEventWith(cmd, frame, timedOut, full, true)
  }

  /** The MLME summary with the corrected frame printer, which never reads what is not there. */
  function MlmeEvent(cmd: MlmeCmd, frame: Option<seq<byte>>, timedOut: bool, full: bool): (l: MlmeLine)
    ensures l.FrameSummary? ==> !l.line.NullFrameRead? && !l.line.ReadsPastFrame?
    ensures (cmd == Deauthenticate || cmd == Disassociate) && frame.None? ==> l == FrameSummary(NoFrame)
  {
    MlmeEventWith(cmd, frame, timedOut, full, false)
  }

  /**
   `wait_event`: compare the received command with every entry of the wait
   set and record it when it matches one; otherwise the recorded command is
   left as it was.
   */
  method WaitEvent(waits: seq<u32>, recorded: u32, cmd: u32) returns (r: u32)
    ensures cmd in waits ==> r == cmd
    ensures cmd !in waits ==> r == recorded
  {
    r := recorded;
    var i := 0;
    while i < |waits|
      invariant 0 <= i <= |waits|
      invariant cmd in waits[..i] ==> r == cmd
      invariant cmd !in waits[..i] ==> r == recorded
    {
      if cmd == waits[i] {
        r := cmd;
      }
      i := i + 1;
      assert waits[..i] == waits[..i - 1] + [waits[i - 1]];
    }
    assert waits[..i] == waits;
  }

  /**
   One `nl_recvmsgs` in wait mode: `wait_event` runs for each message of
   the batch in turn, so the last matching command of the batch is the one
   recorded.
   */
  function RecordBatch(waits: seq<u32>, recorded: u32, batch: seq<u32>): (r: u32)
    ensures r == (match LastAwaited(waits, batch) case Some(k) => batch[k] case None => recorded)
    ensures (forall i | 0 <= i < |batch| :: batch[i] !in waits) ==> r == recorded
    ensures (exists i | 0 <= i < |batch| :: batch[i] in waits) ==> r in waits
    ensures (exists i | 0 <= i < |batch| :: batch[i] in waits) ==>
              exists k | 0 <= k < |batch| :: r == batch[k] && batch[k] in waits && forall j | k < j < |batch| :: batch[j] !in waits
    ensures r == recorded || r in waits
  {
    if |batch| == 0 then recorded
    else
      var init := batch[..|batch| - 1];
      var prev := RecordBatch(waits, recorded, init);
      var c := batch[|batch| - 1];
      if c in waits then c
      else
        assert LastAwaited(waits, batch) == LastAwaited(waits, init);
        assert LastAwaited(waits, init).Some? ==> init[LastAwaited(waits, init).value] == batch[LastAwaited(waits, init).value];
        prev
  }

  /** The position of the last awaited command in a batch, searched from the end. */
  function LastAwaited(waits: seq<u32>, batch: seq<u32>): (k: Option<nat>)
    ensures k.None? <==> forall i | 0 <= i < |batch| :: batch[i] !in waits
    ensures k.Some? ==> k.value < |batch| && batch[k.value] in waits
                        && forall j | k.value < j < |batch| :: batch[j] !in waits
  {
    if |batch| == 0 then None
    else if batch[|batch| - 1] in waits then Some(|batch| - 1)
    else
      var init := batch[..|batch| - 1];
      assert forall i | 0 <= i < |init| :: init[i] == batch[i];
      LastAwaited(waits, init)
  }

  /** How the receive loop stands after the batches seen: woken with a command after k batches, or still listening. */
  datatype Listened = Woken(cmd: u32, after: nat) | Listening

  /**
   `while (!wait_ev.cmd) nl_recvmsgs(…)`: the loop stops only once a
   non-zero command has been recorded, and returns it.
   */
  function ListenLoop(waits: seq<u32>, recorded: u32, batches: seq<seq<u32>>): (r: Listened)
    ensures r.Woken? ==> r.cmd != 0 && (r.cmd == recorded || r.cmd in waits) && r.after <= |batches|
    ensures recorded == 0 && (forall i | 0 <= i < |waits| :: waits[i] == 0) ==> r.Listening?
    decreases |batches|
  {
    if recorded != 0 then Woken(recorded, 0)
    else if |batches| == 0 then Listening
    else
      match ListenLoop(waits, RecordBatch(waits, recorded, batches[0]), batches[1..])
      case Woken(c, k) => Woken(c, k + 1)
      case Listening => Listening
  }

  /**
   When 0 is not awaited, the first batch that carries an awaited command
   wakes the loop, at the latest right after that batch.
   */
  lemma {:induction false} ListenWakesOnMatch(waits: seq<u32>, recorded: u32, batches: seq<seq<u32>>, j: nat, m: nat)
    requires 0 !in waits
    requires j < |batches| && m < |batches[j]| && batches[j][m] in waits
    ensures ListenLoop(waits, recorded, batches).Woken?
    ensures ListenLoop(waits, recorded, batches).after <= j + 1
    decreases |batches|
  {
    if recorded == 0 {
      var next := RecordBatch(waits, recorded, batches[0]);
      if j == 0 {
        assert next in waits;
      } else {
        ListenWakesOnMatch(waits, next, batches[1..], j - 1, m);
      }
    }
  }

  /** The multicast groups `__listen_events` joins, in order. */
  datatype McGroup = ConfigGroup | ScanGroup | RegulatoryGroup | MlmeGroup

  /** A group that is optional is joined only when its id lookup succeeds; a failed join aborts. */
  predicate OptionalGroupOk(lookup: McGroup -> int, join: McGroup -> int, g: McGroup) {
    lookup(g) < 0 || join(g) == 0
  }

  datatype Subscription = Subscribed(scan: bool, regulatory: bool, mlme: bool) | SubscribeFailed(code: int)

  /**
   The group subscriptions of `__listen_events`. `lookup(g)` is what
   `nl_get_multicast_id` returns for g and `join(g)` what
   `nl_socket_add_membership` returns. A failed lookup of "config" is
   returned as it is, and so is a failed join of any group; "scan",
   "regulatory" and "mlme" are skipped when their lookup fails.
   */
  function Subscribe(lookup: McGroup -> int, join: McGroup -> int): (s: Subscription)
    ensures lookup(ConfigGroup) < 0 ==> s == SubscribeFailed(lookup(ConfigGroup))
    ensures s.Subscribed? <==> lookup(ConfigGroup) >= 0 && join(ConfigGroup) == 0
                               && OptionalGroupOk(lookup, join, ScanGroup)
                               && OptionalGroupOk(lookup, join, RegulatoryGroup)
                               && OptionalGroupOk(lookup, join, MlmeGroup)
    ensures s.Subscribed? ==> (s.scan <==> lookup(ScanGroup) >= 0) && (s.regulatory <==> lookup(RegulatoryGroup) >= 0)
                              && (s.mlme <==> lookup(MlmeGroup) >= 0)
    ensures s.SubscribeFailed? ==> s.code != 0
  {
    if lookup(ConfigGroup) < 0 then SubscribeFailed(lookup(ConfigGroup))
    else if join(ConfigGroup) != 0 then SubscribeFailed(join(ConfigGroup))
    else if lookup(ScanGroup) >= 0 && join(ScanGroup) != 0 then SubscribeFailed(join(ScanGroup))
    else if lookup(RegulatoryGroup) >= 0 && join(RegulatoryGroup) != 0 then SubscribeFailed(join(RegulatoryGroup))
    else if lookup(MlmeGroup) >= 0 && join(MlmeGroup) != 0 then SubscribeFailed(join(MlmeGroup))
    else Subscribed(lookup(ScanGroup) >= 0, lookup(RegulatoryGroup) >= 0, lookup(MlmeGroup) >= 0)
  }

  /** The groups tried after "config", in order; each is skipped when its lookup fails. */
  const OptionalGroups: seq<McGroup> := [ScanGroup, RegulatoryGroup, MlmeGroup]

  datatype Joined = JoinedGroups(groups: seq<McGroup>) | JoinFailed(code: int)

  /**
   Joining groups one after the other: a group whose lookup fails is
   skipped, the first failed join stops everything with its code, and
   otherwise the groups joined are listed in order.
   */
  function JoinInOrder(lookup: McGroup -> int, join: McGroup -> int, gs: seq<McGroup>): (j: Joined)
    ensures j.JoinedGroups? ==> forall g :: g in j.groups <==> g in gs && lookup(g) >= 0
  {
    if |gs| == 0 then JoinedGroups([])
    else if lookup(gs[0]) >= 0 && join(gs[0]) != 0 then JoinFailed(join(gs[0]))
    else
      match JoinInOrder(lookup, join, gs[1..])
      case JoinFailed(c) => JoinFailed(c)
      case JoinedGroups(rest) => JoinedGroups((if lookup(gs[0]) >= 0 then [gs[0]] else []) + rest)
  }

  /**
   The subscription is "config" (whose failed lookup is fatal too) followed
   by the optional groups joined in order: the failure reported is that of
   the first group that fails, and the groups subscribed are those joined.
   */
  lemma SubscribeJoinsInOrder(lookup: McGroup -> int, join: McGroup -> int)
    ensures Subscribe(lookup, join) ==
      if lookup(ConfigGroup) < 0 then SubscribeFailed(lookup(ConfigGroup))
      else if join(ConfigGroup) != 0 then SubscribeFailed(join(ConfigGroup))
      else match JoinInOrder(lookup, join, OptionalGroups)
           case JoinFailed(c) => SubscribeFailed(c)
           case JoinedGroups(gs) => Subscribed(ScanGroup in gs, RegulatoryGroup in gs, MlmeGroup in gs)
  {
    assert OptionalGroups[1..] == [RegulatoryGroup, MlmeGroup];
    assert OptionalGroups[1..][1..] == [MlmeGroup];
    assert OptionalGroups[1..][1..][1..] == [];
  }

  /** `__listen_events` has not returned (yet), or has returned this 32-bit value. */
  datatype ListenOutcome = Stopped(value: u32) | StillListening

  /**
   `__listen_events`: callback allocation failure returns -ENOMEM and a
   subscription failure its code, both as 32-bit unsigned values; with a
   non-empty wait set the loop runs `wait_event` until an awaited non-zero
   command arrives, otherwise it prints events and never returns.
   */
  function ListenEvents(cbOk: bool, lookup: McGroup -> int, join: McGroup -> int,
                        waits: seq<u32>, batches: seq<seq<u32>>): (r: ListenOutcome)
    ensures !cbOk ==> r == Stopped(ToU32(-ENOMEM))
    ensures cbOk && Subscribe(lookup, join).SubscribeFailed? ==> r == Stopped(ToU32(Subscribe(lookup, join).code))
    ensures cbOk && Subscribe(lookup, join).Subscribed? && |waits| == 0 ==> r == StillListening
    ensures cbOk && Subscribe(lookup, join).Subscribed? && r.Stopped? ==> r.value in waits && r.value != 0
  {
    if !cbOk then Stopped(ToU32(-ENOMEM))
    else
      match Subscribe(lookup, join)
      case SubscribeFailed(c) => Stopped(ToU32(c))
      case Subscribed(_, _, _) =>
        if |waits| == 0 then StillListening
        else
          match ListenLoop(waits, 0, batches)
          case Woken(c, _) => Stopped(c)
          case Listening => StillListening
  }

  /** What `print_events` ends with: a status, or monitoring for good. */
  datatype EventsOutcome = EventsStatus(status: int) | Monitoring(args: EventArgs)

  /**
   `print_events`: bad flags return 1; otherwise events are printed for
   good, unless setting up the listener fails, whose code comes back
   through the unsigned return of `__listen_events`.
   */
  function PrintEvents(argv: seq<string>, cbOk: bool, lookup: McGroup -> int, join: McGroup -> int): (r: EventsOutcome)
    ensures ParseEventFlags(argv).None? ==> r == EventsStatus(1)
    ensures r.Monitoring? <==> ParseEventFlags(argv).Some? && cbOk && Subscribe(lookup, join).Subscribed?
    ensures r.Monitoring? ==> r.args == ParseEventFlags(argv).value
    ensures ParseEventFlags(argv).Some? && !cbOk ==> r == EventsStatus(-ENOMEM)
    ensures ParseEventFlags(argv).Some? && cbOk && Subscribe(lookup, join).SubscribeFailed?
            && -0x8000_0000 <= Subscribe(lookup, join).code < 0
            ==> r == EventsStatus(Subscribe(lookup, join).code)
  {
    match ParseEventFlags(argv)
    case None => EventsStatus(1)
    case Some(args) =>
      match ListenEvents(cbOk, lookup, join, [], [])
      case Stopped(v) =>
        var s := ToInt32(v);
        assert !cbOk ==> s == -ENOMEM;
        EventsStatus(s)
      case StillListening => Monitoring(args)
  }
}
