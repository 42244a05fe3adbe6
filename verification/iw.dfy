/**
 The shared declarations of iw.h: the command descriptor that every
 `COMMAND`/`TOPLEVEL` line registers, the kind of object a command
 addresses, the handler status convention and the MAC address length.
 */
module Iw {
  import opened Base
  import opened Netlink

  /** `ETH_ALEN`: a MAC address is six bytes. */
  const EthAlen: nat := 6

  type Mac = m: seq<byte> | |m| == EthAlen witness [0, 0, 0, 0, 0, 0]

  /** `enum command_identify_by`: the object a command is addressed to. */
  datatype IdentifyBy = CibNone | CibPhy | CibNetdev

  /** The enumerator's integer value. */
  function IdentifyByValue(k: IdentifyBy): (n: nat)
    ensures n < 3
  {
    match k
    case CibNone => 0
    case CibPhy => 1
    case CibNetdev => 2
  }

  /** The enumerator with integer value n, if any. */
  function IdentifyByOf(n: int): (k: Option<IdentifyBy>)
    ensures k.Some? <==> 0 <= n < 3
  {
    if n == 0 then Some(CibNone)
    else if n == 1 then Some(CibPhy)
    else if n == 2 then Some(CibNetdev)
    else None
  }

  /** The three enumerators are exactly the values 0, 1, 2, and each value names exactly one. */
  lemma IdentifyByExact(k: IdentifyBy, n: int)
    ensures IdentifyByOf(IdentifyByValue(k)) == Some(k)
    ensures IdentifyByOf(n) == Some(k) <==> n == IdentifyByValue(k)
  {
  }

  /**
   The handlers registered by the command table. A handler is referred to,
   not modelled here; each one is modelled in the module of its source file.
   */
  datatype HandlerRef =
    | HandleScan | HandleScanDump | PrintEvents | HandleInfo
    | HandleStationGet | HandleStationSet | HandleStationDump
    | HandleMpathGet | HandleMpathSet | HandleMpathDump
    | JoinIbss | LeaveIbss | IwConnect | Disconnect

  /**
   `struct cmd`: group (section), name, usage text, opcode, message flags,
   target kind, handler, and the optional help text that later command
   tables pass as an eighth macro argument. Descriptors are immutable values:
   `COMMAND(section, name, …)` gives `section == Some(section)`, and
   `TOPLEVEL(name, …)` a descriptor with no group (`None`).
   */
  datatype Cmd = Cmd(
    section: Option<string>,
    name: string,
    args: Option<string>,
    cmd: NlCmd,
    flags: nat,
    idby: IdentifyBy,
    handler: HandlerRef,
    help: Option<string>)

  /**
   The handler status convention: a negative error code, zero on success,
   1 when the arguments were wrong and usage should be shown, and 2 (or
   more) for any other failure.
   */
  datatype Status = ErrorCode(code: int) | Success | BadArguments | OtherFailure(code: int)

  predicate WellFormedStatus(s: Status) {
    match s
    case ErrorCode(c) => c < 0
    case OtherFailure(c) => c >= 2
    case _ => true
  }

  function Classify(r: int): (s: Status)
    ensures WellFormedStatus(s)
    ensures s.ErrorCode? <==> r < 0
    ensures s.Success? <==> r == 0
    ensures s.BadArguments? <==> r == 1
    ensures s.OtherFailure? <==> r >= 2
  {
    if r < 0 then ErrorCode(r)
    else if r == 0 then Success
    else if r == 1 then BadArguments
    else OtherFailure(r)
  }

  function StatusValue(s: Status): int {
    match s
    case ErrorCode(c) => c
    case Success => 0
    case BadArguments => 1
    case OtherFailure(c) => c
  }

  /** Classification loses nothing: it is a bijection between return values and well-formed statuses. */
  lemma ClassifyRoundTrip(r: int, s: Status)
    ensures StatusValue(Classify(r)) == r
    ensures WellFormedStatus(s) ==> Classify(StatusValue(s)) == s
  {
  }
}
