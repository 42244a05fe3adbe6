/**
 The request/acknowledgement exchange that station.c, mpath.c and reg.c
 run after building a request: send it, read replies with `nl_recvmsgs`
 until a callback stops the read, and, when no acknowledgement marked the
 exchange finished, wait for one more acknowledgement.

 The socket is replaced by the sequence of frames it delivers. The read
 loop is libnl's, which is not part of this model; its behaviour here is
 the one the handlers rely on: data frames go to the print callback and the
 read goes on, an acknowledgement or the end of a dump ends the read (the
 installed `wait_handler` also sets `finished`), an error frame reaches the
 installed `error_handler`, which ends the process with `exit(code)`, or
 otherwise ends the read with that code.
 */
module Exchange {
  import opened Base
  import opened Netlink

  datatype Frame =
    | Data                   // a reply message, handed to the print callback
    | Ack                    // an acknowledgement (error message with code 0)
    | Finish                 // the end of a multi-part dump (NLMSG_DONE)
    | ErrorMsg(code: int)    // an error message with a non-zero code
    | SocketError(code: int) // the read itself fails with a negative code

  /** Which custom callbacks a handler installs before reading. */
  datatype Callbacks = Callbacks(ackSetsFinished: bool, finishSetsFinished: bool, errorExits: bool)

  /** get/set handlers: `wait_handler` on ACK and the exiting `error_handler` (station.c:171-173). */
  const AckCallbacks := Callbacks(true, false, true)

  /** dump handlers: `wait_handler` on FINISH only (station.c:285-286, mpath.c:258-259). */
  const DumpCallbacks := Callbacks(false, true, false)

  /**
   End of one `nl_recvmsgs`: the value it returns, whether `finished` was
   set, and how many data frames the print callback saw; or the process
   exit an error callback caused.
   */
  datatype Received = Received(err: int, finished: bool, delivered: nat) | Exit(code: int, delivered: nat)

  function Receive(frames: seq<Frame>, cbs: Callbacks): (r: Received)
    ensures !cbs.errorExits ==> r.Received?
    ensures r.delivered <= |frames|
  {
    if |frames| == 0 then Received(0, false, 0)
    else
      match frames[0]
      case Data =>
        var r := Receive(frames[1..], cbs);
        r.(delivered := r.delivered + 1)
      case Ack => Received(0, cbs.ackSetsFinished, 0)
      case Finish => Received(0, cbs.finishSetsFinished, 0)
      case ErrorMsg(c) => if cbs.errorExits then Exit(c, 0) else Received(c, false, 0)
      case SocketError(c) => Received(c, false, 0)
  }

  /** Index of the first frame that is not data: where the read stops. */
  function FirstControl(frames: seq<Frame>): (k: nat)
    ensures k <= |frames|
    ensures forall i | 0 <= i < k :: frames[i] == Data
    ensures k < |frames| ==> frames[k] != Data
  {
    if |frames| == 0 || frames[0] != Data then 0 else 1 + FirstControl(frames[1..])
  }

  /** What the read makes of the frame it stops at, or of running out of frames. */
  function Stop(f: Option<Frame>, cbs: Callbacks, n: nat): Received
  {
    match f
    case None => Received(0, false, n)
    case Some(Data) => Received(0, false, n)
    case Some(Ack) => Received(0, cbs.ackSetsFinished, n)
    case Some(Finish) => Received(0, cbs.finishSetsFinished, n)
    case Some(ErrorMsg(c)) => if cbs.errorExits then Exit(c, n) else Received(c, false, n)
    case Some(SocketError(c)) => Received(c, false, n)
  }

  /**
   The read is decided by its first non-data frame alone: every data frame
   before it is delivered, and nothing after it is looked at.
   */
  lemma {:induction false} ReceiveStopsAtFirstControl(frames: seq<Frame>, cbs: Callbacks)
    ensures var k := FirstControl(frames);
            Receive(frames, cbs) == Stop(if k < |frames| then Some(frames[k]) else None, cbs, k)
  {
    if |frames| > 0 && frames[0] == Data {
      ReceiveStopsAtFirstControl(frames[1..], cbs);
    }
  }

  function Datas(n: nat): (s: seq<Frame>)
    ensures |s| == n && forall i | 0 <= i < n :: s[i] == Data
  {
    seq(n, _ => Data)
  }

  /**
   An acknowledgement after n data frames sets `finished` and stops the read
   with 0, whatever follows it; the print callback ran n times.
   */
  lemma AckStopsRead(n: nat, rest: seq<Frame>)
    ensures Receive(Datas(n) + [Ack] + rest, AckCallbacks) == Received(0, true, n)
  {
    var frames := Datas(n) + [Ack] + rest;
    ReceiveStopsAtFirstControl(frames, AckCallbacks);
    assert frames[n] == Ack;
    assert forall i | 0 <= i < n :: frames[i] == Data;
    assert FirstControl(frames) == n;
  }

  /**
   A dump peer that sends n data frames and then the end marker: the
   callback runs exactly n times and the read ends with 0.
   */
  lemma DumpDeliversEveryFrame(n: nat)
    ensures Receive(Datas(n) + [Finish], DumpCallbacks) == Received(0, true, n)
  {
    var frames := Datas(n) + [Finish];
    ReceiveStopsAtFirstControl(frames, DumpCallbacks);
    assert frames[n] == Finish;
    assert forall i | 0 <= i < n :: frames[i] == Data;
    assert FirstControl(frames) == n;
  }

  /** An error frame before any data ends the process with that code, and no frame was printed. */
  lemma ErrorFirstExits(c: int, rest: seq<Frame>)
    ensures Receive([ErrorMsg(c)] + rest, AckCallbacks) == Exit(c, 0)
  {
  }

  /**
   The send/receive tail of a handler that waits for an acknowledgement.
   Callback allocation or send failure returns `failure`; an error frame
   exits; otherwise, if no acknowledgement set `finished`, one more
   acknowledgement wait (`ackWait`, the result of `nl_wait_for_ack`) replaces
   the read's result, and the handler returns 0 exactly when the final value
   is not negative.
   */
  datatype Session = Session(allocOk: bool, sendErr: int, frames: seq<Frame>, ackWait: int)

  function FinalErr(r: Received, ackWait: int): int
    requires r.Received?
  {
    if r.finished then r.err else ackWait
  }

  function AckedExchange(s: Session, failure: int): (o: Outcome)
    requires failure != 0
    ensures o.Exited? <==> s.allocOk && s.sendErr >= 0 && Receive(s.frames, AckCallbacks).Exit?
    ensures o.Exited? ==> o.code == Receive(s.frames, AckCallbacks).code
    ensures o == Returned(0) <==> s.allocOk && s.sendErr >= 0 && Receive(s.frames, AckCallbacks).Received?
                                  && FinalErr(Receive(s.frames, AckCallbacks), s.ackWait) >= 0
    ensures o.Returned? && o.status != 0 ==> o.status == failure
  {
    if !s.allocOk || s.sendErr < 0 then Returned(failure)
    else
      match Receive(s.frames, AckCallbacks)
      case Exit(c, _) => Exited(c)
      case Received(err, finished, _) =>
        var final := if finished then err else s.ackWait;
        if final < 0 then Returned(failure) else Returned(0)
  }

  /** An acknowledged exchange succeeds whatever the extra wait would have returned. */
  lemma AckedExchangeIgnoresWaitWhenFinished(s: Session, n: nat, failure: int)
    requires failure != 0
    requires s.allocOk && s.sendErr >= 0
    requires s.frames == Datas(n) + [Ack]
    ensures AckedExchange(s, failure) == Returned(0)
  {
    AckStopsRead(n, []);
    assert Datas(n) + [Ack] + [] == s.frames;
  }

  /**
   Without an acknowledgement the extra wait decides: a read that ran out
   of frames succeeds exactly when `nl_wait_for_ack` does.
   */
  lemma UnfinishedReadDefersToAckWait(s: Session, n: nat, failure: int)
    requires failure != 0
    requires s.allocOk && s.sendErr >= 0
    requires s.frames == Datas(n)
    ensures AckedExchange(s, failure) == (if s.ackWait < 0 then Returned(failure) else Returned(0))
  {
    ReceiveStopsAtFirstControl(s.frames, AckCallbacks);
  }

  /**
   The tail of the dump handlers: no extra wait and no exiting error
   handler; the result is 0 when the read returned a non-negative value.
   */
  function DumpExchange(s: Session, failure: int): (o: Outcome)
    requires failure != 0
    ensures o.Returned?
    ensures o.status == 0 <==> s.allocOk && s.sendErr >= 0 && Receive(s.frames, DumpCallbacks).err >= 0
    ensures o.status != 0 ==> o.status == failure
  {
    if !s.allocOk || s.sendErr < 0 then Returned(failure)
    else
      match Receive(s.frames, DumpCallbacks)
      case Exit(_, _) => Returned(failure)
      case Received(err, _, _) => if err < 0 then Returned(failure) else Returned(0)
  }
}
