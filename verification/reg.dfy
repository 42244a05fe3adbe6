/**
 reg.c: `reg set <ISO/IEC 3166-1 alpha2>`, which asks the kernel to set the
 regulatory domain. The request is the handler's own (`nlmsg_alloc`);
 after it is built the acknowledged exchange of module Exchange runs, with
 every failure returning -1.
 */
module Reg {
  import opened Base
  import opened Netlink
  import opened Exchange

  /** A character of a C string: past the end the terminating NUL is read. */
  function CharAt(s: string, i: nat): (c: char)
    ensures i < |s| ==> c == s[i]
    ensures i >= |s| ==> c == '\0'
  {
    if i < |s| then s[i] else '\0'
  }

  /** `isalpha_upper`: 'A' (65) to 'Z' (90). */
  predicate IsAlphaUpper(c: char) {
    65 <= c as int <= 90
  }

  /** `is_alpha2`: the first two characters are upper-case letters. */
  predicate IsAlpha2(t: string) {
    IsAlphaUpper(CharAt(t, 0)) && IsAlphaUpper(CharAt(t, 1))
  }

  /** `is_world_regdom`: the first two characters are both '0' (48), the world domain "00". */
  predicate IsWorldRegdom(t: string) {
    CharAt(t, 0) == '0' && CharAt(t, 1) == '0'
  }

  /** The code the handler keeps: the token's first two characters. */
  function Alpha2Of(t: string): (code: string)
    ensures |code| == 2
  {
    [CharAt(t, 0), CharAt(t, 1)]
  }

  /**
   The tokens the handler accepts are exactly those that begin with two
   upper-case letters or with "00"; anything after the first two
   characters is dropped, so "USA" sets "US".
   */
  lemma AcceptedCodes(t: string)
    ensures IsAlpha2(t) || IsWorldRegdom(t) <==>
              |t| >= 2 && ((IsAlphaUpper(t[0]) && IsAlphaUpper(t[1])) || t[..2] == "00")
    ensures IsAlpha2(t) || IsWorldRegdom(t) ==> Alpha2Of(t) == t[..2]
  {
    if |t| >= 2 {
      assert t[..2] == [t[0], t[1]];
    }
  }

  /** A handler's outcome and the request it handed to `nl_send_auto_complete`, if any. */
  datatype RegRun = RegRun(outcome: Outcome, sent: Option<Request>)

  /**
   `handle_reg_set`: -1 without a token, for a token that is neither an
   alpha2 code nor "00", or with more than one token; -1 when the message
   cannot be allocated (`allocOk`) or has no room for the code, or the
   callbacks cannot be allocated; otherwise the REQ_SET_REG request carrying
   the two characters is sent and the acknowledged exchange decides.
   */
  function RegSet(args: seq<string>, allocOk: bool, room: nat, s: Session): (r: RegRun)
    ensures |args| != 1 || !(IsAlpha2(args[0]) || IsWorldRegdom(args[0])) ==> r == RegRun(Returned(-1), None)
    ensures r.sent.Some? <==> |args| == 1 && (IsAlpha2(args[0]) || IsWorldRegdom(args[0])) && allocOk && room >= 1 && s.allocOk
    ensures r.sent.Some? ==> r.sent.value == Request(ReqSetReg, 0, [Str(RegAlpha2, Alpha2Of(args[0]))])
    ensures r.sent.Some? ==> r.outcome == AckedExchange(s, -1)
    ensures r.sent.None? ==> r.outcome == Returned(-1)
    ensures r.outcome.Returned? ==> r.outcome.status == 0 || r.outcome.status == -1
  {
    if |args| < 1 then RegRun(Returned(-1), None)
    else if !IsAlpha2(args[0]) && !IsWorldRegdom(args[0]) then RegRun(Returned(-1), None)
    else
      var alpha2 := Alpha2Of(args[0]);
      if |args| != 1 || !allocOk then RegRun(Returned(-1), None)
      else
        match Put(Msg([], room), Str(RegAlpha2, alpha2))
        case None => RegRun(Returned(-1), None)
        case Some(m) =>
          if !s.allocOk then RegRun(Returned(-1), None)
          else RegRun(AckedExchange(s, -1), Some(Request(ReqSetReg, 0, m.attrs)))
  }

  /** A two-letter code, or "00", given on its own is sent unchanged. */
  lemma RegSetOfCode(code: string, room: nat, s: Session)
    requires |code| == 2 && ((IsAlphaUpper(code[0]) && IsAlphaUpper(code[1])) || code == "00")
    requires room >= 1 && s.allocOk
    ensures RegSet([code], true, room, s) == RegRun(AckedExchange(s, -1), Some(Request(ReqSetReg, 0, [Str(RegAlpha2, code)])))
  {
    AcceptedCodes(code);
    assert code[..2] == code;
  }

  /** `handle_reg`: "set" runs `handle_reg_set` on the remaining tokens; no subcommand, or any other, is -1. */
  function HandleReg(args: seq<string>, allocOk: bool, room: nat, s: Session): (r: RegRun)
    ensures |args| > 0 && args[0] == "set" ==> r == RegSet(args[1..], allocOk, room, s)
    ensures |args| == 0 || args[0] != "set" ==> r == RegRun(Returned(-1), None)
  {
    if |args| < 1 then RegRun(Returned(-1), None)
    else if args[0] == "set" then RegSet(args[1..], allocOk, room, s)
    else RegRun(Returned(-1), None)
  }
}
