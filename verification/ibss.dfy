/**
 ibss.c: `ibss join <SSID> <freq in MHz> [fixed-freq] [<fixed bssid>]
 [key …]` and `ibss leave`. The handlers fill the message the dispatcher
 prepared and return a status; the dispatcher sends the message.

 Key parsing (`parse_keys`) is not part of this model: a join whose
 options end in "key"/"keys" hands the remaining tokens and the message to
 it, and the model stops there.
 */
module Ibss {
  import opened Base
  import opened Text
  import opened Netlink
  import opened Iw
  import opened Util

  /** How `join_ibss` ends: with a status, or by handing the key tokens and the message to `parse_keys`. */
  datatype Joined = Done(run: Run) | KeysFollow(keyArgs: seq<string>, msg: Msg)

  function JoinedAttrs(j: Joined): seq<Attr> {
    match j
    case Done(run) => run.attrs
    case KeysFollow(_, m) => m.attrs
  }

  /** SSID and frequency: the first two attributes, always appended together before the frequency text is checked. */
  function JoinHead(args: seq<string>): seq<Attr>
    requires |args| >= 2
  {
    [Bytes(SsidAttr, TokenBytes(args[0])), FreqAttr(StrToUl(args[1]).0)]
  }

  /** An optional BSSID and nothing else: the words a join without keys accepts after "fixed-freq". */
  predicate BssidWords(opts: seq<string>) {
    |opts| == 0 || (|opts| == 1 && MacFromText(opts[0]).Some?)
  }

  function BssidAttrs(opts: seq<string>): (a: seq<Attr>)
    requires BssidWords(opts)
    ensures |a| == |opts|
  {
    if |opts| == 0 then [] else [Bytes(MacAttr, MacFromText(opts[0]).value)]
  }

  /** The optional words after the frequency that a join accepts with no keys: "fixed-freq", a BSSID, or both in that order. */
  predicate JoinOptionWords(opts: seq<string>) {
    BssidWords(opts) || (|opts| >= 1 && opts[0] == "fixed-freq" && BssidWords(opts[1..]))
  }

  /** The attributes those words add. */
  function OptionAttrs(opts: seq<string>): (a: seq<Attr>)
    requires JoinOptionWords(opts)
    ensures |a| == |opts|
  {
    if |opts| >= 1 && opts[0] == "fixed-freq" then
      MacNeedsColons("fixed-freq");
      [Flag(FreqFixed)] + BssidAttrs(opts[1..])
    else BssidAttrs(opts)
  }

  predicate KeyWord(w: string) {
    w == "key" || w == "keys"
  }

  /** A "key" word at position p of the words, with the tokens after it handed on. */
  predicate KeysAt(rest: seq<string>, keyArgs: seq<string>, p: nat) {
    p < |rest| && KeyWord(rest[p]) && keyArgs == rest[p + 1..]
  }

  /**
   A token at position p that is no address but that `mac_addr_a2n` cut
   down to "key" or "keys" (such as "key:d:0:abcde"), with the tokens after
   it handed on.
   */
  predicate KeysAtCut(rest: seq<string>, keyArgs: seq<string>, p: nat) {
    p < |rest| && MacFromText(rest[p]).None? && KeyWord(A2nLeaves(rest[p])) && keyArgs == rest[p + 1..]
  }

  /**
   The token at p reads as "key"/"keys" where the join checks it: as it
   stands right after a BSSID, and otherwise only when it is no address and
   then as `mac_addr_a2n` cut it.
   */
  predicate KeyTokenAt(rest: seq<string>, p: nat)
    requires p < |rest|
  {
    if p > 0 && MacFromText(rest[p - 1]).Some? then KeyWord(rest[p])
    else MacFromText(rest[p]).None? && KeyWord(A2nLeaves(rest[p]))
  }

  /** The words before p are an optional BSSID that fits in the room, and a key token follows. */
  predicate KeysAfterBssid(rest: seq<string>, room: nat, p: nat) {
    p < |rest| && p <= room && BssidWords(rest[..p]) && KeyTokenAt(rest, p)
  }

  /** The words before p are accepted options that fit in the room, and a key token follows. */
  predicate KeysAfterOptions(rest: seq<string>, room: nat, p: nat) {
    p < |rest| && p <= room && JoinOptionWords(rest[..p]) && KeyTokenAt(rest, p)
  }

  /** The last step: no tokens left is success, "key"/"keys" hands over to `parse_keys`, anything else is a usage error. */
  function JoinKeys(m: Msg, rest: seq<string>): (r: Joined)
    ensures r == Done(Run(Returned(0), m.attrs)) <==> |rest| == 0
    ensures r.KeysFollow? <==> |rest| > 0 && (rest[0] == "key" || rest[0] == "keys")
    ensures r.KeysFollow? ==> r == KeysFollow(rest[1..], m) && KeysAt(rest, r.keyArgs, 0)
    ensures r.Done? ==> r.run.attrs == m.attrs && r.run.outcome.Returned? && r.run.outcome.status in {0, 1}
  {
    if |rest| == 0 then Done(Run(Returned(0), m.attrs))
    else if rest[0] != "key" && rest[0] != "keys" then Done(Run(Returned(1), m.attrs))
    else KeysFollow(rest[1..], m)
  }

  /**
   An optional BSSID: a token that parses as an address is consumed and
   appended. Any other token is left for the key check, but `mac_addr_a2n`
   has already cut it at its first ':', so the check sees only the text
   before that.
   */
  function JoinBssid(m: Msg, rest: seq<string>): (r: Joined)
    ensures r.Done? ==> r.run.outcome.Returned? && r.run.outcome.status in {-ENOSPC, 0, 1}
    ensures |JoinedAttrs(r)| >= |m.attrs| && JoinedAttrs(r)[..|m.attrs|] == m.attrs
    ensures r.Done? && r.run.outcome == Returned(0) <==> BssidWords(rest) && m.room >= |rest|
    ensures r.Done? && r.run.outcome == Returned(0) ==> r.run.attrs == m.attrs + BssidAttrs(rest)
    ensures |rest| > 0 && MacFromText(rest[0]).None? ==> (r.KeysFollow? <==> KeyWord(A2nLeaves(rest[0])))
    ensures r.KeysFollow? ==> KeysAtCut(rest, r.keyArgs, 0) || (KeysAt(rest, r.keyArgs, 1) && MacFromText(rest[0]).Some?)
    ensures r.KeysFollow? <==> KeysAfterBssid(rest, m.room, 0) || KeysAfterBssid(rest, m.room, 1)
    ensures forall p: nat | KeysAfterBssid(rest, m.room, p) ::
              r == KeysFollow(rest[p + 1..], Msg(m.attrs + BssidAttrs(rest[..p]), m.room - p))
  {
    if |rest| > 0 && MacFromText(rest[0]).Some? then
      match Put(m, Bytes(MacAttr, MacFromText(rest[0]).value))
      case None => Done(Run(Returned(-ENOSPC), m.attrs))
      case Some(m1) =>
        var r := JoinKeys(m1, rest[1..]);
        AddressThenKeys(m, rest, r);
        r
    else if |rest| > 0 then
      var r := JoinKeys(m, [A2nLeaves(rest[0])] + rest[1..]);
      CutThenKeys(m, rest, r);
      r
    else JoinKeys(m, rest)
  }

  /** After an address that fits, the next token alone decides, and the message holds the address. */
  lemma AddressThenKeys(m: Msg, rest: seq<string>, r: Joined)
    requires |rest| > 0 && MacFromText(rest[0]).Some? && m.room > 0
    requires r == JoinKeys(Msg(m.attrs + [Bytes(MacAttr, MacFromText(rest[0]).value)], m.room - 1), rest[1..])
    ensures r.KeysFollow? ==> KeysAt(rest, r.keyArgs, 1)
    ensures r.KeysFollow? <==> KeysAfterBssid(rest, m.room, 0) || KeysAfterBssid(rest, m.room, 1)
    ensures forall p: nat | KeysAfterBssid(rest, m.room, p) ::
              r == KeysFollow(rest[p + 1..], Msg(m.attrs + BssidAttrs(rest[..p]), m.room - p))
  {
    BssidKeysAfterAddress(m, rest);
    if r.KeysFollow? {
      KeysAtTail(rest, r.keyArgs, 0);
    }
  }

  /** A token that is no address is checked as `mac_addr_a2n` cut it, and the message is handed on unchanged. */
  lemma CutThenKeys(m: Msg, rest: seq<string>, r: Joined)
    requires |rest| > 0 && MacFromText(rest[0]).None?
    requires r == JoinKeys(m, [A2nLeaves(rest[0])] + rest[1..])
    ensures r.KeysFollow? ==> KeysAtCut(rest, r.keyArgs, 0)
    ensures r.KeysFollow? <==> KeysAfterBssid(rest, m.room, 0) || KeysAfterBssid(rest, m.room, 1)
    ensures forall p: nat | KeysAfterBssid(rest, m.room, p) :: r == KeysFollow(rest[p + 1..], m)
  {
    assert ([A2nLeaves(rest[0])] + rest[1..])[1..] == rest[1..];
    assert rest[..0] == [] && !BssidWords(rest[..1]);
  }

  /** After an address, the key token is the next one, and the message holds the address. */
  lemma BssidKeysAfterAddress(m: Msg, rest: seq<string>)
    requires |rest| > 0 && MacFromText(rest[0]).Some?
    ensures !KeysAfterBssid(rest, m.room, 0)
    ensures KeysAfterBssid(rest, m.room, 1) <==> m.room > 0 && |rest| > 1 && KeyWord(rest[1])
    ensures BssidAttrs(rest[..1]) == [Bytes(MacAttr, MacFromText(rest[0]).value)]
  {
    assert rest[..1] == [rest[0]];
  }

  /** An optional "fixed-freq", appended as a flag. */
  function JoinOptions(m: Msg, rest: seq<string>): (r: Joined)
    ensures r.Done? ==> r.run.outcome.Returned? && r.run.outcome.status in {-ENOSPC, 0, 1}
    ensures |JoinedAttrs(r)| >= |m.attrs| && JoinedAttrs(r)[..|m.attrs|] == m.attrs
    ensures r.Done? && r.run.outcome == Returned(0) <==> JoinOptionWords(rest) && m.room >= |rest|
    ensures r.Done? && r.run.outcome == Returned(0) ==> r.run.attrs == m.attrs + OptionAttrs(rest)
    ensures r.KeysFollow? ==> KeysAtCut(rest, r.keyArgs, 0) || KeysAt(rest, r.keyArgs, 1)
                              || KeysAtCut(rest, r.keyArgs, 1) || KeysAt(rest, r.keyArgs, 2)
    ensures r.KeysFollow? <==> KeysAfterOptions(rest, m.room, 0) || KeysAfterOptions(rest, m.room, 1)
                               || KeysAfterOptions(rest, m.room, 2)
    ensures forall p: nat | KeysAfterOptions(rest, m.room, p) ::
              r == KeysFollow(rest[p + 1..], Msg(m.attrs + OptionAttrs(rest[..p]), m.room - p))
  {
    if |rest| > 0 && rest[0] == "fixed-freq" then
      FixedFreqWords(rest);
      match Put(m, Flag(FreqFixed))
      case None =>
        FlagNoKeys(rest, m.room);
        Done(Run(Returned(-ENOSPC), m.attrs))
      case Some(m1) =>
        var r := JoinBssid(m1, rest[1..]);
        FlagThenBssid(m, rest, r);
        FlagThenBssidKeys(m, rest, r);
        r
    else
      assert JoinOptionWords(rest) == BssidWords(rest);
      NoFlagKeys(rest, m.room);
      JoinBssid(m, rest)
  }

  /** After the flag, the BSSID step's status and attributes are those of the options as a whole. */
  lemma FlagThenBssid(m: Msg, rest: seq<string>, r: Joined)
    requires |rest| > 0 && rest[0] == "fixed-freq" && m.room > 0
    requires r == JoinBssid(Msg(m.attrs + [Flag(FreqFixed)], m.room - 1), rest[1..])
    ensures r.Done? ==> r.run.outcome.Returned? && r.run.outcome.status in {-ENOSPC, 0, 1}
    ensures |JoinedAttrs(r)| >= |m.attrs| && JoinedAttrs(r)[..|m.attrs|] == m.attrs
    ensures r.Done? && r.run.outcome == Returned(0) <==> JoinOptionWords(rest) && m.room >= |rest|
    ensures r.Done? && r.run.outcome == Returned(0) ==> r.run.attrs == m.attrs + OptionAttrs(rest)
    ensures r.KeysFollow? ==> KeysAtCut(rest, r.keyArgs, 1) || KeysAt(rest, r.keyArgs, 2)
  {
    FixedFreqWords(rest);
    PrefixOfPrefix(JoinedAttrs(r), m.attrs, [Flag(FreqFixed)]);
    if r.KeysFollow? {
      KeysAtTail(rest, r.keyArgs, 0);
      KeysAtTail(rest, r.keyArgs, 1);
    }
  }

  /** After the flag, a key token found by the BSSID step is the options' key token, one word further on. */
  lemma FlagThenBssidKeys(m: Msg, rest: seq<string>, r: Joined)
    requires |rest| > 0 && rest[0] == "fixed-freq" && m.room > 0
    requires r == JoinBssid(Msg(m.attrs + [Flag(FreqFixed)], m.room - 1), rest[1..])
    ensures r.KeysFollow? <==> KeysAfterOptions(rest, m.room, 0) || KeysAfterOptions(rest, m.room, 1)
                               || KeysAfterOptions(rest, m.room, 2)
    ensures forall p: nat | KeysAfterOptions(rest, m.room, p) ::
              r == KeysFollow(rest[p + 1..], Msg(m.attrs + OptionAttrs(rest[..p]), m.room - p))
  {
    FlagThenKeys(rest, m.room, 0);
    FlagThenKeys(rest, m.room, 1);
    FlagNoKeys(rest, m.room);
    forall p: nat | KeysAfterOptions(rest, m.room, p)
      ensures r == KeysFollow(rest[p + 1..], Msg(m.attrs + OptionAttrs(rest[..p]), m.room - p))
    {
      FlagKeysMsg(m, rest, r, p);
    }
  }

  /** The message handed on after the flag and a key token at p holds the flag and the words before p. */
  lemma FlagKeysMsg(m: Msg, rest: seq<string>, r: Joined, p: nat)
    requires |rest| > 0 && rest[0] == "fixed-freq" && m.room > 0
    requires r == JoinBssid(Msg(m.attrs + [Flag(FreqFixed)], m.room - 1), rest[1..])
    requires KeysAfterOptions(rest, m.room, p)
    ensures r == KeysFollow(rest[p + 1..], Msg(m.attrs + OptionAttrs(rest[..p]), m.room - p))
  {
    FlagNoKeys(rest, m.room);
    FlagThenKeys(rest, m.room, p - 1);
    var b := BssidAttrs(rest[1..][..p - 1]);
    assert r == KeysFollow(rest[1..][p..], Msg(m.attrs + [Flag(FreqFixed)] + b, m.room - 1 - (p - 1)));
    assert m.attrs + [Flag(FreqFixed)] + b == m.attrs + ([Flag(FreqFixed)] + b);
  }

  /** With "fixed-freq" first, a key token is never at 0, and one at p + 1 is one at p after the flag. */
  lemma FlagThenKeys(rest: seq<string>, room: nat, p: nat)
    requires |rest| > 0 && rest[0] == "fixed-freq" && room > 0
    ensures KeysAfterOptions(rest, room, p + 1) <==> KeysAfterBssid(rest[1..], room - 1, p)
    ensures KeysAfterOptions(rest, room, p + 1) ==>
              rest[p + 2..] == rest[1..][p + 1..] && OptionAttrs(rest[..p + 1]) == [Flag(FreqFixed)] + BssidAttrs(rest[1..][..p])
  {
    if p + 1 <= |rest| {
      assert rest[..p + 1][1..] == rest[1..][..p];
      FixedFreqWords(rest[..p + 1]);
      if p + 1 < |rest| {
        assert rest[p + 1] == rest[1..][p];
        if p > 0 {
          assert rest[p] == rest[1..][p - 1];
        } else {
          MacNeedsColons("fixed-freq");
        }
      }
    }
  }

  /** A token "fixed-freq" is never read as a key, and a key token after it needs room for the flag. */
  lemma FlagNoKeys(rest: seq<string>, room: nat)
    requires |rest| > 0 && rest[0] == "fixed-freq"
    ensures !KeysAfterOptions(rest, room, 0)
    ensures room == 0 ==> forall p: nat :: !KeysAfterOptions(rest, room, p)
  {
    MacNeedsColons("fixed-freq");
  }

  /** Without "fixed-freq" first, the options are the BSSID alone, and a key token is at 0 or 1. */
  lemma NoFlagKeys(rest: seq<string>, room: nat)
    requires |rest| == 0 || rest[0] != "fixed-freq"
    ensures forall p: nat :: KeysAfterOptions(rest, room, p) <==> KeysAfterBssid(rest, room, p)
    ensures forall p: nat | KeysAfterOptions(rest, room, p) :: OptionAttrs(rest[..p]) == BssidAttrs(rest[..p])
    ensures !KeysAfterOptions(rest, room, 2)
  {
    forall p: nat | p < |rest|
      ensures JoinOptionWords(rest[..p]) == BssidWords(rest[..p])
    {
      if p > 0 {
        assert rest[..p][0] == rest[0];
      }
    }
  }

  /** Options that start with "fixed-freq" are accepted exactly when a lone BSSID, or nothing, follows. */
  lemma FixedFreqWords(rest: seq<string>)
    requires |rest| > 0 && rest[0] == "fixed-freq"
    ensures !BssidWords(rest)
    ensures JoinOptionWords(rest) == BssidWords(rest[1..])
    ensures JoinOptionWords(rest) ==> OptionAttrs(rest) == [Flag(FreqFixed)] + BssidAttrs(rest[1..])
  {
    MacNeedsColons("fixed-freq");
  }

  /** A sequence that starts with `a + b` starts with `a`. */
  lemma PrefixOfPrefix<T>(x: seq<T>, a: seq<T>, b: seq<T>)
    requires |x| >= |a + b| && x[..|a + b|] == a + b
    ensures x[..|a|] == a
  {
    assert x[..|a|] == x[..|a + b|][..|a|];
  }

  /**
   `join_ibss`: fewer than two tokens is a usage error (1). SSID and
   frequency are appended first (the frequency as the low 32 bits of what
   `strtoul` made of its token), and only then is a frequency token with
   anything after its digits rejected (1). A full buffer anywhere returns
   -ENOSPC. The join succeeds (0) exactly when the tokens after the
   frequency are optional words it accepts and every attribute fits.
   */
  function JoinIbss(msg: Msg, args: seq<string>): (r: Joined)
    ensures |args| < 2 ==> r == Done(Run(Returned(1), msg.attrs))
    ensures |args| >= 2 && msg.room < 2 ==> r == Done(Run(Returned(-ENOSPC), Fill(msg, JoinHead(args)).attrs))
    ensures |args| >= 2 && msg.room >= 2 && !StrToUl(args[1]).1 ==> r == Done(Run(Returned(1), msg.attrs + JoinHead(args)))
    ensures r.Done? ==> r.run.outcome.Returned? && r.run.outcome.status in {-ENOSPC, 0, 1}
    ensures |JoinedAttrs(r)| >= |msg.attrs| && JoinedAttrs(r)[..|msg.attrs|] == msg.attrs
    ensures r.Done? && r.run.outcome == Returned(0) <==>
              |args| >= 2 && StrToUl(args[1]).1 && JoinOptionWords(args[2..]) && msg.room >= |args|
    ensures r.Done? && r.run.outcome == Returned(0) ==> r.run.attrs == msg.attrs + JoinHead(args) + OptionAttrs(args[2..])
    ensures r.KeysFollow? ==> exists p | 2 <= p <= 4 :: KeysAt(args, r.keyArgs, p) || KeysAtCut(args, r.keyArgs, p)
    ensures r.KeysFollow? <==>
              |args| >= 2 && StrToUl(args[1]).1 && msg.room >= 2
              && (KeysAfterOptions(args[2..], msg.room - 2, 0) || KeysAfterOptions(args[2..], msg.room - 2, 1)
                  || KeysAfterOptions(args[2..], msg.room - 2, 2))
    ensures forall p: nat | |args| >= 2 && StrToUl(args[1]).1 && msg.room >= 2 && KeysAfterOptions(args[2..], msg.room - 2, p) ::
              r == KeysFollow(args[p + 3..], Msg(msg.attrs + JoinHead(args) + OptionAttrs(args[2..][..p]), msg.room - 2 - p))
  {
    if |args| < 2 then Done(Run(Returned(1), msg.attrs))
    else
      var head := JoinHead(args);
      match PutAll(msg, head)
      case None => Done(Run(Returned(-ENOSPC), Fill(msg, head).attrs))
      case Some(m) =>
        if !StrToUl(args[1]).1 then Done(Run(Returned(1), m.attrs))
        else
          var r := JoinAfterHead(m, args);
          PrefixOfPrefix(JoinedAttrs(r), msg.attrs, head);
          HeadThenKeys(msg, args, m, r);
          r
  }

  /** Once the head is in the message, a key token among the options hands on the message holding head and options. */
  lemma HeadThenKeys(msg: Msg, args: seq<string>, m: Msg, r: Joined)
    requires |args| >= 2 && msg.room >= 2
    requires m == Msg(msg.attrs + JoinHead(args), msg.room - 2) && r == JoinAfterHead(m, args)
    ensures forall p: nat | KeysAfterOptions(args[2..], msg.room - 2, p) ::
              r == KeysFollow(args[p + 3..], Msg(msg.attrs + JoinHead(args) + OptionAttrs(args[2..][..p]), msg.room - 2 - p))
  {
  }

  /** The options of a join, once SSID and frequency are in the message m. */
  function JoinAfterHead(m: Msg, args: seq<string>): (r: Joined)
    requires |args| >= 2
    ensures r.Done? ==> r.run.outcome.Returned? && r.run.outcome.status in {-ENOSPC, 0, 1}
    ensures |JoinedAttrs(r)| >= |m.attrs| && JoinedAttrs(r)[..|m.attrs|] == m.attrs
    ensures r.Done? && r.run.outcome == Returned(0) <==> JoinOptionWords(args[2..]) && m.room >= |args| - 2
    ensures r.Done? && r.run.outcome == Returned(0) ==> r.run.attrs == m.attrs + OptionAttrs(args[2..])
    ensures r.KeysFollow? ==> exists p | 2 <= p <= 4 :: KeysAt(args, r.keyArgs, p) || KeysAtCut(args, r.keyArgs, p)
    ensures r.KeysFollow? <==> KeysAfterOptions(args[2..], m.room, 0) || KeysAfterOptions(args[2..], m.room, 1)
                               || KeysAfterOptions(args[2..], m.room, 2)
    ensures forall p: nat | KeysAfterOptions(args[2..], m.room, p) ::
              r == KeysFollow(args[p + 3..], Msg(m.attrs + OptionAttrs(args[2..][..p]), m.room - p))
  {
    var r := JoinOptions(m, args[2..]);
    forall p: nat | KeysAfterOptions(args[2..], m.room, p)
      ensures args[2..][p + 1..] == args[p + 3..]
    {
    }
    if r.KeysFollow? then KeysShift(args, r.keyArgs); r else r
  }

  /** A key word at position p after the first token is at position p + 1 of the whole. */
  lemma KeysAtTail(rest: seq<string>, keyArgs: seq<string>, p: nat)
    requires |rest| >= 1
    ensures KeysAt(rest[1..], keyArgs, p) ==> KeysAt(rest, keyArgs, p + 1)
    ensures KeysAtCut(rest[1..], keyArgs, p) ==> KeysAtCut(rest, keyArgs, p + 1)
  {
    assert p < |rest[1..]| ==> rest[1..][p + 1..] == rest[p + 2..] && rest[1..][p] == rest[p + 1];
  }

  /** A key word found among the options is found in the whole command line, two tokens further on. */
  lemma KeysShift(args: seq<string>, keyArgs: seq<string>)
    requires |args| >= 2
    requires KeysAtCut(args[2..], keyArgs, 0) || KeysAt(args[2..], keyArgs, 1)
             || KeysAtCut(args[2..], keyArgs, 1) || KeysAt(args[2..], keyArgs, 2)
    ensures exists p | 2 <= p <= 4 :: KeysAt(args, keyArgs, p) || KeysAtCut(args, keyArgs, p)
  {
    var opts := args[2..];
    assert opts[1..] == args[3..];
    assert |opts| >= 2 ==> opts[2..] == args[4..];
    assert |opts| >= 3 ==> opts[3..] == args[5..];
    if KeysAtCut(opts, keyArgs, 0) {
      assert KeysAtCut(args, keyArgs, 2);
    } else if KeysAt(opts, keyArgs, 1) || KeysAtCut(opts, keyArgs, 1) {
      assert KeysAt(args, keyArgs, 3) || KeysAtCut(args, keyArgs, 3);
    } else {
      assert KeysAt(args, keyArgs, 4);
    }
  }

  /**
   A key option written with colons, such as "key:d:0:abcde", is no
   address, and `mac_addr_a2n` leaves "key" of it behind: the join goes on
   to the keys with nothing after the option, where a comparison of the
   whole token would have returned 1.
   */
  lemma JoinKeyWithColons(msg: Msg, ssid: string, freq: nat, t: string)
    requires freq <= ULongMax && msg.room >= 2
    ensures JoinIbss(msg, [ssid, Decimal(freq), "key:" + t]).KeysFollow?
    ensures JoinIbss(msg, [ssid, Decimal(freq), "key:" + t]).keyArgs == []
    ensures JoinIbss(msg, [ssid, Decimal(freq), "key:" + t]).msg
            == Msg(msg.attrs + [Bytes(SsidAttr, TokenBytes(ssid)), FreqAttr(freq)], msg.room - 2)
  {
    var w := "key:" + t;
    ColonKeyToken(t);
    StrToUlOfDecimal(freq);
    JoinCutKey(msg, [ssid, Decimal(freq), w]);
  }

  /** Three tokens whose last is no address but is cut to a key word: the join hands no tokens on, after the head. */
  lemma JoinCutKey(msg: Msg, args: seq<string>)
    requires |args| == 3 && StrToUl(args[1]).1 && msg.room >= 2
    requires MacFromText(args[2]).None? && KeyWord(A2nLeaves(args[2]))
    ensures JoinIbss(msg, args) == KeysFollow([], Msg(msg.attrs + JoinHead(args), msg.room - 2))
  {
    assert args[2..] == [args[2]];
    CutKeyAlone(args[2], msg.room - 2);
    JoinIbssKeysAt(msg, args, 0);
    assert args[3..] == [] && args[2..][..0] == [];
  }

  /** A lone token that is no address and is cut to a key word is a key token right at the start. */
  lemma CutKeyAlone(w: string, room: nat)
    requires MacFromText(w).None? && KeyWord(A2nLeaves(w))
    ensures KeysAfterOptions([w], room, 0)
  {
    assert [w][..0] == [];
  }

  /** "key" and a colon: no address, since "key" does not scan as hex, and "key" is what is left of it. */
  lemma ColonKeyToken(t: string)
    ensures MacFromText("key:" + t).None?
    ensures A2nLeaves("key:" + t) == "key"
    ensures "key:" + t != "fixed-freq"
  {
    var w := "key:" + t;
    KeySplit(t);
    var fs := Split(w, ':');
    assert fs[0] == "key";
    assert !IsHexDigit('k');
    assert FieldByte(fs[0]).None?;
    assert A2nLeaves(w) == fs[0];
    assert w[0] == 'k';
  }

  /** The fields of "key:" followed by t: "key", then those of t. */
  lemma KeySplit(t: string)
    ensures Split("key:" + t, ':') == ["key"] + Split(t, ':')
  {
    var k := "key";
    assert "key:" + t == k + ([':'] + t);
    SplitField(k, t, ':');
  }

  /** What a well-formed join says: SSID, frequency, whether it is fixed, and an optional fixed BSSID. */
  datatype JoinSpec = JoinSpec(ssid: string, freq: nat, fixed: bool, bssid: Option<Mac>)

  /** The optional words of a specification. */
  function OptionWordsOf(s: JoinSpec): seq<string> {
    (if s.fixed then ["fixed-freq"] else []) + (if s.bssid.Some? then [MacToText(s.bssid.value)] else [])
  }

  function RenderJoin(s: JoinSpec): seq<string> {
    [s.ssid, Decimal(s.freq)] + OptionWordsOf(s)
  }

  function JoinAttrs(s: JoinSpec): seq<Attr> {
    [Bytes(SsidAttr, TokenBytes(s.ssid)), FreqAttr(s.freq)] + (if s.fixed then [Flag(FreqFixed)] else [])
    + (if s.bssid.Some? then [Bytes(MacAttr, s.bssid.value)] else [])
  }

  /** The optional words of a specification are accepted, and add the flag and the address it asks for. */
  lemma OptionWordsOfSpec(s: JoinSpec)
    ensures JoinOptionWords(OptionWordsOf(s))
    ensures OptionAttrs(OptionWordsOf(s)) == (if s.fixed then [Flag(FreqFixed)] else [])
                                             + (if s.bssid.Some? then [Bytes(MacAttr, s.bssid.value)] else [])
  {
    var opts := OptionWordsOf(s);
    if s.bssid.Some? {
      var b := s.bssid.value;
      MacRoundTrip(b);
      if s.fixed {
        assert opts[1..] == [MacToText(b)];
        assert BssidWords(opts[1..]);
      } else {
        assert |MacToText(b)| == 17;
        assert BssidWords(opts);
      }
    }
  }

  /** The first two words of a specification's command line give back its SSID and frequency. */
  lemma JoinHeadOfRender(s: JoinSpec)
    requires s.freq <= ULongMax
    ensures |RenderJoin(s)| >= 2 && RenderJoin(s)[2..] == OptionWordsOf(s)
    ensures StrToUl(RenderJoin(s)[1]).1
    ensures JoinHead(RenderJoin(s)) == [Bytes(SsidAttr, TokenBytes(s.ssid)), FreqAttr(s.freq)]
  {
    var args := RenderJoin(s);
    assert args[0] == s.ssid && args[1] == Decimal(s.freq);
    StrToUlOfDecimal(s.freq);
  }

  /** The attributes the join appends for a specification's command line are the specification's. */
  lemma JoinAttrsOfRender(s: JoinSpec)
    requires s.freq <= ULongMax
    ensures var args := RenderJoin(s);
            JoinOptionWords(args[2..]) && JoinHead(args) + OptionAttrs(args[2..]) == JoinAttrs(s)
  {
    JoinHeadOfRender(s);
    JoinAttrsSplit(s);
  }

  /** A specification's attributes are its SSID and frequency, then those its option words add. */
  lemma JoinAttrsSplit(s: JoinSpec)
    ensures JoinOptionWords(OptionWordsOf(s))
    ensures JoinAttrs(s) == [Bytes(SsidAttr, TokenBytes(s.ssid)), FreqAttr(s.freq)] + OptionAttrs(OptionWordsOf(s))
  {
    OptionWordsOfSpec(s);
    var flag: seq<Attr> := if s.fixed then [Flag(FreqFixed)] else [];
    var mac: seq<Attr> := if s.bssid.Some? then [Bytes(MacAttr, s.bssid.value)] else [];
    Assoc([Bytes(SsidAttr, TokenBytes(s.ssid)), FreqAttr(s.freq)], flag, mac);
  }

  lemma Assoc<T>(a: seq<T>, b: seq<T>, c: seq<T>)
    ensures a + b + c == a + (b + c)
  {
  }

  /** The command line of a specification joins with exactly its attributes. */
  lemma JoinIbssOfSpec(msg: Msg, s: JoinSpec)
    requires s.freq <= ULongMax
    requires msg.room >= |RenderJoin(s)|
    ensures JoinIbss(msg, RenderJoin(s)) == Done(Run(Returned(0), msg.attrs + JoinAttrs(s)))
  {
    var args := RenderJoin(s);
    JoinHeadOfRender(s);
    JoinAttrsOfRender(s);
    var head := JoinHead(args);
    var tail := OptionAttrs(args[2..]);
    var r := JoinIbss(msg, args);
    assert r.Done? && r.run.outcome == Returned(0);
    assert r.run.attrs == msg.attrs + head + tail;
    assert msg.attrs + head + tail == msg.attrs + (head + tail);
  }

  /**
   The command line of a specification followed by "key" or "keys" and the
   key tokens k hands k to `parse_keys`, with the message holding exactly
   the specification's attributes.
   */
  lemma JoinIbssKeysOfSpec(msg: Msg, s: JoinSpec, kw: string, k: seq<string>)
    requires s.freq <= ULongMax
    requires KeyWord(kw)
    requires msg.room >= |RenderJoin(s)|
    ensures JoinIbss(msg, RenderJoin(s) + [kw] + k)
            == KeysFollow(k, Msg(msg.attrs + JoinAttrs(s), msg.room - |RenderJoin(s)|))
  {
    var args := RenderJoin(s) + [kw] + k;
    var opts := OptionWordsOf(s);
    RenderThenKey(s, kw, k);
    OptionsThenKey(opts, kw, k, msg.room - 2);
    JoinIbssKeysAt(msg, args, |opts|);
    var head := [Bytes(SsidAttr, TokenBytes(s.ssid)), FreqAttr(s.freq)];
    var tail := OptionAttrs(opts);
    assert msg.attrs + head + tail == msg.attrs + (head + tail);
  }

  /** A specification's line followed by a key word and k: its head reads back, and the options, the word and k follow. */
  lemma RenderThenKey(s: JoinSpec, kw: string, k: seq<string>)
    requires s.freq <= ULongMax
    ensures var args := RenderJoin(s) + [kw] + k;
            |args| >= 2 && StrToUl(args[1]).1
            && JoinHead(args) == [Bytes(SsidAttr, TokenBytes(s.ssid)), FreqAttr(s.freq)]
            && args[2..] == OptionWordsOf(s) + [kw] + k
            && JoinOptionWords(OptionWordsOf(s))
            && JoinHead(args) + OptionAttrs(OptionWordsOf(s)) == JoinAttrs(s)
            && |RenderJoin(s)| == |OptionWordsOf(s)| + 2
  {
    var line := RenderJoin(s);
    JoinHeadOfRender(s);
    JoinAttrsOfRender(s);
    OptionWordsOfSpec(s);
    AppendKeepsHead(line, [kw], k);
  }

  /** Appending keeps the first two words, and the rest of the line is followed by what was appended. */
  lemma AppendKeepsHead<T>(line: seq<T>, a: seq<T>, b: seq<T>)
    requires |line| >= 2
    ensures (line + a + b)[0] == line[0] && (line + a + b)[1] == line[1]
    ensures (line + a + b)[2..] == line[2..] + a + b
  {
  }

  /** Where the options end in a key token at p, the join hands the rest to the keys with the head and options in the message. */
  lemma JoinIbssKeysAt(msg: Msg, args: seq<string>, p: nat)
    requires |args| >= 2 && StrToUl(args[1]).1 && msg.room >= 2 && KeysAfterOptions(args[2..], msg.room - 2, p)
    ensures JoinIbss(msg, args)
            == KeysFollow(args[p + 3..], Msg(msg.attrs + JoinHead(args) + OptionAttrs(args[2..][..p]), msg.room - 2 - p))
  {
  }

  /** Accepted options that fit, then "key" or "keys": the key token is right after the options. */
  lemma OptionsThenKey(opts: seq<string>, kw: string, k: seq<string>, room: nat)
    requires JoinOptionWords(opts) && KeyWord(kw) && room >= |opts|
    ensures KeysAfterOptions(opts + [kw] + k, room, |opts|)
    ensures (opts + [kw] + k)[..|opts|] == opts && (opts + [kw] + k)[|opts| + 1..] == k
  {
    var words := opts + [kw] + k;
    var p := |opts|;
    assert words[..p] == opts && words[p] == kw;
    assert words[p + 1..] == k;
    MacNeedsColons(kw);
    assert p > 0 ==> words[p - 1] == opts[p - 1];
  }

  /** `leave_ibss` appends nothing and succeeds; the dispatcher sends the bare LEAVE_IBSS request. */
  function LeaveIbss(msg: Msg, args: seq<string>): (r: Run)
    ensures r == Run(Returned(0), msg.attrs)
  {
    Run(Returned(0), msg.attrs)
  }
}
