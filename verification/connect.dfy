/**
 connect.c: `connect <SSID> [<freq in MHz>] [<bssid>]` and `disconnect`.
 The handlers fill the message the dispatcher prepared and return a
 status; the dispatcher sends the message.
 */
module Connect {
  import opened Base
  import opened Text
  import opened Netlink
  import opened Iw
  import opened Util

  /** A token `strtoul` consumes entirely: the connect handler takes it as the frequency. */
  predicate IsFreqWord(w: string) {
    StrToUl(w).1
  }

  /** An optional BSSID and nothing after it. */
  predicate BssidWords(opts: seq<string>) {
    |opts| == 0 || (|opts| == 1 && MacFromText(opts[0]).Some?)
  }

  /** The words `connect` accepts after the SSID: an optional frequency, then an optional BSSID. */
  predicate ConnectWords(opts: seq<string>) {
    BssidWords(opts) || (|opts| >= 1 && IsFreqWord(opts[0]) && BssidWords(opts[1..]))
  }

  /** The attributes those words add: the frequency's low 32 bits, then the address. */
  function ConnectAttrs(opts: seq<string>): (a: seq<Attr>)
    requires ConnectWords(opts)
    ensures |a| == |opts|
  {
    if |opts| >= 1 && IsFreqWord(opts[0]) then
      [FreqAttr(StrToUl(opts[0]).0)] + (if |opts| == 2 then [Bytes(MacAttr, MacFromText(opts[1]).value)] else [])
    else if |opts| == 1 then [Bytes(MacAttr, MacFromText(opts[0]).value)]
    else []
  }

  /** The BSSID step: a remaining token must be an address (else 1), and nothing may follow it (else 1). */
  function ConnectBssid(m: Msg, rest: seq<string>): (r: Run)
    ensures r.outcome.Returned? && r.outcome.status in {-ENOSPC, 0, 1}
    ensures |r.attrs| >= |m.attrs| && r.attrs[..|m.attrs|] == m.attrs
    ensures r.outcome == Returned(0) <==> BssidWords(rest) && m.room >= |rest|
    ensures r.outcome == Returned(0) ==> r.attrs == m.attrs + (if |rest| == 1 then [Bytes(MacAttr, MacFromText(rest[0]).value)] else [])
  {
    if |rest| == 0 then Run(Returned(0), m.attrs)
    else
      match MacFromText(rest[0])
      case None => Run(Returned(1), m.attrs)
      case Some(bssid) =>
        match Put(m, Bytes(MacAttr, bssid))
        case None => Run(Returned(-ENOSPC), m.attrs)
        case Some(m1) => if |rest| > 1 then Run(Returned(1), m1.attrs) else Run(Returned(0), m1.attrs)
  }

  /** The frequency step: a token made of digits only is appended as the frequency and consumed; any other token is left alone. */
  function ConnectFreq(m: Msg, rest: seq<string>): (r: Run)
    ensures r.outcome.Returned? && r.outcome.status in {-ENOSPC, 0, 1}
    ensures |r.attrs| >= |m.attrs| && r.attrs[..|m.attrs|] == m.attrs
    ensures r.outcome == Returned(0) <==> ConnectWords(rest) && m.room >= |rest|
    ensures r.outcome == Returned(0) ==> r.attrs == m.attrs + ConnectAttrs(rest)
  {
    if |rest| > 0 && IsFreqWord(rest[0]) then
      DecimalWordIsNoMac(rest[0]);
      assert !BssidWords(rest);
      match Put(m, FreqAttr(StrToUl(rest[0]).0))
      case None => Run(Returned(-ENOSPC), m.attrs)
      case Some(m1) =>
        var r := ConnectBssid(m1, rest[1..]);
        assert r.attrs[..|m.attrs|] == r.attrs[..|m1.attrs|][..|m.attrs|];
        r
    else
      ConnectBssid(m, rest)
  }

  /**
   `iw_connect`: without an SSID a usage error (1); the SSID is appended,
   then an all-digit token as the frequency, then an address, and any other
   token, or any token after the address, is a usage error. A full buffer
   returns -ENOSPC. It succeeds exactly when the tokens after the SSID are
   an optional frequency and an optional address and everything fits.
   */
  function IwConnect(msg: Msg, args: seq<string>): (r: Run)
    ensures |args| == 0 ==> r == Run(Returned(1), msg.attrs)
    ensures |args| > 0 && msg.room == 0 ==> r == Run(Returned(-ENOSPC), msg.attrs)
    ensures r.outcome.Returned? && r.outcome.status in {-ENOSPC, 0, 1}
    ensures |r.attrs| >= |msg.attrs| && r.attrs[..|msg.attrs|] == msg.attrs
    ensures r.outcome == Returned(0) <==> |args| >= 1 && ConnectWords(args[1..]) && msg.room >= |args|
    ensures r.outcome == Returned(0) ==> r.attrs == msg.attrs + [Bytes(SsidAttr, TokenBytes(args[0]))] + ConnectAttrs(args[1..])
  {
    if |args| < 1 then Run(Returned(1), msg.attrs)
    else
      match Put(msg, Bytes(SsidAttr, TokenBytes(args[0])))
      case None => Run(Returned(-ENOSPC), msg.attrs)
      case Some(m) =>
        var r := ConnectFreq(m, args[1..]);
        assert r.attrs[..|msg.attrs|] == r.attrs[..|m.attrs|][..|msg.attrs|];
        r
  }

  /** What a well-formed connect says. */
  datatype ConnectSpec = ConnectSpec(ssid: string, freq: Option<nat>, bssid: Option<Mac>)

  function ConnectWordsOf(s: ConnectSpec): seq<string> {
    (if s.freq.Some? then [Decimal(s.freq.value)] else []) + (if s.bssid.Some? then [MacToText(s.bssid.value)] else [])
  }

  function RenderConnect(s: ConnectSpec): seq<string> {
    [s.ssid] + ConnectWordsOf(s)
  }

  function ConnectAttrsOf(s: ConnectSpec): seq<Attr> {
    [Bytes(SsidAttr, TokenBytes(s.ssid))] + (if s.freq.Some? then [FreqAttr(s.freq.value)] else [])
    + (if s.bssid.Some? then [Bytes(MacAttr, s.bssid.value)] else [])
  }

  /** A specification's optional words are accepted and add its frequency and address. */
  lemma ConnectWordsOfSpec(s: ConnectSpec)
    requires s.freq.Some? ==> s.freq.value <= ULongMax
    ensures ConnectWords(ConnectWordsOf(s))
    ensures ConnectAttrs(ConnectWordsOf(s)) == (if s.freq.Some? then [FreqAttr(s.freq.value)] else [])
                                              + (if s.bssid.Some? then [Bytes(MacAttr, s.bssid.value)] else [])
  {
    var opts := ConnectWordsOf(s);
    if s.freq.Some? {
      StrToUlOfDecimal(s.freq.value);
    }
    if s.bssid.Some? {
      var b := s.bssid.value;
      MacRoundTrip(b);
      assert MacToText(b)[2] == ':';
      assert !IsFreqWord(MacToText(b)) by {
        assert !IsDecimalDigit(MacToText(b)[2]);
      }
      if s.freq.Some? {
        assert opts[1..] == [MacToText(b)];
      }
    }
  }

  /** Connecting with a specification's command line appends exactly the specification's attributes. */
  lemma IwConnectOfSpec(msg: Msg, s: ConnectSpec)
    requires s.freq.Some? ==> s.freq.value <= ULongMax
    requires msg.room >= |RenderConnect(s)|
    ensures IwConnect(msg, RenderConnect(s)) == Run(Returned(0), msg.attrs + ConnectAttrsOf(s))
  {
    var args := RenderConnect(s);
    assert args[1..] == ConnectWordsOf(s);
    ConnectWordsOfSpec(s);
    var head := [Bytes(SsidAttr, TokenBytes(s.ssid))];
    var tail := ConnectAttrs(args[1..]);
    assert head + tail == ConnectAttrsOf(s);
    assert msg.attrs + head + tail == msg.attrs + (head + tail);
  }

  /** `disconnect` appends nothing and succeeds; the dispatcher sends the bare DISCONNECT request. */
  function Disconnect(msg: Msg, args: seq<string>): (r: Run)
    ensures r == Run(Returned(0), msg.attrs)
  {
    Run(Returned(0), msg.attrs)
  }
}
