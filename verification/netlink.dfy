/**
 The request side of the nl80211 control protocol as the handlers see it:
 typed attributes appended to a message in order, the protocol opcodes and
 message flags of the command table, and the outcome of running a handler.

 The attribute codec itself belongs to libnl and is not part of this model;
 a request is the ordered list of attributes appended to it, and a decoded
 reply is a record of optional fields.
 */
module Netlink {
  import opened Base

  /** Error numbers the handlers return negated (Linux asm-generic/errno). */
  const ENOMEM: int := 12
  const ENOSPC: int := 28
  const ENOBUFS: int := 105

  /** `NLM_F_DUMP` = `NLM_F_ROOT | NLM_F_MATCH`: a multi-message dump is expected. */
  const NlmFDump: nat := 0x300

  /** nl80211 commands (opcodes) named by the command table and the handlers. */
  datatype NlCmd =
    | CmdUnspec | GetWiphy | GetInterface | NewInterface | DelInterface
    | GetStation | SetStation | DelStation
    | GetMpath | SetMpath | NewMpath | DelMpath
    | TriggerScan | GetScan | ReqSetReg
    | JoinIbss | LeaveIbss | Connect | Disconnect

  /**
   nl80211 attribute types the requests carry. `Index(n)` is a bare numeric
   type, as used for the members of a nested list.
   */
  datatype Tag =
    | IfIndex | IfName | IfType | MeshId | MacAttr | StaPlinkAction | MpathNextHop
    | SsidAttr | WiphyFreq | FreqFixed | RegAlpha2 | ScanSsids | Index(n: nat)

  /** One typed attribute of a request, as `NLA_PUT_*` appends it. */
  datatype Attr =
    | U8(tag: Tag, v8: byte)
    | U16(tag: Tag, v16: u16)
    | U32(tag: Tag, v32: u32)
    | Flag(tag: Tag)
    | Bytes(tag: Tag, data: seq<byte>)
    | Str(tag: Tag, text: string)
    | Nested(tag: Tag, children: seq<Attr>)

  /**
   A message under construction. `room` is the number of further
   attributes that fit before the buffer is exhausted; the byte layout that
   decides it is libnl's and is not modelled.
   */
  datatype Msg = Msg(attrs: seq<Attr>, room: nat)

  /** One `NLA_PUT`: append a, or fail (the `nla_put_failure` path) when the buffer is full. */
  function Put(m: Msg, a: Attr): (r: Option<Msg>)
    ensures r.Some? <==> m.room > 0
    ensures r.Some? ==> r.value.attrs == m.attrs + [a] && r.value.room + 1 == m.room
  {
    if m.room == 0 then None else Some(Msg(m.attrs + [a], m.room - 1))
  }

  /** A run of `NLA_PUT`s in order: all of them land, or the first that does not fit fails the run. */
  function PutAll(m: Msg, attrs: seq<Attr>): (r: Option<Msg>)
    ensures r.Some? <==> m.room >= |attrs|
    ensures r.Some? ==> r.value.attrs == m.attrs + attrs && r.value.room == m.room - |attrs|
    decreases |attrs|
  {
    if |attrs| == 0 then Some(m)
    else
      match Put(m, attrs[0])
      case None => None
      case Some(m1) =>
        assert m.attrs + [attrs[0]] + attrs[1..] == m.attrs + attrs;
        PutAll(m1, attrs[1..])
  }

  /** The message after a run of puts that may stop part-way: the attributes that fit are appended. */
  function Fill(m: Msg, attrs: seq<Attr>): (r: Msg)
    ensures m.room >= |attrs| ==> Some(r) == PutAll(m, attrs)
    ensures m.room < |attrs| ==> r.attrs == m.attrs + attrs[..m.room] && r.room == 0
  {
    if m.room >= |attrs| then Msg(m.attrs + attrs, m.room - |attrs|)
    else Msg(m.attrs + attrs[..m.room], 0)
  }

  /**
   `NLA_PUT_U32(msg, NL80211_ATTR_WIPHY_FREQ, v)` for a value computed in
   a wider or signed C type: the attribute holds its low 32 bits.
   */
  function FreqAttr(v: int): (a: Attr)
    ensures a.U32? && a.tag == WiphyFreq
    ensures 0 <= v < 0x1_0000_0000 ==> a.v32 == v
  {
    U32(WiphyFreq, ToU32(v))
  }

  /**
   How a handler ends: it returns a status to its caller, or an error
   callback ends the whole process with `exit(code)`.
   */
  datatype Outcome = Returned(status: int) | Exited(code: int)

  /** A handler's outcome together with the attributes its message holds at that point. */
  datatype Run = Run(outcome: Outcome, attrs: seq<Attr>)

  /** A message a handler builds and owns itself (interface.c, reg.c, the mpath set path). */
  datatype Request = Request(cmd: NlCmd, flags: nat, attrs: seq<Attr>)

  /**
   The UTF-8 form of one character (section 3 of RFC 3629): a character
   below 0x80 is its own byte; above, a lead byte giving the length and
   six value bits per continuation byte.
   */
  function Utf8(c: char): (b: seq<byte>)
    ensures 1 <= |b| <= 4
    ensures |b| == 1 <==> c as int < 0x80
    ensures c as int < 0x80 ==> b[0] == c as int
  {
    var n := c as int;
    if n < 0x80 then [n]
    else if n < 0x800 then [0xc0 + n / 0x40, 0x80 + n % 0x40]
    else if n < 0x1_0000 then [0xe0 + n / 0x1000, 0x80 + n / 0x40 % 0x40, 0x80 + n % 0x40]
    else [0xf0 + n / 0x4_0000, 0x80 + n / 0x1000 % 0x40, 0x80 + n / 0x40 % 0x40, 0x80 + n % 0x40]
  }

  /** How many bytes a sequence starting with this lead byte takes. */
  function Utf8Length(lead: byte): nat {
    if lead < 0x80 then 1 else if lead < 0xe0 then 2 else if lead < 0xf0 then 3 else 4
  }

  /** The value bits of one encoded sequence. */
  function Utf8Value(b: seq<byte>): int
    requires 1 <= |b| <= 4
  {
    var x := seq(|b|, i requires 0 <= i < |b| => b[i] as int - (if i == 0 then 0 else 0x80));
    if |b| == 1 then x[0]
    else if |b| == 2 then (x[0] - 0xc0) * 0x40 + x[1]
    else if |b| == 3 then (x[0] - 0xe0) * 0x1000 + x[1] * 0x40 + x[2]
    else (x[0] - 0xf0) * 0x4_0000 + x[1] * 0x1000 + x[2] * 0x40 + x[3]
  }

  predicate IsScalar(v: int) {
    0 <= v < 0xd800 || 0xe000 <= v < 0x11_0000
  }

  /** Reading UTF-8 back into text; None when a sequence is cut short or names no character. */
  function DecodeUtf8(b: seq<byte>): Option<string>
    decreases |b|
  {
    if |b| == 0 then Some([])
    else
      var n := Utf8Length(b[0]);
      if |b| < n || !IsScalar(Utf8Value(b[..n])) then None
      else
        match DecodeUtf8(b[n..])
        case None => None
        case Some(rest) => Some([Utf8Value(b[..n]) as char] + rest)
  }

  /** The lead byte of a character's form gives its length, and the bytes give its value. */
  lemma Utf8Reads(c: char)
    ensures Utf8Length(Utf8(c)[0]) == |Utf8(c)|
    ensures Utf8Value(Utf8(c)) == c as int
  {
    var n := c as int;
    if n < 0x80 {
    } else if n < 0x800 {
      Utf8Two(n);
    } else if n < 0x1_0000 {
      Utf8Three(n);
    } else {
      Utf8Four(n);
    }
  }

  lemma Utf8Two(n: int)
    requires 0x80 <= n < 0x800
    ensures 0xc0 <= 0xc0 + n / 0x40 < 0xe0
    ensures (n / 0x40) * 0x40 + n % 0x40 == n
  {
  }

  lemma Utf8Three(n: int)
    requires 0x800 <= n < 0x1_0000
    ensures 0xe0 <= 0xe0 + n / 0x1000 < 0xf0
    ensures (n / 0x1000) * 0x1000 + (n / 0x40 % 0x40) * 0x40 + n % 0x40 == n
  {
  }

  lemma Utf8Four(n: int)
    requires 0x1_0000 <= n < 0x11_0000
    ensures 0xf0 <= 0xf0 + n / 0x4_0000 < 0x100
    ensures (n / 0x4_0000) * 0x4_0000 + (n / 0x1000 % 0x40) * 0x1000 + (n / 0x40 % 0x40) * 0x40 + n % 0x40 == n
  {
  }

  /**
   A token's characters as the bytes `strlen`/`NLA_PUT` copy: the
   argument vector holds UTF-8, so an ASCII token is copied byte for byte
   and any other character takes two to four bytes.
   */
  function TokenBytes(s: string): (b: seq<byte>)
    ensures |b| >= |s|
    ensures (forall i | 0 <= i < |s| :: s[i] as int < 0x80) ==> |b| == |s| && forall i | 0 <= i < |s| :: b[i] == s[i] as int
  {
    if |s| == 0 then []
    else
      var rest := TokenBytes(s[1..]);
      assert (forall i | 0 <= i < |s| :: s[i] as int < 0x80) ==> forall i | 0 <= i < |s| - 1 :: s[1..][i] as int < 0x80;
      Utf8(s[0]) + rest
  }

  /** Nothing is lost in the copy: the token is read back from its bytes, so different tokens give different bytes. */
  lemma {:induction false} TokenBytesRoundTrip(s: string)
    ensures DecodeUtf8(TokenBytes(s)) == Some(s)
  {
    if |s| > 0 {
      var u := Utf8(s[0]);
      var b := TokenBytes(s);
      Utf8Reads(s[0]);
      assert b[0] == u[0];
      assert b[..|u|] == u;
      assert b[|u|..] == TokenBytes(s[1..]);
      TokenBytesRoundTrip(s[1..]);
      assert [s[0]] + s[1..] == s;
    }
  }

  /**
   A nested attribute of a reply after `nla_parse_nested`: absent from the
   message, rejected by the policy, or parsed into its fields.
   */
  datatype Nested<T> = Absent | Malformed | Parsed(fields: T)
}
