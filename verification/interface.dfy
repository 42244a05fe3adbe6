/**
 interface.c: the `interface` command. `add` creates a virtual interface
 of a given type (optionally with a mesh id), `del` removes one, `get` and
 `dump` ask for interface information and print each reply.

 The requests these handlers build are their own (`nlmsg_alloc`). A
 `Transport` gives what the environment decides: whether the allocation
 succeeds, how many attributes fit, and what sending and waiting for the
 acknowledgement return. `if_nametoindex(dev)` is a parameter: the index
 of the named device.
 */
module Interface {
  import opened Base
  import opened Netlink
  import opened Iw
  import opened Util

  datatype Transport = Transport(allocOk: bool, room: nat, sendErr: int, ackErr: int)

  /** A handler's status and the request it handed to `nl_send_auto_complete`, if any. */
  datatype Issued = Issued(status: int, sent: Option<Request>)

  /** The words `get_if_type` accepts for each interface type (none for the unspecified one). */
  function TypeWords(t: IfType): set<string> {
    match t
    case Unspecified => {}
    case Adhoc => {"adhoc", "ibss"}
    case Station => {"station"}
    case Ap => {"__ap"}
    case ApVlan => {"__ap_vlan"}
    case Wds => {"wds"}
    case Monitor => {"monitor"}
    case MeshPoint => {"mp", "mesh"}
  }

  /**
   The `strcmp` chain of `get_if_type` on the word after "type": a word of
   the table names its type, and any other word names none.
   */
  function ParseIfTypeName(word: string): (r: Option<IfType>)
    ensures r.Some? ==> word in TypeWords(r.value) && r.value != Unspecified
    ensures r.None? ==> forall t :: word !in TypeWords(t)
  {
    if word == "adhoc" || word == "ibss" then Some(Adhoc)
    else if word == "monitor" then Some(Monitor)
    else if word == "__ap" then Some(Ap)
    else if word == "__ap_vlan" then Some(ApVlan)
    else if word == "wds" then Some(Wds)
    else if word == "station" then Some(Station)
    else if word == "mp" || word == "mesh" then Some(MeshPoint)
    else None
  }

  /** The chain accepts exactly the words of the table, each for its own type, and never names the unspecified type. */
  lemma ParseIfTypeNameMatchesWords(word: string, t: IfType)
    ensures ParseIfTypeName(word) == Some(t) <==> word in TypeWords(t)
    ensures ParseIfTypeName(word) != Some(Unspecified)
  {
  }

  /** `get_if_type`'s three results: not found (0), a type (1), an invalid word (-1). */
  datatype TypeArg = NotGiven | Given(t: IfType) | Invalid(word: string)

  /**
   `get_if_type`: with fewer than two tokens, or a first token other than
   "type", nothing is consumed and no type is given; otherwise both tokens
   are consumed, and the second names the type or is invalid.
   */
  function GetIfType(args: seq<string>): (r: (TypeArg, seq<string>))
    ensures r.0.NotGiven? <==> |args| < 2 || args[0] != "type"
    ensures r.0.NotGiven? ==> r.1 == args
    ensures !r.0.NotGiven? ==> |args| >= 2 && r.1 == args[2..]
    ensures r.0.Given? <==> |args| >= 2 && args[0] == "type" && exists t :: args[1] in TypeWords(t)
    ensures r.0.Given? ==> args[1] in TypeWords(r.0.t)
    ensures r.0.Invalid? ==> r.0.word == args[1]
  {
    if |args| < 2 || args[0] != "type" then (NotGiven, args)
    else
      match ParseIfTypeName(args[1])
      case Some(t) =>
        ParseIfTypeNameMatchesWords(args[1], t);
        (Given(t), args[2..])
      case None =>
        forall t ensures args[1] !in TypeWords(t) {
          ParseIfTypeNameMatchesWords(args[1], t);
        }
        (Invalid(args[1]), args[2..])
  }

  /** What a well-formed `interface add` command line says. */
  datatype AddSpec = AddSpec(name: string, t: IfType, meshId: Option<string>)

  /**
   The argument checks of `handle_interface_add`, all made before any
   message exists: a name, "type" and a valid type word, then optionally
   "mesh_id" and its value, then nothing. Any violation is a -1 return.
   */
  function ParseAdd(args: seq<string>): (r: Option<AddSpec>)
    ensures r.Some? <==> |args| >= 3 && args[1] == "type" && (exists t :: args[2] in TypeWords(t))
                         && (|args| == 3 || (|args| == 5 && args[3] == "mesh_id"))
    ensures r.Some? ==> args[0] == r.value.name && args[2] in TypeWords(r.value.t)
    ensures r.Some? ==> r.value.meshId == (if |args| == 5 then Some(args[4]) else None)
  {
    if |args| < 1 then None
    else
      var (ta, rest) := GetIfType(args[1..]);
      if !ta.Given? then None
      else if |rest| == 0 then Some(AddSpec(args[0], ta.t, None))
      else if rest[0] != "mesh_id" || |rest| != 2 then None
      else Some(AddSpec(args[0], ta.t, Some(rest[1])))
  }

  /** The command line that spells a specification with the given type word. */
  function RenderAdd(name: string, typeWord: string, meshId: Option<string>): seq<string> {
    [name, "type", typeWord] + (if meshId.Some? then ["mesh_id", meshId.value] else [])
  }

  /** Every rendering with a word of the table parses back to its specification. */
  lemma ParseAddOfRender(s: AddSpec, typeWord: string)
    requires typeWord in TypeWords(s.t)
    ensures ParseAdd(RenderAdd(s.name, typeWord, s.meshId)) == Some(s)
  {
    ParseIfTypeNameMatchesWords(typeWord, s.t);
    var args := RenderAdd(s.name, typeWord, s.meshId);
    assert args[1..][2..] == if s.meshId.Some? then ["mesh_id", s.meshId.value] else [];
  }

  /** And nothing else parses: an accepted command line is exactly such a rendering. */
  lemma ParseAddOnlyRenderings(args: seq<string>)
    requires ParseAdd(args).Some?
    ensures var s := ParseAdd(args).value;
            |args| >= 3 && args[2] in TypeWords(s.t) && args == RenderAdd(s.name, args[2], s.meshId)
  {
    var s := ParseAdd(args).value;
    ParseIfTypeNameMatchesWords(args[2], s.t);
    var rest := args[1..][2..];
    assert args == [args[0], "type", args[2]] + rest;
  }

  /** The attributes of the NEW_INTERFACE request, in the order they are appended. */
  function AddAttrs(ifindex: Option<u32>, s: AddSpec): seq<Attr> {
    (if ifindex.Some? then [U32(IfIndex, ifindex.value)] else [])
    + [Str(IfName, s.name), U32(IfType, IfTypeValue(s.t) as u32)]
    + (if s.meshId.Some? then [Bytes(MeshId, TokenBytes(s.meshId.value))] else [])
  }

  /**
   `handle_interface_add`. `ifindex` is `if_nametoindex(dev)` when a
   device was named; `phy` says whether a phy was. A request for a phy is not
   supported and returns -1 after the interface index is appended. Every
   failure returns -1.
   */
  function InterfaceAdd(phy: bool, ifindex: Option<u32>, args: seq<string>, tr: Transport): (r: Issued)
    ensures r.status == 0 || r.status == -1
    ensures ParseAdd(args).None? || !tr.allocOk || phy ==> r == Issued(-1, None)
    ensures r.sent.Some? <==> ParseAdd(args).Some? && tr.allocOk && !phy
                              && tr.room >= |AddAttrs(ifindex, ParseAdd(args).value)|
    ensures r.sent.Some? ==> r.sent.value == Request(NewInterface, 0, AddAttrs(ifindex, ParseAdd(args).value))
    ensures r.status == 0 <==> r.sent.Some? && tr.sendErr >= 0 && tr.ackErr >= 0
  {
    match ParseAdd(args)
    case None => Issued(-1, None)
    case Some(s) =>
      if !tr.allocOk then Issued(-1, None)
      else
        var m0 := Msg([], tr.room);
        var m1 := if ifindex.Some? then Put(m0, U32(IfIndex, ifindex.value)) else Some(m0);
        if m1.None? || phy then Issued(-1, None)
        else
          var tail := [Str(IfName, s.name), U32(IfType, IfTypeValue(s.t) as u32)]
                      + (if s.meshId.Some? then [Bytes(MeshId, TokenBytes(s.meshId.value))] else []);
          match PutAll(m1.value, tail)
          case None => Issued(-1, None)
          case Some(m) =>
            var req := Request(NewInterface, 0, m.attrs);
            if tr.sendErr < 0 || tr.ackErr < 0 then Issued(-1, Some(req)) else Issued(0, Some(req))
  }

  /** The interface index a request names: its first IFINDEX attribute, if any. */
  function RequestIndex(attrs: seq<Attr>): Option<u32> {
    if |attrs| == 0 then None
    else if attrs[0].U32? && attrs[0].tag == IfIndex then Some(attrs[0].v32)
    else RequestIndex(attrs[1..])
  }

  /** A NEW_INTERFACE request names the device given, and no device when none was. */
  lemma InterfaceAddTargetsDevice(phy: bool, ifindex: Option<u32>, args: seq<string>, tr: Transport)
    requires InterfaceAdd(phy, ifindex, args, tr).sent.Some?
    ensures RequestIndex(InterfaceAdd(phy, ifindex, args, tr).sent.value.attrs) == ifindex
  {
    var s := ParseAdd(args).value;
    var attrs := AddAttrs(ifindex, s);
    if ifindex.None? {
      var tail := if s.meshId.Some? then [Bytes(MeshId, TokenBytes(s.meshId.value))] else [];
      assert attrs == [Str(IfName, s.name), U32(IfType, IfTypeValue(s.t) as u32)] + tail;
      assert attrs[1..] == [U32(IfType, IfTypeValue(s.t) as u32)] + tail;
      assert attrs[1..][1..] == tail;
      assert RequestIndex(tail) == None;
    }
  }

  /** `handle_interface_del`: no arguments allowed, a device required, then a DEL_INTERFACE request with its index. */
  function InterfaceDel(ifindex: Option<u32>, args: seq<string>, tr: Transport): (r: Issued)
    ensures r.status == 0 || r.status == -1
    ensures r.sent.Some? <==> |args| == 0 && tr.allocOk && ifindex.Some? && tr.room >= 1
    ensures r.sent.Some? ==> r.sent.value == Request(DelInterface, 0, [U32(IfIndex, ifindex.value)])
    ensures r.status == 0 <==> r.sent.Some? && tr.sendErr >= 0 && tr.ackErr >= 0
  {
    if |args| != 0 || !tr.allocOk || ifindex.None? then Issued(-1, None)
    else
      match Put(Msg([], tr.room), U32(IfIndex, ifindex.value))
      case None => Issued(-1, None)
      case Some(m) =>
        var req := Request(DelInterface, 0, m.attrs);
        if tr.sendErr < 0 || tr.ackErr < 0 then Issued(-1, Some(req)) else Issued(0, Some(req))
  }

  /**
   `handle_interface_info` for `get` (flags 0) and `dump` (NLM_F_DUMP).
   Once the arguments, the allocation and the device are accepted it
   returns 0 whatever happens next: a full buffer, a failed callback
   allocation (`cbOk`) or send (`sendErr`), or an error from the read only
   skip the rest or print a message.
   */
  function InterfaceInfo(ifindex: Option<u32>, args: seq<string>, flags: nat, tr: Transport, cbOk: bool): (r: Issued)
    ensures r.status == 0 || r.status == -1
    ensures r.status == -1 <==> |args| != 0 || !tr.allocOk || ifindex.None?
    ensures r.sent.Some? <==> r.status == 0 && tr.room >= 1 && cbOk
    ensures r.sent.Some? ==> r.sent.value == Request(GetInterface, flags, [U32(IfIndex, ifindex.value)])
  {
    if |args| != 0 || !tr.allocOk || ifindex.None? then Issued(-1, None)
    else
      match Put(Msg([], tr.room), U32(IfIndex, ifindex.value))
      case None => Issued(0, None)
      case Some(m) => if cbOk then Issued(0, Some(Request(GetInterface, flags, m.attrs))) else Issued(0, None)
  }

  /** A DEL_INTERFACE request names exactly the device given. */
  lemma InterfaceDelTargetsDevice(ifindex: Option<u32>, args: seq<string>, tr: Transport)
    requires InterfaceDel(ifindex, args, tr).sent.Some?
    ensures RequestIndex(InterfaceDel(ifindex, args, tr).sent.value.attrs) == ifindex
    ensures ifindex.Some?
  {
  }

  /**
   `get`/`dump` report failure only for what is checked before the
   request exists: the arguments, the allocation and the device. The room
   in the message, the callback allocation and the transport's errors never
   change the status.
   */
  lemma InterfaceInfoStatusIgnoresTransport(ifindex: Option<u32>, args: seq<string>, flags: nat,
                                            tr: Transport, cbOk: bool, tr': Transport, cbOk': bool)
    requires tr.allocOk == tr'.allocOk
    ensures InterfaceInfo(ifindex, args, flags, tr, cbOk).status == InterfaceInfo(ifindex, args, flags, tr', cbOk').status
  {
  }

  /** `del` and `get` send the same single attribute, the device's index; only the command differs. */
  lemma InterfaceDelInfoSameTarget(ifindex: Option<u32>, tr: Transport)
    requires InterfaceDel(ifindex, [], tr).sent.Some? && InterfaceInfo(ifindex, [], 0, tr, true).sent.Some?
    ensures InterfaceDel(ifindex, [], tr).sent.value.attrs == InterfaceInfo(ifindex, [], 0, tr, true).sent.value.attrs
    ensures InterfaceDel(ifindex, [], tr).sent.value.cmd == DelInterface
    ensures InterfaceInfo(ifindex, [], 0, tr, true).sent.value.cmd == GetInterface
  {
  }

  /** The attributes of one interface reply that `print_iface_handler` looks at. */
  datatype IfaceAttrs = IfaceAttrs(name: Option<string>, ifindex: Option<u32>, iftype: Option<u32>)

  /** One printed line: "Interface <name>", "\tifindex <%d>", "\ttype <iftype_name>". */
  datatype IfaceLine = NameLine(name: string) | IndexLine(index: int) | TypeLine(mode: string)

  /**
   A printed line says what its attribute holds: the name as given, the
   index as the signed 32-bit reading of the attribute, the type through
   `iftype_name`.
   */
  predicate LineFaithful(a: IfaceAttrs, l: IfaceLine) {
    match l
    case NameLine(n) => a.name == Some(n)
    case IndexLine(x) => a.ifindex.Some? && -0x8000_0000 <= x < 0x8000_0000 && ToU32(x) == a.ifindex.value
    case TypeLine(t) => a.iftype.Some? && t == IftypeName(a.iftype.value as nat)
  }

  function LineRank(l: IfaceLine): nat {
    match l
    case NameLine(_) => 0
    case IndexLine(_) => 1
    case TypeLine(_) => 2
  }

  /**
   `print_iface_handler`: a line for each attribute present, in the order
   name, index, type. The index is printed with `%d`, so it reads as the
   signed 32-bit value of the attribute; the type goes through `iftype_name`.
   */
  function PrintIface(a: IfaceAttrs): (lines: seq<IfaceLine>)
    ensures |lines| == (if a.name.Some? then 1 else 0) + (if a.ifindex.Some? then 1 else 0) + (if a.iftype.Some? then 1 else 0)
    ensures forall i | 0 <= i < |lines| :: LineFaithful(a, lines[i])
    ensures forall i, j | 0 <= i < j < |lines| :: LineRank(lines[i]) < LineRank(lines[j])
  {
    var rest := IndexAndType(a);
    if a.name.Some? then
      NameFirst(a, rest);
      [NameLine(a.name.value)] + rest
    else rest
  }

  /** The lines after the name: the index, then the type. */
  function IndexAndType(a: IfaceAttrs): (lines: seq<IfaceLine>)
    ensures |lines| == (if a.ifindex.Some? then 1 else 0) + (if a.iftype.Some? then 1 else 0)
    ensures forall i | 0 <= i < |lines| :: LineFaithful(a, lines[i]) && LineRank(lines[i]) >= 1
    ensures forall i, j | 0 <= i < j < |lines| :: LineRank(lines[i]) < LineRank(lines[j])
  {
    (if a.ifindex.Some? then [IndexLine(ToInt32(a.ifindex.value))] else [])
    + (if a.iftype.Some? then [TypeLine(IftypeName(a.iftype.value as nat))] else [])
  }

  /** Putting the name line before faithful, ordered lines of higher rank keeps them faithful and ordered. */
  lemma NameFirst(a: IfaceAttrs, rest: seq<IfaceLine>)
    requires a.name.Some?
    requires forall i | 0 <= i < |rest| :: LineFaithful(a, rest[i]) && LineRank(rest[i]) >= 1
    requires forall i, j | 0 <= i < j < |rest| :: LineRank(rest[i]) < LineRank(rest[j])
    ensures var lines := [NameLine(a.name.value)] + rest;
            (forall i | 0 <= i < |lines| :: LineFaithful(a, lines[i]))
            && forall i, j | 0 <= i < j < |lines| :: LineRank(lines[i]) < LineRank(lines[j])
  {
    var lines := [NameLine(a.name.value)] + rest;
    assert forall i | 1 <= i < |lines| :: lines[i] == rest[i - 1];
  }

  /** Which subcommand `handle_interface` runs. */
  datatype Sub = Add | Del | Get | Dump

  /** The first token selects the subcommand; anything else is not one. */
  function SubOf(word: string): (s: Option<Sub>)
    ensures s == Some(Add) <==> word == "add"
    ensures s == Some(Del) <==> word == "del"
    ensures s == Some(Get) <==> word == "get"
    ensures s == Some(Dump) <==> word == "dump"
  {
    if word == "add" then Some(Add)
    else if word == "del" then Some(Del)
    else if word == "get" then Some(Get)
    else if word == "dump" then Some(Dump)
    else None
  }

  /**
   `handle_interface`: -1 without a subcommand or with an unknown one;
   otherwise the subcommand's handler on the remaining tokens, `get` with
   no message flags and `dump` with NLM_F_DUMP.
   */
  function HandleInterface(phy: bool, ifindex: Option<u32>, args: seq<string>, tr: Transport, cbOk: bool): (r: Issued)
    ensures |args| == 0 || SubOf(args[0]).None? ==> r == Issued(-1, None)
    ensures |args| > 0 && args[0] == "add" ==> r == InterfaceAdd(phy, ifindex, args[1..], tr)
    ensures |args| > 0 && args[0] == "del" ==> r == InterfaceDel(ifindex, args[1..], tr)
    ensures |args| > 0 && args[0] == "get" ==> r == InterfaceInfo(ifindex, args[1..], 0, tr, cbOk)
    ensures |args| > 0 && args[0] == "dump" ==> r == InterfaceInfo(ifindex, args[1..], NlmFDump, tr, cbOk)
    ensures r.sent.Some? && r.sent.value.cmd == GetInterface && r.sent.value.flags == NlmFDump ==> args[0] == "dump"
  {
    if |args| == 0 then Issued(-1, None)
    else
      match SubOf(args[0])
      case None => Issued(-1, None)
      case Some(Add) => InterfaceAdd(phy, ifindex, args[1..], tr)
      case Some(Del) => InterfaceDel(ifindex, args[1..], tr)
      case Some(Get) => InterfaceInfo(ifindex, args[1..], 0, tr, cbOk)
      case Some(Dump) => InterfaceInfo(ifindex, args[1..], NlmFDump, tr, cbOk)
  }
}
