/**
 The command table: every descriptor that the `COMMAND` and `TOPLEVEL`
 lines of the files modelled here place in the `__cmd` linker section, as
 values. The linker gives the section no particular order; the table lists
 the descriptors file by file.
 */
module Registry {
  import opened Base
  import opened Netlink
  import opened Iw

  /** The GET commands, the only ones nl80211 answers with a multi-part dump. */
  predicate IsGetCmd(c: NlCmd) {
    c == GetWiphy || c == GetInterface || c == GetStation || c == GetMpath || c == GetScan
  }

  /** A descriptor's group (none for top-level commands) and name, the words a command line starts with. */
  function Key(c: Cmd): (Option<string>, string) {
    (c.section, c.name)
  }

  const EventHelp: string := "Monitor events from the kernel.\n-t - print timestamp\n-f - print full frame for auth/assoc etc."
  const IbssJoinHelp: string :=
    "Join the IBSS cell with the given SSID, if it doesn't exist create\n"
    + "it on the given frequency. When fixed frequency is requested, don't\n"
    + "join/create a cell on a different frequency. When a fixed BSSID is\n"
    + "requested use that BSSID and do not adopt another cell's BSSID even\n"
    + "if it has higher TSF and the same SSID."

  /** `station dump` as registered: the SET_STATION opcode with NLM_F_DUMP. */
  function StationDumpAsWritten(): Cmd {
    Cmd(Some("station"), "dump", None, SetStation, NlmFDump, CibNetdev, HandleStationDump, None)
  }

  /** `station dump` as it is meant: a dump of GET_STATION, whose replies `print_sta_handler` prints. */
  function StationDumpCmd(): Cmd {
    Cmd(Some("station"), "dump", None, GetStation, NlmFDump, CibNetdev, HandleStationDump, None)
  }

  /**
   The descriptor at position `i` of the table, with the given descriptor
   for `station dump`: connect.c, event.c, ibss.c, info.c, mpath.c, scan.c
   and station.c in turn. Positions from 17 on all hold the last descriptor.
   */
  function Entry(i: nat, stationDump: Cmd): Cmd
  {
    match i
    case 0 => Cmd(None, "disconnect", None, NlCmd.Disconnect, 0, CibNetdev, HandlerRef.Disconnect, Some("Disconnect from the current network."))
    case 1 => Cmd(None, "connect", Some("<SSID> <freq in MHz> [<bssid>]"), NlCmd.Connect, 0, CibNetdev, IwConnect, Some("Join the network with the given SSID (and frequency, BSSID)."))
    case 2 => Cmd(None, "event", Some("[-t] [-f]"), CmdUnspec, 0, CibNone, PrintEvents, Some(EventHelp))
    case 3 => Cmd(Some("ibss"), "leave", None, NlCmd.LeaveIbss, 0, CibNetdev, HandlerRef.LeaveIbss, Some("Leave the current IBSS cell."))
    case 4 => Cmd(Some("ibss"), "join", Some("<SSID> <freq in MHz> [fixed-freq] [<fixed bssid>] [key d:0:abcde]"), NlCmd.JoinIbss, 0, CibNetdev, HandlerRef.JoinIbss, Some(IbssJoinHelp))
    case 5 => Cmd(None, "info", None, GetWiphy, 0, CibPhy, HandleInfo, None)
    case 6 => Cmd(None, "list", None, GetWiphy, NlmFDump, CibNone, HandleInfo, None)
    case 7 => Cmd(Some("mpath"), "get", Some("<MAC address>"), GetMpath, 0, CibNetdev, HandleMpathGet, None)
    case 8 => Cmd(Some("mpath"), "del", Some("<MAC address>"), DelMpath, 0, CibNetdev, HandleMpathGet, None)
    case 9 => Cmd(Some("mpath"), "new", Some("<destination MAC address> next_hop <next hop MAC address>"), NewMpath, 0, CibNetdev, HandleMpathSet, None)
    case 10 => Cmd(Some("mpath"), "set", Some("<destination MAC address> next_hop <next hop MAC address>"), SetMpath, 0, CibNetdev, HandleMpathSet, None)
    case 11 => Cmd(Some("mpath"), "dump", None, GetMpath, NlmFDump, CibNetdev, HandleMpathDump, None)
    case 12 => Cmd(Some("scan"), "trigger", None, TriggerScan, 0, CibNetdev, HandlerRef.HandleScan, None)
    case 13 => Cmd(Some("scan"), "dump", None, GetScan, NlmFDump, CibNetdev, HandleScanDump, None)
    case 14 => Cmd(Some("station"), "get", Some("<MAC address>"), GetStation, 0, CibNetdev, HandleStationGet, None)
    case 15 => Cmd(Some("station"), "del", Some("<MAC address>"), DelStation, 0, CibNetdev, HandleStationGet, None)
    case 16 => Cmd(Some("station"), "set", Some("<MAC address> plink_action <open|block>"), SetStation, 0, CibNetdev, HandleStationSet, None)
    case _ => stationDump
  }

  /** Every descriptor, with the given descriptor for `station dump`. */
  function Table(stationDump: Cmd): (t: seq<Cmd>)
    ensures |t| == 18
    ensures t[17] == stationDump
  {
    seq(18, i requires 0 <= i < 18 => Entry(i, stationDump))
  }

  function CommandsAsWritten(): seq<Cmd> {
    Table(StationDumpAsWritten())
  }

  /** The table the rest of the model uses. */
  function Commands(): seq<Cmd> {
    Table(StationDumpCmd())
  }

  /** The group and name of every descriptor, in table order. */
  function ListedKeys(): seq<(Option<string>, string)> {
    [(None, "disconnect"), (None, "connect"), (None, "event"), (Some("ibss"), "leave"), (Some("ibss"), "join"),
     (None, "info"), (None, "list"), (Some("mpath"), "get"), (Some("mpath"), "del"), (Some("mpath"), "new"),
     (Some("mpath"), "set"), (Some("mpath"), "dump"), (Some("scan"), "trigger"), (Some("scan"), "dump"),
     (Some("station"), "get"), (Some("station"), "del"), (Some("station"), "set"), (Some("station"), "dump")]
  }

  lemma ListedKeysDistinct()
    ensures forall i, j | 0 <= i < j < |ListedKeys()| :: ListedKeys()[i] != ListedKeys()[j]
  {
  }

  lemma TableKeys()
    ensures |Commands()| == |ListedKeys()|
    ensures forall i | 0 <= i < |Commands()| :: Key(Commands()[i]) == ListedKeys()[i]
  {
    forall i | 0 <= i < |Commands()| ensures Key(Commands()[i]) == ListedKeys()[i] {
      assert Commands()[i] == Entry(i, StationDumpCmd());
      if i < 4 {
        assert Key(Entry(i, StationDumpCmd())) == ListedKeys()[i];
      } else if i < 8 {
        assert Key(Entry(i, StationDumpCmd())) == ListedKeys()[i];
      } else if i < 12 {
        assert Key(Entry(i, StationDumpCmd())) == ListedKeys()[i];
      } else if i < 15 {
        assert Key(Entry(i, StationDumpCmd())) == ListedKeys()[i];
      } else {
        assert Key(Entry(i, StationDumpCmd())) == ListedKeys()[i];
      }
    }
  }

  /** No two descriptors share a group and name. */
  lemma {:induction false} KeysDistinct()
    ensures forall i, j | 0 <= i < j < |Commands()| :: Key(Commands()[i]) != Key(Commands()[j])
  {
    TableKeys();
    ListedKeysDistinct();
  }

  /** Every descriptor that asks for a dump names a GET command. */
  lemma DumpsUseGetCommands()
    ensures forall i | 0 <= i < |Commands()| && Commands()[i].flags == NlmFDump :: IsGetCmd(Commands()[i].cmd)
  {
    forall i | 0 <= i < |Commands()|
      ensures Commands()[i].flags == NlmFDump ==> (IsGetCmd(Commands()[i].cmd))
    {
      var c := Entry(i, StationDumpCmd());
      assert Commands()[i] == c;
      if i < 4 {
        assert c.flags == NlmFDump ==> IsGetCmd(c.cmd);
      } else if i < 8 {
        assert c.flags == NlmFDump ==> IsGetCmd(c.cmd);
      } else if i < 12 {
        assert c.flags == NlmFDump ==> IsGetCmd(c.cmd);
      } else if i < 15 {
        assert c.flags == NlmFDump ==> IsGetCmd(c.cmd);
      } else {
        assert c.flags == NlmFDump ==> IsGetCmd(c.cmd);
      }
    }
  }

  /** As written, `station dump` is a dump request for a SET command, which no reply answers with stations. */
  lemma StationDumpAsWrittenIsNoGet()
    ensures StationDumpAsWritten() in CommandsAsWritten()
    ensures StationDumpAsWritten().flags == NlmFDump && !IsGetCmd(StationDumpAsWritten().cmd)
  {
  }

  /**
   The tables differ only in that descriptor's opcode: same key, flags,
   target and handler.
   */
  lemma StationDumpCorrection()
    ensures |CommandsAsWritten()| == |Commands()|
    ensures forall i | 0 <= i < |Commands()| - 1 :: CommandsAsWritten()[i] == Commands()[i]
    ensures var last := |Commands()| - 1;
            CommandsAsWritten()[last] == Commands()[last].(cmd := SetStation)
  {
  }

  /** `handle_station_get` serves exactly the get and del opcodes. */
  lemma StationGetHandlerOpcodes()
    ensures forall i | 0 <= i < |Commands()| && Commands()[i].handler == HandleStationGet :: Commands()[i].cmd == GetStation || Commands()[i].cmd == DelStation
  {
    forall i | 0 <= i < |Commands()|
      ensures Commands()[i].handler == HandleStationGet ==> (Commands()[i].cmd == GetStation || Commands()[i].cmd == DelStation)
    {
      var c := Entry(i, StationDumpCmd());
      assert Commands()[i] == c;
      if i < 4 {
        assert c.handler == HandleStationGet ==> c.cmd == GetStation || c.cmd == DelStation;
      } else if i < 8 {
        assert c.handler == HandleStationGet ==> c.cmd == GetStation || c.cmd == DelStation;
      } else if i < 12 {
        assert c.handler == HandleStationGet ==> c.cmd == GetStation || c.cmd == DelStation;
      } else if i < 15 {
        assert c.handler == HandleStationGet ==> c.cmd == GetStation || c.cmd == DelStation;
      } else {
        assert c.handler == HandleStationGet ==> c.cmd == GetStation || c.cmd == DelStation;
      }
    }
  }

  /** `handle_mpath_set` serves the new and set opcodes. */
  lemma MpathSetHandlerOpcodes()
    ensures forall i | 0 <= i < |Commands()| && Commands()[i].handler == HandleMpathSet :: Commands()[i].cmd == NewMpath || Commands()[i].cmd == SetMpath
  {
    forall i | 0 <= i < |Commands()|
      ensures Commands()[i].handler == HandleMpathSet ==> (Commands()[i].cmd == NewMpath || Commands()[i].cmd == SetMpath)
    {
      var c := Entry(i, StationDumpCmd());
      assert Commands()[i] == c;
      if i < 4 {
        assert c.handler == HandleMpathSet ==> c.cmd == NewMpath || c.cmd == SetMpath;
      } else if i < 8 {
        assert c.handler == HandleMpathSet ==> c.cmd == NewMpath || c.cmd == SetMpath;
      } else if i < 12 {
        assert c.handler == HandleMpathSet ==> c.cmd == NewMpath || c.cmd == SetMpath;
      } else if i < 15 {
        assert c.handler == HandleMpathSet ==> c.cmd == NewMpath || c.cmd == SetMpath;
      } else {
        assert c.handler == HandleMpathSet ==> c.cmd == NewMpath || c.cmd == SetMpath;
      }
    }
  }

  /** Only `event` and `list` run without a phy or netdev target. */
  lemma UntargetedCommands()
    ensures forall i | 0 <= i < |Commands()| && Commands()[i].idby == CibNone :: Commands()[i].name == "event" || Commands()[i].name == "list"
  {
    forall i | 0 <= i < |Commands()|
      ensures Commands()[i].idby == CibNone ==> (Commands()[i].name == "event" || Commands()[i].name == "list")
    {
      var c := Entry(i, StationDumpCmd());
      assert Commands()[i] == c;
      if i < 4 {
        assert c.idby == CibNone ==> c.name == "event" || c.name == "list";
      } else if i < 8 {
        assert c.idby == CibNone ==> c.name == "event" || c.name == "list";
      } else if i < 12 {
        assert c.idby == CibNone ==> c.name == "event" || c.name == "list";
      } else if i < 15 {
        assert c.idby == CibNone ==> c.name == "event" || c.name == "list";
      } else {
        assert c.idby == CibNone ==> c.name == "event" || c.name == "list";
      }
    }
  }
}
