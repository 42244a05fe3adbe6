# iw (early nl80211 revision) in Dafny

A model of the command-line side of `iw`, the nl80211 configuration tool for
Linux wireless devices, as it stood in an early revision. The tool turns a
command line into one nl80211 request. It then reads the kernel's replies
through libnl and prints them. The model covers the pieces of that which are
logic rather than plumbing:

- **The command descriptors and the handler status convention** (`iw.h`).
  `Iw.Cmd` is a `struct cmd` value. `Registry` holds every descriptor that
  the `COMMAND`/`TOPLEVEL` lines of the files modelled here register. The descriptors are
  immutable datatype values, matching their `static const` storage.
- **The argument grammars of the handlers.** Each handler takes its tokens
  and gives a status plus the ordered list of typed attributes it appends to
  the request. Modules: `Interface`, `Station`, `Mpath`, `Ibss`, `Connect`,
  `Reg`, and the flag parser of `event`.
  - A request buffer is `Netlink.Msg`: the attributes so far and the number
    of further `NLA_PUT`s that fit. That is enough to express every
    `nla_put_failure` path without guessing libnl's wire layout.
- **The byte-level decoders and encoders:**
  - MAC address text (`Util`);
  - the information-element walk and the element printers of a scan result (`Scan`);
  - the addresses and status/reason fields of a management frame (`Event`);
  - the HT capability, A-MPDU and MCS fields of a band (`Info`).
- **The request exchange.** The handlers in station.c, mpath.c, reg.c and
  interface.c wait for the kernel's answer. This is a fold over an abstract
  sequence of received frames (`Exchange`): data, ACK, FINISH, error
  message, socket error. The fold applies the `finished` flag, the extra
  `nl_wait_for_ack`, and the exiting error handler.
- **The event listener.** Its multicast subscription decisions and its
  wait-set loop (`Event`).

Shared modules:
- `Base`: options, byte widths, powers of two, 32-bit wrap-around.
- `Text`: hex and decimal text, `strtoul`, splitting and joining.
- `Netlink`: commands, attribute tags, typed attributes, message buffers, handler outcomes.

For each discrepancy between the code and what it evidently means to do,
the model keeps two definitions: the behaviour as written and the corrected
behaviour. A lemma shows where the two differ. The rest of the model uses
the corrected definition. See "## Findings".

## Model

| member | source | states |
|---|---|---|
| Iw.IdentifyByValue | iw.h:17-21 | the target kind of a command is one of exactly three enumerators, numbered below 3 |
| Iw.IdentifyByOf | iw.h:17-21 | an integer names a target kind exactly when it is 0, 1 or 2 |
| Iw.IdentifyByExact | iw.h:17-21 | the enumerators and the values 0-2 correspond one to one, and no other value names a target kind |
| Iw.Classify | iw.h:30-34 | a handler's return value is exactly one of: negative error code, 0 success, 1 wrong arguments (show usage), 2 or more other failure |
| Iw.ClassifyRoundTrip | iw.h:30-34 | the classification loses no information: every return value is recovered from its class, and every well-formed class from its value |
| Registry.Table | iw.h:40-47 | the command table holds all 18 descriptors that the `COMMAND`/`TOPLEVEL` lines of the modelled files register, with `station dump` last |
| Registry.TableKeys | iw.h:44-47 | every `COMMAND` descriptor carries its group name and every `TOPLEVEL` descriptor carries no group; the (group, name) of each descriptor is the one its source line gives |
| Registry.KeysDistinct | iw.h:40-47 | no two registered descriptors share a group and a name |
| Registry.DumpsUseGetCommands | mpath.c:272-273 | in the corrected table, every descriptor that requests a dump (`NLM_F_DUMP`) names a GET command |
| Registry.StationDumpAsWrittenIsNoGet | station.c:296-297 | as registered, `station dump` requests a dump of the SET_STATION command, which is not a GET command |
| Registry.StationDumpCorrection | station.c:296-297 | the corrected table differs from the registered one only in the opcode of `station dump`; group, name, flags, target and handler are the same |
| Registry.StationGetHandlerOpcodes | station.c:186-189 | `handle_station_get` is registered exactly for the GET_STATION and DEL_STATION opcodes |
| Registry.MpathSetHandlerOpcodes | mpath.c:237-240 | `handle_mpath_set` is registered for the NEW_MPATH and SET_MPATH opcodes |
| Registry.UntargetedCommands | event.c:329 | only `event` and `list` run without a phy or netdev target |
| Util.MacToText | util.c:4-19 | `mac_addr_n2a` writes 17 characters: six two-digit lower-case hex groups separated by ':', with no leading or trailing colon |
| Util.FieldByte | util.c:32-37 | one field yields a byte exactly when it scans as hex and its value lies in 0..255, and the byte is that value |
| Util.MacFromText | util.c:21-46 | parsing succeeds exactly when there are at least six ':'-separated fields and each of the first six yields a byte; byte i is then field i |
| Util.MacAddrA2n | util.c:21-46 | the loop returns 0 with the parsed bytes exactly when the text is an address by `MacFromText`, and -1 otherwise; it leaves the argument buffer with some colons overwritten by NUL and no other change, so the caller's C string is now the text before the first ':' |
| Util.ScanFields | util.c:25-43 | the field loop stores six bytes exactly when there are six fields and each scans to a byte, each byte being its field's value; it cuts at least one colon unless the text has none |
| Util.CutColons | util.c:27-29 | `*cp = 0` only ever turns a ':' into NUL: the buffer keeps its length and every other character |
| Util.A2nLeaves | util.c:27-29 | the string left behind is a prefix of the argument without ':', and the whole argument when it has no ':' |
| Util.CutColonsKeepsFirstField | util.c:27-29 | once the first colon is cut, the C string the buffer holds is the text before it (the whole text when no ':' and no NUL is in it) |
| Util.MacRoundTrip | util.c:4-46 | the text `mac_addr_n2a` prints for any six bytes parses back to those six bytes |
| Util.MacIgnoresTrailingFields | util.c:25-45 | fields after the sixth are ignored: a valid address followed by ':' and anything parses to that address |
| Util.MacNeedsColons | util.c:38-43 | a word without ':' is one field, so it is never accepted as an address |
| Util.DecimalWordIsNoMac | util.c:38-43 | a word of decimal digits only, such as a frequency, is never accepted as an address |
| Util.IftypeName | util.c:48-67 | an interface type up to the maximum names its `ifmodes` entry; a larger value prints as "Unknown mode (n)" with n in decimal, read back as the same number |
| Scan.HandleScan | scan.c:15-32 | the trigger succeeds exactly when the SSID list can be allocated and holds its one entry: -ENOMEM without it, -ENOBUFS when full; on success the request gains the nested SSID list when it has room, and is unchanged otherwise |
| Scan.RequestedSsidsAppend | scan.c:25-26 | appending to a request without SSIDs makes it ask for SSIDs exactly when the appended attribute is an SSID list, namely its byte-string members |
| Scan.HandleScanRequestsWildcard | scan.c:15-32 | a successful trigger with room makes the request ask for exactly one SSID, the empty (wildcard) one; otherwise it asks for none, a passive scan |
| Scan.Encode | scan.c:97-113 | a list of elements is encoded as id, length and payload, one after another; an empty list is empty text |
| Scan.Walk | scan.c:97-113 | the corrected walk reads a prefix of whole elements, and stops only where no further whole element (two header bytes plus its payload) fits |
| Scan.WalkEncode | scan.c:97-113 | the corrected walk reads back exactly the elements that were encoded |
| Scan.WalkAsWrittenAgrees | scan.c:99 | the loop as written reads the same whole elements as the corrected walk, plus at most one final element whose payload runs one or two bytes past the buffer |
| Scan.WalkAsWrittenOnEncoding | scan.c:99-112 | on a buffer of whole elements, the loop as written reads exactly those elements |
| Scan.WalkAsWrittenOverreads | scan.c:99 | the two-byte buffer `00 02` passes the loop's guard and makes it read a 2-byte payload that is not there; the corrected walk reads nothing |
| Scan.WalkAsWritten | scan.c:99 | the loop as written takes a turn exactly when two bytes remain and the remaining length is at least the length byte; a final element that overruns lacks at most two of its declared payload bytes |
| Scan.PrintStep | scan.c:99-108 | a whole element prints as `PrintElement`; the printer of an overrunning element reads past the buffer exactly when it reads more bytes than are there |
| Scan.PrintIesAsWritten | scan.c:97-113 | `print_ies` as written prints one line per turn of the loop as written, in order |
| Scan.PrintIesAsWrittenAgrees | scan.c:97-113 | the lines as written are the corrected lines followed by at most one more, that of the element running past the buffer |
| Scan.PrintIesAsWrittenOverreads | scan.c:99 | for the buffer `00 02` the printer as written hands the SSID printer bytes past the end, and the corrected printer prints nothing |
| Scan.PrinterFor | scan.c:88-100 | ids 0, 1, 3, 5, 50 and 221 have a printer: SSID for 0, rates for 1 and 50, vendor for 221; every other id has none |
| Scan.DecodeRate | scan.c:60-62 | a rate byte gives the rate in 500 kbit/s units in its low seven bits (whole Mbit/s and a half) and the "basic" mark in the top bit |
| Scan.RateRoundTrip | scan.c:60-62 | rate bytes and decoded rates correspond one to one |
| Scan.EscapeByte | scan.c:42-47 | a printable SSID byte is printed as itself, any other as `\x` and two hex digits |
| Scan.EscapeSsid | scan.c:38-49 | the printed SSID is never shorter than the SSID, and is the same length when every byte is printable |
| Scan.UnescapeByte | scan.c:42-47 | every byte other than a backslash is read back from its printed form, whatever follows |
| Scan.EscapeSsidRoundTrip | scan.c:38-49 | an SSID without a backslash byte is recovered from its printed form |
| Scan.EscapeSsidAmbiguous | scan.c:42-47 | the printed form is ambiguous for SSIDs that contain a backslash: byte 0x01 and the bytes `\x01` print alike |
| Scan.PrintElement | scan.c:38-108 | an element goes to its printer: an unknown id is dumped with its payload; the SSID is escaped; rates are "supported" for id 1 and "extended" otherwise, one per byte; a vendor element splits into a 3-byte OUI and the rest; a DS or vendor element too short for its fixed fields is a read past the element |
| Scan.PrintIes | scan.c:97-113 | the corrected printer: one printed line per whole element, in buffer order |
| Scan.PrintBss | scan.c:115-168 | a reply is skipped when the BSS attribute is missing or does not parse, or has no BSSID; otherwise the BSSID text parses back to the BSSID, the reply's interface index is reported, each optional field is reported as given, and the elements are those printed by the corrected walk (none without IEs) |
| Event.ParseFlags | event.c:313-322 | the flag loop accepts exactly token lists made of "-f" and "-t", in any order and repeated; the flags set are those that occur |
| Event.ParseEventFlags | event.c:310-325 | after the command name, every token must be "-f" or "-t", otherwise 1; frame dumping is on exactly when "-f" occurs, timestamps exactly when "-t" occurs |
| Event.Subtype | event.c:40 | the subtype is the frame-control byte with its two low bits cleared |
| Event.FieldOf | event.c:40-62 | a status is decoded exactly for association and reassociation responses (at byte 26) and authentication frames (at byte 28), a reason exactly for disassociation and deauthentication (at byte 24); the protocol-version bits do not matter |
| Event.Needed | event.c:30-62 | every frame needs the 26 bytes of the length check; an (re)association response needs 28 for its status and an authentication frame 30; the reason of a deauthentication or disassociation lies within the 26 |
| Event.DecodeFrame | event.c:35-72 | the sender printed is address 2 (bytes 10-15) and the receiver address 1 (bytes 4-9); the whole frame is dumped exactly when -f was given |
| Event.PrintFrameAsWritten | event.c:16-73 | as written, a missing frame attribute is still dereferenced, and a frame of 26 or more bytes whose field lies beyond its end is read past its end |
| Event.PrintFrame | event.c:16-73 | the corrected printer reports a missing frame; a frame too short for what it decodes is invalid and dumped whole; it never reads outside the frame |
| Event.PrintFrameAgrees | event.c:30-62 | wherever the code as written reads only bytes that are there, the corrected printer prints the same |
| Event.PrintFrameAsWrittenOverreads | event.c:44-52 | a 26-byte association-response or authentication frame passes the length check, and its status is then read past the frame's end |
| Event.PrintFrameAsWrittenNull | event.c:24-28 | a deauthentication or disassociation event without a frame attribute makes the code as written read through NULL; the corrected printer says there is no frame |
| Event.Le16Bytes | event.c:44 | a 16-bit field is stored low byte first and read back by `(hi << 8) + lo` |
| Event.HeaderBytes | event.c:35-40 | a management header is 24 bytes with the frame-control byte first |
| Event.PrintFrameOfBuiltFrame | event.c:35-62 | for any frame built from a header and a body carrying the subtype's field: the summary names address 2 as sender and address 1 as receiver, and decodes the status (responses, auth) or reason (deauth, disassoc) value that was stored |
| Event.MlmeEventWith | event.c:169-198 | deauth and disassoc always print a frame summary; auth and assoc print the frame when present, else "timed out" when flagged, else "unknown event" |
| Event.MlmeEventAsWritten | event.c:189-197 | as written, a deauth or disassoc event without a frame leads to the NULL frame read |
| Event.MlmeEvent | event.c:169-198 | with the corrected printer no MLME event reads a missing frame or past a frame's end |
| Event.WaitEvent | event.c:213-226 | `wait_event` records the command exactly when it is in the wait set, and otherwise keeps what was recorded |
| Event.RecordBatch | event.c:213-226 | over a batch of messages the recorded command stays when nothing awaited arrives; otherwise it becomes the last awaited command of the batch, the one a search from the end finds |
| Event.ListenLoop | event.c:285-288 | the loop ends only after recording a non-zero command, which is the initial one or a member of the wait set; with nothing but 0 to wait for it never ends |
| Event.ListenWakesOnMatch | event.c:285-288 | when 0 is not awaited, the loop ends no later than the batch that holds the first awaited command |
| Event.Subscribe | event.c:241-272 | a failed lookup or join of "config" aborts with its code; "scan", "regulatory" and "mlme" are joined exactly when their lookup succeeds, and a failed join of one aborts |
| Event.JoinInOrder | event.c:250-272 | the groups joined in order are exactly those whose lookup succeeds, unless a join fails |
| Event.SubscribeJoinsInOrder | event.c:241-272 | the subscription is "config" followed by the optional groups joined in order: the first failure is the one reported, and the groups subscribed are those joined |
| Event.ListenEvents | event.c:228-293 | callback allocation failure returns -ENOMEM and a subscription failure its code, both as 32-bit values; with no wait set events are printed for ever; otherwise the value returned is a non-zero awaited command |
| Event.PrintEvents | event.c:301-328 | bad flags return 1; otherwise listening fails as the listener does, or monitors for good with the parsed flags |
| Info.PrintFlag | info.c:13-21 | a flag is preceded by " (" when the list is not yet open and by ", " when it is; the list is open afterwards |
| Info.FlagRun | info.c:13-21 | a run of flags from a closed list prints " (" and the names joined by ", "; the list is open after the run exactly when it was before or some flag was printed |
| Info.FlagList | info.c:145-171 | no flags print nothing; k ≥ 1 flags print " (f1, …, fk)", the closing ")" coming exactly when the list was opened |
| Info.PrintEntries | info.c:139-173 | an entry is printed with its value and flags in order when its main value is present, and skipped entirely when it is not |
| Info.PrintEntriesAppend | info.c:139-173 | printing two lists of entries one after the other is printing each in turn |
| Info.PrintEntriesSkipsMissing | info.c:142-165 | an entry without its main value leaves no trace wherever it stands |
| Info.FreqEntry | info.c:142-153 | a frequency entry has the FREQ value exactly when FREQ is present; the names "disabled", "passive scanning", "no IBSS" and "radar detection" each appear exactly when their attribute is present, in that order |
| Info.FreqFlags | info.c:146-153 | the flags of an entry are exactly those present, in the order of the tests |
| Info.FreqEntryRoundTrip | info.c:142-153 | the frequency and every flag attribute are read back from the printed entry |
| Info.RateEntry | info.c:164-169 | a bitrate entry has the RATE value exactly when RATE is present; its only possible flag is "short preamble supported", shown exactly when that attribute is present |
| Info.DecodeHtCaps | info.c:70-106 | the RX STBC stream count taken from bits 8-9 is below 4 |
| Info.LowBitsOfDecode | info.c:75-97 | the low eight bits of the capability field are recovered from the decoded LDPC, channel width, SM power save, greenfield, short GI and TX STBC values |
| Info.HighBitsOfDecode | info.c:98-105 | the high eight bits are recovered from the decoded RX STBC count, delayed block-ack, A-MSDU length, DSSS/CCK, PSMP, 40 MHz intolerance and L-SIG TXOP values |
| Info.HtCapsRoundTrip | info.c:70-106 | decoding loses none of the 16 bits of the HT Capabilities Info field (section 7.3.2.56.2 of IEEE 802.11n-2009) |
| Info.LowFieldsOfEncode | info.c:75-97 | the capabilities carried in bits 0-7 are decoded back from the field they are encoded into |
| Info.RxStbcOfEncode | info.c:98-99 | the RX STBC count is decoded back from bits 8-9 |
| Info.MiddleFlagsOfEncode | info.c:100-102 | delayed block-ack, the 7935-byte A-MSDU and DSSS/CCK in 40 MHz are decoded back from bits 10-12 |
| Info.TopFlagsOfEncode | info.c:103-105 | PSMP, 40 MHz intolerance and L-SIG TXOP protection are decoded back from bits 13-15 |
| Info.HtCapsEncodeRoundTrip | info.c:70-106 | decoding a field encoded from a capability set gives the set back: the decoding is onto |
| Info.MaxAmsdu | info.c:101 | the maximum A-MSDU length is 3839 bytes, or 7935 exactly when bit 11 is set |
| Info.HtLinesOf | info.c:74-105 | the lines of a decoded capability set are exactly those it shows, each once, in the order of the tests |
| Info.CapShowsDecoded | info.c:75-105 | reading the fields of the decoded set shows the same lines as testing the bits of the field directly |
| Info.HtCapLines | info.c:74-105 | the lines under "HT capabilities" are exactly those the bits show, in the order of the tests: always one channel-width, one SM power-save and one A-MSDU line, and one RX STBC line exactly when bits 8-9 are not both clear |
| Info.RankCountSorted | info.c:74-105 | in lines ordered strictly by test, a kind of line occurs once if at all |
| Info.HtCounts | info.c:76-101 | in the lines of a field, channel width, SM power save and A-MSDU length occur once each, and RX STBC once or not at all as bits 8-9 say |
| Info.HtLinesOfRoundTrip | info.c:74-105 | a capability set is read back from the lines it shows |
| Info.HtCapLinesRoundTrip | info.c:74-105 | the printed lines lose nothing: the decoded set and the whole 16-bit field are recovered from them |
| Info.AmpduMaxLength | info.c:107-110 | A-MPDU factor f gives a maximum length of 2^(13+f) − 1 bytes, for the factors a 32-bit shift can print |
| Info.AmpduMaxLengthMonotone | info.c:109 | a larger A-MPDU factor allows strictly longer A-MPDUs |
| Info.Density | info.c:111-127 | density 0 is no restriction, 1 is 1/4 µs, 2 is 1/2 µs, and d from 3 is 2^(d−3) µs for as long as the 32-bit shift is defined |
| Info.DensityOfStandardCodes | info.c:114-126 | the codes 3 to 7 stand for 1, 2, 4, 8 and 16 µs (section 7.3.2.56.3 of IEEE 802.11n-2009) |
| Info.McsLine | info.c:128-134 | the MCS set is printed exactly when the attribute is 16 bytes long, as a 47-character line |
| Info.McsLineRoundTrip | info.c:128-134 | the printed MCS line reads back byte by byte as the 16 bytes of the set |
| Info.PrintBand | info.c:62-173 | a band keeps its number; the HT block carries the field and its lines, the A-MPDU limit and the density their decoded values, each exactly when its attribute is present; the MCS line is that of its set; the frequency and bitrate lines are those of the entries |
| Info.FreqLines | info.c:137-157 | at most one frequency line per entry; when every entry has FREQ, one line each, in order, with its value and its flag list |
| Info.RateLines | info.c:159-173 | at most one bitrate line per entry; when every entry has RATE, one line each, in order, with its value and its flag list |
| Info.PrintBands | info.c:62-173 | the bands are reported in order and numbered consecutively from the first number, each with its HT presence, MCS line, frequency lines and bitrate lines |
| Info.PrintPhy | info.c:23-184 | a reply without bands is skipped; otherwise the bands are numbered from 1, and the interface modes are reported exactly when the list is present, each named by `iftype_name` |
| Interface.ParseIfTypeNameMatchesWords | interface.c:29-56 | the type-name chain accepts exactly adhoc/ibss, monitor, \_\_ap, \_\_ap\_vlan, wds, station and mp/mesh, each for its own type, and never the unspecified type |
| Interface.ParseIfTypeName | interface.c:29-56 | a word accepted names a type it is a word of, never the unspecified one; a word rejected is a word of no type |
| Interface.GetIfType | interface.c:15-57 | without "type" and a following token nothing is consumed and "not found" results; otherwise exactly two tokens are consumed, whether the name is valid or not |
| Interface.ParseAdd | interface.c:68-103 | `add` accepts exactly a name, "type", a type word, then nothing or "mesh_id" and one value; the spec keeps the name, a type the word names, and the mesh id exactly when given |
| Interface.ParseAddOfRender | interface.c:68-103 | every `<name> type <t> [mesh_id <id>]` line with a valid type word parses to its name, type and mesh id |
| Interface.ParseAddOnlyRenderings | interface.c:68-103 | every line `add` accepts is such a rendering: missing name or type, an invalid type, an unknown option, `mesh_id` without a value and trailing tokens are all rejected |
| Interface.InterfaceAdd | interface.c:59-134 | status is 0 or -1; a bad line, failed allocation or a phy selector give -1 with nothing sent; the request is NEW_INTERFACE with IFINDEX when a device is given, then IFNAME, IFTYPE and the MESH_ID bytes when given; 0 exactly when sending and the ACK both succeed |
| Interface.InterfaceAddTargetsDevice | interface.c:111-121 | a NEW_INTERFACE request names the device given, and no device when none is |
| Interface.InterfaceDel | interface.c:136-171 | no arguments and a device are required; the request is DEL_INTERFACE with the device's index; 0 exactly when sending and the ACK both succeed |
| Interface.InterfaceDelTargetsDevice | interface.c:151-158 | a DEL_INTERFACE request is only sent for a device, and names that device |
| Interface.InterfaceInfo | interface.c:199-249 | -1 exactly for arguments, failed allocation or a missing device; otherwise 0 whatever the exchange reports; a GET_INTERFACE request with the given flags and the device index is sent when it fits and callbacks exist |
| Interface.InterfaceInfoStatusIgnoresTransport | interface.c:199-249 | the status of `get`/`dump` depends only on the arguments, the allocation and the device, never on room, callbacks or the transport |
| Interface.InterfaceDelInfoSameTarget | interface.c:136-249 | `del` and `get` send the same single attribute, the device's index, with DEL_INTERFACE and GET_INTERFACE |
| Interface.PrintIface | interface.c:173-189 | one line for each of name, index and type that is present, in that order; each line shows the reply's value, the index read as a signed 32-bit number and the type named by `iftype_name` |
| Interface.IndexAndType | interface.c:183-186 | the index line and the type line, each present exactly when its attribute is, in that order |
| Interface.NameFirst | interface.c:181-182 | the name line comes before every other line |
| Interface.SubOf | interface.c:264-271 | the words "add", "del", "get" and "dump" select their subcommands and nothing else selects one |
| Interface.HandleInterface | interface.c:251-275 | no word or an unknown word gives -1; "add" and "del" run their handlers; "get" runs the info request with flags 0 and "dump" with `NLM_F_DUMP` |
| Exchange.Receive | station.c:167-171 | the read delivers at most the frames it was given, and without the exiting error handler it never ends the process |
| Exchange.FirstControl | station.c:171 | the read stops at the first frame that is not data |
| Exchange.ReceiveStopsAtFirstControl | station.c:167-171 | what the read returns is decided by the first frame that is not data (or by running out), after delivering every data frame before it |
| Exchange.AckStopsRead | station.c:31-37 | an ACK after n data frames sets `finished` and ends the read with 0, whatever follows; n replies were printed |
| Exchange.DumpDeliversEveryFrame | station.c:282-285 | a dump delivers every data frame before its FINISH and ends with 0 and `finished` set |
| Exchange.ErrorFirstExits | station.c:39-44 | an error message ends the process with its code before any reply is printed |
| Exchange.AckedExchange | station.c:160-184 | failed callback allocation or send gives the failure status; an error frame ends the process with its code; otherwise 0 exactly when the final error, replaced by the extra ACK wait when the read did not finish, is non-negative |
| Exchange.AckedExchangeIgnoresWaitWhenFinished | station.c:173-174 | when the ACK arrives the extra wait is not consulted |
| Exchange.UnfinishedReadDefersToAckWait | station.c:173-177 | a read that ends without the ACK leaves the result to the extra ACK wait |
| Exchange.DumpExchange | station.c:275-294 | a dump returns 0 exactly when callbacks, send and read all succeed, and the failure status otherwise |
| Station.PlinkAction | station.c:217-224 | "open" is action 1, "block" action 2, and no other word is an action |
| Station.StationGet | station.c:134-185 | no token gives -1 and an unparsable address 1; exactly one valid address with room appends that 6-byte MAC and runs the acknowledged exchange; otherwise nothing is appended |
| Station.StationGetOfAddress | station.c:147-158 | the printed form of an address asks for exactly that station |
| Station.StationSet | station.c:191-259 | fewer than 3 tokens give -1; a bad address, keyword or action give 1; trailing tokens give -1; otherwise MAC then the u8 action are appended and the acknowledged exchange decides |
| Station.StationSetOfAddress | station.c:205-232 | `<mac> plink_action open/block` sets action 1/2 for exactly that station |
| Station.StationDump | station.c:263-295 | any argument gives -1; nothing is appended; the dump exchange decides, 0 exactly when it succeeds and 1 otherwise |
| Station.PlinkStateName | station.c:100-127 | states 0 to 6 name LISTEN … BLOCKED, and any other value is UNKNOWN |
| Station.PlinkRead | station.c:100-101 | the state is read as 16 bits from a one-byte attribute: on a little-endian host it is named by its byte when the following byte is 0, and on a big-endian host by the following byte when its own byte is 0; otherwise it is UNKNOWN |
| Station.StaSlots | station.c:85-128 | each statistic has a slot in print order, filled exactly when its attribute is present and holding that attribute's value |
| Station.PrintSta | station.c:46-132 | a reply is skipped when STA_INFO is missing or does not parse; otherwise the address text parses back to the reply's MAC, and the present statistics are printed in order, each with its value, the plink state read in the host's byte order |
| Mpath.MpathGet | mpath.c:112-162 | no token gives -1 and an unparsable address 1; exactly one valid address appends the MAC and runs the acknowledged exchange; any other failure is -1 |
| Mpath.ParseSet | mpath.c:179-202 | accepted exactly as `<dst> next_hop <nh>` with two valid addresses; a bad address gives 1; a wrong count or keyword gives -1 |
| Mpath.ParseSetOfAddresses | mpath.c:179-202 | the printed forms of a destination and next hop parse back to them |
| Mpath.MpathSetAsWritten | mpath.c:168-236 | as written, the request sent is a fresh message with no header and only the destination and next hop |
| Mpath.MpathSet | mpath.c:168-236 | the corrected request keeps the header and attributes the dispatcher prepared, then adds MAC and NEXT_HOP; the acknowledged exchange decides |
| Mpath.MpathSetAsWrittenDropsHeader | mpath.c:204-209 | on an interface, `mpath new` as written sends a message with no header that lacks the interface index, while the corrected one carries both |
| Mpath.MpathDump | mpath.c:242-271 | arguments are not checked; nothing is appended; 0 exactly when the dump exchange succeeds, 1 otherwise |
| Mpath.ColumnSlots | mpath.c:86-106 | each information field has a slot in print order, filled exactly when the field is present, with its value |
| Mpath.Columns | mpath.c:86-106 | the columns printed are exactly the present fields, each with its value, in the order DSN, metric, queue length, expiry, discovery timeout, discovery retries, flags |
| Mpath.PrintMpath | mpath.c:47-110 | a reply is skipped when MPATH_INFO is missing or does not parse; otherwise destination and next hop text parse back to the reply's addresses and the columns are those of the information |
| Ibss.JoinKeys | ibss.c:52-61 | no tokens left is success; "key" or "keys" hands the remaining tokens to `parse_keys`; anything else is 1 |
| Ibss.JoinBssid | ibss.c:44-61 | a token that parses as an address is appended and consumed; any other token goes to the key check as `mac_addr_a2n` left it; success exactly for an optional lone address with room; keys follow exactly when a key token comes right after an address that fits, or a non-address token is cut down to "key"/"keys", and then the tokens after it go on with the message holding the address, if any |
| Ibss.JoinOptions | ibss.c:38-61 | "fixed-freq" adds the flag; the join then succeeds exactly for an optional BSSID and nothing else, with room for them; keys follow exactly when accepted options that fit are followed by a key token, and then the tokens after it go on with the message holding the options' attributes |
| Ibss.FixedFreqWords | ibss.c:38-50 | options that start with "fixed-freq" are accepted exactly when a lone BSSID or nothing follows, adding the flag first |
| Ibss.JoinIbss | ibss.c:14-64 | fewer than 2 tokens give 1; SSID and frequency are appended before the frequency text is checked (1 if not all digits); -ENOSPC when the buffer is full; success appends exactly SSID, frequency and the options' attributes; keys follow exactly when the head fits, the frequency is all digits and accepted options that fit are followed by a key token, and then the tokens after it go to `parse_keys` with the message holding SSID, frequency and the options' attributes |
| Ibss.KeysShift | ibss.c:52-61 | a key word found among the options is found in the whole line two tokens further on |
| Ibss.JoinKeyWithColons | ibss.c:44-56 | an option written "key:…" is never an address, since "key" does not scan as hex, but `mac_addr_a2n` cuts it to "key", so the join hands over to the keys with nothing after it and with SSID and frequency in the message, instead of returning 1 |
| Ibss.OptionWordsOfSpec | ibss.c:38-50 | the optional words of a join specification are accepted and add the flag and address it asks for |
| Ibss.JoinHeadOfRender | ibss.c:26-34 | the first two words of a specification's line give back its SSID and frequency |
| Ibss.JoinAttrsOfRender | ibss.c:26-50 | the attributes a specification's line appends are the specification's attributes |
| Ibss.JoinIbssOfSpec | ibss.c:14-64 | the line of any join specification succeeds with exactly that specification's attributes |
| Ibss.JoinIbssKeysOfSpec | ibss.c:14-64 | the line of any join specification followed by "key" or "keys" and key tokens hands exactly those tokens to `parse_keys`, with the message holding exactly the specification's attributes |
| Ibss.LeaveIbss | ibss.c:66-72 | leave appends nothing and succeeds |
| Connect.ConnectAttrs | connect.c:29-46 | an optional frequency and an optional address add one attribute each |
| Connect.ConnectBssid | connect.c:39-51 | a remaining token must be an address (else 1) and nothing may follow it (else 1) |
| Connect.ConnectFreq | connect.c:29-51 | a token made of digits only is appended as the frequency and consumed; any other token is left for the BSSID step |
| Connect.IwConnect | connect.c:12-54 | no tokens give 1; the SSID comes first; -ENOSPC when the buffer is full; success appends exactly the SSID, then the optional frequency and address |
| Connect.ConnectWordsOfSpec | connect.c:29-46 | the optional words of a connect specification are accepted and add its frequency and address |
| Connect.IwConnectOfSpec | connect.c:12-54 | the line of any connect specification succeeds with exactly that specification's attributes |
| Connect.Disconnect | connect.c:56-62 | disconnect appends nothing and succeeds |
| Reg.CharAt | reg.c:43-51 | reading a C string past its characters gives the terminating NUL |
| Reg.Alpha2Of | reg.c:78-80 | the code kept is the token's first two characters |
| Reg.AcceptedCodes | reg.c:34-80 | a token is accepted exactly when it has two upper-case letters (ISO 3166-1 alpha-2 shape) or "00" first; only those two characters are kept, so "USA" sets "US" |
| Reg.RegSet | reg.c:56-130 | a missing token, an invalid code or a trailing token give -1 with nothing sent; otherwise REQ_SET_REG carrying the two-character code is sent when allocation succeeds, and the acknowledged exchange decides |
| Reg.RegSetOfCode | reg.c:56-130 | a two-letter code or "00" given alone is sent unchanged |
| Reg.HandleReg | reg.c:132-155 | "set" runs the set handler on the remaining tokens; no word or any other word gives -1 |
| Netlink.Put | ibss.c:26-63 | one attribute is appended when there is room, and the put fails otherwise |
| Netlink.PutAll | ibss.c:26-46 | a run of puts lands completely exactly when there is room for all of them |
| Netlink.Fill | ibss.c:26-34 | a run of puts that stops part-way leaves the attributes that fitted |
| Netlink.FreqAttr | ibss.c:31-32 | the frequency attribute is a 32-bit value equal to the frequency whenever that fits |
| Netlink.TokenBytes | ibss.c:26 | a token's bytes are its UTF-8 encoding: at least one byte per character, and an ASCII token's bytes are its characters, one each |
| Netlink.Utf8 | ibss.c:26 | a character takes one to four bytes, one exactly when it is ASCII, in which case the byte is the character |
| Netlink.TokenBytesRoundTrip | ibss.c:26 | the token is read back from its bytes, so different tokens put different bytes |
| Text.StrToUl | ibss.c:31-33 | a token is fully consumed exactly when it is all digits, and then its value is the decimal number it spells (up to the `unsigned long` maximum) |
| Text.ScanHex | util.c:32 | a field scans as hex exactly when it starts with a hex digit |
| Text.HexListRoundTrip | util.c:9-17 | hex groups separated by a non-hex character split and scan back to the bytes |
| Text.SplitJoin | util.c:27-31 | splitting a join on the separator recovers the parts, provided none contains it |
| Text.JoinSplit | util.c:27-31 | joining the fields of a split gives back the string |
| Base.ToU32 | event.c:236-248 | a negative status returned as `__u32` wraps modulo 2^32 |
| Base.LittleEndian16 | event.c:44-59 | `(hi << 8) + lo` is the little-endian 16-bit value of the two bytes |
| Base.Present | mpath.c:86-106 | the present entries of a list of optional slots, in rank order, none missed |
| Base.PresentKeeps | mpath.c:86-106 | every present slot reaches the printed list |

## Left out

- Netlink session setup and teardown (iw.c) and the command dispatcher. The shown `main` only opens and closes the session and never walks the `__cmd` section. So no rule is modelled for how a command line selects a descriptor, or how the dispatcher prepares the header and the IFINDEX/WIPHY attributes; the handlers receive that message as a parameter.
- The libnl attribute codec (`NLA_PUT*`, `nla_parse`, `nla_parse_nested`, `nla_for_each_nested`). Requests are typed attribute lists, and a reply is the record of decoded values the handler looks at. `Netlink.Nested` says whether a nested attribute is absent, malformed or parsed.
- The socket I/O (`nl_send_auto_complete`, `nl_recvmsgs`, `nl_wait_for_ack`, `nl_cb_*`, multicast group lookups and joins). Their results are parameters: a `Session`, a `Transport`, or the `lookup`/`join` functions of the event listener.
- `exit()` in the error handlers is the `Exited` outcome.
- Printing: `printf` formats, `if_indextoname` (a reported interface index is the number, not the name it maps to), `gettimeofday` timestamps, and the strings of `get_status_str`/`get_reason_str`. What a handler prints is modelled as a report or line datatype carrying the decoded values.
- `isprint` is the C locale's printable range.
- `print_event`'s summaries of wiphy renames, scans, regulatory changes and IBSS joins are not modelled. Only the MLME summaries, which call `print_frame`, are.
- `parse_keys` is not part of this model. `Ibss.JoinIbss` ends in `KeysFollow` with the key tokens and the message at that point.
- Floating-point bitrates: a rate stays an integer number of 100 kbit/s.
- Text.ScanHex: models `sscanf("%x")` as the longest run of hex digits at the start of the field. Leading white space, signs and "0x" prefixes are not accepted, and the value is not capped at `int`.
- Text.StrToUl: models `strtoul(…, 10)` on digits only. White space, signs and `errno` are not modelled, and an overflowing value saturates at the `unsigned long` maximum.
- Connect.ConnectFreq: the `int freq` of connect.c is the frequency's low 32 bits, which is what `NLA_PUT_U32` sends; the intermediate signed int is not modelled.
- Util.IftypeName: takes the type as a natural number. A value of 2^31 or more, which `%d` prints as negative, is printed by the model as its unsigned value.
- Info.PrintBand: a band without FREQS or RATES is modelled as an empty list of entries. In C, info.c:139 and info.c:161 pass the missing attribute, a NULL pointer, to `nla_for_each_nested`, whose `nla_len` reads through it. That is the same NULL dereference as the event.c:24-28 finding. The model prints an empty list where the C program dereferences NULL.
- Info.FreqLines, Info.RateLines: state the lines one by one only when every entry has its main value; `Info.PrintEntriesSkipsMissing` states the general case, that an entry without it leaves no line.
- Info.PrintBands: states the numbering, the HT presence, the MCS line and the entry lines of each band; the HT lines, the A-MPDU limit and the density of a band are stated by `Info.PrintBand`, which each report is built by.
- Info.AmpduMaxLength and Info.Density: factors above 17 and densities above 33 are reported as out of range. For those, the C shift is undefined or overflows `int`.
- Station.PrintSta, Mpath.PrintMpath: the MAC, NEXT_HOP and IFINDEX attributes that the handlers read without checking are taken as present.
- Scan.PrintIes: prints through the corrected walk, so the element that runs past the buffer under the guard of scan.c:99 is not printed; `Scan.PrintIesAsWritten` prints that element, and `Scan.PrintIesAsWrittenAgrees` relates the two.
- Scan.PrintBss: the BSSID is taken as 6 bytes long and IFINDEX as present, since the handler reads both without checking; `if_indextoname` is not modelled, so the index is reported as a number. The elements are those of the corrected walk; `Scan.PrintIesAsWritten` is the loop as written.
- Util.MacAddrA2n: states that only colons are overwritten and that the first one is, not exactly which later ones; that is all a caller can observe through the C string.
- Netlink.TokenBytes: the argument vector is taken to hold UTF-8 text, since a Dafny string is a sequence of characters. An argument whose bytes are not valid UTF-8 cannot be expressed.
- Station.PlinkRead: the host's byte order and the byte that follows the one-byte attribute are parameters. Whether that byte is padding or something else depends on libnl's layout, which is not part of this model.
- phy.c: its one check (`argc != 1`) wraps a send and receive. phy.c is not part of this model.
- interface.c:254 and reg.c:135 read `argv[0]` before checking the count. With no tokens that is the argument vector's terminating entry, and its value is not used. The model checks the count first.
- interface.c's messages are not modelled: the `fprintf(stderr, …)` diagnostics, and the `printf` of "invalid interface command" at interface.c:273.

## Findings

| source | as written | input that shows it | evidently intended | confidence | as-written member | corrected member |
|---|---|---|---|---|---|---|
| scan.c:99 | the loop continues while `ielen >= ie[1]`, leaving the two header bytes out of the comparison | element bytes `00 02` (ielen 2): the guard passes and the SSID printer reads two payload bytes past the buffer | continue only while `ielen >= ie[1] + 2` | high (not executed) | Scan.WalkAsWrittenOverreads | Scan.WalkEncode |
| event.c:40-62 | after checking only `len >= 26`, the status of an association response is read from bytes 26-27 and that of an authentication frame from bytes 28-29 | a 26-byte authentication frame (frame control 0xb0) | treat a frame too short for its status field as invalid | high (not executed) | Event.PrintFrameAsWrittenOverreads | Event.PrintFrame |
| event.c:24-28 | `if (!attr)` prints " [no frame]" and carries on to `nla_data(attr)` | a deauthentication event without NL80211_ATTR_FRAME (event.c:189-192) | return after reporting the missing frame | high (not executed) | Event.PrintFrameAsWrittenNull | Event.MlmeEvent |
| mpath.c:204 | `msg = nlmsg_alloc()` replaces the message the dispatcher prepared, so the request has no nl80211 header and no interface index | `mpath new 00:00:00:00:00:01 next_hop 00:00:00:00:00:02` on any interface | append MAC and NEXT_HOP to the message the handler was given | medium (not executed) | Mpath.MpathSetAsWrittenDropsHeader | Mpath.MpathSet |
| station.c:296-297 | `station dump` is registered with NL80211_CMD_SET_STATION and NLM_F_DUMP | `station dump` on any interface: a dump request for a SET command, which yields no station replies to print | NL80211_CMD_GET_STATION, like `mpath dump` with GET_MPATH | high (not executed) | Registry.StationDumpAsWrittenIsNoGet | Registry.StationDumpCorrection |
