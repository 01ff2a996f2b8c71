# libtelnet: a verified model

A Dafny model of the TELNET engine in `libtelnet.c` and of the forwarding proxy built on it.
`dafny verify dfyconfig.toml` checks everything.

The engine decodes a byte stream that the network may cut anywhere, negotiates 256 options
with its peer by the Q Method of RFC 1143, buffers and parses subnegotiations, and encodes
what the application sends. The model has two layers:

- **What the code does, in place.** `TelnetEngine.Telnet` is `struct telnet_t` with its
  methods; `Environ`, `Mssp` and `ZmpCodec` hold the payload parsers, which rewrite the array
  they read. `Relay` is the proxy's event handler.
- **What it means.** `Decoder` is a transducer that takes one byte at a time; `QMethod` is the
  option table next to the machine of RFC 1143; `Encoder` says which bytes each sender emits.
  `Window` connects the decoder's loop to the transducer. `Invariants`, `Delivery`, `Sessions`,
  `Notices`, `Proxy`, `Peers`, `Network`, `Traffic` and `ByteNetwork` prove what follows over
  whole runs.

The application's handler is a log of events. An application cannot tell how data was cut into
DATA events, so logs are compared by their *atoms*: every DATA event cut into single bytes.
`Events.SameMerged` proves that this is equality after merging adjacent DATA events.

Main results, each for every input, run or chunking:

- `Telnet.Process` does what the transducer does, and `Decoder.SplitPoint` says exactly when
  cutting the input elsewhere changes the report.
- `Sessions.SessionRoundTrip`, `NewEnvironRoundTrip`, `ZmpRoundTrip`, `TtypeRoundTrip`,
  `MsspRoundTrip` and `Delivery.TextRoundTrip`, `DataRoundTrip`: the decoder undoes what was
  written, with the exact condition for each; `Sessions.PayloadVerdict` covers every other payload.
- `Notices.HeardReport`, `AllSwitchesTold` and `DoAnswered`: what the application is told and the
  peer answered when a verb is received.
- `Proxy.Transparent`: a proxy in the middle is not noticed.
- `QMethod.RefinesRfc1143`, `Network.ConnectionAgreement`, `Traffic.AtMostTwoPerRequest` and
  `Traffic.ConnectionSettles`: negotiation follows RFC 1143, ends in agreement, and ends.
  `ByteNetwork.LinkIsNetwork` carries this to two decoders joined by byte streams.
- `Invariants.AlwaysSound`, of the object by `Telnet.Reached`: what every reachable tracker keeps.
- `Environ.ParseEnviron` and `Mssp.ParseMssp`: the in-place parsers compute the pure parse of
  the payload they destroy.

Where the code departs from what its documentation or the RFCs promise, the model follows the
code, and the statement says exactly when the promise holds:

- A WONT received in WANTNO_OP moves to WANTYES and raises a DO event but sends no DO
  (libtelnet.c:424-427). RFC 1143 sends it, and so does the mirror case (libtelnet.c:482-486).
  The two peers then never agree again; `Peers.Agreement` shows this is the only way to disagree.
- An event does not always name the verb received, as `libtelnet.h` says: the DONT that confirms
  our WONT is reported as WONT, among others (`Notices.EventNamesVerb`).
- After the MCCPv1 sequence IAC SB 85 WILL the window starts one past the current byte
  (libtelnet.c:1082). If the chunk ends there, or IAC follows, the next DATA event's unsigned
  size wraps; the model calls that event `Wrapped`.
- `telnet_newenviron_value` does not apply the ESC encoding that the parser undoes, and the
  parser rejects an ESC-encoded payload that ends in ESC (`EnvironCodec.PlainMisread`,
  `EscapeRejected`).
- A successful ENVIRON payload ended by a stray command drops that command byte
  (libtelnet.c:1139-1141), because the parser returns 1; the data byte after it is then read as a
  command (`Sessions.StrayCommandDelivered`, `StrayCommandLost`).
- `telnet_ttype_is` sends its name without escaping IAC (libtelnet.c:1603).
- `telnet_send` leaves line ends alone, so a peer created with NVT_EOL merges a raw CR LF or CR NUL
  and takes any other byte after CR unexamined (`Delivery.DataRoundTrip`, `RawCrLf`).
- `libtelnet.h` promises an empty string for a missing value, but an MSSP payload that ends in
  VAL leaves its last cells with null pointers (`Mssp.PairsNearestVar`, `CellUnfilled`).

## Model

| member | source | states |
|---|---|---|
| Events.SameMerged | libtelnet.c:966-987 | two event logs have the same one-byte atoms exactly when merging adjacent DATA events makes them equal, so every statement below about atoms is a statement about what the application is told |
| Events.CoalescedIsCanonical | libtelnet.c:1155-1161 | a log without empty and without adjacent DATA events is determined by its atoms |
| QMethod.QMake | libtelnet.c:110-112 | packing the two sides into one byte loses neither |
| QMethod.SideRefines | libtelnet.c:375-493 | one received verb or request takes a side where section 7 of RFC 1143 takes it, with the same error and the same message, except that a WONT heard in WANTNO_OP sends no DO |
| QMethod.RefinesRfc1143 | libtelnet.c:375-493 | over every list of received verbs and requests the packed bytes simulate us/usq and him/himq of RFC 1143; the messages equal the RFC's exactly when no WONT is heard in WANTNO_OP, and fall short by one DO for each that is |
| QMethod.UnsentDoWitness | libtelnet.c:424-427 | a concrete three-step run whose messages differ from the RFC's |
| QMethod.TableRunFrame | libtelnet.c:325-336 | no stimulus changes another option's byte or the side it does not concern |
| QMethod.EveryChangeIsTold | libtelnet.c:375-493 | whenever a received verb turns an option on or off its cell has the matching notice; Notices.AllSwitchesTold says so of the log |
| QMethod.NoticeIs | libtelnet.c:375-493 | the notice and the warning of every cell, from the state before and after: 24 cells of four received verbs |
| QMethod.AskIsSilent | libtelnet.c:1245-1312 | no request is reported back to the application that made it |
| Notices.HeardReport | libtelnet.c:349-494 | a verb received outside PROXY mode, under any chunking: the log grows by at most one SEND, then at most one event, for that option and exactly the one its cell has, then a warning exactly where an enabling verb is heard in WANTNO or WANTNO_OP |
| Notices.AllSwitchesTold | libtelnet.c:349-494 | over every input outside PROXY mode, under any chunking, for every option: if received bytes switch the peer's side on or off the log holds its WILL or WONT, and for our side DO or DONT |
| Notices.EventNamesVerb | libtelnet.h:209-213 | the event names the verb received exactly unless an enabling verb is heard in WANTNO, a WONT in WANTNO_OP, or a DONT in WANTNO or WANTNO_OP |
| Notices.RequestReport | libtelnet.c:1231-1313 | a request outside PROXY mode raises at most one SEND event and nothing else |
| Notices.DoAnswered | libtelnet.c:307-313 | IAC DO o with our side off, under any chunking, for every table entry 4k+2l+r: answered IAC WILL o and reported exactly when l is 1, and IAC WONT o when l is 0 |
| Notices.WillAnswered | libtelnet.c:316-322 | IAC WILL o with the peer's side off: answered IAC DO o and reported exactly when r is 1, and IAC DONT o when r is 0 |
| Notices.NoTableRefusesDo | libtelnet.c:308-310 | without a support table DO is answered by WONT |
| Notices.NoTableRefusesWill | libtelnet.c:317-319 | without a support table WILL is answered by DONT |
| Peers.Agreement | libtelnet.c:375-493 | for every interleaving of requests and deliveries between two peers: at most two messages in flight; no request answered backwards unless a DO went unsent; and in silence both sides are on or both off exactly when no WONT was heard in WANTNO_OP |
| Peers.DisciplinedAgreement | libtelnet.c:1282-1295 | if the using side never asks DO while its last DONT is unanswered, the peers always agree in silence and no answer is ever backwards |
| Peers.UnsentDoDisagrees | libtelnet.c:424-427 | a concrete run that ends in silence with one side off and the other waiting for ever |
| Peers.TwoMessagesPerRequest | libtelnet.c:1245-1312 | every run, disciplined or not, sends at most two messages per application request |
| Peers.DeliveriesRunOut | libtelnet.c:349-494 | once requests stop, each delivery lowers a measure, so deliveries end in silence |
| Network.ViewRun | libtelnet.c:349-494 | two whole engines with 256 options each: what happens to one option in one direction is a run of two peers, and the unsent-DO cell is met in one exactly when it is met in the other |
| Network.ConnectionAgreement | libtelnet.c:349-494 | for every run of two fresh engines, in silence every option agrees in each direction exactly when its user never heard a WONT in WANTNO_OP |
| Network.ConnectionInFlight | libtelnet.c:349-494 | at most two messages about an option and direction are ever in flight, whatever the other options do |
| Traffic.AtMostTwoPerRequest | libtelnet.c:1231-1313 | summed over all options and both directions, the two engines send at most two messages per request of either application |
| Traffic.ConnectionSettles | libtelnet.c:349-494 | once both applications stop asking, every delivery lowers the measure of the whole connection: at most that many are possible, and after exactly that many both channels are empty |
| ByteNetwork.LinkIsNetwork | libtelnet.c:957-1062 | two engines joined by two byte streams, each call of telnet_recv taking any number of the bytes in flight and cutting messages anywhere, requests made at any moment: every such run is a run of the whole-message network, with the same tables, the same number of requests, three bytes per message, and the unsent-DO cell met for the same options |
| ByteNetwork.LinkAgreement | libtelnet.c:957-1062 | so over byte streams too: when both are read to the end both engines are between messages, and every option agrees in each direction exactly when its user never heard a WONT in WANTNO_OP |
| ByteNetwork.SixBytesPerRequest | libtelnet.c:338-346 | at most six bytes are sent per request, and at most that many calls of telnet_recv find anything to read |
| Environ.CountIsEntries | libtelnet.c:560-634 | the counting pass and the parsing pass see the same number of variables |
| Environ.CopySegment | libtelnet.c:586-629 | copies one name or value down over the buffer it reads: the result is the unescaped segment with its NUL, the write pointer ends behind the read pointer, and neither unread bytes nor anything below the start change |
| Environ.FillSlot | libtelnet.c:583-633 | one variable: its name and value are stored below the cursor, which ends where the pure parser says |
| Environ.FillSlots | libtelnet.c:579-634 | exactly `count` cells are filled, each string still intact after the whole pass, and the cursor ends exactly at the payload's end |
| Environ.CountVars | libtelnet.c:560-569 | computes the number of unescaped type bytes |
| Environ.ParseEnviron | libtelnet.c:508-647 | for every payload the events raised and the value returned are those of the pure parser on the original payload, error cases included |
| Environ.AcceptsWellFormed | libtelnet.c:515-558 | by the bytes of the payload: it is accepted exactly if it is a command 0, 1 or 2 alone, or one followed by 0 or 3 and not ending in 2; an empty one is ignored and every other draws one warning |
| EnvironCodec.EscapeRoundTrip | libtelnet.c:520-634 | parsing undoes the ESC encoding of section 2 of RFC 1572 for every list of variables exactly when the command is 0, 1 or 2 and the encoded payload does not end in ESC; otherwise it gives one warning |
| EnvironCodec.PlainRoundTrip | libtelnet.c:1576-1589 | the unescaped form telnet_newenviron_value sends is parsed back exactly when the command is 0, 1 or 2, no name holds a byte 0-3 and no value holds 0, 2 or 3; any other command gives one warning |
| EnvironCodec.EscapeRejected | libtelnet.c:554-558 | a concrete list of variables whose encoding the parser rejects: the last value ends in ESC |
| EnvironCodec.PlainMisread | libtelnet.c:1582-1589 | a concrete name that comes back as a shorter name with a value nobody sent |
| EnvironCodec.EntriesThin | libtelnet.c:579-634 | conservation of ESC bytes: a parse keeps as many as it was given only if it was given none |
| Mssp.PairsNearestVar | libtelnet.c:670-716 | one cell per VAL, in order, each pairing the segment after that VAL with the segment after the nearest VAR before it; all cells are filled exactly when no VAL ends the payload |
| Mssp.CopySegment | libtelnet.c:691-697 | moves one segment down by one cell; everything not yet read is untouched |
| Mssp.CellUnfilled | libtelnet.c:670-716 | a concrete payload ending in VAL whose event holds a cell with null pointers |
| Mssp.FillCell | libtelnet.c:691-716 | one turn of the in-place loop, with the read past the payload left open: the next pair of the pure parser is stored, and the invalid-data branch is never reached |
| Mssp.FillCells | libtelnet.c:688-716 | the whole loop stores exactly the pure parser's pairs, intact at the end |
| Mssp.CountVals | libtelnet.c:670-675 | counts the VAL bytes |
| Mssp.ParseMssp | libtelnet.c:650-726 | for every payload the events are those of the pure parser on the original payload |
| MsspCodec.RoundTrip | libtelnet.c:650-726 | any list of variables with any number of values each, written VAR name (VAL value)*, comes back as one cell per value, in order, each under its own name, exactly when there is a variable, no string holds 2, no value and no name that has a value holds 1, and the last value written is not empty |
| Sessions.MsspRoundTrip | libtelnet.c:860-861 | the same framed for option 70 and received under any chunking: the subnegotiation and one MSSP event, exactly when the payload also fits |
| ZmpCodec.JoinedRoundTrip | libtelnet.c:735-763 | a list of arguments, each sent with its NUL, is parsed back exactly when it is not empty and no argument holds NUL |
| ZmpCodec.ArgsSpellPayload | libtelnet.c:742-757 | the parsed arguments, joined again, spell the payload |
| ZmpCodec.CountArgs | libtelnet.c:742-744 | the counting pass ends exactly at the payload's end with the number of strings |
| ZmpCodec.FillArgs | libtelnet.c:753-757 | the filling pass stores one pointer per string and ends at the payload's end |
| ZmpCodec.ParseZmp | libtelnet.c:729-768 | for every payload the events are those of the pure parser, a missing final NUL included |
| Decoder.RunConcat | libtelnet.c:957-1162 | reading x and then y within one window is reading x + y |
| Decoder.SplitPoint | libtelnet.c:1155-1161 | for every state and every split, two calls leave the state one call leaves, and report the same with DATA merged exactly unless the first chunk ends on an MCCPv1 start (byte 251 read in the payload of option 85) and ordinary data follows |
| Decoder.SkipsExactly | libtelnet.c:1075-1083 | the window is left behind exactly by a last byte 251 read in the payload of option 85 |
| Decoder.StreamEvents | libtelnet.c:957-1162 | under every chunking, MCCPv1 starts included, the state and every event but DATA are those of the whole stream |
| Decoder.StrayIsCommand | libtelnet.c:1127-1148 | a stray command ends the subnegotiation, which is reported, and is then read as a command exactly unless the payload is a well-formed one of option 36 or 39 |
| Decoder.SplitMatters | libtelnet.c:1075-1083 | the concrete split where the reports differ |
| Decoder.SizeWraps | libtelnet.c:964-972 | a concrete input, a command right after an MCCPv1 start, where the size of a DATA event wraps |
| Decoder.AnyChunking | libtelnet.c:1165-1220 | a stream that never reaches an MCCPv1 start gives the same state and events under every chunking |
| Window.TracksStep | libtelnet.c:961-1153 | a turn of the loop that does to the window what the transducer's step says keeps the log plus the pending window equal to the transducer's output |
| Window.TracksEnd | libtelnet.c:1155-1161 | the final flush completes one call |
| Window.TracksRestart | libtelnet.c:1101-1110 | handing the rest of the input to telnet_recv completes the call as if the loop had gone on |
| Window.StrayAdvances | libtelnet.c:1127-1148 | reading a stray command byte again through a one-byte call is one step of the transducer |
| Window.RestartAdvances | libtelnet.c:1133-1141 | when the parser returned 1 the turn ends with the command byte unread, which is the transducer's step too |
| Window.EolAdvances | libtelnet.c:990-1006 | CR LF and CR NUL become one byte; any other byte after CR is passed on with the CR, unexamined |
| Invariants.AlwaysSound | libtelnet.c:181-183 | over every mix of received bytes and requests from telnet_init: the buffer size is one of 0, 512, 2048, 8192, 16384 and never shrinks, the payload fits, the option bytes hold the six states, and the two BINARY bits say what option 0 has negotiated |
| Invariants.RunIsAfterAll | libtelnet.c:957-1162 | the state after a call of the decoder is the state after its bytes as single inputs, so what holds over every mix of inputs holds of the decoder |
| TelnetEngine.Telnet.Reached | libtelnet.c:181-183 | of the object itself, after any public calls since telnet_init: the invariants above, and every side neither supported nor requested is off |
| Invariants.UnsupportedStaysOff | libtelnet.c:307-322 | a side whose bit in the option's table entry is 0 (bit 1 ours, bit 0 the peer's) and that the application never requests stays off through every input |
| Invariants.CapacityIsLeast | libtelnet.c:919-955 | over every input the buffer has exactly the smallest of its sizes that holds the longest payload buffered so far |
| Invariants.RunSound | libtelnet.c:957-1162 | over every input the decoder reports no framing byte as a command, no payload over 16384 bytes, and for option 85 no payload with byte 251 |
| Sessions.HeardOnWire | libtelnet.c:1053-1061 | the three bytes IAC verb option, read between messages, are one received verb of the Q method: its table, its events |
| Invariants.ReactionWire | libtelnet.c:338-346 | the bytes sent in reaction are the three-byte forms of the Q method's messages |
| Encoder.NewEnvironWireIsFrame | libtelnet.c:1576-1589 | the pieces of a NEW-ENVIRON subnegotiation sent one by one are the frame of the whole payload |
| Encoder.ArgsWireIs | libtelnet.c:1653-1655 | the ZMP arguments sent one by one are the escaped whole payload |
| Sessions.SessionRoundTrip | libtelnet.c:1223-1338 | any list of telnet_send, telnet_iac, PROXY telnet_negotiate and telnet_subnegotiation calls, read by a PROXY peer under any chunking, is reported call by call in order exactly when every telnet_iac command is non-framing and every payload can be carried; if the peer translates line ends, for data that is plain |
| Delivery.DataRoundTrip | libtelnet.c:1316-1338 | the bytes of telnet_send arrive as they are, however they are cut, and leave the receiver between messages exactly when it does not translate line ends or every CR is followed by a partner that is no LF, NUL or IAC |
| Delivery.NoCrIsPlain | libtelnet.c:964-1006 | bytes without CR meet that condition |
| Delivery.RawCrLf | libtelnet.c:989-1006 | a raw CR LF sent to a peer created with NVT_EOL arrives as one LF |
| Sessions.FrameDelivered | libtelnet.c:1394-1405 | a subnegotiation arrives, under any chunking, exactly when it has at most 16384 bytes and (option 85) no byte 251; otherwise its payload is never reported |
| Sessions.LimitIsExact | libtelnet.c:919-955 | the 16385th payload byte, escaped or not, ends the subnegotiation with one warning; every earlier byte is buffered |
| Sessions.BufferedIsReceived | libtelnet.c:1064-1122 | in every state inside a subnegotiation the input read ends in the SB that opened it, the option, and the escaped form of exactly what is buffered |
| Sessions.ReportedInFull | libtelnet.c:1111-1148 | no payload is reported unless at least its whole escaped form with IAC SB, option, IAC and an ending byte was read |
| Sessions.StrayCommandDelivered | libtelnet.c:1127-1148 | a subnegotiation ended by a stray command, under any chunking: one warning, then everything as if IAC SE and IAC command had been sent, exactly unless the payload is a well-formed one of option 36 or 39 |
| Sessions.StrayCommandLost | libtelnet.c:1133-1141 | a concrete input whose command 241 is dropped and whose next data byte is reported as a command |
| Sessions.TtypeRoundTrip | libtelnet.c:1599-1605 | telnet_ttype_is received under any chunking: the subnegotiation and one TTYPE event with the same name, exactly when the name holds no IAC and fits the buffer |
| Sessions.TtypeSendDelivered | libtelnet.c:1592-1596 | telnet_ttype_send received under any chunking: the subnegotiation and one TTYPE SEND event |
| Delivery.TextRoundTrip | libtelnet.c:1341-1381 | text sent with transmit BINARY off is delivered byte for byte under any chunking, the decoder back where it was, exactly when the receiver translates line ends or the text has no CR and LF |
| Delivery.BinaryTextRoundTrip | libtelnet.c:1357-1359 | with BINARY on at both ends every text is delivered byte for byte |
| Sessions.NegotiationOnWire | libtelnet.c:1053-1061 | outside PROXY mode a byte stream of negotiation messages, cut anywhere, does to the option table what the messages do in the Q method, and the bytes sent back are the Q method's messages |
| Sessions.NewEnvironRoundTrip | libtelnet.c:1576-1589 | begin, any list of values, finish, received under any chunking: one subnegotiation and one ENVIRON event with the same command, kinds, names and values exactly when the payload fits, the command is 0, 1 or 2, and no string holds a mark; for another command one warning instead |
| Sessions.EnvironDelivered | libtelnet.c:856-859 | the same for options 36 and 39 and for both written forms, ESC-encoded or not |
| Sessions.EnvironRefused | libtelnet.c:520-527 | for both options and written forms, a command other than 0, 1 and 2 gives one warning in place of the event |
| Sessions.PayloadVerdict | libtelnet.c:822-865 | for every option and every payload, malformed ones included: which single event or warning, if any, follows the subnegotiation, by the option's number and the payload's first and last bytes |
| Sessions.ZmpRoundTrip | libtelnet.c:1608-1620 | telnet_send_zmp received under any chunking: one ZMP event with the same arguments exactly when there is one, none holds NUL and the payload fits |
| Proxy.Transparent | util/telnet-proxy.c:199-263 | for every input, state and chunking, decoding what the proxy sends on reports what decoding the input reports, WARNINGs aside |
| Proxy.TransparentWhenCalm | util/telnet-proxy.c:199-263 | the same as a condition on the input alone: it never reaches an MCCPv1 start |
| Proxy.ForwardedAtoms | util/telnet-proxy.c:201-206 | what the proxy sends does not depend on how data was cut into DATA events |
| Relay.HandleEvent | util/telnet-proxy.c:199-263 | one event makes the far engine send exactly its encoding, and changes nothing else there |
| Relay.ForwardAll | util/telnet-proxy.c:199-263 | a whole log makes the far engine send exactly the proxy's output |
| TelnetEngine.Telnet.constructor | libtelnet.c:872-884 | a fresh tracker is in the initial state with all options off |
| TelnetEngine.Telnet.TelnetIac | libtelnet.c:1223-1228 | sends IAC and the command |
| TelnetEngine.Telnet.TelnetSend | libtelnet.c:1316-1338 | the SEND events carry exactly the input with each IAC doubled |
| TelnetEngine.Telnet.TelnetSendText | libtelnet.c:1341-1381 | the SEND events carry exactly the NVT form of the text, by the current BINARY bit |
| TelnetEngine.Telnet.BeginSb | libtelnet.c:1384-1390 | sends the subnegotiation header |
| TelnetEngine.Telnet.TelnetSubnegotiation | libtelnet.c:1394-1405 | sends exactly the frame of the payload |
| TelnetEngine.Telnet.BeginNewEnviron | libtelnet.c:1576-1579 | sends header and command |
| TelnetEngine.Telnet.NewEnvironValue | libtelnet.c:1582-1589 | sends type byte and string, IAC-escaped only |
| TelnetEngine.Telnet.TtypeSend | libtelnet.c:1592-1596 | sends the six bytes of TERMINAL-TYPE SEND |
| TelnetEngine.Telnet.TtypeIs | libtelnet.c:1599-1605 | sends TERMINAL-TYPE IS with the name unescaped |
| TelnetEngine.Telnet.SendZmp | libtelnet.c:1608-1620 | sends the ZMP frame of its arguments |
| TelnetEngine.Telnet.SetRfc1143 | libtelnet.c:325-336 | stores one option byte and, for option 0, sets the two BINARY bits to match it |
| TelnetEngine.Telnet.ReceiveWill | libtelnet.c:377-410 | table, flags and events as the Q method's WILL |
| TelnetEngine.Telnet.ReceiveWont | libtelnet.c:413-433 | table, flags and events as the Q method's WONT |
| TelnetEngine.Telnet.ReceiveDo | libtelnet.c:436-468 | table, flags and events as the Q method's DO |
| TelnetEngine.Telnet.ReceiveDont | libtelnet.c:471-492 | table, flags and events as the Q method's DONT |
| TelnetEngine.Telnet.NegotiateOption | libtelnet.c:349-494 | in PROXY mode only reports the verb; otherwise reacts to it |
| TelnetEngine.Telnet.TelnetNegotiate | libtelnet.c:1231-1313 | in PROXY mode sends any command as it is; otherwise makes the Q method's request, and ignores bytes that are no verb; keeps the record of inputs that Reached is about |
| TelnetEngine.Telnet.AskWill | libtelnet.c:1250-1263 | table, flags and wire as the Q method's request to enable our side |
| TelnetEngine.Telnet.AskWont | libtelnet.c:1265-1279 | table, flags and wire as the Q method's request to disable our side |
| TelnetEngine.Telnet.AskDo | libtelnet.c:1281-1295 | table, flags and wire as the Q method's request to the peer to enable |
| TelnetEngine.Telnet.AskDont | libtelnet.c:1297-1311 | table, flags and wire as the Q method's request to the peer to disable |
| TelnetEngine.Telnet.StoreByte | libtelnet.c:919-955 | appends a byte, growing the buffer one size when full; at the last size it fails with one warning and changes nothing |
| TelnetEngine.Telnet.Subnegotiate | libtelnet.c:822-865 | reports the payload as it was, then what it means; the tracker's state is untouched although the buffer is overwritten |
| TelnetEngine.Telnet.OnData | libtelnet.c:964-987 | a data byte, which may flush the window on IAC or on a CR to translate: the new state is the transducer's, and the log with the window's pending data has grown by the transducer's output |
| TelnetEngine.Telnet.OnEol | libtelnet.c:989-1006 | the byte after CR, with the window start the source chooses: the new state is the transducer's, and the log with the window's pending data has grown by the transducer's output |
| TelnetEngine.Telnet.OnIac | libtelnet.c:1008-1051 | the byte after IAC: the new state is the transducer's, and the log with the window's pending data has grown by the transducer's output |
| TelnetEngine.Telnet.OnVerb | libtelnet.c:1053-1061 | the option byte of a negotiation, table and BINARY bits included: the new state is the transducer's, and the log with the window's pending data has grown by the transducer's output |
| TelnetEngine.Telnet.OnSb | libtelnet.c:1063-1068 | the option byte of a subnegotiation empties the buffer; nothing is reported |
| TelnetEngine.Telnet.OnSbData | libtelnet.c:1070-1089 | a payload byte, the MCCPv1 branch and its window start past the chunk included: the new state is the transducer's, and the log with the window's pending data has grown by the transducer's output |
| TelnetEngine.Telnet.OnSbDataIac | libtelnet.c:1091-1151 | the byte after IAC inside a subnegotiation (end, escaped IAC, stray command with its one-byte call): the new state is the transducer's, and the log with the window's pending data has grown by the transducer's output |
| TelnetEngine.Telnet.Process | libtelnet.c:957-1162 | for every input and every state the loop, its window, its flushes and its recursion end in the transducer's state and report the transducer's events, DATA merged; the mutual recursion terminates |
| TelnetEngine.Telnet.Recv | libtelnet.c:1165-1220 | the same for telnet_recv without compression, and it keeps the record of inputs |
| TelnetEngine.Telnet.RecvAll | libtelnet.c:1165-1220 | the same for a stream of any number of chunks |

## Left out

- zlib and MCCP2: the build without HAVE_ZLIB is modelled, so telnet_recv is `_process`.
- Allocation failure and error texts: allocation succeeds, and a warning records only its kind.
- Handler re-entrancy: the handler appends to the log and calls nothing back; the proxy forwards a log after the call that produced it.
- The bytes behind a `Wrapped` event: they lie outside the input.
- Initial flags other than PROXY and NVT_EOL: telnet_init would also accept the internal bits.
- Transparent: requires a log without `Wrapped`, because what the proxy would then forward lies outside the input, and a far peer without NVT_EOL, as telnet-proxy.c:452-455 creates both; `TransparentWhenCalm` gives the condition on the input.
- SessionRoundTrip: for a peer that translates line ends the condition on data is sufficient only, because a CR may also find its partner in the next call; `DataRoundTrip` is exact for one call.
- LinkAgreement: the byte streams carry negotiation only; data and subnegotiations between the messages are not part of it.
- C strings: names and values are the stored segments, each followed by NUL; a reader that stops at the first NUL sees less of an ENVIRON string that escapes NUL.
- telnet_printf and its variants, varargs ZMP and telnet_free: formatting, and members with little to prove.
- The proxy's sockets and printing, the other utilities, and the TypeScript layer, which marshals pointers to this engine.
