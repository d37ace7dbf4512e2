# A model of the uIP stack, with proofs

uIP is a TCP/IP stack for very small machines: one packet buffer, a fixed table of connections, one TCP segment in
flight per connection, and applications that produce their data again when a segment has to be retransmitted. This
project models the stack and the code around it in Dafny and proves what it keeps over whole runs, against any peer
and any network where that is possible, and under which exact condition where it is not.

`dafny verify dfyconfig.toml` checks everything.

## How it is laid out

| file | what it models |
|---|---|
| `Bytes`, `SeqNumbers`, `Checksum` | machine integers, four-byte sequence numbers and `uip_add32`, the Internet checksum |
| `Tcp`, `TcpSlot` | one connection of `uip_process` as functions, and as a class whose methods follow the source label by label |
| `TcpInvariant`, `TcpTimeouts`, `Rtt` | what every step of a connection keeps; how long it can live; its round-trip estimator |
| `TcpConduct` | which segment each event sends and what it reports to the application, by RFC 793 where the source follows it |
| `TcpTable`, `TcpStack` | the connection table: demultiplexing, choice of slot and of local port, as functions and as a class |
| `Sender`, `Stream`, `EndToEnd`, `Handshake` | `psock_send` on two endpoints over a network that loses, duplicates, reorders and cuts segments |
| `Reader`, `Psock` | the reading side of `psock.cpp`, and the class `Psock` with both sides |
| `Delivery` | from `psock_send` at one end to the reads at the other |
| `Packet`, `WireFormat`, `PacketBuffer`, `Wire` | packets as bytes, their fields by the RFCs, the code that fills them in place, and the packets of whole runs |
| `Split` | `uip_split_output` |
| `Incremental`, `Icmp` | checksum fields updated in place; echo replies |
| `FwCache`, `Forward` | the forwarding cache and `uip_fw_forward` |
| `ArpTable`, `Arp` | `arp_table` against a map, and the ARP module over `uip_buf` |
| `Dns`, `Resolver`, `ResolverRuns` | DNS names and answers, the resolver, and its runs |
| `Dhcp`, `DhcpClient` | DHCP messages and options, and the DHCP protothread |
| `Timers` | the wraparound timers |

Code that changes state is a class or a method on an array, proved equal to a function of the old state; the
properties are lemmas about those functions. Buffer size, table sizes and UIP_TCP_MSS are parameters. Sequence
numbers, addresses and ports are the numbers their bytes denote, except where the bytes are the point. The network,
the clock, the answers of application callbacks and the byte order of the machine are parameters. Protothreads are
modelled by an explicit resume point.

Where the source does not do what its comments or documentation say, the model follows the source:

- `uip_arp_timer` looks at empty entries only (`uip_arp.cpp:157`), so no binding ever expires.
- A callback that reports the end of a connection can keep its slot from ever being free with `uip_stop`
  (`TcpTimeouts.FreesExactly`).
- `timer_expired` is false at one clock value out of 2^32 (`Timers.ExpiredMeans`).
- `parse_options` gets the length of the whole message (`dhcpc.cpp:245`), so it can read on behind the message;
  `Dhcp.ReadsBehindExactly` says when.
- After a wrap of `arptime` the oldest ARP entry need not be the one given up (`ArpTable.OldestIsOldest`).
- An expired packet that arrives twice is answered twice, in spite of the cache (`Forward.TimeExceededRepeats`).
- A segment whose FIN the receiver takes loses data when split, and only such a segment (`Split.SplitIsFaithfulExactly`);
  the stack never emits data with a FIN (`Split.EmittedDataIsPlain`).

## Model

| member | source | states |
|---|---|---|
| TcpSlot.UipConn.Periodic | uip.cpp:735-816 | the timer branch in place: waiting states count up, outstanding data counts down, times out or is sent again, else the application is polled; refines `Tcp.Timer` |
| TcpSlot.UipConn.Outstanding | uip.cpp:746-807 | the part for outstanding data: give up and reset, or back off and retransmit |
| TcpSlot.UipConn.Resend | uip.cpp:778-806 | what is sent again in each state |
| TcpSlot.UipConn.AppSendLabel | uip.cpp:1717-1788 | label appsend: abort, close, or at most mss new bytes, or what was already outstanding |
| TcpSlot.UipConn.Rexmit | uip.cpp:1768-1789 | label apprexmit: data if there is any to send, a bare acknowledgement for new data, else nothing |
| TcpSlot.UipConn.Send | uip.cpp:1859-1898 | every segment carries snd_nxt, rcv_nxt and a window of UIP_TCP_MSS, or zero when stopped |
| TcpSlot.UipConn.Open | uip.cpp:444-462 | the slot fields of an active open |
| TcpSlot.UipConn.ReadMssOption | uip.cpp:1388-1419 | the segment size option clamped to UIP_TCP_MSS; without it both sizes stay as they were |
| TcpSlot.UipConn.Accept | uip.cpp:1362-1441 | label found_listen: the slot of a passive open and the SYNACK |
| TcpSlot.UipConn.EstimateRtt | uip.cpp:1502-1515 | the estimator in 8-bit arithmetic, signed char included |
| TcpSlot.UipConn.AckOutstanding | uip.cpp:1484-1525 | an acknowledgement counts exactly if it covers all that is outstanding |
| TcpSlot.UipConn.Found | uip.cpp:1444-1528 | label found: resets, the sequence check, the acknowledgement, then the switch; refines `Tcp.Input` |
| TcpSlot.UipConn.FoundSynRcvd | uip.cpp:1533-1554 | SYN_RCVD |
| TcpSlot.UipConn.FoundSynSent | uip.cpp:1556-1614 | SYN_SENT |
| TcpSlot.UipConn.FoundEstablished | uip.cpp:1617-1789 | ESTABLISHED: FIN, data unless stopped, the window rule, the callback |
| TcpSlot.UipConn.FoundFinWait1 | uip.cpp:1800-1827 | FIN_WAIT_1 |
| TcpSlot.UipConn.FoundFinWait2 | uip.cpp:1829-1844 | FIN_WAIT_2 |
| TcpSlot.UipConn.FoundSwitch | uip.cpp:1528-1855 | the switch over all states |
| TcpSlot.UipConn.AddRcvNxt | uip.cpp:671-679 | rcv_nxt advances modulo 2^32 |
| TcpInvariant.StepKeepsValid | uip.cpp:735-806 | every event keeps: mss <= initialmss <= UIP_TCP_MSS, nrtx <= 8 (5 in SYN states), len fixed by the state, and moves along an edge of the state diagram of section 3.2 of RFC 793 or closes |
| TcpInvariant.RunKeepsValid | uip.cpp:1528-1854 | the same for every reachable state |
| TcpInvariant.CausesOfChange | uip.cpp:1538-1853 | why an arrival changed the state: which acknowledgement or which FIN in sequence it must have carried |
| TcpTimeouts.GivesUpExactly | uip.cpp:746-807 | with a silent peer a waiting connection is unchanged in state until one exact tick and closed by it; before, exactly the ticks at which nrtx steps send what is outstanding again, and no other tick sends anything |
| TcpTimeouts.WaitingTickSends | uip.cpp:746-807 | what each tick of a waiting connection sends and reports: nothing, the SYN, SYNACK, FIN or data again, or a reset |
| TcpTimeouts.GiveUpTimes | uip.cpp:456 | that tick is t0+246 for data and FIN and t0+99 for a SYN; 100 after uip_connect, 102 in SYN_RCVD |
| TcpConduct.DataIsAcknowledged | uip.cpp:1666-1789 | data in sequence at a running connection is acknowledged in full by the segment sent at once, whatever the application replies |
| TcpConduct.HandshakeIsAcknowledged | uip.cpp:1533-1608 | so are the data that complete a passive open and the SYNACK that completes an active one |
| TcpConduct.ReceivedIsAcknowledged | uip.cpp:1528-1844 | in every state whatever moves rcv_nxt is acknowledged in the same step, except data that comes with the acknowledgement of the own FIN in FIN_WAIT_1 |
| TcpConduct.BareSegmentDrawsNothing | uip.cpp:1528-1856 | a bare acknowledgement draws no segment from a silent application, except in TIME_WAIT and SYN_SENT, so two ends never answer each other for ever |
| TcpConduct.StoppedIgnoresData | uip.cpp:1661-1673 | a stopped connection neither counts, shows nor answers data |
| TcpConduct.MisplacedIsAcknowledged | uip.cpp:1466-1481 | data, SYN or FIN at another number than rcv_nxt draws an acknowledgement of what is expected and changes nothing |
| TcpConduct.RepeatedSynIsAnswered | uip.cpp:1466-1481 | except a SYN in SYN_RCVD, which draws the same SYNACK again |
| TcpConduct.TimeWaitAnswers | uip.cpp:1846-1847 | TIME_WAIT acknowledges every segment but a reset, and is not prolonged |
| TcpConduct.ResetIsReported | uip.cpp:1447-1457 | a reset closes every connection, is reported as an abort, and draws nothing |
| TcpConduct.SynSentRefuses | uip.cpp:1600-1612 | SYN_SENT refuses everything else it looks at with a reset and reports an abort |
| TcpConduct.ResetRefuses | uip.cpp:1275-1325 | the numbers and flags of that reset, and that no reset answers a reset |
| TcpConduct.FinIsAnswered | uip.cpp:1620-1648 | a FIN at a running connection is answered by an own FIN that acknowledges it with all data before, and reported with these; while anything is outstanding the segment is ignored |
| TcpConduct.FinAfterOwnIsAnswered | uip.cpp:1800-1844 | after an own FIN that of the peer is acknowledged and reported |
| TcpConduct.OwnFinIsAcknowledged | uip.cpp:1790-1853 | the acknowledgement of the own FIN sends and reports nothing, but for the end reported in LAST_ACK |
| TcpConduct.ClosedIsMute | uip.cpp:1528-1856 | a stopped connection in CLOSED neither speaks nor reports |
| TcpConduct.CalledExactly | uip.cpp:1528-1856 | for which segments the application is called, exactly |
| TcpConduct.CallbackReason | uip.cpp:1528-1856 | when uip_connected, uip_aborted and uip_closed hold in that call |
| TcpConduct.CallbackContents | uip.cpp:1528-1856 | when uip_acked and uip_newdata hold, with which data and mss |
| TcpConduct.ReplyIsObeyed | uip.cpp:1717-1789 | what the reply makes the connection do: reset, FIN, new data up to mss, outstanding data again, an acknowledgement for new data or a restart, or nothing |
| TcpConduct.PollIsObeyed | uip.cpp:808-815 | an idle connection polls its application with every tick and obeys it likewise |
| TcpConduct.HeaderOfConnection | uip.cpp:1870-1894 | every segment an arrival draws carries snd_nxt, rcv_nxt and the window of the connection, which is zero when stopped, or is a refusal |
| TcpConduct.HeaderOfTick | uip.cpp:1870-1894 | the same for a tick |
| TcpConduct.WindowBoundsMss | uip.cpp:1684-1696 | the window of the peer bounds mss, zero counting as no bound |
| TcpConduct.OptionSetsSizes | uip.cpp:1388-1419 | the segment size option sets both sizes, clamped; without it both stay |
| TcpConduct.AckRestartsTimer | uip.cpp:1501-1521 | an acknowledgement restarts the timer with the estimate, which a retransmitted segment leaves alone |
| TcpConduct.PassiveOpenAnswers | uip.cpp:1362-1441 | a passive open answers with a SYNACK that carries this host's segment size |
| TcpTimeouts.TickSpendsBudget | uip.cpp:735-807 | a tick either frees a closing slot or lowers a bound on the ticks left |
| TcpTimeouts.ArrivalKeepsBudget | uip.cpp:1790-1854 | no segment whatever can raise that bound |
| TcpTimeouts.PhaseEnds | uip.cpp:735-807 | against any peer and any application, each phase of a teardown ends within its own bound of ticks, a stopped TIME_WAIT excepted |
| TcpTimeouts.PhaseBounded | uip.cpp:735-807 | these bounds are 501 for FIN_WAIT_1 and CLOSING together and for LAST_ACK, 256 for FIN_WAIT_2, 120 for TIME_WAIT |
| TcpTimeouts.WaitsExactly | uip.cpp:735-739 | left alone, FIN_WAIT_2 and TIME_WAIT end silently at the exact tick at which their 8-bit timer reaches 120 |
| TcpTimeouts.HaltedExactly | uip.cpp:1790-1854 | a closing slot becomes unusable, closed or waiting with the stopped flag set, by exactly those events that report its end and are answered by uip_stop |
| TcpTimeouts.TeardownIsBounded | uip.cpp:1790-1854 | in every run without such an event a closing slot is free or reused once its bound of ticks has passed |
| TcpTimeouts.BudgetBounded | uip.cpp:735-807 | the bound is at most 501 ticks in LAST_ACK, 256+120 in FIN_WAIT_2, 120 in TIME_WAIT, 877 overall |
| TcpTimeouts.SlotFreeAfter877Ticks | uip.cpp:735-807 | hence 877 ticks after any close began the slot has been free or reused |
| TcpTimeouts.FreesExactly | uip.cpp:735-807 | in every run, against any peer and any application: once its bound of ticks has passed a closing slot has been free or reused, unless such an event came first and no later one released the slot, and only then |
| TcpTimeouts.ReleasedExactly | uip.cpp:1447-1453 | an unusable slot becomes free by exactly a reset or a timeout that is not answered by uip_stop |
| TcpTimeouts.StopFromCloseCallback | uip.cpp:1790-1854 | for all closing states: an arrival leaves the slot stuck if and only if it reports the end of the connection with nothing left outstanding and is answered by uip_stop |
| TcpTimeouts.StuckForever | uip.cpp:735-741 | a stuck slot is never freed by anything but a reset |
| TcpTimeouts.StuckDoesNotTick | uip.cpp:735-741 | not even its timer counts |
| TcpTimeouts.UndeadExactly | uip.cpp:746-776 | a slot is left closed, stopped and with data outstanding exactly by uip_stop in the callback for a timeout, or for a reset with data outstanding |
| TcpTimeouts.UndeadArrival | uip.cpp:1444-1528 | an arrival frees it if it is a reset not answered by uip_stop, makes it stuck if it acknowledges the data, and otherwise changes nothing |
| TcpTimeouts.UndeadAlone | uip.cpp:746-807 | it then times out again within 501 ticks, and is free at last if and only if that callback is not answered by uip_stop |
| TcpTimeouts.UndeadForever | uip.cpp:746-776 | so it is never free if every timeout is |
| RttEstimator.EstimatorIsExact | uip.cpp:1502-1519 | in every run of a slot whose samples lie in 0..B, 4 <= B <= 31, no 8-bit or signed char operation wraps: sa, sv and rto follow Jacobson's recurrence over the integers, with sa <= 8B+7, 3 <= sv <= 4B+3, 3 <= rto <= 5B+3 |
| RttEstimator.OpenedSlotIsExact | uip.cpp:1366-1368 | in particular from any opening of the slot on |
| RttEstimator.StartsWithin | uip.cpp:1366-1368 | both ways to open a connection start inside those bounds |
| TcpTable.FirstMatchIsOnlyMatch | uip.cpp:1246-1254 | the first slot that matches is the only one |
| TcpTable.RunKeepsSound | uip.cpp:1244-1373 | over every run no two live connections share ports and remote address, and every slot stays valid |
| TcpTable.PortSearchSucceeds | uip.cpp:407-423 | the port search ends within one try more than there are slots, across the wrap from 32000 to 4096 |
| TcpTable.ChosenIsUnique | uip.cpp:425-438 | first free slot, else the first of those longest in TIME_WAIT: this determines the slot |
| TcpTable.RefusedIffFull | uip.cpp:1354-1361 | a new connection is refused exactly when no slot is free or waiting |
| TcpTable.DialOpens | uip.cpp:403-465 | uip_connect changes exactly the chosen slot: it goes to the given host and port, from iss, with a local port no live connection has, and its SYN is due; without a slot nothing changes |
| TcpTable.AnswerFindsDialer | uip.cpp:1246-1254 | what comes back from there to that local port is given to that slot |
| TcpTable.IncomingIsDelivered | uip.cpp:1244-1254 | a packet of a live connection is seen by that connection alone |
| TcpTable.StrangerOpensOrIsRefused | uip.cpp:1256-1373 | any other packet opens a connection to its sender if it is a SYN for a port that is listened on and a slot can be taken, is dropped if none can, and is otherwise refused by a reset |
| TcpTable.OtherStepsMean | uip.cpp:712-717 | packets with a port 0 are dropped; a periodic call counts iss up and ticks one slot |
| TcpStack.Uip.FindConn | uip.cpp:1246-1254 | the demultiplexing loop finds the first match |
| TcpStack.Uip.FindSlot | uip.cpp:1340-1352 | the loop for a slot, including its early exit, makes the choice described |
| TcpStack.Uip.PortTaken | uip.cpp:417-423 | the loop over local ports |
| TcpStack.Uip.PickPort | uip.cpp:408-423 | the goto loop for a local port terminates with the first free candidate |
| TcpStack.Uip.IsListening | uip.cpp:1264-1270 | the loop over the listening ports |
| TcpStack.Uip.Connect | uip.cpp:403-465 | uip_connect over the whole table |
| TcpStack.Uip.Receive | uip.cpp:1244-1373 | an incoming segment over the whole table: its connection, a listening port, or a reset |
| TcpStack.Uip.Periodic | uip.cpp:712-817 | a tick for one connection, the initial sequence number counting up |
| Sender.ResumesBehindAcked | psock.cpp:157-166 | psock_send resumes exactly behind the acknowledged bytes if and only if mss still cuts the same chunk |
| Stream.DeliverStep | uip.cpp:1444-1855 | whatever segment of the peer, old or new, or reset arrives: the numbers move by exactly what was acknowledged and received, and what is sent fits the history |
| Stream.TickStep | uip.cpp:735-816 | the same for a tick |
| Stream.AcceptStep | uip.cpp:1362-1441 | the same for a passive open |
| Handshake.DataGetsThrough | uip.cpp:1330-1608 | for any initial sequence numbers and any first chunk some run opens the connection and shows the chunk, so the statements about runs are not empty |
| EndToEnd.StepKeepsInv | uip.cpp:1471-1525 | in both directions rcv_nxt of one side lies from snd_nxt to snd_nxt+len of the other, and every segment ever sent fits what its sender handed over |
| EndToEnd.CutsCompose | uip/uip-split.c:59-100 | a piece cut out of a piece is a piece of what was sent, so the network may cut segments any number of times |
| EndToEnd.ShownIsPrefixOfSent | uip.cpp:1673-1676 | at every moment of every run the bytes shown under UIP_NEWDATA are a prefix of the bytes given to psock_send |
| EndToEnd.AckedMeansShown | uip.cpp:1735-1780 | every chunk reported by UIP_ACKDATA has been shown to the other application, unless that one closed first |
| EndToEnd.FinishedMeansAllShown | psock.cpp:171-202 | once every psock_send has returned, in ESTABLISHED or later, and at all times after an own uip_close, everything handed over has been shown, unless the receiver closed first |
| EndToEnd.MssIsConstant | uip.cpp:1690-1695 | between two such hosts mss is the smaller UIP_TCP_MSS throughout ESTABLISHED |
| EndToEnd.ClosedReceiverDiscards | uip.cpp:1804-1844 | why the receiver must not have closed: data in sequence is counted without being shown exactly in FIN_WAIT_1 and FIN_WAIT_2 |
| ProtoSocket.Psock.DataIsSentAndAcked | psock.cpp:143-170 | send, repeat, or step over the acknowledged chunk |
| ProtoSocket.Psock.Send | psock.cpp:171-202 | psock_send in place is the thread used in the end-to-end proof, on as much of the buffer as sendlen can count |
| ProtoSocket.Psock.BufTo | psock.cpp:109-141 | both loops of buf_bufto: bytes up to the marker, those beyond the buffer dropped |
| ProtoSocket.Psock.NewData | psock.cpp:244-262 | psock_newdata: data is offered once |
| ProtoSocket.Psock.ReadTo | psock.cpp:264-289 | one psock_readto, resumed as often as it has to wait |
| ProtoSocket.Psock.ReadRecords | psock.cpp:264-289 | a thread of psock_readto returns all records of a callback and keeps the open one |
| ProtoSocket.Psock.BufData | psock.cpp:81-107 | the three cases of buf_bufdata |
| ProtoSocket.Psock.ReadLen | psock.cpp:291-317 | one psock_readbuf_len, including its restart when nothing was asked for and nothing came |
| ProtoSocket.Psock.ReadPieces | psock.cpp:291-317 | a thread of psock_readbuf_len returns all pieces of a callback and keeps the open one |
| Reader.SegmentationIndependent | psock.cpp:264-289 | what is read does not depend on how the stream was cut into segments |
| Reader.ReadToReturnsRecords | psock.cpp:264-289 | the k-th psock_readto returns the k-th record ended by the marker, cut to the buffer |
| Reader.ReadLenKeepsStream | psock.cpp:291-317 | psock_readbuf_len returns consecutive pieces of the stream of at least min(len, bufsize) bytes, nothing lost |
| Delivery.RecordsGetThrough | psock.cpp:264-289 | in every run of both ends a thread of psock_readto returns, in order and without a gap, the first records of what the other application gave to psock_send, cut to its buffer, and all of them once the other one has finished |
| Delivery.PiecesGetThrough | psock.cpp:291-317 | a thread of psock_readbuf_len returns the beginning of the same stream in pieces of the size it asked for |
| Delivery.StepShows | uip.cpp:1673-1676 | the segments these threads read are the data of the callbacks with UIP_NEWDATA |
| Checksum.ComputeChksum | uip.cpp:275-304 | the accumulator loop computes the one's complement sum |
| Checksum.ChksumIsFold | uip.cpp:275-304 | in closed form: start value plus big-endian words, folded |
| Checksum.ChksumCongruent | uip.cpp:285-292 | congruent to that sum modulo 65535 |
| Checksum.ChksumZero | uip.cpp:275-304 | zero if and only if everything summed is zero |
| Checksum.ChksumConcat | uip.cpp:341-345 | may be computed piece by piece at even lengths |
| Checksum.ChksumSwap | uip.cpp:306-310 | commutes with byte order, section 2 (B) of RFC 1071 |
| Checksum.FieldVerifies | uip.cpp:320 | adding the stored complement makes the check succeed, also for a zero sum |
| SeqNumbers.UipAdd32 | uip.cpp:244-269 | the carries of uip_add32 give addition modulo 2^32 |
| SeqNumbers.Add32IsModular | uip.cpp:244-269 | the case split used for that sum is addition modulo 2^32 |
| Bytes.ConversionsAreModular | uip.cpp:1503-1513 | the conversions to 8 and 16 bits are reductions modulo 2^8 and 2^16 |
| SeqNumbers.Join32Injective | uip.cpp:1491-1494 | comparing four bytes is comparing numbers |
| Packet.ParseMssOption | uip.cpp:1389-1419 | the loop over TCP options |
| Packet.SealVerifies | uip.cpp:1187-1219 | the upper layer checksum of an emitted packet verifies for every sum, odd or even length |
| Packet.SealVerifiesIp | uip.cpp:1925-1932 | and so does its header checksum |
| Packet.SealLayout | uip.cpp:1187-1219 | the parts of the packet stand where they belong, and a UDP checksum field is never zero, which would mean none |
| Packet.TcpPacketIsAccepted | uip.cpp:1859-1932 | an emitted TCP packet passes all input checks at the addressed host and is read there as the segment that was sent |
| Packet.UdpPacketIsAccepted | uip.cpp:1182-1219 | the same for UDP |
| Packet.TcpPacketFits | uip.cpp:1752-1758 | a segment within UIP_TCP_MSS fits into uip_buf with its link header |
| Packet.SendStaysInBuffer | uip.cpp:1964-1978 | for TCP and for UDP, whatever length uip_send is asked for, it ends inside uip_buf, and takes all of it if and only if that fits |
| Packet.UdpPacketFits | uip.cpp:1964-1978 | so a UDP packet of what uip_send accepted fits into uip_buf with its link header |
| WireFormat.TcpPacketOnTheWire | uip.cpp:1859-1932 | IP and TCP header fields of every emitted segment by their place in the packet, in network byte order |
| WireFormat.TcpRestOnTheWire | uip.cpp:1421-1441 | its flag bits, segment size option and data |
| WireFormat.UdpPacketOnTheWire | uip.cpp:1182-1219 | header fields and data of every UDP packet |
| WireFormat.IpAcceptedExactly | uip.cpp:860-985 | which bytes are accepted as an IP packet for this host, and what is cut off |
| WireFormat.TcpAcceptedExactly | uip.cpp:1225-1244 | which of these as a TCP segment |
| WireFormat.TcpIsReadExactly | uip.cpp:1244-1254 | and what is read from it |
| WireFormat.FlagsAreBits | uip.cpp:1256-1259 | the flags as bits of byte 13 of the TCP header |
| WireFormat.FirstSizeIsRead | uip.cpp:1389-1419 | on every well-formed list of options the first segment size option is read, wherever it stands |
| PacketBuffer.UipBuf.UipIpchksum | uip.cpp:313-321 | the header checksum over the buffer |
| PacketBuffer.UipBuf.UpperLayerChksum | uip.cpp:324-348 | the pseudo-header checksum over the buffer |
| PacketBuffer.UipBuf.SendTcp | uip.cpp:1872-1932 | labels tcp_send to ip_send_nolen leave exactly the described packet in uip_buf |
| PacketBuffer.UipBuf.SendUdp | uip.cpp:1182-1219 | label udp_send likewise |
| PacketBuffer.UipBuf.SendNolen | uip.cpp:1913-1932 | label ip_send_nolen |
| PacketBuffer.UipBuf.UipSend | uip.cpp:1964-1978 | uip_send: the length it accepts and what it copies |
| PacketBuffer.UipBuf.UdpApplicationSends | uip.cpp:1182-1219 | what a UDP application sends leaves as a packet of the accepted bytes, within the buffer, or not at all |
| Wire.EmittedPacketIsAccepted | uip.cpp:1859-1932 | after any run, the packet of whatever a connection emits is accepted and read back at its remote host, between its two ports, and fits |
| Wire.ResetIsAccepted | uip.cpp:1275-1325 | the same for the reset that answers a segment without a connection |
| Wire.DialledSynArrives | uip.cpp:444-462 | the SYN of uip_connect goes out with the second tick and is accepted at the dialled host for the dialled port |
| Split.SplitOutput | uip/uip-split.c:49-135 | the in-place code sends exactly two packets for a maximal TCP packet, else the one it was given |
| Split.MoveDown | uip/uip-split.c:109 | the overlapping move of the payload |
| Split.HalvesAreAccepted | uip/uip-split.c:59-100 | both packets pass the input checks and carry the two halves at consecutive sequence numbers modulo 2^32, lengths at most one apart |
| Split.SplitPreservesStream | uip/uip-split.c:54-129 | the two packets are received as the two halves, and a receiver past the handshake that gets them in sequence shows the same bytes and has the same rcv_nxt as after the whole packet, if and only if it does not take a FIN behind data from it |
| Split.HalvesMayArrive | uip/uip-split.c:54-129 | both are pieces of the segment, so all end-to-end statements hold with uip_split_output on the way, in whatever order the packets arrive |
| Split.EmittedIsAccepted | uip.cpp:1865-1932 | every packet this stack emits without options meets the condition of these statements |
| Split.SplitOutOfOrder | uip/uip-split.c:111-115 | overtaken or duplicated, they add nothing wrong |
| Split.SplitIsFaithfulExactly | uip/uip-split.c:72-115 | the same for every cut of every segment in sequence without RST, whatever its other flags: exactly a FIN that is taken behind data makes a difference |
| Split.SplitLosesDataBeforeFin | uip/uip-split.c:72-80 | an instance: the bytes behind the first packet are never shown |
| Split.EmittedDataIsPlain | uip.cpp:1773-1780 | which no event of the stack produces |
| Incremental.AdjustField | uip.cpp:1011-1015 | the compare-and-add, in either byte order |
| Incremental.ByteOrderDoesNotMatter | uip/uip-fw.c:466-470 | both byte orders store the same bytes |
| Incremental.UpdateKeepsVerdict | uip/uip-fw.c:463-470 | the updated message verifies exactly when the old one did |
| Incremental.UpdateEqualsRecomputation | uip.cpp:1009-1015 | for a right checksum the update equals the full recomputation |
| Incremental.StrictReceiver | uip.cpp:1009-1015 | a receiver that does not take zero for 0xffff agrees exactly if the changed message is not all zero |
| Icmp.IcmpInput | uip.cpp:989-1023 | echo requests become replies in uip_buf, everything else is dropped |
| Icmp.EchoReplyIsAnswer | uip.cpp:1009-1023 | the reply passes the checks of the asker, verifies exactly when the request did, and returns identifier, number and data |
| Icmp.EchoChecksumIsExact | uip.cpp:1011-1015 | its checksum equals a fresh one |
| FwCache.Cache.FwcacheRegister | uip/uip-fw.c:281-316 | overwrites the first dead entry, else the last of those with the smallest timer |
| FwCache.VictimExists | uip/uip-fw.c:286-300 | such an entry always exists |
| FwCache.Cache.Contains | uip/uip-fw.c:430-451 | the loop for duplicates |
| FwCache.Cache.Periodic | uip/uip-fw.c:522-531 | timers count down to zero and stay in 0..20 |
| FwCache.EntryLasts | uip/uip-fw.c:286-303 | an entry lasts 20 periodic calls unless a registration of another key displaces it while all are live |
| FwCache.DisplacedMeans | uip/uip-fw.c:281-316 | which no dropped duplicate, no registration of the same key and no periodic call does |
| FwCache.EntryExpires | uip/uip-fw.c:522-531 | a key that is not registered again is forgotten after 20 periodic calls |
| Forward.Forwarder.UipFwForward | uip/uip-fw.c:405-486 | all of uip_fw_forward, header edited in place |
| Forward.Forwarder.MakeTimeExceeded | uip/uip-fw.c:221-273 | time_exceeded builds the described message over the packet |
| Forward.FateOfPacket | uip/uip-fw.c:405-486 | the fate of every packet by its header and the cache: when it is left to the host, when and what is sent for it, and that exactly this is remembered |
| Forward.HopIsTransparent | uip/uip-fw.c:463-470 | one hop less, nothing else changed, the header checksum right exactly when it was, and then equal to a fresh one |
| Forward.TimeExceededIsAnswer | uip/uip-fw.c:226-271 | the message goes back to the sender with both checksums right and 28 bytes quoted |
| Forward.SentIsRegistered | uip/uip-fw.c:358-367 | whatever is sent on is remembered with a full timer |
| Forward.DuplicatesAreSuppressed | uip/uip-fw.c:427-451 | after a packet was sent on, none with its identification is, until 20 periodic calls or displacement of a live entry by another key |
| Forward.ForgottenIsSentAgain | uip/uip-fw.c:427-461 | a packet whose identification nobody registered for 20 periodic calls is sent on |
| Forward.WhenCachedKeyIsSent | uip/uip-fw.c:453-461 | what is sent has a remembered identification if and only if it is the time exceeded message for an expired packet and the identification of that message is remembered |
| Forward.TimeExceededRepeats | uip/uip-fw.c:453-461 | and it does |
| ArpTable.UpdateRefinesMap | uip_arp.cpp:166-226 | an update sets exactly its binding and keeps all others, but for the oldest one of a full table without that address |
| ArpTable.ZeroUpdate | uip_arp.cpp:192-225 | an update for 0.0.0.0 binds nothing and costs a full table its oldest binding |
| ArpTable.OldestIsOldest | uip_arp.cpp:202-212 | the victim is an oldest entry if and only if no entry is from before the last wrap of arptime, or none was made in an earlier tick since and the first entry is the oldest of those from before |
| ArpTable.WrapMisleads | uip_arp.cpp:206-209 | an instance where it is not |
| Arp.ArpModule.UipArpUpdate | uip_arp.cpp:166-226 | all loops of uip_arp_update |
| Arp.ArpModule.FindOldest | uip_arp.cpp:202-212 | the loop over tmpage |
| Arp.ArpModule.UipArpTimer | uip_arp.cpp:149-163 | the timer changes no binding |
| Arp.ArpModule.UipArpArpin | uip_arp.cpp:285-336 | requests are answered in uip_buf, requests and replies for this host are stored, all else ignored |
| Arp.ArpModule.UipArpOut | uip_arp.cpp:365-430 | the Ethernet header for the next hop, or a request in place of the packet |
| Arp.RunIsFaithful | uip_arp.cpp:166-226 | over every run addresses stay unique, and each is bound to what its latest accepted ARP packet said |
| Arp.PacketTakesItsNextHop | uip_arp.cpp:378-429 | a packet goes to its destination if that agrees with the host in every bit of the netmask and else to the router, in a frame to the bound address or with a request in its place, byte by byte |
| Arp.BroadcastIsBroadcast | uip_arp.cpp:371-374 | a packet to 255.255.255.255 goes to all stations, whatever the table holds |
| Arp.OutUsesLatest | uip_arp.cpp:378-429 | after any run that packet carries the latest accepted address of that next hop or is replaced by a request |
| Arp.WhatConcernsUsIsStored | uip_arp.cpp:294-333 | a request or reply for this host is stored under its sender, and a request answered, byte by byte |
| Arp.OthersAreIgnored | uip_arp.cpp:285-336 | every other packet is dropped and changes nothing |
| Arp.AgesCountCalls | uip_arp.cpp:149-152 | in every run the age of a binding is the number of timer calls since its packet, modulo 256 |
| Arp.ZeroNextHop | uip_arp.cpp:392-397 | the next hop 0.0.0.0 finds an unused entry exactly if there is one |
| Arp.NothingIsForgotten | uip_arp.cpp:192-225 | as long as no more neighbours than entries were heard of, all are bound |
| Arp.ResolutionRoundTrip | uip_arp.cpp:294-421 | request, reply and resolution between two hosts, over the bytes on the wire |
| Dns.ParseNameLoop | resolv.cpp:143-160 | the loops of parse_name |
| Dns.NameRoundTrip | resolv.cpp:204-217 | an encoded hostname decodes to itself and is skipped exactly if and only if no label is empty |
| Dns.RootIsNotSkipped | resolv.cpp:148-159 | the root name is never skipped exactly |
| Dns.PointersAreSkipped | resolv.cpp:283-291 | an owner that starts with one of the two highest bits set is skipped as two bytes, any other as labels |
| Dns.WalkAnswers | resolv.cpp:281-322 | the loop over the answers |
| Dns.QueryAsksForName | resolv.cpp:197-223 | the query is a well-formed question for the A record of the name |
| Dns.ResponseIsUnderstood | resolv.cpp:249-321 | on every well-formed response with one question the first A record of class IN among the answers looked at is found |
| Resolver.Resolv.EncodeName | resolv.cpp:200-217 | the encoder, filling in lengths behind the labels |
| Resolver.Resolv.CheckEntries | resolv.cpp:167-228 | check_entries: timers, retries, states, the query in the buffer and the early break |
| Resolver.Resolv.UipNewdata | resolv.cpp:234-324 | newdata: which entry, its state and address, whether resolv_found is called |
| ResolverRuns.StepAccounts | resolv.cpp:176-227 | no event raises the calls, queries or callbacks an entry has left |
| ResolverRuns.CallDrops | resolv.cpp:176-227 | every call makes progress in spite of the early break |
| ResolverRuns.RunAccounts | resolv.cpp:176-227 | at most eight queries and one callback a name, in every run |
| ResolverRuns.EveryNameIsSettled | resolv.cpp:176-227 | after 30 calls an entry nothing is pending; an unanswered name is in error, asked for 8 times, reported once |
| ResolverRuns.ReplyIsStored | resolv.cpp:252-322 | a reply stores and reports the first address; without one the entry is done and nobody is told |
| ResolverRuns.MessageMeans | resolv.cpp:234-324 | what every message changes and reports: nothing unless it is for a waiting entry, its error code, or the first address in it |
| ResolverRuns.CallKeepsData | resolv.cpp:167-228 | a call of check_entries touches no name, address or error code |
| Dhcp.ParseOptions | dhcpc.cpp:201-234 | the loop of parse_options, which terminates |
| Dhcp.ParseIsLastWins | dhcpc.cpp:201-234 | on every pad-free list the last option of each kind wins |
| Dhcp.PadHidesOptions | dhcpc.cpp:231 | a pad byte hides every list of options no longer than the kind of its first one |
| Dhcp.PadHidesMessageType | dhcpc.cpp:231 | for instance the type of an offer |
| Dhcp.ReadsBehindExactly | dhcpc.cpp:245 | bytes behind the message cannot matter if and only if the walk over the options meets an end option before it needs one of them |
| Dhcp.ListStaysInside | dhcpc.cpp:201-234 | as it does on every pad-free list with an end option |
| Dhcp.TypedMessageIsForUs | dhcpc.cpp:236-248 | only a reply with our transaction and hardware address has a type, and its yiaddr becomes the address |
| Dhcp.ForUsExactly | dhcpc.cpp:236-242 | which messages are for this client, by their bytes |
| Dhcp.OnlyOursAreParsed | dhcpc.cpp:236-248 | these give the client yiaddr and the last option of each kind, all others change nothing |
| Dhcp.HeadOnTheWire | dhcpc.cpp:142-168 | the fixed part of every message by the layout of RFC 2131 |
| Dhcp.MessagesOnTheWire | dhcpc.cpp:170-199 | the options of discover and request, byte by byte |
| Dhcp.EchoIsForUs | dhcpc.cpp:236-242 | a reply that copies transaction and hardware address is for this client |
| Dhcp.RequestReadsBack | dhcpc.cpp:185-199 | a request read back is a DHCPREQUEST that names the stored server and address |
| DhcpClient.Dhcpc.ParseMessage | dhcpc.cpp:236-248 | parse_msg on the state |
| DhcpClient.Dhcpc.CreateMsg | dhcpc.cpp:142-168 | the fixed part of a message |
| DhcpClient.Dhcpc.SendDiscover | dhcpc.cpp:170-183 | the option builders of a discover |
| DhcpClient.Dhcpc.SendRequest | dhcpc.cpp:185-199 | the option builders of a request |
| DhcpClient.Dhcpc.HandleDhcp | dhcpc.cpp:250-322 | the protothread from one resume point to the next |
| DhcpClient.RunKeepsValid | dhcpc.cpp:258-298 | ticks stay in 1000..32000, so they never wrap |
| DhcpClient.SleepsExactly | dhcpc.cpp:267-287 | a waiting client does nothing exactly while no data have come and the timer has not expired |
| DhcpClient.StartDiscovers | dhcpc.cpp:258-266 | a round starts with a discover and one second to wait |
| DhcpClient.DiscoverIsRepeated | dhcpc.cpp:266-277 | woken without an offer the client repeats the discover and doubles the wait up to 32 seconds |
| DhcpClient.DiscoverBacksOff | dhcpc.cpp:262-277 | so every such waking sends one more, after 1, 2, 4, 8, 16 and then 32 seconds |
| DhcpClient.AnswerMovesOn | dhcpc.cpp:271-292 | an offer is requested at once, an acknowledgement configures |
| DhcpClient.RequestIsRepeated | dhcpc.cpp:284-299 | woken without an acknowledgement the client repeats the request a second later each time, or starts over |
| DhcpClient.ConfiguredOnce | dhcpc.cpp:309-319 | dhcpc_configured runs at most once, and nothing happens afterwards |
| DhcpClient.ConfiguredAfterOfferAndAck | dhcpc.cpp:271-291 | only after an offer and then an acknowledgement for this client, with the yiaddr of the latter |
| DhcpClient.OfferIsRequested | dhcpc.cpp:271-282 | the first request names address and server of the offer |
| DhcpClient.AtMostElevenRequests | dhcpc.cpp:280-299 | a phase never sends more than eleven requests |
| DhcpClient.RestartsAfterEleven | dhcpc.cpp:294-298 | and starts over after eleven without an acknowledgement |
| Timers.Timer.TimerExpired | timer.cpp:120-128 | timer_expired on the 32-bit clock |
| Timers.Timer.TimerRemaining | timer.cpp:140-144 | timer_remaining on the 32-bit clock |
| Timers.Timer.Reset | timer.cpp:83-87 | timer_reset moves the start by the interval |
| Timers.ExpiredMeans | timer.cpp:120-128 | true exactly if the elapsed time modulo 2^32 has reached the interval and is not 2^32-1 |
| Timers.RemainingMeans | timer.cpp:140-144 | the time left before expiry, a value near 2^32 after it |
| Timers.ResetStaysOnGrid | timer.cpp:83-87 | with timer_reset the timer starts at whole intervals since it was set, however late the readings are |
| Timers.ResetDoesNotLag | timer.cpp:83-87 | read at least once an interval it lags behind by less than one interval |

## Left out

- IP reassembly (compiled out), IPv6, urgent data, UIP_POLL_REQUEST, ping address configuration, statistics, logging.
- Header lengths that point outside a packet and reads behind the end of a packet: such reads give zero, and TCP packets with an impossible data offset count as not accepted.
- Packet.TcpPacketIsAccepted: IP packets shorter than 28 bytes count as not accepted, where the source reads on into the buffer.
- Packet.UdpPacketIsAccepted: reception of IP broadcast and multicast, which skips the address and header checksum tests.
- Packet.ParseMssOption: the index into the options is unbounded where the source uses eight bits, which differs for malformed options only.
- TcpTable.RunKeepsSound: uip_connect called from inside a callback is not an event of its own.
- EndToEnd.ShownIsPrefixOfSent: fewer than 2^32 bytes per connection; the passive side gets a SYN with the segment size option; applications close only when psock_send has returned; both ends run this stack; initial sequence numbers of old connections are not modelled.
- Reader.ReadToReturnsRecords: the thread blocks in reads only; data that arrives while it waits in psock_send is lost, as the comment at psock.cpp:270 admits.
- ProtoSocket.Psock.ReadTo: a buffer of size zero, for which the source restarts in every callback, is excluded.
- ProtoSocket.Psock.ReadLen: a buffer of size zero, likewise.
- `psock_generator_send` and the demonstration applications.
- Split.SplitIsFaithfulExactly: receivers in SYN_SENT and SYN_RCVD; stopped receivers of a segment with at most one byte, which the application may restart between the two packets.
- Split.SplitOutput: the TCP header has no options, as in every maximal segment of this stack; memcpy is taken to copy from the front, since for an odd length source and destination overlap by one byte.
- Forward.Forwarder.UipFwForward: the choice of a network interface (find_netif) and its output function; a packet counts as sent when it is handed over. The branches under UIP_BROADCAST are taken to be compiled in.
- Arp.ArpModule.UipArpArpin: the test of the Ethernet type, which the driver makes before the call.
- Resolver.Resolv.CheckEntries: names of 32 characters, which strncpy leaves unterminated; the choice of a victim by resolv_query, which compares an 8-bit number as an int.
- Dns.ResponseIsUnderstood: names that mix labels and a pointer, responses with another number of questions than one, and the root name as question or owner, behind which the code reads at the wrong place (RootIsNotSkipped).
- DhcpClient.Dhcpc.HandleDhcp: the clock does not move within one call; failure of uip_udp_new in dhcpc_init.
- UDP demultiplexing and uip_udp_new, uip_listen and uip_unlisten, uip-neighbor.c, memb.c and uiplib.c.
- Hardware drivers, sketches, and everything under uip/apps.
