# Verified model of the TripleLTE Ethernet gateway

The gateway translates packets of a LAN (Network Address Port Translation, RFC 3022), sends them over one of three
byte-stuffed UART links to nRF9160 modems, and brings the replies back. This project models both
programs in Dafny, the ESP32 side (`TripleUart_Ethernet_Gateway_ESP32_8720a`) and the modem side
(`nRF9160_LTE_Uart_Gateway_for_MultipleLteDevice`), and proves what the pieces keep and that they fit together.

The files, from the bottom up:

| files | subject |
|---|---|
| `Bytes`, `Option`, `Clock` | byte order, the wrapping millisecond clock |
| `InternetChecksum`, `IpUtil` | the checksum of RFC 1071 and the two routines that compute it |
| `Framing`, `FrameSoundness`, `UartLink` | the byte-stuffed link as a pure machine, its encoder and both receivers |
| `PortTable`, `PortMap` | the translation table as a value, and as the array that is changed in place |
| `UartChoice`, `NatMachine`, `NatInvariant`, `NatSafety`, `NatTiming`, `NatFairness`, `NatLimits`, `UplinkTask` | the translation as a state machine over its interleaved steps, what every run keeps, where it falls short, and the task that takes the steps |
| `Packet`, `PacketRewrite`, `PacketEdit`, `EchoReply` | packet layout, the rewrites, and the in-place edits |
| `RingMachine`, `EthRing` | the lock-free receive ring |
| `ArpTable`, `ArpCache` | the ARP cache against an expiring map |
| `AtGrammar`, `AtLanguage`, `AtParser`, `AtRoundTrip` | the AT response parser |
| `EndToEnd` | the round trip of a packet and its reply |

Conventions. Code that changes state is a class or a method in the source's shape, proved against a function on
values; the results are proved about that function. Clocks, readiness lines and the
attached state of the modem are parameters. Words are little-endian, as on both processors.
A state of the translation machine carries the true clock and a log beside what the program stores; the program's
part never depends on them.

Where the code does not do what one would expect, the exact condition is proved:

- the chosen modem need not be ready (`UartChoice.ChosenIsReadyExactlyWhen`, `UartChoice.NotReadyChosen`);
- `ip_checksum2` with an odd first part swaps the two bytes at the seam (`IpUtil.TwoPartsAgree`);
- an empty last parameter of an AT response is not counted (`AtRoundTrip.AtResponseRoundTrip`), and too many or too long ones make the parser write outside its arrays (`AtGrammar.FaultsExactlyWhen`);
- the modem's receive buffer is not tested for being full, and overruns for a packet longer than it (`Framing.StreamFits`);
- a UDP or ICMP row answers only the server of its first packet (`NatTiming.DeliveredExactlyWhen`, `NatLimits.SecondServerIsNotHeard`);
- with a full table the uplink task reads through a null pointer (`NatSafety.CrashesExactlyWhenFull`, and `NatLimits.FloodCrashes` for a run that gets there);
- a row can outlive its timeout if nothing touches the table for long enough (`Clock.TimeoutIsTrueExactly`, `Clock.ExpiryGapIsTight`).

## Model

| member | source | states |
|---|---|---|
| InternetChecksum.AcceptedExactlyWhen | TripleUart_Ethernet_Gateway_ESP32_8720a/src/ip_util.h:65-75 | a receiver's check accepts a buffer if and only if the 16-bit field at an even position holds the stored checksum, or 65535 where that is 0 |
| InternetChecksum.ByteOrderIndependent | TripleUart_Ethernet_Gateway_ESP32_8720a/src/ip_util.h:22-63 | summing little-endian words gives, byte for byte, the sum of RFC 1071 section 2 in network byte order (part (B) of that section) |
| IpUtil.EndAroundAdd | TripleUart_Ethernet_Gateway_ESP32_8720a/src/ip_util.h:31-34 | a 32-bit addition with end-around carry represents the exact sum, zero only for zero |
| IpUtil.Fold | TripleUart_Ethernet_Gateway_ESP32_8720a/src/ip_util.h:58-60 | folding the halves together keeps the represented value and makes progress |
| IpUtil.IpChecksum1 | TripleUart_Ethernet_Gateway_ESP32_8720a/src/ip_util.h:22-63 | the 32-bit loop with its 16-bit and 8-bit tails and its fold returns the RFC 1071 checksum of every buffer, including the choice between 0 and 65535 |
| IpUtil.AddLazily | TripleUart_Ethernet_Gateway_ESP32_8720a/src/ip_util.h:88-91 | the running sum is folded only at bit 31 and never passes 32 bits |
| IpUtil.IpChecksum2 | TripleUart_Ethernet_Gateway_ESP32_8720a/src/ip_util.h:78-129 | the two-buffer routine returns the RFC 1071 checksum of the byte string that it really sums, for even and odd first parts |
| IpUtil.TwoPartsAgree | TripleUart_Ethernet_Gateway_ESP32_8720a/src/ip_util.h:95-107 | that string has the checksum of the plain concatenation if and only if the first part is even or the two bytes at the seam are equal |
| IpUtil.CalcChecksum | TripleUart_Ethernet_Gateway_ESP32_8720a/src/ip_util.h:65-75 | the field is cleared and set in place, nothing else changes |
| IpUtil.CalcThenCheck | nRF9160_LTE_Uart_Gateway_for_MultipleLteDevice/src/ip_util.c:12-64 | after filling any even position inside the region the check over the region returns 0 |
| UartLink.Transmitter.WriteByte | TripleUart_Ethernet_Gateway_ESP32_8720a/src/gw_uart.cpp:33-44 | STX, ETX and DLE are preceded by DLE on the line |
| UartLink.Transmitter.SendFrame | TripleUart_Ethernet_Gateway_ESP32_8720a/src/gw_uart.cpp:45-54 | the line receives exactly the encoding of the packet |
| UartLink.Transmitter.SendQueued | nRF9160_LTE_Uart_Gateway_for_MultipleLteDevice/src/gateway.c:70-78 | the modem frames as many bytes of the queued buffer as the IP header says |
| UartLink.GatewayReceiver.Read | TripleUart_Ethernet_Gateway_ESP32_8720a/src/gw_uart.cpp:389-546 | one received byte moves flags, index and buffer as the receiver machine does; every write is in bounds, an escape is pending only inside a frame, the full-buffer test at ETX is never true, and pending bytes are discarded exactly when a byte fills the buffer |
| UartLink.GatewayReceiver.Receive | TripleUart_Ethernet_Gateway_ESP32_8720a/src/gw_uart.cpp:55-545 | the frames obtained from any byte stream are those of the receiver machine, whatever number of pending bytes is thrown away each time the buffer fills |
| UartLink.ModemReceiver.Read | nRF9160_LTE_Uart_Gateway_for_MultipleLteDevice/src/gateway.c:128-261 | the same for the modem, while its buffer has room |
| UartLink.ModemReceiver.Receive | nRF9160_LTE_Uart_Gateway_for_MultipleLteDevice/src/gateway.c:118-265 | the same for a whole stream that fits the buffer |
| Framing.OnTheWire | TripleUart_Ethernet_Gateway_ESP32_8720a/src/gw_uart.cpp:33-54 | each byte on the wire: STX, ETX and DLE behind a DLE, between STX and ETX |
| Framing.FrameDecodes | TripleUart_Ethernet_Gateway_ESP32_8720a/src/gw_uart.cpp:33-54 | from idle, an encoded packet is received as exactly that packet |
| Framing.StreamRoundTrip | TripleUart_Ethernet_Gateway_ESP32_8720a/src/gw_uart.cpp:389-546 | every list of packets that fit is received as exactly that list |
| Framing.EncodingIsInjective | nRF9160_LTE_Uart_Gateway_for_MultipleLteDevice/src/hdr_uart.c:28-40 | two lists of packets have the same encoding if and only if they are equal |
| Framing.FrameResynchronises | TripleUart_Ethernet_Gateway_ESP32_8720a/src/gw_uart.cpp:420-483 | one complete frame of any length brings a receiver in any state back to idle, and a fitting packet is received if and only if the receiver was idle |
| Framing.SelfSynchronising | TripleUart_Ethernet_Gateway_ESP32_8720a/src/gw_uart.cpp:389-546 | after any noise and one frame everything sent is received exactly; that one frame survives if and only if the noise leaves the receiver idle |
| Framing.BoundedNeverFull | TripleUart_Ethernet_Gateway_ESP32_8720a/src/gw_uart.cpp:484-494 | for every byte stream the receiver holds and delivers fewer bytes than its limit |
| Framing.FrameFits | nRF9160_LTE_Uart_Gateway_for_MultipleLteDevice/src/gateway.c:114-151 | an encoded packet fits a buffer that is not tested for being full if and only if the packet does |
| Framing.StreamFits | nRF9160_LTE_Uart_Gateway_for_MultipleLteDevice/src/gateway.c:114-261 | a stream of packets overruns the modem's buffer if and only if one of them is longer than the buffer |
| Framing.NothingDropped | TripleUart_Ethernet_Gateway_ESP32_8720a/src/gw_uart.cpp:484-494 | as long as the gateway's buffer does not fill, no pending byte is thrown away |
| Framing.SynchronisesDespiteDrops | TripleUart_Ethernet_Gateway_ESP32_8720a/src/gw_uart.cpp:55-62 | in whatever state noise and discarded bytes leave the receiver, after one frame that does not fill its buffer everything is received exactly |
| FrameSoundness.DeliveredWasEncoded | TripleUart_Ethernet_Gateway_ESP32_8720a/src/gw_uart.cpp:389-546 | for both receivers, every stream from power-up and everything thrown away: what the line carried is the encodings of the delivered frames, in order and each once, with other bytes between, so a damaged frame delivers nothing |
| FrameSoundness.RunIsSound | nRF9160_LTE_Uart_Gateway_for_MultipleLteDevice/src/gateway.c:128-261 | the same from any state of the receiver |
| FrameSoundness.DroppingIsSound | TripleUart_Ethernet_Gateway_ESP32_8720a/src/gw_uart.cpp:389-546 | the same for the gateway with discarded bytes |
| FrameSoundness.DeliveredWasOnTheLine | TripleUart_Ethernet_Gateway_ESP32_8720a/src/gw_uart.cpp:420-483 | the line carried the encoding of each delivered frame in one piece |
| FrameSoundness.OverflowGivesUp | TripleUart_Ethernet_Gateway_ESP32_8720a/src/gw_uart.cpp:487-494 | a byte overflows the buffer exactly when it ends a frame that would go on without the limit |
| FrameSoundness.OverflowDrops | TripleUart_Ethernet_Gateway_ESP32_8720a/src/gw_uart.cpp:55-62 | at an overflow the receiver is idle and the pending bytes, all of them if they are fewer, go unread |
| Clock.TimeoutIsModular | TripleUart_Ethernet_Gateway_ESP32_8720a/src/ip_util.h:145-155 | the 32-bit test compares the true idle time modulo 2^32 with the timeout |
| Clock.TimeoutIsTrueExactly | TripleUart_Ethernet_Gateway_ESP32_8720a/src/hdr_portmap.cpp:10-36 | from one timeout after power-up on, every row alive at one collection is judged by its true age at the next if and only if the gap between the two is at most 2^32 ms less the timeout, or its residue lies between the timeout and that bound |
| Clock.ExpiryIsTrue | TripleUart_Ethernet_Gateway_ESP32_8720a/src/hdr_portmap.cpp:21-36 | collections at most 2^32 ms less the timeout apart judge every row by its true age |
| Clock.ExpiryGapIsTight | TripleUart_Ethernet_Gateway_ESP32_8720a/src/hdr_portmap.cpp:10-20 | one millisecond more between collections and an expired row can pass as new |
| PortTable.First | TripleUart_Ethernet_Gateway_ESP32_8720a/src/hdr_portmap.cpp:49-62 | a lookup finds the first matching row and passes over no earlier match |
| PortTable.FoundExactlyWhen | TripleUart_Ethernet_Gateway_ESP32_8720a/src/hdr_portmap.cpp:46-142 | a lookup finds a row if and only if one matches that has not expired |
| PortTable.SearchStops | TripleUart_Ethernet_Gateway_ESP32_8720a/src/hdr_portmap.cpp:229-280 | for every table and every position of the search, no more candidates are rejected than there are live rows in the class |
| PortTable.RejectedAreDistinct | TripleUart_Ethernet_Gateway_ESP32_8720a/src/hdr_portmap.cpp:235-238 | the rejected candidates are as many different used ports |
| PortTable.Generate | TripleUart_Ethernet_Gateway_ESP32_8720a/src/hdr_portmap.cpp:230-280 | the port generated is unused in its class and lies in the range of its generator |
| PortTable.GeneratesNext | TripleUart_Ethernet_Gateway_ESP32_8720a/src/hdr_portmap.cpp:230-280 | it is the next port after the last one given out that is not in use: every candidate passed over belongs to a live row of the class |
| PortTable.IcmpIdentifierZero | TripleUart_Ethernet_Gateway_ESP32_8720a/src/hdr_portmap.cpp:256-280 | the ICMP generator can return 0 |
| PortMaps.PortMap.GcPmap | TripleUart_Ethernet_Gateway_ESP32_8720a/src/hdr_portmap.cpp:21-36 | every row is freed or kept by its own time stamp |
| PortMaps.PortMap.Search | TripleUart_Ethernet_Gateway_ESP32_8720a/src/hdr_portmap.cpp:46-142 | collection, first match, refresh of that row only |
| PortMaps.PortMap.AddPmap | TripleUart_Ethernet_Gateway_ESP32_8720a/src/hdr_portmap.cpp:199-213 | the new row takes the first row free after collection; without one the table is only collected |
| PortMaps.PortMap.IsDuplicate | TripleUart_Ethernet_Gateway_ESP32_8720a/src/hdr_portmap.cpp:238-247 | the inner loop decides whether a candidate is in use in the class |
| PortMaps.PortMap.GeneratePort | TripleUart_Ethernet_Gateway_ESP32_8720a/src/hdr_portmap.cpp:230-280 | the unbounded loops of both generators end and compute that port |
| UartChoice.DroppedExactlyWhenNoneReady | TripleUart_Ethernet_Gateway_ESP32_8720a/src/gw_uart.cpp:180-197 | a packet is dropped if and only if no modem is ready |
| UartChoice.ChoiceTable | TripleUart_Ethernet_Gateway_ESP32_8720a/src/gw_uart.cpp:180-194 | which link it is, for every counter and readiness: with the first not ready, the link after the ready one |
| UartChoice.ChosenIsReadyExactlyWhen | TripleUart_Ethernet_Gateway_ESP32_8720a/src/gw_uart.cpp:180-197 | the chosen modem is ready if and only if the first choice was, or both of the others are |
| UartChoice.NotReadyChosen | TripleUart_Ethernet_Gateway_ESP32_8720a/src/gw_uart.cpp:189-193 | an input for which a modem that is not ready is chosen |
| UartChoice.RoundRobinIsFair | TripleUart_Ethernet_Gateway_ESP32_8720a/src/gw_uart.cpp:180-201 | in a cyclic assignment the loads of two links differ by at most one |
| NatSafety.StepKeepsInv | TripleUart_Ethernet_Gateway_ESP32_8720a/src/gw_uart.cpp:170-351 | every step of the uplink task and every downlink lookup keeps ports, identifiers and client keys unique and every row backed by the packet for which its port was allocated |
| NatSafety.ReachableStatesAreSafe | TripleUart_Ethernet_Gateway_ESP32_8720a/src/hdr_portmap.cpp:21-280 | in every interleaving two live rows share neither a port of their class nor a client key, so a reverse lookup has at most one match |
| NatSafety.GatewayPorts | TripleUart_Ethernet_Gateway_ESP32_8720a/src/hdr_portmap.h:12-14 | with 1800 rows TCP and UDP ports lie in 32768..39968 and identifiers in 0..7200 |
| NatSafety.FirstPort | TripleUart_Ethernet_Gateway_ESP32_8720a/src/hdr_portmap.cpp:229-262 | from power-up the first port is 32769, and the first identifier 1 |
| NatSafety.NoCrossDelivery | TripleUart_Ethernet_Gateway_ESP32_8720a/src/gw_eth.cpp:163-208 | every delivery to a client goes back to an uplink packet of that client, port and protocol to that very server, for which the port was allocated and not reallocated since |
| NatSafety.CrashesExactlyWhenFull | TripleUart_Ethernet_Gateway_ESP32_8720a/src/gw_uart.cpp:200-201 | the read through the null result of the row insertion happens if and only if all rows are live and none has expired |
| NatLimits.FloodCrashes | TripleUart_Ethernet_Gateway_ESP32_8720a/src/gw_uart.cpp:200-201 | for every table size, as many new flows as rows are served, and one more at the same time ends in the read through the null result |
| NatLimits.SecondServerIsNotHeard | TripleUart_Ethernet_Gateway_ESP32_8720a/src/gw_uart.cpp:221-271 | in every state of a timely run, a packet of a live UDP or ICMP row to another server leaves on the row's port, and that server's reply is not delivered |
| NatLimits.SecondServerExample | TripleUart_Ethernet_Gateway_ESP32_8720a/src/hdr_portmap.cpp:46-63 | and a run from power-up in which this happens |
| NatTiming.ExpiresExactly | TripleUart_Ethernet_Gateway_ESP32_8720a/src/hdr_portmap.cpp:21-36 | a row is freed if and only if it has truly been idle for 20 seconds |
| NatTiming.ExpiryAgreesWithRealTime | TripleUart_Ethernet_Gateway_ESP32_8720a/src/hdr_portmap.cpp:10-36 | the same in every run, over any number of clock wraps |
| NatTiming.FlowAffinity | TripleUart_Ethernet_Gateway_ESP32_8720a/src/gw_uart.cpp:170-341 | while a row is in use every uplink packet of its flow leaves on its port, and for TCP on its link |
| NatTiming.DeliveredExactlyWhen | TripleUart_Ethernet_Gateway_ESP32_8720a/src/gw_uart.cpp:221-271 | a packet to the port of a live row is delivered if and only if it comes from the recorded server and the row has not been idle for 20 seconds |
| NatTiming.TcpHitRefreshes | TripleUart_Ethernet_Gateway_ESP32_8720a/src/gw_uart.cpp:203-209 | a TCP packet refreshes its row and the first row of the same client and port, and no other |
| NatTiming.ClientHitRefreshes | TripleUart_Ethernet_Gateway_ESP32_8720a/src/gw_uart.cpp:247-271 | a UDP or ICMP packet refreshes its row and may move it to another link, and does neither to any other row |
| NatTiming.TouchRefreshes | TripleUart_Ethernet_Gateway_ESP32_8720a/src/hdr_portmap.cpp:46-63 | every packet of a row, in either direction, gives it another 20 seconds |
| NatTiming.PacketsKeepRowInUse | TripleUart_Ethernet_Gateway_ESP32_8720a/src/hdr_portmap.cpp:46-142 | a row whose packets, in either direction, come less than 20 seconds apart stays in use, whatever else happens |
| NatTiming.RowInUseAnswers | TripleUart_Ethernet_Gateway_ESP32_8720a/src/hdr_portmap.cpp:46-63 | the reverse lookup of a row works for as long as the row is never idle for 20 seconds, and refreshes that row and no other |
| NatTiming.ReplyReachesClient | TripleUart_Ethernet_Gateway_ESP32_8720a/src/gw_eth.cpp:161-208 | whatever happens in the 20 seconds after a packet has left, a packet from the recorded server to its port is delivered to its client and port |
| NatFairness.RoundRobinFairness | TripleUart_Ethernet_Gateway_ESP32_8720a/src/gw_uart.cpp:151-341 | with all modems ready and no packet of an existing TCP row, packets go to UART3, UART2, UART1 in turn and the loads differ by at most one |
| NatFairness.FirstChoiceFollowsLast | TripleUart_Ethernet_Gateway_ESP32_8720a/src/gw_uart.cpp:180-208 | in every run, with any modems ready and packets of any rows, the first choice is UART3 at power-up and then the link after the last one used, and every packet sent has one of the three links |
| NatFairness.LinkOfPacket | TripleUart_Ethernet_Gateway_ESP32_8720a/src/gw_uart.cpp:170-209 | the packet of a TCP row leaves on the row's link, ready or not; any other is dropped if and only if no modem is ready, and otherwise gets the chosen link |
| UplinkTasks.TranslatableExactlyWhen | TripleUart_Ethernet_Gateway_ESP32_8720a/src/gw_uart.cpp:158-341 | which packets the results speak of, byte by byte |
| UplinkTasks.FlowIsRead | TripleUart_Ethernet_Gateway_ESP32_8720a/src/gw_uart.cpp:158-173 | client from the source address, server from the destination address, and the source port or the identifier, byte by byte |
| UplinkTasks.ChooseUart | TripleUart_Ethernet_Gateway_ESP32_8720a/src/gw_uart.cpp:180-200 | the nested tests of the task choose the link of the machine |
| UplinkTasks.UplinkTask.OnTcpRow | TripleUart_Ethernet_Gateway_ESP32_8720a/src/gw_uart.cpp:203-209 | the step for a packet of an existing TCP row |
| UplinkTasks.UplinkTask.OnClientRow | TripleUart_Ethernet_Gateway_ESP32_8720a/src/gw_uart.cpp:247-272 | the step for a packet of an existing UDP or ICMP row, which may move to another link |
| UplinkTasks.UplinkTask.LookUp | TripleUart_Ethernet_Gateway_ESP32_8720a/src/gw_uart.cpp:170-202 | lookup of a packet, and choice of a link when it has no row |
| UplinkTasks.UplinkTask.PickPort | TripleUart_Ethernet_Gateway_ESP32_8720a/src/gw_uart.cpp:200 | the port is generated in a step of its own |
| UplinkTasks.UplinkTask.AddRow | TripleUart_Ethernet_Gateway_ESP32_8720a/src/gw_uart.cpp:200-201 | the row is added in a step of its own, with the whole new state of the task |
| UplinkTasks.UplinkTask.Emit | TripleUart_Ethernet_Gateway_ESP32_8720a/src/gw_uart.cpp:210-216 | the slot holds the rewritten packet and the line receives its encoding |
| PacketRewrite.UplinkRewriteChangesThePort | TripleUart_Ethernet_Gateway_ESP32_8720a/src/gw_uart.cpp:210-216 | the uplink rewrite changes the source port or identifier and nothing else |
| PacketRewrite.ModemRewriteIsValid | nRF9160_LTE_Uart_Gateway_for_MultipleLteDevice/src/gateway.c:223-250 | after the modem's rewrite both checksums are valid, the source is its own address, and no byte outside these fields has changed |
| PacketRewrite.DownlinkRewriteIsValid | TripleUart_Ethernet_Gateway_ESP32_8720a/src/gw_eth.cpp:175-210 | after the downlink rewrite both checksums are valid, the destination is the client's address and port, and no other byte has changed |
| PacketRewrite.UplinkBytes | TripleUart_Ethernet_Gateway_ESP32_8720a/src/gw_uart.cpp:210-216 | byte by byte, the uplink writes the source port or identifier, and keeps destination port, UDP length and payload |
| PacketRewrite.ModemBytes | nRF9160_LTE_Uart_Gateway_for_MultipleLteDevice/src/gateway.c:223-250 | byte by byte, the modem writes the source address and the two checksums |
| PacketRewrite.DownlinkBytes | TripleUart_Ethernet_Gateway_ESP32_8720a/src/gw_eth.cpp:175-210 | byte by byte, the downlink writes the destination address, the port or identifier and the two checksums |
| Packet.FillTransportIsValid | TripleUart_Ethernet_Gateway_ESP32_8720a/src/gw_eth.cpp:182-194 | the pseudo header followed by the transport part, or the ICMP message, sums to 0 |
| Packet.PseudoFields | TripleUart_Ethernet_Gateway_ESP32_8720a/src/ip_util.h:13-19 | source, destination, zero, protocol and transport length, as the pseudo header is laid out |
| PacketEdit.IpHtons | TripleUart_Ethernet_Gateway_ESP32_8720a/src/ip_util.h:131-142 | a little-endian store of the result puts the high byte of the argument first |
| PacketEdit.MakePseudo | TripleUart_Ethernet_Gateway_ESP32_8720a/src/gw_eth.cpp:182-189 | the structure in memory is the pseudo header of whatever the buffer holds, with its 16-bit length |
| PacketEdit.CalcPortChecksum | TripleUart_Ethernet_Gateway_ESP32_8720a/src/gw_eth.cpp:182-194 | the TCP or UDP checksum is filled in place, for any content of the buffer |
| PacketEdit.Redirect | TripleUart_Ethernet_Gateway_ESP32_8720a/src/gw_eth.cpp:176-210 | the whole buffer after the in-place edits, for any content |
| PacketEdit.ForwardDownlinkPacket | TripleUart_Ethernet_Gateway_ESP32_8720a/src/gw_eth.cpp:142-211 | checks, reverse lookup and edits for any content; a packet that fails a check leaves the table alone, one without a row is dropped |
| PacketEdit.OnFrame | nRF9160_LTE_Uart_Gateway_for_MultipleLteDevice/src/gateway.c:198-256 | the modem drops a frame whose length is wrong or when it has no address or no connection, and otherwise queues what the edits leave |
| PacketEdit.RawDownlinkIsRewrite | TripleUart_Ethernet_Gateway_ESP32_8720a/src/gw_eth.cpp:176-210 | on a packet with its full header and transport fields the edits of the buffer are the downlink rewrite, whatever lies behind the packet |
| PacketEdit.RawUplinkIsRewrite | nRF9160_LTE_Uart_Gateway_for_MultipleLteDevice/src/gateway.c:223-250 | and those of the modem are the modem's rewrite |
| PacketEdit.ForwardRewrites | TripleUart_Ethernet_Gateway_ESP32_8720a/src/gw_eth.cpp:161-211 | for such a packet, what is sent on is the downlink rewrite to the client and port of its row |
| PacketEdit.ForwardedExactlyWhen | TripleUart_Ethernet_Gateway_ESP32_8720a/src/gw_uart.cpp:526-534 | a frame leads to a packet for the Ethernet side if and only if it has 21 to 1280 bytes as its length field says, a valid header checksum, one of the three protocols, and an unexpired row with its protocol, source address and destination port or identifier |
| PacketEdit.OnDownlinkFrame | TripleUart_Ethernet_Gateway_ESP32_8720a/src/gw_uart.cpp:526-540 | the tests at the end of a frame, and what they hand on |
| PacketEdit.RelayedExactlyWhen | nRF9160_LTE_Uart_Gateway_for_MultipleLteDevice/src/gateway.c:198-222 | the modem relays a frame if and only if its length field is right and the modem has an address and a connection |
| EchoReplies.Responder.OperatePacketIcmpEchoReq | TripleUart_Ethernet_Gateway_ESP32_8720a/src/hdr_icmp_echo_req.cpp:35-52 | a request is answered if and only if it has a 20-byte header and a valid checksum, with the reply built in the static structure |
| EchoReplies.ReplyIsValid | TripleUart_Ethernet_Gateway_ESP32_8720a/src/hdr_icmp_echo_req.cpp:43-50 | the reply has valid checksums, turned addresses, type 0, and the request's identifier, sequence number and data; this includes the one answered request that ends inside its checksum field |
| EchoReplies.ShortRequests | TripleUart_Ethernet_Gateway_ESP32_8720a/src/hdr_icmp_echo_req.cpp:35-40 | an echo request of 35 to 37 bytes is answered if and only if its ICMP part is 08 FF F7 |
| EchoReplies.AnsweredExactlyWhen | TripleUart_Ethernet_Gateway_ESP32_8720a/src/hdr_icmp_echo_req.cpp:35-40 | answered means a 20-byte header and an ICMP part whose 16-bit words carry around to 65535 |
| RingMachine.StepKeepsInv | TripleUart_Ethernet_Gateway_ESP32_8720a/src/gw_eth.cpp:57-81 | every micro-step of producer and consumer keeps the ring consistent |
| RingMachine.RingIsSafe | TripleUart_Ethernet_Gateway_ESP32_8720a/src/gw_uart.cpp:154-370 | in every interleaving the slot being written is not the slot being read, the consumer sees only its own changes, at most 15 frames wait, and frames are consumed in order, each once |
| RingMachine.FullAndEmpty | TripleUart_Ethernet_Gateway_ESP32_8720a/src/gw_eth.cpp:16-19 | the two index tests say exactly whether 15 frames or none wait |
| RingMachine.OfferedFrame | TripleUart_Ethernet_Gateway_ESP32_8720a/src/gw_eth.cpp:57-81 | after any run, an offered frame is taken if and only if fewer than 15 wait, and once taken it is accepted, whatever the consumer does meanwhile |
| RingMachine.PolledFrame | TripleUart_Ethernet_Gateway_ESP32_8720a/src/gw_uart.cpp:154-370 | after any run, a poll takes the oldest waiting frame if and only if there is one, and once taken it is consumed, whatever the producer does meanwhile |
| RingMachine.EditIsRead | TripleUart_Ethernet_Gateway_ESP32_8720a/src/gw_uart.cpp:214-215 | an edit is what a read of that byte then returns, and changes no other |
| EthRings.WantsUplink | TripleUart_Ethernet_Gateway_ESP32_8720a/src/gw_eth.cpp:23-82 | which frames are passed on to the uplink task, also when the header reaches behind the frame |
| EthRings.PassedOnExactlyWhen | TripleUart_Ethernet_Gateway_ESP32_8720a/src/gw_eth.cpp:23-82 | for any bytes, a frame of 35 to 1280 bytes is passed on if and only if it is an IPv4 frame for the gateway's MAC address, the TTL is at least 64, the words of the IP header carry around to 65535, and it is TCP, UDP, or ICMP not for the gateway itself |
| EthRings.EthRing.CheckWritable | TripleUart_Ethernet_Gateway_ESP32_8720a/src/gw_eth.cpp:16-19 | the producer's test |
| EthRings.EthRing.CopyOne | TripleUart_Ethernet_Gateway_ESP32_8720a/src/gw_eth.cpp:69 | one byte of the copy into the slot |
| EthRings.EthRing.PublishSlot | TripleUart_Ethernet_Gateway_ESP32_8720a/src/gw_eth.cpp:71 | moving the write index accepts the frame |
| EthRings.EthRing.PollReadable | TripleUart_Ethernet_Gateway_ESP32_8720a/src/gw_uart.cpp:28-31 | the consumer's test |
| EthRings.EthRing.ReadByte | TripleUart_Ethernet_Gateway_ESP32_8720a/src/gw_uart.cpp:158-162 | what the consumer reads is what it took, with its own edits |
| EthRings.EthRing.EditByte | TripleUart_Ethernet_Gateway_ESP32_8720a/src/gw_uart.cpp:214-215 | an edit in place changes the consumer's slot only |
| EthRings.EthRing.ReleaseSlot | TripleUart_Ethernet_Gateway_ESP32_8720a/src/gw_uart.cpp:370 | moving the read index consumes the frame |
| ArpTable.FindRefines | TripleUart_Ethernet_Gateway_ESP32_8720a/src/hdr_arp.cpp:34-50 | a lookup in the table answers as the expiring map and keeps the correspondence |
| ArpTable.UpdateRefines | TripleUart_Ethernet_Gateway_ESP32_8720a/src/hdr_arp.cpp:51-82 | so does an update, including the updates that are dropped |
| ArpTable.LookupGivesLatestUpdate | TripleUart_Ethernet_Gateway_ESP32_8720a/src/hdr_arp.cpp:34-82 | after any sequence of operations a lookup gives the address of the latest update not dropped if it is under 20 minutes old, and nothing otherwise |
| ArpTable.DroppedExactlyWhenFull | TripleUart_Ethernet_Gateway_ESP32_8720a/src/hdr_arp.cpp:51-82 | live rows have distinct addresses, and the update of a real address ends with the null result if and only if the address is not among the recent ones and these fill the table |
| ArpCaches.ArpCache.GcArpCache | TripleUart_Ethernet_Gateway_ESP32_8720a/src/hdr_arp.cpp:11-22 | expiry in place |
| ArpCaches.ArpCache.SearchArpCacheByIp | TripleUart_Ethernet_Gateway_ESP32_8720a/src/hdr_arp.cpp:34-50 | the loop finds what the table function finds |
| ArpCaches.ArpCache.UpdateArpCacheByIp | TripleUart_Ethernet_Gateway_ESP32_8720a/src/hdr_arp.cpp:51-82 | the single pass that remembers the first free row is the table function, and its result is the row written or null |
| AtGrammar.FaultsExactlyWhen | nRF9160_LTE_Uart_Gateway_for_MultipleLteDevice/src/nrf91/nrf91_at_commands.c:72-235 | on any list of fields the parser leaves its arrays if and only if one of the first 6049 is longer than 128 bytes, or nonempty behind entry 41 |
| AtGrammar.ResponseIsParsed | nRF9160_LTE_Uart_Gateway_for_MultipleLteDevice/src/nrf91/nrf91_at_commands.c:72-235 | otherwise it fails, with -9002, if and only if there are more than 6049 fields, and else stores those of the first 42 in order with their types and values and leaves the parse buffer empty |
| AtGrammar.CodeTellsPlace | nRF9160_LTE_Uart_Gateway_for_MultipleLteDevice/src/nrf91/nrf91_at_commands.c:72-235 | the code of a failure tells the state and the byte at which the text was refused |
| AtLanguage.TailIsIgnored | nRF9160_LTE_Uart_Gateway_for_MultipleLteDevice/src/nrf91/nrf91_at_commands.c:97-104 | nothing behind the carriage return, line feed or zero that ends the line changes the result |
| AtLanguage.AcceptedExactlyWhen | nRF9160_LTE_Uart_Gateway_for_MultipleLteDevice/src/nrf91/nrf91_at_commands.c:72-235 | a text of any bytes is accepted if and only if it has no parameters or is a prefix, a space, fields of the grammar that can be stored, and an end of line |
| AtLanguage.SignsAndZeros | nRF9160_LTE_Uart_Gateway_for_MultipleLteDevice/src/nrf91/nrf91_at_commands.c:182 | a plus sign and leading zeros do not change a number, a minus sign negates it |
| AtRoundTrip.IntRoundTrip | nRF9160_LTE_Uart_Gateway_for_MultipleLteDevice/src/nrf91/nrf91_at_commands.c:178-204 | the decimal text of every C int fits the buffer and reads back as that int |
| AtRoundTrip.ParametersAreStored | nRF9160_LTE_Uart_Gateway_for_MultipleLteDevice/src/nrf91/nrf91_at_commands.c:60-245 | rendering at most 42 parameters that fit the buffer and parsing them gives all of them back, whatever follows their line |
| AtRoundTrip.AtResponseRoundTrip | nRF9160_LTE_Uart_Gateway_for_MultipleLteDevice/src/nrf91/nrf91_at_commands.c:60-245 | for every list of parameters of any number and length and whatever follows their line, as many come back if and only if there are at most 42, none is longer than 128 bytes, and the last is not empty; they are then the same |
| AtParsers.AtParser.AtResClear | nRF9160_LTE_Uart_Gateway_for_MultipleLteDevice/src/nrf91/nrf91_at_commands.c:60-71 | count and list are cleared |
| AtParsers.AtParser.InNumber | nRF9160_LTE_Uart_Gateway_for_MultipleLteDevice/src/nrf91/nrf91_at_commands.c:177-222 | the branch inside a number, with its error codes |
| AtParsers.AtParser.InQuotes | nRF9160_LTE_Uart_Gateway_for_MultipleLteDevice/src/nrf91/nrf91_at_commands.c:153-176 | the branch inside a string, with its error code |
| AtParsers.AtParser.Between | nRF9160_LTE_Uart_Gateway_for_MultipleLteDevice/src/nrf91/nrf91_at_commands.c:81-152 | the branches between parameters, with their error codes |
| AtParsers.AtParser.ParseFrom | nRF9160_LTE_Uart_Gateway_for_MultipleLteDevice/src/nrf91/nrf91_at_commands.c:72-235 | the tail calls compute the outcome of the machine on the rest of the text, with the test of the index against the list's size in bytes |
| AtParsers.AtParser.AtResParse | nRF9160_LTE_Uart_Gateway_for_MultipleLteDevice/src/nrf91/nrf91_at_commands.c:236-245 | clearing, parsing, and -EINVAL with no parameters for every failure |
| EndToEnd.ForwardIsDownlinkStep | TripleUart_Ethernet_Gateway_ESP32_8720a/src/gw_eth.cpp:161-211 | handling a downlink packet's bytes is the downlink step of the machine |
| EndToEnd.UplinkPath | nRF9160_LTE_Uart_Gateway_for_MultipleLteDevice/src/gateway.c:128-256 | the translated packet fits the modem's buffer, crosses the link unchanged and leaves the modem valid, from its address and the translated port |
| EndToEnd.RepliesWhileInUse | TripleUart_Ethernet_Gateway_ESP32_8720a/src/gw_eth.cpp:142-211 | whatever happens, for as long as a row is never left unused for 20 seconds, every reply from its server to its port is received exactly and leaves for its client and port |
| EndToEnd.RoundTrip | TripleUart_Ethernet_Gateway_ESP32_8720a/src/gw_uart.cpp:149-374 | the whole round trip of a TCP, UDP or ICMP echo packet and every reply to it while its row stays in use, refreshed by packets in either direction; for TCP and for the packet that adds a row, the server is the packet's destination |
| EndToEnd.NothingDamagedReachesClients | TripleUart_Ethernet_Gateway_ESP32_8720a/src/gw_uart.cpp:389-546 | whatever a line has carried and whatever was thrown away, a frame that leads to a packet for a client was on the line in one piece, with the right length and a valid header checksum, from the server of an unexpired row |
| EndToEnd.UsedWhileTalking | TripleUart_Ethernet_Gateway_ESP32_8720a/src/hdr_portmap.cpp:46-142 | a row stays in use for as long as its packets, in either direction, come less than 20 seconds apart |
| EndToEnd.UsedForTwentySeconds | TripleUart_Ethernet_Gateway_ESP32_8720a/src/hdr_portmap.cpp:46-63 | in particular a row just refreshed stays in use for 20 seconds, whatever happens |
| EndToEnd.ReachableStatesQualify | TripleUart_Ethernet_Gateway_ESP32_8720a/src/gw_uart.cpp:149-374 | every timely run from power-up reaches only states in which the round trip holds |

## Left out

- Hardware and operating system calls, sockets, message queues, threads, delays and `eth_tx_lock`: readiness, time and connection state are inputs, a queue is taken to have room, and each table function is one atomic step at one clock reading.
- Rows held by pointer across calls: a packet that finds its row is handled in one step, from the lookup to the read of its port. A packet that does not takes three.
- The UART driver's queue: how many pending bytes `SerialDiscard` throws away is an input of `UartLink.GatewayReceiver.Receive`.
- PacketEdit.ForwardDownlinkPacket: for an accepted ICMP packet requires the IP header not to be longer than the packet, because the code then sums a length below zero, far outside its buffer; the buffer is at least 78 bytes long.
- PacketEdit.OnFrame: the same requirement; the queue's limit of 1280 bytes is not modelled here (the round trip keeps within it).
- EthRings.WantsUplink: echo requests to the gateway and ARP frames are only said not to be passed on.
- PacketEdit.OnDownlinkFrame: the same requirement as `PacketEdit.ForwardDownlinkPacket`.
- EchoReplies.ReplyIsValid: the checksum covers the whole rest of the frame, so trailing Ethernet padding counts as data; frames shorter than their checksum field that are not answered echo requests are left out.
- UartLink.ModemReceiver.Read: requires room in the buffer, because without it the code writes behind the buffer; `Framing.StreamFits` says exactly when a stream leaves room.
- UartLink.ModemReceiver.Receive: requires the same of its stream.
- UartLink.Transmitter.SendQueued: requires the length field to lie within the queued buffer; with a larger one the code frames whatever memory follows.
- IpUtil.IpChecksum2: requires a second part after an odd first one, because the code reads its first byte in any case; both callers have a first part of 12 bytes.
- UplinkTasks.UplinkTask.Emit: for well-formed TCP, UDP and ICMP echo packets that lie inside their slot; for a length field that passes the slot the code sends the following slot's bytes too, and other ICMP types are not translated by the code either.
- The increment of `cntr` before a row is added: it is always overwritten from the row's link before it is read.
- Odd positions of a checksum field, and lengths above 65535 for `ip_checksum1`: no caller has them. RFC 768's replacement of a zero UDP checksum is not done by the code and not claimed.
- `resolve_arp` with its waiting loop, the layout of ARP packets, and the Ethernet header of a downlink frame.
- The modem's own `pmap.c` and `arp_cache.c`, which the gateway path does not call, and the uncalled `remove_pmap_*` and `update_pmap_by_serevr_info`.
- The LTE attach and detach loops, the AT command wrappers, GPIO, LEDs and the conversions of `nrf91_util.c`.
- AtParsers.AtParser.AtResParse: starts from a zeroed parse buffer and from texts on which the code stays inside its arrays, as `AtGrammar.FaultsExactlyWhen` characterises them for fields of the grammar; what a failed parse leaves in the buffer, and `atoi` beyond the range of an int, are not modelled.
- AtParsers.AtParser.InNumber: requires, like the two other branches, that the step stays inside the arrays.
- AtParsers.AtParser.InQuotes: the same.
