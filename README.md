# Network-systems exercises in Dafny

This project models six small network programs and proves properties about them:

- **Sliding-window transfer** (`swp`).
  - The sender cuts a file into packets of at most 128 bytes behind a one-byte sequence number, modulo 40.
  - At most 20 packets are in flight at once, and each one is retransmitted until it is acknowledged. The shift of the send window can move it past the next packet to send and strand the sender (third row under "## Findings").
  - The receiver buffers the packets of its 20-slot window and is meant to hand the payloads on in order. After its low edge wraps, a stale buffered slot can be output in the wrong round (first row under "## Findings").
- **Longest-prefix matcher** (`lpm`): an IPv4 table with one map per prefix length 0..32. A lookup returns the port of the longest matching prefix.
- **Distance-vector routing** (`dvp`): each tick the node takes its neighbours' tables, keeps the cheapest route to every destination and broadcasts its own table.
- **Medium access, two protocols** (`mac`): token passing, and reserve-to-send, where control values are read as decimal text.
- **Hand-made TCP over IPv6 client** (`tcphack`): it lays out the headers byte by byte, opens with a SYN, requests a page and acknowledges the server's FIN.
- **Browser request filter** (`pewe`): it cancels requests to tracker hosts and hides the User-Agent.

Each program keeps the form of its source.

- Objects whose fields change are classes.
  - Their methods are proved against pure step functions, which carry the lemmas.
  - This covers the sender and receiver, the prefix table, the routing node and the two MAC protocols.
- Loops over arrays stay loops over arrays, for example header building, packet layout and the header filter.
- Java `int` arithmetic is written out in module `JavaInt`:
  - wrap-around to 32 bits;
  - the arithmetic right shift;
  - five-bit shift counts;
  - `|` and `& 0xff`.
- `String.valueOf`, `Integer.parseInt` and `split("\\.")` are written out in `Decimal` and `PrefixMatcher`.

The receiver's low edge is the one place where the code and its evident intent part ways. The buffering loop scans the absolute indices low..low+19 (swp/src/my_protocol/MyProtocol.java:235-242), and the drain is meant to output the payloads in order. Yet the code keeps the low edge modulo 40 (line 272). The model follows the code as written, shows the consequence under "## Findings", and proves in-order delivery for an absolute low edge.

## Model

| member | source | states |
|---|---|---|
| SequenceSpace.WindowMembership | swp/src/my_protocol/MyProtocol.java:173-181 | for seq and lo in [0, 40), isValidSeq(seq, lo, (lo+19) % 40) holds exactly when seq lies fewer than 20 steps after lo on the circle, wrapped windows included |
| SequenceSpace.ChunkShape | swp/src/my_protocol/MyProtocol.java:60-72 | packet k of the sender loop is header (seq0 + k) mod 40 followed by the k-th slice of 128 bytes of the file (the last one shorter) |
| SequenceSpace.ChunkCount | swp/src/my_protocol/MyProtocol.java:52-72 | the sender loop emits ceil(length / 128) packets |
| SequenceSpace.ChunksPayloads | swp/src/my_protocol/MyProtocol.java:60-72 | the payloads of the packets, concatenated, are the file |
| SequenceSpace.ThreeHundredBytes | swp/src/my_protocol/MyProtocol.java:61-70 | a 300-byte file gives headers 0, 1, 2 with payloads of 128, 128 and 44 bytes |
| SendWindow.SkipLands | swp/src/my_protocol/MyProtocol.java:144-151 | shiftSendWindow moves the low edge over absent seqs only, at most WINDOW_SIZE of them, and stops early only on a seq in flight |
| SendWindow.SkipKeepsWindow | swp/src/my_protocol/MyProtocol.java:144-151 | after the shift every seq in flight still lies within WINDOW_SIZE steps of the low edge, which stays in [0, 40) |
| SendWindow.SkipStrandsSender | swp/src/my_protocol/MyProtocol.java:144-157 | on an empty table the shift takes all 20 steps, so a next sequence number 1..19 places after the old low edge ends up 21..39 places after the new one, outside the window isAvailableSeq accepts |
| SendWindow.SkipToNextKeepsNext | swp/src/my_protocol/MyProtocol.java:144-151 | the corrected shift, stopping also at the next number to send, keeps every in-flight number before that one, never moves the edge past it, and on an empty table lands on it |
| SendWindow.AdmitKeepsInv | swp/src/my_protocol/MyProtocol.java:55-72 | admitting the next packet keeps at most WINDOW_SIZE packets in flight, each within the window and stored under its own header, and keeps the packets issued plus those to come equal to the chunking of the file |
| SendWindow.Sender.constructor | swp/src/my_protocol/MyProtocol.java:48-49 | the transfer starts at file position 0 and seq 0, with the low edge 0 and nothing in flight |
| SendWindow.Sender.IsAvailableSeq | swp/src/my_protocol/MyProtocol.java:153-157 | a seq is available exactly when fewer than WINDOW_SIZE packets are in flight and it lies fewer than WINDOW_SIZE steps after the low edge |
| SendWindow.Sender.SendPacket | swp/src/my_protocol/MyProtocol.java:189-197 | the packet is handed to the network, stored in flight under its seq (replacing an earlier one) and its timer is armed |
| SendWindow.Sender.SendNext | swp/src/my_protocol/MyProtocol.java:52-72 | one pass of the sender loop: when the file is not exhausted and the seq is available, the next slice goes out behind its header and the cursor and seq advance; otherwise nothing changes; the invariant is kept |
| SendWindow.Sender.AcceptAck | swp/src/my_protocol/MyProtocol.java:160-171 | the acknowledged key is removed and every other entry stays |
| SendWindow.Sender.ShiftSendWindow | swp/src/my_protocol/MyProtocol.java:144-151 | the low edge becomes the place SkipLands describes |
| SendWindow.Sender.ReceiveAck | swp/src/my_protocol/MyProtocol.java:125-133 | an ack for a seq not in flight changes nothing; otherwise exactly that key is removed and the window shifts |
| SendWindow.Sender.TimeoutElapsed | swp/src/my_protocol/MyProtocol.java:102-112 | a packet still in flight is sent again unchanged and its timer re-armed; otherwise nothing is sent |
| SendWindow.Sender.FinishTransmission | swp/src/my_protocol/MyProtocol.java:85-99 | the one-element packet 200 goes out exactly when nothing is in flight, and then every packet of the file has been issued |
| Reassembler.BufferUpToContents | swp/src/my_protocol/MyProtocol.java:236-243 | the buffering loop adds exactly the indices of the range whose value mod 40 is the seq, holding the payload, and never overwrites an entry already there |
| Reassembler.Buffer | swp/src/my_protocol/MyProtocol.java:236-243 | over the window [low, low+20) the stored keys grow by exactly the matching slots, old entries keep their payloads, new ones hold the packet's payload |
| Reassembler.WalkRun | swp/src/my_protocol/MyProtocol.java:253-264 | walking the sorted keys while each is at most one past the previous covers a contiguous run, stops before the first gap, and yields the run's payloads in order |
| Reassembler.DrainFromLow | swp/src/my_protocol/MyProtocol.java:249-264 | the drain from the expected index appends the payloads at low..l, all buffered, with l+1 missing |
| Reassembler.Receiver.constructor | swp/src/my_protocol/MyProtocol.java:202-208 | low edge 0, empty buffer, empty output |
| Reassembler.Receiver.Receive | swp/src/my_protocol/MyProtocol.java:215-273 | a packet is FIN exactly when it has length 1 and value 200 (it stops the receiver and nothing else changes); any other packet is acknowledged with its own header and processed by the step function |
| Reassembler.Receiver.BufferPacket | swp/src/my_protocol/MyProtocol.java:236-243 | the buffering loop computes Buffer |
| Reassembler.Receiver.DrainBuffered | swp/src/my_protocol/MyProtocol.java:249-273 | the drained payloads are appended, indices low..last removed, and the low edge becomes (last+1) mod 40 |
| Reassembler.Receiver.AppendRun | swp/src/my_protocol/MyProtocol.java:250-264 | the append loop over the sorted keys computes the drain walk |
| Reassembler.Receiver.RemoveRun | swp/src/my_protocol/MyProtocol.java:267-269 | exactly the indices low..last are removed from the buffer |
| InOrderDelivery.StaleSlotSurvivesWrap | swp/src/my_protocol/MyProtocol.java:236-272 | with low 39 and index 45 buffered, packet 39 wraps the low edge to 0 and leaves index 45 buffered outside the new window |
| InOrderDelivery.BufferGenuine | swp/src/my_protocol/MyProtocol.java:236-243 | for a receiver that agrees with the stream, a packet the sender can still have out (index within 20 of the low edge on either side) is buffered at its own index when that is not below the low edge, and nowhere else |
| InOrderDelivery.StepAbsoluteDelivers | swp/src/my_protocol/MyProtocol.java:236-272 | with an absolute low edge, every packet the sender can still have out keeps the receiver in agreement with the stream (output is the payloads below the low edge in order, every buffered index lies inside the window after it and holds the stream's payload); the edge never moves back, it advances on the expected packet, and an old duplicate changes nothing |
| InOrderDelivery.DrainDelivers | swp/src/my_protocol/MyProtocol.java:249-272 | when the expected payload arrives, the drain ends at some last index at or past the low edge and leaves a receiver that agrees with the stream with its low edge at last + 1 |
| InOrderDelivery.StartDelivered | swp/src/my_protocol/MyProtocol.java:202-208 | the fresh receiver (low edge 0, nothing buffered, nothing output) agrees with every stream |
| InOrderDelivery.FilePackets | swp/src/my_protocol/MyProtocol.java:60-66 | the sender's packet i is header i mod 40 followed by payload i of the stream |
| InOrderDelivery.ReceiverRebuildsFile | swp/src/my_protocol/MyProtocol.java:200-285 | a receiver that agrees with the file's stream and has passed its last packet has output exactly the file |
| PrefixMatcher.PrefixZero | lpm/src/lpm/LongestPrefixMatcher.java:66 | a route of length 0 is keyed by the whole address, the shift by 32 being a shift by 0 |
| PrefixMatcher.SameKeyIffSameBlock | lpm/src/lpm/LongestPrefixMatcher.java:66 | for lengths 1..32 two addresses share a key exactly when they lie in the same aligned block of 2^(32-len) addresses |
| PrefixMatcher.LongestMatchWins | lpm/src/lpm/LongestPrefixMatcher.java:39-50 | lookup answers with the port of the longest matching length |
| PrefixMatcher.NoMatchMinusOne | lpm/src/lpm/LongestPrefixMatcher.java:39-53 | with no matching length in 1..32 lookup answers -1; the map of length 0 is never consulted |
| PrefixMatcher.Added | lpm/src/lpm/LongestPrefixMatcher.java:64-70 | addRoute puts the port under ip's key in the map of its length, overwriting, and changes no other map or key |
| PrefixMatcher.AddedRouteFound | lpm/src/lpm/LongestPrefixMatcher.java:39-70 | after addRoute(ip, len, p) every address sharing ip's top len bits is looked up to p unless a longer route matches it |
| Octets.Octet | lpm/src/lpm/LongestPrefixMatcher.java:88 | (ip >> s) & 0xff is a number 0..255 |
| PrefixMatcher.ParsedPieces | lpm/src/lpm/LongestPrefixMatcher.java:98-103 | rounds that do not throw read one 32-bit int per piece, and there are at least as many pieces as rounds |
| PrefixMatcher.ParsedFails | lpm/src/lpm/LongestPrefixMatcher.java:101-102 | a round that throws (missing piece or bad number) ends the parse |
| Octets.Combine | lpm/src/lpm/LongestPrefixMatcher.java:100-103 | OR-ing the shifted pieces stays a 32-bit int |
| Octets.CombineBytes | lpm/src/lpm/LongestPrefixMatcher.java:99-103 | four bytes OR-ed into place by the four rounds of parseIP make the number they spell in base 256 |
| Octets.OctetsRecombine | lpm/src/lpm/LongestPrefixMatcher.java:87-106 | the four octets shifted back by 24, 16, 8, 0 and OR-ed give the address back |
| PrefixMatcher.ParseIPRoundTrip | lpm/src/lpm/LongestPrefixMatcher.java:87-106 | parseIP(ipToHuman(ip)) == ip for every int |
| PrefixMatcher.EmptyRoutes | lpm/src/lpm/LongestPrefixMatcher.java:27-31 | 33 empty maps |
| PrefixMatcher.LongestPrefixMatcher.constructor | lpm/src/lpm/LongestPrefixMatcher.java:27-31 | the loop creates 33 empty maps, one per prefix length 0..32 |
| PrefixMatcher.LongestPrefixMatcher.AddRoute | lpm/src/lpm/LongestPrefixMatcher.java:64-70 | the table becomes Added(...) |
| PrefixMatcher.LongestPrefixMatcher.Lookup | lpm/src/lpm/LongestPrefixMatcher.java:39-54 | the scan from 32 down to 1 returns the longest-prefix answer and changes nothing |
| PrefixMatcher.ParseIP | lpm/src/lpm/LongestPrefixMatcher.java:97-106 | the accumulation loop computes the four-piece combination, or an exception when a round throws |
| Decimal.Digits | lpm/src/lpm/LongestPrefixMatcher.java:88 | the decimal text of a non-negative int is non-empty, all digits, one character exactly below 10, with no leading zero |
| Decimal.IntToString | mac/src/my_protocol/ReserveToSendProtocol.java:29 | the text of an int has length 1 exactly for 0..9; negative values carry a minus sign |
| Decimal.ParseInt | lpm/src/lpm/LongestPrefixMatcher.java:102 | a parsed value is a 32-bit int read from a non-empty text |
| Decimal.ParseIntDigits | lpm/src/lpm/LongestPrefixMatcher.java:102 | Integer.parseInt reads back String.valueOf for every non-negative int |
| JavaInt.Wrap | dvp/src/my_protocol/MyRoutingProtocol.java:80 | 32-bit addition keeps the low 32 bits and leaves in-range sums alone |
| JavaInt.ShiftCount | lpm/src/lpm/LongestPrefixMatcher.java:66 | a shift count is taken mod 32, so 32 becomes 0 |
| JavaInt.ShiftLeft | lpm/src/lpm/LongestPrefixMatcher.java:102 | x << n is a 32-bit int |
| JavaInt.OrOfDisjoint | lpm/src/lpm/LongestPrefixMatcher.java:102 | OR of bit patterns that do not overlap is their sum |
| DistanceVector.CostRow | dvp/src/my_protocol/MyRoutingProtocol.java:75-83 | entry i of the sender's row is cost + linkCost (a 32-bit sum) when the neighbour has a route to i not through this node, and -1 otherwise |
| DistanceVector.LastFrom | dvp/src/my_protocol/MyRoutingProtocol.java:38-40 | the last packet of the batch from a sender is from it, and no later one is |
| DistanceVector.ProcessAllRows | dvp/src/my_protocol/MyRoutingProtocol.java:38-40 | processing a batch gives each sender the row of its last packet, replacing earlier rows, and keeps the other rows |
| DistanceVector.RelaxRowAt | dvp/src/my_protocol/MyRoutingProtocol.java:100-113 | the inner loop changes only destinations 1..i, each by one offer |
| DistanceVector.OfferAt | dvp/src/my_protocol/MyRoutingProtocol.java:105-111 | one offer from a neighbour above those seen keeps the route to that destination the cheapest, ties going to the smaller neighbour |
| DistanceVector.RelaxRowBest | dvp/src/my_protocol/MyRoutingProtocol.java:95-114 | relaxing one more neighbour keeps the table the best over the neighbours seen |
| DistanceVector.RelaxAllBest | dvp/src/my_protocol/MyRoutingProtocol.java:95-114 | the outer loop ends in the best table over all neighbours |
| DistanceVector.RoutingTableIsBest | dvp/src/my_protocol/MyRoutingProtocol.java:90-115 | resetRoutingTable has no route to this node; it has a route to exactly the destinations some neighbour reaches, each at the least cost, through the least neighbour offering it |
| DistanceVector.Advertisement | dvp/src/my_protocol/MyRoutingProtocol.java:122-144 | the broadcast is a 2 x 6 table |
| DistanceVector.AdvertisedBest | dvp/src/my_protocol/MyRoutingProtocol.java:122-144 | the broadcast has cost 0 and hop -1 for this node, -1/-1 for unreachable destinations, and otherwise the best route |
| DistanceVector.MyRoutingProtocol.constructor | dvp/src/my_protocol/MyRoutingProtocol.java:21-24 | no neighbours, rows or routes |
| DistanceVector.MyRoutingProtocol.Tick | dvp/src/my_protocol/MyRoutingProtocol.java:33-58 | afterwards the neighbours are exactly this tick's senders, each with its last row; the table is rebuilt and its advertisement broadcast |
| DistanceVector.MyRoutingProtocol.ProcessPacket | dvp/src/my_protocol/MyRoutingProtocol.java:65-85 | the sender is marked heard and its row replaced by CostRow |
| DistanceVector.MyRoutingProtocol.ForgetSilent | dvp/src/my_protocol/MyRoutingProtocol.java:43-48 | the rows left are those of the neighbours heard this tick |
| DistanceVector.MyRoutingProtocol.ResetRoutingTable | dvp/src/my_protocol/MyRoutingProtocol.java:90-115 | the nested loops compute RoutingTable |
| DistanceVector.MyRoutingProtocol.GetBestRoutes | dvp/src/my_protocol/MyRoutingProtocol.java:122-144 | the cell-by-cell loop computes Advertisement |
| DistanceVector.MyRoutingProtocol.GetForwardingTable | dvp/src/my_protocol/MyRoutingProtocol.java:165-171 | the forwarding table has the routing table's keys, maps each to its next hop, and every hop is a neighbour heard last tick |
| TokenBased.InitialState | mac/src/my_protocol/TokenBasedProtocol.java:29-34 | the initial fields satisfy the invariant |
| TokenBased.StepKeepsInv | mac/src/my_protocol/TokenBasedProtocol.java:37-73 | every slot keeps the invariant |
| TokenBased.StepId | mac/src/my_protocol/TokenBasedProtocol.java:38-61 | an id once held never changes, a zero id becomes only the pending candidate after a success carrying it, and a candidate is pending exactly when the node has no id and won the coin |
| TokenBased.StepIds | mac/src/my_protocol/TokenBasedProtocol.java:38-50 | the known ids grow by the control value of a successful slot, and by nothing else |
| TokenBased.StepUnassigned | mac/src/my_protocol/TokenBasedProtocol.java:53-61 | without an id the node announces |ids|+1 or keeps silent, never sends data |
| TokenBased.StepRotation | mac/src/my_protocol/TokenBasedProtocol.java:63-67 | the turn passes to senderId % |ids| + 1 after 6 slots of one sender or an idle slot, and stays otherwise |
| TokenBased.StepData | mac/src/my_protocol/TokenBasedProtocol.java:69-72 | data goes out exactly when the node has an id, a queue and the turn, and it carries the id |
| TokenBased.Run | mac/src/my_protocol/TokenBasedProtocol.java:37-73 | any sequence of slots keeps the invariant |
| TokenBased.RunKeepsId | mac/src/my_protocol/TokenBasedProtocol.java:37-73 | over any slots an id once held is kept and the known ids only grow |
| TokenBased.TokenBasedProtocol.constructor | mac/src/my_protocol/TokenBasedProtocol.java:29-34 | the fields start as the initial state |
| TokenBased.TokenBasedProtocol.TimeslotAvailable | mac/src/my_protocol/TokenBasedProtocol.java:37-73 | the fields and the answer are those of the step function |
| ReserveToSend.InitialState | mac/src/my_protocol/ReserveToSendProtocol.java:20-24 | the initial fields satisfy the invariant |
| ReserveToSend.ReservationValue | mac/src/my_protocol/ReserveToSendProtocol.java:66-76 | the reservation of a one-digit id is the number 10*id + 6 |
| ReserveToSend.StepKeepsInv | mac/src/my_protocol/ReserveToSendProtocol.java:27-88 | every slot keeps the invariant (the id is one digit, the extra turns are never negative), also when it ends in NumberFormatException |
| ReserveToSend.StepIds | mac/src/my_protocol/ReserveToSendProtocol.java:28-35 | a successful slot adds its control value exactly when it is 0..9; the id is adopted only from such a value and is kept once held |
| ReserveToSend.TurnKeepsIds | mac/src/my_protocol/ReserveToSendProtocol.java:48-88 | after the id check a slot changes neither the known ids nor the id |
| ReserveToSend.StepUnassigned | mac/src/my_protocol/ReserveToSendProtocol.java:37-46 | without an id the node announces |ids|+1 or keeps silent |
| ReserveToSend.StepReservationHeard | mac/src/my_protocol/ReserveToSendProtocol.java:48-82 | a successful control value of two or more characters whose tail parses sets the extra turns to that tail's number (the magnitude of a negative value, the digits after the first of a positive one); the slot spends one of them, and with turns left the sender stays |
| ReserveToSend.StepRotation | mac/src/my_protocol/ReserveToSendProtocol.java:48-61 | for a node with an id and a slot that ends without exception: when the extra turns read from the slot are 0, the control value is not negative and the turn passes to (its first digit, or the sender after an idle slot) % |ids| + 1; otherwise the sender stays |
| ReserveToSend.StepReserve | mac/src/my_protocol/ReserveToSendProtocol.java:48-77 | for a node with an id and a slot that ends without exception, a reservation goes out exactly when more than 6 packets are queued, the turn is held, the extra turns read are 0 and more than one node is known; it carries 10*id + 6 and leaves the turns at 0 |
| ReserveToSend.SendReserve | mac/src/my_protocol/ReserveToSendProtocol.java:63-87 | the end of a slot sends a reservation exactly when more than 6 packets are queued, the turn is held, no extra turns are left and more than one node is known, and then changes no field |
| ReserveToSend.StepData | mac/src/my_protocol/ReserveToSendProtocol.java:84-87 | data goes out only with a queue and the turn, and it carries the id |
| ReserveToSend.StepTurns | mac/src/my_protocol/ReserveToSendProtocol.java:79-82 | without a heard reservation the extra turns drop by one while any are left |
| ReserveToSend.Run | mac/src/my_protocol/ReserveToSendProtocol.java:27-88 | any sequence of slots, stopping at an exception, keeps the invariant |
| ReserveToSend.RunKeepsId | mac/src/my_protocol/ReserveToSendProtocol.java:27-88 | over any slots an id once held is kept and the known ids only grow |
| ReserveToSend.ReserveToSendProtocol.constructor | mac/src/my_protocol/ReserveToSendProtocol.java:20-24 | the fields start as the initial state |
| ReserveToSend.ReserveToSendProtocol.TimeslotAvailable | mac/src/my_protocol/ReserveToSendProtocol.java:27-88 | the fields and the outcome are those of the step function |
| ReserveToSend.ReserveToSendProtocol.TakeTurn | mac/src/my_protocol/ReserveToSendProtocol.java:48-61 | reading the extra turns and passing the turn follow TurnStep, a failed parse ending the call |
| ReserveToSend.ReserveToSendProtocol.Send | mac/src/my_protocol/ReserveToSendProtocol.java:63-87 | the reservation and data decision follow SendStep |
| TcpHack.FieldAt | tcphack/MyTcpHandler.java:10-18 | each field of a built header can be read back at the sum of the lengths before it |
| TcpHack.BuildHeader | tcphack/MyTcpHandler.java:10-18 | the copy loop yields the fields in order followed by zeros up to the length |
| TcpHack.IpHeader | tcphack/MyTcpHandler.java:20-28 | 40 bytes: 0x60 (version 6), payload length in bytes 4-5, next header 0xfd, hop limit 0x3f, then the 16-byte source and destination addresses |
| TcpHack.GetIpHeader | tcphack/MyTcpHandler.java:20-28 | the built array is IpHeader |
| TcpHack.GetFlags | tcphack/MyTcpHandler.java:30-36 | SYN sets bit 1, ACK bit 4, FIN bit 0, and no other bit is set |
| TcpHack.TcpHeader | tcphack/MyTcpHandler.java:38-46 | 24 bytes: ports 0x1f92 (8082, though the code comment says 8081) and 7710, seq at 4..7, ack at 8..11, 0x60 and the flags at 12-13, window 501, zero checksum and trailer |
| TcpHack.GetTcpHeader | tcphack/MyTcpHandler.java:38-46 | the built array is TcpHeader |
| TcpHack.SendPacketLayout | tcphack/MyTcpHandler.java:48-58 | sendPacket lays out 64 bytes: IPv6 header with payload length 24, seq at 44..47, ack at 48..51, the flags at 53 |
| TcpHack.SendPacket | tcphack/MyTcpHandler.java:48-58 | the filled array is the IPv6 header followed by the TCP header |
| TcpHack.RequestPacketLayout | tcphack/MyTcpHandler.java:60-79 | requestPage lays out 64+18 bytes: payload length 42, seq 00 00 00 01, the ACK flag alone, the request text from byte 64 |
| TcpHack.RequestPage | tcphack/MyTcpHandler.java:60-79 | the filled array is the headers followed by the request bytes |
| TcpHack.AttachRequest | tcphack/MyTcpHandler.java:72-75 | after the loop the array holds its old header part followed by exactly the request bytes |
| TcpHack.ReadFieldsOfSent | tcphack/MyTcpHandler.java:100-115 | reading seq from 44..47, ack from 48..51 and FIN from bit 0 of byte 53 gives back what sendPacket wrote |
| TcpHack.FirstReplyRequests | tcphack/MyTcpHandler.java:100-110 | the first SYN+ACK is answered by one request acknowledging the server's seq plus one; later replies without FIN send nothing |
| TcpHack.HandleReceived | tcphack/MyTcpHandler.java:89-117 | one pass of the receive loop sends what ReceiveStep says, including the exception on packets too short |
| TcpHack.OpenConnection | tcphack/MyTcpHandler.java:83-85 | the opening packet has zero seq and ack and only the SYN flag |
| TcpHack.LastByteIncrementOverflows | tcphack/MyTcpHandler.java:107 | `seq[3] += 1` on a last byte of 0xff yields 0x100, which is not a byte, where the carry gives 12 34 57 00 |
| TcpHack.LastByteIncrementAgrees | tcphack/MyTcpHandler.java:107 | below 0xff the increment as written equals the increment with carry |
| TcpHack.Increment32 | tcphack/MyTcpHandler.java:107 | the increment with carry is the 32-bit sequence number plus one mod 2^32 |
| HeaderFilter.FirstBlocked | pewe/background.js:19-35 | the loop returns early at the first Host header containing a tracker name; one exists exactly when the position is inside the list |
| HeaderFilter.Hidden | pewe/background.js:38-41 | the rewrite keeps the number, order and names of the headers, sets visited User-Agent values to "Hidden" and leaves every other value |
| HeaderFilter.FirstBlockedUnique | pewe/background.js:22-35 | the early return happens at the first blocked header and at no other |
| HeaderFilter.FilterIdempotent | pewe/background.js:22-45 | filtering the filtered headers again gives the same verdict and changes nothing |
| HeaderFilter.OnRequest | pewe/background.js:2-59 | the answer is cancel exactly when some Host value contains "chartbeat", "cdn", "securepubads" or "2mdn"; User-Agent headers before the first such Host become "Hidden", later ones are untouched, nothing else changes |

## Left out

- Threads, locks and condition variables. In the sliding-window sender, every block the source runs under its lock is one atomic method. Waiting on a condition is a method call that returns without changing anything.
- Timers. `Utils.Timeout.SetTimeout` is recorded as a ghost log of the timer tags armed.
- All I/O is left out: the network layer, the file source, `System.out` and `console.log`. Packets handed to the network are appended to a sequence, or returned.
- The polling loop of the acknowledgment listener, `Thread.sleep` and the receiver's outer `while` are not modelled. One arrival is one step.
- `Math.random()` in both MAC protocols is not modelled. Its outcome is the boolean `coin` of the slot.
- The float branch `(int)(queueLength * RECOVERY_PERCENT)` of the reservation protocol is not modelled, because `RECOVERY_PERCENT` is the constant 0.0.
- TokenBased.TokenBasedProtocol.TimeslotAvailable: `senderSlots` is an unbounded integer. The Java field would overflow after about 2^31 successful slots of one sender while the node has no id.
- HashMap iteration order is not modelled. The routing node and the forwarding table walk keys in ascending order. For small Integer keys this is the order Java's HashMap yields, and it decides which neighbour wins a tie in `resetRoutingTable`.
- `finalizeRoutes` is not modelled, because its body is empty.
- `init(linkLayer)` and `getOwnAddress` are not modelled. The node's address is a constructor parameter of the routing class.
- The framework classes `DataTable`, `Packet`, `PacketWithLinkCost`, `MediumState`, `TransmissionInfo` and `TcpHandler` are not part of this model. They are records, enums and a 2 x 6 table here.
- DistanceVector.MyRoutingProtocol.Tick: requires every received table to be 2 x 6, as the framework builds them.
- PrefixMatcher.LongestPrefixMatcher.AddRoute: requires a length in 0..32. Other lengths make `routes.get` throw in the source.
- Reassembler.Receiver.Receive: requires a non-empty packet. For an empty packet the source's header copy would hold `null` and unboxing it throws.
- SendWindow.Sender.ReceiveAck: requires a non-empty acknowledgment. For an empty one `packet[0]` throws in the source.
- SendWindow.Sender.ShiftSendWindow: keeps the shift as written, which can strand the sender (third row under "## Findings"). The corrected shift is a separate function with its own lemma.
- The infinite receive loop of the `MyTcpHandler` constructor is not modelled as a whole. HandleReceived is one pass of it.
- `sendData`/`receiveData` are not modelled. What `sendData` does with a value above 255 is not part of this model.
- TcpHack.SendPacket: requires seq and ack of at most 8 bytes together. Longer arrays make `System.arraycopy` throw in the source.
- TcpHack.GetTcpHeader: requires seq and ack of at most 8 bytes together, for the same reason.
- TcpHack.RequestPage: requires an ack of at most 4 bytes, for the same reason.
- Decimal.ParseInt: reads only ASCII digits. Java's `Integer.parseInt` also accepts the other Unicode decimal digits (through `Character.digit`), so `parseIP` in the source accepts some text that the model rejects.
- HeaderFilter.OnRequest: headers are values in an array. One header object appearing twice in the list (aliasing) is not modelled.
- The listener registration `browser.webRequest.onBeforeSendHeaders.addListener` is not modelled.
- The logging of `req.type`, `req.method` and `req.url` is not modelled.

## Findings

| source | as written | input that shows it | evidently intended | confidence | as-written member | corrected member |
|---|---|---|---|---|---|---|
| swp/src/my_protocol/MyProtocol.java:272 | the low edge is kept mod 40, but buffered indices run up to low + 19, which can be 40 or more | low edge 39 with index 45 (seq 5 of the next round) buffered, then packet [39, 1] arrives: the low edge becomes 0 and index 45 stays buffered outside the window [0, 20), so a later drain can output it in the wrong round | an absolute low edge, so every buffered index stays inside the window | high, not executed | InOrderDelivery.StaleSlotSurvivesWrap | InOrderDelivery.StepAbsoluteDelivers |
| tcphack/MyTcpHandler.java:107 | `seq[3] += 1` increments the last byte of the 32-bit sequence number without carry | a server sequence number ending in byte 0xff, e.g. 12 34 56 ff: the acknowledgment holds 0x100 in its last byte instead of 12 34 57 00 | the 32-bit sequence number plus one mod 2^32 | high, not executed | TcpHack.LastByteIncrementOverflows | TcpHack.Increment32 |
| swp/src/my_protocol/MyProtocol.java:144-151 | shiftSendWindow walks up to 20 places past sequence numbers absent from the in-flight table, also past the next number the sender loop has yet to use | packet 0 is sent and acknowledged before packet 1 goes out: the table is empty, the low edge moves to 20, and sequence number 1 lies outside the window [20, 40). With nothing in flight no acknowledgment can move the edge again, so the sender waits for good | the low edge stops at the next sequence number still to be sent, so an empty table leaves that number available | medium, not executed | SendWindow.SkipStrandsSender | SendWindow.SkipToNextKeepsNext |
