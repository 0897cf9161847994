# A verified model of the UEFI network stack

This project models the single-threaded IPv4 stack of the repository (Ethernet, ARP, IPv4, ICMP,
UDP, TCP client, DHCP, DNS) in Dafny and proves what it guarantees: over every run of API calls,
for every frame that can arrive, and across the wire to a second stack.

## How it is built

| module | what it holds |
|---|---|
| `Words` | machine words, byte order, packet-buffer stores and copies |
| `NetMath` | the Internet checksum of RFC 1071 |
| `ArpFifo`, `ArpCache` | the ARP cache: its abstract queue, and the round-robin table that refines it |
| `Dns` | names and messages of RFC 1035: encoder, decoder, answer walker, serialiser |
| `DhcpOptions` | the option field of RFC 2132: writer, scanner, option lists |
| `Tcp` | the TCP session as a state machine on values |
| `Frames` | every frame the stack sends, as a byte sequence, and what a checking receiver accepts |
| `Wire` | a decoder of frames, written from the protocols' layouts: what a frame carries, from whom and to whom |
| `Hosts` | the state of one stack as a value, what a received page does to it, and the invariant |
| `Runs` | the API calls and their loops over arriving frames |
| `DhcpClient` | the DHCP handshake and the shape of its traces |
| `Initialisation` | what the two initialisations leave in the ARP cache, from any earlier state |
| `Sessions` | whole sessions of API calls, and the invariants they keep |
| `TcpRuns` | sessions of API calls as runs of the TCP state machine |
| `Delivery`, `Outcomes`, `Pacing` | theorems over whole runs: the stream read, the result of each waiting call, the requests sent |
| `TwoStacks` | what one stack sends and another receives |
| `Traffic`, `Requests` | what every handler and every call puts on the wire, decoded from the bytes, and that the answer to it is recognised |
| `SentStream` | the stream sent over whole sessions, and from one application to another |
| `DhcpWire` | the DHCP client's messages on the wire, a server's messages, and a lease from one to the other |
| `Witnesses` | concrete inputs on which the code falls short of its documentation or of the protocols |
| `Builders` | the packet builders, filling zeroed buffers in place |
| `NetStack` | the stack as one object whose fields are the globals; handlers and calls as methods |

The two layers meet in `NetStack`: each method updates the object's fields in place, and its
contract says that the new abstract value (`HostView`, or `View` with the frames still waiting) is
the one the specification function gives. The specification functions are what the lemmas of the
other modules are about, so their guarantees hold of the object.

Modelling decisions:

- A received frame is the whole 4096-byte receive page after the receive call, with arbitrary bytes
  behind the frame. Whatever an earlier, longer frame left there is covered.
- The network card is a sequence of outcomes (a page, not ready, device error), followed by "not
  ready" for ever. Transmission appends to the sequence of frames handed to the card; whether the
  card then loses them is outside the model.
- Integers are unbounded in Dafny; 8, 16 and 32-bit fields are subset types and every wrap-around is
  written out. Masks and shifts are division and remainder by powers of two.
- The handlers are total: `Deliver` says what each page does. On some pages the code leaves the page:
  an echo request whose length underflows by at most 34 bytes, so that the copy is not refused; a
  datagram or segment of which more is copied into the posted buffer than the page has; a DNS response
  whose walk runs out of the page. `Strays` names exactly these pages, which depend on the ports, phase
  and buffers of the moment, and a `World` records in `strayed` that one was handled; from then on the
  value says nothing about the code. Malformed lengths that do not take the code out of the page are
  followed like all others, underflows included. The methods of `Stack` require of their call that its
  run does not stray, and nothing else of the frames that arrive. The DHCP loop never strays.
- Data handed to a sender must fit the packet buffer on its stack: 1446 bytes for TCP, 1458 for UDP,
  540 for a host name.
- The random generator is modelled exactly. Each initialisation seeds it anew, from a reading of the
  clock that is a parameter (the seed held before, when there is no clock).

Where the code and its documentation or the protocols differ, the model follows the code. Each point
has its exact condition and an input that shows it:

- `protocols.hpp:18` documents the DHCP transaction id as "for matching request/response"; replies
  are accepted whatever their id. `DhcpClient.XidIgnored` shows it for every reply and every id. Input:
  `Witnesses.ForeignReplyAccepted`.
- An echo request too short to hold an ICMP header is answered by a reply just as short, whose checksum
  is wrong or cut off below four bytes. Exact conditions: `Frames.EchoReplyVerifiesIff`,
  `Frames.EchoReplyChecksum`, for all frames a session sends `Sessions.SessionVerifies`. Input:
  `Witnesses.BarePingAnswered`.
- Received data that does not fit the posted buffer is acknowledged and lost. Exact condition for
  losing nothing: `Delivery.DeliveredIffFits`. Input: `Witnesses.LostThoughAcknowledged`.
- Sequence numbers of received segments are not checked. Exact condition for the session's numbers to
  be right: `Tcp.NumbersTrackIffInOrder`, over sessions `TcpRuns.SessionNumbers`. Input:
  `Witnesses.OutOfOrderAccepted`.
- A DNS name made of labels followed by a pointer is not skipped correctly. Exact condition:
  `Dns.SkipNameExact`. Input, a received response that is missed: `Witnesses.MixedNameMissed`.
- A host name with an empty label (a trailing dot, for instance) is encoded with an extra zero byte,
  and one with a label of more than 63 bytes is encoded all the same. Exact conditions:
  `Dns.NameRoundTrip`, on the wire `TwoStacks.QueryOnWire`, and for the stack's own skipper, which
  does not mind long labels, `Dns.QuerySkipped`. Inputs: `Witnesses.EmptyLabelLost`,
  `Witnesses.LongLabelLost`, `Dns.OverlongLabels`.
- A second initialisation that changes the gateway can leave the ARP cache contradicting it. Exact
  conditions, on the earlier state and the frames waiting: `Initialisation.InitStaticOutcome`,
  `Initialisation.InitNetworkOutcome`. Inputs: `Witnesses.StaleGateway`, `Witnesses.StaleGatewayByDhcp`.

## Model

| member | source | states |
|---|---|---|
| Words.SwapWord | utils.hpp:15-31 | swapping a 16-bit word twice is the identity, and storing the swapped word little-endian puts its big-endian bytes on the wire |
| Words.SwapDouble | utils.hpp:22-34 | the same for 32-bit words |
| Words.NetworkRead16 | utils.hpp:31 | a field read through `ntohs` is the big-endian value on the wire |
| Words.NetworkRead32 | utils.hpp:34 | a field read through `ntohl` is the big-endian value on the wire |
| Words.AddressBytes | utils.hpp:80-83 | an address loaded from the wire and stored again gives the same four bytes |
| Words.CopyBytes | memory.hpp:39-51 | the copy replaces exactly the destination range by the source bytes |
| NetMath.FoldRound | net_math.hpp:37-40 | one folding round keeps the one's-complement value and strictly shrinks the sum |
| NetMath.FoldCarries | net_math.hpp:37-40 | the folding loop ends within two rounds with the sum's representative modulo 65535 |
| NetMath.OnesQuotient | net_math.hpp:37-40 | that representative is congruent to the sum and is zero only when the sum is zero |
| NetMath.AccumulatorLimit | net_math.hpp:22-35 | the 32-bit accumulator is exact for all buffers of a length if and only if the length is at most 131074 bytes (65537 words) |
| NetMath.Accumulate | net_math.hpp:25-35 | the accumulation loop yields the sum of the words modulo 2^32, odd last byte included |
| NetMath.Checksum | net_math.hpp:20-43 | the checksum loop computes the RFC 1071 checksum for every buffer up to the limit, and the wrapped value beyond it |
| NetMath.PseudoChecksum | net_math.hpp:54-92 | `pseudo_checksum` is the plain checksum of the 12 pseudo-header bytes followed by the segment, for every 16-bit length |
| NetMath.ByteOrderIndependent | net_math.hpp:20-43 | the little-endian checksum is the byte swap of the big-endian one, so it is stored without `htons` (RFC 1071 section 2(B)) |
| NetMath.StoredChecksumVerifies | net_math.hpp:20-43 | a checksum stored in its zeroed field makes the whole verify to zero, also when a computed zero is stored as 0xFFFF |
| ArpFifo.FindAfterLearn | arp_cache.hpp:39-56 | after an update the address resolves to the new MAC, the evicted one to nothing, every other as before |
| ArpFifo.CacheContent | arp_cache.hpp:25-66 | after any history the cache holds exactly the last eight addresses inserted since the flush, oldest first, and every hit is the latest update |
| ArpFifo.Residence | arp_cache.hpp:51-55 | an inserted address is still found if and only if at most seven others were inserted after it |
| ArpCache.RewriteSlot | arp_cache.hpp:42-49 | rewriting a slot is the queue update of a known address |
| ArpCache.FillSlot | arp_cache.hpp:52-55 | filling the next slot and advancing round-robin is insertion with eviction of the oldest |
| ArpCache.Cache.constructor | arp_cache.hpp:21-22 | the zeroed table is the empty queue |
| ArpCache.Cache.Lookup | arp_cache.hpp:25-36 | the scan returns what the queue resolves the address to |
| ArpCache.Cache.Update | arp_cache.hpp:39-56 | the table after an update is the queue after `Learn` |
| ArpCache.Cache.Flush | arp_cache.hpp:59-66 | a flush empties the queue |
| Dns.JoinSplit | protocols.hpp:169-183 | splitting at dots is undone by joining with dots |
| Dns.NoDotInside | protocols.hpp:169-183 | no label contains a dot |
| Dns.QNameLength | protocols.hpp:163-185 | the encoder writes exactly two bytes more than the host name has |
| Dns.EncodeName | protocols.hpp:163-185 | the back-patching encoder writes exactly the wire form of the labels and touches nothing else |
| Dns.NameRoundTrip | protocols.hpp:163-185 | an RFC 1035 decoder gives back the labels of the encoded host name if and only if each has between 1 and 63 bytes |
| Dns.QuerySkipped | core.hpp:239-246 | for labels that fit their length byte, the question skipper stops exactly behind the encoder's question if and only if no label is empty |
| Dns.OverlongLabels | protocols.hpp:169-183 | longer labels go either way: one of 256 bytes is not skipped, one of 257 by chance is |
| Dns.WalkLabels | core.hpp:244 | the label loop finds the position of the zero byte |
| Dns.WalkQuestions | core.hpp:240-246 | the question loop agrees with its specification |
| Dns.WalkAnswers | core.hpp:248-273 | the answer loop returns the first A record of length 4, and nothing if there is none |
| Dns.SkipNameExact | core.hpp:252-259 | the answer walker stops exactly behind a valid name if and only if it ends in a zero byte or is a pointer as a whole |
| Dns.WalkName | core.hpp:252-259 | the name of an answer is skipped as specified |
| Dns.QuestionsSkipped | core.hpp:239-246 | any list of questions is skipped exactly |
| Dns.AnswersFound | core.hpp:248-273 | on any list of valid answers the walk finds the first address record |
| Dns.MessageWalked | core.hpp:239-273 | walking any serialised message finds the first A record of its answers |
| DhcpOptions.ScanIsFold | api.hpp:132-159 | scanning any option list followed by END applies exactly the options that start below offset 250, in order |
| DhcpOptions.FoldIsLast | api.hpp:138-155 | each tracked setting is its last adequately long value, or the old one |
| DhcpOptions.Scan | api.hpp:133-159 | the scan is total on arbitrary bytes: it stops at END or at the limit, never more than 256 bytes past it |
| DhcpOptions.ScanCanOvershoot | api.hpp:135-158 | the 256-byte overshoot is reached |
| DhcpOptions.ScanOptions | api.hpp:130-159 | the scanning loop computes the specified scan, with a strictly advancing cursor, on any page |
| DhcpOptions.ReadTracked | api.hpp:138-155 | one iteration's tests apply exactly the option at the cursor |
| DhcpOptions.OptionFieldShape | protocols.hpp:59-94 | what the writer emits is a well-formed option list closed by END |
| DhcpOptions.WriteOptions | protocols.hpp:59-94 | the writer puts exactly that option field into the packet |
| DhcpOptions.ScanOwnMessage | protocols.hpp:59-94 | scanning what `send_dhcp` wrote recovers its message type and changes no setting |
| Tcp.RunKeepsSound | core.hpp:332-396 | over any interleaving of segments and calls the posted buffer is never overrun and an open session has an ephemeral port |
| Tcp.PhaseNeverGoesBack | core.hpp:343-396 | within a session the phase only moves forward and a closed session stays closed |
| Tcp.NumbersTrackIffInOrder | core.hpp:380-394 | modulo 2^32, seq is own ISN + 1 + bytes sent and ack is peer ISN + 1 + payload handled (+ 1 for FIN) after every action, if and only if the peer's segments are in order and acknowledge everything |
| Tcp.StepTracks | core.hpp:380-394 | the same for one action, both directions |
| Tcp.HandshakeStartsCount | core.hpp:351-361 | after the SYN+ACK the numbers are right if and only if the peer acknowledged exactly our SYN |
| Tcp.FinalNumbers | core.hpp:380-394 | with an in-order peer the numbers at the end of a run are the initial ones plus the totals given and taken |
| Tcp.AcknowledgesEverything | core.hpp:380-394 | over any run with an in-order peer, the last acknowledgement sent covers every byte and FIN received, and nothing is sent when nothing was received |
| Tcp.RepliesIgnoreBuffers | core.hpp:365-385 | with any other buffers posted, or none, the same segments get the same acknowledgements: what is not stored is acknowledged like what is |
| Tcp.EstablishedGives | api.hpp:403-411 | while the session stays established everything handed to `tcp_send` is given to the peer |
| Tcp.OpenTakes | core.hpp:362-394 | while the session stays open exactly the payload that arrives for its port is taken |
| Frames.Ipv4FrameVerifies | core.hpp:289-325 | every IPv4 frame has frame length 14 + tot_len and a header checksum that verifies, and verifies as a whole when its body does |
| Frames.IcmpVerifies | core.hpp:142-155 | every ICMP message with a whole header verifies to zero |
| Frames.UdpVerifies | core.hpp:423-434 | every UDP datagram has the right length and verifies, and its checksum is never zero |
| Frames.TcpVerifies | core.hpp:309-322 | every TCP segment has data offset 5 and verifies |
| Frames.FullEchoReply | core.hpp:165-194 | a reply to a request of at least four bytes is the ICMP message of type 0 with its identifier, sequence number and payload |
| Frames.EchoReplyChecksum | core.hpp:165-194 | the reply's checksum verifies if and only if the request had at least four bytes |
| Frames.EchoReplyVerifiesIff | core.hpp:163-194 | an echo reply frame verifies if and only if the request held a whole ICMP header; otherwise its lengths are right and its body is as short as the request's |
| Frames.DhcpVerifies | protocols.hpp:21-97 | every DHCP frame verifies, carrying UDP checksum zero |
| Frames.ArpVerifies | core.hpp:92-111 | every ARP frame is 42 bytes with the types and lengths of IPv4 over Ethernet, a known operation and the Ethernet sender as its sender |
| Frames.Ipv4Fields | core.hpp:464-484 | what a receiver reads at the fixed offsets of an IPv4 frame |
| Hosts.EphemeralPorts | rng.hpp:29-32 | the ports that can be drawn are exactly those from 49152 up |
| Wire.IpDecoded | core.hpp:289-308 | the decoder reads MACs, identification, addresses and body of every IPv4 frame as they were put in, unfragmented and with 64 hops to live |
| Wire.IcmpDecoded | core.hpp:142-155 | the decoder reads type, code and the rest of every ICMP message |
| Wire.UdpDecoded | core.hpp:423-434 | the decoder reads ports and data of every datagram |
| Wire.TcpDecoded | core.hpp:309-322 | the decoder reads ports, numbers, flags, window and data of every segment |
| Wire.ArpDecoded | protocols.hpp:103-124 | the decoder reads MACs, operation, sender and target of every ARP frame |
| Hosts.OnArpKeeps | core.hpp:67-114 | any ARP page keeps the invariants: bounded cache, well-formed frames, and agreement with the gateway's MAC if it held; all frames verify afterwards if and only if they did |
| Hosts.OnIcmpKeeps | core.hpp:161-204 | any ICMP page keeps the invariants; all frames verify afterwards if and only if they did and the page is no echo request of fewer than 8 bytes |
| Hosts.OnUdpKeeps | core.hpp:211-275 | the same for any UDP page, which sends nothing |
| Hosts.OnTcpKeeps | core.hpp:332-396 | the same for any TCP page, whose answers all verify |
| Hosts.DeliverParts | core.hpp:450-486 | each page changes at most the part of the state its protocol owns: segments the session, ARP replies the cache, the pending resolution and the gateway's MAC |
| Hosts.DeliverKeeps | core.hpp:450-497 | no received page breaks the invariants; all frames verify afterwards if and only if they did and the page is no short echo request |
| Runs.RetryRunKeeps | api.hpp:334-346 | a retrying loop keeps the invariants, for every sequence of frames; all frames verify afterwards if and only if they did and no short echo request was polled |
| Runs.WaitRunKeeps | api.hpp:430-438 | the same for a waiting loop |
| Sessions.DoKeeps | api.hpp:38-552 | every API call keeps the invariants; the two initialisations keep all but the agreement with the gateway; all frames verify afterwards if and only if they did and no short echo request was polled |
| Sessions.SessionKeeps | api.hpp:38-552 | any sequence of API calls, initialisations included, keeps every frame ever sent right in lengths and checksums, short answers to short echo requests apart, buffers within their size and the cache bounded; the cache agrees with the gateway's MAC afterwards if it did before or was initialised, and the last initialisation, if any, succeeded |
| Sessions.SessionVerifies | api.hpp:38-552 | over any session, every frame ever sent verifies if and only if those before did and no frame polled is an echo request of fewer than 8 bytes |
| Sessions.PolledIsConsumed | api.hpp:38-552 | without an initialisation by DHCP the frames polled are all that are consumed |
| Sessions.SuccessAgrees | api.hpp:199-220 | a successful initialisation leaves the cache in agreement, whatever it held before |
| Sessions.InitialConsistent | globals.hpp:25-101 | the state before any call satisfies the invariants, with an empty cache |
| Initialisation.GatewayRun | api.hpp:200-217 | the gateway loop consumes frames up to the first reply from the gateway, or its whole budget, and learns exactly the replies among them |
| Initialisation.GatewayOutcome | api.hpp:200-220 | from any cache, the gateway is resolved if and only if a reply from it is among the first 200000 frames; the cache agrees with its MAC afterwards if and only if it was resolved, or no other MAC was cached for it, or other replies pushed that entry out |
| Initialisation.InitStaticOutcome | api.hpp:241-315 | the same for static initialisation, from any earlier state, with the gateway-independent invariants kept; own address, gateway, mask and DNS server are those given |
| Initialisation.AfterHandshake | api.hpp:90-197 | the handshake, from any earlier state: how many waiting frames it consumes, the gateway, DNS server, mask, lease, own address and server it leaves and whether it obtains an address, all told from those frames; the ARP state is untouched |
| Initialisation.InitNetworkOutcome | api.hpp:90-223 | the same for DHCP initialisation, told from the earlier state and the waiting frames: gateway, DNS server, mask, lease and own address are those of the frames the handshake consumes; with an address obtained the conditions hold of the frames behind the acknowledgement; without one the cache agrees if and only if it has no other MAC for the gateway so left |
| Initialisation.InitNetworkVerifies | api.hpp:90-223 | all frames verify after DHCP initialisation if and only if they did and no short echo request was polled behind the handshake |
| ArpFifo.FindAfterOthers | arp_cache.hpp:39-56 | a binding survives updates for other addresses if and only if they insert no more addresses than there are free places and older bindings |
| TcpRuns.WaitConsumesPrefix | api.hpp:430-438 | a waiting loop consumes a prefix of what is waiting and its session is the state machine run over the segments consumed |
| TcpRuns.RetryConsumesPrefix | api.hpp:334-346 | the same for the retrying loops |
| TcpRuns.CallIsRun | api.hpp:38-552 | every API call is a run of the TCP state machine over the segments among the frames it consumes |
| TcpRuns.SessionIsRun | api.hpp:38-552 | every session of API calls is such a run, with the lengths sent in order, all segments consumed in order, and no session opened unless a call connects |
| TcpRuns.SessionPhase | core.hpp:343-396 | over any session of calls without a connect the phase only moves forward and a closed session stays closed |
| TcpRuns.SessionNumbers | core.hpp:380-394 | over any session of calls the numbers are right after every send and segment if and only if the peer is in order; then they end at the totals given and taken and the last answer acknowledges everything taken |
| Delivery.ReceiveLaw | api.hpp:421-443 | one wait returns the stream of the frames it consumed, cut to the buffer, and consumes at most one data segment unless the buffer is empty |
| Delivery.WaitStopsAtReach | api.hpp:430-438 | when the first data waiting fits, the wait stops exactly there |
| Delivery.OneReceive | api.hpp:421-443 | one call: what it returns, what it consumes, and that nothing is lost if and only if the first data waiting for the port, within its budget and before a reset or FIN, fits the buffer |
| Delivery.DeliveredIffFits | api.hpp:403-443 | over any receives with any sends in between, buffers returned plus stream still waiting are the whole stream if and only if every buffer holds the first data it meets, judged from the frames waiting |
| Delivery.LargeBuffersLoseNothing | core.hpp:366-378 | buffers of 4062 bytes never lose anything of segments whose lengths lie inside the page |
| Delivery.ReadsPrefixOfPeerStream | core.hpp:362-385 | from a peer that sends in order and once, the application reads exactly a prefix of its stream, with any sends in between |
| Delivery.EstablishedNumbers | core.hpp:380-394 | over any session of calls that stays established with an in-order peer, seq advances by exactly the bytes given to `tcp_send` and ack by exactly the payload of the frames consumed, modulo 2^32 |
| Outcomes.ConnectOutcome | api.hpp:366-395 | the first SYN+ACK or reset for the session's port within the budget decides the outcome and the session's numbers; without one the budget is spent and the session, port included, is left waiting |
| Outcomes.PingOutcome | api.hpp:533-552 | ping succeeds if and only if an echo reply with the numbers drawn is among the frames that ten polls a millisecond reach |
| Outcomes.UdpReceiveOutcome | api.hpp:501-521 | the buffer gets the first non-empty datagram for the port within ten polls a millisecond, cut to its size, and is no longer posted afterwards |
| Outcomes.LookupOutcome | api.hpp:327-354 | a result is the first address in a frame that answers the last query put on the wire by this call; without a result the budget is spent; the first answer to the first query is the result if it is among the first 5000 frames |
| Outcomes.CloseOutcome | api.hpp:449-470 | closing consumes the frames up to the peer's FIN, or 10000; after a reset no FIN ends it |
| Outcomes.AnswerIsFirstAddress | core.hpp:229-274 | a page with a serialised response to the pending query answers it with the first A record of length 4 |
| Outcomes.LookupAnswered | api.hpp:327-354 | a lookup, end to end: a name server's response to the first query that is the first to answer among the first 5000 frames gives the result, the first A record of length 4 in it |
| Pacing.DeliverSendsNoRequest | core.hpp:450-497 | handling a received frame never sends an ARP request, a DNS query or a SYN |
| Pacing.RequestCountsOnce | api.hpp:337-341 | an iteration that sends, sends exactly one request |
| Pacing.PacingLaw | api.hpp:334-346 | iterations plus ticks to go are 5000 times the requests sent, after any number of iterations, whatever arrives |
| Pacing.RequestLimits | api.hpp:205-217 | at most 40 ARP requests per initialisation, 100 DNS queries per lookup, 100 SYNs per connect |
| DhcpClient.HandshakeOutcome | api.hpp:96-197 | the handshake told from the waiting frames: the first offer within 500000 frames and the first acknowledgement behind it decide the phase, the addresses and the messages accepted; it consumes exactly the frames up to there; gateway, DNS server, mask and lease are the fold of the options among them, with the server in place of no gateway |
| DhcpClient.SettingsLearned | api.hpp:132-159 | each setting after a DHCP message is the last option of its kind with at least four bytes among those that start within 250 bytes, or stays as it was |
| DhcpClient.SilentHandshake | api.hpp:96-197 | on a network where nothing arrives exactly 100 DISCOVERs go out and the handshake fails |
| DhcpClient.StepDecides | api.hpp:96-194 | one iteration advances the phase exactly on the reply it waits for, and takes over the settings of any DHCP message |
| DhcpClient.BoundTrace | api.hpp:96-194 | whenever the waiting frames hold an offer and an acknowledgement behind it, the run sent DISCOVERs, accepted the first offer, sent REQUESTs for exactly that offer, accepted the first acknowledgement behind it, in this order and nothing else; the address in use is the offered one |
| DhcpClient.StepShaped | api.hpp:96-194 | each iteration keeps the shape of the trace |
| DhcpClient.MessageLimit | api.hpp:96-194 | no run sends more than 101 messages |
| DhcpClient.LogIsSent | api.hpp:101-108 | the trace records exactly the frames put on the wire |
| DhcpClient.RequestOptionsOnWire | protocols.hpp:76-94 | a REQUEST carries option 50 with the offered address and option 54 with the chosen server, then END |
| DhcpClient.DhcpKeeps | api.hpp:96-197 | the handshake keeps the gateway-independent invariants and touches neither the ARP state nor the gateway's MAC |
| DhcpClient.XidIgnored | api.hpp:125-183 | replacing the transaction id of a reply changes neither what is accepted nor what is learned |
| TwoStacks.EchoAnswered | core.hpp:163-194 | an echo request is answered with the same identifier, sequence number and payload |
| TwoStacks.ReplyNoticed | core.hpp:195-203 | an echo reply is noticed if and only if identifier and sequence number match |
| TwoStacks.PingRoundTrip | core.hpp:121-204 | the echo of one stack is answered once by another and recognised by the first |
| TwoStacks.UdpStaysInside | core.hpp:211-227 | a datagram another stack builds never takes the handler outside its page, unless it comes from the DNS port |
| TwoStacks.TcpStaysInside | core.hpp:362-378 | a segment another stack builds never takes the handler outside its page |
| TwoStacks.UdpRoundTrip | core.hpp:403-437 | a datagram built by one stack is delivered by another exactly to a matching port with a posted buffer, cut to its size, and names its sender and target |
| TwoStacks.TcpRoundTrip | core.hpp:289-341 | a segment built by one stack is decoded by another to the same port, flags, numbers and payload, and names the session's port and addresses |
| TwoStacks.ArpRoundTrip | protocols.hpp:103-124 | an ARP request answered by its target resolves the pending address, the gateway's MAC and the cache to the target's MAC; the reply goes to the stack that asked |
| TwoStacks.DnsResponseResolves | core.hpp:229-274 | a response to the pending query resolves it to the first A record of length 4; any other datagram leaves it alone |
| TwoStacks.QueryOnWire | protocols.hpp:130-204 | a query goes to the configured server with the port and id then waited for, and one question that decodes to the host name's labels if and only if each has between 1 and 63 bytes |
| Traffic.IpSent | core.hpp:289-325 | every IPv4 frame goes from the stack's MAC and address to the gateway's MAC, with a fresh identification |
| Traffic.ArpAnswered | core.hpp:88-112 | an ARP page is answered if and only if it asks for the stack's own non-zero address; the answer goes to the asker's MAC and address and gives the stack's own, byte by byte |
| Traffic.EchoOnWire | core.hpp:163-194 | an ICMP page is answered if and only if it is an echo request of right length whose answer fits a packet; the answer goes to its source address with its identifier, sequence number and payload |
| Traffic.SegmentAnswered | core.hpp:343-396 | the answers to any segment, in number, order, addresses, ports, flags and numbers: SYN+ACK, payload and FIN are acknowledged with the segment's own numbers, nothing else is |
| Traffic.NothingAnswered | core.hpp:450-486 | every other page is taken in without a frame sent |
| Traffic.SendOnWire | api.hpp:403-411 | an established session sends exactly one segment, with the data, under the session's ports, addresses and numbers, which any receiver reads so; in any other phase nothing happens |
| Traffic.CloseOnWire | api.hpp:449-470 | an established session first sends FIN+ACK under its numbers, any other nothing; the session ends closed and its port free |
| Traffic.UdpSendOnWire | api.hpp:484-491 | exactly one datagram with the data to the address and port given, from the stack's own port, drawn by the first send and kept |
| Requests.PingOnWire | api.hpp:533-539 | ping's first frame is an echo request to the target with the two numbers drawn, in order, which are those it then waits for |
| Requests.PingAnswered | api.hpp:533-552 | end to end: another stack's answer to exactly that frame, among the frames the budget reaches, makes ping succeed |
| Requests.RetryProper | api.hpp:334-346 | every request a retrying loop sends says what it should, whatever arrives in between |
| Requests.GatewayOnWire | api.hpp:200-217 | the first frame and every ARP request of a resolution is broadcast and asks for the gateway on behalf of the stack |
| Requests.LookupOnWire | api.hpp:327-354 | the first frame and every query of a lookup goes to port 53 of the configured server, or 8.8.8.8, from an ephemeral port, and asks for the host name |
| Requests.ConnectOnWire | api.hpp:366-395 | the session is with the address and port given; the first frame and every SYN goes there from the stack's address and the port drawn, with the initial sequence number drawn and no payload |
| Requests.ConnectAnswered | api.hpp:366-395 | end to end: a SYN+ACK that answers exactly that SYN, first to decide within the budget, establishes the session with the next number of either side |
| SentStream.CallAdds | api.hpp:38-552 | every call adds exactly the data it gives to the peer to the payloads on the wire |
| SentStream.StreamConserved | api.hpp:403-411 | over any session of calls and any frames arriving, the payloads of all segments sent, concatenated, are the data given to the sends made while established, in order |
| SentStream.SentIsReceived | api.hpp:403-443 | from one application to another: what is sent in any pieces and arrives in order is exactly what the other stack's receives return followed by what still waits, with buffers of 4062 bytes and sends in between |
| DhcpWire.DhcpOnWire | protocols.hpp:21-97 | a DHCP message is broadcast from port 68 to 67, a boot request with the transaction id, the broadcast flag, no addresses, the client's MAC, the cookie and the options of its kind |
| DhcpWire.InitOnWire | api.hpp:90-108 | the first frame of DHCP initialisation is a DISCOVER with the transaction id drawn from the new seed, asking for mask, router and DNS server |
| DhcpWire.NoticeRead | api.hpp:115-171 | what the client reads in any serialised server message: operation, type, address offered, server and options |
| DhcpWire.LeaseObtained | api.hpp:96-223 | end to end: an offer and an acknowledgement arriving first give the stack the address offered and the settings of their options |
| Witnesses.ForeignReplyAccepted | api.hpp:125-183 | a reply with another transaction id than the one sent that is taken for the offer |
| Witnesses.BarePingAnswered | core.hpp:163-194 | an echo request without an ICMP header that is answered by a frame of 34 bytes which does not verify |
| Witnesses.StaleGateway | api.hpp:288-315 | a concrete second initialisation after which the cache contradicts the gateway's MAC |
| Witnesses.StaleGatewayByDhcp | api.hpp:90-197 | the same by DHCP: one message that is no reply changes the gateway, nothing else arrives, and the cache contradicts its MAC |
| Witnesses.LostThoughAcknowledged | core.hpp:365-385 | a receive call that returns one of two bytes while both are acknowledged |
| Witnesses.OutOfOrderAccepted | core.hpp:380-385 | a page with a segment beyond a gap that is acknowledged like the next one |
| Witnesses.EmptyLabelLost | protocols.hpp:169-185 | the query for a name with a trailing dot does not decode to its labels |
| Witnesses.LongLabelLost | protocols.hpp:169-185 | nor does the query for a label of 64 bytes |
| Witnesses.MixedNameMissed | core.hpp:252-259 | a received response whose A record is missed because its name is a label and a pointer |
| Builders.BuildTcp | core.hpp:289-325 | the buffer filled in place is the specified TCP frame |
| Builders.BuildUdp | core.hpp:403-437 | the buffer filled in place is the specified UDP frame |
| Builders.BuildEcho | core.hpp:121-158 | the buffer filled in place is the specified echo request |
| Builders.BuildEchoReply | core.hpp:165-194 | the received message, of any length, copied, rewritten and resealed is the specified echo reply |
| Builders.BuildArp | protocols.hpp:103-124 | the buffer filled in place is the specified ARP frame |
| Builders.BuildDhcp | protocols.hpp:21-97 | the buffer filled in place is the specified DHCP frame |
| Builders.BuildDns | protocols.hpp:130-204 | the buffer with lengths and checksums patched last is the specified query frame |
| Builders.SealIpv4 | core.hpp:307 | the header checksum is computed over the header and stored in it |
| Builders.SealUdp | core.hpp:433-434 | the UDP checksum is computed with the pseudo-header, zero replaced by 0xFFFF, and stored |
| NetStack.OpenSteps | core.hpp:362-395 | sending step by step while the session changes ends in the specified state |
| NetStack.SynAckSteps | core.hpp:351-361 | the same for the SYN+ACK |
| NetStack.Stack.constructor | globals.hpp:25-101 | the initial state |
| NetStack.Stack.SendRaw | core.hpp:34-59 | the frame is appended to those handed to the card |
| NetStack.Stack.SendTcpInternal | core.hpp:289-325 | sends the specified TCP frame and advances only the generator |
| NetStack.Stack.SendUdpTo | core.hpp:403-437 | sends the specified UDP frame |
| NetStack.Stack.SendIcmpEcho | core.hpp:121-158 | sends the specified echo request |
| NetStack.Stack.ArpRequest | protocols.hpp:103-124 | sends the specified ARP request |
| NetStack.Stack.DnsQuery | protocols.hpp:130-204 | draws port and id, remembers them and sends the specified query |
| NetStack.Stack.SendDhcp | protocols.hpp:21-97 | sends the specified DHCP frame |
| NetStack.Stack.HandleArp | core.hpp:67-114 | the fields change, and a reply goes out, as specified for the received page |
| NetStack.Stack.HandleIcmp | core.hpp:161-204 | the same for ICMP |
| NetStack.Stack.HandleEchoRequest | core.hpp:163-194 | the answer to an echo request of any length, or none where the code refuses |
| NetStack.Stack.EchoLength | core.hpp:163-167 | computed in the native word, where it may wrap, the length passes if and only if it is not negative and the answer fits a packet |
| NetStack.Stack.HandleEchoReply | core.hpp:195-203 | a reply with the pending numbers is noticed |
| NetStack.Stack.ReceiveDatagram | core.hpp:217-227 | the posted buffer is overwritten from its start, cut to its size, also when the length wraps |
| NetStack.Stack.ReceiveAnswer | core.hpp:230-274 | the header checks and the walk set the resolved address as specified |
| NetStack.Stack.HandleUdp | core.hpp:211-275 | both halves, in this order |
| NetStack.Stack.StorePayload | core.hpp:365-378 | payload is appended to the posted buffer as far as it fits |
| NetStack.Stack.ReadHeader | core.hpp:337-341 | the decoded header fields |
| NetStack.Stack.ReadLengths | core.hpp:340-341 | where the payload starts, and its length as it wraps in the native word |
| NetStack.Stack.HandleOpen | core.hpp:362-395 | store, acknowledge, answer FIN |
| NetStack.Stack.HandleSynAck | core.hpp:351-361 | the SYN_SENT branch |
| NetStack.Stack.HandleTcp | core.hpp:332-396 | the whole state machine |
| NetStack.Stack.Receive | core.hpp:452-455 | one receive call |
| NetStack.Stack.Dispatch | core.hpp:457-486 | routing by EtherType and protocol |
| NetStack.Stack.Poll | core.hpp:450-497 | one poll is the specified poll |
| NetStack.Stack.HandleDhcp | api.hpp:115-186 | what a page does in the DHCP loop |
| NetStack.Stack.DhcpIteration | api.hpp:98-193 | one iteration of the DHCP loop |
| NetStack.Stack.DhcpHandshake | api.hpp:96-197 | the handshake is the specified run, on arbitrary pages |
| NetStack.Stack.Await | api.hpp:430-438 | the waiting loops are the specified bounded run |
| NetStack.Stack.AwaitAnswer | api.hpp:334-346 | the retrying loops are the specified bounded run |
| NetStack.Stack.ResolveGateway | api.hpp:200-220 | gateway resolution |
| NetStack.Stack.SeedGenerator | rng.hpp:11-19 | the generator is seeded |
| NetStack.Stack.InitNetwork | api.hpp:38-223 | reseeding, then initialisation by DHCP: success if and only if an address was obtained and the gateway resolved |
| NetStack.Stack.InitNetworkStatic | api.hpp:241-315 | reseeding, then static initialisation |
| NetStack.Stack.ResolveHostname | api.hpp:327-354 | a lookup, its result and the state left |
| NetStack.Stack.TcpConnect | api.hpp:366-395 | connecting |
| NetStack.Stack.TcpSend | api.hpp:403-411 | sending advances the sequence number by the length |
| NetStack.Stack.TcpReceive | api.hpp:421-443 | the caller's buffer holds exactly the bytes the specification reads, never more than its size |
| NetStack.Stack.TcpClose | api.hpp:449-470 | closing: FIN, bounded drain, port released |
| NetStack.Stack.UdpSend | api.hpp:484-491 | the port is drawn on first use, then the datagram sent |
| NetStack.Stack.UdpReceive | api.hpp:501-521 | the caller's buffer holds exactly the datagram bytes specified |
| NetStack.Stack.Ping | api.hpp:533-552 | an echo and a bounded wait |

## Left out

- Hardware and firmware: buffer allocation, protocol location, NIC start, filters, reset, transmit status polling and stalls (api.hpp:42-88, core.hpp:34-59). A frame handed to the card counts as sent.
- Console output (io.hpp), the demo (main.cpp), the examples, and `http_get`, whose request is a truncated concatenation followed by calls modelled here.
- The clock `rng::init` reads: its reading is a parameter of the two initialisations.
- `ascii_str_len`, `mem_cmp`, `local_mem_cmp` and `make_ipv4`: no modelled code calls them.
- What the code does with a page on which it strays (`Strays`): its length arithmetic underflows there, or it reads beyond its page.
- Null data pointers passed with a non-zero length, for which the code sends zero bytes.
- Retransmission of data, fragmentation, window scaling and several connections, which the stack does not have (README.md:222-230).
- Builders: header fields that are zero are left as the zeroed buffer has them; stores to disjoint fields may be in another order than in the source.
