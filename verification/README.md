# Verified models of Switch LAN play

Dafny models, with proofs, of the parts of Switch LAN play that carry the most state: how a client
cuts packets into fragments and puts them together again, how the relay learns and forwards, how the
TCP side of the gateway accounts for the bytes it owes, the LDN access point and its framing, the
session and lobby tables of the sysmodule, and the codecs and hashes beside them.

`dafny verify dfyconfig.toml` checks the whole project.

| file | models |
|---|---|
| `Bytes.dfy` | bytes, network-order fields, concatenation |
| `Fragmenter.dfy` | `lan_client_send`: cutting an IPv4 packet into fragments |
| `Reassembly.dfy`, `ReassemblyRuns.dfy` | `lan_client_process_frag`, and everything it can be sent |
| `Leftovers.dfy` | which bytes a delivered packet consists of, for well-formed and other datagrams |
| `SlotEviction.dfy`, `SlotWrap.dfy` | which of the 100 reassembly slots is given up, when none is, and what the wrap of the 16-bit counter changes |
| `Relay.dfy`, `RelayRuns.dfy`, `RelayAuth.dfy` | the UDP relay server, its whole histories, and its authentication exchange |
| `EndToEnd.dfy` | sender, relay and receiver composed |
| `WriteQueue.dfy`, `WriteBooks.dfy`, `WriteMoves.dfy`, `TcpClient.dfy` | the write queue of a uv_lwip connection |
| `Sha1Spec.dfy`, `Sha1Transform.dfy`, `Sha1Stream.dfy` | SHA-1 as FIPS PUB 180-1 has it, the unrolled transform, the streaming interface |
| `ArpCache.dfy` | the ARP table |
| `ZeroRun.dfy`, `LanSocket.dfy` | LDN packet compression and stream framing |
| `Discovery.dfy`, `DiscoveryRuns.dfy`, `DiscoveryGuests.dfy`, `LanDiscoveryObject.dfy` | the LDN access point: stations, node table, node change bits, and what the events alone say of them |
| `LobbyCache.dfy`, `LobbyRuns.dfy` | the sysmodule's cache of lobbies |
| `SessionTable.dfy` | the sysmodule's TCP sessions, their threads and the table lock |
| `Checksum.dfy` | internet checksums, IPv4 and UDP headers |
| `Base64.dfy` | base64 |

Code that updates objects in place is a class whose methods are proved equal to a step function on
values; the theorems about histories are lemmas about that function. Loops are loops. Concurrency is
an interleaving of the threads' steps. Random numbers, clock readings, socket results and the answers
of the authentication provider are parameters or arbitrary values.

Where the code does not do what one would expect of it, the model follows the code:

- The relay drops a fragment message whose payload is 20 bytes or shorter. So a packet whose last
  part is that short never arrives over a relay, whatever else does (`EndToEnd.EndToEnd`).
- A full reassembly table refuses every new packet while its entries are the last 100 allocated, and
  can stay so for ever (`SlotEviction.BurstSticks`, `SlotEviction.StuckUntilDelivery`). Once the
  16-bit `local_id` has wrapped, the slot given up need not be the oldest (`SlotWrap.OldestCanSurvive`).
- A slot keeps its buffer and its length when it is allocated again, and each part brings its own part
  count. A delivered packet is independent of what the slot held before exactly if the parts collected
  set its length and bring every byte of it (`Leftovers.OwnBytesIff`), which parts that agree on count and
  size do (`Leftovers.UniformOwns`); two parts without bytes can make the previous packet of the slot come
  out again (`Leftovers.LeftoverDelivered`).
- The ARP table can hold an address twice. Lookups are still right; a walk over the table visits it
  twice, and the entry at the higher index is stale (`ArpCache.DuplicateExists`,
  `ArpCache.VisitsLastSetOrDuplicate`). The address 0.0.0.0 cannot be stored (`ArpCache.NoneIpIsForgotten`).
- `calc_checksum` treats an odd last byte as a low byte, and `calc_payload_checksum` steps two bytes
  instead of one into a part that follows an odd one (`Checksum.CalcIsRfcIff`, `Checksum.CalcPayloadChecksum`).
- `isNodeStateChanged` compares the signed `isConnected` with the unsigned byte it stored. It reports
  exactly the changes of a flag if and only if no negative flag is seen twice in a row
  (`DiscoveryRuns.RealChangesIff`); a host that sends -1 twice makes it report a change that is none
  (`DiscoveryRuns.NegativeFlagMisfires`).
- One read of an LDN socket delivers at most one message. All messages arrive exactly if enough reads
  follow; otherwise whole frames stay in the buffer until more bytes come (`LanSocket.AllDeliveredIff`,
  `LanSocket.OneReadOneMessage`).
- An injection of cached lobbies reads the clock before it takes the lock. It drops a lobby stored in
  between, although that is the newest (`LobbyRuns.SurvivesIff`, `LobbyRuns.FreshLobbyDropped`).
- `SHA1Update` tests in 32 bits whether the input reaches the end of the buffer. The test is right
  exactly if fill level and length together stay below 2 to the 32 (`Sha1Stream.ReachTestIff`).

## Model

| member | source | states |
|---|---|---|
| `Fragmenter.HeaderRoundTrip` | src/lan-client.c:263-269 | parsing the 16 header bytes that were written gives back every field that fits its width |
| `Bytes.BigEndian` | src/helper.h:26-29 | 16-bit fields are in network order, high byte first |
| `Fragmenter.TotalPartIsCeiling` | src/lan-client.c:496-499 | the number of parts is the ceiling of length over MTU: one part fewer would not hold the packet |
| `Fragmenter.TotalPartByDivision` | src/lan-client.c:496-499 | dividing and adding one for a remainder computes that ceiling |
| `Fragmenter.FragmentParses` | src/lan-client.c:504-518 | a fragment carries source, destination, id modulo 65536, part number, part count, its length, the MTU, and its slice of the packet |
| `Fragmenter.BodiesAreThePacket` | src/lan-client.c:510-524 | the bodies of all parts end to end are the packet: nothing lost, repeated or reordered |
| `Fragmenter.FragmentDatagramAt` | src/lan-client.c:512-524 | the k-th datagram of a cut packet is the fragment type byte and fragment k |
| `Fragmenter.PartCarries` | src/lan-client.c:504-518 | the fields of a fragment datagram, read off its bytes |
| `Fragmenter.Sender.constructor` | src/lan-client.c:58-68 | fragment ids start at 0; an MTU is off or at least the smallest one allowed |
| `Fragmenter.Sender.Send` | src/lan-client.c:486-531 | a packet that is not cut goes out as its type byte and its bytes; of one that is cut, datagram k reads back as type 3 and a header with the packet's addresses, the id modulo 65536, part k, the ceiling as part count and the body length, and the bodies end to end are the packet if every send succeeds; the first failure stops the call and is returned; an id is used up only by a packet that is cut |
| `Fragmenter.SendParts` | src/lan-client.c:510-525 | the loop hands over parts 0, 1, 2, ... and stops at the first failure |
| `Fragmenter.BuildPart` | src/lan-client.c:513-518 | rewriting the one header buffer for part k yields exactly fragment k |
| `Reassembly.PartsFull` | src/lan-client.c:347 | the all-parts mask stands for the parts 0 to n-1 and no others |
| `Reassembly.PartsOr` | src/lan-client.c:342 | or-ing a part's bit into the mask adds that part to the set |
| `Reassembly.HeaderLayout` | src/lan-client.c:263-269 | where in a datagram each header field is read |
| `Reassembly.Reassembler.constructor` | src/lan-client.c:58-68 | all 100 slots start free and local_id at 0 |
| `Reassembly.Reassembler.FindUsed` | src/lan-client.c:295-302 | the first used slot with this source and id, if there is one |
| `Reassembly.Reassembler.FindUnused` | src/lan-client.c:304-316 | the first free slot, if there is one |
| `Reassembly.Reassembler.FindVictim` | src/lan-client.c:318-329 | the first used slot with the largest 16-bit distance from local_id, and that distance |
| `Reassembly.Reassembler.Open` | src/lan-client.c:304-339 | the slot it is given is allocated to the key: used, empty mask, next local_id |
| `Reassembly.Reassembler.Store` | src/lan-client.c:341-352 | the body goes to part times MTU, the part's bit is set, and a full mask frees the slot and hands the packet on |
| `Reassembly.Reassembler.ProcessFrag` | src/lan-client.c:253-358 | any datagram at all has exactly the effect of the step function `Process`: existing slot, else free slot, else the victim if its distance exceeds 100, else refusal; malformed datagrams change nothing |
| `Reassembly.WellFormedAccepted` | src/lan-client.c:271-291 | every fragment of at most eight parts that fits its part and the buffer is accepted, whatever follows it |
| `Reassembly.MalformedIgnored` | src/lan-client.c:256-291 | every other datagram is ignored and changes nothing |
| `ReassemblyRuns.RunUnique` | src/lan-client.c:295-339 | whatever arrives, at most one used slot belongs to a source and id |
| `ReassemblyRuns.MaskIsCollected` | src/lan-client.c:341-352 | after any datagrams, the mask of a key is exactly the set of parts that have arrived since its slot was last allocated |
| `ReassemblyRuns.DeliversWhenComplete` | src/lan-client.c:347-352 | for any datagrams: a packet is handed on exactly when the last missing part arrives |
| `ReassemblyRuns.DeliveredIsSent` | src/lan-client.c:253-358 | under loss, reordering, duplication, interleaving and eviction, what is handed on under a key is byte for byte the packet sent under it |
| `ReassemblyRuns.FaithfulRun` | src/lan-client.c:342-346 | in every such history each part marked present is in its place in the buffer |
| `Leftovers.DeliveredBytes` | src/lan-client.c:293-352 | for any datagrams at all: a delivered packet is what the parts stored under its key since its slot was allocated, written in the order they came, make of the former content of the slot; and these parts make up a packet at the last of them and not before |
| `Leftovers.DeliveredIsOwn` | src/lan-client.c:341-352 | if those parts set the length and bring every byte, each byte handed on is the one received last for its place under the key |
| `Leftovers.WrittenAt` | src/lan-client.c:341-346 | each byte and the length come from the last part that brings them, and from the former content if none does |
| `Leftovers.OwnBytesIff` | src/lan-client.c:304-352 | for parts that make up a packet, the packet is the same whatever earlier packets left in the slot if and only if the parts set its length and bring every byte of it |
| `Leftovers.UniformOwns` | src/lan-client.c:341-352 | parts that agree on count and size, all but the last full, meet that condition |
| `Leftovers.LeftoverDelivered` | src/lan-client.c:304-352 | a history in which two parts without bytes make the last packet of the slot be handed on again |
| `SlotEviction.RunNumbered` | src/lan-client.c:304-339 | slots of a table are allocated under different serial numbers, all below local_id |
| `SlotEviction.EvictsOldestOrRefuses` | src/lan-client.c:318-339 | up to the 65536th allocation a full table gives up its oldest slot for a new packet, unless its slots are the last 100 allocations, and exactly then it refuses |
| `SlotEviction.RunNewest` | src/lan-client.c:304-339 | whatever arrives, the slot allocated last still carries its number |
| `SlotEviction.LastHundredIff` | src/lan-client.c:318-330 | a full table whose serials are all within 100 of local_id holds exactly the last 100 allocations |
| `SlotEviction.BurstSticks` | src/lan-client.c:304-339 | one hundred packets begun and none finished bring about that state |
| `SlotEviction.StuckUntilDelivery` | src/lan-client.c:318-339 | in that state every new id is refused, through any further traffic, until one of the packets completes |
| `SlotEviction.EvictionAfterWrap` | src/lan-client.c:318-339 | past the 65536th allocation a full table never refuses, and a given slot goes exactly if its 16-bit local_id is the least, first index first |
| `SlotWrap.ArrivalsStage` | src/lan-client.c:304-352 | which slots are in use, and under which serial numbers, after 65530 whole packets, one begun, six whole and up to 99 begun |
| `SlotWrap.OldestCanSurvive` | src/lan-client.c:318-339 | datagrams that, from the empty table, lead to a full table in which a newer slot goes and the oldest stays |
| `Relay.SLPServer.constructor` | server/src/udpserver.ts:123-150 | a new server knows no peers and no addresses |
| `Relay.SLPServer.ClearCacheItem` | server/src/udpserver.ts:37-44 | deleting while iterating removes exactly the expired entries |
| `Relay.SLPServer.ClearExpire` | server/src/udpserver.ts:315-318 | a tick expires peers and addresses and nothing else |
| `Relay.SLPServer.Get` | server/src/udpserver.ts:83-98 | a message registers its sender, or renews it and keeps its peer object |
| `Relay.SLPServer.SendBroadcast` | server/src/udpserver.ts:310-314 | every registered peer but the sender gets one copy |
| `Relay.SLPServer.ForwardPacket` | server/src/udpserver.ts:267-284 | the source is learned first, then the packet goes to the owner of the destination or to everybody else |
| `Relay.SLPServer.Packet` | server/src/udpserver.ts:187-201 | only IPv4 and fragment messages longer than 20 bytes are forwarded |
| `Relay.SLPServer.NeedAuth` | server/src/udpserver.ts:205-246 | the authentication exchange up to its first await |
| `Relay.SLPServer.Route` | server/src/udpserver.ts:177-186 | a peer without a user reaches the authentication exchange only |
| `Relay.SLPServer.HandleMessage` | server/src/udpserver.ts:164-186 | empty messages, pings, and the rest |
| `Relay.SLPServer.RandomFilled` | server/src/udpserver.ts:231-245 | the challenge becomes ready and is sent once |
| `Relay.SLPServer.LoginAnswered` | server/src/udpserver.ts:212-229 | a granted login gives the peer its user; failures are reported and change nothing |
| `Relay.SLPServer.SendFailed` | server/src/udpserver.ts:301-309 | a send error removes the peer entry |
| `RelayRuns.LastSpeakerWins` | server/src/udpserver.ts:247-284 | in every history an address belongs to the peer that last had a packet from it accepted, unless a tick has expired it since |
| `RelayRuns.RegisteredIffHeard` | server/src/udpserver.ts:75-121 | in every history a peer is registered exactly while it was heard from recently and no send to it has failed since |
| `RelayRuns.ForwardedTo` | server/src/udpserver.ts:247-284 | an accepted packet goes once to the last speaker of its destination, and if there is none, once to every other peer still heard from, and to nobody else |
| `RelayRuns.SelfAddressedEchoes` | server/src/udpserver.ts:267-284 | a packet to its own source address comes back to the sender |
| `RelayRuns.UserIffGranted` | server/src/udpserver.ts:205-246 | in every history a peer object has a user exactly if a waiting login of its own was granted |
| `RelayRuns.ForgottenForGood` | server/src/udpserver.ts:75-121 | once an address has been unregistered, its entry never again refers to a peer object made before, so a login of that object counts no more |
| `RelayRuns.EntryStays` | server/src/udpserver.ts:75-121 | while an address stays registered its entry refers to the same peer object |
| `RelayRuns.AcceptedIffLogin` | server/src/udpserver.ts:177-246 | with an authentication provider a packet is accepted exactly if its sender asked for a login that was granted and has been registered at every moment since it asked |
| `RelayRuns.UnacceptedGoesNowhere` | server/src/udpserver.ts:177-246 | a message that is not accepted teaches the relay nothing and reaches nobody but its sender |
| `RelayRuns.LearnedPeersRegistered` | server/src/udpserver.ts:75-121 | the owner of a learned address is still registered, unless a send to it has failed |
| `RelayAuth.ChallengedIff` | server/src/udpserver.ts:205-245 | in every history a peer object has a challenge if and only if a message that is no login request came for it while no login had been granted to it |
| `RelayAuth.ReadyIff` | server/src/udpserver.ts:231-238 | the challenge is filled if and only if random bytes have come for it since, and it holds the first ones |
| `RelayAuth.DemandAnswered` | server/src/udpserver.ts:230-245 | such a message is answered with exactly one copy of the challenge once that is filled, and with nothing before |
| `RelayAuth.FillAnswered` | server/src/udpserver.ts:231-245 | the bytes that fill a challenge are sent to its peer at once, and others are ignored |
| `RelayAuth.LoginStarts` | server/src/udpserver.ts:206-213 | a login request starts to wait if and only if there is a challenge and a user name behind the twenty bytes of the response |
| `RelayAuth.LoginReported` | server/src/udpserver.ts:214-229 | a wrong password is reported twice, another failure once, success not at all; only success changes the peer, and gives it its user name |
| `RelayAuth.PingAnswered` | server/src/udpserver.ts:164-174 | a plain ping is answered with its first four bytes and leaves no trace |
| `RelayAuth.ClientGetsIn` | server/src/udpserver.ts:164-246 | from a fresh server, for every address, first message, random bytes, response and user name: the challenge is sent once, and after the grant packets of the client are accepted |
| `EndToEnd.RelayStep` | server/src/udpserver.ts:247-263 | a fragment passes the relay as one unchanged copy, or not at all if its body is too short |
| `EndToEnd.FragmentSends` | server/src/udpserver.ts:247-314 | whatever event the relay handles, the only fragment it sends is the one it has just accepted, and to each receiver once |
| `EndToEnd.InboxIsPassing` | server/src/udpserver.ts:247-314 | for parts in any order among any other traffic of anybody, all that the relay sends the receiver as fragments is exactly the parts long enough, in order, between fragments under other keys |
| `EndToEnd.CollectAll` | src/lan-client.c:253-358 | parts in any order among any other datagrams make the receiver hand on the packet once, at the last missing one, and not before; its slot is kept as long as it is not driven out |
| `EndToEnd.EndToEnd` | src/lan-client.c:253-531 | sender, relay, receiver, with any traffic under other keys interleaved at both, for a receiver whose slot for the packet is not driven out: under this key exactly the packet is handed on, once, if its last part has more than 4 bytes of body, and nothing otherwise |
| `EndToEnd.RoomIsEnough` | src/lan-client.c:304-316 | a table in which a slot is free at every arrival drives no packet out |
| `EndToEnd.OneSlotIsEnough` | src/lan-client.c:295-339 | for parts that come alone one free slot is enough, or one the key already has |
| `EndToEnd.AloneReaches` | server/src/udpserver.ts:247-284 | with no other traffic the relay goes on reaching the receiver if it can at the start |
| `EndToEnd.EndToEndAlone` | src/lan-client.c:253-531 | with no other traffic: if the relay can reach the receiver at the start and the receiver has one free slot, exactly the packet is handed on, once, if its last part has more than 4 bytes of body, and nothing otherwise |
| `WriteQueue.WritesNextBytes` | uv_lwip/uv_lwip.c:124-141 | the bytes given to tcp_write are the next bytes of all requests end to end |
| `WriteQueue.WriteBalanced` | uv_lwip/uv_lwip.c:136-140 | after a write each request still counts as sent and as pending exactly its share of the stream |
| `WriteQueue.NextBufBalanced` | uv_lwip/uv_lwip.c:143-153 | going on to the next buffer moves no bytes |
| `WriteQueue.AppendBalanced` | uv_lwip/uv_lwip.c:473-503 | a new request leaves the shares of the others alone |
| `WriteQueue.PendingIsOutstanding` | uv_lwip/uv_lwip.c:325-330 | the pending counters add up to the bytes written and not acknowledged |
| `WriteQueue.AckBalanced` | uv_lwip/uv_lwip.c:325-330 | an acknowledgement, taken from the oldest request first, leaves every counter right |
| `WriteQueue.DoneIffAcknowledged` | uv_lwip/uv_lwip.c:96 | the completion test holds exactly when every byte of the request is acknowledged |
| `WriteQueue.ShareAt` | uv_lwip/uv_lwip.c:124-141 | each queued request counts as sent its own bytes among those written, and as pending those of them not acknowledged |
| `WriteQueue.CompleteIsAll` | uv_lwip/uv_lwip.c:160-203 | when all buffers are passed all bytes have been written |
| `WriteBooks.GiveConsistent` | uv_lwip/uv_lwip.c:119-154 | writing keeps what TCP was given a prefix of the stream and success reports truthful |
| `WriteBooks.AckConsistent` | uv_lwip/uv_lwip.c:304-333 | an acknowledgement of bytes that are out is fully found in the queue: the loop never runs off its end |
| `WriteBooks.DoneConsistent` | uv_lwip/uv_lwip.c:96-104 | success is reported only for requests whose bytes are all acknowledged |
| `WriteBooks.CancelConsistent` | uv_lwip/uv_lwip.c:68-81 | cancelling keeps earlier reports truthful and ends with an empty queue |
| `WriteBooks.ShareOf` | uv_lwip/uv_lwip.c:304-333 | the same against the stream of all requests ever made |
| `TcpClient.Client.constructor` | uv_lwip/uv_lwip.c:614-626 | a new connection has an empty queue; which tcp_writes and tcp_outputs will fail is arbitrary |
| `TcpClient.Client.Promise` | uv_lwip/uv_lwip.c:68-211 | callback k was made for request k, the requests without one are the queued ones, TCP holds a prefix of the stream, and success means acknowledged |
| `TcpClient.Client.QueuedCounts` | uv_lwip/uv_lwip.c:68-211 | each queued object counts exactly its own bytes as sent and as pending |
| `TcpClient.Client.Accept` | uv_lwip/uv_lwip.c:505-539 | the connection gets the send buffer of its TCP connection |
| `TcpClient.Client.WindowIs` | uv_lwip/uv_lwip.c:119-141 | between calls the window may become anything |
| `TcpClient.Client.Write` | uv_lwip/uv_lwip.c:473-503 | the request joins the linked queue at its tail |
| `TcpClient.Client.WritePiece` | uv_lwip/uv_lwip.c:124-141 | one tcp_write of all that the buffer has and the window takes, or none; the queue is called full only if TCP refused the write |
| `TcpClient.Client.WriteBuf` | uv_lwip/uv_lwip.c:119-154 | it goes on to the next buffer only when this one is written and the window is open, and stops only for a full window or lack of memory |
| `TcpClient.Client.FindCurrent` | uv_lwip/uv_lwip.c:180-188 | the first request with buffers left |
| `TcpClient.Client.WriteToTcp` | uv_lwip/uv_lwip.c:160-211 | writing stops only at a full window, at a write that TCP refused, or when TCP has everything; the bytes given are taken off the window; buffers are never read past their end; the connection is closed exactly if the output fails |
| `TcpClient.Client.Sent` | uv_lwip/uv_lwip.c:304-353 | the acknowledged bytes are taken off the pending counters, oldest request first |
| `TcpClient.Client.AnswerDone` | uv_lwip/uv_lwip.c:90-108 | the requests answered are the oldest ones, in order, and the first one left is not done |
| `TcpClient.Client.CancelReqs` | uv_lwip/uv_lwip.c:68-81 | every waiting request is told UV_ECANCELED once, in order, and the queue is empty |
| `TcpClient.Client.AsyncWrite` | uv_lwip/uv_lwip.c:90-117 | answer what is done, then cancel the rest if closed and write on otherwise |
| `TcpClient.Client.Freed` | uv_lwip/uv_lwip.c:213-218 | closing changes neither queue nor books |
| `TcpClient.Client.Close` | uv_lwip/uv_lwip.c:663-671 | closing tells every waiting request |
| `TcpClient.Client.WriteOut` | uv_lwip/uv_lwip.c:90-211 | a window wider than what is left takes everything, unless TCP runs out of memory |
| `TcpClient.Client.Drain` | uv_lwip/uv_lwip.c:90-353 | whatever is queued: a wide window, an acknowledgement of all that is out and another turn answer every request with success, unless TCP refuses a write or an output |
| `TcpClient.Deliver` | uv_lwip/uv_lwip.c:473-539 | accept, write, acknowledgement and callback of one request on a new connection: if TCP refuses nothing, it is answered with success and all its bytes are acknowledged |
| `Sha1Transform.ChRewritten` | src/sha1.c:46-47 | the exclusive-or form of the first round function is the standard's choice function |
| `Sha1Transform.MajRewritten` | src/sha1.c:49 | the and-or form of the third round function is the standard's majority function |
| `Sha1Transform.SwapIsBigEndian` | src/sha1.c:34-41 | the rotate-and-mask byte swap of a little-endian load reads the word big-endian |
| `Sha1Spec.ConstantsAreRoots` | src/sha1.c:46-50 | the four round constants are the integer parts of 2 to the 30 times the square roots of 2, 3, 5 and 10 |
| `Sha1Transform.CircularStep` | src/sha1.c:42-43 | the 16-word circular buffer always holds the last 16 words of the 80-word schedule |
| `Sha1Transform.Transform` | src/sha1.c:55-111 | the unrolled transform with rotating register names is the compression function of section 7 of FIPS PUB 180-1 |
| `Sha1Stream.CountStep` | src/sha1.c:135-138 | the carry test keeps the two words equal to the message length in bits modulo 2 to the 64 |
| `Sha1Stream.FillLevel` | src/sha1.c:135-139 | bits 3 to 8 of the low word are the fill level of the buffer |
| `Sha1Stream.ReachTestIff` | src/sha1.c:139-149 | the 32-bit test whether the input reaches the end of the buffer is right exactly if the sum does not wrap |
| `Sha1Stream.Context.constructor` | src/sha1.c:116-125 | an empty message and the initial registers |
| `Sha1Stream.Context.Update` | src/sha1.c:130-150 | for any chunk for which that test is right: registers, buffer and count account for the message so far followed by the chunk |
| `Sha1Stream.Context.PadWithZeros` | src/sha1.c:186-189 | the loop adds exactly the zero bytes the padding rule asks for |
| `Sha1Stream.Context.Final` | src/sha1.c:155-198 | the digest is SHA-1 of everything fed in, and the context is wiped |
| `Sha1Stream.HashChunks` | src/sha1.c:116-198 | for every way of cutting a message into such chunks the digest is SHA-1 of the message |
| `ArpCache.Cache.constructor` | src/arp.c:154-157 | all entries expired |
| `ArpCache.Cache.Set` | src/arp.c:199-218 | the first entry that is expired or has this address is overwritten; failure only if there is none |
| `ArpCache.Cache.Get` | src/arp.c:176-197 | the MAC of the first live entry with this address; an ARP request for it exactly on a miss |
| `ArpCache.Cache.Has` | src/arp.c:159-174 | whether there is such an entry |
| `ArpCache.Cache.ForEach` | src/arp.c:220-235 | the callback gets the entries that have not expired, in index order, up to the first on which it does not return 0 |
| `ArpCache.ShownIff` | src/arp.c:220-235 | an entry is shown exactly if it has not expired and the callback returned 0 for all shown before it |
| `ArpCache.SetFailsIff` | src/arp.c:199-218 | a set fails exactly if every entry belongs to another address and has not expired |
| `ArpCache.SetWritesOne` | src/arp.c:199-218 | a set that succeeds overwrites the first entry that is free, of this address or expired, and no other |
| `ArpCache.LookupIsLastSet` | src/arp.c:159-218 | after any sets, a lookup gives the MAC of the last successful set of the address while that is unexpired, and nothing otherwise |
| `ArpCache.RunGuarded` | src/arp.c:199-218 | after any sets, of two entries for an address the lower one expires strictly later, and below an entry set just now no slot is reusable |
| `ArpCache.NoneIpIsForgotten` | src/arp.c:199-218 | for 0.0.0.0 that fails |
| `ArpCache.VisitsLastSetOrDuplicate` | src/arp.c:220-235 | an entry visited by a walk is the last set of its address if and only if no lower index holds the address; one that does is visited too |
| `ArpCache.DuplicateExists` | src/arp.c:199-235 | a history after which a walk visits an address twice |
| `ZeroRun.DecodeEncode` | ldn_mitm-1.25.1/ldn_mitm/source/lan_protocol.cpp:226-289 | for any bytes and any capacity, decompressing the compressed form gives the bytes cut to the capacity |
| `ZeroRun.CompleteIffItFits` | ldn_mitm-1.25.1/ldn_mitm/source/lan_protocol.cpp:262-289 | success with the full length is exactly a capacity that holds the bytes |
| `ZeroRun.Compress` | ldn_mitm-1.25.1/ldn_mitm/source/lan_protocol.cpp:226-260 | the greedy coding is written if it fits the buffer, and the call fails exactly otherwise |
| `ZeroRun.Decompress` | ldn_mitm-1.25.1/ldn_mitm/source/lan_protocol.cpp:262-289 | any input, valid or not, expands as specified without leaving the buffer |
| `ZeroRun.RoundTrip` | ldn_mitm-1.25.1/ldn_mitm/source/lan_protocol.cpp:226-289 | the two loops in sequence give back the input |
| `ZeroRun.ZerosEncode` | ldn_mitm-1.25.1/ldn_mitm/source/lan_protocol.cpp:226-260 | up to 256 zeros become two bytes |
| `ZeroRun.OthersEncode` | ldn_mitm-1.25.1/ldn_mitm/source/lan_protocol.cpp:226-260 | bytes other than zero stay as they are |
| `LanSocket.SendPacket` | ldn_mitm-1.25.1/ldn_mitm/source/lan_protocol.cpp:149-182 | the frame: header with both lengths, body compressed only if that is shorter; lengths are cut to their 16 bits and so is the body |
| `LanSocket.WireLayout` | ldn_mitm-1.25.1/ldn_mitm/source/lan_protocol.cpp:149-182 | the frame of a message byte by byte: magic number, type, coding flag, both lengths, body |
| `LanSocket.LittleEndian` | ldn_mitm-1.25.1/ldn_mitm/source/lan_protocol.cpp:149-182 | lengths in an LDN header are little-endian |
| `LanSocket.OpenFrame` | ldn_mitm-1.25.1/ldn_mitm/source/lan_protocol.cpp:107-145 | a whole frame opens to its message exactly if the unpacked message fits the buffer |
| `LanSocket.FrameOpens` | ldn_mitm-1.25.1/ldn_mitm/source/lan_protocol.cpp:68-145 | any whole frame is cut off the buffer, and fails exactly if it is said to be coded and does not unpack to the length it announces |
| `LanSocket.BadMagicDropped` | ldn_mitm-1.25.1/ldn_mitm/source/lan_protocol.cpp:82-87 | a buffer that does not begin with the magic number is thrown away |
| `LanSocket.OversizeIsDropped` | ldn_mitm-1.25.1/ldn_mitm/source/lan_protocol.cpp:89-94 | the read that completes the header of a frame longer than the buffer empties the buffer and delivers nothing |
| `LanSocket.Socket.constructor` | ldn_mitm-1.25.1/ldn_mitm/source/lan_protocol.cpp:64-66 | an empty receive buffer |
| `LanSocket.Socket.RecvPart` | ldn_mitm-1.25.1/ldn_mitm/source/lan_protocol.cpp:68-105 | one read either completes the first frame in the buffer, which is cut out, or waits for more; a read that fails or ends the stream leaves the buffer alone |
| `LanSocket.Socket.RecvPacket` | ldn_mitm-1.25.1/ldn_mitm/source/lan_protocol.cpp:107-145 | one read delivers at most one message, or fails, as specified; the result of a read that fails or ends the stream is passed on |
| `LanSocket.StreamDelivers` | ldn_mitm-1.25.1/ldn_mitm/source/lan_protocol.cpp:68-145 | for every way the stream is cut into reads, the messages delivered are the first ones sent, in order, as many as `DeliveredBy` says, and no byte is lost or invented |
| `LanSocket.AllReadThenRest` | ldn_mitm-1.25.1/ldn_mitm/source/lan_protocol.cpp:68-145 | when all is read, the messages beyond that number are exactly what the buffer holds |
| `LanSocket.DeliveredAtLeastIff` | ldn_mitm-1.25.1/ldn_mitm/source/lan_protocol.cpp:68-145 | the same for any number of messages, at any time |
| `LanSocket.AllDeliveredIff` | ldn_mitm-1.25.1/ldn_mitm/source/lan_protocol.cpp:68-145 | when all is read, all messages have been delivered exactly if at every moment the whole frames received by then and the reads to come were together enough |
| `LanSocket.OneReadOneMessage` | ldn_mitm-1.25.1/ldn_mitm/source/lan_protocol.cpp:68-145 | of messages that arrive in one read the first is delivered and the others stay in the buffer |
| `LanSocket.SecondStays` | ldn_mitm-1.25.1/ldn_mitm/source/lan_protocol.cpp:68-145 | two empty messages, for example |
| `Discovery.FirstFree` | ldn_mitm-1.25.1/ldn_mitm/source/lan_discovery.cpp:203-210 | the first disconnected station |
| `DiscoveryRuns.RunSound` | ldn_mitm-1.25.1/ldn_mitm/source/lan_discovery.cpp:187-875 | whatever is called and whatever comes in, in any order, the node table stays in step with the stations; an object that is not initialised polls nothing and has no stations |
| `DiscoveryRuns.ReachableTableTrue` | ldn_mitm-1.25.1/ldn_mitm/source/lan_discovery.cpp:458-498 | in every reachable access point nodeCount is one more than the connected stations, and node k is connected exactly if it is the host or its station is, and has nodeId k |
| `DiscoveryRuns.FreeStationExists` | ldn_mitm-1.25.1/ldn_mitm/source/lan_discovery.cpp:195-216 | the count test passes exactly if a free station exists |
| `DiscoveryGuests.StationsAre` | ldn_mitm-1.25.1/ldn_mitm/source/lan_discovery.cpp:195-875 | in every run the object is in the state, and each station has the status, that the events alone say |
| `DiscoveryGuests.ConnectedIff` | ldn_mitm-1.25.1/ldn_mitm/source/lan_discovery.cpp:45-74 | station i is connected if and only if a NodeInfo came on it while a guest was linked to it and no close, bad packet or reset came after; it is free if and only if nobody was linked to it or something has freed it since |
| `DiscoveryGuests.TableFromEvents` | ldn_mitm-1.25.1/ldn_mitm/source/lan_discovery.cpp:458-479 | the node table of every access point from the events alone: the host of the network, each guest as it last named itself under the id of its station, and the count of the guests and one more |
| `DiscoveryGuests.LeavingFrees` | ldn_mitm-1.25.1/ldn_mitm/source/lan_discovery.cpp:70-74 | when the socket of a station closes or fails, the station is free, the others stay as they are, and the table counts one guest less if it was one |
| `DiscoveryGuests.HostTableTaken` | ldn_mitm-1.25.1/ldn_mitm/source/lan_discovery.cpp:187-193 | the table a host sends is taken over as it is |
| `DiscoveryGuests.CreationFails` | ldn_mitm-1.25.1/ldn_mitm/source/lan_discovery.cpp:579-608 | what a network that fails early or late leaves behind |
| `DiscoveryGuests.ChangesObserved` | ldn_mitm-1.25.1/ldn_mitm/source/lan_discovery.cpp:225-230 | whenever the flags of the nodes change, the change bits take notice, except for a network that fails late |
| `DiscoveryGuests.LogIs` | ldn_mitm-1.25.1/ldn_mitm/source/lan_discovery.cpp:389-404 | which events are observations, initialisations and reads of the change bits |
| `DiscoveryRuns.BitsAreTheHistory` | ldn_mitm-1.25.1/ldn_mitm/source/lan_discovery.cpp:380-404 | in every history the change bits of a node are the rises and falls seen since the last successful read |
| `DiscoveryRuns.ReadReturnsBits` | ldn_mitm-1.25.1/ldn_mitm/source/lan_discovery.cpp:534-556 | a successful read returns those bits |
| `DiscoveryRuns.RealChangesIff` | ldn_mitm-1.25.1/ldn_mitm/source/lan_discovery.cpp:389-404 | over any flags, what is counted is exactly the changes if and only if no negative flag is seen twice in a row |
| `DiscoveryRuns.RealBits` | ldn_mitm-1.25.1/ldn_mitm/source/lan_discovery.cpp:389-404 | then the bits say that the flag changed to something, or to 0 |
| `DiscoveryRuns.ZeroOneWindow` | ldn_mitm-1.25.1/ldn_mitm/source/lan_discovery.cpp:389-404 | in particular, for flags 0 and 1 a rise is 0 to 1 and a fall 1 to 0 |
| `DiscoveryRuns.NegativeFlagMisfires` | ldn_mitm-1.25.1/ldn_mitm/source/lan_discovery.cpp:389-404 | on a run: a host that marks a node with -1 and sends the same table twice makes the second one count as a change |
| `LanDiscoveryObject.LANDiscovery.constructor` | ldn_mitm-1.25.1/ldn_mitm/source/lan_discovery.hpp:179-190 | the object before initialize |
| `LanDiscoveryObject.LANDiscovery.Initialize` | ldn_mitm-1.25.1/ldn_mitm/source/lan_discovery.cpp:792-875 | how the object and its stations are left by each outcome, and that a second call does nothing |
| `LanDiscoveryObject.LANDiscovery.Finalize` | ldn_mitm-1.25.1/ldn_mitm/source/lan_discovery.cpp:755-790 | all stations disconnected, and polled no more |
| `LanDiscoveryObject.LANDiscovery.OpenAccessPoint` | ldn_mitm-1.25.1/ldn_mitm/source/lan_discovery.cpp:643-657 | refused before initialize; otherwise all stations are reset |
| `LanDiscoveryObject.LANDiscovery.CloseAccessPoint` | ldn_mitm-1.25.1/ldn_mitm/source/lan_discovery.cpp:659-672 | the same, back to the initialised state |
| `LanDiscoveryObject.LANDiscovery.OpenStation` | ldn_mitm-1.25.1/ldn_mitm/source/lan_discovery.cpp:674-688 | the same, to the station state |
| `LanDiscoveryObject.LANDiscovery.CloseStation` | ldn_mitm-1.25.1/ldn_mitm/source/lan_discovery.cpp:690-704 | the same, back to the initialised state |
| `LanDiscoveryObject.LANDiscovery.DestroyNetwork` | ldn_mitm-1.25.1/ldn_mitm/source/lan_discovery.cpp:623-632 | the network is gone and the stations with it |
| `LanDiscoveryObject.LANDiscovery.OnSyncNetwork` | ldn_mitm-1.25.1/ldn_mitm/source/lan_discovery.cpp:187-193 | the table of the host replaces the own one, and the event is signalled exactly if a flag differs from the last one seen |
| `LanDiscoveryObject.LANDiscovery.ResetStations` | ldn_mitm-1.25.1/ldn_mitm/source/lan_discovery.cpp:440-444 | all stations disconnected |
| `LanDiscoveryObject.LANDiscovery.StationCount` | ldn_mitm-1.25.1/ldn_mitm/source/lan_discovery.cpp:446-456 | the number of stations that are not disconnected |
| `LanDiscoveryObject.LANDiscovery.OnConnect` | ldn_mitm-1.25.1/ldn_mitm/source/lan_discovery.cpp:195-216 | a new socket takes the first free station, or is closed when there is none |
| `LanDiscoveryObject.LANDiscovery.InitNodeStateChange` | ldn_mitm-1.25.1/ldn_mitm/source/lan_discovery.cpp:380-387 | all bits cleared and all last flags 0 |
| `LanDiscoveryObject.LANDiscovery.IsNodeStateChanged` | ldn_mitm-1.25.1/ldn_mitm/source/lan_discovery.cpp:389-404 | bits gained for every node whose flag changed; whether there was one |
| `LanDiscoveryObject.LANDiscovery.UpdateNodes` | ldn_mitm-1.25.1/ldn_mitm/source/lan_discovery.cpp:458-479 | the node table is rebuilt from the stations and resent to the connected ones; the event is signalled exactly if a flag differs from the last one seen |
| `LanDiscoveryObject.LANDiscovery.CreateNetwork` | ldn_mitm-1.25.1/ldn_mitm/source/lan_discovery.cpp:579-621 | an access point with the host alone |
| `LanDiscoveryObject.LANDiscovery.StationOnClose` | ldn_mitm-1.25.1/ldn_mitm/source/lan_discovery.cpp:70-74 | the station is free without a socket, its node is marked as gone, and the node table follows |
| `LanDiscoveryObject.LANDiscovery.StationOnRead` | ldn_mitm-1.25.1/ldn_mitm/source/lan_discovery.cpp:45-68 | a NodeInfo makes the station connected, and its own node id is overwritten |
| `LanDiscoveryObject.LANDiscovery.GetUpdates` | ldn_mitm-1.25.1/ldn_mitm/source/lan_discovery.cpp:534-556 | the bits are returned and cleared only if the state allows reading |
| `LanDiscoveryObject.Host` | ldn_mitm-1.25.1/ldn_mitm/source/lan_discovery.cpp:579-621 | from the constructor to the first guest: the calls above lead to an access point whose first station is connected and whose node table is true |
| `LobbyCache.LobbyTable.constructor` | sysmodule/source/ldn_bridge.cpp:125-131 | an empty cache |
| `LobbyCache.LobbyTable.Store` | sysmodule/source/ldn_bridge.cpp:144-189 | the lobby's own slot, else the first invalid one, else the one stored longest ago |
| `LobbyCache.LobbyTable.Reinject` | sysmodule/source/ldn_bridge.cpp:191-223 | if an injection is due, the lobbies that are not too old are sent, in order, and the others dropped; otherwise nothing happens (`LobbyRuns.InjectsIff` and `LobbyRuns.InjectionSends` say when and which) |
| `LobbyRuns.HoldsMostRecent` | sysmodule/source/ldn_bridge.cpp:144-223 | in every history in which the clock goes on from call to call, the cache holds exactly the `Kept` lobbies heard most recently, each once and with its latest payload |
| `LobbyRuns.KeptIff` | sysmodule/source/ldn_bridge.cpp:144-223 | in every such history, of the lobbies in the order heard, the j-th is among the `Kept` ones exactly if j is below sixteen and no due injection found it expired |
| `LobbyRuns.CachedIff` | sysmodule/source/ldn_bridge.cpp:144-223 | in every such history a response is cached if and only if it is the last one of its lobby, fewer than sixteen other lobbies were heard since, and no injection that was due since found it expired |
| `LobbyRuns.NoIdentityTwice` | sysmodule/source/ldn_bridge.cpp:144-189 | no lobby is cached twice |
| `LobbyRuns.OldestIsLast` | sysmodule/source/ldn_bridge.cpp:175-181 | in a full cache the slot chosen is that of the lobby heard longest ago |
| `LobbyRuns.StoreHolds` | sysmodule/source/ldn_bridge.cpp:144-189 | a store moves its lobby to the front of the most recent ones; the cache grows by one unless the lobby was cached or all sixteen slots are taken, and then the least recent goes |
| `LobbyRuns.ReinjectHolds` | sysmodule/source/ldn_bridge.cpp:191-223 | an injection drops exactly the expired lobbies, which are the last ones |
| `LobbyRuns.InjectsIff` | sysmodule/source/ldn_bridge.cpp:191-200 | a call injects if and only if at least 500,000,000 ns have passed since every earlier call that did; so the first call injects |
| `LobbyRuns.InjectionSends` | sysmodule/source/ldn_bridge.cpp:200-223 | a call that injects sends exactly the cached lobbies not older than 30,000,000,000 ns, in slot order, and drops the others; any other call does nothing |
| `LobbyRuns.ResponseStored` | sysmodule/source/ldn_bridge.cpp:144-189 | a scan response of at most 2048 bytes takes a slot, whole and with its tick |
| `LobbyRuns.OthersIgnored` | sysmodule/source/ldn_bridge.cpp:144-152 | anything else is ignored |
| `LobbyRuns.SurvivesIff` | sysmodule/source/ldn_bridge.cpp:191-223 | whatever the ticks, a due injection keeps a lobby exactly if it was not stored after the clock was read and is not too old |
| `LobbyRuns.FreshLobbyDropped` | sysmodule/source/ldn_bridge.cpp:144-223 | a lobby stored between the reading of the clock and the lock is dropped |
| `SessionTable.KeepsInv` | sysmodule/source/ldn_bridge.cpp:669-878 | every step of acceptor, session threads, injector and closer keeps the invariant of table, threads and lock |
| `SessionTable.OneLiveThreadPerSlot` | sysmodule/source/ldn_bridge.cpp:831-874 | in every interleaving no slot, and so no thread stack, has two live threads |
| `SessionTable.JoinedThreadNeedsNoLock` | sysmodule/source/ldn_bridge.cpp:831-874 | a thread joined under the table lock is past its last use of the lock |
| `SessionTable.HolderApproaches` | sysmodule/source/ldn_bridge.cpp:669-878 | whatever the holder of the lock does next, writing to a session included, brings it nearer to the release |
| `SessionTable.OthersDoNotHinder` | sysmodule/source/ldn_bridge.cpp:669-878 | whatever anybody else does, the holder keeps the lock and is no farther from its release |
| `SessionTable.HeldBriefly` | sysmodule/source/ldn_bridge.cpp:669-878 | in every interleaving, while the lock stays held at most three actions that bring its release nearer can go by |
| `SessionTable.LockMovesOn` | sysmodule/source/ldn_bridge.cpp:669-878 | while the lock is held an action is enabled that brings its release nearer: one of the holder, or the last one of the thread or writer it waits for |
| `SessionTable.HelpedOnlyIfBlocked` | sysmodule/source/ldn_bridge.cpp:669-878 | that is somebody else's action only while the holder can do nothing itself |
| `SessionTable.LockCanBeFreed` | sysmodule/source/ldn_bridge.cpp:669-878 | from every reachable state some continuation of at most four actions frees the lock: no deadlock |
| `SessionTable.SessionBegins` | sysmodule/source/ldn_bridge.cpp:830-875 | whenever the acceptor is idle, the lock free and a slot unused, a session can begin in the first such slot, whose last thread must have finished |
| `SessionTable.ClaimGivenBack` | sysmodule/source/ldn_bridge.cpp:864-872 | if the thread cannot be created, the slot is given back |
| `SessionTable.SessionEnds` | sysmodule/source/ldn_bridge.cpp:742-752 | a running session can end whenever the lock is free |
| `SessionTable.EndedCanBeJoined` | sysmodule/source/ldn_bridge.cpp:844-848 | its slot is then unused and its thread can be joined |
| `SessionTable.SessionWritten` | sysmodule/source/ldn_bridge.cpp:669-695 | data from the relay can be written to an active session nobody else writes to, whenever the lock is free |
| `SessionTable.WriteLeavesNoTrace` | sysmodule/source/ldn_bridge.cpp:691-692 | afterwards everything is as before |
| `SessionTable.AcceptorRestarts` | sysmodule/source/ldn_bridge.cpp:477-485 | a stopped acceptor joins the threads that have finished, and starts again exactly when none is left |
| `SessionTable.ScanFindsFirst` | sysmodule/source/ldn_bridge.cpp:831-842 | the scan finds the first slot not in use, and gives up only if all eight are |
| `Checksum.SubIsCarry` | src/ipv4/ipv4.c:161-163 | subtracting 0xffff while the sum is larger is the end-around carry of RFC 1071 |
| `Checksum.CalcChecksum` | src/ipv4/ipv4.c:150-165 | the complement of the folded 32-bit sum |
| `Checksum.CalcIsRfcIff` | src/ipv4/ipv4.c:150-165 | for up to 131074 bytes it is the RFC 1071 checksum exactly if the length is even or the last byte is 0 |
| `Checksum.StampedVerifies` | src/ipv4/ipv4.c:42-43 | writing the checksum into its zeroed field makes the data verify |
| `Checksum.CalcPayloadChecksum` | src/ipv4/ipv4.c:167-199 | it stays inside the parts exactly if each part that ends within a word is the last or followed by a part of one byte, and then it is the checksum of the parts together |
| `Checksum.Ipv4Header` | src/ipv4/ipv4.c:18-43 | the header verifies, and every field reads back: version, total length and id modulo 65536, time to live 128, protocol, both addresses |
| `Checksum.UdpHeader` | src/ipv4/udp.c:15-52 | ports and length read back, and pseudo header, header and payload together verify |
| `Checksum.PseudoFields` | src/ipv4/udp.c:35-42 | the fields of the pseudo header: both addresses, 0, 17 and the length |
| `Base64.MasksAreDigits` | src/rpc/base64.hpp:44-47 | the encoder's masks and shifts give the four 6-bit digits of the 24-bit group |
| `Base64.MasksAreOctets` | src/rpc/base64.hpp:91-93 | the decoder's masks and shifts give the three octets back |
| `Base64.Encode` | src/rpc/base64.hpp:34-74 | the encoding of section 4 of RFC 4648, of length four times the groups begun |
| `Base64.Vectors` | src/rpc/base64.hpp:34-74 | three of the test vectors of section 10 of RFC 4648 |
| `Base64.LowAlphabet` | src/rpc/base64.hpp:24-27 | the first half of the alphabet of RFC 4648 |
| `Base64.HighAlphabet` | src/rpc/base64.hpp:24-27 | the second half |
| `Base64.Decode` | src/rpc/base64.hpp:76-111 | for any string, the bytes of the letters it starts with; the rest, and whatever the scratch array held before, is ignored |
| `Base64.StaleIsIgnored` | src/rpc/base64.hpp:99-107 | the bytes kept of a last short group do not depend on the unset letters |
| `Base64.Padding` | src/rpc/base64.hpp:64-68 | one '=' for each byte missing from the last group, at the end and nowhere else |
| `Base64.DecodedEncoded` | src/rpc/base64.hpp:34-111 | decoding an encoding gives back the bytes |

## Left out

- The command line, settings, logging, name lookup, the overlay and other user interfaces, and the RPC layer around base64.
- lwIP, libuv, pcap and the operating system: sockets, timers and allocation. What they return is a parameter or arbitrary.
- SOCKS5, the proxy types and the gateway's other packet handlers: each is a short case distinction without state of its own.
- The WebSocket transport and the server's monitoring and password store. `verify` of the authentication provider is an arbitrary answer.
- The texts of Info messages, of which only the number is modelled.
- The byte counters `upload_byte`, `sent_bytes`, `recv_bytes` and the like.
- The copies of the client code in the sysmodule tree.
- Reassembly.Reassembler.ProcessFrag: `local_id` and `frag_id` count without bound, because overflow of the counter they are taken from needs two billion packets. Their 16-bit images are modelled.
- TcpClient.Client.Write: counters are unbounded, so requests of 4 GiB and more are not modelled. A request has at least one buffer, since the write loop reads the first buffer of a following request without looking at the count.
- TcpClient.Client.WritePiece: a tcp_write error other than ERR_MEM is not modelled. The code then closes the connection and goes on to use it.
- TcpClient.Client.AnswerDone: callbacks do not call back into the connection. A uvl_write from the callback of the last request would link it behind a request that has been answered.
- TcpClient.Client.CancelReqs: the read callback is not modelled.
- Sha1Stream.Context.Update: chunks for which the test of `Sha1Stream.ReachTestIff` goes wrong are shut out. There the code would write past the end of the buffer.
- Sha1Stream.HashChunks: shuts out the same chunks.
- Discovery and LanDiscoveryObject: the worker and the caller take turns at whole steps; races between them are not modelled. Before the first `initialize` the stations point to no node, and `createNetwork` would follow a null pointer; the model writes to the node.
- LobbyRuns.HoldsMostRecent: the conversion from ticks to nanoseconds is any monotone function. A store that takes the lock after an injection has read its clock is not among these histories; `LobbyRuns.SurvivesIff` says what happens then.
- LobbyRuns.KeptIff: shuts out the same interleaving.
- LobbyRuns.CachedIff: shuts out the same interleaving.
- SessionTable.LockMovesOn: a `send` to a session is taken to return. If it blocks, so does everybody who waits for that session's write lock while holding the table lock.
- SessionTable.LockCanBeFreed: takes the same for granted.
- SessionTable.OneLiveThreadPerSlot: that each file descriptor is closed exactly once is not modelled.
- Checksum.UdpHeader: a computed checksum of 0 is sent as 0, as the code does; RFC 768 would send 0xffff. Payloads beyond 131054 bytes, which no IPv4 packet holds, could wrap the 32-bit sum.
- Checksum.Ipv4Header: looking up the MAC address and sending the frame are not modelled.
