# dhtsearch in Dafny

dhtsearch crawls the Mainline DHT and downloads torrent metadata from the peers it hears of. This project models the
parts that decide whether it does so correctly and proves what they keep over every run:

- ids: the shared-prefix distance, its relation to the XOR metric of BEP 5, and the neighbour ids the crawler claims;
- the bounded routing table: a heap with back-pointers in step with an address map, and an eviction loop that shortens
  the slice it walks;
- the metadata download: framing (BEP 3), the extended handshake (BEP 10), requests, numbered pieces in any order
  (BEP 9), and reassembly;
- the node: received packets, replies, node lists (BEP 5, BEP 32), the blacklist, the neighbour round with packets
  arriving at any moment of it, and the packets that make the program panic;
- the handoff of peers to workers over a channel of channels;
- the integer and compact-address codecs, and the slab of read buffers.

Where the program changes things in place, a class or a method with loops is proved against functions on values, and
the theorems are about those functions. `Heap`, `RoutingTable`, `Interleaving`, `Metadata`, `Requests`, `Framing`,
`Node`, `NodeLists`, `DoublePassCounts`, `NodePackets` and `NodeRuns` hold functions and theorems; `RoutingTableImpl`,
`Worker`, `NodeImpl` and `Slab` hold the code that is proved to follow them.

`dafny verify dfyconfig.toml` checks the whole project.

Readings of the program that matter for the model:

- `container/heap` is modelled from its documented algorithm (up, down, Push, Remove), with the `Less`, `Swap`, `Push` and
  `Pop` of `priorityQueue`. A larger distance is nearer the root.
- `GenerateNeighbour` appends onto `second[:10]`. Ids come from 20-byte or 40-digit texts, whose arrays have room for
  twenty bytes, so the append overwrites the last ten bytes of `second`. A node in the table loses its id this way
  during a neighbour round, before the round compares the id with our own.
- The check of the last piece compares with `metadataSize % BlockSize`, so a size that is a positive multiple of the
  block size demands an empty last piece, which `isDone` never accepts. BEP 9 asks for a full block there. The model
  follows the code: such metadata is never fetched, and the exact condition is proved.
- A Go panic inside `fetchMetadata` is recovered and yields a nil result (`Panicked`); in the node's handlers nothing
  recovers it, so it ends the run (`Crashed`, `Err`).
- `add` on a table whose maximum is 0 panics on its first accepted node; the table is modelled for a maximum of at least 1.
- A wrapped `int32` length still reads back correctly, so framing is proved for bodies shorter than 2^32 bytes.

Parameters of the model, in place of code that is not part of it: the bencode decoder (a dictionary and an index, with
no promise about the index) and encoder, the UDP resolver, the text form of IPv6 addresses, random transaction ids and
targets, the addresses the bootstrap routers resolve to, and the byte stream a peer sends.

## Model
| member | source | states |
|---|---|---|
| Infohash.Equal | models/infohash.go:50-60 | the byte loop decides equality of ids of any lengths |
| Infohash.Distance | models/infohash.go:63-83 | the two loops compute the number of leading bits two ids share |
| Infohash.TopBit | models/infohash.go:77-81 | the shift loop stops within seven shifts, at the first set bit |
| Infohash.PrefixSpec | models/infohash.go:63-83 | ids agree on every bit of the shared prefix and differ right after it |
| Infohash.CommonPrefixUnique | models/infohash.go:63-83 | no other number of bits has that property |
| Infohash.FullPrefixIffEqual | models/infohash.go:71-73 | the result is 160 exactly for equal ids and never more |
| Infohash.PrefixSymmetric | models/infohash.go:63-83 | the distance is symmetric |
| Infohash.PrefixUltrametric | models/infohash.go:63-83 | the distance satisfies the ultrametric law |
| Infohash.PrefixBoundsXor | models/infohash.go:63-83 | for result d the big-endian XOR lies in [2^(159-d), 2^(160-d)) |
| Infohash.LongerPrefixIsCloser | models/infohash.go:62-83 | a strictly larger result means strictly smaller XOR distance |
| Infohash.GenerateNeighbour | models/infohash.go:85-88 | the result is the array of `second`, overwritten in its last ten bytes |
| Infohash.NeighbourDistance | models/infohash.go:85-88 | a neighbour shares 80 bits with `second`; its distance to `first` is that of `second` below 80, else it is `first` |
| Infohash.OverwriteKeepsDistance | models/infohash.go:85-88 | the overwrite keeps a cached distance right exactly below 80 and at 160 |
| Infohash.NeighbourIdempotent | models/infohash.go:85-88 | overwriting an id again changes nothing |
| Infohash.IdTextRoundTrip | models/infohash.go:18-39 | the raw and the hexadecimal text of an id read back to it |
| Infohash.FromStringIff | models/infohash.go:18-39 | exactly 20 raw bytes and 40 hexadecimal digits of either case are ids, two digits making a byte, the high one first |
| Heap.UpPermutes | dht/routing_table.go:39-57 | climbing keeps the entries and touches only j and slots up to its parent |
| Heap.UpRestores | dht/routing_table.go:39-57 | climbing repairs heap order broken between one entry and its parent |
| Heap.DownPermutes | dht/routing_table.go:39-49 | sinking keeps the entries and everything past its limit |
| Heap.DownRestores | dht/routing_table.go:39-49 | sinking repairs heap order broken around one entry |
| Heap.PushAdds | dht/routing_table.go:51-57 | a push adds its entry to the multiset of entries |
| Heap.PushOrdered | dht/routing_table.go:51-57 | a push keeps heap order |
| Heap.RemoveTakes | dht/routing_table.go:59-67 | a removal at any index takes out exactly that entry |
| Heap.RemoveOrdered | dht/routing_table.go:59-67 | a removal at any index keeps heap order |
| Heap.RootIsBest | dht/routing_table.go:39-42 | nothing in heap order beats the root |
| RoutingTable.EvictsOnce | dht/routing_table.go:90-96 | the eviction loop makes one pass although its bound shrinks |
| RoutingTable.AddValid | dht/routing_table.go:69-97 | `add` keeps heap order, address bijection, cached distances, id rules and the size bound |
| RoutingTable.AddToRoom | dht/routing_table.go:75-88 | an accepted node enters a table with room, and its address the map |
| RoutingTable.AddToFull | dht/routing_table.go:88-96 | an accepted add to a full table evicts exactly one entry and its address |
| RoutingTable.FullAddReplacesLast | dht/routing_table.go:88-96 | for max at least 2 that entry is the one in the last slot, never the new one |
| RoutingTable.NewNodeAndRootStay | dht/routing_table.go:69-97 | for max at least 2 the new node and the old root are in the table afterwards |
| RoutingTable.AddedIsListed | dht/routing_table.go:69-97 | for max at least 2 a node worth keeping is listed once it has been added |
| RoutingTable.AddListsOrKeeps | dht/routing_table.go:69-97 | for every max an add lists its node or changes nothing |
| RoutingTable.AddToOne | dht/routing_table.go:90-96 | a full table of one keeps whichever node shares less of our id, on a tie the newcomer |
| RoutingTable.SizesAgree | dht/routing_table_test.go:40-42 | as many addresses as items |
| RoutingTable.AddStructured | dht/routing_table.go:69-97 | heap order, address bijection and the bound survive `add` whatever the ids in the table are |
| RoutingTable.RunValid | dht/routing_table.go:26-115 | every run of new, add and flush keeps the whole invariant |
| RoutingTable.BestNeverLost | dht/routing_table.go:40-107 | for max at least 2 the root attains the best distance of all nodes accepted since the last flush |
| RoutingTable.BestKeptIffRoomForTwo | dht/routing_table.go:90-96 | that holds over all runs exactly for max at least 2 |
| RoutingTable.TableOfOne | dht/routing_table.go:90-96 | a run of a table of one that keeps the worse of two nodes |
| RoutingTableImpl.PriorityQueue.Swap | dht/routing_table.go:45-49 | swapping keeps every item's index equal to its position |
| RoutingTableImpl.PriorityQueue.Append | dht/routing_table.go:52-57 | appends an item with its index |
| RoutingTableImpl.PriorityQueue.Pop | dht/routing_table.go:60-67 | takes off the last item and marks it as out |
| RoutingTableImpl.PriorityQueue.HeapPush | dht/routing_table.go:88 | the in-place push follows the heap functions and keeps indices |
| RoutingTableImpl.PriorityQueue.HeapRemove | dht/routing_table.go:94 | the in-place removal follows the heap functions and keeps indices |
| RoutingTableImpl.RoutingTable.constructor | dht/routing_table.go:26-34 | a new table is the empty one |
| RoutingTableImpl.RoutingTable.Add | dht/routing_table.go:69-97 | the in-place `add` does what the table function says |
| RoutingTableImpl.RoutingTable.Trim | dht/routing_table.go:90-96 | the in-place eviction loop does what its function says |
| RoutingTableImpl.RoutingTable.Get | dht/routing_table.go:99-107 | the first n nodes in heap order, all for n = 0 |
| RoutingTableImpl.RoutingTable.GetBest | dht/routing_table.go:99-107 | after any run with max at least 2, `get(1)` returns an accepted node attaining the best distance |
| RoutingTableImpl.RoutingTable.Flush | dht/routing_table.go:109-115 | flushing leaves the empty table |
| RoutingTableImpl.RoutingTable.IsEmpty | dht/routing_table.go:117-121 | says whether the table has no items |
| Codec.Bytes2Int | bt/worker.go:386-398 | up to eight bytes read big-endian into a signed 64-bit number, more are an error |
| Codec.Int2Bytes | krpc/krpc.go:166-181 | the byte loop writes the two's complement form without leading zero bytes |
| Codec.IntRoundTrip | krpc/krpc.go:166-181 | `bytes2int` after `int2bytes` is the identity on all int64 values |
| Codec.IntBytesShortest | krpc/krpc.go:166-181 | no shorter byte string denotes the value |
| Codec.BytesRoundTrip | bt/worker.go:386-398 | `int2bytes` after `bytes2int` strips exactly the leading zeros of 1 to 8 bytes |
| CompactAddr.EncodeCompactNodeAddr | krpc/krpc.go:143-164 | the filled buffer is the parsed address and port |
| CompactAddr.CompactRoundTrip | krpc/krpc.go:132-164 | encoding the text of any 6-byte address gives back its bytes |
| CompactAddr.CompactTextInjective | krpc/krpc.go:132-141 | different 6-byte addresses have different texts |
| CompactAddr.QuadAndPort | krpc/krpc.go:143-164 | four octets and any text of digits encode to the octets and the port, high byte first, a port that is too large being the largest |
| CompactAddr.LongRoundTrip | krpc/krpc.go:132-164 | with a parser that undoes the printing, 18 bytes come back from their text, but a mapped IPv4 address as its six bytes |
| CompactAddr.SplitIff | krpc/krpc.go:145-149 | exactly the texts of a host without colons, or of a bracketed one, and a port are split, and into those parts |
| CompactAddr.ExampleText | krpc/krpc_test.go:8-31 | the text of the address c0a801011ae1 is 192.168.1.1:6881 |
| Framing.FramingRoundTrip | bt/worker.go:276-303 | any sequence of frames reads back as sent, empty bodies included, with nothing left over |
| Framing.ReadFrames | bt/worker.go:276-303 | the same with anything after the frames |
| Framing.FrameReadsBackIffShort | bt/worker.go:295-303 | a body reads back exactly if it is shorter than 2^32 bytes |
| Framing.FrameHeader | bt/worker.go:295-303 | the header is the length in four bytes, the most significant first |
| Worker.Read | bt/worker.go:266-273 | copies exactly the bytes asked for, or fails with those there were |
| Worker.ReadMessage | bt/worker.go:276-292 | puts the first body of the input into an empty buffer, or fails without a whole frame |
| Worker.SendMessage | bt/worker.go:295-303 | writes one frame |
| Worker.Relay | bt/worker.go:276-303 | messages sent one by one are read one by one |
| Metadata.IdleIff | bt/worker.go:168-226 | exactly keepalives, other message types and extended messages of another type are passed over |
| Metadata.RunConsistent | bt/worker.go:162-248 | while a run goes on, the pieces are the last payloads sent for them, with the right lengths |
| Metadata.Soundness | bt/worker.go:162-263 | a completed run has exactly the announced size, within the limit, every block in its place |
| Metadata.FilledStaysFilled | bt/worker.go:235-244 | a filled piece never becomes unfilled |
| Metadata.HandshakeOnce | bt/worker.go:189-207 | a run that goes on has accepted one extended handshake if the pieces are known and none otherwise; another one fails it |
| Metadata.Completeness | bt/worker.go:199-248 | blocks in any order, repeated or mixed with other messages, finish exactly with the last missing one and give the metadata |
| Metadata.FullLastBlock | bt/worker.go:239-242 | with a full last block the run waits for that block and then fails |
| Metadata.FetchesIffPartialLastBlock | bt/worker.go:235-248 | full honest delivery succeeds exactly if the size is no multiple of the block size |
| Metadata.NeverCompletes | bt/worker.go:199-248 | for a size that is not positive or is a multiple, no run completes whatever is sent |
| Metadata.RunPanicsIff | bt/worker.go:113-116 | a run ends without result and without error exactly if it meets a handshake for a negative number of pieces, or data of the right length for a piece or from an index out of range |
| Metadata.RunFailsIff | bt/worker.go:168-242 | and with an error exactly if it meets a broken extended message, one before the handshake, a second or unacceptable handshake, or data of the wrong length |
| Metadata.PieceOutOfRangePanics | bt/worker.go:235-244 | a full block for a piece past the last one is such a message |
| Worker.AllFilled | bt/worker.go:256-263 | the loop decides whether no piece is empty |
| Worker.GetUTMetaSize | bt/worker.go:338-363 | message id, size and errors of the extended handshake |
| Worker.StorePiece | bt/worker.go:233-248 | the length checks, the store and the join follow the machine |
| Worker.OnExtended | bt/worker.go:210-248 | an extended message follows the machine |
| Worker.Dispatch | bt/worker.go:172-251 | one message follows the machine, leaves the buffer empty, and starts the requests it should |
| Worker.FetchLoop | bt/worker.go:162-253 | the loop's outcome is that of the machine on the frames of the input, the requests it starts are those due, and it sends nothing itself |
| Worker.FetchMetadata | bt/worker.go:103-253 | the outcome of a fetch, what it sends and the requests it starts, as functions of all bytes received |
| Worker.FetchReturnsMetadata | bt/worker.go:143-253 | from handshake bytes to result, an honest peer's blocks in any order give the metadata, every block having been asked for once |
| Worker.FetchSound | bt/worker.go:103-263 | a fetch that returns metadata had the right handshake from its peer, and returns what the messages announced and carried, each block in its place |
| Worker.FetchEndsIff | bt/worker.go:103-253 | a fetch returns an error exactly without that handshake, at a message that fails the run, and when the input ends before the last block; it panics exactly at a message that does |
| Worker.FetchStartsIff | bt/worker.go:189-210 | a fetch starts requests, once, exactly if a handshake made the pieces known |
| Worker.SendHandshake | bt/worker.go:306-314 | the three copies fill the 68 bytes with prefix, torrent and id |
| Worker.RequestPieces | bt/worker.go:366-383 | one frame per piece, in order, out of one buffer, up to the first request that does not fit it |
| Requests.AcceptedIff | bt/worker.go:147-151 | exactly a handshake by the name of the protocol with the extension bit set is accepted |
| Requests.HandshakeReads | bt/worker.go:306-323 | what is sent is such a handshake, with the torrent and the id in their places |
| Requests.ExtHandshakeReads | bt/worker.go:325-335 | its reader finds an extended handshake that asks for ut_metadata under id 1 |
| Requests.PeerReadsRequests | bt/worker.go:366-383 | the peer reads one request per piece, in order, under the message id it announced, and nothing else |
| Requests.StartedOnce | bt/worker.go:189-210 | requests are started at most once, for exactly the pieces of the session, under the ut_metadata id in the dictionary of a received handshake; a completed run has asked for every block of its result |
| Handoff.ReachableInv | cmd/dhtsearch/main.go:157-175 | the dispatcher holds a channel exactly when its worker waits on it, at most one does, workers are conserved |
| Handoff.PeersConserved | cmd/dhtsearch/main.go:157-175 | peers from the store are received in order, each once, or are still pending |
| Handoff.OnePeerAtATime | bt/worker.go:71-100 | a worker is one receipt ahead of its finished fetches exactly while it fetches, and it fetches the peer it received last |
| Handoff.Progress | cmd/dhtsearch/main.go:157-175 | with a worker in the system and peers pending, some step is enabled |
| Handoff.FreeWorkerIsServed | cmd/dhtsearch/main.go:166-173 | no pending peer waits for a fetch while any worker is free: whichever it is can be handed the next |
| Handoff.BatchDrains | cmd/dhtsearch/main.go:166-173 | every interleaving hands out the batch in exactly the same number of steps |
| Node.RecordsOfFlatten | dht/node.go:407-410 | cutting a node list gives exactly the records it was made of, in order |
| Node.FlattenOfRecords | dht/node.go:399-410 | a list of a proper length is cut without leaving a byte |
| NodeLists.ListedNodesEnter | dht/node.go:393-427 | with room, every listed foreign node of either family that resolves and has a port is in the table under its address |
| NodeLists.OnlyRecordListsCount | dht/node.go:399-403 | what is no concatenation of records changes no table and blacklists its sender |
| NodeLists.PassKeepsAllIffRoom | dht/node.go:408-426 | one pass keeps every old address and every eligible new one exactly if they fit the table together |
| NodeLists.DoublePassIsSingle | dht/node.go:350-357 | handling a node list twice is handling it once when all addresses fit, or when only one in the list is worth keeping |
| NodeLists.DoublePassWithFreePlaces | dht/node.go:350-357 | in particular when current size plus record count is within the maximum |
| DoublePassCounts.DoublePassExact | dht/messages.go:123-127 | for given numbers of all and of worthy addresses and a maximum, two passes equal one over every table and list exactly if all fit or at most one is worthy |
| DoublePassCounts.FailsWithRoomForTwo | dht/messages.go:123-127 | for max at least 2 and any other numbers, a table of IPv4 addresses and the bytes of a list for which two passes differ from one |
| DoublePassCounts.FailsWithRoomForOne | dht/messages.go:123-127 | the same for a table of one |
| DoublePassCounts.TwoRecordsDiffer | dht/messages.go:123-127 | the smallest case: a list of 52 bytes on a full table of two |
| NodeRuns.RunKeepsTable | dht/node.go:112-373 | over every run, packets arriving at any moment of a neighbour round, the table is valid between rounds and wrong within one only in distances of overwritten nodes |
| NodePackets.DueAnswers | dht/messages.go:11-74 | which packets are due a reply, to whom it goes and every field of it: our id to a ping; to get_peers an id sharing 80 bits with the torrent, a token of its first two bytes and no nodes |
| NodePackets.ErrorIff | dht/node.go:242-390 | exactly which packets make the call return an error |
| NodePackets.BlacklistIff | dht/node.go:267-271 | a packet blacklists its sender exactly if its handler returns an error or its node list is no sequence of records of 26 bytes, or 38 for IPv6, and no one else |
| NodeRuns.RunBlacklistIff | dht/node.go:179-271 | over every run an address is blacklisted exactly if such a packet or a failed write put it there and it has not been forgotten since |
| NodePackets.PacketAdds | dht/node.go:288-373 | a packet adds to the table, one by one, the listed nodes twice over and then its sender, and does nothing else to it |
| NodeRuns.RepliesFollowPackets | dht/node.go:112-373 | over every such run the replies are those due, in packet order, at most one per packet |
| NodePackets.SenderEnters | dht/node.go:313-371 | whoever sends an understood query or a response with nodes or peers, under a foreign id, is in the table afterwards, within a round or not, for a maximum of at least 2 |
| NodePackets.PacketCrashesIff | dht/node.go:242-390 | a packet makes a handler panic exactly if its sender is in good standing and it is an otherwise proper get_peers without a transaction id, a response whose peers are not all strings, or an error of two parts that are not a number and a string |
| NodePackets.SomePacketsCrash | dht/node.go:376-390 | two packets that bring any node down |
| NodeRuns.RunCrashesIff | dht/node.go:112-141 | a run stops exactly if one of its events is such a packet in the state it meets |
| NodeRuns.SkippedIffNear | dht/node.go:220-224 | a round's overwritten id equals our own exactly at distance 80 or more |
| NodeRuns.RoundEffect | dht/node.go:149-164 | from tick to flush, with packets at any moment, a round sends exactly one find_node to each node below distance 80 it took from the table, which its recipient reads as one with the claimed id, and to no one else, and empties the table |
| NodeRuns.BootstrapEffect | dht/node.go:166-177 | bootstrapping, with packets at any moment, sends every router exactly one find_node under our own id, and no other query |
| NodeRuns.EmptyRoundReaches | dht/node.go:149-177 | so does a round on an empty table with nothing in between, as the loop is proved to run it |
| NodeRuns.RoundSendsNoMore | dht/node.go:149-164 | the number of queries of a round is the number of such nodes |
| NodeRuns.UninterruptedRound | dht/node.go:149-177 | the steps of a round, or of bootstrapping, with nothing in between amount to the round function the loop is proved to follow |
| Interleaving.OverwriteSpoilsIffNear | dht/node.go:156-159 | overwriting the id of an entry makes its cached distance wrong exactly at 80 or more |
| Interleaving.OverwriteKeepsValidIffFar | dht/node.go:156-159 | so an overwrite keeps the table's own invariant exactly below 80 |
| Interleaving.InterleavedRunsStayStructured | dht/node.go:156-160 | however a round's overwrites interleave with adds, heap, map and bound stay right, and only entries turned into our own id have a wrong distance |
| Interleaving.FlushRestores | dht/node.go:160 | after the flush that ends a round, the table goes on as in an ordinary run |
| NodeImpl.DhtNode.OnPingQuery | dht/messages.go:11-20 | queues the pong or refuses |
| NodeImpl.DhtNode.OnGetPeersQuery | dht/messages.go:22-74 | queues the reply with the neighbour id, refuses, or panics |
| NodeImpl.DhtNode.ProcessFindNodeResults | dht/node.go:393-427 | the record loop adds the records of the list, or blacklists the sender |
| NodeImpl.DhtNode.HandleRequest | dht/node.go:288-331 | a query follows the node function |
| NodeImpl.DhtNode.HandleResponse | dht/node.go:334-373 | a response follows the node function, both passes included |
| NodeImpl.DhtNode.HandleError | dht/node.go:376-390 | an error packet changes nothing, and is refused or panics by its parts |
| NodeImpl.DhtNode.ProcessPacket | dht/node.go:242-272 | a packet follows the node function, a refused one blacklisting its sender; an error is returned exactly for unreadable, blacklisted and refused packets |
| NodeImpl.DhtNode.BootstrapAll | dht/node.go:166-177 | the loop queues the queries of bootstrapping |
| NodeImpl.DhtNode.NeighbourRound | dht/node.go:149-164 | a tick follows the round function, ids being overwritten on the way |
| NodeImpl.DhtNode.QueryAll | dht/node.go:156-159 | the query loop, whether or not nodes share id arrays |
| Slab.Pool.constructor | dht/slab.go:9-15 | a new slab queues all its blocks, each whole and distinct |
| Slab.Pool.Alloc | dht/slab.go:17-19 | hands out a whole block that nobody holds, and waits exactly while all blocks are outstanding |
| Slab.Pool.Free | dht/slab.go:21-25 | there is always room; the slab has whole blocks only afterwards exactly if the slice starts at its block's first byte |

## Left out
- Moments within one add, `get`, overwrite or flush: each is one step of a run. Any slot may turn out to hold the node that a round asks, or none, as nodes can be evicted and enter again meanwhile.
- Which of two tables with the same counts, and too little room for them, agrees with a second pass over a list.
- Dialling, deadlines and failing writes; the requests a fetch starts are written by `RequestPieces` beside the loop, up to where the connection is closed.
- The parsing and printing of IPv6 text, which are parameters.
- `onAnnouncePeerQuery` beyond its effect on the table: the announced peer and the implied port only feed a callback.
- Eviction does not remove the farthest entry and `get(n)` is a heap prefix, not the n closest; nothing of the kind is claimed.
- Locking, the rate limiter, tickers, logging and the packet writer, except that a failed write blacklists an address.
- The bound of 1024 on the outgoing queue: it is an unbounded log here, so a full queue never blocks a handler.
- The ARC cache: the blacklist is a set that may forget any addresses at any time.
- SHA-1 and random ids; `GenInfohash` and `NewTransactionID` are values from outside.
- Storage, tagging, options, flags, the HTTP service and `TorrentFromMetadata`.
