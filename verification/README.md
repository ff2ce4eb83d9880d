# echofog-core, verified

A Dafny 4.11 model of the core of echofog-core, a peer-to-peer messenger, with proofs about it.
`dafny verify dfyconfig.toml` checks everything. Four parts of the system are modelled.

**Gossip flood** (`Gossip`, `GossipRuns`, `GossipFlood`, `GossipRounds`, `GossipLate`, `GossipLine`).
`Gossip.Manager` is the manager of one node. `Gossip.State` is a whole network of them: per node the
messages marked, plus the copies in flight and the calls that stand between the check under the read lock
and the mark under the write lock. A step is one critical section; copies are delivered in any order.
Marking and fanning out are one step because a copy in flight may be delayed for as long as the goroutine
that sends it. `Run` starts from any set of broadcasts about to be made, so every result holds for any
number of messages at once.

**Content-addressed files** (`Wire`, `Utf8`, `Schema`, `SchemaLayout`, `Storage`, `MerkleDag`,
`MerkleProofs`, `MerkleStore`, `Dht`, `DhtResave`, `DhtFilesOverlap`). The Protocol Buffers codec is
written out, so stored bytes are really encoded and decoded. SHA-256 is an arbitrary function to 32 bytes:
every guarantee reads "this holds, or here are two different blobs with one hash". The key/value store is
a map whose writes and reads may fail at any time; it counts its failures, and without one every operation
does exactly what is specified.

**Kademlia** (`Kademlia`, `Routing`, `DhtTable`, `DhtOverlap`). The bucket index is compared with the XOR
distance of 256-bit IDs; the encoded buckets are compared with a plain table of the peers saved, one save
after another (`DhtTable`) and with reads and writes of several saves interleaved (`DhtOverlap`).

**Transport and registry** (`Framing`, `StreamPipe`, `StreamProgress`, `Handshake`, `HandshakeRuns`,
`HandshakeOwner`, `Swarm`). Frames over byte streams that arrive in arbitrary pieces; the goroutines of a
bidirectional stream; two parties running the handshake; the registry of connected peers, one critical
section at a time.

## What the code does not give

- A broadcast with hop limit H need not reach every node within H - 1 links: a node marks a message
  before it looks at the hop limit, so a copy that took a detour can suppress a better one. Every
  order of delivery on every connected network of n nodes reaches them all exactly when n <= H or H <= 2
  (`GossipLate.BallIsAlwaysMarkedExactlyWhen`, `GossipLate.LateCopyIsSuppressed`). At most H nodes are all
  reached (`GossipFlood.Coverage`), and for no larger number is that promised
  (`GossipLine.LargerNetworksAreNotCovered`). Round by round, the flood reaches exactly the ball of
  radius H - 1 (`GossipFlood.SettledFloodIsTheBall`).
- A broadcast whose origin field names a node other than the originator never reaches that node,
  on any network and with any hop limit (`GossipFlood.OriginIsNeverReached`).
- A broadcast with hop limit 0 is not dropped; the 32-bit limit wraps (`GossipFlood.ZeroHopLimitWraps`).
  With a limit of at least 1 it never does (`GossipFlood.HopLimitIsPathLength`).
- Saving a file can return neither a key nor an error. After any run, failed saves included, a
  save during which the store does not fail does so exactly when the file equals, byte for byte, one of
  the encoded nodes in the store, whichever save wrote it
  (`DhtResave.SaveReturnsNothingExactlyWhen`); every other file saved before gets its key again
  (`DhtResave.ResaveReturnsTheKey`). A file can be one of its own nodes, for every hash
  (`DhtResave.ResaveCanReturnNothing`), and saving one file can hide another that had a key
  (`DhtResave.SavedFileCanBeHidden`). All but the self-encoding file is up to a collision among the bytes involved.
- The handshake accepts a party's own echo: nothing in a response names the side it comes from
  (`Handshake.EchoIsAccepted`). A caller has to compare the accepted key with its own.
- Nothing in a response says who passed it on. If the bytes the other side presented hold no signature that
  verifies and that its key's owner never made, the owner of the accepted key signed this side's own nonce
  (`HandshakeOwner.AcceptedKeySignedTheNonce`), and no more than that is known. A nonce is signed as it came,
  whatever its length, with the own key behind it and nothing in front (`Handshake.AnswersInit`).
- A frame carries its message back exactly when the type fits a byte and the length fits 32 bits
  (`Framing.FrameRoundTripExactly`).
- A panic that nothing recovers ends the process. Reading frames does so exactly when four zero bytes, the
  header of an empty frame, follow the complete messages (`Framing.PanicsExactlyWhen`,
  `Framing.EmptyFrameEndsTheReader`, `Framing.ReadFrames`). The handshake does so exactly when the first
  frame is empty, or it starts a handshake and the second is empty or a response whose key has fewer than 32
  bytes (`Handshake.CrashesExactlyWhen`, `Handshake.ShortKeyCrashes`). Relaying a message does so exactly when
  its ID is valid and unseen, its limit is not used up, there is a peer, and its origin field has fewer than
  32 bytes; the message is marked by then (`Gossip.Manager.Broadcast`). Streams that only hold frames of
  messages never contain an empty one (`StreamPipe.ReaderNeverPanics`).
- Saving a peer reads a bucket and writes it back without a lock, so of two saves of one index that both
  read first, one peer is lost although both report success (`DhtOverlap.FirstUpdateIsLost`). The stored
  peers number the successful saves exactly when no save wrote over one that went through after it had read
  (`DhtOverlap.ConservedExactlyWhen`).

## Model

| member | source | states |
|---|---|---|
| `Gossip.Manager.CheckSeen` | internal/p2p/gossip/manager.go:61-63 | the read-locked check answers whether the ID is marked |
| `Gossip.Manager.MarkSeen` | internal/p2p/gossip/manager.go:31-37 | the write-locked section reports whether the ID was marked and leaves it marked |
| `Gossip.Manager.Broadcast` | internal/p2p/gossip/manager.go:26-54 | a message with a 16-byte ID not seen is marked under that ID, its limit decremented in place with 32-bit wrap, and one copy goes to each peer but the one the origin field names, unless the limit reached zero; anything else changes nothing; it panics exactly when there is a peer to compare with an origin field under 32 bytes |
| `Gossip.Manager.HandleIncoming` | internal/p2p/gossip/manager.go:56-70 | without interference, an incoming message is relayed as a broadcast is, once, and panics when that would |
| `Gossip.RelayIsBroadcast` | internal/p2p/gossip/manager.go:26-54 | a relay step of the network marks and sends at its node what the manager does, and touches no other node |
| `GossipRuns.StepRefinesAtomic` | internal/p2p/gossip/manager.go:61-69 | each step across the lock gap is one atomic check-and-mark or changes nothing |
| `GossipRuns.RunRefinesAtomic` | internal/p2p/gossip/manager.go:31-37 | every run with the gap between check and mark ends where a run without the gap ends |
| `GossipRuns.RunSendsExactly` | internal/p2p/gossip/manager.go:31-53 | over a whole run each marked message was fanned out exactly once by its node, and nothing else was sent |
| `GossipRuns.SendsAreBounded` | internal/p2p/gossip/manager.go:44-53 | no copy is sent twice, and the copies of one message never exceed the sum of the peer-set sizes |
| `GossipRuns.RunsTerminate` | internal/p2p/gossip/manager.go:36-42 | every run of finitely many messages has a bounded number of steps, whatever their hop limits |
| `GossipRuns.UnfinishedCanStep` | internal/p2p/gossip/manager.go:56-70 | while any copy is left some step is possible, so runs end quiescent |
| `GossipRuns.RunsToQuiescence` | internal/p2p/gossip/manager.go:56-70 | from any state whose copies are for nodes of the network, some run goes on until nothing is left to handle |
| `GossipFlood.HopLimitIsPathLength` | internal/p2p/gossip/manager.go:39-42 | a copy still to be handled, in flight or past the check, carries H minus the length of the path it travelled: H at the originator's call, 1 to H - 1 elsewhere; decrementing it does not wrap |
| `GossipFlood.OriginIsNeverReached` | internal/p2p/gossip/manager.go:46-50 | when the origin field names a node other than the originator, no run on any network marks the message there |
| `GossipFlood.ZeroHopLimitWraps` | internal/p2p/gossip/manager.go:39-42 | a broadcast with hop limit 0 leaves with the largest 32-bit limit |
| `GossipFlood.Reach` | internal/p2p/gossip/manager.go:39-53 | in any schedule no node farther than H - 1 links marks the message |
| `GossipFlood.RunKeepsNothingLost` | internal/p2p/gossip/manager.go:46-53 | each copy a marked node sent is still on its way or its target is marked |
| `GossipFlood.Ancestors` | internal/p2p/gossip/manager.go:36-42 | first arrivals form a tree: a node that accepted hop h has H - h marked ancestors |
| `GossipFlood.Coverage` | internal/p2p/gossip/manager.go:26-54 | on a network of at most H nodes reachable from the originator, every settled state of every run has all nodes marked exactly when the origin field names the originator or no node; H is 20 at the caller in internal/services/messenger/service.go |
| `GossipFlood.QuiescentMeansCovered` | internal/p2p/gossip/manager.go:26-54 | when nothing is left to handle, every node of a network of at most H nodes has the ID in its cache |
| `GossipFlood.FloodIsBreadthFirst` | internal/p2p/gossip/manager.go:39-53 | delivered round by round, the nodes that accepted the message by round k are those within k links |
| `GossipFlood.SettledFloodIsTheBall` | internal/p2p/gossip/manager.go:39-53 | delivered round by round, the final marked set is exactly the ball of radius H - 1 |
| `GossipRounds.RoundsToQuiescence` | internal/p2p/gossip/manager.go:36-70 | from any state whose copies are for nodes of the network, some round-by-round run goes on until nothing is left to handle |
| `GossipRounds.ReachIsAttained` | internal/p2p/gossip/manager.go:39-53 | on every network, from every originator, some run marks exactly the nodes within H - 1 links |
| `GossipLate.LateCopyIsSuppressed` | internal/p2p/gossip/manager.go:36-42 | for every H of at least 3 and every n above H, a run on a connected symmetric network of n nodes ends quiescent with a node two links away unmarked |
| `GossipLate.RunKeepsSuppressed` | internal/p2p/gossip/manager.go:36-42 | a node whose every neighbour accepted the message with its last hop is never marked afterwards |
| `GossipLate.BallIsAlwaysMarkedExactlyWhen` | internal/p2p/gossip/manager.go:36-53 | every settled run on every connected network of n nodes marks all nodes within H - 1 links exactly when n <= H or H <= 2 (the origin field naming the originator or no node) |
| `GossipLine.LargerNetworksAreNotCovered` | internal/services/messenger/service.go:71 | for every H and every n above H, some connected symmetric network of n nodes has a node no run marks |
| `Wire.VarintRoundTrip` | internal/p2p/dht/dht.proto:15 | a 64-bit number written as a base 128 varint is read back, with whatever follows it |
| `Wire.VarintFits` | internal/p2p/dht/dht.proto:15 | a varint of more than 64 bits is malformed |
| `Wire.FieldNumbersAreValid` | internal/p2p/dht/dht.proto:6-30 | records are read with field numbers 1 to 2^29 - 1 only |
| `Wire.FieldsRoundTrip` | internal/p2p/dht/dht.proto:6-30 | any list of records survives serialization |
| `Schema.NodeRoundTrip` | internal/p2p/dht/dht.proto:6-16 | every MerkleNode survives marshalling, defaults omitted |
| `Schema.EntryRoundTrip` | internal/p2p/dht/dht.proto:24-30 | every PeerStoreEntry with a UTF-8 address survives marshalling |
| `Schema.BucketRoundTrip` | internal/p2p/dht/dht.proto:19-22 | every KBucket with UTF-8 addresses survives marshalling, nested entries included |
| `Utf8.Utf8Exactly` | internal/p2p/dht/dht.proto:27 | exactly the concatenations of 1 to 4 byte encodings of Unicode scalar values may stand in a `string` |
| `Utf8.AsciiIsUtf8` | internal/p2p/dht/dht.proto:27 | every ASCII address may |
| `SchemaLayout.NodeLayout` | internal/p2p/dht/dht.proto:6-16 | tags, order and omitted defaults of a stored node |
| `SchemaLayout.EntryLayout` | internal/p2p/dht/dht.proto:24-30 | tags, order and omitted defaults of a stored entry |
| `SchemaLayout.BucketLayout` | internal/p2p/dht/dht.proto:19-22 | tags and order of a stored bucket, which exists exactly when every address is UTF-8 |
| `SchemaLayout.EntryReadsBackExactlyWhen` | internal/p2p/dht/dht.proto:24-30 | an entry reads back as itself if its address is UTF-8 and not at all otherwise |
| `Storage.KeyValueStore.Set` | internal/storage/badger_storage.go:73-75 | a write applies whole or, counted as a failure, leaves the store as it was |
| `Storage.KeyValueStore.Get` | internal/storage/badger_storage.go:77-79 | a read yields the stored value or reports absence, or fails and is counted |
| `Storage.KeyValueStore.Exists` | internal/storage/badger_storage.go:108-120 | presence is reported exactly, unless the read fails, which counts as absence |
| `MerkleStore.MerkleDagStorage.SaveAndHashData` | internal/p2p/dht/merkle_dag.go:24-32 | data is stored under the prefix and its hash, or a write failed and nothing changes |
| `MerkleStore.MerkleDagStorage.CalculateFileChunk` | internal/p2p/dht/merkle_dag.go:39-71 | the file's blobs are written in order up to the first failing write, and its key is returned exactly when none failed |
| `MerkleStore.MerkleDagStorage.FindFileByID` | internal/p2p/dht/merkle_dag.go:73-106 | the loop over the links returns what the links assemble to; only a failed read makes it report one |
| `MerkleDag.StoredFileIsFound` | internal/p2p/dht/merkle_dag.go:73-106 | a file whose blobs are all stored is found whole under its key: empty, exact, multiple or ragged |
| `MerkleDag.RoundTrip` | internal/p2p/dht/merkle_dag.go:39-106 | saving a file and reading its key gives the file, or two of its blobs collide |
| `MerkleDag.SavingTwiceIsSavingOnce` | internal/p2p/dht/merkle_dag.go:39-71 | repeating a save changes nothing, or two of the blobs collide |
| `MerkleProofs.Binding` | internal/p2p/dht/merkle_dag.go:39-71 | files with one key are equal or a collision is exhibited, for all four combinations of small and large |
| `MerkleProofs.SavingKeepsDagInv` | internal/p2p/dht/merkle_dag.go:48-70 | a save, complete or cut short anywhere, leaves every entry under its own hash and every META_LINK complete, absent collisions |
| `MerkleProofs.EveryEntryIsWellFormed` | internal/p2p/dht/merkle_dag.go:113-128 | every entry decodes; links lead to FILE_CHUNK nodes, all but the last full; Size is the sum of the child sizes and the file length |
| `MerkleProofs.ForeignWriteKeepsDagInv` | internal/p2p/dht/merkle_dag.go:12 | writes under other prefixes do not disturb the file store |
| `MerkleProofs.StoredNodeIsRead` | internal/p2p/dht/merkle_dag.go:73-106 | any stored node is answered with its data, or, if it is a META_LINK without data, with that of its links in order, or not found if one is absent |
| `MerkleProofs.AssembleExactly` | internal/p2p/dht/merkle_dag.go:92-102 | links give the concatenated data of their children exactly when all are there |
| `MerkleProofs.StoredChunkIsFound` | internal/p2p/dht/merkle_dag.go:105 | a stored chunk is found under its own hash |
| `MerkleProofs.AbsentChunkIsMissing` | internal/p2p/dht/merkle_dag.go:94-97 | a file one chunk of which is absent is not found |
| `MerkleProofs.AbsentIsMissing` | internal/p2p/dht/merkle_dag.go:75-77 | an absent key is an error |
| `MerkleProofs.UndecodableIsCorrupt` | internal/p2p/dht/merkle_dag.go:80-83 | an entry that does not decode is an error |
| `Dht.DHT.SaveFile` | internal/p2p/dht/dht.go:50-61 | if the store does not fail, nothing if the hash of the raw file is a key already, else all blobs written and the key; whenever it fails, a front of the blobs, and an error only after a failure |
| `Dht.DHT.SavePeer` | internal/p2p/dht/dht.go:38-48 | if the store does not fail, the specified save to the bucket of the index and its outcome; else nothing changes |
| `Dht.DHT.GetNearPeers` | internal/p2p/dht/dht.go:33-36 | the peers of the bucket the ID falls into, or an error if there is no readable one or the read fails |
| `Dht.DHT.GetFileChunk` | internal/p2p/dht/dht.go:63-65 | what is found under the hash; only a failed read makes it report one |
| `Dht.Durability` | internal/p2p/dht/dht.go:50-65 | a key handed out gives its file back after any later run of file and peer saves, failed ones included, or two blobs collide |
| `Dht.RunKeepsDagInv` | internal/p2p/dht/dht.go:19-31 | any run of both kinds of saves on the shared store keeps the file store well formed, or two blobs collide |
| `Dht.TableKeysAreNotDagKeys` | internal/p2p/dht/routing_table.go:80-96 | the key spaces of buckets and files are disjoint |
| `DhtResave.SaveReturnsNothingExactlyWhen` | internal/p2p/dht/dht.go:50-61 | after any run of saves, failed ones included, a save returns nothing exactly when the file equals a node stored at first or written by the run, or byte strings collide |
| `DhtResave.RunAddsNodesWritten` | internal/p2p/dht/merkle_dag.go:24-32 | the nodes in the store are those there at first and those that reached it during the run |
| `DhtResave.ResaveReturnsTheKey` | internal/p2p/dht/dht.go:50-61 | a file some save of the run returned a key for gets that key again, nothing changed, exactly when it equals no stored node |
| `DhtResave.ResaveAtOnceReturnsTheKey` | internal/p2p/dht/dht.go:50-61 | in any store, with nothing saved in between, the second save returns the key exactly when the file is not one of its own nodes |
| `DhtResave.SaveOnceExtendsRun` | internal/p2p/dht/dht.go:50-61 | a save without failures is one more event of a run |
| `DhtResave.SelfEncodingIsItsOwnChunk` | internal/p2p/dht/merkle_dag.go:122-128 | one file of 262152 bytes is the encoding of its own first chunk |
| `DhtResave.ResaveCanReturnNothing` | internal/p2p/dht/dht.go:51-54 | saving that file twice returns nothing the second time, whatever the hash |
| `DhtResave.SavedFileCanBeHidden` | internal/p2p/dht/dht.go:51-54 | seven bytes that have a key get none any more once the file [1] is saved, though they are not among their own nodes |
| `DhtFilesOverlap.UninterruptedSave` | internal/p2p/dht/merkle_dag.go:48-70 | a save with nothing in between is a run that writes what is specified and hands out the key |
| `DhtFilesOverlap.KeysStayGood` | internal/p2p/dht/dht.go:50-65 | however file saves interleave with each other and with the routing table, failed ones included, a key handed out gives its file back, or two nodes collide |
| `DhtFilesOverlap.InterleavingKeepsDagInv` | internal/p2p/dht/merkle_dag.go:48-70 | every interleaving keeps each entry under its own hash and each META_LINK complete, absent collisions |
| `Kademlia.GetBucketIndex` | internal/p2p/dht/kademlia.go:11-19 | the byte loop finds the leading zeros of the 256-bit XOR, capped at 255 |
| `Kademlia.IndexArithmetic` | internal/p2p/dht/kademlia.go:11-19 | for distinct IDs the XOR lies in [2^(255-b), 2^(256-b)); equal IDs give 255 |
| `Kademlia.IndexIsCommonPrefixLength` | internal/p2p/dht/kademlia.go:11-19 | the IDs agree on the first b bits and differ in the next |
| `Kademlia.IndexSymmetric` | internal/p2p/dht/dht.go:67-69 | the index does not depend on the order of the two IDs |
| `Kademlia.IndexUltrametric` | internal/p2p/dht/dht.go:67-69 | idx(a,c) is at least the smaller of idx(a,b) and idx(b,c), and equal to it when those differ |
| `Kademlia.HigherBucketIsCloser` | internal/p2p/dht/dht.go:67-69 | a peer in a higher bucket is strictly closer than any in a lower one, the capped bucket included |
| `Routing.IntToKey` | internal/p2p/dht/routing_table.go:88-96 | the buffer filled in place is the prefix followed by the index as 64 big-endian bits |
| `Routing.KeyRoundTrip` | internal/p2p/dht/routing_table.go:98-101 | reading a key back gives its index, negative ones included |
| `Routing.TableKeyLayout` | internal/p2p/dht/routing_table.go:80-96 | the key is the prefix and the index as unsigned 64-bit number, big-endian |
| `Routing.RoutingTable.GetPeers` | internal/p2p/dht/routing_table.go:32-43 | the peers the blob decodes to, unless there is none, it does not decode, or the read fails |
| `Routing.RoutingTable.SaveInKBucket` | internal/p2p/dht/routing_table.go:45-78 | without a storage failure the specified save and its outcome; with one nothing changes |
| `Routing.SaveRefines` | internal/p2p/dht/routing_table.go:45-78 | a save succeeds exactly when there is room and the address is UTF-8; then it is an append in the abstract table, else the store is unchanged |
| `Routing.SaveRejects` | internal/p2p/dht/routing_table.go:64-70 | a bucket that does not decode or holds 20 peers is left as it is |
| `Routing.StoredBucketIsRead` | internal/p2p/dht/routing_table.go:32-43 | whatever bucket is stored, its peers are read; without one there is an error |
| `Routing.SavesCommute` | internal/p2p/dht/routing_table.go:80-96 | saves to different indices commute in store and outcome |
| `DhtTable.BucketsHoldTheSavedPeers` | internal/p2p/dht/routing_table.go:32-78 | after any run each blob decodes to its index and exactly the peers saved under it, at most 20, in order |
| `DhtTable.PeersAreConserved` | internal/p2p/dht/dht.go:38-48 | after any run the peers read back from the 256 stored buckets number one per successful save |
| `DhtTable.SaveSucceedsWhen` | internal/p2p/dht/routing_table.go:68-70 | without storage failures a save fails only for a full bucket or an address that is not UTF-8 |
| `DhtTable.BucketsHoldTheFirstTwenty` | internal/p2p/dht/routing_table.go:14 | without storage failures a bucket holds the first 20 peers tried with its index |
| `DhtOverlap.UninterruptedSave` | internal/p2p/dht/routing_table.go:45-78 | a save whose read and write have nothing in between is the specified save |
| `DhtOverlap.StepConserves` | internal/p2p/dht/routing_table.go:50-77 | a write keeps an index's stored peers equal in number to its successful saves exactly when they were and none went through since this save read |
| `DhtOverlap.ConservedExactlyWhen` | internal/p2p/dht/routing_table.go:45-86 | however saves interleave, the peers stored under an index number its successful saves exactly when none wrote over one that went through after it had read |
| `DhtOverlap.FirstUpdateIsLost` | internal/p2p/dht/routing_table.go:50-77 | two saves to an empty bucket that both read before either writes: both succeed and one peer is stored |
| `Framing.WriteLengthPrefix` | internal/network/length-prefix.go:8-17 | the buffer filled in place is the length in 32 bits followed by the data |
| `Framing.ReadLengthPrefix` | internal/network/length-prefix.go:19-37 | the payload of the announced length, or failure with the stream used up |
| `Framing.Reader.ReadFull` | internal/network/length-prefix.go:22 | the bytes read do not depend on how the transport splits them |
| `Framing.WriteFrame` | internal/network/quic_frame.go:5-14 | the type byte precedes the payload in one prefixed buffer; a failed write leaves a front of it |
| `Framing.ReadFrame` | internal/network/quic_frame.go:16-24 | the next message, an error, or a panic, which happens exactly when four zero bytes are next |
| `Framing.PanicsExactlyWhen` | internal/network/quic_frame.go:21 | reading a frame panics exactly when its header is four zero bytes |
| `Framing.ReadFrames` | internal/network/stream.go:70-74 | reading until an error yields the messages of the whole stream; on any front of a stream of frames that is its complete messages, then an error with every byte used up; a panic comes exactly when four zero bytes follow the complete messages |
| `Framing.EmptyFrameEndsTheReader` | internal/network/quic_frame.go:21 | four zero bytes behind any frames, whatever follows, panic the reader once it has those messages |
| `Framing.AcceptReadyFrame` | internal/network/quic_frame.go:32-36 | accepts exactly when the next byte is 2, and takes only that byte |
| `Framing.FrameRoundTripExactly` | internal/network/quic_frame.go:5-24 | a frame reads back as its message exactly when type and length fit their fields |
| `Framing.FrameLayout` | internal/network/length-prefix.go:8-17 | four bytes of length, most significant first, the low byte of the type, the payload |
| `Framing.CutStreamYieldsCompleteFrames` | internal/network/quic_frame.go:16-24 | a stream cut anywhere yields exactly its complete messages; the bytes after them give an error, not a message and not a panic |
| `Framing.StreamRoundTrip` | internal/network/quic_frame.go:5-24 | a stream of frames yields exactly the messages written, uses up every byte, then gives an error |
| `Framing.TornFrameIsSpliced` | internal/network/stream.go:91-92 | a frame cut inside its payload and followed by other bytes reads as a message with a borrowed tail, and as the message sent exactly when those bytes are its tail |
| `StreamPipe.EventKeepsInv` | internal/network/stream.go:68-105 | each step of a loop, the application or the network keeps decoded messages a prefix of those sent |
| `StreamPipe.DecodesTheNext` | internal/network/stream.go:71 | a whole frame read is the next message enqueued |
| `StreamPipe.ReaderNeverPanics` | internal/network/stream.go:71 | no reachable read loop meets an empty frame |
| `StreamPipe.DeliveryIsAPrefix` | internal/network/stream.go:53-105 | in every reachable state what reached Incoming is a prefix, in order, of what was put on Outgoing, in both directions, and both buffers stay within 100 |
| `StreamPipe.BlocksExactlyWhen` | internal/network/stream.go:76-103 | sending, and delivering at the far side, block exactly on 100 messages not taken |
| `StreamPipe.ClosedSendsNoMore` | internal/network/stream.go:53-66 | once an endpoint is closed it puts no byte on the wire in any run |
| `StreamPipe.QuiescentMeansDelivered` | internal/network/stream.go:68-105 | never closed, no write failed and nothing left to do: everything sent was received |
| `StreamProgress.MoveLowersMeasure` | internal/network/stream.go:68-105 | each move of a loop or the receiving application brings the bytes under way nearer to their receiver |
| `StreamProgress.DirectionDelivers` | internal/network/stream.go:68-105 | from any reachable state of a direction that is neither closed nor broken, a bounded number of its own moves deliver all that was sent |
| `StreamProgress.HealthyStreamDelivers` | internal/network/stream.go:53-105 | every run that closed and broke nothing goes on to one where both applications received exactly what the other sent |
| `StreamProgress.ClosedLoopsEnd` | internal/network/stream.go:68-98 | from any reachable state in which an endpoint is closed, three steps at most end both of its loops |
| `Handshake.InitRoundTrip` | internal/network/handshake.go:13-28 | the nonce message survives marshalling |
| `Handshake.ResponseRoundTrip` | internal/network/handshake.go:88-102 | the response message survives marshalling |
| `Handshake.SendHandshake` | internal/network/handshake.go:13-28 | the nonce goes out in a handshake frame, or a failed write leaves a front of it |
| `Handshake.AcceptHandshake` | internal/network/handshake.go:63-103 | the answer is written exactly when the next frame starts a handshake, unless the write fails; an empty frame is a panic |
| `Handshake.CheckHandshakeResponse` | internal/network/handshake.go:30-61 | a key is accepted only with a valid signature over the own nonce and that key |
| `Handshake.AuthenticatePeer` | internal/network/quic.go:195-213 | unless a write fails, the verdict and all bytes written are those the input determines: a key is accepted exactly when the first frame starts a handshake and the second verifies against the own nonce |
| `Handshake.AcceptsExactlyWhen` | internal/network/quic.go:195-213 | for every input, a key is accepted exactly when the first frame starts a handshake and the second is a response with that key and a 64-byte signature that verifies over the own nonce and it |
| `Handshake.CrashesExactlyWhen` | internal/network/quic.go:195-213 | for every input, authentication panics exactly when the first frame is empty, or it starts a handshake and the second is empty or a response with a key under 32 bytes |
| `Handshake.ShortKeyCrashes` | internal/network/handshake.go:46-49 | answering the handshake with an empty response makes it panic |
| `Handshake.AnswersInit` | internal/network/handshake.go:77-102 | a nonce of any length is answered with a signature over it and the own key |
| `Handshake.AnswersExactlyWhen` | internal/network/handshake.go:63-103 | exactly the starts of handshakes are answered, each with the response to its nonce |
| `Handshake.AnswerReadsBack` | internal/network/handshake.go:82-102 | the answer decodes to the last 32 bytes of the private key, a signature over nonce and key, and the version |
| `Handshake.AcceptsResponse` | internal/network/handshake.go:46-56 | an honest answer is accepted with the answerer's key |
| `Handshake.HonestSideIsAccepted` | internal/network/quic.go:195-213 | authentication against what an honest side sends accepts that side's key and answers its nonce |
| `Handshake.EchoIsAccepted` | internal/network/quic.go:195-213 | a party that reads back its own bytes accepts its own key |
| `HandshakeOwner.CheckedSignatureOccurs` | internal/network/handshake.go:46-56 | the signature checked for an accepted key stood in the bytes read and verifies over the own nonce followed by that key |
| `HandshakeOwner.AcceptedKeySignedTheNonce` | internal/network/quic.go:195-213 | if no signature in the bytes read verifies without its key's owner having made it, the owner of an accepted key signed the own nonce followed by that key |
| `HandshakeOwner.OneSignatureIsEnough` | internal/network/handshake.go:82-86 | that hypothesis is met by an honest exchange whose accepted key ever signed one single string |
| `HandshakeRuns.StepKeepsInv` | internal/network/quic.go:195-213 | after every step what is on its way to a party is what the other sent and it has not consumed |
| `HandshakeRuns.Agreement` | internal/network/quic.go:195-213 | in no interleaving does a party fail, and a party past the check holds the other's public key |
| `HandshakeRuns.ReadyByteIsExact` | internal/network/quic.go:163-171 | when the acceptor waits for it, the ready byte is all that is left to read |
| `HandshakeRuns.ReadyStepTakesOneByte` | internal/network/quic_frame.go:32-36 | the acceptor is done exactly when the next byte is 2, and takes only that byte |
| `HandshakeRuns.NoDeadlock` | internal/network/quic.go:123-138 | until both parties are done some step is possible |
| `HandshakeRuns.BothFinish` | internal/network/quic.go:123-171 | every run is bounded, and one that cannot go on has both done with each other's keys and every byte read |
| `Swarm.StepKeepsInv` | internal/p2p/swarm.go:95-169 | each critical section keeps the registry invariant |
| `Swarm.EntriesSitUnderTheirKey` | internal/p2p/swarm.go:155-157 | every entry sits under the hash of its own peer's key |
| `Swarm.NoPeerLeaks` | internal/p2p/swarm.go:59-65 | each peer ever created is closed, current, or the one being registered |
| `Swarm.AtMostOneLivePeerPerId` | internal/p2p/swarm.go:97-101 | at any moment at most one live peer exists per ID |
| `Swarm.RemovedStaysGone` | internal/p2p/swarm.go:162-169 | in every run a removed entry is gone at once and comes back only by installing a peer under its ID |
| `Swarm.PeerSwarm.AddPeer` | internal/p2p/swarm.go:95-160 | the new peer replaces and closes the old one of its ID; all others are as before |
| `Swarm.PeerSwarm.RemovePeer` | internal/p2p/swarm.go:162-169 | the peer is closed, its entry gone, and every other peer and entry is as before |
| `Swarm.PeerSwarm.BanPeer` | internal/p2p/swarm.go:212-225 | the peer is closed, its entry stays, no other peer changes |
| `Swarm.PeerSwarm.GetAllPeers` | internal/p2p/swarm.go:177-185 | all active peers, each once |
| `Swarm.PeerSwarm.GetMyRandomPeers` | internal/p2p/swarm.go:194-210 | the requested number of different active peers, or all |
| `Swarm.Peer.constructor` | internal/p2p/peer.go:38-52 | a new peer is live and its ID is the hash of its key |

## Left out

- Gossip: the peer graph is fixed and no copy is lost; signing, sending and the swarm's transport are not part of the model. In the network `OriginId` has 32 bytes; `Gossip.Manager` takes any. Where the comparison with `OriginId` is concerned, the messenger fills in a public key, which names no node.
- Message IDs: a message whose ID is not 16 bytes is dropped by both entry points of the manager; the network model carries valid IDs only.
- Codec: group records are rejected where the library would skip unknown ones, and byte strings of 2^64 bytes or more are excluded; no Go slice is that long. Entries are assumed to fit in that length once encoded.
- Files: the capacity hint taken from a node's `Size` is not modelled; a node that was not written by this code could make it arbitrarily large.
- Storage: Badger's transactions, garbage collection and iteration; `Delete`, `FindValues` and the code that lists known peers.
- Concurrent DHT calls: a run of `Dht` and `DhtTable` is one call after another. Interleaved saves of peers are the subject of `DhtOverlap`, those of files of `DhtFilesOverlap`.
- Panics: the process ends where a panic is named; the step relation of `StreamPipe` lets the other loops go on, which only adds behaviour.
- Clocks, timeouts, QUIC, UDP and datagrams: replaced by byte streams that deliver in any pieces.
- Failed stream writes: the write loop ignores the error of `writeFrame` and goes on (internal/network/stream.go:92). `StreamPipe` assumes that the transport lets nothing through after a write that failed; if it did, later bytes would complete the torn frame (`Framing.TornFrameIsSpliced`).
- Streams: each goroutine is a step relation over values, because the loops run concurrently; the registration of streams in `PeerWrapper` is not modelled.
- Handshake: payloads of other kinds are recognized by their field number and not decoded; a signature scheme is any pair of functions; of the two parties' own private keys it is assumed that what they sign has 64 bytes and verifies under their last 32 bytes.
- Connections: that an event's ID is the hash of its key is what `DialEarly` and `AcceptConn` compute before they hand it on, and is assumed of events; bans are not persisted in the model.
- Dispatcher, session manager, discovery, services, configuration and cryptographic internals.
