# Verified models of WireGuard's core

Dafny models of the hard parts of a WireGuard distribution (the Go implementation, the command-line
tools and a configuration uploader) with proofs of what each part is for. Every file holds one module;
`dafny verify dfyconfig.toml` checks them all.

- **Routing.** `AddressBits`, `PrefixLinks`, `AllowedIps` and `RoutingTable` model the compressed trie of
  allowed IPs on the heap, with child slots, back pointers and per-peer lists, and prove that it answers as
  longest-prefix matching over plain maps after any sequence of changes. `PrefixLinks` is the shape of the
  trie as a value; `AllowedIps` keeps the heap in step with it.
- **Sessions.** `Noise` models the handshake over symbolic terms, `SessionIndices` the index table and the
  keypair slots, `Nonces` the allocation of nonces by interleaved senders, `Replay` the sliding window.
- **Offload.** `InternetChecksum`, `Segmentation`, `GroPackets` and `Gro` model checksums, the splitting of
  large packets and the merging of small ones, and prove that splitting undoes merging. `UdpBatches` does the
  same for datagrams at the socket.
- **The curve function.** `Words` models the branch-free word operations, `Field25519` the 51-bit limb arithmetic
  modulo 2^255 - 19 with its overflow bounds and both inversion chains. `Ladder` puts the whole of X25519 on top
  of it, over the 256 bits the code climbs, and proves that the extra bit only scales the point; with Fermat's
  little theorem from `Primes`, and 2^255 - 19 taken to be prime, the result is the one section 5 of RFC 7748 defines.
- **Configuration and limits.** `SyncConf`, `FragmentJoin` and `NetlinkFragments`, `RateLimiter`, `Encoding`, `Hex`
  and `ConfigConvert`. `Wrappers` has the option type.

State that the source updates in place is a class with fields or an array; loops are loops with invariants,
proved against specification functions. Integer widths are explicit: a subset type where nothing may wrap, a
remainder where it may.

## Where a promise has a limit

Each of these is a lemma at a concrete run or input, next to the exact condition under which the promise holds.

- Nonces are unique for up to 2^13 + 1 senders and no more (`Nonces.CrowdReuses`, `Nonces.UniqueExactly`).
- A datagram of no bytes that is merged behind others never reaches the wire; all others do
  (`UdpBatches.EmptyDatagramLost`, `UdpBatches.WireIsBufs`).
- A received message whose segment size exceeds its length yields bytes that were not received
  (`UdpBatches.StaleByteTaken`, `UdpBatches.TakenIsReceived`).
- A limiter entry left alone for 292 years wraps around and refuses, unless it was cleaned up in time
  (`RateLimiter.CleanupNoticed`, `RateLimiter.GcUnnoticedExactly`).
- A configuration with something in it that fits in no message of its own is never sent past that thing
  (`NetlinkFragments.StuckSender`, `NetlinkFragments.KernelSetDevice`); with a buffer of a page that does not
  happen (`NetlinkFragments.PageIsEnough`).
- Joining fragments follows a null pointer when an empty fragment of a peer stands between others
  (`FragmentJoin.EmptyMiddle`, `FragmentJoin.WalkExactly`); the sender never makes such fragments.
- The 16-bit length of merged packets is right below 2^16 bytes only (`GroPackets.LhsLenExact`).

## Model

| member | source | states |
|---|---|---|
| AddressBits.CommonPrefixIsLongest | wireguard-go/device/allowedips.go:35-56 | The reference: the common prefix of two bit strings is a common prefix, and no longer one is |
| AddressBits.LeadingZerosOfXor | wireguard-go/device/allowedips.go:35-56 | Counting the leading zeros of the exclusive or of two words gives the length of their common prefix |
| AddressBits.CommonBits128 | wireguard-go/device/allowedips.go:42-56 | The 128-bit comparison, high word first and the low word only if the high words agree, is the common prefix of the two addresses |
| AddressBits.Choose | wireguard-go/device/allowedips.go:69-71 | The bit picked through the stored byte and shift is the bit of the address at the node's depth |
| AddressBits.MaskedBits | wireguard-go/device/allowedips.go:73-78 | Masking keeps exactly the first cidr bits and clears the rest |
| PrefixLinks.HangLeafKeepsLinked | wireguard-go/device/allowedips.go:138-144 | Hanging a new leaf in an empty slot keeps the trie linked: every prefix extends its parent in the chosen bit, back links lead to the owning slot, everything is reached from the root |
| PrefixLinks.SpliceAboveKeepsLinked | wireguard-go/device/allowedips.go:152-165 | Putting a node between a slot and the subtree it held keeps the trie linked |
| PrefixLinks.ForkedFull | wireguard-go/device/allowedips.go:167-189 | A fork gets two children, and no node that had two loses one |
| PrefixLinks.UnlinkKeepsLinked | wireguard-go/device/allowedips.go:232-257 | Cutting out a node with at most one child, the child taking its slot, keeps the trie linked |
| PrefixLinks.FewNodes | wireguard-go/device/allowedips.go:101-189 | If every node that carries no prefix of its own has two children, n prefixes need at most 2n - 1 nodes |
| AllowedIps.LongestMatchIsLongest | wireguard-go/device/allowedips.go:191-205 | The reference lookup: the entry it names covers the address and no longer stored prefix does; none is named only if none covers it |
| AllowedIps.TrieEntry.constructor | wireguard-go/device/allowedips.go:124-131 | A new node has masked bits, the byte and shift of its depth, and no children |
| AllowedIps.TrieEntry.RemoveFromPeerEntries | wireguard-go/device/allowedips.go:62-67 | The node is taken out of its peer's list, everything else there keeps its order; a second call does nothing |
| AllowedIps.Relist | wireguard-go/device/allowedips.go:117-122 | Re-assigning a node moves it from the old owner's list to the new one's, and all lists stay exact |
| AllowedIps.Delist | wireguard-go/device/allowedips.go:226-228 | A node that loses its peer leaves that peer's list and all lists stay exact |
| AllowedIps.Trie.NodePlacement | wireguard-go/device/allowedips.go:88-99 | The walk ends at the node that stores the prefix, and says so exactly when there is one, or at the place a node for it belongs |
| AllowedIps.Trie.Lookup | wireguard-go/device/allowedips.go:191-205 | The walk returns the peer of the longest stored prefix that covers the address, or none if none covers it |
| AllowedIps.Trie.HangLeaf | wireguard-go/device/allowedips.go:138-144 | The child slot, the new node's back pointer and the map of nodes are updated together; the heap keeps the trie's shape |
| AllowedIps.Trie.SpliceAbove | wireguard-go/device/allowedips.go:152-165 | The new node takes the slot, the old subtree hangs below it in the right bit, its back pointer follows; the shape is kept |
| AllowedIps.Trie.Fork | wireguard-go/device/allowedips.go:167-189 | A peerless fork and the new node are linked in where two prefixes part; the trie stays compact |
| AllowedIps.Trie.Insert | wireguard-go/device/allowedips.go:101-189 | The stored map gets exactly this prefix and peer; shape, compactness and exact peer lists are kept; only fresh nodes are added |
| AllowedIps.Trie.Unlink | wireguard-go/device/allowedips.go:232-240 | The node's only child, if any, takes its slot and points back to it; exactly this node disappears |
| AllowedIps.Trie.RemoveNode | wireguard-go/device/allowedips.go:226-257 | The stored map loses exactly this prefix; a node left peerless with fewer than two children goes too, and so does a parent that this leaves that way; shape, compactness and lists are kept |
| AllowedIps.Trie.Collapse | wireguard-go/device/allowedips.go:245-257 | The parent that lost a child and carries no peer is itself cut out, so that compactness is restored |
| AllowedIps.Trie.NodeBound | wireguard-go/device/allowedips.go:101-189 | A trie storing n prefixes has at most 2n - 1 nodes |
| RoutingTable.AllowedIPs.Insert | wireguard-go/device/allowedips.go:291-304 | On the abstract tables: the family's map gets the prefix; the other family is unchanged; it panics exactly for an address of neither length |
| RoutingTable.AllowedIPs.Remove | wireguard-go/device/allowedips.go:259-278 | The prefix is removed exactly if it is stored for this peer, otherwise nothing changes |
| RoutingTable.AllowedIPs.RemoveByPeer | wireguard-go/device/allowedips.go:280-289 | Both maps lose exactly the peer's prefixes and its list is empty |
| RoutingTable.AllowedIPs.Lookup | wireguard-go/device/allowedips.go:306-317 | The answer is the longest match in the plain map of the address's family |
| RoutingTable.AllowedIPs.EntriesForPeer | wireguard-go/device/allowedips.go:213-224 | The callback sees the entries of the peer's list in order, up to and including the first one it stops at |
| RoutingTable.AllowedIPs.ListIsExact | wireguard-go/device/allowedips.go:58-67 | A peer's list has no duplicates and holds exactly the stored prefixes that belong to the peer, in both families |
| RoutingTable.Run | wireguard-go/device/allowedips.go:207-317 | After any sequence of inserts, removes and removals by peer, lookup answers as longest-prefix matching over two plain maps does |
| Replay.WindowMoves | wireguard-go/replay/replay.go:41-52 | Clearing the blocks between the old and the new highest counter makes the ring track the accepted counters around the new one |
| Replay.BitSet | wireguard-go/replay/replay.go:55-61 | Setting one bit records one counter and no other in reach |
| Replay.Filter.Reset | wireguard-go/replay/replay.go:30-33 | From an arbitrarily dirty ring, clearing one block makes the filter track the empty set of counters |
| Replay.Filter.ClearBlocks | wireguard-go/replay/replay.go:43-50 | Exactly the blocks passed over are cleared, at most the whole ring |
| Replay.Filter.ValidateCounter | wireguard-go/replay/replay.go:37-62 | A counter is accepted if and only if it is below the limit, was not accepted before and is at most a window behind the highest accepted; the accepted set grows by exactly it |
| Replay.Run | wireguard-go/replay/replay.go:30-62 | Over any run of checks and resets every verdict is the reference's |
| Replay.NoReplay | wireguard-go/replay/replay.go:37-62 | A counter accepted twice was cleared in between |
| SessionIndices.Device.NewIndexForHandshake | wireguard-go/device/indextable.go:58-92 | The index returned was drawn, is not zero and was free; the table gets exactly one entry for it |
| SessionIndices.Device.CreateMessageInitiation | wireguard-go/device/noise-protocol.go:327-338 | The old handshake index is freed and one new free index taken; on a key error nothing changes |
| SessionIndices.Device.ConsumeMessageInitiation | wireguard-go/device/noise-protocol.go:419-442 | Recording the initiator's index and state leaves the table alone |
| SessionIndices.Device.CreateMessageResponse | wireguard-go/device/noise-protocol.go:444-510 | Only from a consumed initiation; the old index is freed before a new one is taken |
| SessionIndices.Device.ConsumeMessageResponse | wireguard-go/device/noise-protocol.go:512-607 | A response is taken exactly for a live handshake index in the right state, and only that peer changes |
| SessionIndices.Device.BeginSymmetricSession | wireguard-go/device/noise-protocol.go:612-699 | The slots rotate as role and previous state say, the handshake index passes to the keypair, and exactly the dropped keypairs' indices leave the table |
| SessionIndices.Device.ReceivedWithKeypair | wireguard-go/device/noise-protocol.go:701-718 | Confirmed exactly for the next keypair: it becomes current, current becomes previous, and the old previous one's index is freed |
| SessionIndices.Device.ZeroAndFlushAll | wireguard-go/device/peer.go:214-238 | Exactly the peer's live indices leave the table |
| SessionIndices.Device.ExpireCurrentKeypairs | wireguard-go/device/peer.go:240-257 | The handshake index is freed, keypairs keep theirs |
| SessionIndices.Device.TableIsExact | wireguard-go/device/indextable.go:38-98 | The table holds exactly each peer's live handshake index and the indices of its keypairs: all distinct, at most four per peer |
| SessionIndices.Device.TableSize | wireguard-go/device/indextable.go:58-92 | n peers occupy at most 4 n entries |
| SessionIndices.Device.EnoughDraws | wireguard-go/device/indextable.go:58-92 | Any 4 n + 1 distinct nonzero draws contain a free index, so the retry loop ends |
| SessionIndices.Device.Run | wireguard-go/device/noise-protocol.go:612-718 | From an empty device, over every run in which peers are added and handshake, rotation, confirmation, expiry and zeroing steps happen to any of them, the table stays exact |
| Noise.Device.CreateMessageInitiation | wireguard-go/device/noise-protocol.go:270-338 | A message is made exactly for a peer with a usable static secret, and it and the transcript are those of the protocol's first message |
| Noise.Device.OpenInitiation | wireguard-go/device/noise-protocol.go:340-405 | An initiation opens to the only peer and timestamp it is genuine for, and to nothing if there is none; the state is then the sender's |
| Noise.Device.ConsumeMessageInitiation | wireguard-go/device/noise-protocol.go:340-442 | A message is accepted exactly if it is genuine for a known peer, newer than the last one and the device is neither stopped nor flooded; the transcript is then the sender's |
| Noise.Device.CreateMessageResponse | wireguard-go/device/noise-protocol.go:444-510 | Made exactly from a consumed initiation; message and transcript are those of the second message |
| Noise.Device.ConsumeMessageResponse | wireguard-go/device/noise-protocol.go:512-607 | Accepted exactly when the handshake awaits a response and the authenticator is the expected one; otherwise nothing changes |
| Noise.BeginSymmetricSession | wireguard-go/device/noise-protocol.go:612-642 | Keys are derived exactly from a finished handshake, in the order of the role, and the handshake state is wiped |
| Noise.DhCommutes | wireguard-go/device/noise-helpers.go:100-108 | Both sides compute the same shared secret, and it is zero for the same inputs |
| Noise.FirstMessage | wireguard-go/device/noise-protocol.go:270-442 | One side creates and the other consumes: it succeeds exactly when the static keys match and the timestamp is newer, and then both have the same hash and chaining key |
| Noise.SecondMessage | wireguard-go/device/noise-protocol.go:444-607 | The response is accepted exactly when the preshared keys agree, and then both transcripts agree again |
| Noise.Exchange | wireguard-go/device/noise-protocol.go:270-642 | A whole handshake succeeds exactly when static keys, preshared keys and timestamp allow it; then each side sends with the key the other receives with, the two keys differ, and each knows the other's index |
| Noise.HonestRun | wireguard-go/device/noise-protocol.go:270-642 | Between two fresh devices that know each other the handshake always succeeds |
| Nonces.RunKeepsInv | wireguard-go/device/send.go:354-370 | Over every interleaving of up to 2^13 + 1 senders and expiry, dispatched nonces are below the limit, distinct, and the counter passes the limit by at most the waiting senders |
| Nonces.NeverWraps | wireguard-go/device/send.go:354-370 | With up to 2^13 senders the counter never wraps and, once at the limit, never falls below it |
| Nonces.CrowdWraps | wireguard-go/device/send.go:354-370 | With 2^13 + 1 senders there is a run that wraps the counter |
| Nonces.CrowdReuses | wireguard-go/device/send.go:354-370 | With 2^13 + 2 senders there is a run that uses a nonce twice |
| Nonces.UniqueExactly | wireguard-go/device/constants.go:16 | Nonces are unique over every run if and only if there are at most 2^13 + 1 senders |
| Nonces.AssignNonces | wireguard-go/device/send.go:352-376 | Compacting the container in place: packets with a nonce keep their order in front, the others are restaged in order, and the nonces are those drawn |
| Nonces.NothingLost | wireguard-go/device/send.go:352-376 | Every staged packet is either sent or restaged, none is both |
| InternetChecksum.OnesSumIsFold | wireguard-go/tun/checksum.go:86-93 | Adding 16-bit words with end-around carry, as section 1 of RFC 1071 defines it, is folding their plain sum |
| InternetChecksum.AddWords | wireguard-go/tun/checksum.go:15-65 | The unrolled chain of 64-bit additions with carry loses nothing: the closing addition of the carry does not overflow, and the accumulator is the sum modulo 2^16 - 1 |
| InternetChecksum.AddShort | wireguard-go/tun/checksum.go:66-80 | The same for the four-byte and two-byte tails |
| InternetChecksum.ChecksumNoFold | wireguard-go/tun/checksum.go:9-84 | On either endianness the result folds to the one's-complement sum of the initial value and the bytes, an odd last byte counting as the high half of a word |
| InternetChecksum.FourFolds | wireguard-go/tun/checksum.go:86-93 | Four folds always reach 16 bits |
| InternetChecksum.Checksum | wireguard-go/tun/checksum.go:86-93 | The result is the fold of the initial value and the sum of the bytes |
| InternetChecksum.SumZero | wireguard-go/tun/checksum.go:86-93 | The sum is zero only for bytes that are all zero |
| InternetChecksum.ChecksumIsOnesSum | wireguard-go/tun/checksum.go:86-93 | From zero, the result is the one's-complement sum of RFC 1071 |
| InternetChecksum.Chained | wireguard-go/tun/checksum.go:9-93 | Going on from an even-length prefix gives what one pass over the whole gives |
| InternetChecksum.PseudoHeaderChecksumNoFold | wireguard-go/tun/checksum.go:95-102 | The result folds to the sum of both addresses, the protocol and the length |
| Segmentation.ChecksumValid | wireguard-go/tun/offload_linux.go:388-398 | True exactly if the pseudo header and everything from the transport header on sum to all ones |
| Segmentation.ChecksumFieldFits | wireguard-go/tun/offload_linux.go:945-947 | Storing the complement of the sum in the zeroed field makes the whole sum to all ones |
| Segmentation.IpHeader | wireguard-go/tun/offload_linux.go:935-951 | Segment i's IP header has its own length and identification (or payload length), an IPv4 checksum that verifies, and is otherwise the packet's |
| Segmentation.TransportHeader | wireguard-go/tun/offload_linux.go:953-968 | Sequence number first + i gsoSize modulo 2^32 and FIN and PSH only on the last segment, or the datagram's own length; the rest is the packet's |
| Segmentation.NoOverflow | wireguard-go/tun/offload_linux.go:958 | The segment offset computed in 16 bits is the true offset |
| Segmentation.FillChecksum | wireguard-go/tun/offload_linux.go:973-978 | The checksum put in place makes the segment verify |
| Segmentation.Segment | wireguard-go/tun/offload_linux.go:926-978 | One segment: its slice of the payload under right headers, and its transport checksum verifies |
| Segmentation.ClearChecksums | wireguard-go/tun/offload_linux.go:905-911 | Only the checksum fields change |
| Segmentation.GsoSplit | wireguard-go/tun/offload_linux.go:901-983 | Splitting succeeds exactly when the buffers are enough; then there are exactly as many segments as needed, every one right, and their payloads one after the other are the packet's |
| GroPackets.CutsAppend | wireguard-go/tun/offload_linux.go:475-498 | A payload cut into full pieces takes one more piece of at most that size |
| GroPackets.CutsPrepend | wireguard-go/tun/offload_linux.go:450-474 | A piece of full size goes in front of any cut payload |
| GroPackets.CutsPrependLarger | wireguard-go/tun/offload_linux.go:378-383 | A larger packet goes in front of a single smaller one, and the cut size grows to it |
| GroPackets.FullItem | wireguard-go/tun/offload_linux.go:349-362 | Where appending is allowed, the length computed in 16 bits is the true payload length |
| GroPackets.LhsLenExact | wireguard-go/tun/offload_linux.go:349-362 | In general it is exactly when that length is below 2^16; two packets of 2^15 bytes come out as none |
| GroPackets.CanCoalesceAlike | wireguard-go/tun/offload_linux.go:279-386 | Merging is considered only for packets with the same transport header length, options, traffic class or ToS, hop limit or TTL and fragment bits |
| GroPackets.HoldsAppend | wireguard-go/tun/offload_linux.go:475-505 | A packet found fit to be appended leaves the item describing its packet: payloads in order, cut size, sequence numbers, checked checksums |
| GroPackets.HoldsPrepend | wireguard-go/tun/offload_linux.go:450-505 | The same for a packet put in front |
| GroPackets.Account | wireguard-go/tun/offload_linux.go:625-739 | A merged packet's headers state its length, the IPv4 checksum verifies, the pseudo header's sum is where the transport checksum goes, and every other byte is kept |
| GroPackets.CarriesAccounted | wireguard-go/tun/offload_linux.go:625-739 | Updating the headers changes nothing of what the packet carries |
| GroPackets.SplitUndoesMerge | wireguard-go/tun/offload_linux.go:901-983 | Splitting a merged packet at its recorded size gives as many segments as packets went in, in order, with their payloads and sequence numbers |
| Gro.CarriedOnce | wireguard-go/tun/offload_linux.go:865-896 | Every packet is carried by exactly one written packet, exactly once |
| Gro.PassedKeeps | wireguard-go/tun/offload_linux.go:884-893 | A packet written as it came keeps the bookkeeping right |
| Gro.InsertedKeeps | wireguard-go/tun/offload_linux.go:112-129 | Remembering a packet in its flow keeps the bookkeeping right |
| Gro.MergedKeeps | wireguard-go/tun/offload_linux.go:131-134 | Merging a packet into an item, buffers exchanged or not, keeps the bookkeeping right |
| Gro.ForgottenKeeps | wireguard-go/tun/offload_linux.go:136-140 | Forgetting an item that nothing was merged into loses no packet |
| Gro.Batch.CheckSums | wireguard-go/tun/offload_linux.go:414-432 | The outcome says exactly which checksum is bad: the item's own, looked at only before a first merge, or else the packet's |
| Gro.Batch.CoalesceAppend | wireguard-go/tun/offload_linux.go:475-506 | It succeeds exactly if there is room and both checksums are good; unless it does nothing changes, and if it does the bookkeeping is right with the packet merged |
| Gro.Batch.CoalescePrepend | wireguard-go/tun/offload_linux.go:444-474 | The same for a merge in front, with the buffers exchanged |
| Gro.Batch.TryItem | wireguard-go/tun/offload_linux.go:590-617 | The item takes the packet exactly if headers, sequence numbers, capacity and both checksums allow it; an item with a bad checksum is forgotten and nothing else changes |
| Gro.Batch.TcpGro | wireguard-go/tun/offload_linux.go:531-621 | Left alone only if unfit or of bad checksum, remembered only if no item of the flow can take it, merged only into one that can; the bookkeeping is right in each case |
| Gro.Batch.UdpGro | wireguard-go/tun/offload_linux.go:786-858 | Left alone exactly if unfit, merged exactly if the last item of the flow can take it, otherwise remembered |
| Gro.Batch.Evaluate | wireguard-go/tun/offload_linux.go:865-893 | The whole batch is evaluated unless the offset is too small or a packet is empty |
| Gro.Batch.ApplyCoalesceAccounting | wireguard-go/tun/offload_linux.go:625-739 | Every written packet ends either as it came or merged and described by its header |
| Gro.Batch.HandleGro | wireguard-go/tun/offload_linux.go:865-896 | Each packet's payload is in exactly one written packet; a merged one carries the payloads of its packets in order, cut at the recorded size, with their sequence numbers, all of them checked; UDP flows keep their order |
| Gro.SplitAgain | wireguard-go/tun/offload_linux.go:901-983 | Splitting what the batch merged gives back its packets' payloads and sequence numbers |
| UdpBatches.CutFlat | wireguard-go/conn/bind_std.go:450-498 | Cutting merged datagrams gives them back, unless the last one is empty: then exactly that one is gone |
| UdpBatches.GroupWire | wireguard-go/conn/bind_std.go:450-498 | The wire carries a group of datagrams as it was; of one that ends in an empty datagram all but that one, and of empty ones only a single one; in every case all that have bytes, in order |
| UdpBatches.StartsUnique | wireguard-go/conn/bind_std.go:461-496 | Messages that are groups in order, each as long as can be, begin at places that depend on the buffers alone |
| UdpBatches.CoalesceMessages | wireguard-go/conn/bind_std.go:450-498 | The buffers are in messages group after group, each group as long as the limits on size, capacity, count and evenness allow; a group of several carries the segment size exactly once, a single one never; for every batch all datagrams that have bytes reach the wire in order |
| UdpBatches.WireIsBufs | wireguard-go/conn/bind_std.go:450-498 | For every batch the wire carries all datagrams that have bytes, in order; it carries exactly the buffers if and only if no group of several, as the buffers make them up, ends in an empty one |
| UdpBatches.EmptyDatagramLost | wireguard-go/conn/bind_std.go:450-498 | A datagram, an empty one and another: the first and the last reach the wire, the empty one does not |
| UdpBatches.TakenIsReceived | wireguard-go/conn/bind_std.go:502-544 | Over a whole batch as many datagrams are taken as were received, and they are the same if and only if no segment size up to the first empty message is larger than its message |
| UdpBatches.StaleByteTaken | wireguard-go/conn/bind_std.go:518-534 | One byte received with a segment size of two: a stale byte of the buffer is handed on with it |
| UdpBatches.SplitOne | wireguard-go/conn/bind_std.go:508-541 | The pieces of one message go in order to the next slots, none is overwritten before it is read, and it fails exactly when they would pass the message's own slot |
| UdpBatches.SplitCoalescedMessages | wireguard-go/conn/bind_std.go:502-544 | It succeeds exactly when there is room; then as many slots are filled as datagrams were received, slot k holds the k-th datagram received with its sender for all k if and only if no segment size is larger than its message, and slots read but not refilled are empty |
| UdpBatches.ReadAtLeavesRoom | wireguard-go/conn/bind_std.go:243-251 | With 128 slots, reading into the last two and at most 64 datagrams per message there is always room |
| Field25519.EvalShift | wireguard-tools/src/curve25519-hacl64.h:124-151 | Shifting the limbs up, the top one coming back nineteenfold, multiplies by 2^51 modulo 2^255 - 19 |
| Field25519.EvalWide | wireguard-tools/src/curve25519-hacl64.h:153-181 | The five rows sum to the product of the operands modulo 2^255 - 19 |
| Field25519.SumScalarMultiplication | wireguard-tools/src/curve25519-hacl64.h:73-81 | A row is added limb by limb without exceeding 128 bits |
| Field25519.FmulShiftReduce | wireguard-tools/src/curve25519-hacl64.h:124-151 | The array holds the shifted limbs |
| Field25519.CarryWide | wireguard-tools/src/curve25519-hacl64.h:83-122 | The array holds the carried limbs |
| Field25519.EvalCarry | wireguard-tools/src/curve25519-hacl64.h:83-122 | Carrying does not change the value |
| Field25519.ReduceWideFits | wireguard-tools/src/curve25519-hacl64.h:197-210 | For operands up to the bound the top carry and every limb fit in 64 bits, so no cast loses anything |
| Field25519.ReduceInto | wireguard-tools/src/curve25519-hacl64.h:197-210 | The output is the reduced value with every limb back near 51 bits |
| Field25519.MulShiftReduce | wireguard-tools/src/curve25519-hacl64.h:153-181 | The 128-bit accumulator holds the five rows and nothing overflows |
| Field25519.FmulFmul | wireguard-tools/src/curve25519-hacl64.h:183-212 | For limbs up to 9 * 2^51 and a little more the output is reduced and congruent to the product; the output may be an operand |
| Field25519.WideSquareIsWide | wireguard-tools/src/curve25519-hacl64.h:214-241 | The shared doubled and nineteenfold terms give the same limbs as the product with itself |
| Field25519.SquareLimbs | wireguard-tools/src/curve25519-hacl64.h:214-241 | The limbs of the square are computed without overflow |
| Field25519.FsquareInPlace | wireguard-tools/src/curve25519-hacl64.h:243-268 | The array ends reduced and congruent to the square |
| Field25519.Fsum | wireguard-tools/src/curve25519-hacl64.h:338-345 | The sum, limb by limb; within the bound of multiplication for reduced operands |
| Field25519.Fdifference | wireguard-tools/src/curve25519-hacl64.h:347-391 | The difference plus eight times the modulus, with no limb below zero; within the bound of multiplication |
| Field25519.FsquareTimesInPlace | wireguard-tools/src/curve25519-hacl64.h:270-277 | Squaring count times raises to the power 2^count |
| Field25519.CrecipCrecip | wireguard-tools/src/curve25519-hacl64.h:294-336 | The result is congruent to z to the power 2^255 - 21, for z within the bound |
| Field25519.FeLooseInvert | wireguard-tools/src/curve25519-fiat32.h:556-604 | The other chain of squarings and multiplications computes the same power |
| Field25519.CopyFromWide | wireguard-tools/src/curve25519-hacl64.h:49-71 | The 128-bit limbs, all below 2^64, are copied without loss |
| Field25519.EvalCarryTop | wireguard-tools/src/curve25519-hacl64.h:39-47 | Folding what is above 2^255 back nineteenfold keeps the value modulo 2^255 - 19 |
| Field25519.ModuloCarryTop | wireguard-tools/src/curve25519-hacl64.h:39-47 | The array holds the folded limbs, without overflow |
| Field25519.ContractCarryPass | wireguard-tools/src/curve25519-hacl64.h:623-643 | One carry pass on 64-bit limbs, without overflow |
| Field25519.SecondCarry | wireguard-tools/src/curve25519-hacl64.h:673-687 | After the second full carry and one more step every limb is within 51 bits |
| Field25519.ContractCarry | wireguard-tools/src/curve25519-hacl64.h:645-687 | Both carries give tight limbs of a congruent value |
| Field25519.AtLeastP | wireguard-tools/src/curve25519-hacl64.h:689-712 | Tight limbs reach the modulus exactly when the upper four are full and the lowest is at least 2^51 - 19 |
| Words.EqMaskIs | wireguard-tools/src/curve25519-hacl64.h:15-23 | The branch-free mask is all ones exactly for equal words |
| Words.GteMaskIs | wireguard-tools/src/curve25519-hacl64.h:25-37 | The branch-free mask is all ones exactly if the first word is at least the second |
| Field25519.TrimMaskIs | wireguard-tools/src/curve25519-hacl64.h:689-701 | The conjunction of the five masks is all ones exactly for limbs that reach the modulus |
| Field25519.ContractTrim | wireguard-tools/src/curve25519-hacl64.h:689-712 | The value is brought below the modulus |
| Field25519.Contract | wireguard-tools/src/curve25519-hacl64.h:735-741 | The limbs are the canonical representative: the value modulo 2^255 - 19 |
| Field25519.ContractStore | wireguard-tools/src/curve25519-hacl64.h:714-733 | The four words are the value in base 2^64 |
| Field25519.Fexpand | wireguard-tools/src/curve25519-hacl64.h:599-621 | The five overlapping loads give the low 255 bits, so the top bit is ignored |
| Ladder.Scale | wireguard-tools/src/curve25519-hacl64.h:393-428 | The limbs times 121665, carried and folded without loss, stand for the multiple |
| Words.MaskedExchange | wireguard-tools/src/curve25519-hacl64.h:440-451 | Two words are exchanged by the exclusive ors under a mask of all ones, and kept under zero |
| Ladder.SwapLimbs | wireguard-tools/src/curve25519-hacl64.h:440-460 | The limbs of two values change places under a mask of all ones, and stay under zero |
| Ladder.Swap | wireguard-tools/src/curve25519-hacl64.h:462-467 | Two points change places exactly if told to |
| Ladder.AddAndDouble | wireguard-tools/src/curve25519-hacl64.h:475-539 | For reduced points the results are reduced and are the double and the sum as the step in section 5 of RFC 7748 defines them; every operand in between is within bounds |
| Ladder.SmallLoopStep | wireguard-tools/src/curve25519-hacl64.h:541-551 | One bit of the scalar: the step between two swaps |
| Ladder.DoubleStep | wireguard-tools/src/curve25519-hacl64.h:553-561 | Two bits, the two pairs of buffers taking turns |
| Ladder.SmallLoop | wireguard-tools/src/curve25519-hacl64.h:563-572 | The bits of a byte, highest first |
| Ladder.BigLoop | wireguard-tools/src/curve25519-hacl64.h:574-584 | The bytes of the scalar, highest first |
| Ladder.LadderCmult | wireguard-tools/src/curve25519-hacl64.h:586-597 | The result is the reference ladder's point for the scalar's bits |
| Ladder.ScalarNumber | wireguard-tools/src/curve25519-hacl64.h:574-584 | The bits climbed are those of the scalar as a little-endian number |
| Ladder.ScalarOfPoint | wireguard-tools/src/curve25519-hacl64.h:743-753 | The canonical form of x times z to the power 2^255 - 21 |
| Ladder.ClampedScalar | wireguard-tools/src/curve25519.h:18-22 | A clamped scalar is a multiple of eight, at least 2^254 and below 2^255 |
| Ladder.LeadingZero | wireguard-tools/src/curve25519-hacl64.h:574-597 | A zero bit in front of the scalar, which the code climbs and the RFC does not, multiplies the coordinates of both points by powers of 4u |
| Ladder.ComputedAndDefined | wireguard-tools/src/curve25519-hacl64.h:743-784 | What is computed is what section 5 of RFC 7748 defines times a power of (4u)^(p - 1), for every secret and point |
| Ladder.ExponentInverts | wireguard-tools/src/curve25519-hacl64.h:294-336 | For a prime modulus the power 2^255 - 21 is the inverse of every number but zero |
| Ladder.ComputedIsDefined | wireguard-tools/src/curve25519-hacl64.h:755-784 | For a prime modulus the computed value and the one section 5 of RFC 7748 defines are equal, for every secret and every point, zero included |
| Ladder.Curve25519 | wireguard-tools/src/curve25519-hacl64.h:755-784 | For every secret and point the four words are the value of the ladder over all 256 bits, with no overflow anywhere on the way; for a prime modulus they are the value that section 5 of RFC 7748 defines |
| SyncConf.QSort | wireguard-tools/src/setconf.c:21-28 | Sorted by key, the running peer before the file's; a permutation |
| SyncConf.NextMatches | wireguard-tools/src/setconf.c:77-80 | In the sorted list a running peer is followed by a file peer of its key exactly if the file has one |
| SyncConf.SyncConf | wireguard-tools/src/setconf.c:30-114 | The plan removes exactly the running peers the file lacks, each once, and adjusts the others; nothing is planned for an empty file or device |
| SyncConf.AfterRemovals | wireguard-go/device/uapi.go:317-327 | A list of removals takes away exactly its peers and their routes |
| SyncConf.PeerAgrees | wireguard-go/device/uapi.go:274-391 | One peer's lines keep the synchronised and the rebuilt device in agreement |
| SyncConf.SyncIsReplace | wireguard-tools/src/ipc-uapi.h:44-95 | Applying a right plan gives the device that replacing all peers gives: the same peers, preshared keys, keepalives and routes |
| SyncConf.PlanIsReplace | wireguard-tools/src/setconf.c:30-114 | Whatever plan was made from the list the device gives of itself, the device ends as a full replacement would leave it |
| SyncConf.SyncDevice | wireguard-tools/src/setconf.c:30-114 | Planning from that list and applying the plan leaves the device as replacing all its peers by the file's would |
| FragmentJoin.WalkExactly | wireguard-tools/src/ipc-linux.h:456-476 | The walk over a list of fragments gets through if and only if no run of one key has an empty fragment that follows allowed IPs and is followed by another of the key; then it gives every run as one peer with all its allowed IPs in order |
| FragmentJoin.EmptyMiddle | wireguard-tools/src/ipc-linux.h:456-476 | Three fragments of one key with allowed IPs a, none and b: the walk follows a pointer that is null |
| FragmentJoin.ParseIp | wireguard-tools/src/ipc-linux.h:303-325 | A new allowed IP hangs behind the last one of its peer, which knows where the list ends |
| FragmentJoin.ParsePeers | wireguard-tools/src/ipc-linux.h:384-407 | The received fragments become linked lists of peers and allowed IPs, in order, each peer knowing where its list ends |
| FragmentJoin.JoinNext | wireguard-tools/src/ipc-linux.h:465-474 | The next peer's allowed IPs hang behind those of this one and that peer is out of the list; impossible exactly when there are allowed IPs and their end is lost |
| FragmentJoin.CoalescePeers | wireguard-tools/src/ipc-linux.h:456-476 | In place, on the linked lists: it gets through exactly as the walk does, and then the list from the same first peer holds every run of one key joined |
| FragmentJoin.Receive | wireguard-tools/src/ipc-linux.h:303-476 | What arrives is parsed and joined, rightly if and only if the walk meets no such fragment |
| NetlinkFragments.Message.PutHeader | wireguard-tools/src/ipc-linux.h:180-209 | A peer's own attributes are added all or not at all, exactly if they fit together |
| NetlinkFragments.Message.PutIp | wireguard-tools/src/ipc-linux.h:217-234 | An allowed IP is added whole or not at all, exactly if it fits |
| NetlinkFragments.FillPeer | wireguard-tools/src/ipc-linux.h:177-241 | As much of a peer as fits is added, from where it was left, and what was sent so far is the configuration up to there |
| NetlinkFragments.EndMoves | wireguard-tools/src/ipc-linux.h:155-258 | A message of its own gets further if and only if it has room for the next thing; otherwise it stops where it began |
| NetlinkFragments.FillMessage | wireguard-tools/src/ipc-linux.h:155-258 | A message never exceeds the buffer and stops only when full, carries on where the last one stopped, and, if it gets anywhere, has no fragment that continues a peer without an allowed IP |
| NetlinkFragments.KernelSetDevice | wireguard-tools/src/ipc-linux.h:142-276 | The loop ends if and only if no message stops at something that has no room in a message of its own; then every message fits, the walk over the fragments gets through and gives the peers, each once, in order, with all allowed IPs, and only a peer's first fragment has its attributes and asks to replace |
| NetlinkFragments.StuckSender | wireguard-tools/src/ipc-linux.h:142-276 | A peer whose attributes take 124 bytes: with a buffer of 160 the loop never ends, with 168 it does |
| NetlinkFragments.PageIsEnough | wireguard-tools/src/netlink.h:70-80 | With a buffer of a page and addresses of at most 16 bytes the loop always ends |
| NetlinkFragments.SendAndReceive | wireguard-tools/src/ipc-linux.h:142-476 | Sent in fragments, parsed and joined in place, the configuration is on the receiver's list, exactly when the loop ends |
| RateLimiter.Ratelimiter.Cleanup | wireguard-go/ratelimiter/ratelimiter.go:84-97 | Exactly the entries idle for more than a second go, and it reports whether none is left |
| RateLimiter.StepPays | wireguard-go/ratelimiter/ratelimiter.go:99-137 | A packet let through costs, and no event, garbage collection included, raises an address's credit |
| RateLimiter.AtMost | wireguard-go/ratelimiter/ratelimiter.go:14-20 | In any interval of length D at most (maxTokens + D) / packetCost packets of an address get through, from any state |
| RateLimiter.IdleIsNew | wireguard-go/ratelimiter/ratelimiter.go:84-137 | An entry idle for more than a second answers as a new one does if and only if its count does not wrap around |
| RateLimiter.GcInvisible | wireguard-go/ratelimiter/ratelimiter.go:84-137 | From any table, collecting garbage at whatever times changes no answer, as long as no count wraps around |
| RateLimiter.WrapIsSeen | wireguard-go/ratelimiter/ratelimiter.go:84-137 | In any run in which a count wraps around there is a place where a clean-up changes an answer |
| RateLimiter.GcUnnoticedExactly | wireguard-go/ratelimiter/ratelimiter.go:84-137 | For every run of packets, clean-ups change no answer wherever they are put if and only if no count wraps around |
| RateLimiter.CleanupNoticed | wireguard-go/ratelimiter/ratelimiter.go:84-137 | Two packets 2^63 nanoseconds apart: with a clean-up between them both pass, without it the second does not |
| RateLimiter.Ratelimiter.Run | wireguard-go/ratelimiter/ratelimiter.go:84-137 | Packets and clean-ups in any order on the table itself: no address exceeds its rate, and if no count wraps around the answers are those without clean-ups |
| RateLimiter.GcNeverMatters | wireguard-go/ratelimiter/ratelimiter.go:84-137 | For any run of less than 292 years from the start, the answers are those without garbage collection |
| Encoding.EncodeChar | wireguard-tools/src/encoding.c:11-22 | The branch-free sum is the base64 alphabet |
| Encoding.DecodeChar | wireguard-tools/src/encoding.c:35-48 | The branch-free sum is the alphabet's inverse, and -1 for every other character |
| Encoding.GroupRoundTrip | wireguard-tools/src/encoding.c:11-48 | Four characters decode to the three bytes they encode |
| Encoding.GroupIsEncoding | wireguard-tools/src/encoding.c:35-48 | Four characters that decode are the encoding of what they decode to |
| Encoding.KeyToBase64 | wireguard-tools/src/encoding.c:24-33 | The text is the key's ten groups, three characters of the last one and a pad |
| Encoding.KeyFromBase64 | wireguard-tools/src/encoding.c:50-72 | Accepted exactly if the text is some key's, spare bits zero included, and then it is the text of the result |
| Encoding.EncodedInjective | wireguard-tools/src/encoding.c:24-33 | Different keys have different texts |
| Encoding.Base64RoundTrip | wireguard-tools/src/encoding.c:24-72 | A key written and read back is the same key |
| Hex.EncodeDigit | wireguard-tools/src/encoding.c:74-83 | The branch-free sum is the lower-case digit of its value |
| Hex.Bad | wireguard-tools/src/encoding.c:85-114 | The accumulated flag is zero exactly for hexadecimal digits of either case |
| Hex.DigitOf | wireguard-tools/src/encoding.c:85-114 | The masked value is the digit's |
| Hex.KeyToHex | wireguard-tools/src/encoding.c:74-83 | The text spells the key, two lower-case digits a byte |
| Hex.KeyFromHex | wireguard-tools/src/encoding.c:85-114 | Accepted are exactly 64 hexadecimal digits of either case, and the key is what they spell |
| Hex.SpelledOnce | wireguard-tools/src/encoding.c:74-114 | A text spells one key only |
| Hex.HexRoundTrip | wireguard-tools/src/encoding.c:74-114 | A key written and read back is the same key |
| ConfigConvert.FirstIpv4OrFirst | uploader/wg-upload.go:855-871 | The first part that is not IPv6, or else the first that is not blank, or else nothing |
| ConfigConvert.ConvertConfig | uploader/wg-upload.go:786-853 | Accepted exactly if no line is refused and an address is found; the text is the section headers and permitted settings in order, the address the first one named |
| ConfigConvert.ItemsTrimSpace | uploader/wg-upload.go:786-853 | Trimming a text changes none of what its lines say |
| ConfigConvert.RenderRead | uploader/wg-upload.go:786-853 | What is written for headers and settings reads back as those headers and settings |
| ConfigConvert.ConvertedIsFixed | uploader/wg-upload.go:786-853 | Converting an output again, with its address line put back, gives the same text and address |
| ConfigConvert.ConvertTwice | uploader/wg-upload.go:786-853 | Of two conversions in a row the second accepts whatever the first made, and returns the same |

## Left out

- Sockets, TUN devices, netlink sockets, ioctls and files: they appear as arguments and results.
- Timers, cookie messages, message authentication codes of handshake messages, buffer pools and the fixed layout of messages.
- The hash, cipher and curve primitives behind the handshake are symbolic terms in `Noise`; ciphertexts open only under the key and transcript they were made with.
- Mutexes: each operation is one step, except in `Nonces`, where the atomic steps of senders interleave.
- The random source: indices are drawn from a sequence given by the caller, without zeros, that holds a free one; keys and timestamps are arguments.
- The list element a trie node keeps into its peer's list is modelled as a flag, and the address arithmetic that finds a node from its slot as a reference.
- Segmentation and Gro: a packet buffer is the bytes from the packet on and the capacity behind them; where it lies in memory, and the bytes of the virtio header apart from the fields used, are not modelled.
- Gro.Batch.constructor: buffers hold at most 65535 bytes and there are at most 65536 of them, as the device allocates them; with larger ones the 16-bit length of an item can wrap (`GroPackets.LhsLenExact`).
- Gro: the TCP and UDP tables are one map with the protocol in the key. The header fields a merge discards (window, identification, urgent pointer, the push flag of a packet that another one is put in front of) are not claimed to survive.
- Gro.Batch.HandleGro: the order claim for UDP is about packets fit for merging; fragments and empty datagrams are written at their own index.
- Segmentation.GsoSplit: packets of at most 65535 bytes whose checksum field is where TCP and UDP have it; on too many segments the returned count is one less than the segments made, as in the source; nothing more is claimed of it.
- UdpBatches.SplitCoalescedMessages: all buffers have one size, and no segment size exceeds it, as the device allocates them.
- UdpBatches.CoalesceMessages: what the kernel makes of a message is the function `Cut`; source-address control data is one marker, and a split message keeps its slot's own control data.
- Field25519 and Ladder: masking low bits, shifts and disjoint ors are written as remainders, quotients and sums; byte strings as the numbers they stand for; wiping of buffers is left out.
- Ladder.ComputedIsDefined: that 2^255 - 19 is prime is a hypothesis, of this lemma, of Ladder.ExponentInverts and of one clause of Ladder.Curve25519; the group law of the curve is not modelled.
- Field25519.FeLooseInvert: the 32-bit limb routines are taken as multiplication modulo 2^255 - 19.
- SyncConf.SyncConf: keys are distinct within the file and within the device; with a key twice in the file, which of the two the scan meets depends on the sorting algorithm.
- SyncConf.PlanIsReplace: every peer of the file replaces its allowed IPs, as it does unless the file uses the incremental forms; endpoints, the limit on the number of peers and the errors of single lines are left out, and keys and prefixes are numbers.
- FragmentJoin: the messages are sequences of fragments, already validated; freeing and allocation failures are left out.
- NetlinkFragments.KernelSetDevice: attributes are their sizes; neighbouring peers of the configuration have different keys, since the receiver joins neighbours by key; the device's own attributes fit, since the source does not check them.
- RateLimiter.Ratelimiter.Allow: two packets of a new address arriving at once, and the goroutine that starts and stops the ticker.
- Encoding.DecodeBase64: shifting and or-ing a negative value is modelled as staying negative.
- ConfigConvert.ConvertConfig: the scanner's limit on line length; bytes that are not valid text.
- The web interface, translations, logging, interface listings and platform code.
