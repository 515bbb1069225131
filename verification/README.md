# Proved properties of the packet engine

A Dafny model of the in-memory algorithms of zapret (nfqws, tpws and ip2net under `upstream/`): the code that decides
which addresses and connections are affected, and the code that cuts, delays and rewrites packets. `dafny verify
dfyconfig.toml` checks the whole project.

| files | what they model |
|---|---|
| `BitKeys`, `AvlTree`, `AvlPaths`, `AvlSearch`, `KavlMemory`, `KavlSteps`, `KavlErase`, `Kavl`, `IpSet` | the intrusive AVL tree of `kavl.h` on heap nodes, with its path arrays, and the prefix-free CIDR sets of `pools.c` on top |
| `QSort`, `Subnets`, `Ip2net` (with `BitArith`, `Sequences`) | the quicksort of ip2net, and the replacement of sorted addresses by subnets |
| `Uthash`, `Conntrack` | the hash table of `uthash.h` and the connection tracker on it |
| `TcpReceiver`, `Splitting`, `SplitPositions`, `Replay`, `Delay` | the send loops of `desync.c` against a TCP receiver, and the reassembly with its queue of delayed packets |
| `Tls`, `Sni`, `Hello`, `Quic`, `Tamper` (with `Wire`) | rewriting the server name of a ClientHello, joining QUIC CRYPTO frames, padding an HTTP request, dividing a TLS record |

The receiver in `TcpReceiver` drops bytes it has already handed over and lets a later arrival overwrite a byte it keeps
out of order. Sending is appending to a sequence of segments. Memory allocation succeeds.

Where the code and what it is meant to do differ, the model follows the code:

- The shortcut of the IPv4 search in ip2net can pass over a subnet that has enough addresses, when the number of
  addresses needed is rounded down. `Subnets.ShortcutDiscards` states exactly when. The subnet printed is still the
  tightest one for what it holds (`Subnets.ChosenIsTightest`).
- The replacement of the server name wraps length fields at their width. `Sni.SniReplaced` states exactly when the new
  message is well formed.

## Model

| member | source | states |
|---|---|---|
| BitKeys.CmpMeaning | upstream/nfq/pools.c:276-287 | the byte-wise comparator orders bit strings lexicographically up to the shorter length: negative and positive exactly for a first differing bit, zero exactly when one string is a prefix of the other |
| BitKeys.MemCmpIsCmpBits | upstream/nfq/pools.c:276-282 | comparing whole bytes is comparing the bits of the bytes, most significant first, where a bit is defined by division of the byte |
| BitKeys.MemCmpMeaning | upstream/nfq/pools.c:280 | memcmp has the sign of the first byte that differs, compared as a number |
| BitKeys.PrefixIsNet | upstream/nfq/pools.c:276-287 | the key with p bits of one address is a prefix of a key of another exactly if the two addresses, as numbers in network order, are the same after division by the size of the network |
| BitKeys.RelatedIsNet | upstream/nfq/pools.c:276-287 | keys are tied exactly if the shorter one holds both addresses |
| BitKeys.BeforeMonotone | upstream/nfq/pools.c:276-288 | although ties are not transitive, the comparison of any key with an ordered sequence of keys is monotone, which is what a search needs |
| AvlTree.InsOk | upstream/nfq/kavl.h:129-173 | insertion keeps an AVL tree: true balance factors within -1..1, exact sizes; the count grows by one and the height by one exactly if reported |
| AvlTree.InsInorder | upstream/nfq/kavl.h:129-173 | insertion puts the new node into the in-order sequence at the position where the search ended and changes nothing else in it |
| AvlTree.DelOk | upstream/nfq/kavl.h:175-256 | deletion of the node found keeps an AVL tree with exact sizes and takes exactly one node out |
| AvlTree.DelInorder | upstream/nfq/kavl.h:175-256 | deletion removes exactly the node found from the in-order sequence |
| AvlTree.Rotate1Ok | upstream/nfq/kavl.h:98-108 | a rotation of a subtree out of balance by two, with the balance factors its callers set, is an AVL tree of the right height |
| AvlTree.Rotate2Ok | upstream/nfq/kavl.h:109-127 | so is a double rotation, with the balance factors it sets itself |
| AvlTree.Rotate2Inorder | upstream/nfq/kavl.h:109-127 | a double rotation does not change the order of the nodes |
| AvlTree.ShrinkFixOk | upstream/nfq/kavl.h:233-253 | one turn of the re-balancing loop of the removal: the subtree is in balance again, and the loop goes on exactly if it is one level lower |
| AvlSearch.MissSplits | upstream/nfq/kavl.h:139-151 | a search that finds no tie ends exactly between the smaller and the larger keys |
| AvlSearch.HitsMeaning | upstream/nfq/pools.c:276-288 | the search in a sorted tree finds a tied key exactly when the tree holds a key that is a prefix or an extension of the one sought |
| AvlSearch.InsSorted | upstream/nfq/kavl.h:129-173 | inserting a key that ties with none keeps the keys sorted |
| AvlSearch.DelSorted | upstream/nfq/kavl.h:175-256 | deleting keeps the keys sorted |
| AvlSearch.AvlMinCount | upstream/nfq/kavl.h:69 | an AVL tree of height h has at least F(h+2)-1 nodes |
| AvlSearch.DepthBound | upstream/nfq/kavl.h:69 | with fewer than 2^32 nodes the height is at most 45, so the path arrays of 64 entries suffice, the fake root included |
| AvlPaths.FoldGrowOnce | upstream/nfq/kavl.h:157-171 | the loops of the insertion over the whole path amount to the recursive insertion: sizes everywhere, balance factors from the lowest unbalanced node down, one re-balancing there |
| AvlPaths.DelRootPath | upstream/nfq/kavl.h:205-232 | removing a node through its successor amounts to the recursive deletion along the path to the successor |
| KavlSteps.RotateOnce | upstream/nfq/kavl.h:98-108 | the pointer and size updates of a rotation on the heap represent the rotated tree |
| KavlSteps.RotateTwice | upstream/nfq/kavl.h:109-127 | the same for a double rotation |
| KavlSteps.ResizePath | upstream/nfq/kavl.h:157 | a loop over the path changes exactly the sizes of the nodes it visits, by the given amount |
| Kavl.FindPlace | upstream/nfq/kavl.h:137-151 | the descent records a path of at most 64 nodes that cuts the tree open where the key belongs, the directions from the lowest unbalanced node down, and the rank; or it finds the tied node |
| Kavl.LeanPath | upstream/nfq/kavl.h:158-160 | the balance factors from the lowest unbalanced node down to the new node change by one towards it |
| Kavl.KavlTree.Insert | upstream/nfq/kavl.h:129-173 | on a well formed heap tree: returns the tied node and changes nothing, or makes the tree the one with x inserted; the rank is exact; order, balance and sizes are kept |
| Kavl.KavlTree.Erase | upstream/nfq/kavl.h:175-256 | removes exactly the node found for a key, or the first one; the rank counts the nodes up to it; a miss changes nothing; order, balance and sizes are kept |
| Kavl.KavlTree.Find | upstream/nfq/kavl.h:81-95 | returns the tied node and its rank, or null and the number of smaller keys |
| Kavl.KavlTree.Locate | upstream/nfq/kavl.h:181-200 | the first half of the removal, below the fake root |
| KavlErase.SeekKey | upstream/nfq/kavl.h:183-195 | the descent to a key records path, directions and rank, within 64 entries |
| KavlErase.SeekFirst | upstream/nfq/kavl.h:196-200 | the descent to the first node |
| KavlErase.SeekMin | upstream/nfq/kavl.h:214-222 | the walk to the successor, within the room that is left in the arrays |
| KavlErase.Unlink | upstream/nfq/kavl.h:203-232 | the three ways a node is taken out leave the remaining pieces linked as a tree with one subtree a level lower |
| KavlErase.FixUp | upstream/nfq/kavl.h:233-253 | the loop up the path restores the balance of the whole tree |
| KavlErase.Take | upstream/nfq/kavl.h:202-254 | the second half of the removal yields the tree of the recursive deletion |
| IpSet.AddBlockCovers | upstream/nfq/pools.c:314-332 | adding a block changes the covered addresses by exactly that block, however many longer entries it evicts |
| IpSet.AddBlockPrefixFree | upstream/nfq/pools.c:314-332 | the entries stay prefix-free |
| IpSet.AddAllMeaning | upstream/nfq/pools.c:314-391 | after any sequence of additions an address is covered exactly if some added block is a prefix of it |
| IpSet.MissOverlaps | upstream/nfq/pools.c:333-339 | a lookup succeeds exactly if some entry is a prefix or an extension of the key |
| IpSet.BitDelete | upstream/nfq/pools.c:297-303 | the entry found is removed, if there is one |
| IpSet.Evict | upstream/nfq/pools.c:325-329 | one turn of the loop removes one longer entry that starts with the new block |
| IpSet.BitAdd | upstream/nfq/pools.c:314-332 | the loop ends with the entries of the new set; the entry returned covers the new block |
| IpSet.AddrSet.Add | upstream/nfq/pools.c:341-364 | a prefix longer than the address is refused; otherwise address and prefix length are among those added, whatever entries are evicted |
| IpSet.AddrSet.Check | upstream/nfq/pools.c:356-359 | for a full-length address x the answer is whether some network a/p ever added holds it: a / 2^(width-p) == x / 2^(width-p) for the addresses as numbers; for shorter lookups, whether some network meets it |
| QSort.GnuQuicksort | upstream/ip2net/qsort.c:89-250 | for every array and total preorder: sorted, and a permutation of the input |
| QSort.MedianOfThree | upstream/ip2net/qsort.c:121-131 | the median of three is in the middle, with the two others on their sides, within the block |
| QSort.Partition | upstream/ip2net/qsort.c:133-164 | the scans stay in the block, and it falls into two parts around the pivot and at most one element between |
| QSort.NextSegment | upstream/ip2net/qsort.c:171-194 | parts of up to five elements are ignored; of two larger ones the larger is pushed, so the current one is at most half |
| QSort.StackFits | upstream/ip2net/qsort.c:101-108 | as every segment below the top is at most half as large as the one under it, no more than 62 segments are pending: the stack of 64 entries never overflows |
| QSort.QuickPhase | upstream/ip2net/qsort.c:101-196 | after the main loop the array is a permutation in ordered blocks of at most five elements |
| QSort.SmallestFirst | upstream/ip2net/qsort.c:216-221 | the smallest element is among the first five and is put in front |
| QSort.FindSlot | upstream/ip2net/qsort.c:228-230 | the inner loop of the insertion sort, which has no bound of its own, stops inside the array at the right place |
| QSort.InsertionSort | upstream/ip2net/qsort.c:225-248 | the final insertion sort sorts the array |
| QSort.Rotate | upstream/ip2net/qsort.c:233-247 | the element moves to its place and those between by one |
| Ip2net.Unique | upstream/ip2net/ip2net.c:56-66 | in-place removal of duplicates leaves each run of equal elements once |
| Ip2net.Unique6 | upstream/ip2net/ip2net.c:122-131 | the same for IPv6 |
| Ip2net.DedupSorted | upstream/ip2net/ip2net.c:56-66 | on a sorted list that yields the same addresses, each once, in ascending order |
| Ip2net.Ucmp | upstream/ip2net/ip2net.c:41-49 | the comparator agrees with the order of the numbers |
| Ip2net.Cmp6 | upstream/ip2net/ip2net.c:73-119 | comparing the halves in host order is comparing the addresses as numbers |
| Ip2net.MaskFromBitcount | upstream/ip2net/ip2net.c:50-53 | the mask clears exactly the low bits |
| Ip2net.MaskFromBitcount6Make | upstream/ip2net/ip2net.c:132-143 | the sixteen bytes are the mask with zct zero bits |
| Ip2net.MaskFromBitcount6Prepare | upstream/ip2net/ip2net.c:144-148 | the table holds the mask for every number of zero bits |
| Ip2net.SubnetValues | upstream/ip2net/ip2net.c:477-482 | address & mask, ~mask+1 and start | ~mask are start, size and last address of the aligned subnet |
| Ip2net.CountV4 | upstream/ip2net/ip2net.c:483 | the loop counts the addresses in the subnet from pos on |
| Ip2net.CountV6 | upstream/ip2net/ip2net.c:389-394 | so does the loop that compares masked addresses |
| Ip2net.SearchV4 | upstream/ip2net/ip2net.c:472-501 | the search, with its shortcut and its early exits, finds the smallest subnet with the most addresses among those that qualify |
| Ip2net.SearchV6 | upstream/ip2net/ip2net.c:381-413 | the same for IPv6 |
| Ip2net.NetStart | upstream/ip2net/ip2net.c:409-413 | the address printed is the start of the aligned subnet |
| Ip2net.Group | upstream/ip2net/ip2net.c:469-510 | the addresses are cut into consecutive groups, each a subnet so chosen or a single address |
| Ip2net.Summarise | upstream/ip2net/ip2net.c:466-510 | from any list: what is printed covers every given address, with disjoint nets in ascending order, and a subnet only where it holds at least two of them and the required number |
| Ip2net.SummaryMeaning | upstream/ip2net/ip2net.c:469-510 | that follows from the grouping |
| Subnets.EndMeaning | upstream/ip2net/ip2net.c:483 | counting from pos on finds exactly the addresses of the subnet that are not before pos |
| Subnets.NoEarlier | upstream/ip2net/ip2net.c:469-510 | a chosen subnet holds no earlier address, though only the addresses from pos on were counted |
| Subnets.GroupHolds | upstream/ip2net/ip2net.c:469-510 | a printed net holds exactly the addresses of its group |
| Subnets.CoveredOnce | upstream/ip2net/ip2net.c:469-510 | every address is in exactly one printed net |
| Subnets.NetsAscend | upstream/ip2net/ip2net.c:469-510 | a printed net ends before the next one begins |
| Subnets.SkippedCount | upstream/ip2net/ip2net.c:480-481 | behind the shortcut fewer addresses are left than needed, or, when the division rounds, at most as many |
| Subnets.ShortcutDiscards | upstream/ip2net/ip2net.c:480-485 | the shortcut discards a candidate with enough addresses, for some list, exactly if the number needed is not whole and rounds down to at least 2 |
| Subnets.ChosenIsTightest | upstream/ip2net/ip2net.c:474-501 | the net printed is the smallest in range that holds all addresses of the widest one that qualifies |
| Subnets.ChosenReachesMost | upstream/ip2net/ip2net.c:474-501 | where the number needed is whole, and always for IPv6, the same holds with the shortcut disregarded, and a single address is printed only if no candidate reaches the number needed |
| Uthash.HashTable.Add | upstream/nfq/uthash.h:397-429 | an element with a fresh key is appended to the insertion order and to the finite map; every element is in the bucket of its hash, counts are exact, both lists are doubly linked |
| Uthash.HashTable.Find | upstream/nfq/uthash.h:154-172 | returns the element the finite map has for the key, or null |
| Uthash.HashTable.Delete | upstream/nfq/uthash.h:448-478 | takes exactly that element out of order, map and bucket; the last one takes the table along |
| Uthash.HashTable.MakeTable | upstream/nfq/uthash.h:213-243 | a new table: empty buckets, a power of two of them |
| Uthash.HashTable.Expand | upstream/nfq/uthash.h:832-882 | the table has twice as many buckets, a power of two, filled with the same elements |
| Uthash.HashTable.AddToTable | upstream/nfq/uthash.h:338-348 | the element is in the bucket of its hash; the buckets are doubled exactly if its chain has reached ten times the factor of the bucket and expansion was not given up |
| Uthash.HashTable.AddToList | upstream/nfq/uthash.h:403-413 | the element is last in the insertion order; the buckets are left alone |
| Uthash.ExpandBuckets | upstream/nfq/uthash.h:849-869 | all elements are moved to the bucket their hash has among twice as many, chain by chain |
| Uthash.AddToBkt | upstream/nfq/uthash.h:766-785 | the element is pushed in front of its chain, whose count grows by one; other chains are left alone |
| Uthash.DelInBkt | upstream/nfq/uthash.h:788-801 | the element leaves its chain, whose count falls by one |
| Uthash.FindInBkt | upstream/nfq/uthash.h:744-763 | the walk finds the element with the key if it is in the chain |
| Uthash.RemoveFromList | upstream/nfq/uthash.h:462-472 | the element leaves the insertion order; head and tail follow |
| Uthash.AppendList | upstream/nfq/uthash.h:279-285 | the element is linked behind the tail |
| TcpReceiver.Deliver | upstream/nfq/desync.c:2261-2321 | a receiver that drops bytes it has handed over hands over the next piece of the stream, whatever bytes before that piece the segment carries |
| TcpReceiver.FillGap | upstream/nfq/desync.c:2342-2386 | a segment that fills the gap overwrites filling kept before, and everything kept is handed over |
| TcpReceiver.ExtendKept | upstream/nfq/desync.c:2342-2386 | a segment beyond the gap is kept, with its filling, in front of what is there |
| TcpReceiver.NarrowGap | upstream/nfq/desync.c:2199-2215 | a segment that fills a part of the gap |
| Splitting.MultiSplit | upstream/nfq/desync.c:2252-2328 | the receiver hands over exactly the payload; what is sent are the parts between the positions in order, the overlap filled from the pattern in front of the first one, or the packet as it is exactly without positions or with an overlap that does not fit |
| Splitting.MultiDisorder | upstream/nfq/desync.c:2330-2393 | the same with the parts from the last to the first and the overlap in front of the second one, cancelled if it reaches the first byte |
| Splitting.HostFakeSplit | upstream/nfq/desync.c:2072-2250 | the genuine segments, in both orders, with two or three positions, are exactly the pieces between the positions, and the receiver hands over the payload |
| Splitting.HostPieces | upstream/nfq/desync.c:2072-2250 | the piece before the host goes first; the one after it goes second with ordering 1 and last with ordering 0; the host in between, in one or two parts |
| Splitting.FillPattern | upstream/nfq/helpers.c:343-362 | byte i of the filling is byte i modulo the length of the pattern |
| Splitting.PartCarries | upstream/nfq/desync.c:2263-2299 | a part is sent at the sequence number of its place, less the overlap |
| SplitPositions.ResolveMultiPos | upstream/nfq/protocol.c:138-149 | the positions are exactly the offsets strictly inside the data, ascending, each once |
| SplitPositions.QsortSize | upstream/nfq/protocol.c:146 | the positions are sorted |
| SplitPositions.NormalizePos | upstream/nfq/desync.c:1839-1847 | the loop keeps the normalised positions that are not 0, in place |
| SplitPositions.NormalizedMembers | upstream/nfq/desync.c:1839-1847 | a packet is split exactly at the positions of the message strictly inside it |
| SplitPositions.NormalizedPositions | upstream/nfq/desync.c:1839-1847 | they strictly increase within the packet |
| SplitPositions.CutsOfMessage | upstream/nfq/desync.c:3478-3504 | splitting the packets one at a time cuts the message at the resolved positions and the packet boundaries and nowhere else |
| SplitPositions.CutOnce | upstream/nfq/desync.c:3478-3504 | a position inside a packet splits that packet only |
| Replay.PlayPacket | upstream/nfq/desync.c:1839-1946 | a delayed packet is cut at the positions of the whole message inside it and delivered |
| Replay.ReplayQueue | upstream/nfq/desync.c:3478-3504 | however the packets of a message are split, at the accumulated offsets, the receiver gets the message |
| Delay.Reassemble.Feed | upstream/nfq/conntrack.c:375-387 | data out of sequence is refused; otherwise as much as fits is appended and the sequence number moves on modulo 2^32 |
| Delay.Reassemble.Init | upstream/nfq/conntrack.c:357-365 | an empty buffer of the requested size |
| Delay.Flow.OnTcpData | upstream/nfq/desync.c:1500-1601 | exactly what becomes of a data packet: if it continues the message it is queued, and completes it exactly if the joined payloads reach the length in the record, and then all queued packets leave in order, each once, with their offsets; otherwise the queue is flushed and the packet is delayed exactly if it is within the limits, no retransmission, and its bytes begin a ClientHello record of at most 16384 bytes that it does not hold completely; else it passes |
| Delay.Flow.OnTcpReady | upstream/nfq/desync.c:1505-1601 | the same for a packet within the limits |
| Delay.Flow.OnTcpFed | upstream/nfq/desync.c:1541-1600 | a packet the buffer has taken is queued, and replayed with the others exactly if the message is complete |
| Delay.Flow.OnTcpFresh | upstream/nfq/desync.c:1541-1564 | without a reassembly the packet is delayed exactly if it begins a longer record, and passes otherwise |
| Delay.Flow.OnTcpEmpty | upstream/nfq/desync.c:636-645 | a packet without payload changes nothing, except that out of the limits of the profile the reassembly is cancelled and the queue flushed in order |
| Delay.Flow.OnQuic | upstream/nfq/desync.c:2905-3045 | exactly what becomes of a QUIC packet, by what its CRYPTO data with those before amount to: it passes behind the flushed queue, it is queued and its decrypted payload appended, or it completes the ClientHello and all queued packets leave in order |
| Delay.QuicAction | upstream/nfq/desync.c:2944-3045 | delayed while the frames leave a gap or the ClientHello is not complete; replayed exactly if a delayed ClientHello is complete |
| Delay.Flow.Reset | upstream/nfq/conntrack.c:103-107 | only resetting or freeing the track loses delayed packets, and exactly those |
| Delay.Flow.SendDelayed | upstream/nfq/desync.c:488-496 | every queued packet leaves as it came, first in, first out |
| Delay.Flow.Stop | upstream/nfq/desync.c:545-556 | the reassembly ends and the queue is flushed |
| Delay.Flow.Start | upstream/nfq/desync.c:499-521 | a reassembly starts with the payload, or is refused for its size |
| Delay.Flow.FeedNext | upstream/nfq/desync.c:522-544 | a packet in sequence extends the buffer; another one ends the reassembly and flushes the queue |
| Delay.Flow.Enqueue | upstream/nfq/desync.c:1581-1600 | the packet is queued last; if the buffer is full, all are replayed |
| Delay.Flow.DequeueAll | upstream/nfq/desync.c:3478-3504 | packets leave first in, first out, each with the total length of those before it |
| Delay.ChainedPackets | upstream/nfq/desync.c:3478-3504 | the queued packets are consecutive packets of the stream |
| Delay.PlayMessage | upstream/nfq/desync.c:1594-1598 | the replay of a completed message delivers the joined payloads, every packet played at the offset with which it left the queue |
| Delay.HelloPrefix | upstream/nfq/desync.c:1513-1541 | the buffer of a reassembly that began with a ClientHello is again recognised as one |
| Tls.FindExt | upstream/nfq/protocol.c:480-491 | the search computes the extension the walk through a complete ClientHello finds |
| Tls.FindInExtensions | upstream/nfq/protocol.c:460-478 | the loop is the recursive walk through the extensions |
| Tls.ExtLenOffset | upstream/nfq/protocol.c:385-416 | the extensions length lies behind the fixed part and inside the data (where exactly: `Hello.ExtensionFound`) |
| Hello.ExtensionFound | upstream/nfq/protocol.c:385-491 | in a ClientHello as section 4.1.2 of RFC 8446 lays it out, whatever the session id, the cipher suites, the compression methods and the extensions are, the parser finds the extensions length, and of every extension type the first extension, with its bytes |
| Hello.ExtensionMissing | upstream/nfq/protocol.c:385-491 | a type that is not among the extensions is not found |
| Hello.HelloRenamed | upstream/nfq/nfqws.c:1408-1457 | replacing the name in the serialised message gives the serialised message with the new name, byte for byte, if everything still fits its length field; bytes behind the record are kept |
| Sni.SniReplaced | upstream/nfq/nfqws.c:1408-1457 | reading the new message finds exactly the new name, with record, handshake, extensions, extension and name lengths changed by the same amount, if and only if none of the length fields that are parsed overflows |
| Sni.ListLengthKept | upstream/nfq/nfqws.c:1448 | the list length, which is not parsed, changes by the same amount, if that fits |
| Sni.OthersKept | upstream/nfq/nfqws.c:1408-1457 | every other extension type is found again exactly if it was there, with the same bytes |
| Sni.ReplaceSni | upstream/nfq/nfqws.c:1408-1457 | the buffer holds the new message, or is unchanged exactly if there is no name or no room |
| Sni.LocateSni | upstream/nfq/nfqws.c:1411-1421 | the name is found exactly if the parser finds one |
| Sni.ExchangeName | upstream/nfq/nfqws.c:1435-1456 | moving the tail, adjusting the six fields and copying the name yields the new message |
| Sni.AddToFields | upstream/nfq/nfqws.c:1444-1449 | each of the six fields is increased in place, at its width |
| Sni.AdjustedValue | upstream/nfq/nfqws.c:1444-1449 | a field that does not overlap the others grows by the difference, if it does not overflow |
| Sni.FoundLayout | upstream/nfq/protocol.c:385-501 | what a successful parse tells about the bytes of the message |
| Quic.QuicDefragCrypto | upstream/nfq/protocol.c:856-951 | succeeds exactly on payloads of CRYPTO frames, padding and pings (sections 19.1, 19.2 and 19.6 of RFC 9000) whose frames fit and are not too many; then writes the frame header, the last copy of every byte covered and zeros elsewhere, and reports full exactly if the frames cover every byte up to the greatest end |
| Quic.MergeRanges | upstream/nfq/protocol.c:920-947 | the in-place merge of sorted ranges ends with one range from 0 exactly if every byte is in some range |
| Quic.IsFull | upstream/nfq/protocol.c:913-947 | sorting and merging decide full coverage |
| Quic.CollectFrames | upstream/nfq/protocol.c:871-912 | the loop over the frames keeps the ranges that are not repeated and the bytes they bring, or fails |
| Quic.PlaceData | upstream/nfq/protocol.c:897-905 | the gap before a frame is zeroed, and its data overwrite what was there |
| Quic.FullIsPrefix | upstream/nfq/protocol.c:856-951 | if all frames are slices of one stream and the coverage is full, the output is the beginning of the stream |
| Quic.WrittenIsStream | upstream/nfq/protocol.c:892-905 | each byte covered by slices of one stream is the byte of the stream |
| Quic.VarintWritten | upstream/nfq/helpers.c:275-296 | a number below 2^62 written in eight bytes with the size bits set is read back |
| Quic.VarintRead | upstream/nfq/protocol.c:572-596 | a number encoded as section 16 of RFC 9000 demands, in any of the four sizes it fits, is read with its size |
| Quic.VarintIsEncoded | upstream/nfq/protocol.c:572-596 | whatever is read is the encoding of the value |
| Quic.ReadEncoded | upstream/nfq/protocol.c:871-891 | an encoded frame, padding or ping is read as what was encoded |
| Quic.ReadIsEncoded | upstream/nfq/protocol.c:871-891 | whatever is read without failure is an encoding |
| Quic.ParseMeaning | upstream/nfq/protocol.c:871-891 | the parser accepts exactly the sequences of encoded frames, padding and pings, and yields their frames in order |
| Quic.SyntheticIsFrame | upstream/nfq/protocol.c:913-947 | what is written is itself a payload of one CRYPTO frame at offset 0 with the joined data |
| Quic.HelloReadBack | upstream/nfq/protocol.c:598-612 | the reader finds the stream at offset 10 with its length, exactly if it starts with a ClientHello header |
| Conntrack.StateForward | upstream/nfq/conntrack.c:122-200 | over any run of segments without a re-initialising one the state only moves SYN, ESTABLISHED, FIN |
| Conntrack.RestartsAreSteps | upstream/nfq/conntrack.c:138-153 | a segment takes a connection back exactly if it re-initialises the track, and then to SYN |
| Conntrack.FeedState | upstream/nfq/conntrack.c:138-165 | the state and both initial sequence numbers follow the transition function; counters and cutoff survive exactly unless the track is re-initialised |
| Conntrack.FeedPacket | upstream/nfq/conntrack.c:122-200 | what one packet does to every field of the track: state, positions of both directions modulo 2^32, counters and time |
| Conntrack.RunMeaning | upstream/nfq/conntrack.c:138-165 | a run without a re-initialisation ends in FIN exactly if it began there or some segment has FIN or RST, and in SYN exactly if it began there and all segments are SYN or SYN/ACK, in terms of the flags |
| Conntrack.InitialNumber | upstream/nfq/conntrack.c:140-153 | the number a connection begins with comes from its SYN, or from the SYN/ACK unless that does not match the SYN before it |
| Conntrack.KeyInjective | upstream/nfq/conntrack.c:66-86 | packets have the same key only with the same protocols and endpoints |
| Conntrack.SwapIsAnswer | upstream/nfq/conntrack.c:18-27 | swapping the key of a packet gives the key of a packet from its destination to its source |
| Conntrack.OnePerPairMeaning | upstream/nfq/conntrack.c:109-119 | the invariant of the table: all keys are keys of connections, and no two entries have the same unordered pair of endpoints |
| Conntrack.Expired | upstream/nfq/conntrack.c:299-306 | cut off, or idle for at least the timeout of its protocol and state |
| Conntrack.SameEntry | upstream/nfq/conntrack.c:202-229 | a packet and its answer, given by their endpoints, lead to the same entry, and exactly one of the two keys is the stored one |
| Conntrack.OnePerPairAdd | upstream/nfq/conntrack.c:109-119 | a new entry keeps at most one entry per pair of endpoints |
| Conntrack.Pool.DoubleSearch | upstream/nfq/conntrack.c:202-229 | the entry stored under the key from source to destination, otherwise the one from destination to source, which is what the direction says |
| Conntrack.Pool.Feed | upstream/nfq/conntrack.c:231-270 | the entry of the flow between the two endpoints is found, with the direction fixed by the stored key, or made for a SYN, a SYN/ACK in the direction of its answer, or UDP, and nothing else; from then on both directions lead to it; it is updated as the packet demands, and no other entry is |
| Conntrack.Pool.FeedEntry | upstream/nfq/conntrack.c:122-200 | the track is updated in place as the packet demands; the table is untouched |
| Conntrack.Pool.Drop | upstream/nfq/conntrack.c:272-289 | exactly the entry between the two endpoints leaves the table, in whichever direction it was stored |
| Conntrack.Pool.Purge | upstream/nfq/conntrack.c:291-313 | every entry is visited once though entries are deleted on the way: exactly the expired ones go, the order of the others is kept |
| Conntrack.Pool.PurgeOne | upstream/nfq/conntrack.c:298-310 | one turn of the loop, with the next element taken before the deletion |
| Tamper.FindHostIn | upstream/tpws/protocol.c:182-192 | the first Host header is found, or there is none |
| Tamper.HostAtMeaning | upstream/tpws/protocol.c:172-181 | a Host header begins where, in lower case, a line feed and the text host: stand |
| Tamper.LineMeaning | upstream/tpws/tamper.c:444-455 | a line is a letter and four hexadecimal digits, a colon and a space, the filler, and the end of the line |
| Tamper.Hex | upstream/tpws/tamper.c:444 | the four digits stand for the 16-bit number |
| Tamper.PadSize | upstream/tpws/tamper.c:440-443 | what a header leaves is nothing or room for another one, no subtraction goes below zero, and the padding is 2048 bytes unless the rest fits |
| Tamper.FillGap | upstream/tpws/tamper.c:437-457 | the loop ends and fills exactly the gap with complete header lines, all but the last with 2048 filler bytes |
| Tamper.PadHost | upstream/tpws/tamper.c:414-460 | the lines inserted at the Host header have exactly the computed length, the total fits the buffer, and the bytes on both sides are unchanged |
| Tamper.AfterLineFeed | upstream/tpws/tamper.c:444-455 | in the padding a line feed is the last byte, or begins a header name that is not Host |
| Tamper.HostStillFirst | upstream/tpws/tamper.c:414-460 | the search finds the same Host header again, moved by the padding |
| Tamper.DivideAt | upstream/tpws/tamper.c:485-490 | the bytes of the two records in the buffer |
| Tamper.DividedAt | upstream/tpws/tamper.c:471-483 | whether the record is divided, and where: at the position found, or, if that is behind the record, one byte into it, so that neither part is empty |
| Tamper.DivideRecord | upstream/tpws/tamper.c:469-503 | the record is divided and the split positions are corrected, or nothing changes |
| Tamper.DivisionKept | upstream/tpws/tamper.c:475-490 | two complete, non-empty records, and a receiver of the TLS stream gets the same bytes of the same content type from them and from what follows (section 5.1 of RFC 8446) |
| Tamper.PositionsKept | upstream/tpws/tamper.c:497-500 | corrected positions still ascend inside the data and point at the same byte, unless they are the cut or in the length field |
| Tamper.MovePositions | upstream/tpws/tamper.c:497-500 | the loop adds five to the positions behind the cut |
| Wire.MemMove | upstream/nfq/nfqws.c:1443 | overlapping bytes are moved as if through a copy, nothing else changes |

## Left out

- Sni.OthersKept: stated for length fields that do not overflow; what a parser makes of an overflown message is not described beyond `Sni.SniReplaced`.
- Delay.Flow.OnQuic: decryption and the verdict on the CRYPTO frames are parameters; that the replay of QUIC packets sends fake packets is not modelled.
- Delay.Flow.OnTcpData: whether the packet is within the limits of the profile and whether it is a retransmission are parameters; the retransmission counters are not modelled.
- Splitting.HostFakeSplit: the fake segments are not part of the stream the receiver sees; they are made to be dropped on the way or by the receiver.
- Splitting.MultiSplit: streams of less than 2 GiB, so that sequence numbers can be compared; sends succeed, except that one with overlap may exceed the MTU.
- QSort.GnuQuicksort: elements are exchanged and rotated as a whole, not byte by byte, and the length is below 2^64; the qsort of the C library is represented by it.
- Kavl.KavlTree.Erase: removing the first node of an empty tree reads outside the path array in the original, and is excluded.
- Kavl.KavlTree.Insert: fewer than 2^32 nodes, the range of the size field.
- Uthash.HashTable.Expand: the number of buckets is unbounded, it does not wrap at 2^32; the counts that decide whether later doublings are given up concern speed only and are not part of the contract.
- Ip2net.Summarise: reading the input, the CIDR lines passed through unchanged, and printing; IPv6 addresses are 128-bit numbers.
- Conntrack.FeedPacket: window sizes, scale factors, data packet counters, host names and the reset of the reassembly (which is in `Delay`) are not modelled.
- Tamper.FillGap: random numbers are a parameter; the order in which the C compiler evaluates the two calls in one argument list is taken from left to right.
- Tls.FindExt: only whole messages; the variants for partial messages are used to find host names, which is not modelled.
- The local arrays for paths, stacks, ranges and positions are sequences with their capacity asserted; freeing memory and running out of it are not modelled.
- The iterators of kavl, the sorting and set operations and the Bloom filter of uthash, and the printing of IP sets.
- FAKEDSPLIT, FAKEDDISORDER, fake packets, TTL and IP identification, IP fragmentation and checksums.
- The resolution of split markers to offsets (host, second-level domain, ...): offsets are parameters of `SplitPositions.ResolveMultiPos`.
- Random server names and the padding encapsulation of fake ClientHellos.
- The other changes tpws makes to HTTP requests (method case, spaces, dots, line ends).
- Sockets, netfilter and WinDivert, option parsing, host lists and their reloading, and cryptography.
