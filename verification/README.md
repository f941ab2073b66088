# A verified model of aria2's self-contained algorithms

aria2 is a download utility. This project models the parts of it that are algorithms in their own right, with their
state, and proves what they promise. `dafny verify dfyconfig.toml` checks all of it.

* **The Kademlia routing table** (`Bytes`, `IdSpace`, `DhtBucket`, `RoutingView`, `DhtBucketTree`, `DhtRoutingTable`,
  `RoutingTheorems`). Buckets and tree nodes are objects on the heap with the source's fields; identifiers are 20
  bytes, ranges are compared byte by byte. The tree is described by the path to the local identifier and the leaf
  beside each of its nodes, and everything a run of additions and splits does is tied to a mathematical view of it.
  The whole result of the closest-node search follows from the order in which it visits buckets.
* **The iterative lookup** (`DhtNodeLookup`). A protocol with at most three messages outstanding, with an exact account
  of what was sent, settled and is outstanding.
* **The streaming bencode parser** (`BencodeSpec`, `BencodeParser`, `BencodeTheorems`, `BencodeRoundTrip`,
  `BencodeTexts`, `BencodeSoundness`, `BencodeAcceptance`). A byte-wise transition function is the specification; the
  parser class, which reads runs of bytes and keeps an explicit stack of modes, refines it. Proved of the specification
  are fragmentation, nesting on every run, the round trip, and that exactly the texts of values in a lenient grammar are
  accepted.
* **The cookie store** (`Cookies`, `DomainNodes`, `CookieStore`). A trie of reversed domain labels with a tracker of
  recently used nodes, eviction that prunes the trie, and the search by host and path.
* **Block bit fields** (`Bitfield`, `PieceLengths`, `PieceSearch`, `BlockBitfields`). Packed bits with cached figures,
  counted in 32-bit words, and three searches for the next block to fetch.
* **The chunked transfer decoder** (`ChunkedSpec`, `ChunkedTheorems`, `ChunkedDecoding`). Again a byte-wise
  specification refined by the class that takes data in pieces; it accepts exactly the texts of a grammar, and refuses a
  byte exactly when no such text goes on with it.
* **Choking rounds** (`ChokePeers`, `SeederChoke`, `LeecherChoke`) over peer objects whose flags the rounds set.
* **Basic credentials** (`BasicCredentials`). An ordered set searched for the longest path that leads to a request.

`Sequences` holds facts that do not depend on what is stored.

Where the documentation of the source says more than the code does, the model follows the code:

* The header of the tree calls the result of the search the K closest nodes. It need not be
  (`RoutingTheorems.CutCanMissACloserNode`); `RoutingTheorems.ClosestExactlyIf` says exactly when it is.
* Dropping a node can bring an identifier into a bucket twice (`DhtRoutingTable.DropCanDuplicate` is such a run), exactly
  as `DhtRoutingTable.TableStaysDistinctIff` says.
* A lookup can ask a node again and again and so never end (`DhtNodeLookup.AskForever`).
  `DhtNodeLookup.ReopensIff` says when an identifier can be asked again,
  `DhtNodeLookup.DHTNodeLookup.EndsWhenAllSettled` when a lookup ends.
* A search for cookies misses some that match (`CookieStore.MissedExactly` says which).
* The ranged in-order block search can return a block beyond its range (`PieceSearch.InorderCanLeaveRange`,
  `PieceSearch.InorderOfEmptyRange`), exactly if `PieceSearch.InorderOutsideIff`.
* Updating a basic credential that is already stored has no effect, because pointers are compared
  (`BasicCredentials.NewPasswordIsLost`), and activation stores the request's path, not "/".
* A number's sign state of the bencode parser skips bytes that are neither sign nor digit, and a structure that is
  too deep is refused without entering the error state.

What the source gets from elsewhere is a parameter: clocks, whether a node is bad, whether a host is numeric, what a
subclass or a resolver answers. Shuffles and unstable sorts are methods that promise a permutation and no more.
An assertion of the source with a side effect (`src/DHTBucket.cc:197`) is executed.

## Model

| member | source | states |
|---|---|---|
| Bytes.FlipBitBits | src/bitfield.cc:41-47 | flipping bit i, counted from the most significant bit of byte 0, changes bit i and no other |
| Bytes.LexLessBits | src/DHTBucket.cc:98-105 | byte-wise lexicographic order of identifiers is decided by their first differing bit |
| Bytes.XorCloserBits | src/XORCloser.h:55-69 | of two different identifiers, the one that agrees with the key at the first bit where they differ is strictly closer |
| IdSpace.RangeIsBlock | src/DHTBucket.cc:98-105 | the inclusive byte range of a block holds exactly the identifiers with its prefix |
| IdSpace.HalvesAreBlocks | src/DHTBucket.cc:182-192 | flipping bit p of a copy of max and of min cuts a block with a p-bit prefix into the blocks of its two extensions |
| IdSpace.BlockSize | src/DHTBucket.cc:182-192 | a block with a p-bit prefix holds 2^(160-p) consecutively numbered identifiers |
| IdSpace.HalvesMakeBlock | src/DHTBucketTree.cc:62-68 | the halves lie side by side and together are the block, so an inner node spans exactly its children |
| IdSpace.AgreeingIsCloser | src/XORCloser.h:55-69 | sharing q leading bits with the key makes strictly closer than anything that does not |
| DhtBucket.HalvesPartition | src/DHTBucket.cc:194-203 | each node of a bucket lands in exactly one of the two halves |
| DhtBucket.WithPrefixKeepsOrder | src/DHTBucket.cc:194-203 | and each half keeps the old order: its nodes stand at increasing positions of the bucket |
| DhtBucket.DHTBucket.AddNode | src/DHTBucket.cc:107-132 | a namesake moves to the tail as the new node; a new one is appended if there is room or replaces a bad one in front; otherwise the bucket is unchanged and the answer no. A node outside its block is taken, too; for one inside the bucket stays valid |
| DhtBucket.DHTBucket.CacheNode | src/DHTBucket.cc:134-141 | the cache is the node and what follows it, cut at two |
| DhtBucket.DHTBucket.DropNode | src/DHTBucket.cc:143-153 | the first node of the identifier gives way to the front of the cache, if both exist |
| DhtBucket.DHTBucket.MoveToTail | src/DHTBucket.cc:164-171 | the namesake moves to the tail |
| DhtBucket.DHTBucket.Split | src/DHTBucket.cc:178-213 | both buckets are valid over the two halves of the block and hold what was in each half; with distinct identifiers exactly, in order |
| DhtBucket.DHTBucket.GetGoodNodes | src/DHTBucket.cc:215-220 | the nodes that are not bad, in order, after what the list held |
| DhtBucket.EraseBad | src/DHTBucket.cc:215-220 | erasing bad nodes in place leaves the others in order |
| DhtBucketTree.TreeNode.Split | src/DHTBucketTree.cc:91-97 | the leaf becomes an inner node over two leaves with the halves of its bucket, the lower half on the left, and keeps its range |
| DhtBucketTree.DigFollowsBit | src/DHTBucketTree.cc:70-81 | choosing a child by range follows the next bit of the key |
| DhtBucketTree.FindTreeNodeFor | src/DHTBucketTree.cc:101-110 | the descent ends, at the leaf on the level where the key leaves the path to the local identifier |
| DhtBucketTree.FindBucketFor | src/DHTBucketTree.cc:112-117 | the bucket found is the one whose block has the key |
| DhtBucketTree.CollectDownwardLeftFirst | src/DHTBucketTree.cc:130-142 | what is gathered is a prefix of the good nodes below, bucket by bucket from the left, and all of them unless K are reached |
| DhtBucketTree.CollectDownwardRightFirst | src/DHTBucketTree.cc:146-158 | the same from the right |
| DhtBucketTree.CollectUpward | src/DHTBucketTree.cc:162-181 | on the way up every other child is a leaf with a bucket, and their good nodes are gathered until K are reached |
| DhtBucketTree.FindClosestKNodes | src/DHTBucketTree.cc:184-210 | the list is extended by the good nodes in the search order of the view, cut at K; a full list is left alone |
| DhtBucketTree.EnumerateBucket | src/DHTBucketTree.cc:212-222 | the buckets of all leaves from left to right |
| DhtBucketTree.TreeIsWellFormed | src/DHTBucketTree.cc:62-97 | a tree on the heap that has the shape is a well-formed view |
| RoutingView.CellForIsUnique | src/DHTBucketTree.cc:101-110 | the bucket where the search ends has a prefix the key carries, and no other bucket has |
| RoutingTheorems.BucketsTile | src/DHTBucketTree.cc:212-222 | listed from left to right, bucket ranges begin at the least identifier, end at the greatest and follow each other without gap or overlap |
| RoutingTheorems.ExactlyOneBucket | src/DHTBucketTree.cc:101-110 | every identifier lies in the range of exactly one listed bucket: the one the search finds |
| RoutingTheorems.BucketSizes | src/DHTBucket.cc:173-176 | a bucket at depth p spans 2^(160-p) identifiers, and there are at most 160 buckets |
| RoutingTheorems.SearchVisitsAll | src/DHTBucketTree.cc:184-210 | the search order visits every good node as often as listing all buckets does |
| RoutingTheorems.SubtreesFirst | src/DHTBucketTree.cc:184-210 | each subtree on the key's path is visited completely before it is left |
| RoutingTheorems.ClosestGuarantee | src/DHTBucketTree.cc:184-210 | min(K, all) good nodes are returned, and for every subtree on the path from the key's bucket to the root a node from outside only together with all good nodes inside, each strictly closer |
| RoutingTheorems.ClosestDistinct | src/DHTBucketTree.cc:184-210 | with distinct identifiers in each bucket no node is returned twice |
| RoutingTheorems.ClosestExactlyIf | src/DHTBucketTree.h:108-112 | the result is the closest nodes if and only if, in the order in which the tree is visited, nobody behind the cut at K is closer than one before it who shares equally many leading bits with the key |
| RoutingTheorems.ClosestIfNoGroupIsCut | src/DHTBucketTree.cc:184-210 | so it is the closest nodes whenever at most K are good, or exactly K share some number of leading bits with the key |
| RoutingTheorems.SharersFirst | src/DHTBucketTree.cc:184-210 | the nodes that share q bits with the key are those visited first, as many as there are |
| RoutingTheorems.CutCanMissACloserNode | src/DHTBucketTree.h:108-112 | a tree, a key and two nodes for which a strictly closer node is left out |
| RoutingTheorems.SplitConserves | src/DHTBucket.cc:178-213 | a split at the local bucket loses and invents no identifier, and no node when identifiers are distinct |
| RoutingTheorems.SplitKeepsDistinct | src/DHTBucket.cc:178-213 | identifiers that were distinct in every bucket still are |
| RoutingTheorems.AddOutcomeMeaning | src/DHTBucket.cc:107-132 | after addNode only the node is new, only its namesake or the bad node in front is gone, and refusal changes nothing |
| RoutingTheorems.AddConserves | src/DHTRoutingTable.cc:74-110 | the same at the level of the table: at most one node with another identifier gives way, it was bad, and only when the new identifier was not there |
| RoutingTheorems.HeldWhereFound | src/DHTRoutingTable.cc:132-136 | a node of the table is in the bucket its identifier leads to |
| DhtRoutingTable.SplitAllowedIffOwn | src/DHTBucket.cc:173-176 | only the bucket of the local identifier may be split, and only below 159 bits of prefix |
| DhtRoutingTable.GrowOwn | src/DHTBucketTree.cc:91-97 | splitting the local leaf gives a tree of the same shape, one level deeper, with the new sibling where the local identifier is not |
| DhtRoutingTable.RangesOfLeaves | src/DHTBucketTree.cc:212-222 | the listed buckets have the ranges of the view |
| DhtRoutingTable.DHTRoutingTable.constructor | src/DHTRoutingTable.cc:52-60 | one bucket over the whole space, a well-formed tree |
| DhtRoutingTable.DHTRoutingTable.AddNode | src/DHTRoutingTable.cc:64-110 | the local identifier is refused; otherwise the table, split as far as needed, has the node if the answer is yes, having lost at most one bad node besides namesakes, and a refusal loses nothing and leaves a full bucket that cannot be split; the replacement cache of the bucket gets a good node that is refused in front, and nothing otherwise; the shape is kept on every run |
| DhtRoutingTable.DHTRoutingTable.FindClosest | src/DHTRoutingTable.cc:112-117 | on an empty list it returns what the theorems speak of |
| DhtRoutingTable.DHTRoutingTable.GetBuckets | src/DHTRoutingTable.cc:167-171 | the ranges of the buckets tile the identifier space, and there are as many as counted |
| DhtRoutingTable.DHTRoutingTable.DropNode | src/DHTRoutingTable.cc:152-155 | only the bucket of the node may change: its first namesake gives way to the front of the replacement cache, which loses it; nothing changes without either |
| DhtRoutingTable.DropKeepsDistinctIff | src/DHTBucket.cc:143-153 | after a drop identifiers are distinct exactly if the cached node is the dropped one's namesake or new to the bucket |
| DhtRoutingTable.TableStaysDistinctIff | src/DHTRoutingTable.cc:152-155 | the same for the whole table, from the table and the cache before the drop |
| DhtRoutingTable.DropDuplicates | src/DHTBucket.cc:107-155 | a run of any full bucket away from the local node: a node is refused and cached, gets in when the front goes bad, and comes in once more when another is dropped |
| DhtRoutingTable.DropCanDuplicate | src/DHTBucket.cc:107-155 | from an empty bucket of the upper half that run happens |
| DhtNodeLookup.NearTotal | src/XORCloser.h:55-69 | of two identifiers one is as near as the other, and both ways only if they are equal |
| DhtNodeLookup.NearTransitive | src/XORCloser.h:55-69 | being as near is transitive, so entries can be sorted by it |
| DhtNodeLookup.StableSort | src/DHTAbstractNodeLookupTask.h:197-198 | a sorted permutation; the order among equal identifiers is open, see below |
| DhtNodeLookup.Unique | src/DHTAbstractNodeLookupTask.h:199-202 | of a sorted list: the same identifiers, each once |
| DhtNodeLookup.CutIsClosest | src/DHTAbstractNodeLookupTask.h:197-207 | sorting, dropping repetitions and cutting at K leaves exactly the K closest distinct identifiers of the pool, in order |
| DhtNodeLookup.Renewed | src/DHTAbstractNodeLookupTask.h:171-177 | an entry of another address or port is kept as it is; one of both the same names the node that answered and keeps its flag |
| DhtNodeLookup.SendingMeaning | src/DHTAbstractNodeLookupTask.h:83-94 | sending changes only flags, the nodes asked are exactly those of the entries that become used, in order, these are the first unused ones, and it goes on until three are in flight or every entry is used |
| DhtNodeLookup.DHTNodeLookup.SendMessage | src/DHTAbstractNodeLookupTask.h:83-94 | the loop does that, and what is in flight grows by the nodes asked |
| DhtNodeLookup.DHTNodeLookup.SendMessageAndCheckFinish | src/DHTAbstractNodeLookupTask.h:96-113 | what is outstanding, and what was sent, grows by exactly the nodes asked; the lookup is finished exactly when nothing is outstanding; if more messages are wanted every entry has been used then |
| DhtNodeLookup.DHTNodeLookup.Startup | src/DHTAbstractNodeLookupTask.h:147-165 | the first three nodes are asked; finished at once only without nodes |
| DhtNodeLookup.DHTNodeLookup.OnReceived | src/DHTAbstractNodeLookupTask.h:167-209 | before further sends the entries are the K closest distinct identifiers among the old entries, renewed by endpoint, and the received nodes other than the local one; what is outstanding loses the message answered and gains exactly those sent, so in flight are the sent ones without those answered or timed out, at most three |
| DhtNodeLookup.DHTNodeLookup.OnTimeout | src/DHTAbstractNodeLookupTask.h:211-224 | the first entry of the identifier goes, the order stays, and the same exact accounting holds |
| DhtNodeLookup.OnlyGetsCloser | src/DHTAbstractNodeLookupTask.h:178-207 | if the pool has all old identifiers, the k-th best afterwards is at most as far as the k-th best before |
| DhtNodeLookup.ReopensIff | src/DHTAbstractNodeLookupTask.h:178-207 | an identifier among the closest whose entries have all been asked can be open for another message after an answer exactly if the answer names it and it is not the local one |
| DhtNodeLookup.NewIsOpen | src/DHTAbstractNodeLookupTask.h:178-207 | it is open for certain if the answer names it, no old entry has it and it is among the closest |
| DhtNodeLookup.AskForever | src/DHTAbstractNodeLookupTask.h:147-209 | a run with any number of answers after which the lookup is not finished and one node has been asked once more than that: it answers under another identifier than the one it is named by, and names itself |
| DhtNodeLookup.DHTNodeLookup.EndsWhenAllSettled | src/DHTAbstractNodeLookupTask.h:96-113 | answers, time-outs, messages in flight and unused entries together are at most as many as the nodes named to the lookup; once as many have been answered or timed out it is finished and every entry has been used |
| BencodeTheorems.FeedKeeps | src/BencodeParser.cc:77-270 | on every run the stack stays within 50 and the length and number accumulators within 0 and the greatest 64-bit integer |
| BencodeTheorems.Fragmentation | src/BencodeParser.cc:77-270 | feeding two pieces is feeding them joined: same state, same callbacks, same bytes taken, same error |
| BencodeTheorems.CallbacksNest | src/BencodeParser.cc:321-365 | begin and end callbacks of a call, failed or not, lead from the elements that stack and state say are open before to those they say are open after; in the error state the code tells which those are |
| BencodeTheorems.EveryRunNests | src/BencodeParser.cc:284-365 | on every sequence of calls, with failed ones and resets in it, the callbacks since the last reset are well nested and exactly the elements that stack and state say are open; the stack stays within its limit |
| BencodeTheorems.FinishedIsClosed | src/BencodeParser.cc:272-282 | a complete parse has closed everything it opened |
| BencodeRoundTrip.VerdictMeaning | src/BencodeParser.cc:151-160 | a value is refused exactly if it nests too deep or has a number or length out of range |
| BencodeRoundTrip.FeedValue | src/BencodeParser.cc:77-270 | in any surrounding, a value's encoding makes its callbacks and leads to the state after it, or to the error of the first limit it exceeds |
| BencodeRoundTrip.ParsesEncodings | src/BencodeParser.cc:77-270 | a fresh parser fed an encoding and any further bytes takes exactly the encoding, makes exactly the value's callbacks and is finished; or fails if a limit is exceeded |
| BencodeSoundness.StepTells | src/BencodeParser.cc:77-270 | every byte taken leaves a story of what has been read: open levels, what is complete in them, the value underway, and the text of each |
| BencodeSoundness.FinishedIsValue | src/BencodeParser.cc:77-282 | whenever a fresh parser is finished without error, the bytes it has taken are the text of one value in the lenient grammar, at most 49 deep and with all numbers and lengths in range, and its callbacks are exactly those of that value |
| BencodeAcceptance.AcceptsText | src/BencodeParser.cc:77-282 | the converse: a text of a value in the lenient grammar, at most 49 deep and with all numbers and lengths in range, is taken exactly by a fresh parser, whatever follows, with the callbacks of that value |
| BencodeAcceptance.AcceptsExactly | src/BencodeParser.cc:77-282 | so the parser is finished after k bytes if and only if those are such a text |
| BencodeParser.Parser.Reset | src/BencodeParser.cc:284-293 | a reset parser is a fresh one |
| BencodeParser.Parser.PushState | src/BencodeParser.cc:347-356 | at most 50 entries, otherwise the error and no change |
| BencodeParser.Parser.OnValueEnd | src/BencodeParser.cc:321-345 | where parsing goes on after a value; the assertion in the default case holds and no pop finds an empty stack |
| BencodeParser.Parser.ReadLength | src/BencodeParser.cc:151-183 | a run of digits and the colon have the effect of the single bytes |
| BencodeParser.Parser.ReadNumber | src/BencodeParser.cc:208-240 | the same for the digits of a number and the byte after them |
| BencodeParser.Parser.ParseUpdate | src/BencodeParser.cc:77-270 | whatever is taken at once, state, answer and callbacks are those of the byte-wise specification, and callbacks that were nested still are |
| BencodeParser.Parser.ParseFinal | src/BencodeParser.cc:272-282 | the same, and premature data is an error |
| Cookies.SplitAtDot | src/util_string.h:172-193 | splitting at a dot gives the pieces of both sides |
| Cookies.PathMatchIff | src/cookie_helper.cc:430-435 | a cookie path matches a request path exactly if they are equal, or the request path goes on after it and it ends with a slash, or it goes on with a slash |
| Cookies.DomainMatchIff | src/cookie_helper.cc:422-428 | a domain matches a host exactly if they are equal, or the host is not numeric and is something, a dot and the domain |
| Cookies.MatchIff | src/Cookie.cc:82-96 | which cookies a request gets, in terms of their fields: security, expiry, path, and the host itself or its domain |
| Cookies.MatchingDomainIsOnTheWay | src/CookieStorage.cc:234-245 | a domain that matches a host lies on the host's way through the trie, unless it is numeric and another |
| Cookies.ComputePathDepth | src/CookieStorage.cc:318-335 | the loop counts the components of a path |
| Cookies.PathDepthCounts | src/CookieStorage.cc:321-334 | depths add up across a slash; a piece without a slash has depth one, an empty one none: the depth is the number of components |
| Cookies.BeforeIsStrictWeak | src/CookieStorage.cc:354-373 | the order of results is a strict weak order |
| Cookies.OrderedMeans | src/CookieStorage.cc:354-373 | in an ordered list a cookie of a deeper path stands first, and of two as deep the one created earlier |
| DomainNodes.AddedMeaning | src/CookieStorage.cc:84-139 | identities stay distinct and at most 50; the cookie is in unless expired and takes over its namesake's creation time; what leaves is the namesake, an expired cookie, or the one least recently used of 50 live ones |
| DomainNodes.AddedInFields | src/CookieStorage.cc:84-139 | the same in terms of domain, path, name, expiry and times of creation and access |
| DomainNodes.AddCookie | src/CookieStorage.cc:84-139 | the steps have that effect, and the answer is whether the cookie is live |
| DomainNodes.FindCookie | src/CookieStorage.cc:69-82 | matches are marked as accessed and appended, each once |
| CookieStore.CookieStorage.EvictNode | src/CookieStorage.cc:250-270 | victims were tracked and used no later than any node still tracked, only they lose cookies, a freed node has neither cookie nor child, no useless node is left behind, and the tracker names exactly the tracked nodes |
| CookieStore.CookieStorage.Prune | src/CookieStorage.cc:257-268 | only nodes without cookies are freed, the rest is untouched, and none becomes useless |
| CookieStore.CookieStorage.Store | src/CookieStorage.cc:274-295 | at 2000 tracked nodes a tenth is evicted first; then the way exists, its node has taken the cookie and is tracked at this time if the cookie is live; every invariant is kept |
| CookieStore.CookieStorage.UpdateLru | src/CookieStorage.cc:297-307 | the node is tracked under the new time and under no other |
| CookieStore.CookieStorage.CriteriaFind | src/CookieStorage.cc:393-422 | every stored cookie that matches and lies on the way, each once, deeper paths and older cookies first; nothing for an empty path |
| CookieStore.FoundIsScan | src/CookieStorage.cc:404-415 | what the walk finds is a linear scan of all cookies restricted to domains on the way |
| CookieStore.MissedExactly | src/Cookie.cc:82-96 | a matching cookie is not on the way exactly if its domain counts as numeric, is not the host, and contains a dot or is empty |
| CookieStore.NumericDomainIsMissed | src/CookieStorage.cc:234-245 | such a cookie |
| CookieStore.IdentityIsUnique | src/Cookie.cc:98-102 | an identity is stored at most once in the whole trie |
| CookieStore.CookieStorage.Size | src/CookieStorage.cc:424-431 | counting over the tracker gives the number of all stored cookies |
| CookieStore.CookieStorage.FindNode | src/CookieStorage.cc:377-384 | the walk by labels ends at a node exactly if the trie has that path |
| CookieStore.CookieStorage.Contains | src/CookieStorage.cc:387-391 | whether a cookie of that identity is stored anywhere |
| Bitfield.PutTest | src/BitfieldMan.cc:527-540 | setting or clearing a bit changes that bit and no other |
| Bitfield.LastByteMaskBit | src/bitfield.h:54-68 | the mask keeps exactly the bits of the last byte that exist |
| Bitfield.CountIsCardinality | src/bitfield.h:100-123 | the count is the size of the set of indexes whose bit is set |
| Bitfield.CountSetBit | src/bitfield.h:100-123 | counting in 32-bit words, left-over bytes and a masked last byte gives that count |
| Bitfield.CountSetBitSlow | src/bitfield.h:128-143 | counting byte by byte gives that count |
| Bitfield.GetFirstSetBitIndex | src/bitfield.h:150-158 | the first set bit, or none if there is none |
| Bitfield.TestAllBitSet | src/BitfieldMan.cc:582-593 | true exactly if every bit is set and no spare bit is |
| PieceLengths.BlocksCover | src/BitfieldMan.cc:59-65 | the blocks cover the download; only the last may be shorter and is not empty |
| PieceLengths.LengthIsHeld | src/BitfieldMan.cc:765-786 | count times block length, corrected for the last block, is the number of bytes in blocks that are set |
| PieceSearch.GetSparseMissingUnusedIndex | src/BitfieldMan.cc:212-267 | the result is the best candidate if it is worthwhile; nothing if no block is free |
| PieceSearch.BetterIsBeats | src/BitfieldMan.cc:236-242 | the comparison as written is: longer, or as long and continuing where the other does not |
| PieceSearch.SparseMeaning | src/BitfieldMan.cc:212-267 | the block is free, its candidate is at least as long as that of every free run, and with minSplitSize at most a block something is found exactly if a block is free |
| PieceSearch.SparseChoice | src/BitfieldMan.cc:184-267 | in terms of bits: the block starts a free run, or its middle if the block before is being fetched; no run offers more; of those that offer as much one that continues is taken if there is one, else the first; nothing if it neither begins the download, nor continues, nor is minSplitSize long |
| PieceSearch.SparseUnique | src/BitfieldMan.cc:212-267 | that determines the result |
| PieceSearch.GetInorderMissingUnusedIndex | src/BitfieldMan.cc:347-385 | the first block of the range if free; otherwise the first stretch in the range that continues or is long enough, and the block that completes it |
| PieceSearch.InorderMeaning | src/BitfieldMan.cc:347-385 | the block is free and not before the range, and inside it if minSplitSize is at most a block |
| PieceSearch.InorderChoice | src/BitfieldMan.cc:347-385 | in terms of bits: the start if clear; else the first stretch that follows a block that is there or is long enough decides, by its first block or by the one that completes minSplitSize; nothing exactly if there is no such stretch |
| PieceSearch.InorderDetermined | src/BitfieldMan.cc:347-385 | the result is one function of what the caller gives: the start, the first suitable stretch or the block that completes minSplitSize in it |
| PieceSearch.InorderOutsideIff | src/BitfieldMan.cc:347-385 | the result lies beyond the range exactly if the start is free and the range empty, or the first suitable stretch after the start is no continuation and has less than minSplitSize inside the range |
| PieceSearch.InorderOfEmptyRange | src/BitfieldMan.cc:352-356 | a search of an empty range that returns its free start |
| PieceSearch.InorderCanLeaveRange | src/BitfieldMan.cc:366-377 | a search of two blocks that returns the fourth |
| PieceSearch.WindowsAdvance | src/BitfieldMan.cc:296-318 | the windows begin at 0, 1, and from there each at base times the one before, at least base-1 further on |
| PieceSearch.WindowGives | src/BitfieldMan.cc:300-318 | in terms of bits: a window gives a block exactly if that lies in it, is clear, and the blocks of the window before it are there and not being fetched |
| PieceSearch.GetGeomMissingUnusedIndex | src/BitfieldMan.cc:292-321 | for every base above 1 the search ends; the first window that gives a block decides, and the sparse search if none does |
| PieceSearch.GeomMeaning | src/BitfieldMan.cc:292-321 | the block is free, nothing is returned only if the sparse search finds nothing, and a free offset is taken first |
| BlockBitfields.BitfieldMan.constructor | src/BitfieldMan.cc:47-66 | all clear, sizes in agreement, cached figures right |
| BlockBitfields.BitfieldMan.Copy | src/BitfieldMan.cc:68-84 | the same state, figures computed anew |
| BlockBitfields.BitfieldMan.UpdateCache | src/BitfieldMan.cc:814-821 | the five figures equal their definitions over sets of blocks and bytes |
| BlockBitfields.BitfieldMan.CountMissingBlockNow | src/BitfieldMan.cc:504-515 | the number of wanted blocks that are not there |
| BlockBitfields.BitfieldMan.GetFilteredTotalLengthNow | src/BitfieldMan.cc:745-761 | the number of bytes in the blocks of the filter |
| BlockBitfields.BitfieldMan.GetCompletedLengthNow | src/BitfieldMan.cc:789-802 | the number of bytes in completed blocks, within an enabled filter if asked |
| BlockBitfields.BitfieldMan.SetBitInternal | src/BitfieldMan.cc:527-540 | one bit changes, an index beyond the blocks is refused, spare bits stay zero |
| BlockBitfields.BitfieldMan.SetBit | src/BitfieldMan.cc:552-557 | that bit is set, nothing else changes, the figures are right |
| BlockBitfields.BitfieldMan.UnsetBit | src/BitfieldMan.cc:559-564 | that bit is cleared, nothing else changes, the figures are right |
| BlockBitfields.BitfieldMan.SetUseBit | src/BitfieldMan.cc:542-545 | that use bit is set; the figures, which do not depend on it, stay right |
| BlockBitfields.BitfieldMan.UnsetUseBit | src/BitfieldMan.cc:547-550 | that use bit is cleared |
| BlockBitfields.BitfieldMan.SetBitRange | src/BitfieldMan.cc:841-847 | exactly the blocks of the range are set |
| BlockBitfields.BitfieldMan.UnsetBitRange | src/BitfieldMan.cc:833-839 | exactly the blocks of the range are cleared |
| BlockBitfields.BitfieldMan.SetBitfield | src/BitfieldMan.cc:629-637 | the bits are taken over if the sizes agree, and no block is in use then |
| BlockBitfields.BitfieldMan.SetAllBit | src/BitfieldMan.cc:645-652 | every block is set and none is missing |
| BlockBitfields.BitfieldMan.ClearAllBit | src/BitfieldMan.cc:639-643 | no block is set |
| BlockBitfields.BitfieldMan.SetAllUseBit | src/BitfieldMan.cc:660-666 | every use bit is set |
| BlockBitfields.BitfieldMan.ClearAllUseBit | src/BitfieldMan.cc:654-658 | no use bit is set |
| BlockBitfields.BitfieldMan.AddFilter | src/BitfieldMan.cc:680-691 | adds exactly the blocks that have a byte in the range |
| BlockBitfields.BitfieldMan.RemoveFilter | src/BitfieldMan.cc:693-704 | takes out exactly the blocks that have a byte in the range |
| BlockBitfields.BitfieldMan.AddNotFilter | src/BitfieldMan.cc:706-723 | adds exactly the blocks that have no byte in a range that is not empty |
| BlockBitfields.BitfieldMan.EnableFilter | src/BitfieldMan.cc:725-730 | the filter, created if need be, is on |
| BlockBitfields.BitfieldMan.DisableFilter | src/BitfieldMan.cc:732-736 | the filter is off and kept |
| BlockBitfields.BitfieldMan.ClearFilter | src/BitfieldMan.cc:738-743 | there is no filter |
| BlockBitfields.BitfieldMan.IsFilteredAllBitSet | src/BitfieldMan.cc:566-579 | the byte-wise comparison holds exactly if the cached number of missing blocks is zero |
| BlockBitfields.BitfieldMan.IsAllBitSet | src/BitfieldMan.cc:596-599 | every block is set |
| BlockBitfields.BitfieldMan.HasMissingPiece | src/BitfieldMan.cc:122-140 | for a vector of the right size: it sets a bit that is clear here and passes an enabled filter, a spare bit included |
| BlockBitfields.BitfieldMan.GetOffsetCompletedLength | src/BitfieldMan.cc:870-901 | the number of bytes of the range, cut at the end of the download, that lie in completed blocks |
| BlockBitfields.BitfieldMan.IsBitSetOffsetRange | src/BitfieldMan.cc:849-868 | every byte of a range that is not empty and begins in the download lies in a completed block |
| BlockBitfields.CompleteIffFullLength | src/BitfieldMan.cc:849-901 | a range is complete exactly if the completed length of it is its length |
| BlockBitfields.OffsetLengthsAddUp | src/BitfieldMan.cc:870-901 | completed lengths of adjacent ranges add up, and that of the whole is the completed length |
| BlockBitfields.BitfieldMan.BusyMeansNotEligible | src/BitfieldMan.cc:270-287 | the combined vector is clear exactly at blocks neither there nor in use nor ignored nor outside an enabled filter |
| BlockBitfields.BitfieldMan.GetSparseMissingUnusedIndex | src/BitfieldMan.cc:270-287 | an eligible block; with minSplitSize at most a block, one is found exactly if there is one |
| BlockBitfields.BitfieldMan.GetGeomMissingUnusedIndex | src/BitfieldMan.cc:324-342 | an eligible block, the offset itself if that is one |
| BlockBitfields.BitfieldMan.GetInorderMissingUnusedIndex | src/BitfieldMan.cc:407-426 | an eligible block from the start on, inside the range if minSplitSize is at most a block, and beyond it exactly as InorderOutsideIff says |
| BlockBitfields.BitfieldMan.GetFirstMissingUnusedIndex | src/BitfieldMan.cc:142-154 | the first block that is wanted, not there and not in use |
| ChunkedSpec.StepKeeps | src/ChunkedDecodingStreamFilter.cc:88-211 | the size never overflows a signed 64-bit integer and is refused exactly if it would, and only the complete state takes no byte |
| ChunkedSpec.Fragmentation | src/ChunkedDecodingStreamFilter.cc:80-215 | cutting a buffer in two changes neither state, output, bytes counted nor error |
| ChunkedSpec.AnyFragmentation | src/ChunkedDecodingStreamFilter.cc:80-215 | nor does cutting it into any number of buffers |
| ChunkedTheorems.StepReads | src/ChunkedDecodingStreamFilter.cc:88-211 | each byte taken is the next of a text of the grammar, and the output is the data in it |
| ChunkedTheorems.CompleteIsBody | src/ChunkedDecodingStreamFilter.cc:205-206 | what a fresh decoder took when it completes is the text of a valid body, and its output is that body's data |
| ChunkedTheorems.BodyCompletes | src/ChunkedDecodingStreamFilter.cc:80-215 | the text of a valid body, whatever follows, completes the decoder, is taken exactly, and gives the data |
| ChunkedTheorems.HexDigits | src/util.cc:443-456 | the digits of either case have their values 0 to 15 |
| ChunkedTheorems.HexIsNumber | src/ChunkedDecodingStreamFilter.cc:88-109 | a number written in these digits is read as that number |
| ChunkedTheorems.EncodedComesOut | src/ChunkedDecodingStreamFilter.cc:80-215 | data sent in chunks whose sizes are so written is decoded to that data, exactly |
| ChunkedTheorems.DeliveredInPieces | src/ChunkedDecodingStreamFilter.cc:80-215 | the same however the transfer is cut into calls, the counts of bytes adding up to the length of the encoding |
| ChunkedTheorems.RefusesExactly | src/ChunkedDecodingStreamFilter.cc:80-215 | what is taken always begins the text of a valid body, and a byte is refused exactly if no such text goes on with it |
| ChunkedDecoding.ChunkedDecodingStreamFilter.TakeByte | src/ChunkedDecodingStreamFilter.cc:90-210 | each case of the switch is the step of the specification; the default case cannot be reached |
| ChunkedDecoding.ChunkedDecodingStreamFilter.PassOn | src/ChunkedDecodingStreamFilter.cc:138-148 | data goes on in one piece, as far as chunk and buffer reach |
| ChunkedDecoding.ChunkedDecodingStreamFilter.Transform | src/ChunkedDecodingStreamFilter.cc:80-215 | a call has the outcome of the specification; an exception leaves the state at the offending byte and the count at zero |
| SeederChoke.BeforeIsStrictWeak | src/BtSeederStateChoke.cc:95-113 | among entries made at one clock value the comparison is a strict weak order |
| SeederChoke.MixedClocksBreakIt | src/BtSeederStateChoke.cc:58-67 | three entries, two made at clock value 20 and one at 21, among which not being before is not transitive; a round takes one clock value |
| SeederChoke.BtSeederStateChoke.Unchoke | src/BtSeederStateChoke.cc:120-150 | the first three or four in order are lifted; in rounds 0 and 1 exactly one of the others is flagged, if there are any, and nobody else |
| SeederChoke.PassedIsFair | src/BtSeederStateChoke.cc:95-112 | in terms of the peers: each peer lifted has as good a claim as one passed over, by uploads outstanding, then by being unchoked within 20 seconds and later, then by upload speed |
| SeederChoke.BtSeederStateChoke.ExecuteChoke | src/BtSeederStateChoke.cc:152-177 | at most one active peer stays optimistic if that held before; at most three or four interested ones are lifted, fewer only if none is passed over, and none passed over has a better claim than one of them, in terms of the peers; in rounds 0 and 1 exactly one that is passed over is flagged, if there is any; peers not interested are choked and inactive ones left alone; nothing but the two flags of a peer changes |
| LeecherChoke.BtLeecherStateChoke.PlannedOptimisticUnchoke | src/BtLeecherStateChoke.cc:140-159 | one peer that is choked and interested is flagged, if there is any, and nobody else |
| LeecherChoke.BtLeecherStateChoke.RegularUnchoke | src/BtLeecherStateChoke.cc:161-207 | the interested ones of the first three are lifted; if one peer is flagged the flag stays with one, and where it moves it moves to one of those lifted; no flag at all disappears |
| LeecherChoke.PassedIsFair | src/BtLeecherStateChoke.cc:56-61 | in terms of the peers: three at most are lifted, all interested; one passed over that is interested finds three others lifted or not interested, and one that also sent within 30 seconds finds three lifted that did so too and are at least as fast |
| LeecherChoke.BtLeecherStateChoke.ExecuteChoke | src/BtLeecherStateChoke.cc:209-239 | at most one active peer is optimistic if that held before or the round is round 0, and one is after round 0 if there is a candidate and after another round if one was; in the others a peer keeps its flag unless it is lifted and gets it only then; who is lifted is fair in the sense above; snubbing peers are choked and inactive ones left alone; nothing but the two flags of a peer changes |
| BasicCredentials.LessTotal | src/AuthConfigFactory.cc:224-234 | the order is strict and total up to identity |
| BasicCredentials.ServesIff | src/AuthConfigFactory.cc:236-250 | a credential serves requests to its host and port at its path or anything that begins with it |
| BasicCredentials.Terminated | src/AuthConfigFactory.cc:215-217 | a path ends with one slash more, or is the same if it ends with one |
| BasicCredentials.ServingIsNotBefore | src/AuthConfigFactory.cc:229-241 | no credential for a request stands before the point where the search begins |
| BasicCredentials.LongerStandsFirst | src/AuthConfigFactory.cc:229-234 | of two credentials for a request the one with the longer path stands first |
| BasicCredentials.AuthConfigFactory.FindBasicCred | src/AuthConfigFactory.cc:236-250 | the credential of that host and port with the longest path that leads to the request; the end exactly if there is none |
| BasicCredentials.AuthConfigFactory.UpdateBasicCred | src/AuthConfigFactory.cc:171-180 | the pointer comparison never succeeds; a credential of a new identity is added, one of a stored identity is not, so an update takes effect exactly if its identity was not stored or the very same credential was |
| BasicCredentials.NewPasswordIsLost | src/AuthConfigFactory.h:141-146 | two updates of one identity: the new password is lost |
| BasicCredentials.AuthConfigFactory.ActivateBasicCred | src/AuthConfigFactory.cc:182-204 | no only if neither a stored credential nor the resolver knows one; the best stored credential is activated and nothing else changes, or else one with what the resolver answers is added |

## Left out

- Sockets, name resolution, disks, option handling, logging and everything that schedules commands.
- Tracker lists and announce tiers: rotation over short lists with little to prove about it.
- Digest authentication, netrc files, and the choice between authentication schemes.
- Node health, round-trip times and update times of buckets: whether a node is bad is a parameter of each call.
- `DHTBucket::getRandomNodeID`, `moveToHead`, `getNode` and comparison: one-line operations.
- DhtRoutingTable.DHTRoutingTable.AddNode: keeps identifiers distinct only on runs without dropNode, which can duplicate one.
- The transport of the lookup's messages: an answer comes from the endpoint that was asked, as the message tracker sees to.
- DhtNodeLookup.StableSort: leaves the order among equal identifiers open. The comparator holds of equal identifiers both ways, so it is no strict weak order, and std::stable_sort promises nothing for it; what is proved of the lookup holds whichever of two such entries comes first.
- In the bencode parser a character is one byte; a callback for a run of bytes counts as one callback for each.
- Sharing of trie nodes by pointer: a node of the cookie trie is named by its path, and the nodes that exist are the keys of a map; among nodes used at the same time the tracker's order by address is any order.
- Reading and writing cookie files, and parsing Set-Cookie headers; a cookie's path is taken not to be empty.
- CookieStore.CookieStorage.Store: asks for a domain with a label. A cookie without one would be kept at the root, and evicting it there would follow the root's missing parent (src/CookieStorage.cc:257-259).
- Evicting a tenth is an exact division here; the source multiplies by a floating-point 0.1 and truncates.
- `BitfieldMan::getAllMissingIndexes`, `getAllMissingUnusedIndexes`, `getFirstNMissingUnusedIndex`, `getFirstMissingIndex`, `getMissingUnusedLength` and assignment: more of the same loops.
- PieceSearch.GetGeomMissingUnusedIndex: windows are computed over real numbers, not with double rounding.
- BlockBitfields.BitfieldMan.SetBitfield: takes over spare bits as they come, so it asks its caller for zeros.
- The table of bit counts per byte is its formula.
- The delegate of the chunked decoder takes all it is given and does not fail.
- The waiting times between choking rounds, and what becomes of the flags when a peer disconnects.
- Searching with an unset filter vector, offsets below zero and block lengths below one where the source divides by them.
