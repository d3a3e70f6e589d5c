# Verification model of the hashtree repository

A Dafny model of the parts of the repository where correctness is hardest to see by reading: the
persistent B-tree and the Nostr event index on it, Merkle files and their writers and readers, the
concurrent push, the peer protocol, and the social graph with its binary format. Each file's
module models one area; `dafny verify dfyconfig.toml` checks all of them.

How the source's forms are kept: immutable nodes addressed by hash are datatypes and the
recursions over them functions; objects whose methods change fields are classes, and loops are
loops. Each such method is proved against a function or predicate of its inputs, and what the
source promises is then proved of that. Values that only the outside world decides (which put
returns first, which fragment arrives, which peer answers, the iteration order of a set) are
chosen nondeterministically, so the results hold for every choice.

## What is modelled

- **B-tree** (`Keys`, `Directory`, `BTree*`). A CID is modelled as the immutable tree it names,
  a directory as its list of entries sorted by decoded key. The main results: every run of
  inserts refines a finite map and keeps the tree balanced; insert is map update *exactly when*
  the splits on its path are safe; delete is map removal; merge is map union; range and prefix
  queries are exact *exactly when* their early stop skips nothing they ask for.
- **Push and walks** (`Push`, `Walk`). The bounded producer and consumer are a state machine of
  the atomic segments between awaits, with a class that performs the segments on the shared
  variables and runs them to the end in any order. The walk and the pull are graph traversals
  over a possibly cyclic store.
- **Merkle trees** (`Merkle`, `Bep52Builders`). The trees behind "pieces root" and "piece layers"
  of BEP 52, "The BitTorrent Protocol Specification v2". The hash is an arbitrary function.
- **Files** (`Bytes`, `ChunkTree`, `MediaStream`, `FileStore`, `LawfulCrypto`, `Writers`,
  `Upload`). Reading and streaming of encrypted chunk trees of any depth; writing in one call, by
  appends, or by batches. Encryption, hashing and the node codec are arbitrary functions; what is
  assumed is `FileStore.Lawful`: no hash collisions, decryption undoes encryption, decoding undoes
  encoding.
- **Social graph** (`FollowDistance`, `FollowUpdates`, `SocialGraph`, `UniqueIds`, `GraphUtils`).
  Breadth-first distances and their updates between recalculations, the transposed index pairs,
  list events, removal of users.
- **Graph file format** (`Varint`, `Hex`, `GraphFormat`, `GraphWriter`, `GraphBinary`,
  `GraphBudget`, `GraphBudgetFile`, `GraphSnapshot`). 32-bit operators, the 16 KB buffer, the
  image and its parser, the round trip, the choice of edges under a budget, what is loaded then,
  and which follow distances it has. Maps and sets that are iterated are given in order.
- **Peer protocol** (`Fragments`, `Mesh`, `PeerSelector`). Reassembly of fragments, flooding of
  frames over any topology, fairness and hedged waves.
- **Event store** (`EventKeys`, `EventStore`, `EventTags`, `EventHidden`, `EventSlots`). Index
  keys, lists read newest first with an early stop, and replaceable slots, on top of the B-tree's
  own insert, range and get.

## What the proofs found

Where a natural claim is false of the code, the model keeps the code and proves the exact
condition under which the claim holds.

- After deletes, an internal split can promote a first name that is above stored keys, and a key
  becomes unreachable (`BTreeWitness.DeleteThenInsertLosesAKey`). Insert is map update if and only
  if `SafeToSplit` holds (`BTreeMap.InsertIsMapUpdateExactly`).
- Inserts do not lower the first name on the leftmost path, so a bounded range or a prefix query
  can miss a stored key even without deletes (`BTreeRange.PrefixMissesAnInsertedKey`). A query is
  exact if and only if `BTreeRange.Sees` holds for its bounds (`BTreeRange.QueryExactly`); all
  queries of a tree are if and only if the tree is `Honest` (`BTreeRange.RangeExactly`).
- Event lists by author, by kind and by both scan prefixes and inherit it: they are exact if and
  only if `EventStore.SeesList` holds (`EventStore.ListsExactly`), and there are adds, for the
  default order too, after which an author's newest event is in none of that author's lists
  (`EventHidden.NewestIsHidden`). `listRecent` scans no prefix and is always exact. A tag's list
  can hold another tag's events if a value has a colon (`EventTags.ColonMixesTags`).
- The empty prefix yields nothing rather than everything; the empty key is never stored; deleting
  from an empty leaf returns the leaf rather than null.
- An abort can leave the push producer waiting for ever (`Push.AbortStrandsTheProducer`): exactly
  when it comes while the producer is blocked (`Push.StrandedExactly`).
- A Merkle proof's length is not checked, so a short proof passes an interior node off as a leaf;
  which node, and that it is no other, is `Merkle.AnyProofAcceptedExactly`. A proof can be too
  long as well, if a leaf hash is the hash of a pair (`Merkle.LongProofsExactly`).
- `merkleNumLeafs` does not terminate above 2^30 blocks.
- A small file whose bytes, or whose ciphertext, decode as a tree node is read as that node.
- Follow distances are not passed on between recalculations: a list that comes before its author
  is reached is lost, a shorter way stays unused, and removing a follow can leave a user with a
  distance that no chain has. `FollowUpdates.AddIsExactExactly` and `RemovalIsExactExactly` say
  exactly when exact distances stay exact. So a loaded graph can have wrong distances; one saved
  under a budget without a limit per node has the right ones (`GraphSnapshot.SaveAndLoadSnapshot`).
- Saving a graph loses the timestamp of a user who has one but no entry in the index (an empty
  list), and gives 0 to one with an entry and no timestamp. Upper-case keys come back in lower case.
- A range that is streamed in chunks fails if the stream fails right after the last byte wanted: the
  loop asks for one piece more before it stops (`MediaStream.StreamFileRangeChunks`).
- A list event with time 0 does not protect its list from older (negative) ones.
- Listing events throws on a stored time above 2^53 - 1, and a list limit of 0 returns one event.
- For replaceable events of one time the code keeps the larger id; NIP-01, section "Kinds", keeps
  the lowest. The model follows the code.

## Model

| member | source | states |
|---|---|---|
| Keys.LessIsStrictTotalOrder | packages/hashtree-index/src/btree.ts:413-430 | the one key order the model assumes for sorting and for routing is a strict total order |
| Keys.EscapeRoundTrip | packages/hashtree-index/src/btree.ts:581-593 | unescaping an escaped key gives the key back, for the three sequential replaces on each side and every string |
| Keys.EscapedNamesIdentifyKeys | packages/hashtree-index/src/btree.ts:581-593 | two keys have one escaped name only if they are equal |
| Keys.EscapedNameIsPathSafe | packages/hashtree-index/src/btree.ts:581-586 | an escaped name holds neither `/` nor NUL |
| Keys.PrefixIntervalExact | packages/hashtree-index/src/btree.ts:547-550 | the interval from p to incrementPrefix(p) is exactly the keys that start with p, if and only if p is non-empty and its last code unit is below 0xFFFF |
| Keys.PrefixInterval | packages/hashtree-index/src/btree.ts:595-599 | for such a prefix, membership in the interval is starting with it, key by key |
| Directory.PutIsUpdate | packages/hashtree-index/src/btree.ts:322-338 | setting an entry of a sorted directory updates one name, adds no other and keeps the order |
| Directory.RemoveIsDelete | packages/hashtree-index/src/btree.ts:448-481 | removing an entry forgets exactly that name and keeps the order |
| Directory.SameLookups | packages/hashtree-index/src/btree.ts:426-430 | a sorted directory is determined by its lookups |
| BTree.FindChild | packages/hashtree-index/src/btree.ts:413-424 | the child chosen is the last whose name is not above the key, or the first |
| BTreeRouting.EntriesSorted | packages/hashtree-index/src/btree.ts:488-506 | the traversal of a routed tree is strictly sorted and stays in its interval |
| BTreeRouting.GetIsLookup | packages/hashtree-index/src/btree.ts:44-62 | get by recursive routing is lookup in the traversal, on every tree whose separators route |
| BTreeInsert.InsertStores | packages/hashtree-index/src/btree.ts:307-363 | inserting stores exactly the updated entries, through leaf and internal splits, and split names stay in the node's interval |
| BTreeInsert.ReplaceChildSplices | packages/hashtree-index/src/btree.ts:340-363 | re-entering a grown child in its parent's directory splices it where the child was |
| BTreeInsert.InternalInsert | packages/hashtree-index/src/btree.ts:340-363 | an insert below an internal node is one splice of its children, and a split when they are too many |
| BTreeInsert.RoutesRightExactly | packages/hashtree-index/src/btree.ts:340-411 | after an insert, get finds every stored key if and only if the splits on the path are safe |
| BTreeInsert.OverflowPredicts | packages/hashtree-index/src/btree.ts:322-363 | which nodes split, and under which first name, is read off the tree before the insert |
| BTreeMap.InsertIsMapUpdateExactly | packages/hashtree-index/src/btree.ts:21-42 | on a routed tree, insert then get is map update for every key if and only if SafeToSplit holds before the call |
| BTreeMap.StaysRoutedIsSafe | packages/hashtree-index/src/btree.ts:389-411 | the checkable bound (first names not above the keys below, off the leftmost path) implies the exact condition |
| BTreeMap.RootInsertKeepsRouted | packages/hashtree-index/src/btree.ts:21-42 | under that bound the tree stays routed after an insert, with root split |
| BTreeMap.EmptyKeyIsNotStored | packages/hashtree-index/src/btree.ts:322-338 | inserting under the empty key leaves every lookup as it was, because the directory drops the empty name |
| BTreeBuild.InsertKeepsBuilt | packages/hashtree-index/src/btree.ts:340-411 | inserts keep every name off the leftmost path equal to the smallest key below it |
| BTreeBuild.InsertKeepsShape | packages/hashtree-index/src/btree.ts:365-411 | inserts keep all leaves at one depth, at most order-1 entries per node and at least half an order in each node but the root |
| BTreeBuild.InsertStands | packages/hashtree-index/src/btree.ts:21-42 | on a tree built by inserts, one more insert is map update and the tree is again such a tree |
| BTreeBuild.BuildRefinesMap | packages/hashtree-index/src/btree.ts:21-62 | every run of inserts from null, order at least 3, refines its finite map: lookups, sorted traversal, equal depth, occupancy |
| BTreeDelete.DeleteRemoves | packages/hashtree-index/src/btree.ts:448-481 | delete removes exactly the key's entry and keeps the tree routed through empty-child removal and single-child collapse |
| BTreeDelete.DeleteKeepsBranching | packages/hashtree-index/src/btree.ts:448-481 | deleting leaves no internal node with a single child, and no empty node below the root, where there was none |
| BTreeDelete.DeleteIsMapRemove | packages/hashtree-index/src/btree.ts:448-481 | delete then get is map removal; on trees without empty leaves it returns null exactly when nothing is left |
| BTreeDelete.EmptyLeafIsReturned | packages/hashtree-index/src/btree.ts:448-481 | deleting from a tree that is one empty leaf returns that leaf, not null |
| BTreeDelete.CarefulRunRefinesMap | packages/hashtree-index/src/btree.ts:21-62 | any mix of inserts and deletes refines its finite map as long as each insert meets the safe-split condition, and leaves no empty leaf but possibly the root |
| BTreeDelete.NothingLeftExactly | packages/hashtree-index/src/btree.ts:448-481 | after such a run the map is empty if and only if the tree is null or the empty leaf |
| BTreeDelete.NullExactly | packages/hashtree-index/src/btree.ts:448-481 | and, if no key of the run is empty, if and only if the tree is null |
| BTreeWitness.DeleteThenInsertLosesAKey | packages/hashtree-index/src/btree.ts:389-411 | order 3: a concrete run of inserts and deletes after which an insert makes a stored key unreachable |
| BTreeRange.QueryExactly | packages/hashtree-index/src/btree.ts:512-545 | on a routed tree a range query yields exactly the in-order entries within its bounds if and only if no node whose first name reaches the upper bound holds a key the query asks for |
| BTreeRange.RangeIsSlice | packages/hashtree-index/src/btree.ts:512-545 | the same for any subtree, in one direction |
| BTreeRange.BlindMisses | packages/hashtree-index/src/btree.ts:538-545 | otherwise there is a stored entry within the bounds that the query does not return |
| BTreeRange.RangeSorted | packages/hashtree-index/src/btree.ts:512-545 | what a query returns is in key order even then |
| BTreeRange.RangeExactly | packages/hashtree-index/src/btree.ts:512-545 | without an upper bound every query is exact; all queries of a tree are if and only if every node's first name is at most the keys below it |
| BTreeRange.BuiltIsHonest | packages/hashtree-index/src/btree.ts:349-355 | on trees built by inserts only the leftmost path can break that |
| BTreeRange.BuiltSees | packages/hashtree-index/src/btree.ts:349-355 | and a single query sees all it asks for if and only if the leftmost path hides nothing of it |
| BTreeRange.PrefixExactly | packages/hashtree-index/src/btree.ts:547-550 | a prefix query yields exactly the entries with the prefix, in order, if and only if that condition holds for its interval |
| BTreeRange.WrappedPrefixFindsNothing | packages/hashtree-index/src/btree.ts:547-550 | the empty prefix, or one that ends in 0xFFFF, yields nothing |
| BTreeRange.PrefixMissesAnInsertedKey | packages/hashtree-index/src/btree.ts:538-545 | order 3, inserts only: a prefix query that misses a stored key |
| BTreeBlind.FirstSplit | packages/hashtree-index/src/btree.ts:365-387 | any order: after one insert more than a leaf can hold, the tree is two leaves, each named by its smallest key |
| BTreeBlind.HiddenBelowFirstName | packages/hashtree-index/src/btree.ts:340-363 | any order: a smaller key inserted then is stored, and hidden from every query whose upper bound is not above the other keys |
| BTreeMerge.SplitLeafEntries | packages/hashtree-index/src/btree.ts:365-387 | the loop that copies a leaf's entries into two halves gives the functional split |
| BTreeMerge.SplitInternalNode | packages/hashtree-index/src/btree.ts:389-411 | the same for an internal node |
| BTreeMerge.CreateLeaf | packages/hashtree-index/src/btree.ts:437-446 | a leaf created by repeated setEntry holds the items as a sorted directory |
| BTreeMerge.Merge | packages/hashtree-index/src/btree.ts:552-571 | merging is map union with the chosen preference, and the result is again a tree built by inserts |
| Push.RunKeepsInv | packages/hashtree/src/hashtree.ts:478-574 | in every reachable state the queue holds at most twice the concurrency, active puts at most the concurrency, no wake-up is lost, every block is in one place, the puts so far are the first blocks of the walk, and the counters are those of the answers so far |
| Push.StartTasksExactly | packages/hashtree/src/hashtree.ts:514-531 | the consumer starts tasks for the first blocks of the queue, as many as there are or as the concurrency leaves room for, and once aborted puts none of them |
| Push.StuckExactly | packages/hashtree/src/hashtree.ts:511-574 | a reachable state cannot move if and only if it is final, or an abort left the producer waiting |
| Push.RunsAreFinite | packages/hashtree/src/hashtree.ts:511-574 | no run is longer than seven steps per block and six more |
| Push.MaximalRunCompletes | packages/hashtree/src/hashtree.ts:478-580 | an abort-free run that cannot go on has put every block exactly once in walk order, each was answered once, and pushed, skipped and failed are the numbers of answers that said new, not new, and threw; the bytes are those of the new blocks, the errors those that threw |
| Push.StrandedExactly | packages/hashtree/src/hashtree.ts:515-556 | a run that cannot go on has stopped before the end if and only if it was aborted while its producer was blocked |
| Push.AbortStrandsTheProducer | packages/hashtree/src/hashtree.ts:515-556 | for every concurrency, and every list of more than three times as many blocks, a run with an abort after which push never returns |
| Push.Pushing.Push | packages/hashtree/src/hashtree.ts:478-577 | producer, consumer and tasks run on the shared variables in any order, with any outcomes and an abort at any time: it comes to a stop with all its puts answered and the answers counted by their kind; without an abort all blocks are put, in walk order; with one, either both loops have ended or the producer is blocked |
| Push.Pushing.Segment | packages/hashtree/src/hashtree.ts:511-574 | each segment of the shared-variable code is a step of the state machine |
| Push.Pushing.ConsumerTurn | packages/hashtree/src/hashtree.ts:514-543 | the consumer's segment on the shared variables is the step of the machine |
| Walk.WalkBlocks | packages/hashtree/src/hashtree.ts:343-379 | the walk yields exactly the stored blocks reachable from the root, each once |
| Walk.VerifyTree | packages/hashtree/src/verify.ts:11-40 | verification reports exactly the reachable hashes that are missing, and is valid if and only if there are none |
| Walk.Pull | packages/hashtree/src/hashtree.ts:387-428 | pull counts each reachable stored block once, in whatever order its parallel fetches go |
| Walk.PullCountsTheWalk | packages/hashtree/src/hashtree.ts:454-468 | pull's count is the number of blocks the walk yields |
| Merkle.NumLeafsTerminatesExactly | packages/hashtree/src/bep52.ts:63-68 | the int32 doubling loop reaches the block count if and only if there are at most 2^30 blocks |
| Merkle.NumLeafs | packages/hashtree/src/bep52.ts:63-68 | for those it returns the least power of two that is not smaller |
| Merkle.MerkleRoot | packages/hashtree/src/bep52.ts:137-175 | the root with running pad hashes is the root of the tree whose leaf layer is filled up with zero hashes |
| Merkle.BuildTree | packages/hashtree/src/bep52.ts:183-213 | the in-place builder produces the flat tree of the padded leaves |
| Merkle.FlatTreeRoot | packages/hashtree/src/bep52.ts:183-213 | node 0 of a flat tree is the root over its leaves, so both builders agree |
| Merkle.TreeHoldsLayer | packages/hashtree/src/bep52.ts:199-210 | the flat tree holds every layer of the tree at its place |
| Merkle.ComputePieceLayers | packages/hashtree/src/bep52.ts:353-368 | the piece layer has one root per piece, each over the piece's leaves padded to a full piece |
| Merkle.PieceLayerIsTreeLayer | packages/hashtree/src/bep52.ts:353-368 | each piece hash is the file tree's node log2(blocksPerPiece) levels above the leaves, as BEP 52 defines its "piece layers" |
| Merkle.GetProof | packages/hashtree/src/bep52.ts:223-234 | the proof lists the siblings on the way up |
| Merkle.VerifyProof | packages/hashtree/src/bep52.ts:246-270 | verification compares the climbed hash with the root |
| Merkle.OwnProofClimbs | packages/hashtree/src/bep52.ts:223-270 | a proof taken from the tree is always accepted |
| Merkle.AnyProofAcceptedExactly | packages/hashtree/src/bep52.ts:246-270 | with an injective pair hash, for every leaf index and every proof of j uncles, j at most the number of levels (longer ones below): it is accepted if and only if the hash is that of the node of the layer with 2^j nodes at the index's last j bits, with exactly that node's siblings |
| Merkle.LongProofAcceptedExactly | packages/hashtree/src/bep52.ts:246-270 | a proof with more uncles than levels is accepted if and only if the uncles too many climb to a stored leaf and the rest are that leaf's own siblings |
| Merkle.LongProofsExactly | packages/hashtree/src/bep52.ts:246-270 | so some longer proof is accepted, for some hash and index, if and only if some leaf hash is itself the hash of a pair |
| Merkle.LowIsRemainder | packages/hashtree/src/bep52.ts:246-270 | the last j bits of an index are its remainder modulo 2^j |
| Merkle.ProofAcceptedExactly | packages/hashtree/src/bep52.ts:246-270 | so with one uncle per level a proof is accepted if and only if it is the stored leaf with its own siblings |
| Merkle.ShortProofAcceptsInteriorNode | packages/hashtree/src/bep52.ts:246-270 | the proof's length is not checked: for every leaf index and every level, the node of that level above it is accepted as the leaf, whatever the pair hash |
| Bep52Builders.BuildFromData | packages/hashtree/src/bep52.ts:302-347 | the one-shot builder hashes each 16 KiB block, roots the hashes, adds the piece layer exactly when a piece is more than one block, and stores every block if there is a store |
| Bep52Builders.BlocksExactly | packages/hashtree/src/bep52.ts:302-330 | a file's blocks are its stretches of 16384 bytes, the last as long as what is left |
| Bep52Builders.ThreeBlocks | packages/hashtree/src/bep52.ts:137-175 | three blocks have the root of a tree of four leaves in order, the last the zero hash |
| Bep52Builders.StreamBuilder.Append | packages/hashtree/src/bep52.ts:412-443 | appending adds exactly the bytes given, wherever blocks end |
| Bep52Builders.StreamBuilder.Finalize | packages/hashtree/src/bep52.ts:448-483 | the stream builder ends with the tree of everything appended, and with its blocks in the store |
| Bep52Builders.BuildersAgree | packages/hashtree/src/bep52.ts:302-483 | the file's bytes determine the tree, so the two builders give the same |
| ChunkTree.AssembleChunks | packages/hashtree/src/encrypted.ts:230-273 | on any tree: assembly succeeds if and only if every link below has a key, none is missing or undecodable, and all declared and real sizes, as they are met, stay within the limit; it returns the content in order, and the shared counter grows by exactly what is returned and never passes the limit |
| ChunkTree.ReadFile | packages/hashtree/src/encrypted.ts:171-192 | the same for the root, never more than maxBytes bytes; on a sound tree that is if and only if the content fits, with exactly the content |
| ChunkTree.ReadRange | packages/hashtree/src/encrypted.ts:440-519 | on any tree: the range succeeds if and only if every link met while bytes are still wanted has a key and, unless it is skipped by its declared size, is there and can be read, at every depth; on a sound tree it always does, and gives exactly the slice of the assembled content |
| ChunkTree.ReadFileRange | packages/hashtree/src/encrypted.ts:419-438 | the same from the root, blob or node; never more bytes than asked for, even with false sizes |
| ChunkTree.SkipLinks | packages/hashtree/src/encrypted.ts:319-330 | exactly the leading links with a declared size that end at or before the offset are skipped |
| ChunkTree.Stream | packages/hashtree/src/encrypted.ts:313-414 | on any tree and for any prefetch of at least 1: the stream ends well if and only if the links that are not skipped, at every depth, have keys and are there, and then yields their bytes from the offset on; on a sound tree that is the assembled content from the offset on |
| ChunkTree.ReadFileStream | packages/hashtree/src/encrypted.ts:289-308 | the same from the root |
| MediaStream.ReChunk | packages/hashtree-worker/src/mediaStreaming.ts:28-62 | the chunks join to the wanted bytes, all of chunkSize but the last; the loop stops early exactly when a piece comes that is not needed |
| MediaStream.StreamFileRangeChunks | packages/hashtree-worker/src/mediaStreaming.ts:9-63 | on any tree, the wanted bytes of the stream in such chunks; an error of the stream comes through if and only if no piece that is not needed comes before it; on a sound tree exactly the requested range |
| FileStore.FillingIsChunking | packages/hashtree/src/builder.ts:105-115 | full chunks and a rest are what cutting the whole would give, for any positive chunker |
| FileStore.ChunksJoin | packages/hashtree/src/builder.ts:105-115 | the chunks of a file join to it, and none is empty |
| FileStore.PutFile | packages/hashtree/src/encrypted.ts:88-128 | putFileEncrypted gives the root of the file's chunks and stores all a reader needs; with `plain` it is TreeBuilder.putFile |
| FileStore.PutChunks | packages/hashtree/src/builder.ts:105-139 | every chunk is stored and linked, in order |
| FileStore.ChunkedFileReadsBack | packages/hashtree/src/encrypted.ts:32-192 | a file of more than one chunk always reads back as a sound tree that holds the data |
| FileStore.ChunkedFileNeedsAll | packages/hashtree/src/encrypted.ts:230-251 | the node of a file's chunks is whole, which is when AssembleChunks does not refuse it, if and only if every chunk is stored; public files too |
| FileStore.PublicFileReadsBackExactly | packages/hashtree/src/tree/read.ts:78-135 | a public file has no key; a small one is stored as it is, under its own hash, and read as itself if and only if it does not decode as a tree node; a larger one always reads back as a sound tree that holds the data |
| FileStore.SmallFileReadsBackExactly | packages/hashtree/src/encrypted.ts:32-50 | the root of a file of one chunk is read as a blob of its data if and only if neither the data nor its ciphertext decodes as a tree node |
| FileStore.NodeFileReadsAsItsTree | packages/hashtree/src/encrypted.ts:32-192 | which bytes a read then returns: a file that is the encoded root node of another stored file is read as that other file |
| LawfulCrypto.LawsCanBeMet | packages/hashtree/src/encrypted.ts:88-128 | the laws assumed of hash, cipher and node codec can be met together |
| Writers.StreamWriter.constructor | packages/hashtree/src/streaming.ts:41-60 | a new writer has written nothing |
| Writers.StreamWriter.Append | packages/hashtree/src/streaming.ts:70-99 | appending adds exactly the bytes given, with the buffer resized to each chunk's size |
| Writers.StreamWriter.FlushChunk | packages/hashtree/src/streaming.ts:104-125 | flushing moves the buffered bytes into a stored, linked chunk |
| Writers.StreamWriter.FillingWhole | packages/hashtree/src/streaming.ts:27-34 | chunks and buffer are what one cut of all bytes so far would give |
| Writers.StreamWriter.CurrentRoot | packages/hashtree/src/streaming.ts:132-157 | the root of what is written so far; apart from the store nothing changes |
| Writers.StreamWriter.Finalize | packages/hashtree/src/streaming.ts:164-214 | the same root, key and size as one put of everything written, for any split into appends; with `plain` this is StreamBuilder |
| Upload.Uploader.TakeBuffered | packages/hashtree/src/upload.ts:72-104 | the head of the buffered bytes, exactly the batch size when that many wait |
| Upload.Uploader.FlushBuffered | packages/hashtree/src/upload.ts:115-124 | after a flush less than one batch waits, and nothing without batching |
| Upload.StreamUpload | packages/hashtree/src/upload.ts:49-151 | the batches join to the source, all of batchBytes but the last, and the result is that of one put |
| FollowDistance.Distances.Recalculate | packages/nostr-social-graph/src/SocialGraph.ts:73-154 | for every batch size: exactly the reachable users have a distance, it is that of a shortest follow chain, and the buckets are its inverse |
| FollowDistance.Distances.Pump | packages/nostr-social-graph/src/SocialGraph.ts:102-124 | one batch keeps the search invariant and gets on |
| FollowDistance.SearchIsComplete | packages/nostr-social-graph/src/SocialGraph.ts:73-154 | when the queue is used up, every follow chain ends at a user whose distance is not longer |
| FollowDistance.ExactDistancesAreUnique | packages/nostr-social-graph/src/SocialGraph.ts:73-154 | so the result does not depend on the batch size or on the order of the sets |
| FollowUpdates.AddIsRelaxation | packages/nostr-social-graph/src/SocialGraph.ts:280-315 | what a new follow does to the recorded distances, entries without a value included, is the relaxation of its one link |
| FollowUpdates.ExactExactly | packages/nostr-social-graph/src/SocialGraph.ts:73-154 | distances that are lengths of chains are the shortest, and complete, if and only if no follow leads further than one step |
| FollowUpdates.AddIsExactExactly | packages/nostr-social-graph/src/SocialGraph.ts:280-315 | exact distances stay exact through a follow if and only if whoever the followed user follows was within one step of the new distance before: it is not passed on |
| FollowUpdates.RemovalIsExactExactly | packages/nostr-social-graph/src/SocialGraph.ts:325-348 | exact distances stay exact when u stops following v if and only if v has not got its distance from u alone, or no one got one from v alone (and v cannot prop itself up by following itself) |
| FollowUpdates.RunIsWalks | packages/nostr-social-graph/src/SocialGraph.ts:280-315 | after any follows in any order each recorded distance is the length of a chain of follows |
| FollowUpdates.RunIsExactExactly | packages/nostr-social-graph/src/SocialGraph.ts:280-315 | and they are exact if and only if they are settled |
| FollowUpdates.NearestFirstIsExact | packages/nostr-social-graph/src/SocialGraph.ts:280-315 | when the follows come in the order of their authors' distances no recalculation is needed |
| FollowUpdates.LateFollowIsLost | packages/nostr-social-graph/src/SocialGraph.ts:305-315 | a list that comes before its author is reached gives its users no distance, then or later |
| FollowUpdates.ShortcutIsNotPassedOn | packages/nostr-social-graph/src/SocialGraph.ts:305-315 | a shorter way is not passed on, even with every author reached before its lists come |
| FollowUpdates.RemovalInventsADistance | packages/nostr-social-graph/src/SocialGraph.ts:325-348 | two who follow each other prop each other up: one out of reach is given the distance 3 |
| SocialGraph.SocialGraph.AddFollower | packages/nostr-social-graph/src/SocialGraph.ts:280-315 | adding a follow adds one link and keeps the two indexes transposed; distances change by that one relaxation and stay lengths of chains, and the buckets follow |
| SocialGraph.SocialGraph.RemoveFollower | packages/nostr-social-graph/src/SocialGraph.ts:325-348 | removing a follow drops one link; the user gets the nearest remaining follower's distance and one more, or none; the buckets stay |
| SocialGraph.SocialGraph.HandleFollowList | packages/nostr-social-graph/src/SocialGraph.ts:182-213 | an accepted list becomes the author's follows, no other author's change, and the indexes stay transposed. If it only adds users and the author has distance d, each named user has d + 1 or its nearer distance and no other distance changes; the buckets stay right and distances stay lengths of chains. The users it drops are first reset, one after the other, to the nearest of their other followers; a refused list changes nothing |
| SocialGraph.SocialGraph.HandleMuteList | packages/nostr-social-graph/src/SocialGraph.ts:215-255 | the same for mutes |
| SocialGraph.NewestWinsExactly | packages/nostr-social-graph/src/SocialGraph.ts:182-188 | over one author's events with distinct times, in any order, the newest is what is recorded, if and only if its time is not 0 or it comes last |
| SocialGraph.NewestIsKept | packages/nostr-social-graph/src/SocialGraph.ts:182-213 | in any order the list of the newest event is recorded, and of several with that time the one that came first, unless that time is 0 and others follow |
| SocialGraph.ZeroIsForgotten | packages/nostr-social-graph/src/SocialGraph.ts:182-188 | what follows a recorded time of 0 is handled as if nothing had come before |
| GraphUtils.CleanMutes | packages/nostr-social-graph/src/SocialGraphUtils.ts:178-197 | cleaning by the inverse relations removes exactly the links of removed users, also among themselves |
| GraphUtils.CleanFollows | packages/nostr-social-graph/src/SocialGraphUtils.ts:163-176 | stripping all sets removes exactly their follows |
| GraphUtils.BatchRemoveUsers | packages/nostr-social-graph/src/SocialGraphUtils.ts:120-198 | the links between users that stay, and only those, are left in all four indexes; ids, times and distance buckets go with the users |
| GraphUtils.RemoveMutedNotFollowedUsers | packages/nostr-social-graph/src/SocialGraphUtils.ts:11-115 | exactly the users that someone mutes and no one follows are removed |
| UniqueIds.UniqueIds.GetId | packages/nostr-social-graph/src/UniqueIds.ts:14-28 | a string keeps its id, a new one gets a fresh id, a blank one is refused |
| UniqueIds.SpaceExactly | packages/nostr-social-graph/src/UniqueIds.ts:15-17 | the code units that trim strips, one by one: a string of nothing else is blank |
| UniqueIds.UniqueIds.Name | packages/nostr-social-graph/src/UniqueIds.ts:30-36 | ids and strings are in bijection |
| UniqueIds.UniqueIds.Remove | packages/nostr-social-graph/src/UniqueIds.ts:46-52 | removing forgets one pair and frees no id |
| Varint.RoundTripExactly | packages/nostr-social-graph/src/SocialGraphBinary.ts:134-151 | a value survives the unsigned encoder and the signed decoder if and only if it is a signed 32-bit integer |
| Varint.EncodedIsGroups | packages/nostr-social-graph/src/SocialGraphBinary.ts:233-240 | an integer is written as its groups of seven bits, the lowest first, the eighth bit on all but the last, and no more groups than needed |
| Varint.DecodeVarint | packages/nostr-social-graph/src/SocialGraphBinary.ts:134-151 | the decoding loop with 32-bit operators, on any bytes |
| GraphFormat.HexRoundTripExactly | packages/nostr-social-graph/src/SocialGraphBinary.ts:114-131 | a hexadecimal key comes back if and only if it is in lower case |
| GraphFormat.HexByteAt | packages/nostr-social-graph/src/SocialGraphBinary.ts:116-126 | each byte of a key is two of its digits, the high one first |
| GraphFormat.ImageLayout | packages/nostr-social-graph/src/SocialGraphBinary.ts:243-287 | the bytes are the version 2, the block of ids, the block of follow lists and the block of mute lists, in this order |
| GraphFormat.SmallImage | packages/nostr-social-graph/src/SocialGraphBinary.ts:243-287 | the bytes of a graph of one user, who follows two, field by field |
| GraphFormat.ReadImage | packages/nostr-social-graph/src/SocialGraphBinary.ts:314-392 | parsing recovers every image whose values fit |
| GraphWriter.ByteWriter.WriteBytes | packages/nostr-social-graph/src/SocialGraphBinary.ts:218-231 | bytes are written in order, whatever the 16 KB boundaries cut through |
| GraphWriter.ByteWriter.WriteVar | packages/nostr-social-graph/src/SocialGraphBinary.ts:233-240 | an integer is written as its encoding |
| GraphWriter.WriteChunks | packages/nostr-social-graph/src/SocialGraphBinary.ts:155-293 | the chunks are the image of the plan, all of 16 KB but the last; it fails exactly when an id has no hexadecimal name |
| GraphWriter.ToBinary | packages/nostr-social-graph/src/SocialGraphBinary.ts:296-312 | their concatenation is the image |
| GraphBinary.PlanAll | packages/nostr-social-graph/src/SocialGraphBinary.ts:174-197 | without budgets all lists are kept whole and the id block is exactly the users in them |
| GraphBinary.FromBinary | packages/nostr-social-graph/src/SocialGraphBinary.ts:314-447 | loading an image gives its follows, mutes, times and names, with both index pairs transposed; the distances are those of its follows in file order, and exact if and only if they are settled |
| GraphBinary.NearestListsFirst | packages/nostr-social-graph/src/SocialGraphBinary.ts:426-432 | a file whose follow lists come nearest first is loaded with exact distances |
| GraphBinary.LoadMutes | packages/nostr-social-graph/src/SocialGraphBinary.ts:434-444 | mute lists are loaded into both indexes, if no owner has two |
| GraphBinary.WholeTimes | packages/nostr-social-graph/src/SocialGraphBinary.ts:252-287 | timestamps come back for exactly the users with an entry in the index, 0 where none was recorded; so all of them do if and only if the two maps have the same keys |
| GraphBinary.SaveAndLoad | packages/nostr-social-graph/src/SocialGraphBinary.ts:155-447 | the same follow and mute relations over public keys after saving and loading, and those timestamps; the distances are exact if the lists came nearest first |
| GraphBudget.PlanBudget | packages/nostr-social-graph/src/SocialGraphBinary.ts:5-112 | takes the candidate edges in order, passing over unknown ids, and stops at exactly the first one that does not fit; node, edge and distance limits always hold; with disjoint buckets and known ids every list is as long as announced, a prefix of its set, within the id block and within the limit per node |
| GraphBudget.RecalculatedBucketsAreDisjoint | packages/nostr-social-graph/src/SocialGraph.ts:73-154 | after a recalculation no user is in two distance buckets, which is what a sound plan needs |
| GraphBudget.ChooseEdges | packages/nostr-social-graph/src/SocialGraphBinary.ts:60-99 | the plan counts exactly the edges taken, owner by owner, its ids are exactly their ends, and it stops only where the next known edge does not fit the node or edge limit |
| GraphBudget.CollectOwner | packages/nostr-social-graph/src/SocialGraphBinary.ts:29-57 | as many of the owner's follows, then of its mutes, as the limit per node has room for, in set order |
| GraphBudget.CollectEdges | packages/nostr-social-graph/src/SocialGraphBinary.ts:20-58 | the candidates of all users within the distance limit, nearest buckets first |
| GraphBudget.CandidatesAreCollected | packages/nostr-social-graph/src/SocialGraphBinary.ts:20-58 | with no user in two buckets, exactly the users within the distance limit have candidates: the first of their follows, then of their mutes, and all of them unless the limit per node is reached |
| GraphBudgetFile.SaveAndLoadPlan | packages/nostr-social-graph/src/SocialGraphBinary.ts:155-447 | from a file saved under a plan, exactly the chosen follows and mutes are loaded, with the times of their owners and the keys of exactly their ends, besides the root |
| GraphBudgetFile.SaveAndLoadBudgeted | packages/nostr-social-graph/src/SocialGraphBinary.ts:5-447 | planned under a budget, saved and loaded: the follows and mutes of the new graph are the candidate edges up to the first that does not fit, within the budget |
| GraphSnapshot.CandidatesAreSorted | packages/nostr-social-graph/src/SocialGraphBinary.ts:20-58 | with recalculated buckets the candidate edges come in the order of their owners' distances |
| GraphSnapshot.OldDistancesAreExact | packages/nostr-social-graph/src/SocialGraphBinary.ts:20-99 | any first part of them that leaves out no nearer follow reaches its users by chains as short as the whole graph's |
| GraphSnapshot.SaveAndLoadSnapshot | packages/nostr-social-graph/src/SocialGraphBinary.ts:5-447 | saved under any limits on nodes, edges and distance and loaded with the same root, a graph has exact follow distances without a recalculation, and those of the saved users are the old ones |
| GraphSnapshot.LimitLosesADistance | packages/nostr-social-graph/src/SocialGraphBinary.ts:36-55 | a limit per node breaks that: a graph of five users of which one is then loaded without a distance |
| Fragments.SendResponse | packages/hashtree-nostr/src/webrtc/peer.ts:383-410 | one message, or all fragments of the data in order |
| Fragments.FragmentSizes | packages/hashtree-nostr/src/webrtc/peer.ts:383-410 | every fragment but the last carries 32768 bytes, the last what is left, and together they are the data |
| Fragments.AssembleFragments | packages/hashtree-nostr/src/webrtc/peer.ts:467-476 | with all pieces held, exactly the data |
| Fragments.Receiver.HandleFragmentResponse | packages/hashtree-nostr/src/webrtc/peer.ts:415-462 | what comes out for a hash is what was sent, exactly when the last missing index arrives; an entry keeps the time of its first fragment, and its last time moves exactly with a new index; other hashes are untouched |
| Fragments.Receiver.Cleanup | packages/hashtree-nostr/src/webrtc/peer.ts:481-505 | stale reassemblies go, one oldest more when over 20 remain, and the rest is unchanged |
| Fragments.StaleExactly | packages/hashtree-nostr/src/webrtc/peer.ts:451-494 | an entry whose two times are those of its hash's events is stale if and only if no new index arrived in the last 5 seconds or its first fragment is more than 2 minutes old |
| Fragments.FirstCompletion | packages/hashtree-nostr/src/webrtc/peer.ts:415-462 | without drops, in any order and with duplicates, the data comes out first exactly at the event that completes the set |
| Fragments.CompletionNeedsAll | packages/hashtree-nostr/src/webrtc/peer.ts:481-505 | with drops in between, it comes out only after every index arrived since the last drop |
| Fragments.Replay | packages/hashtree-nostr/src/webrtc/peer.ts:383-505 | a real receiver fed any interleaving of fragments of many hashes, with duplicates, timers and cleanups, each at a time: at each event the data comes out exactly when that hash's own run completes; and a cleanup drops exactly the hashes of which no new index arrived in 5 seconds or whose first fragment is over 2 minutes old, and of more than 20 others one whose first fragment is the oldest |
| Mesh.Decrement | packages/hashtree-nostr/src/webrtc/protocol.ts:112-138 | hops never rise, and never exceed the policy's maximum |
| Mesh.SticksExactly | packages/hashtree-nostr/src/webrtc/protocol.ts:112-138 | a relay costs one of the hops left, within the maximum, or none; none exactly at the maximum and at 1, by the peer's samples |
| Mesh.HopsExactly | packages/hashtree-nostr/src/webrtc/protocol.ts:112-138 | the hops left after any number of relays by peers that decrement alike: 4 for ever, or one by one down to 0 or to 1; so hops alone need not end a flood |
| Mesh.Prune | packages/hashtree-nostr/src/webrtc/store.ts:878-890 | pruning keeps exactly the young marks, at most the cap, the newest |
| Mesh.YoungExactly | packages/hashtree-nostr/src/webrtc/store.ts:878-884 | the marks that are kept by age are exactly those made within the time |
| Mesh.KeptWhileYoung | packages/hashtree-nostr/src/webrtc/store.ts:878-890 | nothing is forgotten while there is room and time |
| Mesh.Node.MarkSeenFrameId | packages/hashtree-nostr/src/webrtc/store.ts:892-897 | true exactly when the id is not among the at most 4096 marks of the last 120 seconds, and then it is added |
| Mesh.Node.HandleMeshFrame | packages/hashtree-nostr/src/webrtc/store.ts:926-954 | a frame is passed on exactly when it is valid, verified and neither its id nor its event's is remembered, and not back to its sender; its id is remembered if it is valid, and its event's if also the frame is new |
| Mesh.ForwardsExactly | packages/hashtree-nostr/src/webrtc/store.ts:906-924 | it goes to exactly the connected peers, but the excluded one, that have hops left |
| Mesh.FloodIsBounded | packages/hashtree-nostr/src/webrtc/store.ts:906-980 | over any topology and order of delivery each link carries the frame at most once, and hops never rise along a path |
| Mesh.FloodTerminates | packages/hashtree-nostr/src/webrtc/store.ts:906-980 | every run ends after at most one step per link and per node |
| Mesh.ForwardsAreCopies | packages/hashtree-nostr/src/webrtc/store.ts:906-924 | what a node forwards are copies as the flood allows: its links, each once, not back, with hops left |
| Mesh.Node.ReceiveFrame | packages/hashtree-nostr/src/webrtc/store.ts:926-954 | the handler of a node makes a step of the flood |
| Mesh.Node.StartFlood | packages/hashtree-nostr/src/webrtc/store.ts:956-980 | and so does its own dispatch |
| Mesh.Flood | packages/hashtree-nostr/src/webrtc/store.ts:906-980 | real nodes, frames delivered in any order before the id is too old to be remembered: the flood ends, each link has carried the frame at most once, hops never rose, and exactly the origin and the nodes it was sent to remember it |
| Hex.PaddedOrder | packages/hashtree-nostr/src/events.ts:54-60 | fixed-width hexadecimal orders as numbers do |
| EventKeys.PadKindExactly | packages/hashtree-nostr/src/events.ts:54-56 | a kind is written in hexadecimal, with zeros in front exactly up to 8 digits |
| EventKeys.KeyOrderIsNewestFirst | packages/hashtree-nostr/src/events.ts:491-505 | under any prefix, key order is newest first and then smaller id first, and a key is one id and time |
| EventKeys.TimeReadsBackExactly | packages/hashtree-nostr/src/events.ts:507-521 | the time is read back from a key, whatever colons its prefix holds, if and only if it is a safe integer; otherwise, with a time of any size, listing throws |
| EventKeys.KeysIdentifySlots | packages/hashtree-nostr/src/events.ts:553-559 | a replaceable key is one author, one kind and one d tag, for kinds of any size |
| EventKeys.DTagExactly | packages/hashtree-nostr/src/events.ts:70-78 | getDTag gives the value of the first tag that is named d and has a value that is not empty, and none exactly when there is no such tag |
| EventKeys.ScopeExactly | packages/hashtree-nostr/src/events.ts:491-505 | a key of the author, kind or author-and-kind index starts with a list's prefix if and only if its event belongs to the list, for kinds of any size |
| EventStore.CollectEvents | packages/hashtree-nostr/src/events.ts:395-420 | over an index in key order, all events in the window up to the limit, despite the early stop; a limit below 1 acts as 1 |
| EventStore.IndexEntries | packages/hashtree-nostr/src/events.ts:166-201 | after any adds each of the four time indexes holds exactly the added events under their keys, in order |
| EventStore.ListRecent | packages/hashtree-nostr/src/events.ts:299-306 | after any adds: the first events, up to the limit, of the newest-first list of all added events in the window |
| EventStore.ListsExactly | packages/hashtree-nostr/src/events.ts:258-297 | after any adds, the lists of an author, of a kind, or of both are the first events, up to the limit, of the newest-first list, for all options, if and only if the prefix scan sees the whole list |
| EventStore.ListIsExactly | packages/hashtree-nostr/src/events.ts:395-420 | the general fact: any list of an index whose keys are prefixes followed by time keys is exact for all options if and only if the scan sees all of it |
| EventStore.ListByAuthor | packages/hashtree-nostr/src/events.ts:258-265 | exact under that condition, and always what the scan finds in the window, newest first; a malformed key throws, unless there is no index |
| EventStore.ListByAuthorAndKind | packages/hashtree-nostr/src/events.ts:267-283 | the same for an author and a kind |
| EventStore.ListByKind | packages/hashtree-nostr/src/events.ts:378-393 | the same for a kind |
| EventTags.PlacedExactly | packages/hashtree-nostr/src/events.ts:523-534 | the tag index places an event under a prefix if and only if the event was added and has a tag with a name and a value of which that is the key: name in lower case, colon, value (in lower case for t), colon; whatever strings the tags are |
| EventTags.KeyOfTag | packages/hashtree-nostr/src/events.ts:523-539 | without colons, a tag's key is a name's and value's key if and only if the tag has that name and value |
| EventTags.TagListIsExactly | packages/hashtree-nostr/src/events.ts:308-320 | a tag's list holds exactly the added events that have a tag of that name, in any case, and that value, newest first up to the limit, for all options, if and only if the scan sees all of it; for tags without colons |
| EventTags.ListByTag | packages/hashtree-nostr/src/events.ts:308-320 | exact under that condition, and always what the scan finds in the window; the empty name throws, unless there is no index |
| EventTags.ColonMixesTags | packages/hashtree-nostr/src/events.ts:523-539 | with a colon in a value, an event of one tag is found under the prefix of another |
| EventHidden.EarlierAuthorIsHidden | packages/hashtree-nostr/src/events.ts:258-265 | any order: once the events of later authors have split the index, a new event of an earlier author is stored, but no list of that author finds it |
| EventHidden.NewestIsHidden | packages/hashtree-nostr/src/events.ts:258-265 | such events exist for every order below 65536: that many notes by one author, then the newest by an earlier one |
| EventSlots.SlotHoldsTheWinner | packages/hashtree-nostr/src/events.ts:431-448 | after any adds in any order, a slot holds an added event than which no other is newer, or of the same time with a larger id; it is empty only if there is none |
| EventSlots.OrderDoesNotMatter | packages/hashtree-nostr/src/events.ts:228-238 | the order of adds does not show in a slot |
| EventSlots.ReplaceableIsBest | packages/hashtree-nostr/src/events.ts:285-297 | getReplaceable after any adds in any order: of the author's events of that replaceable kind one with the largest time, and of those the largest id; null if and only if there is none |
| EventSlots.ParameterizedIsBest | packages/hashtree-nostr/src/events.ts:322-351 | getParameterizedReplaceable: the same among the events whose first d tag with a value has that value |
| PeerSelector.ApplyFairness | packages/hashtree-nostr/src/webrtc/peerSelector.ts:345-357 | a rotation to the first peer with at most 30% of the requests, if there is one; with four peers or more there is one among the first four |
| PeerSelector.Normalize | packages/hashtree-nostr/src/webrtc/peerSelector.ts:360-377 | a maximum of 0, or above the peers there are, becomes all of them, a negative one none; a fan-out of 0 becomes 1, one above the maximum comes down to it (but not below 1), all else is kept |
| PeerSelector.BuildHedgedWavePlan | packages/hashtree-nostr/src/webrtc/peerSelector.ts:379-397 | positive waves that add up to exactly the cap, each of the size asked for unless the cap is reached |
| PeerSelector.QueryPeers | packages/hashtree-nostr/src/webrtc/store.ts:784-847 | the peers asked are the first of the order, at most the cap, and exactly that many unless the data comes or the deadline passes before; the first to answer with the data wins; when no one does, each was charged exactly once, a failure for wrong data, a timeout for none |

## Left out

- One key order: the code sorts directories with localeCompare and routes with `<`; the model uses the code-unit order for both, so keys that the two sort differently are not covered. Those are not only mixed-case and non-ASCII keys: the colon comes after the digits in one and before them in the other, so tag keys and keys with d tags can be among them. Keys with the colons at fixed places, as of the time indexes and of replaceable events (kinds below 2^32), are sorted alike by both.
- Directory names are the decoded keys; that escaping is a bijection is proved apart. Directory chunking by size, entry sizes and types, and malformed nodes are not modelled.
- Cryptography, MessagePack, bech32 and SHA-256 themselves; they are functions with stated laws.
- Walk: the key under which a block is decrypted is fixed by its hash, so a store that links one block under two keys is not covered.
- Push: callbacks that throw, and the messages of errors; the pull that comes first is Walk.Pull.
- FileStore.Resolve: the number of node levels a reader follows is bounded by an argument; files written here have one level.
- FileStore.SmallFileReadsBackExactly: when the root is read as a node, the bytes that come back are said only for nodes that are roots of stored files (FileStore.NodeFileReadsAsItsTree).
- FileStore.PublicFileReadsBackExactly: says what tree a public reader sees; that reader's own loop differs from ChunkTree.AssembleChunks only in that no link needs a key.
- Bep52Builders.BuildFromData: for files of at most 2^30 blocks, as for the stream builder; the piece size is given as a power of two of blocks, as the constructor demands.
- Bep52Builders.StreamBuilder.Finalize: for files of at most 2^30 blocks, beyond which merkleNumLeafs does not return.
- MediaStream.StreamFileRangeChunks: of a stream that fails, which pieces it yields before that is not said; buffers handed to the caller are values, so aliasing of yielded arrays is not modelled.
- Writers.StreamWriter.Finalize: what happens when a writer is used again after it was finalized.
- Upload.StreamUpload: the progress callbacks.
- SocialGraph.SocialGraph.HandleFollowList: tags are given as ids of valid public keys; allocation of ids is in UniqueIds. In which order a list's dropped users are reset is left open.
- GraphUtils.BatchRemoveUsers: the sets captured before removal are copies; in the source they are the live sets, which nothing changes once they are out of the maps.
- GraphBinary.SaveAndLoad: for keys that are 64 lower-case digits, one per id, and for ids, counts and times that are signed 32-bit numbers; what happens outside is in Varint.RoundTripExactly and GraphFormat.HexRoundTripExactly.
- GraphBinary.FromBinary: for images as the encoder makes them the result is exact; of other bytes only that parsing is total.
- GraphBudgetFile.SaveAndLoadBudgeted: for freshly recalculated buckets, known ids and values that fit.
- GraphSnapshot.SaveAndLoadSnapshot: for the same inputs, and the root that the distances were calculated from.
- GraphBudget.PlanBudget: the sort of the distance buckets; they are given nearest first.
- SocialGraph.merge, pruning of overmuted users, and the graph's query methods.
- Fragments: the request bookkeeping and stats; when a request's timer fires is left open, it is an event that forgets a hash.
- Mesh: the flood is that of one frame whose id stays remembered at every node (in Mesh.Flood no other frame arrives meanwhile, and all deliveries are within the time that an id is remembered); frames that share an event are the `accepted` flag.
- PeerSelector.ApplyFairness: shares are exact fractions, not floating point; scores and back-off are not modelled.
- PeerSelector.QueryPeers: time is the choice to stop waiting; a disconnect during the query is not modelled.
- EventKeys.KeyOrderIsNewestFirst: for times below 2^64, though validateCreatedAt takes any integer that is not negative; the key of a later time holds a minus sign, and listing throws on it (EventKeys.TimeReadsBackExactly).
- EventTags.TagListIsExactly: for tags without colons; with one, see EventTags.ColonMixesTags. Lower-casing is an arbitrary function.
- EventStore: lookups by id, and the manifest directory.
- EventStore.ListByAuthor: for stored times that are safe integers; on a later one every list that meets it throws.
- The search index, caches, resolver, stores, Svelte app, service workers, servers and benchmarks.
