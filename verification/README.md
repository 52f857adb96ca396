# embARC: allocator, CoAP stack and getopt

Dafny models of three parts of the embARC software distribution, with proofs of what they are for.
`dafny verify dfyconfig.toml` checks everything.

**Allocator** (`library/clib/malloc.c`, modules `Malloc*`). The boundary-tag allocator in its ARC
configuration: 4-byte sizes, 8-byte alignment, minimum chunk 16, pages and granularity of 4096 bytes, no
mmap, no footers, no locks, no mspaces, one contiguous segment. Memory is a set of maps from addresses to the
words of each field, so that overlapping chunk structures can be told apart; `MallocPayload` says which fields lie
in which payload, and `MallocClient` that no two words the allocator relies on overlap. The small bins (circular
lists and a bitmap) and the tree bins (bitwise tries with rings of equal sizes and a bitmap) are classes whose
methods do the pointer surgery of the macros; `MallocHeap.Heap` puts them together with tags, designated victim,
top and segment. Its invariant is the one of the source's own checkers (lines 3227-3489). A client's store into
its block overwrites every field that lies at the word, and `MallocRuns` follows a client through any sequence of
calls and stores. Words have their lowest byte first.
MORECORE is an oracle: two flags per call say whether the contiguous attempt and the second attempt are
granted, and a granted call extends the segment at its end, from a break that is 8-aligned. The text of
`dlfree` is that of `dispose_chunk`, and both are the method `DisposeChunk`. Masks with powers of two are
written as remainders and quotients; unsigned 32-bit wrap-around is written out (`Wrap`).

**CoAP** (`middleware/coap`, modules `Coap*`). Options and messages (RFC 7252, section 3): encoder, parser,
iterator, filter, accessors, with the message buffer as an array; `CoapWire` is the standard's grammar of
messages. Block options (RFC 7959, section 2.2). The queue of confirmable messages, whose nodes hold relative
times, with retransmission (RFC 7252, section 4.2). A sweep of the retransmission timer serves a message when
its load has elapsed: the times of all messages and repetitions that it takes off before (`CoapSweep.Load`).
The link-format printer (RFC 6690) that writes through a window, and the response to requests for
/.well-known/core, block by block; `CoapLinksReading` is a reader for that format. The notification of
observers (RFC 7641) under arbitrary allocation and send failures.

**getopt** (`library/clib/ya_getopt.c`, modules `Getopt*`). The scanner for short options that keeps its
state between calls and rotates argv in place, in its permuting mode. Note that `check_gnu_extension` (lines
65-81) sets `posixly_correct` the other way round: a leading '+' or POSIXLY_CORRECT selects the permuting mode.
`GetoptReading` writes option strings from declarations and argument lists from options and operands.

Some promises hold only under a condition, which is then proved to be the exact one, with a concrete
counterexample beside it: option deltas and lengths of 269 (`Delta269`), option numbers of 256 and more under a
filter (`AliasedNumber`) and in the check for critical options (`AliasedCritical`), one byte of header overrun
(`OverrunExample`), block numbers beyond 20 bits after shrinking (`OffsetLost`) and in the response for
/.well-known/core (`AnnouncedWrongly`), whose last character may be missing (`LastCharacter`), messages that are
due but missed by the retransmission timer (`MissedMessage`), operands in front of "--" (`OperandBeforeDashes`),
calls of getopt after -1 (`OptindRunsAway`).

## Model

| member | source | states |
|---|---|---|
| MallocBitmap.MarkAndClear | library/clib/malloc.c:2928-2935 | marking a bin sets, and clearing it clears, exactly the one bit of the map |
| MallocBitmap.LowestMarked | library/clib/malloc.c:2938-2987 | for every non-zero 32-bit map, `least_bit` followed by the portable `compute_bit2idx` is the lowest marked index |
| MallocBitmap.NextMarked | library/clib/malloc.c:4472-4476 | for every 32-bit map and index, `left_bits`, `least_bit` and `compute_bit2idx` find the lowest marked index above the given one, or none if none is marked |
| MallocBitmap.WindowIsExact | library/clib/malloc.c:4587-4592 | the two-bit window succeeds iff the bin or the next one is marked, and prefers the lower one |
| MallocBitmap.NextSmallIsNext | library/clib/malloc.c:4604-4610 | after shifting the window back, the search above it misses no marked bin above the index |
| MallocSizes.NormLogValue | library/clib/malloc.c:2890-2904 | the borrow tests of `compute_tree_index` compute the floor of the base-2 logarithm for every 16-bit value |
| MallocSizes.TreeIndexUnfolds | library/clib/malloc.c:2890-2906 | `compute_tree_index(S)` is twice that logarithm of S >> 8 plus the next bit of S, for 2^8 <= S < 2^24 |
| MallocSizes.PaddedHolds | library/clib/malloc.c:2235-2244 | a padded request is a multiple of 8, at least MIN_CHUNK_SIZE, and leaves the requested bytes behind the head word; small and large requests get small and large sizes |
| MallocSizes.PaddedIsLeast | library/clib/malloc.c:2235-2244 | no smaller legal chunk has room for the requested bytes |
| MallocSizes.AskedSize | library/clib/malloc.c:4060-4062 | a request that passes the wrap-around test has been padded to whole pages without wrapping |
| MallocSizes.FirstSize | library/clib/malloc.c:4097-4109 | the size that ends the first request on a page boundary still covers the request, wrap-around included |
| MallocGrowth.RequestedPages | library/clib/malloc.c:4060-4060 | the size asked of the system is the least number of whole pages for the padded request |
| MallocGrowth.PageReached | library/clib/malloc.c:4102-4104 | the first segment is made to end on a page, at the cost of less than a page |
| MallocGrowth.RequestedIs | library/clib/malloc.c:4060-4062 | the computation of `asize` in 32 bits is that number of bytes, and the wrap-around test refuses exactly the requests whose padding wraps |
| MallocGrowth.LackingIs | library/clib/malloc.c:4110-4117 | the second `asize`, in 32 bits: whole pages for what the top lacks, padding included |
| MallocGrowth.FirstIs | library/clib/malloc.c:4097-4107 | `ssize` in 32 bits passes the tests of the first request iff the exact size does, and then is the exact size |
| MallocGrowth.GrantCovers | library/clib/malloc.c:4179-4252 | every size that is granted serves the request and keeps the top aligned |
| MallocTreeIndex.TreeIndexBracket | library/clib/malloc.c:2889-2921 | for every size from 256 up to 2^32: `compute_tree_index` is i iff the size lies between `minsize_for_tree_index` of i and of i + 1 (31 takes all above) |
| MallocTreeIndex.TreeIndexMonotone | library/clib/malloc.c:2889-2906 | larger sizes never go to a lower bin; every index is below 32 |
| MallocTreeIndex.SameBinSameRoot | library/clib/malloc.c:2908-2915 | all sizes of one tree bin agree on the bits that the trie of the bin does not branch on |
| MallocTreeIndex.KeyInit | library/clib/malloc.c:3671-3671 | shifting a size by `leftshift_for_tree_index` puts the first branching bit in the sign position |
| MallocTreeIndex.KeyBit | library/clib/malloc.c:3674-3675 | at every level the sign bit of the shifted key is the size bit the level branches on, and one more shift is the key of the next level |
| MallocSmallBins.SmallBins.constructor | library/clib/malloc.c:3919-3927 | empty bins; the headers need no links while their map bits are clear |
| MallocSmallBins.SmallBins.MarkedBin | library/clib/malloc.c:3371-3392 | a bit of `smallmap` is set iff some chunk has the size of that bin |
| MallocSmallBins.SmallBins.Window | library/clib/malloc.c:4587-4610 | the choice made from the map alone is the smallest size in the small bins that is at least the request; an empty window means there is none |
| MallocSmallBins.SmallBins.Insert | library/clib/malloc.c:3578-3594 | the chunk becomes the first of the list of its size; the set of chunks grows by exactly it; only link fields of binned chunks are written |
| MallocSmallBins.SmallBins.Unlink | library/clib/malloc.c:3597-3620 | the chunk leaves its list wherever it is, the others stay in order, and the set of chunks loses exactly it |
| MallocSmallBins.SmallBins.UnlinkFirst | library/clib/malloc.c:3623-3638 | the first chunk of a non-empty bin is taken, and has the size of the bin |
| MallocTrie.PositionUnique | library/clib/malloc.c:3309-3357 | no two trie nodes stand for the same prefix of size bits: sizes in a bin are unique |
| MallocTrie.Ancestor | library/clib/malloc.c:3309-3357 | every prefix above a node is itself a node of the trie |
| MallocTrie.AddLeaf | library/clib/malloc.c:3678-3682 | hanging a chunk on the free side that its size bit selects keeps the trie (prefixes, parents, roots) |
| MallocTrie.DetachLeaf | library/clib/malloc.c:3745-3748 | taking a leaf out of its slot keeps the trie |
| MallocTrie.ReplaceNode | library/clib/malloc.c:3754-3791 | a chunk of the same prefix may take over place, parent and children of a node |
| MallocTreeBins.NodeOfSize | library/clib/malloc.c:3309-3357 | every chunk of a ring shares its size with a trie node, which is reached along `bk` |
| MallocTreeBins.RelinkedIsReplace | library/clib/malloc.c:3754-3791 | the relinking statements rename the unlinked chunk to its replacement throughout parent slot, child slots and roots |
| MallocTreeBins.PathStep | library/clib/malloc.c:3673-3682 | one turn of the insertion walk: the branch bit leads to the node of the longer prefix, or no chunk has this size; the walk ends because the bits run out |
| MallocTreeBins.InnerUnlinked | library/clib/malloc.c:3738-3791 | a node without twins may be replaced by the leaf reached from it |
| MallocTreeBins.TreeBins.constructor | library/clib/malloc.c:3919-3927 | empty tree bins |
| MallocTreeBins.TreeBins.Insert | library/clib/malloc.c:3656-3705 | all tree invariants are kept and the chunks grow by exactly this one; only fields of binned chunks are written |
| MallocTreeBins.TreeBins.InsertBelow | library/clib/malloc.c:3670-3703 | the loop of the insertion: joins the ring of an equal size or becomes a new leaf |
| MallocTreeBins.TreeBins.Unlink | library/clib/malloc.c:3724-3793 | all tree invariants are kept and the chunks lose exactly this one, whether it is a ring member, a node with twins, an inner node or a leaf; and the place of a node goes to the twin behind it or to its right-first leaf |
| MallocTreeBins.TreeBins.DescendToLeaf | library/clib/malloc.c:3739-3746 | the walk goes right whenever it can, ends at a leaf below the node, and knows the slot the leaf hangs in |
| MallocBestFit.TremLess | library/clib/malloc.c:4454-4456 | the unsigned comparison of the wrapped differences accepts exactly the chunks that fit and are closer than the best so far |
| MallocBestFit.SearchStep | library/clib/malloc.c:4452-4469 | one turn of the search keeps: every fitting chunk of the bin is no better than the best so far, or in the current or the remembered right subtree, or above it |
| MallocBestFit.LeftmostStep | library/clib/malloc.c:4481-4488 | one turn of the leftmost walk keeps that everything left out is no better |
| MallocBestFit.SearchBin | library/clib/malloc.c:4448-4470 | the search of the own bin loses no candidate |
| MallocBestFit.FindBestFit | library/clib/malloc.c:4442-4488 | the search of `tmalloc_large` yields a smallest chunk of all tree bins that is at least the request, or none iff none is |
| MallocBestFit.FindSmallest | library/clib/malloc.c:4513-4528 | the search of `tmalloc_small` yields the smallest chunk of all tree bins |
| MallocTags.HeadParts | library/clib/malloc.c:2262-2292 | size and the two in-use bits are read back from a head word as they were put in |
| MallocTags.SetFreeIs | library/clib/malloc.c:2299-2301 | `set_free_with_pinuse`: which size, bits and foot change, and that nothing else does |
| MallocTags.SetInuseAndPinuseIs | library/clib/malloc.c:3067-3069 | `set_inuse_and_pinuse`: which size and bits change, and that nothing else does |
| MallocLayout.Disjoint | library/clib/malloc.c:3431-3460 | two chunks of the row never overlap |
| MallocLayout.Predecessor | library/clib/malloc.c:3431-3460 | every chunk but the first follows directly on another |
| MallocTagSteps.BackwardNeighbour | library/clib/malloc.c:4380-4396 | a clear pinuse bit means that `prev_foot` leads to the beginning of the free chunk before |
| MallocTagSteps.FreeFollowsLive | library/clib/malloc.c:3272-3292 | in front of a free chunk stands a chunk in use: no two free chunks are adjacent |
| MallocTagSteps.JoinedForward | library/clib/malloc.c:4423-4432 | swallowing the free chunk behind keeps row and tags, and what follows is in use |
| MallocTagSteps.TakenPart | library/clib/malloc.c:4619-4623 | splitting a free chunk keeps row and tags |
| MallocHeapInv.FirstTop | library/clib/malloc.c:3904-3916 | `init_top` on fresh memory establishes the invariant, the clear pinuse bit behind the top and the segment size included |
| MallocHeapFacts.FreeIsBinned | library/clib/malloc.c:3272-3392 | every free chunk is the designated victim or in exactly the one bin for its size |
| MallocHeapFacts.Shortage | library/clib/malloc.c:4583-4678 | if the victim and all chunks of both kinds of bins are too small, no free chunk of the heap fits |
| MallocPayload.TagsKeptAt | library/clib/malloc.c:3057-3074 | head and foot words written at chunk borders or inside a chunk not in use are no words of a payload in use |
| MallocPayload.LinksKeptAt | library/clib/malloc.c:3578-3793 | link fields of binned chunks, through whichever of the overlapping structures, lie outside every payload in use |
| MallocAlign.BitTest | library/clib/malloc.c:4902-4902 | the test of x & (x - 1) recognizes exactly the powers of two, for every 32-bit number but 0 |
| MallocAlign.RoundAlignment | library/clib/malloc.c:4900-4906 | for every alignment up to 2^31: the smallest power of two that is at least 16 and the alignment |
| MallocAlign.AlignedChunkIs | library/clib/malloc.c:4929-4935 | the chosen spot is aligned, a multiple of 8, leaves a leader of at least 16 bytes and is at most alignment + 8 bytes in |
| MallocHeap.Heap.constructor | library/clib/malloc.c:2643-2643 | the state before the first call |
| MallocHeap.Heap.DisposeChunk | library/clib/malloc.c:4371-4437 | the chunk is joined with free neighbours and binned or becomes part of victim or top; the invariant holds again, exactly this chunk is no longer in use, sizes of the others, segment and payloads are kept |
| MallocHeap.Heap.Consolidate | library/clib/malloc.c:4401-4436 | the forward half: into the top, into the victim, with the free chunk behind, or alone |
| MallocHeap.Heap.ReplaceDv | library/clib/malloc.c:3642-3651 | the old victim is binned and the remainder becomes the victim |
| MallocHeap.Heap.TakeSmallWhole | library/clib/malloc.c:4590-4601 | the remainderless fit |
| MallocHeap.Heap.TakeSmallPart | library/clib/malloc.c:4604-4628 | the split of a larger small chunk; on 4-byte sizes the remainder is always at least MIN_CHUNK_SIZE |
| MallocHeap.Heap.TMallocLarge | library/clib/malloc.c:4442-4510 | takes a chunk of minimum sufficient size over all tree bins; returns 0, changing nothing, only if no tree chunk fits or the victim fits at least as well |
| MallocHeap.Heap.TMallocSmall | library/clib/malloc.c:4513-4550 | always succeeds with the smallest tree chunk |
| MallocHeap.Heap.TakeVictim | library/clib/malloc.c:4646-4664 | the request is cut from the victim or exhausts it |
| MallocHeap.Heap.TakeTop | library/clib/malloc.c:4666-4676 | the request is cut from the top |
| MallocHeap.Heap.SmallRequest | library/clib/malloc.c:4583-4635 | a small request takes a best fit; without success and with a victim too small, no free chunk of the heap fits |
| MallocHeap.Heap.LargeRequest | library/clib/malloc.c:4636-4644 | the same for large requests |
| MallocHeap.Heap.SysAlloc | library/clib/malloc.c:4045-4252 | with one segment, which grows: memory comes iff padding does not wrap and the contiguous attempt (while contiguous) or the second one is granted, fits half the address space and stays inside it; the segment grows by exactly what was asked for; the chunk lies at the old top (or the segment start); after a refused contiguous attempt no other is made |
| MallocHeap.Heap.RequestSize | library/clib/malloc.c:4091-4180 | the two attempts: the contiguous one serves whenever it can, with what the top lacks; otherwise the second one, with the whole request |
| MallocHeap.Heap.ExtendTop | library/clib/malloc.c:4179-4252 | the memory granted becomes the segment or its end, and the top grows by exactly that; payloads are kept |
| MallocHeap.Heap.DlMalloc | library/clib/malloc.c:4552-4685 | the invariant; a fresh 8-aligned block of sufficient size, no live payload written; it fails, changing nothing, iff the request is too large, or no free chunk fits, the top is not larger and no memory can be had; memory is asked for iff no free chunk fits and the top is not larger; otherwise the segment stays as it is and the best fit is taken |
| MallocHeap.Heap.DlFree | library/clib/malloc.c:4690-4797 | the invariant; exactly this block is no longer in use; sizes and payloads of the others, and the segment, are kept |
| MallocHeap.Heap.Shrink | library/clib/malloc.c:4829-4838 | the excess is split off and released |
| MallocHeap.Heap.GrowIntoTop | library/clib/malloc.c:4839-4850 | grows into the top |
| MallocHeap.Heap.GrowIntoVictim | library/clib/malloc.c:4851-4872 | grows into the designated victim, splitting or exhausting it |
| MallocHeap.Heap.GrowIntoFree | library/clib/malloc.c:4873-4890 | grows into a binned free chunk, releasing the rest |
| MallocHeap.Heap.TryReallocChunk | library/clib/malloc.c:4819-4896 | succeeds iff the chunk with the free space directly behind it suffices; then the same chunk holds the new size, all live payloads (its own up to the smaller size) and the segment are kept; otherwise nothing changes |
| MallocHeap.Heap.MoveToAlignment | library/clib/malloc.c:4920-4948 | the leader is given back as a legal chunk; the rest is aligned and large enough |
| MallocHeap.Heap.GiveBackTail | library/clib/malloc.c:4950-4960 | spare room beyond MIN_CHUNK_SIZE is given back |
| MallocHeap.Heap.InternalMemalign | library/clib/malloc.c:4898-4970 | for every alignment up to 2^31: an address divisible by the rounded alignment, capacity for the bytes and at most MIN_CHUNK_SIZE more than padding asks for; it fails iff the size is too large or `dlmalloc` has to fail for it; the invariant after both disposals; live payloads kept; the segment unchanged unless memory was asked for |
| MallocHeap.Heap.DlMemalign | library/clib/malloc.c:5269-5274 | alignments up to 8 are served by `dlmalloc`, others by the rounded alignment; it fails exactly when these have to |
| MallocHeap.Heap.CopyWords | library/clib/malloc.c:5226-5226 | `memcpy` between two blocks: the first n bytes arrive, of the last word only the bytes asked for change; the invariant holds, other blocks are untouched |
| MallocHeap.Heap.Move | library/clib/malloc.c:5222-5230 | a new block, the contents copied, the old block released: neither the allocation before nor the release after copying damages what is copied; it fails exactly when `dlmalloc` has to |
| MallocHeap.Heap.Shrinkable | library/clib/malloc.c:4829-4838 | a block can always be made smaller where it is |
| MallocHeap.Heap.DlRealloc | library/clib/malloc.c:5193-5236 | the block stays where it is iff the size is legal and the chunk with the free space behind it suffices; otherwise it moves, and the call fails, changing nothing, iff the size is too large or a new block cannot be had; the memory of the block holds the same bytes up to the smaller size; other blocks are untouched |
| MallocClient.WordsApart | library/clib/malloc.c:2229-2232 | no two words that the allocator relies on (heads, feet of free chunks, links of binned chunks of either kind) lie at the same place |
| MallocClient.PayloadApart | library/clib/malloc.c:2262-2292 | and none of them lies in the payload of a chunk in use |
| MallocClient.OneWrite | library/clib/malloc.c:2229-2232 | so a write of such a word may be seen as a write of the one field: what the other fields at the same place then show is relied on nowhere |
| MallocClient.TagsSurvive | library/clib/malloc.c:2262-2292 | the tags survive any store of a client into its block: heads strictly inside and feet behind chunks in use do not matter |
| MallocClient.SmallSurvive | library/clib/malloc.c:3371-3392 | the lists of the small bins depend on no address that is not in them |
| MallocClient.TreesSurvive | library/clib/malloc.c:3309-3357 | the tries and rings depend on the fields of tree chunks only |
| MallocHeap.Heap.ClientStore | library/clib/malloc.c:2229-2230 | a client stores a word into its own block, which overwrites every field that lies there: the invariant holds, other payloads are kept |
| MallocHeap.Heap.LiveDisjoint | library/clib/malloc.c:3261-3269 | chunks in use never overlap |
| MallocRuns.Run | library/clib/malloc.c:4552-5274 | over every sequence of malloc, memalign, realloc and free calls and stores of the client into its blocks: after every call the heap holds what the client expects (every block is 8-aligned, has its bytes, overlaps no other, no word of it has been written by the allocator since, and every word that was stored there, or in a block that was resized to it, is still there if it fits; exactly the blocks are in use), calls fail only when they have to, and making a block smaller never fails and leaves it where it is |
| CoapOption.OptSetHeader | middleware/coap/option.c:326-379 | which headers are accepted, the bytes written and that no others are |
| CoapOption.HeaderOverrun | middleware/coap/option.c:357-376 | the header overruns its space, by exactly one byte, iff the length needs an extension and one byte too few is left |
| CoapOption.OverrunExample | middleware/coap/option.c:357-366 | a value of 13 bytes in one byte of space |
| CoapOption.OptParse | middleware/coap/option.c:37-115 | agrees with the parsing function on every buffer; what lies behind the last byte does not matter |
| CoapOption.DecodeEncode | middleware/coap/option.c:37-115 | parsing an encoded option gives back delta and length iff the delta is not 269 and the length is encodable (not 269, within two bytes) |
| CoapOption.Delta269 | middleware/coap/option.c:338-350 | the concrete failure: delta 269 is read back as 13 |
| CoapOption.EncodedOnWire | middleware/coap/option.c:326-406 | what is written is the format of RFC 7252, section 3.1, iff neither delta nor length is 269 and the length fits two bytes |
| CoapOption.ReadOffWire | middleware/coap/option.c:37-115 | every option in that format is read as it is meant, with the delta in 16 bits; only deltas whose high byte is 255 are refused |
| CoapOption.OptEncode | middleware/coap/option.c:381-406 | writes exactly the encoding, or fails iff it does not fit |
| CoapOption.OptDelta | middleware/coap/option.c:219-246 | on every option that parses, the accessor agrees with the parser |
| CoapOption.OptLength | middleware/coap/option.c:248-281 | the same for the length, in 16 bits |
| CoapOption.OptValue | middleware/coap/option.c:283-316 | the same for the position of the value |
| CoapMessage.WalkEncoded | middleware/coap/pdu.c:397-418 | on an encoded list of options the loop of the parser ends exactly at the payload |
| CoapMessage.OptionsEncoded | middleware/coap/option.c:156-204 | iterating over an encoded list gives back all numbers and values iff no delta or length is 269 |
| CoapPdu.Pdu.constructor | middleware/coap/pdu.c:42-53 | an empty message |
| CoapPdu.Pdu.Init | middleware/coap/pdu.c:80-117 | an empty message of version 1 with the type, code and message id asked for |
| CoapPdu.FirstFourBytes | middleware/coap/pdu.h:158-176 | the four bytes of the header: version, type and token length share the first one, then the code and the two bytes of the id |
| CoapPdu.Pdu.AddToken | middleware/coap/pdu.c:158-173 | succeeds iff at most 8 bytes that fit; resets options and data; of the header only the token length changes |
| CoapPdu.Pdu.AddOption | middleware/coap/pdu.c:176-205 | appends number and value iff in order and fitting; behind the payload the option becomes part of the payload, whose pointer is lost |
| CoapPdu.Pdu.AddData | middleware/coap/pdu.c:239-260 | adds the payload iff empty or fitting |
| CoapPdu.Pdu.GetData | middleware/coap/pdu.c:262-277 | finds exactly the payload, of a message under construction as of a received one; nothing iff it is empty |
| CoapPdu.Pdu.Parse | middleware/coap/pdu.c:346-424 | accepts exactly the well-formed messages that fit, and takes over their bytes |
| CoapPdu.Pdu.FindPayload | middleware/coap/pdu.c:327-418 | the parser loop agrees with the walk over the options |
| CoapPdu.RoundTrip | middleware/coap/pdu.c:158-424 | token, options and payload of a built message with a non-zero code are found by the parser, and the options come back iff no delta or length is 269 |
| CoapWire.AcceptsMessages | middleware/coap/pdu.c:346-424 | the parser accepts exactly the messages of the grammar of RFC 7252, section 3: header, token of at most 8 bytes, options, and a non-empty payload behind its marker; with code 0 the bare header |
| CoapWire.MessageRead | middleware/coap/pdu.c:346-424 | token, options and payload that are found are those of the grammar, option numbers being sums of the deltas in 16 bits |
| CoapExchange.Build | middleware/coap/pdu.c:158-260 | building succeeds if there is headroom of length + 5 bytes before each option and the parts fit; version, type, code and id stay as they are |
| CoapExchange.Receive | middleware/coap/net.c:886-927 | `coap_read`: a message is accepted iff it has version 1 and is well-formed; header, token, options and payload are those that lie in the received bytes, and those that the grammar gives them |
| CoapExchange.Exchange | middleware/coap/pdu.c:158-424 | from one end to the other: what is sent is the four header bytes, token, options and payload; what was put in, the header included, comes out, and nothing is refused if there was room |
| CoapExchange.ReadOptions | middleware/coap/option.c:117-204 | the recommended reading loop collects exactly the options of the message |
| CoapIterator.SetThenGet | middleware/coap/bits.h:32-77 | setting a filter bit changes exactly that bit, modulo 256 and only below 64 |
| CoapIterator.OptIterator.constructor | middleware/coap/option.c:117-142 | what the iterator is going to deliver |
| CoapIterator.OptIterator.Next | middleware/coap/option.c:144-204 | delivers the first of the remaining options, or NULL iff there is none |
| CoapIterator.FilteredExactly | middleware/coap/option.c:156-204 | iterating with a filter delivers exactly the matching options iff no number of 256 or more passes the filter before iteration gives up and no matching option stands behind that point |
| CoapIterator.FilteredIsSubsequence | middleware/coap/option.c:188-201 | with rising numbers nothing matching is lost, and the result is exactly the matching subsequence iff no number of 256 or more passes the filter before iteration gives up |
| CoapIterator.AliasedNumber | middleware/coap/option.c:188-201 | for 257 it does not: the number passes a filter for 1 |
| CoapIterator.DeliveredFirst | middleware/coap/option.c:206-217 | what iteration for one type delivers first: the first option with this number modulo 256, if none beyond the filter comes before it |
| CoapIterator.CheckOption | middleware/coap/option.c:206-217 | for types below 64: which option iteration ends at; it is the first option of the type, or NULL if there is none, iff iteration does not end before at a number that is the same modulo 256 or beyond the filter, and so always for rising numbers below 256; types from 64 are never found |
| CoapIterator.NoMatch | middleware/coap/option.c:206-217 | why: a filter for such a type stays empty |
| CoapIterator.CriticalNumbers | middleware/coap/net.c:480-480 | the lowest bit of the number tells critical options from elective ones, as for the registered options |
| CoapIterator.KnownIsRegistered | middleware/coap/net.c:480-481 | asking with 8 bits of the number agrees with being registered iff no critical option of 256 or more is let through |
| CoapIterator.AliasedCritical | middleware/coap/net.c:480-481 | the concrete failure: critical option 257 is accepted once option 1 is registered |
| CoapIterator.CheckCritical | middleware/coap/net.c:462-495 | returns 1 iff every odd-numbered option is registered, except exactly when one of 256 or more is mistaken for a registered one; below 256 the unknown ones that fit the filter are reported |
| CoapEncode.DecodeEncodeVar | middleware/coap/encode.c:24-47 | decoding an encoded number gives it back |
| CoapEncode.PlaceValue | middleware/coap/encode.c:24-31 | network byte order: the first byte has the highest place value |
| CoapEncode.EncodingIsMinimal | middleware/coap/encode.c:33-47 | no shorter byte string stands for the same number |
| CoapEncode.EncodeVarBytes | middleware/coap/encode.c:33-47 | writes exactly the encoding and nothing behind it |
| CoapEncode.DecodeVarBytes | middleware/coap/encode.c:24-31 | the number the bytes stand for, in 32 bits |
| CoapEncode.Fls | middleware/coap/encode.c:17-22 | the position of the most significant bit |
| CoapBlock.OptBlockNum | middleware/coap/block.c:21-38 | the number field of the option, for every option length |
| CoapBlock.BlockOfValue | middleware/coap/block.c:40-57 | RFC 7959, section 2.2: number, M and size exponent share the value in 20, 1 and 3 bits |
| CoapBlock.GetBlock | middleware/coap/block.c:40-57 | number, M and size exponent of the option at which the search for the type ends; that is the first option of the type whenever the search reaches it; types from 64 are never found |
| CoapBlock.WriteBlockOpt | middleware/coap/block.c:59-118 | all result codes; the negotiated block; when and where the option is written, before or behind a payload; the reserve of 4 bytes suffices if the option takes at most 3 |
| CoapBlock.ShrunkSize | middleware/coap/block.c:98-107 | shrinking picks the largest power of two that is available and keeps the byte offset iff the new number fits 20 bits |
| CoapBlock.OffsetLost | middleware/coap/block.c:98-107 | the concrete failure: block 0x10000 of 1024 bytes, shrunk to 16, becomes block 0 |
| CoapBlock.BlockReadsBack | middleware/coap/block.c:40-118 | the block written is the block read from the finished message, also with further options behind it |
| CoapBlock.AddBlock | middleware/coap/block.c:120-132 | adds exactly the block of the data, or nothing if it lies behind the data or does not fit |
| CoapBlock.BlocksAreData | middleware/coap/block.c:120-132 | the blocks of one size, in order, are the data |
| CoapBlockExchange.ExchangeBlock | middleware/coap/block.c:40-132 | from one end to the other: block option and block are negotiated, added, parsed and read back as chosen, under the header that was given; with enough room the block asked for is sent |
| CoapQueue.DeadlinesSorted | middleware/coap/net.c:179-214 | reading deadlines as prefix sums, they never decrease along the queue |
| CoapQueue.InsertedDeadlines | middleware/coap/net.c:193-213 | splitting one relative time at the insertion point keeps every other deadline |
| CoapQueue.RemovedDeadlines | middleware/coap/net.c:979-984 | adding the removed time to the successor keeps every other deadline |
| CoapQueue.SendQueue.Insert | middleware/coap/net.c:179-214 | the node gets its requested deadline, after all equal ones; every other deadline is unchanged; into an empty queue it goes as it is |
| CoapQueue.SendQueue.PopNext | middleware/coap/net.c:260-274 | the head leaves; every other deadline is unchanged |
| CoapQueue.SendQueue.Remove | middleware/coap/net.c:951-993 | the first node with the id leaves, or nothing changes; every other deadline is unchanged |
| CoapRetransmit.InitialTimeoutRange | middleware/coap/net.c:719-724 | the initial timeout lies between 2000 and 2996 ticks, spread evenly over the 256 random values, with fractions of a tick cut off |
| CoapRetransmit.RetransmissionBounds | middleware/coap/net.c:775-790 | RFC 7252, section 4.8.2: at most 45 seconds before the last retransmission and 93 seconds before giving up |
| CoapRetransmit.Sender.QueueBounds | middleware/coap/net.c:719-790 | these bounds hold for every message in the queue, whatever has been sent and repeated before |
| CoapRetransmit.Sender.SendConfirmed | middleware/coap/net.c:698-768 | the new message is due its timeout after now, and no other message is moved; without memory, or when sending fails, nothing changes |
| CoapRetransmit.Sender.Retransmit | middleware/coap/net.c:770-814 | the k-th repetition is queued for timeout * 2^k, under the id that sending returns, even if sending fails; the fifth time it is given up |
| CoapRetransmit.Sender.Sweep | middleware/coap/net.c:1619-1648 | which messages are repeated or given up, exactly: those whose load has elapsed; the others stay as they are, but late by all the time the sweep has taken off; afterwards nothing is due; the sweep ends, no message is lost, and only those repeated four times are given up |
| CoapSweep.AllDueServed | middleware/coap/net.c:1634-1645 | the sweep serves all messages that are due iff the load of the last of them has elapsed |
| CoapSweep.EarlyLoad | middleware/coap/net.c:1634-1645 | within four seconds the load of a message is the sum of its own due time and those of all before it |
| CoapSweep.MissedMessage | middleware/coap/net.c:1634-1645 | the concrete failure: of two messages due after 5 ticks, a sweep after 6 ticks misses the second |
| CoapSweep.StepLoad | middleware/coap/net.c:1639-1642 | each step takes the time of the first message off the load of every other one, wherever its repetition is inserted |
| CoapLinks.PrintCond | middleware/coap/resource.c:74-93 | one character through the window |
| CoapLinks.CopyCond | middleware/coap/resource.c:96-101 | a string through the window |
| CoapLinks.PrintLink | middleware/coap/resource.c:537-585 | one link through the window: output, full length, new offset, truncation |
| CoapLinks.PrintWellknown | middleware/coap/resource.c:160-304 | writes exactly the part of the document in the window, reports the full length, and truncation iff text remains behind the window |
| CoapLinks.PrintBlock | middleware/coap/net.c:1257-1269 | what is printed for the offset of a block, with room for one block, is that block of the document |
| CoapLinksReading.LinksRead | middleware/coap/resource.c:537-585 | a reader of the link format (RFC 6690, section 2) reads the document as one link per resource, with its path and attributes, and "obs" behind them iff it is observable |
| CoapLinksReading.ReadsBack | middleware/coap/resource.c:160-304 | reading the document gives back the resources, with paths, attributes, values and marks, in order, iff none that is not observable ends with an attribute "obs" without value; for paths, names and values free of the delimiters |
| CoapWellknown.LastCharacter | middleware/coap/net.c:1222-1257 | without a block option the whole document is sent, or its first block with M set, iff it is not exactly as long as the room: then the last character is missing without notice |
| CoapWellknown.CarriesAnnounced | middleware/coap/net.c:1196-1257 | with lengths below 2^28 the block announced is the block carried iff its number, in blocks of the size chosen, fits 20 bits; otherwise nothing is carried |
| CoapWellknown.AnnouncedWrongly | middleware/coap/net.c:1196-1257 | the concrete failure: block 0x40000 of 1024 bytes is announced as block 0 of 256 bytes, and nothing is carried |
| CoapWellknown.AcceptedIfCarrying | middleware/coap/net.c:1251-1268 | the response is a message that the parser accepts iff it carries something, as the payload marker is there in any case |
| CoapWellknown.AnnounceBlock | middleware/coap/net.c:1245-1252 | behind the content format a block of at most 256 bytes is announced unshrunk, or refused iff it lies behind the document |
| CoapWellknown.Respond | middleware/coap/net.c:1193-1277 | the response is the one that is due for every document and block option: whole document, the block of the document at the place asked for with its option, 4.00 or 5.03 |
| CoapWellknown.ResponseCodeIs | middleware/coap/pdu.h:92-92 | response code c.dd is the byte with c in the upper three bits and dd in the lower five, for one number only |
| CoapWellknown.WellknownResponse | middleware/coap/net.c:1165-1277 | the same from the request: the block option found there, the token and message id, an acknowledgement iff the request is confirmable, the response code, and whether a receiver accepts the message |
| CoapWellknown.FetchDocument | middleware/coap/net.c:1196-1269 | asking for block after block of the size that the response has chosen, while more is announced, gives the whole document, and from it the resources can be read |
| CoapLinks.BlocksOfDocument | middleware/coap/net.c:1257-1269 | the blocks that are printed make up the document |
| CoapObserve.Resource.NotifyOne | middleware/coap/resource.c:707-753 | success queues the current version and leaves no mark; failure leaves both marks; the message is confirmable iff the observer has not asked for others or has had COAP_OBS_MAX_NON of them, unless the handler changes the type; the counter follows the type |
| CoapObserve.PacedRuns | middleware/coap/resource.c:730-743 | an observer that has not asked for others gets confirmable messages only; for one that has, exactly COAP_OBS_MAX_NON others lie between two confirmable ones |
| CoapObserve.Resource.Notify | middleware/coap/resource.c:687-761 | every observer is approached iff the resource has changed or its own last notification failed, with a message of the type that is due, and afterwards is informed or marked |
| CoapObserve.Resource.Find | middleware/coap/resource.c:588-603 | the first observer of this peer with this token, or with any if none is given |
| CoapObserve.Resource.Register | middleware/coap/resource.c:606-640 | an observer that is already registered is found again and nothing changes; a new one is added with the current version, or nothing changes for want of memory; no peer is registered twice with the same token |
| CoapObserve.Run | middleware/coap/resource.c:606-786 | over every run of changes, passes with arbitrary failures, registrations and deregistrations: an observer has the last change queued, or the resource is dirty, or the observer and the resource carry their marks; and the types of all messages sent to it are paced as `PacedRuns` says |
| CoapObserve.CatchUp | middleware/coap/resource.c:687-761 | a pass without failures makes good whatever failed before |
| GetoptSpec.ParsedIsRearrangement | library/clib/ya_getopt.c:98-254 | the meaning of an argument list is a rearrangement: options and other elements both in their original order, and what is left behind "--" or at an option without its argument |
| GetoptSpec.NonsInFront | library/clib/ya_getopt.c:147-173 | leading elements that are no options only join the other elements |
| GetoptProgress.OperandsFromOptind | library/clib/ya_getopt.c:98-196 | a caller that goes on at `optind` sees all operands iff the whole list was scanned or no other element was met before the scan stopped |
| GetoptProgress.OperandBeforeDashes | library/clib/ya_getopt.c:174-177 | the concrete failure: in `x -- y` the operand x stays in front of `optind` |
| Getopt.Scanner.Rotate | library/clib/ya_getopt.c:122-140 | the nested loops exchange the two neighbouring ranges and move nothing else |
| Getopt.Scanner.MoveBehind | library/clib/ya_getopt.c:130-136 | one turn of the outer loop |
| Getopt.Scanner.Skip | library/clib/ya_getopt.c:146-173 | stops at the first option, or reports that there is none |
| Getopt.Scanner.ShortOpts | library/clib/ya_getopt.c:198-254 | unknown options, attached, optional and separate arguments and missing ones, as the meaning says; `optopt` is set for unknown options and missing arguments only |
| GetoptReading.ItemsRead | library/clib/ya_getopt.c:98-254 | writing is undone by reading: elements written from clusters of plain options, attached, separate and omitted arguments and operands mean exactly these, in front of whatever follows |
| GetoptReading.ReadsBack | library/clib/ya_getopt.c:98-254 | a list written from options and operands in any order means exactly those options with their arguments, with the operands apart; an option character that is not declared gives "?" without argument |
| GetoptReading.ReadsUpToDashes | library/clib/ya_getopt.c:174-177 | behind "--" nothing is an option |
| GetoptReading.ReadsMissing | library/clib/ya_getopt.c:213-229 | a required argument missing at the end gives ":" if the option string begins with ":", and "?" otherwise |
| Getopt.Scanner.Element | library/clib/ya_getopt.c:145-196 | what is done with the element at `optind`: the next option of it, "--", or -1 at elements that are no options |
| Getopt.Scanner.GetOpt | library/clib/ya_getopt.c:98-196 | one call returns the next result of the meaning, or -1 with the arguments rearranged; calls after the scan has ended without "--" return -1 again, and `optind` stays iff no run of other elements is left to be moved |
| Getopt.OptindRunsAway | library/clib/ya_getopt.c:122-140 | the concrete failure: with two operands and no option, `optind` is 1, 2 and 5 after three calls |
| Getopt.Run | library/clib/ya_getopt.c:98-254 | a whole run: the results are those the list means; argv is a permutation of what it was; when everything was scanned, the options with their arguments come first and `optind` is at the other elements |
| Getopt.RunReadsBack | library/clib/ya_getopt.c:98-254 | a whole run over a list written from options and operands in any order returns exactly these options with their arguments, and leaves the operands behind them, from `optind` on |

## Left out

- mmap and mremap, segment merging (`prepend_alloc`, `add_segment`), a break that was moved by others, `sys_trim`, `release_unused_segments`, mspaces, locks, footers, statistics, the footprint limit and the abort actions of the allocator.
- The SMALL_MEMORY variant with a granularity of 128 bytes.
- `dlcalloc`, `dlrealloc_in_place`, `dlposix_memalign`, the independent allocation functions and bulk free: thin layers over what is modelled.
- MallocHeap.Heap.SysAlloc: MORECORE either extends the one segment or fails; partial grants and the recovery from them are not modelled.
- MallocHeap.Heap.DlFree: trimming after large frees is left out; a foreign or already freed pointer is excluded, as the source's checks for it are abort actions.
- MallocHeap.Heap.ClientStore: the fields are separate maps, all of which a store of the client changes; a write of the allocator changes only the field that it names, which `OneWrite` justifies for every word that it relies on.
- `coap_add_option_later` and `coap_opt_size`, which repeat what `coap_add_option` and `coap_opt_parse` do.
- CoapOption.OptSetHeader: the buffer of the model has one byte more than the space announced, because the check for the length extension is one byte short (see `HeaderOverrun`).
- CoapOption.OptEncode: requires that the header does not overrun its space, which the source asserts.
- CoapPdu.Pdu.AddOption: requires, like `OptEncode`, that the header does not overrun its space.
- CoapIterator.CheckCritical: which unknown options are reported is stated for numbers below 256 only; the result is stated for all.
- CoapBlock.WriteBlockOpt: when an option with a number above 23 is already there or the option does not fit, it is left out although the result is 1, and the contract says so.
- CoapLinks.PrintWellknown: without a query filter; document lengths are not cut to the bits that the result word leaves for them.
- CoapExchange.Receive: without the queue of received messages and their transaction ids; memory for a message is always there.
- CoapWellknown.WellknownResponse: without a query filter. The branches of the source for too little space, which messages of COAP_MAX_PDU_SIZE never take, are left out.
- CoapQueue.SendQueue.Insert: ticks are unbounded numbers; wrap-around of the tick counter is not modelled.
- `coap_adjust_basetime` and `coap_cancel_all_messages`, which do move other deadlines.
- CoapRetransmit.Sender.Sweep: how much time the sweep takes off in all is bounded (by what has elapsed, and below by every load served), not given in closed form.
- CoapRetransmit.Sender.Retransmit: the notification of failed observers when a message is given up is not modelled.
- CoapObserve.Resource.Register: the answer to the registration, which carries the current version, is taken to be sent; tokens have at most 8 bytes.
- The sending itself, the choice of message ids, matching acknowledgements with messages, `coap_dispatch` and the removal of observers after failed notifications.
- CoapObserve.Resource.Notify: handlers may change the message type but do not touch the resource or its observers; the resource is observable, and a resource that is not is never marked.
- Long options, error messages, environment lookup, re-initialization with `optind` 0, and the POSIX and in-order modes of getopt.
- GetoptSpec.ParsedIsRearrangement: a lone "-" where an option could stand is excluded; the source then compares the end of the string with the option characters and reads behind the option string.
- Getopt.Scanner.GetOpt: nothing is claimed about calls after -1 has been returned for "--".
- Drivers, boards, caches, interrupts, lwIP and FatFS glue and the scripts: register writes or thin wrappers.
