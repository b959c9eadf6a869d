# rt-boot: LZMA codec and RT-Thread kernel

A Dafny model of the two parts of rt-boot that carry the most state: the LZMA
encoder and decoder of the host tool (`host_util/lzma/C`) and the kernel that the
boot loader runs on (`rt-boot/common/kernel`).  `dafny verify dfyconfig.toml`
checks everything.

**LZMA.**  `RangeCoder` is the range coder as arithmetic on one unbounded
interval; `RangeEncoding` is the encoder that writes bytes with a cache, a count
of pending 0xFF bytes and carries, proved to write that interval.  `Symbols` is
the decoder's control flow for one symbol as an automaton that asks for bits, and
`Decoding` runs it, for real and dry.  `Lockstep` keeps an encoder and a decoder
together bit by bit, `Layout` maps the encoder's probability tables to the
decoder's flat array, `Events` and `Packets` build symbols, packets and whole
streams, `States` is the number that tells the kinds of the last packets, and
`PosSlots` is the distance table.  `Encoder`, `SymbolDecoder` and
`StreamDecoder` are the programs with their loops, tables and buffers, proved
against these.  `Streaming` and `Decompress` are about decoding in pieces.
`ByteBound` is the bound on the bytes of one symbol, `BitCounts` on its bits.  `Optimum` is the part of
the optimal parser that turns a plan around in place.

**Match finder.**  `MatchTree` is insertion at the root of the binary search trees
that share one array with the sliding window, `TreeContents` what a tree holds
afterwards, `MatchHash` the hashes, `HashLists` the heads, trees and chains of
positions with the same hash, and `MatchFinder` the Bt4 and Hc4 match finders on the
hash, link and window arrays.

**Kernel.**  `Timers` (on `TimerOrder`) is the hard timer list, a skip list ordered
by deadlines modulo 2^32, with the unprotected gap in the start of a timer and
with timeout functions that start and stop timers; `TimerRounds` is what the tick
interrupt does to the plain list of timers, over any number of ticks.  `SmallHeap`, `MemHeap` and
`Slab` are the three heap implementations (on `HeapBlocks`, `Rings`, `PageRuns` and
`ZoneSizes`).  `Scheduler` is the ready lists with their bitmaps, `WaitQueue` the
suspend lists, and `Mutex`, `EventObject` and `MessageQueue` the objects; the
message queue is a state machine of the critical sections that threads can
interleave in any order.

## Model

| member | source | states |
|---|---|---|
| RangeEncoding.RangeEncoder.ShiftLow | host_util/lzma/C/LzmaEnc.c:530-549 | one byte shift multiplies the exact unbounded low by 256, whether the byte goes out, waits in the cache or a carry runs through pending 0xFF bytes; the number of digits grows by one |
| RangeEncoding.RangeEncoder.FlushData | host_util/lzma/C/LzmaEnc.c:551-556 | the bytes written so far, read as a base-256 number, are the exact low: no digit and no carry is lost |
| RangeEncoding.RangeEncoder.EncodeBit | host_util/lzma/C/LzmaEnc.c:573-594 | the 33-bit encoder takes the same step as the unbounded interval, and the probability adapts |
| RangeEncoding.RangeEncoder.EncodeDirectBits | host_util/lzma/C/LzmaEnc.c:558-571 | the loop codes exactly the top-down bits of the value |
| RangeEncoding.EncodeAll | host_util/lzma/C/LzmaEnc.c:504-594 | any sequence of decisions comes out as the digits of the low end of its nested interval |
| RangeCoder.EncodedValue | host_util/lzma/C/LzmaEnc.c:504-556 | those digits have the value of that low end, and the first byte is zero as the decoder demands |
| RangeCoder.Nested | host_util/lzma/C/LzmaEnc.c:558-594 | every later interval lies inside every earlier one, for all sequences of decisions |
| RangeCoder.DirectMatches | host_util/lzma/C/LzmaDec.c:330-351 | a direct bit that the encoder wrote is the bit that the decoder reads, and both stand at the same interval again |
| RangeCoder.AdaptIs | host_util/lzma/C/LzmaDec.c:20-21 | a bit moves the probability by a 32nd of what is left on its side, more likely stays more likely, and zeros and ones are treated alike |
| RangeCoder.BoundShare | host_util/lzma/C/LzmaDec.c:19 | a zero gets its share of the range, rounded down by less than one part; a fresh cell gives it one half |
| Lockstep.BitSync | host_util/lzma/C/LzmaDec.c:17-29 | one decision: the decoder reads the bit that was coded, the registers agree again, and the adapted cells of both sides stay equal under the layout |
| Lockstep.PathSync | host_util/lzma/C/LzmaDec.c:159-419 | decisions that follow the decoder's control flow make the decoder arrive where they lead, with equal cells |
| Lockstep.StartSync | host_util/lzma/C/LzmaDec.c:686-725 | a fresh decoder on any encoded stream is in lockstep with the fresh encoder |
| Lockstep.EndSync | host_util/lzma/C/LzmaDec.c:843-845 | when all is read the whole stream is used up and the code register is zero, which is the decoder's test for a good end |
| Layout.IndexInverse | host_util/lzma/C/LzmaDec.c:61-101 | the encoder's separate tables do not collide in the decoder's flat array: every cell can be told from its index |
| PosSlots.SlotRange | host_util/lzma/C/LzmaEnc.c:1863-1877 | a slot and its footer bits cover exactly the distances of that slot |
| PosSlots.FastPosInit | host_util/lzma/C/LzmaEnc.c:107-120 | the loops fill in the slot of every distance below 2^11 or 2^13 |
| PosSlots.GetPosSlot | host_util/lzma/C/LzmaEnc.c:122-133 | the look-up with the wrapped 32-bit difference and the sign-bit mask gives the slot of every distance that the encoder admits |
| States.TablesAgree | host_util/lzma/C/LzmaEnc.c:466-469 | the four tables of the encoder and the one of the decoder say the same, and no state leaves the range of twelve |
| States.StateStep | host_util/lzma/C/LzmaDec.c:116-120 | for every sequence of packets, the step of the tables leads from the state of these packets to the state of these and one more, where the state of packets is defined by the kinds of the last four alone |
| States.StateTells | host_util/lzma/C/LzmaEnc.c:466-471 | the state is below seven if and only if the last packet was a literal or there was none, zero if and only if no other packet is among the last three, and with one or two literals it tells the kind of the packet before them |
| Encoder.LzmaEnc.LitEncode | host_util/lzma/C/LzmaEnc.c:596-605 | the loop codes the events of a literal |
| Encoder.LzmaEnc.LitEncodeMatched | host_util/lzma/C/LzmaEnc.c:607-619 | the same for a literal after a match, with the offset that drops out at the first difference |
| Encoder.LzmaEnc.TreeEncode | host_util/lzma/C/LzmaEnc.c:687-699 | the loop codes the path to a leaf of a bit tree |
| Encoder.LzmaEnc.TreeReverseEncode | host_util/lzma/C/LzmaEnc.c:701-712 | the same from the low bit up |
| Encoder.LzmaEnc.LenEncode | host_util/lzma/C/LzmaEnc.c:754-775 | the three ranges of lengths |
| Encoder.LzmaEnc.DistEncode | host_util/lzma/C/LzmaEnc.c:1861-1877 | the slot, then none, reversed-tree, or direct and align bits |
| Encoder.LzmaEnc.ChooseRep | host_util/lzma/C/LzmaEnc.c:1823-1844 | the bits name the repeated distance, and that distance moves to the front of the four |
| Encoder.LzmaEnc.WriteEndMarker | host_util/lzma/C/LzmaEnc.c:1618-1629 | the marker is a shortest match at distance 2^32 - 1 |
| Encoder.LzmaEnc.CodePacket | host_util/lzma/C/LzmaEnc.c:1800-1886 | whichever branch a length and a back code take, what is coded are the events of that packet, the repeated distances move on as the decoder's do, and the state becomes that of all packets so far and this one |
| Encoder.LzmaEnc.CodePackets | host_util/lzma/C/LzmaEnc.c:1771-1887 | every packet in turn and the marker: the events of the whole input, and the state of all their kinds |
| Encoder.Encode | host_util/lzma/C/LzmaEnc.c:1754-1915 | the bytes of the whole encoder are the stream of those events; with RoundTrip, they decode to the input |
| Packets.CopyReproduces | host_util/lzma/C/LzmaDec.c:383-419 | copying byte by byte, overlapping or not, gives the data that repeats itself |
| Packets.CoderState | host_util/lzma/C/LzmaEnc.c:1815 | the encoder's state after a packet is that of the kinds of all packets so far |
| Packets.DecoderState | host_util/lzma/C/LzmaDec.c:200 | the same for the decoder and its symbols |
| Packets.PacketOpens | host_util/lzma/C/LzmaEnc.c:1807-1819 | the first bit of a packet tells a literal from the rest, in the cell of that state and of the masked position |
| Packets.LitBaseTells | host_util/lzma/C/LzmaEnc.c:948 | two literals share their cells if and only if their masked positions and the high bits of the bytes before them agree |
| Packets.RepsOrder | host_util/lzma/C/LzmaEnc.c:1823-1886 | a repeated distance moves to the front and the others keep their order; a new one pushes out the last |
| Packets.PacketRoundTrip | host_util/lzma/C/LzmaDec.c:159-419 | one packet of any kind: the decoder reads that packet, appends its bytes, updates state and distances like the encoder, and stays in lockstep |
| Packets.RoundTrip | host_util/lzma/C/LzmaEnc.c:1754-1915 | for every input, every valid choice of packets and all properties, with or without marker: decoding the stream gives back the input, uses up the stream and ends with a zero code register |
| Decoding.DryIsReal | host_util/lzma/C/LzmaDec.c:495-683 | the dry run takes the branches and bytes of the real decode although it adapts no cell: a symbol never asks for a cell twice |
| SymbolDecoder.BitReader.ReadSymbol | host_util/lzma/C/LzmaDec.c:159-380 | the decoder's loops and branches for one symbol do what the automaton does: same end, same registers, same cells |
| SymbolDecoder.TryDummy | host_util/lzma/C/LzmaDec.c:495-683 | it tells the kind of the symbol that the real decode would find, or an error exactly if that needs more input |
| ByteBound.SymbolBytes | host_util/lzma/C/LzmaDec.h:41-44 | no symbol takes more than 20 bytes, for all inputs and all cell values in range |
| BitCounts.SymbolBits | host_util/lzma/C/LzmaDec.h:41-42 | a symbol takes at most 22 modelled and 26 direct bits, except for exactly one family: a match of at least 18 bytes at a distance from 65 to 128 takes 23 modelled bits and no direct one |
| Streaming.HistoryMatters | host_util/lzma/C/LzmaDec.c:495-683 | the history changes what a symbol is only by making it fail, and then fewer bytes are read |
| Streaming.ChunksDoNotMatter | host_util/lzma/C/LzmaDec.c:727-846 | for every way to cut the input into pieces: same state, same output, same unused input |
| Streaming.StreamedRoundTrip | host_util/lzma/C/LzmaDec.c:727-846 | any data, any packets, any pieces: the pieces give the data back |
| StreamDecoder.LzmaDec.constructor | host_util/lzma/C/LzmaDec.c:709-713 | a fresh decoder is a valid one with nothing written and the header still to read |
| StreamDecoder.LzmaDec.CopyMatch | host_util/lzma/C/LzmaDec.c:383-419 | a match in the circular dictionary extends the history by the repeated bytes; what does not fit below the limit is owed |
| StreamDecoder.LzmaDec.WriteRem | host_util/lzma/C/LzmaDec.c:436-460 | the owed bytes are those of the cut-off match, up to the next limit |
| StreamDecoder.LzmaDec.DecodeReal | host_util/lzma/C/LzmaDec.c:137-434 | symbols until the output or input limit are the symbols of the reference decoder, or the stream is broken |
| StreamDecoder.LzmaDec.DecodeReal2 | host_util/lzma/C/LzmaDec.c:462-485 | the same across the point where the dictionary becomes full |
| StreamDecoder.LzmaDec.InitStateReal | host_util/lzma/C/LzmaDec.c:715-725 | every cell of the reader is reset |
| StreamDecoder.LzmaDec.DecodeToDic | host_util/lzma/C/LzmaDec.c:727-846 | reply, status, output, kept bytes and unused input are fixed by the reference decoder on the kept bytes and the new ones together; in what pieces they came, where the dictionary wraps and where matches are cut off makes no difference |
| Decompress.GoLimit | host_util/lzma/C/LzmaDec.c:727-846 | a smaller output limit only interrupts the decoder |
| Decompress.CallTracks | host_util/lzma/C/LzmaDec.c:727-846 | after a call the rest of the input leads where the whole input leads, and a call without the finish flag fails only if the whole input is broken or ends badly |
| Decompress.DecodeToBuf | host_util/lzma/C/LzmaDec.c:848-886 | the bytes copied out of the dictionary, round after round, are the next bytes of the history; it stops short only for want of input, at an end mark, or with the input used |
| Decompress.CompressAndDecode | host_util/lzma/C/LzmaDec.c:848-886 | the encoder's bytes decoded by any sequence of calls, with any pieces and any output room: no call fails, the output is always a front part of the data, and after a call that has the rest of the stream and enough room it is all of the data and the reply is "finished with mark", or "maybe finished without mark" if none was written |
| Decompress.LzmaDecode | host_util/lzma/C/LzmaDec.c:977-1007 | for every input: too short, a wrong first byte, or the result code, status and output of the reference decoder with the output as dictionary |
| Decompress.CompressAndDecodeAtOnce | host_util/lzma/C/LzmaDec.c:977-1007 | the encoder's bytes decoded in one call with room for just the data: the data comes back with a success code, with or without end mark and finish flag; with the flag the status says that the stream is finished |
| Optimum.PathTiles | host_util/lzma/C/LzmaEnc.c:912-946 | the packets of a plan, literals before and after a match included, cover the data without gap or overlap |
| Optimum.Planner.Backward | host_util/lzma/C/LzmaEnc.c:912-946 | turning the links around in place, while entries are expanded, gives the same packets from the front |
| Optimum.Planner.Next | host_util/lzma/C/LzmaEnc.c:958-965 | the packets of the plan come out one by one, in order |
| MatchHash.Hash2Tells | host_util/lzma/C/LzHash.h:22-26 | same first byte and same two-byte hash mean two equal bytes, whatever the table holds |
| MatchHash.Hash3Tells | host_util/lzma/C/LzHash.h:22-26 | the same for three bytes, which is why the match finder need not compare them |
| MatchTree.Closed | host_util/lzma/C/LzFind.c:343-396 | however the walk ends, the two cut-open halves with the new position on top are ordered search trees |
| MatchTree.NarrowSmaller | host_util/lzma/C/LzFind.c:373-393 | the side of a node that the walk leaves aside cannot share more bytes with the current position than the node does |
| TreeContents.ClosedKeeps | host_util/lzma/C/LzFind.c:343-446 | everything that was below the root is below the new position, but for what the walk did not get to or the one node whose place it takes; no node of another tree changes, and no node hangs on two sides |
| HashLists.InsertComplete | host_util/lzma/C/LzFind.c:529-574 | with a position inserted, every position of the window that was represented in the tree of its hash still is, by itself or by a later one with the same bytes, unless the walk was cut short |
| HashLists.NextCandidate | host_util/lzma/C/LzFind.c:312-341 | following a link of a chain leads past no position of the window with the same hash |
| MatchFinder.CMatchFinder.constructor | host_util/lzma/C/LzFind.c:160-273 | a new match finder is valid although the link array holds anything |
| MatchFinder.CMatchFinder.SetLimits | host_util/lzma/C/LzFind.c:236-259 | up to the limit neither the position, the cyclic position nor the lookahead runs out |
| MatchFinder.CMatchFinder.CheckLimits | host_util/lzma/C/LzFind.c:301-310 | before the counter overflows, it and all links move down together |
| MatchFinder.Normalize3 | host_util/lzma/C/LzFind.c:280-292 | the loop subtracts, and empties what would go below |
| MatchFinder.MoveTrees | host_util/lzma/C/LzFind.c:294-310 | after renormalising, stepping on and wrapping, the trees of the smaller window are ordered, of one hash each, and represent every position that they did |
| MatchFinder.CMatchFinder.GetMatchesSpec1 | host_util/lzma/C/LzFind.c:343-396 | the walk in the shared array leaves ordered trees with the current position on top, and reports true matches of strictly growing length; if the tree is no higher than the cut value, the last one is the longest match of all nodes below the root, and no node is dropped but one with the same bytes |
| MatchFinder.CMatchFinder.SkipMatchesSpec | host_util/lzma/C/LzFind.c:398-446 | the same tree with the same nodes, without reports |
| MatchFinder.CMatchFinder.MovePos | host_util/lzma/C/LzFind.c:448-455 | stepping on keeps all invariants of the match finder |
| MatchFinder.CMatchFinder.TakeHeads | host_util/lzma/C/LzFind.c:534-543 | the heads of the three hashes are handed out and replaced by the current position; each head is the latest position of the window with that hash, before and after |
| MatchFinder.InWindow | host_util/lzma/C/LzFind.c:343-396 | if no position of the tree has a longer match, then no position of the window has one, but for those that were dropped earlier |
| MatchFinder.CMatchFinder.ShortMatches | host_util/lzma/C/LzFind.c:545-566 | a hash head in the window with the same first byte is always reported: true matches of two and three bytes, the last one drawn out as far as the bytes agree |
| MatchFinder.CMatchFinder.GetMatches | host_util/lzma/C/LzFind.c:529-574 | over any run: the pairs of the heads and then longer ones from the tree, all true matches of growing length; if the tree is no higher than the cut value, no match of four bytes or more in the window is longer than the last pair, except at positions that an earlier search had dropped, and this one drops none |
| MatchFinder.CMatchFinder.Skip | host_util/lzma/C/LzFind.c:678-692 | the match finder stays valid and is that many positions further |
| MatchFinder.CMatchFinder.SkipOne | host_util/lzma/C/LzFind.c:678-692 | one position goes into its tree, and nothing is dropped if the tree is no higher than the cut value |
| MatchFinder.CMatchFinder.HcGetMatchesSpec | host_util/lzma/C/LzFind.c:312-341 | the chain from the head lists the positions of the window with the same hash, latest first; true matches of growing length, and the last one is the longest of the first of them, as many as the cut value |
| MatchFinder.CMatchFinder.HcGetMatches | host_util/lzma/C/LzFind.c:576-623 | the pairs of the heads and then those of the chain, with the same promises, over any run |
| MatchFinder.CMatchFinder.HcSkip | host_util/lzma/C/LzFind.c:694-709 | the chains go on listing every position of the window |
| TimerOrder.FilterInsert | rt-boot/common/kernel/timer.c:341-396 | inserting behind all equal deadlines commutes with leaving out timers, so that every row of the skip list inserts where the row below does |
| TimerOrder.InsertRows | rt-boot/common/kernel/timer.c:341-396 | however high a timer reaches, the rows stay rows of one skip list |
| Timers.TimerList.Unlink | rt-boot/common/kernel/timer.c:310-315 | first section of a start: out of the list and not active, also while another start of the same timer is in progress |
| Timers.TimerList.ReadTick | rt-boot/common/kernel/timer.c:319-324 | the deadline is read with interrupts enabled |
| Timers.TimerList.Hang | rt-boot/common/kernel/timer.c:326-396 | second section: the skip-list walk on wrapped ticks inserts by true deadlines, last among equals; the list is right afterwards if and only if the timer was not in it yet; timers go on to fire in order of deadline if and only if nothing with a later deadline has fired since the clock was read |
| Timers.TimerList.Start | rt-boot/common/kernel/timer.c:296-412 | without anything in between, the timer is in the list by its deadline and active, and the order of firing is kept |
| Timers.TimerList.Stop | rt-boot/common/kernel/timer.c:422-447 | an error exactly if the timer is not active; the others stay as they are |
| Timers.TimerList.TakeHead | rt-boot/common/kernel/timer.c:507-521 | the first timer fires exactly if its deadline is reached; if it is not, nothing in the list is due |
| Timers.TimerList.Rearm | rt-boot/common/kernel/timer.c:532-544 | only a periodic timer that is still active starts again; afterwards the timer is in the list but not active if and only if its function put it back and it is one-shot or was made inactive |
| Timers.TimerList.Check | rt-boot/common/kernel/timer.c:494-553 | whatever the timeout functions start and stop, the loop ends, nothing is overdue then, and what it has done are rounds of taking the first timer, running its function and starting it again if it is periodic and still active; a timer that no function names has fired exactly if it was due, once; then a periodic one is in the list and active, one period on, and any other is neither |
| TimerRounds.QuietRounds | rt-boot/common/kernel/timer.c:506-547 | over any number of rounds, a timer that no function names is left alone, or has fired once by the deadline it had and is settled |
| TimerRounds.OnTimeNext | rt-boot/common/kernel/timer.c:494-553 | if a timer has fired on time up to one tick, it has up to the next |
| Timers.TimerList.Run | rt-boot/common/kernel/timer.c:494-553 | over any number of ticks and whatever the other timers do, a periodic timer that nobody touches fires at its first tick and then exactly every period, and a one-shot timer exactly once |
| Timers.LateStart | rt-boot/common/kernel/timer.c:310-327 | a run in which the gap in a start makes timers fire out of order |
| Timers.StartTwice | rt-boot/common/kernel/timer.c:310-396 | a run in which two starts of one timer, in turn, put it into the list twice |
| Timers.Stranded | rt-boot/common/kernel/timer.c:520-543 | a run in which a one-shot timer that its function starts again is in the list and cannot be stopped |
| HeapBlocks.Disjoint | rt-boot/common/kernel/mem.c:100-114 | blocks that tile a heap do not overlap |
| HeapBlocks.AlignIs | rt-boot/common/include/kernel/rtdef.h:290 | in 32 bits a size is rounded up to at least itself if and only if it is at most 2^32 - 8; beyond that it becomes zero |
| MemHeap.Heap.constructor | rt-boot/common/kernel/memheap.c:50-121 | one free block and an end mark |
| MemHeap.Heap.FindFree | rt-boot/common/kernel/memheap.c:169-180 | the walk along the free ring finds the first block in it that is large enough, or no free block is |
| MemHeap.Heap.Alloc | rt-boot/common/kernel/memheap.c:138-281 | it fails exactly if the rounded request is not smaller than all free bytes or no block can take it; else the first block of the free list that can take it serves it; a new block is no block that anybody has, and large enough if and only if the request is at most 2^32 - 8; both rings and the order of the free one, the tiling, the counters and that no two free blocks touch are stated; from an aligned state the result is aligned, and the state stays aligned if and only if the block has not the least size of 12 |
| MemHeap.Heap.Free | rt-boot/common/kernel/memheap.c:495-595 | exactly that block is given up, it merges with free neighbours on both sides, goes to the front of the free list unless the block before takes it up, and alignment is kept |
| MemHeap.Heap.Grow | rt-boot/common/kernel/memheap.c:350-399 | growing in place keeps the heap valid if the sum in its test does not wrap around; if it does, the new header lands inside the block's own header and no blocks tile the pool along the chain any more |
| MemHeap.Heap.Realloc | rt-boot/common/kernel/memheap.c:284-492 | it returns NULL if and only if the block can neither stay nor grow where it is and no block can take the request; the common front of the data survives, every other block keeps its data, a failure changes nothing; the heap stays valid if and only if the sum in the growth test does not wrap around with a free block behind, and the result is large enough if and only if the request is at most 2^32 - 8 |
| MemHeap.WholePool | rt-boot/common/kernel/memheap.c:155 | a run in which a request of all free bytes fails although they are one block |
| MemHeap.HugeRequest | rt-boot/common/kernel/memheap.c:148-150 | a run in which a request of 2^32 - 1 bytes gets 12 |
| MemHeap.HugeGrowth | rt-boot/common/kernel/memheap.c:350-380 | a run in which growing a block to 2^32 - 8 bytes tears the chain of headers |
| MemHeap.OffByFour | rt-boot/common/kernel/memheap.c:148-150 | a run in which the block after a request of eight bytes is not aligned |
| SmallHeap.Heap.constructor | rt-boot/common/kernel/mem.c:204-257 | one free block and an end mark that follows itself |
| SmallHeap.Heap.PlugHoles | rt-boot/common/kernel/mem.c:156-194 | the block merges with free neighbours, no two free blocks touch, and lfree follows |
| SmallHeap.Heap.Malloc | rt-boot/common/kernel/mem.c:272-410 | first fit from lfree on: it fails exactly if no block is found there; a new block is no block that anybody has, aligned, barely larger than the rounded request, and large enough if and only if the request is at most 2^32 - 8 |
| SmallHeap.Heap.Free | rt-boot/common/kernel/mem.c:546-609 | exactly that block is given up; lfree stays the lowest free block |
| SmallHeap.Heap.Shrink | rt-boot/common/kernel/mem.c:470-498 | the rest of the block becomes free; lfree stays the lowest free block if and only if it was not above the rest, or the rest merges with it |
| SmallHeap.Heap.Realloc | rt-boot/common/kernel/mem.c:421-510 | it returns NULL if and only if the rounded request is larger than the heap, or the block is neither right nor worth cutting and no block can take the request; else the block stays where it is or moves to the first that fits; the common front of the data survives and other blocks keep theirs; a call that returns NULL has left the block alone if and only if the request is at most 2^32 - 8; lfree stays the lowest free block if and only if the call does not shrink below it |
| SmallHeap.Heap.WholeSearched | rt-boot/common/kernel/mem.c:305-313 | as long as lfree is the lowest free block, a search that fails means that no free block fits, apart from an exact fit before the end mark |
| SmallHeap.Heap.SearchSpins | rt-boot/common/kernel/mem.c:305-313 | in a heap with no room for the least block of 16 bytes, a request that is let through makes the loop condition stay true for ever |
| SmallHeap.ExactFit | rt-boot/common/kernel/mem.c:305-306 | a run in which a request of the size of the whole free heap fails |
| SmallHeap.LostSpace | rt-boot/common/kernel/mem.c:470-498 | a run in which a request fails although the free rest of a shrunk block could take it |
| SmallHeap.HugeRequest | rt-boot/common/kernel/mem.c:289-300 | a run in which a request of 2^32 - 1 bytes gets 16 |
| SmallHeap.HugeGrowth | rt-boot/common/kernel/mem.c:431-441 | a run in which growing a block to 2^32 - 1 bytes frees it |
| PageRuns.PageAlloc | rt-boot/common/kernel/slab.c:236-270 | it fails exactly if no so many free pages are in a row; else exactly the pages handed out are gone |
| PageRuns.PageFree | rt-boot/common/kernel/slab.c:272-322 | exactly the pages given back are free again, and runs that touch are one |
| PageRuns.SomeRun | rt-boot/common/kernel/slab.c:244-266 | free pages in a row always lie in one run |
| ZoneSizes.Classes | rt-boot/common/kernel/slab.c:401-459 | every request below 16384 gets a list of large enough chunks of one size, with less than 8 bytes or an eighth wasted |
| ZoneSizes.SizesGrow | rt-boot/common/kernel/slab.c:401-459 | different lists have different chunk sizes |
| ZoneSizes.TwoFit | rt-boot/common/kernel/slab.c:628-648 | a new zone has room for two chunks and its header, and for no chunk more than it counts |
| ZoneSizes.BitTest | rt-boot/common/kernel/slab.c:635 | the bit test of the source finds exactly the powers of two |
| Slab.ChunkInside | rt-boot/common/kernel/slab.c:628-648 | every chunk lies in its zone behind the header |
| Slab.ChunkAligned | rt-boot/common/kernel/slab.c:628-648 | chunks whose size is a power of two are aligned to it if and only if the start of their zone is |
| Slab.SmallAligned | rt-boot/common/kernel/slab.c:152-153 | up to the size of a page they always are |
| Slab.Allocator.constructor | rt-boot/common/kernel/slab.c:344-395 | all pages but those of the usage table are free, nobody has a block |
| Slab.Allocator.TakeChunk | rt-boot/common/kernel/slab.c:539-577 | a chunk of a zone with free chunks, new or given back; the zone leaves its list when it is full |
| Slab.Allocator.NewZone | rt-boot/common/kernel/slab.c:579-659 | a spare zone or new pages, which are then not free any more, with the first chunk taken |
| Slab.Allocator.MallocLarge | rt-boot/common/kernel/slab.c:489-510 | as many whole pages as the request takes, which are then not free any more, recorded in the usage table |
| Slab.Allocator.Malloc | rt-boot/common/kernel/slab.c:478-667 | it fails exactly if the request is empty, or its list and the spare zones are empty and there are not enough free pages in a row; the new block is no block that anybody has, of the chunk size of its class or of as many pages as it takes, and the free pages and spare zones change by exactly that; a request for a power of two, served from a zone or from pages, is aligned to it if and only if it is no larger than a page or the zone or first page that serves it is |
| Slab.Misaligned | rt-boot/common/kernel/slab.c:152-153 | a new heap hands out 8192 bytes at an odd page |
| Slab.Allocator.Free | rt-boot/common/kernel/slab.c:771-904 | found from the address alone: exactly that block is given up, all others stay where they are; the pages of a large block are free again, and a zone that becomes empty and is not alone in its list is put aside, or its pages are given back beyond the threshold |
| Slab.Allocator.Retire | rt-boot/common/kernel/slab.c:854-903 | an empty zone leaves its list and is put aside, or its pages are given back; that takes no block from anybody |
| Slab.Allocator.BlocksApart | rt-boot/common/kernel/slab.c:478-904 | in every reachable state: blocks that callers have lie in the heap, and no two share a byte |
| WaitQueue.SuspendLoop | rt-boot/common/kernel/ipc.c:79-122 | the loop inserts behind all waiters that are at least as urgent |
| WaitQueue.SuspendPlace | rt-boot/common/kernel/ipc.c:79-122 | nobody that waits changes its place: first in, first out puts the new thread last, and by priority it comes behind all that are as urgent and before the first that is less |
| WaitQueue.SuspendSorted | rt-boot/common/kernel/ipc.c:95-117 | the list stays ordered by priority |
| Mutex.Mutex.Take | rt-boot/common/kernel/ipc.c:653-778 | taken again by the owner, taken free, given up or waiting; a waiting thread lends its priority to the owner, and priority inheritance is kept |
| Mutex.Mutex.Timeout | rt-boot/common/kernel/ipc.c:727-761 | a waiter that gives up keeps the inheritance invariant for the others |
| Mutex.Mutex.Release | rt-boot/common/kernel/ipc.c:789-880 | the owner gets its own priority back; the first waiter becomes the owner, and then the owner is again at least as urgent as all waiters if and only if the first waiter was (always so for priority order) |
| Mutex.LateUrgent | rt-boot/common/kernel/ipc.c:841-857 | a run in which a first-in-first-out mutex goes to a thread of priority 20 while one of priority 5 waits |
| Mutex.Mutex.OwnerUrgent | rt-boot/common/kernel/ipc.c:718-726 | under the invariant no waiting thread is more urgent than the owner |
| EventObject.PassSettles | rt-boot/common/kernel/ipc.c:1053-1099 | one pass over the waiters is enough: nobody left waiting is satisfied by what is left; a woken thread got its bits among those set at its turn, and no bit goes without a thread that has got and cleared it |
| EventObject.SatisfiedIs | rt-boot/common/kernel/ipc.c:1062-1079 | with OR some wanted bit has to be set, with AND all have to, and what a thread gets are its bits among those set |
| EventObject.PassInOrder | rt-boot/common/kernel/ipc.c:1053-1099 | everybody goes on waiting or is woken, in the order of the list |
| EventObject.Event.Send | rt-boot/common/kernel/ipc.c:1028-1110 | the loop that unlinks while it walks is that pass; each woken thread gets its bits |
| EventObject.Event.Receive | rt-boot/common/kernel/ipc.c:1126-1236 | an empty request, a satisfied one, no waiting and waiting; that no waiter is satisfied is kept |
| MessageQueue.Queue.constructor | rt-boot/common/kernel/ipc.c:1780-1827 | every block of the pool is free |
| MessageQueue.Queue.TakeFree | rt-boot/common/kernel/ipc.c:1980-1997 | one block leaves the free list for the thread, or the pool is used up |
| MessageQueue.Queue.Fill | rt-boot/common/kernel/ipc.c:1999-2002 | the message is in the block the thread holds, and stays there whatever the other threads do |
| MessageQueue.Queue.LinkLast | rt-boot/common/kernel/ipc.c:2004-2019 | the message that this thread copied is now the last of the queue, whatever happened since |
| MessageQueue.Queue.LinkFirst | rt-boot/common/kernel/ipc.c:2089-2104 | the same at the front |
| MessageQueue.Queue.TakeFirst | rt-boot/common/kernel/ipc.c:2236-2249 | the first message belongs to this thread; without urgent ones, what was taken and what is queued together are what was sent, in order |
| MessageQueue.Queue.GiveBack | rt-boot/common/kernel/ipc.c:2251-2260 | what is copied out is what was taken, cut to the size of the buffer; the block is free again |
| Scheduler.Sched.InsertThread | rt-boot/common/kernel/scheduler.c:688-722 | lists and bitmaps stay right if and only if the thread was not ready before |
| Scheduler.Sched.RemoveThread | rt-boot/common/kernel/scheduler.c:785-815 | the bits are cleared exactly when the list becomes empty |
| Scheduler.Sched.HighestPriorityThread | rt-boot/common/kernel/scheduler.c:162-184 | the lowest bit of the group, and of its table if there are more than 32 priorities, is the first non-empty list |
| Scheduler.Sched.Schedule | rt-boot/common/kernel/scheduler.c:411-523 | unless locked or nothing is ready, the most urgent thread runs; among equals the lists rotate; no priority changes, and no state but of the two threads of a switch |
| Scheduler.Sched.ResumeEnd | rt-boot/common/kernel/thread.c:732-736 | the lists are right afterwards if and only if nobody has made the thread ready in the meantime |
| Scheduler.Sched.ResumeTwice | rt-boot/common/kernel/thread.c:716-736 | two resumes of one thread, in turn, both succeed and put it into its list twice |
| Scheduler.Sched.Resume | rt-boot/common/kernel/thread.c:706-740 | with nothing in between: an error unless suspended, else ready and last of its list |
| Scheduler.Sched.SuspendThread | rt-boot/common/kernel/thread.c:657-696 | an error unless ready or running, else in no list; the others keep their order |
| Scheduler.Sched.ChangePriority | rt-boot/common/kernel/thread.c:572-613 | a ready thread goes to the end of the list of its new priority |
| Scheduler.Sched.Startup | rt-boot/common/kernel/thread.c:288-320 | the thread is ready with its initial priority and last of that list, and then a schedule; every other thread keeps its priority, and its state but for the one switch |
| Scheduler.Sched.Timeout | rt-boot/common/kernel/thread.c:749-771 | a suspended thread, the current one too, can run again with the priority it had, last of its list, and then a schedule; the others as before |
| Scheduler.Sched.Exit | rt-boot/common/kernel/thread.c:80-115 | the current thread is closed, in no list, and another one runs; the others as before |
| Scheduler.Sched.ExitCritical | rt-boot/common/kernel/scheduler.c:915-940 | leaving the outermost section, or a section that was never entered, schedules |

## Findings

Places where the code does less than its comments or its callers suggest.  Each is
proved by a run or an instance that fails, and by the exact condition under which
all is well.

- `RT_ALIGN` wraps around for sizes above 2^32 - 8 (`rt-boot/common/include/kernel/rtdef.h:290`, `HeapBlocks.AlignIs`).  `rt_malloc` then sets aside 16 bytes and `rt_realloc` frees the block (`rt-boot/common/kernel/mem.c:289-300`, `rt-boot/common/kernel/mem.c:431-441`: `SmallHeap.HugeRequest`, `SmallHeap.HugeGrowth`; conditions in `SmallHeap.Heap.Malloc`, `SmallHeap.Heap.Realloc`).  `rt_memheap_alloc` sets aside 12 bytes (`rt-boot/common/kernel/memheap.c:148-150`: `MemHeap.HugeRequest`, `MemHeap.Heap.Alloc`).
- `rt_memheap_realloc` adds 12 to the new size before it compares (`rt-boot/common/kernel/memheap.c:350`).  For the largest rounded size, 2^32 - 8, the sum wraps around, and with a free block behind it a header is written into the block's own header (`MemHeap.HugeGrowth`; condition in `MemHeap.Heap.Realloc`).
- `rt_malloc` on a heap of eight bytes never returns: the bound of the search wraps around, and the end mark follows itself (`rt-boot/common/kernel/mem.c:305-313`, `SmallHeap.Heap.SearchSpins`; where the heap has room for 16 bytes the search ends, `SmallHeap.Heap.Find`).
- `rt_malloc` never hands out a block that fits exactly before the end mark (`rt-boot/common/kernel/mem.c:306`: `SmallHeap.ExactFit`, `SmallHeap.Heap.WholeSearched`).
- `lfree` is commented as the lowest free block (`rt-boot/common/kernel/mem.c:131`), but `rt_realloc` does not lower it when a block shrinks (`rt-boot/common/kernel/mem.c:470-498`); free memory below it is not found until something is freed there (`SmallHeap.LostSpace`; condition in `SmallHeap.Heap.Realloc`).
- `rt_memheap_alloc` fails for a request of exactly the available bytes, although the block would fit (`rt-boot/common/kernel/memheap.c:155`: `MemHeap.WholePool`, `MemHeap.Heap.Alloc`).
- The least size of `rt_memheap_alloc`, 12, is no multiple of the alignment: after a request of at most eight bytes later blocks are off by four (`rt-boot/common/kernel/memheap.c:148-150`: `MemHeap.OffByFour`, `MemHeap.Heap.Alloc`).
- The slab comment promises that all allocations whose size is a power of two are aligned to it (`rt-boot/common/kernel/slab.c:152-153`).  Zones and large blocks start at any page, so that above the size of a page this depends on where the next zone or free run happens to be (`Slab.Misaligned`; condition in `Slab.Allocator.Malloc`).
- `rt_mutex_release` hands a first-in-first-out mutex to the first waiter without lending it the priority of the others, so a more urgent thread can wait for a less urgent owner (`rt-boot/common/kernel/ipc.c:841-857`: `Mutex.LateUrgent`, `Mutex.Mutex.Release`).
- `rt_timer_start` reads the clock with interrupts enabled (`rt-boot/common/kernel/timer.c:315-327`).  A start held up there can put a timer in behind one with a later deadline that has fired already (`Timers.LateStart`), and two starts of one timer can put it into the list twice (`Timers.StartTwice`); both conditions are in `Timers.TimerList.Hang`.
- A one-shot timer that its own timeout function starts again is in the list but marked as not active, so `rt_timer_stop` refuses it (`rt-boot/common/kernel/timer.c:539-543`: `Timers.Stranded`, `Timers.TimerList.Rearm`).
- `rt_thread_resume` tests the state before it disables interrupts and inserts the thread after it has enabled them again (`rt-boot/common/kernel/thread.c:716-736`).  Two resumes of the same thread can put it into its ready list twice (`Scheduler.Sched.ResumeTwice`, `Scheduler.Sched.ResumeEnd`).
- The comment on the bound of 20 input bytes counts 22 modelled bits and 26 direct ones (`host_util/lzma/C/LzmaDec.h:41-42`).  A long match at a distance from 65 to 128 takes 23 modelled bits and no direct ones; it is the only exception, and the bound of 20 bytes holds all the same (`BitCounts.SymbolBits`, `ByteBound.SymbolBytes`).

## Left out

- Timers.TimerList.Hang: a start may be held up by at most `slack` ticks, any number below half of the tick range; that a second start reads the clock after the first one has put the timer into the list is not modelled, and neither are soft timers.
- Timers.TimerList.Check: a timeout function that starts a timer with tick zero is excluded, because the loop would serve it again in the same tick; so is one that starts a timer whose start is in progress elsewhere.
- Timers.TimerList.Stop: the test of the flag and the removal are one step.
- Scheduler.Sched.ResumeEnd: the test of the state and the unlinking before it are one step.
- Scheduler.Sched.SuspendThread: the test of the state and the removal are one step.
- SmallHeap.Heap.Malloc: a request that makes the search run for ever is excluded, because the call would not return (see Findings).
- SmallHeap.Heap.Realloc: a move is one step, although the lock is released before the new block is allocated, the data copied and the old block freed; the same holds for a move in `MemHeap.Heap.Realloc`.
- MemHeap.Heap.constructor: a pool that is smaller than two headers is excluded; the source does not test for it.
- MemHeap.Heap.Alloc: the test of the available size, which is made before the lock is taken, is part of the step.
- Slab.Allocator.Malloc: a call is one step, although the lock is released while pages for a new zone are taken; `Free` likewise.
- MatchFinder.CMatchFinder.GetMatches: with trees higher than the cut value the longest match may be missed and positions may be dropped, as the source intends; which of them is not stated.
- MatchFinder.CMatchFinder.CheckLimits: reading the input in blocks, moving the window and its callbacks are left out; all input is in memory.
- MessageQueue.Queue.LinkLast: waking up a waiting receiver is left out; so it is in `LinkFirst`.
- MessageQueue.Queue.TakeFirst: waiting with a timeout is left out; a call that would wait is a call that comes later.
- The prices and the search of the optimal and the fast parser: the proofs hold for every valid choice of packets, so they do not depend on them.
- The Bt2, Bt3, Bt3Zip, Hc3Zip variants and the multithreaded match finder.
- Write errors, progress callbacks, output buffering (`RangeEnc_FlushStream`) and failed allocations of the codec; the 64-bit wrap-around of `cacheSize`.
- The five property bytes, the 13-byte file header and the command-line wrapper.
- In the heaps, block headers and payload bytes are separate, so that writing outside of a block is not expressed; header magic, names and traces of blocks; `rt_calloc`; `rt_realloc` and the used-memory counter of the slab heap; detaching a memory heap.
- RT_ALIGN_SIZE is 8 as configured, and the C types are those of the 32-bit target.
- Bitmaps are sets of bit numbers; the table of `__rt_ffs` is not modelled.
- Multiprocessor scheduling, signals, stack checks, hooks, assertions and debug output; time slices; the idle thread and the clean-up of closed threads.
- Mutexes that one thread holds at the same time, and changes of a thread's priority from elsewhere while it owns or waits for one; the 8- and 16-bit counters of nested takes, values and queued messages.
- Semaphores, mailboxes, memory pools, the object and device layers, file systems, networking and the shell: they would add only smaller members of the same kinds.
