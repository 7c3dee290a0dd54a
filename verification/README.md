# Verified models of the driver framework's algorithms

The repository is a cut-down Linux driver framework. Most of its headers are declarations; a few
contain complete algorithms that are hard to trust by reading. This project models those
algorithms in Dafny and proves what they promise, for all inputs, all runs or all programs.

| file | models |
|---|---|
| `Words.dfy` | unsigned words as numbers: powers of two, bits, `&`, `\|`, `~`, `-`, `ilog2`, `__ffs` |
| `Xprod.dfy`, `Div64.dfy`, `DoDiv.dfy` | 64-bit division by multiplication with a scaled reciprocal, and by shifting and subtracting |
| `Kfifo.dfy`, `KfifoBulk.dfy`, `KfifoProtocol.dfy` | the lock-free ring buffer, as an object, with bulk copies of bytes, and as a two-thread protocol |
| `Lists.dfy`, `ListOps.dfy`, `ListCuts.dfy`, `ListWorld.dfy` | circular intrusive lists on a real heap, up to arbitrary programs of list operations |
| `Hlists.dfy` | lists with a one-pointer head and pointer-to-pointer back links |
| `HeaderGc.dfy` | the script that deletes headers no source reaches |
| `BitSearch.dfy`, `BitRanges.dfy` | bitmap searches in one word and over many, and the loops over runs of equal bits |
| `HeapSort.dfy` | the in-place bottom-up heapsort |
| `CasLoops.dfy` | compare-and-swap retry loops run by any number of threads |
| `Cpumask.dfy` | single-CPU masks as windows into one overlapping table |
| `Bitfield.dfy`, `ByteOrder.dfy` | register fields by multiplication, division, shifts and byte swaps |

Conventions. Machine words are natural numbers and every truncation is written out. `null` stands
for list poison. Rings are described by the sequence of their nodes; ghost parameters of the list
methods carry those sequences and positions. `div64.h` writes `1 << ilog2(b)`; for divisors from
2^31 on this is read as the unsigned value. Memory is sequentially consistent. `lg` is the logarithm of
`BITS_PER_LONG`; `order` is the logarithm of a fifo's size.

Where the code does not meet a property everywhere, the exact condition is proved:

- `list_swap` on two rings works exactly when the second entry is not alone on its ring
  (`ListOps.ListSwap` states what happens otherwise).
- `kfifo_skip` keeps the fifo sound exactly when it is not empty (`Kfifo.Fifo.Skip`), and the
  fullness test works exactly for sizes up to 2^31 (`Kfifo.FullTestExact`).
- `hlist_move_list` leaves every node held by its `pprev` exactly when the target head was empty
  (`Hlists.HlistMoveList`, with an input in `Hlists.MoveOntoFullHead`; over whole programs
  `Hlists.EffectConserves`).
- The bulk fifo copies go to the right bytes for every offset and length exactly when the buffer is
  shorter than 2^32 bytes (`KfifoBulk.PlansRightIff`); `__kfifo_init` always makes it so.
- `_find_next_bit` on words of w bits finds the next bit exactly when the bitmap has at most 2^w - w
  bits, or the search starts behind the end, or a hit lies in the words ahead, padding included
  (`BitSearch.SearchIsNextIff`). Otherwise its position wraps to 0 and it returns an earlier hit or
  never returns (`BitSearch.HangsForever`, with an input in `BitSearch.ClearBitmapHangs`).
- `for_each_set_bitrange` and its dual end exactly when the bitmap has at most 2^w - w bits, or both
  bit values occur in its last two bits and the padding and it is not a bitmap of 2^w - 1 bits that
  ends in a run (`BitRanges.EndsIff`).
- The division-free `parent` of the heapsort finds the parent at every offset exactly when the lowest
  bit of the element size fits 32 bits (`HeapSort.ParentsRightIff`).
- The header script leaves every needed include resolvable exactly when every reachable header is
  also reachable under the spelling the directory walk uses (`HeaderGc.CleanIsSafeIff`,
  `HeaderGc.AliasIsDeleted`).

## Model

| member | source | states |
|---|---|---|
| Xprod.OverflowBitsClear | lib/include/asm-generic/div64.h:182-192 | the mask test on `m` asks exactly whether both 32-bit halves of `m` are below 2^31 |
| Xprod.HighHalfCarry | lib/include/asm-generic/div64.h:186-203 | comparing only the high halves detects the 64-bit wrap exactly when the summand is a product of two 32-bit numbers |
| Xprod.HalvesMakeProduct | lib/include/asm-generic/div64.h:173-206 | the four half products, shifted and summed, are the high word of the whole product plus bias |
| Xprod.LowPart | lib/include/asm-generic/div64.h:180-190 | low product plus bias, shifted down, without loss in all three branches |
| Xprod.CrossPart | lib/include/asm-generic/div64.h:192-204 | adding the cross products loses nothing, although one sum can be exactly 2^64 - 1 and the next wraps |
| Xprod.ArchXprod64 | lib/include/asm-generic/div64.h:171-209 | for all 64-bit `m`, `n` and bias the result is floor((m*n + bias*m) / 2^64) |
| Div64.UpRightWhen | lib/include/asm-generic/div64.h:82-96 | the rounded-up reciprocal gives the right quotient at `n` if and only if its accumulated error stays below the distance to the next multiple |
| Div64.ProbeDecidesUp | lib/include/asm-generic/div64.h:86-105 | if the rounded-up reciprocal is right at the one tested dividend, it is right for every 64-bit dividend |
| Div64.ProbeDecidesDown | lib/include/asm-generic/div64.h:105-117 | if it is wrong there, the rounded-down reciprocal with bias is right for every 64-bit dividend |
| Div64.ProbeDecides | lib/include/asm-generic/div64.h:79-117 | both directions of the single test, on the values the code computes, for every divisor that is not a power of two |
| Div64.UpFormula | lib/include/asm-generic/div64.h:82-84 | the two-step formula is the scaled reciprocal rounded up, with an error below the divisor |
| Div64.DownFormula | lib/include/asm-generic/div64.h:115-117 | the two-step formula is the scaled reciprocal rounded down, with an error below the divisor |
| Div64.WordsExact | lib/include/asm-generic/div64.h:82-117 | outside powers of two neither reciprocal is truncated to 64 bits |
| Div64.OddPartCase | lib/include/asm-generic/div64.h:99-104 | when the odd part divides 2^64 - 1 the simplified biased product is the quotient |
| Div64.TrailingZerosBounded | lib/include/asm-generic/div64.h:124-139 | the trailing zeros of the multiplier never exceed log2 of the scale, so the scale never becomes 0 |
| Div64.ReductionBitsMeaning | lib/include/asm-generic/div64.h:124-126 | bit j of the computed word says that shifting by j is exact and leaves the top bit of the low half clear |
| Div64.Reduce | lib/include/asm-generic/div64.h:119-139 | the reduction keeps m/p exactly, keeps p positive, applies the largest exact shift that clears bits 31 and 63 if there is one, and otherwise every exact shift would set bit 31 |
| Div64.ProbeProduct | lib/include/asm-generic/div64.h:89-95 | the test product computed with 64-bit arithmetic is exactly floor(m*x / 2^64) |
| Div64.ChooseUneven | lib/include/asm-generic/div64.h:105-142 | the biased and the reduced branch each leave a multiplier and scale that give the quotient |
| Div64.ChooseReciprocal | lib/include/asm-generic/div64.h:76-142 | whichever of the three branches is taken, dividend, multiplier, scale and bias give the quotient |
| Div64.Div64Const32 | lib/include/asm-generic/div64.h:65-158 | for every 64-bit n and every 32-bit b >= 1 the result is floor(n / b) |
| DoDiv.WrappingRemainder | lib/include/asm-generic/div64.h:229-233 | the remainder recomputed from low halves with 32-bit wrap-around is n mod b |
| DoDiv.DoDivWide | lib/include/asm-generic/div64.h:45-51 | n becomes the quotient and the remainder is returned |
| DoDiv.ReduceFirst | lib/src/linux/div64.c:39-44 | taking off high / base multiples keeps n = res * base + rem; the 32-bit product and the shifts lose nothing |
| DoDiv.DoubleBase | lib/src/linux/div64.c:46-49 | the doubled base is base * 2^j without wrap-around and stops above half the remainder, also when the sign test stops it |
| DoDiv.ShiftSubtract | lib/src/linux/div64.c:51-58 | one round keeps n = res * base + rem with rem below twice the next shifted base; the last one leaves rem below base |
| DoDiv.Div64_32 | lib/src/linux/div64.c:31-62 | for every 64-bit n and 32-bit base >= 1: n = res * base + rem with rem < base |
| DoDiv.DoDivNarrow | lib/include/asm-generic/div64.h:219-241 | all four branches leave the quotient in n and return the remainder |
| Words.IsPowerOf2Iff | lib/include/linux/log2.h:44-48 | the test accepts exactly the powers of two; 0 is not one |
| Words.AndNotIsAndOfNot | lib/include/linux/bitops.h:280 | the width-free form of `x & ~y` is the one on words of any width that holds both |
| Words.Ilog2Brackets | lib/include/linux/log2.h:156-164 | `ilog2` is the exponent of the power of two below the number |
| Kfifo.SlotOfCounter | lib/include/linux/kfifo.h:418-425 | masking the wrapped 32-bit counter finds the slot of the unbounded sequence number |
| Kfifo.SlotsDiffer | lib/include/linux/kfifo.h:418-425 | fewer than size consecutive sequence numbers occupy different slots |
| Kfifo.FullTestExact | lib/include/linux/kfifo.h:285-289 | the test `len > mask` recognises the full fifo at every length if and only if the size is at most 2^31 |
| Kfifo.ViewAppend | lib/include/linux/kfifo.h:416-426 | a store behind the last element appends it and leaves all other elements alone |
| Kfifo.ViewDrop | lib/include/linux/kfifo.h:454-463 | advancing the wrapped counter drops exactly the oldest element |
| Kfifo.Fifo.constructor | lib/include/linux/kfifo.h:125-134 | a fifo with its own buffer of a power-of-two size starts sound and empty |
| Kfifo.Fifo.Observe | lib/include/linux/kfifo.h:234-305 | length, emptiness, fullness and free space are those of the element sequence, through counter wrap |
| Kfifo.Fifo.Put | lib/include/linux/kfifo.h:406-429 | appends if and only if there is room and reports which |
| Kfifo.Fifo.Get | lib/include/linux/kfifo.h:443-468 | removes and delivers the oldest element if and only if there is one; otherwise nothing changes |
| Kfifo.Fifo.Peek | lib/include/linux/kfifo.h:482-506 | delivers the oldest element without removing it |
| Kfifo.Fifo.Skip | lib/include/linux/kfifo.h:311-320 | drops the oldest element; the fifo stays sound if and only if it was not empty |
| Kfifo.Fifo.Reset | lib/include/linux/kfifo.h:210-214 | the fifo becomes empty |
| Kfifo.Fifo.ResetOut | lib/include/linux/kfifo.h:224-228 | the fifo becomes empty and the write counter keeps its value |
| KfifoBulk.ByteFifo.constructor | lib/include/linux/kfifo.h:125-134 | a fifo without a buffer starts with mask 0 and no data and is not usable yet |
| KfifoBulk.ByteFifo.Init | lib/src/linux/kfifo.c:68-88 | the largest power of two of elements that fits is used, fewer than two are refused, and the fifo is sound, empty and shorter than 2^32 bytes |
| KfifoBulk.ByteFifo.Alloc | lib/src/linux/kfifo.c:26-53 | the size is rounded up to the next power of two; 1 and sizes above 2^31 (rounded to 0 in 32 bits) are refused |
| KfifoBulk.PlansRightIff | lib/src/linux/kfifo.c:91-104 | the scaled offset, size and length give the right two pieces for every offset and length if and only if the buffer is shorter than 2^32 bytes |
| KfifoBulk.ViewStored | lib/src/linux/kfifo.c:104-107 | storing in two pieces round the end of the buffer appends all elements and leaves the others alone |
| KfifoBulk.SpliceCells | lib/src/linux/kfifo.c:106-107 | copying bytes at element boundaries replaces exactly those elements |
| KfifoBulk.CellBytes | lib/src/linux/kfifo.c:99-107 | byte j of element k is byte k * esize + j of the buffer |
| KfifoBulk.ByteFifo.CopyIn | lib/src/linux/kfifo.c:91-113 | the two byte copies store the elements round the end of the buffer |
| KfifoBulk.ByteFifo.CopyOut | lib/src/linux/kfifo.c:130-152 | the two byte copies read the elements round the end of the buffer and nothing else is written |
| KfifoBulk.ByteFifo.In | lib/src/linux/kfifo.c:115-127 | appends the first min(len, room) elements of the source buffer |
| KfifoBulk.ByteFifo.OutPeek | lib/src/linux/kfifo.c:154-165 | copies out the oldest min(len, length) elements and changes nothing else |
| KfifoBulk.ByteFifo.Out | lib/src/linux/kfifo.c:168-174 | as `OutPeek`, and exactly those elements leave the fifo |
| KfifoProtocol.WriterKeepsInv | lib/include/linux/kfifo.h:406-429 | each of the writer's accesses keeps the protocol invariant |
| KfifoProtocol.ReaderKeepsInv | lib/include/linux/kfifo.h:224-506 | each of the reader's accesses (get, peek, skip, reset_out) keeps the protocol invariant |
| KfifoProtocol.EveryRun | lib/include/linux/kfifo.h:29-37 | in every interleaving of one writer and one reader, values taken or peeked at are delivered under numbers that never go back and equal the values committed under them, the counters never drift apart by more than the size, and a put of any value is admitted exactly when there is room, a read exactly when there is an element |
| KfifoProtocol.WriterLaw | lib/include/linux/kfifo.h:406-429 | what each access of a put does to the recorded values: admitted exactly when the writer is idle and the fifo is not full, and the argument is what gets committed |
| KfifoProtocol.ReaderLaw | lib/include/linux/kfifo.h:224-506 | what each access of the reader does to the recorded values: admitted exactly when an element is there, the oldest one is delivered, a skip drops one, a reset what was sampled |
| KfifoProtocol.EveryPutCounts | lib/include/linux/kfifo.h:406-429 | in every interleaving the values committed and the one under way are exactly the arguments of the admitted puts, in order |
| KfifoProtocol.EveryElementCounts | lib/include/linux/kfifo.h:224-506 | in every interleaving each element behind the read counter was delivered or dropped by a skip or reset, and not both |
| KfifoProtocol.WriterAvoidsLiveSlots | lib/include/linux/kfifo.h:416-426 | in every interleaving, the slot the writer is about to store into holds no element between the counters |
| KfifoProtocol.ReadsArePrefixOfWrites | lib/include/linux/kfifo.h:29-37 | in every interleaving without skips or resets, the values read are a prefix of the values written, and those of the arguments of the admitted puts |
| Lists.InitListHead | lib/include/linux/list.h:35-39 | the node becomes a ring of its own |
| Lists.InsertBetween | lib/include/linux/list.h:65-76 | a node linked between two neighbours extends the ring there |
| Lists.Unlink | lib/include/linux/list.h:112-116 | linking the neighbours leaves the ring without the node; a lone node stays a ring |
| Lists.ListAdd | lib/include/linux/list.h:86-89 | the node comes right after the given one, wherever that is on its ring |
| Lists.ListAddTail | lib/include/linux/list.h:100-103 | the node comes right before the given one |
| Lists.ListDelEntry | lib/include/linux/list.h:132-138 | the ring without the entry is well formed |
| Lists.ListDel | lib/include/linux/list.h:146-151 | as above, and the entry is poisoned |
| Lists.ListDelInit | lib/include/linux/list.h:204-208 | as above, and the entry is an empty ring |
| Lists.ListReplace | lib/include/linux/list.h:160-167 | the new node takes exactly the old one's position, also on an empty ring |
| Lists.ListReplaceInit | lib/include/linux/list.h:176-181 | as above, and the old node becomes an empty ring |
| ListOps.ListMove | lib/include/linux/list.h:215-219 | removal and insertion, within one ring or between two |
| ListOps.ListMoveTail | lib/include/linux/list.h:226-231 | the same before the given node |
| ListOps.TakePlace | lib/include/linux/list.h:191-196 | the second entry takes the first one's place and the remembered neighbour is the right one even when the two are adjacent |
| ListOps.ListSwap | lib/include/linux/list.h:188-198 | exactly the two positions are exchanged: same ring, adjacent in either order, or two rings; on two rings both results are rings if and only if the second entry was not alone, and the failing case is stated |
| ListCuts.ListEmpty | lib/include/linux/list.h:290-293 | true if and only if the head has no entries |
| ListCuts.ListIsSingular | lib/include/linux/list.h:368-371 | true if and only if the head has one entry |
| ListCuts.SpliceBetween | lib/include/linux/list.h:442-454 | the entries of one list are linked between two neighbours of another |
| ListCuts.ListSplice | lib/include/linux/list.h:461-466 | the entries come first, in order; an empty list changes nothing |
| ListCuts.ListSpliceTail | lib/include/linux/list.h:473-478 | the entries come last, in order |
| ListCuts.ListSpliceInit | lib/include/linux/list.h:487-494 | as `ListSplice`, and the emptied list is an empty ring |
| ListCuts.ListSpliceTailInit | lib/include/linux/list.h:504-511 | as `ListSpliceTail`, and the emptied list is an empty ring |
| ListCuts.ListBulkMoveTail | lib/include/linux/list.h:242-254 | the list becomes the rest followed by the segment, also when the segment is the tail or everything |
| ListCuts.CutBehind | lib/include/linux/list.h:373-383 | the prefix up to the entry and the rest become two rings |
| ListCuts.ListCutPosition | lib/include/linux/list.h:399-410 | splits behind the entry; nothing moves when the entry is the head; an empty list leaves the target untouched, and on an empty or one-entry list an entry from elsewhere changes nothing |
| ListCuts.ListCutBefore | lib/include/linux/list.h:426-440 | splits before the entry; everything moves when the entry is the head |
| ListCuts.CutThenSplice | lib/include/linux/list.h:399-466 | cutting and splicing back restores the original order |
| ListCuts.ListRotateLeft | lib/include/linux/list.h:336-344 | the first entry becomes the last; an empty list stays |
| ListCuts.ListRotateToFront | lib/include/linux/list.h:353-362 | the list is rotated so that the chosen entry is first |
| ListWorld.EffectConserves | lib/include/linux/list.h:65-511 | no operation loses, invents or shares a node: the rings stay a partition of the nodes there were and the node the operation brings along |
| ListWorld.AddLaw | lib/include/linux/list.h:86-103 | from a ring head, a.. come head, node, a.. and head, a.., node |
| ListWorld.DelInitLaw | lib/include/linux/list.h:204-208 | the rest of the ring in order, and the node alone |
| ListWorld.ReplaceInitLaw | lib/include/linux/list.h:176-181 | the new node in front of the same rest, and the old one alone |
| ListWorld.SpliceInitLaw | lib/include/linux/list.h:487-511 | head, t.., a.. for the front splice and head, a.., t.. for the tail splice, and the list alone |
| ListWorld.MoveWithinLaw | lib/include/linux/list.h:215-231 | within one ring the node leaves its place and comes right behind or right before the head |
| ListWorld.MoveAcrossLaw | lib/include/linux/list.h:215-231 | between two rings one closes over the node and the other takes it in next to the head |
| ListWorld.OthersStay | lib/include/linux/list.h:65-511 | rings without any node the operation names stay as they are |
| ListWorld.Apply | lib/include/linux/list.h:65-511 | every single operation on the heap has exactly the effect computed on the sequences, and every other ring is untouched |
| ListWorld.Execute | lib/include/linux/list.h:65-511 | every legal program of add, add_tail, del_init, move, move_tail, replace_init, splice_init and splice_tail_init ends in exactly the rings predicted on sequences, all well formed and disjoint, with no node lost; inserted nodes may come from outside with arbitrary links |
| ListWorld.ProgramLaw | lib/include/linux/list.h:65-511 | a program is its first operation, if legal, followed by the rest; an illegal first operation stops it |
| ListWorld.EffectsConserve | lib/include/linux/list.h:65-511 | a program ends with exactly the nodes it started with and those it brought along |
| Hlists.PprevHoldsNode | lib/include/linux/list.h:816-819 | on a well-formed list the location a node's `pprev` names holds that node |
| Hlists.Unhash | lib/include/linux/list.h:843-851 | the node leaves the list, also at either end |
| Hlists.HlistDelInit | lib/include/linux/list.h:873-879 | a hashed node leaves its list and is unhashed; an unhashed one is left alone |
| Hlists.HlistAddHead | lib/include/linux/list.h:889-897 | the node comes first |
| Hlists.HlistAddBefore | lib/include/linux/list.h:904-911 | the node comes right before the given one, also at the front |
| Hlists.HlistAddBehind | lib/include/linux/list.h:918-927 | the node comes right behind the given one, also at the end |
| Hlists.HlistIsSingularNode | lib/include/linux/list.h:959-963 | true if and only if the list is that one node |
| Hlists.HlistMoveList | lib/include/linux/list.h:973-980 | the whole list changes heads and the old head is empty, for any two heads or one; all nodes of both lists are still held by their `pprev` if and only if the target was empty |
| Hlists.MoveOntoFullHead | lib/include/linux/list.h:973-980 | after a move onto a head that holds a node, that node's `pprev` names a location that holds another node |
| Hlists.EffectConserves | lib/include/linux/list.h:843-980 | no operation loses, invents or shares a node, and a node drops off the lists without being unhashed if and only if a list is moved onto a head that holds it |
| Hlists.AddHeadLaw | lib/include/linux/list.h:889-897 | the node in front of the list, and the whole rest of the tables unchanged |
| Hlists.AddBeforeLaw | lib/include/linux/list.h:904-911 | a.., next, b.. becomes a.., n, next, b.. and nothing else changes |
| Hlists.AddBehindLaw | lib/include/linux/list.h:918-927 | a.., prev, b.. becomes a.., prev, n, b.. and nothing else changes |
| Hlists.DelInitLaw | lib/include/linux/list.h:873-879 | a.., n, b.. becomes a.., b.. and the node is unhashed |
| Hlists.DelInitAgainLaw | lib/include/linux/list.h:873-879 | an unhashed node is left alone |
| Hlists.MoveListLaw | lib/include/linux/list.h:973-980 | the target holds the source's list, the source none, other heads keep theirs, and exactly the target's former nodes drop off |
| Hlists.Execute | lib/include/linux/list.h:843-980 | every legal program over any number of lists ends in exactly the predicted lists, and every linked node is held by the location its `pprev` names; added nodes may hold anything and moves may hit any head |
| Hlists.ProgramLaw | lib/include/linux/list.h:843-980 | a program is its first operation, if legal, followed by the rest |
| HeaderGc.AddExisting | kernel/scripts/remove_unref_headers.py:36-50 | adds exactly the includes that exist and are not done |
| HeaderGc.CollectSeeds | kernel/scripts/remove_unref_headers.py:30-39 | the first worklist is exactly the existing includes of the sources |
| HeaderGc.ClosedIsReachable | kernel/scripts/remove_unref_headers.py:41-52 | a closed set of reachable paths is exactly the set of paths reached by some chain of includes |
| HeaderGc.CollectAllReferencedHeaders | kernel/scripts/remove_unref_headers.py:23-52 | ends for every include graph and, for every order of taking work, returns exactly the reachable existing headers |
| HeaderGc.HeaderTree.DeleteUnreferencedHeaders | kernel/scripts/remove_unref_headers.py:55-65 | removes exactly the listed headers that are not referenced, in any order; their files stop resolving under every spelling and nothing else changes |
| HeaderGc.HeaderTree.Clean | kernel/scripts/remove_unref_headers.py:68-73 | removes exactly the listed headers no source reaches: which paths resolve and which are listed afterwards |
| HeaderGc.CleanRemovesExactly | kernel/scripts/remove_unref_headers.py:55-73 | a path still resolves if and only if its header is not listed under an unreachable spelling; the listing keeps exactly the reachable headers; sources and texts stay |
| HeaderGc.CleanIsSafeIff | kernel/scripts/remove_unref_headers.py:55-65 | every reachable path still resolves afterwards if and only if the walk's spellings are covered; normalised names are enough |
| HeaderGc.CleanKeepsIncludes | kernel/scripts/remove_unref_headers.py:23-65 | then every include that resolved from a source or a referenced header still resolves, and no new one appears |
| HeaderGc.SecondRunDeletesNothing | kernel/scripts/remove_unref_headers.py:68-73 | then the same paths are reachable, every listed header left is needed, and a second run changes nothing |
| HeaderGc.AliasIsDeleted | kernel/scripts/remove_unref_headers.py:55-65 | a header included under another spelling than the walk's is deleted although a source includes it |
| BitSearch.GenmaskBits | lib/include/linux/bits.h:36-40 | the mask has exactly bits l to h |
| BitSearch.FindNextBitSmall | lib/include/linux/find.h:30-45 | mask and scan find the first set bit at or after the offset, or return the size |
| BitSearch.FindNextZeroBitSmall | lib/include/linux/find.h:88-103 | fill and scan find the first clear bit at or after the offset, or return the size |
| BitSearch.FirstWordSeen | lib/src/linux/find_bit.c:41-53 | inverting, masking and rounding down leave exactly the hits of the first word at or after the start |
| BitSearch.NextStart | lib/src/linux/find_bit.c:55-58 | the next position is the next word, the end, or word 0 again when the bitmap has more than 2^w - w bits |
| BitSearch.FindNextBit | lib/src/linux/find_bit.c:32-69 | on every input on which the scan ends it returns the hit ahead, or the size, or after a wrap the first hit of all words, cut to the size |
| BitSearch.HangsForever | lib/src/linux/find_bit.c:55-64 | when the position wraps and no word holds a hit, the loop is still running after any number of rounds |
| BitSearch.SearchIsNextIff | lib/src/linux/find_bit.c:32-69 | the result is the next bit of the bitmap if and only if it has at most 2^w - w bits, nothing is to be searched, or a hit lies ahead |
| BitSearch.SearchWraps | lib/src/linux/find_bit.c:55-69 | otherwise the result is the first hit of all words, before the start, and the scan hangs if and only if there is none |
| BitSearch.ClearBitmapHangs | lib/src/linux/find_bit.c:55-64 | looking for a set bit in 2^w - 1 clear bits never ends |
| BitRanges.ForEachBitrange | lib/include/linux/find.h:304-344 | on every bitmap on which it ends, with the real scan underneath, the loop visits maximal runs only, in increasing order, separated, and misses no bit |
| BitRanges.AllRunsVisited | lib/include/linux/find.h:304-344 | a range is visited if and only if it is a maximal run |
| BitRanges.NeverEnds | lib/include/linux/find.h:311-316 | on every other bitmap, in every round a search hangs or the loop condition holds |
| BitRanges.EndsIff | lib/include/linux/find.h:311-316 | the loop reaches a false condition if and only if the bitmap satisfies the stated condition |
| HeapSort.ParentsRightIff | lib/src/linux/sort.c:183-189 | the branch-free computation on byte offsets gives the heap parent at every offset if and only if the element size is no multiple of 2^32 |
| HeapSort.FindLeaf | lib/src/linux/sort.c:264-267 | the way down takes the larger child at every level and ends at a leaf, also at a last leaf without sibling |
| HeapSort.FindPlace | lib/src/linux/sort.c:269-271 | the way back stops where the element is above its children and not above its place |
| HeapSort.ShiftUp | lib/src/linux/sort.c:272-276 | the repeated swaps rotate exactly the path and keep all elements |
| HeapSort.Settled | lib/src/linux/sort.c:252-276 | the rotated path makes a heap from the sifted position on |
| HeapSort.Sift | lib/src/linux/sort.c:252-276 | a heap behind a position becomes a heap from it on, with the same elements and nothing touched outside |
| HeapSort.RootIsLargest | lib/src/linux/sort.c:235-248 | the root of a heap is not less than any element |
| HeapSort.Sort | lib/src/linux/sort.c:210-278 | for every total preorder the array ends up sorted and is a permutation of what it was |
| CasLoops.StepLinearizes | lib/include/linux/bitops.h:272-301 | every access either takes no effect or is the whole effect of the thread's next call, answered from the word it found |
| CasLoops.RunExtends | lib/include/linux/bitops.h:272-301 | a longer schedule takes the next access of the named thread where the shorter one ended |
| CasLoops.HonestAnswers | lib/include/linux/bitops.h:283-300 | `set_mask_bits` answers the word before the call, `bit_clear_unless` whether it had none of the test bits |
| CasLoops.RunLinearizes | lib/include/linux/bitops.h:272-301 | for any threads and any schedule the final word is a sequential replay of the finished calls; each `set_mask_bits` answered the word just before it and each `bit_clear_unless` whether that word had none of the test bits |
| CasLoops.RunPerThread | lib/include/linux/bitops.h:272-301 | each thread's calls take effect in program order, exactly once, and it receives exactly their answers |
| CasLoops.RetryMeansProgress | lib/include/linux/bitops.h:278-297 | a loop repeats only if another thread's call changed the word in between |
| CasLoops.EffectOnBits | lib/include/linux/bitops.h:273-300 | what each call does to every single bit |
| Cpumask.WindowInside | lib/include/linux/cpumask.h:892-900 | the shifted pointer and all words read through it stay inside the table |
| Cpumask.GetCpuMask | lib/include/linux/cpumask.h:885-900 | for every word size, CPU count and CPU, the window holds exactly bit `cpu` |
| Cpumask.CpuNoneMask | lib/include/linux/cpumask.h:811-812 | the first row holds no bit |
| Bitfield.GoodMaskIffContiguous | lib/include/linux/bitfield.h:136-141 | the mask check accepts exactly the contiguous runs of ones, and agrees with the check of the shift forms |
| Bitfield.ReplacedBit | lib/include/linux/bitfield.h:148-158 | inside the field the new value, outside the old register, bit by bit |
| Bitfield.GetAfterReplace | lib/include/linux/bitfield.h:154-167 | reading back gives the value cut to the field |
| Bitfield.ReplaceWithGot | lib/include/linux/bitfield.h:154-167 | writing back what was read changes nothing |
| Bitfield.ReplaceTwice | lib/include/linux/bitfield.h:154-158 | the last write to a field wins |
| Bitfield.DisjointReplacesCommute | lib/include/linux/bitfield.h:154-167 | writes to disjoint fields commute and leave each other's values alone |
| Bitfield.FormsAgree | lib/include/linux/bitfield.h:112-130 | the multiply and divide forms equal `FIELD_PREP` and `FIELD_GET` |
| Bitfield.Register.ReplaceField | lib/include/linux/bitfield.h:159-163 | the in-place form, with the read-back law |
| ByteOrder.SwabBytes | lib/include/linux/bitfield.h:168-171 | byte b of the swapped word is byte k - 1 - b, at every byte count |
| ByteOrder.SwabTwice | lib/include/linux/bitfield.h:168-171 | the byte swap behind the big-endian forms is its own inverse |
| ByteOrder.BeReplaceIsReplace | lib/include/linux/bitfield.h:147-171 | the byte-swapped replacement is the plain one on the register as the CPU reads it |
| ByteOrder.BeGetAfterReplace | lib/include/linux/bitfield.h:147-171 | reading back through the swap gives the value cut to the field |

## Left out

- KfifoProtocol.EveryRun: memory is sequentially consistent, so the barriers are not examined; a concurrent `kfifo_reset`, which the source forbids, is not part of the protocol.
- Kfifo.Fifo.constructor: the in-place branch of `INIT_KFIFO`; the branch for fifos without a buffer is `KfifoBulk.ByteFifo.constructor`.
- KfifoBulk.ByteFifo.Init: a buffer smaller than one element is excluded, because the source then calls `rounddown_pow_of_two(0)`, which is documented as undefined.
- KfifoBulk.ByteFifo.Alloc: size 0 is excluded for the same reason (`roundup_pow_of_two(0)`); `unsigned long` has 64 bits, and whether memory is available is a parameter.
- KfifoBulk.ByteFifo.In: buffers of 2^32 bytes or more are excluded, since `KfifoBulk.PlansRightIff` shows that copies then go astray and may leave the buffer; source and fifo buffer do not overlap.
- KfifoBulk.ByteFifo.CopyIn: the same exclusion as for `In`.
- KfifoBulk.ByteFifo.CopyOut: the same exclusion as for `In`.
- KfifoBulk.ByteFifo.OutPeek: the same exclusion as for `In`.
- KfifoBulk.ByteFifo.Out: the same exclusion as for `In`.
- BitSearch.FindNextBit: the second bitmap of `find_next_and_bit` and the byte-swapped order are not modelled.
- HeapSort.Sort: elements are values and `do_swap` exchanges two of them whole (the word-wise copy loops are not modelled); `cmp` is a total preorder; the array is shorter than half the address space, so that child offsets do not wrap; element size 0, for which the source returns at once, is excluded.
- HeaderGc.HeaderTree.DeleteUnreferencedHeaders: directories, file contents and the include pattern are abstracted to a resolution map and an include relation; hard and symbolic links are not modelled, and sources lie outside the header directory.
- Cpumask.GetCpuMask: the repository declares the table and does not define it; its contents are taken from the comment that describes it.
- `field_multiplier` on a zero mask divides by zero in the source and is excluded.
- The remaining bitmap searches (`find_first_*`, `find_next_and_bit`, `find_last_bit`, clumps) and the `_from` loops are variants of those that are modelled.
- Rotations, sign extension and order functions of `bitops.h`: single bit-vector facts.
- `list_del_init_careful`, `list_empty_careful` and the traversal macros of `list.h`: memory ordering, or plain cursor loops.
- `hlist_add_fake` and `hlist_del` with poison values: variants of the operations that are modelled.
- Record-mode fifos, DMA and user-space copies, `__kfifo_free` and spinlocked wrappers: variants around the same counters and copies.
- Red-black trees (`lib/src/linux/rbtree.c`): not modelled.
- Device, interrupt, power management and device-tree code: declarations or calls into the host environment.
- The other scripts: file copying, classification and build retries.
