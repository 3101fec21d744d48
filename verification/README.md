# Abseil core models

A Dafny 4.11 project that models the hardest parts of an Abseil-derived C++
library and proves what they promise, for all inputs, all interleavings and all
programs. `dafny verify dfyconfig.toml` checks everything.

**CRC32C** (`Bits`, `Gf2`, `Crc`, `CrcTables`, `BitReverse`, `CrcEngine`,
`Crc32c`, `CrcTheorems`, `CrcCheckValue`). The reference is the textbook bit-serial definition
(`Crc.Feed`): one message bit at a time into a 32-bit register over GF(2).
Against it stands the engine as it is written: tables filled by doubling and
carry-over, four interleaved lanes over 16-byte strides, byte-wise carry-less
multiplication with table reduction, zero extension by base-16 digits, and its
inverse by running a reversed polynomial over reversed bits. Words are sequences
of bits, least significant first. The public functions come on top, with the mask
that they add and remove, and then what CRC32C is for: concatenation, prefix and
suffix removal, any tree of concatenations against any chain of extensions, and
detection of every 32-bit burst and every odd number of flipped bits. The check value
of a known string ties the definition to the standard.

**call_once** (`CallOnce`, `CallOnceSafety`, `CallOnceProgress`). Any number of
threads, step by step, under release/acquire memory: the control word is the
history of its stores, plain loads may return stale ones, and every store carries
the writes of the callable that it publishes. Proved over all runs: the callable
starts at most once, nobody returns before it has finished and its writes are
visible, nobody sleeps without a wake to come, and every call returns within a
bounded number of productive steps.

**c_sample** (`Sample`). The fallback loop, and a count of the draw sequences
that select each pattern of positions: exactly k! (N-k)! for every pattern, hence
exact uniformity.

**Key** (`Payloads`, `KeyHeap`, `Keys`, `KeyRuns`, `SharedRecord`). The tagged word
that is an inlined code or a pointer to a counted, copy-on-write record. Proved
over all programs: keys behave like plain, unshared values, counts are exact,
nothing dangles or leaks, equality of words decides equality of content, and the
first error wins. `SharedRecord` takes the counter of one record across threads
under release/acquire memory, with its non-atomic fast paths: whoever edits or
deletes the record is alone and comes after every access.

**InlinedVector** (`Cells`, `VectorAlgorithms`, `VectorStorage`, `InlinedVectors`,
`VectorRuns`). Cells of memory that are raw, hold an object or hold a moved-from
object; a size word whose low bit selects between inlined cells and a heap block;
and all mutators with their in-place and growing paths, for every combination of
element traits. Proved over all programs: vectors behave like plain sequences,
arguments inside the vector give their old values, every block has one owner and
is released exactly once, and every element is destroyed. Where the elements are
kept cannot be observed, except through a vector that was moved from.

**BadStatusOrAccess** (`BadAccess`). Over all programs on such objects, `what()`
returns the message of the current status, although assignment does not reset
the once-flag.

`Addresses` and `Variables` hold what the heap models share.

Stateful C++ classes are Dafny classes; the heap that they share is an object of
its own, with a ghost set of the live objects. Each method says what all live
objects show afterwards, so that a contract also says what did not change.

## Model

| member | source | states |
|---|---|---|
| CrcTables.PolyMultiply | absl/crc/internal/crc.cc:83-98 | the shift-and-add loop is multiplication modulo the polynomial |
| CrcTables.FillPowers | absl/crc/internal/crc.cc:104-125 | the power-of-two entries of a row, carried over from the previous row or from the given last entry, are the shifted single bits |
| CrcTables.FillSums | absl/crc/internal/crc.cc:126-133 | filling the remaining entries by sums of earlier ones gives the whole row |
| CrcTables.FillWordTable | absl/crc/internal/crc.cc:101-135 | row j maps each byte to that byte shifted by n + 8j bits |
| CrcTables.ZeroByteIncrement | absl/crc/internal/crc.cc:138-147 | three squarings starting from x give the power for one zero byte |
| CrcTables.FillDigit | absl/crc/internal/crc.cc:150-159 | the 15 entries of a base-16 digit position, and the increment for the next position |
| CrcTables.FillZeroesTable | absl/crc/internal/crc.cc:137-162 | every entry of the table is the power for its number of zero bytes, for all 64-bit lengths |
| BitReverse.ReverseBitsIsReverse | absl/crc/internal/crc.cc:75-80 | three masked exchanges and a byte swap reverse the word |
| Gf2.PowerAdd | absl/crc/internal/crc.cc:83-98 | powers multiply by adding exponents |
| Gf2.MulPower | absl/crc/internal/crc.cc:357-395 | multiplying by the n-th power is n single-bit steps |
| Crc.FeedAtOnce | absl/crc/internal/crc.cc:256-355 | feeding up to 32 bits one by one equals adding them all and shifting |
| Crc.FeedAffine | absl/crc/crc32c.cc:67-71 | the register after a message is the shifted old register plus the message's own contribution |
| Crc.AbsorbZeroBytes | absl/crc/internal/crc.cc:397-399 | absorbing n zero bytes is 8n single-bit steps |
| Crc.UnshiftShift | absl/crc/internal/crc.cc:401-407 | steps back undo steps forward, for any polynomial with a constant term |
| Crc.ShiftUnshift | absl/crc/internal/crc.cc:401-407 | steps forward undo steps back |
| Crc.UnshiftIsReversedShift | absl/crc/internal/crc.cc:181-254 | a step back is a step forward of the reversed register over the dual polynomial |
| CrcEngine.ByteProductIsClMul | absl/crc/internal/crc.cc:374-384 | the two-bits-at-a-time product of a byte is the carry-less product |
| CrcEngine.ReduceProduct | absl/crc/internal/crc.cc:379-389 | reducing the 64-bit product modulo the polynomial commutes with Horner's scheme |
| CrcEngine.Multiply | absl/crc/internal/crc.cc:374-390 | the four table-reduced byte rounds compute the product modulo the polynomial |
| CrcEngine.ExtendByZeroesImpl | absl/crc/internal/crc.cc:357-395 | the digit-driven loop equals 8 * length single-bit steps, in as many rounds as length has base-16 digits |
| CrcEngine.FourLookups | absl/crc/internal/crc.cc:287-296 | shifting a word splits into four independent byte shifts |
| CrcEngine.CombinedRotate | absl/crc/internal/crc.cc:321-331 | rotating the four lanes while one consumes a word keeps what the lanes stand for |
| CrcEngine.CRC32.InitTables | absl/crc/internal/crc.cc:181-254 | all four tables hold what they should, for every polynomial with a constant term |
| CrcEngine.CRC32.StepBytes | absl/crc/internal/crc.cc:261-264 | the byte loop keeps the checksum of the rest |
| CrcEngine.CRC32.StepStride | absl/crc/internal/crc.cc:298-305 | one 16-byte stride over four lanes keeps the checksum of the rest |
| CrcEngine.CRC32.LoadSwath | absl/crc/internal/crc.cc:280-285 | spreading the register over the lanes loses nothing |
| CrcEngine.CRC32.CombineSwath | absl/crc/internal/crc.cc:333-346 | folding the lanes gives the register they stand for |
| CrcEngine.CRC32.ExtendSwath | absl/crc/internal/crc.cc:278-347 | the lane section, prefetch horizon included, keeps the checksum of the rest |
| CrcEngine.CRC32.Extend | absl/crc/internal/crc.cc:256-355 | table-driven extension equals the bit-serial definition for all inputs, alignments and prefetch horizons |
| CrcEngine.CRC32.ExtendByZeroes | absl/crc/internal/crc.cc:397-399 | 8 * length single-bit steps, in logarithmically many rounds |
| CrcEngine.CRC32.UnextendByZeroes | absl/crc/internal/crc.cc:401-407 | 8 * length single-bit steps back, in logarithmically many rounds |
| Crc32c.NewEngine | absl/crc/crc32c.cc:28-31 | an engine for the CRC32C polynomial with all its tables right |
| Crc32c.ExtendCrc32cInline | absl/crc/internal/crc32c_inline.h:31-63 | the 1-2-4-8 byte instruction sequence equals the definition, and only hardware has it |
| Crc32c.ExtendCrc32cInternal | absl/crc/crc32c.cc:48-53 | masking around the engine gives the extended checksum |
| Crc32c.ExtendCrc32c | absl/crc/crc32c.h:101-113 | both paths give the checksum of the longer string |
| Crc32c.ComputeCrc32c | absl/crc/crc32c.cc:57-59 | extending from 0 is the checksum by definition |
| Crc32c.ExtendCrc32cByZeroes | absl/crc/crc32c.cc:61-65 | equals appending that many literal zero bytes, in logarithmically many rounds |
| Crc32c.UnextendCrc32cByZeroes | absl/crc/crc32c.cc:40-44 | the one value that extends to the given one |
| Crc32c.ConcatCrc32c | absl/crc/crc32c.cc:67-71 | the checksum of a concatenation from those of its parts, although the masks stay on |
| Crc32c.RemoveCrc32cPrefix | absl/crc/crc32c.cc:73-75 | the one suffix value that concatenates to the given one |
| Crc32c.RemoveCrc32cSuffix | absl/crc/crc32c.cc:90-96 | the one prefix value that concatenates to the given one |
| Crc32c.ExtendedChecksum | absl/crc/crc32c.h:90-101 | extending a checksum is the checksum of the concatenation |
| Crc32c.JoinedIsExtended | absl/crc/crc32c.cc:67-71 | joining by zero extension equals extending by the string, from any start value |
| Crc32c.RemovePrefixUndoesConcat | absl/crc/crc32c.cc:67-75 | prefix removal undoes concatenation for all 32-bit values and lengths |
| Crc32c.RemoveSuffixUndoesConcat | absl/crc/crc32c.cc:90-96 | suffix removal undoes concatenation for all 32-bit values and lengths |
| CrcTheorems.TreeMatchesChain | absl/crc/crc32c.cc:57-71 | every binary tree of concatenations over every chunking equals the chain of extensions and the checksum of the whole |
| CrcTheorems.ChainIsChecksum | absl/crc/crc32c.h:98-113 | a chain of extensions over any chunks is one checksum |
| CrcTheorems.UnextendTakesBack | absl/crc/crc32c.cc:40-44 | taking back some of the appended zeroes leaves the others |
| CrcTheorems.BurstsAreDetected | absl/crc/crc32c.cc:48-59 | strings that differ only within 32 consecutive bits, at any bit offset, have different checksums |
| CrcTheorems.FourByteWindow | absl/crc/crc32c.cc:48-59 | strings that differ only within four consecutive bytes have different checksums |
| CrcTheorems.OddErrorsAreDetected | absl/crc/crc32c.cc:48-59 | strings that differ in an odd number of bits have different checksums |
| CrcCheckValue.CastagnoliTerms | absl/crc/internal/crc.cc:73-73 | the polynomial has exactly the terms of the Castagnoli polynomial |
| CrcCheckValue.CheckValue | absl/crc/crc32c_test.cc:78-81 | the checksum of "hello world" is 0xc99465aa, calculated from the bit-serial definition; with it the polynomial, the masks and the bit order are fixed |
| CallOnce.PatternsDiffer | absl/base/call_once.h:139-147 | the four bit patterns are different 32-bit words, and a zero word is the initial state |
| CallOnce.Match | absl/base/internal/spinlock_wait.cc:46-47 | the first row of the transition table that applies, or none |
| CallOnceSafety.Step | absl/base/call_once.h:150-189 | every step of every thread keeps the protocol invariant |
| CallOnceSafety.AtMostOnceAndPublished | absl/base/call_once.h:166-220 | in every run the callable starts at most once, and every thread that has called and is outside again, by whatever path, is so after it finished and with all its writes in view, although the winning exchange is relaxed and loads may be stale |
| CallOnceSafety.NobodyLeavesEarly | absl/base/call_once.h:173-189 | in every run, the step that ends a call comes after the callable finished and with all its writes in view |
| CallOnceSafety.NoLostWakeup | absl/base/call_once.h:178-188 | a sleeper implies a Waiter mark or a pending wake, and then the final exchange cannot read Running |
| CallOnceProgress.SomebodyMoves | absl/base/call_once.h:166-189 | while a call is unreturned, some productive step is enabled |
| CallOnceProgress.Decreases | absl/base/call_once.h:166-189 | every productive step lowers one measure |
| CallOnceProgress.EveryCallReturns | absl/base/call_once.h:166-220 | productive steps are bounded by a closed formula; when none is left every call has returned, and if anybody called, the callable has run exactly once |
| Sample.CSample | absl/algorithm/container.h:853-865 | the loop stays within the range exactly if the count is not negative, and then emits exactly min(n, size) elements, those that the draws select, in source order |
| Sample.PatternAt | absl/algorithm/container.h:857-864 | a position is selected exactly if its draw is below the number of elements still wanted |
| Sample.TakenAt | absl/algorithm/container.h:857-864 | the sample keeps the source order |
| Sample.DrawsSize | absl/algorithm/container.h:858-859 | there are N! draw sequences |
| Sample.SelectingSize | absl/algorithm/container.h:857-864 | each pattern of k out of N positions is selected by exactly k! (N-k)! draw sequences |
| Sample.Uniform | absl/algorithm/container.h:853-865 | the number of draw sequences that select a pattern depends on N and k only |
| Payloads.FindPayloadIndexByUrl | absl/container/internal/key_internal.cc:90-99 | finds the entry that the payload map has for the type URL, or says that there is none |
| Payloads.SetMeaning | absl/container/internal/key_internal.cc:110-123 | setting a payload is a map update and keeps type URLs distinct |
| Payloads.EraseMeaning | absl/container/internal/key_internal.cc:125-129 | erasing a payload is a map removal and keeps type URLs distinct |
| Payloads.SamePayloads | absl/container/internal/key_internal.cc:192-220 | the one-sided nested loop, with its size shortcut, decides equality of payload maps |
| KeyHeap.CodeRoundTrip | absl/container/key.h:969-980 | every code, negative ones too, survives inlining, and is not mistaken for a pointer or a moved-from word |
| KeyHeap.MovedFromWord | absl/container/key.h:969-984 | the moved-from word is inlined, marked, reads as an internal error, and differs from every inlined code |
| KeyHeap.NoKeysNoRecords | absl/container/internal/key_internal.cc:80-88 | no record outlives the last key |
| KeyHeap.OkWord | absl/container/key.h:893-895 | comparing with the inlined OK word decides whether the status is OK |
| Keys.Heap.CloneAndUnref | absl/container/internal/key_internal.cc:223-240 | a record of one's own with the same content, and one reference less on the old one |
| Keys.Key.constructor | absl/container/key.cc:114-119 | the key shows the code and message, an OK code without message |
| Keys.Key.Copy | absl/container/key.h:811-811 | the copy shows what the original shows |
| Keys.Key.Move | absl/container/key.h:823-825 | the content changes hands and the source shows moved-from |
| Keys.Key.Assign | absl/container/key.h:813-821 | copies the content, from itself and from sharers too, and counts stay exact |
| Keys.Key.AssignMove | absl/container/key.h:827-835 | moves the content unless both hold the same word |
| Keys.Key.Destroy | absl/container/key.h:891-891 | the key goes and all others show what they did |
| Keys.Key.SwapWith | absl/container/key.h:932-935 | the contents change places |
| Keys.Key.IsOk | absl/container/key.h:893-895 | true exactly for the OK status |
| Keys.Key.Update | absl/container/key.h:879-883 | takes on the new status only if the old one is OK |
| Keys.Key.UpdateMove | absl/container/key.h:885-889 | the same by moving, and the argument stays intact unless adopted |
| Keys.Key.PrepareToModify | absl/container/key.cc:121-128 | a record that this key alone refers to, made from a word or a shared record, with the code, message and payloads that the key shows |
| Keys.Key.SetPayload | absl/container/key.h:943-948 | changes what this key shows and nothing that another key shows, however shared |
| Keys.Key.ErasePayload | absl/container/key.h:954-960 | removes the payload for this key only, reports whether it was there, and goes back to an inlined word when nothing else is left |
| Keys.Key.RawCode | absl/container/key.h:901-904 | the code that the key shows |
| Keys.Key.Message | absl/container/key.h:906-911 | the message that the key shows, or the moved-from text |
| Keys.Key.GetPayload | absl/container/key.h:937-941 | the payload that the key shows |
| Keys.Key.Equals | absl/container/key.h:913-918 | comparing words first decides equality of code, message and payload map |
| Keys.EqualityIsObservable | absl/container/key.h:901-918 | equality is what accessors can tell, but for one pair: a moved-from key and one that imitates it |
| Keys.PayloadLaws | absl/container/key.h:937-960 | editing payloads keeps the code and the message that can be read, and changes the payloads that can be read in one place |
| KeyRuns.FirstErrorIsFirst | absl/container/key.h:879-889 | the result of a fold of updates is the first status that is not OK, if there is one |
| KeyRuns.FirstErrorWins | absl/container/key.h:879-889 | any sequence of copying and moving updates, with repetition and self-updates, keeps the first error and changes no argument but the adopted one |
| KeyRuns.UpdateAll | absl/container/key.h:879-889 | the fold on real keys, however they share records, ends with the first error |
| KeyRuns.Run | absl/container/key.h:807-960 | every program on keys computes what it would on plain values, self-moves keep theirs; counts are exact throughout, and nothing is left when no key is |
| KeyRuns.MakeAndAsk | absl/container/key.cc:114-119 | a key made from a code and a message answers with them |
| KeyRuns.SetAndAsk | absl/container/key.h:943-948 | after a payload is set, a key answers with its old code and message and the payload, and a copy made before answers as if nothing had happened |
| KeyRuns.EraseAndAsk | absl/container/key.h:954-960 | after the payload is erased, the key answers as before, and erasing once more finds nothing |
| SharedRecord.ReadingOneIsExclusive | absl/container/internal/key_internal.cc:81-86 | a key whose acquire load reads count 1, stale or not, is the only key left and has every access to the record in the view it acquires |
| SharedRecord.StepKeeps | absl/container/internal/key_internal.h:152-152 | relaxed increments, loads and decrements of any thread keep the invariant |
| SharedRecord.DeletedExactlyOnce | absl/container/internal/key_internal.cc:80-88 | in every run the record is deleted exactly when the last key lets go, and once |
| SharedRecord.ClaimsAreExclusive | absl/container/internal/key_internal.cc:223-232 | in every run, the step that edits in place or deletes happens with no other key, and the view that the step itself obtains holds all accesses |
| SharedRecord.EveryKeyCanLetGo | absl/container/internal/key_internal.cc:80-88 | from every reachable state each key lets go in one step or two, the others staying as they are |
| SharedRecord.EverybodyLetsGo | absl/container/internal/key_internal.cc:80-88 | when all keys let go, with at most two steps each, the record ends deleted exactly once |
| Cells.ConstructElements | absl/container/internal/inlined_vector.h:131-143 | constructs the values in raw cells and nowhere else |
| Cells.DestroyElements | absl/container/internal/inlined_vector.h:90-98 | destroys the given objects, each once, and no others |
| VectorAlgorithms.OpenGap | absl/container/internal/inlined_vector.h:773-811 | the two overlapping moves open a gap without losing an element |
| VectorAlgorithms.InsertInPlace | absl/container/internal/inlined_vector.h:773-823 | assigning into the gap and constructing behind it makes a splice |
| VectorAlgorithms.InsertGrowing | absl/container/internal/inlined_vector.h:744-772 | the same splice in a new buffer, with nothing left in the old one |
| VectorAlgorithms.EmplaceInPlace | absl/container/internal/inlined_vector.h:828-838 | appends the argument itself, cell by cell: the given value, or the element at the given index, of which a move leaves a moved-from object |
| VectorAlgorithms.EmplaceGrowing | absl/container/internal/inlined_vector.h:845-875 | the same while the elements move to a new buffer |
| VectorAlgorithms.EraseRange | absl/container/internal/inlined_vector.h:878-913 | relocating and assigning erasure cut the same range and leave no object behind |
| VectorAlgorithms.CutSplice | absl/container/internal/inlined_vector.h:735-913 | erasing what was inserted gives back the old elements |
| VectorAlgorithms.AssignInPlace | absl/container/internal/inlined_vector.h:659-688 | the values are those that the adapter would have given before, though it may read the cells being assigned |
| VectorAlgorithms.AssignGrowing | absl/container/internal/inlined_vector.h:659-688 | the same into a new buffer |
| VectorAlgorithms.SwapN | absl/container/internal/inlined_vector.h:1035-1058 | swapping and the destroy-construct dance exchange the same objects |
| VectorAlgorithms.SwapInlined | absl/container/internal/inlined_vector.h:1061-1094 | inlined elements of different numbers change places under every policy |
| VectorStorage.Trade | absl/container/internal/inlined_vector.h:488-530 | vectors that exchange blocks keep single ownership and leave all other vectors alone |
| VectorStorage.AdoptOk | absl/container/inlined_vector.h:865-886 | a block changes its owner and none is lost |
| VectorStorage.NoVectorsNoBlocks | absl/container/internal/inlined_vector.h:346-362 | no block outlives the last vector |
| InlinedVectors.InlinedVector.constructor | absl/container/inlined_vector.h:123-123 | an empty vector |
| InlinedVectors.InlinedVector.Copy | absl/container/inlined_vector.h:182-200 | a vector with the same elements, by all three paths |
| InlinedVectors.InlinedVector.InitFrom | absl/container/internal/inlined_vector.h:580-613 | copies the elements, and keeps the storage mode of the source |
| InlinedVectors.InlinedVector.Move | absl/container/inlined_vector.h:216-252 | takes over the elements without an allocation or a release; the source is empty or keeps moved-from elements |
| InlinedVectors.InlinedVector.MoveAssign | absl/container/inlined_vector.h:546-552 | under every policy the old contents of the source, and self-assignment does nothing |
| InlinedVectors.InlinedVector.Adopt | absl/container/inlined_vector.h:856-871 | storage is taken over without touching an element, the own block is released |
| InlinedVectors.InlinedVector.DestroyExistingAndAdopt | absl/container/inlined_vector.h:877-886 | the same after destroying the own elements |
| InlinedVectors.InlinedVector.AssignMoved | absl/container/inlined_vector.h:888-900 | elementwise move assignment yields the source's old contents |
| InlinedVectors.InlinedVector.MoveConstruct | absl/container/inlined_vector.h:902-921 | elementwise move construction yields the source's old contents |
| InlinedVectors.InlinedVector.CopyAssign | absl/container/inlined_vector.h:532-539 | a copy of the contents, self-assignment included |
| InlinedVectors.InlinedVector.Assign | absl/container/internal/inlined_vector.h:649-688 | replaces the contents, by copies of an own element too |
| InlinedVectors.InlinedVector.AssignEach | absl/container/inlined_vector.h:584-592 | the single-pass loop is replacement |
| InlinedVectors.InlinedVector.EmplaceBack | absl/container/internal/inlined_vector.h:828-875 | the new last element is the given value or the old value of the given own element; all others stay, except that an element moved from is left without its value |
| InlinedVectors.InlinedVector.PopBack | absl/container/inlined_vector.h:761-766 | removes the last element |
| InlinedVectors.InlinedVector.Insert | absl/container/internal/inlined_vector.h:735-824 | a splice in either path; a new block, at least twice as large, exactly if the old one is too small |
| InlinedVectors.InlinedVector.InsertCopies | absl/container/inlined_vector.h:634-658 | a splice of copies of the old value, also of an own element |
| InlinedVectors.InlinedVector.InsertRange | absl/container/inlined_vector.h:675-687 | a splice, an empty range included |
| InlinedVectors.InlinedVector.InsertEach | absl/container/inlined_vector.h:696-707 | the single-pass loop is one splice |
| InlinedVectors.InlinedVector.Emplace | absl/container/inlined_vector.h:714-736 | the same at any position, with the elements behind it one place further |
| InlinedVectors.InlinedVector.Erase | absl/container/inlined_vector.h:799-810 | cuts the range, an empty one included |
| InlinedVectors.InlinedVector.Clear | absl/container/inlined_vector.h:816-822 | no elements and no block |
| InlinedVectors.InlinedVector.Destroy | absl/container/internal/inlined_vector.h:346-362 | the vector goes, destroying exactly its elements unless that means nothing, and releasing exactly the block it owned |
| InlinedVectors.InlinedVector.Resize | absl/container/internal/inlined_vector.h:692-731 | truncates, or pads with the old value of the argument, also of an own element |
| InlinedVectors.InlinedVector.Reserve | absl/container/internal/inlined_vector.h:916-939 | the same elements, and a new block, at least twice as large, exactly if the old one is too small |
| InlinedVectors.InlinedVector.ShrinkToFit | absl/container/internal/inlined_vector.h:942-988 | the same elements in the smallest place: inlined exactly if they fit |
| InlinedVectors.InlinedVector.Swap | absl/container/internal/inlined_vector.h:991-1032 | the contents change places in every mix of storage modes, without an allocation |
| VectorRuns.Run | absl/container/inlined_vector.h:123-921 | every program on vectors computes what it would on plain sequences, for all inlined capacities and element traits; each block has one owner; once no vector is left, all blocks are released and as many elements were destroyed as constructed |
| VectorRuns.ModeIsInvisible | absl/container/inlined_vector.h:123-921 | runs of the same program with different inlined capacities and traits show the same after every statement, in every variable that does not hold what a move left behind or something made of it |
| VectorRuns.MarksAreFew | absl/container/inlined_vector.h:216-252 | only the source of a move comes to hold something that may differ; copies, moves and swaps pass that on |
| VectorRuns.OnlyMovesTell | absl/container/inlined_vector.h:123-850 | programs without moves show the same in every variable |
| VectorRuns.MovesTell | absl/container/inlined_vector.h:216-252 | the counterexample: after one move of an inlined element the source is empty for one kind of element and holds a moved-from one for another |
| BadAccess.BadStatusOrAccess.Assign | absl/container/keyor.cc:36-44 | status and message are those of the source, which has computed its message; the own once-flag stays |
| BadAccess.BadStatusOrAccess.AssignMove | absl/container/keyor.cc:46-53 | the same by moving, and what a self-move leaves |
| BadAccess.BadStatusOrAccess.What | absl/container/keyor.cc:58-69 | the prefix and the text of the current status, exactly if the cache was consistent before |
| BadAccess.MessageTells | absl/container/keyor.cc:65-69 | equal messages mean equal statuses |
| BadAccess.CacheAgrees | absl/container/keyor.cc:30-69 | over every program on values, an object that was not moved from has or would compute the message of its current status |
| BadAccess.Run | absl/container/keyor.cc:30-69 | every program on real objects keeps step with the values; copies, moves and assignments pass on the status; and each call of what() on an object that was not moved from returns the message of its current status |

## Left out

- The CRC hardware instructions and the compiler intrinsics: they are their definition (`Crc32c.Instruction`); `MemcpyCrc32c`, `Crc32CAndCopy`, scrambling and the Cord checksum state are not modelled.
- Crc32c.NewEngine: the source keeps one engine for the whole process; the model makes an equal one for each call.
- CrcEngine.CRC32.Extend: the buffer is a sequence with a start address; prefetching has no effect in the model, and reads beyond the sequence are excluded by its bounds.
- The call_once scheduling hooks, the debug-only log of an unexpected control word, and the delays between spins: a delay may sleep, be refused or be skipped, and spurious wake-ups are allowed but not counted as progress.
- CallOnceSafety.NoLostWakeup: the futex compares with the newest store, as the kernel's own check does.
- A throwing or re-entrant callable in `call_once`, and exceptions generally: assumed not to occur.
- Sample.CSample: the generator is a parameter, one draw in the right range per position.
- The `status_value` fields of `Key`, `ToString`, `ForEachPayload`, code names, errno mapping and the mapping of unknown codes: plain fields and tables.
- Overflow of the 32-bit reference count, allocation failure, and the difference between no payload list and an empty one.
- KeyRuns.Run: sequential programs; the counter across threads is `SharedRecord`, one record at a time.
- SharedRecord.ClaimsAreExclusive: synchronisation between uses of one and the same key is taken from the thread-compatibility of `Key`, which the source asks of its callers.
- Element values in vectors are abstract; a moved-from object has no value, and bytewise relocation is a transfer of the cell. Custom allocators and overflow of the size word are not modelled. Temporaries outside the cells are not counted as elements, except in the exchange of inlined elements.
- InlinedVectors.InlinedVector.AssignMoved: the elements of the other vector leave it before this one changes, not in alternation; the two vectors are different objects, so neither reads what the other writes.
- Ranges to insert or assign that lie inside the same vector: the source does not allow them, except for the single-value forms, which are modelled.
- `Initialize` and the constructors from counts and ranges, iterators, comparison, hashing: easy beside the rest.
- BadAccess.Run: the text of a status is abstract, and what moves leave behind is arbitrary.
- `keyor.h`, the B-tree and Swiss-table headers, fixed arrays, cleanup, singletons, debugging, scripts.
