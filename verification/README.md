# Verified cores of yuzu's common, audio and support code

Dafny models of the parts of the emulator's support code in which an efficient structure has to agree with a
simple one, or a protocol has to be right on every run, with proofs of what they are for. `dafny verify
dfyconfig.toml` checks everything.

- **Option permuter** (`GetoptRotation`, `GetoptParse`, `GetoptRun`, `Getopt`, `GetoptRoundTrip`): the `char`
  version of `getopt`, with the `W;` branch. `Scan` reads argv once from left to right without touching it; the
  calls that rotate argv in place and keep three indices refine it. `GetoptData` is the code on its fields and
  on the array.
- **Ring buffer** (`RingIndex`, `RingBuffer`, `RingBufferConcurrent`, `RingProgress`): the class as one thread sees it,
  and a state machine of every single load, copy and store of one producer and one consumer, with indices modulo
  2^64.
- **Linked queue** (`ThreadsafeQueue`, `QueueProgress`): single producer, single consumer, over an explicit heap of
  addresses with allocation and deletion. The locked writer side of the multi-producer queue is one producer.
- **Barrier** (`Barrier`): any number of threads, spurious wake-ups, a generation that wraps.
- **Scheduler queues** (`Bits`, `MultiLevelQueue`, `ThreadQueueList`): a bitmap over levels and a chain threaded
  through an array, against plain sequences of sequences. Words are natural numbers with their bits.
- **Parameter packages** (`StringUtil`, `ParamPackage`): escaping, splitting and the round trip.
- **Audio** (`AudioStream`, `VoiceMixing`, `VoiceFits`, `VoiceRuns`, `VoiceStarts`, `Voices`, `Adpcm`, `CubebSink`,
  `SinkThreads`): buffer life cycle, circulating tags, the voices over their whole lives and their mixing, the
  decoder, and the channels' way through the ring to the device.
- **Profiler** (`MicroProfile`): the circular log and its accounting.
- **Wide arithmetic** (`Uint128`) and **chunked bodies** (`ChunkedReader`, `ChunkedBody`).

`Arithmetic`, `Sequences` and `Wrappers` hold what is shared. A state machine's `Reaches(actions, s)` says that a run
with those actions leads to `s`; the lemmas named `Every...` are about all of them. Lemmas named `...Exactly`
give the condition under which the code meets a property, in both directions; where the property fails, the
failing input is in a lemma beside it.

Some properties one would expect do not hold of the code, and the model follows the code:

- A `W;` entry makes runs that never end, or that move optind past argc (`StuckOnW`, `OverrunOnW`).
- `--` on a multi-level iterator goes to the lowest-numbered used level below, not to the nearest
  (`PrevUndoesNextExactly`); `++` at priority 63 shifts by 64, which is modelled as no result (`Walk`).
- `pop_first_better` follows the chain into null when no level from the bound on is linked.
- Parameter packages lose entries with an empty value (`RoundTrip`), though `key::` is read as one (`PairTaken`).
- A wave buffer that ends inside a mix after an odd number of samples, looping or not, makes the mix run over its
  buffer when enough samples follow (`OverrunsExactly`, `StaysInsideExactly`, `OddBufferOverruns`); a voice that is
  started anew in the middle of a buffer keeps the old offset (`NewWaveIndexExactly`, `EveryLifeExactly`).
- The profiler's walk overruns its stacks when 32 scopes are open (`WalkFitsExactly`, `OpenScopesOverrun`); its 8-bit
  group counters wrap when enough scopes of the group were left in another one (`CountersReturnExactly`,
  `CounterIsLost`); scopes of 2^47 ticks or more come out short (`WalkIsTrueExactly`).
- Large coefficients overflow the decoder's 32-bit sums (`AlwaysExactExactly`).
- `ReplaceAll` never ends on an empty pattern with another replacement (`ReplaceEndsExactly`).
- A chunked body whose transport closes between CR and LF after a chunk's data is accepted without that chunk
  (`TruncationAcceptedExactly`), a chunk of 2^31 bytes or more throws (`BodyReadsBackExactly`), and a negative size
  or data that is not followed by CRLF ends the body without an error (`NegativeSizeEnds`, `BadTerminatorEnds`).
- Half a frame given to a stereo sink, mono samples for instance, shifts its channels, and the next callback can run over
  the output (`MonoIsHalfAFrame`, `EnqueueSamples`, `DataCallback`, `HalfFrameOverruns`).

## Model

| member | source | states |
|---|---|---|
| `GetoptRotation.SwapBlocks` | externals/getopt/getopt.c:84-101 | the element loop exchanges two disjoint blocks of equal length and touches nothing else |
| `GetoptRotation.RotateAfterLeftSwap` | externals/getopt/getopt.c:80-91 | after the shorter left block is swapped with the end of the right one, rotating what is left finishes the rotation |
| `GetoptRotation.RotateAfterRightSwap` | externals/getopt/getopt.c:92-103 | the same for a right block that is not longer |
| `GetoptRotation.ExchangePass` | externals/getopt/getopt.c:78-104 | one pass shrinks top - bottom and leaves the remaining rotation equal to the original one |
| `GetoptRotation.Exchange` | externals/getopt/getopt.c:72-107 | `exchange` is an exact rotation: the block [last, optind) moves in front of [first, last) and nothing else changes |
| `GetoptParse.LongMatch` | externals/getopt/getopt.c:203-225 | the long-option search: not found iff no option has the name as prefix, an exact name always wins |
| `GetoptParse.AmbiguousExactly` | externals/getopt/getopt.c:203-238 | ambiguous iff the name is no option's whole name and begins two options that differ for the caller; otherwise the first candidate, or the first exact one, is found |
| `GetoptParse.FindLongOption` | externals/getopt/getopt.c:203-225 | the loop over the long options computes that match, with the early exit on an exact name |
| `GetoptParse.WProgresses` | externals/getopt/getopt.c:331-437 | a `-W` element is consumed with at most the arguments there are, if the table is safe |
| `GetoptParse.ShortProgresses` | externals/getopt/getopt.c:317-476 | a short option either shortens the unread text or moves past its element |
| `GetoptParse.OptionProgresses` | externals/getopt/getopt.c:187-476 | every kind of option makes progress and stays inside argv |
| `GetoptRun.ConsumeKeepsTarget` | externals/getopt/getopt.c:317-476 | consuming an element as an option leaves the final arrangement unchanged |
| `GetoptRun.RotateKeepsTarget` | externals/getopt/getopt.c:154-157 | the exchange in the middle of a run leaves the final arrangement unchanged |
| `GetoptRun.SkipKeepsTarget` | externals/getopt/getopt.c:158-160 | skipping operands leaves the final arrangement unchanged |
| `GetoptRun.ScanSkipsOperands` | externals/getopt/getopt.c:158-159 | the reference reading skips leading operands without a report |
| `GetoptRun.SettleFollows` | externals/getopt/getopt.c:148-161 | clamping, exchange and skipping before an element keep the invariant, the reports to come and the final arrangement |
| `GetoptRun.DashesFollow` | externals/getopt/getopt.c:162-171 | at `--` the run ends with exactly the final arrangement: everything after it is an operand |
| `GetoptRun.EndFollows` | externals/getopt/getopt.c:162-177 | when a call returns -1, argv and optind are the final arrangement |
| `GetoptRun.ReadFollows` | externals/getopt/getopt.c:185-476 | reading one option produces the next report of the reference reading |
| `GetoptRun.OperandFollows` | externals/getopt/getopt.c:178-184 | in return-in-order mode an operand is reported as option 1 with itself as argument |
| `GetoptRun.CallFollows` | externals/getopt/getopt.c:129-477 | one whole call refines the reference reading: next report, or the end |
| `GetoptRun.ReportIsStored` | externals/getopt/getopt.c:129-477 | what a call reports is what it leaves in optarg and optopt; a call that returns -1 leaves no optarg and the old optopt |
| `GetoptRun.RunFollows` | externals/getopt/getopt.c:129-477 | all calls until -1, from any state in the middle of a run |
| `GetoptRun.RunIsStablePartition` | externals/getopt/getopt.c:129-477 | from a fresh state, for every argv and every option table without a misbehaving `W;`: the calls end, report what one left-to-right reading of argv gives, and leave argv as a stable partition with optind between the parts |
| `GetoptRun.InOrderUsesPrefix` | externals/getopt/getopt.c:152-184 | without permutation the consumed elements are a prefix of argv |
| `GetoptRun.RunInOrderKeepsArgv` | externals/getopt/getopt.c:129-477 | hence a run without permutation leaves argv as it was |
| `GetoptRun.StuckOnW` | externals/getopt/getopt.c:331-340 | `W;` without long options: a run that never ends, for every number of calls |
| `GetoptRun.LoneW` | externals/getopt/getopt.c:331-341 | `-W` alone without long options is reported once, and used up |
| `GetoptRun.OverrunOnW` | externals/getopt/getopt.c:342-390 | with `W;` and an ambiguous name, `-W name` is reported as `?` with the name, and at the end moves optind past argc |
| `GetoptRun.EveryRunEndsExactly` | externals/getopt/getopt.c:129-477 | every run from every fresh state over every argv ends if and only if the table has no `W;`, or has long options and no beginning of an option's name, the empty one included, is ambiguous |
| `GetoptParse.SafeTableExactly` | externals/getopt/getopt.c:362-390 | when no option is named with the empty string, that table is safe exactly when no two of its options differ in argument, flag or value, and under long-only parsing when it has at most one |
| `Getopt.GetoptData.constructor` | externals/getopt/getopt.c:51-69 | a new parser is in the fresh state |
| `Getopt.GetoptData.ExchangeOperands` | externals/getopt/getopt.c:72-107 | the rotation and the new bounds of the skipped operands |
| `Getopt.GetoptData.Initialize` | externals/getopt/getopt.c:108-141 | the state a run starts from: ordering by the flag characters and POSIXLY_CORRECT |
| `Getopt.GetoptData.SkipOperands` | externals/getopt/getopt.c:158-159 | optind moves to the next element that is not an operand |
| `Getopt.GetoptData.Settle` | externals/getopt/getopt.c:148-161 | clamped bounds, exchange and skip, in place |
| `Getopt.GetoptData.SeekElement` | externals/getopt/getopt.c:162-184 | stop at the end, at `--` or at an operand, or an element to read |
| `Getopt.GetoptData.TakeLongArgument` | externals/getopt/getopt.c:247-296 | the argument of a long option: attached, next element, missing, or not allowed |
| `Getopt.GetoptData.ReadLong` | externals/getopt/getopt.c:189-315 | the long-option branch, or falling through to a short option under long-only |
| `Getopt.GetoptData.ReadW` | externals/getopt/getopt.c:331-361 | the `W;` branch up to its name |
| `Getopt.GetoptData.ReadWName` | externals/getopt/getopt.c:362-436 | the `W;` branch from its name |
| `Getopt.GetoptData.ReadShort` | externals/getopt/getopt.c:317-476 | the short-option branch with all three kinds of arguments |
| `Getopt.GetoptData.ReadElement` | externals/getopt/getopt.c:185-476 | long or short, as the element and the table decide |
| `Getopt.GetoptData.Internal` | externals/getopt/getopt.c:129-477 | the whole call on the object and the array is the call the run theorems speak of |
| `Getopt.GetoptData.ParseAll` | externals/getopt/getopt.c:129-477 | calling until -1 reports the reference reading and leaves the stable partition in the array, with optind at the first operand |
| `GetoptRoundTrip.ScanGroup` | externals/getopt/getopt.c:317-476 | a group of flags and unknown options with a last option, with its argument attached, apart, or not at all, is read as its parts; under long-only parsing too as long as no option in it begins a long name |
| `GetoptRoundTrip.ShortTailParsed` | externals/getopt/getopt.c:438-475 | an option takes the attached argument; an optional argument that is not attached is none, whatever follows; a required one is the next element, or is reported missing with `:` or `?` at the end of argv |
| `GetoptRoundTrip.NamedTailParsed` | externals/getopt/getopt.c:331-437 | a long option behind `W`, attached or apart, with a value, an argument, a refused value, a missing argument or an unknown name, is reported as such and uses up exactly its elements |
| `GetoptRoundTrip.LongParsed` | externals/getopt/getopt.c:189-315 | a long option spelled with two dashes, or with one under long-only parsing, is read as that option with its value or argument; an unknown or ambiguous name, a refused value and a missing argument are reported as such |
| `GetoptRoundTrip.ScanItem` | externals/getopt/getopt.c:187-476 | every well-formed item, mistakes included, rendered, is read as its own events, and uses up its own elements only |
| `GetoptRoundTrip.ScanRendered` | externals/getopt/getopt.c:129-477 | a rendered command line is read as its items in all three modes, and its operands are left alone or returned in order |
| `GetoptRoundTrip.RunReadsBack` | externals/getopt/getopt.c:129-477 | rendering any items and running the parser gives back the items' events; then come all elements used, and from optind on the operands in order; with `--`, at an operand where options must come first, or at the end of argv |
| `GetoptRoundTrip.FlagCharacters` | externals/getopt/getopt.c:108-142 | `-` in front returns operands in order, `+` or POSIXLY_CORRECT stops at the first, otherwise they are permuted; the character is not an option |
| `RingIndex.WrapSafeExactly` | src/common/ring_buffer.h:30-31 | slots survive the wrap of an index for all values iff the capacity divides 2^64 |
| `RingIndex.SlotIsModulo` | src/common/ring_buffer.h:45-54 | the two-part copy reaches slot (total + k) mod capacity for the k-th element, across both wraps |
| `RingBuffer.TwoPartCopy` | src/common/ring_buffer.h:45-52 | the two ranges written are exactly the slots of consecutive totals |
| `RingBuffer.RingBuffer.constructor` | src/common/ring_buffer.h:24-34 | a new ring is empty |
| `RingBuffer.RingBuffer.CopyAround` | src/common/ring_buffer.h:45-52 | the two memcpy calls of a push |
| `RingBuffer.RingBuffer.Push` | src/common/ring_buffer.h:40-57 | as many slots as fit are appended to the contents, and their number is returned |
| `RingBuffer.RingBuffer.CopyOutAround` | src/common/ring_buffer.h:72-79 | the two memcpy calls of a pop |
| `RingBuffer.RingBuffer.Pop` | src/common/ring_buffer.h:67-84 | the oldest slots, at most as many as asked for, are returned and removed |
| `RingBuffer.RingBuffer.PopVector` | src/common/ring_buffer.h:86-91 | the same for the vector form, whose limit is capped by the capacity |
| `RingBuffer.RingBuffer.Size` | src/common/ring_buffer.h:94-96 | the number of slots in the ring |
| `RingBufferConcurrent.CopyInSlot` | src/common/ring_buffer.h:45-52 | a slot the producer writes is none of those that hold unread elements |
| `RingBufferConcurrent.StepKeeps` | src/common/ring_buffer.h:40-84 | every single load, copy and store of either thread keeps the invariant and stays in bounds |
| `RingBufferConcurrent.EveryInterleavingIsFifo` | src/common/ring_buffer.h:40-84 | after every interleaving: popped ++ ring == pushed, and the index difference is the fill level |
| `RingBufferConcurrent.EveryInterleavingIsRaceFree` | src/common/ring_buffer.h:45-79 | producer and consumer never touch the same slot at the same time |
| `RingBufferConcurrent.EveryTransferIsMaximal` | src/common/ring_buffer.h:42-71 | each call transfers as much as the moment of its decisive load allows |
| `RingProgress.EveryPushAppends` | src/common/ring_buffer.h:40-57 | from every reachable state without a push under way, whatever the consumer does in between: when a push is through, the first of its slots are appended in order, at least as many as there was room for when it began |
| `RingProgress.EveryPopTakesOldest` | src/common/ring_buffer.h:67-84 | likewise a pop has returned the oldest slots, at most as many as asked for and at least as many of these as there were |
| `RingProgress.PushCanFinish` | src/common/ring_buffer.h:40-57 | the producer alone can always begin a push and finish it |
| `RingProgress.PopCanFinish` | src/common/ring_buffer.h:67-84 | the consumer alone can always begin a pop and finish it |
| `ThreadsafeQueue.ChainIsBounded` | src/common/threadsafe_queue.h:138-142 | a chain of distinct non-null 64-bit addresses is shorter than 2^64, so the size counter cannot wrap |
| `ThreadsafeQueue.InvSafe` | src/common/threadsafe_queue.h:41-77 | under the invariant no step dereferences null or a freed node, and size does not underflow |
| `ThreadsafeQueue.DeleteOne` | src/common/threadsafe_queue.h:71-75 | a pop frees exactly the old head and yields the next value in order |
| `ThreadsafeQueue.StepKeeps` | src/common/threadsafe_queue.h:41-77 | every step of the pusher or the popper is safe and keeps the invariant |
| `ThreadsafeQueue.EveryInterleavingIsSafe` | src/common/threadsafe_queue.h:41-77 | no interleaving touches a freed or null node or decrements a zero size |
| `ThreadsafeQueue.EveryInterleavingIsFifo` | src/common/threadsafe_queue.h:41-77 | popped ++ pending == linked, and pending = size + linked-not-counted + counted-not-unlinked |
| `ThreadsafeQueue.EveryInterleavingFreesNodes` | src/common/threadsafe_queue.h:41-77 | between calls exactly the nodes of the chain are allocated: no leak |
| `QueueProgress.LookDecides` | src/common/threadsafe_queue.h:65-67 | a pop goes on iff it looks at a positive size; otherwise it changes nothing |
| `QueueProgress.EveryPopTakesOldest` | src/common/threadsafe_queue.h:65-77 | from every reachable state with a positive size, whatever the pusher does in between: after its seven steps the popper has taken exactly the oldest value, and size is one less |
| `QueueProgress.PopCanFinish` | src/common/threadsafe_queue.h:65-77 | the popper is never held up: from wherever it stands it can finish by its own steps |
| `QueueProgress.EveryPushAppends` | src/common/threadsafe_queue.h:41-52 | from every reachable state without a push under way, whatever the popper does in between: after its six steps the value is the newest in the queue, and size is one more |
| `QueueProgress.PushCanFinish` | src/common/threadsafe_queue.h:41-52 | nor is the pusher, as long as an address is free |
| `QueueProgress.PushThenPop` | src/common/threadsafe_queue.h:41-77 | a push and then a pop append the value, return the oldest and leave size as it was |
| `QueueProgress.EveryQuietSizeIsExact` | src/common/threadsafe_queue.h:41-77 | when neither thread is at work size is the number of values pushed and not yet popped |
| `Barrier.LastEnterKeeps` | src/common/thread.h:62-65 | the last thread to enter starts a new generation and keeps the invariant |
| `Barrier.StepKeeps` | src/common/thread.h:58-70 | every step, spurious wake-ups included, keeps the invariant |
| `Barrier.EveryRunSynchronizes` | src/common/thread.h:53-78 | no thread leaves its k-th Sync before all have entered theirs, completed counts differ by at most one, and some thread can always proceed, past the wrap of the generation too |
| `Barrier.PutToSleep` | src/common/thread.h:66-69 | with another number of threads there is a run after which all that entered sleep |
| `Barrier.WorksExactly` | src/common/thread.h:53-78 | the barrier synchronizes and never blocks everyone if and only if the number of threads is `count` |
| `MultiLevelQueue.HighestPrioritySet` | src/common/multi_level_queue.h:253-257 | the first non-empty level from a bound on, or the depth |
| `MultiLevelQueue.WithoutFirst` | src/common/multi_level_queue.h:174-182 | removing takes the first occurrence; what stands before and after it stays in order |
| `MultiLevelQueue.ShiftedParts` | src/common/multi_level_queue.h:310-318 | a shift exchanges the two parts of the list |
| `MultiLevelQueue.LowestPrioritySet` | src/common/multi_level_queue.h:259-264 | the last non-empty level up to a bound, or the depth |
| `MultiLevelQueue.BeginAhead` | src/common/multi_level_queue.h:266-272 | begin(a) has exactly levels a to b ahead of it |
| `MultiLevelQueue.ComparedExactly` | src/common/multi_level_queue.h:46-50 | iterators are equal iff both are at the end or both on the same element |
| `MultiLevelQueue.NextAhead` | src/common/multi_level_queue.h:64-82 | each ++ takes exactly one element off what is ahead |
| `MultiLevelQueue.Walk` | src/common/multi_level_queue.h:64-82 | walking begin(a) to end(b) with ++ visits levels a..b in order, each element once; it fails (shift by 64) iff b is 63 and that level is not empty |
| `MultiLevelQueue.PrevAcross` | src/common/multi_level_queue.h:91-98 | the backward step into another level reaches level p iff all lower-numbered ones are empty |
| `MultiLevelQueue.PrevUndoesNextExactly` | src/common/multi_level_queue.h:84-103 | -- undoes ++ iff the step stayed in its level, reached the end, or no lower-numbered level is used |
| `MultiLevelQueue.Size` | src/common/multi_level_queue.h:234-243 | the bit loop returns the number of elements |
| `MultiLevelQueue.MultiLevelQueue.constructor` | src/common/multi_level_queue.h:333-334 | a new queue is empty |
| `MultiLevelQueue.MultiLevelQueue.Add` | src/common/multi_level_queue.h:166-172 | one element at one end of one level; bit p set iff level p is non-empty is kept |
| `MultiLevelQueue.MultiLevelQueue.Remove` | src/common/multi_level_queue.h:174-182 | the first occurrence goes, or nothing; the bitmap invariant is kept |
| `MultiLevelQueue.MultiLevelQueue.Adjust` | src/common/multi_level_queue.h:184-187 | remove from one priority and add to the other, equal ones included |
| `MultiLevelQueue.MultiLevelQueue.Transfer` | src/common/multi_level_queue.h:192-216 | the element moves to an end of the same level of the other queue, which may be the same queue; both bitmaps stay exact |
| `MultiLevelQueue.MultiLevelQueue.Yield` | src/common/multi_level_queue.h:222-224 | the level is rotated |
| `ThreadQueueList.ChainIsLinkedLevels` | src/common/thread_queue_list.h:144-169 | following the links visits exactly the linked levels in increasing order and ends |
| `ThreadQueueList.Relink` | src/common/thread_queue_list.h:159-165 | splicing a level after its nearest linked predecessor keeps the chain sorted and complete |
| `ThreadQueueList.RelinkFirst` | src/common/thread_queue_list.h:167-168 | so does making it the first |
| `ThreadQueueList.SearchStep` | src/common/thread_queue_list.h:40-46 | one step along the chain skips no candidate |
| `ThreadQueueList.SearchIsBestExactly` | src/common/thread_queue_list.h:67-79 | the search finds the best non-empty level iff that level is linked, hence always when levels are prepared before use |
| `ThreadQueueList.ThreadQueueList.constructor` | src/common/thread_queue_list.h:23-25 | no level is linked and all are empty |
| `ThreadQueueList.ThreadQueueList.LinkLevel` | src/common/thread_queue_list.h:156-169 | the level joins the chain, nothing else changes |
| `ThreadQueueList.ThreadQueueList.Prepare` | src/common/thread_queue_list.h:137-141 | the level is linked afterwards |
| `ThreadQueueList.ThreadQueueList.PushBack` | src/common/thread_queue_list.h:101-104 | appends to the level and keeps the chain |
| `ThreadQueueList.ThreadQueueList.PushFront` | src/common/thread_queue_list.h:96-99 | prepends to the level and keeps the chain |
| `ThreadQueueList.ThreadQueueList.Remove` | src/common/thread_queue_list.h:112-116 | all occurrences go, the order of the others stays |
| `ThreadQueueList.RemoveAll` | src/common/thread_queue_list.h:114-115 | the loop of std::remove and the erase after it leave what remains |
| `ThreadQueueList.RemainingInOrder` | src/common/thread_queue_list.h:112-116 | what remains around a removed id is what remains before it and then what remains after it; without the id nothing changes |
| `ThreadQueueList.RemainingElements` | src/common/thread_queue_list.h:112-116 | what remains are the elements with their counts, without the id |
| `ThreadQueueList.ThreadQueueList.Move` | src/common/thread_queue_list.h:106-110 | from one level to the back of the other, which is linked then |
| `ThreadQueueList.ThreadQueueList.Rotate` | src/common/thread_queue_list.h:118-125 | the head goes to the back |
| `ThreadQueueList.ThreadQueueList.GetFirst` | src/common/thread_queue_list.h:39-49 | the head of the first linked non-empty level, if there is one |
| `ThreadQueueList.ThreadQueueList.PopFirst` | src/common/thread_queue_list.h:67-79 | the same, removed |
| `ThreadQueueList.ThreadQueueList.PopFirstBetter` | src/common/thread_queue_list.h:81-94 | the best element strictly better than the bound; the walk reaches null iff none is better and no level from the bound on is linked |
| `StringUtil.ReplaceStep` | src/common/string_util.cpp:134-137 | one replacement in place keeps the single-pass result |
| `StringUtil.ReplaceEndsExactly` | src/common/string_util.cpp:128-140 | the loop ends, on every string, if and only if the pattern is not empty or equals its replacement, and then every occurrence has been replaced once |
| `StringUtil.ReplaceAll` | src/common/string_util.cpp:128-140 | on the inputs on which it ends, the in-place loop is a left-to-right single-pass replacement |
| `StringUtil.GetLine` | src/common/string_util.cpp:111-113 | each call takes off the next field |
| `StringUtil.SplitString` | src/common/string_util.cpp:107-116 | the fields between delimiters, without a trailing empty one |
| `StringUtil.FieldsExactly` | src/common/string_util.cpp:107-116 | the fields hold no delimiter and, each with a delimiter behind it, put together are the text, with a delimiter added if it does not end with one |
| `ParamPackage.EscapePassesAreOne` | src/common/param_package.cpp:64-66 | the three sequential escape passes are one character-wise escape |
| `ParamPackage.UnescapeEscape` | src/common/param_package.cpp:44-46 | the three sequential unescape passes undo the three escape passes on every string |
| `ParamPackage.PairReadsBack` | src/common/param_package.cpp:35-50 | a serialized pair is read back, unless its value is empty: then it is dropped |
| `ParamPackage.PairTaken` | src/common/param_package.cpp:36-49 | from any text: a key and a value that is not empty, or is closed by another separator, are put in |
| `ParamPackage.PairSkipped` | src/common/param_package.cpp:38-41 | a pair without separator, with nothing behind its only one, or with something behind the second is skipped |
| `ParamPackage.DeserializedAppends` | src/common/param_package.cpp:27-51 | one more pair behind a separator is put in last, over an earlier one with its key |
| `ParamPackage.EscapeSigns` | src/common/param_package.cpp:15-21 | the escapes are $0, $1 and $2 for the key-value separator, the parameter separator and the escape character |
| `ParamPackage.PairsSplit` | src/common/param_package.cpp:32-37 | splitting the serialized text recovers the pairs, whatever the strings contain |
| `ParamPackage.NotPlaceholder` | src/common/param_package.cpp:28-30 | no serialized non-empty map is mistaken for the placeholder of the empty one |
| `ParamPackage.RoundTrip` | src/common/param_package.cpp:27-73 | for every map and iteration order, deserializing the serialized text gives the entries with non-empty values |
| `ParamPackage.RoundTripExactly` | src/common/param_package.cpp:27-73 | the round trip is the identity iff no value is empty |
| `ParamPackage.ParamPackage.constructor` | src/common/param_package.cpp:27-51 | the deserializing loop computes that map |
| `ParamPackage.ParamPackage.Set` | src/common/param_package.cpp:115-117 | the entry is read back from every serialization of the package, unless its value is empty: then it is lost |
| `ParamPackage.ParamPackage.Serialize` | src/common/param_package.cpp:55-73 | the serializing loop computes the text the round trip is about |
| `AudioStream.Stream.PlayNextBuffer` | src/audio_core/stream.cpp:77-103 | the next buffer becomes active and one release is scheduled, only when playing, idle and not empty |
| `AudioStream.Stream.Play` | src/audio_core/stream.cpp:44-47 | starts playing |
| `AudioStream.Stream.ReleaseActiveBuffer` | src/audio_core/stream.cpp:105-110 | the active buffer is released and the next one starts; the assertion's outcome is returned |
| `AudioStream.Stream.QueueBuffer` | src/audio_core/stream.cpp:112-119 | accepts a buffer while fewer than 32 wait |
| `AudioStream.Stream.GetTagsAndReleaseBuffers` | src/audio_core/stream.cpp:126-133 | the oldest released tags, at most as many as asked for |
| `AudioStream.StepKeeps` | src/audio_core/stream.cpp:44-133 | every action keeps the life-cycle invariant, and the assertion of a release holds |
| `AudioStream.EveryRunConserves` | src/audio_core/stream.cpp:44-133 | on every run: one pending release iff a buffer is active, the assertion never fails, a playing idle stream has nothing queued, accepted == collected ++ released ++ active ++ queued == handed to the sink ++ queued |
| `AudioStream.EveryRunReleases` | src/audio_core/stream.cpp:44-133 | on every run as many buffers were released as release events fired, and the stream plays iff it was started |
| `AudioStream.CollectionIsMaximal` | src/audio_core/stream.cpp:126-133 | a collection gives back as many tags as are asked for and released, the oldest first |
| `AudioStream.RendererStepKeeps` | src/audio_core/audio_renderer.cpp:317-352 | queueing, releasing and collecting keep three tags in circulation |
| `AudioStream.EveryRunCirculates` | src/audio_core/audio_renderer.cpp:75-88 | on every run of updates and release events no buffer is refused, tags 0, 1, 2 are conserved, and the k-th tag queued is k mod 3 |
| `AudioStream.EveryRunGoesOn` | src/audio_core/audio_renderer.cpp:347-352 | the renderer never stands still: it can queue a tag it has, or collect a released one, or a buffer is playing that will be released |
| `VoiceMixing.ChunkIsNext` | src/audio_core/audio_renderer.cpp:197-232 | taking a chunk moves along the playlist by exactly the chunk |
| `VoiceMixing.ChunksArePlaylist` | src/audio_core/audio_renderer.cpp:197-232 | whatever sizes are requested, the chunks concatenate to the wave buffers in ring order |
| `VoiceMixing.NewWaveIndexExactly` | src/audio_core/audio_renderer.cpp:192-195 | after a new wave index mid-play the next dequeue is in range iff the kept offset is within the new buffer |
| `VoiceMixing.MixIsPlaylist` | src/audio_core/audio_renderer.cpp:326-342 | what a voice contributes is the next part of its playlist |
| `VoiceStarts.MixTakesAll` | src/audio_core/audio_renderer.cpp:326-342 | all of it, up to the end of the mixed buffer |
| `VoiceStarts.MixCounts` | src/audio_core/audio_renderer.cpp:209-225 | the played count reported to the guest grows by a frame for every two samples taken, less at most one sample for each wave buffer finished |
| `VoiceMixing.OverrunsExactly` | src/audio_core/audio_renderer.cpp:326-342 | for every voice whose offset is within its samples: a mix writes past the buffer iff more than 1024 samples are there to play and some wave buffer ends inside the mix after an odd number of samples; its size is never undefined |
| `VoiceFits.StaysInsideExactly` | src/audio_core/audio_renderer.cpp:326-342 | a voice stays inside every mix to come iff its wave buffers, laid one after the other, fit: none that follows an odd one in a mix reaches past the end of that mix |
| `VoiceMixing.OddBufferOverruns` | src/audio_core/audio_renderer.cpp:326-342 | a voice without looping that does: three samples, then two thousand |
| `VoiceMixing.WholeFramesFit` | src/audio_core/audio_renderer.cpp:326-342 | with even-length buffers every mix stays inside, and even lengths are left |
| `VoiceMixing.OddRestOverruns` | src/audio_core/audio_renderer.cpp:326-342 | a looping voice with an odd number of samples left is overrun in some mix |
| `VoiceMixing.LoopFitsExactly` | src/audio_core/audio_renderer.cpp:326-342 | a looping voice, at any offset and beside any other buffers, stays inside every mix iff its buffer and its offset are even |
| `VoiceRuns.UpdateKeepsExactly` | src/audio_core/audio_renderer.cpp:123-156 | an update with any wave buffers keeps offset and samples in step exactly unless it starts the voice anew at a non-zero offset |
| `VoiceRuns.RunKeeps` | src/audio_core/audio_renderer.cpp:123-156 | over any run of updates and mixes without such a restart they stay in step, and no chunk has an undefined size |
| `VoiceRuns.SoundExactly` | src/audio_core/audio_renderer.cpp:206-231 | being in step is exactly what no future run can break |
| `VoiceRuns.EveryLifeExactly` | src/audio_core/audio_renderer.cpp:123-156 | from the initial voice on: a voice can go on for ever, whatever the updates bring, iff the last update does not start it anew in the middle of a wave buffer |
| `VoiceRuns.WholeRunsLive` | src/audio_core/audio_renderer.cpp:123-156 | if all wave buffers are of whole frames, every run without such a restart stays inside every mix, and the voice stays at whole frames |
| `VoiceRuns.EveryWholeLifeLives` | src/audio_core/audio_renderer.cpp:123-156 | so does every such run from the initial voice on |
| `VoiceStarts.UpdateMeans` | src/audio_core/audio_renderer.cpp:123-156 | a voice that is started plays from the wave buffer the guest names, modulo 4; one no longer used is set back to the first and its counters to zero; any other stays where it is |
| `VoiceStarts.UpdateGoesOn` | src/audio_core/audio_renderer.cpp:123-156 | a voice that goes on finishes what it has loaded and then plays what the guest gives now |
| `VoiceStarts.FirstMixIsHead` | src/audio_core/audio_renderer.cpp:147-155 | after a start the next mixed buffer takes the beginning of the wave buffers from the one named on: all of the first, if it fits |
| `Arithmetic.ClampToS16` | src/audio_core/audio_renderer.cpp:313-315 | the 16-bit value nearest to the argument |
| `Voices.MixIsSum` | src/audio_core/audio_renderer.cpp:337-341 | the mix at a position is the plain sum of all voices there, if no partial sum leaves 16 bits |
| `Voices.VoiceState.constructor` | src/audio_core/audio_renderer.cpp:44-52 | a new voice is the initial one, and in step |
| `Voices.VoiceState.SetWaveIndex` | src/audio_core/audio_renderer.cpp:192-195 | the index modulo 4, with a refresh pending |
| `Voices.VoiceState.RefreshBuffer` | src/audio_core/audio_renderer.cpp:245-294 | the samples that were to be loaded are loaded: everything still to be played stays the same |
| `Voices.VoiceState.UpdateState` | src/audio_core/audio_renderer.cpp:234-243 | a voice whose use ends is in step whatever it was before; any other does not move |
| `Voices.VoiceState.Update` | src/audio_core/audio_renderer.cpp:123-156 | an update keeps the voice in step exactly unless it starts it anew at a non-zero offset; after a start at offset 0 everything to be played is the wave buffers from the one named on |
| `Voices.VoiceState.DequeueSamples` | src/audio_core/audio_renderer.cpp:197-232 | the update in place is the dequeue the playlist theorems speak of, out-of-range offsets included |
| `Voices.VoiceState.FinishWaveBuffer` | src/audio_core/audio_renderer.cpp:216-228 | end of a wave buffer: loop or next index, consumed count, end of stream |
| `Voices.VoiceState.MixInto` | src/audio_core/audio_renderer.cpp:326-342 | for every voice: its contribution is added, saturated, to the beginning of the buffer and nothing behind it changes, or the write past the end or the undefined size is reported |
| `Voices.AddChunk` | src/audio_core/audio_renderer.cpp:337-341 | adds a chunk, saturated, and changes nothing else |
| `Voices.QueueMixedBuffer` | src/audio_core/audio_renderer.cpp:317-343 | the loop over the voices: the buffer is the fold of the saturated sums of all contributions, or one of the voices fails |
| `Voices.UpdateVoices` | src/audio_core/audio_renderer.cpp:123-155 | the loops over all voices update each of them |
| `Voices.UpdateAndMix` | src/audio_core/audio_renderer.cpp:123-343 | an update and the mixed buffer after it: every voice is mixed as the update left it, and one that it starts begins with the wave buffer the guest named |
| `Voices.StartedVoiceIsHeard` | src/audio_core/audio_renderer.cpp:317-343 | of one such voice the mixed buffer holds exactly the samples of that wave buffer, at their volume and saturated |
| `MicroProfile.MadeEntryReadsBack` | externals/microprofile/microprofile.h:815-834 | type, timer and tick modulo 2^48 are read back from a log entry |
| `MicroProfile.DecodedReadsBack` | externals/microprofile/microprofile.h:805-834 | the walk reads from a log entry the type, the timer and the tick that were logged |
| `MicroProfile.DifferenceIsSigned` | externals/microprofile/microprofile.h:836-842 | the tick difference is the signed 48-bit representative |
| `MicroProfile.DurationExactly` | externals/microprofile/microprofile.h:836-842 | a logged duration is exact, across the wrap, iff it fits 48 signed bits |
| `MicroProfile.StampedDifference` | externals/microprofile/microprofile.h:836-842 | the walk's difference of two ticks is the duration up to a multiple of 2^48, in [-2^47, 2^47) |
| `MicroProfile.EntriesDiffer` | externals/microprofile/microprofile.h:836-842 | the difference of whole entries is that of their ticks |
| `MicroProfile.GetRange` | externals/microprofile/microprofile.h:1455-1472 | the two ranges enumerate exactly the circular interval from get to put, in order |
| `MicroProfile.StepConserves` | externals/microprofile/microprofile.h:1663-1723 | every log entry, balanced or not, keeps exclusive ticks minus live child accumulators |
| `MicroProfile.WalkFitsExactly` | externals/microprofile/microprofile.h:1670-1722 | for any log, balanced or not: the walk stays inside its stacks iff 32 scopes are never open at once |
| `MicroProfile.OpenScopesOverrun` | externals/microprofile/microprofile.h:1670-1679 | 32 scopes opened and none closed do not fit |
| `MicroProfile.WalkConserves` | externals/microprofile/microprofile.h:1632-1724 | over any log in which 32 scopes are never open the exclusive ticks added equal the change of the child accumulators |
| `MicroProfile.WalkCharges` | externals/microprofile/microprofile.h:1692-1722 | over any log that fits, balanced or not, every timer gets the ticks and calls of exactly the scopes that were left under it, each closed by the next leaving entry, whatever its timer |
| `MicroProfile.StepCharges` | externals/microprofile/microprofile.h:1667-1722 | a log entry changes the ticks, exclusive ticks and calls of the timer that is left, and of no other |
| `MicroProfile.WalkAccounts` | externals/microprofile/microprofile.h:1632-1724 | over a balanced log of scopes with any times, with meta entries anywhere, inclusive, exclusive, call and meta totals are those of the call tree, its durations taken modulo 2^48; each group's 8-bit counter ends where it began, or at 0 if it wraps on the way, and the group's ticks are those of the call tree when it does not |
| `MicroProfile.WalkIsTrueExactly` | externals/microprofile/microprofile.h:1632-1724 | the totals grow by the true durations, end minus start, iff no scope takes 2^47 ticks or more |
| `MicroProfile.NestedFitsExactly` | externals/microprofile/microprofile.h:1670-1722 | a balanced log ends at the depth it began and fits iff the height of its scopes does |
| `MicroProfile.BalancedConserves` | externals/microprofile/microprofile.h:1632-1724 | over it exclusive ticks add up to the outermost inclusive ticks, whatever the group counters hold |
| `MicroProfile.ConservesTrueTimeExactly` | externals/microprofile/microprofile.h:1632-1724 | they add up to the true time spent in the outermost scopes iff none of these takes 2^47 ticks or more |
| `MicroProfile.CountersReturnExactly` | externals/microprofile/microprofile.h:1670-1722 | over it all group counters come back to their values iff each of them has room for the nesting of its group |
| `MicroProfile.CounterIsLost` | externals/microprofile/microprofile.h:1711-1720 | 255 scopes that are entered in one group and left in another fill a counter, and the next scope of the group leaves it at 0 |
| `MicroProfile.ThreadLog.EnterScope` | externals/microprofile/microprofile.h:1670-1679 | push of an open entry and a zero accumulator |
| `MicroProfile.ThreadLog.LeaveScope` | externals/microprofile/microprofile.h:1692-1722 | pop, and the accounting of the duration |
| `MicroProfile.ThreadLog.WalkRange` | externals/microprofile/microprofile.h:1663-1723 | the loop over one range is the walk over its entries |
| `MicroProfile.ThreadLog.WalkFrame` | externals/microprofile/microprofile.h:1632-1724 | the walk over the circular interval, in order, on the arrays in place; it gets through iff the nesting fits |
| `Adpcm.DecodeAppend` | src/audio_core/codec.cpp:11-75 | decoding A ++ B, with A whole frames, is decoding A and then B with the carried state |
| `Adpcm.SampleIsFiltered` | src/audio_core/codec.cpp:42-54 | a decoded sample is the nearest one to the filter's value, saturated |
| `Adpcm.DecodeIsFilter` | src/audio_core/codec.cpp:11-75 | every sample n of the whole output is the nearest to its scaled nibble plus the two samples before it weighted by its frame's coefficients, across frames and from the given state |
| `Adpcm.NeverOverflowsExactly` | src/audio_core/codec.cpp:47 | which coefficient pairs keep every intermediate in signed 32 bits, for all nibbles, scales and states: iff the extreme sums fit |
| `Adpcm.SampleAgreesExactly` | src/audio_core/codec.cpp:42-54 | a sample comes out right in 32-bit arithmetic iff its sum fits |
| `Adpcm.AlwaysExactExactly` | src/audio_core/codec.cpp:11-75 | a coefficient table decodes all data from all states as on exact integers iff the extreme sums of each of its eight pairs fit 32 bits |
| `Adpcm.SmallCoefficientsFit` | src/audio_core/codec.cpp:47 | all pairs with abs(c1) + abs(c2) <= 49152 do |
| `Adpcm.DecodeIgnoresRest` | src/audio_core/codec.cpp:22-25 | bytes after the last whole frame do not matter |
| `Adpcm.DecodeFrameInto` | src/audio_core/codec.cpp:31-68 | a frame is decoded in place and nothing before it changes |
| `Adpcm.DecodeNibble` | src/audio_core/codec.cpp:42-54 | wrapping after each operation is wrapping the sum once |
| `Adpcm.DecodeADPCM` | src/audio_core/codec.cpp:11-75 | the frame loop, in 32-bit arithmetic, computes the decoding of the whole frames and the state, reading and writing in bounds |
| `Uint128.Multiply64Into128` | src/common/uint128.cpp:15-25 | the two words hold the exact product |
| `Uint128.Divide128On32` | src/common/uint128.cpp:27-43 | with every shift and sum taken modulo 2^64, the remainder is exact and the quotient is the true one modulo 2^64 |
| `Uint128.MultiplyThenDivide` | src/common/uint128.cpp:15-43 | multiply-then-divide gives floor(a * b / d) whenever that fits 64 bits |
| `ChunkedReader.Stream.Read` | externals/httplib/httplib.h:161-168 | a read gives any positive part of what there is, or the close or failure of the transport |
| `ChunkedReader.LineReader.Append` | externals/httplib/httplib.h:429-440 | a character is appended across the switch from the fixed to the growing buffer |
| `ChunkedReader.LineReader.GetLine` | externals/httplib/httplib.h:400-426 | the next line exactly, however long; failure iff nothing is left or the transport fails first |
| `ChunkedReader.ReadContentWithLength` | externals/httplib/httplib.h:793-811 | exactly `len` bytes however the reads are cut, or the bytes there were and zeros |
| `ChunkedReader.ReadContentChunked` | externals/httplib/httplib.h:829-872 | outcome, body and unread bytes depend only on the bytes delivered and on how the transport ends, not on how reads are cut; exceptions of stoi included |
| `ChunkedBody.StoiReads` | externals/httplib/httplib.h:840 | a spelling of a number in base 16, of either case and with leading zeros, before `;`, CR or the end is read as that number |
| `ChunkedBody.SpellsExactly` | externals/httplib/httplib.h:840 | digits are read as the number that division by 16 spells with them, and as no other |
| `ChunkedBody.StoiReadsNumber` | externals/httplib/httplib.h:840 | white space, a sign, `0x` and digits before anything else are read as that number, or are out of range |
| `ChunkedBody.NegativeSizeEnds` | externals/httplib/httplib.h:842-871 | a negative size ends the body, which is accepted as it is |
| `ChunkedBody.StoiRefuses` | externals/httplib/httplib.h:840 | without a digit after white space and sign there is no number, and stoi throws |
| `ChunkedBody.BadTerminatorEnds` | externals/httplib/httplib.h:852-854 | data followed by a line other than CRLF is dropped and the body accepted as it is |
| `ChunkedBody.TrailerRefused` | externals/httplib/httplib.h:865-869 | a last chunk followed by a line other than CRLF is refused |
| `ChunkedBody.ChunkRead` | externals/httplib/httplib.h:842-863 | one well-formed chunk, its size line spelling the length of its data, is read as its data |
| `ChunkedBody.BodyReadsBackExactly` | externals/httplib/httplib.h:829-872 | a well-formed body (section 4.1 of RFC 7230, any hexadecimal spelling, extensions allowed) is read as its data, and what follows stays unread, iff every chunk is shorter than 2^31 bytes |
| `ChunkedBody.ChunkCut` | externals/httplib/httplib.h:842-863 | bytes that end inside a chunk of any size are accepted iff the transport closes after the CR that follows its data, and the chunk is below 2^31 bytes; below that size nothing throws |
| `ChunkedBody.TruncationAcceptedExactly` | externals/httplib/httplib.h:829-872 | a body of chunks of any sizes, cut short, is accepted iff the transport closes between CR and LF after the data of a chunk that, like all before it, is below 2^31 bytes; when all are, nothing throws |
| `CubebSink.Downmix` | src/audio_core/cubeb_sink.cpp:70-74 | the nested loops compute the downmix, reading in bounds |
| `CubebSink.DownmixKeepsFrames` | src/audio_core/cubeb_sink.cpp:67-75 | the downmix of any frames is those frames, in order, with their first channels |
| `CubebSink.WholeFramesStayWhole` | src/audio_core/cubeb_sink.cpp:65-80 | whole source frames with at least the sink's channels arrive as those frames, in order, with their first channels |
| `CubebSink.MonoIsHalfAFrame` | src/audio_core/cubeb_sink.cpp:79 | a mono frame for a stereo sink arrives as it is, which is half a frame |
| `CubebSink.CubebSinkStream.constructor` | src/audio_core/cubeb_sink.cpp:23-26 | an empty, aligned stream of one or two channels with silence as last frame |
| `CubebSink.CubebSinkStream.EnqueueSamples` | src/audio_core/cubeb_sink.cpp:65-80 | the ring takes what fits; both indices stay at frame starts iff whole frames were offered or the ring filled up |
| `CubebSink.CubebSinkStream.PopFrames` | src/audio_core/cubeb_sink.cpp:195-201 | the next samples in order; a whole number of frames keeps the alignment and the last frame |
| `CubebSink.CubebSinkStream.Fill` | src/audio_core/cubeb_sink.cpp:203-206 | every remaining output sample is the last frame's sample of its channel; the fill runs over the end iff it starts inside a frame |
| `CubebSink.CubebSinkStream.DataCallback` | src/audio_core/cubeb_sink.cpp:169-209 | the next accepted samples, each on its channel, then repeats of the last frame; the last fill runs over the output iff what the ring gives is not a whole number of frames, which aligned indices rule out |
| `CubebSink.HalfFrameOverruns` | src/audio_core/cubeb_sink.cpp:203-206 | from a new stereo stream, three samples and a callback for two frames run over the output |
| `SinkThreads.EveryTransferIsWhole` | src/audio_core/cubeb_sink.cpp:65-206 | under every interleaving of the two threads' loads, copies and stores, if whole frames are pushed and asked for, every transfer is whole, both indices stay at frame starts, and sample i out is sample i in |

## Left out

- The wide-character copy of getopt, which repeats the same code; its error messages and `opterr`; `longind` and `flag` stores beyond the reported event; characters above 127 as negative `char` values; option values of -1, which a caller could not tell from the end.
- Calls of getopt after -1, or with optind changed by the caller in the middle of a run.
- GetoptRoundTrip.RunReadsBack: under long-only parsing, for groups in which no option begins a long name; otherwise the parser reads the long option.
- C++ memory orders weaker than sequential consistency, in all three concurrent structures.
- `Front`, the `Pop` without a result, `Clear` and the waiting of `PopWait` in the linked queue (a notification precedes the count, so nothing is claimed about waking up), and `Size` read by a third thread.
- A ring granularity other than one: a slot is one value here.
- Barrier.WorksExactly: fewer than 2^64 threads.
- `front`, `back` and the iterator overloads of the multi-level queue; `contains`, `clear`, `get_first_filter` of the thread queue list: they only repeat modelled searches.
- MultiLevelQueue.MultiLevelQueue.Transfer: needs the element to be there, as splicing an end iterator is undefined.
- StringUtil.ReplaceAll: the method is given for the inputs on which the loop ends, which ReplaceEndsExactly determines.
- The numeric getters and setters of parameter packages, and logging.
- `Stream::Stop` and `ContainsBuffer` (unimplemented), sample volumes, the length of a buffer in cycles: a release is an event that can come at any time.
- Voices.VoiceState.RefreshBuffer: memory, sample formats, channel doubling and interpolation are one given content per wave buffer, because they are outside code or floating point.
- Voices.QueueMixedBuffer: the volume is a given function of the sample, and the played and consumed counters do not wrap.
- Effects, memory pools and the parameter exchange of the renderer.
- GPU timers, pausing, aggregation and the user interface of the profiler; log slots that are overwritten before they are read; 64-bit wrap of its accumulators.
- MicroProfile.WalkAccounts: the ticks of a group whose 8-bit counter wraps inside the log are not given; its counter is.
- Adpcm.DecodeADPCM: signed overflow, which the language leaves undefined, is taken as wrapping, and the left shift of a negative number as multiplication.
- ChunkedReader.Stream.Read: a transport delivers some bytes and then closes or fails; a failure that later reads recover from is not modelled.
- ChunkedReader.LineReader.GetLine: a fixed buffer of no bytes, whose size minus one wraps, is excluded; a buffer of one byte must hold the terminator that the code asserts.
- ChunkedBody.BodyReadsBackExactly: bodies without trailer fields, which the reader does not accept.
- `read_content_without_length`, headers, sockets, TLS and regular expressions of the HTTP library.
- The stretching path of the sink's callback, `Flush`, `SamplesInQueue` and all device handling.
- CubebSink.CubebSinkStream.DataCallback: called with output of exactly the frames asked for; nothing is said about what a fill past the end writes.
- `core.cpp`, `CpuBarrier`, file utilities, telemetry, timers, vector and colour helpers: plumbing or easy facts.
