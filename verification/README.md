# Verification models of the header library

This project models the algorithms and protocols of a C++ header library and proves what they promise, for all
inputs, all sizes and all interleavings. It is grouped by component.

* **Wide integers** (`Uint*.dfy`, `Uint128.dfy`, on `Powers`, `BitOps`, `Blocks`, `WordShift`, `LongDivision`,
  `Numerals`, `Printing`). A `uint_t<N, B>` is an object with an array of blocks; its value is the number the blocks
  stand for, and `Valid` says that the unused top bits are zero. Every operator is proved to compute the
  mathematical result modulo 2^N for every number of bits and every block width; division, shifts, comparison
  and printing are exact. The number of bits and the width are parameters, so no size is special.
* **Locks and executors** (`TicketSpinLock`, `ThreadPool`, `Strand`, `TimeoutsThread`). Each is a transition system
  whose steps are the atomic accesses or the critical sections of the code, taken by any thread in any order. An
  inductive invariant is proved for every step and then for every run.
* **Queues** (`MpscQueue`, `CircBuffer`). The states between two writes of one operation (tail exchanged but not
  linked, count published but offset not moved) are ordinary states of the model, so the other side may act there.
* **Lifetimes** (`SharedResourceMap`, `Future`, `IdentifierPool`). Objects, handles, deleters and continuations with
  delayed steps; the results say what exists exactly once and when it is gone.
* **A cache and data layouts** (`LRU` with `Recency` and `CacheHistory`, `BitVector` with `NetworkMessage` and `BitVectorMessage`,
  `DynamicPacking`). The cache is proved to follow a reference model that
  forgets nothing, and that model to answer what the history of operations alone demands; the bit vector is proved to
  be a sequence of bools that survives a message; the packed layout is proved equal to plain prefix sums.

Where an object of the library changes its fields, the model is a class whose methods change the same fields, with
`Valid` as the invariant. Ghost fields hold histories (what was submitted, popped, written, run) and nothing else.
A method called `Run` takes an arbitrary schedule of steps; a step that is not possible at its place in the schedule
is skipped, so a theorem about `Run` is one about every run.

Conventions:

* All numbers are mathematical integers. Wrap-around is written out: a word of w bits is a number below `Pow2(w)`.
* Atomic accesses and locked sections are sequentially consistent steps.
* An exception or an error return is a value: `DivisionByZero`, `None`, or `false`.
* Input from outside (the clock, notified or spurious wakeups, the answers of user functions) is chosen by the
  schedule.
* `hide` at the start of a proof keeps definitions out that the proof does not need.

Three findings, each stated for all inputs as a lemma:

* No run of the ticket lock lets two threads inside if and only if there are at most as many threads as the counters
  have values (`TicketSpinLock.ExclusiveExactly`).
* The computed bounds of a packed structure hold for the true sizes exactly when the largest structure can be
  addressed (`DynamicPacking.WithinBounds`), and for the sizes that the code computes when the smallest and the
  largest structure wrap around equally often, and only then unless single elements are very large
  (`DynamicPacking.ComputedWithinBounds`, `DynamicPacking.CoarseElements`). With the default bounds of a placeholder
  and one more field the upper bound has wrapped to a few bytes (`DynamicPacking.DefaultBoundsWrap`).
* The static tail of a field list is the size of what is behind the last dynamic field, if there is one
  (`DynamicPacking.TailSize`). Of a list without one it leaves out the first field, and so is the whole size only if
  that field takes no room (`DynamicPacking.NoDynamicField`). The code needs a dynamic field in any case, since it
  takes the last element of the accumulator array.

## Model

| member | source | states |
|---|---|---|
| UintShape.MaskReduces | src/uint_t.h:125-173 | masking the top block, for any number of bits and any block width, reduces the value modulo 2^N and changes no other block |
| UintShape.CapacityIsMultiple | src/uint_t.h:125-129 | what the blocks can hold is a multiple of 2^N, so a carry out of the last block is lost without a trace modulo 2^N |
| Uint.Uint.ClearUnusedBits | src/uint_t.h:725 | from any blocks: the value becomes the old one modulo 2^N and the unused bits are zero |
| Uint.Uint.CopyBits | src/uint_t.h:758-800 | a machine integer of any width is spread over the blocks; the result is congruent to it |
| Uint.Uint.FromInteger | src/uint_t.h:855-863 | the value of a new number is the given integer modulo 2^N, whether the integer or the number is wider |
| Uint.Uint.ShiftBlocksRight | src/uint_t.h:708-715 | moving blocks down by any offset divides by the weight of the offset |
| Uint.Uint.ShiftBlocksLeft | src/uint_t.h:716-723 | moving blocks up by any offset multiplies by its weight modulo 2^N |
| Uint.Uint.Increment | src/uint_t.h:727-734 | the carry chain adds the amount modulo 2^N |
| Uint.Uint.Decrement | src/uint_t.h:736-744 | the borrow chain subtracts the amount modulo 2^N |
| UintOps.Add | src/uint_t.h:449-461 | addition with a carry recovered from comparisons is addition modulo 2^N |
| UintOps.Sub | src/uint_t.h:463-474 | subtraction with a borrow recovered from comparisons is subtraction modulo 2^N |
| UintOps.Equal | src/uint_t.h:523-528 | equal exactly when the values are |
| UintOps.Less | src/uint_t.h:532-539 | the scan from the top block decides the order of the values |
| UintOps.IsZero | src/uint_t.h:271-277 | true exactly for value zero |
| UintOps.BitAnd | src/uint_t.h:345-350 | blockwise and is the and of the values, unused bits stay zero |
| UintOps.BitOr | src/uint_t.h:359-364 | blockwise or is the or of the values, unused bits stay zero |
| UintShift.ShiftLeft | src/uint_t.h:376-406 | for every shift below N, as the code asserts: block shift and bit shift with carry between blocks multiply by 2^shift modulo 2^N |
| UintShift.ShiftRight | src/uint_t.h:408-441 | for every shift below N, as the code asserts: block shift and bit shift divide by 2^shift |
| UintMul.MultHiLo | src/uint_t.h:56-73 | the product of two blocks as exact high and low block |
| UintMul.MultHiLo64 | src/uint_t.h:75-95 | the 64-bit product from four half products is exact; no partial sum overflows |
| UintMul.AddProduct | src/uint_t.h:492-498 | adding one double-width product into the truncated carry keeps the carry congruent to the sum modulo 2^N |
| UintMul.AddColumn | src/uint_t.h:490-499 | one column adds the sum of its block products to the carry, modulo 2^N |
| UintMul.Mul | src/uint_t.h:479-506 | the product modulo 2^N with unused bits zero, although carry and temporaries are themselves truncated to N bits |
| UintMul.ColumnsAreProduct | src/uint_t.h:488-502 | the whole product is the columns that are computed plus the products never formed, which all have at least the weight of the capacity; so the columns are the product modulo 2^N |
| UintDiv.DivMod | src/uint_t.h:555-579 | for N of at least 2: fails exactly for divisor zero, otherwise dividend = quotient * divisor + remainder with the remainder below the divisor |
| UintDiv.BringDown | src/uint_t.h:565-570 | doubling the remainder and taking the next bit loses no bit, even for divisors above half of the range |
| UintDiv.DivideBit | src/uint_t.h:565-575 | one iteration keeps: the top bits of the dividend are quotient so far times divisor plus a smaller remainder |
| LongDivision.RemainderSmall | src/uint_t.h:565-570 | while k bits remain the remainder is below 2^(N-k), so doubling it and adding a bit stays below 2^N |
| LongDivision.DivStep | src/uint_t.h:565-575 | one step of binary long division on numbers |
| UintPrint.Print | src/uint_t.h:581-645 | the text means the value in base 8, 16 or 10 as the flags say, octal before hexadecimal, in digits of the alphabet that the flags say, without leading zero, after a plus for positive values if asked for; it has at most 1 + ceil(N/3) characters |
| UintPrint.WriteDigits | src/uint_t.h:597-621 | digits fill the buffer from the end and never pass its start, with one place left for the sign |
| UintPrint.BaseFits | src/uint_t.h:601-612 | the test that skips the loop for few bits is right although the base itself was truncated to N bits |
| Numerals.NumeralUnique | src/uint_t.h:597-621 | a value has one numeral without leading zero, so the printed text determines the value and nothing else is printed for it |
| Numerals.NumeralWritten | src/uint_t.h:582-621 | the digit tables are the lower- and upper-case alphabets, each digit at the place of its value |
| Uint128.And | src/uint128_t.h:135 | the and of the 128-bit values |
| Uint128.Or | src/uint128_t.h:139 | the or of the 128-bit values |
| Uint128.Xor | src/uint128_t.h:137 | the exclusive or of the 128-bit values |
| Uint128.Add | src/uint128_t.h:167-172 | addition modulo 2^128; the carry is recovered from the wrapped lower sum |
| Uint128.Sub | src/uint128_t.h:174-179 | subtraction modulo 2^128 |
| Uint128.Negate | src/uint128_t.h:163-165 | the additive inverse modulo 2^128 |
| Uint128.ShiftLeft | src/uint128_t.h:141-148 | for every shift below 128, as the code asserts: times 2^shift modulo 2^128 |
| Uint128.ShiftRight | src/uint128_t.h:150-157 | for every shift below 128, as the code asserts: divided by 2^shift |
| Uint128.Less | src/uint128_t.h:253 | the order of the 128-bit values |
| Uint128.EqualValues | src/uint128_t.h:251 | the pair of words is determined by the value |
| Uint128.SumColumns | src/uint128_t.h:194-205 | none of the four column sums overflows 64 bits, and each is the sum of the halves under its weight |
| Uint128.DroppedParts | src/uint128_t.h:189-207 | the ten products that are formed are the four columns plus a multiple of 2^128 |
| Uint128.ColumnsAreProduct | src/uint128_t.h:187-207 | the whole product is the columns plus 2^128 times the six products never formed and the high halves left out; so the columns are the product modulo 2^128 |
| Uint128.Mul | src/uint128_t.h:187-207 | multiplication is the integer product modulo 2^128 |
| Uint128.DivMod | src/uint128_t.h:214-233 | fails exactly for divisor zero, otherwise exact quotient and smaller remainder |
| Uint128.BringDown | src/uint128_t.h:223-226 | the shift of the remainder never loses its top bit |
| Uint128.Print | src/uint128_t.h:262-294 | the text means the value in base 8, 16 or 10 as the flags say, in digits of the alphabet that the flags say, without leading zero, after a plus for positive values if asked for; it has at most 64 characters |
| TicketSpinLock.StepInv | src/TicketSpinLock.h:43-52 | every atomic step keeps first-come service across wrap-around, with unlock as two steps |
| TicketSpinLock.MutualExclusion | src/TicketSpinLock.h:43-52 | in every run at most one thread is inside, the one that fetched the earliest ticket not yet given back |
| TicketSpinLock.TurnComes | src/TicketSpinLock.h:43-46 | in every run a load lets a thread in if and only if nobody is inside and as many have been in as fetched a ticket before it |
| TicketSpinLock.ServedInOrder | src/TicketSpinLock.h:43-52 | in every run the threads that got in are the first ones of the fetch-adds, in their order |
| TicketSpinLock.Occupancy | src/TicketSpinLock.h:43-57 | next minus active modulo the counter range is always the number of threads waiting or inside |
| TicketSpinLock.TooManyThreads | src/TicketSpinLock.h:43-57 | for any set of more threads than counter values there is a run that lets two inside |
| TicketSpinLock.ExclusiveExactly | src/TicketSpinLock.h:43-57 | no run lets two threads inside if and only if the threads are no more than the counter values |
| TicketSpinLock.TicketSpinLock.TakeTicket | src/TicketSpinLock.h:44 | the fetch-add gives the next place in the service order |
| TicketSpinLock.TicketSpinLock.Poll | src/TicketSpinLock.h:45-46 | the thread gets in exactly when nobody is inside and it is the earliest arrival that has not left, and then is alone inside |
| TicketSpinLock.TicketSpinLock.StoreActive | src/TicketSpinLock.h:49-52 | the second half of unlock lets the next arrival in, with wrap-around |
| ThreadPool.ThreadPool.SubmitValue | src/ThreadPool.h:126-128 | filling the old tail touches no wrapper that a pop past its check touches |
| ThreadPool.ThreadPool.SubmitLink | src/ThreadPool.h:129 | linking touches no wrapper that a pop past its check touches |
| ThreadPool.ThreadPool.SubmitTail | src/ThreadPool.h:130-132 | the work is appended to the submission history; a sleeping worker is notified |
| ThreadPool.ThreadPool.NotifyStop | src/ThreadPool.h:134-138 | wakes the sleeper and keeps all queued work |
| ThreadPool.ThreadPool.PopCheck | src/ThreadPool.h:216-229 | goes on exactly when work is queued and no stop was requested, and sleeps only when neither holds |
| ThreadPool.ThreadPool.PopTimeout | src/ThreadPool.h:237-264 | giving up a timed wait leaves the queue as it was |
| ThreadPool.ThreadPool.PopMove | src/ThreadPool.h:231-232 | the head that is taken is no wrapper that a submission writes; the pop began before the stop |
| ThreadPool.ThreadPool.PopFinish | src/ThreadPool.h:232-235 | returns the oldest work not yet returned, in a wrapper that has a value and no next and is out of the queue |
| ThreadPool.ThreadPool.SubmitAlone | src/ThreadPool.h:121-132 | undisturbed, a submission appends exactly the work of its wrapper |
| ThreadPool.ThreadPool.PopAlone | src/ThreadPool.h:213-235 | undisturbed, a pop gives the oldest work exactly if there is some and no stop, and otherwise ends or sleeps |
| ThreadPool.ThreadPool.Drain | src/ThreadPool.h:149-153 | with no submission under way and no stop, repeated pops give all work that is left, in order |
| ThreadPool.ThreadPool.Take | src/ThreadPool.h:121-264 | every step of every thread keeps the invariant; a submission ends with the work it began with; a wrapper that was returned may be submitted again, and no step touches one that is not in the queue |
| ThreadPool.Run | src/ThreadPool.h:121-264 | in every interleaving the accepted work is that of submissions of the schedule, in order, new or returned before; the returned work is a prefix of it in tail-lock order; after a stop only a pop already past its check still returns something |
| Strand.StepInv | src/Strand.h:67-147 | every critical section keeps the invariant of the abstract strand; when it is reached the queue is not empty, or no second slice task is parked, as the code asserts |
| Strand.Serialised | src/Strand.h:67-147 | in every run of the abstract strand the slice task is in exactly one place, so jobs never overlap; started and queued jobs are the jobs of the submissions in their order, and the one that runs was started last; work with a pool attached is never left with the slice task parked |
| Strand.AssertionsHold | src/Strand.h:113-145 | in every run a non-empty queue when fetching with a pool, and no parked slice task when parking one |
| Strand.Unstuck | src/Strand.h:67-147 | in every run the slice task, wherever it is, has a next step, and once it is parked every stopAndJoin that waits can return |
| Strand.TokenMoves | src/Strand.h:105-147 | in every run a worker gets the next submitted job exactly if a pool is attached, and returns the slice task to the pool exactly if there is work and a pool |
| Strand.JoinIsFinal | src/Strand.h:82-103 | in every run, once some stopAndJoin has returned, no job runs and none ever starts |
| Strand.Internal.Submit | src/Strand.h:67-80 | linking the wrapper behind the old tail and moving its work there appends that very job to what was submitted; the slice task goes to the pool exactly when it was parked and a pool is attached |
| Strand.Internal.FetchJob | src/Strand.h:107-131 | the wrapper taken from the head holds the next job in submission order, has no next and may be submitted again; the assertions on the head, its value and its next hold |
| Strand.Internal.ReturnSlice | src/Strand.h:137-146 | comparing head and tail decides whether there is work: the slice task goes back to the pool exactly when there is and a pool is attached |
| Strand.Internal.Stop | src/Strand.h:82-103 | detaches the pool, in stopAndJoin and inside a job |
| Strand.Internal.TryJoin | src/Strand.h:87-89 | the wait ends exactly when the slice task is parked, and then nothing is running |
| Strand.Run | src/Strand.h:67-147 | every interleaving on the linked wrappers, new and resubmitted, is a legal run of the abstract strand, and the jobs taken from the head are a prefix of the jobs of its submissions |
| TimeoutsThread.InsertSorted | src/TimeoutsThread.h:132 | inserting keeps the order by time point and, among equals, by insertion |
| TimeoutsThread.TimeoutsThread.AddTask | src/TimeoutsThread.h:213-223 | the task becomes pending at its time point as one more insertion; a sleeping thread is notified |
| TimeoutsThread.TimeoutsThread.Stop | src/TimeoutsThread.h:259-262 | inserts the stop task at time point zero, once |
| TimeoutsThread.TimeoutsThread.TakeFirst | src/TimeoutsThread.h:134-143 | what is taken goes before everything still pending and is due |
| TimeoutsThread.TimeoutsThread.Evaluate | src/TimeoutsThread.h:229-249 | the locked section runs the first task exactly if it is due, and otherwise waits for it |
| TimeoutsThread.TimeoutsThread.Timeout | src/TimeoutsThread.h:243-248 | after a time-out the first task is due even if it was inserted during the wait |
| TimeoutsThread.TimeoutsThread.Guarantees | src/TimeoutsThread.h:213-262 | nothing runs before its time; every insertion is pending or ran exactly once; of two tasks inserted before either ran the earlier ran first; nothing runs after the stop task |
| TimeoutsThread.Run | src/TimeoutsThread.h:213-262 | these guarantees for every interleaving of insertions, notified, spurious and timed-out wakeups and the clock |
| MpscQueue.Queue.Exchange | src/MpscWaitFreeSemiIntrusiveQueue.h:79-85 | the exchange alone fixes the place in the order, before the node is linked |
| MpscQueue.Queue.Link | src/MpscWaitFreeSemiIntrusiveQueue.h:86 | any of the producers in between may link next, in any order |
| MpscQueue.Queue.PopLoadNext | src/MpscWaitFreeSemiIntrusiveQueue.h:89-95 | nothing is returned exactly if nothing is queued or the producer of the next node has exchanged but not linked |
| MpscQueue.Queue.PopStoreHead | src/MpscWaitFreeSemiIntrusiveQueue.h:97-98 | takes exactly the next pushed value |
| MpscQueue.Queue.PopClearNext | src/MpscWaitFreeSemiIntrusiveQueue.h:99-101 | the returned node carries that value, has no next, and nothing in the queue leads to it |
| MpscQueue.Queue.PopAlone | src/MpscWaitFreeSemiIntrusiveQueue.h:89-101 | undisturbed, a pop gives the next value exactly if there is one and its producer has linked it |
| MpscQueue.Queue.Drain | src/MpscWaitFreeSemiIntrusiveQueue.h:72-75 | with no producer under way, popping until nothing is left gives everything that was pushed, in order |
| MpscQueue.Queue.Empty | src/MpscWaitFreeSemiIntrusiveQueue.h:103-107 | true exactly when a pop would find nothing |
| MpscQueue.Queue.Take | src/MpscWaitFreeSemiIntrusiveQueue.h:79-101 | every access of every thread keeps the invariant and moves its operation on; a push adds its own data; a popped node may be pushed again, and no access touches a node that is not in the queue |
| MpscQueue.Run | src/MpscWaitFreeSemiIntrusiveQueue.h:79-107 | in every interleaving, of new and popped nodes, the values returned are a prefix of the data of the pushes in the order of their tail exchanges |
| CircBuffer.MoveOffsetIsPos | src/CircBufferSCSP.h:222-234 | the offset computation is addition modulo the buffer size, also at its end |
| CircBuffer.CircBuffer.BeginWrite | src/CircBufferSCSP.h:364 | how much may be written before the array ends |
| CircBuffer.CircBuffer.CopyIn | src/CircBufferSCSP.h:370-377 | copying in never touches an element that the consumer has not been given back |
| CircBuffer.CircBuffer.CountWritten | src/CircBufferSCSP.h:223 | publishing makes exactly the copied elements readable, before the offset moves |
| CircBuffer.CircBuffer.MoveWriteOffset | src/CircBufferSCSP.h:224-234 | the offset moves below the size and the next chunk uses the count seen at publishing |
| CircBuffer.CircBuffer.CopyOut | src/CircBufferSCSP.h:370-377 | copying out gives the next element written |
| CircBuffer.CircBuffer.CountRead | src/CircBufferSCSP.h:305 | frees exactly the copied elements, before the offset moves |
| CircBuffer.CircBuffer.MoveReadOffset | src/CircBufferSCSP.h:306-316 | the offset moves below the size and the next chunk uses the count seen at freeing |
| CircBuffer.CircBuffer.Write | src/CircBufferSCSP.h:261-262 | run alone, transfers the smaller of the size asked for and the space free, in order, across the array's end |
| CircBuffer.CircBuffer.Read | src/CircBufferSCSP.h:343-344 | run alone, transfers the smaller of the size asked for and what is available, in order |
| CircBuffer.CircBuffer.PutStep | src/CircBufferSCSP.h:358-385 | every step of the producer moves its chunk on, accepts exactly the element it copies, and leaves the consumer's side alone |
| CircBuffer.CircBuffer.TakeStep | src/CircBufferSCSP.h:358-385 | every step of the consumer moves its chunk on, gives exactly the element it copies, and leaves the producer's side alone |
| CircBuffer.CircBuffer.OutputIsPrefix | src/CircBufferSCSP.h:358-385 | what was read is a prefix of what was written, at most the buffer size behind |
| CircBuffer.Run | src/CircBufferSCSP.h:222-385 | for every interleaving of the two sides at each copy, count update and offset update: the input is elements of the schedule in their order, and the output is a prefix of it, at most the buffer size behind |
| SharedResourceMap.Inner.GetResource | src/SharedResourceMap.h:182-207 | the handle points to the same object as every live handle of the key, also when it comes between the last drop and its deleter |
| SharedResourceMap.Inner.RunDeleter | src/SharedResourceMap.h:164-177 | an entry goes only while its key has no live handle |
| SharedResourceMap.Inner.OneResource | src/SharedResourceMap.h:182-207 | all live handles of a key are of one group and point to one object, also after the map object is gone; while it exists that is the object in its entry |
| SharedResourceMap.Inner.EntriesAreHeld | src/SharedResourceMap.h:160-180 | every entry has a live handle or a deleter still to run |
| SharedResourceMap.Inner.EmptyWhenQuiet | src/SharedResourceMap.h:160-180 | with all handles dropped and all deleters run the map is empty |
| SharedResourceMap.Run | src/SharedResourceMap.h:155-208 | for every interleaving of lookups, copies, drops, delayed deleters and destruction of the map: one object per key with live handles, its entry kept while the map exists, and an empty map once all is dropped and deleted |
| Future.SharedState.Set | src/Future.h:58-69 | sets once and hands over the waiting continuation |
| Future.SharedState.Then | src/Future.h:100-111 | the continuation waits exactly if the state is unset, and is run by the caller otherwise |
| Future.SharedState.TakeValue | src/Future.h:144-149 | gives what was set, value or exception |
| Future.Promise.Resolve | src/Future.h:416-428 | the state is moved out, so a promise resolves once |
| Future.Promise.Destroy | src/Future.h:411-415 | breaks the promise exactly if it was not resolved |
| Future.AssertionsHold | src/Future.h:62-104 | a state is unset when it is set, and has no continuation when one is attached |
| Future.StepInv | src/Future.h:58-415 | every step of promises, futures and continuations keeps the invariant |
| Future.Guarantees | src/Future.h:198-260 | after any run a continuation waits exactly while its source is unset, its function begins at most once and only after that, and its future is set exactly when it is done |
| Future.AnswerKept | src/Future.h:198-260 | what a function answered at any step of a run is what its future has at the end: the value it returned, the exception it threw, or a broken promise for an invalid future |
| Future.InnerKept | src/Future.h:211-247 | when a function returned a valid future and its outcome was collected, the future of the continuation has the outcome of that one at the end |
| Future.PromiseKept | src/Future.h:411-428 | a promise that user code resolved at any step of a run has given its future that outcome at the end, one destroyed unresolved a broken promise |
| Future.ThenStays | src/Future.h:355-365 | the continuation made by a then at any step is attached to that state and to the new future for the rest of the run |
| Future.SetExactlyOnce | src/Future.h:58-142 | in every run the number of times a state is set is one if it is set and zero if not |
| Future.OutcomeStays | src/Future.h:58-142 | an outcome never changes later |
| Future.BegunAtMostOnce | src/Future.h:282-286 | in every run the function of a continuation begins at most once |
| Future.AllResolved | src/Future.h:355-415 | when all user promises are resolved or destroyed and no continuation is on its way, no future is left waiting, through any chain of then |
| Future.Unstuck | src/Future.h:58-428 | in every run user code can resolve, take, chain and destroy what it holds, a due continuation can begin, its function can end with any answer, and a value can be taken or collected exactly when it is there |
| Future.FuturesGiven | src/Future.h:355-365 | a promise, a then and the start of a function each give user code a future; taking its value, chaining it and returning it use it up |
| IdentifierPool.State.Reserve | src/IdentifierPool.h:63-74 | terminates, gives the first free identifier in cyclic order from the hint across wrap-around, and fails exactly when all are reserved, changing nothing |
| IdentifierPool.FirstFreeUnique | src/IdentifierPool.h:63-74 | that identifier is the only one with this property |
| IdentifierPool.CyclicOrder | src/IdentifierPool.h:65-72 | cyclic order is addition modulo the number of values of the type |
| IdentifierPool.State.Recycle | src/IdentifierPool.h:81-91 | frees exactly the identifier; the assertion that it was reserved holds for every holder |
| IdentifierPool.World.Reserve | src/IdentifierPool.h:142-148 | a new holder has an identifier no other live holder has |
| IdentifierPool.World.Release | src/IdentifierPool.h:136-141 | frees the identifier of a live holder and nothing otherwise |
| IdentifierPool.World.Destroy | src/IdentifierPool.h:126-129 | the destructor frees it if it is still held |
| IdentifierPool.World.MoveConstruct | src/IdentifierPool.h:113-116 | the identifier changes its holder and stays reserved |
| IdentifierPool.World.MoveAssign | src/IdentifierPool.h:118-124 | the identifier held before is freed, the other one changes its holder |
| IdentifierPool.World.Exhausted | src/IdentifierPool.h:63-148 | there are as many live holders as reserved identifiers, so all are reserved exactly when as many holders live as the type has values |
| IdentifierPool.Run | src/IdentifierPool.h:63-148 | over every run the reserved identifiers are those of the live holders, each held once |
| CacheHistory.LookupIsAnswer | src/LRU.h:83-135 | a lookup in the reference model gives the value last inserted under the key exactly if code outside still refers to it or fewer than the limit of keys were touched after one it is under |
| CacheHistory.OutsideIsReferred | src/LRU.h:105-135 | the values referred to from outside are those acquired or handed out by a get and not released since |
| CacheHistory.RecentIsLatestFirst | src/LRU.h:83-135 | the reference list has each key with the value last inserted, ordered by the time of the last insert or successful get, and a value is alive in the model exactly if it is in the history |
| Recency.RunDistinct | src/LRU.h:83-135 | no key is in the reference list twice |
| LRU.LRU.Insert | src/LRU.h:83-102 | the cache follows the reference model, for a new, a strongly held, a weakly held and a forgotten key |
| LRU.LRU.Get | src/LRU.h:105-135 | the answer and the new state are those of the reference model; the caller refers to the value it was given |
| LRU.LRU.Clear | src/LRU.h:138-142 | lists and index become empty, as in the reference model |
| LRU.LRU.DemoteOver | src/LRU.h:148-157 | demoting keeps the order of all elements and ends at the limit |
| LRU.LRU.Collect | src/LRU.h:159-171 | forgets exactly weak elements whose value is dead; what is left is alive |
| LRU.LRU.Layout | src/LRU.h:83-172 | the strong list is exactly the limit most recent keys in order, no key is listed twice, and every live value of the reference model is found under its key |
| LRU.Run | src/LRU.h:83-172 | for every run of inserts, gets, drops and copies of outside references and clears, every get answers what the history of operations demands: the value last inserted under the key while it is alive, and nothing otherwise |
| BitVector.BitVec.At | src/BitVector.h:201-204 | the bit of the sequence at that index |
| BitVector.BitVec.AssignBit | src/BitVector.h:121-124 | changes that bit and no other |
| BitVector.BitVec.FlipBit | src/BitVector.h:123 | inverts that bit and no other |
| BitVector.BitVec.PushBack | src/BitVector.h:235-244 | appends one bit and keeps the block count exact |
| BitVector.BitVec.PopBack | src/BitVector.h:246-252 | removes the last bit and keeps the block count exact |
| BitVector.BitVec.SetAll | src/BitVector.h:321-324 | every bit is set |
| BitVector.BitVec.Reset | src/BitVector.h:326-329 | every bit is clear, the excess bits too |
| BitVector.BitVec.FlipAll | src/BitVector.h:331-338 | every bit is inverted, whatever the excess bits become |
| BitVector.BitVec.XorWith | src/BitVector.h:340-347 | the exclusive or bit by bit, also of a vector with itself |
| BitVector.BitVec.Assign | src/BitVector.h:399-412 | the walking mask makes the sequence equal to the range |
| BitVector.BitVec.Equals | src/BitVector.h:414-435 | true exactly when the sequences of bits are equal, whatever the excess bits hold |
| BitFacts.MaskedEqual | src/BitVector.h:426-431 | the masked difference of two blocks is zero exactly when their bits up to the last used one agree |
| BitVectorMessage.WordsCover | src/BitVector.h:385-388 | the words of the message cover the blocks exactly, so the assertion at the end of both loops holds |
| BitVectorMessage.Serialize | src/BitVector.h:509-531 | writes the length and the blocks packed into words, or fails exactly when the message would be too long |
| BitVectorMessage.Deserialize | src/BitVector.h:471-504 | succeeds exactly when the length matches and enough words follow, and then every block is its part of its word; a wrong length changes nothing |
| BitVectorMessage.SentIsReceived | src/BitVector.h:471-531 | unpacking what was packed gives the same blocks, for every width that divides 64 |
| BitVectorMessage.BitInMessage | src/BitVector.h:509-531 | bit i of the vector is bit i modulo 64 of word i / 64 of the message, so the message does not depend on the width of the blocks |
| BitVectorMessage.RoundTrip | src/BitVector.h:471-531 | writing to a new message and reading into a vector of the same length gives an equal vector and cannot fail |
| NetworkMessage.ToBytesValue | src/NetworkMessage.h:254-267 | the bytes of a value stand for it modulo their range |
| NetworkMessage.OutgoingMessage.WriteBytes | src/NetworkMessage.h:467-504 | appends all bytes, or fails exactly when the message would get too long and changes nothing |
| NetworkMessage.OutgoingMessage.WriteSizeAndArray | src/NetworkMessage.h:440-465 | appends length and bytes in one go, or changes nothing |
| NetworkMessage.IncomingMessage.ReadBytes | src/NetworkMessage.h:238-250 | takes exactly that many bytes, or none |
| NetworkMessage.IncomingMessage.ReadWord | src/NetworkMessage.h:254-267 | takes eight bytes, or none |
| NetworkMessage.IncomingMessage.ReadFlag | src/NetworkMessage.h:300-321 | takes one byte if it is 0 or 1; anything else is put back |
| NetworkMessage.IncomingMessage.ReadText | src/NetworkMessage.h:269-298 | takes length and bytes; if there are too few bytes the length is put back too |
| NetworkMessage.Read | src/NetworkMessage.h:238-321 | reading a field from the start of any message that begins with its encoding gives that field and leaves the rest; a failed read moves nothing |
| NetworkMessage.RoundTrip | src/NetworkMessage.h:238-504 | any list of fields written in order is read back in order with nothing left over, unless it is too long |
| DynamicPacking.Populate | src/DynamicPackingInfo.h:217-269 | writes the accumulator array and no element outside of it |
| DynamicPacking.OffsetsAreSums | src/DynamicPackingInfo.h:340-374 | the offset computed from accumulators and static tail is the sum of the widths before the field, in size_t arithmetic, for all sizes |
| DynamicPacking.StructSize | src/DynamicPackingInfo.h:337-338 | the size from the array is the size from the sizes |
| DynamicPacking.SizeIsSum | src/DynamicPackingInfo.h:170-200 | the size is the sum of all widths in size_t arithmetic |
| DynamicPacking.SizeOfOne | src/DynamicPackingInfo.h:170-200 | the computed size of no field, of a static field and of a dynamic field |
| DynamicPacking.SizesAdd | src/DynamicPackingInfo.h:170-200 | the computed size of two field lists one after the other is the sum modulo 2^64, for all lists and sizes |
| DynamicPacking.ExactWhenAddressable | src/DynamicPackingInfo.h:170-374 | the size is the true sum if and only if that is below 2^64, and then all offsets are true sums |
| DynamicPacking.FieldsTile | src/DynamicPackingInfo.h:340-374 | the fields one after the other are the whole buffer, without gap or overlap |
| DynamicPacking.ValidExactly | src/DynamicPackingInfo.h:132-154 | sizes are valid exactly if each is within the bounds of its own field |
| DynamicPacking.Set | src/DynamicPackingInfo.h:414-420 | writing a static field changes its bytes and no other field's |
| DynamicPacking.WithinBounds | src/DynamicPackingInfo.h:122-154 | for bounds with min at most max: the true sizes of all valid structures are within the computed bounds if and only if the largest is below 2^64 bytes |
| DynamicPacking.ComputedWithinBounds | src/DynamicPackingInfo.h:122-200 | the computed sizes of all valid structures are within the computed bounds if the smallest and the largest wrap around equally often, and only then when no element jumps over the gap between the bounds |
| DynamicPacking.CoarseElements | src/DynamicPackingInfo.h:122-200 | elements of half the range show that the condition on elements is needed |
| DynamicPacking.DefaultBoundsWrap | src/DynamicPackingInfo.h:41-63 | a placeholder with default bounds and an 8-byte field: the computed maximum is 7 |
| DynamicPacking.TailSize | src/DynamicPackingInfo.h:202-215 | with a dynamic field the static tail is the size of all fields behind the last one |
| DynamicPacking.NoDynamicField | src/DynamicPackingInfo.h:202-215 | for every list without a dynamic field the static tail is the size of all fields but the first, and is the whole size only if the first field takes no room |

## Left out

- Uint.Uint.CopyBits: fills the blocks from the low end; the code fills them from the high end and reverses them, with the same result.
- UintDiv.DivMod: needs at least two bits, because with one bit the shift by one breaks the assertion at src/uint_t.h:377.
- UintMul.Mul: the branch for a single block is multiplication modulo 2^w; the promotion of narrow blocks to `int` is not modelled.
- TimeoutsThread.TimeoutsThread.Timeout: a timed wait times out only when its time point has been reached on the same clock.
- Future.Promise.Resolve: moving a promise object, and assigning over a promise that is still valid, are not modelled.
- Future.StepInv: the protocol over many states is a transition system on values; the locked sections and the promise are also classes with the fields of the code, proved against the same functions. A moved-out value is modelled as copied.
- TicketSpinLock.StepInv: the protocol is a transition system on values, which the methods of the lock class follow step by step.
- Strand.StepInv: the pool is a count of queued slice tasks; that its own queue delivers them is proved for the pool.
- SharedResourceMap.Inner.EntriesAreHeld: liveness (that a pending deleter does run) is an assumption about scheduling.
- NetworkMessage.OutgoingMessage.WriteBytes: failure to allocate is not modelled; the grown buffer first holds arbitrary bytes.
- LRU.LRU.Insert: takes non-null values, as the element of a null value would count as weak in the strong list.
- BitVectorMessage.RoundTrip: the order of bytes in a word is little-endian, as on the platforms the wire format is for.
- The other operators of `uint_t` (`~`, unary minus, `^`, bit references, conversion to 64 bits) and shift counts of its own type.
- The actor versions of the read and write loops of the circular buffer, and its blocking variants.
- The blocking waits of futures, `PackagedTask`, and `swap`.
- `waitForEmpty`, `forEach`, user constructors that throw, and a user-supplied constructor of a shared resource.
- Weak memory orders: all atomic accesses are sequentially consistent.
- Progress under real scheduling: that a woken thread runs, that a lock is granted, that a task returns.
- `BitVec::append`, `resize`, `randomize`, and `rewind` and `seek` of messages.
- Moving a holder or a future into itself, and user code that re-enters a lock.
- I/O and system wrappers (event loop, file descriptors, exceptions, UUIDs) and type-level helpers.
- `UnorderedMap`, `StringView`, `Split`, `Range`, `Optional`, `Latch`, `CallStack` and integral comparisons, which would only add easy members.
