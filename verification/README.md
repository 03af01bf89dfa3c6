# FAMOUSO: verified models

FAMOUSO is a publish/subscribe middleware. This project models the parts of it that carry an
algorithm and proves what they are for.

- **The erasure code** (`externals/FEC/fec.c`). A systematic Reed-Solomon code over GF(2^m): any k
  of n packets rebuild the data. The abstract layer is a field of characteristic two (`Fields`),
  linear algebra over it (`Vectors`, `Elimination`), polynomials and Lagrange interpolation
  (`Polynomials`) and the code itself (`ErasureCode`). The concrete layer is the field of the build
  (`Bits`, `Powers`, `CarryLess`, `GaloisField`), its tables (`FieldTables`), and the routines on
  flat arrays (`FieldMatrices`, `MatrixInversion`, `VandermondeInversion`, `PacketShuffle`,
  `ErasureCodec`, `PacketCoding`). `BUILD` is an arbitrary width from 2 to 16 with an arbitrary primitive
  polynomial, so every theorem holds for each build; `PolynomialTable` shows that each of the
  fifteen polynomials of the source is one, by certificates evaluated on 16-bit words
  (`BitVectors`, `Divisors`, `PrimitivePolynomials`, `PolynomialCertificates`).
- **The first-fit allocator** (`include/object/RawStorage.h`). `StorageLayout` is the list of blocks
  and the search with the C integer conversions; `RawStorage` keeps that list in the bytes of the
  pool, header by header.
- **The bounded buffer monitor** (`include/object/SynchronizedBoundedBuffer.h`). `BoundedBuffer` is
  a transition system of any number of threads with one mutex and two condition variables,
  spurious wakeups included.
- **The periodic dispatcher** (`externals/timefw`). `Schedule` has the arithmetic of start times and
  the sorted queue, `DispatcherRuns` the runs, `Dispatcher` the chained tasks on the heap.
- **Three buffers.** `SubscriberBuffer` (`Bindings/client/famouso.cc`), `RingBuffer`
  (`include/object/RingBuffer.h`) and `SlotPool` (`include/object/ConstantSizeList.h`).

`dafny verify dfyconfig.toml` checks the whole project.

## What the proofs found

- `invert_vdm` is documented for any Vandermonde matrix of distinct points. It drops a factor on the
  way, and computes the inverse exactly when there are at most two points or one of the first two
  points is zero (`VdmInverseIff`). `fec_new` supplies zero first, so the code is right.
- `increase_by_multiple_above(a, b, c)` is documented to return a value greater than `c`. It does
  exactly when `a` is greater, or `a` is less and the sum `a + ((c - a) / b + 1) * b` is within the
  range of the type; for `a == c` it returns `c`, and when the sum wraps around it returns a value
  below `c` (`AboveExactly`, `TurnsOver`). It is the loop of its comment, with one more period when
  the period divides the gap, exactly when that sum fits (`ClosedFormIsLoop`). So a periodic task
  keeps its phase from run to run exactly as long as its next start is in the range of the clock
  (`PhaseExactlyInTime`), and otherwise goes back into the queue for a start less than a period after
  the last one.
- `RawStorage` is safe over all runs exactly for the pool sizes for which the sums of the search do
  not wrap around in `SizeT` (`SafeExactlyWhenSound`): size plus one header below the range of
  `SizeT` where `SizeT` is narrower than `int`, twice the size below it otherwise. For every other
  size two allocations return a block beyond the pool.
- `ConstantSizeList` is documented for up to 255 elements. `newElement` gives an element, or null
  when all are in use, in every run exactly when the number of elements is a multiple of eight;
  for every other number it gives a slot beyond the array once all are in use
  (`GivesElementsExactly`).
- Its search for the next element skips slots exactly when it starts inside an empty byte and the
  next slot in use has a lower bit number (`GetNextElement`); iteration never does that, and visits
  exactly the elements in use, for every number of elements (`Traverse`, `AlwaysTidy`).

## Model

| member | source | states |
|---|---|---|
| Polynomials.QuotientDivides | externals/FEC/fec.c:597-607 | synthetic division: p(y) = (y - x) q(y) + p(x) for all y |
| Polynomials.TooManyRoots | externals/FEC/fec.c:554-560 | a polynomial with at least as many distinct roots as coefficients is zero |
| Polynomials.VandermondeNonsingular | externals/FEC/fec.c:549-560 | Vandermonde matrices of distinct points are not singular |
| Polynomials.LoopDeficit | externals/FEC/fec.c:583-595 | by how much the computed coefficients differ from those of the product over all points |
| Polynomials.LagrangeInverts | externals/FEC/fec.c:597-610 | the columns made from the full product are the inverse (Lagrange interpolation) |
| Polynomials.VdmInverseCorrect | externals/FEC/fec.c:549-615 | with at most two points or a zero among the first two the result is the two-sided inverse |
| Polynomials.VdmInverseWrong | externals/FEC/fec.c:549-615 | in all other cases it is not |
| Polynomials.VdmInverseIff | externals/FEC/fec.c:549-615 | the exact condition under which invert_vdm inverts |
| Elimination.TableauPivot | externals/FEC/fec.c:491-525 | one elimination step exchanges an input with an output and keeps every solution |
| Elimination.TableauRowSwap | externals/FEC/fec.c:484-490 | swapping rows for an off-diagonal pivot keeps the solutions up to the recorded renaming |
| Elimination.TableauColumnSwap | externals/FEC/fec.c:527-538 | swapping columns undoes one renaming |
| Elimination.TableauDone | externals/FEC/fec.c:527-539 | with all columns used and all swaps undone the array holds the inverse |
| Elimination.TableauStuck | externals/FEC/fec.c:473-476 | no pivot among unused rows and columns means the matrix is singular |
| ErasureCode.EncodeIsEvaluation | externals/FEC/fec.c:673-709 | row i of the encoding matrix applied to data is the interpolation polynomial at point i |
| ErasureCode.AnyRowsNonsingular | externals/FEC/fec.c:673-709 | any k different rows of the encoding matrix are a nonsingular matrix |
| ErasureCode.EncodedSystematic | externals/FEC/fec.c:730-732 | the first k encoded packets are the source packets |
| ErasureCode.InverseRestores | externals/FEC/fec.c:847-856 | the inverse of the received rows maps the received packets to the source packets |
| ErasureCode.AnyPacketsDetermineSource | externals/FEC/fec.c:820-830 | any k packets with different indices determine the source packets |
| Vectors.InverseIsProductIdentity | externals/FEC/fec.c:401-413 | being the inverse is the same as both products being the identity |
| Powers.NextXor | externals/FEC/fec.c:288-299 | multiplication by alpha is linear |
| Powers.MulAlpha | externals/FEC/fec.c:181-206 | the carry-less product of two powers of alpha is the power of the sum |
| CarryLess.MulIsRemainder | externals/FEC/fec.c:126-148 | the product is the remainder of the plain carry-less product after division by the polynomial, and nothing else is |
| CarryLess.RemainderUnique | externals/FEC/fec.c:126-148 | division by the polynomial leaves only one remainder |
| Powers.AlphaOnto | externals/FEC/fec.c:226-231 | for a primitive polynomial every nonzero element is one of the first 2^m - 1 powers |
| Powers.AlphaReturns | externals/FEC/fec.c:226-235 | the powers repeat after 2^m - 1 steps |
| GaloisField.LogExp | externals/FEC/fec.c:228-230 | logarithm and exponential are mutually inverse |
| GaloisField.TimesByLogs | externals/FEC/fec.c:200-206 | nonzero elements multiply by adding logarithms modulo 2^m - 1 |
| GaloisField.TimesInverse | externals/FEC/fec.c:310-318 | every nonzero element times its inverse is one |
| GaloisField.TimesIsRemainder | externals/FEC/fec.c:126-148 | the field product is the remainder of the plain carry-less product, and nothing else is |
| GaloisField.ExpIsRemainder | externals/FEC/fec.c:226-231 | power i of alpha is the remainder of x^i, and nothing else is |
| GaloisField.LowBitsAt | externals/FEC/fec.c:276-281 | bit i of what alpha^m reduces to is coefficient i of the string |
| GaloisField.GFIsField | externals/FEC/fec.c:151-162 | exclusive or and the product modulo the polynomial satisfy all laws of a field |
| PolynomialTable.AllPpSuitable | externals/FEC/fec.c:126-148 | every polynomial of the table is primitive of its degree |
| PrimitivePolynomials.PrimitiveByWitnesses | externals/FEC/fec.c:126-129 | alpha generates when it is one at the group order and not at its maximal divisors |
| BitVectors.WordTimes | externals/FEC/fec.c:226-231 | the product computed on words is the product of the numbers they stand for |
| FieldTables.ModNN | externals/FEC/fec.c:165-177 | shifts and masks end and leave the remainder modulo 2^m - 1 |
| FieldTables.Tables.NextPower | externals/FEC/fec.c:288-300 | one round of the recurrence enters the next power of alpha and its logarithm |
| FieldTables.Tables.GenerateGf | externals/FEC/fec.c:258-319 | the tables hold all powers twice, all logarithms and all inverses |
| FieldTables.Tables.InitMulTable | externals/FEC/fec.c:200-210 | for narrow fields the table holds the product of every pair |
| FieldTables.Tables.InitFec | externals/FEC/fec.c:617-630 | after initialisation every table entry is right |
| FieldTables.Lookup.GfMul | externals/FEC/fec.c:194-217 | the table product is the field product, for narrow and for wide fields |
| FieldMatrices.AddMul1 | externals/FEC/fec.c:338-374 | the loop unrolled sixteen times adds c times the source to the target and touches nothing else |
| FieldMatrices.AddMul | externals/FEC/fec.c:334-335 | also for c = 0, where the call is skipped |
| FieldMatrices.MatMul | externals/FEC/fec.c:376-394 | the target holds the matrix product, the rest of the array is unchanged |
| MatrixInversion.FindPivot | externals/FEC/fec.c:446-476 | a nonzero element in an unused row and column, or none exists |
| MatrixInversion.Eliminate | externals/FEC/fec.c:508-525 | the pivot column is cleared, also when the step is skipped for a unit pivot row |
| MatrixInversion.PivotRound | externals/FEC/fec.c:478-525 | one round is row swap followed by one pivot step |
| MatrixInversion.StuckIsSingular | externals/FEC/fec.c:473-476 | when no pivot is found the original matrix is singular |
| MatrixInversion.Unscramble | externals/FEC/fec.c:527-538 | undoing the swaps on the columns, last swap first, leaves the inverse |
| MatrixInversion.InvertMat | externals/FEC/fec.c:416-547 | returns zero exactly when the matrix is nonsingular, and then the array holds its inverse |
| VandermondeInversion.Coefficients | externals/FEC/fec.c:583-595 | the loop computes the coefficients of the product with one factor short in the constant term |
| VandermondeInversion.Divide | externals/FEC/fec.c:598-607 | the quotient by (x - xx), and its value at xx |
| VandermondeInversion.InvertVdm | externals/FEC/fec.c:561-615 | the matrix is replaced by the computed inverse, what follows it in the array is unchanged |
| VandermondeInversion.OneTwoThreeWrong | externals/FEC/fec.c:549-560 | a Vandermonde matrix invert_vdm does not invert |
| PacketShuffle.SwapStep | externals/FEC/fec.c:756-768 | one swap keeps the permutation and brings one more entry into place |
| PacketShuffle.Shuffle | externals/FEC/fec.c:748-781 | ends; zero exactly when source indices are distinct; one permutation on both arrays, sources in their slots |
| ErasureCodec.PointsAreCodePoints | externals/FEC/fec.c:673-683 | the points 0, 1, alpha, alpha^2, ... are distinct and begin with zero |
| ErasureCodec.AdmissibleExactly | externals/FEC/fec.c:673-677 | the parameters accepted are exactly those for which n different points with a zero first exist in the field |
| ErasureCodec.FillPowers | externals/FEC/fec.c:673-683 | the matrix of powers is the Vandermonde matrix of the points |
| ErasureCodec.MakeSystematic | externals/FEC/fec.c:685-703 | identity on top, bottom times the inverse of the top below it |
| ErasureCodec.FecLibrary.FecNew | externals/FEC/fec.c:661-711 | null exactly when k > n or n > 2^m, otherwise a code with its encoding matrix |
| PacketCoding.FecEncode | externals/FEC/fec.c:718-743 | the packet is the row of the encoding matrix applied to the source packets, also when a source packet is copied onto itself or another; a bad index writes nothing |
| PacketCoding.LeastBytes | externals/FEC/fec.c:117-122 | a symbol takes the least number of bytes that can hold every field element, and no other |
| PacketCoding.WholeSymbols | externals/FEC/fec.c:730-731 | all whole symbols of the sz bytes are coded; what is left is less than a symbol |
| PacketCoding.BuildDecodeMatrix | externals/FEC/fec.c:783-818 | null exactly when an index is out of range or the rows are singular, otherwise the inverse of the rows |
| PacketCoding.EqualRowsNoInverse | externals/FEC/fec.c:783-818 | a repeated index makes the rows singular |
| PacketCoding.Decodable | externals/FEC/fec.c:820-830 | k different valid indices, in any order, give a nonsingular matrix |
| PacketCoding.DecodedIsSource | externals/FEC/fec.c:847-867 | rebuilt and untouched packets together are the source packets |
| PacketCoding.DecodeOutcomeVia | externals/FEC/fec.c:820-872 | success exactly for k different valid indices, and then every possible source is restored |
| PacketCoding.FecDecode | externals/FEC/fec.c:831-872 | returns zero exactly for k different valid indices, and then the buffers hold the source packets in order, byte for byte but for an odd last one; otherwise packets and indices are rearranged together and no packet is written |
| PacketCoding.EncodeThenDecode | externals/FEC/test.c:152-171 | the round trip the library is for: encoding at k indices and decoding restores every byte of every whole symbol exactly when the indices differ |
| PacketCoding.RoundTrip | externals/FEC/test.c:152-171 | the same from nothing: for all 1 <= k <= n <= 2^m, with the tables and the code the library makes |
| StorageLayout.Ascending | include/object/RawStorage.h:83-94 | blocks are disjoint, ascending and within the pool |
| StorageLayout.WidthIsLeast | include/config/type_traits/SmallestUnsignedTypeSelector.h:53-69 | SizeT is the smallest of the four types that holds the pool size; a header is two of them |
| StorageLayout.SumAsInC | include/object/RawStorage.h:118-127 | a sum is right modulo the range of SizeT, and exact exactly if it is computed in int or does not wrap around |
| StorageLayout.SearchExact | include/object/RawStorage.h:100-142 | first fit: none exactly when no free place for header and payload exists, otherwise the lowest one |
| StorageLayout.AllocatedLayout | include/object/RawStorage.h:181-198 | alloc keeps the blocks disjoint, ascending and in bounds |
| StorageLayout.FreedLayout | include/object/RawStorage.h:232-251 | free keeps the blocks disjoint, ascending and in bounds |
| StorageLayout.RunsAreSafe | include/object/RawStorage.h:51-60 | so does every run of calls on a sound pool |
| StorageLayout.OneMoreAlloc | include/object/RawStorage.h:176-224 | over every run alloc adds one block, at the lowest free place, exactly when there is room |
| StorageLayout.OneMoreRelease | include/object/RawStorage.h:226-264 | over every run free takes exactly the block at the pointer away |
| StorageLayout.UnsoundPoolsBreak | include/object/RawStorage.h:118-127 | on every other pool two allocations place a block beyond it |
| StorageLayout.SafeExactlyWhenSound | include/object/RawStorage.h:75-127 | all runs are safe if and only if the sums of the search cannot wrap around |
| StorageLayout.ListFromBlocks | include/object/RawStorage.h:86-94 | the list depends only on the set of live blocks |
| StorageLayout.AllocThenFree | include/object/RawStorage.h:181-251 | freeing what was just allocated restores the list |
| StorageLayout.FreedElements | include/object/RawStorage.h:232-251 | exactly the block at the given pointer goes |
| StorageLayout.FreeEverything | include/object/RawStorage.h:173-174 | freeing all blocks in any order leaves the empty list of a new pool |
| RawStorage.Store | include/object/RawStorage.h:192-198 | a field written into the bytes is read back, no other byte changes |
| RawStorage.HeadersInserted | include/object/RawStorage.h:190-198 | writing one header and one link makes the bytes hold the longer list |
| RawStorage.HeadersRemoved | include/object/RawStorage.h:247-251 | writing one link makes the bytes hold the shorter list |
| RawStorage.PayloadWritesKeepHeaders | include/object/RawStorage.h:47-54 | whatever owners write into their blocks, the list is intact |
| RawStorage.RawStorage.constructor | include/object/RawStorage.h:172-174 | a new pool has no blocks |
| RawStorage.RawStorage.FindFirstFit | include/object/RawStorage.h:107-142 | the walk through the bytes finds what the search on the list finds |
| RawStorage.RawStorage.Alloc | include/object/RawStorage.h:176-224 | null exactly when there is no room, otherwise the lowest place; the list gains this block; no payload byte changes |
| RawStorage.RawStorage.FindAllocatedBlock | include/object/RawStorage.h:144-169 | the link in front of the block a pointer belongs to, or null |
| RawStorage.RawStorage.Free | include/object/RawStorage.h:226-264 | succeeds exactly for pointers of live blocks; the list loses this block; no payload byte changes |
| RawStorage.RawStorage.GetLength | include/object/RawStorage.h:266-275 | the length requested when the block was allocated |
| BoundedBuffer.MutualExclusionKept | include/object/SynchronizedBoundedBuffer.h:64-79 | only the owner of the mutex is inside |
| BoundedBuffer.FifoKept | include/object/SynchronizedBoundedBuffer.h:64-79 | items come out in the order they went in, never more than the capacity between |
| BoundedBuffer.WakeupKept | include/object/SynchronizedBoundedBuffer.h:64-79 | while callers sleep, there is work for no more of them than threads awake to do it or to notify them |
| BoundedBuffer.ReachableInv | include/object/SynchronizedBoundedBuffer.h:64-86 | all of this in every reachable state; back and pop_back never meet an empty container |
| BoundedBuffer.PoppedIsPrefix | include/object/SynchronizedBoundedBuffer.h:64-86 | under every interleaving what was popped is a prefix of what was pushed |
| BoundedBuffer.ItemsPushed | include/object/SynchronizedBoundedBuffer.h:64-70 | over every run each item was pushed as often as push_front was called with it, but for the calls under way |
| BoundedBuffer.ItemsPopped | include/object/SynchronizedBoundedBuffer.h:72-79 | over every run as many items were popped as pop_back was called, but for the calls under way |
| BoundedBuffer.CallReturns | include/object/SynchronizedBoundedBuffer.h:64-79 | from every quiet reachable state a call that finds room, or an item, can return with its item pushed or the oldest item popped |
| BoundedBuffer.CallWaits | include/object/SynchronizedBoundedBuffer.h:64-79 | and a call that does not goes to sleep, changes nothing, and may wake up spuriously |
| BoundedBuffer.QuietMeansRight | include/object/SynchronizedBoundedBuffer.h:64-79 | no lost wakeup: when nobody moves, sleeping consumers mean an empty buffer and sleeping producers a full one |
| BoundedBuffer.SomeoneMoves | include/object/SynchronizedBoundedBuffer.h:64-79 | no deadlock: as long as some caller is neither outside nor asleep, a step is possible |
| BoundedBuffer.WorkDecreases | include/object/SynchronizedBoundedBuffer.h:64-79 | no livelock: each step uses up work |
| BoundedBuffer.BecomesQuiet | include/object/SynchronizedBoundedBuffer.h:64-79 | from every reachable state a bounded number of steps leads to one in which every sleeper is right to sleep |
| Schedule.ClosedFormIsLoop | externals/timefw/increase_by_multiple_above.h:45-54 | the closed form is the commented loop, one period more when the period divides the gap, if and only if its sum does not wrap around |
| Schedule.AboveExactly | externals/timefw/increase_by_multiple_above.h:45-54 | the result is above c if and only if the argument was, or was below c and the sum does not wrap around; it is below c if and only if the sum does |
| Schedule.NotAboveItself | externals/timefw/increase_by_multiple_above.h:45-54 | an argument for which the result is not above c |
| Schedule.TurnsOver | externals/timefw/increase_by_multiple_above.h:45-54 | for both clocks, arguments for which the sum wraps around and the result is far below c |
| Schedule.LeastAbove | externals/timefw/increase_by_multiple_above.h:45-54 | a whole number of steps, from below c to the least such value above c, if and only if the sum does not wrap around |
| Schedule.PhaseKept | externals/timefw/Dispatcher.h:129-136 | a rescheduled task moves on by at least one period if and only if its next start is in range; then it keeps its phase, and if a period on is late takes the first start after now |
| Schedule.NotInThePast | externals/timefw/Dispatcher.h:129-136 | the next start is not in the past if and only if a period on is not, or the first start of the phase after now is in range |
| Schedule.NextStartInPhase | externals/timefw/Dispatcher.h:129-136 | the next start is in phase on a clock that turns over, whatever the times |
| Schedule.InsertedSorted | externals/timefw/Dispatcher.h:91-101 | insertion keeps the queue sorted by start |
| Schedule.InsertedInPlace | externals/timefw/Dispatcher.h:91-101 | the new entry is in front of the first one that starts no earlier, the others keep their order |
| DispatcherRuns.AlwaysSorted | externals/timefw/Dispatcher.h:88-101 | over every run the queue is sorted, tasks enqueued by the task that runs included |
| DispatcherRuns.EarliestFirst | externals/timefw/Dispatcher.h:172-182 | the task dispatched has the earliest start of all |
| DispatcherRuns.Conservation | externals/timefw/Dispatcher.h:126-152 | no periodic task is lost or duplicated: it is in the queue or runs; a one-shot task is in the queue or has been dispatched, once per enqueue |
| DispatcherRuns.OneShotsAsGiven | externals/timefw/Dispatcher.h:143-152 | over every run a one-shot task waits, runs and has run exactly as it was given to enqueue |
| DispatcherRuns.PhaseOverRuns | externals/timefw/Dispatcher.h:126-152 | consecutive runs of a periodic task are whole periods apart, at least one, in runs in which next starts are in range |
| DispatcherRuns.PhaseExactlyInTime | externals/timefw/Dispatcher.h:126-152 | at every moment of a run every periodic task dispatched runs or waits for a later start of its phase, if and only if all next starts are in range |
| DispatcherRuns.AdmittedExactly | externals/timefw/Dispatcher.h:143-152 | an enqueued periodic task waits for the first start of its phase after a second from now, or its own, if and only if that is in range |
| DispatcherRuns.SecondFromNow | externals/timefw/Dispatcher.h:147-150 | an enqueued periodic task starts no earlier than 10^9 nanoseconds, or 10^6 microseconds, from now, if and only if that start is in range |
| DispatcherRuns.InPhaseOverRuns | externals/timefw/Dispatcher.h:126-152 | every start is a whole number of periods after the start at enqueuing, in runs in which starts are in range |
| DispatcherRuns.OnClockOverRuns | externals/timefw/Dispatcher.h:126-152 | over every run, in range or not, every start is a whole number of periods after the start at enqueuing, modulo the range of the clock |
| Dispatcher.Task.Futurify | externals/timefw/Time.h:107-113 | the start is moved on by the closed form |
| Dispatcher.Dispatcher.InsertTask | externals/timefw/Dispatcher.h:91-101 | the chained tasks are the sorted queue with the new task in front of those that start no earlier |
| Dispatcher.Dispatcher.Unlink | include/object/inline/Queue.cc:94-100 | the head is taken off and returned |
| Dispatcher.Dispatcher.RunTask | externals/timefw/Dispatcher.h:126-128 | while a task runs the tasks it enqueues are chained in, one after the other |
| Dispatcher.Dispatcher.Dispatch | externals/timefw/Dispatcher.h:126-137 | whatever the task enqueued while it ran, a periodic task is chained in again for its next start, a one-shot task is gone |
| Dispatcher.Dispatcher.PutBack | externals/timefw/Dispatcher.h:129-136 | a periodic task is in the queue for its next start; nothing happens to a one-shot task |
| Dispatcher.Dispatcher.EnqueueTask | externals/timefw/Dispatcher.h:143-152 | the task is chained in, a one-shot task with the start it has, a periodic one for a second from now or later |
| Dispatcher.Dispatcher.Run | externals/timefw/Dispatcher.h:158-187 | the loop on the heap does what the iterations on the queue do |
| Dispatcher.IterationIsRun | externals/timefw/Dispatcher.h:172-182 | an iteration dispatches the first task of the queue, if there is one, and only that |
| Dispatcher.LoopIsRun | externals/timefw/Dispatcher.h:158-187 | each iteration is a start, the calls of the task and a finish, so what holds over all runs holds for the loop |
| SubscriberBuffer.InOrderOnce | Bindings/client/famouso.cc:42-43 | accepted events are delivered in order, exactly once, and kept at most until the next poll |
| SubscriberBuffer.AcceptedOrLost | Bindings/client/famouso.cc:58-67 | over every run an event is accepted unless as many events are kept as there are slots |
| SubscriberBuffer.DeliveredNext | Bindings/client/famouso.cc:79-94 | over every run a poll hands out the next accepted event, if there is one, and gives up the one before |
| SubscriberBuffer.SubscriberEC.constructor | Bindings/client/famouso.cc:46-49 | the buffer starts empty |
| SubscriberBuffer.SubscriberEC.Callback | Bindings/client/famouso.cc:58-67 | if any slot is free the event is accepted and stored in a free slot, and no other slot is written; otherwise nothing changes |
| SubscriberBuffer.SubscriberEC.Poll | Bindings/client/famouso.cc:79-94 | the oldest waiting event is handed out in its slot, the slot before is free again, no other slot changes; false exactly when none waits, and then all slots are free |
| RingBuffer.Index | include/object/RingBuffer.h:85-95 | subtracting the length once is the index modulo the length |
| RingBuffer.WidthIsLeast | include/object/RingBuffer.h:62-67 | SizeT is the smallest type that holds the length, DoubleSizeT is twice as wide |
| RingBuffer.SumFits | include/object/RingBuffer.h:87-88 | the wider type holds the sum of two indices |
| RingBuffer.RingBuffer.constructor | include/object/RingBuffer.h:133-135 | the buffer starts empty |
| RingBuffer.RingBuffer.EmptyAndFull | include/object/RingBuffer.h:143-150 | empty means no element, full as many as the array has |
| RingBuffer.RingBuffer.GetIdx | include/object/RingBuffer.h:85-95 | the array index of a position |
| RingBuffer.RingBuffer.Get | include/object/RingBuffer.h:185-193 | the element at a position of the sequence |
| RingBuffer.RingBuffer.Set | include/object/RingBuffer.h:185-193 | assigning through the reference changes that element only |
| RingBuffer.RingBuffer.Front | include/object/RingBuffer.h:152-159 | the first element |
| RingBuffer.RingBuffer.Back | include/object/RingBuffer.h:170-176 | the last element |
| RingBuffer.RingBuffer.PushFront | include/object/RingBuffer.h:204-214 | the sequence gains an element in front |
| RingBuffer.RingBuffer.PushBack | include/object/RingBuffer.h:216-225 | the sequence gains an element behind |
| RingBuffer.RingBuffer.PopFront | include/object/RingBuffer.h:227-235 | the sequence loses its first element |
| RingBuffer.RingBuffer.PopBack | include/object/RingBuffer.h:237-244 | the sequence loses its last element |
| SlotPool.ConstantSizeList.constructor | include/object/ConstantSizeList.h:101-105 | no slot is in use, for any number of elements up to 255 |
| SlotPool.GivesElementsExactly | include/object/ConstantSizeList.h:210-227 | over all runs newElement gives an element or, when all are in use, null, if and only if N is a multiple of eight; otherwise some run makes it give slot N |
| SlotPool.AlwaysTidy | include/object/ConstantSizeList.h:200-227 | after every run, a slot beyond slot N is in use only if slot N is, so end is reached |
| SlotPool.NewTakesLowest | include/object/ConstantSizeList.h:215-227 | over every run newElement takes the lowest free slot and changes no other |
| SlotPool.DeleteFrees | include/object/ConstantSizeList.h:201-208 | over every run delElement frees the element and leaves every other slot alone |
| SlotPool.GivenAgain | include/object/ConstantSizeList.h:201-227 | an element taken and given back leaves the flags as they were and is the one taken next |
| SlotPool.NeverLost | include/object/ConstantSizeList.h:201-227 | after an element has been given back the next one given out is that one or a lower one |
| SlotPool.ConstantSizeList.NewElement | include/object/ConstantSizeList.h:215-227 | the lowest free slot is taken and no other flag changes; none exactly when all slots are in use |
| SlotPool.ConstantSizeList.DelElement | include/object/ConstantSizeList.h:201-208 | that element is free again, all other flags are as before; a pointer to no element changes nothing |
| SlotPool.ConstantSizeList.GetNextElement | include/object/ConstantSizeList.h:239-263 | the first slot in use from t on, or N, unless the search skips; an element skipped is not returned |
| SlotPool.SkipsSlotEight | include/object/ConstantSizeList.h:246-263 | a pool and a position for which the search skips a slot |
| SlotPool.NoSkip | include/object/ConstantSizeList.h:159-171 | from a byte boundary, or behind a slot in use, it does not |
| SlotPool.ListedExactly | include/object/ConstantSizeList.h:118-126 | the list of elements in use is ascending and complete |
| SlotPool.ConstantSizeList.Traverse | include/object/ConstantSizeList.h:118-171 | begin and ++ visit exactly the elements in use, in ascending order |

## Left out

- `malloc`, `free` and the magic word of `fec_free`, timing macros, diagnostics on stderr and `test_gf`: no algorithm.
- Branches of `invert_mat` that its own invariants rule out (a pivot count above one, a zero pivot, swap records out of range): the model has no counterpart, the invariants show they are dead.
- The field tables are arrays while they are filled; once `InitFec` is done they are only read, and the routines use their contents as a value.
- Integer overflow of `row*col` in `fec_new` for widths near 16, and of products of packet counts: the model computes with unbounded integers.
- ErasureCodec.FecLibrary.FecNew: for k of at least one; for k = 0 the source does not return null but indexes in front of its buffers. Negative packet indices are likewise not checked by the source.
- Byte order inside symbols of two bytes: packets are sequences of symbols, and bytes of a symbol are counted from the low one; for wide fields an odd last byte is not coded, as in the source.
- PacketCoding.FecEncode: packets to be combined do not share a buffer with the result, because the source combines in place.
- PacketCoding.FecDecode: packets have separate buffers, because the source writes one while others are still to be read.
- Alignment and pointer casts of `RawStorage`, its logging and `print_mem_info`: pointers are offsets into the pool, header fields are little-endian numbers in its bytes.
- RawStorage.RawStorage.Alloc: only for sound pools, because on the others the source writes beyond the pool; `SafeExactlyWhenSound` says which these are.
- RawStorage.RawStorage.Free: an unknown pointer gives false where the source stops at an assertion.
- Fairness of the mutex and timing in `SynchronizedBoundedBuffer`; copying of items.
- Dispatcher.Dispatcher.Dispatch: of what a task does while it runs only its calls of `enqueue` are modelled; it does not change tasks in the queue, which the source forbids.
- Dispatcher.Dispatcher.Run: signals, sleeping and waiting out of sync are not modelled; the clock is an input, one reading for each call.
- DispatcherRuns.PhaseOverRuns: for runs in which no task is enqueued twice, as the source asks of its callers.
- DispatcherRuns.InPhaseOverRuns: one way only, because a start that has wrapped around is in phase by accident when the period divides the range of the clock; `PhaseExactlyInTime` and `AdmittedExactly` have the exact conditions, and `OnClockOverRuns` what holds without any.
- `yield_for_rt` unlinks tasks without putting them back, so conservation does not hold across it; `dequeue` is not modelled.
- The tail pointer of `Queue`, which the dispatcher never uses.
- SubscriberBuffer.SubscriberEC.Callback: concurrent calls of `cb` and `poll` are one step each.
- SlotPool.ConstantSizeList.constructor: at most 255 elements, as documented; construction and destruction of the elements and the destructor are not modelled.
- AFP fragmentation, network layers, drivers and language bindings other than the subscriber buffer: mostly input and output, or policies whose code is not part of this model.
