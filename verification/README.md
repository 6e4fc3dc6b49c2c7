# Proofs about the multithreading, process and file programs

A Dafny model of small Linux system programs, one module per program, with proofs that hold for every
input and every schedule.  `dafny verify dfyconfig.toml` checks all of it.

- Concurrent programs (`ParallelCopy`, `MatrixMul`, `PrimeCancel`, `IoBuffers`, `SharedBuffer`,
  `SharedSchedules`, `CleanupHandler`, `SharedOffset`, `CondVar`, `Bank`, `BankRace`, `BankLimit`,
  `Factorial`, `ForkTree`) are transition systems.  `Runs` defines systems, runs, reachable states,
  invariants and ranks once for all of them.  A step is the smallest action whose order matters: one
  system call, one stream operation under its lock, or one load or store of a shared variable.
  Thread counts, sizes, matrices, scripts and ranges are parameters; the constants of the programs appear
  only as instances of the general results, at the end of the table.  Threads are numbered from 0.
- Sequential code (`Transfers`, `BlockCopy`, `MatrixMul.Multiply`, `PrimeGen`, `PrimeMerge`, `HexDump`,
  `ScatterGather`, `Bank.Account`, `Factorial.Accumulator`) keeps its loops, arrays and fields and is
  proved against specification functions; the lemmas say what those functions mean.
- `Files`, `Heap`, `Text` and `Arith` hold file contents, heap blocks, printf conversions and division
  facts that several programs share.

Deferred cancellation follows section 2.9.5 (Thread Cancellation) of the System Interfaces volume of
POSIX.1-2017; condition waits follow pthread_cond_wait in the same volume, including spurious wakeups.

Where the code differs from what its comments or its purpose suggest, the model follows the code:

- fd_read and fd_write repeat a short transfer with the same buffer, count and (for pread and pwrite)
  offset.  `ReadExact`, `PreadExact` and `WriteExact` say exactly for which kernels they work; the copy
  programs are proved for kernels that cut nothing short before the end of the file.
- The trial division with divisors below limit / 2 emits 1 when start is at most 1, 0 when start is 0 and
  the limit is below 6, and 4 when the limit is 4 or 5 (`PassesExactly`).
- gCanceledThread is 0 when nobody was cancelled, so that a run without cancellation leaves out thread 0
  (`AtExit`).
- A buffer of MEM_SIZE bytes is said to hold around 25,000 primes; it holds 12499 (`BufferSuffices`).
- The copy programs and the prime merge do not truncate the file they write; old contents beyond the new
  ones stay (`Overlay`).
- workerA waits before it tests gWorkDone (`LostWakeupReachable`).
- The "+%06d" label of a dump is cut after 7 characters (`LabelExact`).
- In bankacc.c an opening balance below the credit limit stays there; the limit is then that balance
  (`BalanceConserved`).

## Model

| member | source | states |
|---|---|---|
| Transfers.Descriptor.FdRead | A_fileio/simpcp2.c:37-55 | for every sequence of amounts the kernel transfers, the return value, buffer, seek position and call count of the loop; the buffer address and the count never advance |
| Transfers.Descriptor.FdWrite | A_fileio/simpcp2.c:57-73 | the same for the write loop, with the new file contents |
| Transfers.Descriptor.FdPread | solutions_to_assgn/ch18/mt_copy.c:107-125 | the same for pread, where the offset does not advance either |
| Transfers.Descriptor.FdPwrite | solutions_to_assgn/ch18/mt_copy.c:127-143 | the same for pwrite |
| Transfers.ReadExact | A_fileio/simpcp2.c:37-55 | fd_read on read(2) delivers the next n bytes (fewer only at end of file) whatever the buffer held, if and only if its first call is not cut short and the call that meets the end of file does not fail |
| Transfers.PreadExact | solutions_to_assgn/ch18/mt_copy.c:107-125 | fd_read on pread(2) delivers a segment inside the file if and only if its first call is not cut short |
| Transfers.ShortReadFails | solutions_to_assgn/ch18/mt_copy.c:107-125 | a first call cut short below what is there always breaks the promise of fd_read, for both variants |
| Transfers.LastByteUntouched | solutions_to_assgn/ch18/mt_copy.c:107-125 | after a short transfer the loop can return the right count only with the last byte of the request left as it was |
| Transfers.WriteExact | solutions_to_assgn/ch18/mt_copy.c:127-143 | fd_write stores all n bytes in place for all data and files, if and only if its first call is not cut short |
| Transfers.ReadWhole | A_fileio/simpcp2.c:37-55 | when calls fail or transfer all they can, fd_read returns -1 or exactly the bytes a complete read returns |
| Transfers.WriteWhole | A_fileio/simpcp2.c:57-73 | when the first call is not cut short, fd_write returns -1 with the file unchanged or n with the bytes in place |
| BlockCopy.BlocksNeeded | A_fileio/simpcp2.c:104-105 | the loop count the program announces: size / n, plus one if there is a remainder |
| BlockCopy.DoCopy | A_fileio/simpcp2.c:81-129 | for any source, old destination and block size the loop terminates; on success the source lies over the old destination, whose tail stays, after exactly the announced number of writing turns; -1 and -2 come exactly from stat and malloc and copy nothing, -3 only from a failed read and -4 only from a failed write, after whole blocks |
| ParallelCopy.Tiling | solutions_to_assgn/ch18/mt_copy.c:265-279 | the n segments and the remainder tile [0, fsize): every offset lies in exactly one of them |
| ParallelCopy.SegmentInside | solutions_to_assgn/ch18/mt_copy.c:265-279 | every segment ends inside the file, and the last one ends where the remainder starts |
| ParallelCopy.RejectedStart | solutions_to_assgn/ch18/mt_copy.c:265-275 | i*fsize/n exceeds the right start by exactly i*(fsize%n)/n; it is right for all threads if and only if fsize%n is 0 or 1 |
| ParallelCopy.FillTasks | solutions_to_assgn/ch18/mt_copy.c:244-279 | every field of the parameter block of every thread: number, total, start, length and remainder |
| ParallelCopy.CopySegment | solutions_to_assgn/ch18/mt_copy.c:149-185 | on 0 the segment is written in place and nothing else changes, on failure nothing changes; -2 comes exactly from malloc, -3 only from a failed read, -4 only from a failed write; the buffer is freed exactly once, except for an empty segment, where it is never freed |
| ParallelCopy.CopyComplete | solutions_to_assgn/ch18/mt_copy.c:196-232 | for every size, thread count and interleaving of preads and pwrites, each worker deciding on the remainder by its own block: when all are done the destination is the source followed by its own old tail |
| ParallelCopy.CopySafe | solutions_to_assgn/ch18/mt_copy.c:196-232 | at every moment bytes beyond the source are untouched, and the segment of a finished thread is there |
| ParallelCopy.CopyFinishes | solutions_to_assgn/ch18/mt_copy.c:301-313 | no worker waits for another; a run stops only with all workers done, and every step lowers the work left |
| MatrixMul.Multiply | ch14/speed_multiprcs_vs_multithrd_simple/matrixmul/prcs_matrixmul.c:37-41 | the sequential triple loop leaves the matrix product (32-bit cells) in c |
| MatrixMul.DotIsSum | ch14/speed_multiprcs_vs_multithrd_simple/matrixmul/prcs_matrixmul.c:40-41 | the accumulated inner product is the sum of the row-by-column products |
| MatrixMul.ProductUnit | ch14/speed_multiprcs_vs_multithrd_simple/matrixmul/prcs_matrixmul.c:37-41 | multiplying by the unit matrix changes nothing |
| MatrixMul.WrapExact | ch14/speed_multiprcs_vs_multithrd_simple/matrixmul/prcs_matrixmul.c:41 | a cell is the 32-bit number congruent to the exact value |
| MatrixMul.ProductExact | ch14/speed_multiprcs_vs_multithrd_simple/matrixmul/prcs_matrixmul.c:37-41 | when n products of bounded size stay in 32 bits the cells are the exact inner products |
| MatrixMul.ThreadedResult | ch14/speed_multiprcs_vs_multithrd_simple/matrixmul/thrd_matrixmul.c:32-68 | for all matrices, thread counts and interleavings of loads and stores: at the end the covered rows hold the product and exactly the last n % NCORES rows are zero |
| MatrixMul.ThreadedEqualsSequential | ch14/speed_multiprcs_vs_multithrd_simple/matrixmul/thrd_matrixmul.c:32-68 | the threaded result equals the sequential one if and only if the product is zero in the rows left out; always when the count divides n |
| MatrixMul.ThreadsFinish | ch14/speed_multiprcs_vs_multithrd_simple/matrixmul/thrd_matrixmul.c:61-68 | a run stops only with all threads done, and every step lowers the work left |
| PrimeGen.PassesExactly | solutions_to_assgn/ch16/mt_primes2.c:83-91 | for every number up to the limit the inner loop lets through primes, 1, and below a limit of 6 also 4 and 0, and nothing else |
| PrimeGen.PrimeExactly | solutions_to_assgn/ch16/mt_primes2.c:85-90 | no number from 2 up below n divides n exactly when n is no product of two numbers from 2 up |
| PrimeGen.EmitsPrimes | solutions_to_assgn/ch16/mt_primes2.c:83-98 | the emitted list is increasing and, from start 2 and limit 6 up, holds exactly the numbers of [start, limit] that are no product a * b with a, b >= 2; with the exact extras otherwise |
| PrimeGen.TrialDivision | solutions_to_assgn/ch16/mt_primes2.c:84-90 | the inner loop with its break: whether i has remainder 0 for no j != i from 2 to below limit / 2 |
| PrimeGen.Append | solutions_to_assgn/ch16/mt_primes2.c:94-95 | strncat onto the C string in the buffer, within its bounds |
| PrimeGen.SimplePrimegen | solutions_to_assgn/ch16/mt_primes2.c:73-99 | returns the number of emitted numbers and leaves their fields, terminated, in the buffer; the room for them is what the program leaves to the caller |
| PrimeGen.RlimitPrimegen | ch3/rlimit_primes.c:33-60 | the count and the printed text, line breaks included, are those of the list that ListedPrimes describes |
| PrimeGen.ListedPrimes | ch3/rlimit_primes.c:37-46 | that list is increasing and holds exactly the numbers from 2 to the limit that are no product a * b with a, b >= 2 (and 4 when the limit is 5) |
| PrimeGen.ListingReads | ch3/rlimit_primes.c:48-59 | the text without its line breaks is 2, 3 and the fields of the other numbers, and a line break ends every 16th number |
| PrimeMerge.FieldWidth | solutions_to_assgn/ch16/mt_primes2.c:94 | a field has 8 characters if and only if the number is below 1000000 |
| PrimeGen.FieldExact | solutions_to_assgn/ch16/mt_primes2.c:94 | the eight characters of a field: right-aligned decimal digits, blanks before them, comma and blank |
| PrimeMerge.FieldsAt | solutions_to_assgn/ch16/mt_primes2.c:94-95 | the i-th field of the text is that of the i-th number |
| PrimeMerge.FieldsLength | solutions_to_assgn/ch16/mt_primes2.c:92-95 | strlen(buf) == 8 * num_primes while all numbers are below 1000000 |
| PrimeMerge.BufferSuffices | solutions_to_assgn/ch16/mt_primes2.c:55-60 | the text of a range fits MEM_SIZE if and only if at most 12499 numbers are emitted, so any range of at most 12499 numbers fits |
| PrimeMerge.ParseFields | solutions_to_assgn/ch16/mt_primes2.c:92-95 | splitting the text into 8-byte fields recovers the emitted list |
| PrimeMerge.WriteThePrimes | solutions_to_assgn/ch16/mt_primes2.c:109-124 | the file holds the buffers of all threads but the skipped one, in order, over its old contents (it is not truncated) |
| PrimeMerge.MergedFile | solutions_to_assgn/ch16/mt_primes2.c:109-124 | for increasing disjoint ranges the merged text parses to one strictly increasing list: exactly the numbers the unskipped threads emitted |
| PrimeCancel.MemorySafe | solutions_to_assgn/ch16/mt_primes2.c:126-247 | in every run, whenever the request arrives, no block is used or freed while it is not allocated, and none is freed twice |
| PrimeCancel.AtExit | solutions_to_assgn/ch16/mt_primes2.c:225-247 | at the end exactly the recorded thread is skipped: if it was really cancelled all blocks are freed exactly once and every survivor is in the file; if none was, thread 0 is left out of the file and its blocks are never freed; old contents of the file stay behind the new ones |
| PrimeCancel.FileAtExit | solutions_to_assgn/ch16/mt_primes2.c:238 | what every complete run writes parses to the increasing list of what the unskipped threads emitted |
| PrimeCancel.RequestTooLate | solutions_to_assgn/ch16/mt_primes2.c:216-247 | a complete run, also with a request, in which the target exits before it and thread 0 is left out |
| PrimeCancel.RequestSent | solutions_to_assgn/ch16/mt_primes2.c:216-223 | behind the cancel step of main the request is pending for the target, and for no other thread |
| PrimeCancel.RequestInTime | solutions_to_assgn/ch16/mt_primes2.c:126-171 | for each cancellation point, the sleep and both messages, a complete run in which the request finds the target there, which ends cancelled with everything freed |
| PrimeCancel.NeverStuck | solutions_to_assgn/ch16/mt_primes2.c:216-247 | no run blocks before the end of main |
| PrimeCancel.RunsEnd | solutions_to_assgn/ch16/mt_primes2.c:140-247 | no run takes more than 15 steps per thread and 5 more |
| HexDump.HexDump | ch18/mmap_file_simple.c:36-94 | the lines printed through the one reused buffer are, for any data and offset, the lines of 16 bytes each; nothing survives from an earlier line |
| HexDump.DumpFile | ch18/mmap_file_simple.c:122-157 | exactly which offset and length pairs are rejected, and what is dumped otherwise |
| HexDump.RoundTrip | ch18/mmap_file_simple.c:73-93 | decoding the hex columns of the dump gives back exactly the data |
| HexDump.EveryCharacter | ch18/mmap_file_simple.c:57-93 | each of the 75 characters of every line: label digits, the two hex digits and the character of every byte as literals, blanks elsewhere |
| HexDump.RulerAligned | ch18/mmap_file_simple.c:51-53 | the ruler names the columns of bytes 0, 4, 8 and 12 in both parts |
| HexDump.Layout | ch18/mmap_file_simple.c:57-93 | ceil(size/16) lines; line k is labelled offset + 16k, its text column matches its bytes, and both columns are blank from the last byte on |
| HexDump.LabelExact | ch18/mmap_file_simple.c:60-79 | the label reads back as the offset if and only if the offset is below 1000000 |
| IoBuffers.NothingLost | ch16/mt_iobuf_rfct.c:53-66 | for every thread count, numio and schedule: each thread writes its blocks in the order it read them, the blocks written are a permutation of the blocks read, and the file is their concatenation |
| IoBuffers.OutputLength | ch16/mt_iobuf_tls.c:51-62 | with full reads the output has threads * numio * NREAD bytes |
| IoBuffers.RunsFinish | ch16/mt_iobuf_rfct.c:88-92 | a run stops only with all threads done, after one step per block read and per block written, so at most 2 * threads * numio |
| IoBuffers.AnyBlock | ch16/mt_iobuf_rfct.c:54 | every block of 1 to 512 bytes may be what a read delivers |
| SharedBuffer.WritesFollowReads | ch16/mt_iobuf_mtx.c:57-74 | every write is as long as the last read of its own thread and takes its bytes from the buffer as all reads before it, by any thread, have left it: the block most recently read first, older bytes behind a short one; with full reads it is exactly that block; at the end reads and writes agree in number and in total length |
| SharedBuffer.LosslessIffAlternating | ch16/mt_iobuf_mtx.c:57-74 | with full reads that all differ the blocks written are a permutation of the blocks read if and only if each fread was followed by its fwrite before the next fread |
| SharedBuffer.LosslessRuns | ch16/mt_iobuf_mtx.c:57-74 | the same for every run of the program, whatever the schedule |
| SharedSchedules.AlternatingPairs | ch16/mt_iobuf_mtx.c:57-74 | a log in which each fread is followed by its fwrite loses and repeats nothing, whatever the data, short reads and equal blocks included |
| SharedSchedules.Replay | ch16/mt_iobuf_mtx.c:57-74 | every schedule of every run can happen with any full blocks as data |
| SharedSchedules.SafeSchedules | ch16/mt_iobuf_mtx.c:57-74 | for every schedule, complete or not: it loses nothing for all data if and only if each fread is followed by its fwrite before the next fread |
| SharedBuffer.LossyRun | ch16/mt_iobuf_mtx.c:57-74 | a complete schedule of two threads that writes one block twice and loses the other |
| SharedBuffer.RunsFinish | ch16/mt_iobuf_mtx.c:57-74 | a run stops only with all threads done, after one step per stream operation, at most 2 * threads * numio |
| CleanupHandler.ReleasedOnce | ch16/cleanup_hdlr.c:77-112 | for every arrival of the request: each ended worker released its buffer exactly once, by the handler if it was cancelled and by itself otherwise, after all its rounds; nothing unallocated is touched |
| CleanupHandler.RequestSent | ch16/cleanup_hdlr.c:175-182 | behind the cancel step of main the request is pending for worker 0 exactly if it was asked for, and for no other worker |
| CleanupHandler.RequestFinds | ch16/cleanup_hdlr.c:77-112 | for each cancellation point of every round a complete run in which the request finds worker 0 there: it ends cancelled, its buffer freed once by the handler, the rounds before that point written |
| CleanupHandler.RequestTooLate | ch16/cleanup_hdlr.c:102-112 | a complete run in which worker 0 exits before any request and frees its own buffer |
| CleanupHandler.NothingLeaks | ch16/cleanup_hdlr.c:184-196 | at the end every worker has ended and all its blocks are freed once |
| CleanupHandler.NeverStuck | ch16/cleanup_hdlr.c:175-196 | no run blocks before the end of main |
| CleanupHandler.RunsEnd | ch16/cleanup_hdlr.c:114-196 | every run ends, with a bound on its steps |
| SharedOffset.Simulation | ch10/fork_r6_of.c:41-87 | each seek and write on bytes is exactly one step of a machine on 80-byte slots |
| SharedOffset.NeverTorn | ch10/fork_r6_of.c:51-85 | in every interleaving the offset is 10 mod 80 from the first seek on; behind 10 zero bytes every 80 bytes are zeros, 79 c and a newline or 79 p and a newline; at most 3 * numlines slots are used |
| SharedOffset.IntendedLayout | ch10/fork_r6_of.c:51-85 | a complete run leaves the intended file, numlines lines of c from byte 10 on and then as many of p, byte by byte, if and only if no parent step comes between the seek and the last write of the child and no child step between the first and the last write of the parent |
| SharedOffset.RunsFinish | ch10/fork_r6_of.c:41-111 | a run stops only with both processes through, after 2 * numlines + 2 steps |
| SharedOffset.OverlapSpoils | ch10/fork_r6_of.c:89-111 | an overlapping run that leaves the whole area of the child zero, behind it its lines and those of the parent, in all 3 * numlines slots |
| CondVar.LeavesOnlyWhenDone | ch15/cv_simple.c:65-81 | in every run, with any number of spurious wakeups, A is out of its loop only after B set gWorkDone under the mutex |
| CondVar.DeadlockExactly | ch15/cv_simple.c:48-84 | a reachable state without a step of the program is final or a lost wakeup, and conversely; the latter only if B took the mutex first |
| CondVar.SignalFirstNeedsSpurious | ch15/cv_simple.c:48-80 | if B was first, A leaves only through a spurious wakeup |
| CondVar.LostWakeupReachable | ch15/cv_simple.c:66-68 | since A waits before it tests, the lost wakeup does happen |
| CondVar.HandshakeCompletes | ch15/cv_simple.c:35-84 | the intended ending is reached: A first, the signal delivered, no spurious wakeup |
| CondVar.SpuriousWakeupEnds | ch15/cv_simple.c:66-80 | from every lost wakeup one spurious wakeup leads to the end |
| CondVar.RunsEnd | ch15/cv_simple.c:35-84 | a run with k spurious wakeups has at most 47 + 4k steps |
| ScatterGather.NormalWay | ch18/sgio_simple.c:168-191 | the loop of seeks and writes, for any list of segments |
| ScatterGather.GatherWay | ch18/sgio_simple.c:218-259 | filling the iovec array by index and one gathered write, for any list of segments |
| ScatterGather.GatheredAt | ch18/sgio_simple.c:225-257 | the gathered bytes are zero outside the data pieces and end where the last segment ends |
| ScatterGather.SoughtAt | ch18/sgio_simple.c:172-188 | byte by byte, the sought file has the gathered bytes where there is data and the old file (zeros beyond it) elsewhere |
| ScatterGather.DifferOnlyInHoles | ch18/sgio_simple.c:168-259 | on any old file the two ways differ only inside the holes, and in length only by trailing holes |
| ScatterGather.SameOnNewFile | ch18/sgio_simple.c:34-42 | on a new file the two ways give the same file if and only if no hole trails the last data; so always when all pieces are non-empty |
| ScatterGather.SetupBuffers | ch18/sgio_simple.c:100-147 | for each failing malloc: the return value, and every buffer allocated before it freed exactly once; otherwise all four are live and hold their letters and zeros |
| Bank.Account.Deposit | solutions_to_assgn/ch15/bankacc.c:34-43 | balance and reports grow alike, by the amount exactly if it is positive; the report added, with the new balance and the high-balance message from 1000000 up; the account stays sound: explained by its reports and not below the limit |
| Bank.Account.Withdraw | solutions_to_assgn/ch15/bankacc.c:44-53 | the amount leaves the account exactly if at least 500 remain; the report added either way; balance and reports fall alike, and the account stays sound |
| Bank.Account.Worker | solutions_to_assgn/ch15/bankacc.c:81-95 | each case of worker has the serial effect of its script, which is what Serializable composes, with its amounts, reports and balance in full |
| Bank.Serializable | solutions_to_assgn/ch15/bankacc.c:77-93 | with locking, for any threads and scripts: every interleaving gives the balance and the reports of some serial order of the whole scripts |
| Bank.BalanceConserved | solutions_to_assgn/ch15/bankacc.c:30-53 | in every reachable state the balance is opening plus deposits minus accepted withdrawals and is not below the credit limit (or the opening balance, if that is lower) |
| Bank.LockedRunsFinish | solutions_to_assgn/ch15/bankacc.c:77-93 | no deadlock, and every step lowers the work left |
| BankRace.UnlockedLosesUpdate | solutions_to_assgn/ch15/bankacc.c:34-53 | without the lock, for any threads and scripts: if two operations of different threads would both be accepted after those before them, a complete run reports the second one and loses its effect |
| BankRace.TwoDepositsRace | solutions_to_assgn/ch15/bankacc.c:34-43 | so two effective deposits anywhere in the scripts of two threads break conservation |
| BankRace.NoRaceConserves | solutions_to_assgn/ch15/bankacc.c:77-93 | for any scripts: if no thread stores the balance while another changes it, every schedule conserves, lock or not |
| BankRace.ContentionLosesUpdate | solutions_to_assgn/ch15/bankacc.c:34-53 | without the lock, if some order of whole operations leads two threads to operations that would both be accepted, one of them changing the balance, a complete run does not conserve |
| BankRace.ConservesExactly | solutions_to_assgn/ch15/bankacc.c:55-93 | for all threads and scripts: every schedule conserves if and only if locking is on or no order of whole operations leads to such a state |
| BankRace.FundedConserves | solutions_to_assgn/ch15/bankacc.c:55-93 | for funded scripts (deposits only, or withdrawals that together leave the minimum credit) that is the case if and only if no thread stores the balance while another changes it |
| BankLimit.UnlockedBreaksLimit | solutions_to_assgn/ch15/bankacc.c:44-53 | without the lock any two withdrawals of different threads that each pass the credit test after the operations before them both go through, also when together they overdraw |
| BankLimit.NeverBelowAllWithdrawals | solutions_to_assgn/ch15/bankacc.c:34-53 | in every schedule, locked or not, the balance is at least opening less all withdrawals; so funded scripts keep the limit even when updates are lost |
| BankLimit.OvertakenBreaksLimit | solutions_to_assgn/ch15/bankacc.c:44-53 | without the lock, if a thread begins an accepted withdrawal and steps of the others (test with load, or store) can lead to a balance at which it would be refused, a schedule drops below the limit |
| BankLimit.KeepsLimitExactly | solutions_to_assgn/ch15/bankacc.c:30-93 | for all threads, scripts and opening balances: the limit holds in every schedule if and only if the opening balance respects it and locking is on or no withdrawal can be overtaken that way |
| BankLimit.OneEachKeepsLimit | solutions_to_assgn/ch15/bankacc.c:44-53 | for any number of threads with one withdrawal each, affordable alone, that is the case if and only if locking is on or all withdrawals together respect the limit |
| Factorial.Accumulator.Factorize | ch15/facto.c:40-52 | the loop leaves the factorial modulo 2^64 in the accumulator (1 for num <= 0) |
| Factorial.SmallFactorials | ch15/facto.c:40-52 | up to 20 the result is the exact factorial and fits the signed print |
| Factorial.PrintedExact | ch15/facto.c:72-86 | with locking, for any threads and schedule, every printed value is the factorial of that thread, exactly if it is at most 20 |
| Factorial.NoOverflow | ch15/facto.c:48-49 | with all numbers at most 20 no multiplication of any locked run overflows |
| Factorial.NeverStuck | ch15/facto.c:72-86 | with locking a run stops only with all threads finished |
| Factorial.WorkUsed | ch15/facto.c:59-91 | every step of a thread lowers the work left |
| Factorial.UnlockedPrintsProduct | ch15/facto.c:40-52 | without the lock, for any threads and any two of them with positive numbers, a schedule that prints the product of both factorials as the first one |
| Factorial.UnlockedPrintsOne | ch15/facto.c:44-46 | without the lock any other thread that starts can make a thread with a positive number print 1 |
| Factorial.PrintsRightExactly | ch15/facto.c:40-86 | every value printed in every schedule is right if and only if locking is on, or there is at most one thread, or no number exceeds 1 |
| ForkTree.StepBalance | solutions_to_assgn/ch10/smallbomb.c:83-88 | one fork or print keeps the sum of 2^(forks left) and the lines to come, and uses exactly one unit of the steps due |
| ForkTree.WeightConserved | solutions_to_assgn/ch10/smallbomb.c:83-94 | in every reachable state the sum over live processes of 2^(forks left) is 2^n |
| ForkTree.CompleteRun | solutions_to_assgn/ch10/smallbomb.c:92-96 | every complete run ends with 2^n processes and 2^(n+1) - 2 lines, after 2^n - 1 forks and one print each line |
| ForkTree.RunsComplete | solutions_to_assgn/ch10/smallbomb.c:92-96 | a run stops only when complete, and none has more than 3 * 2^n - 3 steps |
| Bank.OwnScripts | solutions_to_assgn/ch15/bankacc.c:72-93 | instance of Serializable: the two scripts of the program close at 6750 in every locked run, with one of two reports |
| BankLimit.OwnScriptsKeepLimit | solutions_to_assgn/ch15/bankacc.c:72-93 | instance of NeverBelowAllWithdrawals: the two scripts never drop below 2750, locked or not |
| BankRace.OwnScriptsCanFail | solutions_to_assgn/ch15/bankacc.c:72-93 | instance of UnlockedLosesUpdate: without the lock a complete run of these scripts keeps 9000 that it reports as withdrawn |
| Factorial.OwnNumbersCanFail | ch15/facto.c:64-70 | instance of UnlockedPrintsOne: 10 and 12 without the lock |
| Factorial.OwnNumbers | ch15/facto.c:64-86 | instance of PrintedExact: with locking the program prints 3628800 and 479001600 |
| MatrixMul.OwnMatrices | ch14/speed_multiprcs_vs_multithrd_simple/matrixmul/prcs_matrixmul.c:22-41 | instance of ProductExact: 1024 rows of 2 and 3 give 6144 in every cell |
| PrimeCancel.OwnProgram | solutions_to_assgn/ch16/mt_primes2.c:181-247 | instance of FileAtExit: with thread 2 cancelled the file lists 1 and the primes up to 10000, otherwise those from 5001 to 10000 and from 20000 to 20101 |
| ScatterGather.OwnFile | ch18/sgio_simple.c:43-53 | instance of SameOnNewFile: all 222 bytes of the file |
| PrimeMerge.OwnRanges | solutions_to_assgn/ch16/mt_primes2.c:181-185 | instance of BufferSuffices: the three ranges of main are increasing and disjoint and fit their buffers |
| ScatterGather.OwnOffsets | ch18/sgio_simple.c:43-53 | instance of the prefix sums: A_START_OFF, B_START_OFF and C_START_OFF |
| ForkTree.ThreeForks | solutions_to_assgn/ch10/smallbomb.c:92-94 | instance of CompleteRun: 8 processes and 14 lines |

## Left out

- Transfers.ReadWhole: assumes that a call fails or transfers all it can; ReadExact and PreadExact give the exact condition for the other kernels.
- BlockCopy.DoCopy: assumes no transfer is cut short before the end of the file and that source and destination are different open files.
- ParallelCopy.CopySegment: assumes no transfer is cut short.
- ParallelCopy.CopyComplete: a pread or pwrite of a worker is one complete, successful step, which is what CopySegment proves for kernels that cut nothing short; offsets do not overflow, and source and destination are different files.
- MatrixMul.ThreadedResult: a sum outside 32 bits, undefined in C, is taken to wrap around in two's complement; ProductExact says when none occurs.
- PrimeGen.SimplePrimegen: needs a buffer with room for the text, as the program's own comment does, and a limit below 2^31, above which "%6d" would print negative numbers.
- PrimeCancel.MemorySafe: what a generator puts into its buffer is a parameter; a failed or partial write and the WARN paths are not modelled.
- HexDump.HexDump: the caption line is left out, and offset + size stays below 2^31 so that the int arithmetic does not overflow.
- HexDump.DumpFile: the dumped region ends below 2^31; beyond that main's off_t values would not fit the int parameters of hex_dump.
- IoBuffers.OutputLength: assumes full reads, which short reads of the stream would not give; the stream errors and FATAL exits of the I/O buffer programs are not modelled.
- SharedBuffer.LosslessIffAlternating: assumes full reads that all differ; WritesFollowReads has no such assumption.
- CleanupHandler.ReleasedOnce: the streams do not fail; the runs that end in FATAL are not modelled.
- SharedOffset.NeverTorn: a write is one atomic step with the advance of the position, and calls do not fail.
- ScatterGather.SetupBuffers: malloc results and the global buffers are values that count allocations and frees; main never frees gbuf_hole, which is not modelled.
- ScatterGather.GatherWay: writes are complete.
- Bank.Account.Deposit: long is unbounded here; the high-balance message is a flag in the report, and the two prints of an operation are one report.
- ForkTree.CompleteRun: no fork fails.
- Thread bodies of the I/O buffer, cleanup, shared offset, condition variable and fork programs: modelled as steps of a transition system on values, since other threads act between their statements; updates in place of a buffer no other thread sees are then changes of a value.
- mt_primes1.c beyond simple_primegen: its worker and main only print the text.
- Signal, capability, credential, scheduling, memory protection and resource limit programs: they show kernel behaviour that their own code does not decide.
- Argument parsing, usage text, verbose output, delays, Makefiles and scripts.
- Deliberate memory bugs and fault demonstrations.
- Small helpers (time arithmetic, joiner and mutex demonstrations): one-branch claims only.
