# OpenGOAL runtime support code in Dafny

A Dafny 4.11 model of five parts of the repository, with proofs. `dafny verify dfyconfig.toml` checks all of it.

- **Thread pool** (`Pool*.dfy`, `third-party/BS_thread_pool.hpp`). `PoolSections` holds the critical sections as
  methods on the pool's fields, each proved equal to a function of the old fields. `PoolProtocol` interleaves those
  functions between any number of workers, pushers that still owe a `notify_one`, threads inside `wait_for_tasks`
  and an owner that may reset or destroy the pool; sleepers may wake spuriously. `PoolInvariants` proves what every
  reachable state keeps, `PoolWaiters` when a waiter is woken, `PoolLifeCycle` what `reset` and the destructor do,
  `PoolBlocks` the range splitter.
- **Dragonbox** (`Dragonbox*.dfy`, `third-party/dragonbox.h`). `DragonboxWide` has the wide multiplications,
  `DragonboxDiv` the modular inverses and divisions, `DragonboxZeros` the removal of trailing zeros,
  `DragonboxNearest` steps 2 and 3 of `compute_nearest` over real intervals, `DragonboxInteger` the test
  `is_product_integer` and what the choice of `minus_k` means, and `DragonboxShortest` puts them together for
  binary64 and binary32: the decimal returned is the shortest in the rounding interval.
- **ADPCM** (`Adpcm*.dfy`, `common/audio/audio_formats.cpp`). `AdpcmDecoder` is the decoder, `AdpcmSamples` what each
  sample is in terms of the bytes of the file, `AdpcmStreams` what mono and stereo files decode to, `AdpcmEncoder` the
  analysis of `test_encode_adpcm`, `AdpcmRoundTrip` how the two undo each other.
- **Command line** (`Cli*.dfy`, `third-party/CLI11.hpp`). `CliParse` has the parse functions of an application
  without subcommands and their termination, `CliApp` the same functions popping and pushing an argument vector,
  `CliWords` what their helpers mean, `CliValues` what an option or a flag receives, `CliLoops` how many words it
  collects, `CliMark` what `--` does, `CliAccount` where every argument ends up, `CliGrowth` that parsing only
  extends results, `CliClusters` and `CliAnywhere` the meaning of `-abc`, `CliLimits` where that meaning fails, `CliAlike` where it holds although a step differs.
- **Language server helpers** (`Lsp*.dfy`, `lsp/lsp_util.cpp`). `LspProgress` is the incremental progress tracker,
  `LspUrl` the URL codec and the file URIs, `LspTriplets` what an encoded string says.

Code that works in place is a class or a method with loops, proved equal to a function of its inputs or of the old
state; the lemmas are about those functions. `Arith.dfy` holds shared arithmetic.

## What does not hold

Each of these is a lemma with a concrete run or input. Beside it stands the exact condition.

- Two threads in `wait_for_tasks` at once: the first to return lowers the flag under the second, which can then go
  back to sleep for good (`PoolWaiters.SecondWaiterStranded`). So can a waiter whose queue is purged
  (`PoolWaiters.PurgeStrandsWaiter`). `PoolWaiters.WaiterInvIffCalm` says for every step, with any number of waiters,
  exactly when it leaves every sleeper accounted for, and `PoolWaiters.CallerInvIffCalm` says it for the calls: a push,
  an unpause or the end of a reset goes wrong only while a notified waiter is on its way out with the flag down.
- A push that slips in after the destructor's wait has returned can be lost (`PoolLifeCycle.LatePushIsLost`) and can
  also complete (`PoolLifeCycle.LatePushCanComplete`). `PoolLifeCycle.DestroyLosesExactly` names what is lost on every
  run: the queue when the workers are told to stop and what is pushed later, less what is purged.
- On a silent block the encoder's shift search ends at -1, which no block header can hold, so `test_encode_adpcm`
  rejects every recorded shift (`AdpcmRoundTrip.SilenceCannotPass`; `AdpcmRoundTrip.CanPass` says exactly when some
  recorded bytes pass).
- An option with optional arguments looks at how many arguments are left. With required positionals still missing,
  `-o x -ab` and `-o x -a -b` can therefore mean different things (`CliLimits.ClusterMatters`, for every number of
  arguments after the cluster). `CliAnywhere.SingleIff` says for each step before the cluster exactly when it does the
  same with the flags written one by one. After a step that does not, the two parses may still end alike
  (`CliAlike.DifferentStepSameEnd`), so the condition on the steps is not one on the whole parse.
- A flag that may not be overridden and whose default is `false` accepts `=false`, and the code then inverts it to
  `true` (`CliWords.DisabledFalseIsTrue`; `CliWords.OverrideDisabled` says that this is the only such case).
- The opposite that a flag with default `false` stores for `=input` is the negated flag value of the input, except for
  a zero: `=00` stores `0`, which stands for false (`CliValues.ZeroIsFalse`; `CliValues.FlagAlone` has every input).
- `--` does not always end option parsing: an option that could have taken more values takes the `--` away, and options
  go on being parsed (`CliMark.OptionAfterMark`; `CliMark.MarkIsEatenIff` is the exact condition).
- On POSIX, `uri_to_path(uri_from_path(p))` is `p` with a second leading slash (`LspUrl.PathRoundTrip`, an if and only
  if).

## Model

| member | source | states |
|---|---|---|
| PoolSections.ThreadPool.PushTask | third-party/BS_thread_pool.hpp:437-444 | a pushed task goes to the back of the queue and no other field changes |
| PoolSections.ThreadPool.WorkerTurn | third-party/BS_thread_pool.hpp:627-635 | the section at the top of the worker loop: sleep, exit, retry while paused, or dequeue the front and count it as running |
| PoolSections.ThreadPool.WorkerFinish | third-party/BS_thread_pool.hpp:638-641 | the running count drops by one, and waiters are notified exactly if the flag is up and their predicate now holds |
| PoolSections.ThreadPool.EnterWait | third-party/BS_thread_pool.hpp:522-525 | entering the wait leaves the flag up exactly if the caller goes to sleep |
| PoolSections.ThreadPool.RecheckWait | third-party/BS_thread_pool.hpp:524-525 | a woken waiter lowers the flag exactly if its predicate holds |
| PoolSections.ThreadPool.Purge | third-party/BS_thread_pool.hpp:383-388 | the loop discards exactly the queued tasks and touches nothing else |
| PoolInvariants.InvStep | third-party/BS_thread_pool.hpp:622-643 | every step of every thread keeps the invariants: the running count is the number of workers between dequeue and decrement, each pushed task is in one place, dispatch is in push order, no wakeup is lost |
| PoolInvariants.InvRun | third-party/BS_thread_pool.hpp:622-643 | the invariants hold at the end of every run |
| PoolInvariants.ReachableInv | third-party/BS_thread_pool.hpp:622-643 | the invariants hold in every reachable state |
| PoolInvariants.NoLostWakeup | third-party/BS_thread_pool.hpp:437-444 | while workers run, a non-empty queue means some worker is awake or some pusher still owes a notification |
| PoolInvariants.ExactlyOnePlace | third-party/BS_thread_pool.hpp:383-388 | in every reachable state each pushed task is exactly one of queued, held by one worker, completed once or purged once |
| PoolWaiters.WaiterInvIffCalm | third-party/BS_thread_pool.hpp:520-526 | with any number of waiters, a step keeps every sleeper accounted for if and only if it is not a recheck with the predicate false and the flag down, nor a pause, purge or reset under a sleeper with no task running |
| PoolWaiters.CalmRunKeeps | third-party/BS_thread_pool.hpp:520-526 | over every guarded run, with any number of waiters, every sleeper is accounted for |
| PoolWaiters.NoLostWaiter | third-party/BS_thread_pool.hpp:520-526 | over every guarded run, an un-notified sleeping waiter means a worker holds a task or the unpaused queue is not empty, with any number of waiters |
| PoolWaiters.CallerInvIffCalm | third-party/BS_thread_pool.hpp:437-526 | the same as an if and only if on the calls: push, unpause and the end of a reset must not make the predicate false under a notified waiter whose flag is down |
| PoolWaiters.CallersKeepCalm | third-party/BS_thread_pool.hpp:437-526 | over every run, callers that keep to this never bring a waiter to a recheck that goes wrong |
| PoolWaiters.CourteousIsCalm | third-party/BS_thread_pool.hpp:437-526 | it is enough not to push, unpause or reset while a waiter is on its way out |
| PoolWaiters.WaitReturnsWhenAllDone | third-party/BS_thread_pool.hpp:518-526 | when the wait returns on an unpaused pool, every task pushed so far has completed or was purged |
| PoolWaiters.WorkDecreases | third-party/BS_thread_pool.hpp:622-643 | every step the pool takes by itself brings it nearer to rest |
| PoolWaiters.PoolSettles | third-party/BS_thread_pool.hpp:622-643 | left alone the pool comes to rest within a bound, under every schedule |
| PoolWaiters.SettledMeansDone | third-party/BS_thread_pool.hpp:622-643 | at rest and unpaused, the queue is empty, every task is completed or purged, and no guarded waiter sleeps |
| PoolWaiters.SettledWorkers | third-party/BS_thread_pool.hpp:622-643 | at rest, paused or not, no task runs, and a worker that is not asleep is kept awake by tasks queued in a paused pool |
| PoolWaiters.StrandedStays | third-party/BS_thread_pool.hpp:520-526 | a stranded waiter stays asleep through every step but a new push or a spurious wakeup |
| PoolWaiters.PurgeStrandsWaiter | third-party/BS_thread_pool.hpp:383-388 | a reachable state in which purging has stranded a waiter |
| PoolWaiters.SecondWaiterStranded | third-party/BS_thread_pool.hpp:520-526 | a reachable state in which a second waiter is stranded with all tasks done |
| PoolLifeCycle.JoinCannotBlock | third-party/BS_thread_pool.hpp:587-598 | after `notify_all` no worker is asleep, and the one joined next has exited or can step |
| PoolLifeCycle.JoinProgress | third-party/BS_thread_pool.hpp:587-598 | during the joins every worker step brings the end nearer and no other step puts it off |
| PoolLifeCycle.ResetInvIff | third-party/BS_thread_pool.hpp:451-463 | a step keeps the reset invariant if and only if it is not an unpause or a purge of queued tasks |
| PoolLifeCycle.ResetKeepsTheQueue | third-party/BS_thread_pool.hpp:447-463 | an undisturbed reset neither loses, duplicates, runs nor reorders a queued task, appends the tasks pushed meanwhile and restores the pause flag |
| PoolLifeCycle.DestroyInvIff | third-party/BS_thread_pool.hpp:256-263 | a step keeps what the destructor relies on if and only if it does not disturb it |
| PoolLifeCycle.DestroyOutcome | third-party/BS_thread_pool.hpp:256-263 | an undisturbed destruction of an unpaused pool completes every unpurged task exactly once; a paused pool never runs what was queued |
| PoolLifeCycle.DestroyLosesExactly | third-party/BS_thread_pool.hpp:256-263 | on every run the destructor loses exactly the queue at the moment it stops the workers and what is pushed later, less what is purged; every unpurged task completes if and only if all of that is purged |
| PoolLifeCycle.DownRun | third-party/BS_thread_pool.hpp:587-598 | once the workers are told to stop nothing is dequeued: the queue only grows at the back and is purged from the front |
| PoolLifeCycle.LostIsQueued | third-party/BS_thread_pool.hpp:256-263 | after the destructor a task is neither completed nor purged exactly if it is still queued |
| PoolLifeCycle.LatePushIsLost | third-party/BS_thread_pool.hpp:256-263 | a reachable destroyed pool whose one task was neither run nor purged |
| PoolLifeCycle.LatePushCanComplete | third-party/BS_thread_pool.hpp:256-263 | a reachable state in which a push as late as that has completed |
| PoolBlocks.Blocks.constructor | third-party/BS_thread_pool.hpp:148-160 | the fields after swapping the bounds and shrinking the number of blocks |
| PoolBlocks.Blocks.PushLoop | third-party/BS_thread_pool.hpp:403-411 | one call for each block, in order; none for an empty range |
| PoolBlocks.BlocksPartition | third-party/BS_thread_pool.hpp:148-181 | the blocks are consecutive, non-empty and cover the range, for swapped bounds too |
| PoolBlocks.BlockLengths | third-party/BS_thread_pool.hpp:148-181 | the number of blocks is the smaller of the number asked for and the size of the range; every block but the last has length size / count, and the last has the remainder more |
| PoolBlocks.BlockOf | third-party/BS_thread_pool.hpp:167-181 | every index lies in exactly one block |
| PoolBlocks.AnyOrderVisitsAll | third-party/BS_thread_pool.hpp:403-411 | running each block once in any order visits the same multiset of indices as the sequential loop |
| DragonboxWide.Umul64 | third-party/dragonbox.h:421-427 | a product of two 32-bit words fits in 64 bits |
| DragonboxWide.Umul128Exact | third-party/dragonbox.h:430-476 | umul128 and umul128_upper64 are the exact product and its upper half; no intermediate addition wraps |
| DragonboxWide.PlusExact | third-party/dragonbox.h:407-418 | adding a word carries correctly whenever the sum fits |
| DragonboxWide.Umul192UpperExact | third-party/dragonbox.h:479-483 | the upper 64 bits of a 64 by 128 bit product |
| DragonboxWide.Umul192MiddleExact | third-party/dragonbox.h:506-510 | the middle 64 bits of that product |
| DragonboxWide.Umul96Exact | third-party/dragonbox.h:486-515 | the upper 32 and lower 64 bits of a 32 by 64 bit product |
| DragonboxWide.ParityOfComputeMul | third-party/dragonbox.h:2953-2986 | binary64: the bit compute_mul_parity reads is the parity of the floor compute_mul would return |
| DragonboxWide.ParityOfComputeMul32 | third-party/dragonbox.h:2953-2986 | the same for binary32 |
| DragonboxDiv.SquareLifts | third-party/dragonbox.h:654-659 | squaring a number that is 1 modulo 2^i makes it 1 modulo 2^(i+1) |
| DragonboxDiv.InverseStep | third-party/dragonbox.h:657-659 | one turn of the wrapping loop doubles the modulus the inverse is good for |
| DragonboxDiv.ModularInverse | third-party/dragonbox.h:651-668 | for every odd a and width the result is the inverse of a modulo 2^width |
| DragonboxDiv.MakeTable | third-party/dragonbox.h:680-697 | row i holds the inverse of a^i and the largest quotient by a^i |
| DragonboxDiv.DivisibleIff | third-party/dragonbox.h:699-704 | x times the inverse of d is at most the largest quotient if and only if d divides x, and is then x / d |
| DragonboxDiv.CheckDivisibilityExact | third-party/dragonbox.h:721-764 | for every n within the documented bound the magic multiplication decides divisibility by 5^N and divides |
| DragonboxDiv.SmallDivisionExact | third-party/dragonbox.h:766-789 | for every n within the documented bound the magic multiplication is division by 10^N |
| DragonboxDiv.DivideBy1000Exact | third-party/dragonbox.h:791-807 | for every n up to 2^56 * 5^3 the multiplication and shift is division by 1000 |
| DragonboxZeros.CountrZeroIff | third-party/dragonbox.h:2834-2837 | the count of trailing zero bits decides divisibility by powers of two |
| DragonboxZeros.MaxPower | third-party/dragonbox.h:2819-2832 | the least power of ten that reaches a tenth of the largest significand |
| DragonboxZeros.WrappedRemainder | third-party/dragonbox.h:2893-2894 | the remainder is right although product and difference wrap |
| DragonboxZeros.RemoveTrailingZeros64 | third-party/dragonbox.h:2818-2950 | for every n in range, n = m * 10^s with no zero left at the end of m |
| DragonboxZeros.WorkWithQuotient | third-party/dragonbox.h:2868-2890 | the same for multiples of 10^8, by the 32-bit loop |
| DragonboxZeros.WorkWithRemainder | third-party/dragonbox.h:2892-2921 | the same for the first rungs of the remainder ladder |
| DragonboxZeros.UpperRungs | third-party/dragonbox.h:2923-2949 | the same for its last rungs |
| DragonboxZeros.RemoveTrailingZeros32 | third-party/dragonbox.h:2839-2857 | the same for the binary32 loop by fives squared |
| DragonboxZeros.StrippedIsMaximal | third-party/dragonbox.h:2817-2818 | the zeros removed are exactly the powers of ten in n |
| DragonboxZeros.StrippedUnique | third-party/dragonbox.h:2817-2818 | n determines the digits kept and the number of zeros |
| DragonboxNearest.BigCandidate | third-party/dragonbox.h:2432-2467 | comparing r with deltai, and a parity where they are equal, decides whether the candidate lies inside |
| DragonboxNearest.OnlyCandidate | third-party/dragonbox.h:2426-2430 | no other multiple of 10^(kappa+1) can lie inside |
| DragonboxNearest.DecideBig | third-party/dragonbox.h:2426-2467 | the exit test is right: it succeeds exactly when some multiple of 10^(kappa+1) lies inside |
| DragonboxNearest.SmallChoiceIsNearest | third-party/dragonbox.h:2519-2563 | the remainder, the parity bit and the tie rule pick the multiple of 10^kappa nearest to the center, ties to even |
| DragonboxNearest.NearestIsClosest | third-party/dragonbox.h:2519-2563 | that multiple is at least as close as every other, and even if another is as close |
| DragonboxNearest.NearestStaysInside | third-party/dragonbox.h:2519-2563 | it lies in the closed interval, and strictly inside if and only if the interval is not exactly 10^kappa long ending at a multiple |
| DragonboxNearest.SmallDivisorCase | third-party/dragonbox.h:2479-2564 | step 3 computes the choice of the three-way rule with the magic divisions |
| DragonboxNearest.ComputeNearest | third-party/dragonbox.h:2421-2567 | the large-divisor exit is taken exactly if a multiple of 10^(kappa+1) lies inside, and returns it; otherwise the nearest multiple of 10^kappa is returned |
| DragonboxInteger.DeltaRange | third-party/dragonbox.h:2407-2413 | minus_k puts the length of the interval between 10^kappa and 10^(kappa+1), and the interval is positive |
| DragonboxInteger.ShiftFits | third-party/dragonbox.h:2409-2416 | shifting the significand by beta_minus_1 does not overflow its word |
| DragonboxInteger.IntegerCases | third-party/dragonbox.h:3044-3081 | for a negative exponent of two only the factors of two decide, for a negative exponent of five only the factors of five |
| DragonboxInteger.UpperSides | third-party/dragonbox.h:2341-2349 | the upper thresholds are where minus_k becomes positive and where 5^minus_k outgrows every significand |
| DragonboxInteger.LowerSides | third-party/dragonbox.h:2345-2348 | the lower thresholds are where the exponent of two becomes negative, for odd and for even factors |
| DragonboxInteger.DivisibleByPowerOf5 | third-party/dragonbox.h:699-704 | the table decides divisibility by 5^exp for every word and every exp in range |
| DragonboxInteger.IsProductInteger | third-party/dragonbox.h:3042-3082 | for both formats, every exponent and every significand the tests decide whether the scaled number is an integer |
| DragonboxShortest.ReadIntegrality | third-party/dragonbox.h:2435-2467 | the calls of is_product_integer tell which of the two ends and the center are integers |
| DragonboxShortest.ReadAnswers | third-party/dragonbox.h:2411-2416 | binary64: the words, parities and integer tests answer truthfully about the interval |
| DragonboxShortest.ReadAnswers32 | third-party/dragonbox.h:2411-2416 | the same for binary32 |
| DragonboxShortest.ToDecimal64 | third-party/dragonbox.h:2402-2567 | on every regular binary64 interval the result is the shortest decimal inside, respects open endpoints, and is nearest at the smallest exponent |
| DragonboxShortest.ToDecimal32 | third-party/dragonbox.h:2402-2567 | the same for binary32 |
| DragonboxShortest.LargeExitIsUnique | third-party/dragonbox.h:2469-2474 | the early exit is the only decimal of its exponent in the interval |
| AdpcmDecoder.BinaryReader.ReadByte | common/util/BinaryReader.h:16-23 | the byte at the cursor, or a failed assertion at the end |
| AdpcmDecoder.BinaryReader.FastForward | common/util/BinaryReader.h:25-28 | the cursor moves before the assertion is checked |
| AdpcmDecoder.Saturate | common/audio/audio_formats.cpp:131-137 | the 16-bit number closest to the sum |
| AdpcmDecoder.ChannelState.DecodeSamples | common/audio/audio_formats.cpp:117-157 | the loop over 28 nibbles updates history and output as the block function says |
| AdpcmDecoder.DecodeAdpcm | common/audio/audio_formats.cpp:59-163 | the decoder, with every failing read, equals the file function |
| AdpcmSamples.SampleIs | common/audio/audio_formats.cpp:117-157 | a sample is the 16-bit number nearest to e + p, where e is the signed nibble times 2^12 / 2^shift rounded down and p is (c1 * last + c2 * before + 32) / 64 cut off towards zero, with the five pairs of weights written out; only the decoded sample is |
| AdpcmSamples.BlockSamples | common/audio/audio_formats.cpp:103-157 | that is so of all 28 samples of every block and history, with filter, shift and nibble at their places in its 16 bytes |
| AdpcmSamples.MonoSamples | common/audio/audio_formats.cpp:59-163 | and of every sample of a mono file, with the history running through all blocks from silence |
| AdpcmSamples.MonoLength | common/audio/audio_formats.cpp:71-160 | a mono file that decodes has 28 samples for each 16 bytes after the first 48 |
| AdpcmSamples.ResidualAt | common/audio/audio_formats.cpp:184-200 | every residual is its sample less the prediction from the two samples before it, with the same weights |
| AdpcmStreams.MonoIsBlocks | common/audio/audio_formats.cpp:71-162 | for every mono input the result is the decoding of the whole blocks after the header, with the exact failure for a partial block or a bad filter |
| AdpcmStreams.MonoIsS16 | common/audio/audio_formats.cpp:131-141 | every decoded sample is a 16-bit number |
| AdpcmStreams.SideAligned | common/audio/audio_formats.cpp:87-101 | each channel's bytes, picked by the parity of offset / chunk, make up whole blocks |
| AdpcmStreams.SwitchInChunk | common/audio/audio_formats.cpp:87-101 | one turn of the toggling state keeps the closed form: in chunk k the left channel is active exactly if k is even |
| AdpcmStreams.WalkStereo | common/audio/audio_formats.cpp:82-160 | from every position the interleaved decoder produces the two remaining streams |
| AdpcmStreams.StereoIsTwoMonos | common/audio/audio_formats.cpp:59-163 | decoding an aligned stereo file is decoding two mono files: its even and its odd chunks, each with its own header, in chunks of 4096 bytes in version 3 and of 8192 in every other |
| AdpcmEncoder.EncodeBlockWithFilter | common/audio/audio_formats.cpp:184-200 | the output array holds the prediction residuals |
| AdpcmEncoder.ResidualBound | common/audio/audio_formats.cpp:184-200 | residuals of 16-bit samples and history fit in 17 bits and a sign |
| AdpcmEncoder.NibbleIs | common/audio/audio_formats.cpp:206-209 | the wrapping shifts compute the low four bits of the residual divided by 2^(12-shift), rounded down |
| AdpcmEncoder.GetShiftError | common/audio/audio_formats.cpp:202-217 | the sum of the errors, and the assertion on the shift amount fails exactly below -16 |
| AdpcmEncoder.ShiftErrorZero | common/audio/audio_formats.cpp:202-217 | the error is zero if and only if every residual is a four-bit multiple of 2^(12-shift) |
| AdpcmEncoder.ShiftErrorBound | common/audio/audio_formats.cpp:202-217 | in range the error is below 2^(12-shift) for each sample |
| AdpcmEncoder.GetMaxBits | common/audio/audio_formats.cpp:219-243 | the least two's-complement width of the number |
| AdpcmEncoder.InRangeIsWidth | common/audio/audio_formats.cpp:321-324 | a residual fits the nibble at a shift exactly if its width is at most 16 - shift |
| AdpcmEncoder.FirstShiftRange | common/audio/audio_formats.cpp:304-327 | for all 16-bit samples and history the first shift lies in -2..12, no nibble wraps, and the error is at most 28 * (2^(12-shift) - 1) |
| AdpcmEncoder.LoweredIsLeast | common/audio/audio_formats.cpp:329-339 | the lowering loop stops at the least shift, down to -1, whose unit divides every residual |
| AdpcmEncoder.ChosenIsLeast | common/audio/audio_formats.cpp:321-340 | with no error at a first shift of 0 or more, a shift divides every residual if and only if it is at least the chosen one |
| AdpcmEncoder.ChosenIsEncodable | common/audio/audio_formats.cpp:329-339 | the chosen shift fits a block header if and only if some residual is not divisible by the unit of shift -1, which is 2^13 (UnitBelowZero) |
| AdpcmEncoder.ChooseShift | common/audio/audio_formats.cpp:304-340 | minimum, maximum, widths and the lowering loop compute that choice, and no assertion fails |
| AdpcmEncoder.BreakFilterTies | common/audio/audio_formats.cpp:245-266 | the filter that is least by error, then shift, then index |
| AdpcmEncoder.BestIsUnique | common/audio/audio_formats.cpp:245-266 | there is only one such filter |
| AdpcmEncoder.AnalyseBlock | common/audio/audio_formats.cpp:292-340 | both arrays hold the error and the shift of each of the five filters |
| AdpcmEncoder.TestEncodeAdpcm | common/audio/audio_formats.cpp:268-360 | the check succeeds if and only if in every block the recorded filter is the best, has no error, and has the recorded shift |
| AdpcmRoundTrip.SampleIff | common/audio/audio_formats.cpp:118-137 | a sample comes back if and only if its residual has no error or saturation hides the error |
| AdpcmRoundTrip.SampleRoundTrip | common/audio/audio_formats.cpp:118-137 | a residual without error comes back as its sample, before saturation |
| AdpcmRoundTrip.BlockRoundTrip | common/audio/audio_formats.cpp:103-157 | a packed block without error decodes to its samples |
| AdpcmRoundTrip.HistoriesAgree | common/audio/audio_formats.cpp:356-357 | at every block boundary the decoder's history is the encoder's |
| AdpcmRoundTrip.StreamRoundTrip | common/audio/audio_formats.cpp:291-357 | streams of any length without error decode exactly |
| AdpcmRoundTrip.FileRoundTrip | common/audio/audio_formats.cpp:59-163 | a header and such a stream decode to the samples as a mono file |
| AdpcmStreams.InterleaveSides | common/audio/audio_formats.cpp:87-101 | the chunks of two interleaved files come apart again |
| AdpcmStreams.InterleavedDecode | common/audio/audio_formats.cpp:59-163 | two mono files interleaved by chunks decode to the samples of each |
| AdpcmRoundTrip.StereoRoundTrip | common/audio/audio_formats.cpp:59-163 | two packed streams without error, each with its header, interleaved by chunks, decode to both channels |
| AdpcmRoundTrip.PassingIsExact | common/audio/audio_formats.cpp:342-354 | what passes the encoder's check has no error in any block, so it round trips |
| AdpcmRoundTrip.CanPass | common/audio/audio_formats.cpp:342-354 | some recorded bytes pass for a block if and only if a filter has no error and every such filter's shift can be stored |
| AdpcmRoundTrip.SilenceCannotPass | common/audio/audio_formats.cpp:329-354 | no recorded bytes pass for a silent block |
| CliParse.FindOption | third-party/CLI11.hpp:8042-8050 | the first option that matches the name |
| CliParse.FindPositional | third-party/CLI11.hpp:7875-7902 | the first option that takes the positional |
| CliWords.SplitJoins | third-party/CLI11.hpp:183-197 | splitting cuts a string at every delimiter and nowhere else, and joining gives it back if and only if it does not end in the delimiter |
| CliWords.SplitOfJoin | third-party/CLI11.hpp:183-197 | a joined list comes apart into its elements |
| CliWords.PiecesOfValue | third-party/CLI11.hpp:5297-5327 | without extra arguments a value becomes its non-empty pieces if it holds the delimiter, and stays one result otherwise |
| CliWords.PiecesOfList | third-party/CLI11.hpp:5297-5309 | with extra arguments a bracketed list becomes the values of its non-empty elements, in order |
| CliWords.LongRoundTrip | third-party/CLI11.hpp:2450-2463 | `--name=value` and `--name` come apart into the name and the value |
| CliWords.NumbersArePositional | third-party/CLI11.hpp:7293-7300 | a word like -5 is a positional exactly if no option has that digit as its name |
| CliWords.ClassOf | third-party/CLI11.hpp:7284-7306 | which strings are recognized as the mark, a long, a short or a Windows option |
| CliWords.Arity | third-party/CLI11.hpp:8091-8101 | how many values an option needs and takes, in terms of its declared sizes; an unlimited one without extra arguments stops at its minimum |
| CliWords.FlagWords | third-party/CLI11.hpp:1713-1753 | the words that stand for true and for false, in any case, the digits, and what is left to the number parser |
| CliValues.StollReads | third-party/CLI11.hpp:1750 | the number parser reads every printed 64-bit number back, after space and a plus sign and before anything but a digit |
| CliValues.StollRefuses | third-party/CLI11.hpp:1750 | and nothing where there is no digit |
| CliWords.OverrideDisabled | third-party/CLI11.hpp:4912-4953 | a flag that may not be overridden has its default value if and only if it is not given `=false` on a default of false, and then it is `true` |
| CliWords.DisabledFalseIsTrue | third-party/CLI11.hpp:4918-4947 | the instance |
| CliWords.CountIsZero | third-party/CLI11.hpp:7806-7817 | nothing is counted as missing exactly if every required positional has its minimum |
| CliWords.CountStep | third-party/CLI11.hpp:7806-7817 | more results for one option lower the count by what they supply of the values it lacked |
| CliParse.SingleDecreases | third-party/CLI11.hpp:7763-7803 | every step that does not throw makes the sum of (length + 1) smaller, even when the rest of a cluster is pushed back |
| CliParse.ParseAll | third-party/CLI11.hpp:7648-7657 | the loop terminates on every argument list, with no argument left unless it throws |
| CliAccount.EveryArgument | third-party/CLI11.hpp:7648-7657 | every argument of a parse is accounted for: it is taken by the first option of its name or by a positional, or it is in the missing list, in order; a word is left as an option only if no option has its name, and as a positional only if none takes it even at the end; an option that took nothing keeps its results |
| CliMark.MarkEndsOptions | third-party/CLI11.hpp:7767-7775 | after `--` no word is read as an option: each, whatever it starts with, is dealt to the positional that takes it first or joins the missing list, in order; an option that is no positional keeps its results, and the parse throws only where positionals at the end leave a word |
| CliMark.PositionalOnly | third-party/CLI11.hpp:7833-7955 | the same for every parse that takes positionals only, with the rules for required positionals, validation and prefix commands |
| CliMark.FirstAtEnd | third-party/CLI11.hpp:7790-7796 | where positionals come at the end, the first of them ends option parsing as `--` does |
| CliMark.MarkIsEatenIff | third-party/CLI11.hpp:8132-8157 | a `--` after an option is taken away, and does not end option parsing, if and only if the option could have taken more values |
| CliMark.OptionAfterMark | third-party/CLI11.hpp:8155-8157 | then a flag after the `--` is parsed as a flag |
| CliValues.ValueAlone | third-party/CLI11.hpp:8107-8121 | the whole parse of `--name=value`: the option receives exactly the pieces of the value, nothing else changes, and it throws exactly if they are too few or leave a group unfinished |
| CliValues.ValueReceived | third-party/CLI11.hpp:8107-8121 | whatever follows `--name=value`, the pieces of the value come right after what the option had |
| CliValues.SpellingsAgree | third-party/CLI11.hpp:8011-8186 | `--name=value`, `--name value`, `-nvalue`, `-n value` and `/name:value` end the whole parse alike, whatever the value is and whatever follows, for every option that needs a value |
| CliValues.FlagAlone | third-party/CLI11.hpp:4912-4953 | the whole parse of `--flag` or `--flag=input`: the flag receives the input, or the opposite of its flag value where the default is false, or its default where there is no input; it throws exactly if the input may not override the default or is too large to invert |
| CliValues.FlagReceived | third-party/CLI11.hpp:4912-4953 | whatever follows the flag, that text comes right after what it had |
| CliValues.ZeroIsFalse | third-party/CLI11.hpp:4944-4947 | the instance where the opposite is not the negated value: a zero becomes the word for false |
| CliLoops.GatherRun | third-party/CLI11.hpp:8123-8130 | the loop for the minimum takes words exactly as long as the option lacks values and words are left |
| CliLoops.EatRun | third-party/CLI11.hpp:8134-8153 | the loop for optional values takes exactly the words up to the first that the option has no room for, that is an option or a mark, that is not valid where this is checked, or that is needed for a required positional |
| CliLoops.OptionCollects | third-party/CLI11.hpp:8080-8178 | the whole parse of `--name` and words that are all welcome: the option has exactly those words, in order |
| CliApp.App.Add | third-party/CLI11.hpp:5297-5327 | the results that one string becomes are appended, and counted |
| CliApp.App.Separate | third-party/CLI11.hpp:8085-8090 | a separator is added between groups only |
| CliApp.App.TakeFirst | third-party/CLI11.hpp:8107-8121 | the flag value, the value after = or the rest of a short option, with its exceptions |
| CliApp.App.GatherMinimum | third-party/CLI11.hpp:8124-8130 | the loop that gathers the minimum |
| CliApp.App.EatOptional | third-party/CLI11.hpp:8137-8158 | the loop over optional arguments, with its three ways to stop |
| CliApp.App.TakeOptional | third-party/CLI11.hpp:8136-8169 | optional arguments, the ending `--` and the default value |
| CliApp.App.CollectInto | third-party/CLI11.hpp:8080-8178 | everything that happens to the option found, with its exceptions |
| CliApp.App.ParseOption | third-party/CLI11.hpp:8011-8186 | `_parse_arg` as a whole: missing, collected or thrown, with the rest of a cluster pushed back |
| CliApp.App.ParsePositionalArg | third-party/CLI11.hpp:7833-7955 | `_parse_positional` with and without positionals at the end and prefix commands |
| CliApp.App.ParseOne | third-party/CLI11.hpp:7763-7803 | `_parse_single` by the class of the next argument |
| CliApp.App.Parse | third-party/CLI11.hpp:7648-7657 | the loop over the vector ends with the same state or exception as the function |
| CliClusters.PlainIsShort | third-party/CLI11.hpp:7284-7306 | a known flag is recognized as a short option whatever follows it, digits included |
| CliClusters.HitStep | third-party/CLI11.hpp:8011-8186 | one step takes the first flag of a cluster and pushes the rest back |
| CliClusters.ClusterSteps | third-party/CLI11.hpp:8011-8186 | a cluster of any length is used up in as many steps as it has flags |
| CliClusters.SinglesSteps | third-party/CLI11.hpp:8011-8186 | so are its flags one by one, with the same result |
| CliClusters.ClusterIsSingles | third-party/CLI11.hpp:8011-8186 | for a cluster that is next, the whole parse ends in the same results, order, missing list or exception |
| CliAnywhere.EatIff | third-party/CLI11.hpp:8139-8158 | on two bottoms that start with an option the loop eats the same if and only if it does not stop for the required values alone |
| CliAnywhere.CollectIff | third-party/CLI11.hpp:8080-8178 | an option's whole work is the same on both bottoms exactly in that case |
| CliAnywhere.SingleIff | third-party/CLI11.hpp:7763-7803 | a step before the cluster gives the same result with the flags one by one if and only if it does not look at the number of arguments where the two differ |
| CliAnywhere.ClusterAnywhere | third-party/CLI11.hpp:7648-7657 | replacing -abc by -a -b -c anywhere in option position changes nothing, if the steps before it agree in that sense |
| CliAnywhere.GuardHolds | third-party/CLI11.hpp:8137-8148 | they agree whenever the cluster has one flag, all options have fixed arity, or no more required values are missing than there are arguments from the cluster on |
| CliAnywhere.ClusterAnywhereIf | third-party/CLI11.hpp:7648-7657 | the replacement under any of these three |
| CliGrowth.ParsingGrows | third-party/CLI11.hpp:7648-7657 | no parse loses, changes or reorders a result that an option already has |
| CliLimits.ClusterMatters | third-party/CLI11.hpp:8137-8148 | for every number of arguments after the cluster, a program one missing value past the third of them for which the two spellings differ |
| CliAlike.DifferentStepSameEnd | third-party/CLI11.hpp:8137-8158 | a program for which the first step differs and both spellings end alike |
| LspProgress.CompileProgressTracker.constructor | lsp/lsp_util.cpp:291-296 | a new tracker is not started and has an empty buffer |
| LspProgress.CompileProgressTracker.Start | lsp/lsp_util.cpp:298-315 | create and begin are emitted and the percentage is 0, unless progress is off |
| LspProgress.CompileProgressTracker.ProcessLine | lsp/lsp_util.cpp:365-380 | a report exactly if the line parses to another percentage |
| LspProgress.CompileProgressTracker.HandleChunk | lsp/lsp_util.cpp:317-345 | searching and cutting the buffer equals reading character by character, and the buffer never keeps a terminator |
| LspProgress.CompileProgressTracker.Finish | lsp/lsp_util.cpp:347-363 | the last line is flushed, end is emitted and the tracker is as new |
| LspProgress.AfterAppend | lsp/lsp_util.cpp:317-345 | reading two texts is reading their concatenation |
| LspProgress.ChunksDoNotMatter | lsp/lsp_util.cpp:317-345 | however a text is cut into chunks, the tracker ends in the same state with the same events |
| LspProgress.ReadsLines | lsp/lsp_util.cpp:317-380 | incremental reading agrees with splitting the whole text into lines |
| LspProgress.LinesIff | lsp/lsp_util.cpp:317-345 | the lines are the text cut at every newline and carriage return, and at nothing else |
| LspProgress.ReportsDiffer | lsp/lsp_util.cpp:365-380 | consecutive reports have different percentages, starting from the last one |
| LspProgress.SessionTrace | lsp/lsp_util.cpp:298-380 | a session emits create, begin, the reports of the text's lines from percentage 0 on, then end |
| LspProgress.RunSession | lsp/state/workspace.cpp:637-650 | the calls of one compilation emit exactly that trace, and nothing when progress is off |
| LspUrl.UrlEncode | lsp/lsp_util.cpp:13-34 | the index loop computes the encoding |
| LspUrl.UrlDecode | lsp/lsp_util.cpp:36-68 | so does the decoding loop, with its skips |
| LspUrl.DecodeOfEncode | lsp/lsp_util.cpp:13-68 | decoding undoes encoding for every byte string |
| LspUrl.EncodedIsCanonical | lsp/lsp_util.cpp:13-34 | the output is kept characters and upper-case triplets of the others, as in section 2.1 of RFC 3986 |
| LspUrl.CanonicalIff | lsp/lsp_util.cpp:13-68 | encoding undoes decoding on exactly the canonical strings |
| LspTriplets.WritesIff | lsp/lsp_util.cpp:36-68 | a string decodes to the bytes that it writes, each as itself, a space as +, or any byte as % and two hexadecimal digits in either case; a string writes something exactly if two such digits follow every % |
| LspTriplets.ReadsIff | lsp/lsp_util.cpp:36-68 | what every string decodes to, with malformed triplets and a % too close to the end |
| LspTriplets.ExtractIsExtraction | lsp/lsp_util.cpp:43-48 | two characters are read as a hexadecimal stream extraction: space, sign, digits up to the first other character |
| LspTriplets.EscapesIff | lsp/lsp_util.cpp:13-34 | the encoder writes unreserved characters and slashes as themselves and every other byte as a triplet of upper-case digits |
| LspTriplets.CaseDoesNotMatter | lsp/lsp_util.cpp:83-95 | the case of the digits in triplets does not change the path of a URI |
| LspTriplets.WrittenPath | lsp/lsp_util.cpp:83-95 | the path of every URI that writes `file:///` and a path |
| LspUrl.ForwardSlashes | common/util/FileUtil.cpp:481-489 | a path is unchanged exactly if it has no backslash |
| LspUrl.SlashAt | common/util/FileUtil.cpp:481-489 | every backslash becomes a slash and nothing else changes |
| LspUrl.UriFromPath | lsp/lsp_util.cpp:75-81 | the file URI of a path |
| LspUrl.UriToPath | lsp/lsp_util.cpp:83-95 | the path of a URI, on Windows and elsewhere |
| LspUrl.PathRoundTrip | lsp/lsp_util.cpp:75-95 | the path that comes back, and that it is the same one if and only if this is Windows and the path has no backslash |

## Left out

Thread pool:

- Each locked section is one atomic step; the memory model is not modelled.
- The sections that only set a flag (pause, unpause, the start of reset, creating and destroying the threads) have no
  row of their own; they are methods of `PoolSections.ThreadPool`.
- Timed waits, futures, exceptions thrown by tasks, `synced_stream` and `timer`.
- The default thread count: `reset` and the constructor take the count as given, at least 1.
- Integer widths of `blocks`: indices and sizes are unbounded, so overflow of `T` and `size_t` is not modelled.

Dragonbox:

- The cache tables and the compressed cache: `CacheGoodFor` states what an entry must provide.
- The fixed-point logarithms: `FloorLog10` and `FloorLog2` state what they compute, and the thresholds built from them
  are written as numbers.
- The shorter-interval case, directed rounding, the `do_not_care` rounding policy and the policy templates.
- `DragonboxShortest.ReadIntegrality` asks all three integer questions at once, where the source asks one only if it
  needs it.
- The sign and the other float classes, which are handled elsewhere in the file.

ADPCM:

- `AdpcmStreams.StereoIsTwoMonos` is for files whose end falls on a block boundary and not between the right
  channel's header and its first block.
- A filter number above 4 reads past the coefficient tables; the model stops there with an outcome of its own.
- The reader's cursor is unbounded; a seek past 2^32 is not modelled.
- `AdpcmEncoder.AnalyseBlock` analyses each filter right after encoding with it, where the source runs two loops
  over the filters; samples after the last whole block are dropped, as in the source.
- `write_wave_file`, the WAV header and the log output.

Command line:

- Subcommands, option groups, configuration files, environment variables, help and requirement checks after the loop.
- `trigger_on_parse` callbacks, which run user code in the middle of parsing.
- Validators are a predicate of each option. The negation of the smallest 64-bit number, which overflows in the source,
  is the mathematical one.
- Names are compared exactly: `ignore_case` and `ignore_underscore` are not modelled. Products of sizes that
  overflow `int` without a check are unbounded.
- The state left behind when a parse function throws.
- CliAnywhere.ClusterAnywhere: one direction for the end of the parse; the exact condition is the one for each step,
  and `CliAlike.DifferentStepSameEnd` shows that it is not necessary for the end.

Language server helpers:

- The line parser and its regular expressions are an uninterpreted function; the callback is a recorded trace, and
  the unique token is a parameter.
- `isalnum` is the one of the C locale, false for bytes above 127.
- `parse_compiler_error`, which is text heuristics, and logging.
