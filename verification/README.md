# Verified model of the UA3REO signal and driver code

This project models the stateful and arithmetic core of the UA3REO receiver's FPGA tree and proves
what that code is for. Everything is Dafny; `dafny verify dfyconfig.toml` checks it all.

**CIC filters** (`Signal`, `Decimation`, `Interpolation`, `WordSignal`, `Rounding`, `CicChannel`,
`CicWords`, `CicWraps`, `CicClean`, `CicMalign`, `CicPruning`, `CicImpulse`, `CicRounding`,
`CicInterleave`). A decimator runs N integrators that grow without bound and wrap at 64 bits, a
delay, a downsampler and N combs. The main theorem is that it nevertheless computes the simple form,
N-fold moving sums of length R*M, exactly. Its parts are the algebra of finite signals (noble
identities, commuting stages, telescoping), a gain bound that matches the program's width guard, and
a congruence that every stage keeps. A pruned run is proved to leave the word form of the pruned
filter, for the widths the program computes. Over the integers that filter has an error bound that
no input length moves; on words it is that filter for every input if and only if nothing is dropped
between the first and the last truncation. The binomial formulas behind the widths are shown to be
the true impulse response. The class `CicChannel.SingleChannel` is the code; the functions of
`Decimation`, `CicWords` and `Interpolation` are what it is proved against.

**NCO** (`Doubles`, `Cordic`, `Nco`, `NcoParallel`, `PhaseLine`). The integer CORDIC recurrence
stays in a circle for every table and converges for every covering table. The serial engine (shifts
and masks) and the parallel engine (floors on doubles) produce the same samples unless a negative
number reaches minus its modulus, where their remainders part; the exact condition is proved. The
delay line shared by several channels is as many independent phase accumulators.

**UART fast driver** (`Uart`, `UartTrace`, `UartLiveness`, `UartOverrun`, `UartDriver`). A step
system in which the handler may run between any two unmasked accesses of the foreground to the
shared rings. Byte order and the absence of lost wakeups are invariants of all its runs; blocked
calls return under fairness. `UartDriver.Driver` is the driver's code on arrays; a ghost history
ties every piece of it to the step system, so the invariants hold of the objects too.

**Serial flash** (`Epcs`, `Spi`, `EpcsCommands`, `Flash`). From the polled full-duplex exchange with
one byte of credit, over the command frames, to the write that splits data by region, block and page
on a chip that only clears bits and wraps inside a page.

**Alarms** (`Alarm`, `LinkedList`). Deadlines kept in 32-bit ticks and a roll-over flag behave as
deadlines on a clock that never wraps: whatever is started, stopped and ticked, every alarm object
has been called exactly when it was due. The scheduler is the code on the doubly linked list, whose
theory is `LinkedList`.

`Arith` and `Int64` hold the number theory the others share.

## Main results

- Decimator and interpolator words: `CicChannel.SingleChannel.Decimate`, `.Interpolate`,
  `CicChannel.OutputFits`, on `Decimation.RecursiveIsExact` and `Interpolation.RecursiveIsSmoothed`.
- Pruning: `Decimation.PrunedError`, `CicPruning.PrunedExactly`, `CicPruning.PrunedOutput`,
  `CicImpulse.HJ`, `CicChannel.WidthsExactly`.
- Rounding: `Rounding.ConvergentIsNearestEven`, `Rounding.HalfUpIsNearestUp`,
  `CicRounding.RoundingExactly`.
- A whole run: `CicInterleave.SingleRate.ExecuteCic`; `CicInterleave.SingleRate.CombineAndSeparate`.
- Oscillator: `Cordic.RoundingError`, `Cordic.MagnitudeBound`, `Cordic.ResidualBound`,
  `Nco.SampleOfRun`, `Nco.AddressFollows`, `NcoParallel.BothRuns`, `Nco.EnginesAgree`,
  `PhaseLine.ChannelsIndependent`.
- UART: `Uart.TransmitFifo`, `UartTrace.TransmitsCalls`, `UartTrace.ReceiveFifo`,
  `Uart.ReceiveOrderExactly`, `Uart.NoLostWakeup`, the three returns of `UartLiveness`, and
  `UartDriver.Driver` as the code they hold of.
- Flash: `Spi.Port.Exchange`, `Flash.Controller.Write`, `Flash.WriteStores`, `Flash.WriteKeeps`.
- Alarms: `Alarm.Scheduler.InTime` and `Alarm.Scheduler.Tick`, on `Alarm.RunsExactly`.

## Assumptions

- `int64_t` is two's complement and wraps (`Int64.Wrap`); shifts right are arithmetic.
- Doubles that hold integers or binomials are exact (`real`); `pow(2, e)` is exact.
- `B_max` is the least W with 2^(W - B_in) >= (R*M)^N, minus 1, and the interpolator's width the
  same with its own quotient: the formulas of the program without the rounding of `log`. The
  logarithms of the Hogenauer widths are exact likewise; the 1e-9 the program adds to them is there,
  as the factor `CicImpulse.TOLERANCE`.
- The arctangent table, the start value and the dither sequence of the CORDIC engines are arbitrary;
  hypotheses on the table are stated where they are used. `Nco.NegativeDiffers` uses the start value
  by its formula and the table entries floor(16 * atan(2^-k) / 2pi) = 2, 1, 0.
- The flash chip of `Epcs` is the environment the driver relies on: a write enable latch that every
  completed write, erase or mode change clears, a busy chip that answers only status reads, the
  address folded into the memory. The SPI ready bits come in any order but keep coming.
- UART: no flow control is generated, so the branches on CTS are not taken; the device accepts a
  byte when TRDY is set, and raises its line exactly for an enabled condition.
- A callback returns any interval and does not touch the alarm list; it is a function of how often
  it has been called since the alarm was started.

## What the code does otherwise than its comments suggest

- The pruned decimator on 64-bit words is not always the pruned filter: an integrator wraps before
  its low bits are dropped, and then only the low bits agree (`CicPruning.PeaksDiffer` for an input,
  `CicPruning.PrunedExactly` for the exact condition, `CicPruning.PrunedOutput` for the low bits).
- The widths of a pruned run can fall from one stage to the next; the negative difference is skipped
  and the run drops more bits than have to go (`CicPruning.OneBitTooMany` for a configuration,
  `CicPruning.PrunedTotal` for the exact condition).
- A rounding step may overflow the word; the sample is then off by 2^(64 - bits). The admitted width
  of 64 does not exclude it (`CicRounding.PeaksOverflow` for a run, `CicRounding.RoundingExactly` for
  the exact condition); a width of 63 does (`CicRounding.RoomForTheStep`).
- The two oscillator engines differ on negative inputs (`Nco.NegativeDiffers` for a run,
  `Nco.EnginesAgree` for the exact condition).
- A flash read in four-byte mode on a chip that is still busy reads from elsewhere
  (`EpcsCommands.ReadBuffer`); the driver itself always leaves the chip idle.
- An alarm with the largest delay fires at the next tick (`Alarm.LargestDelayIsEarly`), except when
  started on the last tick before a roll-over (`Alarm.StartDue`).
- Starting an alarm that is in the list already makes the list a circle without its head
  (`Alarm.Scheduler.Start`, `LinkedList.CircleHolds`).
- The receive handler may store into a full ring and so lose all of it (`UartOverrun.FloodOverruns`);
  the receive results carry the exact hypothesis that it does not.
- A flash write that starts or runs outside the device returns success (`Flash.Controller.Write`).

## Model

| member | source | states |
|---|---|---|
| `CicChannel.SingleChannel.Decimate` | UA3REO_v2/UA3REO/FPGA/cic/sim_verilog/submodules/c_model/CIC.cpp:169-222 | without pruning the wrapping 64-bit recursive filter leaves the decimated N-fold moving sums of length R*M of all but the last N input samples, computed over the unbounded integers and wrapped once, and exactly these sums when the width the program computes is at most 64; with pruning it leaves the word form of the recursive filter for the widths the program computes |
| `CicChannel.SingleChannel.DecimateBy` | UA3REO_v2/UA3REO/FPGA/cic/sim_verilog/submodules/c_model/CIC.cpp:187-220 | for any widths, registers, delay and downsampler together leave exactly the words of the filter without registers, every stage wrapped and every truncation a shift of the wrapped word |
| `CicChannel.SingleChannel.DecimatePass` | UA3REO_v2/UA3REO/FPGA/cic/sim_verilog/submodules/c_model/CIC.cpp:190-216 | one turn of the loop keeps this, with the zeros of the registers in front until the delay drops them |
| `CicWords.PrunedTracks` | UA3REO_v2/UA3REO/FPGA/cic/sim_verilog/submodules/c_model/CIC.cpp:187-220 | these words are congruent to the pruned form over the integers modulo 2 to the 64 minus the bits dropped after the first truncation, for every input and every width |
| `CicWords.EndsOnly` | UA3REO_v2/UA3REO/FPGA/cic/sim_verilog/submodules/c_model/CIC.cpp:187-220 | when only the first and the last truncation take anything, the words are the pruned form exactly, for every input of the declared width |
| `CicChannel.SingleChannel.Interpolate` | UA3REO_v2/UA3REO/FPGA/cic/sim_verilog/submodules/c_model/CIC.cpp:224-237 | N zeros and then the N-fold moving sums of length R*M of the zero-stuffed input, each wrapped once to 64 bits |
| `CicChannel.SingleChannel.ExecuteCic` | UA3REO_v2/UA3REO/FPGA/cic/sim_verilog/submodules/c_model/CIC.cpp:323-357 | either filter followed by the rounding mode chosen: each output sample is the truncated, nearest-even, nearest-up, clamped or unchanged sample of the simple form (wrapped once, or as it is when the width is at most 64); where the added rounding step overflows, the sample is the rounded one less 2^(64 - bits); a pruned run skips the rounding |
| `CicChannel.SingleChannel.InsertData` | UA3REO_v2/UA3REO/FPGA/cic/sim_verilog/submodules/c_model/CIC.cpp:317-320 | appends one sample to the channel |
| `CicChannel.SingleChannel.Integrate` | UA3REO_v2/UA3REO/FPGA/cic/sim_verilog/submodules/c_model/CIC.cpp:255-267 | the register starts at zero and each word is the one before plus the sample before, wrapped: the running sum of all earlier samples, each word wrapped once |
| `CicChannel.SingleChannel.Differentiate` | UA3REO_v2/UA3REO/FPGA/cic/sim_verilog/submodules/c_model/CIC.cpp:269-282 | the difference with the sample D positions earlier, wrapped |
| `CicChannel.SingleChannel.Downsample` | UA3REO_v2/UA3REO/FPGA/cic/sim_verilog/submodules/c_model/CIC.cpp:284-292 | keeps exactly the samples at the multiples of the rate, in order |
| `CicChannel.SingleChannel.Upsample` | UA3REO_v2/UA3REO/FPGA/cic/sim_verilog/submodules/c_model/CIC.cpp:294-305 | the samples at the multiples of the rate, zeros elsewhere |
| `CicChannel.SingleChannel.Truncate` | UA3REO_v2/UA3REO/FPGA/cic/sim_verilog/submodules/c_model/CIC.cpp:158-167 | every sample is the largest integer whose 2^bits-fold does not exceed it |
| `CicChannel.SingleChannel.ConvergentRound` | UA3REO_v2/UA3REO/FPGA/cic/sim_verilog/submodules/c_model/CIC.cpp:106-120 | each sample is the nearest integer to value / 2^bits, ties to even, or that less 2^(64 - bits) exactly when the step added for rounding up passes 2^63 |
| `CicChannel.SingleChannel.RoundHalfUp` | UA3REO_v2/UA3REO/FPGA/cic/sim_verilog/submodules/c_model/CIC.cpp:122-136 | each sample is the nearest integer, ties upwards, or that less 2^(64 - bits) exactly when the added step passes 2^63 |
| `CicChannel.SingleChannel.SaturateTo` | UA3REO_v2/UA3REO/FPGA/cic/sim_verilog/submodules/c_model/CIC.cpp:138-156 | clamps every sample to the signed range of the width |
| `Rounding.ClampIsNearest` | UA3REO_v2/UA3REO/FPGA/cic/sim_verilog/submodules/c_model/CIC.cpp:138-156 | the clamped value is the nearest number of the signed range, the value itself inside it, and the order is kept |
| `CicChannel.Resampled` | UA3REO_v2/UA3REO/FPGA/cic/sim_verilog/submodules/c_model/CIC.cpp:191-197 | the delay by N undoes exactly the N registers of the integrators before the downsampler |
| `CicChannel.HPrune` | UA3REO_v2/UA3REO/FPGA/cic/sim_verilog/submodules/c_model/CIC.cpp:87-102 | collecting the Hogenauer widths and differencing them in place from the last one down gives the widths of the specification; before every stage they add up to the most that may be lost there, altogether to B_max + 1 - B_out |
| `CicChannel.WidthsExactly` | UA3REO_v2/UA3REO/FPGA/cic/sim_verilog/submodules/c_model/CIC.cpp:77-102 | the widths of the specification do: before stage j they add up to the greatest b with N * F_j^2 * 4^b at most 2 * 4^(B_max - B_out), up to the tolerance |
| `CicChannel.MaxWidthLeast` | UA3REO_v2/UA3REO/FPGA/cic/sim_verilog/submodules/c_model/main.cpp:94-99 | the width of either filter is the least one that leaves room for the growth at the largest rate, (R*M)^N or (R*M)^N / R |
| `CicChannel.OutputFits` | UA3REO_v2/UA3REO/FPGA/cic/sim_verilog/submodules/c_model/main.cpp:94-111 | for either filter, an input of B_in signed bits, a rate up to the largest and a width of at most 64, no output sample wraps |
| `Signal.CombsOfPrefixSums` | UA3REO_v2/UA3REO/FPGA/cic/sim_verilog/submodules/c_model/CIC.cpp:206-216 | p integrators followed by p + q combs are p moving sums followed by q combs |
| `Signal.CombOfDown` | UA3REO_v2/UA3REO/FPGA/cic/sim_verilog/submodules/c_model/CIC.cpp:284-292 | a comb of M after the downsampler is a comb of R*M before it |
| `Signal.UpOfComb` | UA3REO_v2/UA3REO/FPGA/cic/sim_verilog/submodules/c_model/CIC.cpp:294-305 | a comb of M before the upsampler is a comb of R*M after it |
| `Decimation.RecursiveIsExact` | UA3REO_v2/UA3REO/FPGA/cic/sim_verilog/submodules/c_model/CIC.cpp:190-216 | integrators, downsampler and combs over the integers equal the decimated N-fold moving sums, for every N, M, R and input |
| `Decimation.PointError` | UA3REO_v2/UA3REO/FPGA/cic/sim_verilog/submodules/c_model/CIC.cpp:200-202 | one truncation point changes an output sample by at most (2^B(i+1) - 2^B(i)) times the gain from that point on |
| `Decimation.PrunedError` | UA3REO_v2/UA3REO/FPGA/cic/sim_verilog/submodules/c_model/CIC.cpp:187-220 | the output scaled back by all the bits dropped is within the sum of these terms of the exact output, whatever the input and its length |
| `Decimation.UnprunedIsExact` | UA3REO_v2/UA3REO/FPGA/cic/sim_verilog/submodules/c_model/CIC.cpp:174-181 | zero widths everywhere give the exact output |
| `Decimation.ExactFits` | UA3REO_v2/UA3REO/FPGA/cic/sim_verilog/submodules/c_model/main.cpp:94-111 | for every rate up to the largest, the decimator output of an input of B_in signed bits fits the width computed for the largest rate |
| `Interpolation.RecursiveIsSmoothed` | UA3REO_v2/UA3REO/FPGA/cic/sim_verilog/submodules/c_model/CIC.cpp:224-237 | combs, upsampler and integrators over the integers equal N-fold moving sums of length R*M of the zero-stuffed input |
| `Interpolation.GainTimesRate` | UA3REO_v2/UA3REO/FPGA/cic/sim_verilog/submodules/c_model/main.cpp:94-111 | the gain after zero-stuffing is (R*M)^N / R, the quotient in the width formula of the program |
| `Interpolation.ExactFits` | UA3REO_v2/UA3REO/FPGA/cic/sim_verilog/submodules/c_model/main.cpp:94-111 | the interpolator output fits the width formula for every rate up to the largest |
| `Rounding.ConvergentIsNearestEven` | UA3REO_v2/UA3REO/FPGA/cic/sim_verilog/submodules/c_model/CIC.cpp:111-117 | the bit-mask rule on a 64-bit word is round-half-to-even of value / 2^w for every sign and width, if and only if the value is not rounded up past 2^63; otherwise it is that less 2^(64 - w) |
| `Rounding.HalfUpIsNearestUp` | UA3REO_v2/UA3REO/FPGA/cic/sim_verilog/submodules/c_model/CIC.cpp:127-133 | the half-bit rule is round-half-up, if and only if the same overflow does not happen, with the same value if it does |
| `Rounding.OverflowsFrom` | UA3REO_v2/UA3REO/FPGA/cic/sim_verilog/submodules/c_model/CIC.cpp:106-136 | the words that overflow are exactly those from 2^63 - 2^(bits - 1) on, but for the tie of the largest shift |
| `CicRounding.RoundingExactly` | UA3REO_v2/UA3REO/FPGA/cic/sim_verilog/submodules/c_model/CIC.cpp:323-357 | for either filter in a width of at most 64, no supported input makes the rounding overflow if and only if the gain times the largest input is below the first word that does |
| `CicRounding.PeakReached` | UA3REO_v2/UA3REO/FPGA/cic/sim_verilog/submodules/c_model/CIC.cpp:169-237 | a constant input of the largest sample does reach that product in either filter |
| `CicRounding.RoomForTheStep` | UA3REO_v2/UA3REO/FPGA/cic/sim_verilog/submodules/c_model/CIC.cpp:323-357 | a width of at most 63 never overflows, whatever the output width and the mode |
| `CicRounding.PeaksOverflow` | UA3REO_v2/UA3REO/FPGA/cic/sim_verilog/submodules/c_model/CIC.cpp:106-136 | one stage decimating 62 bits by 4 to 61 bits, in the admitted width of 64: six peak samples leave the word 2^63 - 4, which either rounding takes to -2^60 |
| `CicPruning.PrunedTotal` | UA3REO_v2/UA3REO/FPGA/cic/sim_verilog/submodules/c_model/CIC.cpp:87-102 | a pruned run drops at least B_max + 1 - B_out bits, and exactly that many if and only if the widths of the stages never fall from one to the next |
| `CicPruning.OneBitTooMany` | UA3REO_v2/UA3REO/FPGA/cic/sim_verilog/submodules/c_model/CIC.cpp:87-222 | for N = 2, M = 1, R = 2, 16 bits in and 15 out the widths are 0, 1, -1, 1, 2: the run skips the negative one and drops 4 bits where 3 have to go, so every output is the exact one over 16, within 5/4 |
| `CicPruning.PrunedExactly` | UA3REO_v2/UA3REO/FPGA/cic/sim_verilog/submodules/c_model/CIC.cpp:169-222 | for a width of at most 64, the words of the pruned run are the pruned form for every input of the declared width, if and only if no truncation between the first and the last takes a bit |
| `CicPruning.PeaksDiffer` | UA3REO_v2/UA3REO/FPGA/cic/sim_verilog/submodules/c_model/CIC.cpp:87-222 | for N = M = 1, R = 4, 62 bits in and out, five samples of peak value make the words differ from the pruned form, with the widths the program itself computes |
| `CicPruning.PrunedWordsNear` | UA3REO_v2/UA3REO/FPGA/cic/sim_verilog/submodules/c_model/CIC.cpp:187-222 | when nothing is dropped inside, every output word scaled back is within the error budget of the exact output |
| `CicPruning.PrunedOutput` | UA3REO_v2/UA3REO/FPGA/cic/sim_verilog/submodules/c_model/CIC.cpp:87-222 | every pruned output word agrees with the pruned form over the integers on all bits not lost inside, and that form scaled back by the bits dropped is within the error budget of the exact output, for all parameters; where the widths ascend the scale is B_max + 1 - B_out and the agreement covers the low B_out bits |
| `CicImpulse.BinomialCoefficient` | UA3REO_v2/UA3REO/FPGA/cic/sim_verilog/submodules/c_model/CIC.cpp:33-46 | multiplying down and dividing by 2..k yields the binomial coefficient of Pascal's rule, in exact arithmetic |
| `CicImpulse.HJ` | UA3REO_v2/UA3REO/FPGA/cic/sim_verilog/submodules/c_model/CIC.cpp:59-70 | for every stage j and every k up to k_max, the alternating sum (or signed coefficient) is sample k of the impulse response of the remaining integrators and N combs of length R*M, or of the remaining combs; and no call breaks n >= k |
| `CicImpulse.FJSquared` | UA3REO_v2/UA3REO/FPGA/cic/sim_verilog/submodules/c_model/CIC.cpp:50-55 | the loop adds up the whole energy of that response, however far it is looked at |
| `CicPruning.ResponseOfPoint` | UA3REO_v2/UA3REO/FPGA/cic/sim_verilog/submodules/c_model/CIC.cpp:59-70 | the responses behind h_j and F_j are what the remaining stages of the recursive form make of an impulse at truncation point j |
| `CicImpulse.HogenauerCalc` | UA3REO_v2/UA3REO/FPGA/cic/sim_verilog/submodules/c_model/CIC.cpp:77-85 | the width of a stage is the greatest b with N * F_j^2 * 4^b at most 2 * 4^(B_max - B_out + 0.000000001), stated with that factor to sixteen places, and zero when nothing has to go |
| `CicChannel.ShiftsFit` | UA3REO_v2/UA3REO/FPGA/cic/sim_verilog/submodules/c_model/CIC.cpp:77-102 | for every output width the program admits, all shifts of a pruned run are from 0 to 63 and the last is not negative |
| `CicImpulse.ResponseEnds` | UA3REO_v2/UA3REO/FPGA/cic/sim_verilog/submodules/c_model/CIC.cpp:50 | the response is zero at every index beyond k_max |
| `CicInterleave.SingleInterface.AppendData` | UA3REO_v2/UA3REO/FPGA/cic/sim_verilog/submodules/c_model/CIC.cpp:376-382 | each value goes to the channel whose turn it is, and the turn moves on |
| `CicInterleave.SingleInterface.GetDataIsReceived` | UA3REO_v2/UA3REO/FPGA/cic/sim_verilog/submodules/c_model/CIC.cpp:371-374 | after any appends, reading cycle t gives the t-th value appended, and zero past the last |
| `CicInterleave.SingleInterface.SampleLengthIsReceived` | UA3REO_v2/UA3REO/FPGA/cic/sim_verilog/submodules/c_model/CIC.cpp:359-362 | after whole rounds the sample length is the number of values received, within a round that number with the round completed |
| `CicInterleave.SingleRate.CombineInterfaces` | UA3REO_v2/UA3REO/FPGA/cic/sim_verilog/submodules/c_model/CIC.cpp:429-447 | the one new interface has received all values, cycle by cycle and interface by interface; for equally long channels, its channel c * I + j is channel c of interface j |
| `CicInterleave.SingleRate.SeparateInterfaces` | UA3REO_v2/UA3REO/FPGA/cic/sim_verilog/submodules/c_model/CIC.cpp:449-471 | the new interfaces have received the merged stream dealt to them in turn; from one interface of equally long channels, channel c of interface j is its channel c * I + j |
| `CicInterleave.SingleRate.CombineAndSeparate` | UA3REO_v2/UA3REO/FPGA/cic/sim_verilog/submodules/c_model/CIC.cpp:429-471 | combining equally long interfaces and separating them again leaves every channel of every interface as it was |
| `CicInterleave.SeparateUndoesCombine` | UA3REO_v2/UA3REO/FPGA/cic/sim_verilog/submodules/c_model/CIC.cpp:429-471 | the same of the streams: reading, dealing, reading and dealing again gives every interface back |
| `CicInterleave.SingleInterface.ExecuteCic` | UA3REO_v2/UA3REO/FPGA/cic/sim_verilog/submodules/c_model/CIC.cpp:389-394 | every channel of the interface becomes what a run of one channel makes of it |
| `CicInterleave.SingleRate.ExecuteCic` | UA3REO_v2/UA3REO/FPGA/cic/sim_verilog/submodules/c_model/CIC.cpp:473-484 | every channel of every interface is filtered; decimated, channel c of interface j ends as channel c * I + j of the one interface left, and interpolated the other way round |
| `Cordic.MagnitudeBound` | UA3REO_v2/UA3REO/FPGA/nco/sim_verilog/submodules/c_model/nco_model.cpp:163-184 | for every table, start angle and n the recurrence keeps x^2 + y^2 <= 3 * (x0 + 2n)^2 |
| `Cordic.CoordinatesFit` | UA3REO_v2/UA3REO/FPGA/nco/sim_verilog/submodules/c_model/nco_model.cpp:160-184 | for mpr up to 32 both coordinates stay below 2^(mpr+7) in magnitude, far inside a 64-bit word |
| `Cordic.RoundingError` | UA3REO_v2/UA3REO/FPGA/nco/sim_verilog/submodules/c_model/nco_model.cpp:169-184 | n rounded turns end within sqrt(3) * 2n of the vector that exact rotations by the angles of tangent 2^-k give, for every table and start |
| `Cordic.IdealLength` | UA3REO_v2/UA3REO/FPGA/nco/sim_verilog/submodules/c_model/nco_model.cpp:169-184 | the squared length of that vector is that of the start times the product of the 1 + 4^-k, whatever the signs |
| `Cordic.ResidualBound` | UA3REO_v2/UA3REO/FPGA/nco/sim_verilog/submodules/c_model/nco_model.cpp:168-184 | for every table whose entries are covered by the later ones up to a slack, and every covered start angle, the residual is at most the last entry plus the slack |
| `Cordic.AngleAccounted` | UA3REO_v2/UA3REO/FPGA/nco/sim_verilog/submodules/c_model/nco_model.cpp:176-180 | the angles turned and the residual always add up to the start angle |
| `Nco.SerialCordic.CalculateAddress` | UA3REO_v2/UA3REO/FPGA/nco/sim_verilog/submodules/c_model/nco_model.cpp:96-150 | both branches compute the address of the specification for phases and modulations of either sign: with shifts, masks and the remainder of C, or dithered, in doubles and with the remainder by subtraction |
| `Nco.SerialCordic.Rotate` | UA3REO_v2/UA3REO/FPGA/nco/sim_verilog/submodules/c_model/nco_model.cpp:163-184 | the loop performs the recurrence of the bounds above, one step per table entry |
| `Nco.SerialCordic.Calculate` | UA3REO_v2/UA3REO/FPGA/nco/sim_verilog/submodules/c_model/nco_model.cpp:155-203 | the rotor of the first-quadrant angle, unfolded into the quadrant of the address |
| `Nco.SerialRun` | UA3REO_v2/UA3REO/FPGA/nco/sim_verilog/submodules/c_model/nco_model.cpp:855-866 | every sample of a run, for inputs of either sign and any dither sequence, is the sample of the specification with C remainders: address from the phase before this sample's increment |
| `Nco.PhaseIsSum` | UA3REO_v2/UA3REO/FPGA/nco/sim_verilog/submodules/c_model/nco_model.cpp:91-94 | in either engine the phase is congruent to the sum of all increments so far modulo 2^apr, and its remainder when none is negative |
| `Nco.AddressFollows` | UA3REO_v2/UA3REO/FPGA/nco/sim_verilog/submodules/c_model/nco_model.cpp:96-150 | in either engine and branch, for numbers of either sign, the address is phase, modulation and dither added up as parts of the circle, rounded down by less than two steps and one of the modulation |
| `Nco.AddressOfPhase` | UA3REO_v2/UA3REO/FPGA/nco/sim_verilog/submodules/c_model/nco_model.cpp:130-149 | without modulation and dither it is exactly the phase as a fraction of the circle, rounded down |
| `Nco.NextQuadrant` | UA3REO_v2/UA3REO/FPGA/nco/sim_verilog/submodules/c_model/nco_model.cpp:191-203 | a quarter of the circle further, sine and cosine have turned by a quarter |
| `Nco.SampleOfRun` | UA3REO_v2/UA3REO/FPGA/nco/sim_verilog/submodules/c_model/nco_model.cpp:855-866 | a sample of either engine, without modulation and dither, is the rotor started at the first-quadrant angle of the sum of the increments before it, turned by as many quarters |
| `Nco.PhasesAgree` | UA3REO_v2/UA3REO/FPGA/nco/sim_verilog/submodules/c_model/nco_model.cpp:886-902 | the phases of the two engines agree up to sample i if and only if no sum before a reduction is at or below minus the modulus |
| `Nco.OutputsAgree` | UA3REO_v2/UA3REO/FPGA/nco/sim_verilog/submodules/c_model/nco_model.cpp:155-203 | two addresses, one in each engine, give the same output for every table and start if and only if they lie in the same quadrant at the same angle |
| `Nco.EnginesAgree` | UA3REO_v2/UA3REO/FPGA/nco/sim_verilog/submodules/c_model/nco_model.cpp:756-866 | sample i is the same in both engines for every table and start if and only if that holds of its two addresses |
| `Nco.SamplesAgree` | UA3REO_v2/UA3REO/FPGA/nco/sim_verilog/submodules/c_model/nco_model.cpp:756-866 | they do when no accumulation and, without dither, no modulated address reaches minus its modulus, and the address is above minus a quarter; so always for inputs that are not negative |
| `Nco.NegativeDiffers` | UA3REO_v2/UA3REO/FPGA/nco/sim_verilog/submodules/c_model/nco_model.cpp:756-866 | with the start value and the table the program computes for three bits of output, address and phase, a first increment of -8 makes the second sample (1, 1) in one engine and (-1, -1) in the other |
| `Nco.OutputBound` | UA3REO_v2/UA3REO/FPGA/nco/sim_verilog/submodules/c_model/nco_model.cpp:155-203 | every output pair of every run of either engine lies in the circle of the magnitude bound |
| `Nco.EveryAddressConverges` | UA3REO_v2/UA3REO/FPGA/nco/sim_verilog/submodules/c_model/nco_model.cpp:161-184 | with a covering table that reaches a quarter turn, every address is resolved to the last entry plus the slack |
| `Doubles.DblMod` | UA3REO_v2/UA3REO/FPGA/nco/sim_verilog/submodules/c_model/nco_model.cpp:886-902 | the repeated subtraction on integral doubles ends and returns its remainder, also for a zero modulus |
| `Doubles.RemaindersAgree` | UA3REO_v2/UA3REO/FPGA/nco/sim_verilog/submodules/c_model/nco_model.cpp:886-902 | the two remainders of the two engines agree if and only if the dividend is above -b |
| `NcoParallel.CalculateAddress` | UA3REO_v2/UA3REO/FPGA/nco/sim_verilog/submodules/c_model/nco_model.cpp:757-807 | both branches on doubles, with floors and divisions, compute the address of the specification with the remainder by subtraction, for either sign |
| `NcoParallel.Calculate` | UA3REO_v2/UA3REO/FPGA/nco/sim_verilog/submodules/c_model/nco_model.cpp:819-848 | the engine on doubles computes the same rotor and quadrant |
| `NcoParallel.ParallelRun` | UA3REO_v2/UA3REO/FPGA/nco/sim_verilog/submodules/c_model/nco_model.cpp:756-850 | every sample of a one-channel run, with any dither sequence, is the sample of the specification with remainders by subtraction |
| `NcoParallel.BothRuns` | UA3REO_v2/UA3REO/FPGA/nco/sim_verilog/submodules/c_model/nco_model.cpp:756-866 | given the same table, start and inputs, both engines produce the same output at every sample whose two addresses lie in the same quadrant at the same angle, and so at every sample when no input is negative |
| `PhaseLine.ChannelsIndependent` | UA3REO_v2/UA3REO/FPGA/nco/sim_verilog/submodules/c_model/nco_model.cpp:394-406 | the phase used at sample c + t * numch is the sum of channel c's first t increments modulo 2^apr: the shared line is numch independent accumulators, also with the single conditional subtraction when each increment is below 2^apr |
| `PhaseLine.Line.ShiftIn` | UA3REO_v2/UA3REO/FPGA/nco/sim_verilog/submodules/c_model/nco_model.cpp:394-402 | the array is shifted in place by one, or the phase added to when there is one channel |
| `PhaseLine.Line.Step` | UA3REO_v2/UA3REO/FPGA/nco/sim_verilog/submodules/c_model/nco_model.cpp:394-406 | the held values and the phase are at all times those of the specification for everything fed so far |
| `Uart.TransmitFifo` | UA3REO_v2/UA3REO/FPGA/software/ua3reo_nios_bsp/drivers/src/altera_avalon_uart_init.c:206-283 | at every point of every run, the bytes sent followed by the live ring are the bytes the writes put in, in order |
| `Uart.NoLostWakeup` | UA3REO_v2/UA3REO/FPGA/software/ua3reo_nios_bsp/drivers/src/altera_avalon_uart_write.c:171-197 | with a non-empty ring and the foreground outside write or waiting in it, the device has its transmit interrupt enabled |
| `Uart.TransmitService` | UA3REO_v2/UA3REO/FPGA/software/ua3reo_nios_bsp/drivers/src/altera_avalon_uart_init.c:206-283 | a transmit service sends one byte, the oldest, and leaves its interrupt enabled exactly while there are more |
| `Uart.ReceiveService` | UA3REO_v2/UA3REO/FPGA/software/ua3reo_nios_bsp/drivers/src/altera_avalon_uart_init.c:152-198 | a receive service keeps its interrupt enabled exactly while the ring has room for another byte |
| `Uart.OverrunBreaksOrder` | UA3REO_v2/UA3REO/FPGA/software/ua3reo_nios_bsp/drivers/src/altera_avalon_uart_init.c:178-184 | a single event breaks the receive invariant if and only if it stores an error-free byte into a full ring |
| `Uart.ReceiveOrderExactly` | UA3REO_v2/UA3REO/FPGA/software/ua3reo_nios_bsp/drivers/src/altera_avalon_uart_init.c:152-198 | the receive invariant holds throughout a run if and only if no event of it is an overrun |
| `UartTrace.ReceiveFifo` | UA3REO_v2/UA3REO/FPGA/software/ua3reo_nios_bsp/drivers/src/altera_avalon_uart_init.c:152-198 | while nothing overruns, the bytes the reads returned and took, followed by the live ring, are the bytes of the raised error-free receive interrupts, in order |
| `UartTrace.RunReceives` | UA3REO_v2/UA3REO/FPGA/software/ua3reo_nios_bsp/drivers/src/altera_avalon_uart_read.c:164-170 | so at every point of every run without overruns |
| `UartTrace.TransmitsCalls` | UA3REO_v2/UA3REO/FPGA/software/ua3reo_nios_bsp/drivers/src/altera_avalon_uart_write.c:152-230 | between writes, the bytes sent followed by the live ring are a part of each call's bytes from its start on, call after call, all of them for a call that may block |
| `UartTrace.AcceptedAll` | UA3REO_v2/UA3REO/FPGA/software/ua3reo_nios_bsp/drivers/src/altera_avalon_uart_write.c:152-230 | and so the bytes of all the calls, when every call may block |
| `UartTrace.ReadFills` | UA3REO_v2/UA3REO/FPGA/software/ua3reo_nios_bsp/drivers/src/altera_avalon_uart_read.c:164-212 | a read that returns fewer bytes than asked for has found the ring empty on the way, and one that may block returns some |
| `UartTrace.WriteFills` | UA3REO_v2/UA3REO/FPGA/software/ua3reo_nios_bsp/drivers/src/altera_avalon_uart_write.c:152-212 | a write that puts in fewer bytes than given may not block and has found the ring full |
| `Uart.BlockedReadIsServed` | UA3REO_v2/UA3REO/FPGA/software/ua3reo_nios_bsp/drivers/src/altera_avalon_uart_read.c:189-212 | a read that has nothing and finds the ring empty waits with the receive interrupt enabled |
| `UartLiveness.WriteReturns` | UA3REO_v2/UA3REO/FPGA/software/ua3reo_nios_bsp/drivers/src/altera_avalon_uart_write.c:152-230 | under fairness every write returns; a blocking one has put in all its bytes |
| `UartLiveness.CloseReturns` | UA3REO_v2/UA3REO/FPGA/software/ua3reo_nios_bsp/drivers/src/altera_avalon_uart_init.c:298-310 | under fairness a blocking close returns, and with an empty ring |
| `UartLiveness.ReadReturns` | UA3REO_v2/UA3REO/FPGA/software/ua3reo_nios_bsp/drivers/src/altera_avalon_uart_read.c:152-238 | with error-free bytes coming in for ever, fair foreground steps and no overrun, every blocking read of a non-zero length returns with at least one byte and at most len |
| `UartOverrun.RunExists` | UA3REO_v2/UA3REO/FPGA/software/ua3reo_nios_bsp/drivers/src/altera_avalon_uart_init.c:111-144 | every schedule of events has its run from initialisation, so the results above are not empty |
| `UartOverrun.FloodOverruns` | UA3REO_v2/UA3REO/FPGA/software/ua3reo_nios_bsp/drivers/src/altera_avalon_uart_init.c:152-198 | a schedule from initialisation that overruns: a transmit interrupt makes the handler store into the full ring although reception is disabled |
| `UartDriver.Driver.ServeReceive` | UA3REO_v2/UA3REO/FPGA/software/ua3reo_nios_bsp/drivers/src/altera_avalon_uart_init.c:152-198 | the array code does what the step system says of a receive interrupt |
| `UartDriver.Driver.ServeTransmit` | UA3REO_v2/UA3REO/FPGA/software/ua3reo_nios_bsp/drivers/src/altera_avalon_uart_init.c:206-283 | the array code does what the step system says of a transmit interrupt |
| `UartDriver.Driver.Interrupt` | UA3REO_v2/UA3REO/FPGA/software/ua3reo_nios_bsp/drivers/src/altera_avalon_uart_init.c:111-144 | one handler run is one interrupt step of the history |
| `UartDriver.Driver.Write` | UA3REO_v2/UA3REO/FPGA/software/ua3reo_nios_bsp/drivers/src/altera_avalon_uart_write.c:123-230 | for every schedule of interrupts between its accesses, write is a sequence of steps of the system; it returns the number of bytes it has put in, all of them when blocking |
| `UartDriver.Driver.Read` | UA3REO_v2/UA3REO/FPGA/software/ua3reo_nios_bsp/drivers/src/altera_avalon_uart_read.c:123-238 | the same for read: it returns at most len bytes, and would-block exactly for an empty result of a non-zero length, never when it may block |
| `UartDriver.Driver.Close` | UA3REO_v2/UA3REO/FPGA/software/ua3reo_nios_bsp/drivers/src/altera_avalon_uart_init.c:298-310 | the same for close: it reports would-block exactly when it returns with bytes in the transmit ring, which it does only when it may not block |
| `UartDriver.Driver.AlwaysInOrder` | UA3REO_v2/UA3REO/FPGA/software/ua3reo_nios_bsp/drivers/src/altera_avalon_uart_write.c:152-225 | every state of every driver object satisfies the transmit invariant, and between writes its bytes sent and in the ring are those its calls handed over |
| `UartDriver.Driver.ReceivesInOrder` | UA3REO_v2/UA3REO/FPGA/software/ua3reo_nios_bsp/drivers/src/altera_avalon_uart_read.c:157-229 | and, while nothing overran, the receive invariant; its bytes returned, taken and in the ring are those of its receive interrupts |
| `Spi.Port.Exchange` | UA3REO_v2/UA3REO/FPGA/software/ua3reo_nios_bsp/drivers/src/altera_avalon_spi.c:71-118 | for every fair order of ready bits the loop ends; exactly the data and then readLength zeros have gone out, one at a time, and byte i returned is the reply to byte |data| + i |
| `Spi.Port.Command` | UA3REO_v2/UA3REO/FPGA/software/ua3reo_nios_bsp/drivers/src/altera_avalon_spi.c:41-134 | the exchange, then the chip select is released unless the command is to be merged with the next |
| `Spi.Port.AwaitReady` | UA3REO_v2/UA3REO/FPGA/software/ua3reo_nios_bsp/drivers/src/altera_avalon_spi.c:82-87 | the inner poll ends with credit and room to send, or with a reply |
| `Epcs.PageProgramStraight` | UA3REO_v2/UA3REO/FPGA/software/ua3reo_nios_bsp/drivers/src/epcs_commands.c:218-238 | a program that stays inside a 256-byte page stores its bytes consecutively although the chip wraps inside the page |
| `Epcs.BurnedErased` | UA3REO_v2/UA3REO/FPGA/software/ua3reo_nios_bsp/drivers/src/epcs_commands.c:189-238 | programming, which only clears bits, stores the data on erased cells |
| `EpcsCommands.HeaderBytes` | UA3REO_v2/UA3REO/FPGA/software/ua3reo_nios_bsp/drivers/src/epcs_commands.c:70-87 | the bytes of a command on the wire: the operation, then three or four address bytes, highest first |
| `EpcsCommands.SectorErase` | UA3REO_v2/UA3REO/FPGA/software/ua3reo_nios_bsp/drivers/src/epcs_commands.c:65-108 | the sector around the offset is erased, nothing else, and the chip is idle in three-byte mode again |
| `EpcsCommands.ReadBuffer` | UA3REO_v2/UA3REO/FPGA/software/ua3reo_nios_bsp/drivers/src/epcs_commands.c:110-153 | the bytes from the offset on, wrapping at the end of the memory, which is unchanged; a chip still busy misses a switch to four address bytes, since the wait comes after it, and the bytes then are those from offset / 256 + 1 on |
| `EpcsCommands.WriteBuffer` | UA3REO_v2/UA3REO/FPGA/software/ua3reo_nios_bsp/drivers/src/epcs_commands.c:190-254 | the page program of the data at the offset, from a frame built by two transactions |
| `EpcsCommands.AddressedAround` | UA3REO_v2/UA3REO/FPGA/software/ua3reo_nios_bsp/drivers/src/epcs_commands.c:198-215 | the chip folds an address past its end into the memory, however many address bytes there are |
| `Flash.Query` | UA3REO_v2/UA3REO/FPGA/software/ua3reo_nios_bsp/drivers/src/altera_avalon_epcs_flash_controller.c:80-224 | every known device is a whole number of blocks of whole pages, its size is within reach of its address mode and divides it |
| `Flash.QueryCapacity` | UA3REO_v2/UA3REO/FPGA/software/ua3reo_nios_bsp/drivers/src/altera_avalon_epcs_flash_controller.c:104-215 | a known signature s means 2^(s + 1) bytes; otherwise exactly the listed ids are known, with 2^d bytes for a low id byte d up to 0x19 and 2^(d - 6) from 0x20 on |
| `Flash.QueryBlocks` | UA3REO_v2/UA3REO/FPGA/software/ua3reo_nios_bsp/drivers/src/altera_avalon_epcs_flash_controller.c:104-215 | the erase block is 64 KB but for the smallest part and the one of 256 KB blocks, and four address bytes are used exactly above 16 MB |
| `Flash.Controller.constructor` | UA3REO_v2/UA3REO/FPGA/software/ua3reo_nios_bsp/drivers/src/altera_avalon_epcs_flash_controller.c:80-224 | a device found by the query, on a chip of that geometry, satisfies the layout every operation relies on |
| `Flash.Controller.Read` | UA3REO_v2/UA3REO/FPGA/software/ua3reo_nios_bsp/drivers/src/altera_avalon_epcs_flash_controller.c:483-506 | the bytes from the offset on, wrapping at the end, or the error |
| `Flash.Controller.Memcmp` | UA3REO_v2/UA3REO/FPGA/software/ua3reo_nios_bsp/drivers/src/altera_avalon_epcs_flash_controller.c:226-277 | zero if and only if the device holds the bytes, wrapping at its end, and the last chunk of 32 starts inside it, for any offset and length |
| `Flash.Controller.EraseBlock` | UA3REO_v2/UA3REO/FPGA/software/ua3reo_nios_bsp/drivers/src/altera_avalon_epcs_flash_controller.c:420-435 | erases the block, or returns the error and changes nothing |
| `Flash.Controller.WriteBlock` | UA3REO_v2/UA3REO/FPGA/software/ua3reo_nios_bsp/drivers/src/altera_avalon_epcs_flash_controller.c:445-476 | every byte programmed once and in order at its place, although each command is cut at a page end; a run past the end of the device goes on at its start |
| `Flash.Controller.UpdateBlock` | UA3REO_v2/UA3REO/FPGA/software/ua3reo_nios_bsp/drivers/src/altera_avalon_epcs_flash_controller.c:322-339 | a block that holds its bytes already is untouched, any other erased and programmed |
| `Flash.Controller.WriteRegion` | UA3REO_v2/UA3REO/FPGA/software/ua3reo_nios_bsp/drivers/src/altera_avalon_epcs_flash_controller.c:310-352 | the blocks of one region bring the write to the end of the region or finish it |
| `Flash.Controller.Write` | UA3REO_v2/UA3REO/FPGA/software/ua3reo_nios_bsp/drivers/src/altera_avalon_epcs_flash_controller.c:292-358 | for any offset and data, the memory afterwards is the memory of the specification, and the result is zero even for bytes that lie outside the device |
| `Flash.WriteStores` | UA3REO_v2/UA3REO/FPGA/software/ua3reo_nios_bsp/drivers/src/altera_avalon_epcs_flash_controller.c:292-358 | every byte that falls inside the device is stored at its place |
| `Flash.WriteKeeps` | UA3REO_v2/UA3REO/FPGA/software/ua3reo_nios_bsp/drivers/src/altera_avalon_epcs_flash_controller.c:316-338 | a sector outside the range, or whose share of the bytes was there, is unchanged; in any other the bytes around the share read 0xFF |
| `Flash.WriteAgain` | UA3REO_v2/UA3REO/FPGA/software/ua3reo_nios_bsp/drivers/src/altera_avalon_epcs_flash_controller.c:316-338 | writing the same bytes again changes nothing |
| `Flash.WriteOutside` | UA3REO_v2/UA3REO/FPGA/software/ua3reo_nios_bsp/drivers/src/altera_avalon_epcs_flash_controller.c:303-308 | a start outside the device leaves it as it was |
| `Alarm.FiresWhenDue` | UA3REO_v2/UA3REO/FPGA/software/ua3reo_nios_bsp/HAL/src/alt_tick.c:109-115 | on 32-bit time with the roll-over flag, the test at a tick is true exactly when the true deadline has come, and otherwise the deadline stands |
| `Alarm.StartDue` | UA3REO_v2/UA3REO/FPGA/software/ua3reo_nios_bsp/HAL/src/alt_alarm_start.c:80-96 | the first deadline of an alarm started at true tick t with n is t + n + 1, if and only if n < 2^32 - 1 or t is the last tick before a roll-over; else it fires at the next tick |
| `Alarm.RearmDue` | UA3REO_v2/UA3REO/FPGA/software/ua3reo_nios_bsp/HAL/src/alt_tick.c:127-138 | re-arming on time is exact for every non-zero interval |
| `Alarm.TickKeepsTime` | UA3REO_v2/UA3REO/FPGA/software/ua3reo_nios_bsp/HAL/src/alt_tick.c:94-139 | one tick in 32-bit arithmetic leaves an armed timer armed with the calls asked for so far, or finished |
| `Alarm.Timer.CalledExactly` | UA3REO_v2/UA3REO/FPGA/software/ua3reo_nios_bsp/HAL/src/alt_tick.c:115-139 | the calls made up to now are exactly those asked for, in order: none early, late, twice or missing |
| `Alarm.RunsExactly` | UA3REO_v2/UA3REO/FPGA/software/ua3reo_nios_bsp/HAL/src/alt_tick.c:87-141 | for every run of ticks after a start, across any number of roll-overs, the callback has run exactly at the start deadline and then at exactly each interval it returned; the start needs the condition of `Alarm.StartDue` and nothing else |
| `Alarm.LargestDelayIsEarly` | UA3REO_v2/UA3REO/FPGA/software/ua3reo_nios_bsp/HAL/src/alt_tick.c:109-117 | started with the largest delay at any other tick, an alarm calls at the very next tick, 2^32 - 1 too early |
| `Alarm.Alarm.CallsExactly` | UA3REO_v2/UA3REO/FPGA/software/ua3reo_nios_bsp/HAL/src/alt_tick.c:87-141 | the calls recorded in an alarm object are exactly those asked for since its start |
| `Alarm.Alarm.CallsFollow` | UA3REO_v2/UA3REO/FPGA/software/ua3reo_nios_bsp/HAL/src/alt_tick.c:115-139 | the first call of an alarm object is at start + delay + 1, and each later one after the interval that the one before returned |
| `Alarm.Alarm.OnTick` | UA3REO_v2/UA3REO/FPGA/software/ua3reo_nios_bsp/HAL/src/alt_tick.c:100-139 | the code on one alarm does the tick of the specification and extends the ghost history by it; the alarm is kept unless the callback returned zero |
| `Alarm.Scheduler.Tick` | UA3REO_v2/UA3REO/FPGA/software/ua3reo_nios_bsp/HAL/src/alt_tick.c:87-141 | walking the pointers, every alarm of the list has its tick exactly once although alarms are unlinked during the walk; exactly those that end leave the list, each for a ring of its own, and the others keep their order |
| `Alarm.StayingOrder` | UA3REO_v2/UA3REO/FPGA/software/ua3reo_nios_bsp/HAL/src/alt_tick.c:87-141 | two alarms that stay are in the order they were in |
| `Alarm.Scheduler.InTime` | UA3REO_v2/UA3REO/FPGA/software/ua3reo_nios_bsp/HAL/src/alt_tick.c:87-141 | for every alarm in the list of any scheduler, whatever was started, stopped and ticked before: its calls up to now are exactly those asked for since its start |
| `Alarm.Scheduler.Start` | UA3REO_v2/UA3REO/FPGA/software/ua3reo_nios_bsp/HAL/src/alt_alarm_start.c:64-112 | no clock and no alarm are errors that change nothing; otherwise the alarm is linked in first, with the deadline of the specification and a new history; an alarm that was in the list already closes a circle of links without the head |
| `Alarm.Scheduler.Stop` | UA3REO_v2/UA3REO/FPGA/software/ua3reo_nios_bsp/HAL/src/alt_tick.c:66-73 | the alarm is unlinked and no longer in the list; the others stand in their order, and nothing changes when it had been unlinked before |
| `LinkedList.Insert` | UA3REO_v2/UA3REO/FPGA/software/ua3reo_nios_bsp/HAL/inc/sys/alt_llist.h:90-98 | on the pointers: a new entry comes first and the ring is joined both ways; an entry that was in the list already closes a circle without the head |
| `LinkedList.CircleHolds` | UA3REO_v2/UA3REO/FPGA/software/ua3reo_nios_bsp/HAL/inc/sys/alt_llist.h:90-98 | a walk along `next` that enters such a circle never leaves it, so it never meets the head again |
| `LinkedList.Remove` | UA3REO_v2/UA3REO/FPGA/software/ua3reo_nios_bsp/HAL/inc/sys/alt_llist.h:105-117 | the ring is joined without the entry, which is left in a ring of its own; removing it again changes nothing |

## Left out

- Loading, storing and printing of samples, argument parsing and the MEX wrappers: input and output.
- The UA3REO_v1 copies of the CIC and NCO models: the same code once more.
- CicImpulse.FJSquared: the square root at the end of F_j is taken with the logarithm it goes into, as half of it, in `CicImpulse.HogenauerCalc`.
- CicChannel.SingleChannel.Decimate: needs at least N samples, because the delay underflows the vector size for fewer; and, pruned, an output width the command line admits, from B_max + 1 down by at most 63.
- CicPruning.PrunedExactly: the bits dropped after the first truncation add up to at most 64, as they do when the widths of the program ascend (`CicPruning.PrunedTotal`).
- CicChannel.SingleChannel.ExecuteCic: needs shift counts from 0 to 63 and an output width from 1 to 64, outside of which the shifts are undefined in C++.
- CicInterleave.SingleInterface.AppendData: the channels of an interface are held by value as sequences of samples; a channel object is made of one for the time of its run.
- CicInterleave.SingleRate.SeparateInterfaces: needs at least one channel for every new interface, as the program divides by that count when it reads.
- The shift register that generates the dither sequence: any sequence is allowed.
- Nco.SerialCordic.Calculate: `long long` is taken as unbounded; `Cordic.CoordinatesFit` shows the coordinates stay far inside 64 bits.
- The small- and large-ROM sine architectures, the multiplier-based one, and their sine tables: floating-point tables around the same accumulator.
- PhaseLine.Line.Step: with the single conditional subtraction each increment must be below 2^apr, the range the accumulator is built for.
- The UART driver's CTS/DCTS flow control, `ioctl`, the small polled driver, event flags and semaphores: not configured, or empty in this system. There is one foreground thread.
- UartDriver.Driver.Write: `errno` is not modelled; giving up early shows in the count returned.
- Spi.Port.Command: a transaction of length zero is excluded, as its loop never ends; slave selection and the toggle flag are not modelled.
- Status register writes, protection bits and the identification commands of the chip: `Flash.Query` takes the signature and id as given.
- Flash.Controller.WriteBlock: a run must leave the address of the page after it an int, as the code computes it in one.
- Alarm.Scheduler.Start: after a second start of a listed alarm the list is no longer one, and no further operation on it is specified.
- Alarm.Scheduler.Stop: an alarm that was never started has null pointers, which the code would follow; such a call is excluded.
- File descriptor tables, caches, exceptions, boot code and the other HAL stubs: thin or bound to hardware.
