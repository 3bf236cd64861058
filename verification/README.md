# Verification of the RTL-SDR drivers and signal chain

A Dafny model of the parts of this repository that carry state, loops or delicate arithmetic, with
proofs of what they promise. `dafny verify dfyconfig.toml` checks everything.

| part | modules | in one sentence |
|---|---|---|
| spectrum analyser FFT (`rtl_power.c`) | `CArith`, `ComplexNumbers`, `Dft`, `BitReversal`, `Pairs`, `ButterflyNetwork`, `FftNetwork`, `FixFft`, `ExactFft`, `Reals`, `Modulus`, `FixedPoint` | the in-place loop nest is one program over an abstract sample arithmetic; read exactly it is the DFT divided by n, and in its own 16-bit arithmetic it stays within 4m units of it |
| in-place decimators (`rtl_power.c`) | `Decimators`, `Filters` | each filter that overwrites its input equals the filter on a copy |
| option scanner (`getopt/getopt.c`) | `Options`, `GetoptSpec`, `GetoptTheorems`, `Getopt` | the permuting scanner is a state machine whose whole runs are a stable partition; its REQUIRE_ORDER mode is guidelines 9 and 10 of section 12.2 of IEEE Std 1003.1 |
| ADS-B decoder (`rtl_adsb.c`) | `AdsbSpec`, `AdsbErrors`, `Adsb`, `AdsbRoundTrip` | decoding while compacting into the same buffer, and the round trip from message to displayed frame; the signal is the Mode S reply of section 3.1.2.2.5 of ICAO Annex 10 Volume IV |
| PLL and rate synthesis | `R82xxPll`, `Fc0012`, `E4k`, `SampleRate` | register words decode to the request within stated bounds, with the exact conditions under which they do not |
| streaming resamplers and integer angle (`rtl_fm.c`) | `Resampler`, `FastAtan` | conservation over any sequence of buffers, and the order properties of `fast_atan2`, with the exact inputs on which its 32-bit product keeps them |
| buffer queue and FFT frames (`rtl_tcp.c`) | `SampleQueueSpec`, `SampleQueue`, `SpectrumFrames` | safety over every interleaving of the two threads, refined by the linked-list code |
| register shadow (`tuner_r82xx.c`) | `Bytes`, `Sequences`, `R82xxRegisters` | the shadow equals the chip over all successful runs, and after a failure exactly when nothing new was written |
| EEPROM configuration (`rtl_eeprom.c`, `librtlsdr.c`) | `EepromImage`, `EepromDevice` | generate, write, read back and parse give the configuration back |

C's operators are defined where they differ from Dafny's: `/` truncates toward zero (`CArith.TDiv`),
`>>` rounds down (`CArith.Shr`), a store to `int16_t` reduces modulo 2^16 (`CArith.ToInt16`), and
unsigned wrap-around is written out with `%`.

## What turned out to be false

For each, the lemmas named give an input and the exact condition.

- `fix_fft` is wrong for a wave of two entries: the 3/4 table then has one entry, the sine of 0, and
  serves as cosine (`FftNetwork.TwoPointFails`, `FftNetwork.NetworkIsDftIff`).
- `FIX_MPY(-32768, -32768)` wraps to -32768 (`FixedPoint.FixMpyIff`).
- After a PERMUTE run, REQUIRE_ORDER does not repeat it when the last option lacks its argument and
  operands had been skipped: it then takes the first operand (`GetoptTheorems.PermutedArgvDiffers`,
  `GetoptTheorems.PermutedArgvInOrder`).
- The `+` or `-` that selects a mode is dropped from the option string on the first call only: later
  it counts as an option letter, and hides a colon behind it (`GetoptTheorems.PlusReadAsOption`,
  `GetoptTheorems.LaterCallsIff`).
- `manchester` with `allowed_errors` 0 does not terminate on every buffer: it stays at a pair whose
  second sample is 255, unless the quality is 0 or 5 (`AdsbSpec.MarkedBufferStalls`,
  `AdsbSpec.StallsForeverIff`). No magnitude is 255, so it terminates on all the program gives it
  (`AdsbSpec.MagnitudeIsNoMark`, `Adsb.Demodulate`).
- `r82xx_set_pll` can divide by zero for a crystal from 32.7675 MHz on, not only from 32.768 MHz
  (`R82xxPll.SafeCrystals`).
- After a failed I2C transfer the shadow of `r82xx_write` claims values the chip does not hold
  unless they were there before (`R82xxRegisters.RefusedByte`, `R82xxRegisters.SyncedAlwaysIff`).
- With a buffer limit of -2 the callback of `rtl_tcp` frees the only queued node and then links the
  new one to it (`SampleQueueSpec.CallbackSafeIff`).
- `rtlsdr_set_sample_rate` tests the rate against the nominal crystal only; with a crystal trimmed
  within the range `rtlsdr_set_xtal_freq` allows, some accepted rates are garbled and one divides by
  zero (`SampleRate.TrimmedCrystalFails`, `SampleRate.ReportedRateIff`, `SampleRate.ZeroDivisorIff`).
- An empty product or serial string at offset 77 loses its type byte to the byte 78 that is cleared
  last; its text still reads back (`EepromImage.TypeByteLost`, `EepromImage.RoundTrip`).
- `fc0012_set_params` accepts dividers its registers cannot hold, frequency 0 among them
  (`Fc0012.ZeroFrequencyAccepted`, `Fc0012.LargeDividerAccepted`, `Fc0012.ValidIff`), and rounds
  divider and fraction by different tests, which disagree for some clocks that are not multiples of
  4 kHz (`Fc0012.RoundingsDisagree`, `Fc0012.AccurateIff`).
- The comment in `e4k_compute_pll_params` that x can reach 65536 is wrong, it cannot
  (`E4k.PartFits`); z can exceed 255 with an oscillator below 18.75 MHz (`E4k.SlowOscillatorFails`,
  `E4k.CloseIff`).
- Swapping the samples of `polar_disc_fast` does not negate the result for opposite vectors
  (`FastAtan.OppositeDoNotReverse`, `FastAtan.SwapReverses`).
- `fast_atan2` multiplies by 2^12 in 32 bits, which wraps for strong signals: a steady carrier of
  amplitude 725, in reach from a downsampling by six on, reads as almost a right angle
  (`FastAtan.StrongCarrierTurns`, `FastAtan.SteadyIff`), and angles get out of order
  (`FastAtan.OrderLost`, `FastAtan.OrderPreserving32Iff`, `FastAtan.Atan32Iff`).
- The 32-bit sum of `generic_fir` can overflow (`Filters.SumPasses32Bits`); in two's complement the
  16 bits stored never show it (`Filters.KeptBitsSurvive`).

## Model

| member | source | states |
|---|---|---|
| ButterflyNetwork.TwiddleInTable | rtl-sdr/src/rtl_power.c:291-294 | every Sinewave index a stage uses, quarter-wave offset included, is inside the 3/4-wave table |
| FftNetwork.StageJoins | rtl-sdr/src/rtl_power.c:288-313 | one stage turns transforms of blocks of l points into transforms of blocks of 2l points, halving |
| FftNetwork.NetworkIsDft | rtl-sdr/src/rtl_power.c:259-315 | with exact products and halvings the network the program computes is the DFT divided by n, in natural order, for every m up to log2 N_WAVE |
| FftNetwork.FourPointWave | rtl-sdr/src/rtl_power.c:235-249 | the hypotheses on root and table are met: a quarter turn and the table 0, 1, 0 for waves of four points |
| FftNetwork.SquareRootServes | rtl-sdr/src/rtl_power.c:235-249 | and for twice as many points by any square root of the root before |
| FftNetwork.TwoPointFails | rtl-sdr/src/rtl_power.c:235-315 | a wave of two entries breaks it: an impulse does not give its transform |
| FftNetwork.NetworkIsDftIff | rtl-sdr/src/rtl_power.c:259-315 | the network is the DFT on all inputs exactly when the wave does not have two entries or the transform is trivial |
| FixFft.NextReversed | rtl-sdr/src/rtl_power.c:271-275 | the inner do-while stops with l >= 1 and mr goes from the m-bit reversal of v to that of v+1 |
| FixFft.ReversedStep | rtl-sdr/src/rtl_power.c:276-284 | exchanging only when mr > m treats each mirror pair exactly once |
| FixFft.Reorder | rtl-sdr/src/rtl_power.c:267-285 | the reorder loop applies the bit-reversal permutation to whole complex points and touches nothing past 2n |
| FixFft.DoneStep | rtl-sdr/src/rtl_power.c:291-309 | within a stage every point is rewritten exactly once, after both inputs of its butterfly were read |
| FixFft.StageInPlace | rtl-sdr/src/rtl_power.c:289-312 | one stage in place equals the stage computed out of place, in any sample arithmetic |
| FixFft.FixFft | rtl-sdr/src/rtl_power.c:259-315 | -1 and nothing changed for a transform longer than the wave; otherwise the first n points become the network's outputs and the rest is untouched |
| ExactFft.ExactFixFft | rtl-sdr/src/rtl_power.c:259-315 | the in-place loops under exact arithmetic leave the DFT divided by n in natural order |
| FixedPoint.FixMpyIff | rtl-sdr/src/rtl_power.c:251-257 | FIX_MPY is within half a unit of a*b/2^15 for 16-bit a and b exactly unless both are -32768 |
| CArith.ShrMeaning | rtl-sdr/src/rtl_power.c:251-257 | a right shift by k is the quotient by 2^k rounded down, also for negative numbers |
| CArith.LowBits | rtl-sdr/src/rtl_power.c:251-257 | a narrowing conversion keeps the low 16 or 32 bits |
| CArith.TDivMeaning | rtl-sdr/src/rtl_fm.c:359-363 | a quotient is rounded toward zero for either sign of divisor and dividend |
| FixedPoint.HalfRoundsDown | rtl-sdr/src/rtl_power.c:295-304 | the halving shift rounds down: 2h <= x <= 2h+1 |
| FixedPoint.StoredOperations | rtl-sdr/src/rtl_power.c:251-309 | stored sums, differences and negations keep the low 16 bits; FIX_MPY rounds to nearest, ties up, and -32768 times itself gives -32768 |
| FixedPoint.FactorRounding | rtl-sdr/src/rtl_power.c:292-296 | the factor's parts are the table's cosine and, negated before the shift, its sine, each halved and rounded down |
| FixedPoint.TurnedRounding | rtl-sdr/src/rtl_power.c:297-300 | the two products of each component are rounded one by one before they meet |
| FixedPoint.FactorOfTable | rtl-sdr/src/rtl_power.c:235-249 | the halved table entries are within 1.25/32768 of half the exact sine and cosine, and negating them does not wrap |
| FixedPoint.ButterflyError | rtl-sdr/src/rtl_power.c:292-308 | one 16-bit butterfly adds at most 4 units to the distance from the exact value, does not raise the modulus bound, and wraps nowhere |
| FixedPoint.FixedPointAccuracy | rtl-sdr/src/rtl_power.c:251-315 | for input points of modulus at most b with b + 4m <= 32767, every 16-bit output is within 4m units of the exact DFT divided by n |
| FixedPoint.Int16FixFft | rtl-sdr/src/rtl_power.c:235-315 | the in-place program in its own 16-bit arithmetic has that accuracy |
| Decimators.FifthOrder | rtl-sdr/src/rtl_power.c:638-663 | in place, output j is the fifth-order sum of the original samples; outputs 3 and 4 read sample 5 twice; the other half and the rest of this one are untouched |
| Decimators.EasedIn | rtl-sdr/src/rtl_power.c:645-662 | the weights, in sixteenths, with which the samples enter outputs 0 to 4 |
| Decimators.FifthIsPairSums | rtl-sdr/src/rtl_power.c:653-662 | from output 5 on the filter is five rounds of neighbour sums ending at sample 2j, shifted by 4 |
| Decimators.FifthBound | rtl-sdr/src/rtl_power.c:649-662 | every output, eased in or not, is at most twice the input bound |
| Decimators.DownsampleIq | rtl-sdr/src/rtl_power.c:712-718 | both components of n points become their own n/2 outputs although they share the array |
| Decimators.DownsamplePasses | rtl-sdr/src/rtl_power.c:760-763 | p passes in place equal p passes out of place on each component |
| Decimators.PassesBound | rtl-sdr/src/rtl_power.c:638-663 | p passes multiply the bound by at most 2^p, and while that fits 16 bits the result is the one of unbounded arithmetic |
| Decimators.PassesOfConstant | rtl-sdr/src/rtl_power.c:638-663 | in the 16 bits of the program a constant comes out as 2^p times itself, cut to 16 bits whatever its size |
| Decimators.ExactPassesOfConstant | rtl-sdr/src/rtl_power.c:638-663 | and as exactly 2^p times itself in unbounded arithmetic |
| Filters.GenericFir | rtl-sdr/src/rtl_power.c:682-710 | in place, sample k >= 9 becomes the symmetric 9-tap sum of the nine original samples before it, shifted by 15 and cut to 16 bits; the first nine and the other component are unchanged |
| Filters.TapsAreConvolution | rtl-sdr/src/rtl_power.c:694-699 | the sum is the convolution of the nine samples before with a response symmetric about the fifth |
| Filters.FirOutMeaning | rtl-sdr/src/rtl_power.c:687-700 | the output is that convolution divided by 2^15 and rounded down when it fits 16 bits; the first nine samples pass |
| Filters.KeptBitsSurvive | rtl-sdr/src/rtl_power.c:694-700 | a 32-bit sum that wraps leaves the stored 16 bits what they are without wrapping |
| Filters.SumPasses32Bits | rtl-sdr/src/rtl_power.c:211-211 | one loud sample makes the sum of the second table pass 32 bits |
| Filters.Boxcar | rtl-sdr/src/rtl_power.c:749-759 | in place, each component's point t becomes the wrapped sum of its block of ds original points and the points past the blocks become 0 |
| Filters.BoxcarOutputs | rtl-sdr/src/rtl_power.c:749-759 | each block, also a last one that is not whole, gives the 16-bit sum of exactly its points, and all past it is 0 |
| Getopt.Scanner.Exchange | rtl-sdr/src/getopt/getopt.c:302-380 | exchanges the adjacent blocks [first,last) and [last,optind) in place, nothing else, terminating, and the moved bounds delimit the first block |
| Getopt.Scanner.Internal | rtl-sdr/src/getopt/getopt.c:509-621 | a call changes argv and the static state exactly as one step of the state machine, for all three orderings |
| Getopt.Scanner.ShortOption | rtl-sdr/src/getopt/getopt.c:778-971 | one option letter: unknown, without, with required or with optional argument, as the state machine says |
| Getopt.Scanner.Next | rtl-sdr/src/getopt/getopt.c:976-985 | getopt with its first-call initialisation |
| Getopt.Scanner.ReadAll | rtl-sdr/src/getopt/getopt.c:387-985 | calling until -1 terminates from any state and makes the calls of the state machine, the first with the mode letter dropped; on a first call, in all three modes, events, argv and optind are those of the reading of the vector as long as the mode letter does nothing else |
| GetoptTheorems.WholeRun | rtl-sdr/src/getopt/getopt.c:387-985 | that holds whenever no element contains the mode letter and no colon follows it in the option string |
| GetoptTheorems.LaterCallsIff | rtl-sdr/src/getopt/getopt.c:405-414 | the mode letter is dropped on the first call only: the runs on all vectors are those with it dropped on every call exactly when the rest declares that letter as its place at the front does and a leading colon of the rest has no required argument to report |
| GetoptTheorems.PlusReadAsOption | rtl-sdr/src/getopt/getopt.c:405-414 | such a run: with +a, -a -+ is read as the options a and + |
| GetoptSpec.DeclaredKind | rtl-sdr/src/getopt/getopt.c:778-930 | a letter declared in the option string takes an argument if a colon follows its first occurrence, and an optional one if two do |
| GetoptSpec.UndeclaredIff | rtl-sdr/src/getopt/getopt.c:778-800 | unknown are exactly the letters that do not occur, and the colon |
| GetoptSpec.OptionSyntax | rtl-sdr/src/getopt/getopt.c:540-545 | an option element is a dash and at least one more character |
| GetoptSpec.ModeSelected | rtl-sdr/src/getopt/getopt.c:394-420 | a leading '-' selects RETURN_IN_ORDER, '+' REQUIRE_ORDER, else POSIXLY_CORRECT decides between REQUIRE_ORDER and PERMUTE |
| GetoptSpec.ClampCutsBack | rtl-sdr/src/getopt/getopt.c:551-556 | an optind moved back by the caller cuts the skipped range there |
| GetoptTheorems.FlagsRead | rtl-sdr/src/getopt/getopt.c:778-971 | letters without argument are reported one by one, whatever follows in the element |
| GetoptTheorems.RequiredRead | rtl-sdr/src/getopt/getopt.c:925-971 | a letter with one colon takes the rest of its element, else the next element, else is missing and left in optopt, reported as ':' if the option string begins with one and as '?' otherwise |
| GetoptTheorems.OptionalRead | rtl-sdr/src/getopt/getopt.c:925-940 | a letter with two colons takes the rest of its element or nothing, never the next element |
| GetoptTheorems.UnknownRead | rtl-sdr/src/getopt/getopt.c:786-800 | an unknown letter gives '?', is left in optopt, and the scan goes on behind it |
| GetoptTheorems.ReadIsStablePartition | rtl-sdr/src/getopt/getopt.c:558-592 | options with their arguments and the first unconsumed -- keep their order, and so do the operands; together they are the original elements |
| GetoptTheorems.ClusterRun | rtl-sdr/src/getopt/getopt.c:776-971 | a whole element of clustered letters is consumed left to right, taking the rest or the next element as argument |
| GetoptTheorems.UnscannedUntouched | rtl-sdr/src/getopt/getopt.c:558-615 | at any point of a run, in any mode, argv from optind on is still the original |
| GetoptTheorems.PermuteRun | rtl-sdr/src/getopt/getopt.c:547-621 | a PERMUTE run reports the events of one left-to-right reading, leaves argv as that stable partition, and ends with optind at the first operand |
| GetoptTheorems.RequireOrderRunFrom | rtl-sdr/src/getopt/getopt.c:547-621 | a REQUIRE_ORDER run reads options up to the first operand or -- and leaves argv alone |
| GetoptTheorems.PermutedArgvInOrder | rtl-sdr/src/getopt/getopt.c:558-615 | REQUIRE_ORDER on the permuted argv reports the same events and optind exactly unless a last option lacked its argument while operands had been skipped |
| GetoptTheorems.PermutedArgvDiffers | rtl-sdr/src/getopt/getopt.c:558-615 | such a vector: p x -a with option string a: ends as p -a x, which REQUIRE_ORDER reads differently |
| GetoptTheorems.ReturnInOrderRun | rtl-sdr/src/getopt/getopt.c:606-615 | a RETURN_IN_ORDER run reports every operand where it stands, as argument of code 1 |
| Adsb.Preamble | rtl-sdr/src/rtl_adsb.c:228-252 | the running high/low scan decides whether each pulse sample exceeds the lows around it |
| AdsbSpec.PulsesIff | rtl-sdr/src/rtl_adsb.c:228-252 | a preamble is where at each of the sixteen positions the last pulse is above the last quiet sample, pulses being at 0, 2, 7 and 9 |
| AdsbErrors.FallingIsOne | rtl-sdr/src/rtl_adsb.c:177-216 | a pair that is not rejected is 1 if it falls and else 0; at quality 0 none is rejected |
| AdsbErrors.RejectedAt5 | rtl-sdr/src/rtl_adsb.c:187-193 | at quality 5 a pair is rejected exactly if it repeats the direction of the one before wholly beyond where that ended |
| AdsbErrors.RejectedAt10 | rtl-sdr/src/rtl_adsb.c:195-205 | at quality 10 exactly if it does not get past where the one before ended |
| AdsbErrors.RejectedElsewhere | rtl-sdr/src/rtl_adsb.c:207-215 | at the other qualities exactly if the ranges of the two pairs do not overlap |
| AdsbErrors.RunMeaning | rtl-sdr/src/rtl_adsb.c:264-298 | pair by pair: every pair gives the bit it shows, as a guess when it is an error; after an error the comparison is reset to 0 and 65535; exactly allowed_errors errors are tolerated, and the run breaks at the next or goes on to the end |
| AdsbSpec.MagnitudeIsDistance | rtl-sdr/src/rtl_adsb.c:146-176 | a magnitude is the sum of the squares of the two bytes less 128 |
| AdsbSpec.MagnitudeIsNoMark | rtl-sdr/src/rtl_adsb.c:146-176 | no magnitude is 255, the value of the error mark: it is a sum of two squares |
| Adsb.Magnitute | rtl-sdr/src/rtl_adsb.c:166-176 | each byte pair is replaced in place by its magnitude |
| Adsb.Manchester | rtl-sdr/src/rtl_adsb.c:254-299 | for any tolerance it terminates on every buffer of magnitudes, and on any buffer if allowed_errors >= 1 or quality is 0 or 5, and leaves what a decoder on an immutable copy gives: writes never disturb a sample before it is read |
| Adsb.ReadFrame | rtl-sdr/src/rtl_adsb.c:309-327 | collects the bits of one run up to the announced length into the frame bytes |
| AdsbSpec.StallsForeverIff | rtl-sdr/src/rtl_adsb.c:264-298 | a round that leaves the outer loop where it was is repeated for ever exactly when the second sample it is at is 255 and quality is neither 0 nor 5 |
| AdsbSpec.MarkedBufferStalls | rtl-sdr/src/rtl_adsb.c:264-298 | two samples 255, 255 with allowed_errors 0 do so from the start |
| Adsb.Display | rtl-sdr/src/rtl_adsb.c:123-145 | a frame is printed exactly if it is long or short_output is set, and at quality 0 only in formats 11 and 17 to 19 |
| Adsb.Messages | rtl-sdr/src/rtl_adsb.c:301-333 | the frames printed are those of the run decoder that display shows, in order, for any buffer |
| Adsb.Demodulate | rtl-sdr/src/rtl_adsb.c:344-351 | magnitute, manchester and messages in turn print the shown frames of the decoded magnitudes, for any bytes and options |
| AdsbRoundTrip.FirstRoundLaidOut | rtl-sdr/src/rtl_adsb.c:265-298 | after a round: sixteen marks 253 for the preamble, the bits, then 255 or 254 as the run broke or not, and 254 up to where it stopped |
| AdsbRoundTrip.BitIs | rtl-sdr/src/rtl_adsb.c:314-317 | the bits of a byte are sent most significant first |
| AdsbRoundTrip.PassedOver | rtl-sdr/src/rtl_adsb.c:308-330 | fewer than eight bits, or eight zeros, give no frame, and reading goes on behind them |
| AdsbRoundTrip.HandedOver | rtl-sdr/src/rtl_adsb.c:308-331 | a longer run gives a frame of 112 bits if its first byte is at least 128 and else of 56, exactly if at most the last bit is missing |
| AdsbRoundTrip.ReplyLength | rtl-sdr/src/rtl_adsb.c:318-326 | a reply has 14 bytes if its first is at least 128 and else 7 |
| AdsbRoundTrip.FormatIs | rtl-sdr/src/rtl_adsb.c:129 | the downlink format is the first byte divided by 8 |
| AdsbRoundTrip.PreambleDetected | rtl-sdr/src/rtl_adsb.c:228-252 | a modulated preamble is recognised |
| AdsbRoundTrip.BitRead | rtl-sdr/src/rtl_adsb.c:177-216 | each pulse-position pair after the preamble decodes to its bit at every quality |
| AdsbRoundTrip.PackBitsOf | rtl-sdr/src/rtl_adsb.c:314-317 | packing the bits of a message gives its bytes back |
| AdsbRoundTrip.MessageDecoded | rtl-sdr/src/rtl_adsb.c:254-333 | a buffer of preamble and pulse positions yields one run holding the message |
| AdsbRoundTrip.RoundTrip | rtl-sdr/src/rtl_adsb.c:123-333 | after any samples without a preamble, a 56- or 112-bit message with non-zero first byte is printed next after the frames those samples give by themselves, and is the last one when the buffer ends with it, exactly if short_output is set or it has 112 bits, and quality is not 0 or its format is 11 or 17 to 19; otherwise it is not printed |
| AdsbRoundTrip.FramesHanded | rtl-sdr/src/rtl_adsb.c:301-333 | the frames handed to display are those of the samples before the message, the message, and those after it |
| AdsbRoundTrip.FramesAreBits | rtl-sdr/src/rtl_adsb.c:301-333 | whatever the buffer, a frame handed to display packs consecutive decoded bits, at most one short, and its first byte announces its length |
| AdsbRoundTrip.DisplayedIsDecoded | rtl-sdr/src/rtl_adsb.c:123-333 | so does every frame printed, which the options want |
| R82xxPll.ExactlyOneDivider | rtl-sdr/src/tuner_r82xx.c:456-467 | a divider fits exactly for the tunable frequencies, and then only one |
| R82xxPll.FindMixDivider | rtl-sdr/src/tuner_r82xx.c:455-467 | the search finds it and its number of halvings, or ends at 128 |
| R82xxPll.SdmStopsIff | rtl-sdr/src/tuner_r82xx.c:513-522 | the expansion ends before n_sdm wraps to 0 for every remainder exactly when twice the reference is below 65.536 MHz |
| R82xxPll.SdmTake | rtl-sdr/src/tuner_r82xx.c:515-517 | a bit the loop sets is clear before, so no bit is added twice, and the term taken accounts for it to less than 1 kHz |
| R82xxPll.Sdm | rtl-sdr/src/tuner_r82xx.c:513-522 | below 65.536 MHz of doubled reference the expansion terminates within 16 bits, takes each term exactly when more than it and more than 1 kHz is left, and encodes the remainder to within 15 kHz above and 2 kHz below |
| R82xxPll.NoWrap | rtl-sdr/src/tuner_r82xx.c:487-489 | in the tunable band no 8-, 32- or 64-bit intermediate wraps |
| R82xxPll.SplitDivider | rtl-sdr/src/tuner_r82xx.c:496-499 | nint == 13 + 4*ni + si with si in 0..3 |
| R82xxPll.SetPll | rtl-sdr/src/tuner_r82xx.c:417-530 | the words encode the wanted VCO frequency to less than 4 kHz below and at most 16 kHz above it, the fraction being the greedy expansion of the remainder; the divider field means the divider, or twice or half of it as the fine tuning is above or below the power reference, wrapping to 255 for divider 2; it fails exactly when the VCO reaches 128 (R828D) or 64 doubled crystals |
| R82xxPll.KhzIsNearest | rtl-sdr/src/tuner_r82xx.c:437 | the tuned frequency is rounded to the nearest kilohertz, halves up |
| R82xxPll.SafeCrystals | rtl-sdr/src/tuner_r82xx.c:514-522 | below 32.768 MHz no tunable frequency makes the loop divide by zero exactly when the crystal is below 32.7675 MHz |
| R82xxRegisters.ChunksJoin | rtl-sdr/src/tuner_r82xx.c:260-282 | the chunks of a write concatenate to its payload and each fits a message |
| R82xxRegisters.FewestChunks | rtl-sdr/src/tuner_r82xx.c:260-282 | as few messages as the payload needs: all full but the last |
| R82xxRegisters.Addresses | rtl-sdr/src/tuner_r82xx.c:263-282 | each message is addressed to the register after the last byte of those before |
| R82xxRegisters.Tuner.ShadowStore | rtl-sdr/src/tuner_r82xx.c:235-250 | the shadow takes the bytes from its register on, cut at its end |
| R82xxRegisters.Tuner.Write | rtl-sdr/src/tuner_r82xx.c:252-287 | shadow first, then messages at consecutive addresses; on a failed transfer exactly the earlier chunks have reached the chip and the error code is that transfer's, or -1 |
| R82xxRegisters.SyncedIff | rtl-sdr/src/tuner_r82xx.c:257-282 | after a write, failed or not, the shadow equals the chip exactly when the bytes that did not get through would have changed nothing |
| R82xxRegisters.SyncedAlwaysIff | rtl-sdr/src/tuner_r82xx.c:257-282 | no failure of a write can leave the shadow wrong exactly when every byte it stores in the shadow is there already |
| R82xxRegisters.RefusedByte | rtl-sdr/src/tuner_r82xx.c:257-282 | a refused one-byte write of a new value leaves it wrong |
| R82xxRegisters.Tuner.WriteRegMask | rtl-sdr/src/tuner_r82xx.c:304-315 | a masked write outside the shadow does nothing; inside it stores the selected bits over the shadowed ones, and in the chip exactly when the message gets through; otherwise the chip is unchanged and the error code returned |
| R82xxRegisters.Tuner.Init | rtl-sdr/src/tuner_r82xx.c:1229-1230 | the full initial write succeeds exactly when all its messages get through, and then makes shadow and chip agree whatever they held |
| R82xxRegisters.MaskSyncs | rtl-sdr/src/tuner_r82xx.c:304-315 | with shadow and chip in step a masked write changes only the masked bits of the chip's own register |
| R82xxRegisters.Tuner.PerformAll | rtl-sdr/src/tuner_r82xx.c:235-315 | a run of plain and masked writes succeeds exactly when all its messages get through, and then the shadow equals the chip, on which it has had the effect of each in turn |
| Resampler.FeedInPieces | rtl-sdr/src/rtl_fm.c:307-327 | a buffer may be cut in two anywhere: the outputs and the carry are the same |
| Resampler.AnyBuffers | rtl-sdr/src/rtl_fm.c:307-327 | any sequence of buffers gives the outputs and the carry of the whole stream |
| Resampler.OutputCount | rtl-sdr/src/rtl_fm.c:307-327 | after n inputs floor((p0 + n*slow)/fast) outputs are out and the index is the remainder |
| Resampler.OutputsAreBlocks | rtl-sdr/src/rtl_fm.c:307-327 | each output is the sum of exactly the inputs that arrive while it is pending |
| Resampler.NothingLost | rtl-sdr/src/rtl_fm.c:307-327 | outputs and carry together hold every input once |
| Resampler.RatioMeaning | rtl-sdr/src/rtl_fm.c:312-321 | the divisor is how often the output rate fits into the input rate |
| Resampler.ScaledMeaning | rtl-sdr/src/rtl_fm.c:321 | a stored sample is its sum divided by that, rounded toward zero |
| Resampler.ComponentsOf | rtl-sdr/src/rtl_fm.c:225-227 | of interleaved bytes the first of each pair is in phase and the second in quadrature, both counted from 127 |
| Resampler.FmState.LowPassReal | rtl-sdr/src/rtl_fm.c:307-327 | in place: the outputs replace the inputs, writes stay behind reads, the carried state is right |
| Resampler.FmState.LowPass | rtl-sdr/src/rtl_fm.c:221-241 | the same for both components of the complex low-pass |
| FastAtan.Bounded | rtl-sdr/src/rtl_fm.c:347-368 | over unbounded integers results stay within +-2^14, and are not negative above the axis |
| FastAtan.OddInY | rtl-sdr/src/rtl_fm.c:347-368 | over unbounded integers negating y negates the result exactly off the negative x axis |
| FastAtan.OrderPreserving | rtl-sdr/src/rtl_fm.c:347-368 | over unbounded integers, turning counter-clockwise in the upper half plane never decreases the result |
| FastAtan.ScaleInvariant | rtl-sdr/src/rtl_fm.c:347-368 | over unbounded integers only the direction of the vector matters |
| FastAtan.Compass | rtl-sdr/src/rtl_fm.c:347-368 | the eight main directions, at any length, read 0, 4096, 8192, 12288, 16384 and their negatives |
| FastAtan.ReadsTurn | rtl-sdr/src/rtl_fm.c:332-375 | for every z and every b but 0 the discriminator of z*b against b is the angle of z: the turn from the second sample to the first, counter-clockwise positive |
| FastAtan.Atan32Iff | rtl-sdr/src/rtl_fm.c:347-368 | while the sum of the magnitudes fits 32 bits, the program's result is the one over unbounded integers exactly when the product by 2^12 fits: -2^19 <= x - abs(y) < 2^19, or the same of x + abs(y) for x < 0 |
| FastAtan.Bounded32 | rtl-sdr/src/rtl_fm.c:347-368 | the range and the sign above the axis survive a wrapped product |
| FastAtan.OddInY32 | rtl-sdr/src/rtl_fm.c:347-368 | in 32 bits negating y negates the result exactly off the x axis or for 0 <= x < 2^19 |
| FastAtan.OrderPreserving32Iff | rtl-sdr/src/rtl_fm.c:347-368 | in 32 bits the order holds for all vectors with abs(x) + abs(y) up to a bound exactly when the bound is at most 2^19 |
| FastAtan.OrderLost | rtl-sdr/src/rtl_fm.c:347-368 | (y,x) = (2^19+1, 0) reads 1, below the 4096 of (1,1) |
| FastAtan.ScaleInvariant32Iff | rtl-sdr/src/rtl_fm.c:347-368 | in 32 bits scaling a vector whose product fits leaves the result exactly when the scaled one fits |
| FastAtan.PolarDisc32Iff | rtl-sdr/src/rtl_fm.c:332-375 | the discriminator in 32 bits is that over unbounded integers exactly when the product fits |
| FastAtan.AgainstOne32 | rtl-sdr/src/rtl_fm.c:332-375 | against the sample 1 it is the angle of the other, in 32 bits too |
| FastAtan.SteadyIff | rtl-sdr/src/rtl_fm.c:332-375 | polar_disc_fast in 32 bits reads equal samples as no turn exactly while their squared magnitude is below 2^19 |
| FastAtan.StrongCarrierTurns | rtl-sdr/src/rtl_fm.c:332-375 | two equal samples 725 read 8171, nearly a right angle; 724 reads 0 |
| FastAtan.SwapReverses32 | rtl-sdr/src/rtl_fm.c:332-375 | in 32 bits exchanging the samples negates the result exactly unless they are in line with a product negative or at least 2^19 |
| FastAtan.OppositeDoNotReverse | rtl-sdr/src/rtl_fm.c:370-375 | (1,0) and (-1,0) give +2^14 both ways |
| FastAtan.SwapReverses | rtl-sdr/src/rtl_fm.c:332-375 | exchanging the samples of polar_disc_fast negates the result over unbounded integers exactly unless they point in opposite directions |
| SampleQueueSpec.EveryRun | rtl-sdr/src/rtl_tcp.c:211-245 | in every interleaving the list is bounded, holds the newest arrivals, and each older one was dropped or handed over once and in order |
| SampleQueueSpec.QueueIsSafe | rtl-sdr/src/rtl_tcp.c:188-247 | for any limit but -2: every arrival in exactly one place, buffers finished in arrival order, nothing dropped under a limit that is 0 or below -2, and otherwise at most limit+3 queued and only an arrival older than the newest limit+3 dropped |
| SampleQueueSpec.CallbackSafeIff | rtl-sdr/src/rtl_tcp.c:213-233 | in no reachable state does the callback link to the node it has just freed, exactly when the limit is not -2 |
| SampleQueueSpec.UnlimitedGrows | rtl-sdr/src/rtl_tcp.c:224-231 | with limit 0 or below -2 nothing is ever dropped and the list grows with every arrival |
| SampleQueue.Receiver.Append | rtl-sdr/src/rtl_tcp.c:213-233 | the walk and link-up of the callback: append, dropping and freeing the head of a full list, on nodes never freed before |
| SampleQueue.Receiver.Callback | rtl-sdr/src/rtl_tcp.c:188-247 | unless it would link to a freed node, the callback is one arrival step of the two-thread system, whose state is the one its steps so far lead to |
| SampleQueue.Receiver.TakeOver | rtl-sdr/src/rtl_tcp.c:413-415 | taking the list over is one step of the system and leaves an empty list |
| SampleQueue.Receiver.FinishOne | rtl-sdr/src/rtl_tcp.c:425-663 | working through one buffer and freeing its node is one step, and the points assembled are always those of the finished buffers in order |
| SpectrumFrames.NewPicture | rtl-sdr/src/rtl_tcp.c:457-503 | a completed frame adds the picture of points [kN,(k+1)N), drawn with the transform remembered from the frame before |
| SpectrumFrames.PictureIsRotated | rtl-sdr/src/rtl_tcp.c:475-503 | a picture is the list of bin powers rotated by N/2 |
| SpectrumFrames.DrawnFrom | rtl-sdr/src/rtl_tcp.c:466-503 | with averaging each bin is drawn from the sum of the transforms of its frame and the one before, without from its own, at its place in the rotation |
| SpectrumFrames.PowerOfProduct | rtl-sdr/src/rtl_tcp.c:478-480 | the power drawn is z times its conjugate, and multiplicative |
| SpectrumFrames.FrameTiles | rtl-sdr/src/rtl_tcp.c:445-470 | point i of frame k is point k*N + i of the stream |
| SpectrumFrames.PointBytes | rtl-sdr/src/rtl_tcp.c:434-445 | the first byte of a pair is the real part and the second the imaginary one, both counted from 128 |
| SpectrumFrames.Assembler.Crunch | rtl-sdr/src/rtl_tcp.c:457-503 | transform, shifted powers and remembered transform are right although old_fft is rewritten while it is read |
| SpectrumFrames.Assembler.Process | rtl-sdr/src/rtl_tcp.c:434-657 | any buffer adds its points to the stream wherever the frame boundaries fall; an odd trailing byte is ignored |
| SampleRate.RecoveredIff | rtl-sdr/src/librtlsdr.c:1068-1071 | masking and bit-27 extension give the ratio but for its low two bits exactly when bits 27 and 28 agree |
| SampleRate.NominalAccepted | rtl-sdr/src/librtlsdr.c:1062-1068 | with the 28.8 MHz crystal a rate up to 3.2 MHz is accepted exactly when its ratio is below 2^27 or in [3*2^27, 2^29) |
| SampleRate.NominalFaithful | rtl-sdr/src/librtlsdr.c:1062-1083 | with the 28.8 MHz crystal the reported rate is the one asked for at every accepted rate |
| SampleRate.ZeroDivisorIff | rtl-sdr/src/librtlsdr.c:1068-1072 | over the trimming range the second division divides by zero exactly for a crystal of 128 times the rate |
| SampleRate.ReportedRateIff | rtl-sdr/src/librtlsdr.c:1062-1083 | over the trimming range the reported rate is the one asked for exactly when xtal < 32*rate or 96*rate <= xtal < 128*rate |
| SampleRate.RoundedQuotient | rtl-sdr/src/librtlsdr.c:1068-1072 | a quotient off by less than 1/d truncates like the exact one |
| SampleRate.DoubleTruncates | rtl-sdr/src/librtlsdr.c:1068-1072 | n/d rounded to the nearest double of 53 bits does so for every n below 2^53 |
| SampleRate.DriverDivisions | rtl-sdr/src/librtlsdr.c:1068-1072 | both double divisions of the driver truncate to the integer quotients the model uses |
| SampleRate.RatioHeld | rtl-sdr/src/librtlsdr.c:1068-1090 | the words hold the low 28 bits of the ratio but for the last two, and the rate reported is that of the words with bit 27 copied to bit 28 |
| SampleRate.TrimmedCrystalFails | rtl-sdr/src/librtlsdr.c:1062-1072 | a trimmed crystal for which an accepted rate is sampled at a third, and one that divides by zero |
| SampleRate.Dongle.SetSampleRate | rtl-sdr/src/librtlsdr.c:1051-1090 | -EINVAL leaves the device alone; otherwise the words and the reported rate are those of RatioHeld for every accepted rate, right for all faithful pairs, and the reported rate only for those |
| EepromImage.SetStringDescriptor | rtl-sdr/src/rtl_eeprom.c:109-130 | writes the descriptor and nothing else if it ends in time; otherwise -1 with exactly the characters before the limit written; a failed predecessor changes nothing |
| EepromImage.GenEepromFromConf | rtl-sdr/src/rtl_eeprom.c:152-175 | succeeds exactly when every non-empty string's descriptor ends by offset 79, and then the array is the image |
| EepromImage.GetStringDescriptor | rtl-sdr/src/rtl_eeprom.c:92-107 | reads every second byte below the length, as a C string, and returns the next offset |
| EepromImage.ParseEepromToConf | rtl-sdr/src/rtl_eeprom.c:132-150 | parses the settings and the three strings from the array |
| EepromImage.HeaderBytes | rtl-sdr/src/rtl_eeprom.c:152-165 | the nine header bytes: signature 0x28 0x32, identifiers low byte first, the serial flag 0xa5, the remote wake-up and infrared bits beside 0x14, and 2 |
| EepromImage.DescriptorBytes | rtl-sdr/src/rtl_eeprom.c:109-130 | a string is a USB string descriptor: length, type 3, and 16-bit characters low byte first |
| EepromImage.ImageBytes | rtl-sdr/src/rtl_eeprom.c:152-175 | the descriptors follow the header without gaps, byte 78 is 0 and all else is left alone |
| EepromImage.FitsIff | rtl-sdr/src/rtl_eeprom.c:109-175 | the strings fit exactly up to 34 characters for the manufacturer alone, 33 with a product, 32 with a serial number |
| EepromImage.RoundTrip | rtl-sdr/src/rtl_eeprom.c:132-175 | parsing a generated image gives the configuration back; a type byte is wrong exactly when an empty product or serial string sits at offset 77 |
| EepromImage.TypeByteLost | rtl-sdr/src/rtl_eeprom.c:152-175 | a manufacturer of 33 characters and no other string is such a configuration |
| EepromDevice.DifferingMeaning | rtl-sdr/src/librtlsdr.c:816-834 | the addresses written are exactly those whose byte changes, each once and in order |
| EepromDevice.Device.WriteEeprom | rtl-sdr/src/librtlsdr.c:801-837 | touches exactly the differing bytes; when a write fails, exactly the bytes before it have their new value |
| EepromDevice.Device.ReadEeprom | rtl-sdr/src/librtlsdr.c:839-862 | reads the range through the auto-incrementing address pointer |
| EepromDevice.Device.Configure | rtl-sdr/src/rtl_eeprom.c:335-415 | reading, generating and writing back 128 bytes leaves a device that parses as the new configuration with bytes 128 on unchanged; a configuration that does not fit leaves it alone |
| Fc0012.VcoDoesNotWrapIff | rtl-sdr/src/tuner_fc0012.c:202 | the 32-bit product is the VCO frequency exactly below 2^30 Hz |
| Fc0012.LargestDivider | rtl-sdr/src/tuner_fc0012.c:157-202 | the table picks the largest divider that keeps the VCO, in whole kilohertz, below 3.56 GHz |
| Fc0012.VcoRange | rtl-sdr/src/tuner_fc0012.c:157-202 | over the table's bands the divider keeps the VCO between 2.373 and 3.5601 GHz |
| Fc0012.ValidIff | rtl-sdr/src/tuner_fc0012.c:214-234 | the check accepts the dividers 90..263 and, by 8-bit wrap-around, 0, 1 and some from 504 on |
| Fc0012.SplitIsRight | rtl-sdr/src/tuner_fc0012.c:214-228 | 8*reg[2] + reg[1] is the divider exactly for 90..263 |
| Fc0012.AccurateIff | rtl-sdr/src/tuner_fc0012.c:209-247 | divider and signed fraction encode the VCO frequency to within 1000 Hz and one step of the fraction exactly when both round the same way, and never above it for whole kilohertz |
| Fc0012.EvenKilohertzAgree | rtl-sdr/src/tuner_fc0012.c:211-244 | for half clocks that are multiples of 2000 Hz they always do |
| Fc0012.RoundingsDisagree | rtl-sdr/src/tuner_fc0012.c:209-247 | they do not at 721.850125 MHz with a 28.802 MHz clock: divider 201 fits and the encoded frequency is off |
| Fc0012.ControlsDecode | rtl-sdr/src/tuner_fc0012.c:157-263 | the output divider of the chosen band can be read back from registers 5 and 6 |
| Fc0012.ControlBits | rtl-sdr/src/tuner_fc0012.c:202-263 | the other bits of registers 5 and 6: 7 in the low three, the VCO half from 3.06 GHz, bit 5, and the bandwidth |
| Fc0012.FractionMeaning | rtl-sdr/src/tuner_fc0012.c:239-247 | the fraction word is the remainder in kHz in 32768ths of the half clock, rounded down, less one from a half on |
| Fc0012.SplitKeepsLowBits | rtl-sdr/src/tuner_fc0012.c:214-228 | the two divider registers are right modulo 256 for every divider |
| Fc0012.SetParams | rtl-sdr/src/tuner_fc0012.c:148-269 | success exactly for the accepted dividers; the registers written, the low bits of register 5 set, then hold what they should, exactly for 90..263 |
| Fc0012.ZeroFrequencyAccepted | rtl-sdr/src/tuner_fc0012.c:202-234 | frequency 0 is accepted with a wrong divider |
| Fc0012.LargeDividerAccepted | rtl-sdr/src/tuner_fc0012.c:202-234 | with a 16 MHz clock 1010 MHz is accepted and its divider 505 stored as 249 |
| E4k.DividerOfRegister | rtl-sdr/src/tuner_e4k.c:359-370 | the low three bits of the register value number the divider and three-phase mixing, below 350 MHz, doubles it |
| E4k.BandTops | rtl-sdr/src/tuner_e4k.c:359-370 | the VCO frequency at which each band ends |
| E4k.VcoOfBand | rtl-sdr/src/tuner_e4k.c:359-370 | over the bands the VCO runs between 2.592 and 4.8 GHz |
| E4k.ParamsReach | rtl-sdr/src/tuner_e4k.c:506-519 | z and x are the quotient of the VCO frequency by the oscillator and, in 65536ths rounded down, the remainder |
| E4k.PartFits | rtl-sdr/src/tuner_e4k.c:514-517 | x is always below 65536 |
| E4k.CloseIff | rtl-sdr/src/tuner_e4k.c:506-519 | the VCO of the parameters is at or below the request by less than fosc/65536 + 1 Hz exactly when the request is below 256*fosc |
| E4k.ComputePllParams | rtl-sdr/src/tuner_e4k.c:481-531 | the parameters come from the first band above the frequency and have that accuracy; a bad oscillator gives none |
| E4k.CloseToFlo | rtl-sdr/src/tuner_e4k.c:440-447 | that is within a few hundred hertz of the local oscillator frequency |
| E4k.FastOscillatorReaches | rtl-sdr/src/tuner_e4k.c:359-370 | from an 18.75 MHz oscillator on every frequency up to 2.4 GHz is reached |
| E4k.SlowOscillatorFails | rtl-sdr/src/tuner_e4k.c:506-519 | at 16 MHz and 1.1 GHz the whole multiple 275 loses its top bit |

## Left out

- getopt: long options and the `W;` form, which need a long-option table `getopt` never passes; error messages; the `__getopt_nonoption_flags` branches of the C library build.
- Getopt.Scanner.ReadAll: with a mode letter that also occurs in an element, or before a colon, the events are stated as the calls made, not as a reading of the vector; `GetoptTheorems.LaterCallsIff` says when that matters.
- Getopt.Scanner.RotateInPlace: `last_nonopt` is stored one statement earlier than in the C text, with no read in between.
- FftNetwork.NetworkIsDft: the root of unity and the sine table are hypotheses (powers of the root, imaginary parts of powers), so that no real trigonometry is assumed; `FftNetwork.FourPointWave` meets them for four points and `FftNetwork.SquareRootServes` from any size for the next, given a complex square root.
- FixedPoint.FixedPointAccuracy: says nothing once input modulus plus 4m passes 32767, where 16-bit stores may wrap; the table is any one within half a unit of 32767 times the exact sines, as `round` gives.
- Filters.GenericFir: the coefficient tables are a parameter; signed overflow of the 32-bit sum wraps, as on the machines the program is built for.
- Decimators.DownsamplePasses: for lengths that stay even and at least 6 points over the passes, as the buffer sizes chosen by the program do; a single `fifth_order` is proved for every length it can be called with.
- rtl_power.c: window functions, dBm output, `remove_dc`, `rms_power`, frequency hopping: floating point or single statements.
- Adsb.Magnitute: the two bytes of a sample pair and the 16-bit magnitude that overwrites them are one array element, so the cast between them and its byte order are not modelled; the sum does not depend on the order.
- Adsb.Manchester: buffers that are no magnitudes and hold a sample 255 are outside its precondition when no error is allowed and the quality is neither 0 nor 5, because the loop may then not end, as `AdsbSpec.StallsForeverIff` states.
- rtl_adsb.c: the text `display` prints of a frame; the thread and its lock.
- R82xxPll.SetPll: models the words written, not the register traffic, the I2C errors between them, nor the lock test that follows; crystals from 32.7675 MHz on are outside its precondition because the loop can then divide by zero, as `R82xxPll.SafeCrystals` states.
- R82xxRegisters.Tuner.Write: registers below 5, which no caller writes; a transfer that reports a short count is not distinguished from one that stores nothing.
- Fc0012.SetParams: ends where the registers are computed, before the VCO calibration reads; half clocks from 2.1 to 65.5 MHz.
- tuner_fc0013.c repeats the FC0012 arithmetic; tuner_fc2580.c divides by a power of two.
- SampleRate.Dongle.SetSampleRate: the register writes succeed; the double divisions are written as integer ones, to which `SampleRate.DriverDivisions` shows them to truncate.
- Resampler.FmState.LowPassReal: 32-bit overflow of the running sum; rates are positive and do not upsample, for which the code divides by zero; `low_pass_fir`, `low_pass_simple` and de-emphasis are left out.
- FastAtan.OrderPreserving: over unbounded integers; `FastAtan.OrderPreserving32Iff` gives the bound up to which it holds in 32 bits.
- FastAtan.ScaleInvariant: over unbounded integers; `FastAtan.ScaleInvariant32Iff` says when it holds in 32 bits.
- FastAtan.Atan32: signed overflow of the product wraps; the sum abs(x) + abs(y) is below 2^31, which components up to 23170, a downsampling by up to 181, ensure (`FastAtan.ModerateFits`).
- SampleQueue.Receiver.Append: a list of one node under limit -2 is outside its precondition, because the callback then links to freed memory, as `SampleQueueSpec.CallbackSafeIff` states.
- SampleQueue.Receiver.FinishOne: the exit path, which may leave the loops early, the condition variable and the timing output; the lock makes each method one atomic step.
- SpectrumFrames.Assembler.Process: fftw is any function that keeps the length; the threshold search after each frame, whose tables are never initialised, is left out.
- EepromImage.ParseEepromToConf: requires that the descriptors lie inside the image; for other contents the program reads past its buffer.
- EepromDevice.Device.WriteEeprom: address and read transfers succeed, since their results are ignored or only end the call; data writes may fail.
- librtlsdr.c: USB transfers, device discovery, open and close, the asynchronous loop; gain tables, initial register values, argument parsing in the programs, `rtl_sdr.c`, `rtl_test.c`.
