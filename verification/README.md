# Protocol and streaming core of the tsdr radio receiver, proved

This project models six parts of the receiver in which a small formula or a few lines of state
must be exactly right, and proves what they are for. All results hold for every input, every run or
every way of cutting a stream into chunks.

- **FLEX paging.** `Gf32` is the field of 32 elements behind its exponent and logarithm tables;
  `FlexBch` is the BCH(31,21) decoder with overall parity, and `FlexGenerator` its code without the
  field; `FlexFrame` is sync search, collection of a frame, de-interleaving, and correction; `FlexWire`
  what becomes of the bits on the wire. Words are sequences of bits, index = weight.
- **Mode S / ADS-B.** `Crc24` is the table-driven check against division by G = x^24 + 0xFFF409, and
  `Crc24Errors` what that polynomial detects; `Cpr` is compact position reporting, global and relative,
  over the reals; `AdsbSlicer` is the 12/5-samples-per-bit slicer; `AdsbDetect` the detector that
  believes, learns from and reports what is sliced; `AdsbPreamble` and `AdsbWave` a transmission of any
  amplitude in bounded noise and what the detector makes of it.
- **Streaming kernels.** `Streams` keeps the end of a stream between calls; `Fir` holds the convolution
  that is meant and `Convolution` what it is in real arithmetic; `FirKernels` the fused decimating
  filter, the transposed filter and the channelizer that slices after filtering; `Polyphase` the
  rational resampler, and `Interpolation` the textbook form of it. Samples are pairs of reals; a real
  stream has imaginary part 0.
- **RDS.** `RdsSyndrome` has the syndromes; `RdsBlock` the error tables and block verification;
  `RdsCorrection` and `RdsAlternate` what verification does with every listed error; `RdsPlacement`
  what it does with blocks counted wrongly; `RdsSync` the bit-by-bit state
  machine, as a class and as the step function it implements; `RdsRuns` what holds over every
  interleaving of bits, watchdog checks and resets; `RdsLedger` what the counters count in such a run;
  `RdsDelivery` a group from end to end, and `RdsWire` the same from the words on the air.
- **Jitter buffer.** `ByteRing` is the ring in its byte array; `JitterRuns` the monitor as atomic
  steps, one per critical section, and its runs; `JitterRules` when it fills, answers and counts;
  `JitterBuffer` the class that implements the steps.
- **WSJT slots.** `WsjtSlots` is alignment, the growable buffer and the slot cutter.

`Words` and `Arithmetic` hold facts about bit strings and integer division, `ShiftRegister` the division
step of both cyclic codes, `Options` the type of an answer that may be missing.

The form is the usual one: code that updates variables or fields is a method or class with loop
invariants, proved equal to a specification function or relation; lemmas then say what that
specification means. Floating-point numbers are reals. Python's integers are unbounded; masks and
moduli are written out.

## Where the code and its description differ

The model follows the code. Each of these is a lemma, with the exact condition where there is one.

- The resampler's kernel describes its time register as lying in [0, up). It lies in [0, down), and
  stays below up exactly when down <= up (`Polyphase.RegisterBelowUpExactly`).
- The RDS watchdog is described as relaxing to 3000 bits after four nudges. The nudge count is kept
  modulo four, so the limit is always 750 (`RdsRuns.WatchdogNeverRelaxes`).
- With a PI code held, block verification is meant to correct any two wrong data bits too. A pair nine
  bits apart looks like a single wrong check bit, whose entry comes first: the block is
  passed as valid with wrong data. All other listed errors are corrected in words sent with
  offset A, B, C or D
  (`RdsCorrection.PairsCorrectedExactly`, `RdsCorrection.CorrectedExactly`,
  `RdsCorrection.PairMisreadWitness`).
- For words sent with offset C' verification tries offset C first, and some damage then looks like
  other, correctable damage to a word with offset C. Of single wrong bits it misreads bit 19 with the
  smaller table, and bits 10, 12, 18, 19, 20, 23 and 24 with the larger one: valid flag, wrong data
  (`RdsCorrection.AlternateBitExactly`; `RdsCorrection.AlternateOffsetExactly` has the exact condition
  for every listed error). Undamaged words are delivered (`RdsCorrection.AlternateUndamaged`).
- Of listed errors in words sent with offset C', exactly these are misread in all: the single bits
  above; with either table the burst of bits 7 to 9; with the larger one also the bursts of bits 0-1,
  4-7, 5-8, 1-5 and 4-8, the pairs nine apart, and seventeen other pairs (`RdsAlternate.AlternateExactly`).
- After sync is gained the next block is meant to take the position after that of the word just heard.
  It does for A, B and C. After C' and D it is counted one position ahead (`RdsRuns.SyncGainedExactly`);
  then intact words C are passed as valid for block 3 with data bit 18 wrong
  (`RdsPlacement.CountedOneAhead`, `RdsPlacement.MiscountedWitness`).
- An all-call reply from an unknown address is meant to be confirmed by a second hit. The addresses
  pending are updated while the phases of one candidate are tried, so a single transmission read alike
  at two phases confirms itself (`AdsbDetect.ConfirmedExactly` has the exact condition). Every
  transmission does whose noise is below two twenty-fifths of its peak: it is read right at three
  phases or more (`AdsbWave.WaveRead`, `AdsbWave.OneHearingConfirms`).
- The resampler is described as zero insertion, filtering and decimation done sparingly. It keeps the taps
  of a row in their original order and applies them to samples in increasing order; the two agree on
  every stream exactly when every row that is used is a palindrome (`Interpolation.TextbookExactly`,
  `Interpolation.TextbookWitness`).
- The relative position decoder says that it refuses results over half a cell away. It also refuses
  points just east of the antimeridian seen from the west side, and in the other direction returns
  longitudes below -180 (`Cpr.EastboundLost`, `Cpr.WestboundUnwrapped`, `Cpr.AntimeridianWitness`).
- The jitter buffer says that a request larger than the capacity raises. A reader let in before the
  capacity shrank below its request waits for ever instead (`JitterRuns.ReleasedExactly`,
  `JitterRuns.WaitsForEver`).
- `_gf_pow(0, 0)` is 0, not 1 (`Gf32.GfPowIsPower`). It is never called so.
- A wrong overall parity bit is never corrected (`FlexBch.RejectsParityError`).

`crc24` of fewer than three bytes is not a remainder: two bytes read index -1 (the last byte), fewer
raise an IndexError; `Crc24.Crc24Loop` models both. `_lfilter_fir` reads its first delay element even
when there is none, so filters of one tap are outside what it supports; `LfilterFir` and the
channelizer take at least two taps, as every use in the repository has.

## Model

| member | source | states |
|---|---|---|
| Gf32.BuildTables | src/tsdr/radio/decoders/flex.py:53-64 | the tables hold every power of alpha and, for every element, its logarithm |
| Gf32.AlphaInjective | src/tsdr/radio/decoders/flex.py:54-63 | alpha is primitive: its first 31 powers differ |
| Gf32.LogAlpha | src/tsdr/radio/decoders/flex.py:59-60 | logarithms invert exponentiation |
| Gf32.GfMulIsPolyMul | src/tsdr/radio/decoders/flex.py:67-70 | adding logarithms is polynomial multiplication modulo x^5 + x^2 + 1 |
| Gf32.MulAssoc | src/tsdr/radio/decoders/flex.py:67-70 | the table product is associative |
| Gf32.MulComm | src/tsdr/radio/decoders/flex.py:67-70 | the table product is commutative |
| Gf32.MulAdds | src/tsdr/radio/decoders/flex.py:67-70 | it distributes over exclusive or |
| Gf32.MulNonzero | src/tsdr/radio/decoders/flex.py:67-70 | a product is zero only if a factor is |
| Gf32.MulInverse | src/tsdr/radio/decoders/flex.py:73-76 | the inverse of a nonzero element multiplies it to one |
| Gf32.GfPowIsPower | src/tsdr/radio/decoders/flex.py:79-82 | the table power is iterated multiplication if and only if it is not 0 to the 0 |
| Gf32.SumOfCubes | src/tsdr/radio/decoders/flex.py:123-124 | two errors with locators of sum s and product p have cubes adding up to s (s^2 + p) |
| Gf32.TwoErrorSyndromes | src/tsdr/radio/decoders/flex.py:113-126 | two distinct errors pass every early exit of the decoder, and its constant c is the product of their locators |
| Gf32.LocatorRoots | src/tsdr/radio/decoders/flex.py:128 | the quadratic's roots are exactly the two locators |
| Gf32.RootsDetermine | src/tsdr/radio/decoders/flex.py:128 | two distinct roots have the right sum and product |
| Gf32.CubeInjective | src/tsdr/radio/decoders/flex.py:116-119 | cubing is one to one, so a single error is told from two |
| Gf32.FourLocators | src/tsdr/radio/decoders/flex.py:85-98 | four locators with vanishing sum and sum of cubes cancel in pairs |
| FlexBch.BchSyndrome | src/tsdr/radio/decoders/flex.py:85-98 | the loop evaluates the 31-bit word at alpha and alpha cubed |
| FlexBch.BchCorrect | src/tsdr/radio/decoders/flex.py:101-136 | the correction with its branches and failures is the function the theorems below are about |
| FlexBch.SyndromeFlip | src/tsdr/radio/decoders/flex.py:93-97 | flipping a bit adds its locator and the cube of its locator to the syndromes; the parity bit adds nothing |
| FlexBch.CorrectsTwo | src/tsdr/radio/decoders/flex.py:101-136 | completeness: any at most two flips in bits 1..31 of any codeword are removed and reported as success |
| FlexBch.AcceptedIsNearCodeword | src/tsdr/radio/decoders/flex.py:101-136 | soundness: an accepted word is a codeword at most two flips from the input, none in the parity bit |
| FlexBch.AcceptsExactly | src/tsdr/radio/decoders/flex.py:101-136 | success with answer c if and only if c is a codeword within distance two agreeing on the parity bit |
| FlexBch.RefusedExactly | src/tsdr/radio/decoders/flex.py:109-136 | a refused word becomes the one word at most two flips away, none in the parity bit, with vanishing syndromes and odd parity; if there is none it is left alone |
| FlexBch.SmallWeightSyndrome | src/tsdr/radio/decoders/flex.py:85-98 | no word of weight at most four with ones above bit 0 has zero syndromes |
| FlexBch.MinimumDistance | src/tsdr/radio/decoders/flex.py:101-111 | different codewords with parity differ in at least six bits |
| FlexBch.RejectsThree | src/tsdr/radio/decoders/flex.py:101-136 | every pattern of three flips anywhere in a codeword is refused |
| FlexBch.RejectsParityError | src/tsdr/radio/decoders/flex.py:109-111 | a flip of the parity bit alone is refused |
| FlexGenerator.CodewordExactly | src/tsdr/radio/decoders/flex.py:85-111 | both syndromes and the parity vanish if and only if the number of ones is even and bits 1 to 31, as a polynomial, are a multiple of x^10 + x^9 + x^8 + x^6 + x^5 + x^3 + 1 by 21 bits |
| FlexFrame.ReverseBits21 | src/tsdr/radio/decoders/flex.py:143-153 | the shifting loop reverses the 21 bits |
| FlexFrame.ReverseInfoInvolution | src/tsdr/radio/decoders/flex.py:281-282 | reversing the information field twice gives the codeword back, check bits untouched |
| FlexFrame.ReadCodeword | src/tsdr/radio/decoders/flex.py:268-271 | row r of a block gathers the bits r, r + 8, r + 16, ..., most significant first |
| FlexFrame.ReportCodeword | src/tsdr/radio/decoders/flex.py:272-285 | an accepted word is reported with its information bits in field order, a refused one as the corrector leaves it |
| FlexFrame.ReportsExactly | src/tsdr/radio/decoders/flex.py:101-136 | what is reported: the codeword at most two flips away that agrees on the parity bit, in field order and good; failing that the word that near with vanishing syndromes and odd parity, refused; failing that the word itself, refused |
| FlexFrame.DecodeCodewords | src/tsdr/radio/decoders/flex.py:264-285 | all 88 codewords, in order, each from its own 32 places of the frame; good and bad are counted |
| FlexFrame.BurstsCorrected | src/tsdr/radio/decoders/flex.py:264-285 | with errors confined in each block to 16 consecutive bits of the first 248, every codeword comes out as sent and accepted |
| FlexFrame.SeventeenRefused | src/tsdr/radio/decoders/flex.py:264-285 | 16 is the limit: 17 flips in a row, anywhere, make one codeword be refused |
| FlexFrame.FLEXDecoder.constructor | src/tsdr/radio/decoders/flex.py:181-192 | a new decoder searches with an empty register |
| FlexFrame.FLEXDecoder.DecodeFrame | src/tsdr/radio/decoders/flex.py:245-285 | undoes the inversion, skips 104 bits, decodes 88 words or none if too short; updates the statistics |
| FlexFrame.FLEXDecoder.ProcessBit | src/tsdr/radio/decoders/flex.py:218-241 | one bit moves the fields and emits a frame as the step function says, and the counts of syncs and of good and bad codewords grow by what it found |
| FlexFrame.FLEXDecoder.ProcessBits | src/tsdr/radio/decoders/flex.py:214-243 | a chunk of bits does what its bits do one after the other, with the counts of a run |
| FlexFrame.RunConcat | src/tsdr/radio/decoders/flex.py:214-243 | chunking is invisible: frames and state depend on the whole stream only |
| FlexFrame.SyncsAndFrames | src/tsdr/radio/decoders/flex.py:214-287 | over every run: syncs found are frames reported, plus one if a frame is still being collected, and every frame has 88 codewords, each counted once |
| FlexFrame.MirrorRun | src/tsdr/radio/decoders/flex.py:45-48 | a stream received upside down gives the same codewords, on every stream |
| FlexFrame.FrameAfterSync | src/tsdr/radio/decoders/flex.py:235-241 | exactly the 2926 bits after a sync are decoded, once, and the search starts again |
| FlexFrame.FrameDelivered | src/tsdr/radio/decoders/flex.py:235-287 | a collected frame with one 16-bit burst per block delivers the 88 codewords sent |
| FlexFrame.SyncedFrameDelivered | src/tsdr/radio/decoders/flex.py:222-285 | the same from the search on: a sync word of either polarity with up to two errors, then the frame |
| FlexWire.WireDelivered | src/tsdr/radio/decoders/flex.py:222-285 | on transmitted bits alone: after 32 bits at most two away from those of 0x59395555 (or of 0xA6C6AAAA, everything then upside down) and 104 bits of anything, data bit 256 (k/8) + 8 (31 - i) + k mod 8 being bit i of word k, with at most one 16-bit burst a block, give exactly the 88 words sent |
| FlexWire.NoFrame | src/tsdr/radio/decoders/flex.py:222-233 | while every 32 bits heard differ from both in three or more places, nothing is reported and the search goes on |
| Crc24.BuildTable | src/tsdr/radio/decoders/adsb.py:31-39 | entry i is i x^16 after eight steps of division by G, although the loop masks only at the end |
| Crc24.Crc24Loop | src/tsdr/radio/decoders/adsb.py:44-51 | for three bytes or more the table-driven loop returns the remainder of bit-serial division; two bytes, and fewer, as Python's indexing has it |
| Crc24.TableStep | src/tsdr/radio/decoders/adsb.py:48-49 | one table look-up is eight bit steps |
| Crc24.DivideLinear | src/tsdr/radio/decoders/adsb.py:44-51 | the remainder of an exclusive or is the exclusive or of the remainders |
| Crc24.DivisionAlgorithm | src/tsdr/radio/decoders/adsb.py:44-51 | dividend = quotient times G plus remainder, as polynomials |
| Crc24.DivisibleExactly | src/tsdr/radio/decoders/adsb.py:44-51 | the remainder is zero if and only if the polynomial is a multiple of G |
| Crc24.AcceptedExactly | src/tsdr/radio/decoders/adsb.py:118-125 | a message passes the check if and only if it is a multiple of G |
| Crc24.BurstRemainder | src/tsdr/radio/decoders/adsb.py:44-51 | a nonzero error within 24 consecutive bits leaves a nonzero remainder |
| Crc24.BurstDetected | src/tsdr/radio/decoders/adsb.py:118-125 | a valid message of any length damaged within 24 consecutive bits fails the check |
| Crc24.AddressRecovered | src/tsdr/radio/decoders/adsb.py:291-302 | the remainder is a given address if and only if the last three bytes are parity plus address |
| Crc24Errors.PolynomialIs | src/tsdr/radio/decoders/adsb.py:28-39 | below x^24 the polynomial has the terms 1, x^3, x^10 and x^12 to x^23 |
| Crc24Errors.ShortMessages | src/tsdr/radio/decoders/adsb.py:44-51 | of two bytes a, b the answer is the number b a b, of fewer there is none |
| Crc24Errors.OddDetected | src/tsdr/radio/decoders/adsb.py:118-125 | a valid message of any length with an odd number of wrong bits fails the check |
| Crc24Errors.PairRemainder | src/tsdr/radio/decoders/adsb.py:44-51 | two wrong bits less than 112 apart leave a remainder, in any string |
| Crc24Errors.FewDetected | src/tsdr/radio/decoders/adsb.py:118-125 | in messages of up to 112 bits any one, two or three wrong bits are found |
| Cpr.Nl | src/tsdr/radio/decoders/adsb.py:549-668 | there are 1 to 59 longitude zones at every latitude |
| Cpr.NlFalls | src/tsdr/radio/decoders/adsb.py:549-668 | the table is the same north and south, never rises towards a pole and skips no count |
| Cpr.BandsNarrow | src/tsdr/radio/decoders/adsb.py:549-668 | the bands of the table get narrower towards the poles: as far as one can go on without leaving a band, so far back one crosses into the next only |
| Cpr.CprN | src/tsdr/radio/decoders/adsb.py:671-673 | the zone count of a frame is between 1 and 59, also for odd frames in the polar band |
| Cpr.EncodeIsUnits | src/tsdr/radio/decoders/adsb.py:680-728 | the encoder of RTCA DO-260B, section A.1.7.3, sends the position in 2^-17 zones modulo one zone |
| Cpr.EncodesPoint | src/tsdr/radio/decoders/adsb.py:680-700 | the encoder divides the circle into 60 zones, 59 in odd frames, and a zone into 131072 points; less than half a unit off point c of any zone, c is sent |
| Cpr.EncodesPointAlong | src/tsdr/radio/decoders/adsb.py:708-722 | and a parallel into as many zones as the count at the recovered latitude, one fewer in odd frames but never none |
| Cpr.ZoneIndexExact | src/tsdr/radio/decoders/adsb.py:695 | the index formula yields N z1 - (N-1) z0 if and only if the rounded positions disagree by less than half a zone, scaled |
| Cpr.IndexModulo | src/tsdr/radio/decoders/adsb.py:696-697 | that index modulo a zone count is the zone number of that parity |
| Cpr.CloseUnits | src/tsdr/radio/decoders/adsb.py:695 | a bound on the aircraft's movement that guarantees the condition |
| Cpr.LatitudeRecovered | src/tsdr/radio/decoders/adsb.py:692-705 | both hemispheres: the decoded latitude is the grid latitude of the frame in use |
| Cpr.LongitudeRecovered | src/tsdr/radio/decoders/adsb.py:710-726 | for every zone count, the decoded longitude is the grid longitude up to whole turns, in [-180, 180) |
| Cpr.GlobalRoundTrip | src/tsdr/radio/decoders/adsb.py:680-728 | two frames of an aircraft that moves little: fails exactly on a zone crossing, otherwise within Dlat/2^18 and Dlon/2^18 of the truth |
| Cpr.StationaryRoundTrip | src/tsdr/radio/decoders/adsb.py:680-728 | for every point of the globe: if the two latitudes share a zone count, the round trip succeeds with that accuracy |
| Cpr.GlobalOnGrid | src/tsdr/radio/decoders/adsb.py:680-728 | whatever the inputs, an answer is a point of the latest frame's grid, on the globe |
| Cpr.FmodIsFraction | src/tsdr/radio/decoders/adsb.py:731-736 | the truncating remainder with its repair is the fraction within the cell, for negative references too |
| Cpr.NearestExactly | src/tsdr/radio/decoders/adsb.py:754-757 | the zone chosen is the only one within half a cell of the reference |
| Cpr.RelativeExactly | src/tsdr/radio/decoders/adsb.py:739-779 | closed form for every reference and frame: nearest grid point, or None, or a longitude one turn lower |
| Cpr.RelativeAgreesExactly | src/tsdr/radio/decoders/adsb.py:739-779 | for every reference, a grid point is returned if and only if it is within half a cell by the plain differences and not beyond 180 degrees, or, with one zone all round, exactly half a turn west |
| Cpr.OnlyGridPoint | src/tsdr/radio/decoders/adsb.py:739-779 | no two grid points are that close to one reference |
| Cpr.GlobalThenRelative | src/tsdr/radio/decoders/adsb.py:680-779 | from a reference within half a cell, relative and global decoding agree on the latest frame |
| Cpr.RelativeRoundTrip | src/tsdr/radio/decoders/adsb.py:739-779 | one encoded frame and a near reference give the position back within half a grid step |
| Cpr.EastboundLost | src/tsdr/radio/decoders/adsb.py:772-777 | a point just across the antimeridian to the east is always refused |
| Cpr.WestboundUnwrapped | src/tsdr/radio/decoders/adsb.py:772-779 | across it to the west the point is returned with a longitude below -180 |
| Cpr.AntimeridianWitness | src/tsdr/radio/decoders/adsb.py:739-779 | both happen on the equator, less than a degree away |
| AdsbSlicer.TableIsTwelveFifths | src/tsdr/radio/decoders/adsb.py:57-74 | every table entry is the quotient and remainder of phase + 12 bit by 5; a byte is 96 fifths |
| AdsbSlicer.SliceCorrelates | src/tsdr/radio/decoders/adsb.py:83-96 | a slice is the sum over the twelve fifths of a sample a bit lasts, plus in its first half and minus in its second |
| AdsbSlicer.ExtractByte | src/tsdr/radio/decoders/adsb.py:106-112 | one byte from the table is its eight sliced bits, first bit highest, whenever the last sample it reads exists |
| AdsbSlicer.ExtractMsg | src/tsdr/radio/decoders/adsb.py:99-115 | for any length, zero included, bit k is sliced with phase (p + 12k) mod 5 at sample start + (p + 12k)/5 |
| AdsbSlicer.FindPreambleCandidates | src/tsdr/radio/decoders/adsb.py:358-365 | exactly the places with 290 samples left where the next sample is greater and sample 12 exceeds sample 13, in order |
| AdsbSlicer.CandidatesInBounds | src/tsdr/radio/decoders/adsb.py:360 | from no candidate, at no phase tried, does slicing up to 14 bytes leave the array; at the last two phases the last of the 290 samples is read |
| AdsbDetect.ExtractAt | src/tsdr/radio/decoders/adsb.py:231-245 | what a candidate reads at a phase: 14 or 7 bytes by the format in its first five bits, nothing for an unknown format |
| AdsbDetect.LengthsExactly | src/tsdr/radio/decoders/adsb.py:231-245 | a message is read exactly for formats 0, 4, 5, 11, 16, 17, 18, 20 and 21, the first byte divided by 8; it has 14 bytes if its first bit is set, else 7 |
| AdsbDetect.SenderValue | src/tsdr/radio/decoders/adsb.py:251-266 | the sender is the number 65536 b1 + 256 b2 + b3 of the second to fourth byte |
| AdsbDetect.ScorePhase | src/tsdr/radio/decoders/adsb.py:230-302 | the score is the rank of the message read, given the addresses held; the addresses change only for an all-call reply from an unknown sender, first to pending, then to known |
| AdsbDetect.RankMeans | src/tsdr/radio/decoders/adsb.py:248-302 | 500 or more exactly for squitters with a correct check; any other message is accepted if and only if it is an all-call reply from a known or pending sender, or has a known address in its check |
| AdsbDetect.RankOrder | src/tsdr/radio/decoders/adsb.py:258-302 | of two accepted messages squitters win over all-call replies from known senders, those over known addresses in the check, those over replies from pending senders; among squitters, and among replies, known senders win |
| AdsbDetect.RankGrows | src/tsdr/radio/decoders/adsb.py:248-302 | holding more addresses never lowers a rank |
| AdsbDetect.ChosenIsBest | src/tsdr/radio/decoders/adsb.py:227-306 | the phase chosen is the first with the best score, each scored with the addresses held when it is tried; none is chosen only if all are refused |
| AdsbDetect.BestPhase | src/tsdr/radio/decoders/adsb.py:227-306 | the loop over phases makes that choice and leaves those addresses |
| AdsbDetect.ConfirmedExactly | src/tsdr/radio/decoders/adsb.py:274-290 | an all-call reply from an address neither known nor pending at its candidate is accepted at a phase if and only if an earlier phase of the same candidate read one from that address while there was room |
| AdsbDetect.KnownExactly | src/tsdr/radio/decoders/adsb.py:274-284 | within a candidate an address becomes known if and only if a phase reads a reply from it while it is pending and there is room |
| AdsbDetect.PendingExactly | src/tsdr/radio/decoders/adsb.py:285-289 | and pending if and only if a phase reads one while it is not known and there is room |
| AdsbDetect.ReportTeaches | src/tsdr/radio/decoders/adsb.py:327-345 | a report makes its sender known if and only if its format is 11, 17 or 18 and there is room |
| AdsbDetect.RoomMade | src/tsdr/radio/decoders/adsb.py:381-391 | the room made for addresses is the least that is at least 1000 (4000 for pending ones) and 500 (2000) more than are given |
| AdsbDetect.Accept | src/tsdr/radio/decoders/adsb.py:308-350 | the message cut out again is the one scored, and the search goes on 153 or 288 samples later |
| AdsbDetect.DetectAndDecode | src/tsdr/radio/decoders/adsb.py:128-352 | the loop over candidates computes the scan that the lemmas on soundness, completeness, preambles and transmissions are about |
| AdsbDetect.ScanSound | src/tsdr/radio/decoders/adsb.py:128-352 | every report is a squitter with a correct check, an all-call reply whose sender was known, pending or heard at an earlier place, or has in its check an address with a source; none overlaps another; every address held was given, sent a reported squitter, or was heard twice |
| AdsbDetect.HeldSourced | src/tsdr/radio/decoders/adsb.py:274-290 | inside a candidate too, no phase adds an address without such a source |
| AdsbDetect.ScanComplete | src/tsdr/radio/decoders/adsb.py:128-352 | no plausible candidate is missed, outside reported messages and while the report has room, that reads a squitter or a message ranked by an address given as known or, while there is room for addresses, named by an earlier report |
| AdsbDetect.DetectBuffer | src/tsdr/radio/decoders/adsb.py:368-424 | soundness and completeness for a whole buffer, the candidates being all places with the two edges |
| AdsbPreamble.NoisyPreamble | src/tsdr/radio/decoders/adsb.py:145-225 | pulses at -96, -84, -54 and -42 fifths of a sample, at each phase, of any amplitude and with noise below a fifth of the peak, are accepted as a preamble |
| AdsbPreamble.GapsExactly | src/tsdr/radio/decoders/adsb.py:145-225 | with clean pulses a preamble is accepted if and only if the gap samples stay within the bounds named for its phase |
| AdsbPreamble.QuietMeans | src/tsdr/radio/decoders/adsb.py:172-225 | whatever is accepted has, at some phase, samples lit four fifths or more worth at least 3/2 of the gap samples between the pulses, and every gap sample below a quarter of the samples lit three fifths or more |
| AdsbWave.SlicerReads | src/tsdr/radio/decoders/adsb.py:84-96 | a slicer at most two fifths of a sample off tells a one from a zero, whatever the bits around are, through noise below 1/5 of the peak when it is aligned, 3/20 one fifth off, 2/25 two off |
| AdsbWave.WaveRead | src/tsdr/radio/decoders/adsb.py:99-115 | a transmission of any message of a known format, of any amplitude and at any of the five phases, is read back at every phase tried that bears the noise so |
| AdsbWave.WavePlausible | src/tsdr/radio/decoders/adsb.py:160-225 | and through noise below a fifth of its peak its place is a candidate with a plausible preamble |
| AdsbWave.SquitterReceived | src/tsdr/radio/decoders/adsb.py:227-350 | so a squitter of any amplitude, at any phase, through noise below a fifth of its peak is reported as one |
| AdsbWave.SpanIsDuration | src/tsdr/radio/decoders/adsb.py:349-350 | the samples skipped for a report are the whole samples of 96 + 12 (8 n) fifths, the duration of the waveform |
| AdsbWave.TwoSquittersReceived | src/tsdr/radio/decoders/adsb.py:128-352 | two squitters, the second not before the first has ended, each with its own amplitude, phase and noise, are both reported |
| AdsbWave.AllCallExactly | src/tsdr/radio/decoders/adsb.py:259-266 | an all-call reply is a first byte of format 11 and a parity that differs from that of the first four bytes by an interrogator code of at most 80 |
| AdsbWave.OneHearingConfirms | src/tsdr/radio/decoders/adsb.py:264-290 | and an all-call reply from an unknown address, received once through noise below 2/25 of its peak, is accepted and reported if there is room |
| AdsbWave.AnySenderCan | src/tsdr/radio/decoders/adsb.py:260-266 | such a reply exists for every address |
| Fir.DecimatedGrows | src/tsdr/radio/dsp/_kernels.py:533-586 | outputs at the next multiples of m extend the decimated convolution of the stream to that of the longer stream |
| Convolution.ConvolveIs | src/tsdr/radio/dsp/_kernels.py:504-513 | each component of the convolution is the sum of taps times that component, going back from the time |
| Convolution.DecimatedIs | src/tsdr/radio/dsp/_kernels.py:504-513 | output k of decimation is that sum at time k m, one for each multiple of m below the length |
| Convolution.ImpulseGivesTaps | src/tsdr/radio/dsp/_kernels.py:504-513 | a unit impulse gives back the taps, then silence |
| Convolution.ConvolveLinear | src/tsdr/radio/dsp/_kernels.py:504-513 | filtering is linear |
| Convolution.ConvolveDelayed | src/tsdr/radio/dsp/_kernels.py:504-513 | and a delayed stream gives the delayed output |
| FirKernels.DotProduct | src/tsdr/radio/dsp/_kernels.py:504-513 | flipped taps against history and input give the convolution at that time |
| FirKernels.FirDecimInto | src/tsdr/radio/dsp/_kernels.py:445-530 | every output is the convolution at its place, the history becomes the last K-1 samples, all accesses are in bounds |
| Streams.UpdateHistory | src/tsdr/radio/dsp/_kernels.py:515-523 | the history is the end of the stream, for inputs longer and shorter than it; the resampler's history too |
| FirKernels.PhaseStep | src/tsdr/radio/dsp/_kernels.py:493-528 | the carried phase is always the distance to the next multiple of m, below m |
| FirKernels.OutputsFit | src/tsdr/radio/dsp/_kernels.py:848-856 | the preallocated output buffer is large enough |
| FirKernels.StreamingDecimFilter.constructor | src/tsdr/radio/dsp/_kernels.py:830-850 | a new filter has heard nothing |
| FirKernels.StreamingDecimFilter.Grow | src/tsdr/radio/dsp/_kernels.py:852-856 | larger scratch buffers leave the stream state alone |
| FirKernels.StreamingDecimFilter.Process | src/tsdr/radio/dsp/_kernels.py:858-886 | appending its output extends the decimated convolution of all input so far, for every chunk |
| FirKernels.StreamingDecimFilter.Reset | src/tsdr/radio/dsp/_kernels.py:888-891 | after a reset it is as if nothing had been heard |
| FirKernels.LfilterFir | src/tsdr/radio/dsp/_kernels.py:18-64 | the transposed form outputs the convolution at every sample and leaves the partial sums for what follows |
| FirKernels.ShiftDelays | src/tsdr/radio/dsp/_kernels.py:56-61 | after one sample every delay element is the partial sum it stands for |
| FirKernels.FMChannelizer.constructor | src/tsdr/radio/dsp/fm_channelizer.py:20-38 | a new channelizer has heard nothing |
| FirKernels.FMChannelizer.Process | src/tsdr/radio/dsp/fm_channelizer.py:40-46 | filter then slice with the carried phase extends the same decimated convolution |
| FirKernels.SkipIsNextPhase | src/tsdr/radio/dsp/fm_channelizer.py:45-46 | the remainder formula for the skip, negative counts included, equals the fused kernel's subtraction |
| FirKernels.RunFused | src/tsdr/radio/dsp/_kernels.py:819-886 | any chunking: the outputs together are the convolution at 0, m, 2m, ... |
| FirKernels.RunChannelizer | src/tsdr/radio/dsp/fm_channelizer.py:40-46 | the same for filter then slice |
| FirKernels.FusedEqualsSimple | src/tsdr/radio/dsp/fm_channelizer.py:40-46 | fused and simple decimation of one stream, cut differently for each, put out the same samples |
| Polyphase.CountOutputs | src/tsdr/radio/dsp/_kernels.py:631-639 | the stepping loop counts the multiples of down that fall into the new input |
| Polyphase.OutputSample | src/tsdr/radio/dsp/_kernels.py:652-660 | one output is the bank row (k down) mod up against the samples ending at (k down)/up |
| Polyphase.ResampleChannel | src/tsdr/radio/dsp/_kernels.py:590-674 | outputs extend the closed form; history and time register are those of the longer stream |
| Polyphase.ResampledGrows | src/tsdr/radio/dsp/_kernels.py:590-674 | the next outputs of the longer stream continue those of the shorter |
| Polyphase.BuildBank | src/tsdr/radio/dsp/_kernels.py:918-925 | row p, column j is prototype tap j up + p, zero beyond the end |
| Polyphase.StreamingPolyphaseResampler.constructor | src/tsdr/radio/dsp/_kernels.py:902-930 | a new resampler has its bank and no channels |
| Polyphase.StreamingPolyphaseResampler.EnsureChannels | src/tsdr/radio/dsp/_kernels.py:932-935 | existing histories are kept; a new channel counts as silent so far |
| Polyphase.StreamingPolyphaseResampler.Process | src/tsdr/radio/dsp/_kernels.py:937-966 | every channel's output extends its closed form; a channel left out is in effect delayed by the chunk |
| Polyphase.DelayCovers | src/tsdr/radio/dsp/_kernels.py:952-965 | an untouched history is that of the delayed stream |
| Polyphase.RunMono | src/tsdr/radio/dsp/_kernels.py:894-966 | any chunking of N samples: ceil(N up/down) outputs, each by the closed form, over the bank built |
| Polyphase.RegisterBelowUpExactly | src/tsdr/radio/dsp/_kernels.py:616-618 | the register always stays below up if and only if down <= up |
| Interpolation.TextbookOutput | src/tsdr/radio/dsp/_kernels.py:600-602 | zero insertion and filtering, at output k, is row (k down) mod up against samples going back from (k down)/up |
| Interpolation.TextbookExactly | src/tsdr/radio/dsp/_kernels.py:590-674 | the resampler equals zero insertion, filtering and decimation on every stream if and only if every row used is a palindrome |
| Interpolation.TextbookWitness | src/tsdr/radio/dsp/_kernels.py:652-660 | with taps 1 and 2 and no rate change it does not |
| Polyphase.BelowDown | src/tsdr/radio/dsp/_kernels.py:673 | the register always stays below down |
| RdsSyndrome.CalcSyndrome | src/tsdr/radio/decoders/rds.py:34-44 | the shift-register loop is division of the block, first bit first |
| RdsSyndrome.SyndromeXor | src/tsdr/radio/decoders/rds.py:34-44 | syndromes are linear |
| RdsSyndrome.SinglesDistinct | src/tsdr/radio/decoders/rds.py:57-59 | the 26 single-bit errors have 26 different syndromes, so no entry overwrites another |
| RdsSyndrome.CheckBits | src/tsdr/radio/decoders/rds.py:34-44 | errors in check bits alone are their own syndrome |
| RdsBlock.BuildErrorLookup | src/tsdr/radio/decoders/rds.py:47-76 | the table is the one the listed patterns make when entered in order: bits, pairs, bursts |
| RdsBlock.ListedExactly | src/tsdr/radio/decoders/rds.py:57-74 | the list holds exactly the single bits, the pairs of data bits if wanted, and the check-bit bursts up to the given length |
| RdsBlock.FirstOwns | src/tsdr/radio/decoders/rds.py:57-74 | under a syndrome the table has an entry if and only if some listed pattern has it, and then the first that has |
| RdsBlock.OwnEntry | src/tsdr/radio/decoders/rds.py:57-74 | a listed pattern whose syndrome no earlier one has is its own entry |
| RdsBlock.TableBuilt | src/tsdr/radio/decoders/rds.py:47-76 | every entry is a listed pattern with that syndrome, every listed pattern's syndrome has an entry, every single bit is its own |
| RdsBlock.VerifyBlock | src/tsdr/radio/decoders/rds.py:497-523 | offsets are tried in order; the first that matches or can be corrected decides |
| RdsBlock.AcceptedIsCodeword | src/tsdr/radio/decoders/rds.py:497-523 | accepted data are those of a codeword at an allowed offset, one listed pattern away |
| RdsCorrection.LookAlike | src/tsdr/radio/decoders/rds.py:79-80 | of all listed patterns the only ones with equal syndromes are a pair of data bits i, i + 9 and the bit i - 10 |
| RdsCorrection.EntryOf | src/tsdr/radio/decoders/rds.py:79-80 | every listed pattern is its own entry, such pairs excepted, whose entry is the bit |
| RdsCorrection.CorrectedExactly | src/tsdr/radio/decoders/rds.py:497-523 | a word sent with offset A, B, C or D and damaged by any listed pattern is accepted, and with the right data if and only if the damage is not such a pair |
| RdsCorrection.PairsCorrectedExactly | src/tsdr/radio/decoders/rds.py:497-523 | with a PI code held, two wrong data bits are corrected if and only if they are not nine apart |
| RdsCorrection.PairMisreadWitness | src/tsdr/radio/decoders/rds.py:497-523 | bits 10 and 19 wrong: valid flag, both still wrong |
| RdsCorrection.CorrectsAnyBurst | src/tsdr/radio/decoders/rds.py:497-523 | any burst of two to five check bits is corrected, with either table |
| RdsCorrection.Undamaged | src/tsdr/radio/decoders/rds.py:513-517 | an undamaged word is delivered, with any table |
| RdsCorrection.CorrectsAnyBit | src/tsdr/radio/decoders/rds.py:497-523 | any single wrong bit is corrected, with either table |
| RdsCorrection.AlternateUndamaged | src/tsdr/radio/decoders/rds.py:506-521 | an undamaged word sent with offset C' is delivered, with either table |
| RdsCorrection.AlternateOffsetExactly | src/tsdr/radio/decoders/rds.py:506-521 | a word sent with offset C' and damaged by any listed pattern is accepted, and with the right data if and only if what offset C makes of the damage has no entry (and it is no pair nine apart) or one with the same data bits |
| RdsCorrection.AlternateBitExactly | src/tsdr/radio/decoders/rds.py:506-521 | of single wrong bits, exactly bit 19 is misread with the smaller table and exactly bits 10, 12, 18, 19, 20, 23 and 24 with the larger |
| RdsCorrection.AlternateOffsetWitness | src/tsdr/radio/decoders/rds.py:506-521 | bit 19 wrong: valid flag, wrong data, with either table |
| RdsAlternate.AlternateExactly | src/tsdr/radio/decoders/rds.py:506-521 | for every listed error in a word sent with offset C', place by place: delivered if and only if it is not one of the named bits, bursts and pairs |
| RdsPlacement.CountedOneAhead | src/tsdr/radio/decoders/rds.py:497-523 | intact words counted one position ahead: A and D refused while no PI code is held, B accepted as block 2, C accepted as block 3 with bit 18 wrong |
| RdsPlacement.MiscountedWitness | src/tsdr/radio/decoders/rds.py:497-523 | an intact word C taken for block 3 has a valid flag and wrong data |
| RdsSync.RDSDecoder.constructor | src/tsdr/radio/decoders/rds.py:916-928 | a new decoder searches |
| RdsSync.RDSDecoder.SyncDrop | src/tsdr/radio/decoders/rds.py:348-364 | search again, counters cleared, PI kept, nudge count one |
| RdsSync.RDSDecoder.ClearDecodedData | src/tsdr/radio/decoders/rds.py:932-950 | PI, candidate and statistics forgotten |
| RdsSync.RDSDecoder.DecodeGroup | src/tsdr/radio/decoders/rds.py:525-571 | the validity gates, the PI decision and the group count |
| RdsSync.RDSDecoder.Search | src/tsdr/radio/decoders/rds.py:424-454 | presync on the first offset word, sync or a new search on the next |
| RdsSync.RDSDecoder.RecordBlock | src/tsdr/radio/decoders/rds.py:459-474 | counters, data and validity flag of the finished block |
| RdsSync.RDSDecoder.JudgeSync | src/tsdr/radio/decoders/rds.py:483-491 | ten bad in a row, or more than 40 % of forty, drop the sync |
| RdsSync.RDSDecoder.FinishBlock | src/tsdr/radio/decoders/rds.py:457-491 | the end of a block, with the group call if it was block 3 |
| RdsSync.RDSDecoder.ProcessBit | src/tsdr/radio/decoders/rds.py:421-491 | one bit moves all fields as the step function says |
| RdsSync.RDSDecoder.CheckSyncWatchdog | src/tsdr/radio/decoders/rds.py:366-385 | the watchdog moves its fields as the step function says |
| RdsRuns.GroupsAreFresh | src/tsdr/radio/decoders/rds.py:421-551 | after any run, every block flagged valid at a group call is the verified data of the window that ended 26 (3 - i) bits before |
| RdsRuns.FreshAlways | src/tsdr/radio/decoders/rds.py:421-491 | the invariant behind it, across losses of sync, re-acquisition, first partial groups and resets |
| RdsRuns.HeldSyncQuality | src/tsdr/radio/decoders/rds.py:457-491 | while sync is held: never ten bad blocks in a row, at most 16 (B/40) + B mod 40 bad of B, counters in range |
| RdsRuns.SteadyAlways | src/tsdr/radio/decoders/rds.py:348-491 | the invariant behind it |
| RdsRuns.WatchdogNeverRelaxes | src/tsdr/radio/decoders/rds.py:339-385 | in every reachable state the watchdog fires exactly at 750 unsynchronised bits |
| RdsRuns.SyncNeedsTwoWords | src/tsdr/radio/decoders/rds.py:424-454 | sync is gained only if two windows of the bits heard carry offset words spaced as their positions are, give or take two bits |
| RdsRuns.SyncGainedExactly | src/tsdr/radio/decoders/rds.py:424-454 | from a fresh search, two words with none between give sync if and only if they are so spaced, otherwise the search is fresh again; the next block then has the position after the second word's if and only if that is A, B or C |
| RdsRuns.DistanceLeadsOn | src/tsdr/radio/decoders/rds.py:434-440 | the block distance is 1 to 4 and leads from the first word's position to the second's |
| RdsLedger.PiChangesExactly | src/tsdr/radio/decoders/rds.py:525-571 | the PI code in terms of what was heard: it changes only at groups with valid A and B, to a code received twice running once four groups with valid B are in since the last loss of sync, change of station or reset; earlier it is forgotten and sync lost |
| RdsLedger.CountersExactly | src/tsdr/radio/decoders/rds.py:459-571 | after every run the group count is the number of groups with valid block B since then (1 after a change of station), and total and uncorrectable are the blocks and bad blocks since then |
| RdsLedger.SyncLostExactly | src/tsdr/radio/decoders/rds.py:345-551 | a bit loses sync for exactly three reasons: ten bad blocks in a row, more than sixteen bad in a window of forty, another PI code before the fourth group; the search then starts afresh, nudged once |
| RdsLedger.WatchdogExactly | src/tsdr/radio/decoders/rds.py:366-385 | the watchdog acts exactly when, without sync, the bits of the chunks since it last acted or found sync come to 750 |
| RdsRuns.PiAlways | src/tsdr/radio/decoders/rds.py:533-551 | the candidate is the code of the last usable group unless that is the PI code |
| RdsDelivery.GroupDelivered | src/tsdr/radio/decoders/rds.py:421-523 | after any run, at the start of a group, four words sent with offsets A to D, each undamaged or with any listed error but a pair nine apart, make one group call with the data sent, all flagged valid |
| RdsDelivery.WindowEndsBadly | src/tsdr/radio/decoders/rds.py:483-491 | unless a window of forty with more than sixteen bad blocks ends before the fourth: sync is given up there |
| RdsDelivery.ReceivedConcat | src/tsdr/radio/decoders/rds.py:415-419 | cutting the bits into chunks makes no difference |
| RdsWire.ForPlaceExactly | src/tsdr/radio/decoders/rds.py:20-44 | the words taken as undamaged at a place are exactly the multiples of x^10 + x^8 + x^7 + x^5 + x^4 + x^3 + 1 with the offset word of the place added, bit by bit |
| RdsWire.AlternateOffsetIs | src/tsdr/radio/decoders/rds.py:20-44 | the one other word taken, at the third place, is C' = 1101010000 |
| RdsWire.GroupOnAir | src/tsdr/radio/decoders/rds.py:421-523 | four such words, most significant bit first, each with repairable damage, make one group call with their upper sixteen bits as data |
| ByteRing.Ring.constructor | src/tsdr/devices/_jitter_buffer.py:41-46 | a new ring is empty |
| ByteRing.Ring.Reset | src/tsdr/devices/_jitter_buffer.py:56-59 | empties the ring |
| ByteRing.Ring.Write | src/tsdr/devices/_jitter_buffer.py:61-84 | the contents become the last capacity bytes of old contents and chunk, for every capacity and chunk |
| ByteRing.Ring.Pop | src/tsdr/devices/_jitter_buffer.py:86-97 | removes the oldest n bytes and returns them, or nothing if n is out of range |
| ByteRing.Ring.PeekTail | src/tsdr/devices/_jitter_buffer.py:99-107 | the newest n bytes, ring unchanged |
| ByteRing.CircleAppend | src/tsdr/devices/_jitter_buffer.py:77-84 | storing behind the contents, round the end or not, appends |
| ByteRing.CircleDrop | src/tsdr/devices/_jitter_buffer.py:73-76 | moving the head on drops the oldest bytes |
| ByteRing.NewestAreLast | src/tsdr/devices/_jitter_buffer.py:103-107 | going back from the tail finds the newest bytes |
| JitterRuns.WatermarksOrdered | src/tsdr/devices/_jitter_buffer.py:330-333 | underflow target <= prime target <= capacity for any product of duration and rate, truncation included |
| JitterRuns.AlwaysSound | src/tsdr/devices/_jitter_buffer.py:213-379 | in every reachable state that order holds, the contents fit, and a buffer not filling holds the underflow target |
| JitterRuns.StepSound | src/tsdr/devices/_jitter_buffer.py:326-349 | every single step keeps it |
| JitterRuns.DeliveredInOrder | src/tsdr/devices/_jitter_buffer.py:159-379 | over all interleavings: deliveries are disjoint pieces of the accepted stream in order, the buffer is its end, accepted = delivered + dropped + buffered |
| JitterRuns.RecordKeeps | src/tsdr/devices/_jitter_buffer.py:61-97 | every single step keeps that ledger |
| JitterRuns.FillingHolds | src/tsdr/devices/_jitter_buffer.py:265-270 | a filling buffer below the prime target neither delivers nor stops filling |
| JitterRuns.PrimedBeforeDelivery | src/tsdr/devices/_jitter_buffer.py:260-282 | after an underflow no read returns before the contents have reached the prime target |
| JitterRuns.ReleasedWithin | src/tsdr/devices/_jitter_buffer.py:254-283 | a reader of at most capacity bytes is released after at most as many non-empty writes as there was room |
| JitterRuns.NeverReleased | src/tsdr/devices/_jitter_buffer.py:254-283 | one of more than capacity bytes never is |
| JitterRuns.ReleasedExactly | src/tsdr/devices/_jitter_buffer.py:254-283 | release within capacity writes is certain if and only if count <= capacity |
| JitterRuns.WaitsForEver | src/tsdr/devices/_jitter_buffer.py:255-283 | such a reader exists: let in at capacity 200 for 150 bytes, never released once the capacity is 100 |
| JitterRules.MarksExactly | src/tsdr/devices/_jitter_buffer.py:326-336 | capacity is twice the bytes asked for, the prime target those bytes, the underflow target half of that, each rounded down, targets at least one; without capacity all zero |
| JitterRules.MarksAlways | src/tsdr/devices/_jitter_buffer.py:326-349 | in every reachable state they are so for the duration and rate set last, which the buffer remembers |
| JitterRules.ReadsExactly | src/tsdr/devices/_jitter_buffer.py:260-283 | which reads are answered, with what, and which wait |
| JitterRules.EntryExactly | src/tsdr/devices/_jitter_buffer.py:227-259 | a read goes on to wait if and only if it asks for 1 to capacity bytes |
| JitterRules.WritesExactly | src/tsdr/devices/_jitter_buffer.py:370-379 | a write keeps the newest bytes, and drops none before the capacity is reached |
| JitterRules.ContentsExactly | src/tsdr/devices/_jitter_buffer.py:159-349 | a reconfiguration keeps the newest bytes that fit, a start keeps none, a stop or failure touches nothing |
| JitterRules.FillingBegins | src/tsdr/devices/_jitter_buffer.py:159-349 | filling begins at a start, a delivery that leaves less than the underflow target, or a reconfiguration that does, and at nothing else |
| JitterRules.FillingEnds | src/tsdr/devices/_jitter_buffer.py:260-282 | it ends when a reader finds a primed buffer and does not drain it, and at nothing else |
| JitterRules.PrimedAnswers | src/tsdr/devices/_jitter_buffer.py:260-283 | until one of those, over any run, a primed buffer answers every read of at most its contents |
| JitterRules.RememberedExactly | src/tsdr/devices/_jitter_buffer.py:159-379 | in every reachable state the rebuffer count is the number of such deliveries since the last start, and stop flag and error are what happened since |
| JitterBuffer.JitterBuffer.constructor | src/tsdr/devices/_jitter_buffer.py:120-157 | sized at once if rate and duration are known, else empty and idle |
| JitterBuffer.JitterBuffer.ReconfigureLocked | src/tsdr/devices/_jitter_buffer.py:326-349 | new watermarks; the newest bytes that fit survive a change of capacity; filling if below the underflow target |
| JitterBuffer.JitterBuffer.Reallocate | src/tsdr/devices/_jitter_buffer.py:338-344 | the new ring holds the newest bytes that fit |
| JitterBuffer.JitterBuffer.SetPrefillSeconds | src/tsdr/devices/_jitter_buffer.py:285-289 | refuses durations that are not positive, else reconfigures |
| JitterBuffer.JitterBuffer.SetSampleRate | src/tsdr/devices/_jitter_buffer.py:291-295 | refuses negative rates, else reconfigures |
| JitterBuffer.JitterBuffer.Start | src/tsdr/devices/_jitter_buffer.py:159-186 | refused while a producer thread exists; otherwise empty, filling, without error |
| JitterBuffer.JitterBuffer.Stop | src/tsdr/devices/_jitter_buffer.py:188-211 | the stop flag is raised; the thread is forgotten only if it ended while waited for |
| JitterBuffer.JitterBuffer.TakeChunk | src/tsdr/devices/_jitter_buffer.py:370-379 | an empty chunk is an error, a chunk after stop is discarded, any other is written |
| JitterBuffer.JitterBuffer.ProducerRaisedError | src/tsdr/devices/_jitter_buffer.py:364-369 | the error is kept for the readers |
| JitterBuffer.JitterBuffer.EnterRead | src/tsdr/devices/_jitter_buffer.py:227-259 | zero, negative and too large counts are answered at once |
| JitterBuffer.JitterBuffer.ReadPass | src/tsdr/devices/_jitter_buffer.py:260-283 | one pass: error before stop before waiting before data, and the underflow that data may cause |
| JitterBuffer.KeptBytes | src/tsdr/devices/_jitter_buffer.py:340-344 | copying the newest bytes into the new ring is keeping the last bytes |
| WsjtSlots.Alignment | src/tsdr/radio/demodulators/wsjt.py:154-161 | slot 0 begins at a whole multiple of the slot time, the first not before the capture time, and the dropped prefix is the nearest number of samples to it, the even one of two |
| WsjtSlots.SlotsAreSliced | src/tsdr/radio/demodulators/wsjt.py:131-181 | the slots are the pieces of 15 s (7.5 s for FT4) of the audio from that sample on, each stamped with the time it begins, for any capture time |
| WsjtSlots.WSJTDemodulator.constructor | src/tsdr/radio/demodulators/wsjt.py:61-74 | a new demodulator has heard nothing and is not anchored |
| WsjtSlots.WSJTDemodulator.ResetSlotState | src/tsdr/radio/demodulators/wsjt.py:116-125 | forgets the stream and the anchor |
| WsjtSlots.WSJTDemodulator.AppendToBuffer | src/tsdr/radio/demodulators/wsjt.py:183-192 | the buffered audio grows by the chunk, also when the array is replaced |
| WsjtSlots.WSJTDemodulator.ShiftDown | src/tsdr/radio/demodulators/wsjt.py:175-178 | the in-place move of the tail keeps it, overlapping or not |
| WsjtSlots.WSJTDemodulator.CutSlot | src/tsdr/radio/demodulators/wsjt.py:172-181 | one more slot handed over, the buffer still what follows the slots |
| WsjtSlots.WSJTDemodulator.Anchor | src/tsdr/radio/demodulators/wsjt.py:154-161 | the first chunk's time fixes the grid |
| WsjtSlots.WSJTDemodulator.Demodulate | src/tsdr/radio/demodulators/wsjt.py:154-181 | after every chunk the slots handed over are all complete slots of the aligned stream, stamped in steps, and less than one is buffered |
| WsjtSlots.SlicesGrow | src/tsdr/radio/demodulators/wsjt.py:172-181 | later audio never changes slots already cut |
| WsjtSlots.NextSlice | src/tsdr/radio/demodulators/wsjt.py:173-180 | the front of the buffer is the next slot of the stream, with its time |
| WsjtSlots.RunDemodulator | src/tsdr/radio/demodulators/wsjt.py:131-181 | any chunking: the slots are exactly those pieces of the whole audio, with those stamps, on the grid of the first non-empty chunk; no audio, no slots |

## Left out

- Floating-point rounding, float32 storage and reordered (fast-math) sums: arithmetic is exact, over reals. The position decoder's zone index is exact in the original too, since it divides integers by 2^17.
- The table of zone-count latitudes is taken from the code; its shape is proved, that it agrees with the arc-cosine formula of RTCA DO-260B is not.
- Filter design (windowed sinc taps), the FM discriminator, timing recovery, AGC, Costas loop, FFTs and image modes: numerical heuristics without a crisp specification. Taps, and bits or samples, are inputs.
- Filter coefficients other than FIR (the IIR kernels).
- Resampler calls with no channels at all: the original fails on an unset variable; a chunk here has at least one.
- RDS: program service, radio text, program type, open data and TMC decoding; the loop that feeds bits, which is a run of bit events here.
- RDS fields are grouped into four records that are replaced as a whole; the shift register, the bit in progress and the counters are otherwise those of the original.
- FLEX: the text of messages inside a good frame, frame and message statistics.
- ADS-B: aircraft tracking and display, magnitudes from raw bytes, and any claim that detection does not depend on chunking (candidates stop 290 samples before the end, and the overlap carried is 288).
- ADS-B: known and pending addresses are lists; the order in which a Python set is copied into the array is not modelled. Magnitudes are unbounded integers.
- AdsbDetect.ScanComplete: does not promise messages that rank only by an address pending, or by one made known by replies that were not reported; whether they are accepted depends on what came between, and the scan says how.
- AdsbDetect.DetectBuffer: the same restriction of completeness.
- ADS-B: receiver filtering and overlapping transmissions. Noise is bounded, sample by sample; what its distribution makes likely is not modelled.
- Crc24Errors.FewDetected: does not say that four wrong bits are found too, so the distance of 112-bit messages proved is four; odd numbers and bursts are covered apart from that.
- FlexFrame.FLEXDecoder.DecodeFrame: does not model the messages made of the codewords, nor the count of frames that held any, which are formatting.
- FirKernels.FMChannelizer.Process: stops before the FM discriminator, which is numerical.
- RdsSync.RDSDecoder.ClearDecodedData: does not model the text, vote and table fields, which nothing modelled here reads.
- RdsSync.RDSDecoder.DecodeGroup: does not model programme type, name, text and traffic decoding, which are look-ups and votes.
- Jitter buffer: threads, sleeping and pacing, and how long stop waits for the thread; each critical section is one atomic step, and every interleaving of them is a run. Chunks that arrive after stop are not part of the accepted stream.
- WSJT: the filter in front of the slot cutter (see the kernels), decoding of a slot, and wall-clock formatting. Times are reals.
- Tuning, sockets, device drivers, user interface and stores.
