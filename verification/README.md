# A verified model of the TTA1 codec

This project models a lossless TTA1 audio codec in Dafny and proves that it is one. The codec
is a pair of adaptive machines, an encoder and a decoder, written separately, that never exchange
their state: inter-channel decorrelation, a recursive predictor (Stage B), an eight-tap sign-LMS
filter (Stage A), zigzag and adaptive Rice coding on one bit stream shared by all channels, then
a CRC-32 per frame, a seek table and a checked header. Each half must evolve exactly as the other
does. The proofs cover

- **losslessness**, from one codeword up to a whole password-protected file. For arbitrary
  32-bit samples, decoding returns the samples *if and only if* no residual is `i32::MIN`, whose
  zigzag wraps to zero; for samples that fit their bit depth no residual can get there, and a file
  of them is lossless *if and only if* no length is cut by a cast to 32 bits;
- **the two bit-level machines**: the 64-bit cached reader, with its "duplicate byte" refill, and
  the 32-bit flushing writer refine operations on a plain list of bits;
- **CRC-32** (section 8 of RFC 1952): slice-by-8 equals bitwise polynomial division, and damage
  confined to four consecutive bytes is always reported, for a frame, the header and the seek
  table;
- **bounds of every run**: residuals, Rice parameters and sums, LMS history and LMS weights;
- **framing and random access**: the seek table tiles the file, seeking is unique, the three
  nested lazy iterators return the same samples as eager decoding and touch no other frame, and
  a demuxer packet decodes like the frame it carries;
- **clock arithmetic**: when converting a sample count to a duration and back is exact.

## How it is built

Every operation the program performs by updating state is a class or an imperative method here:
`BitReader`, `BitWriter`, `RiceState`, `StageBState`, `LmsState`, `ChannelState`, `Crc32`, the
iterators and the demuxer are classes with the program's fields; decorrelation works in place on
an array; the frame, file and seek-table loops are loops. Each method is proved equal to a pure
function, and the theorems are proved about the functions. The functions are layered so that the
proofs can be: the interleaved encoder is shown to be decorrelation, then prediction, then Rice
coding (`Pipeline.EncodeLayers`), and the decoder the same layers in reverse
(`Pipeline.DecodeLayers`); each layer is inverted on its own. What round trips cannot see, because
both sides share it, is fixed by laws in plain numbers and by worked values: `LmsLaw`, `RiceLaw`,
`Crc32Division`, `PasswordLaw` and `Layout`.

| file | models |
|---|---|
| Words, Bytes, Bits, Word64, Results | wrap-around integers, bit lists, the 64-bit cache word, errors |
| BitReader, BitWriter | src/bitreader.rs; `BitWriter` of src/encoder.rs |
| Rice, RiceLaw, StageB, Lms, LmsLaw, Decorr | src/rice.rs, src/stage_b.rs, src/lms.rs, src/decorr.rs and their encoder mirrors |
| Pipeline, Channel, Frame, FrameTheorems | one frame, both directions |
| Bounds, HighParameter, LmsInvariants, FrameStates | what every run keeps |
| Password, PasswordLaw | src/password.rs |
| Crc32, Crc32Division, Format, Layout, Tagged | src/crc32.rs, src/header.rs; every byte, every error, tags in front |
| Encoder, Decoder, EndToEnd | whole files |
| CutFrames, CastLosses, LostSample, CodeLengths, EmptyPassword, Damage | when a file is lossless, and what lost, cut or damaged data does |
| Ranges, Suffixes, Demuxer, Duration | random access, the container demuxer, durations |

Conventions: `i32` and `u32` are bounded integers and every wrapping operation is written out;
bit lists and cache words are least significant bit first; bit-vectors appear only in the two
CRCs. The queue of channels is rotated: the head is the channel whose turn it is.

## Model

| member | source | states |
|---|---|---|
| BitReader.LoadWord | src/bitreader.rs:67-83 | the eight-byte refill keeps the cache invariant (every valid cache bit is the next stream bit, every stale bit above is the stream bit due there) although `pos` advances only past the bytes that fit; no unread bit is lost or repeated |
| BitReader.LoadByte | src/bitreader.rs:67-83 | the byte-wise tail refill keeps the same invariant and the same unread bits |
| BitReader.Drop | src/bitreader.rs:88-105 | shifting `k` valid bits out hands over exactly the next `k` unread bits and keeps the invariant |
| BitReader.CachedOnes | src/bitreader.rs:111-138 | a run of valid cached ones extends the count, and a valid cached zero after it ends the unary code; stale bits never influence either |
| BitReader.BitReader.constructor | src/bitreader.rs:41-48 | all bits of the body are unread |
| BitReader.BitReader.Refill | src/bitreader.rs:67-83 | afterwards 56 valid bits or the whole rest are cached, and the unread bits are unchanged |
| BitReader.BitReader.ReadBits | src/bitreader.rs:88-105 | returns what a `k`-bit read of the plain bit list returns; Truncated exactly when fewer than `k` bits remain |
| BitReader.BitReader.ReadUnary | src/bitreader.rs:111-138 | returns what a unary read of the plain bit list returns; Truncated exactly when no zero bit remains |
| BitReader.TakeUnaryCode | src/bitreader.rs:111-138 | a plain-list unary read inverts the unary code, whatever follows |
| BitReader.TakeBitsCode | src/bitreader.rs:88-105 | a plain-list `k`-bit read inverts the `k`-bit code, whatever follows |
| BitWriter.PutChunk | src/encoder.rs:325-341 | OR-ing a value in at the first free position appends its bits, given the bits above it are clear |
| BitWriter.Flush | src/encoder.rs:325-341 | the four-byte flush moves bits from cache to output and changes nothing written |
| BitWriter.PackAfterBytes | src/encoder.rs:361-368 | packing is byte-wise: whole bytes already in the output stay as they are |
| BitWriter.FlushByte | src/encoder.rs:361-368 | one step of the final padding loop emits exactly the next packed byte |
| BitWriter.UnaryWord | src/encoder.rs:344-359 | `(1 << u) - 1` over `u + 1` bits is `u` ones and a zero |
| BitWriter.BitWriter.PutBits | src/encoder.rs:325-341 | appends the low `k` bits; at most 31 bits stay pending |
| BitWriter.BitWriter.PutUnary | src/encoder.rs:344-359 | appends `u` ones and the terminator for every u32, in 32-bit words where needed |
| BitWriter.BitWriter.FinishByteAligned | src/encoder.rs:361-368 | returns all bits put, packed into bytes with zero padding |
| Bits.PackRoundTrip | src/encoder.rs:361-368 | packed bytes read back as the bits, then fewer than eight zeros |
| Layout.FirstBits | src/bitreader.rs:67-105 | the first 32 bits of a body are its first four bytes as a little-endian number |
| Rice.ZigzagRoundTrip | src/rice.rs:160-179 | dezigzag undoes zigzag exactly when the residual is not i32::MIN, which becomes zero |
| Rice.DezigzagRoundTrip | src/rice.rs:160-179 | zigzag undoes dezigzag exactly when the magnitude is not 2^32 - 1 |
| Rice.LowModeRead | src/rice.rs:95-142 | a low-mode codeword is read back with its trackers, whatever follows |
| Rice.HighModeRead | src/rice.rs:95-142 | an escape codeword is read back without the prefix or the bias wrapping |
| Rice.CodewordRoundTrip | src/encoder.rs:384-448 | for all trackers with k at most 31: the decoder reads the residual back, ends with the encoder's trackers and consumes exactly the codeword |
| Rice.ResidualsRoundTrip | src/rice.rs:95-142 | the same for any residual list over any number of channels taking turns on one stream |
| RiceLaw.FirstCodeword | src/encoder.rs:384-448 | a frame's first residual of magnitude v < 1024 takes exactly 11 bits, any other (v - 1024) / 1024 + 12, with a ten-bit tail |
| RiceLaw.FirstRead | src/rice.rs:26-35 | a frame's first codeword of u ones and a ten-bit tail reads as that tail, or as (u - 1) * 1024 + tail + 1024 |
| RiceLaw.FirstAdaptation | src/rice.rs:204-222 | after a first residual 0 the trackers are (9, 10, 15360, 16384); after a first 2000, (10, 10, 19359, 18335) |
| RiceLaw.EscapeRead | src/rice.rs:95-142 | an escape of any length from any trackers adds up (u - 1) * 2^k1, the tail and 2^k0 modulo 2^32 |
| RiceLaw.FeedbackLaw | src/rice.rs:109-128 | the sum loses a sixteenth and gains the magnitude, modulo 2^32 |
| RiceLaw.TopOfTheScale | src/rice.rs:43-74 | from k = 27 on the thresholds stand at 2^31, and k stops at 31 |
| RiceLaw.BottomOfTheScale | src/rice.rs:43-52 | k leaves 0 above a sum of 32 and never goes below |
| RiceLaw.TwoByteBody | src/decoder.rs:136-279 | the body 0xF7, 0x39 of a two-byte mono frame of one sample holds the sample 2000 |
| Rice.CanonicalAllSame | src/rice.rs:173-179 | a list reads back as itself exactly when it does not contain i32::MIN |
| Rice.RiceState.UpdateHigh | src/rice.rs:95-142 | STEP A changes the high-mode trackers by the feedback law and leaves the low-mode ones alone |
| Rice.RiceState.UpdateLow | src/rice.rs:95-142 | STEP B changes the low-mode trackers by the feedback law and leaves the high-mode ones alone |
| Rice.RiceState.DecodeOne | src/rice.rs:95-142 | the residual, the new trackers and the unread bits are those of the plain-list reader; Truncated exactly when the codeword is incomplete |
| ChannelSteps.RiceEncodeOne | src/encoder.rs:384-448 | appends the residual's codeword and leaves the trackers the decoder will have |
| StageB.PredictDecays | src/stage_b.rs:40-51 | without wrap-around the prediction is the previous value shrunk by one thirty-second toward zero, rounded down; -31 to 0 are fixed points |
| StageB.PredictLaw | src/stage_b.rs:40-51 | the prediction is 31 times the previous value, wrapped, divided by 32 and rounded down |
| StageB.StageBState.Step | src/stage_b.rs:40-51 | adds the prediction from the previous output and remembers the new output |
| Lms.DotWrapsOnce | src/lms.rs:83-87 | the step-by-step wrapping dot product is the exact integer dot product wrapped once |
| Lms.Predict | src/lms.rs:83-87 | the prediction lies in [-2^(31-shift), 2^(31-shift)) |
| LmsLaw.PredictionLaw | src/lms.rs:77-87 | the prediction is the wrapped sum of 256 (512) and the eight written-out products, divided by 512 (1024) and rounded down, each weight moved by its tap with the sign of the last residual |
| LmsLaw.StepLaw | src/lms.rs:68-116 | the rest of the step: next weights, shifted taps, 1, 2, 2, 4 with the sign of the old differences (zero positive), the residual remembered |
| LmsLaw.ThreeResiduals | src/lms.rs:68-116 | a two-byte unprimed channel turns residuals 0, 1026, 1038 into 0, 1026, 1056 |
| LmsLaw.ThreeSamples | src/decoder.rs:136-279 | with Stage B the same residuals are the samples 0, 1026, 2049 of a mono frame |
| LmsLaw.UnprimedPair | src/decoder.rs:145-156 | residuals 1024, 0 are the samples 1024, 1010 without a password |
| LmsLaw.PrimedPair | src/decoder.rs:145-156 | and 1024, 1138 when the last weight starts at 64 |
| Lms.StepRoundTrip | src/lms.rs:68-116 | encoder and decoder steps undo each other from one state |
| Lms.LmsState.AdaptAndPredict | src/lms.rs:77-87 | STEPs 1 and 2 in place: only the weights change, and the prediction is that of `LmsLaw.PredictionLaw` |
| Lms.LmsState.ShiftTails | src/lms.rs:90-93 | STEP 3 in place: taps 0 to 3 of both vectors take the old values of taps 1 to 4, taps 4 to 7 stay |
| Lms.LmsState.Regenerate | src/lms.rs:98-102 | STEP 4 in place: signed magnitudes 1, 2, 2, 4 from the old differences |
| Lms.LmsState.Difference | src/lms.rs:106-115 | STEP 5 in place, from the old values of taps 5 to 7 |
| Lms.LmsState.Step | src/lms.rs:68-116 | the decoder's step reconstructs the sample and advances the state by residual and sample |
| Lms.LmsState.StepEncode | src/encoder.rs:243-285 | the encoder's step emits the residual and advances the state by the same function |
| LmsInvariants.SidesAgree | src/encoder.rs:243-285 | an encoder and a decoder fed with its residuals go through the same states |
| LmsInvariants.HistoryInvariant | src/lms.rs:89-116 | after any number of steps on either side, modulo 2^32, taps 7 to 4 hold the latest sample and its first three backward differences, taps 3 to 0 the third differences of the four samples before |
| LmsInvariants.AdaptBounded | src/lms.rs:77-80 | bounded taps and weights make STEP 1 exact and raise the bound by at most 4 |
| LmsInvariants.TapsStayBounded | src/lms.rs:98-102 | |dx[i]| is at most 1 for taps up to 4, 2 for 5 and 6, 4 for 7, at every step |
| LmsInvariants.WeightsNeverWrap | src/lms.rs:77-80 | after n steps every weight is within 128 + 4n and the next STEP 1 does not wrap |
| Password.FrameWeightsNeverWrap | src/password.rs:62-74 | STEP 1 never wraps in a frame of any in-scope header, with any password or none |
| FrameStates.EncoderPredictors | src/encoder.rs:182-234 | the encoder's predictors at any point of an interleaved run are those a decoder rebuilds from the residuals emitted |
| FrameStates.DecoderPredictors | src/decoder.rs:136-279 | the decoder's predictors depend on the stream only through the residuals read |
| FrameStates.DealtEvenly | src/decoder.rs:136-279 | after k residuals the channel at place i of the queue has had (k + i) / n of them |
| FrameStates.EncoderChannels | src/encoder.rs:208-225 | in every state of an encoded frame each channel's filter is the filter of that channel's residuals alone |
| FrameStates.DecoderChannels | src/decoder.rs:136-279 | the same in every state of a frame decoded from any stream, with as many channels as at entry |
| FrameStates.FrameInvariants | src/lms.rs:77-116 | in every such state, for any in-scope header and any password or none, the history invariant holds, STEP 1 is exact and the history is at most a regular frame long |
| Password.Crc64 | src/password.rs:43-56 | the bit-serial loop computes the CRC-64 register with inverted ends |
| Password.DeriveQmPriming | src/password.rs:62-74 | the digest bytes in little-endian order, sign-extended |
| Password.EmptyPasswordPrimesNothing | src/password.rs:62-74 | the empty password yields zero priming |
| PasswordLaw.CheckValue | src/password.rs:43-56 | the digest of the characters 1 to 9 is 0x62EC59E3F1A4F00A, the check value of CRC-64/WE |
| PasswordLaw.PrimingOfDigits | src/password.rs:62-74 | the password of the characters 1 to 9 primes with 10, -16, -92, -15, -29, 89, -20, 98 |
| PasswordLaw.DigestPlaced | src/password.rs:43-56 | up to eight bytes enter the register at once, the first one highest |
| PasswordLaw.LanesAreTheDigest | src/password.rs:62-74 | the digest is the sum of (lane i mod 256) * 2^(8 i), and every lane is a signed byte |
| PasswordLaw.PrimingTellsApart | src/password.rs:62-74 | two passwords of one length of at most eight bytes prime alike only if they are equal |
| Decorr.InverseForward | src/decorr.rs:17-55 | the inverse cascade undoes the forward one on every i32 vector of every length |
| Decorr.ForwardInverse | src/decorr.rs:17-55 | and the forward cascade undoes the inverse |
| Decorr.ForwardEntries | src/decorr.rs:43-55 | each entry in terms of its two source samples, the top one included |
| Decorr.InverseEntries | src/decorr.rs:17-34 | each restored entry from its restored neighbour |
| Decorr.ForwardBounds | src/decorr.rs:43-55 | on in-range samples no difference wraps and the top channel lies between its two source samples |
| Decorr.ForwardInPlace | src/decorr.rs:43-55 | the in-place loop computes the forward cascade and touches nothing else |
| Decorr.InverseInPlace | src/decorr.rs:17-34 | the in-place loop computes the inverse cascade and touches nothing else |
| Pipeline.PredictorRoundTrip | src/encoder.rs:208-225 | Stage B and Stage A together: removing and restoring undo each other both ways and leave one state |
| Pipeline.PredictionRoundTrip | src/encoder.rs:182-234 | the prediction layer over all channels is a bijection of sample and residual lists |
| Pipeline.DecorrelationRoundTrip | src/encoder.rs:182-234 | the decorrelation layer is a bijection for every channel count |
| Pipeline.EncodeLayers | src/encoder.rs:182-234 | the interleaved encoder emits the Rice code of the residuals of the predictors |
| Pipeline.DecodeLayers | src/decoder.rs:136-279 | the interleaved decoder is: read all residuals, then rebuild; prediction never influences what is read |
| Pipeline.StepLockstep | src/decoder.rs:136-279 | one channel's turn: the decoder gets the same sample and the same Rice, LMS and Stage-B state, if and only if the residual is not i32::MIN |
| Pipeline.RunLockstep | src/decoder.rs:136-279 | over any run without an i32::MIN residual both sides hold the same channel states and the decoder consumes exactly the bits written |
| ChannelSteps.ChannelState.Decode | src/decoder.rs:136-279 | one mutable decoding step is the step function on state, stream and sample |
| ChannelSteps.ChannelState.Encode | src/encoder.rs:208-225 | one mutable encoding step is the step function on state, output and sample |
| ChannelSteps.ChannelState.constructor | src/decoder.rs:50-54 | frame entry: fresh trackers, zero history, primed weights |
| Frame.NewChannels | src/encoder.rs:182-234 | one separate fresh state per channel, all at frame entry |
| Frame.DecodeTurns | src/decoder.rs:136-279 | one slot: each channel's step in order from the shared stream, the other channels untouched |
| Frame.DecodeSlot | src/decoder.rs:136-279 | one slot read and decorrelated in place; earlier slots keep their values |
| Frame.DecodeBody | src/decoder.rs:136-279 | the slot loop computes the samples of the body, or Truncated when the bits run out |
| Frame.DecodeFrameInner | src/decoder.rs:93-305 | length checks, size gate, samples and checksum in the program's order, each with its error |
| Frame.EncodeSlot | src/encoder.rs:208-225 | one slot encoded channel by channel from scratch memory |
| Frame.LoadSlot | src/encoder.rs:205-208 | the scratch copy, decorrelated |
| Frame.EncodeOneFrame | src/encoder.rs:182-234 | the packed bits of the interleaved run followed by their checksum |
| FrameTheorems.FrameRoundTrip | src/encoder.rs:182-234 | for any priming and any i32 samples, the encoded frame decodes without error, to the samples rebuilt with each i32::MIN residual read as zero; these are its samples if and only if there is no such residual |
| FrameTheorems.BodyRoundTrip | src/decoder.rs:136-279 | the packed body, with its padding, always decodes, to the samples rebuilt from its residuals with i32::MIN read as zero |
| FrameTheorems.SamplesResidualsBijection | src/encoder.rs:182-234 | samples and residuals of a frame determine each other under any priming |
| FrameTheorems.ReadsFit | src/rice.rs:95-104 | every residual read consumes at least one bit |
| FrameTheorems.GateRejectsNothingDecodable | src/decoder.rs:118-134 | whatever the ungated loop can decode passes the size gate |
| FrameTheorems.PrimingNonInterference | src/decoder.rs:93-305 | with any two primings a frame gives the same error, or equally many samples rebuilt from one residual list |
| FrameTheorems.FrameBurstRejected | src/decoder.rs:281-301 | a frame that decodes, changed only inside four consecutive bytes of body and checksum, never decodes, with any priming |
| Bounds.ResidualBound | src/encoder.rs:208-225 | on in-range PCM every residual of a frame is below 2^23 (two bytes) or 2^26 (three bytes) in magnitude; i32::MIN never reaches the zigzag |
| Bounds.ResidualWithin | src/encoder.rs:243-285 | one step: neither predictor overflows from a state of an in-range frame |
| Bounds.SlotWithin | src/decorr.rs:43-55 | decorrelation of in-range samples stays within twice their range |
| Bounds.StepIdeal | src/encoder.rs:384-448 | for magnitudes below 2^m, m at most 27, one step follows the adaptation law without wrap, cap or saturation and stays bounded |
| Bounds.TrackersFollowIdeal | src/rice.rs:43-74 | the same over whole runs of any number of channels |
| Bounds.FrameTrackersFollowIdeal | src/rice.rs:18-35 | the same from frame entry for every m from 11 to 27: sums below 2^(m+4), k at most m - 1 |
| Bounds.InRangeMagnitudes | src/rice.rs:173-179 | in-range PCM gives magnitudes below 2^24 or 2^27 |
| Bounds.InRangeFrameFollowsIdeal | src/rice.rs:54-74 | encoding in-range PCM never wraps a sum and never meets the cap on k or the saturating shift |
| HighParameter.SeventeenReached | src/rice.rs:54-74 | seven in-range 24-bit samples, a square wave, drive k0 to 17 |
| Bounds.AnyStreamKeepsK | src/rice.rs:54-74 | on arbitrary bit streams both parameters stay at most 31 |
| Crc32.ShiftNLinear | src/crc32.rs:20-38 | division steps are linear over GF(2) |
| Crc32.SarwateStep | src/crc32.rs:91-94 | eight division steps are one table lookup and a shift |
| Crc32.TableRecurrence | src/crc32.rs:55-70 | the recurrence that fills table j + 1 from tables j and 0 gives the register after one more zero byte |
| Crc32.BuildTable | src/crc32.rs:20-38 | entry i is eight division steps on i |
| Crc32.BuildTables | src/crc32.rs:55-70 | entry i of table j is the register after byte i and j zero bytes |
| Crc32.Crc32.constructor | src/crc32.rs:84-89 | the initial register, with tables that hold what their recurrence promises |
| Crc32.SliceByEight | src/crc32.rs:101-120 | eight table lookups on a chunk equal eight bytes of bitwise division, from any register |
| Crc32.ByteStep | src/crc32.rs:91-94 | the byte-wise table step equals bitwise division of that byte |
| Crc32.FoldAppend | src/crc32.rs:101-120 | any split of the input gives the same register |
| Crc32.Crc32.UpdateByte | src/crc32.rs:91-94 | the register of bitwise division by one more byte |
| Crc32.Crc32.Update | src/crc32.rs:101-120 | slice-by-8 with its byte-wise remainder computes the register of bitwise division for every input length |
| Crc32.ComputeChecksum | src/crc32.rs:129-134 | the one-shot checksum |
| Crc32Division.CheckValue | src/crc32.rs:129-134 | the checksum of the characters 1 to 9 is 0xCBF43926 |
| Crc32Division.ShiftCoef | src/crc32.rs:17-38 | one division step multiplies the register polynomial by its variable modulo the generator with exponents 32, 26, 23, 22, 16, 12, 11, 10, 8, 7, 5, 4, 2, 1, 0 |
| Crc32Division.DivisionLaw | src/crc32.rs:74-126 | the input bits times the 32nd power, thirty-two ones in front, are a multiple of that generator plus the register; the checksum is the register with every bit turned over |
| Crc32.LeWordBytes | src/crc32.rs:129-134 | four bytes are recovered from their little-endian word |
| Crc32.WordBytesLe | src/crc32.rs:129-134 | a word is recovered from its little-endian bytes |
| Crc32.MatchesIffResidue | src/crc32.rs:84-126 | a stored checksum matches if and only if message and checksum together leave one fixed residue |
| Crc32.BurstChangesRegister | src/crc32.rs:84-126 | a change confined to four consecutive bytes always changes the register |
| Crc32.BurstDetected | src/crc32.rs:84-126 | a matching message and checksum never match after such a change |
| Format.HeaderRoundTrip | src/header.rs:892-940 | every in-scope header parses back from its bytes |
| Format.HeaderBurstRejected | src/header.rs:901-908 | an accepted header changed within a four-byte window of bytes 4 to 21 is refused with the checksum error |
| Layout.HeaderLayout | src/encoder.rs:155-164 | the 22 header bytes one by one: TTA1, five little-endian fields in order, the checksum of the first 18 |
| Layout.HeaderErrors | src/header.rs:916-929 | which error each bad field of a header with a good checksum gives |
| Layout.HeaderFaults | src/header.rs:893-908 | Truncated exactly for too few bytes, then InvalidMagic, then the checksum error |
| Layout.FrameErrors | src/decoder.rs:93-305 | a frame cut short or out of bits is Truncated, a complete one with a wrong checksum is a mismatch |
| Format.GeometryTiles | src/header.rs:292-303 | no frames exactly for an empty stream; otherwise the last frame has 1 to regular samples and all frames together the total |
| Format.EntriesRoundTrip | src/header.rs:983-986 | little-endian seek entries parse back |
| Format.ParseSeekTable | src/header.rs:962-1002 | one descriptor per frame with running saturating offset, or Truncated |
| Format.SeekTableRoundTrip | src/header.rs:962-1002 | an encoder's table parses back with its entries, marked good |
| Layout.Offsets | src/header.rs:994-999 | frame k starts after all frames before it, or at 2^64 - 1 once they reach that far |
| Format.SeekTableBurstFlagged | src/header.rs:974-978 | a good table changed within four consecutive bytes still parses but is marked bad |
| Format.RegistersAreIntegers | src/header.rs:974-978 | little-endian conversion to a CRC register and to an integer agree on which stored words are equal and are undone by the same bytes |
| Damage.DamagedHeader | src/header.rs:901-908 | four consecutive bytes behind the magic changed so that the header or its checksum differs: the file does not open |
| Damage.DamagedTable | src/decoder.rs:396-425 | four consecutive bytes changed so that a good seek table differs and the header does not: the file opens with the same header, marked unseekable |
| Damage.DamagedTableRefusesSeeks | src/decoder.rs:591-618 | and then every seek and every sample range inside the stream is refused, without decoding a frame |
| Damage.DamagedFrame | src/decoder.rs:281-301 | four consecutive bytes changed so that a frame that decodes differs and header and table do not: the file opens as before, but that frame and the whole decode fail |
| Damage.RegionDiffers | src/crc32.rs:84-126 | a region that a four-byte window reaches only in part differs in a four-byte window of its own |
| Damage.DamageReported | src/decoder.rs:439-468 | any change within four consecutive bytes behind the magic of a good tiled file, across borders too, is reported: it does not open, is unseekable, or does not decode |
| Damage.EncodedDamageReported | src/encoder.rs:106-180 | every encoded file is such a file |
| Encoder.ConcatChunks | src/encoder.rs:142-153 | the blocks cut from the samples are all of them, in order |
| Encoder.ChunksMatchGeometry | src/encoder.rs:130-153 | number and sizes of the blocks are the frame geometry |
| Encoder.EncodeFrames | src/encoder.rs:142-153 | the cursor loop encodes exactly those blocks |
| Encoder.EncodeInner | src/encoder.rs:106-180 | the input checks in order, then header, seek table and frames |
| Encoder.Encode | src/encoder.rs:63-70 | format 1, no priming |
| Encoder.EncodeWithPassword | src/encoder.rs:88-104 | format 2, primed by the password |
| Layout.EncoderErrors | src/encoder.rs:114-126 | which error each bad parameter gives, in which order, and that everything else is accepted |
| Decoder.NewWithPriming | src/decoder.rs:396-425 | opening: ID3v2 skip, header, password requirement, seek table, with every error |
| Decoder.OpenedValid | src/decoder.rs:396-425 | a file that opens has exactly the frames and sample counts its header calls for |
| Layout.OpeningErrors | src/decoder.rs:396-425 | opening stops at the first fault of tag, header, password and table |
| Layout.WindowErrors | src/decoder.rs:486-508 | an index past the table and a window past the file, each with its error |
| Layout.DecodingErrors | src/lib.rs:142-170 | a file decodes as badly as it opens, or as its first bad frame |
| Layout.PasswordNeeded | src/decoder.rs:396-425 | a file encoded under a password is refused without one |
| Tagged.TagIsSkipped | src/header.rs:832-850 | a complete ID3v2 tag, footer included, is skipped exactly |
| Tagged.CutTag | src/header.rs:832-850 | a tag longer than what is there is Truncated |
| Tagged.TagChangesNothing | src/decoder.rs:396-425 | a tag in front of a file moves every frame by its length and changes nothing else: same header, seekability, samples and errors |
| Decoder.Decoder.DecodeFrameAt | src/decoder.rs:486-508 | one frame or its error |
| Decoder.Decoder.DecodeAll | src/decoder.rs:439-468 | the concatenation of all frames in order, or the first error |
| Decoder.Decode | src/lib.rs:142-147 | open without priming, then all frames |
| Decoder.DecodeWithPassword | src/lib.rs:156-170 | open with the priming, dropped again for format 1 |
| EndToEnd.OpensEncoded | src/decoder.rs:396-425 | opening an encoded file finds its header and one descriptor per blob |
| EndToEnd.SeekTableTilesFile | src/encoder.rs:155-179 | the written table parsed back tiles the file from its own end to the end of the file, each window holding its blob |
| EndToEnd.FileRoundTrip | src/encoder.rs:106-180 | for any i32 samples an encoded file decodes to equally many samples, and to the same ones if and only if no frame has an i32::MIN residual |
| EndToEnd.InRangeFileRoundTrip | src/decoder.rs:439-468 | in-range samples of any in-scope header come back exactly, under any priming |
| EndToEnd.Lossless | src/lib.rs:142-147 | `decode` of `encode` returns the header fields and the PCM |
| EndToEnd.LosslessWithPassword | src/lib.rs:156-170 | the same under any password, decoding with the same one |
| EndToEnd.PasswordIgnoredForFormatOne | src/lib.rs:156-170 | on a format 1 file, password or not, the result is the same |
| LostSample.FirstResidual | src/encoder.rs:208-225 | an unprimed channel emits its first sample unchanged |
| LostSample.MinimumIsLost | src/encoder.rs:106-128 | encoding the one sample i32::MIN succeeds at every depth and rate, and decoding succeeds with the sample 0 |
| CutFrames.ReadResidualsMore | src/rice.rs:95-142 | bits after a complete run never change what was read |
| CutFrames.CutBody | src/decoder.rs:136-279 | no proper byte prefix of an encoded body holds all its samples |
| CutFrames.CutFrame | src/decoder.rs:112-134 | an encoded frame under any stored size below its own is Truncated |
| CutFrames.LongFileFails | src/encoder.rs:166-173 | a file with a blob of 2^32 bytes or more opens, and decoding it is Truncated |
| CutFrames.Outcome | src/encoder.rs:106-180 | what decoding an encoded file gives in every case, for any i32 samples: Truncated if a blob is too long for its entry, else as many samples as the header counts, and those encoded exactly when every block is clean |
| CutFrames.LosslessExactly | src/lib.rs:142-147 | for any i32 samples `decode` of `encode` is the identity if and only if both casts change nothing and no block has an i32::MIN residual |
| CutFrames.LosslessExactlyWithPassword | src/lib.rs:156-170 | the same under any password |
| CutFrames.InRangeLosslessExactly | src/lib.rs:142-147 | on samples of the declared width it is the identity if and only if the casts of the count and of every blob length change nothing |
| CutFrames.InRangeLosslessExactlyWithPassword | src/lib.rs:156-170 | the same under any password |
| CastLosses.CountIsLost | src/encoder.rs:127 | 2^32 mono samples of silence: encoding succeeds, the count wraps to 0, and decoding succeeds with no sample |
| CastLosses.LongBlob | src/encoder.rs:166-173 | six channels of 32770 samples whose one frame is 2^32 bytes or more |
| CastLosses.LongFile | src/encoder.rs:142-153 | those samples are one block, and it is clean |
| CastLosses.BlobIsLost | src/encoder.rs:166-173 | encoding them succeeds, and decoding is Truncated, though the count is exact |
| CodeLengths.ResidualsLength | src/encoder.rs:384-448 | a codeword is at most 32 bits longer than its magnitude, over any run |
| CodeLengths.ShortBlob | src/encoder.rs:166-173 | a frame of at most 2047 two-byte or 255 three-byte in-range entries always has a length its seek entry can hold |
| CodeLengths.ShortEncodable | src/encoder.rs:106-180 | for buffers or blocks of so many entries the length assumptions of losslessness follow from the input |
| CodeLengths.ShortLossless | src/lib.rs:142-147 | losslessness under conditions on the input alone |
| CodeLengths.ShortLosslessWithPassword | src/lib.rs:156-170 | the same under any password |
| EmptyPassword.SameBlobs | src/encoder.rs:182-205 | the frames under the empty password are those without one |
| EmptyPassword.FormatInHeader | src/encoder.rs:155-164 | headers that differ in the format only differ in its low byte and in the checksum |
| EmptyPassword.EmptyPasswordFile | src/encoder.rs:72-104 | the empty password changes the low format byte and the header checksum, always both, and nothing else in the file; errors are the same |
| Ranges.SeekFinds | src/decoder.rs:591-618 | a seek succeeds exactly for the samples of the stream, and frame and offset stand for the sample inside that frame |
| Ranges.SeekIsUnique | src/decoder.rs:591-618 | no other frame and offset stand for it |
| Ranges.FrameIter.Next | src/decoder.rs:1133-1156 | the next frame's result; an error ends the iteration |
| Ranges.SampleSkipIter.Next | src/decoder.rs:1180-1223 | the first frame without its prefix, all others whole |
| Ranges.SampleRangeIter.Next | src/decoder.rs:1239-1283 | takes exactly the head of what draining yields, one frame decoded per call, none once the range is complete; an error leaves nothing to come |
| Ranges.DecodeSampleRange | src/decoder.rs:785-794 | draining the three nested iterators yields the specified result through the specified frame decodes |
| Ranges.DrainIsSlice | src/decoder.rs:1239-1283 | draining yields the wanted slice of the frames, or their first error, and decodes no frame past the last one needed |
| Ranges.RangeIsSlice | src/decoder.rs:822-853 | a sample range is its slice of the overlapping frames, or the first error among them; no other frame is decoded |
| Ranges.RangeIsSliceOfAll | src/decoder.rs:822-853 | when the whole stream decodes, a sample range is the slice [start*nch, end*nch) of it |
| Ranges.RangeEdges | src/decoder.rs:822-845 | a turned or overlong range is refused, an empty one gives nothing, any other of an unseekable stream is refused, all without decoding a frame |
| Ranges.FramesSplit | src/decoder.rs:439-468 | decoding everything is decoding up to any frame, then from it |
| Suffixes.DecodeFromSample | src/decoder.rs:663-675 | draining the skipping iterator from a sample yields the specified result through the specified frame decodes |
| Suffixes.TailIsSuffix | src/decoder.rs:1180-1223 | draining to the end is eager decoding of the remaining frames without the prefix, error for error |
| Suffixes.FromSampleIsSuffix | src/decoder.rs:663-675 | decoding from a sample is its frame and all later ones without what comes before it, or the first error among them |
| Suffixes.FromSampleIsSuffixOfAll | src/decoder.rs:663-675 | when the whole stream decodes it is the suffix from entry sample * nch on |
| Suffixes.FromSampleEdges | src/decoder.rs:591-618 | an unseekable stream and a sample past the end are refused without decoding a frame |
| Demuxer.FrameCounts | src/header.rs:292-303 | every descriptor of an opened stream counts between 1 and regular samples |
| Demuxer.MiniFileDecodes | src/registry.rs:554-583 | a frame's mini-file opens and decodes to that frame's samples or error, under any priming that suits the format |
| Demuxer.PacketDecodesLikeFrame | src/registry.rs:554-583 | for format 1, decoding packet i equals decoding frame i |
| Demuxer.OpenDemuxer | src/registry.rs:422-511 | accepts exactly the files that parse and whose frames all lie inside them |
| Demuxer.TtaDemuxer.constructor | src/registry.rs:495-511 | starts at the first frame with time zero |
| Demuxer.TtaDemuxer.BuildSingleFrameFile | src/registry.rs:554-583 | a one-frame header with its checksum, a one-entry table with its checksum, the frame bytes |
| Demuxer.TtaDemuxer.NextPacket | src/registry.rs:594-620 | emits the current frame at time index * regular with its sample count as duration and moves on, or Eof; time and index stay in step |
| Demuxer.TtaDemuxer.SeekTo | src/registry.rs:631-661 | refuses a wrong stream and an unseekable one without moving; otherwise lands on the clamped frame and keeps time and index in step |
| Demuxer.TtaDemuxer.Drain | src/registry.rs:594-620 | playing on yields the packets of exactly the remaining frames in order; from the first frame each starts when those before it are over, together they last as long as the stream, and each holds as many samples as it lasts |
| Demuxer.WholeTimeline | src/registry.rs:594-620 | each time is the sum of the durations before it, and all durations add up to the total |
| Demuxer.PacketHolds | src/registry.rs:554-583 | under any suitable priming the packet's file announces its duration and decodes, if at all, to so many samples of each channel |
| Demuxer.LandsOnPlayingFrame | src/registry.rs:631-661 | for a time inside the stream the landed frame contains it |
| Demuxer.LandsAtTheEnds | src/registry.rs:631-661 | a time before the start lands on the first frame, one past the end on the last |
| Demuxer.TimesFit | src/registry.rs:528-535 | times stay between 0 and 2^33, far inside 64 bits |
| Duration.DurationIsFloor | src/decoder.rs:1323-1337 | for every rate but zero the duration is floor(n * 10^9 / rate) nanoseconds and well-formed |
| Duration.DurationRoundTrip | src/decoder.rs:1302-1337 | converting back gives n if and only if rate divides n * 10^9, and n - 1 otherwise |
| Duration.RoundTripLosesASample | src/decoder.rs:1302-1337 | one sample at 44100 Hz lasts a duration that converts to sample 0 |
| Duration.NextNanosecondIsExact | src/decoder.rs:1302-1337 | one nanosecond more always gives n |
| Duration.ConversionMonotone | src/decoder.rs:1302-1314 | conversion never runs backwards, at any 32-bit rate, zero included |
| Duration.ProductFits | src/decoder.rs:1302-1314 | the 128-bit product never saturates, at any 32-bit rate |
| Duration.IndexIsFloor | src/decoder.rs:1302-1314 | the index is floor(ns * rate / 10^9), or 2^64 - 1 if that is smaller; at rate zero both conversions give zero |

Where code and documentation disagree, the model follows the code:

- src/decoder.rs:714-715 and src/decoder.rs:868-869 say that the total duration maps back to the
  end of the stream; it maps to one sample less whenever the rate does not divide `total * 10^9`
  (`Duration.DurationRoundTrip` gives the exact condition, `Duration.RoundTripLosesASample` an input).
- src/encoder.rs:80-83 says that under an empty password only the header's format field differs
  from an unprotected file. The header checksum always differs with it; everything else is the
  same (`EmptyPassword.EmptyPasswordFile`).
- src/rice.rs:59-60 says that a valid stream never drives `k` above about 16. Seven in-range 24-bit
  samples reach 17 (`HighParameter.SeventeenReached`); the proved bounds are 23 for two-byte and 26
  for three-byte samples.
- `dezigzag(zigzag(e)) == e` fails for `e == i32::MIN` (`Rice.ZigzagRoundTrip`), and the encoder does
  not check sample ranges: the one-sample input `i32::MIN` is accepted and decodes to 0
  (`LostSample.MinimumIsLost`).

## Left out

- src/trace.rs, benchmarks, examples and fuzz harnesses: drivers and debug output.
- src/trailers.rs and `scan_trailers`: single-pass tag scanning, apart from the codec.
- The typed wrappers of src/header.rs and src/decoder.rs: one range check each.
- src/tables.rs: reading the CSV files; their values are constants of `Lms`.
- src/registry.rs beyond the demuxer: registration, `probe`, the packet-level decoder and encoder,
  sample-format labels and `duration_micros`.
- `pack_pcm`, allocation hints and `size_hint`.
- The time-keyed wrappers: each is one conversion and one call of an operation that is modelled.
- Width of the unary count: `ReadUnary` counts without bound; the program's u32 count overflows
  only on bodies of 2^32 bits or more.
- Width of byte offsets: `fileOffset + diskSize` is exact here; in `decode_all` the u64 sum can
  overflow only on seek tables whose offsets saturate, with more than four billion entries. The
  saturation itself is modelled.
- 32-bit targets: `usize` is taken to be 64 bits wide or more.
- The u64 cache of the bit reader and writer is the list of its 64 bits, `bcount |= 56` is
  `56 + bcount % 8`, and trailing ones are counted bit by bit.
- The branches of `rice_encode_one` for `k >= 32`: never taken, because `k` is at most 31 in every
  reachable state (`Rice.AdaptK`, `Bounds.AnyStreamKeepsK`).
- The decoder object is a value: none of its operations updates it but the priming of
  `decode_with_password`, which replaces it. The output buffer after an error is unspecified.
- Files of 2^64 bytes or more: `EndToEnd.Lossless` and `CutFrames.LosslessExactly` assume a file
  shorter than that. The two casts to 32 bits of src/encoder.rs:127 and src/encoder.rs:168 are
  modelled. `CastLosses` has an input for each at which the stream is lost; the one for the blob
  length is not of the declared width, and no in-range input is exhibited for that cast.
- Realistic bounds on the length of a blob: `CodeLengths` bounds each codeword by itself, which
  covers frames of 255 or 2047 entries; how the adaptation limits the sum of codeword lengths is
  not modelled.
- The compile-time CRC tables are built by the constructor of each `Crc32` here.
