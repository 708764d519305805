# Verification of the media path

A Dafny model of the sequence-numbered media path of rtp-engine, an RTP media engine, with proofs
that hold for all inputs, all runs and all reachable states. `dafny verify dfyconfig.toml` checks all of it.

Each component has its state and its steps as mathematical functions, lemmas about whole runs of
those functions, and, where the program updates objects in place, classes whose methods are proved
to do to their fields exactly what the functions say. What is proved of runs therefore holds of the
objects.

| component | functions and runs | in place |
|---|---|---|
| SRTP and SRTCP (RFC 3711) | `ReplayWindow`, `SourceTable`, `Srtp`, `SrtpIv`, `SrtpReplay`, `SrtpEncryption`, `SrtpEndToEnd`, `SrtcpEndToEnd` | `SrtpContext` |
| G.722 sub-band ADPCM | `G722`, `G722Coder`, `G722Runs`, `G722Bank`, `G722Fidelity`, `G722Adaptation` | `G722Codec` |
| Jitter buffer | `Jitter`, `JitterRuns`, `JitterWait`, `JitterInOrder` | `JitterBuffer` |
| Headless stream | `StreamConfig`, `StreamReceiver`, `StreamReceiverRuns`, `StreamGates`, `StreamSender`, `StreamSenderRuns`, `StreamDtmf`, `StreamDtmfClock`, `StreamDtmfPayload`, `StreamNetwork`, `StreamAudio`, `StreamLineup`, `StreamAudioInOrder`, `StreamAudioDigit`, `StreamDtmfEndToEnd`, `StreamDtmfInOrder`, `StreamDtmfWrap`, `StreamSources` | `StreamCore` |
| RTP header codec (RFC 3550) | `RtpHeader` | `RtpHeader` |
| Receive statistics (RFC 3550) | `RtpStats` | `RtpStats` |

`Bytes` and `SequenceNumbers` are shared; the nearest-cycle lemma of the latter serves the three
places where the program extends a 16-bit sequence number.

AES in counter mode and HMAC-SHA1 are function parameters: a keystream byte for each position of
each initialization vector, and a tag for each byte string. Nothing is assumed of them but that they
are functions; that a forged tag is not accepted is a premise of the end-to-end theorems, on stray
datagrams only. Time is an input in nanoseconds, and need not go forward unless a lemma says so.

## What the proofs found

- **Late packets and the cycle counter of the jitter buffer** (src/jitter.rs:188-200). A packet
  dropped as late still moves the cycle counter. If it belongs to another 2^16 cycle than the last
  packet buffered, the next packet is numbered a cycle off. A cycle too low, it is taken for a
  restarted sender and the buffer is cleared (`LateDropAcrossCyclesRestarts`); a cycle too high, it
  is filed far ahead of its place (`LateDropAcrossCyclesRunsAhead`). `NumberingIff` says that among
  packets within 2^15 of each other nothing else makes numbering go wrong; `LateDropIsReachable` and
  `RunningAheadIsReachable` show how little it takes.
- **Digits and the audio around them** (src/stream.rs:517-551, 583; src/jitter.rs:274-298). The packets
  of a digit take sequence numbers but do not reach the jitter buffer of the receiver, which takes
  them for lost. A digit of n calls is n + 2 packets, the last being sent three times, so between two frames it is played as
  n + 2 concealments for n calls of time: two frames of delay more with each digit, and n + 2 packets
  counted as lost, though nothing was (`DigitIsConcealed`, `OneCallIsThreeLost`). When the packets are more
  than max(1, max_packets) they are skipped. `FramesArePlayed` says number by number what is played,
  `OnlyFramesIff` when it is the frames alone.
- **Digits after a timestamp wrap, or after a long pause** (src/stream.rs:423-431, 569-577). The event
  timestamp is converted from the audio timestamp after that has wrapped, so at the wrap it falls. The
  receiver takes the fall for a wrap of the event clock only when it is more than 2^31, modulo 2^32;
  otherwise it takes the next digit for a late repeat and does not report it. `ClockTellsIff` is the exact
  condition for every pair of clocks and any two presses, `EveryDigitIff` the same for whole runs. With an
  event clock that is the audio clock or a multiple of it the wrap does not matter, but the pause does:
  a digit is told from the one before exactly when the event ticks between them are, modulo 2^32, less
  than 2^31 (`WholeClocksTellIff`), so after a pause of 2^31 to 2^32 event ticks, which begins at 12.4
  hours of a 48 kHz event clock, digits are not reported (`PauseSilences`, `DigitAfterPauseIsLost`). An event
  clock of at most half the audio clock never meets the condition across a wrap, for presses within 2^32
  audio ticks (`SlowEventClockIff`, `WrapSilences`), among them the 8 kHz events that go with Opus by
  default (`SecondDigitIsLost`). Of the others some do and some do not, slower or faster
  (`NotBySpeedAlone`). Within one cycle of the audio timestamp every clock of 50 Hz or more does, for
  presses less than 2^31 event ticks apart (`OneCycleTells`).
- **A refused datagram may leave a trace** (src/stream.rs:329-330 says a refused datagram changes no
  state; the model follows the code). The first datagram starts the clock of the timeout even when
  refused, and under SRTP a datagram that opens but is then refused has used up its index:
  `RefusedChangesNothing` says exactly what moves and when, `RefusedIsSpent` that a repeat is then a
  replay, and `RefusedLeavesATrace` is an instance.
- **Statistics before the first cycle** (src/rtp/stats.rs:127-129). A packet late from before
  sequence number 0 of the first cycle underflows the cycle counter and becomes the highest of all.
  `HighestIsRightIff` gives the exact condition, `LatePacketBeforeTheFirst` the run.
- **Premises the SRTP code rests on.** The sender moves its rollover counter only from 0xFFFF to 0
  exactly (src/srtp.rs:275), so it must number consecutively, as the stream provably does
  (`Numbering`). The first packet a receiver sees must have ROC 0, and each later one be strictly
  within 2^15 of the highest; `NearestCycle` and `HalfwayIsAmbiguous` show the bound is tight.

## Model

| member | source | states |
|---|---|---|
| SequenceNumbers.NearestCycle | src/srtp.rs:138-153 | the guess at the cycle of a sequence number recovers the true index exactly when that is strictly within 2^15 of the reference, or at 2^15 exactly with no wrap in between; the one lemma behind the three copies of the guess |
| SequenceNumbers.HalfwayIsAmbiguous | src/srtp.rs:138-153 | 2^15 ahead and across a wrap the guess is a cycle off, so the bound cannot be widened |
| ReplayWindow.AdmitsIff | src/srtp.rs:75-84 | the window admits an index exactly when it is not in the set received and fewer than 64 behind everything in it (section 3.3.2 of RFC 3711) |
| ReplayWindow.AcceptRefines | src/srtp.rs:87-105 | accepting adds the index to the unbounded set that the bitmap stands for: highest is its maximum, bit b says whether highest - b is in it |
| ReplayWindow.AcceptedIsSpent | src/srtp.rs:75-105 | an index once accepted is not admitted again |
| ReplayWindow.OfferRefines | src/srtp.rs:75-105 | admit-then-accept keeps the bitmap standing for the set of all that was offered |
| ReplayWindow.RunRefines | src/srtp.rs:60-105 | over any run the 64-bit window decides as if it remembered every index ever offered |
| SrtpReplay.RefusedChangesNothing | src/srtp.rs:297-354 | a refused packet leaves the source table as it was |
| SrtpReplay.OpensOnce | src/srtp.rs:297-354 | a packet just accepted is refused as a replay when it comes again, and then changes nothing |
| SrtpReplay.AcceptedIsNew | src/srtp.rs:297-363 | an accepted packet has an index its source never used; it joins the history of that source and no other, and no counter goes back |
| SrtpReplay.ReachableTracks | src/srtp.rs:297-363 | after any run of arbitrary bytes: at most 64 distinct sources, each with highest == roc * 2^16 + s_l and a bitmap that is right |
| SrtpReplay.NothingIsForgotten | src/srtp.rs:356-363 | over any continuation of any run no source is lost and none goes back |
| SrtpReplay.AtMostOnce | src/srtp.rs:297-363 | over any run of arbitrary bytes no (SSRC, ROC, SEQ) is accepted twice |
| SrtpReplay.RtcpAcceptedIsNew | src/srtp.rs:398-452 | an accepted SRTCP packet has an index new to its source and adds it to that source alone |
| SrtpReplay.RtcpRefusedChangesNothing | src/srtp.rs:398-452 | a refused SRTCP packet leaves the table as it was |
| SrtpReplay.RtcpReachableTracks | src/srtp.rs:398-452 | after any run every SRTCP window is right about its source, and there are at most 64 |
| SrtpReplay.RtcpNothingIsForgotten | src/srtp.rs:398-452 | over any continuation of any run no source is lost and no SRTCP window goes back |
| SrtpReplay.RtcpAtMostOnce | src/srtp.rs:398-452 | over any run of arbitrary bytes no (SSRC, SRTCP index) is accepted twice |
| SrtpReplay.NoRoomIff | src/srtp.rs:316-319 | over any run a new source is refused for want of room exactly when packets of 64 others have been accepted |
| SourceTable.RememberLookup | src/srtp.rs:356-363 | storing a source changes what is known of it and of no other |
| SourceTable.RememberWellFormed | src/srtp.rs:356-363 | the table keeps distinct sources, never more than 64, and loses none |
| SourceTable.HasRoomIff | src/srtp.rs:316-319 | there is room for the sources listed and, while they are fewer than 64, for any other |
| SrtpEndToEnd.SealedOpens | src/srtp.rs:260-354 | a sealed packet carries its sequence number and SSRC, authenticates under its ROC, and opens to the packet |
| SrtpEndToEnd.KeystreamCancels | src/srtp.rs:280-283 | encrypting twice with one keystream gives back the packet |
| SrtpEncryption.XorIsSameIff | src/srtp.rs:280-283 | a byte stays as it is under the keystream exactly where the keystream is 0 |
| SrtpEncryption.MaskedIsClearIff | src/srtp.rs:280-283 | so a byte after the header goes out as it was exactly where its keystream byte is 0 |
| SrtpEncryption.ProtectedIsSealed | src/srtp.rs:260-289 | a protected packet: the header in the clear, byte p after it the exclusive or of the packet with keystream byte p - n under the vector of its own SSRC, ROC and sequence number, and the tag over all of that and the ROC |
| SrtpEncryption.OutgoingIsSealed | src/stream.rs:580-591 | so is the n-th datagram of a stream, under ROC || SEQ == seq0 + n |
| SrtpEncryption.AcceptedIsUnmasked | src/srtp.rs:297-354 | what is handed over of an accepted packet: the same header, every byte after it unmasked in the same way, the tag gone |
| SrtpEncryption.ProtectedRtcpIsSealed | src/srtp.rs:366-395 | a protected report: 8 bytes in the clear, the rest masked byte by byte, then the E flag set with the index, and the tag over all of that |
| SrtpEncryption.AcceptedRtcpIsUnmasked | src/srtp.rs:443-451 | an accepted report is handed over as it is when its E flag is clear and unmasked byte by byte when it is set |
| SrtpEndToEnd.SenderCounts | src/srtp.rs:271-280 | numbering consecutively, the sender is at ROC || SEQ == seq0 + n after n packets, in 48 bits |
| SrtpEndToEnd.WireIndex | src/srtp.rs:260-289 | the k-th packet goes out sealed under the ROC of index seq0 + k |
| SrtpIv.SaltingIsXor | src/srtp.rs:474-489 | mixing the salt into the block byte by byte is the 128-bit exclusive or with k_s * 2^16 |
| SrtpIv.RtpIvIsTheFormula | src/srtp.rs:474-489 | as a 128-bit number the block is (k_s * 2^16) XOR (SSRC * 2^64) XOR (i * 2^16) with i = ROC || SEQ: the formula of section 4.1.1 of RFC 3711 |
| SrtpIv.RtcpIvIsTheFormula | src/srtp.rs:491-502 | the same with the SRTCP index |
| SrtpEndToEnd.RtpIvInjective | src/srtp.rs:474-489 | the initialization vector determines SSRC, ROC and sequence number |
| SrtpEndToEnd.IvsRepeatEvery48Bits | src/srtp.rs:474-489 | two packets of a stream share an initialization vector exactly when they are a multiple of 2^48 packets apart |
| SrtpEndToEnd.GuessIsRight | src/srtp.rs:138-153 | within 2^15 of the highest index delivered the guessed ROC is the true one |
| SrtpEndToEnd.GuessIsRightIff | src/srtp.rs:138-153 | of an index less than a cycle from the highest the guess is right exactly when it is strictly within 2^15, or at 2^15 with no wrap between |
| SrtpEndToEnd.Receive | src/srtp.rs:297-354 | one delivery: accepted, as the exact bytes protected, iff new and fewer than 64 behind; otherwise a replay; (roc, s_l) is the maximum index delivered |
| SrtpEndToEnd.ReceiveStray | src/srtp.rs:297-354 | malformed, forged or foreign datagrams change nothing known of the source |
| SrtpEndToEnd.EndToEnd | src/srtp.rs:260-354 | for every schedule of loss, duplication and reordering within 2^15 of the highest, mixed with stray datagrams, every arrival is handled as `Receive` says (sections 3.3 and Appendix A of RFC 3711) |
| SrtpEndToEnd.InSequenceDelivers | src/srtp.rs:260-354 | a network that loses nothing and keeps the order, strays or none, is within all those bounds: every packet arrives as it was sent, for as long as the 48-bit index lasts |
| SrtcpEndToEnd.SealedRtcpOpens | src/srtp.rs:366-452 | a sealed report carries its index and SSRC, authenticates, and opens to the report |
| SrtcpEndToEnd.RtcpWireIndex | src/srtp.rs:366-395 | the k-th report goes out under index k, modulo 2^31 |
| SrtcpEndToEnd.RtcpIvsRepeatEvery31Bits | src/srtp.rs:491-502 | two reports for one SSRC share an initialization vector exactly when a multiple of 2^31 apart |
| SrtcpEndToEnd.RtcpEndToEnd | src/srtp.rs:366-452 | for every schedule every report comes out as it went in when new and fewer than 64 behind those of its source, and is refused as a replay otherwise; forgeries are refused |
| SrtpContext.SrtpContext.ProtectRtp | src/srtp.rs:260-289 | updates the sender state and returns the sealed packet, or the error with nothing changed |
| SrtpContext.SrtpContext.UnprotectRtp | src/srtp.rs:297-354 | updates the source table and returns the packet, or the error; the function the run lemmas are about |
| SrtpContext.SrtpContext.RememberSource | src/srtp.rs:356-363 | stores a source in its place, or appends it |
| SrtpContext.SrtpContext.ProtectRtcp | src/srtp.rs:366-395 | numbers, seals and counts a report |
| SrtpContext.SrtpContext.UnprotectRtcp | src/srtp.rs:398-452 | authenticates, checks the window and opens a report |
| SrtpContext.SrtpContext.OpenRtcp | src/srtp.rs:443-451 | strips the trailer and decrypts when the E flag is set |
| SrtpContext.FindSource | src/srtp.rs:316 | the walk over the table finds the first entry for an SSRC |
| SrtpContext.MixSalt | src/srtp.rs:474-489 | the salt is mixed into the block in place |
| SrtpContext.BuildIv | src/srtp.rs:474-489 | builds the block of section 4.1 of RFC 3711 |
| SrtpContext.BuildRtcpIv | src/srtp.rs:491-502 | builds the same for SRTCP |
| RtpHeader.PrintsBack | src/rtp/header.rs:55-155 | the header of every accepted packet prints to the bytes it was parsed from |
| RtpHeader.PacketPrintsBack | src/rtp/header.rs:204-221 | every accepted packet re-serializes to itself |
| RtpHeader.ParsesBack | src/rtp/header.rs:55-155 | a well-formed header followed by any payload parses back to itself |
| RtpHeader.ParsesBackIff | src/rtp/header.rs:55-155 | it does so exactly when it is well formed: version 2, CSRC and extension fields that agree with their flags and counts, a 7-bit payload type |
| RtpHeader.PacketParsesBackIff | src/rtp/header.rs:204-221 | the same for packets |
| RtpHeader.FieldsAreInPlace | src/rtp/header.rs:55-118 | every field of a header that parses is where section 5.1 of RFC 3550 has it |
| RtpHeader.LengthsAgree | src/srtp.rs:177-185 | for every version-2 byte string the length computed by the SRTP code succeeds exactly when the parser does, and is the parsed header length |
| RtpHeader.ParserIsLocal | src/rtp/header.rs:55-118 | the parser reads nothing beyond the header it returns |
| RtpHeader.HeaderStaysClear | src/srtp.rs:177-185 | protection leaves the header as it parses and its length on both sides of encryption |
| RtpHeader.Parse | src/rtp/header.rs:55-118 | parses in a loop over the CSRCs, with `None` for every malformed input |
| RtpHeader.ParseCsrcs | src/rtp/header.rs:88-102 | the CSRC list, word by word |
| RtpHeader.Print | src/rtp/header.rs:121-155 | appends the fields in order to a buffer |
| RtpStats.HighestIsRightIff | src/rtp/stats.rs:119-144 | one packet within 2^15 of the highest leaves the highest right exactly when its index is not before cycle 0 |
| RtpStats.LatePacketBeforeTheFirst | src/rtp/stats.rs:119-144 | packet 0 and then the one before it: the highest becomes 0xFFFFFFFF |
| RtpStats.TrackingIsExact | src/rtp/stats.rs:107-145 | over every run within those bounds highest, expected and received are the true ones (Appendix A.1 of RFC 3550) |
| RtpStats.LossIsWhatIsMissing | src/rtp/stats.rs:78-96 | when no packet repeats and none is older than the first, loss is the number of indices missing between first and highest, and the loss fraction of a report fits 8 bits (Appendix A.3 of RFC 3550) |
| RtpStats.LossIs | src/session.rs:1682-1690 | whatever repeats: the numbers from the first packet to the highest less the packets that came, nothing when more came than that, and the fraction is that in 256ths of those numbers, rounded down |
| RtpStats.FractionAlwaysFits | src/session.rs:1682-1690 | whatever arrives, repeated or out of all bounds, the loss fraction of a report fits its 8 bits |
| RtpStats.RtpCounters.RecordReceived | src/rtp/stats.rs:107-145 | the counters move as the tracking the lemmas are about |
| RtpStats.RtpCounters.RecordSent | src/rtp/stats.rs:98-102 | counts a packet and its bytes, and nothing else |
| RtpStats.RtpCounters.UpdateJitter | src/rtp/stats.rs:147-153 | a sixteenth of the way to the new difference, rounded down: never past it, never away from it |
| RtpStats.RtpCounters.Snapshot | src/rtp/stats.rs:78-96 | works out and keeps the loss, and reports every counter |
| RtpStats.RtpCounters.Reset | src/rtp/stats.rs:156-167 | every counter is as new |
| G722.ScaleFactor | src/codec/g722.rs:122-133 | for every log scale factor in range: shift amounts legal, table index in range, det in [32, 16384] (low) or [8, 16384] (high) |
| G722.UpPol2 | src/codec/g722.rs:145-151 | the second pole coefficient stays within 12288 |
| G722.UpPol1 | src/codec/g722.rs:153-158 | the first stays within 15360 - a2: the stability triangle |
| G722.FilterPoles | src/codec/g722.rs:180-183 | the pole section fits 16 bits, its products 32 |
| G722.FilterZeros | src/codec/g722.rs:185-190 | the sum of the zero taps stays within 2^15 a tap |
| G722.IntervalCode | src/codec/g722.rs:250 | low band codes 0 to 3 are never emitted |
| G722.PredictedInRange | src/codec/g722.rs:137-194 | block 4 keeps every signal and history entry in 16 bits and the poles stable, whatever difference it is fed |
| G722Coder.SumOdd | src/codec/g722.rs:235-239 | every partial sum of the filter fits 32 bits |
| G722Coder.Analyze | src/codec/g722.rs:235-241 | sub-band samples stay within 25928 |
| G722Coder.Codes | src/codec/g722.rs:243-265 | low codes lie in 4..63, high codes in 0..3 |
| G722Coder.EncodePair | src/codec/g722.rs:230-272 | a pair keeps the state in range and makes one byte |
| G722Coder.DecodeByte | src/codec/g722.rs:334-366 | any byte at all keeps the state in range and makes two 16-bit samples |
| G722Runs.ReachableInRange | src/codec/g722.rs:230-375 | every state reachable by any PCM into the encoder or any bytes into the decoder is in range, all arithmetic in i32 |
| G722Runs.ChunksDoNotMatter | src/codec/g722.rs:279-299 | cutting PCM anywhere, odd lengths included, changes no byte and no later state |
| G722Runs.NoSampleIsLost | src/codec/g722.rs:279-299 | two samples a byte, and at most one held back |
| G722Runs.LockstepByte | src/codec/g722.rs:334-353 | decoding a byte leaves the decoder bands as the encoder bands after making it |
| G722Runs.Lockstep | src/codec/g722.rs:230-375 | after any PCM and all the bytes it makes, the decoder bands are the encoder bands |
| G722Runs.IntervalIs | src/codec/g722.rs:244-249 | the search finds the decision interval the magnitude lies in |
| G722Runs.PointsInside | src/codec/g722.rs:23-58 | both reconstruction points of every interval are opposite and strictly inside it |
| G722Runs.LowQuantizerError | src/codec/g722.rs:244-252 | outside overload the 6-bit reconstruction is off by at most the width of the interval, for both signs despite floor shifts and for every reachable scale factor |
| G722Runs.HighQuantizerError | src/codec/g722.rs:257-266 | the same for the inner interval of the high band |
| G722Runs.BandFidelity | src/codec/g722.rs:230-353 | from sample to sample: outside overload and clipping the decoder sub-band samples are within an interval width of the encoder sub-band samples |
| G722Bank.BackwardsOfForwardsWeights | src/codec/g722.rs:21 | the twelve coefficients one way and then the other: their correlation with themselves, of which the middle is the sum of their squares, 16779510, and all the rest together 38238 |
| G722Bank.BankReconstructs | src/codec/g722.rs:231-241 | any PCM split and joined again: with every pair comes out the pair of eleven before, first sample first, each off by at most a 400th of the loudest of the 23 pairs around it and 9 more |
| G722Bank.Reconstructs | src/codec/g722.rs:355-364 | the same for sub-bands that are each pair d off, with 4 d more |
| G722Bank.LowIsLow | src/codec/g722.rs:231-241 | a steady sound is all in the low band, at half its level |
| G722Bank.HighIsHigh | src/codec/g722.rs:231-241 | one at half the sampling rate is all in the high band |
| G722Fidelity.CodecReconstructs | src/codec/g722.rs:230-375 | end to end: whatever PCM a new encoder is given and a new decoder makes of the bytes, every sample comes back eleven pairs later in its place, within those bounds, as long as the sub-bands of the twelve pairs up to it are coded within d |
| G722Fidelity.CodableIsWithin | src/codec/g722.rs:230-353 | and they are, outside overload and clipping, for d the widths of the two decision intervals |
| G722Adaptation.UpPol2Is | src/codec/g722.rs:145-151 | the second pole coefficient moves as the recommendation has it in exact arithmetic, but for 2 in 2^14 |
| G722Adaptation.UpPol1Is | src/codec/g722.rs:153-158 | so does the first, but for 1 |
| G722Adaptation.UpZeroIs | src/codec/g722.rs:160-167 | and each zero coefficient: 255/256 of itself and a step with the signs of two differences, or only the decay when the newest is nothing |
| G722Adaptation.CoefficientsAre | src/codec/g722.rs:137-173 | those are the coefficients after block 4, by the signs of the histories as they then are |
| G722Adaptation.PredictionIs | src/codec/g722.rs:137-193 | the histories move on by one with what was reconstructed in front, and the prediction is the sum over two poles and six zeros within 8, when nothing is out of range |
| G722Adaptation.NextLogIs | src/codec/g722.rs:122-125 | the log scale factor moves from 127/128 of itself by the step of the code, within its limits |
| G722Adaptation.StepsGrow | src/codec/g722.rs:37-40 | the larger the difference a low band code stands for the larger its step, whatever the sign |
| G722Adaptation.HighStepsGrow | src/codec/g722.rs:66-71 | the same in the high band |
| G722Adaptation.ScaleDoubles | src/codec/g722.rs:126-132 | the scale factor doubles every 2048 of its logarithm, but for rounding |
| G722Adaptation.ScaleGrows | src/codec/g722.rs:126-132 | and never falls as it grows |
| G722Adaptation.ScaleEnds | src/codec/g722.rs:126-132 | from 32 or 8 to 16384 |
| G722Adaptation.MantissasAreEven | src/codec/g722.rs:42-45 | the 32 steps of a doubling are even: each is, as a factor, the mean of its neighbours but for rounding |
| G722Adaptation.SignIsKept | src/codec/g722.rs:243-252 | a low band code stands for a difference of the sign it was chosen for, overload included |
| G722Adaptation.HighSignIsKept | src/codec/g722.rs:257-266 | so does a high band code, and for the larger one exactly beyond the inner interval |
| G722Adaptation.CoarseIsBetween | src/codec/g722.rs:46-59 | what the predictor sees of a low band code is between the differences its four codes stand for |
| G722Adaptation.AdaptLowIs | src/codec/g722.rs:251-255 | the low band adapts by the coarse difference at the scale factor the code was made with, and takes the step for the next besides |
| G722Adaptation.AdaptHighIs | src/codec/g722.rs:265-269 | and so does the high band |
| G722Codec.SubBand.Scale | src/codec/g722.rs:122-133 | blocks 3L and 3H in place |
| G722Codec.SubBand.Predict | src/codec/g722.rs:137-194 | block 4 in place, arrays shifted: the function whose range is proved |
| G722Codec.SubBand.UpdateZeros | src/codec/g722.rs:160-167 | UPZERO over the history as it stands |
| G722Codec.SubBand.DelayLong | src/codec/g722.rs:169-173 | difference history and zero coefficients move one place |
| G722Codec.SubBand.DelayShort | src/codec/g722.rs:174-178 | signal histories and pole coefficients move one place |
| G722Codec.SubBand.PredictNext | src/codec/g722.rs:180-193 | FILTEP, FILTEZ and PREDIC |
| G722Codec.ShiftIn | src/codec/g722.rs:231-234 | two samples shifted into the filter history in place |
| G722Codec.Sums | src/codec/g722.rs:235-239 | both filter sums in one pass |
| G722Codec.FindInterval | src/codec/g722.rs:246-249 | the search loop |
| G722Codec.G722Encoder.EncodePair | src/codec/g722.rs:230-272 | in place, the pair function |
| G722Codec.G722Encoder.Encode | src/codec/g722.rs:279-299 | in place, the whole-stream function: pairs across calls, odd sample held |
| G722Codec.G722Decoder.DecodeByte | src/codec/g722.rs:334-366 | in place, the byte function |
| G722Codec.G722Decoder.Decode | src/codec/g722.rs:370-375 | in place, the whole-stream function |
| Jitter.PushKeepsValid | src/jitter.rs:177-237 | a push keeps every buffered number at or after playout, the size within max(1, max_packets), and every packet under a number that ends in its own |
| Jitter.PopKeepsValid | src/jitter.rs:251-317 | so does a pop |
| Jitter.TargetIsNotPast | src/jitter.rs:251-304 | what is played is neither before playout nor after anything buffered |
| JitterRuns.ReachableIsValid | src/jitter.rs:177-374 | every reachable buffer is valid |
| JitterRuns.PlayoutAdvances | src/jitter.rs:251-304 | a step plays the next number, or the smallest buffered when that is more than a full buffer ahead; playout never goes back but by a restart |
| JitterRuns.PlayoutOrder | src/jitter.rs:193-304 | between restarts and resets extended numbers come out strictly ascending |
| JitterRuns.Conservation | src/jitter.rs:177-374 | received == dropped + (played - lost) + buffered + overwritten + cleared, over all runs |
| JitterRuns.NumberIsTrue | src/jitter.rs:394-404 | in sync and less than 2^15 from the last buffered, a packet gets its true number |
| JitterRuns.NumberIsTrueIff | src/jitter.rs:394-404 | a packet within 2^15 of the last buffered gets its true number exactly when the cycle counter is that of the last buffered |
| JitterRuns.SyncAfterPush | src/jitter.rs:185-237 | after the push the buffer is in sync with that packet exactly when it was buffered, or dropped late in the same cycle as the last |
| JitterRuns.NumberingIsTrue | src/jitter.rs:394-404 | as long as no late drop crosses a cycle every packet is filed under its true index, wrap after wrap |
| JitterRuns.NumberingIff | src/jitter.rs:185-237 | over every run of packets each within 2^15 of the last buffered, all are filed under their true index exactly when none comes after a late drop across a cycle |
| JitterRuns.LateDropAcrossCyclesRestarts | src/jitter.rs:185-212 | otherwise: a late duplicate from the cycle before makes the next packet in turn look like a restart, and the buffer is cleared |
| JitterRuns.LateDropIsReachable | src/jitter.rs:177-317 | a new buffer gets into that position with three packets and two pops |
| JitterRuns.LateDropAcrossCyclesRunsAhead | src/jitter.rs:185-237 | or the counter ends up too high, and the next packet in turn is filed 2^16 ahead of its place |
| JitterRuns.RunningAheadIsReachable | src/jitter.rs:177-317 | a new buffer gets into that position with three packets and five pops |
| JitterRuns.PopPlaysNext | src/jitter.rs:251-317 | once playing, a pop plays the first of what remains and leaves the rest |
| JitterRuns.DrainingIsComplete | src/jitter.rs:251-317 | pops with no pushes play exactly the drain and then nothing |
| JitterRuns.DrainSize | src/jitter.rs:251-317 | in at most len * (discontinuity + 1) pops |
| JitterRuns.DrainAscends | src/jitter.rs:251-317 | in strictly ascending order |
| JitterRuns.DrainIsFaithful | src/jitter.rs:251-317 | every buffered packet once, as itself; nothing buffered is given up for lost |
| JitterRuns.LossRunsAreShort | src/jitter.rs:265-292 | while draining, never more than discontinuity concealments in a row |
| JitterRuns.LossRunsStayShort | src/jitter.rs:177-292 | the same with pushes between, as long as nothing is evicted, flushed or restarted |
| JitterRuns.PeekIsNextPop | src/jitter.rs:325-327 | what can be peeked at is what the next pop plays, and of what it plays in turn all but a stand-in can be peeked at |
| JitterRuns.BufferedCameFrom | src/jitter.rs:177-374 | over any run everything buffered is the last packet pushed under its number |
| JitterRuns.PlayedCameFrom | src/jitter.rs:177-374 | and so is everything a pop plays that is no stand-in, restarts, flushes and evictions included |
| JitterRuns.PushDropsOldest | src/jitter.rs:214-221 | a push into a full buffer drops its smallest number and no other |
| JitterRuns.DelayApproaches | src/jitter.rs:448-477 | one adaptation: within [min, max], strictly nearer to the target, never past it |
| JitterRuns.DelaySteps | src/jitter.rs:464-474 | up by a quarter of the way and down by an eighth, rounded down but a millisecond at least |
| JitterRuns.DelayStaysInBounds | src/jitter.rs:304-317 | over any run, from the first pop that plays on the delay is within [min, max], whatever the targets |
| JitterRuns.DelaySettles | src/jitter.rs:304-477 | over any run with a steady target the delay is at it after at most as many pops that play as it was milliseconds away, and nearer by one with each |
| JitterWait.FirstPopIff | src/jitter.rs:251-263 | over any run, until one has played a pop plays exactly when something is buffered and it comes at least the delay after the push that began the wait, the first or the one that restarted; the delay is the configured one when that is fixed or nothing has been played, and what it plays is the smallest number buffered |
| JitterWait.PlayingIff | src/jitter.rs:193-263 | the buffer is playing from the first pop that plays to the next restart or reset |
| JitterWait.StandInIs | src/jitter.rs:283-298 | what a pop hands out for a number that is not there: an empty packet under that number with the timestamp of the first packet there was |
| JitterWait.LateIff | src/jitter.rs:191-212 | once number p has been played a packet up to p and less than a full buffer behind it is dropped, one further behind clears the buffer, and one ahead of p joins it |
| JitterInOrder.PlaysInTurn | src/jitter.rs:177-317 | when packets arrive in ascending order, each less than 2^15 past the last, and find room, what has been played is the beginning of the line of all that was pushed, and the buffer holds the rest of it: every packet as pushed, and before it a stand-in for each number missing, or none when more are than a full buffer |
| JitterInOrder.LineWithoutGaps | src/jitter.rs:251-304 | without gaps that line is exactly what was pushed, one for one |
| JitterBuffer.JitterBuffer.constructor | src/jitter.rs:146-166 | the empty buffer at its initial delay |
| JitterBuffer.JitterBuffer.ExtendSeq | src/jitter.rs:394-404 | moves the cycle counter and returns the extended number |
| JitterBuffer.JitterBuffer.PushAt | src/jitter.rs:177-237 | in place, the push the run lemmas are about; valid after it |
| JitterBuffer.JitterBuffer.PopAt | src/jitter.rs:251-317 | in place, the pop the run lemmas are about; valid after it |
| JitterBuffer.JitterBuffer.AdaptDelay | src/jitter.rs:448-477 | one step of the delay |
| JitterBuffer.JitterBuffer.ShouldStartPlayout | src/jitter.rs:432-446 | whether the initial wait is over |
| JitterBuffer.JitterBuffer.Flush | src/jitter.rs:370-374 | empties the buffer and returns its packets in ascending order |
| JitterBuffer.InOrderIs | src/jitter.rs:370-374 | what a flush returns is every packet once, each as far from the front as there are smaller numbers |
| JitterBuffer.JitterBuffer.ResetAll | src/jitter.rs:350-367 | the buffer as new, counters included |
| StreamConfig.DigitsRoundTrip | src/stream.rs:213-232 | a digit code stands for that digit in upper case, and a code that stands for any digit is its code |
| StreamConfig.DigitTable | src/stream.rs:213-232 | the sixteen codes are those of section 3.2 of RFC 4733, and nothing else has one |
| StreamConfig.CodecTable | src/codec/mod.rs:101-145 | 20 ms is a fiftieth of either clock; G.722 samples at 16 kHz and stamps at 8, as RFC 3551 has it |
| StreamReceiver.PayloadIff | src/stream.rs:384-394 | a payload is found exactly when what follows the header is that payload and then padding whose last byte counts it (section 5.1 of RFC 3550) |
| StreamReceiverRuns.After | src/stream.rs:331-485 | a stream stays valid whatever arrives: its jitter buffer is within its bound and never holds anything behind playout |
| StreamReceiverRuns.CountersAreExact | src/stream.rs:331-348 | each counter has counted exactly the datagrams of its kind; the six together all of them |
| StreamReceiverRuns.RefusedChangesNothing | src/stream.rs:326-403 | a refused datagram moves its counter, the start time if it is the first, and the SRTP tables exactly when SRTP opened it; nothing else |
| StreamReceiverRuns.HarmlessIff | src/stream.rs:350-403 | the datagrams refused without a trace in SRTP are exactly the malformed, RTCP, untrusted and unopened ones and, in the clear, those not negotiated |
| StreamReceiverRuns.RefusedIsSpent | src/stream.rs:372-403 | opened and then refused, its repeat is refused as a replay |
| StreamReceiverRuns.RefusedLeavesATrace | src/stream.rs:326-400 | a new stream and a sealed comfort-noise packet: opened, refused, the SRTP tables changed, its repeat a replay |
| StreamReceiverRuns.LatchNeverMoves | src/stream.rs:364-409 | the latch is set at most once |
| StreamReceiverRuns.LatchIsTheSource | src/stream.rs:364-409 | it is whoever sent any datagram accepted, unset before the first, and the signalled host without SRTP |
| StreamReceiverRuns.OneSource | src/stream.rs:364-409 | whatever arrives from anywhere, everything accepted came from one address |
| StreamReceiverRuns.DestinationIsTheSource | src/stream.rs:306-310 | packets go to the signalled address until a datagram is accepted, then to where every accepted one comes from; without SRTP always to the signalled host |
| StreamReceiverRuns.WaitIsRemembered | src/stream.rs:451-461 | the three times kept stand for the latest of start, accepted datagrams and reports |
| StreamReceiverRuns.TimeoutIff | src/stream.rs:451-461 | a tick reports a timeout exactly when start, every accepted datagram and every report are at least rtp_timeout before it |
| StreamReceiverRuns.TimeoutsAreApart | src/stream.rs:451-461 | timeouts are at least rtp_timeout apart |
| StreamReceiverRuns.TicksAreRegular | src/stream.rs:451-485 | a tick yields at most one timeout and then at most one frame, of the exact size of the codec, marked for what it is |
| StreamReceiverRuns.FramesNeverStop | src/stream.rs:463-485 | once playing every tick yields exactly one full frame, until the remote SSRC changes |
| StreamReceiverRuns.JitterSeesARun | src/stream.rs:410-446 | the jitter buffer inside is one that lived through the run of pushes, pops and clears the events amount to |
| StreamReceiverRuns.TicksPlayInOrder | src/stream.rs:451-485 | so between restarts successive ticks play strictly ascending numbers |
| StreamReceiverRuns.SrtpSeesARun | src/stream.rs:372-382 | the SRTP tables inside are those of a context offered exactly the datagrams that got that far |
| StreamReceiverRuns.NothingTwice | src/stream.rs:372-382 | so under SRTP no (SSRC, ROC, SEQ) is accepted twice by the stream, whatever it is sent |
| StreamGates.Gates | src/stream.rs:350-382 | each gate refuses what it does, whatever the later ones would say: not RTP, RTCP packet types 200 to 204, an untrusted source, a replay, a failed authentication |
| StreamGates.SourceGate | src/stream.rs:364-370 | over any run a datagram that gets that far is refused for its source exactly when another has been accepted before or, without SRTP and before any is accepted, when it is not from the signalled host |
| StreamGates.SizesAreExact | src/stream.rs:405-421 | the counters of bytes and of changes of source are exact |
| StreamSender.AlwaysProtectable | src/stream.rs:580-587 | protection of a packet the sender makes cannot fail |
| StreamSenderRuns.Numbering | src/stream.rs:505-591 | over any mix of audio and digits the n-th packet is numbered seq0 + n |
| StreamSenderRuns.PlainDatagrams | src/stream.rs:580-591 | without SRTP the datagrams are the packets |
| StreamSenderRuns.SrtpDatagrams | src/stream.rs:580-591 | with SRTP the n-th datagram is the n-th packet as the SRTP sender sends it |
| StreamSenderRuns.OutgoingIndex | src/stream.rs:580-591 | it is sealed under ROC || SEQ == seq0 + n |
| StreamSenderRuns.NoIvTwice | src/stream.rs:580-591 | no two of fewer than 2^48 datagrams are encrypted under one initialization vector |
| StreamSenderRuns.AudioClock | src/stream.rs:505-566 | the k-th call is at timestamp ts0 + k * ticks, whether it sends audio or a digit |
| StreamSenderRuns.DigitCall | src/stream.rs:527-551 | one call of a digit: shared timestamp, marker on the first call only, one packet or, on the last call alone, three with the end bit (section 2.5.1 of RFC 4733) |
| StreamSenderRuns.DurationGrows | src/stream.rs:529-530 | durations never fall and stop at the 16-bit maximum |
| StreamSenderRuns.DigitOccupies | src/stream.rs:527-551 | a digit occupies exactly max(1, dtmf_packets) calls, whatever is queued meanwhile |
| StreamSenderRuns.DigitTakes | src/stream.rs:527-591 | and takes two sequence numbers more than calls |
| StreamSenderRuns.SentIsCounted | src/stream.rs:580-591 | the counters of packets and bytes sent are of all the datagrams that have gone out |
| StreamSenderRuns.QueuedIff | src/stream.rs:489-500 | a digit is queued, and said to be, exactly when events were negotiated and it is one of the sixteen, in either case of letter |
| StreamSenderRuns.MarkerIff | src/stream.rs:545-564 | a frame is marked exactly when it is the first or the first after a digit |
| StreamDtmfPayload.DigitSays | src/stream.rs:527-551 | call number n of a digit, whatever is queued meanwhile: its code, the end bit exactly in the last call, volume 10, and n times the whole event ticks in 20 ms, up to 65535 (section 2.3 of RFC 4733) |
| StreamDtmfPayload.DigitSaysElapsed | src/stream.rs:527-551 | on an event clock that is the audio clock or a multiple of it, exactly the event ticks since the timestamp the digit carries |
| StreamAudio.AudioCall | src/stream.rs:552-564 | a frame goes out as one packet with the marker on the first frame of a talkspurt |
| StreamAudio.AudioArrives | src/stream.rs:331-591 | what the encoder made of the n-th call reaches the jitter buffer of the other end as it was, under number seq0 + the packets before it, those of digits included, and time ts0 + ticks * calls |
| StreamLineup.LineIsLineup | src/jitter.rs:251-304 | what the jitter buffer has to play, frames and stand-ins, is number for number the line-up: the packets with audio and, between two of them, those of a digit when they are no more than a full buffer |
| StreamLineup.NoStandInsIff | src/stream.rs:517-551 | the first so many of a line-up are all audio exactly when between no two of those frames is a digit short enough to be played as stand-ins |
| StreamAudioInOrder.NumbersArePlayed | src/stream.rs:331-485 | for packets recovered in sequence, frames finding room and less than 2^15 numbers apart: the ticks play number by number what is due, each once and in order |
| StreamAudioInOrder.TickPlaysNothingIff | src/jitter.rs:251-272 | there a tick plays nothing exactly when nothing is left, or when nothing has been played yet and it comes less than the configured delay after the first frame |
| StreamAudioInOrder.LostAreStandIns | src/jitter.rs:274-317 | there the jitter buffer counts as lost exactly the stand-ins it handed out, though the network lost nothing |
| StreamAudioInOrder.FramesArePlayed | src/stream.rs:331-591 | for any mix of frames and digits, under the same premises: a number that carried audio gives the frame of its call as encoded and at its time, a number of a digit a stand-in, a digit of more packets than a full buffer is skipped, and a tick plays nothing exactly as above |
| StreamAudioInOrder.PlainAudioInOrder | src/stream.rs:331-591 | so over plain RTP in sequence, for any frames, digits, harmless strays and ticks, to a receiver whose jitter buffer is new |
| StreamAudioInOrder.SrtpAudioInOrder | src/stream.rs:331-591 | and over SRTP, keyed alike at both ends |
| StreamAudioInOrder.OnlyFramesIff | src/stream.rs:331-591 | what has been played is the frames alone, each once and in order, exactly when between no two of them is a digit of no more packets than a full buffer |
| StreamAudioDigit.FramesAloneArePlayed | src/stream.rs:331-591 | with no digits: the i-th packet handed to the decoder is the i-th frame as encoded, at its time |
| StreamAudioDigit.DigitIsConcealed | src/stream.rs:517-591 | a digit of k calls between two frames is played as k + 2 stand-ins between them, which count as lost, or skipped when k + 2 is more than a full buffer |
| StreamAudioDigit.OneCallIsThreeLost | src/stream.rs:331-591 | the run: from a new sender to a new receiver, plain RTP in sequence, a frame, a digit of one call and a frame; three stand-ins, three lost |
| StreamDtmf.QueuedArePressed | src/stream.rs:489-525 | every digit queued is pressed in turn or still waiting; none is lost or made up |
| StreamDtmf.PressesAscend | src/stream.rs:517-525 | presses start at ever later calls and are of digits |
| StreamDtmf.TagsAreRight | src/stream.rs:517-577 | every packet of a run is audio, or carries the code of the press it belongs to and its timestamp on the event clock, whatever the clocks |
| StreamNetwork.HearsDatagram | src/stream.rs:350-441 | one arrival through every gate: a press recovered is reported and remembered exactly when it is newer than the last reported |
| StreamNetwork.PacketOnJitter | src/stream.rs:405-446 | audio recovered is pushed under its number, and a packet of a digit leaves the jitter buffer alone |
| StreamNetwork.PlainNetwork | src/stream.rs:331-403 | without SRTP every datagram of the sender comes to the receiver as its packet, whatever is lost, repeated or reordered and whatever harmless strays and ticks come between |
| StreamNetwork.SrtpNetwork | src/stream.rs:331-403 | over SRTP, on a schedule it can follow, every datagram comes as its packet or is refused |
| StreamNetwork.SrtpSequence | src/stream.rs:331-403 | and in sequence every one comes as its packet |
| StreamNetwork.ReportsHeeded | src/stream.rs:350-441 | over any run of the network, strays and ticks included, and for any clocks, what is reported is the presses recovered that are each newer than the one reported before |
| StreamDtmf.HeededInTurn | src/stream.rs:423-431 | when packets come in turn and the clocks tell the presses apart, that is the presses reached, each once and in order |
| StreamDtmf.ReachedBeyond | src/stream.rs:423-431 | a press with a packet among those in turn has been reached |
| StreamDtmf.AllReached | src/stream.rs:423-431 | when every press has one, all have |
| StreamDtmf.InTurnIf | src/stream.rs:423-431 | packets are in turn when none is of a press before which one is still missing, and the clocks tell every two presses apart |
| StreamDtmfClock.NewerIff | src/stream.rs:423-431 | the signed 32-bit comparison orders times less than 2^31 apart, across wrap |
| StreamDtmfClock.ClockTellsIff | src/stream.rs:423-431 | for every pair of clocks and any two presses the later is newer to the receiver exactly when, in one cycle of the audio timestamp, the conversion rises by more than 0 and less than 2^31 modulo 2^32, or, from one cycle to another, it falls by more than 2^31 modulo 2^32 |
| StreamDtmfClock.SlowerClockIff | src/stream.rs:569-577 | for event clocks up to the audio clock and one wrap: exactly when the converted time falls by more than 2^31 |
| StreamDtmfClock.SlowEventClockIff | src/stream.rs:569-577 | for event clocks up to half the audio clock, presses within 2^32 audio ticks and an event tick between them: exactly when the audio timestamp does not wrap |
| StreamDtmfClock.WholeClocksTellIff | src/stream.rs:569-577 | for event clocks that are the audio clock or a multiple of it, across any wraps: exactly when the event ticks between are, modulo 2^32, more than 0 and less than 2^31 |
| StreamDtmfClock.WholeClocksTell | src/stream.rs:569-577 | so always for presses less than 2^31 event ticks apart |
| StreamDtmfClock.OneCycleTellsIff | src/stream.rs:569-577 | for event clocks up to the audio clock, within one cycle of the audio timestamp: exactly when the converted times rise, by less than 2^31 |
| StreamDtmfClock.OneCycleTells | src/stream.rs:569-577 | for any event clock, within one cycle of the audio timestamp, from one event tick between the presses up to 2^31 |
| StreamDtmfClock.NotBySpeedAlone | src/stream.rs:569-577 | a slower clock (32 kHz to 48) that tells presses apart across a wrap, and a faster one (12 kHz to 8) that does not |
| StreamDtmfEndToEnd.PlainReports | src/stream.rs:331-591 | digits over plain RTP, for any clocks: what is reported is what is heeded of the packets that arrive |
| StreamDtmfEndToEnd.PlainDigitsArrive | src/stream.rs:331-591 | over any lossy, duplicating, reordering network that brings the presses in turn, strays and ticks included: the digits reached, in upper case, once each and in order; every digit pressed when each press gets a packet in, and every digit queued once all are pressed |
| StreamDtmfEndToEnd.PlainEveryDigit | src/stream.rs:331-591 | closed for event clocks that are the audio clock or a multiple of it and presses less than 2^31 event ticks apart: when no packet comes before one of every earlier press, and each press gets one in, the digits reported are the digits queued |
| StreamDtmfEndToEnd.SrtpReports | src/stream.rs:331-591 | the same over SRTP for the packets recovered; replays and packets too old are refused on the way |
| StreamDtmfEndToEnd.SrtpDigitsArrive | src/stream.rs:331-591 | and so are the digits: all that are reached, every one when each press has a packet recovered |
| StreamDtmfEndToEnd.SrtpEveryDigit | src/stream.rs:331-591 | and closed in the same way |
| StreamDtmfInOrder.SenderIsOrderly | src/stream.rs:505-566 | a sender brings its presses in order, each with a packet of its own before any of a later one |
| StreamDtmfInOrder.PlainInSequence | src/stream.rs:331-591 | over a network that loses nothing and keeps the order the reports depend on the clocks alone: of the presses in turn, those newer than the one reported before |
| StreamDtmfInOrder.SrtpInSequence | src/stream.rs:331-591 | the same over SRTP, keyed alike at both ends |
| StreamSources.NewSourceIsHeard | src/stream.rs:410-441 | a digit from another SSRC than the last accepted is reported, whatever its timestamp |
| StreamSources.NewSourceStartsOver | src/stream.rs:410-421 | and so does everything else start over: playout stops, the jitter buffer is as new but for the packet itself |
| StreamSources.ReportedIff | src/stream.rs:405-441 | over any datagrams from anywhere a digit taken is reported exactly when it is newer than the last one reported of its source, if there is one and nothing of another was taken since |
| StreamSources.StretchByStretch | src/stream.rs:331-591 | one sender after another, each over a lossy, reordering network with strays and ticks: what is reported in each stretch is what is heeded of it alone |
| StreamDtmfWrap.EveryDigitIff | src/stream.rs:423-577 | over such a network, for any clocks and any pauses, every digit pressed is reported exactly when the clocks tell each press from the one before |
| StreamDtmfWrap.EveryDigitOn | src/stream.rs:423-577 | so it is, of presses each less than 2^31 event ticks after the one before, when the event clock is the audio clock or a multiple of it, and for any event clock of 50 Hz or more while the audio timestamp does not wrap |
| StreamDtmfWrap.UntoldAreSilent | src/stream.rs:423-441 | when the presses up to one are told each from the one before and none after it is told from it, exactly those up to it are reported |
| StreamDtmfWrap.WrapSilences | src/stream.rs:423-577 | with an event clock from 50 Hz up to half the audio clock the digits pressed before the wrap are reported, and none of those less than 2^32 audio ticks after the last of them |
| StreamDtmfWrap.SecondDigitIsLost | src/stream.rs:331-591 | the run: from a new sender to a new receiver, Opus at 48 kHz with events at 8 kHz, two digits across the wrap, one report |
| StreamDtmfWrap.PauseSilences | src/stream.rs:423-577 | on an event clock that is the audio clock or a multiple of it the digits that come 2^31 to 2^32 event ticks after the last one reported are not reported either |
| StreamDtmfWrap.DigitAfterPauseIsLost | src/stream.rs:331-591 | the run: from a new sender to a new receiver on such clocks, two digits that far apart, one report |
| StreamCore.NewStream | src/stream.rs:272-302 | refuses a telephone-event payload type equal to the audio one, and otherwise starts fresh in both directions |
| StreamCore.StreamCore.Ingest | src/stream.rs:331-348 | in place, the function the run lemmas are about; the sending side is untouched |
| StreamCore.StreamCore.Admit | src/stream.rs:350-446 | every gate in its order, SRTP context and jitter buffer updated in place |
| StreamCore.StreamCore.ReadContent | src/stream.rs:384-403 | header, padding, payload type |
| StreamCore.StreamCore.Trust | src/stream.rs:405-421 | latch, SSRC change, counters |
| StreamCore.StreamCore.Press | src/stream.rs:423-441 | a press is an event newer than the last |
| StreamCore.StreamCore.Playout | src/stream.rs:451-485 | in place, timeout and frame |
| StreamCore.StreamCore.QueueDtmf | src/stream.rs:489-500 | queues a digit or refuses it; nothing else moves |
| StreamCore.StreamCore.Packetize | src/stream.rs:505-566 | in place, the datagrams of 20 ms; a frame of the wrong size is refused with nothing changed |
| StreamCore.StreamCore.Finish | src/stream.rs:580-591 | serialize, number, protect and count one packet |

## Left out

- AES, HMAC-SHA1, base64, key derivation and constant-time comparison: parameters, or not needed.
- The floating-point jitter estimate (src/jitter.rs:406-430): the delay it calls for is an arbitrary input `wanted` to each pop, so what is proved holds for every estimate. Jitter is in whole microseconds where a snapshot reports milliseconds.
- Audio encoders and decoders inside the stream: what they make of a frame or a packet is an input, `encoded` and `decoded`; that a decoder for a new SSRC can always be made is assumed (src/stream.rs:413).
- `estimate_timestamp` of the jitter buffer: where it is called its offset is always 0, so a synthesized packet carries the base timestamp.
- The read-only accessors of the jitter buffer, log messages and `Debug` output.
- 64-bit event counters of the jitter buffer and the stream are unbounded numbers; the counters of src/rtp/stats.rs wrap as they do there.
- `RtpCounters` is modelled for one thread at a time: the relaxed atomics of concurrent callers are not captured.
- The replay window and the state of one remote source are `Copy` structs in the program and are updated as values here; the 64-bit bitmap is a number with its own bit operations.
- Random SSRC, first sequence number and first timestamp are inputs to a new stream.
- The stream demands of its telephone-event clock that no duration overflows 32 bits before it is capped, as `StreamConfig.Sound` says, and of an adaptive jitter mode that its bounds do not cross. `NewStream` takes any, as the program does; what the other methods do with them, where the program would panic or wrap, is not modelled.
- StreamDtmfWrap.WrapSilences: speaks of presses less than 2^32 audio ticks after the last one reported; beyond that the converted time may have caught up, and `ClockTellsIff` decides pair by pair.
- G722Fidelity.CodecReconstructs: in overload, and where a sub-band is clipped to 15 bits, how far off the sub-bands are coded is not bounded but taken as `d`.
- JitterRuns.LossRunsStayShort: not across an eviction, which can move the next packet ahead of playout again and again.
- RtpStats.RtpCounters.UpdateJitter: exact arithmetic where the program rounds to a double on the way, which differs only above 2^53 microseconds.
- StreamAudioInOrder.FramesArePlayed: over networks that keep the order, for fewer than 2^32 - 2^16 packets, with fewer than 2^15 - 1 packets of digits between two frames and room for each frame in the jitter buffer; over other networks each frame that arrives is pushed under its true number (`AudioArrives`, `NumberingIff`) and what is pushed is drained faithfully (`DrainIsFaithful`), and what is played is the last pushed under its number (`PlayedCameFrom`).
- RTCP report building, `sender_report` and jitter reporting, SDP parsing and negotiation.
- src/session.rs threads and sockets, `MediaStream`, devices, recording, STUN: input and output. There, allocation of sequence numbers and protection are separate steps, so the consecutive numbering proved of the stream is not established.
- Opus, G.729, G.711, resampling and audio processing: foreign, floating point, or stateless.
