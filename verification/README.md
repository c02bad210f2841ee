# Verified model of the cpeclock radio link

cpeclock is an alarm clock that is commanded over a one-way 433 MHz radio link.
A sender (`txnc433/libnc.c`, `home_easy.py`, `tx433_driver.py`) authenticates a
small packet with a rolling counter, protects it with a Reed-Solomon code over
GF(32), and plays it as a train of pulses. The clock (`rx433.c`, `ncrs.c`,
`reed_solomon.c`, `hmac433.c`, `mail.c`, `alarm.c`) turns the times of rising
edges back into symbols, corrects them, authenticates the packet, commits the new
counter to non-volatile memory and only then acts.

This project models each layer as the code has it and proves that the layers
invert one another. The code that changes state is a class or a method with
loops; each method is proved against a function of its inputs or its old state,
and the promises of the code are lemmas about those functions.

| layer | files |
|---|---|
| bit operations, bytes, machine words | `bits.dfy`, `bit_tests.dfy` |
| the field and its tables | `gf32.dfy`, `carryless.dfy`, `rs_control.dfy` |
| polynomials, power sums, recurrences | `poly.dfy`, `power_sums.dfy`, `berlekamp_massey.dfy` |
| the code, its decoder, its encoder | `reed_solomon.dfy`, `decoding.dfy`, `soundness.dfy`, `encoding.dfy`, `rs_encode.dfy`, `rs_decode.dfy` |
| packet codec, and where everything is on the air | `packing.dfy`, `ncrs.dfy`, `ncrs_methods.dfy`, `wire_format.dfy` |
| pulses and edges | `tx433.dfy`, `waveform.dfy`, `rx433.dfy`, `rx433_interrupt.dfy`, `events.dfy`, `edge_table.dfy`, `radio_link.dfy`, `stray_edges.dfy`, `home_easy_link.dfy`, `home_easy_soundness.dfy` |
| counter protocol and its storage | `hmac433.dfy`, `hmac433_methods.dfy`, `counter_protocol.dfy`, `packets.dfy`, `libnc.dfy`, `mail.dfy`, `mail_runs.dfy`, `mail_methods.dfy`, `handoff.dfy` |
| all layers together | `end_to_end.dfy` |
| SHA-256 and HMAC | `sha256.dfy`, `sha256_methods.dfy`, `hmac.dfy`, `sha256_standard.dfy` |
| alarm and send queue | `alarm.dfy`, `alarm_methods.dfy`, `send_queue.dfy` |

`dafny verify dfyconfig.toml` checks everything.

Main results:

* `RsDecoder.DecodeRs8` with `Decoding.DecodeCorrects`: every pattern of at most
  five wrong symbols is corrected and counted. It rests on Massey's length
  argument (`BerlekampMassey.RunInvariant`), the roots of the locator and
  Forney's formula. `Soundness.AcceptsNonCodeword` is an input for which the
  decoder reports success on a word that is no codeword, and
  `Soundness.AnswerIsCodewordIff` says exactly when its answer is one.
* `RadioLink.NewCodeFrame` and `HomeEasyLink.HomeEasyAttempts`: what the
  transmitter plays is what the receiver publishes, once and nothing else, for
  every message, every earlier state of both decoders, every displacement of the
  edges within the tolerance and every position of the wrapping clock.
* `StrayEdges.StrayEdge`: a noise edge inside a symbol costs nothing, except in
  exactly one case, which loses the message; `StrayEdges.DecodersAreIndependent`
  and `HomeEasySoundness.OnlyFramesArePublished`: the two decoders do not disturb
  each other, and whatever the edges, a Home Easy code is published only for
  sixty-five gaps that spell it.
* `Waveform.NewCodeSignal` and `Waveform.HomeEasySignal`: the level of the
  transmitter's pin at every microsecond, in closed form.
* `CounterProtocol.LossTolerance` and `CounterProtocol.NeverTwice`: 255 losses in
  a row are survived, whatever the authentication code, and no packet is accepted
  twice under any replay in which no tag collides.
* `MailRuns.RunSafe`: over every run of packets and power cuts between any two
  byte writes, the actions performed have strictly increasing counters.
* `EndToEnd.RequestIsObeyed` and `EndToEnd.BrokenRequestIsObeyed`: a request at
  the sender becomes that action at the receiver, even if its frame breaks off
  anywhere after the first 26 symbols.

## Model

| member | source | states |
|---|---|---|
| RsTables.RsModnn | rslib.h:107-114 | for every symbol size and every x from zero on, the loop ends with x modulo nn; a negative x is returned as it is |
| RsTables.RsControl.Modnn | rslib.h:107-114 | the same for the control structure in use, and nn itself gives zero |
| GF32.ExpTable | reed_solomon.c:119-127 | the thirty-one antilogs that the shift and reduce loop produces, and that the next one is one again |
| GF32.ExpInjective | reed_solomon.c:119-127 | the antilogs are distinct, so the two tables are inverse to each other |
| GF32.LogExp | reed_solomon.c:119-127 | the logarithm of an antilog is the exponent modulo 31 |
| GF32.MulAssoc | reed_solomon.c:115-127 | the product taken through the tables is associative |
| GF32.MulComm | reed_solomon.c:115-127 | and commutative |
| GF32.MulAdd | reed_solomon.c:115-127 | and distributes over exclusive or |
| GF32.MulInv | reed_solomon.c:115-127 | every symbol but zero has an inverse, so the symbols are a field |
| Carryless.MulIsCarryless | reed_solomon.c:115-127 | the product taken through the tables is the carry-less product up to a multiple of x^5 + x^2 + 1 |
| RsTables.NextSymbol | reed_solomon.c:123-126 | shift, reduce and mask give the next power of alpha |
| RsTables.FillTables | reed_solomon.c:115-127 | the loop fills the antilog table with the powers of alpha and the log table with their exponents, zero having logarithm nn |
| RsTables.TimesFactor | reed_solomon.c:149-164 | one pass of the loop multiplies the polynomial in place by (x + alpha^root) |
| RsTables.GeneratorPolynomial | reed_solomon.c:147-167 | the loops leave the generator polynomial in index form |
| RsTables.RsInit | reed_solomon.c:81-168 | the control structure holds the tables and the generator that encoder and decoder rely on |
| Encoding.GenIsProduct | reed_solomon.c:147-164 | the generator takes the value of (x + alpha^1) ... (x + alpha^n) at every x |
| Encoding.GenRoots | reed_solomon.c:147-164 | its roots include alpha^1 to alpha^n |
| Encoding.GenNoZeros | encode_rs.h:38-48 | none of its eleven coefficients is zero, which the encoder relies on when it adds logarithms without a test |
| RsEncoder.EncodeSymbol | encode_rs.h:36-51 | one symbol through the feedback register, in place |
| RsEncoder.EncodeRs8 | encode_rs.h:30-53 | the parity buffer after all symbols; minus one and an untouched buffer when the length does not fit |
| Encoding.DivisionByGenerator | encode_rs.h:35-52 | data followed by parity is quotient times generator, at every point |
| Encoding.ParityMakesCodeword | encode_rs.h:35-52 | data followed by the parity computed from a zeroed buffer has no syndrome |
| Encoding.ParityIsUnique | encode_rs.h:35-52 | nothing else appended to the same data is a codeword |
| ReedSolomon.MinimumDistance | decode_rs.h:48-93 | two different codewords differ in at least eleven symbols |
| RsDecoder.ComputeSyndromes | decode_rs.h:48-77 | the Horner loops compute the value of the received word at alpha^1 to alpha^10 |
| RsDecoder.SyndromesToIndex | decode_rs.h:80-85 | the syndromes in index form, and whether any is not zero |
| RsDecoder.Discrepancy | decode_rs.h:125-134 | the discrepancy is the next term the recurrence fails to give |
| RsDecoder.Update | decode_rs.h:141-150 | t is lambda minus the discrepancy times x times b |
| RsDecoder.DivideByDiscrepancy | decode_rs.h:157-161 | b is lambda divided by the discrepancy |
| RsDecoder.BerlekampMasseyRound | decode_rs.h:124-168 | one pass of the loop, both branches of both tests, on the buffers in place |
| RsDecoder.FindLocator | decode_rs.h:95-169 | the loop leaves the polynomial of the ten-step run |
| BerlekampMassey.MasseyBound | decode_rs.h:151-152 | when a recurrence of length L fails at term N, every one that works there has length at least N + 1 - L |
| BerlekampMassey.RunInvariant | decode_rs.h:118-169 | for every sequence of syndromes and after every step, lambda[0] is one, lambda has degree at most el, el is at most r, lambda generates the first r syndromes, and no shorter recurrence does |
| Decoding.RunFindsLocator | decode_rs.h:118-169 | for at most five errors the result vanishes exactly at the inverses of the error locations and el is their number |
| RsDecoder.LambdaToIndex | decode_rs.h:171-177 | lambda in index form, and its degree |
| RsDecoder.RootCountBound | decode_rs.h:180-199 | there are never more roots than the degree, so stopping the search early loses none and the buffers suffice |
| RsDecoder.ChienSearch | decode_rs.h:178-199 | the search records every root in order, and counts them |
| Decoding.RootsAreErrors | decode_rs.h:178-199 | for at most five errors the search finds exactly the wrong positions |
| RsDecoder.ComputeOmega | decode_rs.h:209-222 | the first terms of the product of lambda and the syndromes |
| RsDecoder.Numerator | decode_rs.h:229-234 | the evaluator at the root |
| RsDecoder.Denominator | decode_rs.h:236-248 | the formal derivative of lambda at the root, from the odd coefficients alone |
| Decoding.Forney | decode_rs.h:224-252 | evaluator over derivative is the error value |
| Decoding.ErrorValueIsError | decode_rs.h:228-265 | the correction computed at a wrong position is the error made there |
| RsDecoder.Correct | decode_rs.h:228-266 | every data symbol at a root is xored with its correction, the others are left alone |
| RsDecoder.DecodeRs8 | decode_rs.h:40-275 | for every received word: the number returned and the data left are those of the decoding function |
| Decoding.DecodeCorrects | decode_rs.h:95-266 | every word within five symbols of a codeword is decoded to it, and the number of wrong symbols is returned |
| RsDecoder.DecodingRestores | decode_rs.h:95-266 | seen by a caller: the data symbols sent are restored, with bits above the fifth untouched |
| Soundness.AcceptsNonCodeword | decode_rs.h:200-208 | a word with only the fifth syndrome set is answered with zero errors although it is no codeword |
| Soundness.AnswerIsCodewordIff | decode_rs.h:200-208 | over all words with a nonzero syndrome, a non-negative answer leads to a codeword if and only if el equals the degree of lambda |
| Soundness.AnswerIs | decode_rs.h:200-208 | for every word the answer is zero without a syndrome, the degree of lambda if lambda has that many roots among the 31 positions, and EBADMSG otherwise |
| Packing.UnpackPack | ncrs.c:91-97 | unpacking what was packed gives back all bytes but the last, of which only the top bit survives |
| WireFormat.BitLayout | ncrs.c:91-97 | bit k of the message, from the top of its first byte on, is bit k % 5 from the top of data symbol k / 5 |
| NcrsCodec.PackBits | ncrs.c:91-97 | the nested loops put 105 message bits into 21 symbols, most significant first |
| NcrsCodec.UnpackBits | ncrs.c:73-79 | the nested loops put the symbols back into fourteen bytes |
| NcrsCodec.InterleaveInto | ncrs.c:103-109 | two data symbols, one parity symbol, and the last data symbol |
| NcrsCodec.NcrsEncode | ncrs.c:85-110 | the symbols sent are the interleaved codeword of the packed message |
| Ncrs.EncodedIsCodeword | ncrs.c:99-109 | what is sent is a codeword once the interleaving is undone |
| WireFormat.SymbolLayout | ncrs.c:103-109 | two data symbols, then one of parity, ten times, and the last data symbol |
| Ncrs.WordOfInterleave | ncrs.c:53-59 | the copying of the decoder undoes the interleaving of the encoder |
| NcrsCodec.TryAlignment | ncrs.c:46-62 | one attempt, inside the 37 byte buffer |
| NcrsCodec.NcrsDecode | ncrs.c:33-83 | the first attempt that decodes gives message and return code; zero, with the message untouched, exactly when no window from offset 0 to 5 of the padded buffer decodes |
| Ncrs.UndecodableIff | ncrs.c:68-71 | zero is returned if and only if decode_rs8 fails on the windows at offsets 0 to 5 |
| Ncrs.FirstDecodable | ncrs.c:47-82 | otherwise the first of the offsets 3, 3, 2, 4, 1, 5, 0 whose window decodes gives code and message |
| Ncrs.OffsetsTried | ncrs.c:45-51 | the attempts cover every alignment of the padded buffer except the last one |
| Ncrs.SecondAttemptIsWasted | ncrs.c:45-51 | the second attempt repeats the first and is never the one that succeeds |
| Ncrs.AttemptRecovers | ncrs.c:45-67 | an attempt within five symbols of what was sent recovers the message if all attempts before it failed |
| Ncrs.NoisyRoundTrip | ncrs.c:33-83 | with at most five wrong symbols and no shift the message is decoded at once, and the return code counts the wrong symbols |
| Ncrs.CleanRoundTrip | ncrs.c:80-82 | a perfect transmission returns one and the message |
| Ncrs.LostSymbols | ncrs.c:46-82 | a message that lost its first one to three symbols, five errors in all, is recovered with the exact return code if the attempts before its alignment fail; lost symbols that were zero count for nothing |
| Ncrs.InsertedSymbols | ncrs.c:46-82 | the same for one or two symbols inserted in front |
| Tx433.LevelConcat | tx433_driver.py:22-27 | the level of the pin during a waveform is that of its parts, each from the level it is left at |
| Tx433.RisesAreSeen | tx433_driver.py:22-24 | when the pin is high in separate intervals and at no other time, the rising edges are where they begin |
| Tx433.Driver.SendSymbol | tx433_driver.py:77-89 | a symbol is one pulse of 512 microseconds, one of 256, and one of 256 for every one bit |
| Tx433.Driver.WriteNc | tx433_driver.py:73-92 | the pin is high exactly during the pulses of the frame of the first 31 symbols, each of which ends before the next begins, so the rising edges are those of the frame; the pulse list is left empty |
| Tx433.Driver.SendHeBits | tx433_driver.py:59-67 | two edges a bit, long gap first for a one, short gap first for a zero, top bit first |
| Tx433.Driver.WriteHe | tx433_driver.py:54-71 | the pin is high for 220 microseconds from each edge of as many frames as there are attempts and at no other time, and is low in between |
| Waveform.NewCodeSignal | tx433_driver.py:73-92 | at every microsecond the pin is high if and only if the digit of 11010 or of a data bit (10 or 00), 256 microseconds each, says so |
| Waveform.HomeEasySignal | tx433_driver.py:54-71 | at every microsecond, likewise: 220 at the start, at the end, and twice in each of 32 bits of 2090, the gap before the second being 1550 for a one and 540 for a zero |
| Rx433Interrupt.Receiver.HomeEasyEdge | rx433.c:50-107 | one edge through the Home Easy decoder, all states and gaps |
| Rx433Interrupt.Receiver.StartCode | rx433.c:111-140 | a start code: missed symbols are skipped, an unfinished message is flushed or dropped, a message begins or goes on, and at the wrong time nothing happens |
| Rx433Interrupt.Receiver.PulseInSymbol | rx433.c:143-164 | a pulse inside a symbol sets a data bit, ends the symbol, ends the message or is ignored |
| Rx433Interrupt.Receiver.NewCodeEdge | rx433.c:109-173 | one edge through the new code decoder |
| Rx433Interrupt.Receiver.Interrupt | rx433.c:35-174 | one interrupt on all static variables keeps the invariant and steps both decoders |
| Rx433.SkipsAtMostOnce | rx433.c:115-122 | the loop over missed symbols runs once if the symbol being received began more than 5760 microseconds ago, and otherwise not at all |
| Rx433.SkipsOnlyAfterStart | rx433.c:115-122 | it never runs unless the edge before had the gap of a start code as well, so an undisturbed frame with a symbol missing is never resumed |
| Rx433.SkipCanHappen | rx433.c:115-122 | it does run from a state that satisfies the invariant |
| EdgeTable.StartWhenIdle | rx433.c:124-134 | in microseconds: an edge with the gap of a start code begins a message when none is in progress |
| EdgeTable.StartInMessage | rx433.c:111-140 | with a message in progress it goes on 3744 to 3935 after the last symbol, is ignored at any other time up to 5760, and beyond skips one symbol or, after the last, publishes and begins the next message |
| EdgeTable.PulseEdge | rx433.c:141-172 | any other edge: ends the message from 3936 on, published from 26 symbols on; otherwise within 96 of a half bit it is a data bit or the end of the symbol, and elsewhere it is ignored |
| Rx433.StepValid | rx433.c:50-173 | for every time stamp: the count stays below 31 or all ones, symbols stay below 32, the symbol being received began at most 5760 microseconds before the last edge, and at most one symbol is skipped |
| Rx433.RunValid | rx433.c:35-174 | so after every sequence of time stamps |
| RadioEvents.EventsExplain | rx433.c:50-173 | the events account for every change of the published variables |
| RadioLink.QuietEdge | rx433.c:103-172 | the first edge after a quiet gap resets both decoders, whatever they were doing, and publishes a message that lacks at most five symbols |
| RadioLink.StartEdge | rx433.c:111-136 | the second edge of a symbol starts it at the right count |
| RadioLink.DataEdge | rx433.c:149-153 | an edge near data bit j sets that bit of that symbol |
| RadioLink.StopEdge | rx433.c:154-162 | the first edge after the data ends the symbol, and publishes the message if it was the last |
| RadioLink.NewCodeFrame | rx433.c:109-173 | after a quiet gap a frame with edges displaced by at most 47 microseconds publishes its message at its last edge and no Home Easy code, from every state and across the clock wrap |
| RadioLink.FirstFrame | rx433.c:109-173 | a receiver just switched on receives the first frame played to it |
| RadioLink.LateEdge | rx433.c:141-172 | when the rest of a frame is lost the next edge ends the message, and publishes it if at most five symbols are missing |
| RadioLink.CutFrame | rx433.c:109-173 | a frame that breaks off after k symbols is published with zeros for the rest if k is at least 26, and otherwise dropped |
| RadioLink.CutAnywhere | rx433.c:109-173 | however many edges of a frame come before it breaks off, the symbols that came whole head the message published after the next quiet gap if there are at least 26 of them, and otherwise nothing is published |
| StrayEdges.DecodersAreIndependent | rx433.c:50-173 | the messages received do not depend on the state of the Home Easy decoder, for any edges |
| StrayEdges.TimingOnly | rx433.c:109-173 | how many messages are published by any edges does not depend on the symbols received so far |
| StrayEdges.StrayEdge | rx433.c:111-163 | a noise edge between the data edges of a frame, with the gap of a start code or off the places for bits, leaves the message to be published alone if and only if the gap to the next edge is not that of a start code |
| HomeEasyLink.BitDecoded | rx433.c:51-95 | the two gaps of a bit append it to the code, and the 32nd publishes the code |
| HomeEasyLink.HomeEasyFrame | rx433.c:50-107 | one frame with edges displaced by at most 52 microseconds sets the code sent, from every state |
| HomeEasyLink.QuietHomeEasyFrame | rx433.c:50-173 | after a quiet gap it publishes the code once and no new code message |
| HomeEasyLink.HomeEasyAttempts | tx433_driver.py:54-71 | every attempt publishes the code once, and nothing else is published |
| HomeEasyLink.FirstCode | tx433_driver.py:54-71 | a receiver just switched on receives every attempt played to it |
| HomeEasySoundness.StepExplained | rx433.c:43-107 | every state of the decoder is explained by the last gaps: a start and the pairs of the bits in it |
| HomeEasySoundness.OnlyFramesArePublished | rx433.c:43-107 | for any edges from a reset decoder on, one that publishes a code is the last of a start gap and thirty-two pairs of gaps that spell the code |
| Hmac433.OrdinaryUnique | hmac433.c:21-26 | the counter worked out is the only one among the next 256 with the low byte received |
| Hmac433.OrdinaryWraps | hmac433.c:23-26 | the counter worked out is below the one held exactly in the last 256 counters when the low byte went back |
| Hmac433.ResyncCandidateIs | hmac433.c:31-39 | the bytes of a resynchronisation packet give back the counter they were made from |
| Hmac433.SendAcceptedIff | hmac433.c:21-59 | for every code: a receiver at most 255 packets behind accepts an ordinary packet and is then in step; any other accepts it exactly when two tags collide |
| Hmac433.ResyncAcceptedIff | hmac433.c:27-59 | a resynchronisation packet is accepted if and only if the receiver is not ahead |
| Hmac433.SelfCheckIff | txnc433/libnc.c:136-150 | authentication one counter earlier accepts every packet and lands on the next counter, except a resynchronisation that wraps the counter |
| Hmac433Methods.ReadCounter | hmac433.c:31-39 | the shift and or loop reads the counter from the payload |
| Hmac433Methods.WriteCounter | hmac433.c:87-96 | the shift loop writes the top seven bytes, most significant first |
| Hmac433Methods.Authenticate | hmac433.c:8-60 | whether the packet is accepted, and the new counter, on 64 bit arithmetic that wraps |
| Hmac433Methods.Encode | hmac433.c:62-107 | the counter moved on, and counter and tag filled in |
| CounterProtocol.TransmissionsInOrder | hmac433.c:74-97 | a sender whose counter does not wrap never uses one twice |
| CounterProtocol.AcceptedIff | hmac433.c:21-59 | for every code, the exact result of every packet on the air at every receiver |
| CounterProtocol.NeverTwice | hmac433.c:21-59 | whatever is delivered, repeated or replayed, packets are accepted in the order sent and none twice, in every run in which no tag collides |
| CounterProtocol.AllAccepted | hmac433.c:21-59 | for every code, deliveries that stay within reach of one another are all accepted |
| CounterProtocol.LossTolerance | hmac433.c:23-26 | for every code, a synchronised receiver accepts everything it receives if no more than 255 packets are lost in a row |
| CounterProtocol.OneLossTooMany | hmac433.c:23-26 | after 256 losses in a row the next packet is rejected, unless its tag is also that of the first packet lost |
| CounterProtocol.ResyncRestores | hmac433.c:27-45 | a resynchronisation puts every receiver that is not ahead in step with the sender |
| CounterProtocol.AdvanceCatchesUp | txnc433/libnc.c:95-105 | an advance followed by a resynchronisation reaches a receiver up to 65536 packets ahead |
| Packets.FlagIsCarried | hmac433.h:14-19 | a packet survives the codec if and only if its flag is 0 or 0x80 |
| WireFormat.PacketLayout | hmac433.h:14-19 | payload, low byte of the counter, tag and flag, byte by byte; of a resynchronisation bits 63 to 16 in big endian order, then bits 15 to 8 |
| Libnc.PacketRoundTrip | txnc433/libnc.c:134-144 | decoding what was encoded gives the packet back |
| Libnc.Sender.SelfCheck | txnc433/libnc.c:136-150 | the check of its own packet succeeds unless a resynchronisation wraps the counter |
| Libnc.Sender.Encode | txnc433/libnc.c:107-156 | the message is the encoded packet for the next counter; success, error paths and what is saved |
| Libnc.Sender.Advance | txnc433/libnc.c:95-105 | the counter moves on by 65536 and is saved |
| Mail.CommitIsAtomic | mail.c:20-31 | memory cut off after any of the nine byte writes holds the old counter or, after all of them, the new one, and stays formatted; the other settings are untouched |
| MailMethods.Clock.SaveCounter | mail.c:20-31 | the byte writes, in order, and the memory after them |
| MailMethods.Clock.MailInit | mail.c:43-70 | formatted memory (bytes 0xae and 0xc2 at 0x10 and 0x12) gives the little endian counter in bytes 0 to 7 or 8 to 15 as byte 0x11 is 0 or 1, and is not written; garbage is formatted with counter one; garbage in memory that ignores writes is reported exactly when a check byte is wrong, so with both right and an invalid state byte one is returned although nothing was written |
| MailMethods.Clock.ReceiveMessages | mail.c:137-200 | one pass of the main loop: the receiver's variables cleared as the critical section does, counter, previous packet and memory updated, and every effect in its order |
| MailMethods.Clock.ProcessCode | mail.c:168-199 | a new code that decodes is processed once, one that does not has no effect |
| MailMethods.UndecodableIsDropped | mail.c:170-174 | a code of which no alignment decodes has no effect and changes nothing |
| MailMethods.RebroadcastIsDropped | mail.c:176-180 | nor has any code heard a second time, whatever came of it the first time |
| MailRuns.RepeatIsSilent | mail.c:176-180 | after any packet, accepted or rejected, that packet is the one remembered, so that the same again has no effect |
| MailRuns.NewPacketIsHandled | mail.c:182-199 | any other packet is rejected, which is shown and changes neither counter nor memory, or accepted by the exact test, stored with nine writes and then performed |
| MailRuns.CutWhileSaving | mail.c:182-199 | a power cut after any of the effects of an accepted packet leaves the old counter or the new one, and the action done only if everything was done |
| MailRuns.RunSafe | mail.c:62-70 | over every run of packets, repeats and power cuts at any point, actions performed have strictly increasing counters and a reboot finds the counter last committed |
| MailRuns.AcceptedAgainIff | hmac433.c:21-59 | a packet that was accepted is accepted again exactly when it is an ordinary one whose tag is also that of the counter 256 further on |
| MailRuns.FilterChangesIff | mail.c:176-187 | the filter changes what a packet does exactly when it drops one that would have been accepted |
| MailRuns.FirstPacketLostIff | mail.c:176-180 | a clock just booted loses a first packet of fourteen zeros exactly when that packet is authentic |
| MailRuns.FirstPacketLost | mail.c:176-180 | with a code whose tags are all zero, that first packet is dropped by the filter and performed without it |
| MailRuns.FilterIsTransparent | mail.c:176-180 | with the filter or without it the clock ends in the same state, having performed the same actions, if no accepted tag collides and no authentic packet of zeros arrives while the filter holds its initial one |
| MailRuns.BootIsConsistent | mail.c:62-70 | a clock just booted from formatted memory is in the state the two results above start from |
| Handoff.StartIsSafe | rx433.c:22-29 | the shared variables start out with the hand-over invariant |
| Handoff.StepSafe | mail.c:145-156 | every interrupt, at any time, and every step of the main loop keeps the hand-over invariant |
| Handoff.NeverTorn | mail.c:145-156 | however interrupts fall between the byte copies, every message and every Home Easy code taken is the one published last, whole, and none is taken twice |
| Handoff.NoInterruptInside | mail.c:145-156 | inside the critical section only the main loop moves |
| Handoff.CopyCompletes | mail.c:151-156 | a message whose copying has begun is taken when the pass ends, with interrupts back on and the flag cleared |
| Handoff.PassIsOneStep | mail.c:145-156 | byte by byte the critical section does what it does in one step, from every state of the receiver |
| EndToEnd.HeardThroughNoise | mail.c:168-199 | a message with at most five wrong symbols has the effects of the packet sent |
| EndToEnd.RequestIsObeyed | mail.c:137-200 | for every code, a request sent as a frame with displaced edges is published, decoded, authenticated, committed and performed |
| EndToEnd.CutRequestIsObeyed | rx433.c:165-171 | so is one whose frame breaks off after at least 26 symbols, when the next edge arrives |
| EndToEnd.BrokenRequestIsObeyed | rx433.c:165-171 | and one that breaks off at any later edge, in the middle of a symbol too, after the next quiet gap |
| Sha256.PaddingIsShortest | sha256.c:118-144 | the padded message is a whole number of blocks, and the shortest that holds the nine extra bytes |
| Sha256.PaddingIsInjective | sha256.c:118-144 | different messages are padded differently |
| Sha256Methods.ExpandSchedule | sha256.c:48-51 | the message schedule of section 6.2.2 of FIPS 180-4 |
| Sha256Methods.RunRounds | sha256.c:62-73 | its sixty-four rounds |
| Sha256Methods.Context.Transform | sha256.c:44-83 | the state becomes the compression of state and block |
| Sha256Methods.Context.AddByte | sha256.c:103-111 | one more byte, hashing the buffer when it is full |
| Sha256Methods.Context.Update | sha256.c:99-112 | the message hashed so far grows by the bytes given, however it is split |
| Sha256Methods.Context.Final | sha256.c:114-158 | the digest is that of the padded message of section 5.1.1 of FIPS 180-4, in one last block or two |
| Hmac.FillPad | hmac.c:19-27 | key, as much of the counter as fits, and zeros, xored with the inner pad |
| Hmac.ToOuterPad | hmac.c:33-35 | xoring again in place gives the outer pad |
| Hmac.HmacSha256 | hmac.c:6-40 | the digest is that of section 2 of RFC 2104, with the digest buffer used for the inner hash as well |
| Hmac.KeyFits | hmac.c:19-27 | for keys of at most 56 bytes the key is the secret followed by the eight counter bytes |
| Hmac.MacIs | hmac433.c:17-19 | the tag of a packet is the head of that digest, the secret being cut to 56 bytes |
| Hmac.KeysDiffer | hmac.c:22-24 | no two counters share a key |
| Sha256Standard.RoundConstantsAre | sha256.c:32-41 | the constants are the first 32 bits of the fractional parts of the cube roots of the first sixty-four primes, section 4.2.2 of FIPS 180-4 |
| Sha256Standard.InitialHashIs | sha256.c:85-97 | the initial hash those of the square roots of the first eight, section 5.3.3 |
| Sha256Standard.BigSigmas | sha256.c:26-27 | every bit is the sum modulo two of the bits 2, 13 and 22, or 6, 11 and 25 places up |
| Sha256Standard.SmallSigmas | sha256.c:28-29 | likewise with 7, 18 and a shift by 3, and 17, 19 and a shift by 10 |
| Sha256Standard.ChooseAndMajority | sha256.c:24-25 | bit by bit a choice and a majority |
| Sha256Standard.WordIs | sha256.c:48-49 | a word of the block has its first byte on top |
| Sha256Standard.ScheduleIs | sha256.c:50-51 | the words of the schedule as sums modulo 2^32 |
| Sha256Standard.RoundIs | sha256.c:62-73 | a round with all sums taken at once modulo 2^32 |
| Sha256Standard.PaddingIs | sha256.c:120-143 | 0x80, zeros, and the length in bits in eight big endian bytes |
| Sha256Standard.DigestIs | sha256.c:146-157 | the digest is the hash word by word, most significant byte first |
| Sha256Standard.HmacIs | hmac.c:19-39 | section 2 of RFC 2104 with pads 0x36 and 0x5c and a key filled up with zeros |
| Sha256Standard.TagIs | hmac433.c:17-19 | the tag is six bytes of it, under at most 56 bytes of secret and the counter in little endian order |
| Alarm.RebootUnnoticedIff | alarm.c:124-138 | a reboot changes nothing exactly when the alarm time is one of the day |
| Alarm.RebootsUnnoticed | alarm.c:124-138 | reboots anywhere in a run of operations that set times of the day change no result and no state |
| Alarm.OneEpisode | alarm.c:70-121 | after one setting, for every series of updates, the alarm sounds in exactly one stretch: from the first update inside the ten minutes that follows one outside to the next one outside |
| Alarm.MinuteIs | alarm.c:72-85 | minute k + 1 of the sounding time, k from 0 to 9, is the time k minutes after the alarm time modulo 1440, and no other time is one |
| Alarm.SoundsWhenSet | alarm.c:31-121 | set for a time of the day and updated outside those ten minutes, the next update k minutes after that time returns k + 1, and at any other time zero |
| Alarm.StopsAfterTen | alarm.c:88-98 | while it sounds an update k minutes after the alarm time returns k + 1 and any other disables it |
| Alarm.UnsetIsSilent | alarm.c:44-52 | after alarm_unset every update returns zero, across reboots, until the alarm is set again |
| Alarm.SetAgainKeepsTime | alarm.c:54-59 | alarm_reset keeps a time of the day |
| Alarm.CountsToTen | alarm.c:68-121 | with an update at least once a minute the stretch counts from one to ten without a gap |
| AlarmMethods.AlarmClock.FindMinute | alarm.c:72-85 | the search loop returns k + 1 exactly at the time k minutes after the alarm time, across midnight, for k below ten, and otherwise zero |
| AlarmMethods.AlarmClock.UpdateAlarm | alarm.c:70-121 | new state, what is saved and the result, in every state |
| AlarmMethods.AlarmClock.SetAlarm | alarm.c:31-41 | the time and state set, saved, and whether the state changed |
| AlarmMethods.AlarmClock.ResetAlarm | alarm.c:54-59 | the alarm set again for the time it has |
| AlarmMethods.AlarmClock.Get | alarm.c:62-66 | hour and minute give back a valid time |
| AlarmMethods.AlarmClock.AlarmInit | alarm.c:124-138 | the alarm is the one saved, times and states that are invalid being replaced |
| SendQueue.IdleIsValid | home_easy.py:102-104 | the server as constructed satisfies the invariant |
| SendQueue.RunValid | home_easy.py:173-218 | in every run exactly one call of send_next is pending while anything is queued and none otherwise, due no earlier than 2.5 seconds after the last send and at most 0.05 seconds after the later of that and the clock; items are sent once each in the order they came, at least 2.5 seconds apart |
| SendQueue.NextValid | home_easy.py:173-218 | a call that is made sends the first item queued, and an item that arrives is sent at once if nothing is queued and sending is allowed |
| SendQueue.EachCallSends | home_easy.py:192-218 | every call the timer makes sends one item, so as many calls as there are items empty the queue |
| SendQueue.Server433.SendNext | home_easy.py:192-218 | one call: what is sent, when sending is allowed next, and the call that is scheduled |
| SendQueue.Server433.TimerFires | home_easy.py:218 | the reactor makes the call that is due |
| SendQueue.Server433.DatagramReceived | home_easy.py:173-176 | an accepted item is queued and sent at once if it is alone |

## Left out

- Soundness.AnswerIsCodewordIff: beyond five errors only termination, array bounds and this condition are proved, because the decoder gives no other guarantee there.
- RsTables.RsInit: the parameters are those of `ncrs.c:13-17`; allocation failures and the primitivity exit cannot occur for them and are not modelled, nor are other symbol sizes (the field law would fail for a composite nn that passes the test at `reed_solomon.c:137`).
- RsDecoder.DecodeRs8: erasures, syndromes and correction buffers supplied by the caller, the inversion mask and the 16 bit variants are not modelled, because `ncrs.c` never uses them; lengths other than 21 are not used either; errors in the parity symbols are counted but, as in the code, not corrected.
- Libnc.Sender.Encode: opening and writing the secret file is a flag that says whether it worked.
- CounterProtocol.NeverTwice: a run in which a tag of 48 bits collides is excluded, and nothing is said about how likely that is; what is accepted in reach is proved for every code, including `Hmac.MacOf`.
- CounterProtocol.TransmissionsInOrder: counters within 257 of the 64 bit wrap are excluded; `Hmac433.OrdinaryWraps` and `Hmac433.SelfCheckIff` say exactly what happens there.
- MailRuns.RunSafe: a power cut while garbage memory is being formatted (`mail.c:47-55`) is excluded; only memory that is already formatted is protected. Memory that ignores writes is modelled in `MailMethods.Clock.MailInit` and `MailMethods.Clock.ReceiveMessages` only.
- StrayEdges.StrayEdge: it is about one noise edge after the second edge of a symbol that is not at the place for a bit; what any other does in one step is in `EdgeTable`, but not what becomes of the whole frame. Home Easy codes that such noise might complete are not excluded there, only by `HomeEasySoundness.OnlyFramesArePublished`.
- HomeEasySoundness.OnlyFramesArePublished: the decoder is reset at the start of the run, as it is when the receiver is switched on and after any gap that is none of its own.
- Sha256Standard.RoundIs: no published test vector is evaluated; constants, functions, byte orders and pads are tied to the standard one by one instead.
- RadioLink.CutAnywhere: of the places in the published message after the symbols that came whole it says only that they hold symbols, and the next edge comes after a quiet gap; `RadioLink.CutFrame` gives those places and any later edge when the break is between symbols.
- Alarm.RebootsUnnoticed: a power cut between the three byte writes of `alarm.c:25-27` is excluded, because those writes are not protected.
- Sha256Methods.Context.Update: one call takes less than 2^32 bytes, because its loop counter has 32 bits, and the whole message less than 2^61.
- SendQueue.RunValid: sending always succeeds, the clock does not go back, and the reactor calls nothing early; times are real numbers.
- The mask `& ~0xff` and the shifts of `rx433.c`, `ncrs.c` and `alarm.c` are written as division and multiplication by powers of two; the loops over bits and bytes are kept.
- `micros()`, the main loop around `mail_receive_messages`, the display, sound and LED effects of `cpeclock.ino`, and the dispatch of payloads in `new_packet`.
- GPIO and pigpio calls; the waveform handed over is the list of pulses.
- `write_energenie`: no receiver for it exists in the repository.
- `home_easy.py` beyond the send queue: names of lights, parsing of datagrams, and the fan-out to other services.
- `list.h` and the registry of control structures, `night_day_time.c`, `txnc433/udp.c` and `txnc433/txnc433.c`.
- Where code and documentation disagree the code is followed: the repository's `README.md:52-54` splits the 105 bits into 56 and 48 and one unused, the packet of `hmac433.h:14-19` has 48 bits of payload, 8 of counter, 48 of tag and one flag; the comment at `decode_rs.h:182` calls lambda[0] zero, it is one; `rslib.h:104-105` warns against plain modulo, which the loop agrees with for every value.
