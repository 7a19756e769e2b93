# dfu-util over QDA: the transfer stack

This project models the part of dfu-util that moves firmware through the QDA back end,
and proves what it delivers:

- XMODEM-CRC (`src/qda/xmodem.c`): both parties byte by byte against any script of bytes and
  timeouts, and the two joined by a faulty line.
- The two checksums: the 16-bit frame check of `src/qda/xmodem.c` (generator of ITU-T V.41)
  and the table-driven CRC-32 of `src/dfu_file.c`.
- The DFU file format of `src/dfu_file.c`, with the suffix of Appendix B of USB DFU 1.1 and
  the Stellaris (LM) and LPC prefixes.
- The QDA requests of `src/qda/qda.c` and the download and upload loops of `src/dfu_load.c`
  (sections 6.1 and 6.2 of USB DFU 1.1), composed with the XMODEM line into end-to-end
  statements.

`dafny verify dfyconfig.toml` checks everything.

## How it is laid out

| file | content |
|---|---|
| `Gf2.dfy` | division of bit strings by a generator: linearity, invertibility, bursts, parity |
| `Words.dfy` | bytes and words as naturals, exclusive or, their bits, and how they are stored |
| `Crc16.dfy`, `Crc32Table.dfy`, `Crc32.dfy` | the two checksums and what they detect |
| `DfuFormat.dfy`, `DfuFile.dfy` | the file format with its theorems, and the code that writes and reads it |
| `XmodemProtocol.dfy`, `Xmodem.dfy` | the parties as machines, and the code on its static packet buffer, proved to run them |
| `StopAndWait.dfy` | sender, receiver and faulty line as one system |
| `FrameDamage.dfy` | which damage to a frame the receiver notices |
| `ReceiverAnswers.dfy` | what the receiver makes of each thing that arrives, whoever sent it |
| `Qda.dfy`, `DfuLoad.dfy` | requests, exchanges and the two transfer loops |
| `DfuBlocks.dfy`, `EndToEnd.dfy`, `UploadEndToEnd.dfy`, `FaultFree.dfy` | whole downloads and uploads over the faulty line |
| `UploadFaults.dfy`, `TransferResults.dfy` | answers that break off, and what the results of the loops tell |
| `DeviceAnswers.dfy` | what the calls and the download loop make of an answer's bytes, of whatever kind it is |

Code that updates memory is a method on a class or an array, proved equal to a function
(`Transmit`, `Receive`, `Exchange`, `Download`, `Upload`, `Stored`, `Load`); the theorems are
about those functions. The serial line is a script of bytes and timeouts with silence after
its end, so nothing is assumed of the peer at that level. `xmodem_set_timeout` and the
waits have no counterpart; a timeout is an event.

## The line

In the composed system the receiver's byte and the sender's frame alternate in rounds. In
each round what the sender has put on the line passes, or the receiver reads something
bad instead; then the receiver's answer passes, is lost, or becomes another byte. The
assumptions are:

- no answer arrives after its timeout (an ACK carries no number, so a late one would be
  taken for the next frame's);
- a damaged frame is one the receiver reads as `ERR`. For a frame that keeps its SOH,
  `FrameReadsBadIff` says exactly when it is. Odd numbers of wrong bits are, and bursts of
  up to 8 bits anywhere and of up to 16 in payload and check field (`DamageIsNoticed`). The
  CRC does not cover the two number bytes, so a burst of 10 bits there can turn a frame
  into the repeat of the one before, which is acknowledged and dropped
  (`HeaderBurstPasses`); such damage, and an SOH that becomes EOT, the line is assumed
  not to do. `BadIsBadArrival` shows that on any script the receiver's `ERR` comes from one
  of the arrivals the line may substitute;
- a garbled answer is never an ACK.

For uploads the device serves its image in stretches of the transfer size, up to the first
short one, which may be empty. Nothing else is assumed of device firmware.

## Where the obvious claim fails

- The duplicate test (`src/qda/xmodem.c:311`) is done in `int`, so once the expected number
  has wrapped to 0 frame 255 is no duplicate: the receiver may cancel from 255 frames on,
  and exactly then or when its buffer is too small (`NeverCancelsIff`).
- The sender's result (`src/qda/xmodem.c:442`) is computed from the 8-bit number: it is the
  byte count up to 254 frames only, and -128 after 255. Runs without a fault reach the wrong
  value for every greater number (`SenderReturns`, `ReturnsLengthIff`).
- A block length goes through `uint16_t` (`src/qda/qda.c:172`, `src/dfu_load.c:128`), so a
  first block of 65536 bytes or more may be delivered truncated (`AlwaysPrefixIffSound`).
  `src/main.c:741-748` caps the transfer size at the page size, so this takes a MinGW build,
  64 KiB pages or another caller.
- `dfuload_do_dnload` returns `bytes_sent` after errors too (`src/dfu_load.c:203`), and
  `src/main.c:795` looks for a negative result only. A count of the whole image means a
  completed download exactly where the image is empty or a block of it is refused
  (`ReturnTellsIff`).
- `dfuload_do_upload` computes the byte count and returns 0 (`src/dfu_load.c:83`, `:88`): its
  result is 0 or -1, and the count only of an upload of nothing (`UploadReturns`).
- An upload with a transfer size of 65536 or more stops after one call, as the length asked for
  goes through `uint16_t` and is compared with the full size (`src/dfu_load.c:67-81`,
  `HugeTransferIsOneCall`).
- The result of `receive` is ignored (`src/qda/qda.c:218`), so an upload block whose answer
  broke off is completed from what `qda_buf` held (`UploadYields`). A call is right whatever
  the line does exactly if the buffer holds the rest already (`AlwaysRightIff`), and an upload
  that returns 0 is exactly for transfer sizes of up to 122 bytes (`UploadsRightIff`).
- `qda_dfu_upload` compares the announced length with its caller's but not with `qda_buf`
  (`src/qda/qda.c:224-225`), so it can read beyond the buffer exactly for lengths above
  8186 (`StaysInBufferIff`).
- `probe_prefix` can fail and leave `size.prefix` set (`src/dfu_file.c:95-107`), after which
  the file cannot be stored (`LoadedIsStorableIff`).
- A payload that begins like a prefix does not survive a store without one
  (`RoundTripWithoutPrefix`), and the first store of an LPC prefix counts a payload that the
  second counts with its prefix (`LpcStoreIsFixedPointIff`, `LpcFirstStoreIff`).

Code and comments disagree in these places, and the model follows the code: the CRC starts
at 0 (`src/qda/xmodem.c:90`), not 0xffff (`:80`); the padding of the last frame is the
buffer's previous content (`:136`), not random (`:122`); the receiver does stop by itself
(`:364`), although `src/qda/xmodem.h:41` says it does not time out.

## Model

| member | source | states |
|---|---|---|
| `StopAndWait.Reachable` | src/qda/xmodem.c:338-443 | In every state of sender, receiver and line, for every fate of every round, the joint invariant holds: the receiver holds a prefix of the padded data; and its expected number is the sender's or the next, also once either has stopped |
| `StopAndWait.StepKeeps` | src/qda/xmodem.c:364-394 | Any one possible round keeps that invariant |
| `StopAndWait.Agreement` | src/qda/xmodem.c:425-442 | If either side returns success the receiver holds exactly the data padded to whole frames with the sender's old buffer content, and has returned that length; a successful sender implies a successful receiver |
| `StopAndWait.BudgetsFit` | src/qda/xmodem.c:170-186 | The receiver never uses up its five errors while the sender has a try left; while it runs, its errors stay below the failed waits before the first 'C' arrives, and then within 2 (nothing received yet) or 1 (later) plus the failed tries of the current frame or of EOT |
| `StopAndWait.NeverCancelsIff` | src/qda/xmodem.c:311-330 | No run is answered with CAN if and only if there are at most 254 frames and the buffer has room for all of them |
| `StopAndWait.SenderReturns` | src/qda/xmodem.c:429-442 | The value of a successful sender is the number of bytes sent if and only if at most 254 frames went out, and negative if and only if their number is 255 modulo 256 |
| `StopAndWait.ReturnsLengthIff` | src/qda/xmodem.c:429-442 | That value is the number of bytes sent in every successful run if and only if there are at most 254 frames, or more than the receiver has room for |
| `StopAndWait.SureSuccess` | src/qda/xmodem.c:167-219 | If one 'C' arrives, each frame has a fault-free try among three and EOT's first arrival within three is acknowledged, both sides succeed with all the data |
| `StopAndWait.RoundsAreRuns` | src/qda/xmodem.c:338-443 | The rounds are runs of the two functions: on the bytes it hears in them, each ends in its party's state, having read and written exactly its side |
| `FrameDamage.FrameReadsBadIff` | src/qda/xmodem.c:297-309 | A frame with its SOH reads as bad if and only if its two number bytes were changed differently, or the change of payload and check field is no multiple of the generator |
| `FrameDamage.HeaderReadsBadIff` | src/qda/xmodem.c:305-309 | Damage to the number bytes alone reads as bad if and only if they were changed differently |
| `FrameDamage.DamageIsNoticed` | src/qda/xmodem.c:297-309 | An odd number of wrong bits anywhere after SOH, a burst of at most 8 anywhere there, or of at most 16 in payload and check field, reads as bad |
| `FrameDamage.HeaderBurstPasses` | src/qda/xmodem.c:305-314 | Frame 2 with a burst of 10 bits in its number bytes is taken for a repeat of frame 1; and a burst of 9 bits can pass the checks |
| `ReceiverAnswers.ExpectedIsStored` | src/qda/xmodem.c:364-382 | An intact frame with the expected number and room for it is stored and answered ACK, and the errors are forgotten |
| `ReceiverAnswers.RepeatIsAcknowledged` | src/qda/xmodem.c:311-314 | The frame just before it is answered ACK; data, number and error count stay |
| `ReceiverAnswers.OtherIsCancelled` | src/qda/xmodem.c:315-330 | Every other number, or no room, ends with -1, the data so far, and CAN as the last byte sent |
| `ReceiverAnswers.EndIsAcknowledged` | src/qda/xmodem.c:383-386 | EOT is answered ACK and ends with the length stored |
| `ReceiverAnswers.BadIsComplainedOf` | src/qda/xmodem.c:390-400 | A bad arrival is answered 'C' before the first frame and NAK from then on |
| `ReceiverAnswers.GivesUpAtFive` | src/qda/xmodem.c:364-393 | The fifth bad arrival since a frame was stored ends with -1, and none before it, whatever repeats come between |
| `ReceiverAnswers.CutOffLeavesItsBytes` | src/qda/xmodem.c:285-295 | A packet cut off by a timeout leaves its bytes in the packet buffer |
| `StopAndWait.BadIsBadArrival` | src/qda/xmodem.c:252-309 | On any script, what is read as bad is silence, a stray byte with what follows, a cut-off packet or one that fails the checks |
| `XmodemProtocol.ReceiveBounds` | src/qda/xmodem.c:361-394 | On any script the receiver stops; received and free bytes add up to the buffer, what is received stays, and the expected number counts frames modulo 256 |
| `XmodemProtocol.TransmitBounds` | src/qda/xmodem.c:404-443 | Against any peer the sender ends, with at most 3(133n + 1) bytes written and 3(n + 2) reads for n frames |
| `XmodemProtocol.FramedIsIntact` | src/qda/xmodem.c:128-149 | A framed packet passes the receiver's own checks and carries the chunk followed by the buffer's old bytes |
| `Xmodem.CrcXmodem` | src/qda/xmodem.c:86-115 | The nested loops on the packet buffer compute the checksum of its payload |
| `Xmodem.Port.SendPkt` | src/qda/xmodem.c:128-149 | The buffer becomes the framed packet and exactly its 133 bytes go out |
| `Xmodem.Port.SendPktWithRetry` | src/qda/xmodem.c:167-187 | At most three tries of one frame, as the sender machine makes them; a retry sends the same bytes |
| `Xmodem.Port.SendByteWithRetry` | src/qda/xmodem.c:202-219 | At most three tries of EOT, as the sender machine makes them |
| `Xmodem.Port.TransmitPackage` | src/qda/xmodem.c:404-443 | Result, bytes written, number of reads, script left and final buffer are those of the sender machine, on every script |
| `Xmodem.Port.ReadPacket` | src/qda/xmodem.c:242-336 | One packet read as the machine reads it, on every script; the payload lands at its place if and only if it is the expected one and fits |
| `Xmodem.Port.ReceivePackage` | src/qda/xmodem.c:338-402 | Result, bytes written, script left and final buffers are those of the receiver machine; no byte outside those received is changed |
| `Crc16.ShiftInRefines` | src/qda/xmodem.c:95-101 | Through its low 16 bits the 32-bit register with uncleared high bits is the textbook register at each message bit |
| `Crc16.ShiftZeroRefines` | src/qda/xmodem.c:107-112 | And at each appended zero bit, although the test is made before the shift there |
| `Crc16.CrcRefines` | src/qda/xmodem.c:86-115 | For every message the result is the remainder with 16 zero bits appended, and equally that of the direct register |
| `Crc16.ChecksIffDivides` | src/qda/xmodem.c:298-309 | The receiver's comparison succeeds if and only if payload and check field together are a multiple of the generator |
| `Crc16.BurstDetected` | src/qda/xmodem.c:298-309 | Every error within 16 consecutive bits of payload and check field is rejected, for every length |
| `Crc16.OddErrorDetected` | src/qda/xmodem.c:298-309 | So is every error of an odd number of bits |
| `Crc16.CrcKeepsParity` | src/qda/xmodem.c:86-115 | The check field has the bit parity of the payload |
| `Gf2.AugmentedIsDirect` | src/qda/xmodem.c:90-112 | The division with zero bits appended equals the one without, for any generator |
| `Gf2.BurstChangesRemainder` | src/qda/xmodem.c:92-112 | Messages that differ only within the generator's width have different remainders, from linearity and invertibility of the step |
| `Gf2.OddErrorChangesRemainder` | src/qda/xmodem.c:92-112 | With a generator of even weight, so have messages at odd distance |
| `Crc32.TableIsDivision` | src/dfu_file.c:39-82 | Each of the 256 table entries is the division of its index by 0xEDB88320, reflected |
| `Crc32.Crc32ByteIsSerial` | src/dfu_file.c:84-87 | One table step equals eight bit-serial shifts, for every accumulator and byte |
| `Crc32.SerialRefines` | src/dfu_file.c:169-171 | The bit-serial form is polynomial division of the whole message, from any start value |
| `Crc32.ResidueIffStored` | src/dfu_file.c:418-423 | Going on over four bytes gives 0 if and only if they are the checksum, low byte first |
| `Crc32.WindowChangesCrc` | src/dfu_file.c:260-261 | Changing any four consecutive bytes of any message changes the checksum |
| `DfuFormat.SuffixIffResidue` | src/dfu_file.c:251-280 | A suffix is seen if and only if the file is long enough, the signature is there and the checksum of the whole file is 0 |
| `DfuFormat.DamagedSuffixIsMissing` | src/dfu_file.c:260-280 | Changing up to four consecutive bytes of a suffixed file anywhere, across the CRC field too, makes the suffix missing |
| `DfuFormat.StoredSuffixIsFound` | src/dfu_file.c:399-424 | The suffix written is found again with all its fields |
| `DfuFormat.RoundTripWithPrefix` | src/dfu_file.c:347-426 | Payload, identifiers, prefix type and length come back, and an LM address as (address/1024 mod 65536)·1024; asked for no suffix or no prefix, the loader refuses |
| `DfuFormat.RoundTripWithoutPrefix` | src/dfu_file.c:89-108 | Without a prefix everything comes back if and only if the stored bytes do not begin with a prefix signature; and what the loader does for each suffix and prefix request |
| `DfuFormat.LmStoreIsFixedPoint` | src/dfu_file.c:358-376 | Storing a loaded LM file again gives the same bytes |
| `DfuFormat.LpcStoreIsFixedPointIff` | src/dfu_file.c:377-392 | For LPC if and only if the length field already counted the prefix |
| `DfuFormat.LpcFirstStoreIff` | src/dfu_file.c:382-388 | An LPC file stored from one without prefix is a fixed point if and only if its payload's length modulo 512 lies from 1 to 496 |
| `DfuFormat.LpcSecondStoreIsFixedPoint` | src/dfu_file.c:377-392 | From the second store on LPC files are fixed points |
| `DfuFormat.PlainStoreIsFixedPointIff` | src/dfu_file.c:394-424 | Without a prefix if and only if the stored bytes begin with no signature |
| `DfuFormat.LoadedIsStorableIff` | src/dfu_file.c:89-108 | A loaded file can be stored if and only if no signature claims more bytes than the file has besides its suffix |
| `DfuFormat.LoadWithoutSuffix` | src/dfu_file.c:187-326 | For all bytes too short, without the signature or with a checksum other than 0: the exit or the loaded struct for each suffix and prefix request, from a file or stdin; suffix and bcdDFU 0, identifiers 0xffff, prefix from the first bytes |
| `DfuFormat.LoadWithSuffix` | src/dfu_file.c:282-326 | For all others: the exits for a length byte below 16 or beyond the file, and else every field from its place |
| `DfuFormat.StoredBytes` | src/dfu_file.c:356-424 | The bytes of a stored file: LM address and payload length, LPC length in blocks rounded up and filler, payload, suffix fields, and the checksum of all of it 0 |
| `DfuFormat.PrefixLeftSet` | src/dfu_file.c:95-107 | Eight bytes on which the probe fails and leaves a prefix of 16 |
| `DfuFiles.WriteCrc` | src/dfu_file.c:165-178 | The buffer is appended to the file and the checksum run on over it |
| `DfuFiles.DfuFile.Store` | src/dfu_file.c:347-426 | The file written is exactly the stored form, with one running checksum over prefix, payload and suffix |
| `DfuFiles.DfuFile.WritePrefix` | src/dfu_file.c:357-393 | The arrays filled byte by byte are the prefix of the format |
| `DfuFiles.DfuFile.WriteSuffix` | src/dfu_file.c:399-424 | So is the suffix, with the checksum of all before it |
| `DfuFiles.DfuFile.Load` | src/dfu_file.c:180-345 | Every field after a load, and every error exit in its order, for any bytes |
| `DfuFiles.DfuFile.ReadSuffix` | src/dfu_file.c:244-304 | The suffix parser's fields and exits, including dwCRC set before a mismatch |
| `DfuFiles.DfuFile.ProbePrefix` | src/dfu_file.c:89-108 | Which fields the probe sets and when it fails |
| `QdaPackets.DownloadSurvivesPadding` | src/qda/qda.c:179-190 | A DNLOAD request of up to 8184 bytes decodes to its number and data whatever padding follows |
| `QdaPackets.UploadSurvivesPadding` | src/qda/qda.c:210-216 | A padded UPLOAD request decodes to its length and its number |
| `QdaPackets.StatusSurvivesPadding` | src/qda/qda.c:238-241 | A padded GETSTATUS request decodes to itself, and so to no block |
| `QdaPackets.RequestBytes` | src/qda/qda_packets.h:28-78 | The three requests byte by byte, low bytes first |
| `DeviceAnswers.DownloadReturnsZeroIff` | src/qda/qda.c:189-198 | The call returns 0 if and only if the request was sent, a frame of the answer was taken, and that begins 03 80 55 4D |
| `DeviceAnswers.StatusReadIff` | src/qda/qda.c:241-253 | The call succeeds if and only if a frame beginning 03 81 55 4D was taken; state, status and poll timeout are its bytes 9, 8 and 4 to 7 |
| `DeviceAnswers.StatusComesBack` | src/qda/qda_packets.h:118-126 | A GETSTATUS response built from its fields comes back with all three |
| `DeviceAnswers.UploadOnAnyAnswer` | src/qda/qda.c:216-229 | For any answer: data if and only if a frame beginning 02 81 55 4D was taken that announces no more than was asked for and fits the buffer; the data are that many bytes from offset 6; else failure, or a read beyond the buffer |
| `DeviceAnswers.LegLeads` | src/dfu_load.c:128-201 | From any stage, where one request and the bytes of its answer lead the download: an unacknowledged block ends it with `bytes_sent` as it was, an unacknowledged completion request through errx |
| `DeviceAnswers.WaitingStays` | src/dfu_load.c:137-151 | While the answers carry a state other than dfuDNLOAD-IDLE and dfuERROR, or after completion a manifestation state, only statuses are requested, and bytes and block number stay |
| `DeviceAnswers.WaitingEnds` | src/dfu_load.c:144-201 | k waiting answers and one that ends the waiting mean exactly k + 1 status requests; status OK then leads to the next block or the completion request, any other to no further request |
| `DeviceAnswers.BlockRound` | src/dfu_load.c:118-161 | An acknowledged block with k busy answers and an idle one: its request, k + 1 status requests, then the next block's |
| `DeviceAnswers.SessionSplit` | src/dfu_load.c:118-201 | A session may be cut anywhere: requests and blocks of the parts add up |
| `Qda.Session.SendAndReceive` | src/qda/qda.c:189-192 | Sending the front of the buffer and receiving the answer into the same buffer is one exchange; the receive result is dropped |
| `Qda.Session.Download` | src/qda/qda.c:172-199 | Builds the request in place, refuses what does not fit, and judges the answer by its type alone |
| `Qda.Session.Upload` | src/qda/qda.c:201-230 | The bytes an answer announces, from the buffer, if its type is right and its length no more than asked for; or that they reach beyond the buffer |
| `Qda.Session.GetStatus` | src/qda/qda.c:232-254 | Status, state and poll timeout from their places in the answer |
| `DfuLoad.DoDnload` | src/dfu_load.c:102-205 | Loop, polling and completion run the download machine; what is returned, and when it leaves through errx |
| `DfuLoad.PollDownload` | src/dfu_load.c:137-159 | The polling loop ends at dfuDNLOAD-IDLE, dfuERROR or a failed status call |
| `DfuLoad.DoUpload` | src/dfu_load.c:52-100 | The file written, the total, the result and the errx exits are those of the upload machine |
| `DfuBlocks.BlockList` | src/dfu_load.c:118-165 | The block list has one block for each stretch of xfer bytes, number i modulo 65536, and one empty block; together they are the image |
| `EndToEnd.SessionIsRun` | src/dfu_load.c:113-201 | A session over the faulty line is a run of the download machine on the bytes its legs deliver |
| `EndToEnd.DownloadDelivers` | src/dfu_load.c:113-169 | Over every session the blocks the far end decodes are a prefix of the block list; together they are the bytes counted in bytes_sent or one block more; they are the whole list if the completion request succeeded |
| `EndToEnd.DownloadReturns` | src/dfu_load.c:203-204 | On the script of a session that has ended, the machine ends in the session's last state, with its bytes_sent |
| `EndToEnd.AlwaysPrefixIffSound` | src/qda/qda.c:172-187 | Every session delivers a prefix of the list if and only if the first block is shorter than 65536 bytes or what uint16_t leaves of its length is refused |
| `EndToEnd.ExchangeOnLeg` | src/qda/qda.c:187-195 | An exchange succeeds if and only if the sender does; the answer lies over the request in the buffer |
| `EndToEnd.RequestNeverCancelled` | src/qda/qda.c:51 | Every request fits an 8192-byte buffer and stays clear of the sequence wrap, so it is never answered with CAN |
| `EndToEnd.HeardIsSettled` | src/qda/xmodem.c:338-402 | What the host hears in the rounds of an answer ends its receiving, whatever follows |
| `UploadEndToEnd.UploadYields` | src/qda/qda.c:218-229 | For an answer cut off anywhere: failure before the first frame, else the announced length with the missing bytes those of the old buffer |
| `UploadFaults.AlwaysRightIff` | src/qda/qda.c:216-229 | A call whose request is sent fails or yields the device's bytes, over every fate of the line, if and only if qda_buf already holds the block's bytes from 122 on |
| `UploadFaults.AttemptsAreRun` | src/dfu_load.c:65-88 | A series of served blocks whose answers may break off is a run of the upload machine |
| `UploadFaults.UploadsRightIff` | src/dfu_load.c:65-88 | An upload that returns 0 has written the image, for every image and every fate of the answers, if and only if the transfer size is at most 122 |
| `UploadFaults.StaysInBufferIff` | src/qda/qda.c:222-225 | Nothing the line delivers makes the call read beyond qda_buf if and only if the length asked for is at most 8186 |
| `UploadEndToEnd.AnswerLandsInBuffer` | src/qda/qda.c:216-223 | After an exchange the buffer is what was taken of the answer, over the request, over the old content |
| `UploadEndToEnd.UploadInverts` | src/dfu_load.c:65-88 | From a device that serves an image the file written is the image and the result 0, after one call more than there are full stretches, for exact multiples and past the wrap of the block number |
| `FaultFree.DownloadEnds` | src/dfu_load.c:118-204 | On a fault-free line a download of which no further block is refused completes from every stage; with an error reported for the last block the same bytes are counted and no completion is asked for |
| `DownloadResult.ReturnTellsIff` | src/dfu_load.c:113-204 | Over every session, a return of the image's length means that the completion request was acknowledged if and only if the image is empty or one of its blocks is refused; below 64 KiB, the first |
| `UploadResult.UploadReturns` | src/dfu_load.c:65-99 | An upload returns -1 if one of its calls failed and 0 if none did; that is the number of bytes written if and only if none were and no call failed |
| `UploadResult.CallLeads` | src/dfu_load.c:65-88 | Where one call leads an upload: only a full block below 2 GiB in all is followed by another call |
| `UploadResult.HugeTransferIsOneCall` | src/dfu_load.c:67-85 | With a transfer size of 65536 or more an upload is one call, however long the image |
| `UploadResult.UploadBounds` | src/dfu_load.c:76-79 | Every upload ends, and leaves through errx for its size if and only if it has written 2 GiB or more |
| `FaultFree.UploadServes` | src/dfu_load.c:65-87 | Every image can be served in full |

## Left out

- Serial port, termios, the Windows COM code and the RTS detach pulse: foreign calls; the line is a script of bytes and timeouts.
- Real time: the 3000 and 300 ms waits, the poll timeouts and answers later than a timeout.
- `src/main.c`: option parsing, device matching, the status handshake, and the limit on the transfer size.
- Recovery: `dfu_clear_status` and any recovery from dfuERROR, which the QDA shim maps to a state query.
- The libusb and DfuSe branches, whose sources are not part of this model.
- `dfu_progress_bar`, `show_suffix_and_prefix`, messages, the names of states and statuses, and `quirks.c`: display and tables.
- The verbose prefix report of `dfu_load_file`, with its exit for an unknown prefix type.
- `dfu_util_qda.c`: its one conversion, -1 to 0, reaches no caller modelled here.
- The other QDA calls (reset, descriptors, alternate setting, clear status, state, abort, detach): the same exchange with fixed packets.
- Opening, reading and seeking files, stdin, memory allocation and the text of errors: a file is a byte sequence, an exit through `err` or `errx` a value.
- `int` overflow of `data_cnt` and of the sender's result for buffers of 2 GiB and more.
- Device firmware beyond serving blocks: waiting in busy or manifest states follows the script.
- Qda.Session.Upload: says that a copy reaches beyond `qda_buf`, not what it yields there, which C leaves undefined.
- DfuLoad.DoUpload: ends at such a copy.
- DfuFiles.DfuFile.Store: requires prefix and suffix to lie inside the file, since the code subtracts them unchecked and a negative length is undefined behaviour; `DfuFormat.LoadedIsStorableIff` says when a loaded file meets this.
- DfuFiles.DfuFile.WritePrefix: the same restriction, and no `int` overflow of the sum at `src/dfu_file.c:382` within 511 bytes of 2 GiB.
- DfuFiles.DfuFile.Load: input from stdin stays below 2 GiB, where `size.total` would overflow.
- UploadEndToEnd.UploadInverts: the host must have taken each answer whole, which `UploadFaults.UploadsRightIff` shows to be needed; the file is below 2 GiB, where the code exits.
