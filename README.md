# py522 in Dafny

A model of the protocol core of py522, a Python driver for the NXP MFRC522
contactless reader IC. It covers three parts:

- **The RC522 protocol engine** (`Rc522.RC522`, with the pure frame logic
  in `Iso14443`). It has the register-level helpers: starting a command
  with the RcvOff bit, the memoised CRC switches, IRQ polling, the FIFO
  drain and bit-framed transceives. On top of them sit the ISO/IEC
  14443-3 Type A operations:
  - `scan`: REQA/WUPA, then per cascade level the bit-level anticollision
    walk with its in-place merge into the 7-byte command buffer, the BCC
    check and the SELECT.
  - `select`: re-selects a card of known UID.
  - `transceive`, `send`, `halt`, `get_version` and `soft_reset`.
- **The UART register transport** (`Rc522Uart`). It covers the read
  request (the address with bit 7 set, once per value), the write request
  (address/value pairs, built by an appending loop), the write
  acknowledgement check, and the SerialSpeedReg table behind
  `change_baud_rate`.
- **The MIFARE Ultralight C three-pass authentication** (`UltralightC`).

The chip is an abstract register environment. `RC522.script` is the
sequence of values the chip returns to the driver's register reads, in
order. `RC522.log` records every register access (`Read(reg, data)` /
`Write(reg, data)`). A read that asks for more values than the script
holds fails with `Reader("Could not read register value")`, the error
the UART transport raises for a short read.

Two ghost fields record the history:
- `RC522.exchanges` records what went over the air: bit-framed
  transceives, full-byte transceives and transmissions.
- `txMode`/`rxMode` hold the data of the last writes to TxModeReg and
  RxModeReg.

`RC522.Valid()` states that the CRC cache fields (`txCrc`/`rxCrc`, Python's
`_tx_crc_enabled`/`_rx_crc_enabled`) mirror those last writes. Every
operation above the register primitives preserves it. `RegWrite` and
`RegWriteBulk` preserve it only for registers other than TxModeReg and
RxModeReg: a write there changes what the cache must mirror, and only the
CRC switches make one, updating the cache with it.

Python exceptions are a `Result` with the error kinds of
py522/exceptions.py, plus three more:
- `IndexError`, for the anticollision walk's unchecked indexing;
- `TypeError`, only for the as-written collision masking of the finding below;
- `Failure`, for the plain `Exception` of the authentication.

Where the code and its documentation differ, the model follows the code:
- On a collision at bit p, the code keeps bits 0 .. p % 8 of the
  collision byte: the mask `0xFF >> (7 - p % 8)` includes bit p itself.
  It does not force the colliding bit to a chosen value
  (`Iso14443.KeepBeforeCollision`).
- `_wait_rx`/`_wait_tx` poll four times, because `range(1, 5)` has four
  elements.
- The anticollision walk's index errors are explicit `IndexError` outcomes.
  There are three of them: a collision position of -1, a walk that runs
  past bit 40, and a received frame too short for the bytes the merge
  reads.

## Model

| member | source | states |
|---|---|---|
| Rc522.CommandValue | py522/reader/rc522.py:209-214 | The CommandReg value carries the command in its low nibble. Its RcvOff bit 5 is clear exactly for Receive, Transceive and MfAuth. |
| Rc522.RC522.RunCommand | py522/reader/rc522.py:209-214 | Writes exactly that value to CommandReg and nothing else. |
| Rc522.CrcWrites | py522/reader/rc522.py:280-296 | A CRC switch writes 0x80 (on) or 0x00 (off) to its mode register. It writes nothing exactly when the cache already holds the requested state. |
| Rc522.CrcWritesTwice | py522/reader/rc522.py:276-296 | Two switches the same way write the register at most once. |
| Rc522.RC522.EnableTxCrc | py522/reader/rc522.py:280-287 | Logs CrcWrites for TxModeReg. Afterwards the cache equals the request and still mirrors the last TxModeReg write. |
| Rc522.RC522.EnableRxCrc | py522/reader/rc522.py:289-296 | The same for RxModeReg. |
| Rc522.RC522.EnableCrc | py522/reader/rc522.py:276-278 | TX then RX. Both caches end at the request. |
| Rc522.ReadyFrom | py522/reader/rc522.py:231-233 | The index of the first poll showing a mask bit within the budget. Every earlier poll shows it clear. |
| Rc522.WaitSpec | py522/reader/rc522.py:230-248 | A wait fails only with its timeout error or a short read, and consumes a prefix of the chip's answers. |
| Rc522.WaitSpecPolls | py522/reader/rc522.py:230-248 | A wait succeeds iff one of the first four ComIrqReg reads shows the bit, and it stops at the first such read. It times out, after exactly four reads and a 0x80 write to FIFOLevelReg, iff four reads show the bit clear. It never reads more than four times. |
| Rc522.RC522.PollIrq | py522/reader/rc522.py:231-233 | The polling loop returns PollResult, logs exactly the PollCount reads it makes and consumes exactly those script values. |
| Rc522.PollStops | py522/reader/rc522.py:231-233 | The loop stops after the first read that shows the bit (true), at a missing read (ReadFailed), or after MaxPolls reads (false), and PollCount is then the number of reads made. |
| Rc522.RC522.WaitIrq | py522/reader/rc522.py:230-248 | Performs WaitSpec on the script. The error is the timeout or a short read. |
| Rc522.RC522.WaitRx | py522/reader/rc522.py:230-238 | The wait with bit 0x20. A timeout is NoReply. |
| Rc522.RC522.WaitTx | py522/reader/rc522.py:240-248 | The wait with bit 0x40. A timeout is the transmission-timeout ReaderException. |
| Rc522.FifoSpec | py522/reader/rc522.py:216-218 | The drain returns exactly `FIFOLevel & 0x7F` bytes, so at most 127, read from FIFODataReg. It succeeds iff that many values follow. |
| Rc522.RC522.ReadFifo | py522/reader/rc522.py:216-218 | Performs FifoSpec on the script. |
| Rc522.ReceiveSpec | py522/reader/rc522.py:191-193 | The receive side of a transceive fails only with NoReply or a short read. |
| Rc522.RC522.Receive | py522/reader/rc522.py:191-193 | Performs ReceiveSpec: the RxIrq wait, then the FIFO drain. It consumes exactly the values ReceiveSpec reads and logs its accesses. |
| Rc522.ReceiveBitsSpec | py522/reader/rc522.py:266-274 | The receive side of a bit-framed transceive fails only with NoReply or a short read. |
| Rc522.RC522.ReceiveBits | py522/reader/rc522.py:266-274 | Performs ReceiveBitsSpec: the RxIrq wait, one CollReg read decoded by CollisionPosition, then the FIFO drain. |
| Rc522.RC522.PrepareTx | py522/reader/rc522.py:220-228 | Writes Idle to CommandReg, 0x7F to ComIrqReg and the request to FIFODataReg, in that order. |
| Rc522.BitsRequest | py522/reader/rc522.py:251-253 | Always a prefix of the request. Without a bit length it is the whole request. With one it is the shortest prefix that covers bitlen bits: 8 |r| >= bitlen and 8 (|r| - 1) < bitlen. If the request is shorter than that, it is the whole request. |
| Rc522.BitFramingValue | py522/reader/rc522.py:254-264 | StartSend is set, RxAlign is the given alignment, bit 3 is clear, and TxLastBits is bitlen mod 8 (0 without a bit length). |
| Iso14443.CollisionPosition | py522/reader/rc522.py:268-272 | None iff CollPosNotValid (0x20) is set. Otherwise `(Coll & 0x1F) - 1`, which lies in -1 .. 30. |
| Rc522.RC522.TransceiveBits | py522/reader/rc522.py:250-274 | Sends BitsRequest with BitFramingValue: PrepareTx, Transceive, BitFraming. Returns the FIFO bytes and the decoded collision position. Records the bit frame and keeps the CRC cache valid. |
| Rc522.RC522.StartWithCrc | py522/reader/rc522.py:183-193 | CRC on, with only the writes the cache calls for, then the command, then the BitFramingReg value when one is given. Both caches end true. |
| Rc522.RC522.Transceive | py522/reader/rc522.py:183-193 | The log is TransceiveAccesses: the frame load, only the CRC writes the cache calls for, Transceive, BitFraming 0x80, then the receive wait and FIFO drain of ReceiveSpec. The result and the values left are ReceiveSpec's, so the errors are NoReply or a short read. Records one full-byte frame, with CRC on afterwards. |
| Rc522.RC522.Send | py522/reader/rc522.py:173-181 | PrepareTx, CRC on, Transmit, transmit wait. No answer is read. |
| Rc522.RC522.Halt | py522/reader/rc522.py:195-196 | Sends exactly HLTA `50 00`. |
| Rc522.VersionOf | py522/reader/rc522.py:198-207 | 0x91, 0x92 and 0x88 are V1, V2 and FM17522. Every other value is Unknown. |
| Rc522.RC522.GetVersion | py522/reader/rc522.py:198-207 | One VersionReg read, mapped by VersionOf. |
| Rc522.RC522.SoftReset | py522/reader/rc522.py:90-102 | SoftResetDone: the SoftReset command, then one CommandReg read. A short read fails with nothing more. If bit 4 (PowerDown) is set, the power-down ReaderException, with nothing more written. Otherwise TxASK 0x40, Mode 0x3D, Coll 0x80 and TxControl 0x83, in that order. |
| Rc522.RC522.Reset | py522/reader/rc522.py:87-88 | The same three outcomes as the soft reset (SoftResetDone), with the same log. |
| Rc522.RC522.AntennaOn | py522/reader/rc522.py:81-82 | Writes 0x83 to TxControlReg. |
| Rc522.RC522.AntennaOff | py522/reader/rc522.py:84-85 | Writes 0x80 to TxControlReg. |
| Iso14443.SelectCode | py522/reader/rc522.py:115 | Levels 1, 2 and 3 have select codes 0x93, 0x95 and 0x97 (`0x91 + 2 ct`). |
| Rc522.LevelStart | py522/reader/rc522.py:115 | A level starts from 7 bytes: its select code followed by six zeros. |
| Iso14443.Nvb | py522/reader/rc522.py:121 | The NVB of an anticollision frame at g known bits: high nibble 2 + g / 8, low nibble g % 8. It is never the SELECT NVB 0x70. |
| Iso14443.Bcc | py522/reader/rc522.py:137 | XORing the check byte into the four bytes gives zero. |
| Iso14443.KeepBeforeCollision | py522/reader/rc522.py:125-128 | Keeps bytes 0 .. p / 8 and masks the last to bits 0 .. p % 8. Defined iff p >= 0 and the frame has byte p / 8. |
| Iso14443.KeepOnBytes | py522/reader/rc522.py:126-128 | The same lines over an immutable `bytes` answer: IndexError exactly where KeepBeforeCollision has no result, and TypeError exactly where it has one. So it never succeeds. |
| Iso14443.BytesCollisionAborts | py522/reader/rc522.py:126-128 | A collision at bit 3 of the answer 04 5A F6 62 CA: the bytes value raises TypeError, while the mutable buffer keeps [0x04]. |
| Iso14443.WalkStep | py522/reader/rc522.py:124-134 | A collision at p >= 0 raises the known-bit count by p + 1. No collision makes it 40. The count therefore grows, which bounds the loop. The merge range is `[g / 8, (good + 7) / 8)`, within the five UID/BCC bytes. IndexError iff the code indexes outside the received bytes or the buffer. |
| Iso14443.MergedKeeps | py522/reader/rc522.py:133-134 | The OR merge changes no byte outside `2 + lo .. 2 + hi - 1`, leaves the select code and the NVB byte alone, and never clears a bit. |
| Iso14443.Merged | py522/reader/rc522.py:133-134 | The merge of received bytes into the command buffer keeps its 7 bytes and its select code and NVB bytes. |
| Rc522.MergeInto | py522/reader/rc522.py:133-134 | The in-place loop over the command buffer yields Merged. |
| Rc522.Walk | py522/reader/rc522.py:120-134 | The walk of a level against the chip's answers keeps the buffer's select code, and fails only with NoReply, a short read or IndexError. |
| Rc522.RC522.AnticolPass | py522/reader/rc522.py:121-122 | Writes the NVB for g bits into byte 1 of the buffer, sends the first 16 + g bits with RxAlign g mod 8, and returns ReceiveBitsSpec's result. |
| Rc522.RC522.WalkPass | py522/reader/rc522.py:121-134 | On success, the walk from the old buffer is this pass followed by the walk from the merged buffer. On failure, it is this pass and that error. |
| Rc522.RC522.ResolveLevel | py522/reader/rc522.py:114-134 | With CRC off, performs Walk on the chip's answers: its result, the values consumed, the frames sent and the accesses logged are the walk's. Buffer byte 0 stays the level's select code. It sends no full-byte frame. Errors are NoReply, a short read or IndexError. |
| Rc522.LevelFinish | py522/reader/rc522.py:137-143 | A level succeeds only with a matching BCC, returning the resolved buffer. It fails with InvalidBcc(buffer[6], BCC of bytes 2..5) iff they differ. Otherwise it fails only with the SELECT exchange's NoReply or short read. |
| Rc522.LevelSpec | py522/reader/rc522.py:114-143 | A level that succeeds yields 7 bytes starting with its select code. An InvalidBcc error always has expected != calculated. |
| Rc522.RC522.FinishLevel | py522/reader/rc522.py:137-143 | Performs LevelFinish. The log is FinishAccesses: nothing when the BCC check fails, otherwise the SELECT frame's transceive. On success it has sent exactly the level's SELECT frame. |
| Rc522.FinishChecks | py522/reader/rc522.py:137-143 | The BCC is the XOR of buffer bytes 2..5. A mismatch raises InvalidBcc(byte 6, BCC), consumes nothing and logs nothing. Otherwise the level's outcome is that of the SELECT exchange, and its accesses are that exchange's. |
| Iso14443.BccDetectsBitFlip | py522/reader/rc522.py:137-140 | A single flipped UID bit changes the BCC, so the check catches it. |
| Iso14443.LevelSelectFrame | py522/reader/rc522.py:137-143 | A resolved level whose BCC matches, with its NVB set to 0x70, is that level's SELECT frame. |
| Rc522.RC522.ScanLevel | py522/reader/rc522.py:114-143 | Performs LevelSpec on the chip's answers, and its log is LevelAccesses: CRC off, the walk's accesses, then the finish. On success exactly the level's SELECT frame has gone out, with CRC on. |
| Iso14443.ScanFinish | py522/reader/rc522.py:144-146 | Ending at level ct after ct - 1 cascaded levels gives a 4, 7 or 10 byte UID whose SELECT frames are exactly those sent. |
| Iso14443.ScanCascade | py522/reader/rc522.py:142-148 | A cascade tag at level ct < 3 extends the known UID by the level's three bytes and the frames by the level's frame. |
| Rc522.ScanLevelsSpec | py522/reader/rc522.py:114-148 | The levels from ct on return a 4, 7 or 10 byte UID that extends the bytes known. A 4-byte UID does not start with the cascade tag, and a 7-byte one has none at byte 3. |
| Rc522.CascadeStep | py522/reader/rc522.py:144-148 | After a level, the same facts hold whether the scan ends there or cascades. |
| Rc522.RC522.ScanNextLevel | py522/reader/rc522.py:114-148 | One loop turn performs LevelSpec with LevelAccesses as the log. The rest of the scan is the step CascadeStep takes from the remaining answers. The accesses of the remaining levels are this level's followed by those of the next level, when the scan cascades. |
| Rc522.RC522.ScanLevels | py522/reader/rc522.py:114-148 | Performs ScanLevelsSpec from level 1, with ScanLevelsAccesses as the log. The returned UID is 4, 7 or 10 bytes, and the UID part of its last level does not start with the cascade tag, before level 3. The full-byte frames sent are SelectFrames(uid). |
| Rc522.RC522.Request | py522/reader/rc522.py:105-110 | The log is RequestAccesses: CRC off, then a 7-bit short frame of the one command byte, then ReceiveBitsSpec's reads. The answer and the values left are ReceiveBitsSpec's. No full-byte frame is sent. |
| Rc522.ScanSpec | py522/reader/rc522.py:104-148 | A scan against the chip's answers: the REQA/WUPA exchange, then the levels. An InvalidBcc error has expected != calculated. |
| Rc522.RC522.Scan | py522/reader/rc522.py:104-148 | Performs ScanSpec on the chip's answers, with ScanAccesses as the whole log. The first exchange is REQA (or WUPA when waking up) as 7 bits. A UID returned is 4, 7 or 10 bytes, and the SELECT frames sent are exactly SelectFrames of it, with CRC on afterwards. |
| ScanFacts.WaitFirstPoll | py522/reader/rc522.py:230-233 | A wait whose first ComIrqReg read shows the bit succeeds with that one read. |
| ScanFacts.FifoClean | py522/reader/rc522.py:216-218 | A FIFO whose level is n yields the n bytes that follow, and nothing more. |
| ScanFacts.ReceiveBitsClean | py522/reader/rc522.py:266-274 | A clean answer to a bit-framed transceive gives the tag's bytes and no collision, and uses up exactly its register values. |
| ScanFacts.ReceiveClean | py522/reader/rc522.py:191-193 | A clean answer to a full-byte transceive gives the tag's bytes and uses up exactly its register values. |
| ScanFacts.WalkNoCollision | py522/reader/rc522.py:120-134 | A first pass without a collision ends the walk in one exchange. The buffer is the select code, NVB 0x20 and the first five bytes received. |
| ScanFacts.WalkNeverClears | py522/reader/rc522.py:133-134 | No pass of the walk clears a UID bit of the buffer it starts from. |
| ScanFacts.WalkKeepsFirstCollision | py522/reader/rc522.py:125-134 | After a collision at bit p of the first pass, the resolved UID bytes contain every bit received up to p. |
| ScanFacts.WalkResolvesCollision | py522/reader/rc522.py:120-134 | A first pass with a collision at bit p < 39, then a pass without one, resolve the level in these two passes, from exactly their answers. UID bytes before the byte holding bit p + 1 are the first answer as kept. A byte the collision splits is the kept bits ORed with the second answer's first byte. The bytes after it are the second answer's, from its start. |
| ScanFacts.CollisionPass | py522/reader/rc522.py:124-134 | A first pass with a collision at bit p goes on at p + 1 known bits, from a buffer holding the kept bytes and zeros after them. |
| ScanFacts.CleanPass | py522/reader/rc522.py:130-134 | A pass without a collision ends the walk at any number of known bits. The received bytes are ORed in from byte g / 8 on. |
| ScanFacts.NvbBits | py522/reader/rc522.py:121 | The NVB byte of a pass counts the 16 + g bits sent: whole bytes in the high nibble, the rest in the low one. |
| ScanFacts.PassFramingBits | py522/reader/rc522.py:121-122 | The BitFramingReg value of a pass sets StartSend and puts (16 + g) mod 8 in both TxLastBits and RxAlign. |
| ScanFacts.PassIsAnticolFrame | py522/reader/rc522.py:121-122 | The frame of one pass is an anticollision frame of its level: select code, an NVB that counts the bits sent, and matching TxLastBits and RxAlign. |
| ScanFacts.WalkFrames | py522/reader/rc522.py:120-134 | Every frame the walk of a level sends is an anticollision frame of that level. |
| ScanFacts.LevelBcc | py522/reader/rc522.py:137-140 | A level fails with InvalidBcc iff the walk resolves a buffer whose byte 6 differs from the XOR of bytes 2..5. The error then carries exactly those two values. |
| ScanFacts.LevelClean | py522/reader/rc522.py:114-143 | A level the tag answers cleanly resolves to the select code, NVB 0x20, its four bytes and their BCC, and uses up exactly its answers. |
| ScanFacts.LevelCascades | py522/reader/rc522.py:144-148 | A clean level below 3 that starts with the cascade tag hands its three UID bytes to the next level. |
| ScanFacts.LevelEnds | py522/reader/rc522.py:144-146 | A clean level that is 3, or whose bytes do not start with the cascade tag, ends the scan with the bytes known plus its four. |
| ScanFacts.LevelsRead | py522/reader/rc522.py:114-148 | Clean levels from ct on read the rest of the UID. |
| ScanFacts.ScanReadsCard | py522/reader/rc522.py:104-148 | A single tag that answers every exchange cleanly is read as its UID: 4 bytes not starting with the cascade tag, 7 without a cascade tag at byte 3, or 10. |
| ScanFacts.ScanReadsSingleSizeTag | py522/reader/rc522.py:104-148 | The tag 04 5A F6 62 (BCC 0xCA) is read as that UID. |
| ScanFacts.ExchangesClean | py522/reader/rc522.py:156-171 | SELECT exchanges that each get a clean SAK answer succeed, and use up exactly those answers. |
| ScanFacts.SelectAfterRequest | py522/reader/rc522.py:153-157 | After an answered REQA, a select is the SELECT exchanges of SelectFrames(uid) with CRC off in the cache. |
| ScanFacts.SelectAfterAtqa | py522/reader/rc522.py:153-157 | The same after a clean ATQA answer, from the values that follow it. |
| ScanFacts.SelectReadsCard | py522/reader/rc522.py:150-171 | A card that answers the REQA and every SELECT cleanly is selected, and exactly its answers are used up. |
| Iso14443.SelectFrame | py522/reader/rc522.py:158-168 | Seven bytes: the select code, 0x70, the four UID-part bytes, and their XOR. |
| Iso14443.AppendBcc | py522/reader/rc522.py:158-168 | Appending the XOR of bytes 2..5 completes the SELECT frame. |
| Iso14443.SelectFramesFrom | py522/reader/rc522.py:157-166 | One frame per cascade level: |uid| / 3 frames. |
| Iso14443.SelectFramesCount | py522/reader/rc522.py:151-171 | 4, 7 and 10 byte UIDs take 1, 2 and 3 frames. |
| Iso14443.SelectFramesShape | py522/reader/rc522.py:157-168 | Every frame has 7 bytes and NVB 0x70, and the frame of level ct + i has that level's select code. Every frame but the last carries the cascade tag 0x88. |
| Iso14443.UidOfSelectFrames | py522/reader/rc522.py:157-168 | Dropping the cascade tags and concatenating the frames' UID bytes gives back the UID. |
| Iso14443.SelectProgressStep | py522/reader/rc522.py:157-166 | Each loop turn consumes three UID bytes behind a cascade tag, or the last four. The frames sent stay a prefix of SelectFrames(uid). |
| Rc522.RC522.SelectLevel | py522/reader/rc522.py:158-170 | Transceives exactly the level's SELECT frame with CRC on. The answer and the values left are ReceiveSpec's, and the log is that frame's TransceiveAccesses. |
| Rc522.SelectExchanges | py522/reader/rc522.py:156-171 | The SELECT exchanges of a frame list fail only with NoReply or a short read. No frames means no accesses and nothing consumed. |
| Rc522.ExchangesCons | py522/reader/rc522.py:170 | The first frame's transceive comes first. If its answer fails, the exchanges end there with that error. Otherwise the other frames follow with CRC on, from the values left. |
| Rc522.SelectSpec | py522/reader/rc522.py:150-171 | A select fails only with NoReply or a short read. |
| Rc522.RC522.SelectLevels | py522/reader/rc522.py:156-171 | Result, values left and log are SelectExchanges of SelectFrames(uid) on the chip's answers. The frames sent are always a prefix of SelectFrames(uid), and all of them on success. |
| Rc522.RC522.SelectPart | py522/reader/rc522.py:158-170 | One loop turn sends the SELECT frame of the next part of the UID: three bytes behind the cascade tag while more than four remain, else the last four. An answer keeps the loop on track for the rest of the effect. A failure is the whole loop's result, values left and log. The frames sent stay a prefix of SelectFrames(uid). |
| Rc522.RC522.SelectLoop | py522/reader/rc522.py:156-171 | The while loop over the UID has the given effect on result, script and log. It sends a prefix of SelectFrames(uid), and all of it with CRC on when it succeeds. |
| Rc522.RC522.Select | py522/reader/rc522.py:150-171 | UID length 4, 7 or 10 is required. Result, values left and log are SelectSpec of the chip's answers, and REQA as 7 bits is the first exchange. On success exactly SelectFrames(uid) is sent, and so exactly the frames a scan returning that UID has sent. |
| Rc522Uart.ReadRequest | py522/reader/rc522uart.py:51-53 | Exactly count bytes, each with bit 7 set and the address in its low seven bits. |
| Rc522Uart.Rc522Uart.RegReadBulk | py522/reader/rc522uart.py:51-63 | Sends the read request. Returns the first count bytes of the line iff that many arrived. Otherwise "Could not read register value". |
| Rc522Uart.Rc522Uart.RegRead | py522/reader/rc522uart.py:48-49 | The single byte RegReadBulk(reg, 1) returns. |
| Rc522Uart.WriteFrame | py522/reader/rc522uart.py:73-76 | A write request has 2 |data| bytes and starts with the address and the first value. |
| Rc522Uart.WriteFrameLayout | py522/reader/rc522uart.py:73-76 | A write request has 2 |data| bytes: the address at every even position, and data[i] at position 2i + 1. |
| Rc522Uart.WriteFrameValues | py522/reader/rc522uart.py:73-76 | The values read back from a write request's odd positions are the data. |
| Rc522Uart.WriteRequest | py522/reader/rc522uart.py:73-76 | The appending loop builds the write request. |
| Rc522Uart.AckExpected | py522/reader/rc522uart.py:81-82 | The acknowledgement expected is the address, |data| times. |
| Rc522Uart.Rc522Uart.RegWriteBulk | py522/reader/rc522uart.py:69-83 | Sends the write request. Succeeds iff the next |data| bytes in are the acknowledgement. Otherwise "Incorrect write acknowledgement from PCD". |
| Rc522Uart.Rc522Uart.RegWrite | py522/reader/rc522uart.py:65-67 | A bulk write of the one value. |
| Rc522Uart.BaudTableDomain | py522/reader/rc522uart.py:8-21 | The table lists exactly the twelve rates from 7200 to 1228800, 9600 among them. |
| Rc522Uart.BaudTableRates | py522/reader/rc522uart.py:8-21 | Every entry, decoded by the SerialSpeedReg divider formula from the 27.12 MHz clock, gives its rate within 1.5 %. |
| Rc522Uart.Rc522Uart.ChangeBaudRate | py522/reader/rc522uart.py:41-46 | An unlisted rate raises "Unsupported baudrate <rate>" and writes nothing. A listed one writes exactly its table value to SerialSpeedReg (0x1F). The host rate changes iff the write is acknowledged. |
| Common.DecimalRoundTrip | py522/reader/rc522uart.py:44 | For a non-negative rate, the decimal digits in that message read back to the rate. |
| Common.IntStringRoundTrip | py522/reader/rc522uart.py:44 | For any int, negative included: str() has a leading '-' iff the number is negative, and reads back to the number. |
| Common.IntString | py522/reader/rc522uart.py:44 | str() of an int: never empty, a leading '-' iff it is negative, decimal digits after that. |
| UltralightC.Authenticate | py522/ultralightc.py:10-32 | One or two requests, the first always `1A 00`. A run succeeds only after sending the second, which starts with 0xAF. |
| UltralightC.RotL | py522/ultralightc.py:17 | Python's `s[1:] + s[0:1]`: same length, the first byte moved to the end. It also rotates rndB (line 22) and gives the expected answer (line 31). |
| UltralightC.WellFormed | py522/ultralightc.py:13 | A well-formed answer has the expected status byte followed by one 8-byte block. An answer of another length or status is rejected. The same check applies to the second answer at line 27. |
| UltralightC.ReaderAnswer | py522/ultralightc.py:19-23 | Under an inverting cipher, the reader's answer decrypts, with the card's encrypted challenge as IV, to 16 bytes: rndA followed by rndB rotated left by one byte. rndB is the zero-IV decryption of the challenge. |
| UltralightC.AuthenticateRequests | py522/ultralightc.py:11-25 | The first request is always `1A 00`. A second is sent iff the first answer is 9 bytes starting 0xAF, and it is 0xAF followed by the reader's encrypted answer. |
| UltralightC.AuthenticateSucceeds | py522/ultralightc.py:10-32 | Succeeds iff both answers are well formed and the second decrypts, under IV `pndAuth[8:]`, to rndA rotated left by one byte. |
| UltralightC.AuthenticateErrors | py522/ultralightc.py:13-32 | A failure is the card transport's error, or one of the three authentication errors with its exact message. |
| UltralightC.WrongAnswerRejected | py522/ultralightc.py:30-32 | A well-formed second answer that decrypts to anything else is rejected with "Card authentication failure". |
| UltralightC.HonestCardAuthenticates | py522/ultralightc.py:10-32 | With a cipher whose decryption inverts its encryption, a card that shares the key and follows the protocol is accepted. |
| Common.Hex | py522/ultralightc.py:14 | bytes.hex(): two characters per byte, the first byte's high nibble first. |
| Common.HexDigits | py522/ultralightc.py:14 | Byte i is written at positions 2i and 2i + 1 as two lower-case hex digits, high nibble first. |

## Left out

- Timing: `time.sleep` in `soft_reset` and the UART `hard_reset`. It has no effect on the register traffic.
- The serial port itself:
  - The `serial.Serial` object, the DTR hard reset and the UART `reset` override that sets the host rate back to 9600 (py522/reader/rc522uart.py:28-39) are not modelled.
  - The port is a byte source and sink. Writes are complete, so the "Could not send read/write request" branches never fire: the port is opened without a write timeout.
  - A short read is a shorter `input`.
- Rc522.RC522: the register primitives are the abstract environment, not the UART framing. `Rc522Uart` models that framing separately, over its own byte channel. The two are not composed into one object.
- Rc522.RC522.SoftReset: does not model that the chip itself returns TxModeReg and RxModeReg to their reset values. `Valid()` speaks of the driver's last writes, and `soft_reset` leaves the CRC cache untouched.
- `print` in `get_version` and the diagnostic `Reg.name` lookup: they are output only.
- `RC522.collision` (set in `__init__`, never used) and `UltralightC.authenticated`: `authenticate` never changes the latter from False, so neither field has any behaviour to model.
- Rc522.RC522.ResolveLevel: treats the received bytes as a mutable buffer, as the finding below explains. `RC522` leaves the type of a bulk read's result to its transport, and the two are not composed here.
- ScanFacts.WalkKeepsFirstCollision: states only that the bits received up to p survive. WalkResolvesCollision gives the resolved bytes exactly. The byte a collision splits is the kept bits ORed with the second answer's first byte. It equals the tag's byte only if the chip leaves the bits below RxAlign clear in that byte, and the register environment does not promise that.
- Rc522.RC522.Scan and Rc522.RC522.Select: do not return the SELECT answers (SAK). The source discards them. Only their failure, the values they use up and their reads in the log are stated.
- ScanFacts.ScanReadsCard: covers a tag that answers every exchange without a collision, and with the same SELECT answer at every level, because a collision's outcome depends on what the chip reports in the bits it was not sent. Collisions are covered within a level instead: WalkResolvesCollision for one collision followed by a clean pass, and WalkKeepsFirstCollision and WalkNeverClears for any walk.
- Rc522.RC522.Select: the `assert` on the UID length is a precondition, not an error outcome.
- UltralightC.Authenticate:
  - Triple DES (pyDes, CBC) is an abstract pair of functions, and `os.urandom(8)` is the parameter `rndA`.
  - The card is a function from the requests sent so far to the transport's answer.
- py522/rc522uart.py, the older per-byte UART variant, is not part of this model, and neither are test.py and scan-test.py.

## Findings

| source | as written | input that shows it | evidently intended | confidence | as-written member | corrected member |
|---|---|---|---|---|---|---|
| py522/reader/rc522.py:126-128 | `recv` is the `bytes` a UART bulk read returns (py522/reader/rc522uart.py:58-63). `recv[lastbyte] = …` assigns into it and raises TypeError. | Any answer with a collision the walk could resolve, e.g. 04 5A F6 62 CA with a collision at bit 3 | mask the last kept byte in a mutable copy of `recv` | not executed | Iso14443.KeepOnBytes, Iso14443.BytesCollisionAborts | Iso14443.KeepBeforeCollision, ScanFacts.WalkResolvesCollision |
