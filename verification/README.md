# STM32F4 serial bootloader: a Dafny model

This project models the core of a serial bootloader for STM32F4 parts, together with its Python host flasher. The bootloader receives one command frame at a time over a UART, dispatches it on its first byte through a table of handlers, and answers with ACK (0x41), NACK (0x4E) followed by an error code, or raw data.

Each module follows one file of the program:

| module | file | what it holds |
|---|---|---|
| `Machine` | (shared) | bytes and words, word-addressed memory, little-endian 32-bit loads and stores |
| `WordArith` | (shared) | `uint32_t` address arithmetic `base + offset`, which wraps at 2^32, and the base-256 digits of a number |
| `BootInfo` | `Core/Inc/BOOT_Info.h` | opcodes, reply bytes, error codes, and the GET text blocks as `const char *` objects |
| `FlashCntrl` | `Core/Src/flash_cntrl.c` | the register-level flash driver, as transitions over CR, SR, OPTCR, KEYR, OPTKEYR and memory |
| `BootCntrl` | `Core/Src/boot_cntrl.c` | BOOT_TRANSFER_CNTRL as a decision plus a trace of register writes |
| `BootCopy` | `Core/Src/boot_cntrl.c` | BOOT_CPY_IMAGE: a loop that copies word by word and retries each word |
| `BootProcess` | `Core/Src/BOOT_PROCESS.C` | PROCESS_INIT, every command handler, SEND_ACK and SEND_NACK, and dispatch |
| `Flasher` | `flasher.py` | COMMANDS and ERRORS, 16-byte blocks padded with 0xFF, the program and unlock frames, the reply test of `writeImage` |

How the model reads the code:

- **Integer widths.** Words are `bv32`, so address arithmetic wraps as `uint32_t` does.
- **Counters.** Counters and offsets are natural numbers. The address `base + idx` is `WordArith.At(base, idx)`, which wraps at 2^32 as the C sum does.
- **`char`.** `char` is unsigned on the Cortex-M4 target. So a `char` widened to `uint32_t` is its byte value.
- **Packing.** `*(uint32_t *)&buf[off]` is a little-endian load (`Machine.LoadLe32`). Python's `struct.pack("I", n)` stores in the host's native byte order; on a little-endian host, the model's assumption, it is the matching little-endian store (`Flasher.PackU32`).
- **The HAL.** The ST HAL and the hardware are oracles, passed in as parameters:
  - `BootProcess.Hal` gives the answer of the i-th HAL call, the value of `HAL_FLASH_GetError`, the `SectorError` out-parameter, and memory.
  - `BootCopy` takes a function from the index of a call to its answer.
  - In `FlashCntrl`, the flags the controller raises during an operation are a parameter.
- **HAL constants.** These are not defined in the files modelled here. They are taken from the STM32F4 HAL and CMSIS headers:
  - `HAL_FLASH_ERROR_RD/PGS/PGP/PGA/WRP/OPERATION` are 0x01, 0x02, 0x04, 0x08, 0x10 and 0x20;
  - `FLASH_TYPEPROGRAM_WORD` is 2;
  - `OPTCR_BYTE0_ADDRESS` is 0x40023C14;
  - the FLASH_CR, FLASH_SR, FLASH_OPTCR and SYSCFG_MEMRMP bit positions.
- **FLASH_SR error flags.** On the STM32F4 these flags are cleared by writing 1. So `FLASH->SR |= flag` writes back every flag that is set and clears all of them. `FlashCntrl.ErrorsCheck` therefore reports the first flag its checks reach, and `FlashCntrl.OrWriteClearsAll` states this.
- **Retries.** BOOT_CPY_IMAGE makes at most three attempts per word, as the comment at `Core/Src/boot_cntrl.c:175-176` says ("try 3 times as maximum"). The code gives up once `resend_count >= 3`, before a fourth attempt.
- **The option-byte lock handler.** The source defines it under the name of the unlock handler: `PROCESS_OB_UNLOCK_CMD` is defined a second time at `Core/Src/BOOT_PROCESS.C:380`. Going by its body (`HAL_FLASH_OB_Lock`) and by PROCESS_INIT, the model treats it as the handler installed at OB_LOCK_CMD (`BootProcess.ProcessObLock`).
- **Register locks.** On the STM32F4, FLASH_CR ignores writes while CR.LOCK is set, and FLASH_OPTCR ignores them while OPTLOCK is set (`FlashCntrl.CrWrite`, `FlashCntrl.OptcrWrite`). A store to flash with CR.PG clear is a programming sequence error (PGSERR) and writes nothing. Writing KEY1 then KEY2 to KEYR clears LOCK, and OPTKEY1 then OPTKEY2 to OPTKEYR clears OPTLOCK.
- **Start bits.** The controller clears CR.STRT and OPTCR.OPTSTRT when the erase or option commit ends, which is when SR.BSY clears. The code waits for BSY, so the model clears them at that wait.
- **Programming flash.** Programming a flash word can only clear bits; setting one back takes an erase. A programmed word therefore holds the AND of its old value and the data (`Machine.Program`), and it equals the data when the word was erased (0xFFFFFFFF). Programming a word that is not erased raises no flag.
- **Register updates.** `REG |= mask` is `FlashCntrl.SetBits(reg, mask)` and `REG &= ~mask` is `FlashCntrl.ClearBits(reg, mask)`.
- **Erase failure reply.** When an erase fails, the handlers send three bytes: NACK, the error code, and the low byte of `SectorError`. The model follows the code.

## Model

| member | source | states |
|---|---|---|
| Machine.Le32BytesOfLoad | Core/Src/BOOT_PROCESS.C:215 | A 32-bit load from a byte buffer, stored back little-endian, gives the four bytes it was loaded from |
| BootInfo.LiveOpcodesAreTableIndices | Core/Inc/BOOT_Info.h:59-77 | The fourteen live opcodes are 0x00..0x0D in declaration order, so each is a valid, distinct index into a 14-entry handler array |
| BootInfo.ReservedOpcodesAreFree | Core/Inc/BOOT_Info.h:79-82 | The opcodes reserved for future versions (0x0E..0x10) are not live opcodes |
| BootInfo.ReplyBytesDistinct | Core/Inc/BOOT_Info.h:95-106 | ACK and NACK differ from each other and from every error code; the six error codes are 0xE1..0xE6 in order, pairwise distinct |
| BootInfo.Bytes | Core/Inc/BOOT_Info.h:44-46 | A string literal is stored one byte per character, in order; for a literal of 8-bit characters each byte is the character's code |
| BootInfo.GetInfoBlocksWellFormed | Core/Src/BOOT_PROCESS.C:141-157 | The GET reply sends ten text blocks, each at least a pointer long, so sending `sizeof` bytes of each stays inside its literal |
| FlashCntrl.ErrStateHasFiveValues | Core/Inc/flash_cntrl.h:66-75 | ERR_StateType has exactly five values, numbered 0..4, and the numbering is a bijection |
| FlashCntrl.OrWriteClearsAll | Core/Src/flash_cntrl.c:143 | The read-modify-write that sets one flag writes 1 to every write-1-to-clear flag that was set, so it clears all of them, not only `flag` |
| FlashCntrl.ScanFlags | Core/Src/flash_cntrl.c:137-184 | After the four checks no checked flag is set; the value found is the first flag set in the order PGS, PGP, PGA, WRP, or the value held before if none is |
| FlashCntrl.ErrorsCheck | Core/Src/flash_cntrl.c:134-187 | Flash_Errors_Check returns the error of the first checked flag set, never Ok_State, and an unassigned value exactly when no checked flag is set; only SR changes |
| FlashCntrl.ErrorsCheckInit | Core/Src/flash_cntrl.c:134-187 | With the local initialised to Ok_State, the result is OK exactly when no checked flag is set, the same error otherwise, and the same register effect |
| FlashCntrl.AcceptedWriteIsUnassigned | Core/Src/flash_cntrl.c:230-258 | A write the controller accepts on a clean SR returns no assigned status; with the initialised check it returns OK |
| FlashCntrl.FirstFlagWins | Core/Src/flash_cntrl.c:137-184 | With PGSERR and WRPERR both set, the programming sequence error is reported and every clear-on-write flag ends cleared |
| FlashCntrl.Init | Core/Src/flash_cntrl.c:113-127 | Flash_Init writes KEY1 then KEY2 to KEYR and changes no register besides KEYR and CR |
| FlashCntrl.InitCr | Core/Src/flash_cntrl.c:113-127 | Whatever CR held, Flash_Init leaves PSIZE at x32 and LOCK set, and no other CR bit changes |
| FlashCntrl.InitIdempotent | Core/Src/flash_cntrl.c:113-127 | Running Flash_Init twice leaves CR as running it once; only the KEYR log grows |
| FlashCntrl.InitThenWrite | Core/Src/flash_cntrl.c:113-127 | Flash_Init leaves the controller locked: a write straight after it writes nothing and reports a programming sequence error, and after Flash_Unlock the same write programs the word: the old word ANDed with the data |
| FlashCntrl.Lock | Core/Src/flash_cntrl.c:195-207 | Flash_Lock sets CR.LOCK, and no other CR bit or register changes |
| FlashCntrl.Unlock | Core/Src/flash_cntrl.c:215-223 | Flash_Unlock writes KEY1 then KEY2 to KEYR, which clears CR.LOCK; no other CR bit or register changes |
| FlashCntrl.LockUnlockRoundTrip | Core/Src/flash_cntrl.c:195-223 | Lock after Unlock, and Unlock after Lock, differ from the starting CR only in LOCK |
| FlashCntrl.Write | Core/Src/flash_cntrl.c:230-258 | Flash_Write changes no register besides CR, SR and memory |
| FlashCntrl.WriteCr | Core/Src/flash_cntrl.c:238-252 | On an unlocked controller Flash_Write leaves PG clear and every other CR bit as it was; a locked CR does not change |
| FlashCntrl.WriteMem | Core/Src/flash_cntrl.c:238-243 | Memory becomes the old memory with the data programmed at the address (the AND of the old word and the data) when PG is set at the store (CR unlocked, or PG already set) and the controller raises no error; otherwise memory does not change |
| FlashCntrl.WriteStatus | Core/Src/flash_cntrl.c:243-254 | When PG is set at the store, Flash_Write reports the first error among the pending flags and those the controller raised |
| FlashCntrl.WriteSrChecked | Core/Src/flash_cntrl.c:243-254 | When PG is set at the store, SR afterwards is the pending and raised flags as the error check leaves them, with every checked flag cleared |
| FlashCntrl.LockedWriteRefused | Core/Src/flash_cntrl.c:238-254 | On a locked controller with PG clear, Flash_Write writes nothing, leaves CR alone and reports a programming sequence error |
| FlashCntrl.Read | Core/Src/flash_cntrl.c:266-271 | Flash_Read returns the stored word, leaves memory alone, and reports and clears any error pending in SR |
| FlashCntrl.WriteThenRead | Core/Src/flash_cntrl.c:230-271 | A word written without error reads back as the old word ANDed with the data, with nothing reported by either call |
| FlashCntrl.WriteErasedThenRead | Core/Src/flash_cntrl.c:230-271 | A word written without error over an erased word reads back exactly as written |
| FlashCntrl.ErrorReportedOnce | Core/Src/flash_cntrl.c:230-271 | An error is reported by the call that raised it and not by the next read; an error left pending in SR is reported by the next read |
| FlashCntrl.Erase | Core/Src/flash_cntrl.c:279-306 | Flash_erase changes no register besides CR, SR and memory |
| FlashCntrl.LockedEraseDoesNothing | Core/Src/flash_cntrl.c:279-306 | On a locked controller every CR write of Flash_erase is ignored: the result is the error check of SR as it stood, and nothing is erased |
| FlashCntrl.SelectSnb | Core/Src/flash_cntrl.c:288-291 | Setting SER and OR-ing the sector number into CR leaves SNB as the OR of the old and new sector numbers, truncated to five bits |
| FlashCntrl.EraseKeepsOthers | Core/Src/flash_cntrl.c:288-303 | The CR writes of Flash_erase and the controller's clearing of STRT move no bit outside SER, SNB and STRT |
| FlashCntrl.EraseCr | Core/Src/flash_cntrl.c:287-303 | On an unlocked controller Flash_erase leaves SER and STRT clear, SNB the OR of its old value and the new sector number, and every other CR bit as it was |
| FlashCntrl.EraseMem | Core/Src/flash_cntrl.c:293-305 | On an unlocked controller Flash_erase wipes the sector named by the OR of the old SNB and the requested sector, exactly when the controller raises no error, and reports the first raised or pending error |
| FlashCntrl.SecondEraseHitsWrongSector | Core/Src/flash_cntrl.c:291 | Erasing sector 1 and then sector 2 leaves SNB at 3: the second erase wipes sector 3 and spares sector 2 |
| FlashCntrl.EraseFixed | Core/Src/flash_cntrl.c:279-306 | Flash_erase with `CR &= ~CR_SNB` first changes no register besides CR, SR and memory |
| FlashCntrl.EraseFixedHitsRequestedSector | Core/Src/flash_cntrl.c:279-306 | With SNB cleared first, an unlocked erase leaves SNB at exactly the requested sector and wipes that sector, whatever SNB held |
| FlashCntrl.EraseFixedStatus | Core/Src/flash_cntrl.c:279-306 | With SNB cleared first, an unlocked erase reports the first raised or pending error |
| FlashCntrl.LockedEraseFixedDoesNothing | Core/Src/flash_cntrl.c:279-306 | With SNB cleared first, a locked controller still ignores every CR write |
| FlashCntrl.SecondEraseFixedHitsRequestedSector | Core/Src/flash_cntrl.c:279-306 | With SNB cleared first, erasing sector 1 and then sector 2 erases sector 2 and spares sector 3 |
| FlashCntrl.WrpMask | Core/Src/flash_cntrl.c:323 | `(1 << sector) << 16` is one bit inside bits 16..30, and inside the nWRP field (bits 16..27) for sectors 0..11; it is never OPTLOCK |
| FlashCntrl.WrpEnable | Core/Src/flash_cntrl.c:314-336 | Flash_WRP_Enable changes no register besides OPTCR and SR |
| FlashCntrl.WrpDisable | Core/Src/flash_cntrl.c:344-367 | Flash_WRP_Desable changes no register besides OPTCR and SR |
| FlashCntrl.LockedWrpDoesNothing | Core/Src/flash_cntrl.c:314-367 | With OPTLOCK set both OPTCR writes are ignored: either call is the error check of SR as it stood |
| FlashCntrl.WrpOptcr | Core/Src/flash_cntrl.c:314-367 | With OPTLOCK clear, OPTCR afterwards is the old OPTCR with the sector's nWRP bit cleared (enable) or set (disable) and OPTSTRT clear |
| FlashCntrl.WrpEnableProtects | Core/Src/flash_cntrl.c:323-333 | With OPTLOCK clear, the sector's nWRP bit reads clear afterwards, and so does OPTSTRT |
| FlashCntrl.WrpDisableUnprotects | Core/Src/flash_cntrl.c:353-363 | With OPTLOCK clear, the sector's nWRP bit reads set afterwards, and OPTSTRT reads clear |
| FlashCntrl.WrpEnableStatus | Core/Src/flash_cntrl.c:314-336 | With OPTLOCK clear, Flash_WRP_Enable reports the first raised or pending error |
| FlashCntrl.WrpDisableStatus | Core/Src/flash_cntrl.c:344-367 | With OPTLOCK clear, Flash_WRP_Desable reports the first raised or pending error |
| FlashCntrl.WrpRoundTrip | Core/Src/flash_cntrl.c:314-367 | Protecting and then unprotecting an unprotected sector leaves OPTCR as it was, apart from OPTSTRT reading clear; with OPTLOCK set, OPTCR does not change at all |
| FlashCntrl.ObUnlock | Core/Src/flash_cntrl.c:377-386 | Flash_OB_Unlock writes OPTKEY1 then OPTKEY2, which clears OPTLOCK; no other OPTCR bit changes, and it reports the pending error |
| FlashCntrl.ObLock | Core/Src/flash_cntrl.c:395-402 | Flash_OB_Lock sets OPTLOCK, no other OPTCR bit changes, and it reports the pending error |
| FlashCntrl.ObLockUnlockRoundTrip | Core/Src/flash_cntrl.c:377-402 | Locking after unlocking the option bytes, and unlocking after locking, differ from the starting OPTCR only in OPTLOCK |
| FlashCntrl.WrpNeedsObUnlock | Core/Src/flash_cntrl.c:314-386 | On locked option bytes Flash_WRP_Enable leaves OPTCR alone; after Flash_OB_Unlock it protects the sector |
| BootCntrl.Remap | Core/Src/boot_cntrl.c:101-118 | The remap step consists of MEMRMP and VTOR stores only |
| BootCntrl.TransferControl | Core/Src/boot_cntrl.c:77-133 | Hands over exactly when the stack-pointer test passes. The MSP and entry point are the image's first two words. The trace is reset, SYSCFG clock, remap stores, set MSP, jump. MEMRMP ends with the image's memory mode. VTOR ends at the image address for flash images and is never written otherwise |
| BootCntrl.RemapOnlyTouchesMemMode | Core/Src/boot_cntrl.c:101-112 | The remap changes only MEM_MODE: 01 for system memory, 00 for flash, and nothing for an address below flash |
| BootCntrl.RemapStores | Core/Src/boot_cntrl.c:101-118 | Replaying the remap stores leaves the remapped MEMRMP, and VTOR at the image address exactly for flash images |
| BootCntrl.StackPointerTestIsOneBit | Core/Src/boot_cntrl.c:85-86 | The stack-pointer test checks bit 29 only: 0x60000000 and 0x3FFFFFFF pass, 0 and 0x1FFFFFFF fail |
| BootCntrl.ErasedImageAccepted | Core/Src/boot_cntrl.c:85-125 | An erased image (first two words all ones) is handed control, with MSP and entry point 0xFFFFFFFF |
| BootCntrl.StackPointerInRamRange | Core/Src/boot_cntrl.c:79-86 | The RAM-window test accepts exactly the addresses 0x20000000..0x20FFFFFF |
| BootCntrl.InRamIsAccepted | Core/Src/boot_cntrl.c:86 | Every stack pointer inside the RAM window also passes the one-bit test |
| BootCntrl.TransferControlChecked | Core/Src/boot_cntrl.c:77-133 | With the RAM-window test, control is handed over exactly for a stack pointer in RAM, the handoff is the same, and an erased image is rejected |
| BootCopy.CopyImage | Core/Src/boot_cntrl.c:148-202 | BOOT_CPY_IMAGE fails without a program call exactly when the unlock fails, returning its code. Otherwise: every attempt is at dest+idx with the source word read on the first try; memory is the successful attempts programmed in order; the result is the latest failure code, or unassigned. It stops after three failures in a row, or once every word is programmed. The result agrees with the reference `Run`. A finished copy between non-overlapping ranges leaves each destination word ANDed with the source word at its offset |
| BootCopy.CopyWords | Core/Src/boot_cntrl.c:165-196 | The copy loop ends in one of the three outcomes: every word programmed, three failures in a row on one word, or the index wrapping. Every attempt is answered, sequenced and addressed as stated there, memory is the replay of the successful attempts, and the result is the latest failure code |
| BootCopy.CopyOutcome | Core/Src/boot_cntrl.c:165-199 | Every run of the loop ends in one outcome: all WordCount(size) words programmed, or three failures in a row on one word, or the 32-bit index wrapping |
| BootCopy.RetrySameWord | Core/Src/boot_cntrl.c:168-187 | After a failed attempt, the next attempt is at the same offset and address with the same data; the source is not read again |
| BootCopy.ReadsSource | Core/Src/boot_cntrl.c:165-194 | When source and destination ranges do not overlap, every attempt writes dest+offset with the word that was at src+offset before the copy, for an offset below size |
| BootCopy.SuccessOffsets | Core/Src/boot_cntrl.c:190-194 | The k-th successful attempt is at offset 4k |
| BootCopy.CopiesEveryWord | Core/Src/boot_cntrl.c:165-196 | After a finished copy between non-overlapping ranges, the log holds a successful program call of each source word at the same offset, each destination word holds its old value ANDed with that source word, and an erased destination word holds the source word itself |
| BootCopy.UnassignedIffNoFailure | Core/Src/boot_cntrl.c:151-199 | The return value is left unassigned exactly when no program call failed |
| BootCopy.StaleResultAfterRetry | Core/Src/boot_cntrl.c:183-199 | One word that fails with code 2 and then succeeds is programmed (destination ANDed with source), the loop finishes, and 2 is returned |
| BootCopy.CopyImageFixed | Core/Src/boot_cntrl.c:148-202 | The copy with the intended result: HAL_OK once every word is programmed, the code of the stopping failure after three failures, and the same calls and memory |
| BootProcess.NackCodeTable | Core/Src/BOOT_PROCESS.C:526-548 | Each single HAL error flag maps to its error code (PGS to E1 through OPERATION to E6); any other value, zero or several flags, maps to 0x00 |
| BootProcess.NackCodeInjective | Core/Src/BOOT_PROCESS.C:526-548 | Different single flags give different code bytes |
| BootProcess.SendAck | Core/Src/BOOT_PROCESS.C:500-505 | SEND_ACK sends one byte, ACK, written into TxBuffer[0]; nothing else changes |
| BootProcess.SendNack | Core/Src/BOOT_PROCESS.C:519-553 | SEND_NACK overwrites RxBuffer[0] with NACK and sends it, then sends the code of HAL_FLASH_GetError from TxBuffer[0]; the rest of both buffers is untouched |
| BootProcess.AckOrNack | Core/Src/BOOT_PROCESS.C:175-179 | On success the reply is ACK alone, from TxBuffer[0]; otherwise NACK, from RxBuffer[0], then the error code, from TxBuffer[0] |
| BootProcess.SingleCallReply | Core/Src/BOOT_PROCESS.C:173-199 | The unlock, lock, OB unlock, OB lock and WRP handlers make one call. They send ACK alone when it returns HAL_OK, and NACK plus code otherwise, with RxBuffer[0] overwritten |
| BootProcess.Attempts | Core/Src/BOOT_PROCESS.C:217-224 | The PROG loop makes at most four calls, stopping right after the first that fails; all calls before the last succeeded |
| BootProcess.ProgReply | Core/Src/BOOT_PROCESS.C:212-227 | PROG calls HAL_FLASH_Program for words 0,1,... at Address + 4*idx with the data byte RxBuffer[5 + 4*idx]. It continues until a call fails. When all four succeed it sends ACK alone; otherwise it sends NACK and the error code right after the first failure, with RxBuffer[0] overwritten |
| BootProcess.ProgDropsUpperBytes | Core/Src/BOOT_PROCESS.C:219 | For a frame whose first data word is 0x44332211, the first program call writes 0x00000011 |
| BootProcess.ProgReplyFixed | Core/Src/BOOT_PROCESS.C:212-227 | PROG with the whole 32-bit word at byte 5 + 4*idx as data, with the same stopping rule and the same exact reply bytes |
| BootProcess.ReadReply | Core/Src/BOOT_PROCESS.C:240-250 | READ sends 16 bytes and no ACK; the four words they decode to are memory at Address, Address+4, +8, +12; TxBuffer holds them and RxBuffer is untouched |
| BootProcess.ObReadReply | Core/Src/BOOT_PROCESS.C:402-406 | OB_READ sends the four bytes of the word at OPTCR_BYTE0_ADDRESS, which decode back to that word |
| BootProcess.GetReply | Core/Src/BOOT_PROCESS.C:138-159 | GET sends 40 bytes: for each of the ten text blocks, `sizeof(const char *)` = 4 bytes, its first four characters |
| BootProcess.GetSendsIdPrefixOnly | Core/Src/BOOT_PROCESS.C:147 | Of the ID "0xFC10EA01", GET sends "0xFC" only |
| BootProcess.GetReplyFixed | Core/Src/BOOT_PROCESS.C:138-159 | The intended GET reply is the ten text blocks whole, concatenated in order |
| BootProcess.GetFixedCarriesEveryBlock | Core/Src/BOOT_PROCESS.C:138-159 | Every text block appears whole in the intended reply, after the blocks before it; the as-written reply's four bytes for that block are its start |
| BootProcess.EraseReply | Core/Src/BOOT_PROCESS.C:277-282 | Erase handlers send ACK alone, from TxBuffer[0], exactly when SectorError is 0xFFFFFFFF; otherwise NACK, from RxBuffer[0], then the code, from TxBuffer[0], then the low byte of SectorError |
| BootProcess.EraseFrameReply | Core/Src/BOOT_PROCESS.C:263-284 | ERASE asks HAL_FLASHEx_Erase for the sector at byte 1 and the count at byte 2, and replies by SectorError |
| BootProcess.MassEraseReply | Core/Src/BOOT_PROCESS.C:298-318 | MASS_ERASE asks for one mass erase and replies by SectorError |
| BootProcess.CpyReply | Core/Src/BOOT_PROCESS.C:331-344 | COPY decodes src at byte 1, dest at byte 5 and size at byte 8, calls BOOT_CPY_IMAGE once, and sends ACK alone when it returns 0, and otherwise NACK and the error code with RxBuffer[0] overwritten |
| BootProcess.CopySizeOverlapsDest | Core/Src/BOOT_PROCESS.C:335-336 | For a frame with dest 0x08004000 and size 16, the handler decodes size 0x1008, whose low byte is the top byte of dest |
| BootProcess.CopyFrameRoundTrip | Core/Src/BOOT_PROCESS.C:334-336 | A frame of three consecutive words decodes to those words when size is read at byte 9 |
| BootProcess.CpyReplyFixed | Core/Src/BOOT_PROCESS.C:331-344 | COPY with size read at byte 9: the same call, and the same exact reply bytes |
| BootProcess.CopyFixedDecodesFrame | Core/Src/BOOT_PROCESS.C:334-343 | The fixed COPY handler copies exactly the src, dest and size the frame carries |
| BootProcess.CopyNackedAfterRetry | Core/Src/BOOT_PROCESS.C:339-343 | A one-word copy that fails once and then succeeds is finished and the word programmed, yet the host is sent NACK |
| BootProcess.TransferReply | Core/Src/BOOT_PROCESS.C:468-474 | TRANSFER_CNTRL passes the address at byte 1 to BOOT_TRANSFER_CNTRL and sends nothing |
| BootProcess.TransferHandsOff | Core/Src/BOOT_PROCESS.C:468-474 | A frame carrying an address hands exactly that address to BOOT_TRANSFER_CNTRL, which jumps to the image there exactly when its stack-pointer word passes the test, with the image's second word as entry; the host gets no reply |
| BootProcess.Opcode | Core/Src/BOOT_PROCESS.C:109-122 | Each handler is installed at one live opcode |
| BootProcess.ProcessInit | Core/Src/BOOT_PROCESS.C:107-125 | PROCESS_INIT fills the fourteen live slots of the handler array |
| BootProcess.ProcessInitTable | Core/Src/BOOT_PROCESS.C:107-125 | Every handler sits at its own opcode and every slot holds the handler for its index: the table is a bijection between live opcodes and handlers |
| BootProcess.Handle | Core/Src/BOOT_PROCESS.C:138-474 | Every handler but TRANSFER_CNTRL sends at least one byte, and none makes more than four recorded calls |
| BootProcess.Dispatch | Core/Src/BOOT_PROCESS.C:107-125 | A frame runs a handler exactly when its first byte is a live opcode, the one installed for that byte; for a reserved opcode the result is `None`, standing for the unguarded call of an empty table slot |
| BootProcess.StatusRepliesAgree | Core/Src/BOOT_PROCESS.C:173-199 | Status handlers make one call and answer ACK (one byte) exactly when it succeeded, else NACK and a code (two bytes) |
| BootProcess.UnlockExample | Core/Src/BOOT_PROCESS.C:173-180 | An unlock frame whose unlock succeeds calls HAL_FLASH_Unlock once and is answered 0x41 |
| BootProcess.EraseExample | Core/Src/BOOT_PROCESS.C:263-284 | Erasing 2 sectors from sector 3 with a write-protection failure at sector 3 is answered 0x4E, 0xE4, 0x03 |
| Flasher.CommandNamesAreKeys | flasher.py:17-32 | The command table has exactly its fourteen names; "FLACH_LOCK", the key `lockFlash` uses, is not among them |
| Flasher.CommandsAgree | flasher.py:17-32 | The i-th command name maps to the device's i-th live opcode |
| Flasher.RepliesAgree | flasher.py:34-44 | The host's ACK and NACK are the device's; the ERRORS keys are exactly the device's error codes, in the same order |
| Flasher.BlockCount | flasher.py:80-92 | The block count is the least number of 16-byte blocks from min that reach max, and 0 when max < min |
| Flasher.CutBlocks | flasher.py:74-92 | The block loop yields BlockCount blocks: consecutive from minaddr, 16 bytes each, each byte the file's or 0xFF |
| Flasher.EveryAddressOnce | flasher.py:80-92 | Every address in [min, max] is in exactly one block, at position (a-min) % 16 of block (a-min) / 16, holding the file's byte or 0xFF |
| Flasher.PackU32Value | flasher.py:99 | On a little-endian host, `struct.pack("I", n)` gives four bytes that encode n in base 256, lowest first |
| Flasher.ProgramFrame | flasher.py:99 | A program frame is 21 bytes: FLASH_PROGRAM (0x03), the packed block address at bytes 1-4, and the block's data from byte 5 |
| Flasher.UnlockFrame | flasher.py:119-120 | The unlock frame is the single byte 0x01 |
| Flasher.ProgramFrameAgrees | flasher.py:99 | The device, with the intended data argument, decodes a host frame to the packed block address and programs words whose images are the block's successive 4-byte groups |
| Flasher.ProgramFrameAsWritten | flasher.py:99 | The device as written programs only the first byte of each 4-byte group of the block |
| Flasher.UnlockFrameAgrees | flasher.py:119-122 | The unlock frame makes the device call HAL_FLASH_Unlock once |
| Flasher.AckNeverRecognised | flasher.py:101-107 | `ret == ACK` never holds, as `bytes` never equals `int`; the intended test holds exactly for the one-byte reply 0x41, which SEND_ACK sends |
| Flasher.Write | flasher.py:80-117 | `writeImage` sends the frames of the blocks in order, at most one per block |
| Flasher.WriteStopsAfterFirstBlock | flasher.py:101-115 | As written, `writeImage` sends at most one frame and reports success only for an image with no blocks |
| Flasher.WriteFixedSendsUntilNack | flasher.py:80-117 | With the intended test, `writeImage` succeeds exactly when every frame is acknowledged and then sends all; otherwise it stops right after the first frame not acknowledged |

## Left out

- HAL internals (HAL_FLASH_Unlock/Lock/Program, HAL_FLASHEx_Erase, HAL_FLASHEx_OBProgram, HAL_FLASH_OB_Unlock/Lock/GetError): these are oracles. The handlers record the calls they make and receive their answers as parameters.
- HAL_UART_Transmit: modelled as the bytes appended to what was sent. Timeouts and transmit failures are ignored.
- BOOT_SYS_RESET: one opaque `SysReset` event in the trace. The image words are read from memory the reset does not touch.
- Busy-waits on FLASH_SR.BSY: taken to terminate. Timing (TRANS_WAIT_TIME, Flash_Lock's wait loop) is not modelled.
- The receive loop that fills RxBuffer and calls `Process_Handlers[RxBuffer[0]]`: not part of this model. `BootProcess.Dispatch` stands in for one call. The C indexes the table without a guard, so a reserved opcode calls an empty slot and a byte past the table reads beyond it; `Dispatch` returns `None` for both and leaves their effect open.
- RX_BUFFER_SIZE and TX_BUFFER_SIZE are not defined in the modelled files. The handlers require the buffers to cover the furthest byte any of them touches: 18 bytes of RxBuffer and 16 of TxBuffer.
- FlashCntrl.WrpEnable: requires a sector below 15, because `(1 << sector_num) << 16` on a signed `int` is undefined from 15 on.
- FlashCntrl.WrpDisable: requires a sector below 15, for the same reason.
- FlashCntrl.Erase: only sectors 0..11 of bank 1 have an address range. An SNB value of 12 or more erases nothing in the model.
- FlashCntrl.WrpEnable: the option-byte commit is modelled as OPTSTRT set and then cleared by the controller. Its effect on later writes to the protected sector is not modelled.
- FlashCntrl.CrWrite: a CR write while LOCK is set is ignored and raises no flag. The bus error and the lock-until-reset that the STM32F4 applies to a wrong key sequence are not modelled; the code only writes the right keys.
- BootCopy.CopyImage: when size exceeds 0xFFFFFFFC, the C index wraps to 0 and the loop starts over. The model instead stops with the `IndexWrapped` exit.
- BootCopy.CopiesEveryWord: requires non-overlapping source and destination ranges, each taken as the whole words the loop moves (`4 * WordCount(size)` bytes). An overlapping copy is not characterised.
- BootCopy.ReadsSource: requires non-overlapping whole-word ranges, as `BootCopy.Disjoint` states them. Whether addresses dest+idx stay distinct when they wrap past 2^32 is not proved.
- Machine.Mem: memory is a function from word address to word, so words at overlapping unaligned addresses are independent of each other. The copy lemmas therefore keep the whole-word byte ranges of source and destination apart (`BootCopy.Disjoint`) instead of relying on byte-level aliasing.
- BootProcess.ReadReply: states the four words a host decodes from the 16 bytes, rather than the bytes as laid out in memory, since memory is modelled word by word.
- BootProcess.CpyReply: its status is stated through CopyReturn, that is, through the copy loop's reference result. The unassigned case is read as whatever the stack slot holds.
- `lockFlash` in flasher.py: it looks up the key "FLACH_LOCK", which the table does not have. Only the missing key is stated (Flasher.CommandNamesAreKeys).
- The host's reading of the error report after a NACK is left out. That report is a count byte decoded with a signed `toInt`, then that many bytes, then ERRORS lookups, and the device never sends a count byte. On the device's ACK, which the as-written test rejects, `serial.read(1)` at flasher.py:110 returns `b''` after the time-out, and `toInt` at line 111 makes `struct.unpack` raise. The as-written writer then ends by raising rather than by yielding "Operation Failed!"; `Flasher.Write`'s `Written(_, false)` stands for both endings.
- Serial port handling, the progress bar and the IntelHex parsing of flasher.py are left out. The hex file's content is a map from address to byte, and its min and max addresses are parameters.
- `USB_DEVICE/App/usbdebug.c` (debug output) and `Core/Src/bootloader_Info.c` (the console help text): not part of this model.

## Findings

| source | as written | input that shows it | evidently intended | confidence | as-written member | corrected member |
|---|---|---|---|---|---|---|
| Core/Src/flash_cntrl.c:136-186 | `error_type` is never initialised, so with no checked flag set Flash_Errors_Check returns an uninitialised value | any write the controller accepts, on a clean SR | initialise `error_type` to Ok_State | not executed | FlashCntrl.AcceptedWriteIsUnassigned | FlashCntrl.ErrorsCheckInit |
| Core/Src/flash_cntrl.c:291 | the sector number is OR-ed into SNB without clearing it first | erase sector 1, then sector 2: SNB becomes 3 and sector 3 is erased | clear SNB before writing the sector number | not executed | FlashCntrl.SecondEraseHitsWrongSector | FlashCntrl.SecondEraseFixedHitsRequestedSector |
| Core/Src/boot_cntrl.c:183-199 | `operation_state_error` keeps the code of a retried failure, so a copy that finished returns non-zero | one word: the first program call fails with code 2, the second succeeds | return HAL_OK when every word was programmed | not executed | BootCopy.StaleResultAfterRetry | BootCopy.CopyImageFixed |
| Core/Src/boot_cntrl.c:86 | the stack-pointer test checks bit 29 only | an erased image: first word 0xFFFFFFFF passes, and control jumps to 0xFFFFFFFF | require the stack pointer to lie in SRAM | not executed | BootCntrl.ErasedImageAccepted | BootCntrl.TransferControlChecked |
| Core/Src/BOOT_PROCESS.C:219 | the data argument is the single byte RxBuffer[5 + 4*idx] | a frame whose first data word is 0x44332211 programs 0x00000011 | pass the 32-bit word at RxBuffer[5 + 4*idx] | not executed | BootProcess.ProgDropsUpperBytes | Flasher.ProgramFrameAgrees |
| Core/Src/BOOT_PROCESS.C:336 | SIZE_OFFSET is 8, inside the dest field at bytes 5-8 | dest 0x08004000 and size 16 decode as size 0x1008 | read size at byte 9 | not executed | BootProcess.CopySizeOverlapsDest | BootProcess.CopyFixedDecodesFrame |
| Core/Src/BOOT_PROCESS.C:141-157 | each text block is sent with length `sizeof` of a `const char *`, 4 bytes | any GET: 40 bytes, and of the ID only "0xFC" | send each block's full length | not executed | BootProcess.GetSendsIdPrefixOnly | BootProcess.GetFixedCarriesEveryBlock |
| flasher.py:103 | `ret == ACK` compares the `bytes` from `serial.read(1)` with an `int` | the device's ACK, b'\x41', fails the test, so writing stops after the first block | compare with `bytes([ACK])` | not executed | Flasher.WriteStopsAfterFirstBlock | Flasher.WriteFixedSendsUntilNack |
